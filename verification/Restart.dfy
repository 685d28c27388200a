/** The account file across a whole run of the server. */
module Restart {
  import opened Wrappers
  import opened Text
  import opened Tables
  import opened ScMessages
  import opened Accounts
  import opened Protocol
  import opened Guarantees

  lemma AuthenticateCalls(s: Server, i: nat, m: ScMessage) returns (calls: seq<AuthCall>)
    requires i < |s.sessions|
    ensures Authenticate(s, i, m).auth == Run(s.auth, calls)
  {
    calls := [];
    if m.kind == REGISTER && m.GetProperty("username").Some? && m.GetProperty("password").Some? {
      calls := [RegisterCall(m.GetProperty("username").value, m.GetProperty("password").value)];
      assert calls[1..] == [];
    }
  }

  lemma StepCalls(s: Server, e: Event) returns (calls: seq<AuthCall>)
    ensures Step(s, e).auth == Run(s.auth, calls)
  {
    calls := [];
    if Enabled(s, e) && e.AuthReadDone? && !e.error {
      var f := Filled(s, e.i, false, e.more);
      if Decode(f.sessions[e.i].buffer).Accepted? {
        calls := AuthenticateCalls(f, e.i, Decode(f.sessions[e.i].buffer).msg);
      }
    }
  }

  lemma {:induction false} RunAppend(s: AuthState, a: seq<AuthCall>, b: seq<AuthCall>)
    ensures Run(s, a + b) == Run(Run(s, a), b)
    decreases a
  {
    if a == [] {
      assert a + b == b;
    } else {
      assert (a + b)[1..] == a[1..] + b;
      RunAppend(AfterCall(s, a[0]), a[1..], b);
    }
  }

  /** Whatever the sessions do, the account table goes through a run of the account manager. */
  lemma {:induction false} ServerCalls(s: Server, events: seq<Event>) returns (calls: seq<AuthCall>)
    ensures After(s, events).auth == Run(s.auth, calls)
    decreases events
  {
    if events == [] {
      calls := [];
    } else {
      var first := StepCalls(s, events[0]);
      var rest := ServerCalls(Step(s, events[0]), events[1..]);
      calls := first + rest;
      RunAppend(s.auth, first, rest);
    }
  }

  /**
   * The account file when the program has ended. Nothing catches an exception that leaves a handler,
   * so `std::terminate` ends the program and `Destroy` does not run; otherwise it writes if the file
   * can be opened again.
   */
  function FileAtEnd(s: Server, file: string, opens: bool): string {
    if s.aborted || !opens then file else AfterDestroy(s.auth, file)
  }

  /**
   * When accounts survive a restart, for every readable file and every run: exactly when nobody
   * registered, or the end of the run wrote the file, every account is free of spaces and newlines,
   * and old text left behind by a shorter listing agrees with the table.
   */
  lemma AccountsSurviveIff(file: string, events: seq<Event>, opens: bool)
    requires Load(file).Some?
    ensures var s := After(Start(Opened(file)), events);
      var text := Listing(s.auth.info);
      Load(FileAtEnd(s, file, opens)) == Some(s.auth.info)
      <==> s.auth.outdated ==>
             && !s.aborted && opens && Clean(s.auth.info)
             && (|text| < |file| ==> TailAgrees(s.auth.info, file[|text|..]))
  {
    var s := After(Start(Opened(file)), events);
    var calls := ServerCalls(Start(Opened(file)), events);
    RunGrows(Opened(file), calls);
    if s.auth.outdated {
      OverwriteReloadIff(s.auth.info, file);
    }
  }

  /**
   * For a file with distinct names nothing is ever left behind: after an orderly end the file holds
   * exactly the listing, and a restart finds the same accounts exactly when every name and password
   * is free of spaces and newlines. After an exception the old file stays, and it is still right
   * exactly when nobody registered.
   */
  lemma AccountsSurviveRestart(file: string, events: seq<Event>, opens: bool)
    requires Load(file).Some? && DistinctKeys(AccountLines(Tokens(file, '\n')))
    ensures var s := After(Start(Opened(file)), events);
      var after := FileAtEnd(s, file, opens);
      && after == (if s.auth.outdated && !s.aborted && opens then Listing(s.auth.info) else file)
      && (Load(after) == Some(s.auth.info)
          <==> Clean(s.auth.info) && (s.aborted || !opens ==> !s.auth.outdated))
  {
    var s := After(Start(Opened(file)), events);
    var calls := ServerCalls(Start(Opened(file)), events);
    AccountsSurviveIff(file, events, opens);
    Durable(file, calls);
    RunGrows(Opened(file), calls);
    LoadedClean(file);
    FileFits(file);
  }

  // ----- many runs in a row

  /** One run of the program, and whether the file can be opened again at its end. */
  datatype Lifetime = Lifetime(events: seq<Event>, opens: bool)

  /** The state in which a run of the program on this file ends. */
  ghost function Ended(file: string, life: Lifetime): Server
    requires Load(file).Some?
  {
    After(Start(Opened(file)), life.events)
  }

  /** The run ends without an exception and writes its file. */
  ghost predicate Orderly(file: string, life: Lifetime)
    requires Load(file).Some?
  {
    !Ended(file, life).aborted && life.opens
  }

  ghost predicate Sound(file: string) {
    Load(file).Some? && DistinctKeys(AccountLines(Tokens(file, '\n')))
  }

  /** The file after these runs, one after the other; a file that cannot be loaded stays as it is. */
  ghost function FileAfterAll(file: string, lives: seq<Lifetime>): string {
    if lives == [] then file
    else
      var before := FileAfterAll(file, lives[..|lives| - 1]);
      var last := lives[|lives| - 1];
      if Load(before).None? then before else FileAtEnd(Ended(before, last), before, last.opens)
  }

  /** Every orderly run ends with names and passwords free of spaces and newlines. */
  ghost predicate CleanLives(file: string, lives: seq<Lifetime>) {
    forall k :: 0 <= k < |lives| ==>
      var before := FileAfterAll(file, lives[..k]);
      Load(before).Some? && Orderly(before, lives[k]) ==> Clean(Ended(before, lives[k]).auth.info)
  }

  /** An orderly run among these registers the name with this password. */
  ghost predicate RegisteredIn(file: string, life: Lifetime, username: string, password: string) {
    && Load(file).Some? && Orderly(file, life)
    && exists n :: 0 <= n < |life.events|
                   && Registers(After(Start(Opened(file)), life.events[..n]), life.events[n], username, password)
  }

  /** The names of an ordered table are distinct, so a written listing is sound. */
  lemma ListingSound(m: Table)
    requires Clean(m)
    ensures Sound(Listing(m)) && Load(Listing(m)) == Some(m)
  {
    ReloadIff(m);
    ListingLinesParse(m);
    TokensOfLines(ListingLines(m), '\n');
    forall i, j | 0 <= i < j < |m| ensures m[i].key != m[j].key {
      LessIrreflexive(m[i].key);
    }
  }

  /** What one run does to a sound file: it stays sound, and exactly an orderly run's accounts are added. */
  lemma OneLifetime(file: string, life: Lifetime, username: string, password: string)
    requires Sound(file) && (Orderly(file, life) ==> Clean(Ended(file, life).auth.info))
    ensures var after := FileAtEnd(Ended(file, life), file, life.opens);
      && Sound(after)
      && (LoginOk(Load(after).value, username, password)
          <==> LoginOk(Load(file).value, username, password) || RegisteredIn(file, life, username, password))
  {
    var s := Ended(file, life);
    AccountsSurviveRestart(file, life.events, life.opens);
    AcceptedLaterIff(Start(Opened(file)), life.events, username, password);
    if Orderly(file, life) && s.auth.outdated {
      ListingSound(s.auth.info);
    }
  }

  /** Run number `k` of these registers the name with this password and ends orderly. */
  ghost predicate RegisteredAt(file: string, lives: seq<Lifetime>, k: nat, username: string, password: string) {
    k < |lives| && RegisteredIn(FileAfterAll(file, lives[..k]), lives[k], username, password)
  }

  ghost predicate EverRegistered(file: string, lives: seq<Lifetime>, username: string, password: string) {
    exists k: nat :: RegisteredAt(file, lives, k, username, password)
  }

  /** Earlier runs know nothing of the last one. */
  lemma FrontLives(file: string, lives: seq<Lifetime>, k: nat, username: string, password: string)
    requires k < |lives| - 1
    ensures var front := lives[..|lives| - 1];
      RegisteredAt(file, front, k, username, password) <==> RegisteredAt(file, lives, k, username, password)
  {
    assert lives[..|lives| - 1][..k] == lives[..k];
  }

  lemma LastOrEarlier(file: string, lives: seq<Lifetime>, username: string, password: string)
    requires lives != []
    ensures EverRegistered(file, lives, username, password)
            <==> || EverRegistered(file, lives[..|lives| - 1], username, password)
                 || RegisteredAt(file, lives, |lives| - 1, username, password)
  {
    var front := lives[..|lives| - 1];
    if k: nat :| RegisteredAt(file, lives, k, username, password) && k < |lives| - 1 {
      FrontLives(file, lives, k, username, password);
    }
    if k: nat :| RegisteredAt(file, front, k, username, password) {
      FrontLives(file, lives, k, username, password);
    }
  }

  lemma CleanFront(file: string, lives: seq<Lifetime>)
    requires lives != [] && CleanLives(file, lives)
    ensures CleanLives(file, lives[..|lives| - 1])
    ensures var before := FileAfterAll(file, lives[..|lives| - 1]);
      Load(before).Some? && Orderly(before, lives[|lives| - 1]) ==>
        Clean(Ended(before, lives[|lives| - 1]).auth.info)
  {
    var front := lives[..|lives| - 1];
    forall k | 0 <= k < |front| ensures front[..k] == lives[..k] && front[k] == lives[k] {
    }
  }

  lemma LastLifetime(file: string, lives: seq<Lifetime>, username: string, password: string)
    requires lives != [] && CleanLives(file, lives) && Sound(FileAfterAll(file, lives[..|lives| - 1]))
    ensures var before, after := FileAfterAll(file, lives[..|lives| - 1]), FileAfterAll(file, lives);
      && Sound(after)
      && (LoginOk(Load(after).value, username, password)
          <==> || LoginOk(Load(before).value, username, password)
               || RegisteredAt(file, lives, |lives| - 1, username, password))
  {
    CleanFront(file, lives);
    OneLifetime(FileAfterAll(file, lives[..|lives| - 1]), lives[|lives| - 1], username, password);
  }

  /**
   * Accounts over any number of runs: from a sound file, a login is accepted after all of them exactly
   * when the first file had that password for the name or an orderly earlier run registered them.
   */
  lemma {:induction false} ManyRuns(file: string, lives: seq<Lifetime>, username: string, password: string)
    requires Sound(file) && CleanLives(file, lives)
    ensures Sound(FileAfterAll(file, lives))
    ensures LoginOk(Load(FileAfterAll(file, lives)).value, username, password)
            <==> LoginOk(Load(file).value, username, password) || EverRegistered(file, lives, username, password)
    decreases |lives|
  {
    if lives != [] {
      CleanFront(file, lives);
      ManyRuns(file, lives[..|lives| - 1], username, password);
      LastLifetime(file, lives, username, password);
      LastOrEarlier(file, lives, username, password);
    }
  }
}
