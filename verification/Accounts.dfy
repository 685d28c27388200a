/** The account table: loaded from a file, extended by registrations, written back over the old file. */
module Accounts {
  import opened Wrappers
  import opened Text
  import opened Tables

  // ----- the file format

  /**
   * One line of the file. A line without a space is both name and password, because `npos + 1` is 0;
   * a second space is refused.
   */
  function ParseLine(line: string): Option<Entry> {
    match Find(line, ' ', 0)
    case None => Some(Entry(line, line))
    case Some(i) =>
      if Find(line, ' ', i + 1).Some? then None else Some(Entry(line[..i], line[i + 1..]))
  }

  function ListingLine(e: Entry): string {
    e.key + " " + e.value
  }

  function ListingLines(m: seq<Entry>): seq<string> {
    seq(|m|, i requires 0 <= i < |m| => ListingLine(m[i]))
  }

  /** What the destructor prints. */
  function Listing(m: seq<Entry>): string {
    Lines(ListingLines(m), '\n')
  }

  ghost predicate AllLines(lines: seq<string>) {
    forall i :: 0 <= i < |lines| ==> ParseLine(lines[i]).Some?
  }

  function AccountLines(lines: seq<string>): seq<Entry>
    requires AllLines(lines)
  {
    seq(|lines|, i requires 0 <= i < |lines| => ParseLine(lines[i]).value)
  }

  /** The table a file stands for; `None` when a line is refused. */
  ghost function Load(file: string): Option<Table> {
    var lines := Tokens(file, '\n');
    if AllLines(lines) then Some(SetAll([], AccountLines(lines))) else None
  }

  /** Writing from offset 0 without truncation: what lies beyond the new text stays. */
  function Overwrite(file: string, text: string): string {
    text + (if |text| < |file| then file[|text|..] else "")
  }

  // ----- one run of the manager

  datatype AuthState = AuthState(info: Table, outdated: bool)

  function LoginOk(info: Table, username: string, password: string): bool {
    Get(info, username) == Some(password)
  }

  function RegisterOk(info: Table, username: string): bool {
    Get(info, username).None?
  }

  function AfterRegister(s: AuthState, username: string, password: string): AuthState {
    if RegisterOk(s.info, username) then AuthState(Set(s.info, username, password), true) else s
  }

  /** What the destructor makes of the file. */
  function AfterDestroy(s: AuthState, file: string): string {
    if s.outdated then Overwrite(file, Listing(s.info)) else file
  }

  class FileAuthManager {
    var auth_filename: string
    var is_file_outdated: bool
    var auth_info: Table

    constructor ()
      ensures State() == AuthState([], false) && auth_filename == ""
    {
      auth_filename, is_file_outdated, auth_info := "", false, [];
    }

    function State(): AuthState
      reads this
    {
      AuthState(auth_info, is_file_outdated)
    }

    /** `files` are the files that can be opened, by name; a failed setup throws. */
    method Setup(filename: string, files: map<string, string>) returns (ok: bool)
      requires "" !in files
      modifies this`auth_info, this`auth_filename
      ensures ok <==> filename in files && Load(files[filename]).Some?
      ensures auth_filename == if ok then filename else old(auth_filename)
      ensures filename !in files ==> auth_info == old(auth_info)
      ensures filename in files ==> Mapped(old(auth_info), Tokens(files[filename], '\n'), ok, auth_info)
    {
      if filename !in files {
        return false;
      }
      ok := MapAuthInfoStr(files[filename]);
      if ok {
        auth_filename := filename;
      }
    }

    /** A refused line throws; the lines before it stay loaded. */
    method MapAuthInfoStr(file: string) returns (ok: bool)
      modifies this`auth_info
      ensures ok <==> Load(file).Some?
      ensures Mapped(old(auth_info), Tokens(file, '\n'), ok, auth_info)
    {
      var lines := Split(file, '\n');
      for i := 0 to |lines|
        invariant AllLines(lines[..i])
        invariant auth_info == SetAll(old(auth_info), AccountLines(lines[..i]))
      {
        var line := lines[i];
        var space := Find(line, ' ', 0);
        if Find(line, ' ', if space.Some? then space.value + 1 else 0).Some? {
          OneMoreLine(old(auth_info), lines, i);
          assert BadLine(lines, i);
          return false;
        }
        var username, password := line, line;
        if space.Some? {
          username, password := line[..space.value], line[space.value + 1..];
        }
        OneMoreLine(old(auth_info), lines, i);
        auth_info := Set(auth_info, username, password);
      }
      assert lines[..|lines|] == lines;
      return true;
    }

    method Login(username: string, password: string) returns (success: bool)
      ensures success == LoginOk(auth_info, username, password)
    {
      var known := Get(auth_info, username);
      return known.Some? && known.value == password;
    }

    method Register(username: string, password: string) returns (success: bool)
      modifies this`auth_info, this`is_file_outdated
      ensures success == RegisterOk(old(auth_info), username)
      ensures State() == AfterRegister(old(State()), username, password)
    {
      if Get(auth_info, username).Some? {
        return false;
      }
      if !is_file_outdated {
        is_file_outdated := true;
      }
      auth_info := Set(auth_info, username, password);
      return true;
    }

    /** The destructor: writes the file that `Setup` read, if it can be opened, and no other. */
    method Destroy(files: map<string, string>) returns (after: map<string, string>)
      requires "" !in files
      ensures after == if auth_filename in files
                       then files[auth_filename := AfterDestroy(State(), files[auth_filename])]
                       else files
    {
      after := files;
      if is_file_outdated {
        if auth_filename !in files {
          return files;
        }
        var text := WriteAll(files[auth_filename]);
        after := files[auth_filename := text];
      }
    }

    /** Each `<<` overwrites the file at the current position. */
    method WriteAll(file: string) returns (after: string)
      ensures after == Overwrite(file, Listing(auth_info))
    {
      after := file;
      var pos := 0;
      ghost var lines := ListingLines(auth_info);
      for i := 0 to |auth_info|
        invariant pos == |Lines(lines[..i], '\n')|
        invariant after == Overwrite(file, Lines(lines[..i], '\n'))
      {
        var text := auth_info[i].key + " " + auth_info[i].value + "\n";
        OneMoreEntry(lines, i, text);
        OverwriteFurther(file, Lines(lines[..i], '\n'), text);
        after := WriteAt(after, pos, text);
        pos := pos + |text|;
      }
      assert lines[..|auth_info|] == lines;
    }
  }

  /** A table after its lines were loaded: all of them, or those before the first that is refused. */
  ghost predicate Mapped(before: Table, lines: seq<string>, ok: bool, after: Table) {
    if ok then AllLines(lines) && after == SetAll(before, AccountLines(lines))
    else exists n :: 0 <= n < |lines| && BadLine(lines, n) && after == SetAll(before, AccountLines(lines[..n]))
  }

  /** The first refused line. */
  ghost predicate BadLine(lines: seq<string>, n: nat)
    requires n < |lines|
  {
    AllLines(lines[..n]) && ParseLine(lines[n]).None?
  }

  lemma OneMoreLine(m: Table, lines: seq<string>, i: nat)
    requires i < |lines| && AllLines(lines[..i])
    ensures AllLines(lines[..i + 1]) <==> ParseLine(lines[i]).Some?
    ensures ParseLine(lines[i]).None? ==> !AllLines(lines)
    ensures ParseLine(lines[i]).Some? ==>
              var e := ParseLine(lines[i]).value;
              SetAll(m, AccountLines(lines[..i + 1])) == Set(SetAll(m, AccountLines(lines[..i])), e.key, e.value)
  {
    assert lines[..i + 1][i] == lines[i];
    forall k | 0 <= k < i ensures ParseLine(lines[k]).Some? {
      assert lines[..i][k] == lines[k];
    }
    if ParseLine(lines[i]).Some? {
      var accounts := AccountLines(lines[..i + 1]);
      assert accounts[..|accounts| - 1] == AccountLines(lines[..i]);
    }
  }

  lemma OneMoreEntry(lines: seq<string>, i: nat, text: string)
    requires i < |lines| && text == lines[i] + "\n"
    ensures Lines(lines[..i + 1], '\n') == Lines(lines[..i], '\n') + text
  {
    assert lines[..i + 1] == lines[..i] + [lines[i]];
    LinesAppend(lines[..i], [lines[i]], '\n');
    assert Lines([lines[i]], '\n') == text;
  }

  /** One `<<` on a stream whose position is `pos`. */
  function WriteAt(file: string, pos: nat, text: string): string
    requires pos <= |file|
  {
    file[..pos] + text + (if pos + |text| < |file| then file[pos + |text|..] else "")
  }

  lemma OverwriteFurther(file: string, done: string, text: string)
    ensures Overwrite(file, done + text) == WriteAt(Overwrite(file, done), |done|, text)
  {
  }

  // ----- names and passwords that the format can carry

  predicate Plain(s: string) {
    ' ' !in s && '\n' !in s
  }

  ghost predicate Clean(m: seq<Entry>) {
    forall e :: e in m ==> Plain(e.key) && Plain(e.value)
  }

  lemma ParsedLinePlain(line: string)
    requires '\n' !in line && ParseLine(line).Some?
    ensures Plain(ParseLine(line).value.key) && Plain(ParseLine(line).value.value)
    ensures |line| <= |ListingLine(ParseLine(line).value)|
  {
  }

  lemma PrintedLineParses(e: Entry)
    ensures ParseLine(ListingLine(e)) == Some(e) <==> ' ' !in e.key && ' ' !in e.value
  {
    var line := ListingLine(e);
    var n := |e.key|;
    assert line[..n] == e.key && line[n] == ' ' && line[n + 1..] == e.value;
    if ' ' !in e.key && ' ' !in e.value {
      FirstIndex(line, ' ', n);
      assert Find(line, ' ', n + 1) == None by {
        forall j | n + 1 <= j < |line| ensures line[j] != ' ' { assert line[j] == e.value[j - n - 1]; }
      }
    }
    if ParseLine(line) == Some(e) {
      var first := Find(line, ' ', 0);
      assert ' ' !in line[..first.value] && ' ' !in line[first.value + 1..];
    }
  }

  /** Everything loaded from a file is clean. */
  lemma LoadedClean(file: string)
    requires Load(file).Some?
    ensures Clean(Load(file).value)
  {
    var lines := Tokens(file, '\n');
    LinesOfTokens(file, '\n');
    SetAllEntries(AccountLines(lines));
    forall e | e in Load(file).value ensures Plain(e.key) && Plain(e.value) {
      var i :| 0 <= i < |lines| && AccountLines(lines)[i] == e;
      ParsedLinePlain(lines[i]);
    }
  }

  lemma ListingLinesParse(m: seq<Entry>)
    requires Clean(m)
    ensures Free(ListingLines(m), '\n') && AllLines(ListingLines(m)) && AccountLines(ListingLines(m)) == m
  {
    var lines := ListingLines(m);
    forall i | 0 <= i < |lines| ensures '\n' !in lines[i] && ParseLine(lines[i]) == Some(m[i]) {
      assert m[i] in m;
      PrintedLineParses(m[i]);
      assert lines[i] == m[i].key + " " + m[i].value;
    }
    assert AccountLines(lines) == m;
  }

  /** A written table is loaded back unchanged exactly when no field contains a space or a newline. */
  lemma ReloadIff(m: Table)
    ensures Load(Listing(m)) == Some(m) <==> Clean(m)
  {
    if Clean(m) {
      ListingLinesParse(m);
      TokensOfLines(ListingLines(m), '\n');
      SetAllOwn(m);
    } else if Load(Listing(m)) == Some(m) {
      LoadedClean(Listing(m));
    }
  }

  /** A line is read as a name and a password around its only space, or as both when it has none. */
  lemma ParseLineIff(line: string, e: Entry)
    ensures ParseLine(line) == Some(e)
            <==> || (line == e.key + [' '] + e.value && ' ' !in e.key && ' ' !in e.value)
                 || (' ' !in line && e == Entry(line, line))
  {
    if line == e.key + [' '] + e.value && ' ' !in e.key && ' ' !in e.value {
      PrintedLineParses(e);
      assert line == ListingLine(e);
    }
    if ParseLine(line) == Some(e) && ' ' in line {
      SplitAt(line, Find(line, ' ', 0).value);
    }
  }

  /** A line of the file without a space is an account whose password is its name, unless a later line sets it. */
  lemma BareLineLogin(file: string, i: nat, password: string)
    requires Load(file).Some?
    requires var lines := Tokens(file, '\n');
      && i < |lines| && ' ' !in lines[i]
      && forall j :: i < j < |lines| ==> AccountLines(lines)[j].key != lines[i]
    ensures var name := Tokens(file, '\n')[i];
      LoginOk(Load(file).value, name, password) <==> password == name
  {
    var entries := AccountLines(Tokens(file, '\n'));
    ParseLineIff(Tokens(file, '\n')[i], entries[i]);
    LastAt(entries, i);
    GetSetAll([], entries, entries[i].key);
  }

  // ----- runs of calls

  datatype AuthCall = LoginCall(username: string, password: string) | RegisterCall(username: string, password: string)

  function AfterCall(s: AuthState, call: AuthCall): AuthState {
    match call
    case LoginCall(_, _) => s
    case RegisterCall(username, password) => AfterRegister(s, username, password)
  }

  function Run(s: AuthState, calls: seq<AuthCall>): AuthState
    decreases calls
  {
    if calls == [] then s else Run(AfterCall(s, calls[0]), calls[1..])
  }

  /** The state after `Setup` of a readable file. */
  ghost function Opened(file: string): AuthState
    requires Load(file).Some?
  {
    AuthState(Load(file).value, false)
  }

  /** The password of the first registration of a name. */
  function FirstRegistered(calls: seq<AuthCall>, username: string): Option<string> {
    if calls == [] then None
    else if calls[0].RegisterCall? && calls[0].username == username then Some(calls[0].password)
    else FirstRegistered(calls[1..], username)
  }

  /** A run adds names and changes no password: a new name keeps its first registration. */
  lemma {:induction false} RunLookups(s: AuthState, calls: seq<AuthCall>, username: string)
    ensures Get(Run(s, calls).info, username)
            == if Get(s.info, username).Some? then Get(s.info, username) else FirstRegistered(calls, username)
    decreases calls
  {
    if calls != [] {
      var next := AfterCall(s, calls[0]);
      RunLookups(next, calls[1..], username);
      GetSet(s.info, calls[0].username, calls[0].password, username);
    }
  }

  /**
   * A login succeeds exactly with the password on the name's last line of the file or, for a name the
   * file lacks, with the password of the first registration since.
   */
  lemma LoginMeaning(file: string, calls: seq<AuthCall>, username: string, password: string)
    requires Load(file).Some?
    ensures var last := LastValue(AccountLines(Tokens(file, '\n')), username);
      LoginOk(Run(Opened(file), calls).info, username, password)
      <==> Some(password) == if last.Some? then last else FirstRegistered(calls, username)
  {
    RunLookups(Opened(file), calls, username);
    GetSetAll([], AccountLines(Tokens(file, '\n')), username);
  }

  // ----- durability

  lemma ListingCons(e: Entry, m: seq<Entry>)
    ensures Listing([e] + m) == ListingLine(e) + "\n" + Listing(m)
  {
    assert ListingLines([e] + m)[1..] == ListingLines(m);
  }

  function Size(m: seq<Entry>): nat {
    if m == [] then 0 else |m[0].key| + |m[0].value| + 2 + Size(m[1..])
  }

  lemma {:induction false} ListingSize(m: seq<Entry>)
    ensures |Listing(m)| == Size(m)
  {
    if m != [] {
      assert m == [m[0]] + m[1..];
      ListingCons(m[0], m[1..]);
      ListingSize(m[1..]);
    }
  }

  lemma {:induction false} SizeOfPut(m: seq<Entry>, k: string, v: string)
    requires Get(m, k) == None
    ensures Size(Put(m, k, v)) == Size(m) + |k| + |v| + 2
  {
    if m != [] && !Less(k, m[0].key) {
      SizeOfPut(m[1..], k, v);
      assert Put(m, k, v)[1..] == Put(m[1..], k, v);
    }
  }

  lemma {:induction false} SizeAppend(m: seq<Entry>, e: Entry)
    ensures Size(m + [e]) == Size(m) + |e.key| + |e.value| + 2
  {
    if m != [] {
      assert (m + [e])[1..] == m[1..] + [e];
      SizeAppend(m[1..], e);
    } else {
      assert m + [e] == [e] && [e][1..] == [];
    }
  }

  ghost predicate DistinctKeys(entries: seq<Entry>) {
    forall i, j :: 0 <= i < j < |entries| ==> entries[i].key != entries[j].key
  }

  lemma {:induction false} SizeOfSetAll(entries: seq<Entry>)
    requires DistinctKeys(entries)
    ensures Size(SetAll([], entries)) == Size(entries)
  {
    if entries != [] {
      var front, last := entries[..|entries| - 1], entries[|entries| - 1];
      SizeOfSetAll(front);
      var m := SetAll([], front);
      GetFinds(m, last.key);
      SetAllEntries(front);
      SizeOfPut(m, last.key, last.value);
      assert entries == front + [last];
      SizeAppend(front, last);
    }
  }

  lemma {:induction false} LinesFit(lines: seq<string>)
    requires AllLines(lines) && forall i :: 0 <= i < |lines| ==> '\n' !in lines[i]
    ensures |Lines(lines, '\n')| <= Size(AccountLines(lines))
  {
    if lines != [] {
      ParsedLinePlain(lines[0]);
      LinesFit(lines[1..]);
      assert AccountLines(lines)[1..] == AccountLines(lines[1..]);
    }
  }

  /** A file whose names are distinct is never longer than the listing of its table. */
  lemma FileFits(file: string)
    requires Load(file).Some? && DistinctKeys(AccountLines(Tokens(file, '\n')))
    ensures |file| <= |Listing(Load(file).value)|
  {
    var lines := Tokens(file, '\n');
    LinesOfTokens(file, '\n');
    LinesFit(lines);
    SizeOfSetAll(AccountLines(lines));
    ListingSize(Load(file).value);
  }

  lemma {:induction false} RunGrows(s: AuthState, calls: seq<AuthCall>)
    ensures |Listing(s.info)| <= |Listing(Run(s, calls).info)|
    ensures s.outdated ==> Run(s, calls).outdated
    ensures !Run(s, calls).outdated ==> Run(s, calls) == s
    ensures Run(s, calls).outdated && !s.outdated ==> |Listing(s.info)| < |Listing(Run(s, calls).info)|
    decreases calls
  {
    if calls != [] {
      var call := calls[0];
      var next := AfterCall(s, call);
      RunGrows(next, calls[1..]);
      if call.RegisterCall? && RegisterOk(s.info, call.username) {
        SizeOfPut(s.info, call.username, call.password);
        ListingSize(s.info);
        ListingSize(next.info);
      }
    }
  }

  /** Every registration that succeeds brings fields without space and newline. */
  predicate PlainRun(s: AuthState, calls: seq<AuthCall>)
    decreases calls
  {
    calls == [] ||
    (&& (calls[0].RegisterCall? && RegisterOk(s.info, calls[0].username)
         ==> Plain(calls[0].username) && Plain(calls[0].password))
     && PlainRun(AfterCall(s, calls[0]), calls[1..]))
  }

  lemma {:induction false} RunCleanIff(s: AuthState, calls: seq<AuthCall>)
    ensures Clean(Run(s, calls).info) <==> Clean(s.info) && PlainRun(s, calls)
    ensures !Run(s, calls).outdated ==> PlainRun(s, calls)
    decreases calls
  {
    if calls != [] {
      var call := calls[0];
      var next := AfterCall(s, call);
      RunCleanIff(next, calls[1..]);
      RunGrows(next, calls[1..]);
      if call.RegisterCall? && RegisterOk(s.info, call.username) {
        CleanPut(s.info, call.username, call.password);
      }
    }
  }

  lemma CleanPut(m: Table, k: string, v: string)
    requires Get(m, k) == None
    ensures Clean(Set(m, k, v)) <==> Clean(m) && Plain(k) && Plain(v)
  {
  }

  /** The untruncated overwrite leaves exactly the new text when that is no shorter than the file. */
  lemma OverwriteIff(file: string, text: string)
    ensures Overwrite(file, text) == text <==> |file| <= |text|
  {
  }

  /** What is left of the old file beyond the new text says nothing else than the table. */
  ghost predicate TailAgrees(m: Table, tail: string) {
    var lines := Tokens(tail, '\n');
    AllLines(lines) && Repeats(m, AccountLines(lines))
  }

  /** A listing with old text behind it is loaded as the same table exactly when that text agrees with it. */
  lemma ReloadTailIff(m: Table, tail: string)
    requires Clean(m)
    ensures Load(Listing(m) + tail) == Some(m) <==> TailAgrees(m, tail)
  {
    var rest := Tokens(tail, '\n');
    ListingLinesParse(m);
    TokensAfterLines(ListingLines(m), tail, '\n');
    LinesOnTop(m, ListingLines(m), rest);
    if AllLines(rest) {
      SetAllKeepsIff(m, AccountLines(rest));
    }
  }

  /** Lines that come after a table's own lines update that table. */
  lemma LinesOnTop(m: Table, lines: seq<string>, rest: seq<string>)
    requires AllLines(lines) && AccountLines(lines) == m
    ensures AllLines(lines + rest) <==> AllLines(rest)
    ensures AllLines(rest) ==> SetAll([], AccountLines(lines + rest)) == SetAll(m, AccountLines(rest))
  {
    AllLinesAppend(lines, rest);
    if AllLines(rest) {
      SetAllAppend([], m, AccountLines(rest));
      SetAllOwn(m);
    }
  }

  lemma AllLinesAppend(a: seq<string>, b: seq<string>)
    requires AllLines(a)
    ensures AllLines(a + b) <==> AllLines(b)
    ensures AllLines(b) ==> AccountLines(a + b) == AccountLines(a) + AccountLines(b)
  {
    if AllLines(a + b) {
      forall i | 0 <= i < |b| ensures ParseLine(b[i]).Some? {
        assert (a + b)[|a| + i] == b[i];
      }
    }
  }

  /** The overwritten file is loaded as the new table exactly under this condition, whatever the old file. */
  lemma OverwriteReloadIff(m: Table, file: string)
    ensures Load(Overwrite(file, Listing(m))) == Some(m)
            <==> Clean(m) && (|Listing(m)| < |file| ==> TailAgrees(m, file[|Listing(m)|..]))
  {
    if Clean(m) {
      if |Listing(m)| < |file| {
        ReloadTailIff(m, file[|Listing(m)|..]);
      } else {
        assert Listing(m) + "" == Listing(m);
        ReloadIff(m);
      }
    } else if Load(Overwrite(file, Listing(m))) == Some(m) {
      LoadedClean(Overwrite(file, Listing(m)));
    }
  }

  /**
   * When a restart loses nothing, for every readable file and any calls: the destructor leaves exactly
   * the new listing unless the old file is longer, and loading what it leaves gives the same table
   * exactly when every successful registration was free of spaces and newlines and any old text that
   * is left behind agrees with the table.
   */
  lemma DurableIff(file: string, calls: seq<AuthCall>)
    requires Load(file).Some?
    ensures var s := Run(Opened(file), calls);
      var text := Listing(s.info);
      && (s.outdated ==> (AfterDestroy(s, file) == text <==> |file| <= |text|))
      && (Load(AfterDestroy(s, file)) == Some(s.info)
          <==> && PlainRun(Opened(file), calls)
               && (s.outdated && |text| < |file| ==> TailAgrees(s.info, file[|text|..])))
  {
    var s := Run(Opened(file), calls);
    RunGrows(Opened(file), calls);
    LoadedClean(file);
    RunCleanIff(Opened(file), calls);
    OverwriteIff(file, Listing(s.info));
    OverwriteReloadIff(s.info, file);
  }

  /**
   * From any file with distinct names a restart loses nothing: the destructor leaves exactly the new
   * listing (or the old file, if nothing was registered), and only spaces and newlines in registered
   * fields can make a reload differ.
   */
  lemma Durable(file: string, calls: seq<AuthCall>)
    requires Load(file).Some? && DistinctKeys(AccountLines(Tokens(file, '\n')))
    ensures var s := Run(Opened(file), calls);
      && AfterDestroy(s, file) == (if s.outdated then Listing(s.info) else file)
      && (Load(AfterDestroy(s, file)) == Some(s.info) <==> PlainRun(Opened(file), calls))
  {
    FileFits(file);
    RunGrows(Opened(file), calls);
    DurableIff(file, calls);
  }

  /** Two lines for one name: after a registration the old file's last character stays behind. */
  lemma DuplicateNameNotDurable()
    ensures var file := Lines(["a bb", "a c"], '\n');
      && Load(file) == Some([Entry("a", "c")])
      && var s := Run(Opened(file), [RegisterCall("z", "q")]);
         && PlainRun(Opened(file), [RegisterCall("z", "q")])
         && AfterDestroy(s, file) == Listing(s.info) + "\n"
         && Load(AfterDestroy(s, file)) != Some(s.info)
  {
    assert ListingLine(Entry("a", "bb")) == "a bb" && ListingLine(Entry("a", "c")) == "a c";
    ShorterTable("a", "bb", "c", "z", "q");
  }

  lemma ShorterTable(k: string, v: string, w: string, z: string, q: string)
    requires Plain(k) && Plain(v) && Plain(w) && Plain(z) && Plain(q)
    requires k != "" && z != "" && Less(k, z) && |k| + |v| == |z| + |q| + 1
    ensures var file := Lines([ListingLine(Entry(k, v)), ListingLine(Entry(k, w))], '\n');
      && Load(file) == Some([Entry(k, w)])
      && var s := Run(Opened(file), [RegisterCall(z, q)]);
         && PlainRun(Opened(file), [RegisterCall(z, q)])
         && AfterDestroy(s, file) == Listing(s.info) + "\n"
         && Load(AfterDestroy(s, file)) != Some(s.info)
  {
    var file := Lines([ListingLine(Entry(k, v)), ListingLine(Entry(k, w))], '\n');
    TwoLinesLoad(k, v, w);
    TwoLinesSize(k, v, w);
    TwoEntries(k, w, z, q);
    SecondAccount(k, w, z, q);
    BlankLineAddsEmptyName([Entry(k, w), Entry(z, q)]);
    TailStays(file, Listing([Entry(k, w), Entry(z, q)]));
  }

  lemma SecondAccount(k: string, w: string, z: string, q: string)
    requires Less(k, z)
    ensures var s := AuthState([Entry(k, w)], false);
      && Run(s, [RegisterCall(z, q)]) == AuthState([Entry(k, w), Entry(z, q)], true)
      && (PlainRun(s, [RegisterCall(z, q)]) <==> Plain(z) && Plain(q))
  {
    LessIrreflexive(k);
    LessTotal(k, z);
    var s := AuthState([Entry(k, w)], false);
    OneRegistration(s, z, q);
    assert Put(s.info, z, q) == [Entry(k, w), Entry(z, q)];
  }

  lemma TailStays(file: string, text: string)
    requires |file| == |text| + 1
    ensures Overwrite(file, text) == text + [file[|file| - 1]]
  {
  }

  lemma TwoEntries(k: string, v: string, z: string, q: string)
    requires Plain(k) && Plain(v) && Plain(z) && Plain(q) && k != "" && z != ""
    ensures var m := [Entry(k, v), Entry(z, q)];
      Clean(m) && Get(m, "") == None && |Listing(m)| == |k| + |v| + |z| + |q| + 4
  {
    var m := [Entry(k, v), Entry(z, q)];
    assert m[1..] == [Entry(z, q)] && m[1..][1..] == [];
    assert Get(m[1..], "") == None;
    assert Size(m[1..]) == |z| + |q| + 2;
    ListingSize(m);
  }

  lemma TwoLinesSize(k: string, v: string, w: string)
    ensures var file := Lines([ListingLine(Entry(k, v)), ListingLine(Entry(k, w))], '\n');
      |file| == 2 * |k| + |v| + |w| + 4 && file[|file| - 1] == '\n'
  {
    var a, b := ListingLine(Entry(k, v)), ListingLine(Entry(k, w));
    assert [a, b][1..] == [b] && [b][1..] == [];
    assert Lines([b], '\n') == b + "\n";
    assert Lines([a, b], '\n') == a + "\n" + (b + "\n");
  }

  lemma OneRegistration(s: AuthState, k: string, v: string)
    requires Get(s.info, k) == None
    ensures Run(s, [RegisterCall(k, v)]) == AuthState(Set(s.info, k, v), true)
    ensures PlainRun(s, [RegisterCall(k, v)]) <==> Plain(k) && Plain(v)
  {
  }

  lemma TwoLinesLoad(k: string, v: string, w: string)
    requires Plain(k) && Plain(v) && Plain(w)
    ensures Load(Lines([ListingLine(Entry(k, v)), ListingLine(Entry(k, w))], '\n')) == Some([Entry(k, w)])
  {
    var calls := [Entry(k, v), Entry(k, w)];
    var lines := [ListingLine(calls[0]), ListingLine(calls[1])];
    forall i | 0 <= i < 2 ensures '\n' !in lines[i] && ParseLine(lines[i]) == Some(calls[i]) {
      PrintedLineParses(calls[i]);
      assert lines[i] == calls[i].key + " " + calls[i].value;
    }
    TokensOfLines(lines, '\n');
    assert AccountLines(lines) == calls;
    TwoUpdates(k, v, w);
  }

  lemma TwoUpdates(k: string, v: string, w: string)
    ensures SetAll([], [Entry(k, v), Entry(k, w)]) == [Entry(k, w)]
  {
    var calls := [Entry(k, v), Entry(k, w)];
    assert calls[..1] == [Entry(k, v)] && calls[..1][..0] == [];
    assert SetAll([], calls[..1]) == [Entry(k, v)];
  }

  /** One newline too many in the file is an account with an empty name and an empty password. */
  lemma BlankLineAddsEmptyName(m: Table)
    requires Clean(m)
    ensures Get(m, "").None? ==> Load(Listing(m) + "\n") != Some(m)
  {
    var lines := ListingLines(m);
    forall i | 0 <= i < |lines| ensures '\n' !in lines[i] {
      assert m[i] in m;
      assert lines[i] == m[i].key + " " + m[i].value;
    }
    var more := lines + [""];
    LinesAppend(lines, [""], '\n');
    assert Lines([""], '\n') == "\n";
    TokensOfLines(more, '\n');
    if AllLines(more) {
      GetSetAll([], AccountLines(more), "");
      assert AccountLines(more)[|lines|] == Entry("", "");
    }
  }
}
