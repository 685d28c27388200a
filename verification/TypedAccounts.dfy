/** Accounts whose names and passwords have passed the client's check for white space. */
module TypedAccounts {
  import opened Wrappers
  import opened Text
  import opened Tables
  import opened Times
  import opened ScMessages
  import opened ChatMessages
  import opened Accounts
  import opened Protocol
  import opened Invariants
  import opened Client
  import opened EndToEnd
  import opened Restart

  /** The frame of a request that the client's check lets through. */
  ghost predicate ClientRequest(frame: string) {
    exists kind, username, password ::
      && (kind == LOGIN || kind == REGISTER) && !HasWhitespace(username) && !HasWhitespace(password)
      && frame == Frame(GetAuthScMessage(kind, username, password).value)
  }

  /** A login read brings such a frame, or nothing because one is in the buffer. */
  ghost predicate FromClient(e: Event) {
    e.AuthReadDone? && !e.error ==> e.more == "" || ClientRequest(e.more)
  }

  // ----- separators in typed credentials

  /** A block behind a separator needs a space, which the check forbids. */
  lemma TypedTail(value: string)
    requires !HasWhitespace(value)
    ensures PropertyTail(value) <==> US !in value
  {
    if US !in value {
      FieldsSingle(value, US);
    } else {
      var i := Find(value, US, 0).value;
      SplitAt(value, i);
      FieldsFirst(value[..i], value[i + 1..], US);
      FieldsFree(value, US, ' ');
      var fields := Fields(value, US);
      assert |fields| > 1 && ' ' !in fields[1];
      assert !PropertyBlock(fields[1]);
    }
  }

  /**
   * A first request that the client's check lets through ends the server's run exactly if a separator
   * is left in the name or in the password.
   */
  lemma TypedSeparatorEnds(auth: AuthState, events: seq<Event>, i: nat, kind: ScType, username: string,
                           password: string)
    requires var s := After(Start(auth), events);
      !s.aborted && i < |s.sessions| && s.sessions[i].reading == AuthRead && s.sessions[i].buffer == ""
    requires (kind == LOGIN || kind == REGISTER) && !HasWhitespace(username) && !HasWhitespace(password)
    ensures var e := AuthReadDone(i, false, Frame(GetAuthScMessage(kind, username, password).value));
      Step(After(Start(auth), events), e).aborted <==> US in username || US in password
  {
    AnyCredentials(auth, events, i, kind, username, password);
    TypedTail(username);
    TypedTail(password);
  }

  /** What an accepted request carries: the credentials as typed. */
  lemma AcceptedRequest(frame: string)
    requires ClientRequest(frame) && Decode(frame).Accepted?
    ensures var m := Decode(frame).msg;
      && m.GetProperty("username").Some? && Plain(m.GetProperty("username").value)
      && m.GetProperty("password").Some? && Plain(m.GetProperty("password").value)
  {
    var kind, username, password :|
      && (kind == LOGIN || kind == REGISTER) && !HasWhitespace(username) && !HasWhitespace(password)
      && frame == Frame(GetAuthScMessage(kind, username, password).value);
    RequestParses(kind, username, password);
    TypedTail(username);
    TypedTail(password);
    AuthFrameDecodes(kind, username, password);
    WhitespaceIff(username);
    WhitespaceIff(password);
  }

  // ----- what every step keeps

  ghost predicate TypedSession(ss: SessionState) {
    ss.past.granted == [] ==> ss.buffer == "" || ClientRequest(ss.buffer)
  }

  ghost predicate Typed(s: Server) {
    Clean(s.auth.info) && forall i :: 0 <= i < |s.sessions| ==> TypedSession(s.sessions[i])
  }

  lemma RequestEnds(frame: string)
    requires ClientRequest(frame)
    ensures NUL in frame
  {
    var kind, username, password :|
      && (kind == LOGIN || kind == REGISTER) && !HasWhitespace(username) && !HasWhitespace(password)
      && frame == Frame(GetAuthScMessage(kind, username, password).value);
    assert frame[|frame| - 1] == NUL;
  }

  lemma FilledTyped(s: Server, i: nat, error: bool, more: string)
    requires Typed(s) && i < |s.sessions|
    requires !error ==> s.sessions[i].past.granted != []
                        || (ReadCompletes(s.sessions[i].buffer, more) && (more == "" || ClientRequest(more)))
    ensures Typed(Filled(s, i, error, more))
  {
    if !error {
      var ss := s.sessions[i];
      assert TypedSession(ss);
      if ss.past.granted == [] {
        FilledBuffer(ss.buffer, more);
      }
      assert TypedSession(ss.(buffer := ss.buffer + more));
    }
  }

  lemma FilledBuffer(buffer: string, more: string)
    requires buffer == "" || ClientRequest(buffer)
    requires ReadCompletes(buffer, more) && (more == "" || ClientRequest(more))
    ensures ClientRequest(buffer + more)
  {
    if buffer == "" {
      assert buffer + more == more;
    } else {
      RequestEnds(buffer);
      assert buffer + more == buffer;
    }
  }

  lemma AuthenticateTyped(s: Server, i: nat, m: ScMessage)
    requires Typed(s) && i < |s.sessions|
    requires var name, word := m.GetProperty("username"), m.GetProperty("password");
      name.Some? && word.Some? && Plain(name.value) && Plain(word.value)
    ensures Typed(Authenticate(s, i, m))
  {
    var name, word := m.GetProperty("username").value, m.GetProperty("password").value;
    if RegisterOk(s.auth.info, name) {
      CleanPut(s.auth.info, name, word);
    }
    assert TypedSession(s.sessions[i]);
  }

  lemma HandleAuthTyped(s: Server, i: nat, error: bool)
    requires Typed(s) && i < |s.sessions| && s.sessions[i].past.granted == []
    requires !error ==> s.sessions[i].buffer != ""
    ensures Typed(HandleAuth(s, i, error))
  {
    assert TypedSession(s.sessions[i]);
    if !error && Decode(s.sessions[i].buffer).Accepted? {
      AcceptedRequest(s.sessions[i].buffer);
      AuthenticateTyped(s, i, Decode(s.sessions[i].buffer).msg);
    }
  }

  lemma HandleChatTyped(s: Server, i: nat, error: bool, now: Stamp)
    requires Typed(s) && i < |s.sessions|
    ensures Typed(HandleChat(s, i, error, now))
  {
    if !error && Decode(s.sessions[i].buffer).Accepted? {
      var m := Decode(s.sessions[i].buffer).msg;
      if m.kind == MESSAGE && m.GetProperty("message[0]").Some? {
        PostTyped(s, i, m.GetProperty("message[0]").value, now);
      }
    }
  }

  lemma PostTyped(s: Server, i: nat, src: string, now: Stamp)
    requires Typed(s) && i < |s.sessions|
    ensures Typed(Post(s, i, src, now))
  {
  }

  lemma RepliedTyped(s: Server, i: nat, error: bool)
    requires Typed(s) && i < |s.sessions| && s.sessions[i].reading.AuthReply?
    ensures Typed(Replied(s, i, error))
  {
    assert TypedSession(s.sessions[i]);
  }

  lemma WrittenTyped(s: Server, i: nat, error: bool)
    requires Typed(s) && i < |s.sessions| && s.sessions[i].queue != []
    ensures Typed(Written(s, i, error))
  {
    assert TypedSession(s.sessions[i]);
  }

  lemma StepTyped(s: Server, e: Event)
    requires Inv(s) && Typed(s) && FromClient(e)
    ensures Typed(Step(s, e))
  {
    if Enabled(s, e) {
      if !e.Accept? {
        assert SessionOk(s.sessions[e.i], e.i in s.room, s.log, s.auth.info);
      }
      match e
      case Accept =>
      case HandshakeDone(i, error) =>
      case AuthReadDone(i, error, more) =>
        FilledTyped(s, i, error, more);
        HandleAuthTyped(Filled(s, i, error, more), i, error);
      case AuthReplyDone(i, error) => RepliedTyped(s, i, error);
      case ChatReadDone(i, error, more, now) =>
        FilledTyped(s, i, error, more);
        HandleChatTyped(Filled(s, i, error, more), i, error, now);
      case QueueWriteDone(i, error) => WrittenTyped(s, i, error);
    }
  }

  lemma {:induction false} RunTyped(s: Server, events: seq<Event>)
    requires Inv(s) && Typed(s) && forall n :: 0 <= n < |events| ==> FromClient(events[n])
    ensures Typed(After(s, events))
    decreases events
  {
    if events != [] {
      StepTyped(s, events[0]);
      StepInv(s, events[0]);
      RunTyped(Step(s, events[0]), events[1..]);
    }
  }

  /**
   * Accounts that were registered through the client survive an orderly restart: from a file with
   * distinct names, if every request comes from a client that checks for white space, a restart finds
   * exactly the accounts of the run.
   */
  lemma ClientAccountsSurvive(file: string, events: seq<Event>)
    requires Sound(file) && forall n :: 0 <= n < |events| ==> FromClient(events[n])
    requires !After(Start(Opened(file)), events).aborted
    ensures var s := After(Start(Opened(file)), events);
      Load(FileAtEnd(s, file, true)) == Some(s.auth.info)
  {
    InitInv(Opened(file));
    LoadedClean(file);
    RunTyped(Start(Opened(file)), events);
    AccountsSurviveRestart(file, events, true);
  }
}
