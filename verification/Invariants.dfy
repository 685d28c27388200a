/** What every step of the server keeps. */
module Invariants {
  import opened Wrappers
  import opened Text
  import opened Tables
  import opened Times
  import opened ScMessages
  import opened ChatMessages
  import opened Accounts
  import opened Protocol

  // ----- the invariant of one session

  function Msgs(log: seq<Delivery>): seq<ScMessage> {
    seq(|log|, k requires 0 <= k < |log| => log[k].msg)
  }

  /** The part of the log that a session was in the room for. */
  function Window(past: Past, log: seq<Delivery>): seq<ScMessage>
    requires past.joined <= End(past, log) <= |log|
  {
    Msgs(log[past.joined..End(past, log)])
  }

  function End(past: Past, log: seq<Delivery>): nat {
    if past.left.Some? then past.left.value else |log|
  }

  /** Written messages and queued messages are the window, in order. */
  ghost predicate WindowOk(ss: SessionState, member: bool, log: seq<Delivery>) {
    && (member <==> ss.past.left.None?)
    && ss.past.joined <= End(ss.past, log) <= |log|
    && ss.past.sent + ss.queue == Window(ss.past, log)
  }

  /** One write in flight while messages wait, and it carries the first of them; none after a failure. */
  ghost predicate WriteOk(ss: SessionState, member: bool) {
    if ss.past.failed then !member && ss.writing == None && ss.queue != []
    else ss.writing == if ss.queue == [] then None else Some(Frame(ss.queue[0]))
  }

  predicate BeforeSuccess(r: Reading) {
    r == Handshake || r == AuthRead || (r.AuthReply? && !IsSuccess(r.answer))
  }

  /** The connection state that goes with the pending read, for a session whose queue writes succeed. */
  function StateFor(r: Reading): ConState {
    match r
    case Stopped => NotConnected
    case ChatRead => LoggedIn
    case _ => Connected
  }

  /**
   * Without a failed queue write the pending read determines the connection state and the membership;
   * after one the session is no member, and a success reply still in flight can make it LoggedIn.
   */
  ghost predicate StateOk(ss: SessionState, member: bool) {
    && (if ss.past.failed then
          !member && (ss.con == NotConnected || (ss.con == LoggedIn && ss.reading == ChatRead))
        else
          ss.con == StateFor(ss.reading) && (member <==> ss.reading != Stopped))
    && (ss.past.replied ==> ss.past.granted != [] && (ss.reading == ChatRead || ss.reading == Stopped))
    && (ss.reading == ChatRead ==> ss.past.replied)
    && (ss.reading.AuthReply? && IsSuccess(ss.reading.answer) ==> ss.past.granted != [])
    && (BeforeSuccess(ss.reading) ==> ss.past.granted == [])
  }

  /** The name is assigned at most once, and it is then an account. */
  ghost predicate NameOk(ss: SessionState, info: Table) {
    if ss.past.granted == [] then ss.username == ""
    else ss.past.granted == [ss.username] && Get(info, ss.username).Some? && US !in ss.username
  }

  ghost predicate SessionOk(ss: SessionState, member: bool, log: seq<Delivery>, info: Table) {
    WindowOk(ss, member, log) && WriteOk(ss, member) && StateOk(ss, member) && NameOk(ss, info)
  }

  /** A delivery carries the name of its sender, who has been told of the successful login. */
  ghost predicate DeliveryOk(d: Delivery, sessions: seq<SessionState>) {
    && d.sender < |sessions|
    && sessions[d.sender].past.replied
    && d.msg == GetMessageScMessage(Message(sessions[d.sender].username, d.text, d.time))
    && US !in d.text
  }

  ghost predicate Inv(s: Server) {
    && (forall i :: i in s.room ==> i < |s.sessions|)
    && (forall i :: 0 <= i < |s.sessions| ==> SessionOk(s.sessions[i], i in s.room, s.log, s.auth.info))
    && (forall k :: 0 <= k < |s.log| ==> DeliveryOk(s.log[k], s.sessions))
  }

  lemma InitInv(auth: AuthState)
    ensures Inv(Start(auth))
  {
  }

  // ----- replacing one session

  /** A changed session keeps the invariant of the whole when its own holds and the log's senders stay. */
  lemma ReplaceInv(s: Server, t: Server, i: nat)
    requires Inv(s) && i < |s.sessions| == |t.sessions|
    requires t.log == s.log && t.auth.info == s.auth.info
    requires t.sessions == s.sessions[i := t.sessions[i]]
    requires t.room == s.room || t.room == s.room - {i}
    requires SessionOk(t.sessions[i], i in t.room, s.log, s.auth.info)
    requires s.sessions[i].past.replied ==>
               t.sessions[i].past.replied && t.sessions[i].username == s.sessions[i].username
    ensures Inv(t)
  {
    forall j | 0 <= j < |t.sessions| ensures SessionOk(t.sessions[j], j in t.room, t.log, t.auth.info) {
      if j != i {
        assert SessionOk(s.sessions[j], j in s.room, s.log, s.auth.info);
      }
    }
    forall k | 0 <= k < |t.log| ensures DeliveryOk(t.log[k], t.sessions) {
      assert DeliveryOk(s.log[k], s.sessions);
    }
  }

  lemma StopInv(s: Server, i: nat)
    requires Inv(s) && i < |s.sessions|
    ensures Inv(Stop(s, i))
  {
    assert SessionOk(s.sessions[i], i in s.room, s.log, s.auth.info);
    var t := Stop(s, i);
    assert t.sessions == s.sessions[i := t.sessions[i]];
    ReplaceInv(s, t, i);
  }

  lemma ReadLoginInv(s: Server, i: nat, error: bool)
    requires Inv(s) && i < |s.sessions| && BeforeSuccess(s.sessions[i].reading)
    ensures Inv(ReadLogin(s, i, error))
  {
    assert SessionOk(s.sessions[i], i in s.room, s.log, s.auth.info);
    if error {
      StopInv(s, i);
    } else {
      ReplaceInv(s, ReadLogin(s, i, error), i);
    }
  }

  lemma FilledInv(s: Server, i: nat, error: bool, more: string)
    requires Inv(s) && i < |s.sessions|
    ensures Inv(Filled(s, i, error, more))
  {
    assert SessionOk(s.sessions[i], i in s.room, s.log, s.auth.info);
    if !error {
      ReplaceInv(s, Filled(s, i, error, more), i);
    }
  }

  lemma RepliedInv(s: Server, i: nat, error: bool)
    requires Inv(s) && i < |s.sessions| && s.sessions[i].reading.AuthReply?
    ensures Inv(Replied(s, i, error))
  {
    assert SessionOk(s.sessions[i], i in s.room, s.log, s.auth.info);
    if IsSuccess(s.sessions[i].reading.answer) {
      LoggedInInv(s, i, error);
    } else {
      var t := With(s, i, Answered(s.sessions[i], error));
      ReplaceInv(s, t, i);
      ReadLoginInv(t, i, error);
    }
  }

  lemma LoggedInInv(s: Server, i: nat, error: bool)
    requires Inv(s) && i < |s.sessions| && s.sessions[i].reading.AuthReply?
    requires IsSuccess(s.sessions[i].reading.answer)
    ensures Inv(Replied(s, i, error))
  {
    assert SessionOk(s.sessions[i], i in s.room, s.log, s.auth.info);
    var t := Replied(s, i, error);
    assert t.sessions == s.sessions[i := t.sessions[i]];
    ReplaceInv(s, t, i);
  }

  lemma WrittenInv(s: Server, i: nat, error: bool)
    requires Inv(s) && i < |s.sessions| && s.sessions[i].writing.Some? && s.sessions[i].queue != []
    ensures Inv(Written(s, i, error))
  {
    assert SessionOk(s.sessions[i], i in s.room, s.log, s.auth.info);
    var t := Written(s, i, error);
    assert t.sessions == s.sessions[i := t.sessions[i]];
    var ss := s.sessions[i];
    assert ss.past.sent + [ss.queue[0]] + ss.queue[1..] == ss.past.sent + ss.queue;
    ReplaceInv(s, t, i);
  }

  // ----- authentication

  lemma GrownInv(s: Server, auth: AuthState)
    requires Inv(s)
    requires forall k :: Get(s.auth.info, k).Some? ==> Get(auth.info, k).Some?
    ensures Inv(s.(auth := auth))
  {
  }

  lemma RegisterKeeps(auth: AuthState, username: string, password: string)
    ensures forall k :: Get(auth.info, k).Some? ==>
              Get(AfterRegister(auth, username, password).info, k) == Get(auth.info, k)
    ensures Get(AfterRegister(auth, username, password).info, username).Some?
  {
    forall k
      ensures Get(Set(auth.info, username, password), k) == if k == username then Some(password) else Get(auth.info, k)
    {
      GetSet(auth.info, username, password, k);
    }
  }

  lemma GrantInv(s: Server, i: nat, username: string, answer: ScType)
    requires Inv(s) && i < |s.sessions| && s.sessions[i].reading == AuthRead
    requires Get(s.auth.info, username).Some? && US !in username && IsSuccess(answer)
    ensures Inv(With(s, i, Granted(s.sessions[i], username, answer)))
  {
    assert SessionOk(s.sessions[i], i in s.room, s.log, s.auth.info);
    ReplaceInv(s, With(s, i, Granted(s.sessions[i], username, answer)), i);
  }

  lemma RefuseInv(s: Server, i: nat, answer: ScType)
    requires Inv(s) && i < |s.sessions| && s.sessions[i].reading == AuthRead && !IsSuccess(answer)
    ensures Inv(With(s, i, s.sessions[i].(reading := AuthReply(answer))))
  {
    assert SessionOk(s.sessions[i], i in s.room, s.log, s.auth.info);
    ReplaceInv(s, With(s, i, s.sessions[i].(reading := AuthReply(answer))), i);
  }

  lemma AuthenticateInv(s: Server, i: nat, m: ScMessage)
    requires Inv(s) && i < |s.sessions| && s.sessions[i].reading == AuthRead && WellFormed(m)
    ensures Inv(Authenticate(s, i, m))
  {
    if m.kind != LOGIN && m.kind != REGISTER {
      RefuseInv(s, i, FORMAT_FAILURE);
    } else if m.GetProperty("username").None? || m.GetProperty("password").None? {
      AbortInv(s);
    } else {
      var username, password := m.GetProperty("username").value, m.GetProperty("password").value;
      PropertyPlain(m, "username");
      if m.kind == LOGIN {
        LoginInv(s, i, username, password);
      } else {
        RegisterInv(s, i, username, password);
      }
    }
  }

  lemma AbortInv(s: Server)
    requires Inv(s)
    ensures Inv(Abort(s))
  {
  }

  lemma LoginInv(s: Server, i: nat, username: string, password: string)
    requires Inv(s) && i < |s.sessions| && s.sessions[i].reading == AuthRead && US !in username
    ensures LoginOk(s.auth.info, username, password) ==>
              Inv(With(s, i, Granted(s.sessions[i], username, LOGIN_SUCCESS)))
    ensures Inv(With(s, i, s.sessions[i].(reading := AuthReply(LOGIN_FAILURE))))
  {
    if LoginOk(s.auth.info, username, password) {
      GrantInv(s, i, username, LOGIN_SUCCESS);
    }
    RefuseInv(s, i, LOGIN_FAILURE);
  }

  lemma RegisterInv(s: Server, i: nat, username: string, password: string)
    requires Inv(s) && i < |s.sessions| && s.sessions[i].reading == AuthRead && US !in username
    ensures var t := s.(auth := AfterRegister(s.auth, username, password));
      && Inv(With(t, i, Granted(s.sessions[i], username, REGISTER_SUCCESS)))
      && Inv(With(t, i, s.sessions[i].(reading := AuthReply(REGISTER_FAILURE))))
  {
    var t := s.(auth := AfterRegister(s.auth, username, password));
    RegisterKeeps(s.auth, username, password);
    GrownInv(s, t.auth);
    GrantInv(t, i, username, REGISTER_SUCCESS);
    RefuseInv(t, i, REGISTER_FAILURE);
  }

  // ----- delivery

  lemma WindowGrows(past: Past, log: seq<Delivery>, d: Delivery)
    requires past.joined <= End(past, log) <= |log|
    ensures Window(past, log + [d]) == if past.left.None? then Window(past, log) + [d.msg] else Window(past, log)
  {
  }

  lemma EnqueuedOk(ss: SessionState, log: seq<Delivery>, info: Table, d: Delivery)
    requires SessionOk(ss, true, log, info)
    ensures SessionOk(Enqueued(ss, d.msg), true, log + [d], info)
  {
    WindowGrows(ss.past, log, d);
    assert ss.past.sent + (ss.queue + [d.msg]) == ss.past.sent + ss.queue + [d.msg];
  }

  lemma BystanderOk(ss: SessionState, log: seq<Delivery>, info: Table, d: Delivery)
    requires SessionOk(ss, false, log, info)
    ensures SessionOk(ss, false, log + [d], info)
  {
  }

  lemma DeliverInv(s: Server, d: Delivery)
    requires Inv(s) && DeliveryOk(d, s.sessions)
    ensures Inv(Deliver(s, d))
  {
    var t := Deliver(s, d);
    forall j | 0 <= j < |t.sessions| ensures SessionOk(t.sessions[j], j in t.room, t.log, t.auth.info) {
      assert SessionOk(s.sessions[j], j in s.room, s.log, s.auth.info);
      if j in s.room {
        EnqueuedOk(s.sessions[j], s.log, s.auth.info, d);
      } else {
        BystanderOk(s.sessions[j], s.log, s.auth.info, d);
      }
    }
    forall k | 0 <= k < |t.log| ensures DeliveryOk(t.log[k], t.sessions) {
      if k < |s.log| {
        assert DeliveryOk(s.log[k], s.sessions);
      }
    }
  }

  lemma PostInv(s: Server, i: nat, src: string, now: Stamp)
    requires Inv(s) && i < |s.sessions| && s.sessions[i].past.replied && US !in src
    ensures Inv(Post(s, i, src, now))
  {
    if Parse(src).Some? {
      ParsedParts(src);
      DeliverInv(s, Stamped(s.sessions[i].username, i, Parse(src).value.text, now));
    }
  }

  lemma ClearedInv(s: Server, i: nat)
    requires Inv(s) && i < |s.sessions|
    ensures Inv(With(s, i, s.sessions[i].(buffer := "")))
  {
  }

  lemma HandleAuthInv(s: Server, i: nat, error: bool)
    requires Inv(s) && i < |s.sessions| && s.sessions[i].reading == AuthRead
    ensures Inv(HandleAuth(s, i, error))
  {
    if error {
      StopInv(s, i);
    } else {
      match Decode(s.sessions[i].buffer)
      case Accepted(m) =>
        AcceptedWellFormed(s.sessions[i].buffer);
        AuthenticateInv(s, i, m);
      case _ => AbortInv(s);
    }
  }

  lemma HandleChatInv(s: Server, i: nat, error: bool, now: Stamp)
    requires Inv(s) && i < |s.sessions| && s.sessions[i].reading == ChatRead
    ensures Inv(HandleChat(s, i, error, now))
  {
    if error {
      StopInv(s, i);
    } else {
      match Decode(s.sessions[i].buffer)
      case Accepted(m) =>
        if m.kind == MESSAGE && m.GetProperty("message[0]").None? {
          AbortInv(s);
        } else if m.kind == MESSAGE {
          AcceptedWellFormed(s.sessions[i].buffer);
          PropertyPlain(m, "message[0]");
          assert SessionOk(s.sessions[i], i in s.room, s.log, s.auth.info);
          var src := m.GetProperty("message[0]").value;
          PostInv(s, i, src, now);
          ClearedInv(Post(s, i, src, now), i);
        } else {
          ClearedInv(s, i);
        }
      case _ => AbortInv(s);
    }
  }

  lemma AdmittedInv(s: Server)
    requires Inv(s)
    ensures Inv(Admitted(s))
  {
    var t := Admitted(s);
    forall j | 0 <= j < |t.sessions| ensures SessionOk(t.sessions[j], j in t.room, t.log, t.auth.info) {
      if j < |s.sessions| {
        assert SessionOk(s.sessions[j], j in s.room, s.log, s.auth.info);
      }
    }
    forall k | 0 <= k < |t.log| ensures DeliveryOk(t.log[k], t.sessions) {
      assert DeliveryOk(s.log[k], s.sessions);
    }
  }

  // ----- steps and runs

  lemma StepInv(s: Server, e: Event)
    requires Inv(s)
    ensures Inv(Step(s, e))
  {
    if Enabled(s, e) {
      if !e.Accept? {
        assert SessionOk(s.sessions[e.i], e.i in s.room, s.log, s.auth.info);
      }
      match e
      case Accept => AdmittedInv(s);
      case HandshakeDone(i, error) => ReadLoginInv(s, i, error);
      case AuthReadDone(i, error, more) =>
        FilledInv(s, i, error, more);
        HandleAuthInv(Filled(s, i, error, more), i, error);
      case AuthReplyDone(i, error) => RepliedInv(s, i, error);
      case ChatReadDone(i, error, more, now) =>
        FilledInv(s, i, error, more);
        HandleChatInv(Filled(s, i, error, more), i, error, now);
      case QueueWriteDone(i, error) => WrittenInv(s, i, error);
    }
  }

  lemma {:induction false} RunInv(s: Server, events: seq<Event>)
    requires Inv(s)
    ensures Inv(After(s, events))
    decreases events
  {
    if events != [] {
      StepInv(s, events[0]);
      RunInv(Step(s, events[0]), events[1..]);
    }
  }

  /** Every reachable state satisfies the invariant. */
  lemma ReachableInv(auth: AuthState, events: seq<Event>)
    ensures Inv(After(Start(auth), events))
  {
    InitInv(auth);
    RunInv(Start(auth), events);
  }

  lemma ReachableSession(auth: AuthState, events: seq<Event>, i: nat)
    requires i < |After(Start(auth), events).sessions|
    ensures var s := After(Start(auth), events);
      SessionOk(s.sessions[i], i in s.room, s.log, s.auth.info)
  {
    ReachableInv(auth, events);
  }
}
