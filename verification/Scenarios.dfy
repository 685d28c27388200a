/** Runs that show why the promises of the server have the conditions they have. */
module Scenarios {
  import opened Wrappers
  import opened Text
  import opened Tables
  import opened Times
  import opened ScMessages
  import opened ChatMessages
  import opened Accounts
  import opened Restart
  import opened Protocol
  import opened Invariants
  import opened Guarantees
  import opened EndToEnd
  import opened Client
  import opened Wires
  import opened Streams

  // ----- pieces of runs

  /** A new client connects its session and registers a name. */
  function Registering(i: nat, username: string, password: string): seq<Event> {
    [HandshakeDone(i, false),
     AuthReadDone(i, false, Frame(GetAuthScMessage(REGISTER, username, password).value)),
     AuthReplyDone(i, false)]
  }

  /** The state after that, when the name is new. */
  function Registered(s: Server, i: nat, username: string, password: string): Server
    requires i < |s.sessions|
  {
    var ss := s.sessions[i];
    With(s.(auth := AfterRegister(s.auth, username, password)), i,
         ss.(con := LoggedIn, username := username, buffer := "", reading := ChatRead,
             past := ss.past.(granted := ss.past.granted + [username], replied := true,
                             wire := ss.past.wire + [Reply(REGISTER_SUCCESS)])))
  }

  lemma ThreeSteps(s: Server, c: Event, d: Event, e: Event)
    ensures After(s, [c, d, e]) == Step(Step(Step(s, c), d), e)
  {
    assert [c, d, e][1..] == [d, e];
    TwoSteps(Step(s, c), d, e);
  }

  lemma RegisteringWorks(s: Server, i: nat, username: string, password: string)
    requires !s.aborted && i < |s.sessions| && s.sessions[i].reading == Handshake && s.sessions[i].buffer == ""
    requires US !in username && US !in password && RegisterOk(s.auth.info, username)
    ensures After(s, Registering(i, username, password)) == Registered(s, i, username, password)
  {
    var frame := Frame(GetAuthScMessage(REGISTER, username, password).value);
    ThreeSteps(s, HandshakeDone(i, false), AuthReadDone(i, false, frame), AuthReplyDone(i, false));
    HandshakeCompletes(s, i);
    var t := With(s, i, s.sessions[i].(reading := AuthRead));
    RequestGranted(t, i, username, password);
    ReplyCompletes(Step(t, AuthReadDone(i, false, frame)), i);
    RegisteredInOne(s, i, username, password, frame);
  }

  lemma HandshakeCompletes(s: Server, i: nat)
    requires !s.aborted && i < |s.sessions| && s.sessions[i].reading == Handshake
    ensures Step(s, HandshakeDone(i, false)) == With(s, i, s.sessions[i].(reading := AuthRead))
  {
  }

  lemma RegisteredInOne(s: Server, i: nat, username: string, password: string, frame: string)
    requires i < |s.sessions|
    ensures var t := With(s, i, s.sessions[i].(reading := AuthRead));
      var granted := Granted(t.sessions[i].(buffer := frame), username, REGISTER_SUCCESS);
      var u := With(t.(auth := AfterRegister(s.auth, username, password)), i, granted);
      With(u, i, granted.(con := LoggedIn, buffer := "", reading := ChatRead,
                          past := granted.past.(replied := true,
                                                wire := granted.past.wire + [Reply(REGISTER_SUCCESS)])))
      == Registered(s, i, username, password)
  {
  }

  lemma RequestGranted(s: Server, i: nat, username: string, password: string)
    requires !s.aborted && i < |s.sessions| && s.sessions[i].reading == AuthRead && s.sessions[i].buffer == ""
    requires US !in username && US !in password && RegisterOk(s.auth.info, username)
    ensures var frame := Frame(GetAuthScMessage(REGISTER, username, password).value);
      Step(s, AuthReadDone(i, false, frame))
      == With(s.(auth := AfterRegister(s.auth, username, password)), i,
              Granted(s.sessions[i].(buffer := frame), username, REGISTER_SUCCESS))
  {
    var m := GetAuthScMessage(REGISTER, username, password).value;
    AuthFrameDecodes(REGISTER, username, password);
    AuthFrameRead(s, i, m);
    RegistrationGranted(With(s, i, s.sessions[i].(buffer := Frame(m))), i, m, username, password);
  }

  lemma AuthFrameRead(s: Server, i: nat, m: ScMessage)
    requires !s.aborted && i < |s.sessions| && s.sessions[i].reading == AuthRead && s.sessions[i].buffer == ""
    requires Decode(Frame(m)) == Accepted(m)
    ensures Step(s, AuthReadDone(i, false, Frame(m)))
            == Authenticate(With(s, i, s.sessions[i].(buffer := Frame(m))), i, m)
  {
    ReadsFrame(s, i, m);
    AuthStep(s, i, Frame(m));
    AuthHandled(With(s, i, s.sessions[i].(buffer := Frame(m))), i, m);
  }

  lemma AuthStep(s: Server, i: nat, more: string)
    requires Enabled(s, AuthReadDone(i, false, more))
    ensures Step(s, AuthReadDone(i, false, more)) == HandleAuth(Filled(s, i, false, more), i, false)
  {
  }

  lemma AuthHandled(s: Server, i: nat, m: ScMessage)
    requires i < |s.sessions| && Decode(s.sessions[i].buffer) == Accepted(m)
    ensures HandleAuth(s, i, false) == Authenticate(s, i, m)
  {
  }

  lemma ChatFrameRead(s: Server, i: nat, m: ScMessage, now: Stamp)
    requires !s.aborted && i < |s.sessions| && s.sessions[i].reading == ChatRead && s.sessions[i].buffer == ""
    requires Decode(Frame(m)) == Accepted(m)
    ensures Step(s, ChatReadDone(i, false, Frame(m), now))
            == Converse(With(s, i, s.sessions[i].(buffer := Frame(m))), i, m, now)
  {
    ReadsFrame(s, i, m);
    ChatStep(s, i, Frame(m), now);
    ChatHandled(With(s, i, s.sessions[i].(buffer := Frame(m))), i, m, now);
  }

  lemma ChatStep(s: Server, i: nat, more: string, now: Stamp)
    requires Enabled(s, ChatReadDone(i, false, more, now))
    ensures Step(s, ChatReadDone(i, false, more, now)) == HandleChat(Filled(s, i, false, more), i, false, now)
  {
  }

  lemma ChatHandled(s: Server, i: nat, m: ScMessage, now: Stamp)
    requires i < |s.sessions| && Decode(s.sessions[i].buffer) == Accepted(m)
    ensures HandleChat(s, i, false, now) == Converse(s, i, m, now)
  {
  }

  lemma ReadsFrame(s: Server, i: nat, m: ScMessage)
    requires i < |s.sessions| && s.sessions[i].buffer == ""
    ensures ReadCompletes("", Frame(m))
    ensures Filled(s, i, false, Frame(m)) == With(s, i, s.sessions[i].(buffer := Frame(m)))
  {
    assert "" + Frame(m) == Frame(m);
    assert Frame(m)[|Frame(m)| - 1] == NUL;
  }

  lemma RegistrationGranted(s: Server, i: nat, m: ScMessage, username: string, password: string)
    requires i < |s.sessions| && RegisterOk(s.auth.info, username) && m.kind == REGISTER
    requires m.GetProperty("username") == Some(username) && m.GetProperty("password") == Some(password)
    ensures Authenticate(s, i, m)
            == With(s.(auth := AfterRegister(s.auth, username, password)), i,
                    Granted(s.sessions[i], username, REGISTER_SUCCESS))
  {
  }

  lemma ReplyCompletes(s: Server, i: nat)
    requires !s.aborted && i < |s.sessions| && s.sessions[i].reading == AuthReply(REGISTER_SUCCESS)
    ensures var ss := s.sessions[i];
      Step(s, AuthReplyDone(i, false))
      == With(s, i, ss.(con := LoggedIn, buffer := "", reading := ChatRead,
                        past := ss.past.(replied := true, wire := ss.past.wire + [Reply(REGISTER_SUCCESS)])))
  {
  }

  /** A chat frame is delivered, and the reading session is as before. */
  lemma ChatWorks(s: Server, i: nat, sent: Message<Stamp>, now: Stamp)
    requires !s.aborted && i < |s.sessions| && s.sessions[i].reading == ChatRead && s.sessions[i].buffer == ""
    requires '\n' !in sent.username && Separable(sent)
    ensures Step(s, ChatReadDone(i, false, Frame(GetMessageScMessage(sent)), now))
            == Deliver(s, Stamped(s.sessions[i].username, i, sent.text, now))
  {
    var m := GetMessageScMessage(sent);
    TextFrameDecodes(sent);
    ChatFrameRead(s, i, m, now);
    Conversed(With(s, i, s.sessions[i].(buffer := Frame(m))), i, m, sent.text, now);
    ClearedDelivery(s, i, Frame(m), Stamped(s.sessions[i].username, i, sent.text, now));
  }

  lemma Conversed(s: Server, i: nat, m: ScMessage, text: string, now: Stamp)
    requires i < |s.sessions| && m.kind == MESSAGE && m.GetProperty("message[0]").Some?
    requires var src := m.GetProperty("message[0]").value; Parse(src).Some? && Parse(src).value.text == text
    ensures var t := Deliver(s, Stamped(s.sessions[i].username, i, text, now));
      Converse(s, i, m, now) == With(t, i, t.sessions[i].(buffer := ""))
  {
  }

  lemma ClearedDelivery(s: Server, i: nat, frame: string, d: Delivery)
    requires i < |s.sessions| && s.sessions[i].buffer == ""
    ensures var t := Deliver(With(s, i, s.sessions[i].(buffer := frame)), d);
      With(t, i, t.sessions[i].(buffer := "")) == Deliver(s, d)
  {
    var t := Deliver(With(s, i, s.sessions[i].(buffer := frame)), d);
    assert t.sessions[i := t.sessions[i].(buffer := "")] == Deliver(s, d).sessions;
  }

  // ----- an exception loses accounts

  /** A frame that is refused: a terminator and nothing else. */
  lemma EmptyFrameRefused()
    ensures Decode([NUL]) == Rejected
  {
    assert "" + [NUL] == [NUL];
    DecodeOfBody("");
    assert Fields("", US) == [""];
  }

  /**
   * One client registers a new name and is told so; then it sends a frame that is refused. The
   * exception ends the program, the account file stays as it was, and a restart does not know the name.
   */
  lemma RegistrationLost(file: string, username: string, password: string, now: Stamp, opens: bool)
    requires Load(file).Some? && RegisterOk(Load(file).value, username)
    requires US !in username && US !in password
    ensures var s := After(Start(Opened(file)),
                           [Accept] + Registering(0, username, password) + [ChatReadDone(0, false, [NUL], now)]);
      && s.aborted && s.auth.outdated && |s.sessions| == 1 && s.sessions[0].past.replied
      && LoginOk(s.auth.info, username, password)
      && FileAtEnd(s, file, opens) == file
      && Load(FileAtEnd(s, file, opens)).value != s.auth.info
      && !LoginOk(Load(FileAtEnd(s, file, opens)).value, username, password)
  {
    RefusedRunState(Opened(file), username, password, now);
    GetSet(Load(file).value, username, password, username);
  }

  lemma RefusedRunState(auth: AuthState, username: string, password: string, now: Stamp)
    requires RegisterOk(auth.info, username) && US !in username && US !in password
    ensures var s := After(Start(auth),
                           [Accept] + Registering(0, username, password) + [ChatReadDone(0, false, [NUL], now)]);
      && s.aborted && s.auth == AfterRegister(auth, username, password)
      && |s.sessions| == 1 && s.sessions[0].past.replied
  {
    var registering, bad := Registering(0, username, password), ChatReadDone(0, false, [NUL], now);
    AfterAppend(Start(auth), [Accept] + registering, [bad]);
    AfterAppend(Start(auth), [Accept], registering);
    OneStep(Start(auth), Accept);
    var accepted := Admitted(Start(auth));
    RegisteringWorks(accepted, 0, username, password);
    var t := Registered(accepted, 0, username, password);
    OneStep(t, bad);
    RefusedStep(t, 0, now);
  }

  lemma OneStep(s: Server, e: Event)
    ensures After(s, [e]) == Step(s, e)
  {
    assert [e][1..] == [];
  }

  lemma RefusedStep(s: Server, i: nat, now: Stamp)
    requires !s.aborted && i < |s.sessions| && s.sessions[i].reading == ChatRead && s.sessions[i].buffer == ""
    ensures var t := Step(s, ChatReadDone(i, false, [NUL], now));
      t.aborted && t.auth == s.auth && |t.sessions| == |s.sessions| && t.sessions[i].past == s.sessions[i].past
  {
    EmptyFrameRefused();
    assert "" + [NUL] == [NUL];
  }

  // ----- a delivery before the login

  /** The second of two sessions registers and posts; the write of its message to the first completes. */
  function PostRun(name: string, password: string, sent: Message<Stamp>, now: Stamp, error: bool): seq<Event> {
    [Accept, Accept] + Registering(1, name, password)
    + [ChatReadDone(1, false, Frame(GetMessageScMessage(sent)), now), QueueWriteDone(0, error)]
  }

  function TwoAccepted(auth: AuthState): Server {
    Admitted(Admitted(Start(auth)))
  }

  lemma PostRunState(auth: AuthState, name: string, password: string, sent: Message<Stamp>, now: Stamp, error: bool)
    requires US !in name && US !in password && RegisterOk(auth.info, name)
    requires '\n' !in sent.username && Separable(sent)
    ensures After(Start(auth), PostRun(name, password, sent, now, error))
            == Written(Deliver(Registered(TwoAccepted(auth), 1, name, password), Stamped(name, 1, sent.text, now)),
                       0, error)
  {
    var chat, written := ChatReadDone(1, false, Frame(GetMessageScMessage(sent)), now), QueueWriteDone(0, error);
    var registering := Registering(1, name, password);
    AfterAppend(Start(auth), [Accept, Accept] + registering, [chat, written]);
    AfterAppend(Start(auth), [Accept, Accept], registering);
    TwoSteps(Start(auth), Accept, Accept);
    assert After(Start(auth), [Accept, Accept]) == TwoAccepted(auth);
    RegisteringWorks(TwoAccepted(auth), 1, name, password);
    var s := Registered(TwoAccepted(auth), 1, name, password);
    TwoSteps(s, chat, written);
    ChatWorks(s, 1, sent, now);
    PendingToFirst(s, Stamped(name, 1, sent.text, now), error);
  }

  lemma PendingToFirst(s: Server, d: Delivery, error: bool)
    requires !s.aborted && 0 < |s.sessions| && 0 in s.room && s.sessions[0].queue == []
    ensures Enabled(Deliver(s, d), QueueWriteDone(0, error))
  {
  }

  /**
   * A client has connected and its user is still typing a name when another member posts. The message
   * is written to the client, which then registers: the server grants the name and writes the success
   * reply, but the first frame that the client reads is the message, so it reports a failure, and its
   * read loop is refused.
   */
  lemma LoginMissed(auth: AuthState, name: string, other: string, password: string, sent: Message<Stamp>, now: Stamp)
    requires US !in name && US !in other && US !in password && name != other
    requires RegisterOk(auth.info, name) && RegisterOk(auth.info, other)
    requires '\n' !in sent.username && Separable(sent)
    ensures var s := After(Start(auth), PostRun(name, password, sent, now, false) + Registering(0, other, password));
      && |s.sessions| == 2
      && var ss := s.sessions[0];
         && ss.con == LoggedIn && ss.past.granted == [other] && ss.past.replied
         && ss.past.wire == [Chat(Stamped(name, 1, sent.text, now).msg), Reply(REGISTER_SUCCESS)]
         && var frames := Cut(WireBytes(ss.past.wire), NUL);
            && frames != []
            && AuthResultOf(REGISTER, Some(frames[0])) == Answer(false)
            && ConStateAfter(Connected, AuthResultOf(REGISTER, Some(frames[0]))) != LoggedIn
  {
    var run := PostRun(name, password, sent, now, false) + Registering(0, other, password);
    LateLoginState(auth, name, other, password, sent, now);
    FirstRequestReport(auth, run, 0, REGISTER);
  }

  lemma LateLoginState(auth: AuthState, name: string, other: string, password: string, sent: Message<Stamp>, now: Stamp)
    requires US !in name && US !in other && US !in password && name != other
    requires RegisterOk(auth.info, name) && RegisterOk(auth.info, other)
    requires '\n' !in sent.username && Separable(sent)
    ensures var s := After(Start(auth), PostRun(name, password, sent, now, false) + Registering(0, other, password));
      && |s.sessions| == 2
      && var ss := s.sessions[0];
         && ss.con == LoggedIn && ss.past.granted == [other] && ss.past.replied
         && ss.past.wire == [Chat(Stamped(name, 1, sent.text, now).msg), Reply(REGISTER_SUCCESS)]
  {
    var run, registering := PostRun(name, password, sent, now, false), Registering(0, other, password);
    AfterAppend(Start(auth), run, registering);
    BeforeLateLogin(auth, name, other, password, sent, now);
    RegisteringWorks(After(Start(auth), run), 0, other, password);
  }

  lemma BeforeLateLogin(auth: AuthState, name: string, other: string, password: string, sent: Message<Stamp>,
                        now: Stamp)
    requires US !in name && US !in password && name != other
    requires RegisterOk(auth.info, name) && RegisterOk(auth.info, other)
    requires '\n' !in sent.username && Separable(sent)
    ensures var u := After(Start(auth), PostRun(name, password, sent, now, false));
      && |u.sessions| == 2 && !u.aborted && RegisterOk(u.auth.info, other)
      && u.sessions[0].reading == Handshake && u.sessions[0].buffer == "" && u.sessions[0].past.granted == []
      && u.sessions[0].past.wire == [Chat(Stamped(name, 1, sent.text, now).msg)]
  {
    PostRunState(auth, name, password, sent, now, false);
    GetSet(auth.info, name, password, other);
    FirstWritten(Registered(TwoAccepted(auth), 1, name, password), Stamped(name, 1, sent.text, now));
  }

  lemma FirstWritten(s: Server, d: Delivery)
    requires |s.sessions| == 2 && s.room == {0, 1} && s.log == [] && !s.aborted && s.sessions[0] == Fresh(0)
    ensures 0 < |Deliver(s, d).sessions| && Deliver(s, d).sessions[0].queue != []
    ensures var u := Written(Deliver(s, d), 0, false);
      && |u.sessions| == 2 && !u.aborted && u.auth == s.auth
      && u.sessions[0].reading == Handshake && u.sessions[0].buffer == "" && u.sessions[0].past.granted == []
      && u.sessions[0].past.wire == [Chat(d.msg)]
  {
  }

  // ----- logged in outside the room

  /**
   * The first session, whose queue write has failed, then registers a name of its own. It is LoggedIn
   * outside the room: what it posts is delivered to the others, and it is sent nothing any more.
   */
  lemma PostsFromOutside(auth: AuthState, name: string, other: string, password: string, sent: Message<Stamp>,
                         now: Stamp)
    requires US !in name && US !in other && US !in password && name != other
    requires RegisterOk(auth.info, name) && RegisterOk(auth.info, other)
    requires '\n' !in sent.username && Separable(sent)
    ensures var run := PostRun(name, password, sent, now, true) + Registering(0, other, password);
      var s := After(Start(auth), run);
      var t := After(Start(auth), run + [ChatReadDone(0, false, Frame(GetMessageScMessage(sent)), now)]);
      && !t.aborted && |s.sessions| == |t.sessions| == 2
      && s.sessions[0].con == t.sessions[0].con == LoggedIn && s.room == t.room == {1}
      && t.log == s.log + [Stamped(other, 0, sent.text, now)]
      && t.sessions[0] == s.sessions[0]
      && t.sessions[1].queue == Msgs(t.log) && |t.log| == 2
  {
    var run := PostRun(name, password, sent, now, true) + Registering(0, other, password);
    var chat := ChatReadDone(0, false, Frame(GetMessageScMessage(sent)), now);
    AfterAppend(Start(auth), run, [chat]);
    AfterAppend(Start(auth), PostRun(name, password, sent, now, true), Registering(0, other, password));
    FailedState(auth, name, other, password, sent, now);
    var u := After(Start(auth), PostRun(name, password, sent, now, true));
    RegistersOutside(u, other, password, sent, now, Stamped(name, 1, sent.text, now));
  }

  lemma FailedState(auth: AuthState, name: string, other: string, password: string, sent: Message<Stamp>, now: Stamp)
    requires US !in name && US !in password && name != other
    requires RegisterOk(auth.info, name) && RegisterOk(auth.info, other)
    requires '\n' !in sent.username && Separable(sent)
    ensures var u, d := After(Start(auth), PostRun(name, password, sent, now, true)), Stamped(name, 1, sent.text, now);
      && |u.sessions| == 2 && u.room == {1} && u.log == [d] && !u.aborted && RegisterOk(u.auth.info, other)
      && u.sessions[0].reading == Handshake && u.sessions[0].buffer == "" && u.sessions[1].queue == [d.msg]
  {
    PostRunState(auth, name, password, sent, now, true);
    GetSet(auth.info, name, password, other);
    FirstFailed(Registered(TwoAccepted(auth), 1, name, password), Stamped(name, 1, sent.text, now));
  }

  lemma RegistersOutside(u: Server, other: string, password: string, sent: Message<Stamp>, now: Stamp, d: Delivery)
    requires US !in other && US !in password && RegisterOk(u.auth.info, other)
    requires '\n' !in sent.username && Separable(sent)
    requires |u.sessions| == 2 && u.room == {1} && u.log == [d] && !u.aborted
    requires u.sessions[0].reading == Handshake && u.sessions[0].buffer == "" && u.sessions[1].queue == [d.msg]
    ensures var s := After(u, Registering(0, other, password));
      var t := After(s, [ChatReadDone(0, false, Frame(GetMessageScMessage(sent)), now)]);
      && !t.aborted && |s.sessions| == |t.sessions| == 2
      && s.sessions[0].con == LoggedIn && s.room == t.room == {1}
      && t.log == s.log + [Stamped(other, 0, sent.text, now)] && s.log == [d]
      && t.sessions[0] == s.sessions[0] && t.sessions[1].queue == Msgs(t.log)
  {
    RegisteringWorks(u, 0, other, password);
    var s := Registered(u, 0, other, password);
    OneStep(s, ChatReadDone(0, false, Frame(GetMessageScMessage(sent)), now));
    ChatWorks(s, 0, sent, now);
    OutsideDelivery(s, Stamped(other, 0, sent.text, now), d);
  }

  lemma OutsideDelivery(s: Server, e: Delivery, d: Delivery)
    requires |s.sessions| == 2 && s.room == {1} && s.log == [d] && s.sessions[1].queue == [d.msg]
    ensures var t := Deliver(s, e);
      t.sessions[0] == s.sessions[0] && t.sessions[1].queue == Msgs(t.log) && t.log == [d, e]
  {
  }

  lemma FirstFailed(s: Server, d: Delivery)
    requires |s.sessions| == 2 && s.room == {0, 1} && s.log == [] && !s.aborted
    requires s.sessions[0] == Fresh(0) && s.sessions[1].queue == []
    ensures 0 < |Deliver(s, d).sessions| && Deliver(s, d).sessions[0].queue != []
    ensures var u := Written(Deliver(s, d), 0, true);
      && |u.sessions| == 2 && u.room == {1} && u.log == [d] && !u.aborted && u.auth == s.auth
      && u.sessions[0].reading == Handshake && u.sessions[0].buffer == "" && u.sessions[0].past.granted == []
      && u.sessions[1].queue == [d.msg]
  {
  }
}
