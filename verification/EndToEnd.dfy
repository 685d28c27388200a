/** From the text a client sends to the text every member of the room is shown. */
module EndToEnd {
  import opened Wrappers
  import opened Text
  import opened Tables
  import opened Times
  import opened ScMessages
  import opened ChatMessages
  import opened Accounts
  import opened Protocol
  import opened Invariants
  import opened Growth
  import opened Guarantees
  import opened Client
  import opened ShownFrames

  // ----- from the log to the clients

  /** The message that log entry `k` stands for. */
  function Authored(s: Server, k: nat): Message<Stamp>
    requires k < |s.log| && s.log[k].sender < |s.sessions|
  {
    Message(s.sessions[s.log[k].sender].username, s.log[k].text, s.log[k].time)
  }

  /**
   * In every reachable state, a client that cuts the frame of a delivery at each NUL gets exactly the
   * outcomes of the message with the sender's authenticated name, the text and the server's time; it
   * is shown that message if and only if the name is not empty, has no newline, and neither name nor
   * text has a NUL.
   */
  lemma FaithfulDelivery(auth: AuthState, events: seq<Event>, k: nat)
    requires k < |After(Start(auth), events).log|
    ensures var s := After(Start(auth), events);
      && s.log[k].sender < |s.sessions|
      && var m, frames := Authored(s, k), Cut(Frame(s.log[k].msg), NUL);
         && s.log[k].msg == GetMessageScMessage(m)
         && frames != [] && Outcomes(frames) == MessageOutcomes(m)
         && (OutcomeOf(frames[0]) == Shown(m)
             <==> m.username != "" && '\n' !in m.username && NUL !in m.username && NUL !in m.text)
  {
    ReachableInv(auth, events);
    var s := After(Start(auth), events);
    assert DeliveryOk(s.log[k], s.sessions);
    var i := s.log[k].sender;
    assert SessionOk(s.sessions[i], i in s.room, s.log, s.auth.info);
    FrameShown(Authored(s, k));
    FrameOutcomes(Authored(s, k));
  }

  /** The bytes in flight to a session are the frame of the next log entry it has not been sent. */
  lemma InFlightIsNext(auth: AuthState, events: seq<Event>, j: nat)
    requires j < |After(Start(auth), events).sessions|
    requires After(Start(auth), events).sessions[j].writing.Some?
    ensures var s := After(Start(auth), events);
      var past := s.sessions[j].past;
      && past.joined + |past.sent| < |s.log|
      && s.sessions[j].writing == Some(Frame(s.log[past.joined + |past.sent|].msg))
  {
    ReachableSession(auth, events, j);
    var s := After(Start(auth), events);
    NextInWindow(s.sessions[j], j in s.room, s.log);
  }

  lemma NextInWindow(ss: SessionState, member: bool, log: seq<Delivery>)
    requires WindowOk(ss, member, log) && WriteOk(ss, member) && ss.writing.Some?
    ensures ss.past.joined + |ss.past.sent| < |log|
    ensures ss.writing == Some(Frame(log[ss.past.joined + |ss.past.sent|].msg))
  {
    NextMessage(ss, member, log);
  }

  lemma NextMessage(ss: SessionState, member: bool, log: seq<Delivery>)
    requires WindowOk(ss, member, log) && ss.queue != []
    ensures ss.past.joined + |ss.past.sent| < |log|
    ensures ss.queue[0] == log[ss.past.joined + |ss.past.sent|].msg
  {
    assert (ss.past.sent + ss.queue)[|ss.past.sent|] == ss.queue[0];
  }

  // ----- from a client to the log

  ghost predicate ChatBuffersEmpty(s: Server) {
    forall i :: 0 <= i < |s.sessions| && s.sessions[i].reading == ChatRead ==> s.sessions[i].buffer == ""
  }

  lemma {:induction false} BuffersEmpty(s: Server, events: seq<Event>)
    requires s.aborted || ChatBuffersEmpty(s)
    ensures After(s, events).aborted || ChatBuffersEmpty(After(s, events))
    decreases events
  {
    if events != [] {
      StepEmpties(s, events[0]);
      BuffersEmpty(Step(s, events[0]), events[1..]);
    }
  }

  lemma StepEmpties(s: Server, e: Event)
    requires s.aborted || ChatBuffersEmpty(s)
    ensures Step(s, e).aborted || ChatBuffersEmpty(Step(s, e))
  {
    if Enabled(s, e) && !Step(s, e).aborted {
      match e
      case Accept =>
      case HandshakeDone(i, error) => LoginEmpties(s, i, error);
      case AuthReadDone(i, error, more) => AuthEmpties(s, i, error, more);
      case AuthReplyDone(i, error) => ReplyEmpties(s, i, error);
      case ChatReadDone(i, error, more, now) => ChatEmpties(s, i, error, more, now);
      case QueueWriteDone(i, error) =>
    }
  }

  lemma LoginEmpties(s: Server, i: nat, error: bool)
    requires ChatBuffersEmpty(s) && i < |s.sessions|
    ensures ChatBuffersEmpty(ReadLogin(s, i, error))
  {
  }

  lemma ReplyEmpties(s: Server, i: nat, error: bool)
    requires ChatBuffersEmpty(s) && i < |s.sessions| && s.sessions[i].reading.AuthReply?
    ensures ChatBuffersEmpty(Replied(s, i, error))
  {
  }

  lemma AuthEmpties(s: Server, i: nat, error: bool, more: string)
    requires ChatBuffersEmpty(s) && i < |s.sessions| && s.sessions[i].reading == AuthRead
    ensures ChatBuffersEmpty(HandleAuth(Filled(s, i, error, more), i, error))
  {
    var t := Filled(s, i, error, more);
    assert ChatBuffersEmpty(t);
    if !error && Decode(t.sessions[i].buffer).Accepted? {
      AuthenticateEmpties(t, i, Decode(t.sessions[i].buffer).msg);
    }
  }

  lemma AuthenticateEmpties(s: Server, i: nat, m: ScMessage)
    requires ChatBuffersEmpty(s) && i < |s.sessions| && s.sessions[i].reading == AuthRead
    ensures ChatBuffersEmpty(Authenticate(s, i, m))
  {
  }

  lemma ChatEmpties(s: Server, i: nat, error: bool, more: string, now: Stamp)
    requires ChatBuffersEmpty(s) && i < |s.sessions|
    ensures var t := HandleChat(Filled(s, i, error, more), i, error, now);
      t.aborted || ChatBuffersEmpty(t)
  {
    var t := Filled(s, i, error, more);
    if !error && Decode(t.sessions[i].buffer).Accepted? {
      var m := Decode(t.sessions[i].buffer).msg;
      if m.kind == MESSAGE && m.GetProperty("message[0]").Some? {
        PostEmpties(t, i, m.GetProperty("message[0]").value, now);
      }
    }
  }

  lemma PostEmpties(s: Server, i: nat, src: string, now: Stamp)
    requires i < |s.sessions|
    requires forall j :: 0 <= j < |s.sessions| && j != i && s.sessions[j].reading == ChatRead ==>
               s.sessions[j].buffer == ""
    ensures var t := Post(s, i, src, now);
      ChatBuffersEmpty(With(t, i, t.sessions[i].(buffer := "")))
  {
  }

  lemma ReadyToRead(auth: AuthState, events: seq<Event>, i: nat)
    requires var s := After(Start(auth), events);
      !s.aborted && i < |s.sessions| && s.sessions[i].reading == ChatRead
    ensures After(Start(auth), events).sessions[i].buffer == ""
    ensures After(Start(auth), events).sessions[i].past.replied
  {
    ReachableInv(auth, events);
    var s := After(Start(auth), events);
    BuffersEmpty(Start(auth), events);
    assert SessionOk(s.sessions[i], i in s.room, s.log, s.auth.info);
  }

  /** A read can complete exactly when it brings a terminator; bytes behind that may come with it. */
  lemma ChatReadIff(auth: AuthState, events: seq<Event>, i: nat, more: string, now: Stamp)
    requires var s := After(Start(auth), events);
      !s.aborted && i < |s.sessions| && s.sessions[i].reading == ChatRead
    ensures Enabled(After(Start(auth), events), ChatReadDone(i, false, more, now)) <==> NUL in more
  {
    ReadyToRead(auth, events, i);
    assert "" + more == more;
  }

  /** The same for a login read, except that a frame in the buffer keeps the read from bringing any more. */
  lemma AuthReadIff(s: Server, i: nat, more: string)
    requires !s.aborted && i < |s.sessions| && s.sessions[i].reading == AuthRead
    ensures Enabled(s, AuthReadDone(i, false, more))
            <==> if NUL in s.sessions[i].buffer then more == "" else NUL in more
  {
  }

  /**
   * A frame of another type, and a chat frame whose text is no message in the three-line form, change
   * nothing at all: the log, every queue and the reader itself are as before.
   */
  lemma IgnoredFrame(auth: AuthState, events: seq<Event>, i: nat, frame: string, now: Stamp)
    requires var s := After(Start(auth), events);
      !s.aborted && i < |s.sessions| && s.sessions[i].reading == ChatRead
    requires NUL in frame && Decode(frame).Accepted?
    requires var m := Decode(frame).msg;
      m.kind != MESSAGE
      || (&& m.GetProperty("message[0]").Some?
          && forall sent, date :: !MessageText(m.GetProperty("message[0]").value, sent, date))
    ensures var s, e := After(Start(auth), events), ChatReadDone(i, false, frame, now);
      Enabled(s, e) && Step(s, e) == s
  {
    var s, m := After(Start(auth), events), Decode(frame).msg;
    ReadyToRead(auth, events, i);
    if m.kind == MESSAGE {
      RefusedIff(m.GetProperty("message[0]").value);
    }
    IgnoredByState(s, i, frame, now);
  }

  lemma IgnoredByState(s: Server, i: nat, frame: string, now: Stamp)
    requires !s.aborted && i < |s.sessions| && s.sessions[i].reading == ChatRead && s.sessions[i].buffer == ""
    requires NUL in frame && Decode(frame).Accepted?
    requires var m := Decode(frame).msg;
      m.kind != MESSAGE || (m.GetProperty("message[0]").Some? && Parse(m.GetProperty("message[0]").value).None?)
    ensures var e := ChatReadDone(i, false, frame, now);
      Enabled(s, e) && Step(s, e) == s
  {
    assert "" + frame == frame;
    var f := Filled(s, i, false, frame);
    assert f == With(s, i, s.sessions[i].(buffer := frame));
    IgnoredConverse(s, i, frame, Decode(frame).msg, now);
  }

  lemma IgnoredConverse(s: Server, i: nat, frame: string, m: ScMessage, now: Stamp)
    requires i < |s.sessions| && s.sessions[i].buffer == ""
    requires m.kind != MESSAGE || (m.GetProperty("message[0]").Some? && Parse(m.GetProperty("message[0]").value).None?)
    ensures Converse(With(s, i, s.sessions[i].(buffer := frame)), i, m, now) == s
  {
    assert s.sessions[i := s.sessions[i].(buffer := frame)][i := s.sessions[i]] == s.sessions;
  }

  /** The message is the last that the session has to write; an idle session starts writing it. */
  predicate Appended(x: SessionState, y: SessionState, m: ScMessage) {
    Stream(y) == Stream(x) + [m] && y.past.sent == x.past.sent && (x.queue == [] ==> y.writing == Some(Frame(m)))
  }

  /** Every member of the room gets the message, and nobody else gets anything. */
  ghost predicate AppendedToRoom(s: Server, t: Server, m: ScMessage)
    requires |t.sessions| == |s.sessions|
  {
    forall j :: 0 <= j < |s.sessions| ==>
      if j in s.room then Appended(s.sessions[j], t.sessions[j], m)
      else Stream(t.sessions[j]) == Stream(s.sessions[j])
  }

  /**
   * A read that brings one chat frame or several, whatever names and times they carry, delivers the
   * text of the last one and loses the others: there is one new log entry, with the session's own name,
   * that text as sent and the server's time; every member of the room gets it as its last message, and
   * an idle member starts writing its frame at once.
   */
  lemma ReadDeliversLastText(auth: AuthState, events: seq<Event>, i: nat, sent: seq<Message<Stamp>>, now: Stamp)
    requires var s := After(Start(auth), events);
      !s.aborted && i < |s.sessions| && s.sessions[i].reading == ChatRead
    requires sent != [] && (forall n :: 0 <= n < |sent| ==> Separable(sent[n])) && '\n' !in sent[|sent| - 1].username
    ensures var s := After(Start(auth), events);
      var e := ChatReadDone(i, false, Concat(Frames(Messages(sent))), now);
      var t, d := Step(s, e), Stamped(s.sessions[i].username, i, sent[|sent| - 1].text, now);
      && Enabled(s, e) && TextDelivered(s, t, i, d)
  {
    var s, last := After(Start(auth), events), sent[|sent| - 1];
    ReadyToRead(auth, events, i);
    MergedFrames(sent);
    MergedBytes(sent);
    TextParses(last);
    HandlesBytes(s, i, Concat(Frames(Messages(sent))), last, now);
  }

  /** One entry is new in the log, every member has it last, and the sender reads on. */
  ghost predicate TextDelivered(s: Server, t: Server, i: nat, d: Delivery)
    requires i < |s.sessions|
  {
    && !t.aborted && t.log == s.log + [d] && t.room == s.room && |t.sessions| == |s.sessions|
    && t.sessions[i].reading == ChatRead
    && AppendedToRoom(s, t, d.msg)
  }

  /** The frame of one message is the case that a client which waits for its texts to arrive relies on. */
  lemma TextReachesEveryMember(auth: AuthState, events: seq<Event>, i: nat, sent: Message<Stamp>, now: Stamp)
    requires var s := After(Start(auth), events);
      !s.aborted && i < |s.sessions| && s.sessions[i].reading == ChatRead
    requires '\n' !in sent.username && Separable(sent)
    ensures var s := After(Start(auth), events);
      var e := ChatReadDone(i, false, Frame(GetMessageScMessage(sent)), now);
      var t, d := Step(s, e), Stamped(s.sessions[i].username, i, sent.text, now);
      && Enabled(s, e) && TextDelivered(s, t, i, d)
  {
    ReadDeliversLastText(auth, events, i, [sent], now);
    assert Messages([sent]) == [GetMessageScMessage(sent)];
    ConcatSingle(GetMessageScMessage(sent));
  }

  lemma HandlesBytes(s: Server, i: nat, more: string, last: Message<Stamp>, now: Stamp)
    requires !s.aborted && i < |s.sessions| && s.sessions[i].reading == ChatRead && s.sessions[i].buffer == ""
    requires more != "" && more[|more| - 1] == NUL && Decode(more) == Accepted(GetMessageScMessage(last))
    requires Parse(Print(last)).Some? && Parse(Print(last)).value.text == last.text
    ensures var e, d := ChatReadDone(i, false, more, now), Stamped(s.sessions[i].username, i, last.text, now);
      Enabled(s, e) && TextDelivered(s, Step(s, e), i, d)
  {
    assert "" + more == more;
    var f := Filled(s, i, false, more);
    assert f.sessions[i].buffer == more;
    MessageProperty(last);
    HandlesText(f, i, Print(last), last.text, now);
    FilledAppended(s, i, more, HandleChat(f, i, false, now), Stamped(s.sessions[i].username, i, last.text, now).msg);
  }

  lemma FilledAppended(s: Server, i: nat, more: string, t: Server, m: ScMessage)
    requires i < |s.sessions| == |t.sessions|
    requires AppendedToRoom(Filled(s, i, false, more), t, m)
    ensures AppendedToRoom(s, t, m)
  {
  }

  lemma TextParses(sent: Message<Stamp>)
    requires '\n' !in sent.username
    ensures Parse(Print(sent)).Some? && Parse(Print(sent)).value.text == sent.text
  {
    PrintedParses(sent);
  }

  lemma TextFrameDecodes(sent: Message<Stamp>)
    requires '\n' !in sent.username && Separable(sent)
    ensures var m := GetMessageScMessage(sent);
      && Decode(Frame(m)) == Accepted(m) && m.kind == MESSAGE
      && m.GetProperty("message[0]") == Some(Print(sent))
      && Parse(Print(sent)).Some? && Parse(Print(sent)).value.text == sent.text
  {
    MessageFrameWellFormed(sent);
    RoundTrip(GetMessageScMessage(sent));
    MessageProperty(sent);
    TextParses(sent);
  }

  lemma HandlesText(s: Server, i: nat, src: string, text: string, now: Stamp)
    requires i < |s.sessions| && s.sessions[i].reading == ChatRead && !s.aborted
    requires Decode(s.sessions[i].buffer).Accepted?
    requires var m := Decode(s.sessions[i].buffer).msg; m.kind == MESSAGE && m.GetProperty("message[0]") == Some(src)
    requires Parse(src).Some? && Parse(src).value.text == text
    ensures var t, d := HandleChat(s, i, false, now), Stamped(s.sessions[i].username, i, text, now);
      && !t.aborted
      && t.log == s.log + [d] && t.room == s.room && |t.sessions| == |s.sessions|
      && t.sessions[i].reading == ChatRead
      && AppendedToRoom(s, t, d.msg)
  {
    var d := Stamped(s.sessions[i].username, i, text, now);
    var t := Deliver(s, d);
    assert Post(s, i, src, now) == t;
    DeliverAppends(s, d);
    var u := With(t, i, t.sessions[i].(buffer := ""));
    assert HandleChat(s, i, false, now) == u;
    forall j | 0 <= j < |s.sessions|
      ensures Stream(u.sessions[j]) == Stream(t.sessions[j]) && u.sessions[j].writing == t.sessions[j].writing
    {
    }
  }

  lemma DeliverAppends(s: Server, d: Delivery)
    ensures AppendedToRoom(s, Deliver(s, d), d.msg)
  {
  }

  // ----- authentication end to end

  lemma ReplyReceived(answer: ScType)
    requires answer != END
    ensures Received(ReplyFrame(answer)) == Some(ScMessage(answer, []))
  {
    var m := ScMessage(answer, []);
    RoundTrip(m);
    assert Blocks(m) == [TypeToStr(answer)];
    assert Frame(m) == ReplyFrame(answer);
  }

  function FailureOf(kind: ScType): ScType {
    if kind == LOGIN then LOGIN_FAILURE else REGISTER_FAILURE
  }

  /** Does the account table accept the request? */
  predicate Authenticates(info: Table, kind: ScType, username: string, password: string) {
    if kind == LOGIN then LoginOk(info, username, password) else RegisterOk(info, username)
  }

  // ----- credentials with separators

  /** Every block behind the value's first separator has a space after its first colon. */
  ghost predicate PropertyTail(value: string) {
    forall k :: 1 <= k < |Fields(value, US)| ==> PropertyBlock(Fields(value, US)[k])
  }

  /** The property blocks of a request: the password's come first, because keys are sorted. */
  function CredentialBlocks(username: string, password: string): seq<string> {
    Fields("password" + ": " + password, US) + Fields("username" + ": " + username, US)
  }

  /** What the server takes for a property of the request: the last block that sets it counts. */
  function Effective(username: string, password: string, key: string): Option<string> {
    LastBlockValue(CredentialBlocks(username, password), key)
  }

  lemma RequestBytes(kind: ScType, username: string, password: string)
    requires kind == LOGIN || kind == REGISTER
    ensures Encode(GetAuthScMessage(kind, username, password).value)
            == TypeToStr(kind) + [US] + (("password" + ": " + password) + [US] + ("username" + ": " + username))
  {
    var m := GetAuthScMessage(kind, username, password).value;
    var a, b := PropertyLine(Entry("password", password)), PropertyLine(Entry("username", username));
    assert m.properties == [Entry("password", password), Entry("username", username)];
    assert Blocks(m) == [TypeToStr(kind), a, b];
    assert Blocks(m)[1..] == [a, b] && [a, b][1..] == [b];
    assert Join([b], US) == b && Join([a, b], US) == a + [US] + b;
  }

  /** A request as the format comment writes it, with the name before the password, is the same message. */
  lemma DocumentedRequest(username: string, password: string)
    requires US !in username && US !in password
    ensures var a, b := "username: " + username, "password: " + password;
      Decode("LOGIN" + ['\U{1F}'] + (a + ['\U{1F}'] + b) + ['\0'])
      == Accepted(GetAuthScMessage(LOGIN, username, password).value)
  {
    ThreeBlocks("LOGIN", "username: " + username, "password: " + password);
    DocumentedBlocks(username, password);
  }

  lemma ThreeBlocks(name: string, a: string, b: string)
    requires US !in name && US !in a && US !in b
    ensures Decode(name + [US] + (a + [US] + b) + [NUL]) == DecodeBlocks([name] + [a, b])
  {
    DecodeOfBody(name + [US] + (a + [US] + b));
    FieldsOfThree(name, a, b);
  }

  lemma FieldsOfThree(name: string, a: string, b: string)
    requires US !in name && US !in a && US !in b
    ensures Fields(name + [US] + (a + [US] + b), US) == [name] + [a, b]
  {
    FieldsFirst(name, a + [US] + b, US);
    FieldsFirst(a, b, US);
    FieldsSingle(b, US);
  }

  lemma DocumentedBlocks(username: string, password: string)
    ensures DecodeBlocks(["LOGIN"] + ["username: " + username, "password: " + password])
            == Accepted(GetAuthScMessage(LOGIN, username, password).value)
  {
    var blocks := ["username: " + username, "password: " + password];
    var entries := [Entry("username", username), Entry("password", password)];
    PropertyNames();
    PropertyOfLine(entries[0]);
    PropertyOfLine(entries[1]);
    assert PropertyLine(entries[0]) == blocks[0] && PropertyLine(entries[1]) == blocks[1];
    assert (["LOGIN"] + blocks)[1..] == blocks;
    assert Entries(blocks) == entries;
    assert entries[..1] == [entries[0]] && entries[..1][..0] == [];
    assert SetAll([], entries[..1]) == Set([], "username", username);
    TypeNamed("LOGIN", LOGIN);
  }

  lemma RequestDecodes(kind: ScType, username: string, password: string)
    requires kind == LOGIN || kind == REGISTER
    ensures Decode(Frame(GetAuthScMessage(kind, username, password).value))
            == DecodeBlocks([TypeToStr(kind)] + CredentialBlocks(username, password))
  {
    RequestBytes(kind, username, password);
    var a, b := "password" + ": " + password, "username" + ": " + username;
    DecodeOfBody(Encode(GetAuthScMessage(kind, username, password).value));
    FieldsFirst(TypeToStr(kind), a + [US] + b, US);
    FieldsAppend(a, b, US);
  }

  ghost predicate AllPropertyBlocks(blocks: seq<string>) {
    forall k :: 0 <= k < |blocks| ==> PropertyBlock(blocks[k])
  }

  lemma PropertyBlocksAppend(a: seq<string>, b: seq<string>)
    ensures AllPropertyBlocks(a + b) <==> AllPropertyBlocks(a) && AllPropertyBlocks(b)
  {
    if AllPropertyBlocks(a + b) {
      forall k | 0 <= k < |a| ensures PropertyBlock(a[k]) { assert (a + b)[k] == a[k]; }
      forall k | 0 <= k < |b| ensures PropertyBlock(b[k]) { assert (a + b)[|a| + k] == b[k]; }
    }
  }

  /** The blocks of one credential: the first sets its key, the others are the client's own. */
  lemma CredentialFields(key: string, value: string)
    requires ':' !in key && US !in key
    ensures var fields := Fields(key + ": " + value, US);
      && BlockOf(fields[0], key)
      && (AllPropertyBlocks(fields) <==> PropertyTail(value))
  {
    var fields, own := Fields(key + ": " + value, US), Fields(value, US);
    FieldsAfterPrefix(key + ": ", value, US);
    PropertyOfLine(Entry(key, own[0]));
    PropertyBlockIff(fields[0]);
    assert fields == [fields[0]] + own[1..];
    PropertyBlocksAppend([fields[0]], own[1..]);
    assert AllPropertyBlocks(own[1..]) <==> PropertyTail(value) by {
      if AllPropertyBlocks(own[1..]) {
        forall k | 1 <= k < |own| ensures PropertyBlock(own[k]) { assert own[1..][k - 1] == own[k]; }
      }
    }
  }

  lemma {:induction false} SomeBlockSets(blocks: seq<string>, i: nat, key: string)
    requires i < |blocks| && BlockOf(blocks[i], key)
    ensures LastBlockValue(blocks, key).Some?
  {
    if i < |blocks| - 1 {
      SomeBlockSets(blocks[..|blocks| - 1], i, key);
    }
  }

  lemma CredentialsParse(username: string, password: string)
    ensures AllPropertyBlocks(CredentialBlocks(username, password))
            <==> PropertyTail(username) && PropertyTail(password)
    ensures Effective(username, password, "username").Some? && Effective(username, password, "password").Some?
  {
    var a, b := Fields("password" + ": " + password, US), Fields("username" + ": " + username, US);
    PropertyNames();
    CredentialFields("password", password);
    CredentialFields("username", username);
    PropertyBlocksAppend(a, b);
    SomeBlockSets(a + b, 0, "password");
    SomeBlockSets(a + b, |a|, "username");
  }

  /** A request is refused exactly for a bad block behind a separator; else its last blocks count. */
  lemma RequestParses(kind: ScType, username: string, password: string)
    requires kind == LOGIN || kind == REGISTER
    ensures var parsed := Decode(Frame(GetAuthScMessage(kind, username, password).value));
      && (parsed.Accepted? <==> PropertyTail(username) && PropertyTail(password))
      && (parsed.Accepted? ==>
            && parsed.msg.kind == kind
            && parsed.msg.GetProperty("username") == Effective(username, password, "username")
            && parsed.msg.GetProperty("password") == Effective(username, password, "password"))
  {
    RequestDecodes(kind, username, password);
    CredentialsParse(username, password);
    TypedCredentials(kind, CredentialBlocks(username, password));
  }

  lemma TypedCredentials(kind: ScType, blocks: seq<string>)
    requires kind != END
    ensures var parsed := DecodeBlocks([TypeToStr(kind)] + blocks);
      && (parsed.Accepted? <==> AllPropertyBlocks(blocks))
      && (parsed.Accepted? ==> parsed.msg.kind == kind
                               && forall key :: parsed.msg.GetProperty(key) == LastBlockValue(blocks, key))
  {
    var all := [TypeToStr(kind)] + blocks;
    assert all[1..] == blocks;
    assert CStr(TypeToStr(kind)) == TypeToStr(kind);
    TypeNamed(TypeToStr(kind), kind);
    forall k | 0 <= k < |blocks| ensures PropertyOf(blocks[k]).Some? <==> PropertyBlock(blocks[k]) {
      PropertyBlockIff(blocks[k]);
    }
    if DecodeBlocks(all).Accepted? {
      AcceptedLookups(all);
    }
  }

  /**
   * A client's first request with any credentials. The client lets separators through: the run ends if
   * a block behind one is no property; otherwise the request is answered for the values that the last
   * blocks of the frame set, which need not be those that the user typed.
   */
  lemma AnyCredentials(auth: AuthState, events: seq<Event>, i: nat, kind: ScType, username: string, password: string)
    requires var s := After(Start(auth), events);
      !s.aborted && i < |s.sessions| && s.sessions[i].reading == AuthRead && s.sessions[i].buffer == ""
    requires kind == LOGIN || kind == REGISTER
    ensures var s := After(Start(auth), events);
      var e := AuthReadDone(i, false, Frame(GetAuthScMessage(kind, username, password).value));
      var name, word := Effective(username, password, "username"), Effective(username, password, "password");
      && Enabled(s, e) && name.Some? && word.Some?
      && (Step(s, e).aborted <==> !(PropertyTail(username) && PropertyTail(password)))
      && (!Step(s, e).aborted ==> AnsweredFor(s, Step(s, e), i, kind, name.value, word.value))
  {
    var s := After(Start(auth), events);
    ReachableInv(auth, events);
    assert SessionOk(s.sessions[i], i in s.room, s.log, s.auth.info);
    RequestParses(kind, username, password);
    CredentialsParse(username, password);
    HandlesRequest(s, i, GetAuthScMessage(kind, username, password).value);
  }

  /** The reply and the name follow the account table, and a registration is entered. */
  ghost predicate AnsweredFor(s: Server, t: Server, i: nat, kind: ScType, name: string, word: string)
    requires i < |s.sessions|
  {
    var accepted := Authenticates(s.auth.info, kind, name, word);
    && |t.sessions| == |s.sessions|
    && t.sessions[i].reading == AuthReply(if accepted then SuccessOf(kind) else FailureOf(kind))
    && t.sessions[i].past.granted == (if accepted then [name] else [])
    && t.auth == (if kind == REGISTER then AfterRegister(s.auth, name, word) else s.auth)
  }

  lemma HandlesRequest(s: Server, i: nat, m: ScMessage)
    requires !s.aborted && i < |s.sessions| && s.sessions[i].reading == AuthRead && s.sessions[i].buffer == ""
    requires s.sessions[i].past.granted == []
    requires Decode(Frame(m)).Accepted? ==>
               var parsed := Decode(Frame(m)).msg;
               && (parsed.kind == LOGIN || parsed.kind == REGISTER)
               && parsed.GetProperty("username").Some? && parsed.GetProperty("password").Some?
    ensures var e := AuthReadDone(i, false, Frame(m));
      && Enabled(s, e)
      && (Step(s, e).aborted <==> !Decode(Frame(m)).Accepted?)
      && (Decode(Frame(m)).Accepted? ==>
            var parsed := Decode(Frame(m)).msg;
            AnsweredFor(s, Step(s, e), i, parsed.kind, parsed.GetProperty("username").value,
                   parsed.GetProperty("password").value))
  {
    assert "" + Frame(m) == Frame(m);
    assert Frame(m)[|Frame(m)| - 1] == NUL;
    var f := Filled(s, i, false, Frame(m));
    assert f.sessions[i].buffer == Frame(m);
    if Decode(Frame(m)).Accepted? {
      var parsed := Decode(Frame(m)).msg;
      AuthenticateAnswers(f, i, parsed, parsed.GetProperty("username").value, parsed.GetProperty("password").value);
    }
  }

  /**
   * A client's first request with credentials free of separators is answered with the success reply of
   * its kind exactly when the account table accepts them, else with the failure reply; exactly then the
   * session gets the name. A login leaves the accounts alone; a registration is entered.
   */
  lemma AuthenticationEndToEnd(auth: AuthState, events: seq<Event>, i: nat, kind: ScType, username: string,
                               password: string)
    requires var s := After(Start(auth), events);
      !s.aborted && i < |s.sessions| && s.sessions[i].reading == AuthRead && s.sessions[i].buffer == ""
    requires kind == LOGIN || kind == REGISTER
    requires US !in username && US !in password
    ensures var s := After(Start(auth), events);
      var e := AuthReadDone(i, false, Frame(GetAuthScMessage(kind, username, password).value));
      && Enabled(s, e) && !Step(s, e).aborted
      && AnsweredFor(s, Step(s, e), i, kind, username, password)
  {
    AnyCredentials(auth, events, i, kind, username, password);
    AuthFrameDecodes(kind, username, password);
    RequestParses(kind, username, password);
  }

  lemma AuthFrameDecodes(kind: ScType, username: string, password: string)
    requires kind == LOGIN || kind == REGISTER
    requires US !in username && US !in password
    ensures var m := GetAuthScMessage(kind, username, password).value;
      && m.kind == kind && m.GetProperty("username") == Some(username) && m.GetProperty("password") == Some(password)
      && Decode(Frame(m)) == Accepted(m)
  {
    AuthProperties(kind, username, password);
    RoundTrip(GetAuthScMessage(kind, username, password).value);
  }

  lemma AuthenticateAnswers(s: Server, i: nat, m: ScMessage, username: string, password: string)
    requires i < |s.sessions| && s.sessions[i].past.granted == []
    requires m.kind == LOGIN || m.kind == REGISTER
    requires m.GetProperty("username") == Some(username) && m.GetProperty("password") == Some(password)
    ensures var t := Authenticate(s, i, m);
      && t.aborted == s.aborted && |t.sessions| == |s.sessions|
      && t.sessions[i].reading.AuthReply? && t.sessions[i].reading.answer != END
      && t.sessions[i].reading.answer
         == (if Authenticates(s.auth.info, m.kind, username, password) then SuccessOf(m.kind) else FailureOf(m.kind))
      && t.sessions[i].past.granted
         == (if Authenticates(s.auth.info, m.kind, username, password) then [username] else [])
      && t.auth == (if m.kind == REGISTER then AfterRegister(s.auth, username, password) else s.auth)
  {
  }
}
