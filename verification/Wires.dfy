/** The writes that complete on a session's socket: authentication replies and messages, in order. */
module Wires {
  import opened Wrappers
  import opened Text
  import opened Times
  import opened ScMessages
  import opened ChatMessages
  import opened Accounts
  import opened Protocol
  import opened Invariants

  /** The messages on the wire, without the replies. */
  function Chats(wire: seq<Wired>): seq<ScMessage> {
    if wire == [] then []
    else (if wire[0].Chat? then [wire[0].msg] else []) + Chats(wire[1..])
  }

  lemma {:induction false} ChatsAppend(a: seq<Wired>, b: seq<Wired>)
    ensures Chats(a + b) == Chats(a) + Chats(b)
  {
    if a == [] {
      assert a + b == b;
    } else {
      assert (a + b)[1..] == a[1..] + b;
      ChatsAppend(a[1..], b);
      Associates(if a[0].Chat? then [a[0].msg] else [], Chats(a[1..]), Chats(b));
    }
  }

  lemma {:induction false} WireBytesAppend(a: seq<Wired>, b: seq<Wired>)
    ensures WireBytes(a + b) == WireBytes(a) + WireBytes(b)
    ensures WireBytes(a) == "" || WireBytes(a)[|WireBytes(a)| - 1] == NUL
  {
    if a == [] {
      assert a + b == b;
    } else {
      assert (a + b)[1..] == a[1..] + b;
      WireBytesAppend(a[1..], b);
      Associates(WireFrame(a[0]), WireBytes(a[1..]), WireBytes(b));
    }
  }

  /** The pieces of a wire are those of its parts. */
  lemma CutOfParts(a: seq<Wired>, b: seq<Wired>)
    ensures Cut(WireBytes(a + b), NUL) == Cut(WireBytes(a), NUL) + Cut(WireBytes(b), NUL)
  {
    WireBytesAppend(a, b);
    CutAppend(WireBytes(a), WireBytes(b), NUL);
  }

  /** A reply that tells the client of its login. */
  predicate IsLogin(w: Wired) {
    w.Reply? && IsSuccess(w.answer)
  }

  ghost predicate HasLogin(wire: seq<Wired>) {
    exists k :: 0 <= k < |wire| && IsLogin(wire[k])
  }

  ghost predicate OnlyChats(wire: seq<Wired>) {
    forall k :: 0 <= k < |wire| ==> wire[k].Chat?
  }

  // ----- the invariant

  /** The types that the server answers with. */
  predicate AnswerType(answer: ScType) {
    IsSuccess(answer) || answer == LOGIN_FAILURE || answer == REGISTER_FAILURE || answer == FORMAT_FAILURE
  }

  /** The messages on the wire are those sent; one login at most is on it, and no reply comes after it. */
  ghost predicate WireOk(wire: seq<Wired>, sent: seq<ScMessage>, replied: bool) {
    && Chats(wire) == sent
    && (forall k :: 0 <= k < |wire| && wire[k].Reply? ==> AnswerType(wire[k].answer))
    && (replied <==> HasLogin(wire))
    && (forall k, l :: 0 <= k < l < |wire| && IsLogin(wire[k]) ==> wire[l].Chat?)
  }

  /** A session that has read no frame yet has been sent no reply. */
  ghost predicate ReplyOk(reading: Reading, buffer: string, granted: seq<string>, wire: seq<Wired>) {
    && (reading.AuthReply? ==> AnswerType(reading.answer) && NUL in buffer)
    && (granted == [] && NUL !in buffer ==> OnlyChats(wire))
  }

  ghost predicate SessionWired(ss: SessionState) {
    WireOk(ss.past.wire, ss.past.sent, ss.past.replied)
    && ReplyOk(ss.reading, ss.buffer, ss.past.granted, ss.past.wire)
  }

  ghost predicate AllWired(s: Server) {
    forall i :: 0 <= i < |s.sessions| ==> SessionWired(s.sessions[i])
  }

  lemma ChatWritten(wire: seq<Wired>, sent: seq<ScMessage>, replied: bool, m: ScMessage)
    requires WireOk(wire, sent, replied)
    ensures WireOk(wire + [Chat(m)], sent + [m], replied)
    ensures OnlyChats(wire) ==> OnlyChats(wire + [Chat(m)])
  {
    ChatsAppend(wire, [Chat(m)]);
    assert Chats([Chat(m)]) == [m];
    HasLoginAppend(wire, Chat(m));
  }

  lemma ReplyWritten(wire: seq<Wired>, sent: seq<ScMessage>, answer: ScType)
    requires WireOk(wire, sent, false) && AnswerType(answer)
    ensures WireOk(wire + [Reply(answer)], sent, IsSuccess(answer))
  {
    ChatsAppend(wire, [Reply(answer)]);
    assert Chats([Reply(answer)]) == [];
    HasLoginAppend(wire, Reply(answer));
    assert forall k :: 0 <= k < |wire| ==> !IsLogin(wire[k]);
  }

  lemma HasLoginAppend(wire: seq<Wired>, w: Wired)
    ensures HasLogin(wire + [w]) <==> HasLogin(wire) || IsLogin(w)
  {
    var all := wire + [w];
    if k :| 0 <= k < |wire| && IsLogin(wire[k]) {
      assert IsLogin(all[k]);
    }
    if IsLogin(w) {
      assert IsLogin(all[|wire|]);
    }
  }

  // ----- steps

  lemma ReplaceWired(s: Server, i: nat, ss: SessionState)
    requires AllWired(s) && i < |s.sessions| && SessionWired(ss)
    ensures AllWired(With(s, i, ss))
  {
  }

  lemma StopWired(s: Server, i: nat)
    requires AllWired(s) && i < |s.sessions|
    ensures AllWired(Stop(s, i))
  {
    var t := Stop(s, i);
    assert t.sessions == s.sessions[i := t.sessions[i]];
    assert SessionWired(s.sessions[i]);
  }

  lemma ReadLoginWired(s: Server, i: nat, error: bool)
    requires AllWired(s) && i < |s.sessions|
    ensures AllWired(ReadLogin(s, i, error))
  {
    if error {
      StopWired(s, i);
    } else {
      ReplaceWired(s, i, s.sessions[i].(reading := AuthRead));
    }
  }

  lemma FilledWired(s: Server, i: nat, error: bool, more: string)
    requires AllWired(s) && i < |s.sessions| && !s.sessions[i].reading.AuthReply?
    ensures AllWired(Filled(s, i, error, more))
  {
  }

  lemma AuthenticateWired(s: Server, i: nat, m: ScMessage)
    requires AllWired(s) && i < |s.sessions| && NUL in s.sessions[i].buffer
    ensures AllWired(Authenticate(s, i, m))
  {
  }

  lemma HandleAuthWired(s: Server, i: nat, error: bool)
    requires AllWired(s) && i < |s.sessions| && (!error ==> NUL in s.sessions[i].buffer)
    ensures AllWired(HandleAuth(s, i, error))
  {
    if error {
      StopWired(s, i);
    } else if Decode(s.sessions[i].buffer).Accepted? {
      AuthenticateWired(s, i, Decode(s.sessions[i].buffer).msg);
    }
  }

  lemma RepliedWired(s: Server, i: nat, error: bool)
    requires Inv(s) && AllWired(s) && i < |s.sessions| && s.sessions[i].reading.AuthReply?
    ensures AllWired(Replied(s, i, error))
  {
    var ss := s.sessions[i];
    assert SessionOk(ss, i in s.room, s.log, s.auth.info);
    assert SessionWired(ss);
    ReplyWritten(ss.past.wire, ss.past.sent, ss.reading.answer);
    if IsSuccess(ss.reading.answer) {
      LoggedInWired(s, i, error);
    } else {
      ReplaceWired(s, i, Answered(ss, error));
      ReadLoginWired(With(s, i, Answered(ss, error)), i, error);
    }
  }

  lemma LoggedInWired(s: Server, i: nat, error: bool)
    requires AllWired(s) && i < |s.sessions| && s.sessions[i].reading.AuthReply?
    requires IsSuccess(s.sessions[i].reading.answer) && !s.sessions[i].past.replied
    requires s.sessions[i].past.granted != []
    requires WireOk(Answered(s.sessions[i], false).past.wire, s.sessions[i].past.sent, true)
    ensures AllWired(Replied(s, i, error))
  {
    var t := Replied(s, i, error);
    assert SessionWired(s.sessions[i]);
    assert t.sessions == s.sessions[i := t.sessions[i]];
    assert SessionWired(t.sessions[i]);
  }

  lemma PostWired(s: Server, i: nat, src: string, now: Stamp)
    requires AllWired(s) && i < |s.sessions|
    ensures AllWired(Post(s, i, src, now))
    ensures |Post(s, i, src, now).sessions| == |s.sessions|
    ensures Post(s, i, src, now).sessions[i].past.granted == s.sessions[i].past.granted
    ensures Post(s, i, src, now).sessions[i].reading == s.sessions[i].reading
  {
  }

  lemma HandleChatWired(s: Server, i: nat, error: bool, now: Stamp)
    requires AllWired(s) && i < |s.sessions| && s.sessions[i].reading == ChatRead && s.sessions[i].past.granted != []
    ensures AllWired(HandleChat(s, i, error, now))
  {
    if error {
      StopWired(s, i);
    } else if Decode(s.sessions[i].buffer).Accepted? {
      ConverseWired(s, i, Decode(s.sessions[i].buffer).msg, now);
    }
  }

  lemma ConverseWired(s: Server, i: nat, m: ScMessage, now: Stamp)
    requires AllWired(s) && i < |s.sessions| && s.sessions[i].reading == ChatRead && s.sessions[i].past.granted != []
    ensures AllWired(Converse(s, i, m, now))
  {
    if m.kind != MESSAGE {
      ReplaceWired(s, i, s.sessions[i].(buffer := ""));
    } else if m.GetProperty("message[0]").Some? {
      var t := Post(s, i, m.GetProperty("message[0]").value, now);
      PostWired(s, i, m.GetProperty("message[0]").value, now);
      assert SessionWired(t.sessions[i]);
      ReplaceWired(t, i, t.sessions[i].(buffer := ""));
    }
  }

  lemma WrittenWired(s: Server, i: nat, error: bool)
    requires AllWired(s) && i < |s.sessions| && s.sessions[i].queue != []
    ensures AllWired(Written(s, i, error))
  {
    var ss, t := s.sessions[i], Written(s, i, error);
    assert SessionWired(ss);
    ChatWritten(ss.past.wire, ss.past.sent, ss.past.replied, ss.queue[0]);
    assert t.sessions == s.sessions[i := t.sessions[i]];
    assert SessionWired(t.sessions[i]);
  }

  lemma StepWired(s: Server, e: Event)
    requires Inv(s) && AllWired(s)
    ensures AllWired(Step(s, e))
  {
    if Enabled(s, e) {
      if !e.Accept? {
        assert SessionOk(s.sessions[e.i], e.i in s.room, s.log, s.auth.info);
      }
      match e
      case Accept =>
      case HandshakeDone(i, error) => ReadLoginWired(s, i, error);
      case AuthReadDone(i, error, more) =>
        FilledWired(s, i, error, more);
        HandleAuthWired(Filled(s, i, error, more), i, error);
      case AuthReplyDone(i, error) => RepliedWired(s, i, error);
      case ChatReadDone(i, error, more, now) =>
        FilledWired(s, i, error, more);
        HandleChatWired(Filled(s, i, error, more), i, error, now);
      case QueueWriteDone(i, error) => WrittenWired(s, i, error);
    }
  }

  lemma {:induction false} RunWired(s: Server, events: seq<Event>)
    requires Inv(s) && AllWired(s)
    ensures AllWired(After(s, events))
    decreases events
  {
    if events != [] {
      StepInv(s, events[0]);
      StepWired(s, events[0]);
      RunWired(Step(s, events[0]), events[1..]);
    }
  }

  /**
   * In every reachable state the wire of a session is refusals and messages in any order, then one
   * success reply exactly if the session counts as told of its login, and behind that only messages;
   * the messages are those sent, in order.
   */
  lemma WireShape(auth: AuthState, events: seq<Event>, i: nat)
    requires i < |After(Start(auth), events).sessions|
    ensures var past := After(Start(auth), events).sessions[i].past;
      && Chats(past.wire) == past.sent
      && (past.replied <==> HasLogin(past.wire))
      && (forall k, l :: 0 <= k < l < |past.wire| && IsLogin(past.wire[k]) ==> past.wire[l].Chat?)
      && (forall k :: 0 <= k < |past.wire| && past.wire[k].Reply? ==> AnswerType(past.wire[k].answer))
  {
    ReachableWired(auth, events);
    assert SessionWired(After(Start(auth), events).sessions[i]);
  }

  lemma ReachableWired(auth: AuthState, events: seq<Event>)
    ensures AllWired(After(Start(auth), events))
  {
    InitInv(auth);
    RunWired(Start(auth), events);
  }
}
