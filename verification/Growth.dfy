/** What a run only ever adds to: the log, the accounts, and each session's past. */
module Growth {
  import opened Wrappers
  import opened Text
  import opened Tables
  import opened Times
  import opened ScMessages
  import opened ChatMessages
  import opened Accounts
  import opened Protocol
  import opened Invariants

  /** All messages a session was given to write: those written and those waiting. */
  function Stream(ss: SessionState): seq<ScMessage> {
    ss.past.sent + ss.queue
  }

  ghost predicate SessionGrows(x: SessionState, y: SessionState, wasMember: bool, isMember: bool) {
    && y.past.joined == x.past.joined
    && (isMember ==> wasMember)
    && (x.past.left.Some? ==> y.past.left == x.past.left)
    && x.past.sent <= y.past.sent
    && x.past.wire <= y.past.wire
    && Stream(x) <= Stream(y)
    && x.past.granted <= y.past.granted
    && (x.past.granted != [] ==> y.username == x.username)
    && (x.past.replied ==> y.past.replied)
    && (x.past.failed ==> y.past.failed && y.queue == x.queue && y.writing == x.writing && y.past.sent == x.past.sent)
    && (NUL in x.buffer && y.past.granted == [] ==> y.buffer == x.buffer)
  }

  ghost predicate Grows(s: Server, t: Server) {
    && |s.sessions| <= |t.sessions|
    && s.log <= t.log
    && (forall k :: Get(s.auth.info, k).Some? ==> Get(t.auth.info, k) == Get(s.auth.info, k))
    && (forall i :: 0 <= i < |s.sessions| ==>
          SessionGrows(s.sessions[i], t.sessions[i], i in s.room, i in t.room))
  }

  lemma GrowsTransitive(s: Server, t: Server, u: Server)
    requires Grows(s, t) && Grows(t, u)
    ensures Grows(s, u)
  {
  }

  lemma ReplaceGrows(s: Server, t: Server, i: nat)
    requires i < |s.sessions| == |t.sessions|
    requires t.sessions == s.sessions[i := t.sessions[i]] && t.log == s.log
    requires t.room == s.room || t.room == s.room - {i}
    requires forall k :: Get(s.auth.info, k).Some? ==> Get(t.auth.info, k) == Get(s.auth.info, k)
    requires SessionGrows(s.sessions[i], t.sessions[i], i in s.room, i in t.room)
    ensures Grows(s, t)
  {
  }

  lemma StopGrows(s: Server, i: nat)
    requires Inv(s) && i < |s.sessions|
    ensures Grows(s, Stop(s, i))
  {
    var t := Stop(s, i);
    assert SessionOk(s.sessions[i], i in s.room, s.log, s.auth.info);
    assert t.sessions == s.sessions[i := t.sessions[i]];
    ReplaceGrows(s, t, i);
  }

  lemma ReadLoginGrows(s: Server, i: nat, error: bool)
    requires Inv(s) && i < |s.sessions|
    ensures Grows(s, ReadLogin(s, i, error))
  {
    if error {
      StopGrows(s, i);
    } else {
      ReplaceGrows(s, ReadLogin(s, i, error), i);
    }
  }

  lemma FilledGrows(s: Server, i: nat, error: bool, more: string)
    requires i < |s.sessions|
    requires !error ==> ReadCompletes(s.sessions[i].buffer, more)
    ensures Grows(s, Filled(s, i, error, more))
  {
  }

  lemma LoginGrows(s: Server, auth: AuthState, i: nat, ss: SessionState)
    requires i < |s.sessions| && s.sessions[i].past.granted == []
    requires forall k :: Get(s.auth.info, k).Some? ==> Get(auth.info, k) == Get(s.auth.info, k)
    requires ss == s.sessions[i].(reading := ss.reading)
             || ss == Granted(s.sessions[i], ss.username, LOGIN_SUCCESS)
             || ss == Granted(s.sessions[i], ss.username, REGISTER_SUCCESS)
    ensures Grows(s, With(s.(auth := auth), i, ss))
  {
  }

  lemma AuthenticateGrows(s: Server, i: nat, m: ScMessage)
    requires Inv(s) && i < |s.sessions| && s.sessions[i].reading == AuthRead
    ensures Grows(s, Authenticate(s, i, m))
  {
    assert SessionOk(s.sessions[i], i in s.room, s.log, s.auth.info);
    var ss, name, password := s.sessions[i], m.GetProperty("username"), m.GetProperty("password");
    if m.kind != LOGIN && m.kind != REGISTER {
      LoginGrows(s, s.auth, i, ss.(reading := AuthReply(FORMAT_FAILURE)));
    } else if name.Some? && password.Some? {
      AnswerGrows(s, i, name.value, password.value);
    }
  }

  lemma HandleAuthGrows(s: Server, i: nat, error: bool)
    requires Inv(s) && i < |s.sessions| && s.sessions[i].reading == AuthRead
    ensures Grows(s, HandleAuth(s, i, error))
  {
    if error {
      StopGrows(s, i);
    } else if Decode(s.sessions[i].buffer).Accepted? {
      AuthenticateGrows(s, i, Decode(s.sessions[i].buffer).msg);
    }
  }

  lemma AnswerGrows(s: Server, i: nat, name: string, password: string)
    requires i < |s.sessions| && s.sessions[i].past.granted == []
    ensures Grows(s, With(s, i, Granted(s.sessions[i], name, LOGIN_SUCCESS)))
    ensures Grows(s, With(s, i, s.sessions[i].(reading := AuthReply(LOGIN_FAILURE))))
    ensures var t := s.(auth := AfterRegister(s.auth, name, password));
      && Grows(s, With(t, i, Granted(s.sessions[i], name, REGISTER_SUCCESS)))
      && Grows(s, With(t, i, s.sessions[i].(reading := AuthReply(REGISTER_FAILURE))))
  {
    var ss, auth := s.sessions[i], AfterRegister(s.auth, name, password);
    RegisterKeeps(s.auth, name, password);
    LoginGrows(s, s.auth, i, Granted(ss, name, LOGIN_SUCCESS));
    LoginGrows(s, s.auth, i, ss.(reading := AuthReply(LOGIN_FAILURE)));
    LoginGrows(s, auth, i, Granted(ss, name, REGISTER_SUCCESS));
    LoginGrows(s, auth, i, ss.(reading := AuthReply(REGISTER_FAILURE)));
  }

  lemma RepliedGrows(s: Server, i: nat, error: bool)
    requires Inv(s) && i < |s.sessions| && s.sessions[i].reading.AuthReply?
    ensures Grows(s, Replied(s, i, error))
  {
    assert SessionOk(s.sessions[i], i in s.room, s.log, s.auth.info);
    var t := Replied(s, i, error);
    if IsSuccess(s.sessions[i].reading.answer) {
      assert t.sessions == s.sessions[i := t.sessions[i]];
      ReplaceGrows(s, t, i);
    } else {
      AnsweredGrows(s, i, error);
    }
  }

  lemma AnsweredGrows(s: Server, i: nat, error: bool)
    requires Inv(s) && i < |s.sessions| && s.sessions[i].reading.AuthReply?
    requires BeforeSuccess(s.sessions[i].reading)
    ensures var t := With(s, i, Answered(s.sessions[i], error));
      Grows(s, ReadLogin(t, i, error))
  {
    var t := With(s, i, Answered(s.sessions[i], error));
    assert SessionOk(s.sessions[i], i in s.room, s.log, s.auth.info);
    ReplaceGrows(s, t, i);
    ReplaceInv(s, t, i);
    ReadLoginGrows(t, i, error);
    GrowsTransitive(s, t, ReadLogin(t, i, error));
  }

  lemma DeliverGrows(s: Server, d: Delivery)
    requires Inv(s)
    ensures Grows(s, Deliver(s, d))
  {
  }

  lemma HandleChatGrows(s: Server, i: nat, error: bool, now: Stamp)
    requires Inv(s) && i < |s.sessions| && s.sessions[i].reading == ChatRead
    ensures Grows(s, HandleChat(s, i, error, now))
  {
    assert SessionOk(s.sessions[i], i in s.room, s.log, s.auth.info);
    if error {
      StopGrows(s, i);
    } else if Decode(s.sessions[i].buffer).Accepted? {
      ConverseGrows(s, i, Decode(s.sessions[i].buffer).msg, now);
    }
  }

  lemma ConverseGrows(s: Server, i: nat, m: ScMessage, now: Stamp)
    requires Inv(s) && i < |s.sessions| && s.sessions[i].past.granted != []
    ensures Grows(s, Converse(s, i, m, now))
  {
    if m.kind != MESSAGE {
      ReplaceGrows(s, With(s, i, s.sessions[i].(buffer := "")), i);
    } else if m.GetProperty("message[0]").Some? {
      PostThenClearGrows(s, i, m.GetProperty("message[0]").value, now);
    }
  }

  lemma PostThenClearGrows(s: Server, i: nat, src: string, now: Stamp)
    requires Inv(s) && i < |s.sessions| && s.sessions[i].past.granted != []
    ensures var t := Post(s, i, src, now);
      Grows(s, With(t, i, t.sessions[i].(buffer := "")))
  {
    var t := Post(s, i, src, now);
    if Parse(src).Some? {
      DeliverGrows(s, Stamped(s.sessions[i].username, i, Parse(src).value.text, now));
    }
    assert t.sessions[i].past.granted == s.sessions[i].past.granted;
    ReplaceGrows(t, With(t, i, t.sessions[i].(buffer := "")), i);
    GrowsTransitive(s, t, With(t, i, t.sessions[i].(buffer := "")));
  }

  lemma PoppedGrows(ss: SessionState, member: bool)
    requires ss.queue != [] && !ss.past.failed
    ensures SessionGrows(ss, Popped(ss), member, member)
  {
  }

  lemma WrittenGrows(s: Server, i: nat, error: bool)
    requires Inv(s) && i < |s.sessions| && s.sessions[i].writing.Some? && s.sessions[i].queue != []
    ensures Grows(s, Written(s, i, error))
  {
    var ss := s.sessions[i];
    assert SessionOk(ss, i in s.room, s.log, s.auth.info);
    var t := Written(s, i, error);
    assert t.sessions == s.sessions[i := t.sessions[i]];
    if !error {
      PoppedGrows(ss, i in s.room);
    } else {
      assert Stream(t.sessions[i]) == Stream(ss);
    }
    ReplaceGrows(s, t, i);
  }

  lemma StepGrows(s: Server, e: Event)
    requires Inv(s)
    ensures Grows(s, Step(s, e))
  {
    if Enabled(s, e) {
      if !e.Accept? {
        assert SessionOk(s.sessions[e.i], e.i in s.room, s.log, s.auth.info);
      }
      match e
      case Accept =>
        assert |s.sessions| !in s.room;
      case HandshakeDone(i, error) => ReadLoginGrows(s, i, error);
      case AuthReadDone(i, error, more) =>
        var t := Filled(s, i, error, more);
        FilledGrows(s, i, error, more);
        FilledInv(s, i, error, more);
        HandleAuthGrows(t, i, error);
        GrowsTransitive(s, t, HandleAuth(t, i, error));
      case AuthReplyDone(i, error) => RepliedGrows(s, i, error);
      case ChatReadDone(i, error, more, now) =>
        var t := Filled(s, i, error, more);
        FilledGrows(s, i, error, more);
        FilledInv(s, i, error, more);
        HandleChatGrows(t, i, error, now);
        GrowsTransitive(s, t, HandleChat(t, i, error, now));
      case QueueWriteDone(i, error) => WrittenGrows(s, i, error);
    }
  }

  /** From any state with the invariant, whatever happens next only adds to the past. */
  lemma {:induction false} OnlyGrows(s: Server, events: seq<Event>)
    requires Inv(s)
    ensures Grows(s, After(s, events))
    decreases events
  {
    if events != [] {
      var t := Step(s, events[0]);
      StepInv(s, events[0]);
      StepGrows(s, events[0]);
      OnlyGrows(t, events[1..]);
      GrowsTransitive(s, t, After(t, events[1..]));
    }
  }
}
