/** What a client is shown by the whole stream of bytes that the server has written to it. */
module Streams {
  import opened Wrappers
  import opened Text
  import opened Tables
  import opened Times
  import opened ScMessages
  import opened ChatMessages
  import opened Accounts
  import opened Protocol
  import opened Invariants
  import opened Growth
  import opened Guarantees
  import opened Client
  import opened ShownFrames
  import opened EndToEnd
  import opened Wires

  // ----- the stream of one session

  /** The messages that stand behind the completed writes of a session. */
  ghost function Story(s: Server, j: nat): seq<Message<Stamp>>
    requires j < |s.sessions|
    requires forall k :: 0 <= k < |s.log| ==> s.log[k].sender < |s.sessions|
    requires s.sessions[j].past.joined + |s.sessions[j].past.sent| <= |s.log|
  {
    var past := s.sessions[j].past;
    seq(|past.sent|, n requires 0 <= n < |past.sent| => Authored(s, past.joined + n))
  }

  /** A delivery carries its sender's name, which is an account. */
  lemma LoggedMessage(s: Server, k: nat)
    requires Inv(s) && k < |s.log|
    ensures s.log[k].sender < |s.sessions|
    ensures s.log[k].msg == GetMessageScMessage(Authored(s, k)) && Separable(Authored(s, k))
    ensures Get(s.auth.info, Authored(s, k).username).Some?
  {
    var d := s.log[k];
    assert DeliveryOk(d, s.sessions);
    assert SessionOk(s.sessions[d.sender], d.sender in s.room, s.log, s.auth.info);
  }

  /** The messages written to a session are the log entries since it joined. */
  ghost predicate SentLogged(ss: SessionState, log: seq<Delivery>) {
    && ss.past.joined + |ss.past.sent| <= |log|
    && forall n :: 0 <= n < |ss.past.sent| ==> ss.past.sent[n] == log[ss.past.joined + n].msg
  }

  lemma WindowLogged(ss: SessionState, member: bool, log: seq<Delivery>)
    requires WindowOk(ss, member, log)
    ensures SentLogged(ss, log)
  {
    var all := ss.past.sent + ss.queue;
    assert all == Window(ss.past, log);
    forall n | 0 <= n < |ss.past.sent| ensures ss.past.sent[n] == log[ss.past.joined + n].msg {
      assert all[n] == ss.past.sent[n];
    }
  }

  /** Every log entry is the message of its author. */
  ghost predicate LogAuthored(s: Server) {
    forall k :: 0 <= k < |s.log| ==>
      && s.log[k].sender < |s.sessions|
      && s.log[k].msg == GetMessageScMessage(Authored(s, k)) && Separable(Authored(s, k))
  }

  lemma LogIsAuthored(s: Server)
    requires Inv(s)
    ensures LogAuthored(s)
  {
    forall k | 0 <= k < |s.log|
      ensures s.log[k].sender < |s.sessions|
              && s.log[k].msg == GetMessageScMessage(Authored(s, k)) && Separable(Authored(s, k))
    {
      LoggedMessage(s, k);
    }
  }

  lemma StateLogged(s: Server, j: nat)
    requires Inv(s) && j < |s.sessions|
    ensures LogAuthored(s) && SentLogged(s.sessions[j], s.log)
  {
    LogIsAuthored(s);
    assert SessionOk(s.sessions[j], j in s.room, s.log, s.auth.info);
    WindowLogged(s.sessions[j], j in s.room, s.log);
  }

  /** What was written to a session are the messages of its story. */
  lemma StoryIsSent(s: Server, j: nat)
    requires LogAuthored(s) && j < |s.sessions| && SentLogged(s.sessions[j], s.log)
    ensures Messages(Story(s, j)) == s.sessions[j].past.sent
    ensures forall n :: 0 <= n < |Story(s, j)| ==> Separable(Story(s, j)[n])
  {
    var past, story := s.sessions[j].past, Story(s, j);
    forall n | 0 <= n < |story| ensures Separable(story[n]) && past.sent[n] == GetMessageScMessage(story[n]) {
      StoryEntry(s, j, n);
    }
    SameMessages(story, past.sent);
  }

  lemma StoryEntry(s: Server, j: nat, n: nat)
    requires LogAuthored(s) && j < |s.sessions| && SentLogged(s.sessions[j], s.log) && n < |s.sessions[j].past.sent|
    ensures Separable(Story(s, j)[n]) && s.sessions[j].past.sent[n] == GetMessageScMessage(Story(s, j)[n])
  {
    assert Story(s, j)[n] == Authored(s, s.sessions[j].past.joined + n);
  }

  lemma SameMessages(story: seq<Message<Stamp>>, sent: seq<ScMessage>)
    requires |story| == |sent| && forall n :: 0 <= n < |sent| ==> sent[n] == GetMessageScMessage(story[n])
    ensures Messages(story) == sent
  {
  }

  /** What a client makes of a sequence of messages. */
  function Told(story: seq<Message<Stamp>>): seq<Outcome> {
    if story == [] then [] else MessageOutcomes(story[0]) + Told(story[1..])
  }

  lemma {:induction false} StreamOfStory(story: seq<Message<Stamp>>)
    requires forall n :: 0 <= n < |story| ==> Separable(story[n])
    ensures Outcomes(Cut(Concat(Frames(Messages(story))), NUL)) == Told(story)
  {
    var frames := Frames(Messages(story));
    if story != [] {
      assert frames[1..] == Frames(Messages(story[1..]));
      StreamOfStory(story[1..]);
      CutAppend(frames[0], Concat(frames[1..]), NUL);
      OutcomesAppend(Cut(frames[0], NUL), Cut(Concat(frames[1..]), NUL));
      FrameOutcomes(story[0]);
    }
  }

  // ----- the wire

  lemma ReplyOutcome(answer: ScType)
    requires AnswerType(answer)
    ensures Cut(ReplyFrame(answer), NUL) == [ReplyFrame(answer)]
    ensures OutcomeOf(ReplyFrame(answer)) == Ignored
  {
    ReplyReceived(answer);
    CutFirst(TypeToStr(answer), "", NUL);
    assert TypeToStr(answer) + [NUL] + "" == ReplyFrame(answer);
  }

  /** What a client makes of a wire that carries these messages: replies are ignored by its read loop. */
  function Heard(wire: seq<Wired>, story: seq<Message<Stamp>>): seq<Outcome>
    requires |Chats(wire)| == |story|
  {
    if wire == [] then []
    else if wire[0].Reply? then [Ignored] + Heard(wire[1..], story)
    else MessageOutcomes(story[0]) + Heard(wire[1..], story[1..])
  }

  ghost predicate RepliesOk(wire: seq<Wired>) {
    forall k :: 0 <= k < |wire| && wire[k].Reply? ==> AnswerType(wire[k].answer)
  }

  lemma FirstOnWire(w: Wired, rest: seq<Wired>)
    ensures Cut(WireBytes([w] + rest), NUL) == Cut(WireFrame(w), NUL) + Cut(WireBytes(rest), NUL)
    ensures Outcomes(Cut(WireBytes([w] + rest), NUL))
            == Outcomes(Cut(WireFrame(w), NUL)) + Outcomes(Cut(WireBytes(rest), NUL))
  {
    assert ([w] + rest)[1..] == rest;
    CutAppend(WireFrame(w), WireBytes(rest), NUL);
    OutcomesAppend(Cut(WireFrame(w), NUL), Cut(WireBytes(rest), NUL));
  }

  ghost predicate AllSeparable(story: seq<Message<Stamp>>) {
    forall n :: 0 <= n < |story| ==> Separable(story[n])
  }

  /** The chats on the wire are the messages of the story, and its replies are answers. */
  ghost predicate Carries(wire: seq<Wired>, story: seq<Message<Stamp>>) {
    Chats(wire) == Messages(story) && RepliesOk(wire) && AllSeparable(story)
  }

  lemma ReplyFirst(wire: seq<Wired>, story: seq<Message<Stamp>>)
    requires Carries(wire, story) && wire != [] && wire[0].Reply?
    ensures AnswerType(wire[0].answer) && Carries(wire[1..], story)
  {
  }

  lemma ChatFirst(wire: seq<Wired>, story: seq<Message<Stamp>>)
    requires Carries(wire, story) && wire != [] && wire[0].Chat?
    ensures story != [] && wire[0].msg == GetMessageScMessage(story[0]) && Separable(story[0])
    ensures Carries(wire[1..], story[1..])
  {
    assert Chats(wire) == [wire[0].msg] + Chats(wire[1..]);
    assert Messages(story)[0] == GetMessageScMessage(story[0]) && Messages(story)[1..] == Messages(story[1..]);
  }

  lemma {:induction false} HeardWire(wire: seq<Wired>, story: seq<Message<Stamp>>)
    requires Carries(wire, story)
    ensures |Chats(wire)| == |story| && Outcomes(Cut(WireBytes(wire), NUL)) == Heard(wire, story)
  {
    if wire != [] {
      if wire[0].Reply? {
        ReplyFirst(wire, story);
        HeardWire(wire[1..], story);
        HeardReply(wire[0].answer, wire[1..]);
      } else {
        ChatFirst(wire, story);
        HeardWire(wire[1..], story[1..]);
        HeardChat(story[0], wire[1..]);
      }
      assert wire == [wire[0]] + wire[1..];
    }
  }

  lemma HeardReply(answer: ScType, rest: seq<Wired>)
    requires AnswerType(answer)
    ensures Outcomes(Cut(WireBytes([Reply(answer)] + rest), NUL)) == [Ignored] + Outcomes(Cut(WireBytes(rest), NUL))
  {
    FirstOnWire(Reply(answer), rest);
    ReplyOutcome(answer);
    EachSingle(OutcomeOf, ReplyFrame(answer));
  }

  lemma HeardChat(m: Message<Stamp>, rest: seq<Wired>)
    requires Separable(m)
    ensures Outcomes(Cut(WireBytes([Chat(GetMessageScMessage(m))] + rest), NUL))
            == MessageOutcomes(m) + Outcomes(Cut(WireBytes(rest), NUL))
  {
    FirstOnWire(Chat(GetMessageScMessage(m)), rest);
    FrameOutcomes(m);
  }

  lemma ReachableCarries(auth: AuthState, events: seq<Event>, j: nat)
    requires j < |After(Start(auth), events).sessions|
    ensures var s := After(Start(auth), events);
      && LogAuthored(s) && SentLogged(s.sessions[j], s.log)
      && Carries(s.sessions[j].past.wire, Story(s, j))
  {
    ReachableInv(auth, events);
    WireShape(auth, events, j);
    StateLogged(After(Start(auth), events), j);
    StoryIsSent(After(Start(auth), events), j);
  }

  /**
   * In every reachable state, a client that cuts all bytes written to it at each NUL gets exactly what
   * the replies and its share of the log stand for, write by write and in order, whatever names and
   * texts contain.
   */
  lemma StreamOutcomes(auth: AuthState, events: seq<Event>, j: nat)
    requires j < |After(Start(auth), events).sessions|
    ensures var s := After(Start(auth), events);
      var wire := s.sessions[j].past.wire;
      && (forall k :: 0 <= k < |s.log| ==> s.log[k].sender < |s.sessions|)
      && s.sessions[j].past.joined + |s.sessions[j].past.sent| <= |s.log|
      && |Chats(wire)| == |Story(s, j)|
      && Outcomes(Cut(WireBytes(wire), NUL)) == Heard(wire, Story(s, j))
  {
    ReachableCarries(auth, events, j);
    HeardWire(After(Start(auth), events).sessions[j].past.wire, Story(After(Start(auth), events), j));
  }

  // ----- what `Auth` reads

  /** The first frame on the wire answers a request with success only if it is that success reply. */
  lemma FirstFrame(wire: seq<Wired>, story: seq<Message<Stamp>>, kind: ScType)
    requires wire != [] && Carries(wire, story)
    requires kind == LOGIN || kind == REGISTER
    ensures var frames := Cut(WireBytes(wire), NUL);
      frames != [] && AuthResultOf(kind, Some(frames[0])) == Answer(wire[0] == Reply(SuccessOf(kind)))
  {
    assert wire == [wire[0]] + wire[1..];
    FirstOnWire(wire[0], wire[1..]);
    if wire[0].Reply? {
      ReplyFirst(wire, story);
      ReplyReport(wire[0].answer, kind);
    } else {
      ChatFirst(wire, story);
      ChatReport(story[0], kind);
    }
  }

  lemma ReplyReport(answer: ScType, kind: ScType)
    requires AnswerType(answer) && (kind == LOGIN || kind == REGISTER)
    ensures Cut(ReplyFrame(answer), NUL) == [ReplyFrame(answer)]
    ensures AuthResultOf(kind, Some(ReplyFrame(answer))) == Answer(answer == SuccessOf(kind))
  {
    ReplyOutcome(answer);
    ReplyReceived(answer);
  }

  lemma ChatReport(m: Message<Stamp>, kind: ScType)
    requires Separable(m) && (kind == LOGIN || kind == REGISTER)
    ensures var frames := Cut(Frame(GetMessageScMessage(m)), NUL);
      frames != [] && AuthResultOf(kind, Some(frames[0])) == Answer(false)
  {
    FirstPiece(m);
  }

  /**
   * In every reachable state, the first frame of all that was written to a client makes its first
   * request report success exactly when the first write was the success reply of that kind.
   */
  lemma FirstRequestReport(auth: AuthState, events: seq<Event>, i: nat, kind: ScType)
    requires i < |After(Start(auth), events).sessions| && After(Start(auth), events).sessions[i].past.wire != []
    requires kind == LOGIN || kind == REGISTER
    ensures var wire := After(Start(auth), events).sessions[i].past.wire;
      var frames := Cut(WireBytes(wire), NUL);
      frames != [] && AuthResultOf(kind, Some(frames[0])) == Answer(wire[0] == Reply(SuccessOf(kind)))
  {
    var s := After(Start(auth), events);
    ReachableCarries(auth, events, i);
    FirstFrame(s.sessions[i].past.wire, Story(s, i), kind);
  }

  ghost predicate NoNuls(story: seq<Message<Stamp>>) {
    forall n :: 0 <= n < |story| ==> NUL !in story[n].username && NUL !in story[n].text
  }

  /** Without NULs in names and texts every write is one frame. */
  lemma {:induction false} WholeFrames(wire: seq<Wired>, story: seq<Message<Stamp>>)
    requires Carries(wire, story) && NoNuls(story)
    ensures Cut(WireBytes(wire), NUL) == Each(WireFrame, wire)
  {
    if wire != [] {
      assert wire == [wire[0]] + wire[1..];
      FirstOnWire(wire[0], wire[1..]);
      EachAppend(WireFrame, [wire[0]], wire[1..]);
      EachSingle(WireFrame, wire[0]);
      if wire[0].Reply? {
        ReplyFirst(wire, story);
        ReplyOutcome(wire[0].answer);
        WholeFrames(wire[1..], story);
      } else {
        ChatFirst(wire, story);
        MessageFrameWellFormed(story[0]);
        PiecesOfFrame(wire[0].msg);
        WholeFrames(wire[1..], story[1..]);
      }
    }
  }

  lemma {:induction false} CarriedChat(wire: seq<Wired>, story: seq<Message<Stamp>>, k: nat)
    requires Carries(wire, story) && k < |wire|
    ensures wire[k].Reply? ==> AnswerType(wire[k].answer)
    ensures wire[k].Chat? ==> exists n :: 0 <= n < |story| && wire[k].msg == GetMessageScMessage(story[n])
  {
    if k > 0 {
      if wire[0].Reply? {
        ReplyFirst(wire, story);
        CarriedChat(wire[1..], story, k - 1);
      } else {
        ChatFirst(wire, story);
        CarriedChat(wire[1..], story[1..], k - 1);
      }
    } else if wire[0].Chat? {
      ChatFirst(wire, story);
    }
  }

  /**
   * When no name or text has a NUL, request number `k` of a client reads write number `k` to it, and
   * reports success exactly if that write was the success reply of its kind: each delivery or refusal
   * written before the login costs the client one more request.
   */
  lemma EachRequestReport(auth: AuthState, events: seq<Event>, i: nat, kind: ScType, k: nat)
    requires i < |After(Start(auth), events).sessions|
    requires k < |After(Start(auth), events).sessions[i].past.wire| && (kind == LOGIN || kind == REGISTER)
    ensures var s := After(Start(auth), events);
      var wire := s.sessions[i].past.wire;
      && LogAuthored(s) && SentLogged(s.sessions[i], s.log)
      && (NoNuls(Story(s, i)) ==>
            && |Cut(WireBytes(wire), NUL)| == |wire|
            && AuthResultOf(kind, Some(Cut(WireBytes(wire), NUL)[k])) == Answer(wire[k] == Reply(SuccessOf(kind))))
  {
    var s := After(Start(auth), events);
    ReachableCarries(auth, events, i);
    if NoNuls(Story(s, i)) {
      RequestReport(s.sessions[i].past.wire, Story(s, i), kind, k);
    }
  }

  lemma RequestReport(wire: seq<Wired>, story: seq<Message<Stamp>>, kind: ScType, k: nat)
    requires Carries(wire, story) && NoNuls(story) && k < |wire| && (kind == LOGIN || kind == REGISTER)
    ensures |Cut(WireBytes(wire), NUL)| == |wire|
    ensures AuthResultOf(kind, Some(Cut(WireBytes(wire), NUL)[k])) == Answer(wire[k] == Reply(SuccessOf(kind)))
  {
    WholeFrames(wire, story);
    WriteReport(wire, story, kind, k);
  }

  lemma WriteReport(wire: seq<Wired>, story: seq<Message<Stamp>>, kind: ScType, k: nat)
    requires Carries(wire, story) && NoNuls(story) && k < |wire| && (kind == LOGIN || kind == REGISTER)
    ensures AuthResultOf(kind, Some(WireFrame(wire[k]))) == Answer(wire[k] == Reply(SuccessOf(kind)))
  {
    CarriedChat(wire, story, k);
    if wire[k].Reply? {
      ReplyReport(wire[k].answer, kind);
    } else {
      var n :| 0 <= n < |story| && wire[k].msg == GetMessageScMessage(story[n]);
      WholeChatReport(story[n], kind);
    }
  }

  lemma WholeChatReport(m: Message<Stamp>, kind: ScType)
    requires Separable(m) && NUL !in m.username && NUL !in m.text && (kind == LOGIN || kind == REGISTER)
    ensures AuthResultOf(kind, Some(Frame(GetMessageScMessage(m)))) == Answer(false)
  {
    ChatReport(m, kind);
    MessageFrameWellFormed(m);
    PiecesOfFrame(GetMessageScMessage(m));
  }

  /** Is this an answer to a request of this kind? */
  predicate Answers(kind: ScType, answer: ScType) {
    (kind == LOGIN || kind == REGISTER) && (IsSuccess(answer) ==> answer == SuccessOf(kind))
  }

  /**
   * When the first reply to a client has been written, what the client reports for its request agrees
   * with the server's answer if and only if that answer is a refusal or no delivery was written before
   * it; and nothing that is written later changes that.
   */
  lemma ReportAgreesIff(auth: AuthState, events: seq<Event>, i: nat, kind: ScType, more: seq<Event>)
    requires Enabled(After(Start(auth), events), AuthReplyDone(i, false))
    requires var ss := After(Start(auth), events).sessions[i];
      OnlyChats(ss.past.wire) && Answers(kind, ss.reading.answer)
    ensures var s := After(Start(auth), events);
      var answer := s.sessions[i].reading.answer;
      var t := After(Step(s, AuthReplyDone(i, false)), more);
      && i < |t.sessions|
      && var frames := Cut(WireBytes(t.sessions[i].past.wire), NUL);
         && frames != []
         && (AuthResultOf(kind, Some(frames[0])) == Answer(IsSuccess(answer))
             <==> !IsSuccess(answer) || s.sessions[i].past.sent == [])
  {
    var s, e := After(Start(auth), events), AuthReplyDone(i, false);
    ReplyOnWire(s, i);
    WireShape(auth, events, i);
    ReachableInv(auth, events);
    WireGrows(s, [e] + more, i);
    AfterCons(s, e, more);
    StepInv(s, e);
    WireGrows(Step(s, e), more, i);
    AfterAppend(Start(auth), events, [e] + more);
    FirstRequestReport(auth, events + ([e] + more), i, kind);
    FirstWrite(s.sessions[i].past.wire, s.sessions[i].reading.answer, After(s, [e] + more).sessions[i].past.wire);
  }

  lemma FirstWrite(before: seq<Wired>, answer: ScType, after: seq<Wired>)
    requires OnlyChats(before) && before + [Reply(answer)] <= after
    ensures Chats(before) == [] <==> before == []
    ensures before == [] ==> after[0] == Reply(answer)
    ensures before != [] ==> after[0].Chat?
  {
  }

  lemma ReplyOnWire(s: Server, i: nat)
    requires Enabled(s, AuthReplyDone(i, false))
    ensures var t := Step(s, AuthReplyDone(i, false));
      i < |t.sessions| && t.sessions[i].past.wire == s.sessions[i].past.wire + [Reply(s.sessions[i].reading.answer)]
  {
  }

  lemma WireGrows(s: Server, events: seq<Event>, i: nat)
    requires Inv(s) && i < |s.sessions|
    ensures i < |After(s, events).sessions| && s.sessions[i].past.wire <= After(s, events).sessions[i].past.wire
  {
    OnlyGrows(s, events);
    assert SessionGrows(s.sessions[i], After(s, events).sessions[i], i in s.room, i in After(s, events).room);
  }

  /** The reply is the only event that a session with a pending reply waits for, but for its queue. */
  predicate NoReplyBy(i: nat, events: seq<Event>) {
    forall n :: 0 <= n < |events| && events[n].AuthReplyDone? ==> events[n].i != i
  }

  /** A session whose reply is still pending. */
  ghost predicate Pending(x: SessionState, y: SessionState) {
    && y.reading == x.reading && y.past.granted == x.past.granted
    && (OnlyChats(x.past.wire) ==> OnlyChats(y.past.wire))
  }

  lemma StepKeepsPending(s: Server, e: Event, i: nat)
    requires i < |s.sessions| && s.sessions[i].reading.AuthReply?
    requires e.AuthReplyDone? ==> e.i != i
    ensures i < |Step(s, e).sessions| && Pending(s.sessions[i], Step(s, e).sessions[i])
  {
    if Enabled(s, e) {
      match e
      case AuthReadDone(j, error, more) => AuthKeepsPending(Filled(s, j, error, more), j, error, i);
      case ChatReadDone(j, error, more, now) => ChatKeepsPending(Filled(s, j, error, more), j, error, now, i);
      case AuthReplyDone(j, error) => ReplyKeepsPending(s, j, error, i);
      case QueueWriteDone(j, error) => WriteKeepsPending(s, j, error, i);
      case _ =>
    }
  }

  lemma AuthKeepsPending(s: Server, j: nat, error: bool, i: nat)
    requires j < |s.sessions| && i < |s.sessions| && i != j
    ensures var t := HandleAuth(s, j, error);
      i < |t.sessions| && t.sessions[i] == s.sessions[i]
  {
    if !error && Decode(s.sessions[j].buffer).Accepted? {
      AuthenticateKeepsOthers(s, j, Decode(s.sessions[j].buffer).msg, i);
    }
  }

  lemma AuthenticateKeepsOthers(s: Server, j: nat, m: ScMessage, i: nat)
    requires j < |s.sessions| && i < |s.sessions| && i != j
    ensures var t := Authenticate(s, j, m);
      i < |t.sessions| && t.sessions[i] == s.sessions[i]
  {
  }

  lemma ChatKeepsPending(s: Server, j: nat, error: bool, now: Stamp, i: nat)
    requires j < |s.sessions| && i < |s.sessions| && i != j
    ensures var t := HandleChat(s, j, error, now);
      i < |t.sessions| && t.sessions[i].reading == s.sessions[i].reading && t.sessions[i].past == s.sessions[i].past
  {
    if !error && Decode(s.sessions[j].buffer).Accepted? {
      var m := Decode(s.sessions[j].buffer).msg;
      if m.kind == MESSAGE && m.GetProperty("message[0]").Some? {
        PostKeepsPending(s, j, m.GetProperty("message[0]").value, now, i);
      }
    }
  }

  lemma PostKeepsPending(s: Server, j: nat, src: string, now: Stamp, i: nat)
    requires j < |s.sessions| && i < |s.sessions|
    ensures var t := Post(s, j, src, now);
      && |t.sessions| == |s.sessions|
      && t.sessions[i].reading == s.sessions[i].reading && t.sessions[i].past == s.sessions[i].past
  {
  }

  lemma ReplyKeepsPending(s: Server, j: nat, error: bool, i: nat)
    requires j < |s.sessions| && i < |s.sessions| && i != j && s.sessions[j].reading.AuthReply?
    ensures var t := Replied(s, j, error);
      i < |t.sessions| && t.sessions[i] == s.sessions[i]
  {
  }

  lemma WriteKeepsPending(s: Server, j: nat, error: bool, i: nat)
    requires j < |s.sessions| && i < |s.sessions| && s.sessions[j].queue != []
    ensures var t := Written(s, j, error);
      i < |t.sessions| && Pending(s.sessions[i], t.sessions[i])
  {
  }

  lemma {:induction false} RunKeepsPending(s: Server, events: seq<Event>, i: nat)
    requires i < |s.sessions| && s.sessions[i].reading.AuthReply? && NoReplyBy(i, events)
    ensures i < |After(s, events).sessions| && Pending(s.sessions[i], After(s, events).sessions[i])
    decreases events
  {
    if events != [] {
      StepKeepsPending(s, events[0], i);
      forall n | 0 <= n < |events[1..]| && events[1..][n].AuthReplyDone? ensures events[1..][n].i != i {
        assert events[n + 1] == events[1..][n];
      }
      RunKeepsPending(Step(s, events[0]), events[1..], i);
    }
  }

  /**
   * Logging in or registering from end to end: the client writes its first request, anything else may
   * happen until the reply is written, and the client reads the first frame of all that it was sent.
   * It reports success exactly when the account table accepted the request and no delivery had been
   * written before the reply; the session knows of its login exactly when the table accepted it.
   */
  lemma LoginEndToEnd(auth: AuthState, events: seq<Event>, i: nat, kind: ScType, username: string, password: string,
                      more: seq<Event>)
    requires var s := After(Start(auth), events);
      !s.aborted && i < |s.sessions| && s.sessions[i].reading == AuthRead && s.sessions[i].buffer == ""
    requires (kind == LOGIN || kind == REGISTER) && US !in username && US !in password && NoReplyBy(i, more)
    requires var e := AuthReadDone(i, false, Frame(GetAuthScMessage(kind, username, password).value));
      !After(Start(auth), events + ([e] + more)).aborted
    ensures var s := After(Start(auth), events);
      var e := AuthReadDone(i, false, Frame(GetAuthScMessage(kind, username, password).value));
      var u := After(Start(auth), events + ([e] + more));
      var v := Step(u, AuthReplyDone(i, false));
      var accepted := Authenticates(s.auth.info, kind, username, password);
      && i < |u.sessions| && i < |v.sessions| && Enabled(u, AuthReplyDone(i, false))
      && v.sessions[i].past.replied == accepted
      && var frames := Cut(WireBytes(v.sessions[i].past.wire), NUL);
         && frames != []
         && AuthResultOf(kind, Some(frames[0])) == Answer(accepted && u.sessions[i].past.sent == [])
         && (ConStateAfter(Connected, AuthResultOf(kind, Some(frames[0]))) == LoggedIn
             <==> accepted && u.sessions[i].past.sent == [])
  {
    var s := After(Start(auth), events);
    var e := AuthReadDone(i, false, Frame(GetAuthScMessage(kind, username, password).value));
    var t, run := Step(s, e), events + ([e] + more);
    AuthenticationEndToEnd(auth, events, i, kind, username, password);
    FirstAnswerOpen(auth, events, i, e);
    AfterAppend(Start(auth), events, [e] + more);
    AfterCons(s, e, more);
    RunKeepsPending(t, more, i);
    ReportOfReply(auth, run, i, kind);
  }

  /** A session that reads its first request has been sent no reply. */
  lemma FirstAnswerOpen(auth: AuthState, events: seq<Event>, i: nat, e: Event)
    requires var s := After(Start(auth), events);
      i < |s.sessions| && s.sessions[i].reading == AuthRead && s.sessions[i].buffer == ""
    requires e.AuthReadDone? && e.i == i
    ensures var s, t := After(Start(auth), events), Step(After(Start(auth), events), e);
      i < |t.sessions| && OnlyChats(t.sessions[i].past.wire)
  {
    var s := After(Start(auth), events);
    ReachableInv(auth, events);
    ReachableWired(auth, events);
    assert SessionOk(s.sessions[i], i in s.room, s.log, s.auth.info);
    assert SessionWired(s.sessions[i]);
    AuthKeepsWire(s, e);
  }

  lemma AuthKeepsWire(s: Server, e: Event)
    requires e.AuthReadDone? && e.i < |s.sessions|
    ensures e.i < |Step(s, e).sessions| && Step(s, e).sessions[e.i].past.wire == s.sessions[e.i].past.wire
  {
    if Enabled(s, e) {
      HandleAuthKeepsWire(Filled(s, e.i, e.error, e.more), e.i, e.error);
    }
  }

  lemma HandleAuthKeepsWire(s: Server, i: nat, error: bool)
    requires i < |s.sessions|
    ensures var t := HandleAuth(s, i, error);
      i < |t.sessions| && t.sessions[i].past.wire == s.sessions[i].past.wire
  {
    if !error && Decode(s.sessions[i].buffer).Accepted? {
      AuthenticateKeepsWire(s, i, Decode(s.sessions[i].buffer).msg);
    }
  }

  lemma AuthenticateKeepsWire(s: Server, i: nat, m: ScMessage)
    requires i < |s.sessions|
    ensures var t := Authenticate(s, i, m);
      i < |t.sessions| && t.sessions[i].past.wire == s.sessions[i].past.wire
  {
  }

  /** The first reply is written: the session is told of a success, and the client reads the first frame. */
  lemma ReportOfReply(auth: AuthState, events: seq<Event>, i: nat, kind: ScType)
    requires Enabled(After(Start(auth), events), AuthReplyDone(i, false))
    requires var ss := After(Start(auth), events).sessions[i];
      OnlyChats(ss.past.wire) && Answers(kind, ss.reading.answer)
    ensures var s := After(Start(auth), events);
      var t, answer := Step(s, AuthReplyDone(i, false)), s.sessions[i].reading.answer;
      && i < |t.sessions| && t.sessions[i].past.replied == IsSuccess(answer)
      && var frames := Cut(WireBytes(t.sessions[i].past.wire), NUL);
         && frames != []
         && AuthResultOf(kind, Some(frames[0])) == Answer(IsSuccess(answer) && s.sessions[i].past.sent == [])
  {
    var s, e := After(Start(auth), events), AuthReplyDone(i, false);
    ReplyOnWire(s, i);
    WireShape(auth, events, i);
    AfterAppend(Start(auth), events, [e]);
    AfterCons(s, e, []);
    WireShape(auth, events + [e], i);
    var before := s.sessions[i].past.wire;
    HasLoginAppend(before, Reply(s.sessions[i].reading.answer));
    assert !HasLogin(before);
    FirstRequestReport(auth, events + [e], i, kind);
    FirstWrite(before, s.sessions[i].reading.answer, Step(s, e).sessions[i].past.wire);
  }

  // ----- when every delivery is shown as it is

  lemma FirstOutcomeIff(m: Message<Stamp>)
    requires Separable(m)
    ensures MessageOutcomes(m)[0].Shown? || MessageOutcomes(m)[0].Thrown?
    ensures MessageOutcomes(m)[0] == Shown(m) <==> Showable(m)
    ensures Showable(m) ==> MessageOutcomes(m) == [Shown(m)]
  {
    FrameShown(m);
    FrameOutcomes(m);
  }

  lemma ShownFirst(first: Outcome, rest: seq<Outcome>)
    ensures var all := [first] + rest;
      && (first.Thrown? ==> ShownIn(all) == [])
      && (first.Shown? ==> ShownIn(all) == [first.msg] + ShownIn(rest) && DiscardedIn(all) == DiscardedIn(rest))
  {
    assert ([first] + rest)[1..] == rest;
  }

  ghost predicate AllShowable(story: seq<Message<Stamp>>) {
    forall n :: 0 <= n < |story| ==> Showable(story[n])
  }

  lemma {:induction false} ToldIff(story: seq<Message<Stamp>>)
    requires forall n :: 0 <= n < |story| ==> Separable(story[n])
    ensures ShownIn(Told(story)) == story <==> AllShowable(story)
    ensures AllShowable(story) ==> DiscardedIn(Told(story)) == []
  {
    if story != [] {
      FirstOutcomeIff(story[0]);
      ToldIff(story[1..]);
      ToldStep(MessageOutcomes(story[0]), Told(story[1..]), story);
      assert AllShowable(story) <==> Showable(story[0]) && AllShowable(story[1..]);
    }
  }

  lemma ToldStep(outcomes: seq<Outcome>, rest: seq<Outcome>, story: seq<Message<Stamp>>)
    requires story != [] && outcomes != [] && (outcomes[0].Shown? || outcomes[0].Thrown?)
    requires Showable(story[0]) ==> outcomes == [Shown(story[0])]
    ensures ShownIn(outcomes + rest) == story ==> outcomes[0] == Shown(story[0])
    ensures Showable(story[0]) ==> (ShownIn(outcomes + rest) == story <==> ShownIn(rest) == story[1..])
    ensures Showable(story[0]) ==> DiscardedIn(outcomes + rest) == DiscardedIn(rest)
  {
    assert outcomes + rest == [outcomes[0]] + (outcomes[1..] + rest);
    SameStories(outcomes[0], outcomes[1..] + rest, story);
    if Showable(story[0]) {
      assert outcomes[1..] + rest == rest;
      ShownFirst(outcomes[0], rest);
    }
  }

  /** The first message of a story decides how the comparison goes on. */
  lemma SameStories(first: Outcome, rest: seq<Outcome>, story: seq<Message<Stamp>>)
    requires story != [] && (first.Shown? || first.Thrown?)
    ensures ShownIn([first] + rest) == story <==> first == Shown(story[0]) && ShownIn(rest) == story[1..]
  {
    ShownFirst(first, rest);
    if first.Shown? {
      assert ([first.msg] + ShownIn(rest))[1..] == ShownIn(rest);
      assert story == [story[0]] + story[1..];
    }
  }

  // ----- what `StartRead` shows

  lemma {:induction false} ChatBytes(wire: seq<Wired>)
    requires OnlyChats(wire)
    ensures WireBytes(wire) == Concat(Frames(Chats(wire)))
  {
    if wire != [] {
      ChatBytes(wire[1..]);
      assert Frames(Chats(wire))[1..] == Frames(Chats(wire[1..]));
    }
  }

  lemma PartsOfWire(front: seq<Wired>, answer: ScType, back: seq<Wired>)
    requires AnswerType(answer)
    ensures Cut(WireBytes(front + ([Reply(answer)] + back)), NUL)
            == Cut(WireBytes(front), NUL) + ([ReplyFrame(answer)] + Cut(WireBytes(back), NUL))
  {
    CutOfParts(front, [Reply(answer)] + back);
    FirstOnWire(Reply(answer), back);
    ReplyOutcome(answer);
  }

  lemma ChatsOfParts(front: seq<Wired>, answer: ScType, back: seq<Wired>)
    ensures Chats(front + ([Reply(answer)] + back)) == Chats(front) + Chats(back)
  {
    ChatsAppend(front, [Reply(answer)] + back);
    assert ([Reply(answer)] + back)[1..] == back;
  }

  /** Behind a reply with only messages after it come the messages that were not written before it. */
  lemma BehindReply(front: seq<Wired>, answer: ScType, back: seq<Wired>, story: seq<Message<Stamp>>)
    requires Carries(front + ([Reply(answer)] + back), story) && OnlyChats(back)
    ensures |Chats(front)| <= |story|
    ensures Outcomes(Cut(WireBytes(back), NUL)) == Told(story[|Chats(front)|..])
  {
    ChatsOfParts(front, answer, back);
    LaterMessages(story, Chats(front), Chats(back));
    LaterTold(back, story[|Chats(front)|..]);
  }

  /** The frame of the reply, and those behind it, in all the frames. */
  lemma FramesBehind(front: seq<Wired>, answer: ScType, back: seq<Wired>)
    requires AnswerType(answer)
    ensures var frames, before := Cut(WireBytes(front + ([Reply(answer)] + back)), NUL), |Cut(WireBytes(front), NUL)|;
      && before < |frames| && frames[before] == ReplyFrame(answer)
      && frames[before + 1..] == Cut(WireBytes(back), NUL)
  {
    PartsOfWire(front, answer, back);
    MiddleOf(Cut(WireBytes(front), NUL), ReplyFrame(answer), Cut(WireBytes(back), NUL));
  }

  lemma MiddleOf<T>(a: seq<T>, x: T, b: seq<T>)
    ensures var all := a + ([x] + b);
      |a| < |all| && all[|a|] == x && all[|a| + 1..] == b
  {
  }

  lemma LaterTold(back: seq<Wired>, later: seq<Message<Stamp>>)
    requires OnlyChats(back) && Chats(back) == Messages(later) && AllSeparable(later)
    ensures Outcomes(Cut(WireBytes(back), NUL)) == Told(later)
  {
    ChatBytes(back);
    StreamOfStory(later);
  }

  lemma LaterMessages(story: seq<Message<Stamp>>, front: seq<ScMessage>, back: seq<ScMessage>)
    requires Messages(story) == front + back
    ensures |front| <= |story| && Messages(story[|front|..]) == back
  {
    assert |Messages(story)| == |story|;
    forall n | 0 <= n < |back| ensures Messages(story[|front|..])[n] == back[n] {
      assert Messages(story)[|front| + n] == back[n];
    }
  }

  /** What the client's read loop shows from frame `n` of the bytes on. */
  ghost function LoopShows(wire: seq<Wired>, n: nat): seq<Outcome>
    requires n <= |Cut(WireBytes(wire), NUL)|
  {
    LoopOutcomes(Rounds(Cut(WireBytes(wire), NUL)[n..]))
  }

  /**
   * A client has read the frames up to the reply at place `p` of the wire and calls `StartRead`: it is
   * shown the messages of the story that were written behind the reply, if and only if every one of
   * them can be told from structure, and nothing is then discarded.
   */
  ghost predicate ShowsLater(wire: seq<Wired>, p: nat, story: seq<Message<Stamp>>)
    requires p < |wire|
  {
    var frames, before, missed := Cut(WireBytes(wire), NUL), |Cut(WireBytes(wire[..p]), NUL)|, |Chats(wire[..p])|;
    && before < |frames| && frames[before] == WireFrame(wire[p]) && missed <= |story|
    && LoopShows(wire, before + 1) == Told(story[missed..])
    && (ShownIn(LoopShows(wire, before + 1)) == story[missed..] <==> AllShowable(story[missed..]))
    && (AllShowable(story[missed..]) ==> DiscardedIn(LoopShows(wire, before + 1)) == [])
  }

  /**
   * A client that has read its success reply and calls `StartRead` is shown exactly the deliveries
   * written behind that reply, in order, each with its author's name, text and time, if and only if
   * each of them has a name that is not empty and has no newline, and neither its name nor its text
   * has a NUL. Deliveries written before the reply are not among them.
   */
  lemma StreamFidelity(auth: AuthState, events: seq<Event>, j: nat, p: nat)
    requires j < |After(Start(auth), events).sessions|
    requires var wire := After(Start(auth), events).sessions[j].past.wire; p < |wire| && IsLogin(wire[p])
    ensures var s := After(Start(auth), events);
      && (forall k :: 0 <= k < |s.log| ==> s.log[k].sender < |s.sessions|)
      && s.sessions[j].past.joined + |s.sessions[j].past.sent| <= |s.log|
      && ShowsLater(s.sessions[j].past.wire, p, Story(s, j))
  {
    ReachableCarries(auth, events, j);
    WireShape(auth, events, j);
    LoopBehindLogin(After(Start(auth), events).sessions[j].past.wire, p, Story(After(Start(auth), events), j));
  }

  lemma LoopBehindLogin(wire: seq<Wired>, p: nat, story: seq<Message<Stamp>>)
    requires Carries(wire, story) && p < |wire| && IsLogin(wire[p])
    requires forall k, l :: 0 <= k < l < |wire| && IsLogin(wire[k]) ==> wire[l].Chat?
    ensures ShowsLater(wire, p, story)
  {
    SplitAtLogin(wire, p);
    LoopBehind(wire[..p], wire[p].answer, wire[p + 1..], story);
  }

  lemma SplitAtLogin(wire: seq<Wired>, p: nat)
    requires p < |wire| && IsLogin(wire[p])
    requires forall k, l :: 0 <= k < l < |wire| && IsLogin(wire[k]) ==> wire[l].Chat?
    ensures wire == wire[..p] + ([Reply(wire[p].answer)] + wire[p + 1..]) && OnlyChats(wire[p + 1..])
  {
    var back := wire[p + 1..];
    forall k | 0 <= k < |back| ensures back[k].Chat? {
      assert back[k] == wire[p + 1 + k];
    }
  }

  lemma LoopBehind(front: seq<Wired>, answer: ScType, back: seq<Wired>, story: seq<Message<Stamp>>)
    requires Carries(front + ([Reply(answer)] + back), story) && AnswerType(answer) && OnlyChats(back)
    ensures ShowsLater(front + ([Reply(answer)] + back), |front|, story)
  {
    FramesBehind(front, answer, back);
    BehindReply(front, answer, back, story);
    WirePlaces(front, Reply(answer), back);
    ShownFrom(front + ([Reply(answer)] + back), |front|, story);
  }

  lemma WirePlaces(front: seq<Wired>, w: Wired, back: seq<Wired>)
    ensures var wire := front + ([w] + back);
      |front| < |wire| && wire[..|front|] == front && wire[|front|] == w
  {
  }

  lemma ShownFrom(wire: seq<Wired>, p: nat, story: seq<Message<Stamp>>)
    requires p < |wire| && AllSeparable(story) && |Chats(wire[..p])| <= |story|
    requires var frames, before := Cut(WireBytes(wire), NUL), |Cut(WireBytes(wire[..p]), NUL)|;
      && before < |frames| && frames[before] == WireFrame(wire[p])
      && Outcomes(frames[before + 1..]) == Told(story[|Chats(wire[..p])|..])
    ensures ShowsLater(wire, p, story)
  {
    var before, missed := |Cut(WireBytes(wire[..p]), NUL)|, |Chats(wire[..p])|;
    LoopFrom(wire, before + 1, story[missed..]);
  }

  lemma LoopFrom(wire: seq<Wired>, n: nat, later: seq<Message<Stamp>>)
    requires n <= |Cut(WireBytes(wire), NUL)| && AllSeparable(later)
    requires Outcomes(Cut(WireBytes(wire), NUL)[n..]) == Told(later)
    ensures LoopShows(wire, n) == Told(later)
    ensures ShownIn(LoopShows(wire, n)) == later <==> AllShowable(later)
    ensures AllShowable(later) ==> DiscardedIn(LoopShows(wire, n)) == []
  {
    LoopTold(Cut(WireBytes(wire), NUL)[n..], later);
  }

  lemma LoopTold(frames: seq<string>, later: seq<Message<Stamp>>)
    requires Outcomes(frames) == Told(later) && AllSeparable(later)
    ensures var outcomes := LoopOutcomes(Rounds(frames));
      && outcomes == Told(later)
      && (ShownIn(outcomes) == later <==> AllShowable(later))
      && (AllShowable(later) ==> DiscardedIn(outcomes) == [])
  {
    LoopOfRounds(frames);
    ToldIff(later);
  }

  // ----- reads that end at the terminator

  /** The read brings one frame and not a byte of the next. */
  predicate ExactRead(e: Event) {
    && (e.AuthReadDone? && !e.error ==> e.more == "" || OneFrame(e.more, NUL))
    && (e.ChatReadDone? && !e.error ==> e.more == "" || OneFrame(e.more, NUL))
  }

  predicate SessionPlain(ss: SessionState) {
    (ss.buffer == "" || OneFrame(ss.buffer, NUL)) && NUL !in ss.username
  }

  /** Under exact reads no NUL gets into a name or a delivered text. */
  ghost predicate NulInv(s: Server) {
    && (forall i :: 0 <= i < |s.sessions| ==> SessionPlain(s.sessions[i]))
    && (forall k :: 0 <= k < |s.log| ==> NUL !in s.log[k].text)
  }

  lemma FilledPlain(s: Server, i: nat, error: bool, more: string)
    requires NulInv(s) && i < |s.sessions|
    requires !error ==> ReadCompletes(s.sessions[i].buffer, more) && (more == "" || OneFrame(more, NUL))
    ensures NulInv(Filled(s, i, error, more))
    ensures !error ==> OneFrame(Filled(s, i, error, more).sessions[i].buffer, NUL)
  {
  }

  lemma HandleAuthPlain(s: Server, i: nat, error: bool)
    requires NulInv(s) && i < |s.sessions|
    requires !error ==> OneFrame(s.sessions[i].buffer, NUL)
    ensures NulInv(HandleAuth(s, i, error))
  {
    if !error && Decode(s.sessions[i].buffer).Accepted? {
      var m := Decode(s.sessions[i].buffer).msg;
      AcceptedNulFree(s.sessions[i].buffer);
      if m.GetProperty("username").Some? {
        PropertyNulFree(m, "username");
      }
      AuthenticatePlain(s, i, m);
    }
  }

  lemma AuthenticatePlain(s: Server, i: nat, m: ScMessage)
    requires NulInv(s) && i < |s.sessions|
    requires m.GetProperty("username").Some? ==> NUL !in m.GetProperty("username").value
    ensures NulInv(Authenticate(s, i, m))
  {
  }

  lemma PostPlain(s: Server, i: nat, src: string, now: Stamp)
    requires NulInv(s) && i < |s.sessions| && NUL !in src
    ensures NulInv(Post(s, i, src, now))
  {
  }

  lemma HandleChatPlain(s: Server, i: nat, error: bool, now: Stamp)
    requires NulInv(s) && i < |s.sessions|
    requires !error ==> OneFrame(s.sessions[i].buffer, NUL)
    ensures NulInv(HandleChat(s, i, error, now))
  {
    if !error && Decode(s.sessions[i].buffer).Accepted? {
      var m := Decode(s.sessions[i].buffer).msg;
      AcceptedNulFree(s.sessions[i].buffer);
      if m.kind == MESSAGE && m.GetProperty("message[0]").Some? {
        PropertyNulFree(m, "message[0]");
        PostPlain(s, i, m.GetProperty("message[0]").value, now);
      }
    }
  }

  lemma StepPlain(s: Server, e: Event)
    requires NulInv(s) && ExactRead(e)
    ensures NulInv(Step(s, e))
  {
    if Enabled(s, e) {
      match e
      case Accept =>
      case HandshakeDone(i, error) =>
      case AuthReadDone(i, error, more) =>
        FilledPlain(s, i, error, more);
        HandleAuthPlain(Filled(s, i, error, more), i, error);
      case AuthReplyDone(i, error) => RepliedPlain(s, i, error);
      case ChatReadDone(i, error, more, now) =>
        FilledPlain(s, i, error, more);
        HandleChatPlain(Filled(s, i, error, more), i, error, now);
      case QueueWriteDone(i, error) => WrittenPlain(s, i, error);
    }
  }

  lemma RepliedPlain(s: Server, i: nat, error: bool)
    requires NulInv(s) && i < |s.sessions| && s.sessions[i].reading.AuthReply?
    ensures NulInv(Replied(s, i, error))
  {
  }

  lemma WrittenPlain(s: Server, i: nat, error: bool)
    requires NulInv(s) && i < |s.sessions| && s.sessions[i].queue != []
    ensures NulInv(Written(s, i, error))
  {
  }

  lemma {:induction false} RunPlain(s: Server, events: seq<Event>)
    requires NulInv(s) && forall k :: 0 <= k < |events| ==> ExactRead(events[k])
    ensures NulInv(After(s, events))
    decreases events
  {
    if events != [] {
      StepPlain(s, events[0]);
      RunPlain(Step(s, events[0]), events[1..]);
    }
  }

  /** A name that can be told from the rest of the message, but for NUL and separator. */
  predicate PlainName(name: string) {
    name != "" && '\n' !in name
  }

  /**
   * When the server's reads end at the terminator, the names in the account table decide: if all are
   * not empty and have no newline, every client that has read its success reply is shown exactly the
   * deliveries behind it; and these are all its deliveries exactly if none was written before the reply.
   */
  lemma AccountNamesSuffice(auth: AuthState, events: seq<Event>, j: nat, p: nat)
    requires forall n :: 0 <= n < |events| ==> ExactRead(events[n])
    requires forall name :: Get(After(Start(auth), events).auth.info, name).Some? ==> PlainName(name)
    requires j < |After(Start(auth), events).sessions|
    requires var wire := After(Start(auth), events).sessions[j].past.wire; p < |wire| && IsLogin(wire[p])
    ensures var s := After(Start(auth), events);
      var wire := s.sessions[j].past.wire;
      && (forall k :: 0 <= k < |s.log| ==> s.log[k].sender < |s.sessions|)
      && s.sessions[j].past.joined + |s.sessions[j].past.sent| <= |s.log|
      && ShowsLater(wire, p, Story(s, j)) && AllShowable(Story(s, j))
      && (ShownIn(LoopShows(wire, |Cut(WireBytes(wire[..p]), NUL)| + 1)) == Story(s, j) <==> Chats(wire[..p]) == [])
  {
    var s := After(Start(auth), events);
    StreamFidelity(auth, events, j, p);
    PlainRunStory(auth, events, j);
    AllShown(s.sessions[j].past.wire, p, Story(s, j));
  }

  lemma AllShown(wire: seq<Wired>, p: nat, story: seq<Message<Stamp>>)
    requires p < |wire| && ShowsLater(wire, p, story) && AllShowable(story)
    ensures ShownIn(LoopShows(wire, |Cut(WireBytes(wire[..p]), NUL)| + 1)) == story <==> Chats(wire[..p]) == []
  {
    LaterShowable(story, |Chats(wire[..p])|);
  }

  lemma LaterShowable(story: seq<Message<Stamp>>, n: nat)
    requires n <= |story| && AllShowable(story)
    ensures AllShowable(story[n..])
    ensures story[n..] == story <==> n == 0
  {
    assert |story[n..]| == |story| - n;
  }

  lemma PlainRunStory(auth: AuthState, events: seq<Event>, j: nat)
    requires forall n :: 0 <= n < |events| ==> ExactRead(events[n])
    requires forall name :: Get(After(Start(auth), events).auth.info, name).Some? ==> PlainName(name)
    requires j < |After(Start(auth), events).sessions|
    ensures var s := After(Start(auth), events);
      && (forall k :: 0 <= k < |s.log| ==> s.log[k].sender < |s.sessions|)
      && s.sessions[j].past.joined + |s.sessions[j].past.sent| <= |s.log|
      && AllShowable(Story(s, j))
  {
    ReachableInv(auth, events);
    RunPlain(Start(auth), events);
    PlainStory(After(Start(auth), events), j);
  }

  lemma PlainStory(s: Server, j: nat)
    requires Inv(s) && NulInv(s) && j < |s.sessions|
    requires forall name :: Get(s.auth.info, name).Some? ==> PlainName(name)
    ensures forall k :: 0 <= k < |s.log| ==> s.log[k].sender < |s.sessions|
    ensures s.sessions[j].past.joined + |s.sessions[j].past.sent| <= |s.log|
    ensures AllShowable(Story(s, j))
  {
    StateLogged(s, j);
    var story, joined := Story(s, j), s.sessions[j].past.joined;
    forall n | 0 <= n < |story| ensures Showable(story[n]) {
      LoggedShowable(s, joined + n);
    }
  }

  lemma LoggedShowable(s: Server, k: nat)
    requires Inv(s) && NulInv(s) && k < |s.log|
    requires forall name :: Get(s.auth.info, name).Some? ==> PlainName(name)
    ensures s.log[k].sender < |s.sessions| && Showable(Authored(s, k))
  {
    LoggedMessage(s, k);
    assert SessionPlain(s.sessions[s.log[k].sender]);
  }
}
