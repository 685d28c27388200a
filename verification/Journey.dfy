/** One text, from the client that sends it to every client that is shown it. */
module Journey {
  import opened Wrappers
  import opened Text
  import opened Times
  import opened ScMessages
  import opened ChatMessages
  import opened Accounts
  import opened Protocol
  import opened Invariants
  import opened Growth
  import opened Guarantees
  import opened Client
  import opened ShownFrames
  import opened EndToEnd
  import opened Wires
  import opened Streams

  /** Completing queue writes tells nobody of a login. */
  lemma {:induction false} CompletionsTellNobody(s: Server, events: seq<Event>, j: nat)
    requires Completions(s, events) && j < |s.sessions|
    ensures j < |After(s, events).sessions|
    ensures After(s, events).sessions[j].past.replied == s.sessions[j].past.replied
    decreases events
  {
    if events != [] {
      CompletionTellsNobody(s, events[0].i, j);
      CompletionsTellNobody(Step(s, events[0]), events[1..], j);
    }
  }

  lemma CompletionTellsNobody(s: Server, i: nat, j: nat)
    requires Enabled(s, QueueWriteDone(i, false)) && j < |s.sessions|
    ensures var t := Step(s, QueueWriteDone(i, false));
      j < |t.sessions| && t.sessions[j].past.replied == s.sessions[j].past.replied
  {
  }

  /** A login that is on the wire in the end, and was known before, stands before all that came since. */
  lemma LoginCameBefore(before: seq<Wired>, after: seq<Wired>, p: nat)
    requires before <= after && p < |after| && IsLogin(after[p]) && HasLogin(before)
    requires forall k, l :: 0 <= k < l < |after| && IsLogin(after[k]) ==> after[l].Chat?
    ensures p < |before| && |Chats(after[..p])| <= |Chats(before)|
  {
    var k :| 0 <= k < |before| && IsLogin(before[k]);
    assert after[k] == before[k];
    assert before == after[..p] + before[p..];
    ChatsAppend(after[..p], before[p..]);
  }

  /** The last message of the story is this one, and a client that has read its success reply is shown it last. */
  ghost predicate ShownLast(wire: seq<Wired>, story: seq<Message<Stamp>>, m: Message<Stamp>) {
    && story != [] && story[|story| - 1] == m
    && forall p :: 0 <= p < |wire| && IsLogin(wire[p]) ==>
         ShowsLater(wire, p, story) && |Chats(wire[..p])| < |story|
  }

  lemma WireShowsLast(before: seq<Wired>, after: seq<Wired>, story: seq<Message<Stamp>>, m: Message<Stamp>)
    requires before <= after && (HasLogin(before) <==> HasLogin(after)) && |Chats(before)| < |story|
    requires Carries(after, story) && story[|story| - 1] == m
    requires forall k, l :: 0 <= k < l < |after| && IsLogin(after[k]) ==> after[l].Chat?
    ensures ShownLast(after, story, m)
  {
    forall p | 0 <= p < |after| && IsLogin(after[p])
      ensures ShowsLater(after, p, story) && |Chats(after[..p])| < |story|
    {
      LoopBehindLogin(after, p, story);
      LoginCameBefore(before, after, p);
    }
  }

  /** The last message of the story of a session that was sent the whole log since it joined. */
  lemma LastOfStory(s: Server, j: nat)
    requires j < |s.sessions| && LogAuthored(s) && SentLogged(s.sessions[j], s.log)
    requires s.sessions[j].past.joined < |s.log|
    requires |s.sessions[j].past.sent| == |s.log| - s.sessions[j].past.joined
    ensures Story(s, j) != [] && Story(s, j)[|Story(s, j)| - 1] == Authored(s, |s.log| - 1)
  {
  }

  /** In a state that a run can reach, what was written to a session is its story. */
  lemma StateCarries(s: Server, j: nat)
    requires Inv(s) && AllWired(s) && j < |s.sessions|
    ensures LogAuthored(s) && SentLogged(s.sessions[j], s.log)
    ensures Carries(s.sessions[j].past.wire, Story(s, j))
  {
    StateLogged(s, j);
    StoryIsSent(s, j);
    assert SessionWired(s.sessions[j]);
  }

  /** The session was sent only what the log holds, this message last, and its client is shown that. */
  ghost predicate SessionArrived(s: Server, j: nat, m: Message<Stamp>) {
    && j < |s.sessions| && LogAuthored(s) && SentLogged(s.sessions[j], s.log)
    && ShownLast(s.sessions[j].past.wire, Story(s, j), m)
  }

  lemma LaterStateShows(x: SessionState, v: Server, j: nat)
    requires SessionWired(x) && Inv(v) && AllWired(v) && j < |v.sessions|
    requires x.past.wire <= v.sessions[j].past.wire && x.past.replied == v.sessions[j].past.replied
    requires v.sessions[j].past.joined < |v.log|
    requires |x.past.sent| < |v.sessions[j].past.sent| == |v.log| - v.sessions[j].past.joined
    ensures v.log[|v.log| - 1].sender < |v.sessions| && SessionArrived(v, j, Authored(v, |v.log| - 1))
  {
    StateCarries(v, j);
    StoryArrives(x, v, j);
  }

  lemma StoryArrives(x: SessionState, v: Server, j: nat)
    requires SessionWired(x) && j < |v.sessions| && SessionWired(v.sessions[j])
    requires x.past.wire <= v.sessions[j].past.wire && x.past.replied == v.sessions[j].past.replied
    requires LogAuthored(v) && SentLogged(v.sessions[j], v.log) && v.sessions[j].past.joined < |v.log|
    requires Carries(v.sessions[j].past.wire, Story(v, j))
    requires |x.past.sent| < |v.sessions[j].past.sent| == |v.log| - v.sessions[j].past.joined
    ensures v.log[|v.log| - 1].sender < |v.sessions| && SessionArrived(v, j, Authored(v, |v.log| - 1))
  {
    LastOfStory(v, j);
    LaterSessionShows(x, v.sessions[j], Story(v, j), Authored(v, |v.log| - 1));
  }

  lemma LaterSessionShows(x: SessionState, y: SessionState, story: seq<Message<Stamp>>, m: Message<Stamp>)
    requires SessionWired(x) && SessionWired(y) && x.past.wire <= y.past.wire && x.past.replied == y.past.replied
    requires Carries(y.past.wire, story) && |x.past.sent| < |story| && story[|story| - 1] == m
    ensures ShownLast(y.past.wire, story, m)
  {
    WireShowsLast(x.past.wire, y.past.wire, story, m);
  }

  lemma MemberCount(s: Server, j: nat)
    requires Inv(s) && j in s.room
    ensures j < |s.sessions| && s.sessions[j].past.joined <= |s.log|
    ensures |s.sessions[j].past.sent| + |s.sessions[j].queue| == |s.log| - s.sessions[j].past.joined
  {
    assert SessionOk(s.sessions[j], j in s.room, s.log, s.auth.info);
    assert |s.sessions[j].past.sent + s.sessions[j].queue| == |s.log| - s.sessions[j].past.joined;
  }

  lemma SameJoin(s: Server, events: seq<Event>, j: nat)
    requires Inv(s) && j < |s.sessions|
    ensures var v := After(s, events);
      && j < |v.sessions| && v.sessions[j].past.joined == s.sessions[j].past.joined
      && (s.sessions[j].past.granted != [] ==> v.sessions[j].username == s.sessions[j].username)
  {
    OnlyGrows(s, events);
    assert SessionGrows(s.sessions[j], After(s, events).sessions[j], j in s.room, j in After(s, events).room);
  }

  /** A reader of chat frames keeps its name, so it is the author of what it sends. */
  lemma LastIsAuthored(auth: AuthState, events: seq<Event>, more: seq<Event>, i: nat, text: string, now: Stamp)
    requires var s := After(Start(auth), events); i < |s.sessions| && s.sessions[i].reading == ChatRead
    requires var s := After(Start(auth), events);
      After(Start(auth), events + more).log == s.log + [Stamped(s.sessions[i].username, i, text, now)]
    ensures var s, v := After(Start(auth), events), After(Start(auth), events + more);
      && v.log != [] && v.log[|v.log| - 1].sender < |v.sessions|
      && Authored(v, |v.log| - 1) == Message(s.sessions[i].username, text, now)
  {
    ReachableSession(auth, events, i);
    ReachableInv(auth, events);
    AfterAppend(Start(auth), events, more);
    SameJoin(After(Start(auth), events), more, i);
  }

  /** A session when its pending writes have completed, and nothing else has happened. */
  predicate Later(x: SessionState, y: SessionState) {
    y.past.joined == x.past.joined && x.past.wire <= y.past.wire && x.past.replied == y.past.replied
  }

  lemma LaterSessions(t: Server, completions: seq<Event>)
    requires Inv(t) && AllWired(t) && Completions(t, completions)
    ensures var v := After(t, completions);
      && Inv(v) && AllWired(v) && |v.sessions| >= |t.sessions|
      && forall j :: 0 <= j < |t.sessions| ==> Later(t.sessions[j], v.sessions[j])
  {
    RunInv(t, completions);
    RunWired(t, completions);
    OnlyGrows(t, completions);
    forall j | 0 <= j < |t.sessions| ensures Later(t.sessions[j], After(t, completions).sessions[j]) {
      LaterSession(t, completions, j);
    }
  }

  lemma LaterSession(t: Server, completions: seq<Event>, j: nat)
    requires Inv(t) && j < |t.sessions| && Completions(t, completions)
    ensures j < |After(t, completions).sessions| && Later(t.sessions[j], After(t, completions).sessions[j])
  {
    SameJoin(t, completions, j);
    WireGrows(t, completions, j);
    CompletionsTellNobody(t, completions, j);
  }

  /** A member that still had the message to write has been sent it when none of its writes is pending. */
  lemma MemberArrives(t: Server, v: Server, j: nat)
    requires Inv(t) && AllWired(t) && j in t.room && j < |t.sessions| && t.sessions[j].queue != []
    requires Inv(v) && AllWired(v) && j in v.room && j < |v.sessions| && v.sessions[j].writing == None
    requires v.log == t.log && Later(t.sessions[j], v.sessions[j])
    ensures v.log != [] && v.log[|v.log| - 1].sender < |v.sessions|
    ensures SessionArrived(v, j, Authored(v, |v.log| - 1))
    ensures v.sessions[j].past.joined <= |v.log|
    ensures v.sessions[j].past.sent == Msgs(v.log[v.sessions[j].past.joined..])
  {
    MemberCount(t, j);
    IdleMember(v, j);
    LaterStateShows(t.sessions[j], v, j);
  }

  /** Where the text has arrived: all members have been sent everything, and the text is shown last. */
  ghost predicate Arrived(s: Server, m: Message<Stamp>) {
    forall j :: j in s.room ==>
      && SessionArrived(s, j, m) && s.sessions[j].past.joined <= |s.log|
      && s.sessions[j].past.sent == Msgs(s.log[s.sessions[j].past.joined..])
  }

  ghost predicate LastArrived(s: Server) {
    && s.log != [] && s.log[|s.log| - 1].sender < |s.sessions|
    && Arrived(s, Authored(s, |s.log| - 1))
  }

  lemma AllArrive(t: Server) returns (completions: seq<Event>)
    requires Inv(t) && AllWired(t) && !t.aborted && t.log != []
    requires forall j :: j in t.room && j < |t.sessions| ==> t.sessions[j].queue != []
    ensures var v := After(t, completions);
      && Completions(t, completions) && |completions| <= Queued(t.sessions)
      && v.log == t.log && v.room == t.room && LastArrived(v)
  {
    completions := CanDrain(t);
    DrainBound(t, completions);
    LaterSessions(t, completions);
    MembersArrive(t, After(t, completions));
  }

  lemma MembersArrive(t: Server, v: Server)
    requires Inv(t) && AllWired(t) && t.log != []
    requires forall j :: j in t.room && j < |t.sessions| ==> t.sessions[j].queue != []
    requires Inv(v) && AllWired(v) && Quiet(v) && v.log == t.log && v.room == t.room
    requires |v.sessions| >= |t.sessions| && forall j :: 0 <= j < |t.sessions| ==> Later(t.sessions[j], v.sessions[j])
    ensures LastArrived(v)
  {
    LogIsAuthored(v);
    forall j | j in v.room
      ensures SessionArrived(v, j, Authored(v, |v.log| - 1))
              && v.sessions[j].past.joined <= |v.log|
              && v.sessions[j].past.sent == Msgs(v.log[v.sessions[j].past.joined..])
    {
      MemberArrives(t, v, j);
    }
  }

  /** The delivered text arrives when the pending writes complete. */
  lemma DeliveredArrives(s: Server, t: Server, i: nat, d: Delivery) returns (completions: seq<Event>)
    requires i < |s.sessions| && TextDelivered(s, t, i, d) && Inv(t) && AllWired(t)
    ensures var v := After(t, completions);
      && Completions(t, completions) && |completions| <= Queued(t.sessions)
      && v.log == s.log + [d] && v.room == s.room && LastArrived(v)
  {
    MembersQueue(s, t, d.msg);
    completions := AllArrive(t);
  }

  lemma NextState(auth: AuthState, events: seq<Event>, e: Event)
    ensures var t := Step(After(Start(auth), events), e);
      Inv(t) && AllWired(t)
  {
    ReachableInv(auth, events);
    ReachableWired(auth, events);
    StepInv(After(Start(auth), events), e);
    StepWired(After(Start(auth), events), e);
  }

  lemma RunInParts(auth: AuthState, events: seq<Event>, e: Event, rest: seq<Event>)
    ensures After(Start(auth), events + ([e] + rest)) == After(Step(After(Start(auth), events), e), rest)
  {
    AfterAppend(Start(auth), events, [e] + rest);
    AfterCons(After(Start(auth), events), e, rest);
  }

  /**
   * A text that the client's checks let through is shown to every member of the room: whatever happened
   * before, the read of its frame and a bounded number of completed queue writes lead to a state in
   * which the log has one entry more, every member has been sent the whole log since it joined, and
   * every member's client that has read its success reply is shown the sender's account name, the text
   * as typed and the server's time, after all that was written before.
   */
  lemma TextIsShown(auth: AuthState, events: seq<Event>, i: nat, username: string, text: string, typed: Stamp,
                    now: Stamp)
    returns (completions: seq<Event>)
    requires var s := After(Start(auth), events);
      !s.aborted && i < |s.sessions| && s.sessions[i].reading == ChatRead
    requires US !in text && US !in username && !HasWhitespace(username)
    ensures var s := After(Start(auth), events);
      var e := ChatReadDone(i, false, Frame(GetMessageScMessage(Message(username, text, typed))), now);
      var t, v := Step(s, e), After(Start(auth), events + ([e] + completions));
      && Enabled(s, e) && Completions(t, completions) && |completions| <= Queued(t.sessions)
      && v.log == s.log + [Stamped(s.sessions[i].username, i, text, now)] && v.room == s.room
      && Arrived(v, Message(s.sessions[i].username, text, now))
  {
    var s := After(Start(auth), events);
    var e := ChatReadDone(i, false, Frame(GetMessageScMessage(Message(username, text, typed))), now);
    TextReachesEveryMember(auth, events, i, Message(username, text, typed), now);
    NextState(auth, events, e);
    completions := DeliveredArrives(s, Step(s, e), i, Stamped(s.sessions[i].username, i, text, now));
    RunInParts(auth, events, e, completions);
    LastIsAuthored(auth, events, [e] + completions, i, text, now);
  }

  lemma MembersQueue(s: Server, t: Server, m: ScMessage)
    requires |t.sessions| == |s.sessions| && t.room == s.room && AppendedToRoom(s, t, m)
    ensures forall j :: j in t.room && j < |t.sessions| ==> t.sessions[j].queue != []
  {
    forall j | j in t.room && j < |t.sessions| ensures t.sessions[j].queue != [] {
      assert Appended(s.sessions[j], t.sessions[j], m);
    }
  }
}
