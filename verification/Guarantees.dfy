/** The promises of the server over every run, for every order of completions and errors. */
module Guarantees {
  import opened Wrappers
  import opened Text
  import opened Tables
  import opened Times
  import opened ScMessages
  import opened ChatMessages
  import opened Accounts
  import opened Protocol
  import opened Invariants
  import opened Growth

  // ----- runs

  lemma {:induction false} AfterAppend(s: Server, a: seq<Event>, b: seq<Event>)
    ensures After(s, a + b) == After(After(s, a), b)
    decreases a
  {
    if a == [] {
      assert a + b == b;
    } else {
      assert (a + b)[1..] == a[1..] + b;
      AfterAppend(Step(s, a[0]), a[1..], b);
    }
  }

  lemma AfterCons(s: Server, e: Event, rest: seq<Event>)
    ensures After(s, [e] + rest) == After(Step(s, e), rest)
  {
    assert ([e] + rest)[1..] == rest;
  }

  lemma AfterLast(s: Server, events: seq<Event>, n: nat)
    requires n < |events|
    ensures After(s, events[..n + 1]) == Step(After(s, events[..n]), events[n])
  {
    assert events[..n + 1] == events[..n] + [events[n]];
    AfterAppend(s, events[..n], [events[n]]);
    assert [events[n]][1..] == [];
  }

  /** The state before event `n` of a run, seen from the run without its first event. */
  lemma AfterFirst(s: Server, events: seq<Event>, n: nat)
    requires 0 < n <= |events|
    ensures After(s, events[..n]) == After(Step(s, events[0]), events[1..][..n - 1])
  {
    assert events[..n][1..] == events[1..][..n - 1];
  }

  // ----- order of broadcast

  /** What a session has written and has still to write is one contiguous piece of the global log. */
  lemma TotalOrder(auth: AuthState, events: seq<Event>, i: nat)
    requires i < |After(Start(auth), events).sessions|
    ensures var s := After(Start(auth), events);
      var past := s.sessions[i].past;
      && past.joined <= End(past, s.log) <= |s.log|
      && past.sent + s.sessions[i].queue == Msgs(s.log[past.joined..End(past, s.log)])
      && (i in s.room <==> past.left.None?)
  {
    ReachableSession(auth, events, i);
  }

  /** Was the session in the room when log entry `k` was delivered? */
  predicate Saw(ss: SessionState, log: seq<Delivery>, k: nat) {
    ss.past.joined <= k < End(ss.past, log)
  }

  /** Two sessions that both saw two deliveries have them in the same order, at the same distance. */
  lemma SameOrder(auth: AuthState, events: seq<Event>, i: nat, j: nat, p: nat, q: nat)
    requires i < |After(Start(auth), events).sessions| && j < |After(Start(auth), events).sessions|
    requires var s := After(Start(auth), events);
      p < q && Saw(s.sessions[i], s.log, p) && Saw(s.sessions[i], s.log, q)
      && Saw(s.sessions[j], s.log, p) && Saw(s.sessions[j], s.log, q)
    ensures var s := After(Start(auth), events);
      var x, y := s.sessions[i], s.sessions[j];
      var a, b := p - x.past.joined, p - y.past.joined;
      && a + (q - p) < |Stream(x)| && b + (q - p) < |Stream(y)| && q < |s.log|
      && Stream(x)[a] == Stream(y)[b] == s.log[p].msg
      && Stream(x)[a + (q - p)] == Stream(y)[b + (q - p)] == s.log[q].msg
  {
    StreamAt(auth, events, i, p);
    StreamAt(auth, events, i, q);
    StreamAt(auth, events, j, p);
    StreamAt(auth, events, j, q);
  }

  /** A delivery that a session saw stands in its stream at its distance from the join. */
  lemma StreamAt(auth: AuthState, events: seq<Event>, i: nat, k: nat)
    requires i < |After(Start(auth), events).sessions|
    requires Saw(After(Start(auth), events).sessions[i], After(Start(auth), events).log, k)
    ensures var s := After(Start(auth), events);
      var n := k - s.sessions[i].past.joined;
      k < |s.log| && n < |Stream(s.sessions[i])| && Stream(s.sessions[i])[n] == s.log[k].msg
  {
    TotalOrder(auth, events, i);
  }

  /** Later events only append to what a session was given and to what it has written. */
  lemma NothingLost(auth: AuthState, events: seq<Event>, more: seq<Event>, i: nat)
    requires i < |After(Start(auth), events).sessions|
    ensures var s, t := After(Start(auth), events), After(After(Start(auth), events), more);
      && i < |t.sessions| && s.log <= t.log
      && s.sessions[i].past.sent <= t.sessions[i].past.sent
      && Stream(s.sessions[i]) <= Stream(t.sessions[i])
      && (i !in s.room ==> i !in t.room && Stream(s.sessions[i]) == Stream(t.sessions[i]))
  {
    var s := After(Start(auth), events);
    var t := After(s, more);
    ReachableInv(auth, events);
    OnlyGrows(s, more);
    RunInv(s, more);
    assert SessionGrows(s.sessions[i], t.sessions[i], i in s.room, i in t.room);
    if i !in s.room {
      OutsideGetsNothing(s, more, i);
    }
  }

  // ----- the write queue

  /**
   * While no queue write has failed, messages wait exactly when one write is in flight, and that write
   * carries the frame of the first of them.
   */
  lemma WriteDiscipline(auth: AuthState, events: seq<Event>, i: nat)
    requires i < |After(Start(auth), events).sessions|
    ensures var ss := After(Start(auth), events).sessions[i];
      !ss.past.failed ==> (ss.queue != [] <==> ss.writing.Some?)
                          && (ss.writing.Some? ==> ss.writing == Some(Frame(ss.queue[0])))
  {
    ReachableSession(auth, events, i);
  }

  /** After a failed queue write the session is out of the room for good and starts no write again. */
  lemma FailureIsFinal(auth: AuthState, events: seq<Event>, more: seq<Event>, i: nat)
    requires i < |After(Start(auth), events).sessions|
    requires After(Start(auth), events).sessions[i].past.failed
    ensures var s, t := After(Start(auth), events), After(After(Start(auth), events), more);
      && i < |t.sessions| && i !in t.room
      && t.sessions[i].writing == None
      && t.sessions[i].queue == s.sessions[i].queue != []
      && t.sessions[i].past.sent == s.sessions[i].past.sent
  {
    var s := After(Start(auth), events);
    var t := After(s, more);
    ReachableInv(auth, events);
    OnlyGrows(s, more);
    assert SessionGrows(s.sessions[i], t.sessions[i], i in s.room, i in t.room);
    assert SessionOk(s.sessions[i], i in s.room, s.log, s.auth.info);
  }

  // ----- failures on the reading side

  /** The event is the failed completion of the operation that this reading side has pending. */
  predicate FailsReading(r: Reading, e: Event) {
    match e
    case HandshakeDone(_, error) => error && r == Handshake
    case AuthReadDone(_, error, _) => error && r == AuthRead
    case AuthReplyDone(_, error) => error && r.AuthReply?
    case ChatReadDone(_, error, _, _) => error && r == ChatRead
    case _ => false
  }

  /** The session is NotConnected, reads no more and is no member; everything else is as before. */
  predicate Disconnected(s: Server, t: Server, i: nat)
    requires i < |s.sessions|
  {
    && |t.sessions| == |s.sessions|
    && t.sessions[i].con == NotConnected && t.sessions[i].reading == Stopped
    && t.sessions[i].queue == s.sessions[i].queue && t.sessions[i].writing == s.sessions[i].writing
    && t.sessions[i].past.sent == s.sessions[i].past.sent && t.sessions[i].past.wire == s.sessions[i].past.wire
    && t.room == s.room - {i} && t.log == s.log && t.auth == s.auth && !t.aborted
    && forall j :: 0 <= j < |s.sessions| && j != i ==> t.sessions[j] == s.sessions[j]
  }

  /** A handshake, read or reply that fails can happen whenever it is pending, and disconnects its session. */
  lemma ReadFailure(s: Server, e: Event)
    requires !s.aborted && !e.Accept? && e.i < |s.sessions| && FailsReading(s.sessions[e.i].reading, e)
    ensures Enabled(s, e) && Disconnected(s, Step(s, e), e.i)
  {
  }

  lemma StoppedStays(s: Server, e: Event, i: nat)
    requires i < |s.sessions| && s.sessions[i].reading == Stopped
    ensures i < |Step(s, e).sessions| && Step(s, e).sessions[i].reading == Stopped
  {
    if Enabled(s, e) {
      match e
      case AuthReadDone(j, error, more) => AuthKeepsStopped(Filled(s, j, error, more), j, error, i);
      case ChatReadDone(j, error, more, now) => ChatKeepsStatus(Filled(s, j, error, more), j, error, now, i);
      case _ =>
    }
  }

  lemma AuthKeepsStopped(s: Server, j: nat, error: bool, i: nat)
    requires j < |s.sessions| && i < |s.sessions| && i != j
    ensures var t := HandleAuth(s, j, error);
      i < |t.sessions| && t.sessions[i].reading == s.sessions[i].reading
  {
    AuthKeepsStatus(s, j, error, i);
  }

  lemma {:induction false} StoppedForGood(s: Server, events: seq<Event>, i: nat)
    requires i < |s.sessions| && s.sessions[i].reading == Stopped
    ensures i < |After(s, events).sessions| && After(s, events).sessions[i].reading == Stopped
    decreases events
  {
    if events != [] {
      StoppedStays(s, events[0], i);
      StoppedForGood(Step(s, events[0]), events[1..], i);
    }
  }

  /**
   * Once an operation on its reading side has failed, in whatever phase, a session is NotConnected,
   * outside the room and reads nothing for the rest of the run, and nothing more is queued for it.
   */
  lemma ReadFailureIsFinal(auth: AuthState, events: seq<Event>, e: Event, more: seq<Event>)
    requires var s := After(Start(auth), events);
      !s.aborted && !e.Accept? && e.i < |s.sessions| && FailsReading(s.sessions[e.i].reading, e)
    ensures var s := After(Start(auth), events);
      var t := After(Step(s, e), more);
      && Enabled(s, e) && Disconnected(s, Step(s, e), e.i)
      && e.i < |t.sessions| && e.i !in t.room
      && t.sessions[e.i].con == NotConnected && t.sessions[e.i].reading == Stopped
      && Stream(t.sessions[e.i]) == Stream(s.sessions[e.i])
  {
    var s := After(Start(auth), events);
    var u := Step(s, e);
    ReadFailure(s, e);
    StoppedForGood(u, more, e.i);
    ReachableInv(auth, events);
    StepInv(s, e);
    RunInv(u, more);
    StoppedOutside(After(u, more), e.i);
    OutsideGetsNothing(u, more, e.i);
  }

  lemma StoppedOutside(s: Server, i: nat)
    requires Inv(s) && i < |s.sessions| && s.sessions[i].reading == Stopped
    ensures i !in s.room && s.sessions[i].con == NotConnected
  {
    assert SessionOk(s.sessions[i], i in s.room, s.log, s.auth.info);
  }

  /** Nothing is queued any more for a session outside the room. */
  lemma OutsideGetsNothing(s: Server, more: seq<Event>, i: nat)
    requires Inv(s) && i < |s.sessions| && i !in s.room
    ensures i < |After(s, more).sessions| && Stream(After(s, more).sessions[i]) == Stream(s.sessions[i])
  {
    var t := After(s, more);
    OnlyGrows(s, more);
    RunInv(s, more);
    assert SessionGrows(s.sessions[i], t.sessions[i], i in s.room, i in t.room);
    assert SessionOk(s.sessions[i], i in s.room, s.log, s.auth.info);
    assert SessionOk(t.sessions[i], i in t.room, t.log, t.auth.info);
    var past := s.sessions[i].past;
    assert t.log[past.joined..past.left.value] == s.log[past.joined..past.left.value];
  }

  // ----- sessions and identity

  /**
   * The session state machine at every step boundary. A member of the room is never NotConnected, and
   * LoggedIn needs a completed success reply. While no queue write has failed, a session is NotConnected
   * exactly outside the room, which is exactly when its reads have ended; it is LoggedIn exactly when it
   * reads chat frames.
   */
  lemma StateMachine(auth: AuthState, events: seq<Event>, i: nat)
    requires i < |After(Start(auth), events).sessions|
    ensures var s := After(Start(auth), events);
      var ss := s.sessions[i];
      && (i in s.room ==> ss.con != NotConnected)
      && (ss.con == LoggedIn ==> ss.past.replied && ss.reading == ChatRead)
      && (ss.past.replied ==> ss.past.granted == [ss.username])
      && |ss.past.granted| <= 1
      && (!ss.past.failed ==>
            && (ss.con == NotConnected <==> i !in s.room)
            && (ss.con == NotConnected <==> ss.reading == Stopped)
            && (ss.con == LoggedIn <==> ss.reading == ChatRead))
  {
    ReachableSession(auth, events, i);
  }

  /** A session whose queue write has failed; `told` says whether it knew of its login by then. */
  ghost predicate AfterFailure(ss: SessionState, told: bool) {
    && ss.past.failed
    && (told ==> ss.past.replied)
    && (ss.con != NotConnected <==> !told && ss.past.replied && ss.reading == ChatRead)
  }

  /** What a step on another session leaves alone. */
  predicate SameStatus(x: SessionState, y: SessionState) {
    x.con == y.con && x.reading == y.reading && x.past.failed == y.past.failed && x.past.replied == y.past.replied
  }

  lemma ChatKeepsStatus(s: Server, j: nat, error: bool, now: Stamp, i: nat)
    requires j < |s.sessions| && i < |s.sessions|
    ensures var t := HandleChat(s, j, error, now);
      && |t.sessions| == |s.sessions|
      && (i != j || !error ==> SameStatus(s.sessions[i], t.sessions[i]))
      && (i == j && error ==> t.sessions[i].con == NotConnected && t.sessions[i].reading == Stopped
                              && t.sessions[i].past.failed == s.sessions[i].past.failed
                              && t.sessions[i].past.replied == s.sessions[i].past.replied)
  {
    if !error && Decode(s.sessions[j].buffer).Accepted? {
      var m := Decode(s.sessions[j].buffer).msg;
      if m.kind == MESSAGE && m.GetProperty("message[0]").Some? {
        PostKeepsStatus(s, j, m.GetProperty("message[0]").value, now, i);
      }
    }
  }

  lemma PostKeepsStatus(s: Server, j: nat, src: string, now: Stamp, i: nat)
    requires j < |s.sessions| && i < |s.sessions|
    ensures var t := Post(s, j, src, now);
      |t.sessions| == |s.sessions| && SameStatus(s.sessions[i], t.sessions[i])
  {
  }

  lemma AuthKeepsStatus(s: Server, j: nat, error: bool, i: nat)
    requires j < |s.sessions| && i < |s.sessions|
    ensures var t := HandleAuth(s, j, error);
      && |t.sessions| == |s.sessions|
      && (i != j ==> SameStatus(s.sessions[i], t.sessions[i]))
      && (i == j ==> t.sessions[i].con == (if error then NotConnected else s.sessions[i].con)
                     && (t.sessions[i].reading == ChatRead ==> s.sessions[i].reading == ChatRead)
                     && t.sessions[i].past.failed == s.sessions[i].past.failed
                     && t.sessions[i].past.replied == s.sessions[i].past.replied)
  {
    if !error && Decode(s.sessions[j].buffer).Accepted? {
      AuthenticateKeepsStatus(s, j, Decode(s.sessions[j].buffer).msg, i);
    }
  }

  lemma AuthenticateKeepsStatus(s: Server, j: nat, m: ScMessage, i: nat)
    requires j < |s.sessions| && i < |s.sessions|
    ensures var t := Authenticate(s, j, m);
      && |t.sessions| == |s.sessions|
      && (i != j ==> SameStatus(s.sessions[i], t.sessions[i]))
      && t.sessions[i].con == s.sessions[i].con
      && (t.sessions[i].reading == ChatRead ==> s.sessions[i].reading == ChatRead)
      && t.sessions[i].past.failed == s.sessions[i].past.failed
      && t.sessions[i].past.replied == s.sessions[i].past.replied
  {
  }

  lemma OthersKeepStatus(s: Server, e: Event, i: nat)
    requires Enabled(s, e) && i < |s.sessions| && (e.Accept? || e.i != i)
    ensures i < |Step(s, e).sessions| && SameStatus(s.sessions[i], Step(s, e).sessions[i])
  {
    match e
    case AuthReadDone(j, error, more) => AuthKeepsStatus(Filled(s, j, error, more), j, error, i);
    case ChatReadDone(j, error, more, now) => ChatKeepsStatus(Filled(s, j, error, more), j, error, now, i);
    case _ =>
  }

  lemma OwnReplyAfterFailure(s: Server, i: nat, error: bool, told: bool)
    requires i < |s.sessions| && AfterFailure(s.sessions[i], told) && StateOk(s.sessions[i], false)
    requires s.sessions[i].reading.AuthReply?
    ensures AfterFailure(Replied(s, i, error).sessions[i], told)
  {
  }

  lemma OwnEventAfterFailure(s: Server, e: Event, i: nat, told: bool)
    requires Enabled(s, e) && !e.Accept? && e.i == i
    requires AfterFailure(s.sessions[i], told) && SessionOk(s.sessions[i], false, s.log, s.auth.info)
    ensures i < |Step(s, e).sessions| && AfterFailure(Step(s, e).sessions[i], told)
  {
    match e
    case AuthReadDone(_, error, more) => AuthKeepsStatus(Filled(s, i, error, more), i, error, i);
    case ChatReadDone(_, error, more, now) => ChatKeepsStatus(Filled(s, i, error, more), i, error, now, i);
    case AuthReplyDone(_, error) => OwnReplyAfterFailure(s, i, error, told);
    case _ =>
  }

  lemma FailureStep(s: Server, e: Event, i: nat, told: bool)
    requires Inv(s) && i < |s.sessions| && AfterFailure(s.sessions[i], told)
    ensures i < |Step(s, e).sessions| && AfterFailure(Step(s, e).sessions[i], told)
  {
    assert SessionOk(s.sessions[i], i in s.room, s.log, s.auth.info);
    if Enabled(s, e) {
      if e.Accept? || e.i != i {
        OthersKeepStatus(s, e, i);
      } else {
        OwnEventAfterFailure(s, e, i, told);
      }
    }
  }

  lemma {:induction false} FailureRun(s: Server, events: seq<Event>, i: nat, told: bool)
    requires Inv(s) && i < |s.sessions| && AfterFailure(s.sessions[i], told)
    ensures i < |After(s, events).sessions| && AfterFailure(After(s, events).sessions[i], told)
    decreases events
  {
    if events != [] {
      FailureStep(s, events[0], i, told);
      StepInv(s, events[0]);
      FailureRun(Step(s, events[0]), events[1..], i, told);
    }
  }

  /**
   * When a session outside the room is connected after all: a queue write fails at any moment of a
   * run; at every later moment the session is out of the room, and it is not NotConnected exactly when
   * it was told of its login only after the failure and still reads chat frames.
   */
  lemma ConnectedOutsideRoomIff(auth: AuthState, events: seq<Event>, more: seq<Event>, i: nat)
    requires Enabled(After(Start(auth), events), QueueWriteDone(i, true))
    ensures var s := After(Start(auth), events);
      var t := After(Step(s, QueueWriteDone(i, true)), more);
      && i < |s.sessions| && i < |t.sessions| && i !in t.room
      && (t.sessions[i].con != NotConnected
          <==> !s.sessions[i].past.replied && t.sessions[i].past.replied && t.sessions[i].reading == ChatRead)
  {
    var s := After(Start(auth), events);
    var failed := Step(s, QueueWriteDone(i, true));
    ReachableInv(auth, events);
    assert SessionOk(s.sessions[i], i in s.room, s.log, s.auth.info);
    StepInv(s, QueueWriteDone(i, true));
    FailureRun(failed, more, i, s.sessions[i].past.replied);
    RunInv(failed, more);
    assert SessionOk(After(failed, more).sessions[i], i in After(failed, more).room, After(failed, more).log,
                     After(failed, more).auth.info);
  }

  /** A session counts as told of its login only through a success reply that was written without error. */
  lemma RepliedStep(s: Server, e: Event, i: nat)
    requires Inv(s) && i < |s.sessions| && !s.sessions[i].past.replied
    ensures i < |Step(s, e).sessions|
    ensures Step(s, e).sessions[i].past.replied ==>
              && e == AuthReplyDone(i, false)
              && s.sessions[i].reading.AuthReply? && IsSuccess(s.sessions[i].reading.answer)
              && Step(s, e).sessions[i].con == LoggedIn
  {
    if Enabled(s, e) {
      SamePastBut(s, e, i);
    }
  }

  /** Two sessions with the same assigned names and the same reply. */
  predicate SameLogin(x: SessionState, y: SessionState) {
    x.past.granted == y.past.granted && x.past.replied == y.past.replied
  }

  lemma ChatKeepsLogins(s: Server, j: nat, error: bool, now: Stamp)
    requires j < |s.sessions|
    ensures var t := HandleChat(s, j, error, now);
      |t.sessions| == |s.sessions| && forall i :: 0 <= i < |s.sessions| ==> SameLogin(s.sessions[i], t.sessions[i])
  {
    if !error && Decode(s.sessions[j].buffer).Accepted? {
      var m := Decode(s.sessions[j].buffer).msg;
      if m.kind == MESSAGE && m.GetProperty("message[0]").Some? {
        PostKeepsLogins(s, j, m.GetProperty("message[0]").value, now);
      }
    }
  }

  lemma PostKeepsLogins(s: Server, j: nat, src: string, now: Stamp)
    requires j < |s.sessions|
    ensures var t := Post(s, j, src, now);
      |t.sessions| == |s.sessions| && forall i :: 0 <= i < |s.sessions| ==> SameLogin(s.sessions[i], t.sessions[i])
  {
  }

  /** Only the completion of an authentication read or of a reply touches a session's login. */
  lemma SamePastBut(s: Server, e: Event, i: nat)
    requires Enabled(s, e) && i < |s.sessions|
    ensures i < |Step(s, e).sessions|
    ensures !(e.AuthReadDone? && e.i == i) && !(e.AuthReplyDone? && e.i == i) ==>
              SameLogin(s.sessions[i], Step(s, e).sessions[i])
    ensures e.AuthReadDone? && e.i == i ==> Step(s, e).sessions[i].past.replied == s.sessions[i].past.replied
    ensures e.AuthReplyDone? && e.i == i ==> Step(s, e).sessions[i].past.granted == s.sessions[i].past.granted
  {
    match e
    case ChatReadDone(j, error, more, now) => ChatKeepsLogins(Filled(s, j, error, more), j, error, now);
    case AuthReadDone(j, error, more) => AuthKeepsLogins(Filled(s, j, error, more), j, error, i);
    case AuthReplyDone(j, error) => ReplyKeepsLogins(s, j, error, i);
    case _ =>
  }

  lemma ReplyKeepsLogins(s: Server, j: nat, error: bool, i: nat)
    requires j < |s.sessions| && i < |s.sessions| && s.sessions[j].reading.AuthReply?
    ensures var t := Replied(s, j, error);
      && |t.sessions| == |s.sessions|
      && (i != j ==> SameLogin(s.sessions[i], t.sessions[i]))
      && t.sessions[i].past.granted == s.sessions[i].past.granted
  {
  }

  lemma AuthKeepsLogins(s: Server, j: nat, error: bool, i: nat)
    requires j < |s.sessions| && i < |s.sessions|
    ensures var t := HandleAuth(s, j, error);
      && |t.sessions| == |s.sessions|
      && t.sessions[i].past.replied == s.sessions[i].past.replied
      && (i != j || error ==> t.sessions[i].past.granted == s.sessions[i].past.granted)
  {
    if !error && Decode(s.sessions[j].buffer).Accepted? {
      AuthenticateKeeps(s, j, Decode(s.sessions[j].buffer).msg, i);
    }
  }

  lemma AuthenticateKeeps(s: Server, j: nat, m: ScMessage, i: nat)
    requires j < |s.sessions| && i < |s.sessions|
    ensures var t := Authenticate(s, j, m);
      && |t.sessions| == |s.sessions|
      && t.sessions[i].past.replied == s.sessions[i].past.replied
      && (i != j ==> t.sessions[i].past.granted == s.sessions[i].past.granted)
  {
  }

  /** The frame a session is authenticated with, after a step that assigns its name. */
  ghost predicate Credentials(buffer: string, kind: ScType, username: string, password: string) {
    && Decode(buffer).Accepted?
    && var m := Decode(buffer).msg;
       m.kind == kind && m.GetProperty("username") == Some(username) && m.GetProperty("password") == Some(password)
  }

  /** A name is assigned only by a frame that logs in with its password or registers it as a new one. */
  lemma GrantIsAuthenticated(s: Server, e: Event, i: nat)
    requires Inv(s) && i < |s.sessions|
    ensures i < |Step(s, e).sessions|
    ensures var t := Step(s, e);
      t.sessions[i].past.granted != s.sessions[i].past.granted ==>
        && e.AuthReadDone? && e.i == i && !e.error
        && s.sessions[i].past.granted == []
        && exists kind, password ::
             && Credentials(s.sessions[i].buffer + e.more, kind, t.sessions[i].username, password)
             && LoginOk(t.auth.info, t.sessions[i].username, password)
             && (if kind == LOGIN then LoginOk(s.auth.info, t.sessions[i].username, password)
                 else kind == REGISTER && RegisterOk(s.auth.info, t.sessions[i].username))
  {
    StepGrows(s, e);
    var t := Step(s, e);
    assert SessionOk(s.sessions[i], i in s.room, s.log, s.auth.info);
    if t.sessions[i].past.granted != s.sessions[i].past.granted {
      AssignsName(s, e, i);
      var buffer := s.sessions[i].buffer + e.more;
      var m := Decode(buffer).msg;
      var username, password := m.GetProperty("username").value, m.GetProperty("password").value;
      GetSet(s.auth.info, username, password, username);
      assert Credentials(buffer, m.kind, t.sessions[i].username, password);
    }
  }

  lemma AssignsName(s: Server, e: Event, i: nat)
    requires Inv(s) && i < |s.sessions| <= |Step(s, e).sessions|
    requires Step(s, e).sessions[i].past.granted != s.sessions[i].past.granted
    ensures e.AuthReadDone? && e.i == i && !e.error && Enabled(s, e)
    ensures Decode(s.sessions[i].buffer + e.more).Accepted?
  {
    assert Enabled(s, e);
    SamePastBut(s, e, i);
  }

  /**
   * Every delivery carries the authenticated name of its sender, whatever name the client wrote; the
   * name is an account, and neither it nor the delivery changes later in the run.
   */
  lemma AuthenticatedIdentity(auth: AuthState, events: seq<Event>, more: seq<Event>, k: nat)
    requires k < |After(Start(auth), events).log|
    ensures var s, t := After(Start(auth), events), After(After(Start(auth), events), more);
      var d := s.log[k];
      && d.sender < |s.sessions| <= |t.sessions| && k < |t.log| && t.log[k] == d
      && var name := s.sessions[d.sender].username;
         && s.sessions[d.sender].past.granted == [name]
         && Get(s.auth.info, name).Some?
         && t.sessions[d.sender].username == name
         && d.msg == GetMessageScMessage(Message(name, d.text, d.time))
  {
    var s := After(Start(auth), events);
    var t := After(s, more);
    ReachableInv(auth, events);
    OnlyGrows(s, more);
    assert DeliveryOk(s.log[k], s.sessions);
    var i := s.log[k].sender;
    assert SessionOk(s.sessions[i], i in s.room, s.log, s.auth.info);
    assert SessionGrows(s.sessions[i], t.sessions[i], i in s.room, i in t.room);
  }

  /** During a run accounts are added and no password changes. */
  lemma AccountsGrow(auth: AuthState, events: seq<Event>, more: seq<Event>, username: string)
    requires Get(After(Start(auth), events).auth.info, username).Some?
    ensures Get(After(After(Start(auth), events), more).auth.info, username)
            == Get(After(Start(auth), events).auth.info, username)
  {
    ReachableInv(auth, events);
    OnlyGrows(After(Start(auth), events), more);
  }

  /**
   * "Try again" never reads a new frame: once a frame has been read and no name was granted, every
   * later authentication of the session handles that same frame, because the buffer is not cleared.
   */
  lemma RetryReadsOldFrame(auth: AuthState, events: seq<Event>, more: seq<Event>, i: nat)
    requires i < |After(Start(auth), events).sessions|
    requires NUL in After(Start(auth), events).sessions[i].buffer
    ensures var s, t := After(Start(auth), events), After(After(Start(auth), events), more);
      && i < |t.sessions|
      && (t.sessions[i].past.granted == [] ==>
            && t.sessions[i].buffer == s.sessions[i].buffer
            && forall newBytes ::
                 Enabled(t, AuthReadDone(i, false, newBytes)) ==> newBytes == "")
  {
    var s := After(Start(auth), events);
    ReachableInv(auth, events);
    OnlyGrows(s, more);
    assert SessionGrows(s.sessions[i], After(s, more).sessions[i], i in s.room, i in After(s, more).room);
  }

  /** The step registers a new name with this password. */
  ghost predicate Registers(s: Server, e: Event, username: string, password: string) {
    && Enabled(s, e) && e.AuthReadDone? && !e.error
    && Credentials(s.sessions[e.i].buffer + e.more, REGISTER, username, password)
    && RegisterOk(s.auth.info, username)
  }

  lemma AuthenticateTable(s: Server, i: nat, m: ScMessage)
    requires i < |s.sessions|
    ensures var name, word := m.GetProperty("username"), m.GetProperty("password");
      Authenticate(s, i, m).auth == if m.kind == REGISTER && name.Some? && word.Some?
                                    then AfterRegister(s.auth, name.value, word.value) else s.auth
  {
  }

  lemma StepTable(s: Server, e: Event, username: string, password: string)
    ensures LoginOk(Step(s, e).auth.info, username, password)
            <==> LoginOk(s.auth.info, username, password) || Registers(s, e, username, password)
  {
    if Enabled(s, e) && e.AuthReadDone? && !e.error {
      var f := Filled(s, e.i, false, e.more);
      if Decode(f.sessions[e.i].buffer).Accepted? {
        var m := Decode(f.sessions[e.i].buffer).msg;
        var name, word := m.GetProperty("username"), m.GetProperty("password");
        AuthenticateTable(f, e.i, m);
        if name.Some? && word.Some? {
          GetSet(s.auth.info, name.value, word.value, username);
        }
      }
    } else if Enabled(s, e) && e.ChatReadDone? && !e.error {
      ChatKeepsTable(Filled(s, e.i, false, e.more), e.i, e.now);
    }
  }

  lemma ChatKeepsTable(s: Server, i: nat, now: Stamp)
    requires i < |s.sessions|
    ensures HandleChat(s, i, false, now).auth == s.auth
  {
  }

  /** A login is accepted later exactly when it is accepted now or a step in between registers it. */
  lemma {:induction false} AcceptedLaterIff(s: Server, events: seq<Event>, username: string, password: string)
    ensures LoginOk(After(s, events).auth.info, username, password)
            <==> || LoginOk(s.auth.info, username, password)
                 || exists n :: 0 <= n < |events| && Registers(After(s, events[..n]), events[n], username, password)
    decreases events
  {
    if events != [] {
      var t, rest := Step(s, events[0]), events[1..];
      StepTable(s, events[0], username, password);
      AcceptedLaterIff(t, rest, username, password);
      assert After(s, events[..0]) == s;
      forall n | 0 < n < |events| ensures After(s, events[..n]) == After(t, rest[..n - 1]) && events[n] == rest[n - 1] {
        AfterFirst(s, events, n);
      }
      if n :| 0 <= n < |rest| && Registers(After(t, rest[..n]), rest[n], username, password) {
        assert Registers(After(s, events[..n + 1]), events[n + 1], username, password);
      }
      if n :| 0 < n < |events| && Registers(After(s, events[..n]), events[n], username, password) {
        assert Registers(After(t, rest[..n - 1]), rest[n - 1], username, password);
      }
    }
  }

  /** A frame that waits for a grant stays in the buffer at every moment in between. */
  lemma FrameIsKept(s: Server, more: seq<Event>, i: nat, n: nat)
    requires Inv(s) && i < |s.sessions| && n <= |more| && NUL in s.sessions[i].buffer
    requires i < |After(s, more).sessions| && After(s, more).sessions[i].past.granted == []
    ensures i < |After(s, more[..n]).sessions|
    ensures After(s, more[..n]).sessions[i].buffer == s.sessions[i].buffer
  {
    var u := After(s, more[..n]);
    RunSplit(s, more, n);
    RunInv(s, more[..n]);
    SessionGrowsOver(s, more[..n], i);
    SessionGrowsOver(u, more[n..], i);
  }

  lemma RunSplit(s: Server, events: seq<Event>, n: nat)
    requires n <= |events|
    ensures After(s, events) == After(After(s, events[..n]), events[n..])
  {
    assert events == events[..n] + events[n..];
    AfterAppend(s, events[..n], events[n..]);
  }

  lemma SessionGrowsOver(s: Server, events: seq<Event>, i: nat)
    requires Inv(s) && i < |s.sessions|
    ensures var t := After(s, events);
      i < |t.sessions| && SessionGrows(s.sessions[i], t.sessions[i], i in s.room, i in t.room)
  {
    OnlyGrows(s, events);
  }

  /** A session that holds a login frame registers nothing. */
  lemma HolderRegistersNothing(s: Server, e: Event, i: nat, username: string, password: string, other: string,
                               word: string)
    requires i < |s.sessions| && NUL in s.sessions[i].buffer
    requires Credentials(s.sessions[i].buffer, LOGIN, username, password)
    requires Registers(s, e, other, word)
    ensures e.i != i
  {
    assert s.sessions[i].buffer + "" == s.sessions[i].buffer;
  }

  /**
   * What comes of "try again" after a login frame: at any later moment at which the session
   * authenticates again, the old frame is accepted exactly when it was already acceptable or another
   * session has registered that name with that password in between. The client has no say in it.
   */
  lemma RetryAcceptedIff(auth: AuthState, events: seq<Event>, more: seq<Event>, i: nat, username: string,
                         password: string)
    requires i < |After(Start(auth), events).sessions|
    requires var buffer := After(Start(auth), events).sessions[i].buffer;
      NUL in buffer && Credentials(buffer, LOGIN, username, password)
    requires var t := After(After(Start(auth), events), more);
      !t.aborted && i < |t.sessions| && t.sessions[i].past.granted == [] && t.sessions[i].reading == AuthRead
    ensures var s, t := After(Start(auth), events), After(After(Start(auth), events), more);
      var u := Step(t, AuthReadDone(i, false, ""));
      && Enabled(t, AuthReadDone(i, false, "")) && i < |u.sessions|
      && u.sessions[i].past.granted == (if u.sessions[i].reading == AuthReply(LOGIN_SUCCESS) then [username] else [])
      && (u.sessions[i].reading == AuthReply(LOGIN_SUCCESS) || u.sessions[i].reading == AuthReply(LOGIN_FAILURE))
      && (u.sessions[i].reading == AuthReply(LOGIN_SUCCESS)
          <==> || LoginOk(s.auth.info, username, password)
               || exists n :: 0 <= n < |more| && more[n].AuthReadDone? && more[n].i != i
                              && Registers(After(s, more[..n]), more[n], username, password))
  {
    var s, t := After(Start(auth), events), After(After(Start(auth), events), more);
    RetryReadsOldFrame(auth, events, more, i);
    AcceptedLaterIff(s, more, username, password);
    ReachableInv(auth, events);
    forall n | 0 <= n < |more| && Registers(After(s, more[..n]), more[n], username, password) ensures more[n].i != i {
      FrameIsKept(s, more, i, n);
      HolderRegistersNothing(After(s, more[..n]), more[n], i, username, password, username, password);
    }
    LoginAnswer(t, i, username, password);
  }

  lemma LoginAnswer(s: Server, i: nat, username: string, password: string)
    requires !s.aborted && i < |s.sessions| && s.sessions[i].reading == AuthRead
    requires NUL in s.sessions[i].buffer && Credentials(s.sessions[i].buffer, LOGIN, username, password)
    ensures var t := Step(s, AuthReadDone(i, false, ""));
      && i < |t.sessions|
      && t.sessions[i].reading
         == AuthReply(if LoginOk(s.auth.info, username, password) then LOGIN_SUCCESS else LOGIN_FAILURE)
      && t.sessions[i].past.granted
         == s.sessions[i].past.granted + (if LoginOk(s.auth.info, username, password) then [username] else [])
  {
    assert s.sessions[i].buffer + "" == s.sessions[i].buffer;
  }

  /** The frame is answered by a failure: a wrong type, unknown credentials, or a name that is taken. */
  ghost predicate Refusable(buffer: string, info: Table) {
    && AuthFrame(buffer)
    && var m := Decode(buffer).msg;
       && (m.kind == LOGIN ==> !LoginOk(info, m.GetProperty("username").value, m.GetProperty("password").value))
       && (m.kind == REGISTER ==> !RegisterOk(info, m.GetProperty("username").value))
  }

  /** The old frame is handled and its refusal is written. */
  function RefusedRound(i: nat): seq<Event> {
    [AuthReadDone(i, false, ""), AuthReplyDone(i, false)]
  }

  function RefusalOf(kind: ScType): ScType {
    if kind == LOGIN then LOGIN_FAILURE else if kind == REGISTER then REGISTER_FAILURE else FORMAT_FAILURE
  }

  /** The session's client has been sent the same refusal so many more times. */
  function Refused(s: Server, i: nat, answer: ScType, times: nat): Server
    requires i < |s.sessions|
  {
    var ss := s.sessions[i];
    With(s, i, ss.(past := ss.past.(wire := ss.past.wire + seq(times, _ => Reply(answer)))))
  }

  lemma RefusedAnswer(s: Server, i: nat)
    requires !s.aborted && i < |s.sessions| && s.sessions[i].reading == AuthRead
    requires NUL in s.sessions[i].buffer && Refusable(s.sessions[i].buffer, s.auth.info)
    ensures Step(s, AuthReadDone(i, false, ""))
            == With(s, i, s.sessions[i].(reading := AuthReply(RefusalOf(Decode(s.sessions[i].buffer).msg.kind))))
  {
    var ss := s.sessions[i];
    assert ss.buffer + "" == ss.buffer;
    assert Filled(s, i, false, "") == s by {
      assert s.sessions[i := ss] == s.sessions;
    }
    assert HandleAuth(s, i, false) == Authenticate(s, i, Decode(ss.buffer).msg);
    RefusedRequest(s, i, Decode(ss.buffer).msg);
  }

  lemma RefusedRequest(s: Server, i: nat, m: ScMessage)
    requires i < |s.sessions|
    requires m.kind == LOGIN || m.kind == REGISTER ==>
               m.GetProperty("username").Some? && m.GetProperty("password").Some?
    requires m.kind == LOGIN ==>
               !LoginOk(s.auth.info, m.GetProperty("username").value, m.GetProperty("password").value)
    requires m.kind == REGISTER ==> !RegisterOk(s.auth.info, m.GetProperty("username").value)
    ensures Authenticate(s, i, m) == With(s, i, s.sessions[i].(reading := AuthReply(RefusalOf(m.kind))))
  {
  }

  lemma RefusalWritten(s: Server, i: nat, answer: ScType)
    requires !s.aborted && i < |s.sessions| && s.sessions[i].reading == AuthRead && !IsSuccess(answer)
    ensures Step(With(s, i, s.sessions[i].(reading := AuthReply(answer))), AuthReplyDone(i, false))
            == Refused(s, i, answer, 1)
  {
    assert seq(1, _ => Reply(answer)) == [Reply(answer)];
  }

  lemma TwoSteps(s: Server, d: Event, e: Event)
    ensures After(s, [d, e]) == Step(Step(s, d), e)
  {
    assert [d, e][1..] == [e] && [e][1..] == [];
    assert After(Step(s, d), [e]) == Step(Step(s, d), e);
  }

  lemma RefusedRoundState(s: Server, i: nat)
    requires !s.aborted && i < |s.sessions| && s.sessions[i].reading == AuthRead
    requires NUL in s.sessions[i].buffer && Refusable(s.sessions[i].buffer, s.auth.info)
    ensures After(s, RefusedRound(i)) == Refused(s, i, RefusalOf(Decode(s.sessions[i].buffer).msg.kind), 1)
  {
    RefusedAnswer(s, i);
    RefusalWritten(s, i, RefusalOf(Decode(s.sessions[i].buffer).msg.kind));
    TwoSteps(s, AuthReadDone(i, false, ""), AuthReplyDone(i, false));
  }

  function Repeat(events: seq<Event>, rounds: nat): seq<Event> {
    if rounds == 0 then [] else Repeat(events, rounds - 1) + events
  }

  lemma RefusedMore(s: Server, i: nat, answer: ScType, times: nat)
    requires i < |s.sessions|
    ensures Refused(Refused(s, i, answer, times), i, answer, 1) == Refused(s, i, answer, times + 1)
  {
    var wire := s.sessions[i].past.wire;
    assert wire + seq(times, _ => Reply(answer)) + seq(1, _ => Reply(answer))
           == wire + seq(times + 1, _ => Reply(answer));
  }

  lemma RefusedNone(s: Server, i: nat, answer: ScType)
    requires i < |s.sessions|
    ensures Refused(s, i, answer, 0) == s
  {
    assert s.sessions[i].past.wire + seq(0, _ => Reply(answer)) == s.sessions[i].past.wire;
    assert s.sessions[i := s.sessions[i]] == s.sessions;
  }

  lemma {:induction false} RoundsAddUp(s: Server, i: nat, answer: ScType, round: seq<Event>, rounds: nat)
    requires i < |s.sessions|
    requires forall times ::
               After(Refused(s, i, answer, times), round) == Refused(Refused(s, i, answer, times), i, answer, 1)
    ensures After(s, Repeat(round, rounds)) == Refused(s, i, answer, rounds)
  {
    if rounds == 0 {
      RefusedNone(s, i, answer);
    } else {
      RoundsAddUp(s, i, answer, round, rounds - 1);
      RefusedMore(s, i, answer, rounds - 1);
      AfterAppend(s, Repeat(round, rounds - 1), round);
    }
  }

  /**
   * A refusal repeats without the client: handling the old frame and writing the answer need no input,
   * and any number of rounds does nothing but send the client the same refusal that often.
   */
  lemma RefusalRepeats(s: Server, i: nat, rounds: nat)
    requires !s.aborted && i < |s.sessions| && s.sessions[i].reading == AuthRead
    requires NUL in s.sessions[i].buffer && Refusable(s.sessions[i].buffer, s.auth.info)
    ensures After(s, Repeat(RefusedRound(i), rounds))
            == Refused(s, i, RefusalOf(Decode(s.sessions[i].buffer).msg.kind), rounds)
  {
    var answer := RefusalOf(Decode(s.sessions[i].buffer).msg.kind);
    forall times: nat
      ensures After(Refused(s, i, answer, times), RefusedRound(i))
              == Refused(Refused(s, i, answer, times), i, answer, 1)
    {
      RefusedRoundState(Refused(s, i, answer, times), i);
    }
    RoundsAddUp(s, i, answer, RefusedRound(i), rounds);
  }

  // ----- exceptions

  /** A frame that the authentication handler can work with. */
  ghost predicate AuthFrame(buffer: string) {
    && Decode(buffer).Accepted?
    && var m := Decode(buffer).msg;
       m.kind == LOGIN || m.kind == REGISTER ==> m.GetProperty("username").Some? && m.GetProperty("password").Some?
  }

  /** A frame that the chat handler can work with; the message inside need not parse. */
  ghost predicate ChatFrame(buffer: string) {
    && Decode(buffer).Accepted?
    && (Decode(buffer).msg.kind == MESSAGE ==> Decode(buffer).msg.GetProperty("message[0]").Some?)
  }

  /** A read completes with a frame that its handler cannot work with. */
  ghost predicate BadRead(s: Server, e: Event) {
    && Enabled(s, e)
    && ((e.AuthReadDone? && !e.error && !AuthFrame(s.sessions[e.i].buffer + e.more))
        || (e.ChatReadDone? && !e.error && !ChatFrame(s.sessions[e.i].buffer + e.more)))
  }

  lemma AbortIff(s: Server, e: Event)
    requires !s.aborted
    ensures Step(s, e).aborted <==> BadRead(s, e)
  {
    if Enabled(s, e) {
      match e
      case AuthReadDone(i, error, more) => AuthAborts(Filled(s, i, error, more), i, error);
      case ChatReadDone(i, error, more, now) => ChatAborts(Filled(s, i, error, more), i, error, now);
      case _ =>
    }
  }

  lemma AuthAborts(s: Server, i: nat, error: bool)
    requires i < |s.sessions| && !s.aborted
    ensures HandleAuth(s, i, error).aborted <==> !error && !AuthFrame(s.sessions[i].buffer)
  {
  }

  lemma ChatAborts(s: Server, i: nat, error: bool, now: Stamp)
    requires i < |s.sessions| && !s.aborted
    ensures HandleChat(s, i, error, now).aborted <==> !error && !ChatFrame(s.sessions[i].buffer)
  {
  }

  lemma {:induction false} AbortedStays(s: Server, events: seq<Event>)
    requires s.aborted
    ensures After(s, events) == s
    decreases events
  {
    if events != [] {
      AbortedStays(s, events[1..]);
    }
  }

  /**
   * A run ends early exactly when at some moment a read completes with a frame that is refused, lacks
   * a property its handler needs, or has no defined meaning for `Deserialize`; the state then stays.
   */
  lemma {:induction false} RunAbortsIff(s: Server, events: seq<Event>)
    requires !s.aborted
    ensures After(s, events).aborted
            <==> exists n :: 0 <= n < |events| && BadRead(After(s, events[..n]), events[n])
    decreases events
  {
    if events != [] {
      var t, rest := Step(s, events[0]), events[1..];
      AbortIff(s, events[0]);
      assert After(s, events[..0]) == s;
      forall n | 0 < n < |events| ensures After(s, events[..n]) == After(t, rest[..n - 1]) && events[n] == rest[n - 1] {
        AfterFirst(s, events, n);
      }
      if t.aborted {
        AbortedStays(t, rest);
        assert BadRead(After(s, events[..0]), events[0]);
      } else {
        RunAbortsIff(t, rest);
        if n :| 0 <= n < |rest| && BadRead(After(t, rest[..n]), rest[n]) {
          assert BadRead(After(s, events[..n + 1]), events[n + 1]);
        }
        if n :| 0 < n < |events| && BadRead(After(s, events[..n]), events[n]) {
          assert BadRead(After(t, rest[..n - 1]), rest[n - 1]);
        }
      }
    }
  }

  // ----- deliveries

  /** The text of a chat frame that is delivered; `None` for every frame that is not. */
  ghost function ChatText(buffer: string): Option<string> {
    if !ChatFrame(buffer) || Decode(buffer).msg.kind != MESSAGE then None
    else
      var parsed := Parse(Decode(buffer).msg.GetProperty("message[0]").value);
      if parsed.None? then None else Some(parsed.value.text)
  }

  /** The log after a read that brought these bytes to a session's chat handler. */
  ghost function LogAfter(s: Server, i: nat, buffer: string, now: Stamp): seq<Delivery>
    requires i < |s.sessions|
  {
    var text := ChatText(buffer);
    if text.None? then s.log else s.log + [Stamped(s.sessions[i].username, i, text.value, now)]
  }

  /** A step delivers at most one message, and exactly when a read completes with a chat frame that has a text. */
  lemma DeliveryIff(s: Server, e: Event)
    ensures Step(s, e).log == if Enabled(s, e) && e.ChatReadDone? && !e.error
                              then LogAfter(s, e.i, s.sessions[e.i].buffer + e.more, e.now)
                              else s.log
  {
    if Enabled(s, e) {
      match e
      case ChatReadDone(i, error, more, now) =>
        if !error {
          ChatDelivers(Filled(s, i, error, more), i, now);
        }
      case AuthReadDone(i, error, more) =>
        AuthKeepsLog(Filled(s, i, error, more), i, error);
      case _ =>
    }
  }

  lemma AuthKeepsLog(s: Server, i: nat, error: bool)
    requires i < |s.sessions|
    ensures HandleAuth(s, i, error).log == s.log
  {
    if !error && Decode(s.sessions[i].buffer).Accepted? {
      AuthenticateKeepsLog(s, i, Decode(s.sessions[i].buffer).msg);
    }
  }

  lemma AuthenticateKeepsLog(s: Server, i: nat, m: ScMessage)
    requires i < |s.sessions|
    ensures Authenticate(s, i, m).log == s.log
  {
  }

  lemma ChatDelivers(s: Server, i: nat, now: Stamp)
    requires i < |s.sessions|
    ensures HandleChat(s, i, false, now).log == LogAfter(s, i, s.sessions[i].buffer, now)
  {
    if Decode(s.sessions[i].buffer).Accepted? {
      ConverseDelivers(s, i, Decode(s.sessions[i].buffer).msg, now);
    }
  }

  lemma ConverseDelivers(s: Server, i: nat, m: ScMessage, now: Stamp)
    requires i < |s.sessions|
    ensures var src := m.GetProperty("message[0]");
      Converse(s, i, m, now).log
      == if m.kind == MESSAGE && src.Some? && Parse(src.value).Some?
         then s.log + [Stamped(s.sessions[i].username, i, Parse(src.value).value.text, now)]
         else s.log
  {
  }

  /** The step reads a chat frame whose text becomes this entry, stamped with the session's name. */
  ghost predicate Delivers(s: Server, e: Event, d: Delivery) {
    && Enabled(s, e) && e.ChatReadDone? && !e.error
    && var text := ChatText(s.sessions[e.i].buffer + e.more);
       text.Some? && d == Stamped(s.sessions[e.i].username, e.i, text.value, e.now)
  }

  /** Event `n` of the run delivers this entry as entry `k` of the log. */
  ghost predicate DeliversAt(s: Server, events: seq<Event>, n: nat, k: nat, d: Delivery)
    requires n < |events|
  {
    |After(s, events[..n]).log| == k && Delivers(After(s, events[..n]), events[n], d)
  }

  /**
   * No message is invented, and none is delivered twice: every log entry of a run comes from exactly
   * one completed read, the one that found exactly the earlier entries in the log.
   */
  lemma DeliveryOrigin(s: Server, events: seq<Event>, k: nat)
    requires |s.log| <= k < |After(s, events).log|
    ensures exists n :: 0 <= n < |events| && DeliversAt(s, events, n, k, After(s, events).log[k])
                        && forall l, d :: 0 <= l < |events| && DeliversAt(s, events, l, k, d) ==> l == n
  {
    DeliveryExists(s, events, k);
    var n :| 0 <= n < |events| && DeliversAt(s, events, n, k, After(s, events).log[k]);
    forall l, d | 0 <= l < |events| && DeliversAt(s, events, l, k, d) ensures l == n {
      if l < n {
        NotDeliveredAgain(s, events, l, n, k, d);
      } else if n < l {
        NotDeliveredAgain(s, events, n, l, k, After(s, events).log[k]);
      }
    }
  }

  lemma DeliversAppends(s: Server, e: Event, d: Delivery)
    requires Delivers(s, e, d)
    ensures Step(s, e).log == s.log + [d]
  {
    DeliveryIff(s, e);
  }

  /** The log of a run never gets shorter. */
  lemma LogLater(s: Server, events: seq<Event>, n: nat, l: nat)
    requires n <= l <= |events|
    ensures |After(s, events[..n]).log| <= |After(s, events[..l]).log|
  {
    assert events[..l] == events[..n] + events[n..l];
    AfterAppend(s, events[..n], events[n..l]);
    LogPrefix(After(s, events[..n]), events[n..l]);
  }

  /** After entry `k` was delivered the log is never that short again. */
  lemma NotDeliveredAgain(s: Server, events: seq<Event>, n: nat, l: nat, k: nat, d: Delivery)
    requires n < l <= |events| && DeliversAt(s, events, n, k, d)
    ensures |After(s, events[..l]).log| > k
  {
    DeliversAppends(After(s, events[..n]), events[n], d);
    AfterLast(s, events, n);
    LogLater(s, events, n + 1, l);
  }

  lemma {:induction false} DeliveryExists(s: Server, events: seq<Event>, k: nat)
    requires |s.log| <= k < |After(s, events).log|
    ensures exists n :: 0 <= n < |events| && DeliversAt(s, events, n, k, After(s, events).log[k])
    decreases events
  {
    if events != [] {
      var t, rest := Step(s, events[0]), events[1..];
      var d := After(s, events).log[k];
      DeliveryIff(s, events[0]);
      LogPrefix(t, rest);
      if k == |s.log| && |t.log| > |s.log| {
        assert After(s, events[..0]) == s;
        assert DeliversAt(s, events, 0, k, d);
      } else {
        DeliveryExists(t, rest, k);
        var n :| 0 <= n < |rest| && DeliversAt(t, rest, n, k, d);
        AfterFirst(s, events, n + 1);
        assert DeliversAt(s, events, n + 1, k, d);
      }
    }
  }

  lemma {:induction false} LogPrefix(s: Server, events: seq<Event>)
    ensures s.log <= After(s, events).log
    decreases events
  {
    if events != [] {
      DeliveryIff(s, events[0]);
      LogPrefix(Step(s, events[0]), events[1..]);
    }
  }

  // ----- draining

  function Queued(sessions: seq<SessionState>): nat {
    if sessions == [] then 0 else |sessions[0].queue| + Queued(sessions[1..])
  }

  lemma {:induction false} QueuedUpdate(sessions: seq<SessionState>, i: nat, ss: SessionState)
    requires i < |sessions|
    ensures Queued(sessions[i := ss]) == Queued(sessions) - |sessions[i].queue| + |ss.queue|
  {
    if i == 0 {
      assert sessions[0 := ss][1..] == sessions[1..];
    } else {
      QueuedUpdate(sessions[1..], i - 1, ss);
      assert sessions[i := ss][1..] == sessions[1..][i - 1 := ss];
    }
  }

  /** A completion of a queue write without error takes exactly one message off the queues. */
  lemma CompletionDrains(s: Server, i: nat)
    requires Enabled(s, QueueWriteDone(i, false))
    ensures var t := Step(s, QueueWriteDone(i, false));
      && Queued(t.sessions) == Queued(s.sessions) - 1
      && t.log == s.log && t.room == s.room && |t.sessions| == |s.sessions| && !t.aborted
      && forall j :: 0 <= j < |s.sessions| ==> t.sessions[j].past.failed == s.sessions[j].past.failed
                                               && t.sessions[j].past.joined == s.sessions[j].past.joined
  {
    QueuedUpdate(s.sessions, i, Popped(s.sessions[i]));
  }

  ghost predicate Completions(s: Server, events: seq<Event>)
    decreases events
  {
    events == [] ||
    (&& events[0].QueueWriteDone? && !events[0].error && Enabled(s, events[0])
     && Completions(Step(s, events[0]), events[1..]))
  }

  /** No queue write is pending on any session. */
  predicate Quiet(s: Server) {
    forall i :: 0 <= i < |s.sessions| ==> s.sessions[i].writing == None
  }

  /** Without new deliveries and errors no run of completions is longer than the number of queued messages. */
  lemma {:induction false} DrainBound(s: Server, events: seq<Event>)
    requires Completions(s, events)
    ensures |events| + Queued(After(s, events).sessions) == Queued(s.sessions)
    ensures After(s, events).log == s.log && After(s, events).room == s.room
    decreases events
  {
    if events != [] {
      CompletionDrains(s, events[0].i);
      DrainBound(Step(s, events[0]), events[1..]);
    }
  }

  lemma IdleMember(s: Server, i: nat)
    requires Inv(s) && i in s.room && i < |s.sessions| && s.sessions[i].writing == None
    ensures var ss := s.sessions[i];
      ss.past.joined <= |s.log| && ss.queue == [] && ss.past.sent == Msgs(s.log[ss.past.joined..])
  {
    var ss := s.sessions[i];
    assert SessionOk(ss, i in s.room, s.log, s.auth.info);
    assert ss.past.sent + ss.queue == ss.past.sent;
    assert s.log[ss.past.joined..|s.log|] == s.log[ss.past.joined..];
  }

  /**
   * A member of the room that has no queue write pending has been sent the whole log since it joined,
   * whatever the other sessions are doing.
   */
  lemma IdleMeansDelivered(auth: AuthState, events: seq<Event>, i: nat)
    requires var s := After(Start(auth), events); i in s.room && i < |s.sessions| && s.sessions[i].writing == None
    ensures var s := After(Start(auth), events);
      && s.sessions[i].past.joined <= |s.log|
      && s.sessions[i].queue == []
      && s.sessions[i].past.sent == Msgs(s.log[s.sessions[i].past.joined..])
  {
    ReachableInv(auth, events);
    IdleMember(After(Start(auth), events), i);
  }

  /** From every state that is not aborted, completing the pending writes leads to a quiet state. */
  lemma {:induction false} CanDrain(s: Server) returns (events: seq<Event>)
    requires Inv(s) && !s.aborted
    ensures Completions(s, events) && Quiet(After(s, events))
    decreases Queued(s.sessions)
  {
    if Quiet(s) {
      events := [];
    } else {
      var i :| 0 <= i < |s.sessions| && s.sessions[i].writing != None;
      assert SessionOk(s.sessions[i], i in s.room, s.log, s.auth.info);
      var e := QueueWriteDone(i, false);
      CompletionDrains(s, i);
      StepInv(s, e);
      var rest := CanDrain(Step(s, e));
      events := [e] + rest;
      assert events[1..] == rest;
    }
  }

  /**
   * Whatever happened, as long as the run goes on, completing the pending writes brings every member
   * of the room the whole log since it joined, in a bounded number of steps.
   */
  lemma EventualDelivery(auth: AuthState, events: seq<Event>) returns (completions: seq<Event>)
    requires !After(Start(auth), events).aborted
    ensures var s, t := After(Start(auth), events), After(Start(auth), events + completions);
      && Completions(s, completions)
      && |completions| <= Queued(s.sessions)
      && t.log == s.log && t.room == s.room
      && forall i :: i in t.room ==>
           i < |t.sessions| && t.sessions[i].past.joined <= |t.log|
           && t.sessions[i].past.sent == Msgs(t.log[t.sessions[i].past.joined..])
  {
    ReachableInv(auth, events);
    var s := After(Start(auth), events);
    completions := CanDrain(s);
    DrainBound(s, completions);
    AfterAppend(Start(auth), events, completions);
    var t := After(Start(auth), events + completions);
    forall i | i in t.room
      ensures i < |t.sessions| && t.sessions[i].past.joined <= |t.log|
              && t.sessions[i].past.sent == Msgs(t.log[t.sessions[i].past.joined..])
    {
      ReachableInv(auth, events + completions);
      IdleMeansDelivered(auth, events + completions, i);
    }
  }
}
