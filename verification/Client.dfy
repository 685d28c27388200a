/** The receiving end of the protocol and the checks on what a user may send. */
module Client {
  import opened Wrappers
  import opened Text
  import opened Tables
  import opened Times
  import opened ScMessages
  import opened ChatMessages
  import opened Accounts
  import opened Protocol

  // ----- reading

  /**
   * What the read loop does with a buffer. `Thrown` ends the loop by an exception; a buffer on which
   * `Deserialize` has no defined meaning counts as one that throws.
   */
  datatype Outcome = Shown(msg: Message<Civil>) | Discarded(data: string) | Ignored | Thrown

  ghost function OutcomeOf(buffer: string): Outcome {
    var scmsg := Received(buffer);
    if scmsg.None? then Thrown
    else if scmsg.value.kind == MESSAGE then
      var src := scmsg.value.GetProperty("message[0]");
      if src.None? || Parse(src.value).None? then Thrown else Shown(Parse(src.value).value)
    else if scmsg.value.kind == END then Discarded(buffer)
    else Ignored
  }

  ghost function Outcomes(buffers: seq<string>): seq<Outcome> {
    Each(OutcomeOf, buffers)
  }

  /** The messages shown by a loop with these outcomes, up to the first that throws. */
  function ShownIn(outcomes: seq<Outcome>): seq<Message<Civil>> {
    if outcomes == [] || outcomes[0].Thrown? then []
    else (if outcomes[0].Shown? then [outcomes[0].msg] else []) + ShownIn(outcomes[1..])
  }

  function DiscardedIn(outcomes: seq<Outcome>): seq<string> {
    if outcomes == [] || outcomes[0].Thrown? then []
    else (if outcomes[0].Discarded? then [outcomes[0].data] else []) + DiscardedIn(outcomes[1..])
  }

  /** One round of the loop: the buffer that was read or a socket error, and whether `StopRead` was called. */
  datatype Round = Round(read: Option<string>, stop: bool)

  /** How the loop stands after its rounds; `Waiting` for the next read. */
  datatype Ending = Waiting | StopRequested | Escaped

  ghost function RoundOutcome(round: Round): Outcome {
    if round.read.None? then Thrown else OutcomeOf(round.read.value)
  }

  /** The round in which `StopRead` is called is the last one. */
  ghost function LoopOutcomes(rounds: seq<Round>): seq<Outcome> {
    if rounds == [] then []
    else [RoundOutcome(rounds[0])] + (if rounds[0].stop then [] else LoopOutcomes(rounds[1..]))
  }

  /** Reads that bring one buffer each, with no error and no `StopRead`. */
  function Rounds(buffers: seq<string>): seq<Round> {
    Each(buffer => Round(Some(buffer), false), buffers)
  }

  ghost function LoopEnding(rounds: seq<Round>): Ending {
    if rounds == [] then Waiting
    else if RoundOutcome(rounds[0]).Thrown? then Escaped
    else if rounds[0].stop then StopRequested
    else LoopEnding(rounds[1..])
  }

  /** Handling the first frame moves its effect from what is still to come to what has been done. */
  lemma HandleFirst(shown: seq<Message<Civil>>, discarded: seq<string>, outcomes: seq<Outcome>)
    requires outcomes != [] && !outcomes[0].Thrown?
    ensures var first := outcomes[0];
      && shown + ShownIn(outcomes) == (if first.Shown? then shown + [first.msg] else shown) + ShownIn(outcomes[1..])
      && discarded + DiscardedIn(outcomes)
         == (if first.Discarded? then discarded + [first.data] else discarded) + DiscardedIn(outcomes[1..])
  {
    var moreShown, moreDiscarded := ShownIn(outcomes[1..]), DiscardedIn(outcomes[1..]);
    match outcomes[0] {
      case Shown(msg) =>
        PushAssociates(shown, msg, moreShown);
        assert DiscardedIn(outcomes) == [] + moreDiscarded == moreDiscarded;
      case Discarded(data) =>
        PushAssociates(discarded, data, moreDiscarded);
        assert ShownIn(outcomes) == [] + moreShown == moreShown;
      case Ignored =>
        assert ShownIn(outcomes) == [] + moreShown == moreShown;
        assert DiscardedIn(outcomes) == [] + moreDiscarded == moreDiscarded;
    }
  }

  // ----- how the loop ends

  /** No round before this one throws or calls `StopRead`. */
  ghost predicate RunsUpTo(rounds: seq<Round>, n: nat) {
    forall k :: 0 <= k < n && k < |rounds| ==> !RoundOutcome(rounds[k]).Thrown? && !rounds[k].stop
  }

  lemma TailRuns(rounds: seq<Round>, n: nat)
    requires rounds != [] && n > 0 && RunsUpTo(rounds, n)
    ensures RunsUpTo(rounds[1..], n - 1)
  {
  }

  /**
   * The loop ends at its first round that throws or calls `StopRead`: with the exception, or after the
   * round's message has been handled. What comes later is neither shown nor discarded.
   */
  lemma {:induction false} LoopEndsAt(rounds: seq<Round>, n: nat)
    requires n < |rounds| && RunsUpTo(rounds, n) && (RoundOutcome(rounds[n]).Thrown? || rounds[n].stop)
    ensures LoopEnding(rounds) == if RoundOutcome(rounds[n]).Thrown? then Escaped else StopRequested
    ensures ShownIn(LoopOutcomes(rounds)) == ShownIn(LoopOutcomes(rounds[..n + 1]))
    ensures DiscardedIn(LoopOutcomes(rounds)) == DiscardedIn(LoopOutcomes(rounds[..n + 1]))
    ensures RoundOutcome(rounds[n]).Thrown? ==>
              && ShownIn(LoopOutcomes(rounds)) == ShownIn(LoopOutcomes(rounds[..n]))
              && DiscardedIn(LoopOutcomes(rounds)) == DiscardedIn(LoopOutcomes(rounds[..n]))
  {
    if n > 0 {
      TailRuns(rounds, n);
      LoopEndsAt(rounds[1..], n - 1);
      NextRound(rounds);
      NextOfPrefix(rounds, n + 1);
      if RoundOutcome(rounds[n]).Thrown? {
        NextOfPrefix(rounds, n);
      }
    }
  }

  /** A round without `StopRead` comes before the rest of the loop. */
  lemma NextRound(rounds: seq<Round>)
    requires rounds != [] && !rounds[0].stop
    ensures var first, rest := RoundOutcome(rounds[0]), LoopOutcomes(rounds[1..]);
      && ShownIn(LoopOutcomes(rounds)) == ShownIn([first] + rest)
      && DiscardedIn(LoopOutcomes(rounds)) == DiscardedIn([first] + rest)
      && LoopEnding(rounds) == if first.Thrown? then Escaped else LoopEnding(rounds[1..])
  {
  }

  lemma SameEffect(first: Outcome, a: seq<Outcome>, b: seq<Outcome>)
    requires ShownIn(a) == ShownIn(b) && DiscardedIn(a) == DiscardedIn(b)
    ensures ShownIn([first] + a) == ShownIn([first] + b) && DiscardedIn([first] + a) == DiscardedIn([first] + b)
  {
    assert ([first] + a)[1..] == a && ([first] + b)[1..] == b;
  }

  lemma NextOfPrefix(rounds: seq<Round>, n: nat)
    requires 0 < n <= |rounds| && !rounds[0].stop
    requires ShownIn(LoopOutcomes(rounds[1..])) == ShownIn(LoopOutcomes(rounds[1..][..n - 1]))
             && DiscardedIn(LoopOutcomes(rounds[1..])) == DiscardedIn(LoopOutcomes(rounds[1..][..n - 1]))
    ensures ShownIn(LoopOutcomes(rounds)) == ShownIn(LoopOutcomes(rounds[..n]))
    ensures DiscardedIn(LoopOutcomes(rounds)) == DiscardedIn(LoopOutcomes(rounds[..n]))
  {
    assert rounds[..n][1..] == rounds[1..][..n - 1];
    NextRound(rounds);
    NextRound(rounds[..n]);
    SameEffect(RoundOutcome(rounds[0]), LoopOutcomes(rounds[1..]), LoopOutcomes(rounds[1..][..n - 1]));
  }

  /** The round in which `StopRead` is called is handled, and it is the last. */
  lemma {:induction false} StopIsHandled(rounds: seq<Round>, n: nat)
    requires n < |rounds| && rounds[n].stop && forall k :: 0 <= k < n ==> !rounds[k].stop
    ensures LoopOutcomes(rounds) == Each(RoundOutcome, rounds[..n + 1])
  {
    EachSingle(RoundOutcome, rounds[0]);
    if n == 0 {
      assert rounds[..1] == [rounds[0]];
    } else {
      StopIsHandled(rounds[1..], n - 1);
      assert rounds[..n + 1] == [rounds[0]] + rounds[1..][..n];
      EachAppend(RoundOutcome, [rounds[0]], rounds[1..][..n]);
    }
  }

  /** While nobody calls `StopRead`, every round counts. */
  lemma {:induction false} AllHandled(rounds: seq<Round>)
    requires forall k :: 0 <= k < |rounds| ==> !rounds[k].stop
    ensures LoopOutcomes(rounds) == Each(RoundOutcome, rounds)
  {
    if rounds != [] {
      AllHandled(rounds[1..]);
      assert rounds == [rounds[0]] + rounds[1..];
      EachAppend(RoundOutcome, [rounds[0]], rounds[1..]);
      EachSingle(RoundOutcome, rounds[0]);
    }
  }

  lemma LoopOfRounds(buffers: seq<string>)
    ensures LoopOutcomes(Rounds(buffers)) == Outcomes(buffers)
  {
    AllHandled(Rounds(buffers));
    forall k | 0 <= k < |buffers| ensures RoundOutcome(Rounds(buffers)[k]) == OutcomeOf(buffers[k]) {
    }
  }

  /** The loop waits for the next read exactly if no round has thrown or called `StopRead`. */
  lemma {:induction false} LoopWaits(rounds: seq<Round>)
    ensures LoopEnding(rounds) == Waiting <==> RunsUpTo(rounds, |rounds|)
  {
    if rounds != [] {
      LoopWaits(rounds[1..]);
      if RunsUpTo(rounds, |rounds|) {
        TailRuns(rounds, |rounds|);
      }
      if RunsUpTo(rounds[1..], |rounds| - 1) && !RoundOutcome(rounds[0]).Thrown? && !rounds[0].stop {
        forall k | 0 <= k < |rounds| ensures !RoundOutcome(rounds[k]).Thrown? && !rounds[k].stop {
          assert k > 0 ==> rounds[k] == rounds[1..][k - 1];
        }
      }
    }
  }

  /**
   * A connection that is lost before anything stopped the loop ends it by an exception: what was shown
   * and discarded is what the earlier rounds brought, unless one of them had thrown already.
   */
  lemma {:induction false} LostConnection(rounds: seq<Round>, n: nat)
    requires n < |rounds| && rounds[n].read == None
    requires forall k :: 0 <= k < n ==> !rounds[k].stop
    ensures LoopEnding(rounds) == Escaped
    ensures ShownIn(LoopOutcomes(rounds)) == ShownIn(LoopOutcomes(rounds[..n]))
    ensures DiscardedIn(LoopOutcomes(rounds)) == DiscardedIn(LoopOutcomes(rounds[..n]))
  {
    if n > 0 {
      LostConnection(rounds[1..], n - 1);
      NextRound(rounds);
      NextOfPrefix(rounds, n);
    }
  }

  /** What a buffer is for the read loop: a message only in a chat frame that holds one in its text form. */
  lemma OutcomeIff(buffer: string, m: Message<Civil>)
    ensures OutcomeOf(buffer) == Shown(m)
            <==> && Decode(buffer).Accepted? && Decode(buffer).msg.kind == MESSAGE
                 && var src := Decode(buffer).msg.GetProperty("message[0]");
                    src.Some? && exists date :: MessageText(src.value, m, date)
    ensures OutcomeOf(buffer).Discarded? <==> Decode(buffer) == Rejected
    ensures Decode(buffer) == Rejected ==> OutcomeOf(buffer) == Discarded(buffer)
    ensures OutcomeOf(buffer) == Ignored <==> Decode(buffer).Accepted? && Decode(buffer).msg.kind != MESSAGE
  {
    ReceivedEnd(buffer);
    if Decode(buffer).Accepted? {
      AcceptedWellFormed(buffer);
      var src := Decode(buffer).msg.GetProperty("message[0]");
      if src.Some? {
        ParseIff(src.value, m);
      }
    }
  }

  // ----- authentication

  function SuccessOf(kind: ScType): ScType {
    if kind == LOGIN then LOGIN_SUCCESS else REGISTER_SUCCESS
  }

  datatype AuthResult = Answer(accepted: bool) | ConnectionFailure | InvalidType | SocketError | UndefinedReply

  /** What `Auth` reports for what it read; `None` is a socket error. */
  ghost function AuthResultOf(kind: ScType, reply: Option<string>): AuthResult {
    if reply.None? then SocketError
    else if Received(reply.value).None? then UndefinedReply
    else Answer(Received(reply.value).value.kind == SuccessOf(kind))
  }

  function ConStateAfter(before: ConState, result: AuthResult): ConState {
    match result
    case SocketError => NotConnected
    case Answer(true) => LoggedIn
    case _ => before
  }

  class ChatRw {
    var con_state: ConState
    var is_read: bool

    /** Each write and read is one exchange: `reply` is the buffer read, or `None` on a socket error. */
    method Auth(kind: ScType, username: string, password: string, reply: Option<string>)
      returns (written: string, result: AuthResult)
      modifies this`con_state
      ensures result == if old(con_state) == NotConnected then ConnectionFailure
                        else if kind != LOGIN && kind != REGISTER then InvalidType
                        else AuthResultOf(kind, reply)
      ensures written == if result == ConnectionFailure || result == InvalidType then ""
                         else Frame(GetAuthScMessage(kind, username, password).value)
      ensures con_state == ConStateAfter(old(con_state), result)
      ensures result == Answer(true) ==> con_state == LoggedIn
      ensures result == SocketError ==> con_state == NotConnected
      ensures result != Answer(true) && result != SocketError ==> con_state == old(con_state)
      ensures old(con_state) != NotConnected && (kind == LOGIN || kind == REGISTER) ==>
                && (reply.None? <==> result == SocketError)
                && (result == UndefinedReply <==> reply.Some? && Received(reply.value).None?)
                && (result == Answer(true) <==> reply.Some? && Received(reply.value).Some?
                                                && Received(reply.value).value.kind == SuccessOf(kind))
    {
      if con_state == NotConnected {
        return "", ConnectionFailure;
      }
      if kind != LOGIN && kind != REGISTER {
        return "", InvalidType;
      }
      var query := GetAuthScMessage(kind, username, password);
      written := ScMessages.Serialize(query.value);
      written := written + [NUL];
      if reply.None? {
        con_state := NotConnected;
        return written, SocketError;
      }
      var res := ReadScMessage(reply.value);
      if res.None? {
        return written, UndefinedReply;
      }
      var successType := if kind == LOGIN then LOGIN_SUCCESS else REGISTER_SUCCESS;
      if res.value.kind == successType {
        con_state := LoggedIn;
        return written, Answer(true);
      }
      return written, Answer(false);
    }

    /**
     * The read loop over the rounds that happen: `ok` is false where it is refused because the client
     * is not logged in. A socket error ends it like any other exception, and `con_state` stays.
     */
    method StartRead(rounds: seq<Round>)
      returns (ok: bool, shown: seq<Message<Civil>>, discarded: seq<string>, ending: Ending)
      modifies this`is_read
      ensures ok <==> con_state == LoggedIn
      ensures !ok ==> is_read == old(is_read) && shown == [] && discarded == []
      ensures ok ==> shown == ShownIn(LoopOutcomes(rounds)) && discarded == DiscardedIn(LoopOutcomes(rounds))
      ensures ok ==> ending == LoopEnding(rounds)
      ensures ok && ending != Escaped ==> (is_read <==> ending == Waiting)
    {
      shown, discarded, ending := [], [], Escaped;
      if con_state != LoggedIn {
        return false, [], [], Escaped;
      }
      ok := true;
      is_read := true;
      var n := 0;
      while is_read && n < |rounds|
        invariant 0 <= n <= |rounds|
        invariant shown + (if is_read then ShownIn(LoopOutcomes(rounds[n..])) else []) == ShownIn(LoopOutcomes(rounds))
        invariant discarded + (if is_read then DiscardedIn(LoopOutcomes(rounds[n..])) else [])
                  == DiscardedIn(LoopOutcomes(rounds))
        invariant LoopEnding(rounds) == if is_read then LoopEnding(rounds[n..]) else StopRequested
      {
        ghost var rest := LoopOutcomes(rounds[n..]);
        FirstRound(rounds, n);
        var outcome := Dispatch(rounds[n]);
        if rounds[n].stop {
          is_read := false;
        }
        if outcome.Thrown? {
          return;
        }
        HandleFirst(shown, discarded, rest);
        match outcome {
          case Shown(msg) => shown := shown + [msg];
          case Discarded(data) => discarded := discarded + [data];
          case _ =>
        }
        n := n + 1;
      }
      ending := if is_read then Waiting else StopRequested;
    }
  }

  lemma FirstRound(rounds: seq<Round>, n: nat)
    requires n < |rounds|
    ensures var rest := LoopOutcomes(rounds[n..]);
      && rest != [] && rest[0] == RoundOutcome(rounds[n])
      && rest[1..] == if rounds[n].stop then [] else LoopOutcomes(rounds[n + 1..])
    ensures LoopEnding(rounds[n..])
            == if RoundOutcome(rounds[n]).Thrown? then Escaped
               else if rounds[n].stop then StopRequested
               else LoopEnding(rounds[n + 1..])
  {
    assert rounds[n..][1..] == rounds[n + 1..];
  }

  /** One round of the read loop: the read and what its message is dispatched to. */
  method Dispatch(round: Round) returns (outcome: Outcome)
    ensures outcome == RoundOutcome(round)
  {
    if round.read.None? {
      return Thrown;
    }
    var scmsg := ReadScMessage(round.read.value);
    if scmsg.None? {
      return Thrown;
    }
    if scmsg.value.kind == MESSAGE {
      var src := scmsg.value.GetProperty("message[0]");
      if src.None? {
        return Thrown;
      }
      var msg := ChatMessages.Deserialize(src.value);
      if msg.None? {
        return Thrown;
      }
      return Shown(msg.value);
    } else if scmsg.value.kind == END {
      ReceivedEnd(round.read.value);
      return Discarded(scmsg.value.GetProperty("data").value);
    }
    return Ignored;
  }

  // ----- what a user may send

  predicate HasWhitespace(s: string) {
    '\t' in s || '\n' in s || ' ' in s
  }

  /** What becomes of a text: refused, not sent for want of a connection, or written with or without an error. */
  datatype SendResult = Refused | NoConnection | Sent(frame: string, error: bool)

  /** Exactly the texts that a line of the account file can carry pass the check, but for the tab. */
  lemma WhitespaceIff(s: string)
    ensures !HasWhitespace(s) <==> Plain(s) && '\t' !in s
  {
  }

  class IrcClientApp {
    var username: string
    const chat_rw: ChatRw

    constructor (chat_rw: ChatRw)
      ensures this.chat_rw == chat_rw && username == ""
    {
      this.chat_rw := chat_rw;
      username := "";
    }

    /** `Login` and `Register`: names and passwords with white space are refused before anything is written. */
    method Authenticate(kind: ScType, name: string, password: string, reply: Option<string>)
      returns (written: string, allowed: bool, result: AuthResult)
      requires kind == LOGIN || kind == REGISTER
      modifies this`username, chat_rw`con_state
      ensures allowed <==> !HasWhitespace(name) && !HasWhitespace(password)
      ensures allowed ==> result == if old(chat_rw.con_state) == NotConnected then ConnectionFailure
                                    else AuthResultOf(kind, reply)
      ensures written == if !allowed || result == ConnectionFailure then ""
                         else Frame(GetAuthScMessage(kind, name, password).value)
      ensures chat_rw.con_state == if allowed then ConStateAfter(old(chat_rw.con_state), result)
                                   else old(chat_rw.con_state)
      ensures username == if allowed && result == Answer(true) then name else old(username)
      ensures allowed && result == Answer(true) ==> chat_rw.con_state == LoggedIn
      ensures allowed && result == SocketError ==> chat_rw.con_state == NotConnected
      ensures !(allowed && (result == Answer(true) || result == SocketError)) ==>
                chat_rw.con_state == old(chat_rw.con_state)
      ensures allowed && old(chat_rw.con_state) != NotConnected ==> (reply.None? <==> result == SocketError)
    {
      if HasWhitespace(name) || HasWhitespace(password) {
        return "", false, InvalidType;
      }
      allowed := true;
      written, result := chat_rw.Auth(kind, name, password, reply);
      if result == Answer(true) {
        username := name;
      }
    }

    /** The text is checked first, then the connection; a socket error leaves the state as it is. */
    method WriteMessage(text: string, now: Stamp, fails: bool) returns (result: SendResult)
      ensures result == if US in text then Refused
                        else if chat_rw.con_state == NotConnected then NoConnection
                        else Sent(Frame(GetMessageScMessage(Message(username, text, now))), fails)
    {
      if US in text {
        return Refused;
      }
      if chat_rw.con_state == NotConnected {
        return NoConnection;
      }
      var scmsg := ScMessages.Serialize(GetMessageScMessage(Message(username, text, now)));
      return Sent(scmsg + [NUL], fails);
    }
  }
}
