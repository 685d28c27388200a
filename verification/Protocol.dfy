/**
 * The server as a step system. One thread runs every completion handler, so a handler is one step.
 * An event is the completion of an asynchronous operation that a session has pending.
 */
module Protocol {
  import opened Wrappers
  import opened Text
  import opened Tables
  import opened Times
  import opened ScMessages
  import opened ChatMessages
  import opened Accounts

  // ----- state

  datatype ConState = NotConnected | Connected | LoggedIn

  /** The operation a session has pending on its reading side. */
  datatype Reading = Handshake | AuthRead | AuthReply(answer: ScType) | ChatRead | Stopped

  /** A write on a session's socket that completed: an authentication reply or a message of the queue. */
  datatype Wired = Reply(answer: ScType) | Chat(msg: ScMessage)

  /**
   * What happened to a session, for the theorems: the length of the log when it joined and left the
   * room, the messages written completely, whether a queue write failed, the names assigned to
   * `username_`, whether a success reply was written completely, and all completed writes in order.
   */
  datatype Past = Past(joined: nat, left: Option<nat>, sent: seq<ScMessage>, failed: bool,
                       granted: seq<string>, replied: bool, wire: seq<Wired>)

  /** `writing` holds the bytes of the queue write in flight. */
  datatype SessionState = SessionState(con: ConState, username: string, buffer: string, queue: seq<ScMessage>,
                                       reading: Reading, writing: Option<string>, past: Past)

  /** One call of `DeliverScMessage`: who sent what when, and the message handed to the room. */
  datatype Delivery = Delivery(sender: nat, text: string, time: Stamp, msg: ScMessage)

  /** A session is named by its place in the order of acceptance; it is never forgotten. */
  datatype Server = Server(sessions: seq<SessionState>, room: set<nat>, auth: AuthState, log: seq<Delivery>,
                           aborted: bool)

  function Fresh(joined: nat): SessionState {
    SessionState(Connected, "", "", [], Handshake, None, Past(joined, None, [], false, [], false, []))
  }

  function Start(auth: AuthState): Server {
    Server([], {}, auth, [], false)
  }

  // ----- what a handler does to its own session

  /** `con_state_ = NotConnected` and `RemoveSession`, at log length `now`. */
  function Dropped(ss: SessionState, member: bool, now: nat): SessionState {
    ss.(con := NotConnected, past := ss.past.(left := if member then Some(now) else ss.past.left))
  }

  /** `WriteScMessage`: a write is started only if the queue was empty. */
  function Enqueued(ss: SessionState, m: ScMessage): SessionState {
    ss.(queue := ss.queue + [m], writing := if ss.queue == [] then Some(Frame(m)) else ss.writing)
  }

  /** The completion of a queue write without error. */
  function Popped(ss: SessionState): SessionState
    requires ss.queue != []
  {
    var rest := ss.queue[1..];
    ss.(queue := rest,
        writing := if rest == [] then None else Some(Frame(rest[0])),
        past := ss.past.(sent := ss.past.sent + [ss.queue[0]], wire := ss.past.wire + [Chat(ss.queue[0])]))
  }

  function Granted(ss: SessionState, username: string, answer: ScType): SessionState {
    ss.(username := username, reading := AuthReply(answer), past := ss.past.(granted := ss.past.granted + [username]))
  }

  /** The reply is on the wire if it was written without error. */
  function Answered(ss: SessionState, error: bool): SessionState
    requires ss.reading.AuthReply?
  {
    if error then ss else ss.(past := ss.past.(wire := ss.past.wire + [Reply(ss.reading.answer)]))
  }

  function IsSuccess(answer: ScType): bool {
    answer == LOGIN_SUCCESS || answer == REGISTER_SUCCESS
  }

  // ----- what is on the wire

  /** The bytes of a reply: the bare type name and the terminator that `c_str()` supplies. */
  function ReplyFrame(answer: ScType): string {
    TypeToStr(answer) + [NUL]
  }

  function WireFrame(w: Wired): string {
    match w
    case Reply(answer) => ReplyFrame(answer)
    case Chat(msg) => Frame(msg)
  }

  function WireBytes(wire: seq<Wired>): string {
    if wire == [] then "" else WireFrame(wire[0]) + WireBytes(wire[1..])
  }

  // ----- what a handler does to the server

  function With(s: Server, i: nat, ss: SessionState): Server
    requires i < |s.sessions|
  {
    s.(sessions := s.sessions[i := ss])
  }

  function Remove(s: Server, i: nat): Server
    requires i < |s.sessions|
  {
    With(s, i, Dropped(s.sessions[i], i in s.room, |s.log|)).(room := s.room - {i})
  }

  /** A failed completion on the reading side: no read follows. */
  function Stop(s: Server, i: nat): Server
    requires i < |s.sessions|
  {
    Remove(With(s, i, s.sessions[i].(reading := Stopped)), i)
  }

  /** An exception leaves the handler and ends `io_service::run`. */
  function Abort(s: Server): Server {
    s.(aborted := true)
  }

  function Deliver(s: Server, d: Delivery): Server {
    s.(log := s.log + [d],
       sessions := seq(|s.sessions|, i requires 0 <= i < |s.sessions| =>
                         if i in s.room then Enqueued(s.sessions[i], d.msg) else s.sessions[i]))
  }

  function ReadLogin(s: Server, i: nat, error: bool): Server
    requires i < |s.sessions|
  {
    if error then Stop(s, i) else With(s, i, s.sessions[i].(reading := AuthRead))
  }

  ghost function HandleAuth(s: Server, i: nat, error: bool): Server
    requires i < |s.sessions|
  {
    if error then Stop(s, i)
    else
      match Decode(s.sessions[i].buffer)
      case Undefined => Abort(s)
      case Rejected => Abort(s)
      case Accepted(m) => Authenticate(s, i, m)
  }

  function Authenticate(s: Server, i: nat, m: ScMessage): Server
    requires i < |s.sessions|
  {
    var ss := s.sessions[i];
    if m.kind != LOGIN && m.kind != REGISTER then
      With(s, i, ss.(reading := AuthReply(FORMAT_FAILURE)))
    else if m.GetProperty("username").None? || m.GetProperty("password").None? then
      Abort(s)
    else
      var username, password := m.GetProperty("username").value, m.GetProperty("password").value;
      if m.kind == LOGIN then
        if LoginOk(s.auth.info, username, password) then With(s, i, Granted(ss, username, LOGIN_SUCCESS))
        else With(s, i, ss.(reading := AuthReply(LOGIN_FAILURE)))
      else
        var t := s.(auth := AfterRegister(s.auth, username, password));
        if RegisterOk(s.auth.info, username) then With(t, i, Granted(ss, username, REGISTER_SUCCESS))
        else With(t, i, ss.(reading := AuthReply(REGISTER_FAILURE)))
  }

  function ReadChat(s: Server, i: nat, error: bool): Server
    requires i < |s.sessions|
  {
    if error then Stop(s, i) else With(s, i, s.sessions[i].(buffer := "", reading := ChatRead))
  }

  /** The completion of a reply: after a success the session counts as logged in, even on an error. */
  function Replied(s: Server, i: nat, error: bool): Server
    requires i < |s.sessions| && s.sessions[i].reading.AuthReply?
  {
    var ss := Answered(s.sessions[i], error);
    if IsSuccess(ss.reading.answer) then
      ReadChat(With(s, i, ss.(con := LoggedIn, past := ss.past.(replied := !error))), i, error)
    else ReadLogin(With(s, i, ss), i, error)
  }

  ghost function HandleChat(s: Server, i: nat, error: bool, now: Stamp): Server
    requires i < |s.sessions|
  {
    if error then Stop(s, i)
    else
      match Decode(s.sessions[i].buffer)
      case Undefined => Abort(s)
      case Rejected => Abort(s)
      case Accepted(m) => Converse(s, i, m, now)
  }

  /** Messages of other types are ignored; either way the next read starts with an empty buffer. */
  function Converse(s: Server, i: nat, m: ScMessage, now: Stamp): Server
    requires i < |s.sessions|
  {
    if m.kind == MESSAGE && m.GetProperty("message[0]").None? then Abort(s)
    else
      var t := if m.kind == MESSAGE then Post(s, i, m.GetProperty("message[0]").value, now) else s;
      With(t, i, t.sessions[i].(buffer := ""))
  }

  /** A message that parses is stamped with the session's name and the server's time; others are ignored. */
  function Post(s: Server, i: nat, src: string, now: Stamp): Server
    requires i < |s.sessions|
  {
    var parsed := Parse(src);
    if parsed.None? then s
    else Deliver(s, Stamped(s.sessions[i].username, i, parsed.value.text, now))
  }

  function Stamped(username: string, sender: nat, text: string, now: Stamp): Delivery {
    Delivery(sender, text, now, GetMessageScMessage(Message(username, text, now)))
  }

  function Written(s: Server, i: nat, error: bool): Server
    requires i < |s.sessions| && s.sessions[i].queue != []
  {
    var ss := s.sessions[i];
    if error then Remove(With(s, i, ss.(writing := None, past := ss.past.(failed := true))), i)
    else With(s, i, Popped(ss))
  }

  // ----- events

  datatype Event =
    | Accept
    | HandshakeDone(i: nat, error: bool)
    | AuthReadDone(i: nat, error: bool, more: string)
    | AuthReplyDone(i: nat, error: bool)
    | ChatReadDone(i: nat, error: bool, more: string, now: Stamp)
    | QueueWriteDone(i: nat, error: bool)

  /** `async_read_until` appends to the buffer until a NUL is in it, and nothing if one is there already. */
  predicate ReadCompletes(buffer: string, more: string) {
    NUL in buffer + more && (NUL in buffer ==> more == "")
  }

  /** The events that can happen: completions of pending operations, until the run is aborted. */
  predicate Enabled(s: Server, e: Event) {
    && !s.aborted
    && (e.Accept? || e.i < |s.sessions|)
    && match e
       case Accept => true
       case HandshakeDone(i, _) => s.sessions[i].reading == Handshake
       case AuthReadDone(i, error, more) =>
         s.sessions[i].reading == AuthRead && (!error ==> ReadCompletes(s.sessions[i].buffer, more))
       case AuthReplyDone(i, _) => s.sessions[i].reading.AuthReply?
       case ChatReadDone(i, error, more, _) =>
         s.sessions[i].reading == ChatRead && (!error ==> ReadCompletes(s.sessions[i].buffer, more))
       case QueueWriteDone(i, _) => s.sessions[i].writing.Some? && s.sessions[i].queue != []
  }

  function Filled(s: Server, i: nat, error: bool, more: string): Server
    requires i < |s.sessions|
  {
    if error then s else With(s, i, s.sessions[i].(buffer := s.sessions[i].buffer + more))
  }

  function Admitted(s: Server): Server {
    s.(sessions := s.sessions + [Fresh(|s.log|)], room := s.room + {|s.sessions|})
  }

  ghost function Step(s: Server, e: Event): Server {
    if !Enabled(s, e) then s
    else
      match e
      case Accept => Admitted(s)
      case HandshakeDone(i, error) => ReadLogin(s, i, error)
      case AuthReadDone(i, error, more) => HandleAuth(Filled(s, i, error, more), i, error)
      case AuthReplyDone(i, error) => Replied(s, i, error)
      case ChatReadDone(i, error, more, now) => HandleChat(Filled(s, i, error, more), i, error, now)
      case QueueWriteDone(i, error) => Written(s, i, error)
  }

  /** A run; an event that cannot happen changes nothing. */
  ghost function After(s: Server, events: seq<Event>): Server
    decreases events
  {
    if events == [] then s else After(Step(s, events[0]), events[1..])
  }
}
