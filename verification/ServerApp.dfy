/**
 * The server's objects. `ChatRoom.View()` is the state of the step system that they stand for; every
 * handler is proved to change it by the step of its event.
 */
module ServerApp {
  import opened Wrappers
  import opened Text
  import opened Tables
  import opened Times
  import opened ScMessages
  import opened ChatMessages
  import opened Accounts
  import opened Protocol
  import opened Invariants
  import opened Guarantees

  class Session {
    const chat_room: ChatRoom
    const auth_manager: FileAuthManager
    var con_state: ConState
    var username: string
    var read_buffer: string
    var msg_queue: seq<ScMessage>

    /** The asynchronous operations that are pending: one on the reading side, one queue write. */
    var reading: Reading
    var writing: Option<string>

    /** The session's place in the order of acceptance, and its past. */
    ghost const id: nat
    ghost var past: Past

    constructor (chat_room: ChatRoom, auth_manager: FileAuthManager)
      ensures this.chat_room == chat_room && this.auth_manager == auth_manager
      ensures id == |chat_room.accepted|
      ensures State() == Fresh(|chat_room.log|).(con := NotConnected, reading := Stopped)
    {
      this.chat_room, this.auth_manager := chat_room, auth_manager;
      con_state, username, read_buffer, msg_queue := NotConnected, "", "", [];
      reading, writing := Stopped, None;
      id, past := |chat_room.accepted|, Past(|chat_room.log|, None, [], false, [], false, []);
    }

    ghost function State(): SessionState
      reads this
    {
      SessionState(con_state, username, read_buffer, msg_queue, reading, writing, past)
    }

    /** Is this the completion of an operation that the session has pending? */
    predicate Pending(e: Event)
      reads this
    {
      match e
      case Accept => false
      case HandshakeDone(_, _) => reading == Handshake
      case AuthReadDone(_, error, more) => reading == AuthRead && (!error ==> ReadCompletes(read_buffer, more))
      case AuthReplyDone(_, _) => reading.AuthReply?
      case ChatReadDone(_, error, more, _) => reading == ChatRead && (!error ==> ReadCompletes(read_buffer, more))
      case QueueWriteDone(_, _) => writing.Some? && msg_queue != []
    }

    /** The session has been accepted and the objects around it are consistent. */
    ghost predicate Ready()
      reads this, chat_room, chat_room.accepted
    {
      chat_room.Valid() && id < |chat_room.accepted| && chat_room.accepted[id] == this && auth_manager == chat_room.auth
    }

    method Start()
      modifies this`con_state, this`reading
      ensures State() == old(State()).(con := Connected, reading := Handshake)
    {
      con_state := Connected;
      reading := Handshake;
    }

    method WriteScMessage(scmsg: ScMessage)
      modifies this`msg_queue, this`writing
      ensures State() == Enqueued(old(State()), scmsg)
    {
      var isWriting := msg_queue != [];
      msg_queue := msg_queue + [scmsg];
      if !isWriting {
        WriteScMessageHelper();
      }
    }

    /** Starts the write of the first message in the queue. */
    method WriteScMessageHelper()
      requires msg_queue != []
      modifies this`writing
      ensures writing == Some(Frame(msg_queue[0]))
    {
      var text := ScMessages.Serialize(msg_queue[0]);
      writing := Some(text + [NUL]);
    }

    /** The event loop calls the handler of a completed operation; `threw` ends the loop. */
    method Complete(e: Event) returns (threw: bool)
      requires Ready() && !e.Accept? && e.i == id && Pending(e) && !chat_room.aborted
      modifies this, chat_room, chat_room.accepted, auth_manager
      ensures Ready() && chat_room.accepted == old(chat_room.accepted)
      ensures chat_room.View() == Step(old(chat_room.View()), e)
      ensures threw <==> chat_room.aborted
    {
      threw := false;
      match e
      case HandshakeDone(_, error) => ReadLoginScMessage(error);
      case AuthReadDone(_, error, more) => threw := HandleAuthScMessage(error, more);
      case AuthReplyDone(_, error) => HandleAuthReply(error);
      case ChatReadDone(_, error, more, now) => threw := HandleScMessage(error, more, now);
      case QueueWriteDone(_, error) => HandleQueueWrite(error);
    }

    /** The completion of a queue write. */
    method HandleQueueWrite(error: bool)
      requires Ready() && writing.Some? && msg_queue != []
      modifies this, chat_room
      ensures Ready() && chat_room.accepted == old(chat_room.accepted)
      ensures chat_room.View() == Written(old(chat_room.View()), id, error)
    {
      if !error {
        WriteNext();
        OnlyThis();
      } else {
        writing := None;
        past := past.(failed := true);
        LeaveRoom();
      }
    }

    /** Takes the written message off the queue and starts the next write. */
    method WriteNext()
      requires msg_queue != []
      modifies this`msg_queue, this`writing, this`past
      ensures State() == Popped(old(State()))
    {
      past := past.(sent := past.sent + [msg_queue[0]], wire := past.wire + [Chat(msg_queue[0])]);
      msg_queue := msg_queue[1..];
      writing := None;
      if msg_queue != [] {
        WriteScMessageHelper();
      }
    }

    /** What every failed completion does: the session is NotConnected and no member. */
    method LeaveRoom()
      requires Ready()
      modifies this`con_state, this`past, chat_room`sessions
      ensures Ready() && chat_room.accepted == old(chat_room.accepted)
      ensures State() == Dropped(old(State()), this in old(chat_room.sessions), |chat_room.log|)
      ensures chat_room.View() == Remove(old(chat_room.View()), id)
    {
      con_state := NotConnected;
      chat_room.RemoveSession(this);
      OnlyThis();
    }

    /** When only this session has changed, the view has changed in its place only. */
    twostate lemma OnlyThis()
      requires old(Ready()) && Ready() && chat_room.accepted == old(chat_room.accepted)
      requires forall s :: s in chat_room.accepted && s != this ==> s.State() == old(s.State())
      ensures chat_room.View().sessions == old(chat_room.View()).sessions[id := State()]
      ensures chat_room.sessions == old(chat_room.sessions) ==> chat_room.View().room == old(chat_room.View()).room
      ensures chat_room.sessions == old(chat_room.sessions) - {this} ==>
                chat_room.View().room == old(chat_room.View()).room - {id}
    {
    }

    /** The reading side ends with an error: the session leaves the room. */
    method Disconnect()
      requires Ready()
      modifies this, chat_room
      ensures Ready() && chat_room.accepted == old(chat_room.accepted)
      ensures chat_room.View() == Stop(old(chat_room.View()), id)
    {
      reading := Stopped;
      OnlyThis();
      LeaveRoom();
    }

    /** `async_read_until` has appended bytes to the buffer. */
    method Receive(more: string)
      requires Ready()
      modifies this`read_buffer
      ensures Ready() && read_buffer == old(read_buffer) + more
      ensures chat_room.View() == Filled(old(chat_room.View()), id, false, more)
    {
      read_buffer := read_buffer + more;
      OnlyThis();
    }

    method ReadLoginScMessage(error: bool)
      requires Ready()
      modifies this, chat_room
      ensures Ready() && chat_room.accepted == old(chat_room.accepted)
      ensures chat_room.View() == ReadLogin(old(chat_room.View()), id, error)
    {
      if !error {
        reading := AuthRead;
        OnlyThis();
      } else {
        Disconnect();
      }
    }

    method ReadScMessage(error: bool)
      requires Ready()
      modifies this, chat_room
      ensures Ready() && chat_room.accepted == old(chat_room.accepted)
      ensures chat_room.View() == ReadChat(old(chat_room.View()), id, error)
    {
      if error {
        Disconnect();
      } else {
        read_buffer := "";
        reading := ChatRead;
        OnlyThis();
      }
    }

    /**
     * An authentication frame has arrived: `more` are the bytes that the read appended. `threw` is set
     * where an exception leaves the handler.
     */
    method HandleAuthScMessage(error: bool, more: string) returns (threw: bool)
      requires Ready()
      modifies this, chat_room, auth_manager
      ensures Ready() && chat_room.accepted == old(chat_room.accepted)
      ensures chat_room.View() == HandleAuth(Filled(old(chat_room.View()), id, error, more), id, error)
      ensures threw ==> chat_room.aborted
      ensures !threw ==> chat_room.aborted == old(chat_room.aborted)
    {
      threw := false;
      if error {
        Disconnect();
      } else {
        Receive(more);
        threw := ParseAuth();
      }
    }

    method ParseAuth() returns (threw: bool)
      requires Ready()
      modifies this, chat_room, auth_manager
      ensures Ready() && chat_room.accepted == old(chat_room.accepted)
      ensures chat_room.View() == HandleAuth(old(chat_room.View()), id, false)
      ensures threw ==> chat_room.aborted
      ensures !threw ==> chat_room.aborted == old(chat_room.aborted)
    {
      assert chat_room.View().sessions[id].buffer == read_buffer;
      var parsed := ScMessages.Deserialize(read_buffer);
      if !parsed.Accepted? {
        chat_room.aborted := true;
        return true;
      }
      threw := Answer(parsed.msg);
    }

    /** The part of the handler after parsing: checks the credentials and starts the reply. */
    method Answer(scmsg: ScMessage) returns (threw: bool)
      requires Ready()
      modifies this, chat_room, auth_manager
      ensures Ready() && chat_room.accepted == old(chat_room.accepted)
      ensures chat_room.View() == Authenticate(old(chat_room.View()), id, scmsg)
      ensures threw ==> chat_room.aborted
      ensures !threw ==> chat_room.aborted == old(chat_room.aborted)
    {
      var success := false;
      threw := false;
      if scmsg.kind == LOGIN || scmsg.kind == REGISTER {
        var name, password := scmsg.GetProperty("username"), scmsg.GetProperty("password");
        if name.None? || password.None? {
          chat_room.aborted := true;
          return true;
        }
        if scmsg.kind == LOGIN {
          success := auth_manager.Login(name.value, password.value);
        } else {
          success := auth_manager.Register(name.value, password.value);
        }
        StartReply(scmsg.kind, success, name.value);
      } else {
        reading := AuthReply(FORMAT_FAILURE);
      }
      OnlyThis();
    }

    /** A success assigns the name; either way the answer's write is started. */
    method StartReply(kind: ScType, success: bool, name: string)
      modifies this`username, this`past, this`reading
      ensures State() == if success
                         then Granted(old(State()), name, if kind == LOGIN then LOGIN_SUCCESS else REGISTER_SUCCESS)
                         else old(State()).(reading := AuthReply(if kind == LOGIN then LOGIN_FAILURE
                                                                 else REGISTER_FAILURE))
    {
      if success {
        username := name;
        past := past.(granted := past.granted + [username]);
        reading := AuthReply(if kind == LOGIN then LOGIN_SUCCESS else REGISTER_SUCCESS);
      } else {
        reading := AuthReply(if kind == LOGIN then LOGIN_FAILURE else REGISTER_FAILURE);
      }
    }

    /** The completion of a reply, with the handler that was chosen with the answer. */
    method HandleAuthReply(error: bool)
      requires Ready() && reading.AuthReply?
      modifies this, chat_room
      ensures Ready() && chat_room.accepted == old(chat_room.accepted)
      ensures chat_room.View() == Replied(old(chat_room.View()), id, error)
    {
      var success := IsSuccess(reading.answer);
      RecordReply(error);
      OnlyThis();
      if success {
        ReadScMessage(error);
      } else {
        ReadLoginScMessage(error);
      }
    }

    /** After a success the session counts as logged in, even on an error. */
    method RecordReply(error: bool)
      requires reading.AuthReply?
      modifies this`con_state, this`past
      ensures var answered := Answered(old(State()), error);
        State() == if IsSuccess(reading.answer)
                   then answered.(con := LoggedIn, past := answered.past.(replied := !error))
                   else answered
    {
      past := Answered(State(), error).past;
      if IsSuccess(reading.answer) {
        con_state := LoggedIn;
        past := past.(replied := !error);
      }
    }

    /** A chat frame has arrived; `now` is the server's clock. */
    method HandleScMessage(error: bool, more: string, now: Stamp) returns (threw: bool)
      requires Ready() && reading == ChatRead
      modifies this, chat_room, chat_room.accepted
      ensures Ready() && chat_room.accepted == old(chat_room.accepted)
      ensures chat_room.View() == HandleChat(Filled(old(chat_room.View()), id, error, more), id, error, now)
      ensures threw ==> chat_room.aborted
      ensures !threw ==> chat_room.aborted == old(chat_room.aborted)
    {
      threw := false;
      if error {
        Disconnect();
      } else {
        Receive(more);
        threw := ParseChat(now);
      }
    }

    method ParseChat(now: Stamp) returns (threw: bool)
      requires Ready() && reading == ChatRead
      modifies this, chat_room, chat_room.accepted
      ensures Ready() && chat_room.accepted == old(chat_room.accepted)
      ensures chat_room.View() == HandleChat(old(chat_room.View()), id, false, now)
      ensures threw ==> chat_room.aborted
      ensures !threw ==> chat_room.aborted == old(chat_room.aborted)
    {
      assert chat_room.View().sessions[id].buffer == read_buffer;
      var parsed := ScMessages.Deserialize(read_buffer);
      if !parsed.Accepted? {
        chat_room.aborted := true;
        return true;
      }
      threw := HandleParsed(parsed.msg, now);
    }

    /** The part of the handler after parsing: posts a chat message and reads on. */
    method HandleParsed(scmsg: ScMessage, now: Stamp) returns (threw: bool)
      requires Ready() && reading == ChatRead
      modifies this, chat_room, chat_room.accepted
      ensures Ready() && chat_room.accepted == old(chat_room.accepted)
      ensures chat_room.View() == Converse(old(chat_room.View()), id, scmsg, now)
      ensures threw ==> chat_room.aborted
      ensures !threw ==> chat_room.aborted == old(chat_room.aborted)
    {
      threw := false;
      if scmsg.kind == MESSAGE {
        var src := scmsg.GetProperty("message[0]");
        if src.None? {
          chat_room.aborted := true;
          return true;
        }
        PostMessage(src.value, now);
      }
      ClearBuffer();
    }

    method ClearBuffer()
      requires Ready()
      modifies this`read_buffer
      ensures Ready()
      ensures chat_room.View() == With(old(chat_room.View()), id, old(State()).(buffer := ""))
    {
      read_buffer := "";
      OnlyThis();
    }

    /** Restamps a message that parses and hands it to the room; `invalid_argument` is caught and ignored. */
    method PostMessage(src: string, now: Stamp)
      requires Ready() && reading == ChatRead
      modifies chat_room, chat_room.accepted
      ensures Ready() && chat_room.accepted == old(chat_room.accepted)
      ensures reading == ChatRead && chat_room.aborted == old(chat_room.aborted)
      ensures chat_room.View() == Post(old(chat_room.View()), id, src, now)
    {
      var msg := ChatMessages.Deserialize(src);
      if msg.Some? {
        var name := msg.value.username;
        if name != username {
          name := username;
        }
        ghost var d := Stamped(username, id, msg.value.text, now);
        chat_room.DeliverScMessage(GetMessageScMessage(Message(name, msg.value.text, now)), d);
      }
    }
  }

  ghost function States(sessions: seq<Session>): (states: seq<SessionState>)
    reads sessions
    ensures |states| == |sessions|
    ensures forall i :: 0 <= i < |sessions| ==> states[i] == sessions[i].State()
  {
    seq(|sessions|, i requires 0 <= i < |sessions| reads sessions => sessions[i].State())
  }

  class ChatRoom {
    var sessions: set<Session>

    /** Every session ever accepted: the handlers that the event loop holds keep them alive. */
    var accepted: seq<Session>

    /** The account table they share, all deliveries, and whether a handler threw. */
    ghost const auth: FileAuthManager
    ghost var log: seq<Delivery>
    ghost var aborted: bool

    constructor (auth: FileAuthManager)
      ensures Valid() && this.auth == auth && accepted == []
      ensures View() == Protocol.Start(auth.State())
    {
      this.auth := auth;
      sessions, accepted, log, aborted := {}, [], [], false;
    }

    ghost predicate Valid()
      reads this, accepted
    {
      && (forall i :: 0 <= i < |accepted| ==>
            accepted[i].id == i && accepted[i].chat_room == this && accepted[i].auth_manager == auth)
      && (forall s :: s in sessions ==> s in accepted)
    }

    ghost function View(): Server
      reads this, accepted, auth
    {
      Server(States(accepted),
             (set i | 0 <= i < |accepted| && accepted[i] in sessions),
             auth.State(), log, aborted)
    }

    method RemoveSession(session: Session)
      modifies this`sessions, session`past
      ensures sessions == old(sessions) - {session}
      ensures session.past == old(session.past).(left := if session in old(sessions) then Some(|log|)
                                                         else old(session.past).left)
    {
      ghost var member := session in sessions;
      sessions := sessions - {session};
      session.past := session.past.(left := if member then Some(|log|) else session.past.left);
    }

    /** Hands the message to every session in the room, in the order the set yields them. */
    method DeliverScMessage(msg: ScMessage, ghost d: Delivery)
      requires Valid() && d.msg == msg
      modifies this`log, sessions
      ensures Valid() && View() == Deliver(old(View()), d)
    {
      log := log + [d];
      var rest := sessions;
      while rest != {}
        invariant rest <= sessions && Valid()
        invariant log == old(log) + [d]
        invariant forall i :: 0 <= i < |accepted| ==>
                    accepted[i].State() == (if accepted[i] in sessions - rest
                                            then Enqueued(old(accepted[i].State()), msg)
                                            else old(accepted[i].State()))
        decreases rest
      {
        var session :| session in rest;
        session.WriteScMessage(msg);
        rest := rest - {session};
      }
      Delivered(d);
    }

    /** When every member has the message in its queue and the others are as before, it is delivered. */
    twostate lemma Delivered(d: Delivery)
      requires accepted == old(accepted) && sessions == old(sessions)
      requires log == old(log) + [d] && aborted == old(aborted) && auth.State() == old(auth.State())
      requires forall i :: 0 <= i < |accepted| ==>
                 accepted[i].State() == if accepted[i] in sessions then Enqueued(old(accepted[i].State()), d.msg)
                                        else old(accepted[i].State())
      ensures View() == Deliver(old(View()), d)
    {
      assert View().room == old(View()).room;
      assert View().sessions == Deliver(old(View()), d).sessions;
    }

    method AddSession(session: Session)
      requires Valid() && session.id == |accepted| && session.chat_room == this && session.auth_manager == auth
      modifies this`sessions, this`accepted
      ensures Valid() && accepted == old(accepted) + [session]
      ensures sessions == old(sessions) + {session}
    {
      sessions := sessions + {session};
      accepted := accepted + [session];
    }

    /** When a session has been added and the others are as before, the view has one session more. */
    twostate lemma OneMore(new session: Session)
      requires old(Valid()) && Valid() && accepted == old(accepted) + [session]
      requires sessions == old(sessions) + {session} && session !in old(accepted)
      requires forall s :: s in old(accepted) ==> s.State() == old(s.State())
      ensures View().sessions == old(View()).sessions + [session.State()]
      ensures View().room == old(View()).room + {|old(accepted)|}
    {
    }
  }

  class IrcServerApp {
    const chat_room: ChatRoom
    const auth_manager: FileAuthManager

    constructor (auth_manager: FileAuthManager)
      ensures this.auth_manager == auth_manager && chat_room.auth == auth_manager && fresh(chat_room)
      ensures chat_room.Valid() && chat_room.View() == Protocol.Start(auth_manager.State())
    {
      this.auth_manager := auth_manager;
      chat_room := new ChatRoom(auth_manager);
    }

    /** An accepted connection joins the room and starts; a failed one is dropped. */
    method HandleAccept(error: bool)
      requires chat_room.Valid() && chat_room.auth == auth_manager
      modifies chat_room
      ensures chat_room.Valid() && chat_room.aborted == old(chat_room.aborted)
      ensures chat_room.View() == if error then old(chat_room.View()) else Admitted(old(chat_room.View()))
      ensures forall i :: 0 <= i < |chat_room.accepted| ==>
          chat_room.accepted[i] in old(chat_room.accepted) || fresh(chat_room.accepted[i])
    {
      if !error {
        var newSession := new Session(chat_room, auth_manager);
        chat_room.AddSession(newSession);
        newSession.Start();
        chat_room.OneMore(newSession);
      }
    }

    /** One event of the loop; a completion of nothing that is pending changes nothing. */
    method Handle(e: Event) returns (threw: bool)
      requires chat_room.Valid() && chat_room.auth == auth_manager && !chat_room.aborted
      modifies chat_room, chat_room.accepted, auth_manager
      ensures chat_room.Valid()
      ensures chat_room.View() == Step(old(chat_room.View()), e)
      ensures threw <==> chat_room.aborted
      ensures forall i :: 0 <= i < |chat_room.accepted| ==>
          chat_room.accepted[i] in old(chat_room.accepted) || fresh(chat_room.accepted[i])
    {
      threw := false;
      if e.Accept? {
        HandleAccept(false);
      } else if e.i < |chat_room.accepted| && chat_room.accepted[e.i].Pending(e) {
        threw := chat_room.accepted[e.i].Complete(e);
      }
    }

    /** `io_service::run`: handles the events of a run until a handler throws. */
    method Run(events: seq<Event>)
      requires chat_room.Valid() && chat_room.auth == auth_manager && !chat_room.aborted
      modifies chat_room, chat_room.accepted, auth_manager
      ensures chat_room.Valid()
      ensures chat_room.View() == After(old(chat_room.View()), events)
    {
      ghost var start := chat_room.View();
      var threw := false;
      for n := 0 to |events|
        invariant chat_room.Valid() && (threw <==> chat_room.aborted)
        invariant chat_room.View() == After(start, events[..n])
        invariant forall i :: 0 <= i < |chat_room.accepted| ==>
          chat_room.accepted[i] in old(chat_room.accepted) || fresh(chat_room.accepted[i])
      {
        if threw {
          AbortedEarly(start, events, n);
          return;
        }
        AfterLast(start, events, n);
        threw := Handle(events[n]);
      }
      assert events[..|events|] == events;
    }
  }

  lemma AbortedEarly(s: Server, events: seq<Event>, n: nat)
    requires n <= |events| && After(s, events[..n]).aborted
    ensures After(s, events) == After(s, events[..n])
  {
    assert events == events[..n] + events[n..];
    AfterAppend(s, events[..n], events[n..]);
    AbortedStays(After(s, events[..n]), events[n..]);
  }

  /** What a session object was given is its part of the log: written messages, then its queue. */
  ghost predicate OrderKept(room: ChatRoom, session: Session)
    reads room, session
  {
    var end := End(session.past, room.log);
    && session.past.joined <= end <= |room.log|
    && session.past.sent + session.msg_queue == Msgs(room.log[session.past.joined..end])
    && (session in room.sessions <==> session.past.left.None?)
  }

  /**
   * A server on this account table that has handled any events: its objects are in the state of that
   * run, so every theorem about runs holds of them; the order of broadcast is stated for the objects.
   */
  method Serve(auth_manager: FileAuthManager, events: seq<Event>) returns (app: IrcServerApp)
    modifies auth_manager
    ensures app.chat_room.Valid()
    ensures app.chat_room.View() == After(Protocol.Start(old(auth_manager.State())), events)
    ensures forall session :: session in app.chat_room.accepted ==> OrderKept(app.chat_room, session)
  {
    app := new IrcServerApp(auth_manager);
    app.Run(events);
    ghost var room := app.chat_room;
    forall session | session in room.accepted ensures OrderKept(room, session) {
      var i :| 0 <= i < |room.accepted| && room.accepted[i] == session;
      TotalOrder(old(auth_manager.State()), events, i);
      assert room.View().sessions[i] == session.State();
    }
  }
}
