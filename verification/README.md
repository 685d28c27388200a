# tyfirc: a verified model of the chat server and its wire format

tyfirc is a small chat server with a client library. A client connects, logs in or registers, and then
sends text; the server stamps each text with the sender's authenticated name and its own time and hands
it to every session in the room. This project models that in Dafny and proves what a user of the system
relies on: every member sees the same messages in the same order, with the right author and the exact
text, and accounts survive an orderly restart; where a promise has conditions, the exact ones are proved.

## How it is built

| file | what it holds |
|---|---|
| `Text.dfy` | `find`, `getline` splitting, joining, cutting a stream into frames |
| `Tables.dfy` | `std::map<string, string>` as its key-sorted iteration sequence |
| `ScMessages.dfy` | the frame format: printing, parsing, its language, round trips, streams |
| `Times.dfy`, `ChatMessages.dfy` | the fixed time format and the three-line chat message inside a frame |
| `MessagePacks.dfy` | packs of messages sorted by time and the five paths of `Insert` |
| `Accounts.dfy`, `Restart.dfy` | the account file: load, register, overwrite, reload, over any number of runs |
| `Protocol.dfy` | the server as a step system: state, events, one step per completion handler |
| `Invariants.dfy`, `Growth.dfy` | what every step keeps, and what a run only ever adds to |
| `Guarantees.dfy` | theorems over all runs: order, write queue, identity, retries, draining |
| `ServerApp.dfy` | `Session`, `ChatRoom`, `IrcServerApp` as classes, each handler proved to be its step |
| `Client.dfy` | the client's login exchange, read loop and input checks |
| `ShownFrames.dfy` | what a client makes of the frame of any chat message |
| `EndToEnd.dfy` | requests, texts and deliveries, frame by frame |
| `Wires.dfy`, `Streams.dfy` | all bytes written to a client, replies and messages, and what its login and read loop make of them |
| `Journey.dfy` | from the text one client sends to the text every member's client is shown |
| `TypedAccounts.dfy` | what the client's check of names and passwords is good for |
| `Scenarios.dfy` | runs that show why some promises need their conditions |

One thread runs the server's event loop, so a completion handler is one step. `Protocol.Step` is defined
for every event; an event that cannot happen (nothing of that kind is pending, or the run has ended)
changes nothing, so a statement over all event sequences is a statement over all runs. An asynchronous
write captures its bytes when it starts and completes later, with or without an error. A read appends
arbitrary bytes to the session's buffer until a NUL is in it, so bytes beyond the terminator and the
buffer that the login path does not clear are both covered. A handler that lets an exception escape ends
the run (`aborted`); so does a buffer on which `Deserialize` has no defined meaning in C++ (no last
block, or an empty one, to erase a character from). The field `past` of a session, which
keeps its completed writes in order (`wire`), and the log exist for the theorems only.

The classes in `ServerApp.dfy` carry the fields of the C++ classes and, as ghost state, the log and each
session's past; `accepted` lists the sessions that the event loop's handlers keep alive. `ChatRoom.View()`
is the step-system state they stand for. `IrcServerApp.Run` handles the events of any run and is proved to
end in the view `After(..)` of that run, so theorems about runs are theorems about the objects; `Serve`
states one of them, the order of broadcast, for the objects themselves. `ScMessage` is copied wherever the
source uses it, so it is a value here, as are messages.

## Results that differ from what one might expect

- `Insert` is the stable merge except when a batch of two or more is put in front of the pack and its last
  time equals the pack's first time; then newer messages precede older ones of that instant
  (`InsertedIsMergeIff`, `PrependTieReorders`).
- The untruncated overwrite of the account file is right for files with distinct names. For a file that lists
  a name twice it can leave old text behind, and `DurableIff` says exactly when that matters
  (`Durable`, `DuplicateNameNotDurable`).
- The account file is written only by the destructor of `FileAuthManager`. Nothing catches an exception that
  leaves a handler, so a refused frame from any client calls `std::terminate`, which promises no destructors;
  the model takes it that the file stays as it was, and every registration of the run is then lost (`RunAbortsIff`, `AccountsSurviveIff`, `RegistrationLost`).
- After a refused login the server says "try again" but reads no new frame: the old one stays in the buffer and
  is handled again, with the same answer for ever unless another session registers that name with that
  password (`RetryReadsOldFrame`, `RetryAcceptedIff`, `RefusalRepeats`). The source comment promises a retry;
  the model follows the code.
- A session is in the room from the moment it is accepted, so deliveries can be written to a client before its
  login reply. `Auth` takes the first frame for the answer: the client then reports a failure although the server
  has granted the name, and it is never shown that delivery (`ReportAgreesIff`, `LoginEndToEnd`, `LoginMissed`).
- One read may bring several chat frames; they are parsed as one message, and only the last text is delivered
  (`MergedFrames`, `ReadDeliversLastText`).
- The client refuses white space in credentials but not ASCII 31. Behind one, a block without a colon and a space
  ends the server's run, and a well-formed one sets a property (`RequestParses`, `AnyCredentials`).
- A session whose queue write fails before it is told of its login can still log in, outside the room, and
  post to it (`ConnectedOutsideRoomIff`, `PostsFromOutside`).
- The format comment says that property names should not repeat. The parser accepts repeats and the last
  one counts (`AcceptedLanguage`).
- An empty user name is shown as a dash, a name with a newline breaks its messages, and a NUL in a name or text
  makes a client read several frames where one was sent; `FrameOutcomes` says what is shown in every case,
  and `FrameShown`, `FaithfulDelivery` and `StreamFidelity` when it is the message itself.

## Model

| member | source | states |
|---|---|---|
| Text.Split | tyfirc/tyfirc-misc.cpp:18-26 | The splitting loop yields the tokens of repeated `getline`, where an empty last block is dropped. |
| Text.TokensOfTerminated | tyfirc/tyfirc-misc.cpp:22-24 | With one character after the last block, `getline` splitting loses no block: it gives all fields of the text, the last one extended by that character. |
| Tables.LessIff | tyfirc/tyfirc-scmessage.h:72 | The order of keys: a proper prefix comes first, and otherwise the first character that differs decides. |
| Tables.SameLookups | tyfirc/tyfirc-scmessage.h:72 | Two ordered tables that answer every lookup alike iterate alike, so a map's contents fix its printed form. |
| Tables.GetSetAll | tyfirc/tyfirc-scmessage.h:64-66 | After any sequence of assignments a lookup gives the value of the last assignment to the key, else the old value. |
| ScMessages.TypeNamed | tyfirc/tyfirc-scmessage.cpp:51-65 | A block names a type exactly when its text up to the first NUL is that type's name. |
| ScMessages.Serialize | tyfirc/tyfirc-scmessage.cpp:67-74 | The loop that appends separators and erases the last one prints the type and property blocks joined by ASCII 31. |
| ScMessages.ParseProperty | tyfirc/tyfirc-scmessage.cpp:33-43 | A block splits at its first colon, and is refused unless a space follows that colon. |
| ScMessages.Deserialize | tyfirc/tyfirc-scmessage.cpp:76-96 | The parsing loop computes, for every buffer, the message, the refusal or the undefined case of the decoding function. |
| ScMessages.DecodeOfEnded | tyfirc/tyfirc-scmessage.cpp:76-79 | Whatever character other than a separator ends the buffer is erased, and the rest is read as the blocks between its separators. |
| ScMessages.DecodeOfSeparated | tyfirc/tyfirc-scmessage.cpp:76-79 | A separator at the end of a buffer that does not follow another is not seen at all. |
| ScMessages.AcceptedLanguage | tyfirc/tyfirc-scmessage.cpp:33-96 | A NUL-terminated frame is accepted if and only if its first block is a type name up to its first NUL and every other block's first colon is followed by a space; each key then has the value of its last block. |
| ScMessages.AcceptedWellFormed | tyfirc/tyfirc-scmessage.cpp:76-96 | Every accepted message has a real type, keys without colon and separator and values without separator. |
| ScMessages.RoundTrip | tyfirc/tyfirc-scmessage.cpp:67-96 | Printing and parsing gives the message back if and only if it is well formed; empty keys and values included. |
| ScMessages.NormalForm | tyfirc/tyfirc-scmessage.cpp:67-96 | Printing an accepted message again and parsing that changes nothing. |
| ScMessages.CanonicalBytes | tyfirc/tyfirc-scmessage.h:64-66 | Equal types and equal last values of all properties give identical bytes, whatever the order and repetition of the calls. |
| ScMessages.StreamDecodes | tyfirc/tyfirc-scmessage.h:81-107 | Cutting the concatenation of any written frames at each NUL and parsing recovers exactly the sequence of messages if and only if all of them are well formed and free of NUL. |
| ScMessages.PrefixCode | tyfirc/tyfirc-scmessage.h:102-107 | The frame of a well-formed message that starts another's frame comes from the same message. |
| ScMessages.ReadScMessage | tyfirc/tyfirc-scmessage.h:81-98 | Whatever the buffer holds, also beyond the NUL: the parsed message, END with the whole buffer when parsing is refused, or no defined result. |
| ScMessages.UndefinedIff | tyfirc/tyfirc-scmessage.cpp:78-79 | Erasing the last character of the last block is undefined exactly for an empty buffer, a lone separator, and a buffer that ends in two separators. |
| ScMessages.ReceivedEnd | tyfirc/tyfirc-scmessage.h:89-97 | END is received exactly for refused buffers, and property "data" then holds the buffer as it came. |
| ScMessages.AuthProperties | tyfirc/tyfirc-scmessage.cpp:98-106 | An authentication message carries both credentials, and is well formed exactly when neither contains the separator. |
| Times.TimePointToStr | tyfirc/tyfirc-misc.cpp:40-48 | Filling the 20-byte buffer yields the 19 printed characters and one NUL. |
| Times.FormatLayout | tyfirc/tyfirc-misc.cpp:40-48 | The 19 printed characters are digits, but for two dots, a blank and two colons at fixed places. |
| Times.TimeRoundTrip | tyfirc/tyfirc-misc.cpp:40-67 | A printed time is parsed back to the same day, month, year, hour, minute and second. |
| Times.ReadIsPrintable | tyfirc/tyfirc-misc.cpp:40-67 | Every time that is read can be printed, but for years of fewer than four digits. |
| Times.TimeLanguage | tyfirc/tyfirc-misc.cpp:50-67 | The exact language of times that are read, and what each is read as: fields in range with one or two digits (four for the year), white space before the date and the clock time, and an ignored fraction. |
| ChatMessages.Serialize | tyfirc/tyfirc-msgpack.cpp:71-79 | The steps on the string give name (or dash), time and text on three lines, without the time buffer's NUL. |
| ChatMessages.Deserialize | tyfirc/tyfirc-msgpack.cpp:81-101 | The two searches and three cuts compute the parsing function, refusals included. |
| ChatMessages.ParseIff | tyfirc/tyfirc-msgpack.cpp:81-101 | A text is read as a message if and only if it is the name, a line that is read as the time, and the text, with a newline behind each of the first two and in neither of them. |
| ChatMessages.RefusedIff | tyfirc/tyfirc-msgpack.cpp:87-90 | A text is refused if and only if it has that form for no message; so one with fewer than two newlines is. |
| ChatMessages.PrintedParses | tyfirc/tyfirc-msgpack.cpp:71-101 | For a name without newline, text (newlines included) and time come back unchanged and an empty name comes back as a dash. |
| ChatMessages.MessageRoundTrip | tyfirc/tyfirc-msgpack.cpp:71-101 | A printed message is parsed back unchanged if and only if its name is not empty and has no newline. |
| ChatMessages.MessageFrameWellFormed | tyfirc/tyfirc-scmessage.cpp:108-112 | The frame around a message is well formed exactly when neither name nor text contains the separator, and free of NUL exactly when they are. |
| MessagePacks.MessagePack.constructor | tyfirc/tyfirc-msgpack.cpp:16-22 | A new pack is a sorted permutation of its messages. |
| MessagePacks.MessagePack.Insert | tyfirc/tyfirc-msgpack.cpp:33-67 | All five paths leave the stable merge with the old messages first, except the prepended batch that ties at the boundary; a batch that begins no earlier than the pack ends is appended, and one of several that ends no later than the pack begins is put in front of it. |
| MessagePacks.InsertedPaths | tyfirc/tyfirc-msgpack.cpp:33-67 | Each path by the times at the ends of pack and batch: appended, put in front, or the stable merge. |
| MessagePacks.MessagePack.Delete | tyfirc/tyfirc-msgpack.cpp:24-31 | A valid index removes and returns one message; an invalid one changes nothing. |
| MessagePacks.MergeUnique | tyfirc/tyfirc-msgpack.cpp:60-64 | The stable merge is the only sorted sequence that keeps, at each time, the first input's messages in order and then the second's. |
| MessagePacks.InsertedSorted | tyfirc/tyfirc-msgpack.cpp:33-67 | Insertion keeps the pack sorted, loses and invents no message, and keeps the order of each input within every time. |
| MessagePacks.InsertedIsMergeIff | tyfirc/tyfirc-msgpack.cpp:55-65 | Insertion is the stable merge if and only if no prepended batch ties at the boundary or the tied messages commute. |
| MessagePacks.PrependTieReorders | tyfirc/tyfirc-msgpack.cpp:57-58 | A concrete pack and batch for which the prepend path puts a newer message before an older one of the same time. |
| MessagePacks.ArrivalOrderStable | tyfirc/tyfirc-msgpack.cpp:36-46 | Messages inserted one by one form the stable sort of their arrival order. |
| MessagePacks.BatchingIndependent | tyfirc/tyfirc-msgpack.cpp:16-67 | Any two ways to batch and order the same messages give the same times, and the same pack when different messages have different times. |
| Accounts.FileAuthManager.Setup | tyfirc-server/tyfirc-authmanager.cpp:20-29 | Succeeds exactly for a file that can be opened and whose lines all parse, and only then keeps its name; without a file nothing changes. |
| Accounts.FileAuthManager.MapAuthInfoStr | tyfirc-server/tyfirc-authmanager.cpp:67-79 | The loading loop holds each name's last line if all lines parse, else exactly the lines before the first bad one. |
| Accounts.ParseLineIff | tyfirc-server/tyfirc-authmanager.cpp:71-77 | A line is read as the name before and the password behind its only space, or as both when it has none; two spaces are refused. |
| Accounts.BareLineLogin | tyfirc-server/tyfirc-authmanager.cpp:71-77 | A file line without a space, if no later line sets that name, allows the login with the name as its password, and with no other. |
| Accounts.FileAuthManager.Login | tyfirc-server/tyfirc-authmanager.cpp:31-39 | Succeeds exactly when the name is known with that password. |
| Accounts.FileAuthManager.Register | tyfirc-server/tyfirc-authmanager.cpp:41-53 | Adds an unknown name and marks the file outdated; a known name changes nothing. |
| Accounts.FileAuthManager.Destroy | tyfirc-server/tyfirc-authmanager.cpp:55-65 | If anything was registered and the file that setup read can be opened, the stream writes overwrite it from its start with the listing and leave the rest; no other file changes. |
| Accounts.LoginMeaning | tyfirc-server/tyfirc-authmanager.cpp:31-79 | After any run a login succeeds exactly with the password on the name's last file line or, for a name not in the file, of its first registration. |
| Accounts.FileFits | tyfirc-server/tyfirc-authmanager.cpp:60-78 | A file with distinct names is never longer than the listing of its table. |
| Accounts.ReloadIff | tyfirc-server/tyfirc-authmanager.cpp:60-78 | A written table is loaded back unchanged if and only if no field contains a space or a newline. |
| Accounts.DurableIff | tyfirc-server/tyfirc-authmanager.cpp:41-79 | For every readable file and any calls: the overwrite leaves exactly the listing iff the file is no longer than it, and a reload gives the same table iff every successful registration was free of spaces and newlines and any text left behind agrees with the table. |
| Accounts.Durable | tyfirc-server/tyfirc-authmanager.cpp:41-79 | From any file with distinct names nothing is ever left behind, so only spaces and newlines in registered fields can make a reload differ. |
| Accounts.DuplicateNameNotDurable | tyfirc-server/tyfirc-authmanager.cpp:57-63 | A concrete file with a repeated name whose overwrite leaves a character of the old text and reloads differently. |
| Restart.AccountsSurviveIff | tyfirc-server/tyfirc-authmanager.cpp:20-79 | For every readable file and every server run, also one that an exception ended: a restart finds the same accounts iff nobody registered, or the end wrote the file, all accounts are free of spaces and newlines, and text left behind agrees. |
| Restart.AccountsSurviveRestart | tyfirc-server/tyfirc-authmanager.cpp:20-79 | For a file with distinct names: the exact file contents after an orderly end and after an exception, and the exact condition for finding the same accounts. |
| Restart.ManyRuns | tyfirc-server/tyfirc-authmanager.cpp:20-79 | Over any number of runs from a file with distinct names, orderly or not, a login is accepted in the end iff the first file had that password for the name or an orderly run registered them, provided that orderly runs end without spaces and newlines in accounts. |
| TypedAccounts.ClientAccountsSurvive | tyfirc-client/tyfirc-ircclienapp.cpp:30-51 | If every request comes from a client that checks for white space, a restart after any run without exceptions finds exactly the accounts of the run. |
| TypedAccounts.TypedSeparatorEnds | tyfirc-client/tyfirc-ircclienapp.cpp:30-51 | A first request that passed the client's check ends the server's run if and only if a separator is left in the name or the password. |
| Scenarios.RegistrationLost | tyfirc-server/main.cpp:23-29 | From any readable file: a client registers a new name, is told so, and sends a refused frame; the program ends, the file is unchanged, and a restart refuses that login. |
| Invariants.ReachableInv | tyfirc-server/tyfirc-session.cpp:18-178 | Every reachable state satisfies the invariant on windows, write queues, session states, names and log. |
| Growth.OnlyGrows | tyfirc-server/tyfirc-session.cpp:18-178 | Whatever happens next, the log, accounts, written messages and assigned names only grow, and a failed session's queue is frozen. |
| Guarantees.TotalOrder | tyfirc-server/tyfirc-chatroom.cpp:12-24 | In every reachable state a session's completed writes followed by its queue are one contiguous window of the delivery log, from its join to its removal or now. |
| Guarantees.SameOrder | tyfirc-server/tyfirc-chatroom.cpp:12-16 | Two sessions that both saw two deliveries have them in the same order and at the same distance. |
| Guarantees.NothingLost | tyfirc-server/tyfirc-session.cpp:26-32 | Later events only append to what a session was given and has written, and give nothing to a session outside the room. |
| Guarantees.WriteDiscipline | tyfirc-server/tyfirc-session.cpp:26-178 | Without a failed queue write, messages wait exactly when one write is in flight, and it carries the frame of the first. |
| Guarantees.FailureIsFinal | tyfirc-server/tyfirc-session.cpp:161-178 | After a failed queue write the session is out of the room for good, starts no queue write again, and its queue stays as it is. |
| Guarantees.ReadFailureIsFinal | tyfirc-server/tyfirc-session.cpp:34-121 | A handshake, read or reply that fails can happen whenever it is pending; its session is then NotConnected, outside the room and reads nothing for the rest of the run, nothing more is queued for it, and no other session is touched. |
| Guarantees.StateMachine | tyfirc-server/tyfirc-session.h:73-76 | A member of the room is not NotConnected, LoggedIn needs a completed success reply, and a name is assigned at most once; while no queue write has failed, NotConnected, being outside the room and having ended its reads coincide, and so do LoggedIn and reading chat frames. |
| Guarantees.ConnectedOutsideRoomIff | tyfirc-server/tyfirc-session.cpp:161-178 | When a queue write fails at any moment of a run, at every later moment the session is outside the room, and it is not NotConnected exactly when it was told of its login only after the failure and still reads chat frames. |
| Scenarios.PostsFromOutside | tyfirc-server/tyfirc-session.cpp:88-92 | A run from the start in which a session whose queue write failed registers, is LoggedIn outside the room, and posts a text that the others get and it does not. |
| Guarantees.RepliedStep | tyfirc-server/tyfirc-session.cpp:88-92 | Only a success reply written without error makes a session count as told, and it is then LoggedIn. |
| Guarantees.GrantIsAuthenticated | tyfirc-server/tyfirc-session.cpp:59-92 | A name is assigned only by a frame that logs in with its password or registers it as a new name. |
| Guarantees.AuthenticatedIdentity | tyfirc-server/tyfirc-session.cpp:131-140 | Every delivery carries its sender's authenticated name, which is an account; neither changes later. |
| Guarantees.AccountsGrow | tyfirc-server/tyfirc-authmanager.cpp:41-53 | During a server run no account disappears and no password changes. |
| Guarantees.RetryReadsOldFrame | tyfirc-server/tyfirc-session.cpp:34-100 | Once a frame was read and no name granted, every later authentication of the session handles that same frame. |
| Guarantees.RetryAcceptedIff | tyfirc-server/tyfirc-session.cpp:34-100 | A later authentication on an old login frame succeeds exactly when it was acceptable before or another session has registered that name with that password in between. |
| Guarantees.RefusalRepeats | tyfirc-server/tyfirc-session.cpp:68-101 | While the table does not change, any number of rounds of handling a refused frame and writing its answer need no input and do nothing but send the client the same refusal that often. |
| Guarantees.DeliveryOrigin | tyfirc-server/tyfirc-session.cpp:124-149 | No message is invented or delivered twice: every log entry of a run was delivered by exactly one completed read, the one that found exactly the earlier entries in the log, and is that frame's text with the reader's name and the time of the read. |
| Guarantees.RunAbortsIff | tyfirc-server/tyfirc-session.cpp:60-140 | A run is cut short exactly when at some moment a read completes with a frame that is refused, lacks a property its handler needs, or on which erasing the last character is undefined in C++. |
| Guarantees.DrainBound | tyfirc-server/tyfirc-session.cpp:161-172 | Each completion takes exactly one message off the queues, so runs of completions are as long as what they remove. |
| Guarantees.IdleMeansDelivered | tyfirc-server/tyfirc-session.cpp:161-172 | A member of the room without a pending queue write has been sent the whole log since it joined, whatever other sessions do. |
| Guarantees.EventualDelivery | tyfirc-server/tyfirc-session.cpp:161-172 | From every reachable state of a continuing run, completing the pending writes brings every member the whole log since it joined, in a bounded number of steps. |
| ServerApp.Session.Start | tyfirc-server/tyfirc-session.cpp:18-24 | The session is Connected and its handshake is pending. |
| ServerApp.Session.WriteScMessage | tyfirc-server/tyfirc-session.cpp:26-32 | The message joins the queue, and a write starts only if the queue was empty. |
| ServerApp.Session.HandleQueueWrite | tyfirc-server/tyfirc-session.cpp:161-178 | The completion handler of a queue write is the corresponding step of the protocol. |
| ServerApp.Session.ReadLoginScMessage | tyfirc-server/tyfirc-session.cpp:34-49 | The handler is the corresponding step. |
| ServerApp.Session.HandleAuthScMessage | tyfirc-server/tyfirc-session.cpp:51-105 | The handler is the corresponding step, including the cases in which an exception leaves it. |
| ServerApp.Session.HandleAuthReply | tyfirc-server/tyfirc-session.cpp:76-104 | The completion handlers of the three kinds of reply are the corresponding step. |
| ServerApp.Session.ReadScMessage | tyfirc-server/tyfirc-session.cpp:107-122 | The handler is the corresponding step. |
| ServerApp.Session.HandleScMessage | tyfirc-server/tyfirc-session.cpp:124-159 | The handler is the corresponding step, including ignored messages and escaping exceptions. |
| ServerApp.ChatRoom.DeliverScMessage | tyfirc-server/tyfirc-chatroom.cpp:12-16 | The loop over the room, in any order of its set, gives the message to every member and to nobody else. |
| ServerApp.ChatRoom.AddSession | tyfirc-server/tyfirc-chatroom.cpp:18-20 | The session is a member. |
| ServerApp.ChatRoom.RemoveSession | tyfirc-server/tyfirc-chatroom.cpp:22-24 | The session is no member, and its leaving is recorded at the current end of the log. |
| ServerApp.IrcServerApp.HandleAccept | tyfirc-server/tyfirc-ircserverapp.cpp:57-68 | An accepted connection joins the room and starts in one step; a failed one changes nothing. |
| ServerApp.IrcServerApp.Handle | tyfirc-server/tyfirc-ircserverapp.cpp:46-72 | Any event, dispatched to the handler of its session, changes the objects by the step of the protocol. |
| ServerApp.IrcServerApp.Run | tyfirc-server/tyfirc-ircserverapp.cpp:70-72 | Handling any events until a handler throws leaves the objects in the state of that run. |
| ServerApp.Serve | tyfirc-server/tyfirc-ircserverapp.cpp:57-72 | After any events on a new server, every session object has been given exactly its window of the log, and it is a member exactly if it has not left. |
| Client.ChatRw.Auth | tyfirc-client/tyfirc-chatrw.cpp:55-84 | The request that is written, the result and the state after it, in every case: success is reported exactly for the success reply of its kind and makes the client LoggedIn, a socket error makes it NotConnected and is reported exactly when there is no reply, and everything else leaves the state. |
| Client.ChatRw.StartRead | tyfirc-client/tyfirc-chatrw.cpp:96-116 | The read loop shows and discards exactly its rounds' outcomes, in order, up to the first exception or socket error or the round in which `StopRead` is called, and says which of them ended it. |
| Client.OutcomeIff | tyfirc-client/tyfirc-chatrw.cpp:102-111 | A buffer shows a message exactly if it is a chat frame whose text has the form of that message; refused buffers are discarded whole, and frames of other types ignored. |
| Client.LostConnection | tyfirc-client/tyfirc-chatrw.cpp:101-102 | A read that fails before `StopRead` was called ends the loop by an exception; what was shown and discarded is what the rounds before it brought. |
| Client.LoopEndsAt | tyfirc-client/tyfirc-chatrw.cpp:101-115 | The loop ends at its first round that throws or calls `StopRead`, and nothing later is shown or discarded. |
| Client.StopIsHandled | tyfirc-client/tyfirc-chatrw.h:75-77 | The round in which `StopRead` is called is handled, and it is the last. |
| Client.LoopWaits | tyfirc-client/tyfirc-chatrw.cpp:101-115 | The loop waits for a further read exactly if no round has thrown or called `StopRead`. |
| Client.IrcClientApp.Authenticate | tyfirc-client/tyfirc-ircclienapp.cpp:30-51 | Credentials with white space are refused before anything is written; else what is written, the result and both states are those of the exchange, and the name is kept exactly after a success. |
| Client.WhitespaceIff | tyfirc-client/tyfirc-ircclienapp.cpp:31-34 | The check lets through exactly the texts that a field of the account file can carry, without those that contain a tab. |
| Client.IrcClientApp.WriteMessage | tyfirc-client/tyfirc-ircclienapp.cpp:53-62 | A text with the separator is refused first; without a connection nothing is sent; else the frame of the message is written, with or without a socket error. |
| ShownFrames.FrameOutcomes | tyfirc-client/tyfirc-chatrw.cpp:102-111 | What a client that cuts at each NUL makes of the frame of any message free of separators: the part before the first NUL read as three lines, and every further part discarded, ignored or throwing. |
| ShownFrames.FrameShown | tyfirc-client/tyfirc-chatrw.cpp:102-108 | The first frame that a client cuts shows the message unchanged if and only if its name is not empty and has no newline and neither name nor text has a separator or a NUL; it is then the only frame. |
| ShownFrames.OtherNames | tyfirc/tyfirc-msgpack.cpp:71-101 | An empty name is shown as a dash; one with a newline makes the loop throw or shows what stands before the newline as the author. |
| EndToEnd.FaithfulDelivery | tyfirc-server/tyfirc-session.cpp:131-140 | In every reachable state, a client that cuts the frame of a delivery at each NUL gets exactly the outcomes of its message, and is shown authenticated name, text and server time if and only if that name is not empty and has no newline and neither has a NUL. |
| EndToEnd.InFlightIsNext | tyfirc-server/tyfirc-session.cpp:161-166 | The bytes in flight to a session are the frame of the next log entry that it has not been sent. |
| ShownFrames.MergedFrames | tyfirc/tyfirc-scmessage.cpp:76-96 | Several chat frames that one read brings are parsed as one message, in which only the last text is left. |
| EndToEnd.ReadDeliversLastText | tyfirc-server/tyfirc-session.cpp:124-159 | A read of one chat frame or several becomes one new log entry with the session's own name, the exact text of the last frame and the server's time, and every member gets it last; the other texts are lost. |
| EndToEnd.TextReachesEveryMember | tyfirc-server/tyfirc-session.cpp:124-159 | A read that brings exactly one chat frame delivers its text in that way. |
| EndToEnd.ChatReadIff | tyfirc-server/tyfirc-session.cpp:107-121 | A chat read can complete exactly when it brings a terminator, whatever comes behind it. |
| EndToEnd.IgnoredFrame | tyfirc-server/tyfirc-session.cpp:124-159 | A frame of another type, and a chat frame whose text does not have the form of a message, change nothing: neither log nor any queue nor the reader. |
| Journey.TextIsShown | tyfirc-client/tyfirc-ircclienapp.cpp:53-62 | From every reachable state of a continuing run, a text that the client's check lets through and a bounded number of completed writes lead to a state in which every member was sent the whole log since it joined, and every client that has read its success reply is shown what came behind it, this text last with account name and server time, if and only if all of that can be shown. |
| EndToEnd.DocumentedRequest | tyfirc/tyfirc-scmessage.h:48-52 | The login frame of the format comment, with the name before the password, is read as the message that the client prints in the other order. |
| EndToEnd.RequestParses | tyfirc/tyfirc-scmessage.cpp:98-106 | A request is refused exactly if some block behind a separator in a credential has no space after its first colon; otherwise each credential has the value of the last block that sets it. |
| EndToEnd.AnyCredentials | tyfirc-server/tyfirc-session.cpp:59-104 | A first request with any credentials, separators included: the run ends exactly for such a bad block; otherwise the request is answered for the values that the last blocks set. |
| EndToEnd.AuthenticationEndToEnd | tyfirc-server/tyfirc-session.cpp:59-104 | The server's side of a first request without separators: the success reply of its kind is started exactly when the account table accepts it, else the failure reply; exactly then the session gets the name. |
| Wires.WireShape | tyfirc-server/tyfirc-session.cpp:72-178 | In every reachable state the completed writes of a session are refusals and messages, then one success reply exactly if the session counts as told of its login, then only messages; the messages are those sent, in order. |
| Streams.FirstRequestReport | tyfirc-client/tyfirc-chatrw.cpp:62-83 | In every reachable state, the first frame of all bytes written to a client makes its first request report success exactly if the first write was the success reply of that kind. |
| Streams.ReportAgreesIff | tyfirc-client/tyfirc-chatrw.cpp:62-83 | When the first reply has been written, and for ever after, what the client reports agrees with the server's answer iff that is a refusal or no delivery was written before it. |
| Streams.LoginEndToEnd | tyfirc-client/tyfirc-chatrw.cpp:55-84 | From the request through anything that happens until its reply is written to the client's report: success is reported, and the client may start its read loop, iff the table accepted the request and no delivery had been written; the session counts as told iff the table accepted it. |
| Streams.EachRequestReport | tyfirc-client/tyfirc-chatrw.cpp:55-84 | Without NULs in names and texts, request number k of a client reads write number k, and reports success iff that is the success reply: each delivery or refusal before it costs one more request. |
| Scenarios.LoginMissed | tyfirc-server/tyfirc-ircserverapp.cpp:57-63 | A run from the start in which a message is written to a client before it registers: the server grants the name and the session is LoggedIn, but the client reads the message as the answer and reports failure. |
| Streams.StreamOutcomes | tyfirc-client/tyfirc-chatrw.cpp:96-116 | In every reachable state, all bytes written to a session, replies included, and cut at each NUL give exactly the outcomes of its writes, one after the other, whatever names and texts contain. |
| Streams.StreamFidelity | tyfirc-client/tyfirc-chatrw.cpp:96-116 | A client that has read its success reply is shown by its read loop exactly the deliveries written behind that reply, in order, with name, text and time, if and only if each of them has a name that is not empty and has no newline and neither its name nor its text has a NUL; nothing is then discarded. |
| Streams.AccountNamesSuffice | tyfirc-server/tyfirc-session.cpp:83-84 | When the server's reads end at the terminator and no account name is empty or has a newline, every client that has read its success reply is shown the deliveries behind it; these are all its deliveries iff none was written before the reply. |

## Left out

- Sockets, TLS, certificates, asio scheduling and buffer lifetimes: a write captures its bytes when it starts. Handlers never run inside `DeliverScMessage`.
- Overlapping writes: an authentication reply and a queue write can be in flight together; the order of their bytes is taken to be the order in which they complete.
- "Every connected session is in the room" is false after a failed queue write (`ConnectedOutsideRoomIff`, `PostsFromOutside`).
- "Broadcasts reach only logged-in sessions" is false: a session joins the room when it is accepted.
- Streams.StreamOutcomes: each client read, in `Auth` and in the loop, is taken to end at the terminator; bytes that a read takes from the next frame are parsed with the first and then lost, and how many they are is up to the network. `StartRead` itself is proved for any buffers.
- EndToEnd.AuthenticationEndToEnd: speaks of the first request of a session, because later ones handle the old buffer; the client's side of it is `LoginEndToEnd`.
- Times.TimeRoundTrip: `localtime_s`, `mktime` with its normalisation, time zones, daylight saving and fractions of a second are not modelled; a time is its broken-down fields, with a year from 1000 to 9999 where it is printed.
- Times.TimeLanguage: the reading of times that the program did not print follows `strptime` with one or two digits a field (four for the year); a malformed exponent after a fraction of a second is not refused, and a fraction must have a digit after its point.
- MessagePacks.MessagePack.Delete: an index of zero or more on an empty pack is excluded, because the size wraps around there.
- MessagePacks.MessagePack.constructor: says nothing about messages of equal time, as `std::sort` promises nothing.
- The console program of the server has no orderly end: an accept is always pending, so `run` returns only when its owner stops it. Statements about an orderly end are about an owner that stops the service and lets the account manager be destroyed.
- The account file is text that only this program changes; newline translation of text streams and write errors after opening are left out.
- Client.ChatRw.StartRead: which exception ends the loop is not modelled; `Connect` and certificate checks are left out.
- Strings are sequences of characters compared by code; encodings are left out.
- The database code, the `nmake` variant, `SyncWriteMessage`, `CurTimeStr`, signals and both console programs.
