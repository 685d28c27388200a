/** What a client is shown by one chat message, whatever its name and text contain. */
module ShownFrames {
  import opened Wrappers
  import opened Text
  import opened Tables
  import opened Times
  import opened ScMessages
  import opened ChatMessages
  import opened Client

  // ----- cutting at NUL

  function Terminate(pieces: seq<string>): seq<string> {
    seq(|pieces|, i requires 0 <= i < |pieces| => pieces[i] + [NUL])
  }

  /** A client that cuts a terminated text gets its pieces between NULs, each with a terminator. */
  lemma {:induction false} CutOfTerminated(s: string)
    ensures Cut(s + [NUL], NUL) == Terminate(Fields(s, NUL))
    decreases |s|
  {
    match Find(s, NUL, 0)
    case None =>
      CutFirst(s, "", NUL);
      assert s + [NUL] + "" == s + [NUL];
    case Some(i) =>
      var piece, rest := s[..i], s[i + 1..];
      assert s == piece + [NUL] + rest && s + [NUL] == piece + [NUL] + (rest + [NUL]);
      CutFirst(piece, rest + [NUL], NUL);
      CutOfTerminated(rest);
      TerminateFirst(piece, Fields(rest, NUL));
  }

  lemma TerminateFirst(piece: string, pieces: seq<string>)
    ensures Terminate([piece] + pieces) == [piece + [NUL]] + Terminate(pieces)
  {
  }

  // ----- what a chat message is for a client

  function ChatOutcome(src: string): Outcome {
    if Parse(src).None? then Thrown else Shown(Parse(src).value)
  }

  /**
   * A piece behind a NUL is a frame of one block: refused unless it is a type name, ignored if it is
   * one, and without the property that a chat message needs.
   */
  function BareOutcome(piece: string): Outcome {
    if TypeFromStr(piece) == MESSAGE then Thrown
    else if TypeFromStr(piece) == END then Discarded(piece + [NUL])
    else Ignored
  }

  function BareOutcomes(pieces: seq<string>): seq<Outcome> {
    seq(|pieces|, i requires 0 <= i < |pieces| => BareOutcome(pieces[i]))
  }

  /** All that a client makes of the frame of a message; one outcome when name and text have no NUL. */
  function MessageOutcomes(m: Message<Stamp>): (outcomes: seq<Outcome>)
    ensures outcomes != []
  {
    var pieces := Fields(Print(m), NUL);
    [ChatOutcome(pieces[0])] + BareOutcomes(pieces[1..])
  }

  lemma ChatPiece(src: string)
    requires US !in src
    ensures OutcomeOf(ChatPrefix() + src + [NUL]) == ChatOutcome(src)
  {
    var m := ScMessage(MESSAGE, []).SetProperty("message[0]", src);
    SingleProperty(src);
    RoundTrip(m);
  }

  /** The first piece of a chat message's frame is read as a chat message, whatever it holds. */
  lemma FirstPiece(m: Message<Stamp>)
    requires Separable(m)
    ensures var frames := Cut(Frame(GetMessageScMessage(m)), NUL);
      && frames != [] && Received(frames[0]).Some? && Received(frames[0]).value.kind == MESSAGE
  {
    var pieces := Fields(Print(m), NUL);
    FrameOfMessage(m);
    CutOfTerminated(ChatPrefix() + Print(m));
    FieldsAfterPrefix(ChatPrefix(), Print(m), NUL);
    PrintPlain(m, US);
    FieldsFree(Print(m), NUL, US);
    ChatPieceRead(pieces[0]);
  }

  lemma ChatPieceRead(src: string)
    requires US !in src
    ensures Received(ChatPrefix() + src + [NUL]) == Some(ScMessage(MESSAGE, []).SetProperty("message[0]", src))
  {
    SingleProperty(src);
    RoundTrip(ScMessage(MESSAGE, []).SetProperty("message[0]", src));
  }

  lemma SingleProperty(src: string)
    requires US !in src
    ensures var m := ScMessage(MESSAGE, []).SetProperty("message[0]", src);
      && m.GetProperty("message[0]") == Some(src) && WellFormed(m) && Frame(m) == ChatPrefix() + src + [NUL]
  {
    PropertyNames();
    FrameOfProperty("message[0]", src);
  }

  lemma FrameOfProperty(key: string, value: string)
    ensures var m := ScMessage(MESSAGE, []).SetProperty(key, value);
      && m.properties == [Entry(key, value)]
      && Frame(m) == "MESSAGE" + [US] + key + ": " + value + [NUL]
  {
    var m := ScMessage(MESSAGE, []).SetProperty(key, value);
    var line := PropertyLine(Entry(key, value));
    assert Blocks(m) == ["MESSAGE", line];
    assert Blocks(m)[1..] == [line] && Join([line], US) == line;
    assert Encode(m) == "MESSAGE" + [US] + line;
    assert "MESSAGE" + [US] + line == "MESSAGE" + [US] + key + ": " + value;
  }

  /** The bytes before the chat message in its frame. */
  function ChatPrefix(): (prefix: string)
    ensures NUL !in prefix
  {
    "MESSAGE" + [US] + "message[0]" + ": "
  }

  lemma BarePiece(piece: string)
    requires US !in piece
    ensures OutcomeOf(piece + [NUL]) == BareOutcome(piece)
  {
    DecodeOfBody(piece);
    FieldsSingle(piece, US);
    assert SetAll([], Entries([])) == [];
  }

  lemma FrameOfMessage(m: Message<Stamp>)
    ensures Frame(GetMessageScMessage(m)) == ChatPrefix() + Print(m) + [NUL]
  {
    FrameOfProperty("message[0]", Print(m));
  }

  /** Cutting the frame of a message at each NUL gives exactly these outcomes. */
  lemma FrameOutcomes(m: Message<Stamp>)
    requires Separable(m)
    ensures Outcomes(Cut(Frame(GetMessageScMessage(m)), NUL)) == MessageOutcomes(m)
  {
    FrameOfMessage(m);
    CutOfTerminated(ChatPrefix() + Print(m));
    FieldsAfterPrefix(ChatPrefix(), Print(m), NUL);
    PrintPlain(m, US);
    FieldsFree(Print(m), NUL, US);
    PiecesOutcomes(Fields(Print(m), NUL));
  }

  lemma PiecesOutcomes(pieces: seq<string>)
    requires pieces != [] && Free(pieces, US)
    ensures Outcomes(Terminate([ChatPrefix() + pieces[0]] + pieces[1..]))
            == [ChatOutcome(pieces[0])] + BareOutcomes(pieces[1..])
  {
    ChatPiece(pieces[0]);
    BarePieces(pieces[1..]);
    FirstOutcome(ChatPrefix() + pieces[0], pieces[1..]);
  }

  lemma FirstOutcome(piece: string, pieces: seq<string>)
    ensures Outcomes(Terminate([piece] + pieces)) == [OutcomeOf(piece + [NUL])] + Outcomes(Terminate(pieces))
  {
    TerminateFirst(piece, pieces);
    OutcomesAppend([piece + [NUL]], Terminate(pieces));
  }

  lemma BarePieces(pieces: seq<string>)
    requires Free(pieces, US)
    ensures Outcomes(Terminate(pieces)) == BareOutcomes(pieces)
  {
    forall i | 0 <= i < |pieces| ensures OutcomeOf(pieces[i] + [NUL]) == BareOutcome(pieces[i]) {
      BarePiece(pieces[i]);
    }
  }

  lemma OutcomesAppend(a: seq<string>, b: seq<string>)
    ensures Outcomes(a + b) == Outcomes(a) + Outcomes(b)
  {
    EachAppend(OutcomeOf, a, b);
  }

  // ----- several frames in one read

  /** The value of the chat property in one of several frames that are parsed as one. */
  function MergedValue(m: Message<Stamp>, last: bool): string {
    if last then Print(m) else Print(m) + [NUL] + "MESSAGE"
  }

  /** All of them: every frame but the last runs on into the type name of the next. */
  function MergedValues(ms: seq<Message<Stamp>>): seq<string> {
    seq(|ms|, i requires 0 <= i < |ms| => MergedValue(ms[i], i == |ms| - 1))
  }

  lemma {:induction false} MergedBytes(ms: seq<Message<Stamp>>)
    requires ms != []
    ensures Concat(Frames(Messages(ms)))
            == "MESSAGE" + [US] + Join(KeyBlocks("message[0]", MergedValues(ms)), US) + [NUL]
  {
    if |ms| == 1 {
      OneMerged(ms[0]);
      assert ms == [ms[0]];
    } else {
      MergedBytes(ms[1..]);
      MoreMerged(ms[0], ms[1..]);
      assert ms == [ms[0]] + ms[1..];
    }
  }

  lemma OneMerged(m: Message<Stamp>)
    ensures Concat(Frames(Messages([m])))
            == "MESSAGE" + [US] + Join(KeyBlocks("message[0]", MergedValues([m])), US) + [NUL]
  {
    ConcatSingle(GetMessageScMessage(m));
    assert Messages([m]) == [GetMessageScMessage(m)] && MergedValues([m]) == [Print(m)];
    JoinSingle("message[0]", Print(m));
    FrameOfMessage(m);
    FrameBytes("MESSAGE" + [US], "message[0]", Print(m), [NUL]);
  }

  lemma MoreMerged(m: Message<Stamp>, ms: seq<Message<Stamp>>)
    requires ms != []
    requires Concat(Frames(Messages(ms)))
             == "MESSAGE" + [US] + Join(KeyBlocks("message[0]", MergedValues(ms)), US) + [NUL]
    ensures Concat(Frames(Messages([m] + ms)))
            == "MESSAGE" + [US] + Join(KeyBlocks("message[0]", MergedValues([m] + ms)), US) + [NUL]
  {
    ConcatFirst(m, ms);
    FrameOfMessage(m);
    ValuesFirst(m, ms);
    JoinMore("message[0]", Print(m) + [NUL] + "MESSAGE", MergedValues(ms));
    NextFrame("MESSAGE", "message[0]", Print(m), Join(KeyBlocks("message[0]", MergedValues(ms)), US));
  }

  lemma ValuesFirst(m: Message<Stamp>, ms: seq<Message<Stamp>>)
    requires ms != []
    ensures MergedValues([m] + ms) == [Print(m) + [NUL] + "MESSAGE"] + MergedValues(ms)
  {
  }

  lemma ConcatSingle(m: ScMessage)
    ensures Concat(Frames([m])) == Frame(m)
  {
    assert Frames([m]) == [Frame(m)] && [Frame(m)][1..] == [];
  }

  lemma ConcatFirst(m: Message<Stamp>, ms: seq<Message<Stamp>>)
    ensures Concat(Frames(Messages([m] + ms))) == Frame(GetMessageScMessage(m)) + Concat(Frames(Messages(ms)))
  {
    assert Frames(Messages([m] + ms)) == [Frame(GetMessageScMessage(m))] + Frames(Messages(ms));
    assert ([Frame(GetMessageScMessage(m))] + Frames(Messages(ms)))[1..] == Frames(Messages(ms));
  }

  lemma JoinSingle(key: string, value: string)
    ensures Join(KeyBlocks(key, [value]), US) == key + ": " + value
  {
    assert KeyBlocks(key, [value]) == [key + ": " + value];
  }

  lemma JoinMore(key: string, value: string, values: seq<string>)
    requires values != []
    ensures Join(KeyBlocks(key, [value] + values), US)
            == key + ": " + value + [US] + Join(KeyBlocks(key, values), US)
  {
    var blocks := KeyBlocks(key, [value] + values);
    assert blocks[0] == key + ": " + value && blocks[1..] == KeyBlocks(key, values);
  }

  lemma FrameBytes(start: string, key: string, value: string, end: string)
    ensures start + key + ": " + value + end == start + (key + ": " + value) + end
  {
  }

  lemma NextFrame(name: string, key: string, src: string, rest: string)
    ensures name + [US] + key + ": " + src + [NUL] + (name + [US] + rest + [NUL])
            == name + [US] + (key + ": " + (src + [NUL] + name) + [US] + rest) + [NUL]
  {
    var value := src + [NUL] + name;
    assert src + [NUL] + (name + [US] + rest + [NUL]) == value + ([US] + rest + [NUL]);
    assert name + [US] + key + ": " + (value + ([US] + rest + [NUL]))
           == name + [US] + (key + ": " + value + [US] + rest) + [NUL];
  }

  lemma MergedPlain(ms: seq<Message<Stamp>>)
    requires ms != [] && forall n :: 0 <= n < |ms| ==> Separable(ms[n])
    ensures Free(MergedValues(ms), US) && MergedValues(ms)[|ms| - 1] == Print(ms[|ms| - 1])
  {
    forall i | 0 <= i < |ms| ensures US !in MergedValues(ms)[i] {
      PrintPlain(ms[i], US);
      MarkedPlain(Print(ms[i]));
    }
  }

  lemma MarkedPlain(src: string)
    requires US !in src
    ensures US !in src + [NUL] + "MESSAGE"
  {
  }

  /** Of several chat frames in one read only the last message is left; the others are overwritten. */
  lemma MergedFrames(ms: seq<Message<Stamp>>)
    requires ms != [] && forall n :: 0 <= n < |ms| ==> Separable(ms[n])
    ensures Decode(Concat(Frames(Messages(ms)))) == Accepted(GetMessageScMessage(ms[|ms| - 1]))
  {
    MergedBytes(ms);
    MergedPlain(ms);
    ChatValuesDecode(MergedValues(ms), ms[|ms| - 1]);
  }

  lemma ChatValuesDecode(values: seq<string>, m: Message<Stamp>)
    requires values != [] && Free(values, US) && values[|values| - 1] == Print(m)
    ensures Decode("MESSAGE" + [US] + Join(KeyBlocks("message[0]", values), US) + [NUL])
            == Accepted(GetMessageScMessage(m))
  {
    PropertyNames();
    LastValueDecodes(MESSAGE, "message[0]", values);
    MessageProperty(m);
  }

  // ----- when the message is shown as it is

  /** Name and text cannot be mistaken for structure. */
  predicate Showable(m: Message<Stamp>) {
    && m.username != "" && '\n' !in m.username && US !in m.username && NUL !in m.username
    && US !in m.text && NUL !in m.text
  }

  /** No frame shows a message whose name or text contains a separator or a NUL. */
  lemma ShownIsPlain(frame: string)
    requires OneFrame(frame, NUL) && OutcomeOf(frame).Shown?
    ensures var m := OutcomeOf(frame).msg;
      && US !in m.username && US !in m.text && NUL !in m.username && NUL !in m.text
  {
    ReceivedEnd(frame);
    AcceptedWellFormed(frame);
    AcceptedNulFree(frame);
    var m := Decode(frame).msg;
    PropertyPlain(m, "message[0]");
    PropertyNulFree(m, "message[0]");
    ParsedParts(m.GetProperty("message[0]").value);
  }

  lemma {:induction false} CutIntoFrames(s: string, d: char)
    ensures forall i :: 0 <= i < |Cut(s, d)| ==> OneFrame(Cut(s, d)[i], d)
    decreases |s|
  {
    match Find(s, d, 0)
    case None =>
    case Some(i) =>
      CutIntoFrames(s[i + 1..], d);
      assert s[..i + 1][..i] == s[..i];
  }

  /**
   * A client shows the message of a frame exactly when name and text cannot be mistaken for structure;
   * the frame then brings nothing else.
   */
  lemma FrameShown(m: Message<Stamp>)
    ensures var frames := Cut(Frame(GetMessageScMessage(m)), NUL);
      && frames != []
      && (OutcomeOf(frames[0]) == Shown(m) <==> Showable(m))
      && (Showable(m) ==> Outcomes(frames) == [Shown(m)])
  {
    var frames := Cut(Frame(GetMessageScMessage(m)), NUL);
    FrameOfMessage(m);
    CutOfTerminated(ChatPrefix() + Print(m));
    CutIntoFrames(Frame(GetMessageScMessage(m)), NUL);
    if OutcomeOf(frames[0]) == Shown(m) {
      ShownIsPlain(frames[0]);
    }
    if US !in m.username && US !in m.text && NUL !in m.username && NUL !in m.text {
      FrameOutcomes(m);
      PlainOutcomes(m);
      MessageRoundTrip(m);
      assert Outcomes(frames)[0] == OutcomeOf(frames[0]);
    }
  }

  /** Without NULs there is one outcome: the message as its three lines are read. */
  lemma PlainOutcomes(m: Message<Stamp>)
    requires NUL !in m.username && NUL !in m.text
    ensures MessageOutcomes(m) == [ChatOutcome(Print(m))]
  {
    PrintPlain(m, NUL);
    assert Find(Print(m), NUL, 0) == None;
  }

  /**
   * Names that are not shown as they are: an empty one becomes a dash, and one with a newline makes
   * the client's loop throw or shows what stands before the newline as the author.
   */
  lemma OtherNames(m: Message<Stamp>)
    requires NUL !in m.username && NUL !in m.text
    ensures '\n' !in m.username ==>
              MessageOutcomes(m) == [Shown(Message(if m.username == "" then "-" else m.username, m.text, m.time))]
    ensures '\n' in m.username ==>
              var first := Find(m.username, '\n', 0).value;
              MessageOutcomes(m) == [Thrown]
              || exists text, time :: MessageOutcomes(m) == [Shown(Message(m.username[..first], text, time))]
  {
    PlainOutcomes(m);
    if '\n' !in m.username {
      PrintedParses(m);
    } else if Parse(Print(m)).Some? {
      NameToNewline(m);
      var shown := Parse(Print(m)).value;
      assert shown == Message(shown.username, shown.text, shown.time);
    }
  }

  lemma NameToNewline(m: Message<Stamp>)
    requires '\n' in m.username && Parse(Print(m)).Some?
    ensures Parse(Print(m)).value.username == m.username[..Find(m.username, '\n', 0).value]
  {
    var src := Print(m);
    var first := Find(m.username, '\n', 0).value;
    assert src[..first] == m.username[..first] && src[first] == '\n';
    FirstIndex(src, '\n', first);
  }
}
