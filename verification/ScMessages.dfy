/** The frame format between server and client: a type block and property blocks, ended by NUL. */
module ScMessages {
  import opened Wrappers
  import opened Text
  import opened Tables

  // ----- message types

  datatype ScType =
    | LOGIN
    | LOGIN_SUCCESS
    | LOGIN_FAILURE
    | REGISTER
    | REGISTER_SUCCESS
    | REGISTER_FAILURE
    | MESSAGE
    | FORMAT_FAILURE
    | END

  function TypeToStr(t: ScType): (name: string)
    ensures name != "" && NUL !in name && US !in name && ':' !in name
  {
    match t
    case LOGIN => "LOGIN"
    case LOGIN_SUCCESS => "LOGIN_SUCCESS"
    case LOGIN_FAILURE => "LOGIN_FAILURE"
    case REGISTER => "REGISTER"
    case REGISTER_SUCCESS => "REGISTER_SUCCESS"
    case REGISTER_FAILURE => "REGISTER_FAILURE"
    case MESSAGE => "MESSAGE"
    case FORMAT_FAILURE => "FORMAT_FAILURE"
    case END => "END"
  }

  /** The search stops before END, which is what it returns when no name matches. */
  function TypeFromStr(msg: string): ScType {
    var name := CStr(msg);
    if name == "LOGIN" then LOGIN
    else if name == "LOGIN_SUCCESS" then LOGIN_SUCCESS
    else if name == "LOGIN_FAILURE" then LOGIN_FAILURE
    else if name == "REGISTER" then REGISTER
    else if name == "REGISTER_SUCCESS" then REGISTER_SUCCESS
    else if name == "REGISTER_FAILURE" then REGISTER_FAILURE
    else if name == "MESSAGE" then MESSAGE
    else if name == "FORMAT_FAILURE" then FORMAT_FAILURE
    else END
  }

  lemma NamesDiffer(a: ScType, b: ScType)
    requires a != b
    ensures TypeToStr(a) != TypeToStr(b)
  {
  }

  /** A string names a type exactly when its C string is that type's name; END is never named. */
  lemma TypeNamed(msg: string, t: ScType)
    requires t != END
    ensures TypeFromStr(msg) == t <==> CStr(msg) == TypeToStr(t)
  {
    if TypeFromStr(msg) != t && TypeFromStr(msg) != END {
      NamesDiffer(TypeFromStr(msg), t);
    }
  }

  // ----- messages

  datatype ScMessage = ScMessage(kind: ScType, properties: Table) {
    /** Overwrites an earlier value of the same property. */
    function SetProperty(property: string, value: string): ScMessage {
      this.(properties := Set(properties, property, value))
    }

    /** `None` where `std::map::at` throws `std::out_of_range`. */
    function GetProperty(property: string): Option<string> {
      Get(properties, property)
    }
  }

  /** What a message must avoid for its frame to be read back. */
  ghost predicate WellFormed(m: ScMessage) {
    m.kind != END && forall e :: e in m.properties ==> PlainEntry(e)
  }

  predicate PlainEntry(e: Entry) {
    ':' !in e.key && US !in e.key && US !in e.value
  }

  // ----- printing

  function PropertyLine(e: Entry): string {
    e.key + ": " + e.value
  }

  function Blocks(m: ScMessage): seq<string> {
    [TypeToStr(m.kind)] + seq(|m.properties|, i requires 0 <= i < |m.properties| => PropertyLine(m.properties[i]))
  }

  function Encode(m: ScMessage): string {
    Join(Blocks(m), US)
  }

  /** The bytes of a write: the text and the terminator that `c_str()` supplies. */
  function Frame(m: ScMessage): string {
    Encode(m) + [NUL]
  }

  method Serialize(m: ScMessage) returns (res: string)
    ensures res == Encode(m)
  {
    ghost var blocks := Blocks(m);
    res := TypeToStr(m.kind) + [US];
    assert blocks[..1] == [TypeToStr(m.kind)];
    for i := 0 to |m.properties|
      invariant res == Join(blocks[..i + 1], US) + [US]
    {
      var line := m.properties[i].key + ": " + m.properties[i].value;
      JoinAppend(blocks[..i + 1], line, US);
      assert blocks[..i + 1] + [line] == blocks[..i + 2];
      res := res + line + [US];
    }
    assert blocks[..|m.properties| + 1] == blocks;
    res := res[..|res| - 1];
  }

  lemma {:induction false} JoinAppend(blocks: seq<string>, last: string, d: char)
    requires blocks != []
    ensures Join(blocks + [last], d) == Join(blocks, d) + [d] + last
  {
    var all := blocks + [last];
    assert all[1..] == blocks[1..] + [last];
    if |blocks| > 1 {
      JoinAppend(blocks[1..], last, d);
    } else {
      assert all[1..] == [last];
    }
  }

  // ----- parsing

  /** Splits a block at its first colon, which a space must follow. */
  function PropertyOf(line: string): Option<Entry> {
    match Find(line, ':', 0)
    case None => None
    case Some(i) =>
      if i + 1 < |line| && line[i + 1] == ' ' then Some(Entry(line[..i], line[i + 2..])) else None
  }

  method ParseProperty(line: string) returns (ok: bool, property: string, value: string)
    ensures ok <==> PropertyOf(line).Some?
    ensures ok ==> PropertyOf(line) == Some(Entry(property, value))
  {
    var colon := Find(line, ':', 0);
    // A read one past the end yields the terminator, never a space.
    if colon == None || colon.value + 1 == |line| || line[colon.value + 1] != ' ' {
      return false, "", "";
    }
    return true, line[..colon.value], line[colon.value + 2..];
  }

  lemma PropertyOfLine(e: Entry)
    requires ':' !in e.key
    ensures PropertyOf(PropertyLine(e)) == Some(e)
  {
    var line := PropertyLine(e);
    assert line[..|e.key|] == e.key && line[|e.key| + 2..] == e.value;
    FirstIndex(line, ':', |e.key|);
  }

  lemma LineOfProperty(line: string)
    requires PropertyOf(line).Some?
    ensures PropertyLine(PropertyOf(line).value) == line && ':' !in PropertyOf(line).value.key
  {
  }

  ghost predicate AllProperties(lines: seq<string>) {
    forall i :: 0 <= i < |lines| ==> PropertyOf(lines[i]).Some?
  }

  function Entries(lines: seq<string>): seq<Entry>
    requires AllProperties(lines)
  {
    seq(|lines|, i requires 0 <= i < |lines| => PropertyOf(lines[i]).value)
  }

  /**
   * The outcomes of `Deserialize`: a message, `std::invalid_argument`, or a call the language
   * leaves undefined, because there is no last block or it has no character to erase.
   */
  datatype Parsed = Accepted(msg: ScMessage) | Rejected | Undefined

  ghost function Decode(buffer: string): Parsed {
    var tokens := Tokens(buffer, US);
    if tokens == [] || tokens[|tokens| - 1] == "" then Undefined
    else DecodeBlocks(WithoutTerminator(tokens))
  }

  /** The last character of the last block is erased, whatever it is. */
  function WithoutTerminator(tokens: seq<string>): seq<string>
    requires tokens != [] && tokens[|tokens| - 1] != ""
  {
    var last := tokens[|tokens| - 1];
    tokens[..|tokens| - 1] + [last[..|last| - 1]]
  }

  ghost function DecodeBlocks(blocks: seq<string>): Parsed
    requires blocks != []
  {
    var kind := TypeFromStr(blocks[0]);
    if kind == END || !AllProperties(blocks[1..]) then Rejected
    else Accepted(ScMessage(kind, SetAll([], Entries(blocks[1..]))))
  }

  method Deserialize(buffer: string) returns (parsed: Parsed)
    ensures parsed == Decode(buffer)
  {
    var lines := Split(buffer, US);
    if lines == [] || lines[|lines| - 1] == "" {
      return Undefined;
    }
    lines := EraseTerminator(lines);
    parsed := ParseBlocks(lines);
  }

  /** `pop_back` on the last line. */
  method EraseTerminator(tokens: seq<string>) returns (lines: seq<string>)
    requires tokens != [] && tokens[|tokens| - 1] != ""
    ensures lines == WithoutTerminator(tokens)
  {
    var last := tokens[|tokens| - 1];
    lines := tokens[|tokens| - 1 := last[..|last| - 1]];
  }

  /** The type and then the loop over the property lines. */
  method ParseBlocks(blocks: seq<string>) returns (parsed: Parsed)
    requires blocks != []
    ensures parsed == DecodeBlocks(blocks)
  {
    var kind := TypeFromStr(blocks[0]);
    if kind == END {
      return Rejected;
    }
    var res := ScMessage(kind, []);
    var lines := blocks[1..];
    for i := 0 to |lines|
      invariant AllProperties(lines[..i])
      invariant res == ScMessage(kind, SetAll([], Entries(lines[..i])))
    {
      var ok, property, value := ParseProperty(lines[i]);
      if !ok {
        return Rejected;
      }
      OneMoreLine(lines, i);
      res := res.SetProperty(property, value);
    }
    assert lines[..|lines|] == lines;
    return Accepted(res);
  }

  lemma OneMoreLine(lines: seq<string>, i: nat)
    requires i < |lines| && AllProperties(lines[..i]) && PropertyOf(lines[i]).Some?
    ensures AllProperties(lines[..i + 1])
    ensures var e := PropertyOf(lines[i]).value;
      SetAll([], Entries(lines[..i + 1])) == Set(SetAll([], Entries(lines[..i])), e.key, e.value)
  {
    forall k | 0 <= k <= i ensures PropertyOf(lines[k]).Some? {
      if k < i { assert lines[..i][k] == lines[k]; }
    }
    var entries := Entries(lines[..i + 1]);
    assert entries[..|entries| - 1] == Entries(lines[..i]);
  }

  // ----- the accepted language

  /** Whatever character ends the buffer is erased, and the rest is read as the blocks between separators. */
  lemma DecodeOfEnded(body: string, last: char)
    requires last != US
    ensures Decode(body + [last]) == DecodeBlocks(Fields(body, US))
  {
    TokensOfTerminated(body, last, US);
    TerminatorErased(Fields(body, US), last);
  }

  /** A separator at the end of the buffer is not seen, unless it follows another or stands alone. */
  lemma DecodeOfSeparated(buffer: string)
    requires buffer != "" && buffer[|buffer| - 1] != US
    ensures Decode(buffer + [US]) == Decode(buffer)
  {
    TokensOfEnded(buffer, US);
  }

  /** A frame that ends in NUL is read as the blocks between its separators. */
  lemma DecodeOfBody(body: string)
    ensures Decode(body + [NUL]) == DecodeBlocks(Fields(body, US))
  {
    DecodeOfEnded(body, NUL);
  }

  lemma TerminatorErased(blocks: seq<string>, c: char)
    requires blocks != []
    ensures var tokens := blocks[..|blocks| - 1] + [blocks[|blocks| - 1] + [c]];
      tokens[|tokens| - 1] != "" && WithoutTerminator(tokens) == blocks
  {
  }

  /** The first colon of the block is followed by a space. */
  ghost predicate PropertyBlock(block: string) {
    exists i :: 0 <= i < |block| - 1 && block[i] == ':' && block[i + 1] == ' ' && ':' !in block[..i]
  }

  predicate BlockOf(block: string, key: string) {
    ':' !in key && |block| >= |key| + 2 && block[..|key|] == key && block[|key|] == ':' && block[|key| + 1] == ' '
  }

  /** The value in the last block that carries the key. */
  function LastBlockValue(blocks: seq<string>, key: string): Option<string> {
    if blocks == [] then None
    else
      var last := blocks[|blocks| - 1];
      if BlockOf(last, key) then Some(last[|key| + 2..]) else LastBlockValue(blocks[..|blocks| - 1], key)
  }

  lemma PropertyBlockIff(block: string)
    ensures PropertyOf(block).Some? <==> PropertyBlock(block)
  {
  }

  lemma BlockOfIff(block: string, key: string)
    requires PropertyOf(block).Some?
    ensures BlockOf(block, key) <==> PropertyOf(block).value.key == key
    ensures BlockOf(block, key) ==> PropertyOf(block).value.value == block[|key| + 2..]
  {
  }

  lemma {:induction false} LastBlockIsLastValue(blocks: seq<string>, key: string)
    requires AllProperties(blocks)
    ensures LastBlockValue(blocks, key) == LastValue(Entries(blocks), key)
  {
    if blocks != [] {
      BlockOfIff(blocks[|blocks| - 1], key);
      LastBlockIsLastValue(blocks[..|blocks| - 1], key);
      assert Entries(blocks)[..|blocks| - 1] == Entries(blocks[..|blocks| - 1]);
    }
  }

  lemma AcceptedBlocks(blocks: seq<string>)
    requires blocks != []
    ensures DecodeBlocks(blocks).Accepted? <==>
            && (exists t :: t != END && CStr(blocks[0]) == TypeToStr(t))
            && forall i :: 1 <= i < |blocks| ==> PropertyBlock(blocks[i])
  {
    forall t | t != END ensures TypeFromStr(blocks[0]) == t <==> CStr(blocks[0]) == TypeToStr(t) {
      TypeNamed(blocks[0], t);
    }
    forall i | 1 <= i < |blocks| ensures PropertyOf(blocks[1..][i - 1]).Some? <==> PropertyBlock(blocks[i]) {
      PropertyBlockIff(blocks[i]);
    }
    if forall i :: 1 <= i < |blocks| ==> PropertyBlock(blocks[i]) {
      forall i | 0 <= i < |blocks[1..]| ensures PropertyOf(blocks[1..][i]).Some? {
        assert PropertyBlock(blocks[i + 1]);
      }
      assert AllProperties(blocks[1..]);
    }
    if AllProperties(blocks[1..]) {
      forall i | 1 <= i < |blocks| ensures PropertyBlock(blocks[i]) {
        assert PropertyOf(blocks[1..][i - 1]).Some?;
      }
    }
    if TypeFromStr(blocks[0]) != END {
      assert CStr(blocks[0]) == TypeToStr(TypeFromStr(blocks[0]));
    }
  }

  lemma AcceptedLookups(blocks: seq<string>)
    requires blocks != [] && DecodeBlocks(blocks).Accepted?
    ensures var m := DecodeBlocks(blocks).msg;
      && CStr(blocks[0]) == TypeToStr(m.kind)
      && forall key :: m.GetProperty(key) == LastBlockValue(blocks[1..], key)
  {
    TypeNamed(blocks[0], TypeFromStr(blocks[0]));
    var entries := Entries(blocks[1..]);
    forall key ensures Get(SetAll([], entries), key) == LastBlockValue(blocks[1..], key) {
      GetSetAll([], entries, key);
      LastBlockIsLastValue(blocks[1..], key);
    }
  }

  /**
   * The language of frames: the first block names a type up to its first NUL, and every other block
   * has a space after its first colon. Of blocks with the same key the last one counts.
   */
  lemma AcceptedLanguage(body: string)
    ensures Decode(body + [NUL]) != Undefined
    ensures Decode(body + [NUL]).Accepted? <==>
            && (exists t :: t != END && CStr(Fields(body, US)[0]) == TypeToStr(t))
            && forall i :: 1 <= i < |Fields(body, US)| ==> PropertyBlock(Fields(body, US)[i])
    ensures Decode(body + [NUL]).Accepted? ==>
              var m := Decode(body + [NUL]).msg;
              && CStr(Fields(body, US)[0]) == TypeToStr(m.kind)
              && forall key :: m.GetProperty(key) == LastBlockValue(Fields(body, US)[1..], key)
  {
    DecodeOfBody(body);
    var fields := Fields(body, US);
    AcceptedBlocks(fields);
    if DecodeBlocks(fields).Accepted? {
      AcceptedLookups(fields);
    }
  }

  /** A type name and blocks without separators, as a frame. */
  lemma TypedBlocks(kind: ScType, blocks: seq<string>)
    requires kind != END && blocks != [] && Free(blocks, US)
    ensures Decode(TypeToStr(kind) + [US] + Join(blocks, US) + [NUL])
            == if AllProperties(blocks) then Accepted(ScMessage(kind, SetAll([], Entries(blocks)))) else Rejected
  {
    var all := [TypeToStr(kind)] + blocks;
    assert all[1..] == blocks;
    FieldsOfJoin(all, US);
    DecodeOfBody(Join(all, US));
    assert CStr(TypeToStr(kind)) == TypeToStr(kind);
    TypeNamed(TypeToStr(kind), kind);
  }

  /** Property blocks that all set this key. */
  ghost predicate SameKey(blocks: seq<string>, key: string) {
    && Free(blocks, US) && AllProperties(blocks)
    && forall i :: 0 <= i < |blocks| ==> PropertyOf(blocks[i]).value.key == key
  }

  function KeyBlocks(key: string, values: seq<string>): seq<string> {
    seq(|values|, i requires 0 <= i < |values| => key + ": " + values[i])
  }

  lemma KeyBlocksSame(key: string, values: seq<string>)
    requires ':' !in key && US !in key && Free(values, US) && values != []
    ensures SameKey(KeyBlocks(key, values), key)
    ensures PropertyOf(KeyBlocks(key, values)[|values| - 1]) == Some(Entry(key, values[|values| - 1]))
  {
    var blocks := KeyBlocks(key, values);
    forall i | 0 <= i < |values| ensures PropertyOf(blocks[i]) == Some(Entry(key, values[i])) && US !in blocks[i] {
      PropertyOfLine(Entry(key, values[i]));
      assert blocks[i] == key + ": " + values[i];
    }
  }

  /** Of several blocks for one key the last one counts. */
  lemma SameKeyDecode(kind: ScType, blocks: seq<string>, key: string, value: string)
    requires kind != END && blocks != [] && SameKey(blocks, key)
    requires PropertyOf(blocks[|blocks| - 1]) == Some(Entry(key, value))
    ensures Decode(TypeToStr(kind) + [US] + Join(blocks, US) + [NUL])
            == Accepted(ScMessage(kind, [Entry(key, value)]))
  {
    TypedBlocks(kind, blocks);
    EntriesOfSameKey(blocks, key, value);
  }

  lemma EntriesOfSameKey(blocks: seq<string>, key: string, value: string)
    requires blocks != [] && SameKey(blocks, key)
    requires PropertyOf(blocks[|blocks| - 1]) == Some(Entry(key, value))
    ensures SetAll([], Entries(blocks)) == [Entry(key, value)]
  {
    var entries := Entries(blocks);
    assert entries[|entries| - 1] == Entry(key, value);
    forall i | 0 <= i < |entries| ensures entries[i].key == key {
      assert entries[i] == PropertyOf(blocks[i]).value;
    }
    SetAllSame(entries, key);
  }

  lemma LastValueDecodes(kind: ScType, key: string, values: seq<string>)
    requires kind != END && ':' !in key && US !in key && Free(values, US) && values != []
    ensures Decode(TypeToStr(kind) + [US] + Join(KeyBlocks(key, values), US) + [NUL])
            == Accepted(ScMessage(kind, [Entry(key, values[|values| - 1])]))
  {
    KeyBlocksSame(key, values);
    SameKeyDecode(kind, KeyBlocks(key, values), key, values[|values| - 1]);
  }

  // ----- round trips

  /** Whatever is accepted is well formed. */
  lemma AcceptedWellFormed(buffer: string)
    requires Decode(buffer).Accepted?
    ensures WellFormed(Decode(buffer).msg)
  {
    LinesOfTokens(buffer, US);
    var tokens := Tokens(buffer, US);
    var blocks := WithoutTerminator(tokens);
    forall i | 0 <= i < |blocks| ensures US !in blocks[i] {
      assert US !in tokens[i];
    }
    var lines := blocks[1..];
    var entries := Entries(lines);
    SetAllEntries(entries);
    forall e | e in SetAll([], entries) ensures PlainEntry(e) {
      var i :| 0 <= i < |lines| && entries[i] == e;
      LineOfProperty(lines[i]);
      assert lines[i] == blocks[i + 1];
      assert lines[i] == e.key + ": " + e.value;
    }
  }

  lemma PlainBlocks(m: ScMessage, c: char)
    requires c == US || c == NUL
    requires forall e :: e in m.properties ==> c !in e.key && c !in e.value
    ensures Free(Blocks(m), c)
  {
  }

  lemma PropertyPlain(m: ScMessage, property: string)
    requires WellFormed(m) && m.GetProperty(property).Some?
    ensures US !in m.GetProperty(property).value
  {
    GetFinds(m.properties, property);
    assert PlainEntry(Entry(property, Get(m.properties, property).value));
  }

  lemma EntriesOfPrinted(m: ScMessage)
    requires WellFormed(m)
    ensures AllProperties(Blocks(m)[1..]) && Entries(Blocks(m)[1..]) == m.properties
  {
    var lines := Blocks(m)[1..];
    forall i | 0 <= i < |lines| ensures PropertyOf(lines[i]) == Some(m.properties[i]) {
      assert m.properties[i] in m.properties;
      assert lines[i] == PropertyLine(m.properties[i]);
      PropertyOfLine(m.properties[i]);
    }
    assert Entries(lines) == m.properties;
  }

  lemma BlocksOfPrinted(m: ScMessage)
    requires WellFormed(m)
    ensures DecodeBlocks(Blocks(m)) == Accepted(m)
  {
    assert CStr(TypeToStr(m.kind)) == TypeToStr(m.kind);
    TypeNamed(TypeToStr(m.kind), m.kind);
    EntriesOfPrinted(m);
    SetAllOwn(m.properties);
  }

  /** Reading back a printed message gives that message exactly when it is well formed. */
  lemma RoundTrip(m: ScMessage)
    ensures Decode(Frame(m)) == Accepted(m) <==> WellFormed(m)
  {
    if WellFormed(m) {
      PlainBlocks(m, US);
      FieldsOfJoin(Blocks(m), US);
      DecodeOfBody(Encode(m));
      BlocksOfPrinted(m);
    } else if Decode(Frame(m)) == Accepted(m) {
      AcceptedWellFormed(Frame(m));
    }
  }

  /** An accepted frame has a normal form: printing what was read and reading it again changes nothing. */
  lemma NormalForm(buffer: string)
    requires Decode(buffer).Accepted?
    ensures Decode(Frame(Decode(buffer).msg)) == Decode(buffer)
  {
    AcceptedWellFormed(buffer);
    RoundTrip(Decode(buffer).msg);
  }

  /** Equal types and equal final property values mean equal bytes, however the message was built. */
  lemma CanonicalBytes(kind: ScType, a: seq<Entry>, b: seq<Entry>)
    requires forall k :: LastValue(a, k) == LastValue(b, k)
    ensures Frame(ScMessage(kind, SetAll([], a))) == Frame(ScMessage(kind, SetAll([], b)))
  {
    SameLastValues(a, b);
  }

  // ----- streams of frames

  ghost predicate NulFree(m: ScMessage) {
    forall e :: e in m.properties ==> NUL !in e.key && NUL !in e.value
  }

  lemma {:induction false} JoinFree(blocks: seq<string>, d: char, c: char)
    requires Free(blocks, c) && c != d
    ensures c !in Join(blocks, d)
  {
    if |blocks| > 1 {
      JoinFree(blocks[1..], d, c);
    }
  }

  lemma FrameIsOneFrame(m: ScMessage)
    requires NulFree(m)
    ensures OneFrame(Frame(m), NUL)
  {
    PlainBlocks(m, NUL);
    JoinFree(Blocks(m), US, NUL);
    assert Frame(m)[..|Frame(m)| - 1] == Encode(m);
  }

  /** One frame without a NUL inside brings a message without one. */
  lemma AcceptedNulFree(frame: string)
    requires OneFrame(frame, NUL) && Decode(frame).Accepted?
    ensures NulFree(Decode(frame).msg)
  {
    var body := frame[..|frame| - 1];
    assert frame == body + [NUL];
    AcceptedBodyNulFree(body);
  }

  lemma AcceptedBodyNulFree(body: string)
    requires NUL !in body && Decode(body + [NUL]).Accepted?
    ensures NulFree(Decode(body + [NUL]).msg)
  {
    DecodeOfBody(body);
    FieldsFree(body, US, NUL);
    BlocksNulFree(Fields(body, US));
  }

  lemma BlocksNulFree(blocks: seq<string>)
    requires blocks != [] && Free(blocks, NUL) && DecodeBlocks(blocks).Accepted?
    ensures NulFree(DecodeBlocks(blocks).msg)
  {
    var lines := blocks[1..];
    var entries := Entries(lines);
    SetAllEntries(entries);
    forall e | e in SetAll([], entries) ensures NUL !in e.key && NUL !in e.value {
      var i :| 0 <= i < |lines| && entries[i] == e;
      LineOfProperty(lines[i]);
      assert lines[i] == blocks[i + 1];
      assert lines[i] == e.key + ": " + e.value;
    }
  }

  lemma PropertyNulFree(m: ScMessage, property: string)
    requires NulFree(m) && m.GetProperty(property).Some?
    ensures NUL !in m.GetProperty(property).value
  {
    GetFinds(m.properties, property);
  }

  lemma NulFreeIff(m: ScMessage)
    ensures NulFree(m) <==> NUL !in Encode(m)
  {
    if NulFree(m) {
      FrameIsOneFrame(m);
      assert Frame(m)[..|Frame(m)| - 1] == Encode(m);
    } else {
      var e :| e in m.properties && (NUL in e.key || NUL in e.value);
      var i :| 0 <= i < |m.properties| && m.properties[i] == e;
      assert Blocks(m)[i + 1] == e.key + ": " + e.value;
      JoinHolds(Blocks(m), i + 1, US, NUL);
    }
  }

  lemma {:induction false} JoinHolds(blocks: seq<string>, i: nat, d: char, c: char)
    requires i < |blocks| && c in blocks[i]
    ensures c in Join(blocks, d)
  {
    if i > 0 {
      JoinHolds(blocks[1..], i - 1, d, c);
    }
  }

  /** A frame is one frame of the stream exactly when its message is free of NUL. */
  lemma PiecesOfFrame(m: ScMessage)
    ensures Cut(Frame(m), NUL) != []
    ensures NulFree(m) <==> Cut(Frame(m), NUL) == [Frame(m)]
    ensures |Cut(Frame(m), NUL)| == 1 ==> NulFree(m)
  {
    NulFreeIff(m);
    match Find(Encode(m), NUL, 0)
    case None =>
      CutFirst(Encode(m), "", NUL);
      assert Encode(m) + [NUL] + "" == Frame(m);
    case Some(i) =>
      var piece, rest := Encode(m)[..i], Encode(m)[i + 1..];
      SplitAt(Encode(m), i);
      Associates(piece + [NUL], rest, [NUL]);
      CutFirst(piece, rest + [NUL], NUL);
      CutNotEmpty(rest + [NUL], NUL);
  }

  /** The stream of frames has one frame for each message at least, and no more exactly without NULs. */
  lemma {:induction false} StreamCount(ms: seq<ScMessage>)
    ensures |Cut(Concat(Frames(ms)), NUL)| >= |ms|
    ensures |Cut(Concat(Frames(ms)), NUL)| == |ms| ==> forall i :: 0 <= i < |ms| ==> NulFree(ms[i])
  {
    if ms != [] {
      assert Frames(ms)[1..] == Frames(ms[1..]);
      CutAppend(Frame(ms[0]), Concat(Frames(ms[1..])), NUL);
      PiecesOfFrame(ms[0]);
      StreamCount(ms[1..]);
    }
  }

  lemma CutFrames(ms: seq<ScMessage>)
    requires forall i :: 0 <= i < |ms| ==> NulFree(ms[i])
    ensures Cut(Concat(Frames(ms)), NUL) == Frames(ms)
  {
    forall i | 0 <= i < |ms| ensures OneFrame(Frames(ms)[i], NUL) {
      FrameIsOneFrame(ms[i]);
    }
    CutOfConcat(Frames(ms), NUL);
  }

  /** Cutting a stream at each NUL gives these messages, in order. */
  ghost predicate StreamReads(stream: string, ms: seq<ScMessage>) {
    var frames := Cut(stream, NUL);
    |frames| == |ms| && forall i :: 0 <= i < |ms| ==> Decode(frames[i]) == Accepted(ms[i])
  }

  /** Cutting the stream of written frames recovers the messages exactly when all are well formed and free of NUL. */
  lemma StreamDecodes(ms: seq<ScMessage>)
    ensures StreamReads(Concat(Frames(ms)), ms) <==> forall i :: 0 <= i < |ms| ==> WellFormed(ms[i]) && NulFree(ms[i])
  {
    StreamCount(ms);
    if forall i :: 0 <= i < |ms| ==> NulFree(ms[i]) {
      CutFrames(ms);
      forall i | 0 <= i < |ms| ensures Decode(Frames(ms)[i]) == Accepted(ms[i]) <==> WellFormed(ms[i]) {
        RoundTrip(ms[i]);
      }
    }
  }

  function Frames(ms: seq<ScMessage>): seq<string> {
    seq(|ms|, i requires 0 <= i < |ms| => Frame(ms[i]))
  }

  /** No frame is a proper prefix of another, and equal frames come from equal messages. */
  lemma PrefixCode(a: ScMessage, b: ScMessage)
    requires WellFormed(a) && WellFormed(b) && NulFree(b)
    requires Frame(a) <= Frame(b)
    ensures a == b
  {
    FrameIsOneFrame(b);
    FramePrefix(Frame(a), Frame(b), NUL);
    RoundTrip(a);
    RoundTrip(b);
    assert Accepted(a) == Decode(Frame(b)) == Accepted(b);
  }

  // ----- reading and building messages

  /** `Deserialize` has no defined meaning exactly for an empty buffer and one whose last block is empty. */
  lemma UndefinedIff(buffer: string)
    ensures Decode(buffer) == Undefined <==> buffer == "" || EndsEmpty(buffer, US)
  {
    if buffer != "" {
      LastTokenEmptyIff(buffer, US);
    }
  }

  /**
   * What `ReadScMessage` makes of its buffer: a refused one comes back whole, as END with the text in
   * property "data". `None` where `Deserialize` has no defined meaning.
   */
  ghost function Received(buffer: string): Option<ScMessage> {
    match Decode(buffer)
    case Accepted(m) => Some(m)
    case Rejected => Some(ScMessage(END, []).SetProperty("data", buffer))
    case Undefined => None
  }

  /** The buffer may go on after the NUL that `read_until` stops at; all of it is parsed. */
  method ReadScMessage(buffer: string) returns (res: Option<ScMessage>)
    ensures res == Received(buffer)
  {
    var parsed := Deserialize(buffer);
    match parsed
    case Accepted(m) => res := Some(m);
    case Rejected => res := Some(ScMessage(END, []).SetProperty("data", buffer));
    case Undefined => res := None;
  }

  /** A refused buffer is handed on as it came, and it is the only thing that is read as END. */
  lemma ReceivedEnd(buffer: string)
    ensures Received(buffer).None? <==> buffer == "" || EndsEmpty(buffer, US)
    ensures Received(buffer).Some? && Received(buffer).value.kind == END <==> Decode(buffer) == Rejected
    ensures Decode(buffer) == Rejected ==> Received(buffer).value.GetProperty("data") == Some(buffer)
  {
    UndefinedIff(buffer);
  }

  /** `None` where `GetAuthScMessage` throws `std::invalid_argument`: the type is no authentication type. */
  function GetAuthScMessage(kind: ScType, username: string, password: string): Option<ScMessage> {
    if kind != LOGIN && kind != REGISTER then None
    else Some(ScMessage(kind, []).SetProperty("username", username).SetProperty("password", password))
  }

  lemma PropertyNames()
    ensures ':' !in "username" && US !in "username" && NUL !in "username"
    ensures ':' !in "password" && US !in "password" && NUL !in "password"
    ensures ':' !in "message[0]" && US !in "message[0]" && NUL !in "message[0]"
    ensures "username" != "password"
  {
  }

  /** A request is built for a login and a registration only, and is of that type. */
  lemma AuthMessageIff(kind: ScType, username: string, password: string)
    ensures GetAuthScMessage(kind, username, password).Some? <==> kind == LOGIN || kind == REGISTER
    ensures kind == LOGIN || kind == REGISTER ==> GetAuthScMessage(kind, username, password).value.kind == kind
  {
  }

  lemma AuthProperties(kind: ScType, username: string, password: string)
    requires kind == LOGIN || kind == REGISTER
    ensures var m := GetAuthScMessage(kind, username, password).value;
      && m.GetProperty("username") == Some(username)
      && m.GetProperty("password") == Some(password)
      && (WellFormed(m) <==> US !in username && US !in password)
  {
    PropertyNames();
    TwoProperties(kind, "username", username, "password", password);
    var m := ScMessage(kind, []).SetProperty("username", username).SetProperty("password", password);
    assert Entry("username", username) in m.properties && Entry("password", password) in m.properties;
  }

  lemma TwoProperties(kind: ScType, k: string, v: string, l: string, w: string)
    requires k != l
    ensures var m := ScMessage(kind, []).SetProperty(k, v).SetProperty(l, w);
      && m.GetProperty(k) == Some(v)
      && m.GetProperty(l) == Some(w)
      && (forall e :: e in m.properties <==> e == Entry(k, v) || e == Entry(l, w))
  {
    var empty: Table := [];
    var one := Set(empty, k, v);
    var two := Set(one, l, w);
    GetSet(empty, k, v, k);
    GetSet(one, l, w, k);
    GetSet(one, l, w, l);
    PutEntries(one, l, w);
    assert one == [Entry(k, v)];
    forall e | e in two ensures e == Entry(k, v) || e == Entry(l, w) {}
  }
}
