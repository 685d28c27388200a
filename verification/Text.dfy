/** Strings as the program uses them: `find`, `getline` splitting, C strings and stream cutting. */
module Text {
  import opened Wrappers

  /** Ends a frame on the wire. */
  const NUL: char := '\0'

  /** ASCII 31, the unit separator between the blocks of a frame. */
  const US: char := '\U{1F}'

  // ----- searching

  /** `std::string::find(c, from)`; `None` stands for `npos`. */
  function Find(s: string, c: char, from: nat): (r: Option<nat>)
    ensures r.Some? ==> from <= r.value < |s| && s[r.value] == c
    ensures r.Some? ==> forall j :: from <= j < r.value ==> s[j] != c
    ensures r.None? ==> forall j :: from <= j < |s| ==> s[j] != c
    decreases |s| - from
  {
    if from >= |s| then None
    else if s[from] == c then Some(from)
    else Find(s, c, from + 1)
  }

  /** What a C function sees of a string: everything before the first NUL. */
  function CStr(s: string): (r: string)
    ensures NUL !in r && r <= s
    ensures r == s || (|r| < |s| && s[|r|] == NUL)
  {
    match Find(s, NUL, 0)
    case None => s
    case Some(i) => s[..i]
  }

  // ----- blocks and their separator

  /** No block contains the separator. */
  ghost predicate Free(blocks: seq<string>, d: char) {
    forall i :: 0 <= i < |blocks| ==> d !in blocks[i]
  }

  /** The blocks with one separator between neighbours. */
  function Join(blocks: seq<string>, d: char): string {
    if |blocks| == 0 then ""
    else if |blocks| == 1 then blocks[0]
    else blocks[0] + [d] + Join(blocks[1..], d)
  }

  /** Every block between two separators, empty ones included. */
  function Fields(s: string, d: char): (fields: seq<string>)
    ensures |fields| >= 1
    decreases |s|
  {
    match Find(s, d, 0)
    case None => [s]
    case Some(i) => [s[..i]] + Fields(s[i + 1..], d)
  }

  lemma {:induction false} JoinOfFields(s: string, d: char)
    ensures Free(Fields(s, d), d)
    ensures Join(Fields(s, d), d) == s
    decreases |s|
  {
    match Find(s, d, 0)
    case None =>
    case Some(i) =>
      JoinOfFields(s[i + 1..], d);
      var rest := Fields(s[i + 1..], d);
      assert ([s[..i]] + rest)[1..] == rest;
      assert s == s[..i] + [d] + s[i + 1..];
  }

  lemma {:induction false} FieldsOfJoin(blocks: seq<string>, d: char)
    requires blocks != [] && Free(blocks, d)
    ensures Fields(Join(blocks, d), d) == blocks
  {
    var head, tail := blocks[0], blocks[1..];
    if tail == [] {
      assert Find(head, d, 0) == None;
    } else {
      var rest := Join(tail, d);
      var s := head + [d] + rest;
      assert s[..|head|] == head && s[|head| + 1..] == rest;
      FirstIndex(s, d, |head|);
      FieldsOfJoin(tail, d);
      assert blocks == [head] + tail;
    }
  }

  lemma {:induction false} FieldsFree(s: string, d: char, c: char)
    requires c !in s
    ensures Free(Fields(s, d), c)
    decreases |s|
  {
    match Find(s, d, 0)
    case None =>
    case Some(i) =>
      FieldsFree(s[i + 1..], d, c);
  }

  lemma FieldsFirst(piece: string, rest: string, d: char)
    requires d !in piece
    ensures Fields(piece + [d] + rest, d) == [piece] + Fields(rest, d)
  {
    var s := piece + [d] + rest;
    assert s[..|piece|] == piece && s[|piece| + 1..] == rest;
    FirstIndex(s, d, |piece|);
  }

  lemma FieldsSingle(piece: string, d: char)
    requires d !in piece
    ensures Fields(piece, d) == [piece]
  {
    assert Find(piece, d, 0) == None;
  }

  /** A prefix without the separator belongs to the first block. */
  lemma FieldsAfterPrefix(prefix: string, s: string, d: char)
    requires d !in prefix
    ensures Fields(prefix + s, d) == [prefix + Fields(s, d)[0]] + Fields(s, d)[1..]
  {
    match Find(s, d, 0)
    case None =>
      FieldsSingle(s, d);
      FieldsSingle(prefix + s, d);
    case Some(i) =>
      var piece, rest := s[..i], s[i + 1..];
      SplitAt(s, i);
      assert prefix + s == (prefix + piece) + [d] + rest;
      FieldsFirst(piece, rest, d);
      FieldsFirst(prefix + piece, rest, d);
  }

  /** The blocks of two texts joined by a separator. */
  lemma {:induction false} FieldsAppend(a: string, b: string, d: char)
    ensures Fields(a + [d] + b, d) == Fields(a, d) + Fields(b, d)
    decreases |a|
  {
    match Find(a, d, 0)
    case None =>
      FieldsSingle(a, d);
      FieldsFirst(a, b, d);
    case Some(i) =>
      var piece, rest := a[..i], a[i + 1..];
      SplitAt(a, i);
      FieldsFirst(piece, rest, d);
      assert a + [d] + b == piece + [d] + (rest + [d] + b);
      FieldsFirst(piece, rest + [d] + b, d);
      FieldsAppend(rest, b, d);
      Associates([piece], Fields(rest, d), Fields(b, d));
  }

  // ----- getline splitting

  /** The tokens that repeated `std::getline` calls extract: an empty last block is dropped. */
  function Tokens(s: string, d: char): seq<string>
    decreases |s|
  {
    if s == "" then []
    else
      match Find(s, d, 0)
      case None => [s]
      case Some(i) => [s[..i]] + Tokens(s[i + 1..], d)
  }

  lemma TokensFirst(line: string, rest: string, d: char)
    requires d !in line
    ensures Tokens(line + [d] + rest, d) == [line] + Tokens(rest, d)
  {
    var s := line + [d] + rest;
    assert s[..|line|] == line && s[|line| + 1..] == rest;
    FirstIndex(s, d, |line|);
  }

  lemma TokensSingle(line: string, d: char)
    requires line != "" && d !in line
    ensures Tokens(line, d) == [line]
  {
    assert Find(line, d, 0) == None;
  }

  /** One `std::getline`: extracts up to the delimiter, which it consumes, or to the end. */
  method GetLine(src: string, start: nat, delimiter: char) returns (token: string, next: nat)
    requires start < |src|
    ensures start < next <= |src|
    ensures Tokens(src[start..], delimiter) == [token] + Tokens(src[next..], delimiter)
  {
    var pos := start;
    token := "";
    while pos < |src| && src[pos] != delimiter
      invariant start <= pos <= |src|
      invariant token == src[start..pos] && delimiter !in token
    {
      token := token + [src[pos]];
      pos := pos + 1;
    }
    LineAt(src, start, pos, delimiter);
    next := if pos < |src| then pos + 1 else pos;
  }

  lemma LineAt(src: string, start: nat, pos: nat, d: char)
    requires start <= pos <= |src| && start < |src|
    requires d !in src[start..pos] && (pos < |src| ==> src[pos] == d)
    ensures Tokens(src[start..], d)
            == [src[start..pos]] + Tokens(src[if pos < |src| then pos + 1 else pos..], d)
  {
    if pos < |src| {
      assert src[start..] == src[start..pos] + [d] + src[pos + 1..];
      TokensFirst(src[start..pos], src[pos + 1..], d);
    } else {
      assert src[start..] == src[start..pos] && src[pos..] == "";
      TokensSingle(src[start..], d);
    }
  }

  /** The loop of `internal::Split`: one `getline` a round. */
  method Split(src: string, delimiter: char) returns (tokens: seq<string>)
    ensures tokens == Tokens(src, delimiter)
  {
    tokens := [];
    var pos := 0;
    assert src[0..] == src;
    while pos < |src|
      invariant 0 <= pos <= |src|
      invariant tokens + Tokens(src[pos..], delimiter) == Tokens(src, delimiter)
    {
      var token, next := GetLine(src, pos, delimiter);
      PushAssociates(tokens, token, Tokens(src[next..], delimiter));
      tokens := tokens + [token];
      pos := next;
    }
  }

  lemma PushAssociates<T>(front: seq<T>, x: T, back: seq<T>)
    ensures front + ([x] + back) == (front + [x]) + back
  {
  }

  lemma Associates<T>(a: seq<T>, b: seq<T>, c: seq<T>)
    ensures (a + b) + c == a + (b + c)
  {
  }

  lemma FirstIndex(s: string, c: char, i: nat)
    requires i < |s| && s[i] == c && c !in s[..i]
    ensures Find(s, c, 0) == Some(i)
  {
  }

  /** A terminator after the last block keeps `getline` from dropping it. */
  lemma {:induction false} TokensOfTerminated(s: string, c: char, d: char)
    requires c != d
    ensures var fields := Fields(s, d);
      Tokens(s + [c], d) == fields[..|fields| - 1] + [fields[|fields| - 1] + [c]]
    decreases |s|
  {
    match Find(s, d, 0)
    case None =>
      FieldsSingle(s, d);
      TokensSingle(s + [c], d);
    case Some(i) =>
      var piece, rest := s[..i], s[i + 1..];
      SplitAt(s, i);
      Associates(piece + [d], rest, [c]);
      TokensFirst(piece, rest + [c], d);
      FieldsFirst(piece, rest, d);
      TokensOfTerminated(rest, c, d);
      LastExtended(piece, Fields(rest, d), [c]);
  }

  lemma LastExtended(first: string, fields: seq<string>, tail: string)
    requires fields != []
    ensures var all := [first] + fields;
      all[..|all| - 1] + [all[|all| - 1] + tail]
      == [first] + (fields[..|fields| - 1] + [fields[|fields| - 1] + tail])
  {
  }

  /** A final separator that does not follow another changes no token. */
  lemma {:induction false} TokensOfEnded(s: string, d: char)
    requires s != "" && s[|s| - 1] != d
    ensures Tokens(s + [d], d) == Tokens(s, d)
    decreases |s|
  {
    match Find(s, d, 0)
    case None =>
      TokensSingle(s, d);
      TokensFirst(s, "", d);
      assert s + [d] + "" == s + [d];
    case Some(i) =>
      var piece, rest := s[..i], s[i + 1..];
      SplitAt(s, i);
      Associates(piece + [d], rest, [d]);
      TokensFirst(piece, rest + [d], d);
      TokensFirst(piece, rest, d);
      TokensOfEnded(rest, d);
  }

  /** Two separators end the text, or it is a single one. */
  predicate EndsEmpty(s: string, d: char) {
    s == [d] || (|s| >= 2 && s[|s| - 1] == d && s[|s| - 2] == d)
  }

  /** The last token is empty exactly when the one separator that `getline` drops follows another. */
  lemma {:induction false} LastTokenEmptyIff(s: string, d: char)
    requires s != ""
    ensures Tokens(s, d) != []
    ensures Tokens(s, d)[|Tokens(s, d)| - 1] == "" <==> EndsEmpty(s, d)
    decreases |s|
  {
    match Find(s, d, 0)
    case None =>
    case Some(i) =>
      EndsEmptyBehind(s, i, d);
      if s[i + 1..] != "" {
        LastTokenEmptyIff(s[i + 1..], d);
      }
  }

  lemma EndsEmptyBehind(s: string, i: nat, d: char)
    requires i < |s| && s[i] == d && d !in s[..i]
    ensures EndsEmpty(s, d) <==> if i == |s| - 1 then i == 0 else EndsEmpty(s[i + 1..], d)
  {
    var rest := s[i + 1..];
    if |rest| >= 2 {
      assert rest[|rest| - 1] == s[|s| - 1] && rest[|rest| - 2] == s[|s| - 2];
    } else if |rest| == 1 {
      assert rest == [s[|s| - 1]];
    } else if i > 0 {
      assert s[..i][i - 1] == s[i - 1];
    }
  }

  /** Every line followed by the separator. */
  function Lines(lines: seq<string>, d: char): string {
    if lines == [] then "" else lines[0] + [d] + Lines(lines[1..], d)
  }

  lemma {:induction false} TokensOfLines(lines: seq<string>, d: char)
    requires Free(lines, d)
    ensures Tokens(Lines(lines, d), d) == lines
  {
    if lines != [] {
      TokensFirst(lines[0], Lines(lines[1..], d), d);
      TokensOfLines(lines[1..], d);
    }
  }

  /** Text after the last separator is split on its own. */
  lemma {:induction false} TokensAfterLines(lines: seq<string>, tail: string, d: char)
    requires Free(lines, d)
    ensures Tokens(Lines(lines, d) + tail, d) == lines + Tokens(tail, d)
  {
    if lines == [] {
      assert Lines(lines, d) + tail == tail;
    } else {
      var line, rest := lines[0], Lines(lines[1..], d);
      Associates(line + [d], rest, tail);
      TokensFirst(line, rest + tail, d);
      TokensAfterLines(lines[1..], tail, d);
      Associates([line], lines[1..], Tokens(tail, d));
      assert lines == [line] + lines[1..];
    }
  }

  /** The text with its final separator, unless it is empty or has one. */
  function Ended(s: string, d: char): string {
    if s == "" || s[|s| - 1] == d then s else s + [d]
  }

  lemma EndedSplit(s: string, i: nat, d: char)
    requires i < |s| && s[i] == d
    ensures Ended(s, d) == s[..i] + [d] + Ended(s[i + 1..], d)
  {
  }

  /** Terminating the tokens again restores the text, up to a missing final separator. */
  lemma {:induction false} LinesOfTokens(s: string, d: char)
    ensures Free(Tokens(s, d), d)
    ensures Lines(Tokens(s, d), d) == Ended(s, d)
    decreases |s|
  {
    if s != "" {
      match Find(s, d, 0)
      case None =>
        LinesCons(s, [], d);
      case Some(i) =>
        LinesOfTokens(s[i + 1..], d);
        LinesCons(s[..i], Tokens(s[i + 1..], d), d);
        EndedSplit(s, i, d);
    }
  }

  lemma LinesCons(line: string, rest: seq<string>, d: char)
    ensures Lines([line] + rest, d) == line + [d] + Lines(rest, d)
    ensures d !in line && Free(rest, d) ==> Free([line] + rest, d)
  {
  }

  lemma {:induction false} LinesAppend(a: seq<string>, b: seq<string>, d: char)
    ensures Lines(a + b, d) == Lines(a, d) + Lines(b, d)
  {
    if a == [] {
      assert a + b == b;
    } else {
      assert (a + b)[1..] == a[1..] + b;
      LinesAppend(a[1..], b, d);
    }
  }

  /** The function on every element, in order. */
  function Each<T, U>(f: T -> U, xs: seq<T>): seq<U> {
    seq(|xs|, i requires 0 <= i < |xs| => f(xs[i]))
  }

  lemma EachAppend<T, U>(f: T -> U, a: seq<T>, b: seq<T>)
    ensures Each(f, a + b) == Each(f, a) + Each(f, b)
  {
  }

  lemma EachSingle<T, U>(f: T -> U, x: T)
    ensures Each(f, [x]) == [f(x)]
  {
  }

  // ----- frames in a byte stream

  /** The complete frames in a stream, each with the terminator that `read_until` stops at. */
  function Cut(stream: string, d: char): seq<string>
    decreases |stream|
  {
    match Find(stream, d, 0)
    case None => []
    case Some(i) => [stream[..i + 1]] + Cut(stream[i + 1..], d)
  }

  function Concat(frames: seq<string>): string {
    if frames == [] then "" else frames[0] + Concat(frames[1..])
  }

  /** The terminator occurs once, at the end. */
  predicate OneFrame(frame: string, d: char) {
    frame != "" && frame[|frame| - 1] == d && d !in frame[..|frame| - 1]
  }

  lemma CutFirst(piece: string, rest: string, d: char)
    requires d !in piece
    ensures Cut(piece + [d] + rest, d) == [piece + [d]] + Cut(rest, d)
  {
    var s := piece + [d] + rest;
    assert s[..|piece| + 1] == piece + [d] && s[|piece| + 1..] == rest;
    assert s[..|piece|] == piece;
    FirstIndex(s, d, |piece|);
  }

  /** Bytes without a terminator behind the last one are no frame yet. */
  lemma CutIncomplete(s: string, tail: string, d: char)
    requires (s == "" || s[|s| - 1] == d) && d !in tail
    ensures Cut(s + tail, d) == Cut(s, d)
  {
    CutAppend(s, tail, d);
  }

  lemma CutNotEmpty(s: string, d: char)
    requires d in s
    ensures Cut(s, d) != []
  {
  }

  lemma {:induction false} CutOfConcat(frames: seq<string>, d: char)
    requires forall i :: 0 <= i < |frames| ==> OneFrame(frames[i], d)
    ensures Cut(Concat(frames), d) == frames
  {
    if frames != [] {
      var piece := frames[0][..|frames[0]| - 1];
      assert frames[0] == piece + [d];
      CutFirst(piece, Concat(frames[1..]), d);
      CutOfConcat(frames[1..], d);
    }
  }

  /** A stream that ends at a terminator is cut on its own, whatever follows it. */
  lemma {:induction false} CutAppend(a: string, b: string, d: char)
    requires a == "" || a[|a| - 1] == d
    ensures Cut(a + b, d) == Cut(a, d) + Cut(b, d)
    decreases |a|
  {
    if a == "" {
      assert a + b == b;
    } else {
      var i := Find(a, d, 0).value;
      var piece, rest := a[..i], a[i + 1..];
      SplitAt(a, i);
      CutFirst(piece, rest, d);
      Associates(piece + [d], rest, b);
      CutFirst(piece, rest + b, d);
      assert rest == "" || rest[|rest| - 1] == a[|a| - 1];
      CutAppend(rest, b, d);
      Associates([piece + [d]], Cut(rest, d), Cut(b, d));
    }
  }

  lemma SplitAt(s: string, i: nat)
    requires i < |s|
    ensures s == s[..i] + [s[i]] + s[i + 1..]
  {
  }

  /** A terminated string that starts a frame is that frame. */
  lemma FramePrefix(f: string, g: string, d: char)
    requires OneFrame(g, d)
    requires f != "" && f[|f| - 1] == d && f <= g
    ensures f == g
  {
  }
}
