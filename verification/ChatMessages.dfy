/** The chat message and its three-line text form, nested in the property "message[0]" of a frame. */
module ChatMessages {
  import opened Wrappers
  import opened Text
  import opened Tables
  import opened Times
  import opened ScMessages

  /** `T` is the time: broken-down in the text form, ticks of the clock in a pack. */
  datatype Message<+T> = Message(username: string, text: string, time: T)

  // ----- printing

  /** The name that is printed: an empty one becomes a dash. */
  function ShownName(username: string): string {
    if username == "" then "-" else username
  }

  function Print(m: Message<Stamp>): string {
    ShownName(m.username) + "\n" + Format(m.time) + "\n" + m.text
  }

  method Serialize(m: Message<Stamp>) returns (res: string)
    ensures res == Print(m)
  {
    res := if |m.username| != 0 then m.username else "-";
    var time := TimePointToStr(m.time);
    res := res + "\n" + time;
    res := res[..|res| - 1];
    assert res == ShownName(m.username) + "\n" + Format(m.time);
    res := res + "\n" + m.text;
  }

  // ----- parsing

  /** `None` where `Message::Deserialize` throws `std::invalid_argument`. */
  function Parse(src: string): Option<Message<Civil>> {
    var first := Find(src, '\n', 0);
    if first.None? then None
    else ParseAfterName(src, first.value, Find(src, '\n', first.value + 1))
  }

  function ParseAfterName(src: string, first: nat, second: Option<nat>): Option<Message<Civil>>
    requires first < |src|
    requires second.Some? ==> first < second.value < |src|
  {
    if second.None? then None
    else
      var time := TimePointFromStr(src[first + 1..second.value]);
      if time.None? then None
      else Some(Message(src[..first], src[second.value + 1..], time.value))
  }

  /** A search that starts from `npos + 1` starts at 0. */
  method Deserialize(src: string) returns (res: Option<Message<Civil>>)
    ensures res == Parse(src)
  {
    var first := Find(src, '\n', 0);
    var second := Find(src, '\n', if first.Some? then first.value + 1 else 0);
    if first.None? || second.None? {
      return None;
    }
    res := ReadFields(src, first.value, second.value);
  }

  method ReadFields(src: string, first: nat, second: nat) returns (res: Option<Message<Civil>>)
    requires first < second < |src|
    ensures res == ParseAfterName(src, first, Some(second))
  {
    var username := src[..first];
    var date := src[first + 1..second];
    var text := src[second + 1..];
    var time := TimePointFromStr(date);
    return if time.None? then None else Some(Message(username, text, time.value));
  }

  // ----- the accepted language

  /** Three lines, the first two ended by a newline that they do not contain. */
  ghost predicate ThreeLines(src: string, name: string, date: string, text: string) {
    src == name + ['\n'] + (date + ['\n'] + text) && '\n' !in name && '\n' !in date
  }

  /** The form of a message: a name, a time that is read, and the text. */
  ghost predicate MessageText(src: string, m: Message<Civil>, date: string) {
    ThreeLines(src, m.username, date, m.text) && TimePointFromStr(date) == Some(m.time)
  }

  /** A text is read as a message exactly if it is that message in this form. */
  lemma ParseIff(src: string, m: Message<Civil>)
    ensures Parse(src) == Some(m) <==> exists date :: MessageText(src, m, date)
  {
    if Parse(src) == Some(m) {
      ParsedForm(src);
    }
    if date :| MessageText(src, m, date) {
      LinesParse(src, m.username, date, m.text);
    }
  }

  /** A text is refused exactly if it is no message in this form. */
  lemma RefusedIff(src: string)
    ensures Parse(src).None? <==> forall m, date :: !MessageText(src, m, date)
  {
    if Parse(src).Some? {
      ParsedForm(src);
    }
    if m, date :| MessageText(src, m, date) {
      LinesParse(src, m.username, date, m.text);
    }
  }

  lemma ParsedForm(src: string)
    requires Parse(src).Some?
    ensures exists date :: MessageText(src, Parse(src).value, date)
  {
    var first := Find(src, '\n', 0).value;
    var second := Find(src, '\n', first + 1).value;
    LinesSplit(src, first, second);
    LinesParse(src, src[..first], src[first + 1..second], src[second + 1..]);
    assert MessageText(src, Parse(src).value, src[first + 1..second]);
  }

  lemma LinesSplit(src: string, first: nat, second: nat)
    requires Find(src, '\n', 0) == Some(first) && Find(src, '\n', first + 1) == Some(second)
    ensures ThreeLines(src, src[..first], src[first + 1..second], src[second + 1..])
  {
    var tail, k := src[first + 1..], second - first - 1;
    SplitLine(src, first);
    SplitLine(tail, k);
    SameSlices(src, first + 1, k);
    LineFree(src, 0, first);
    assert src[0..first] == src[..first];
    LineFree(src, first + 1, second);
    LinesOf(src, src[..first], tail, src[first + 1..second], src[second + 1..]);
  }

  lemma LineFree(s: string, from: nat, to: nat)
    requires from <= to <= |s| && forall j :: from <= j < to ==> s[j] != '\n'
    ensures '\n' !in s[from..to]
  {
  }

  lemma LinesOf(src: string, name: string, tail: string, date: string, text: string)
    requires src == name + ['\n'] + tail && tail == date + ['\n'] + text
    requires '\n' !in name && '\n' !in date
    ensures ThreeLines(src, name, date, text)
  {
  }

  lemma SplitLine(s: string, k: nat)
    requires k < |s| && s[k] == '\n'
    ensures s == s[..k] + ['\n'] + s[k + 1..]
  {
    SplitAt(s, k);
  }

  lemma SameSlices(s: string, from: nat, k: nat)
    requires from + k < |s|
    ensures s[from..][..k] == s[from..from + k] && s[from..][k + 1..] == s[from + k + 1..]
  {
  }

  /** Three lines are read as a message exactly if the second is a time. */
  lemma LinesParse(src: string, name: string, date: string, text: string)
    requires ThreeLines(src, name, date, text)
    ensures Parse(src) == Dated(name, TimePointFromStr(date), text)
  {
    LinesFound(src, name, date, text);
    ParsedLines(src, |name|, |name| + 1 + |date|, name, date, text);
  }

  lemma ParsedLines(src: string, first: nat, second: nat, name: string, date: string, text: string)
    requires Find(src, '\n', 0) == Some(first) && Find(src, '\n', first + 1) == Some(second)
    requires name == src[..first] && date == src[first + 1..second] && text == src[second + 1..]
    ensures Parse(src) == Dated(name, TimePointFromStr(date), text)
  {
    ParsedAfterName(src, first, second);
    FieldsAfterName(src, first, second, name, date, text);
  }

  /** The message of three lines, when the second is read as this time. */
  function Dated(name: string, time: Option<Civil>, text: string): Option<Message<Civil>> {
    if time.None? then None else Some(Message(name, text, time.value))
  }

  lemma ParsedAfterName(src: string, first: nat, second: nat)
    requires Find(src, '\n', 0) == Some(first) && Find(src, '\n', first + 1) == Some(second)
    ensures Parse(src) == ParseAfterName(src, first, Some(second))
  {
  }

  lemma FieldsAfterName(src: string, first: nat, second: nat, name: string, date: string, text: string)
    requires first < second < |src|
    requires name == src[..first] && date == src[first + 1..second] && text == src[second + 1..]
    ensures ParseAfterName(src, first, Some(second)) == Dated(name, TimePointFromStr(date), text)
  {
  }

  lemma LinesFound(src: string, name: string, date: string, text: string)
    requires ThreeLines(src, name, date, text)
    ensures var first, second := |name|, |name| + 1 + |date|;
      && second < |src| && Find(src, '\n', 0) == Some(first) && Find(src, '\n', first + 1) == Some(second)
      && src[..first] == name && src[first + 1..second] == date && src[second + 1..] == text
  {
    var first, second := |name|, |name| + 1 + |date|;
    assert src[..first] == name && src[first] == '\n';
    FirstIndex(src, '\n', first);
    assert src[first + 1..second] == date && src[second] == '\n' && src[second + 1..] == text;
    forall j | first < j < second ensures src[j] != '\n' {
      assert src[j] == date[j - first - 1];
    }
  }

  /** A text that is read has two newlines at least; so one with fewer is refused. */
  lemma TwoNewlinesNeeded(src: string)
    ensures Parse(src).Some? ==> exists i, j :: 0 <= i < j < |src| && src[i] == '\n' && src[j] == '\n'
  {
    if Parse(src).Some? {
      var first := Find(src, '\n', 0).value;
      var second := Find(src, '\n', first + 1).value;
      assert first < second && src[first] == '\n' && src[second] == '\n';
    }
  }

  // ----- round trip

  /** Text and time always survive when the name has no newline; an empty name comes back as a dash. */
  lemma PrintedParses(m: Message<Stamp>)
    requires '\n' !in m.username
    ensures Parse(Print(m)) == Some(Message(ShownName(m.username), m.text, m.time))
    ensures ShownName(m.username) == m.username || (m.username == "" && ShownName(m.username) == "-")
  {
    var src := Print(m);
    var name, date := ShownName(m.username), Format(m.time);
    FormatPlain(m.time);
    assert src[..|name|] == name && src[|name|] == '\n';
    FirstIndex(src, '\n', |name|);
    var second := |name| + 1 + |date|;
    assert src[|name| + 1..second] == date && src[second] == '\n' && src[second + 1..] == m.text;
    assert Find(src, '\n', |name| + 1) == Some(second) by {
      forall j | |name| < j < second ensures src[j] != '\n' {
        assert src[j] == date[j - |name| - 1];
      }
    }
    TimeRoundTrip(m.time);
  }

  lemma ParsedParts(src: string)
    requires Parse(src).Some?
    ensures '\n' !in Parse(src).value.username
    ensures forall c :: c !in src ==> c !in Parse(src).value.username && c !in Parse(src).value.text
  {
  }

  /** A message is read back unchanged exactly when its name is not empty and has no newline. */
  lemma MessageRoundTrip(m: Message<Stamp>)
    ensures Parse(Print(m)) == Some(m) <==> m.username != "" && '\n' !in m.username
  {
    if '\n' !in m.username {
      PrintedParses(m);
    } else if Parse(Print(m)).Some? {
      ParsedParts(Print(m));
    }
  }

  // ----- the frame around it

  function GetMessageScMessage(m: Message<Stamp>): ScMessage {
    ScMessage(MESSAGE, []).SetProperty("message[0]", Print(m))
  }

  /** The frames of several messages carry these. */
  function Messages(ms: seq<Message<Stamp>>): seq<ScMessage> {
    seq(|ms|, n requires 0 <= n < |ms| => GetMessageScMessage(ms[n]))
  }

  /** No separator splits the message inside its frame. */
  predicate Separable(m: Message<Stamp>) {
    US !in m.username && US !in m.text
  }

  lemma MessageProperty(m: Message<Stamp>)
    ensures var sc := GetMessageScMessage(m);
      && sc.properties == [Entry("message[0]", Print(m))]
      && sc.GetProperty("message[0]") == Some(Print(m))
  {
  }

  lemma PrintPlain(m: Message<Stamp>, c: char)
    requires c == US || c == NUL
    ensures c !in Print(m) <==> c !in m.username && c !in m.text
  {
    FormatPlain(m.time);
    var name := ShownName(m.username);
    assert Print(m) == name + ("\n" + Format(m.time) + "\n") + m.text;
    assert c !in "\n" + Format(m.time) + "\n";
    assert c !in name <==> c !in m.username;
  }

  /** The frame of a chat message is well formed exactly when no separator hides in name or text. */
  lemma MessageFrameWellFormed(m: Message<Stamp>)
    ensures WellFormed(GetMessageScMessage(m)) <==> US !in m.username && US !in m.text
    ensures NulFree(GetMessageScMessage(m)) <==> NUL !in m.username && NUL !in m.text
  {
    var sc := GetMessageScMessage(m);
    MessageProperty(m);
    PropertyNames();
    PrintPlain(m, US);
    PrintPlain(m, NUL);
    assert Entry("message[0]", Print(m)) in sc.properties;
  }
}
