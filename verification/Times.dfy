/** Broken-down times and the fixed format `%d.%m.%Y %H:%M:%S`. */
module Times {
  import opened Wrappers
  import opened Text

  datatype Civil = Civil(day: nat, month: nat, year: nat, hour: nat, minute: nat, second: nat)

  predicate Printable(c: Civil) {
    && 1 <= c.day <= 31 && 1 <= c.month <= 12 && 1000 <= c.year <= 9999
    && c.hour <= 23 && c.minute <= 59 && c.second <= 60
  }

  /** A broken-down time whose year takes the four digits the 20-byte buffer has room for. */
  type Stamp = c: Civil | Printable(c) witness Civil(1, 1, 1970, 0, 0, 0)

  // ----- digits

  function Digit(d: nat): (c: char)
    requires d < 10
    ensures IsDigit(c)
  {
    ('0' as int + d) as char
  }

  predicate IsDigit(c: char) {
    '0' <= c <= '9'
  }

  function TwoDigits(n: nat): string
    requires n < 100
  {
    [Digit(n / 10), Digit(n % 10)]
  }

  function FourDigits(n: nat): string
    requires n < 10000
  {
    TwoDigits(n / 100) + TwoDigits(n % 100)
  }

  function DigitValue(c: char): (d: nat)
    requires IsDigit(c)
    ensures d < 10 && Digit(d) == c
  {
    c as int - '0' as int
  }

  function Value(digits: string): nat
    requires forall c :: c in digits ==> IsDigit(c)
  {
    if digits == "" then 0
    else 10 * Value(digits[..|digits| - 1]) + DigitValue(digits[|digits| - 1])
  }

  lemma ValueOfTwoDigits(n: nat)
    requires n < 100
    ensures Value(TwoDigits(n)) == n
  {
    var s := TwoDigits(n);
    var tens := [Digit(n / 10)];
    assert s[..1] == tens && tens[..0] == "";
    assert Value(tens) == n / 10;
  }

  lemma ValueOfFourDigits(n: nat)
    requires n < 10000
    ensures Value(FourDigits(n)) == n
  {
    var s := FourDigits(n);
    var hi, lo := n / 100, n % 100;
    ValueOfTwoDigits(hi);
    assert s[..3] == TwoDigits(hi) + [Digit(lo / 10)];
    assert s[..3][..2] == TwoDigits(hi);
    assert Value(s[..3]) == 10 * hi + lo / 10;
    assert Value(s) == 10 * Value(s[..3]) + lo % 10;
  }

  // ----- printing

  function Format(t: Stamp): string {
    TwoDigits(t.day) + ("." + (TwoDigits(t.month) + ("." + (FourDigits(t.year) + (" "
    + (TwoDigits(t.hour) + (":" + (TwoDigits(t.minute) + (":" + TwoDigits(t.second))))))))))
  }

  /** `TimePointToStr`: a buffer of 20 NULs that `strftime` fills from the front. */
  method TimePointToStr(t: Stamp) returns (res: string)
    ensures res == Format(t) + [NUL]
  {
    var text := Format(t);
    assert |text| == 19;
    var buffer := new char[20](_ => NUL);
    for i := 0 to 19
      invariant buffer[..i] == text[..i]
      invariant forall k :: i <= k < 20 ==> buffer[k] == NUL
    {
      buffer[i] := text[i];
    }
    return buffer[..];
  }

  /** The layout of the printed bytes: five fixed separators and a decimal digit everywhere else. */
  lemma FormatLayout(t: Stamp)
    ensures |Format(t)| == 19
    ensures Format(t)[2] == '.' && Format(t)[5] == '.' && Format(t)[10] == ' '
    ensures Format(t)[13] == ':' && Format(t)[16] == ':'
    ensures forall k :: 0 <= k < 19 && k != 2 && k != 5 && k != 10 && k != 13 && k != 16 ==> IsDigit(Format(t)[k])
  {
    assert Format(t) == TwoDigits(t.day) + "." + TwoDigits(t.month) + "." + FourDigits(t.year) + " "
                        + TwoDigits(t.hour) + ":" + TwoDigits(t.minute) + ":" + TwoDigits(t.second);
  }

  /** A printed time takes 19 characters and none of those that structure a frame. */
  lemma FormatPlain(t: Stamp)
    ensures |Format(t)| == 19
    ensures '\n' !in Format(t) && US !in Format(t) && NUL !in Format(t)
  {
    FormatLayout(t);
    forall c | c in Format(t) ensures c != '\n' && c != US && c != NUL {
      var k :| 0 <= k < 19 && Format(t)[k] == c;
    }
  }

  // ----- parsing

  /** The number of leading digits, at most `max`. */
  function Digits(s: string, max: nat): (k: nat)
    ensures k <= |s| && k <= max && forall c :: c in s[..k] ==> IsDigit(c)
  {
    if max == 0 || s == "" || !IsDigit(s[0]) then 0
    else
      var k := Digits(s[1..], max - 1);
      assert s[..k + 1] == [s[0]] + s[1..][..k];
      k + 1
  }

  /** One numeric field and what follows it. */
  function Field(s: string, max: nat, lo: nat, hi: nat): Option<(nat, string)> {
    var k := Digits(s, max);
    if k > 0 && lo <= Value(s[..k]) <= hi then Some((Value(s[..k]), s[k..])) else None
  }

  function Expect(s: string, c: char): Option<string> {
    if s != "" && s[0] == c then Some(s[1..]) else None
  }

  /** The blank and the five control characters from tab to carriage return. */
  predicate IsSpace(c: char) {
    c == ' ' || '\t' <= c <= '\r'
  }

  function SkipSpace(s: string): string {
    if s != "" && IsSpace(s[0]) then SkipSpace(s[1..]) else s
  }

  /** What `TimePointFromStr` lets follow the seconds: nothing, or a decimal fraction that it ignores. */
  predicate FractionOrEnd(s: string) {
    s == "" || (|s| >= 2 && s[0] == '.' && IsDigit(s[1]))
  }

  function ParseDate(s: string): Option<((nat, nat, nat), string)> {
    var (day, s) :- Field(s, 2, 1, 31);
    var s :- Expect(s, '.');
    var (month, s) :- Field(s, 2, 1, 12);
    var s :- Expect(s, '.');
    var (year, s) :- Field(s, 4, 0, 9999);
    Some(((day, month, year), s))
  }

  function ParseClock(s: string): Option<((nat, nat, nat), string)> {
    var (hour, s) :- Field(s, 2, 0, 23);
    var s :- Expect(s, ':');
    var (minute, s) :- Field(s, 2, 0, 59);
    var s :- Expect(s, ':');
    var (second, s) :- Field(s, 2, 0, 60);
    Some(((hour, minute, second), s))
  }

  /** `None` where `TimePointFromStr` throws `std::invalid_argument`. */
  function TimePointFromStr(s: string): Option<Civil> {
    var (date, s) :- ParseDate(SkipSpace(s));
    var (clock, s) :- ParseClock(SkipSpace(s));
    if FractionOrEnd(s) then Some(Civil(date.0, date.1, date.2, clock.0, clock.1, clock.2)) else None
  }

  lemma FieldOfTwoDigits(n: nat, rest: string, lo: nat, hi: nat)
    requires lo <= n <= hi < 100
    ensures Field(TwoDigits(n) + rest, 2, lo, hi) == Some((n, rest))
    ensures SkipSpace(TwoDigits(n) + rest) == TwoDigits(n) + rest
  {
    var s := TwoDigits(n) + rest;
    assert s[1..][0] == s[1];
    assert Digits(s, 2) == 2;
    assert s[..2] == TwoDigits(n) && s[2..] == rest;
    ValueOfTwoDigits(n);
  }

  lemma FieldOfFourDigits(n: nat, rest: string)
    requires n <= 9999
    ensures Field(FourDigits(n) + rest, 4, 0, 9999) == Some((n, rest))
  {
    var s := FourDigits(n) + rest;
    assert s[1..][1..] == s[2..] && s[2..][1..] == s[3..];
    assert Digits(s[3..], 1) == 1;
    assert Digits(s[2..], 2) == 2;
    assert Digits(s[1..], 3) == 3;
    assert Digits(s, 4) == 4;
    assert s[..4] == FourDigits(n) && s[4..] == rest;
    ValueOfFourDigits(n);
  }

  lemma ExpectHead(c: char, rest: string)
    ensures Expect([c] + rest, c) == Some(rest)
  {
  }

  /** A printed time is read back field by field. */
  lemma TimeRoundTrip(t: Stamp)
    ensures TimePointFromStr(Format(t)) == Some(t)
  {
    var s5 := TwoDigits(t.second);
    var s4 := TwoDigits(t.minute) + (":" + s5);
    var s3 := TwoDigits(t.hour) + (":" + s4);
    var s2 := FourDigits(t.year) + (" " + s3);
    var s1 := TwoDigits(t.month) + ("." + s2);
    assert Format(t) == TwoDigits(t.day) + ("." + s1);
    FieldOfTwoDigits(t.day, "." + s1, 1, 31);
    ExpectHead('.', s1);
    FieldOfTwoDigits(t.month, "." + s2, 1, 12);
    ExpectHead('.', s2);
    FieldOfFourDigits(t.year, " " + s3);
    FieldOfTwoDigits(t.hour, ":" + s4, 0, 23);
    assert SkipSpace(" " + s3) == SkipSpace(s3) by { assert (" " + s3)[1..] == s3; }
    ExpectHead(':', s4);
    FieldOfTwoDigits(t.minute, ":" + s5, 0, 59);
    ExpectHead(':', s5);
    FieldOfTwoDigits(t.second, "", 0, 60);
    assert s5 + "" == s5;
  }

  // ----- the accepted language of times

  ghost predicate AllDigits(s: string) {
    forall c :: c in s ==> IsDigit(c)
  }

  /** A numeric field of at most `max` digits, whose value is in the range. */
  ghost predicate FieldText(digits: string, max: nat, lo: nat, hi: nat, value: nat) {
    1 <= |digits| <= max && AllDigits(digits) && Value(digits) == value && lo <= value <= hi
  }

  predicate StartsWithDigit(s: string) {
    s != "" && IsDigit(s[0])
  }

  lemma {:induction false} DigitsOf(digits: string, rest: string, max: nat)
    requires AllDigits(digits) && |digits| <= max
    requires |digits| == max || !StartsWithDigit(rest)
    ensures Digits(digits + rest, max) == |digits|
  {
    if digits == "" {
      assert digits + rest == rest;
    } else {
      assert (digits + rest)[1..] == digits[1..] + rest;
      DigitsOf(digits[1..], rest, max - 1);
    }
  }

  lemma {:induction false} DigitsGreedy(s: string, max: nat)
    ensures Digits(s, max) == max || !StartsWithDigit(s[Digits(s, max)..])
  {
    if max > 0 && s != "" && IsDigit(s[0]) {
      DigitsGreedy(s[1..], max - 1);
      assert s[1..][Digits(s[1..], max - 1)..] == s[Digits(s, max)..];
    }
  }

  /** A field is read exactly if it stands at the front and as many digits as possible belong to it. */
  lemma FieldIff(s: string, max: nat, lo: nat, hi: nat, value: nat, rest: string)
    ensures Field(s, max, lo, hi) == Some((value, rest))
            <==> exists digits :: && s == digits + rest && FieldText(digits, max, lo, hi, value)
                                  && (|digits| == max || !StartsWithDigit(rest))
  {
    if Field(s, max, lo, hi) == Some((value, rest)) {
      DigitsGreedy(s, max);
      var digits := s[..Digits(s, max)];
      assert s == digits + rest && FieldText(digits, max, lo, hi, value);
    }
    if digits :| s == digits + rest && FieldText(digits, max, lo, hi, value)
                 && (|digits| == max || !StartsWithDigit(rest)) {
      DigitsOf(digits, rest, max);
      assert s[..|digits|] == digits && s[|digits|..] == rest;
    }
  }

  /** The six characters of white space in the C locale, and no others. */
  const Blanks: string := [' ', '\t', '\n', '\U{0B}', '\U{0C}', '\r']

  ghost predicate AllSpaces(s: string) {
    forall c :: c in s ==> c in Blanks
  }

  lemma SpaceIff(c: char)
    ensures IsSpace(c) <==> c in Blanks
  {
  }

  predicate StartsWithSpace(s: string) {
    s != "" && IsSpace(s[0])
  }

  lemma PadStarts(pad: string, rest: string)
    requires AllSpaces(pad)
    ensures pad != "" ==> StartsWithSpace(pad + rest)
  {
    if pad != "" {
      SpaceIff(pad[0]);
      assert (pad + rest)[0] == pad[0] && pad[0] in pad;
    }
  }

  lemma {:induction false} SkipSpaceIff(s: string, rest: string)
    ensures SkipSpace(s) == rest
            <==> !StartsWithSpace(rest) && exists pad :: s == pad + rest && AllSpaces(pad)
  {
    if StartsWithSpace(s) {
      SkipSpaceIff(s[1..], rest);
      SpaceIff(s[0]);
      if pad :| s[1..] == pad + rest && AllSpaces(pad) {
        assert s == ([s[0]] + pad) + rest && AllSpaces([s[0]] + pad);
      }
      if pad :| s == pad + rest && AllSpaces(pad) && !StartsWithSpace(rest) {
        assert pad == "" ==> s == rest;
        assert s[1..] == pad[1..] + rest;
      }
    } else {
      NothingToSkip(s, rest);
    }
  }

  lemma NothingToSkip(s: string, rest: string)
    requires !StartsWithSpace(s)
    ensures s == rest <==> exists pad :: s == pad + rest && AllSpaces(pad)
  {
    assert s == "" + s && AllSpaces("");
    if pad :| s == pad + rest && AllSpaces(pad) {
      PadStarts(pad, rest);
      assert s == rest;
    }
  }

  lemma ExpectIff(s: string, c: char, rest: string)
    ensures Expect(s, c) == Some(rest) <==> s == [c] + rest
  {
  }

  /** Three numeric fields with a separator between them, and what follows. */
  ghost predicate ThreeFields(s: string, a: string, b: string, c: string, d: char, rest: string) {
    s == a + ([d] + (b + ([d] + (c + rest))))
  }

  ghost predicate DateText(s: string, a: string, b: string, c: string, date: (nat, nat, nat), rest: string) {
    && ThreeFields(s, a, b, c, '.', rest)
    && FieldText(a, 2, 1, 31, date.0) && FieldText(b, 2, 1, 12, date.1) && FieldText(c, 4, 0, 9999, date.2)
    && (|c| == 4 || !StartsWithDigit(rest))
  }

  lemma DateParts(s: string) returns (a: string, b: string, c: string)
    requires ParseDate(s).Some?
    ensures DateText(s, a, b, c, ParseDate(s).value.0, ParseDate(s).value.1)
  {
    var date, rest := ParseDate(s).value.0, ParseDate(s).value.1;
    var s1 := Field(s, 2, 1, 31).value.1;
    var s2 := Expect(s1, '.').value;
    var s3 := Field(s2, 2, 1, 12).value.1;
    var s4 := Expect(s3, '.').value;
    a := FieldParts(s, 2, 1, 31);
    b := FieldParts(s2, 2, 1, 12);
    c := FieldParts(s4, 4, 0, 9999);
    ExpectIff(s1, '.', s2);
    ExpectIff(s3, '.', s4);
  }

  lemma FieldParts(s: string, max: nat, lo: nat, hi: nat) returns (digits: string)
    requires Field(s, max, lo, hi).Some?
    ensures var (value, rest) := Field(s, max, lo, hi).value;
      && s == digits + rest && FieldText(digits, max, lo, hi, value)
      && (|digits| == max || !StartsWithDigit(rest))
  {
    var (value, rest) := Field(s, max, lo, hi).value;
    FieldIff(s, max, lo, hi, value, rest);
    digits :| s == digits + rest && FieldText(digits, max, lo, hi, value)
              && (|digits| == max || !StartsWithDigit(rest));
  }

  lemma DateReads(s: string, a: string, b: string, c: string, date: (nat, nat, nat), rest: string)
    requires DateText(s, a, b, c, date, rest)
    ensures ParseDate(s) == Some((date, rest)) && !StartsWithSpace(s)
  {
    var s4 := c + rest;
    var s2 := b + (['.'] + s4);
    FieldIff(s, 2, 1, 31, date.0, ['.'] + s2);
    FieldIff(s2, 2, 1, 12, date.1, ['.'] + s4);
    FieldIff(s4, 4, 0, 9999, date.2, rest);
    ExpectIff(['.'] + s2, '.', s2);
    ExpectIff(['.'] + s4, '.', s4);
    assert IsDigit(s[0]);
  }

  ghost predicate ClockText(s: string, a: string, b: string, c: string, clock: (nat, nat, nat), rest: string) {
    && ThreeFields(s, a, b, c, ':', rest)
    && FieldText(a, 2, 0, 23, clock.0) && FieldText(b, 2, 0, 59, clock.1) && FieldText(c, 2, 0, 60, clock.2)
    && (|c| == 2 || !StartsWithDigit(rest))
  }

  lemma ClockParts(s: string) returns (a: string, b: string, c: string)
    requires ParseClock(s).Some?
    ensures ClockText(s, a, b, c, ParseClock(s).value.0, ParseClock(s).value.1)
  {
    var s1 := Field(s, 2, 0, 23).value.1;
    var s2 := Expect(s1, ':').value;
    var s3 := Field(s2, 2, 0, 59).value.1;
    var s4 := Expect(s3, ':').value;
    a := FieldParts(s, 2, 0, 23);
    b := FieldParts(s2, 2, 0, 59);
    c := FieldParts(s4, 2, 0, 60);
    ExpectIff(s1, ':', s2);
    ExpectIff(s3, ':', s4);
  }

  lemma ClockReads(s: string, a: string, b: string, c: string, clock: (nat, nat, nat), rest: string)
    requires ClockText(s, a, b, c, clock, rest)
    ensures ParseClock(s) == Some((clock, rest)) && !StartsWithSpace(s) && StartsWithDigit(s)
  {
    var s4 := c + rest;
    var s2 := b + ([':'] + s4);
    FieldIff(s, 2, 0, 23, clock.0, [':'] + s2);
    FieldIff(s2, 2, 0, 59, clock.1, [':'] + s4);
    FieldIff(s4, 2, 0, 60, clock.2, rest);
    ExpectIff([':'] + s2, ':', s2);
    ExpectIff([':'] + s4, ':', s4);
    assert IsDigit(s[0]);
  }

  /** The parts of a time that is read: spaces, a date, spaces, a clock time, and an ignored fraction. */
  datatype TimeText = TimeText(pad: string, day: string, month: string, year: string, gap: string,
                               hour: string, minute: string, second: string, fraction: string) {
    function Clock(): string {
      hour + ([':'] + (minute + ([':'] + (second + fraction))))
    }

    function Date(rest: string): string {
      day + (['.'] + (month + (['.'] + (year + rest))))
    }

    function Bytes(): string {
      pad + Date(gap + Clock())
    }

    /** One or two digits a field and four at most for the year, which must not run into the hour. */
    ghost predicate Reads(c: Civil) {
      && AllSpaces(pad) && AllSpaces(gap) && (|year| == 4 || gap != "")
      && FieldText(day, 2, 1, 31, c.day) && FieldText(month, 2, 1, 12, c.month) && FieldText(year, 4, 0, 9999, c.year)
      && FieldText(hour, 2, 0, 23, c.hour) && FieldText(minute, 2, 0, 59, c.minute)
      && FieldText(second, 2, 0, 60, c.second)
      && (fraction == "" || (|fraction| >= 2 && fraction[0] == '.' && IsDigit(fraction[1])))
    }
  }

  lemma TimeReads(t: TimeText, c: Civil)
    requires t.Reads(c)
    ensures TimePointFromStr(t.Bytes()) == Some(c)
  {
    var clock := t.Clock();
    ClockReads(clock, t.hour, t.minute, t.second, (c.hour, c.minute, c.second), t.fraction);
    GapNoDigit(t.gap, clock);
    var date := t.Date(t.gap + clock);
    DateReads(date, t.day, t.month, t.year, (c.day, c.month, c.year), t.gap + clock);
    SkipSpaceIff(t.gap + clock, clock);
    SkipSpaceIff(t.Bytes(), date);
  }

  lemma GapNoDigit(gap: string, rest: string)
    requires AllSpaces(gap)
    ensures gap != "" ==> !StartsWithDigit(gap + rest)
  {
    if gap != "" {
      SpaceIff(gap[0]);
      assert (gap + rest)[0] == gap[0] && gap[0] in gap;
    }
  }

  lemma TimeParts(s: string) returns (t: TimeText)
    requires TimePointFromStr(s).Some?
    ensures t.Bytes() == s && t.Reads(TimePointFromStr(s).value)
  {
    var s1 := SkipSpace(s);
    SkipSpaceIff(s, s1);
    var pad :| s == pad + s1 && AllSpaces(pad);
    var day, month, year := DateParts(s1);
    var s2 := ParseDate(s1).value.1;
    var s3 := SkipSpace(s2);
    SkipSpaceIff(s2, s3);
    var gap :| s2 == gap + s3 && AllSpaces(gap);
    var hour, minute, second := ClockParts(s3);
    ClockReads(s3, hour, minute, second, ParseClock(s3).value.0, ParseClock(s3).value.1);
    assert gap == "" ==> s2 == s3;
    t := TimeText(pad, day, month, year, gap, hour, minute, second, ParseClock(s3).value.1);
  }

  /** The exact language of times that are read, and what each is read as. */
  lemma TimeLanguage(s: string, c: Civil)
    ensures TimePointFromStr(s) == Some(c) <==> exists t: TimeText :: t.Bytes() == s && t.Reads(c)
  {
    if TimePointFromStr(s) == Some(c) {
      var t := TimeParts(s);
      assert t.Bytes() == s && t.Reads(c);
    }
    if t: TimeText :| t.Bytes() == s && t.Reads(c) {
      TimeReads(t, c);
    }
  }

  /** Every time that is read can be printed, but for years of fewer than four digits. */
  lemma ReadIsPrintable(s: string)
    requires TimePointFromStr(s).Some?
    ensures Printable(TimePointFromStr(s).value) <==> TimePointFromStr(s).value.year >= 1000
  {
    var t := TimeParts(s);
  }
}
