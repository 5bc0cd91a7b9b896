/**
How `JSON.stringify` writes strings and whole numbers (sections 6 and 7 of RFC 8259),
over UTF-16 code units, and why such text can be read back.
*/
module JsonText {
  import opened Wrappers

  type unit = x: int | 0 <= x < 0x1_0000

  type Text = seq<unit>

  const QUOTE: unit := 0x22
  const BACKSLASH: unit := 0x5C
  const MINUS: unit := 0x2D

  // ----- Strings -----

  predicate IsLead(c: unit) { 0xD800 <= c <= 0xDBFF }

  predicate IsTrail(c: unit) { 0xDC00 <= c <= 0xDFFF }

  /** A lower-case hexadecimal digit. */
  function HexDigit(d: int): unit
    requires 0 <= d < 16
  {
    if d < 10 then 0x30 + d else 0x61 + (d - 10)
  }

  function HexValue(c: unit): int {
    if c >= 0x61 then c - 0x61 + 10 else c - 0x30
  }

  /** `\uXXXX` */
  function UnicodeEscape(c: unit): Text {
    [BACKSLASH, 0x75, HexDigit(c / 0x1000), HexDigit(c / 0x100 % 0x10), HexDigit(c / 0x10 % 0x10), HexDigit(c % 0x10)]
  }

  /** The letter of a two-character escape. */
  function ShortEscape(c: unit): Option<unit> {
    if c == 0x08 then Some(0x62)
    else if c == 0x09 then Some(0x74)
    else if c == 0x0A then Some(0x6E)
    else if c == 0x0C then Some(0x66)
    else if c == 0x0D then Some(0x72)
    else if c == QUOTE || c == BACKSLASH then Some(c)
    else None
  }

  function ShortValue(letter: unit): unit {
    if letter == 0x62 then 0x08
    else if letter == 0x74 then 0x09
    else if letter == 0x6E then 0x0A
    else if letter == 0x66 then 0x0C
    else if letter == 0x72 then 0x0D
    else letter
  }

  /** How many units the next code point of `s` takes: two for a surrogate pair. */
  function PointSize(s: Text): nat
    requires s != []
  {
    if IsLead(s[0]) && |s| > 1 && IsTrail(s[1]) then 2 else 1
  }

  /** The text of the next code point: a pair as it is, a lone surrogate escaped. */
  function Written(s: Text): Text
    requires s != []
  {
    if PointSize(s) == 2 then [s[0], s[1]]
    else if ShortEscape(s[0]).Some? then [BACKSLASH, ShortEscape(s[0]).value]
    else if s[0] < 0x20 || IsLead(s[0]) || IsTrail(s[0]) then UnicodeEscape(s[0])
    else [s[0]]
  }

  function Body(s: Text): Text {
    if s == [] then [] else Written(s) + Body(s[PointSize(s)..])
  }

  function Quote(s: Text): Text { [QUOTE] + Body(s) + [QUOTE] }

  /** The code point at the front of string text, and how much text it takes. */
  function NextPoint(text: Text): Option<(Text, nat)> {
    if text == [] || text[0] == QUOTE then None
    else if text[0] == BACKSLASH then
      if |text| >= 2 && text[1] != 0x75 then Some(([ShortValue(text[1])], 2))
      else if |text| >= 6 then
        var c := HexValue(text[2]) * 0x1000 + HexValue(text[3]) * 0x100 + HexValue(text[4]) * 0x10 + HexValue(text[5]);
        if 0 <= c < 0x1_0000 then var u: unit := c; Some(([u], 6)) else None
      else None
    else if IsLead(text[0]) then if |text| >= 2 then Some((text[..2], 2)) else None
    else Some((text[..1], 1))
  }

  /** Reads string text up to its closing quote: the string, and what follows the quote. */
  function ReadBody(text: Text): Option<(Text, Text)> {
    if text == [] then None
    else if text[0] == QUOTE then Some(([], text[1..]))
    else
      var point := NextPoint(text);
      if point.None? || !(0 < point.value.1 <= |text|) then None
      else
        var more := ReadBody(text[point.value.1..]);
        if more.None? then None else Some((point.value.0 + more.value.0, more.value.1))
  }

  function ReadString(text: Text): Option<(Text, Text)> {
    if text != [] && text[0] == QUOTE then ReadBody(text[1..]) else None
  }

  lemma HexDigitRoundTrip(d: int)
    requires 0 <= d < 16
    ensures HexValue(HexDigit(d)) == d
  {
  }

  lemma FourDigits(c: int)
    requires 0 <= c < 0x1_0000
    ensures c / 0x1000 * 0x1000 + c / 0x100 % 0x10 * 0x100 + c / 0x10 % 0x10 * 0x10 + c % 0x10 == c
  {
    var q := c / 0x10;
    var p := q / 0x10;
    assert c / 0x100 == p && c / 0x1000 == p / 0x10;
  }

  lemma HexRoundTrip(c: unit)
    ensures var e := UnicodeEscape(c);
      HexValue(e[2]) * 0x1000 + HexValue(e[3]) * 0x100 + HexValue(e[4]) * 0x10 + HexValue(e[5]) == c
  {
    HexDigitRoundTrip(c / 0x1000);
    HexDigitRoundTrip(c / 0x100 % 0x10);
    HexDigitRoundTrip(c / 0x10 % 0x10);
    HexDigitRoundTrip(c % 0x10);
    FourDigits(c);
  }

  lemma PointRoundTrip(s: Text, rest: Text)
    requires s != []
    ensures NextPoint(Written(s) + rest) == Some((s[..PointSize(s)], |Written(s)|))
    ensures Written(s)[0] != QUOTE
  {
    var w := Written(s);
    var text := w + rest;
    assert forall i :: 0 <= i < |w| ==> text[i] == w[i];
    if PointSize(s) == 2 {
      assert text[..2] == s[..2];
    } else if ShortEscape(s[0]).Some? {
      assert ShortValue(ShortEscape(s[0]).value) == s[0];
      assert s[..1] == [s[0]];
    } else if s[0] < 0x20 || IsLead(s[0]) || IsTrail(s[0]) {
      HexRoundTrip(s[0]);
      assert s[..1] == [s[0]];
    } else {
      assert text[..1] == s[..1];
    }
  }

  /** One step of the reader over the text of one code point. */
  lemma ReadStep(w: Text, more: Text, point: Text)
    requires w != [] && w[0] != QUOTE && NextPoint(w + more) == Some((point, |w|))
    ensures ReadBody(w + more)
         == (var tail := ReadBody(more); if tail.None? then None else Some((point + tail.value.0, tail.value.1)))
  {
    assert (w + more)[|w|..] == more;
  }

  lemma BodyStep(s: Text, rest: Text)
    requires s != []
    ensures Body(s) + [QUOTE] + rest == Written(s) + (Body(s[PointSize(s)..]) + [QUOTE] + rest)
  {
  }

  lemma ReadPoint(s: Text, more: Text, rest: Text)
    requires s != [] && ReadBody(more) == Some((s[PointSize(s)..], rest))
    ensures ReadBody(Written(s) + more) == Some((s, rest))
  {
    PointRoundTrip(s, more);
    ReadStep(Written(s), more, s[..PointSize(s)]);
    assert s[..PointSize(s)] + s[PointSize(s)..] == s;
  }

  lemma NothingToRead(rest: Text)
    ensures ReadBody([] + [QUOTE] + rest) == Some(([], rest))
  {
    assert [] + [QUOTE] + rest == [QUOTE] + rest;
  }

  lemma {:induction false} BodyRoundTrip(s: Text, rest: Text)
    ensures ReadBody(Body(s) + [QUOTE] + rest) == Some((s, rest))
    decreases |s|
  {
    if s == [] {
      NothingToRead(rest);
    } else {
      var tail := s[PointSize(s)..];
      BodyRoundTrip(tail, rest);
      ReadPoint(s, Body(tail) + [QUOTE] + rest, rest);
      BodyStep(s, rest);
    }
  }

  lemma Opening(body: Text, rest: Text)
    ensures [QUOTE] + body + [QUOTE] + rest == [QUOTE] + (body + [QUOTE] + rest)
  {
  }

  lemma ReadOpened(text: Text)
    ensures ReadString([QUOTE] + text) == ReadBody(text)
  {
    assert ([QUOTE] + text)[1..] == text;
  }

  /** Reading a written string gives the string back and stops at its closing quote,
      whatever follows; lone surrogates included. */
  lemma StringRoundTrip(s: Text, rest: Text)
    ensures ReadString(Quote(s) + rest) == Some((s, rest))
  {
    Opening(Body(s), rest);
    ReadOpened(Body(s) + [QUOTE] + rest);
    BodyRoundTrip(s, rest);
  }

  lemma QuoteIsUnambiguous(s: Text, t: Text, x: Text, y: Text)
    requires Quote(s) + x == Quote(t) + y
    ensures s == t && x == y
  {
    StringRoundTrip(s, x);
    StringRoundTrip(t, y);
  }

  // ----- Which text is written -----

  predicate IsHex(c: unit) { 0x30 <= c <= 0x39 || 0x61 <= c <= 0x66 }

  /** The text of one unit by itself: two-character escapes for backspace, tab, line feed,
      form feed, carriage return, quote and backslash; four lower-case hexadecimal digits
      for other controls and lone surrogates; everything else as it is. */
  lemma UnitText(c: unit)
    ensures var body := Body([c]);
      if c == 0x08 then body == [0x5C, 0x62]
      else if c == 0x09 then body == [0x5C, 0x74]
      else if c == 0x0A then body == [0x5C, 0x6E]
      else if c == 0x0C then body == [0x5C, 0x66]
      else if c == 0x0D then body == [0x5C, 0x72]
      else if c == 0x22 || c == 0x5C then body == [0x5C, c]
      else if c < 0x20 || 0xD800 <= c <= 0xDFFF then
        && |body| == 6 && body[..2] == [0x5C, 0x75]
        && (forall i :: 2 <= i < 6 ==> IsHex(body[i]))
        && HexValue(body[2]) * 0x1000 + HexValue(body[3]) * 0x100 + HexValue(body[4]) * 0x10 + HexValue(body[5]) == c
      else body == [c]
  {
    UnitBody(c);
    if ShortEscape(c).None? && (c < 0x20 || IsLead(c) || IsTrail(c)) {
      EscapedUnit(c);
    }
  }

  lemma EscapedUnit(c: unit)
    ensures var e := UnicodeEscape(c);
      && |e| == 6 && e[..2] == [0x5C, 0x75]
      && (forall i :: 2 <= i < 6 ==> IsHex(e[i]))
      && HexValue(e[2]) * 0x1000 + HexValue(e[3]) * 0x100 + HexValue(e[4]) * 0x10 + HexValue(e[5]) == c
  {
    HexRoundTrip(c);
  }

  lemma UnitBody(c: unit)
    ensures Body([c]) == Written([c])
  {
    assert [c][1..] == [];
    assert Written([c]) + [] == Written([c]);
  }

  /** A surrogate pair is written as it is. */
  lemma PairText(lead: unit, trail: unit)
    requires 0xD800 <= lead <= 0xDBFF && 0xDC00 <= trail <= 0xDFFF
    ensures Body([lead, trail]) == [lead, trail]
  {
    assert [lead, trail][2..] == [];
    assert Body([lead, trail]) == Written([lead, trail]) + [];
  }

  /** No surrogate pair straddles the two strings. */
  predicate CleanCut(s: Text, t: Text) {
    !(s != [] && t != [] && 0xD800 <= s[|s| - 1] <= 0xDBFF && 0xDC00 <= t[0] <= 0xDFFF)
  }

  lemma FirstPointOfBoth(s: Text, t: Text)
    requires s != [] && CleanCut(s, t)
    ensures PointSize(s + t) == PointSize(s) && Written(s + t) == Written(s)
    ensures (s + t)[PointSize(s)..] == s[PointSize(s)..] + t && CleanCut(s[PointSize(s)..], t)
  {
    assert (s + t)[0] == s[0] && (|s| > 1 ==> (s + t)[1] == s[1]);
  }

  lemma BodyUnfolds(s: Text)
    requires s != []
    ensures Body(s) == Written(s) + Body(s[PointSize(s)..])
  {
  }

  lemma Glued(w: Text, x: Text, y: Text)
    ensures w + (x + y) == (w + x) + y
  {
  }

  /** The text of a string is that of its parts, unless they split a surrogate pair. */
  lemma {:induction false} BodyAppends(s: Text, t: Text)
    requires CleanCut(s, t)
    ensures Body(s + t) == Body(s) + Body(t)
  {
    if s == [] {
      assert s + t == t;
    } else {
      var rest := s[PointSize(s)..];
      FirstPointOfBoth(s, t);
      BodyAppends(rest, t);
      BodyUnfolds(s);
      BodyUnfolds(s + t);
      Glued(Written(s), Body(rest), Body(t));
    }
  }

  // ----- Whole numbers -----

  predicate IsDigit(c: unit) { 0x30 <= c <= 0x39 }

  predicate DigitNext(text: Text) { text != [] && IsDigit(text[0]) }

  function Digits(n: nat): Text {
    if n < 10 then [0x30 + n] else Digits(n / 10) + [0x30 + n % 10]
  }

  function WriteInt(n: int): Text {
    if n < 0 then [MINUS] + Digits(-n) else Digits(n)
  }

  function DigitsValue(text: Text): int {
    if text == [] then 0 else 10 * DigitsValue(text[..|text| - 1]) + (text[|text| - 1] as int - 0x30)
  }

  /** The leading run of digits. */
  function DigitRun(text: Text): (run: Text)
    ensures |run| <= |text|
  {
    if DigitNext(text) then [text[0]] + DigitRun(text[1..]) else []
  }

  lemma {:induction false} DigitsRoundTrip(n: nat)
    ensures Digits(n) != [] && forall i :: 0 <= i < |Digits(n)| ==> IsDigit(Digits(n)[i])
    ensures DigitsValue(Digits(n)) == n
  {
    if n >= 10 {
      DigitsRoundTrip(n / 10);
      assert Digits(n)[..|Digits(n)| - 1] == Digits(n / 10);
    } else {
      assert Digits(n)[..0] == [];
    }
  }

  /** A number is written without leading zeros. */
  lemma {:induction false} NoLeadingZero(n: nat)
    ensures Digits(n) != [] && (Digits(n)[0] == 0x30 <==> n == 0)
    ensures n == 0 ==> |Digits(n)| == 1
  {
    if n >= 10 {
      NoLeadingZero(n / 10);
    }
  }

  /** A number has a minus sign exactly if it is negative, and zero is one digit. */
  lemma IntText(n: int)
    ensures WriteInt(n) != [] && (WriteInt(n)[0] == 0x2D <==> n < 0)
    ensures n == 0 ==> WriteInt(n) == [0x30]
    ensures n > 0 ==> WriteInt(n)[0] != 0x30
    ensures n < 0 ==> |WriteInt(n)| > 1 && WriteInt(n)[1] != 0x30
  {
    var m := if n < 0 then -n else n;
    NoLeadingZero(m);
    DigitsRoundTrip(m);
  }

  lemma {:induction false} RunIsMaximal(digits: Text, rest: Text)
    requires forall i :: 0 <= i < |digits| ==> IsDigit(digits[i])
    requires !DigitNext(rest)
    ensures DigitRun(digits + rest) == digits
    decreases |digits|
  {
    if digits == [] {
      assert digits + rest == rest;
    } else {
      RunIsMaximal(digits[1..], rest);
      assert (digits + rest)[1..] == digits[1..] + rest;
      assert [digits[0]] + digits[1..] == digits;
    }
  }

  function ReadInt(text: Text): (int, Text) {
    if text != [] && text[0] == MINUS then
      var run := DigitRun(text[1..]);
      (-DigitsValue(run), text[1 + |run|..])
    else
      var run := DigitRun(text);
      (DigitsValue(run), text[|run|..])
  }

  lemma DigitsRead(n: nat, rest: Text)
    requires !DigitNext(rest)
    ensures DigitRun(Digits(n) + rest) == Digits(n) && DigitsValue(Digits(n)) == n
    ensures (Digits(n) + rest)[|Digits(n)|..] == rest
    ensures DigitNext(Digits(n))
  {
    DigitsRoundTrip(n);
    RunIsMaximal(Digits(n), rest);
  }

  /** Reading a written number gives it back, provided no digit follows. */
  lemma IntRoundTrip(n: int, rest: Text)
    requires !DigitNext(rest)
    ensures ReadInt(WriteInt(n) + rest) == (n, rest)
  {
    var m := if n < 0 then -n else n;
    var text := WriteInt(n) + rest;
    DigitsRead(m, rest);
    if n < 0 {
      assert text == [MINUS] + (Digits(m) + rest);
      assert text[1..] == Digits(m) + rest;
      assert text[1 + |Digits(m)|..] == text[1..][|Digits(m)|..];
    }
  }

  lemma IntIsUnambiguous(m: int, n: int, x: Text, y: Text)
    requires WriteInt(m) + x == WriteInt(n) + y && !DigitNext(x) && !DigitNext(y)
    ensures m == n && x == y
  {
    IntRoundTrip(m, x);
    IntRoundTrip(n, y);
  }
}
