/**
The pseudolocale generator: prose is accented, placeholders and the tokens that are never
translated stay, and padding is added inside brackets. The theorem is that the validator
sees the same structure before and after, for every text.
*/
module Pseudolocale {
  import opened Wrappers
  import opened LocaleText
  import opened Numbers

  // ----- The transform -----

  /** The characters that give a text its structure or its markup. */
  predicate IsMark(c: char) { IsBrace(c) || c == '<' || c == '>' || c == '&' }

  function Accent(c: char): (r: char)
    ensures IsMark(c) || IsMark(r) ==> r == c
  {
    match c
    case 'a' => '\U{00E1}' case 'e' => '\U{00E9}' case 'i' => '\U{00ED}' case 'o' => '\U{00F3}'
    case 'u' => '\U{00FA}' case 'A' => '\U{00C1}' case 'E' => '\U{00C9}' case 'I' => '\U{00CD}'
    case 'O' => '\U{00D3}' case 'U' => '\U{00DA}' case 'b' => '\U{0180}' case 'c' => '\U{00E7}'
    case 'd' => '\U{0111}' case 'f' => '\U{0192}' case 'g' => '\U{01E5}' case 'h' => '\U{0125}'
    case 'j' => '\U{0135}' case 'k' => '\U{0137}' case 'l' => '\U{0140}' case 'm' => '\U{0271}'
    case 'n' => '\U{00F1}' case 'p' => '\U{01A5}' case 'q' => '\U{024B}' case 'r' => '\U{0155}'
    case 's' => '\U{015F}' case 't' => '\U{0167}' case 'v' => '\U{1E7D}' case 'w' => '\U{0175}'
    case 'y' => '\U{0177}' case 'z' => '\U{1E91}' case 'B' => '\U{0181}' case 'C' => '\U{00C7}'
    case 'D' => '\U{0110}' case 'F' => '\U{0191}' case 'G' => '\U{01E4}' case 'H' => '\U{0124}'
    case 'J' => '\U{0134}' case 'K' => '\U{0136}' case 'L' => '\U{013F}' case 'N' => '\U{00D1}'
    case 'P' => '\U{01A4}' case 'Q' => '\U{024A}' case 'R' => '\U{0154}' case 'S' => '\U{015E}'
    case 'T' => '\U{0166}' case 'V' => '\U{1E7C}' case 'W' => '\U{0174}' case 'Y' => '\U{0176}'
    case 'Z' => '\U{1E90}'
    case _ => c
  }

  function Translate(p: string): (r: string)
    ensures |r| == |p| && forall i :: 0 <= i < |p| ==> r[i] == Accent(p[i])
  {
    seq(|p|, i requires 0 <= i < |p| => Accent(p[i]))
  }

  /** The units, names and codes that mean the same in every language. */
  const UNITS: seq<string> := ["TTFT", "TPOT", "tok", "tok/s", "Tools/req", "Msgs/req"]
  const PERCENTILES: seq<string> := ["p50 / p95", "p50", "p95"]
  const RATES: seq<string> := ["requests / min", "req/min", "rpm", "%", "/v1", "requests/min"]
  const NAMES: seq<string> := ["JSON", "HTTP", "POST", "SLO", "NIM", "PROXY"]
  const CODES: seq<string> := ["429", "401", "503", "504", "5xx", "nvapi-\U{2026}", "npk_\U{2026}"]

  const NEVER_TRANSLATE: seq<string> := UNITS + PERCENTILES + RATES + NAMES + CODES

  const PAD := "escamotable"

  /** The length of the first of `tokens` that starts the text; 0 if none does. */
  function TokenAt(tokens: seq<string>, text: string): (n: nat)
    ensures n <= |text|
  {
    if tokens == [] then 0
    else if tokens[0] <= text && tokens[0] != "" then |tokens[0]|
    else TokenAt(tokens[1..], text)
  }

  /** The match of SEGMENT at the front of a text: a placeholder before any token, and the
      tokens in the order listed (the generator lists the longest first). */
  function SegmentAt(tokens: seq<string>, text: string): (n: nat)
    ensures n <= |text|
  {
    if PlaceholderAt(text) > 0 then PlaceholderAt(text) else TokenAt(tokens, text)
  }

  /** Where the first match of SEGMENT starts; the length if there is none. */
  function FirstSegment(tokens: seq<string>, text: string): (k: nat)
    ensures k <= |text|
  {
    if text == "" || SegmentAt(tokens, text) > 0 then 0 else 1 + FirstSegment(tokens, text[1..])
  }

  lemma {:induction false} FirstSegmentMatches(tokens: seq<string>, text: string)
    requires FirstSegment(tokens, text) < |text|
    ensures SegmentAt(tokens, text[FirstSegment(tokens, text)..]) > 0
  {
    var k := FirstSegment(tokens, text);
    if k > 0 {
      FirstSegmentMatches(tokens, text[1..]);
      assert text[1..][k - 1..] == text[k..];
    } else {
      assert text[0..] == text;
    }
  }

  /** No placeholder starts before the first segment. */
  lemma {:induction false} NoPlaceholderBefore(tokens: seq<string>, text: string, j: nat)
    requires j < FirstSegment(tokens, text)
    ensures PlaceholderAt(text[j..]) == 0
  {
    if j > 0 {
      NoPlaceholderBefore(tokens, text[1..], j - 1);
      assert text[1..][j - 1..] == text[j..];
    } else {
      assert text[0..] == text;
    }
  }

  /** `SEGMENT.split(text)`: prose and segments in turn, prose first and last. */
  function SplitParts(tokens: seq<string>, text: string): (parts: seq<string>)
    decreases |text|
  {
    var k := FirstSegment(tokens, text);
    if k == |text| then [text]
    else
      var from, n := text[k..], SegmentAt(tokens, text[k..]);
      if n == 0 then [text] else [text[..k], from[..n]] + SplitParts(tokens, from[n..])
  }

  /** `SEGMENT.fullmatch(p)` */
  predicate FullMatch(tokens: seq<string>, p: string) {
    p != "" && (PlaceholderAt(p) == |p| || p in tokens)
  }

  function Rendered(tokens: seq<string>, p: string): string {
    if FullMatch(tokens, p) then p else Translate(p)
  }

  function Accented(tokens: seq<string>, parts: seq<string>): string {
    if parts == [] then "" else Rendered(tokens, parts[0]) + Accented(tokens, parts[1..])
  }

  function ProseLength(tokens: seq<string>, parts: seq<string>): nat {
    if parts == [] then 0
    else (if FullMatch(tokens, parts[0]) then 0 else |parts[0]|) + ProseLength(tokens, parts[1..])
  }

  /** 35% of the prose, rounded to the nearest whole with halves to even; at least 1. */
  function Need(prose: nat): nat {
    var q, r := prose * 35 / 100, prose * 35 % 100;
    var rounded := if r > 50 || (r == 50 && q % 2 == 1) then q + 1 else q;
    if rounded < 1 then 1 else rounded
  }

  function Repeat(s: string, n: nat): (r: string)
    ensures |r| == n * |s|
    ensures forall i :: 0 <= i < |r| ==> r[i] in s
  {
    if n == 0 then "" else
      assert n * |s| == (n - 1) * |s| + |s|;
      Repeat(s, n - 1) + s
  }

  function Tail(need: nat): (r: string)
    ensures |r| == need && forall i :: 0 <= i < |r| ==> r[i] in PAD
  {
    var n := need / |PAD| + 1;
    assert n * |PAD| >= need;
    Repeat(PAD, n)[..need]
  }

  function Padding(prose: nat): string { " " + Tail(Need(prose)) + "]" }

  function Pseudo(tokens: seq<string>, text: string): string {
    var parts := SplitParts(tokens, text);
    "[" + Accented(tokens, parts) + Padding(ProseLength(tokens, parts))
  }

  // ----- What the transform writes -----

  /** Letters are accented, all but M, x and X, and nothing else is changed; an accented
      letter is no ASCII character. */
  lemma AccentedLetters(c: char)
    ensures Accent(c) != c <==> ('a' <= c <= 'z' || 'A' <= c <= 'Z') && c !in {'M', 'x', 'X'}
    ensures Accent(c) != c ==> Accent(c) > '\U{007F}'
  {
  }

  /** The padding is the whole number nearest to 35% of the prose, the even one of two
      that are equally near, and at least 1. */
  lemma NeedIsNearest(prose: nat)
    ensures var n := Need(prose);
      || (n == 1 && 35 * prose < 50)
      || (n >= 1 && -50 <= 100 * n - 35 * prose <= 50 && (100 * n - 35 * prose in {-50, 50} ==> n % 2 == 0))
  {
    var q, r := prose * 35 / 100, prose * 35 % 100;
    RoundsToNearest(prose * 35, q, r);
  }

  lemma RoundsToNearest(x: nat, q: nat, r: nat)
    requires x == 100 * q + r && r < 100
    ensures var n := if r > 50 || (r == 50 && q % 2 == 1) then q + 1 else q;
      -50 <= 100 * n - x <= 50 && (100 * n - x in {-50, 50} ==> n % 2 == 0)
  {
  }

  lemma {:induction false} RepeatAt(s: string, n: nat, i: nat)
    requires s != "" && i < |Repeat(s, n)|
    ensures Repeat(s, n)[i] == s[i % |s|]
  {
    var before := Repeat(s, n - 1);
    if i < |before| {
      RepeatAt(s, n - 1, i);
    } else {
      assert i == |s| * (n - 1) + (i - |before|);
      Remainder(i, |s|, n - 1, i - |before|);
    }
  }

  /** The padding spells the pad word over and over. */
  lemma TailSpellsThePad(need: nat, i: nat)
    requires i < need
    ensures Tail(need)[i] == "escamotable"[i % 11]
  {
    var n := need / |PAD| + 1;
    assert n * |PAD| >= need;
    RepeatAt(PAD, n, i);
  }

  /** A token is taken only if no token listed before it matches. */
  lemma {:induction false} FirstListedTokenWins(tokens: seq<string>, text: string, k: nat)
    requires k < |tokens| && tokens[k] != "" && tokens[k] <= text
    requires forall i :: 0 <= i < k ==> tokens[i] == "" || !(tokens[i] <= text)
    ensures TokenAt(tokens, text) == |tokens[k]|
  {
    if k > 0 {
      FirstListedTokenWins(tokens[1..], text, k - 1);
    }
  }

  /** With the longest tokens listed first, the longest token that matches is taken. */
  lemma {:induction false} LongestTokenWins(tokens: seq<string>, text: string, token: string)
    requires forall i, j :: 0 <= i < j < |tokens| ==> |tokens[i]| >= |tokens[j]|
    requires token in tokens && token <= text
    ensures |token| <= TokenAt(tokens, text)
  {
    if !(tokens[0] <= text && tokens[0] != "") {
      if token == tokens[0] {
        assert token == "";
      } else {
        assert token in tokens[1..];
        LongestTokenWins(tokens[1..], text, token);
      }
    }
  }

  // ----- What accenting leaves alone -----

  /** Position by position, braces, angle brackets and ampersands are where they were. */
  ghost predicate SameMarks(a: string, b: string) {
    |a| == |b| && forall i :: 0 <= i < |a| ==> (IsMark(a[i]) || IsMark(b[i]) ==> a[i] == b[i])
  }

  /** Every placeholder of `a` stands in `b` unchanged. */
  ghost predicate PlaceholdersStand(a: string, b: string)
    requires |a| == |b|
  {
    forall i :: 0 <= i < |a| ==> StandsAt(a, b, i)
  }

  ghost predicate StandsAt(a: string, b: string, i: nat)
    requires |a| == |b| && i < |a|
  {
    var n := PlaceholderAt(a[i..]);
    a[i..][..n] == b[i..][..n]
  }

  ghost predicate Braceless(s: string) {
    forall i :: 0 <= i < |s| ==> !IsBrace(s[i])
  }

  ghost predicate NoBraceIn(tokens: seq<string>) {
    forall t :: t in tokens ==> Braceless(t)
  }

  lemma RenderedKeepsMarks(tokens: seq<string>, p: string)
    ensures SameMarks(p, Rendered(tokens, p))
  {
  }

  lemma MarksAppend(a: string, b: string, x: string, y: string)
    requires SameMarks(a, x) && SameMarks(b, y)
    ensures SameMarks(a + b, x + y)
  {
  }

  lemma {:induction false} TokenIsListed(tokens: seq<string>, text: string)
    requires TokenAt(tokens, text) > 0
    ensures text[..TokenAt(tokens, text)] in tokens
  {
    if tokens[0] <= text && tokens[0] != "" {
      assert text[..|tokens[0]|] == tokens[0];
    } else {
      TokenIsListed(tokens[1..], text);
    }
  }

  /** No placeholder starts inside a segment. */
  lemma NoPlaceholderInside(tokens: seq<string>, text: string, i: nat)
    requires NoBraceIn(tokens) && i < SegmentAt(tokens, text)
    requires i > 0 || PlaceholderAt(text) == 0
    ensures PlaceholderAt(text[i..]) == 0
  {
    if PlaceholderAt(text) > 0 {
      InsidePlaceholder(text, i);
    } else {
      TokenIsListed(tokens, text);
      var token := text[..TokenAt(tokens, text)];
      assert Braceless(token) && !IsBrace(token[i]);
    }
  }

  /** A placeholder that is a part by itself is rendered as it is. */
  lemma PlaceholderPartStays(tokens: seq<string>, text: string)
    requires PlaceholderAt(text) > 0
    ensures Rendered(tokens, text[..PlaceholderAt(text)]) == text[..PlaceholderAt(text)]
  {
    var n := PlaceholderAt(text);
    SamePlaceholder(text, text[..n]);
  }

  /** The match depends only on the text up to its end. */
  lemma SamePlaceholder(a: string, b: string)
    requires PlaceholderAt(a) > 0 && PlaceholderAt(a) <= |b| && b[..PlaceholderAt(a)] == a[..PlaceholderAt(a)]
    ensures PlaceholderAt(b) == PlaceholderAt(a)
  {
    var n := PlaceholderAt(a);
    assert b[0] == b[..n][0] == '{';
    forall j | 1 <= j < n ensures b[j] == a[j] {
      assert b[..n][j] == a[..n][j];
    }
    assert IsBrace(b[1..][n - 2]);
    assert forall j :: 0 <= j < n - 2 ==> b[1..][j] == a[1..][j];
  }

  // ----- The accented text as a whole -----

  lemma AccentedOne(tokens: seq<string>, p: string)
    ensures Accented(tokens, [p]) == Rendered(tokens, p)
  {
    assert Accented(tokens, [p]) == Rendered(tokens, p) + "";
  }

  lemma ProseOnly(tokens: seq<string>, text: string, out: string)
    requires FirstSegment(tokens, text) == |text| && |out| == |text|
    ensures PlaceholdersStand(text, out)
  {
    forall i | 0 <= i < |text| ensures StandsAt(text, out, i) {
      NoPlaceholderBefore(tokens, text, i);
    }
  }

  lemma AccentedTwo(tokens: seq<string>, pre: string, seg: string, parts: seq<string>)
    ensures Accented(tokens, [pre, seg] + parts)
         == Rendered(tokens, pre) + (Rendered(tokens, seg) + Accented(tokens, parts))
  {
    var all := [pre, seg] + parts;
    assert all[1..] == [seg] + parts && all[1..][1..] == parts;
    assert Accented(tokens, all[1..]) == Rendered(tokens, seg) + Accented(tokens, parts);
  }

  lemma DropInto(a: string, b: string, i: nat)
    requires |a| <= i <= |a| + |b|
    ensures (a + b)[i..] == b[i - |a|..]
  {
  }

  /** A text cut in three: `k` units without a placeholder, `n` units in which only the
      first position may start one, and the rest. */
  ghost predicate Cut(text: string, k: nat, n: nat) {
    && k + n <= |text|
    && (forall j :: 0 <= j < k ==> PlaceholderAt(text[j..]) == 0)
    && (forall j :: 0 < j < n ==> PlaceholderAt(text[k..][j..]) == 0)
  }

  lemma NoneStands(a: string, b: string, i: nat)
    requires |a| == |b| && i < |a| && PlaceholderAt(a[i..]) == 0
    ensures StandsAt(a, b, i)
  {
  }

  /** What stands in the rest of a text stands in the text. */
  lemma StandsAfter(text: string, x: string, z: string, i: nat)
    requires |text| == |x| + |z| && |x| <= i < |text|
    requires StandsAt(text[|x|..], z, i - |x|)
    ensures StandsAt(text, x + z, i)
  {
    DropInto(x, z, i);
    assert text[i..] == text[|x|..][i - |x|..];
  }

  lemma StandsInFront(from: string, y: string, tail: string)
    requires |from| == |y| + |tail| > 0
    requires PlaceholderAt(from) == 0 || y == from[..PlaceholderAt(from)]
    ensures StandsAt(from, y + tail, 0)
  {
    assert from[0..] == from && (y + tail)[0..] == y + tail;
    assert (y + tail)[..|y|] == y;
  }

  /** A text whose front `y` replaces, when only the first position there may start a
      placeholder. */
  lemma StandsInFrom(from: string, y: string, tail: string, j: nat)
    requires |from| == |y| + |tail| && j < |from|
    requires 0 < j < |y| ==> PlaceholderAt(from[j..]) == 0
    requires PlaceholderAt(from) == 0 || y == from[..PlaceholderAt(from)]
    requires PlaceholdersStand(from[|y|..], tail)
    ensures StandsAt(from, y + tail, j)
  {
    if j >= |y| {
      assert StandsAt(from[|y|..], tail, j - |y|);
      StandsAfter(from, y, tail, j);
    } else if j == 0 {
      StandsInFront(from, y, tail);
    } else {
      NoneStands(from, y + tail, j);
    }
  }

  lemma PlaceholderStandsAt(text: string, x: string, y: string, tail: string, i: nat)
    requires Cut(text, |x|, |y|) && i < |text| == |x| + |y| + |tail|
    requires PlaceholderAt(text[|x|..]) == 0 || y == text[|x|..][..PlaceholderAt(text[|x|..])]
    requires PlaceholdersStand(text[|x|..][|y|..], tail)
    ensures StandsAt(text, x + (y + tail), i)
  {
    if i < |x| {
      NoneStands(text, x + (y + tail), i);
    } else {
      StandsInFrom(text[|x|..], y, tail, i - |x|);
      StandsAfter(text, x, y + tail, i);
    }
  }

  lemma StructureStep(text: string, x: string, y: string, tail: string)
    requires Cut(text, |x|, |y|)
    requires SameMarks(text[..|x|], x) && SameMarks(text[|x|..][..|y|], y) && SameMarks(text[|x|..][|y|..], tail)
    requires PlaceholderAt(text[|x|..]) == 0 || y == text[|x|..][..PlaceholderAt(text[|x|..])]
    requires PlaceholdersStand(text[|x|..][|y|..], tail)
    ensures SameMarks(text, x + (y + tail)) && PlaceholdersStand(text, x + (y + tail))
  {
    var from := text[|x|..];
    MarksAppend(from[..|y|], from[|y|..], y, tail);
    assert from[..|y|] + from[|y|..] == from;
    MarksAppend(text[..|x|], from, x, y + tail);
    assert text[..|x|] + from == text;
    forall i | 0 <= i < |text|
      ensures StandsAt(text, x + (y + tail), i)
    {
      PlaceholderStandsAt(text, x, y, tail, i);
    }
  }

  lemma SegmentCuts(tokens: seq<string>, text: string)
    requires NoBraceIn(tokens) && FirstSegment(tokens, text) < |text|
    ensures var k := FirstSegment(tokens, text);
      && 0 < SegmentAt(tokens, text[k..]) && Cut(text, k, SegmentAt(tokens, text[k..]))
  {
    var k := FirstSegment(tokens, text);
    var n := SegmentAt(tokens, text[k..]);
    FirstSegmentMatches(tokens, text);
    forall j | 0 <= j < k ensures PlaceholderAt(text[j..]) == 0 {
      NoPlaceholderBefore(tokens, text, j);
    }
    forall j | 0 < j < n ensures PlaceholderAt(text[k..][j..]) == 0 {
      NoPlaceholderInside(tokens, text[k..], j);
    }
  }

  /** Accenting keeps the length, every mark and every placeholder in place. */
  lemma {:induction false} AccentingKeepsStructure(tokens: seq<string>, text: string)
    requires NoBraceIn(tokens)
    ensures var out := Accented(tokens, SplitParts(tokens, text)); SameMarks(text, out) && PlaceholdersStand(text, out)
    decreases |text|
  {
    var k := FirstSegment(tokens, text);
    if k == |text| {
      RenderedKeepsMarks(tokens, text);
      AccentedOne(tokens, text);
      ProseOnly(tokens, text, Rendered(tokens, text));
    } else {
      var from, n := text[k..], SegmentAt(tokens, text[k..]);
      SegmentCuts(tokens, text);
      AccentingKeepsStructure(tokens, from[n..]);
      AccentedTwo(tokens, text[..k], from[..n], SplitParts(tokens, from[n..]));
      RenderedKeepsMarks(tokens, text[..k]);
      RenderedKeepsMarks(tokens, from[..n]);
      if PlaceholderAt(from) > 0 {
        PlaceholderPartStays(tokens, from);
      }
      StructureStep(text, Rendered(tokens, text[..k]), Rendered(tokens, from[..n]),
                    Accented(tokens, SplitParts(tokens, from[n..])));
    }
  }

  // ----- Prose is accented, segments stay -----

  function Joined(parts: seq<string>): string {
    if parts == [] then "" else parts[0] + Joined(parts[1..])
  }

  /** The parts joined with every other one accented, the first if `prose`. */
  function Alternating(parts: seq<string>, prose: bool): string {
    if parts == [] then ""
    else (if prose then Translate(parts[0]) else parts[0]) + Alternating(parts[1..], !prose)
  }

  lemma {:induction false} ListedTokenMatches(tokens: seq<string>, text: string, token: string)
    requires token in tokens && token != "" && token <= text
    ensures TokenAt(tokens, text) > 0
  {
    if !(tokens[0] <= text && tokens[0] != "") {
      ListedTokenMatches(tokens[1..], text, token);
    }
  }

  /** What precedes the first segment is not itself a full match. */
  lemma ProseIsNoFullMatch(tokens: seq<string>, text: string)
    ensures !FullMatch(tokens, text[..FirstSegment(tokens, text)])
  {
    var pre := text[..FirstSegment(tokens, text)];
    if pre != "" && PlaceholderAt(pre) == |pre| {
      SamePlaceholder(pre, text);
    }
    if pre != "" && pre in tokens {
      ListedTokenMatches(tokens, text, pre);
    }
  }

  lemma SegmentIsFullMatch(tokens: seq<string>, text: string)
    requires SegmentAt(tokens, text) > 0
    ensures FullMatch(tokens, text[..SegmentAt(tokens, text)])
  {
    if PlaceholderAt(text) > 0 {
      SamePlaceholder(text, text[..PlaceholderAt(text)]);
    } else {
      TokenIsListed(tokens, text);
    }
  }

  lemma JoinedTwo(pre: string, seg: string, parts: seq<string>)
    ensures Joined([pre, seg] + parts) == pre + (seg + Joined(parts))
    ensures Alternating([pre, seg] + parts, true) == Translate(pre) + (seg + Alternating(parts, true))
  {
    var all := [pre, seg] + parts;
    assert all[1..] == [seg] + parts && all[1..][1..] == parts;
    assert Joined(all[1..]) == seg + Joined(parts);
    assert Alternating(all[1..], false) == seg + Alternating(parts, true);
  }

  lemma JoinedOne(p: string)
    ensures Joined([p]) == p
  {
    assert Joined([p]) == p + "";
  }

  lemma CutInThree(text: string, k: nat, n: nat)
    requires k + n <= |text|
    ensures text[..k] + (text[k..][..n] + text[k..][n..]) == text
  {
    assert text[k..][..n] + text[k..][n..] == text[k..];
  }

  /** Splitting loses nothing. */
  lemma {:induction false} SplittingLosesNothing(tokens: seq<string>, text: string)
    ensures Joined(SplitParts(tokens, text)) == text
    decreases |text|
  {
    var k := FirstSegment(tokens, text);
    if k == |text| || SegmentAt(tokens, text[k..]) == 0 {
      JoinedOne(text);
    } else {
      var n := SegmentAt(tokens, text[k..]);
      SplittingLosesNothing(tokens, text[k..][n..]);
      JoinedTwo(text[..k], text[k..][..n], SplitParts(tokens, text[k..][n..]));
      CutInThree(text, k, n);
    }
  }

  /** Prose holds no token and no placeholder. */
  ghost predicate IsProse(tokens: seq<string>, p: string) {
    && (forall t :: t in tokens && t != "" ==> !Contains(p, t))
    && (forall q :: IsPlaceholder(q) ==> !Contains(p, q))
  }

  ghost predicate IsSegment(tokens: seq<string>, p: string) {
    IsPlaceholder(p) || (p in tokens && p != "")
  }

  /** Prose and segments in turn, prose first and last. */
  ghost predicate InTurn(tokens: seq<string>, parts: seq<string>, prose: bool) {
    if parts == [] then !prose
    else (if prose then IsProse(tokens, parts[0]) else IsSegment(tokens, parts[0])) && InTurn(tokens, parts[1..], !prose)
  }

  /** No segment starts before the first one. */
  lemma {:induction false} NoSegmentBefore(tokens: seq<string>, text: string, j: nat)
    requires j < FirstSegment(tokens, text)
    ensures SegmentAt(tokens, text[j..]) == 0
  {
    if j > 0 {
      NoSegmentBefore(tokens, text[1..], j - 1);
      assert text[1..][j - 1..] == text[j..];
    } else {
      assert text[0..] == text;
    }
  }

  lemma StartsInside(text: string, k: nat, i: nat, p: string)
    requires k <= |text| && i <= k && p != "" && p <= text[..k][i..]
    ensures i < k && p <= text[i..]
  {
    assert text[..k][i..] + text[k..] == text[i..];
  }

  lemma FrontIsProse(tokens: seq<string>, text: string)
    ensures IsProse(tokens, text[..FirstSegment(tokens, text)])
  {
    var k := FirstSegment(tokens, text);
    forall t | t in tokens && t != "" ensures !Contains(text[..k], t) {
      if i :| 0 <= i <= k && t <= text[..k][i..] {
        StartsInside(text, k, i, t);
        NoSegmentBefore(tokens, text, i);
        ListedTokenMatches(tokens, text[i..], t);
      }
    }
    forall q | IsPlaceholder(q) ensures !Contains(text[..k], q) {
      if i :| 0 <= i <= k && q <= text[..k][i..] {
        StartsInside(text, k, i, q);
        NoSegmentBefore(tokens, text, i);
        PlaceholderMatches(text[i..], q);
      }
    }
  }

  lemma MatchIsSegment(tokens: seq<string>, text: string)
    requires SegmentAt(tokens, text) > 0
    ensures IsSegment(tokens, text[..SegmentAt(tokens, text)])
  {
    if PlaceholderAt(text) > 0 {
      PlaceholderStarts(text);
    } else {
      TokenIsListed(tokens, text);
    }
  }

  lemma InTurnTwo(tokens: seq<string>, pre: string, seg: string, parts: seq<string>)
    requires IsProse(tokens, pre) && IsSegment(tokens, seg) && InTurn(tokens, parts, true)
    ensures InTurn(tokens, [pre, seg] + parts, true)
  {
    var all := [pre, seg] + parts;
    assert all[1..] == [seg] + parts && all[1..][1..] == parts;
    assert InTurn(tokens, all[1..], false);
  }

  /** Splitting cuts a text into prose, which holds no token and no placeholder, and
      segments, each of which is one. */
  lemma {:induction false} PartsAreInTurn(tokens: seq<string>, text: string)
    ensures InTurn(tokens, SplitParts(tokens, text), true)
    decreases |text|
  {
    var k := FirstSegment(tokens, text);
    FrontIsProse(tokens, text);
    if k == |text| {
      assert text[..k] == text;
      assert InTurn(tokens, [text][1..], false);
    } else {
      var from, n := text[k..], SegmentAt(tokens, text[k..]);
      FirstSegmentMatches(tokens, text);
      MatchIsSegment(tokens, from);
      PartsAreInTurn(tokens, from[n..]);
      InTurnTwo(tokens, text[..k], from[..n], SplitParts(tokens, from[n..]));
    }
  }

  /** The full-match test tells prose and segments apart: the accented text is the parts in
      order, prose accented and segments untouched. */
  lemma {:induction false} ProseIsAccentedSegmentsStay(tokens: seq<string>, text: string)
    ensures Accented(tokens, SplitParts(tokens, text)) == Alternating(SplitParts(tokens, text), true)
    decreases |text|
  {
    var k := FirstSegment(tokens, text);
    ProseIsNoFullMatch(tokens, text);
    if k == |text| {
      assert text[..k] == text;
      assert Alternating([text], true) == Translate(text) + "";
      AccentedOne(tokens, text);
    } else {
      var from, n := text[k..], SegmentAt(tokens, text[k..]);
      FirstSegmentMatches(tokens, text);
      SegmentIsFullMatch(tokens, from);
      ProseIsAccentedSegmentsStay(tokens, from[n..]);
      JoinedTwo(text[..k], from[..n], SplitParts(tokens, from[n..]));
      AccentedTwo(tokens, text[..k], from[..n], SplitParts(tokens, from[n..]));
    }
  }

  /** The length of every other part, the first if `prose`. */
  function LengthInTurn(parts: seq<string>, prose: bool): nat {
    if parts == [] then 0 else (if prose then |parts[0]| else 0) + LengthInTurn(parts[1..], !prose)
  }

  lemma LengthTwo(tokens: seq<string>, pre: string, seg: string, parts: seq<string>)
    ensures LengthInTurn([pre, seg] + parts, true) == |pre| + LengthInTurn(parts, true)
    ensures ProseLength(tokens, [pre, seg] + parts)
         == (if FullMatch(tokens, pre) then 0 else |pre|) + (if FullMatch(tokens, seg) then 0 else |seg|) + ProseLength(tokens, parts)
  {
    var all := [pre, seg] + parts;
    assert all[1..] == [seg] + parts && all[1..][1..] == parts;
    assert LengthInTurn(all[1..], false) == LengthInTurn(parts, true);
    assert ProseLength(tokens, all[1..]) == (if FullMatch(tokens, seg) then 0 else |seg|) + ProseLength(tokens, parts);
  }

  /** What is padded for is the length of the prose. */
  lemma {:induction false} ProseLengthIsOfProse(tokens: seq<string>, text: string)
    ensures ProseLength(tokens, SplitParts(tokens, text)) == LengthInTurn(SplitParts(tokens, text), true)
    decreases |text|
  {
    var k := FirstSegment(tokens, text);
    ProseIsNoFullMatch(tokens, text);
    if k == |text| {
      assert text[..k] == text;
      assert [text][1..] == [];
      assert LengthInTurn([text][1..], false) == 0 && ProseLength(tokens, [text][1..]) == 0;
    } else {
      var from, n := text[k..], SegmentAt(tokens, text[k..]);
      FirstSegmentMatches(tokens, text);
      SegmentIsFullMatch(tokens, from);
      ProseLengthIsOfProse(tokens, from[n..]);
      LengthTwo(tokens, text[..k], from[..n], SplitParts(tokens, from[n..]));
    }
  }

  // ----- What the patterns find -----

  /** A pattern that matches alike at every position finds the same. */
  lemma {:induction false} FindsAlike(at: string -> nat, a: string, b: string)
    requires |a| == |b|
    requires forall i :: 0 <= i < |a| ==> AlikeAt(at, a[i..], b[i..])
    ensures FindAll(at, a) == FindAll(at, b)
    decreases |a|
  {
    if a != "" {
      assert a[0..] == a && b[0..] == b && AlikeAt(at, a[0..], b[0..]);
      var n := if 0 < at(a) <= |a| then at(a) else 1;
      forall i | 0 <= i < |a[n..]| ensures AlikeAt(at, a[n..][i..], b[n..][i..]) {
        assert a[n..][i..] == a[n + i..] && b[n..][i..] == b[n + i..];
      }
      FindsAlike(at, a[n..], b[n..]);
    }
  }

  ghost predicate AlikeAt(at: string -> nat, a: string, b: string) {
    at(a) == at(b) && (at(a) <= |a| && at(a) <= |b| ==> a[..at(a)] == b[..at(a)])
  }

  lemma {:induction false} SameFirstBrace(a: string, b: string)
    requires SameMarks(a, b)
    ensures FirstBrace(a) == FirstBrace(b)
  {
    var k := FirstBrace(a);
    assert forall j :: 0 <= j < k ==> !IsBrace(b[j]);
  }

  lemma SamePlaceholderAt(a: string, b: string)
    requires SameMarks(a, b)
    ensures PlaceholderAt(a) == PlaceholderAt(b)
  {
    if a != "" {
      SameFirstBrace(a[1..], b[1..]);
    }
  }

  /** An inline marker is a placeholder. */
  lemma InlineIsPlaceholder(text: string)
    requires InlineAt(text) > 0
    ensures PlaceholderAt(text) == InlineAt(text)
  {
    var n := InlineAt(text);
    var marker := if INLINE_OPEN <= text then INLINE_OPEN else INLINE_CLOSE;
    assert forall j :: 0 <= j < n ==> text[j] == marker[j];
    assert text[1..][n - 2] == '}';
    assert forall j :: 0 <= j < n - 2 ==> text[1..][j] == marker[j + 1];
  }

  lemma InlineWithinPlaceholder(a: string, b: string)
    requires |a| == |b| && PlaceholderAt(a) == PlaceholderAt(b)
    requires a[..PlaceholderAt(a)] == b[..PlaceholderAt(a)]
    requires InlineAt(a) > 0
    ensures InlineAt(b) == InlineAt(a) && a[..InlineAt(a)] == b[..InlineAt(a)]
  {
    InlineIsPlaceholder(a);
    var n := InlineAt(a);
    assert b == b[..n] + b[n..];
    assert a == a[..n] + a[n..];
  }

  lemma PatternsFindTheSame(a: string, b: string)
    requires SameMarks(a, b) && PlaceholdersStand(a, b)
    ensures Placeholders(a) == Placeholders(b) && Inlines(a) == Inlines(b)
  {
    forall i | 0 <= i < |a|
      ensures AlikeAt(PlaceholderAt, a[i..], b[i..]) && AlikeAt(InlineAt, a[i..], b[i..])
    {
      var x, y := a[i..], b[i..];
      assert SameMarks(x, y);
      SamePlaceholderAt(x, y);
      assert StandsAt(a, b, i);
      if InlineAt(x) > 0 {
        InlineWithinPlaceholder(x, y);
      } else if InlineAt(y) > 0 {
        InlineWithinPlaceholder(y, x);
      }
    }
    FindsAlike(PlaceholderAt, a, b);
    FindsAlike(InlineAt, a, b);
  }

  /** A pattern that matches nowhere finds nothing. */
  lemma {:induction false} NoMatchFindsNothing(at: string -> nat, plain: string)
    requires forall i :: 0 <= i <= |plain| ==> at(plain[i..]) == 0
    ensures FindAll(at, plain) == []
    decreases |plain|
  {
    if plain != "" {
      assert plain[0..] == plain;
      forall i | 0 <= i <= |plain[1..]| ensures at(plain[1..][i..]) == 0 {
        assert plain[1..][i..] == plain[i + 1..];
      }
      NoMatchFindsNothing(at, plain[1..]);
    }
  }

  /** What follows the text does not change what matches at position `i`. */
  ghost predicate Unaffected(at: string -> nat, a: string, plain: string, i: nat)
    requires i <= |a|
  {
    at(a[i..] + plain) == at(a[i..]) <= |a| - i
  }

  lemma UnaffectedTail(at: string -> nat, a: string, plain: string, n: nat)
    requires n <= |a| && forall i :: 0 <= i < |a| ==> Unaffected(at, a, plain, i)
    ensures forall i :: 0 <= i < |a[n..]| ==> Unaffected(at, a[n..], plain, i)
  {
    forall i | 0 <= i < |a[n..]| ensures Unaffected(at, a[n..], plain, i) {
      assert Unaffected(at, a, plain, n + i);
      assert a[n..][i..] == a[n + i..];
    }
  }

  /** A text in which nothing is found, added at the end, adds no match. */
  lemma {:induction false} FindAllThenPlain(at: string -> nat, a: string, plain: string)
    requires FindAll(at, plain) == []
    requires forall i :: 0 <= i < |a| ==> Unaffected(at, a, plain, i)
    ensures FindAll(at, a + plain) == FindAll(at, a)
    decreases |a|
  {
    if a == "" {
      assert a + plain == plain;
    } else {
      assert Unaffected(at, a, plain, 0) && a[0..] == a;
      var n := if at(a) > 0 then at(a) else 1;
      assert (a + plain)[n..] == a[n..] + plain && (a + plain)[..n] == a[..n];
      UnaffectedTail(at, a, plain, n);
      FindAllThenPlain(at, a[n..], plain);
    }
  }

  // ----- The pseudolocalised text -----

  ghost predicate NoMark(s: string) {
    forall i :: 0 <= i < |s| ==> !IsMark(s[i])
  }

  lemma PlainAfter(a: string, plain: string)
    requires NoMark(plain)
    ensures PlaceholderAt(a + plain) == PlaceholderAt(a)
  {
    if a != "" {
      FirstBraceAfter(a[1..], plain);
      assert (a + plain)[1..] == a[1..] + plain;
    }
  }

  lemma FirstBraceAfter(a: string, plain: string)
    requires NoMark(plain)
    ensures FirstBrace(a) < |a| ==> FirstBrace(a + plain) == FirstBrace(a)
    ensures FirstBrace(a) == |a| ==> FirstBrace(a + plain) == |a + plain|
  {
    var k, all := FirstBrace(a + plain), a + plain;
    assert forall j :: 0 <= j < |all| ==> all[j] == if j < |a| then a[j] else plain[j - |a|];
  }

  lemma InlineIsLocal(a: string, b: string)
    requires InlineAt(a) > 0 && InlineAt(a) <= |b| && b[..InlineAt(a)] == a[..InlineAt(a)]
    ensures InlineAt(b) == InlineAt(a)
  {
    var n := InlineAt(a);
    assert b == b[..n] + b[n..] && a == a[..n] + a[n..];
  }

  lemma InlineAfter(a: string, plain: string)
    requires NoMark(plain)
    ensures InlineAt(a + plain) == InlineAt(a)
  {
    PlainAfter(a, plain);
    if InlineAt(a) > 0 {
      InlineIsLocal(a, a + plain);
    }
    if InlineAt(a + plain) > 0 {
      InlineIsPlaceholder(a + plain);
      InlineIsLocal(a + plain, a);
    }
  }

  /** Plain text before and after changes nothing that the patterns find. */
  lemma FramingAddsNothing(a: string, plain: string)
    requires NoMark(plain)
    ensures Placeholders("[" + a + plain) == Placeholders(a)
    ensures Inlines("[" + a + plain) == Inlines(a)
  {
    var framed := "[" + a + plain;
    assert framed[1..] == a + plain;
    InlineStarts(framed);
    assert PlaceholderAt(framed) == 0 && InlineAt(framed) == 0;
    PlainIsSearched(plain);
    forall i | 0 <= i < |a|
      ensures Unaffected(PlaceholderAt, a, plain, i) && Unaffected(InlineAt, a, plain, i)
    {
      PlainAfter(a[i..], plain);
      InlineAfter(a[i..], plain);
    }
    FindAllThenPlain(PlaceholderAt, a, plain);
    FindAllThenPlain(InlineAt, a, plain);
  }

  lemma PlainIsSearched(plain: string)
    requires NoMark(plain)
    ensures Placeholders(plain) == [] && Inlines(plain) == []
  {
    forall i | 0 <= i <= |plain|
      ensures PlaceholderAt(plain[i..]) == 0 && InlineAt(plain[i..]) == 0
    {
      assert i < |plain| ==> plain[i..][0] == plain[i];
    }
    NoMatchFindsNothing(PlaceholderAt, plain);
    NoMatchFindsNothing(InlineAt, plain);
  }

  lemma {:induction false} SameBraces(a: string, b: string)
    requires SameMarks(a, b)
    ensures Braces(a) == Braces(b)
  {
    if a != "" {
      SameBraces(a[..|a| - 1], b[..|b| - 1]);
    }
  }

  lemma {:induction false} PlainHasNoBraces(plain: string)
    requires NoMark(plain)
    ensures Braces(plain) == ""
  {
    if plain != "" {
      PlainHasNoBraces(plain[..|plain| - 1]);
    }
  }

  lemma FramingAddsNoBrace(a: string, plain: string)
    requires NoMark(plain)
    ensures Braces("[" + a + plain) == Braces(a)
  {
    PlainHasNoBraces(plain);
    PlainHasNoBraces("[");
    BracesAppend("[", a);
    BracesAppend("[" + a, plain);
    assert "" + Braces(a) == Braces(a) && Braces("[" + a) + "" == Braces("[" + a);
  }

  lemma TailIsPlain(need: nat)
    ensures NoMark(" " + Tail(need) + "]")
  {
    assert forall c :: c in PAD ==> !IsMark(c);
  }

  /** The transform preserves structure for every text, balanced or not: the ordered
      placeholders, the ordered inline markers, the brace verdict and the markup verdict
      are the same before and after. */
  lemma StructureIsPreserved(tokens: seq<string>, text: string)
    requires NoBraceIn(tokens)
    ensures Placeholders(Pseudo(tokens, text)) == Placeholders(text)
    ensures Inlines(Pseudo(tokens, text)) == Inlines(text)
    ensures Unbalanced(Pseudo(tokens, text)) == Unbalanced(text)
    ensures HasMarkup(Pseudo(tokens, text)) == HasMarkup(text)
  {
    var parts := SplitParts(tokens, text);
    var prose := ProseLength(tokens, parts);
    AccentingKeepsStructure(tokens, text);
    TailIsPlain(Need(prose));
    FramedStructure(text, Accented(tokens, parts), Padding(prose));
  }

  lemma FramedStructure(text: string, a: string, plain: string)
    requires SameMarks(text, a) && PlaceholdersStand(text, a) && NoMark(plain)
    ensures Placeholders("[" + a + plain) == Placeholders(text)
    ensures Inlines("[" + a + plain) == Inlines(text)
    ensures Unbalanced("[" + a + plain) == Unbalanced(text)
    ensures HasMarkup("[" + a + plain) == HasMarkup(text)
  {
    PatternsFindTheSame(text, a);
    FramingAddsNothing(a, plain);
    SameBraces(text, a);
    FramingAddsNoBrace(a, plain);
    MarkStays(text, a, plain, '<');
    MarkStays(text, a, plain, '>');
  }

  lemma MarkStays(text: string, a: string, plain: string, c: char)
    requires SameMarks(text, a) && NoMark(plain) && IsMark(c)
    ensures c in "[" + a + plain <==> c in text
  {
    InFramed(a, plain, c);
    if i :| 0 <= i < |text| && text[i] == c {
      assert a[i] == c;
    }
    if i :| 0 <= i < |a| && a[i] == c {
      assert text[i] == c;
    }
  }

  lemma InFramed(a: string, plain: string, c: char)
    ensures c in "[" + a + plain <==> c == '[' || c in a || c in plain
  {
    assert c in "[" + a <==> c == '[' || c in a;
  }

  /** How long a pseudolocalised text is. */
  function PseudoLength(tokens: seq<string>, text: string): nat {
    |text| + Need(ProseLength(tokens, SplitParts(tokens, text))) + 3
  }

  lemma PseudoIsThatLong(tokens: seq<string>, text: string)
    requires NoBraceIn(tokens)
    ensures |Pseudo(tokens, text)| == PseudoLength(tokens, text)
  {
    AccentedLength(tokens, text);
  }

  /** The pad word over and over. */
  ghost predicate SpellsThePad(s: string) {
    forall i :: 0 <= i < |s| ==> s[i] == "escamotable"[i % 11]
  }

  /** Position by position: a bracket, the text with its prose accented, a blank, the
      padding, a bracket. */
  lemma PseudoReads(tokens: seq<string>, text: string)
    requires NoBraceIn(tokens)
    ensures var out, parts, n := Pseudo(tokens, text), SplitParts(tokens, text), |text|;
      && |out| == n + Need(LengthInTurn(parts, true)) + 3
      && out[0] == '[' && out[1..n + 1] == Alternating(parts, true)
      && out[n + 1] == ' ' && SpellsThePad(out[n + 2..|out| - 1]) && out[|out| - 1] == ']'
  {
    var parts := SplitParts(tokens, text);
    var need := Need(ProseLength(tokens, parts));
    AccentedLength(tokens, text);
    ProseLengthIsOfProse(tokens, text);
    ProseIsAccentedSegmentsStay(tokens, text);
    TailSpells(need);
    FramedReads(Accented(tokens, parts), Tail(need));
  }

  lemma TailSpells(need: nat)
    ensures SpellsThePad(Tail(need))
  {
    forall i | 0 <= i < need ensures Tail(need)[i] == "escamotable"[i % 11] {
      TailSpellsThePad(need, i);
    }
  }

  lemma AccentedLength(tokens: seq<string>, text: string)
    requires NoBraceIn(tokens)
    ensures |Accented(tokens, SplitParts(tokens, text))| == |text|
  {
    AccentingKeepsStructure(tokens, text);
  }

  lemma FramedReads(a: string, tail: string)
    ensures var out := "[" + a + (" " + tail + "]");
      && |out| == |a| + |tail| + 3
      && out[0] == '[' && out[1..|a| + 1] == a
      && out[|a| + 1] == ' ' && out[|a| + 2..|out| - 1] == tail && out[|out| - 1] == ']'
  {
  }

  lemma NoEntityAppears(tokens: seq<string>, text: string)
    requires NoBraceIn(tokens)
    ensures '&' in Pseudo(tokens, text) <==> '&' in text
  {
    var parts := SplitParts(tokens, text);
    AccentingKeepsStructure(tokens, text);
    TailIsPlain(Need(ProseLength(tokens, parts)));
    MarkStays(text, Accented(tokens, parts), Padding(ProseLength(tokens, parts)), '&');
  }

  // ----- Generated catalogs -----

  datatype Catalog = Catalog(locale: string, state: string, messages: map<string, Message>)

  /** The description and the length cap are copied, the hash is the source's. */
  function Generated(tokens: seq<string>, s: SourceMessage): Message {
    Message(Some(Pseudo(tokens, s.en)), s.desc, Some(s.hash), s.maxLen)
  }

  /** The loop that fills the generated catalog, one message at a time. */
  method Fill(generate: SourceMessage -> Message, source: map<string, SourceMessage>, ids: seq<string>)
    returns (messages: map<string, Message>)
    requires forall id :: id in source <==> id in ids
    ensures messages.Keys == source.Keys
    ensures forall id :: id in source ==> messages[id] == generate(source[id])
  {
    messages := map[];
    for i := 0 to |ids|
      invariant forall id :: id in messages <==> id in ids[..i]
      invariant forall id :: id in messages ==> id in source && messages[id] == generate(source[id])
    {
      assert ids[i] in source;
      messages := messages[ids[i] := generate(source[ids[i]])];
    }
  }

  method Build(tokens: seq<string>, source: map<string, SourceMessage>, ids: seq<string>)
    returns (catalog: Catalog)
    requires forall id :: id in source <==> id in ids
    ensures catalog.locale == "en-XA" && catalog.state == "Generated"
    ensures catalog.messages.Keys == source.Keys
    ensures forall id :: id in source ==>
      catalog.messages[id] == Message(Some(Pseudo(tokens, source[id].en)), source[id].desc, Some(source[id].hash), source[id].maxLen)
  {
    var messages := Fill(s => Generated(tokens, s), source, ids);
    catalog := Catalog("en-XA", "Generated", messages);
  }

  /** The entity decoder changes no text without an ampersand. */
  ghost predicate DecodesEntitiesOnly(unescape: string -> string) {
    forall t: string :: '&' !in t ==> unescape(t) == t
  }

  /** The padded text is longer than the cap. */
  ghost predicate Overflows(tokens: seq<string>, s: SourceMessage) {
    s.maxLen.Some? && s.maxLen.value != 0 && PseudoLength(tokens, s.en) > s.maxLen.value
  }

  /** The checks of structure cannot tell a text from its source. */
  lemma StructurePasses(s: SourceMessage, c: Message, frozen: seq<string>, unescape: string -> string, check: Check)
    requires c.en.Some? && c.hash == Some(s.hash)
    requires Placeholders(c.en.value) == Placeholders(s.en) && Inlines(c.en.value) == Inlines(s.en)
    ensures check in {PlaceholderParity, InlineStructure, Stale, Completeness, Orphan} ==> !Fails(check, s, c, frozen, unescape)
  {
    SameValuesAre(s.en, c.en.value);
    InlinesAreMarkers(s.en);
    InlinesAreMarkers(c.en.value);
  }

  /** Which checks a generated message fails. */
  lemma GeneratedMessageIsSound(tokens: seq<string>, s: SourceMessage, frozen: seq<string>, unescape: string -> string, check: Check)
    requires NoBraceIn(tokens)
    ensures var fails := Fails(check, s, Generated(tokens, s), frozen, unescape);
      && (check == Syntax ==> (fails <==> Unbalanced(s.en)))
      && (check == CatalogMarkup ==> (fails <==> HasMarkup(s.en)))
      && (check == Length ==> (fails <==> Overflows(tokens, s)))
      && (check == EntityMarkup && DecodesEntitiesOnly(unescape) && '&' !in s.en ==> !fails)
      && (check in {PlaceholderParity, InlineStructure, Stale, Completeness, Orphan} ==> !fails)
  {
    match check
    case Length => PseudoIsThatLong(tokens, s.en);
    case EntityMarkup => NoEntityAppears(tokens, s.en);
    case Syntax => StructureIsPreserved(tokens, s.en);
    case CatalogMarkup => StructureIsPreserved(tokens, s.en);
    case FrozenToken(_) =>
    case _ =>
      StructureIsPreserved(tokens, s.en);
      StructurePasses(s, Generated(tokens, s), frozen, unescape, check);
  }

  /** Validating a generated catalog against its source reports a syntax problem exactly
      for the source texts whose own braces are unbalanced, a markup problem exactly for
      those that contain markup themselves, a length problem exactly for those whose
      padded length exceeds the cap, an entity problem only where the source has an
      ampersand, and never a placeholder, inline, completeness, orphan or staleness
      problem. */
  lemma GeneratedCatalogIsSound(tokens: seq<string>, source: map<string, SourceMessage>, candidate: map<string, Message>,
                                ids: seq<string>, frozen: seq<string>, unescape: string -> string, p: Problem)
    requires NoBraceIn(tokens) && DecodesEntitiesOnly(unescape)
    requires candidate.Keys == source.Keys
    requires forall id :: id in source ==> candidate[id] == Generated(tokens, source[id])
    requires Lists(ids, source, candidate)
    ensures var found := Problems(source, candidate, ids, frozen, unescape);
      && (p.check == Syntax ==> (p in found <==> p.id in source && Unbalanced(source[p.id].en)))
      && (p.check == CatalogMarkup ==> (p in found <==> p.id in source && HasMarkup(source[p.id].en)))
      && (p.check == Length ==> (p in found <==> p.id in source && Overflows(tokens, source[p.id])))
      && (p in found && p.check == EntityMarkup ==> p.id in source && '&' in source[p.id].en)
      && (p in found ==> p.check !in {PlaceholderParity, InlineStructure, Completeness, Orphan, Stale})
  {
    ReportedIffWrong(source, candidate, ids, frozen, unescape, p);
    if p.id in source {
      GeneratedMessageIsSound(tokens, source[p.id], frozen, unescape, p.check);
    }
  }

  lemma UnitsHaveNoBrace()
    ensures NoBraceIn(UNITS)
  {
  }

  lemma PercentilesHaveNoBrace()
    ensures NoBraceIn(PERCENTILES)
  {
  }

  lemma RatesHaveNoBrace()
    ensures NoBraceIn(RATES)
  {
  }

  lemma NamesHaveNoBrace()
    ensures NoBraceIn(NAMES)
  {
  }

  lemma CodesHaveNoBrace()
    ensures NoBraceIn(CODES)
  {
  }

  /** The list the generator uses has no brace in any token. */
  lemma NeverTranslateHasNoBrace()
    ensures NoBraceIn(NEVER_TRANSLATE)
  {
    UnitsHaveNoBrace();
    PercentilesHaveNoBrace();
    RatesHaveNoBrace();
    NamesHaveNoBrace();
    CodesHaveNoBrace();
    forall t | t in NEVER_TRANSLATE
      ensures Braceless(t)
    {
      assert t in UNITS || t in PERCENTILES || t in RATES || t in NAMES || t in CODES;
    }
  }
}
