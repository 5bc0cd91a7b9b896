/**
The locale validator: what it sees of the structure of a text (placeholders, inline
markers, braces) and the loop that compares a candidate catalog to its source.
*/
module LocaleText {
  import opened Wrappers
  import opened Sequences

  // ----- Patterns -----

  predicate IsBrace(c: char) { c == '{' || c == '}' }

  /** The position of the first brace, or the length if there is none. */
  function FirstBrace(text: string): (k: nat)
    ensures k <= |text| && (k < |text| ==> IsBrace(text[k]))
    ensures forall j :: 0 <= j < k ==> !IsBrace(text[j])
  {
    if text == "" || IsBrace(text[0]) then 0 else 1 + FirstBrace(text[1..])
  }

  /** The length of the match of `\{[^{}]*\}` at the front of a text; 0 if none. */
  function PlaceholderAt(text: string): (n: nat)
    ensures n <= |text|
  {
    if text == "" || text[0] != '{' then 0
    else
      var k := FirstBrace(text[1..]);
      if 1 + k < |text| && text[1 + k] == '}' then k + 2 else 0
  }

  const INLINE_OPEN := "{b}"
  const INLINE_CLOSE := "{/b}"

  /** The length of the match of `\{/?b\}` at the front of a text; 0 if none. */
  function InlineAt(text: string): (n: nat)
    ensures n <= |text|
  {
    if INLINE_OPEN <= text then |INLINE_OPEN| else if INLINE_CLOSE <= text then |INLINE_CLOSE| else 0
  }

  /** All matches of a pattern, leftmost first and not overlapping. */
  function FindAll(at: string -> nat, text: string): seq<string>
    decreases |text|
  {
    if text == "" then []
    else if 0 < at(text) <= |text| then [text[..at(text)]] + FindAll(at, text[at(text)..])
    else FindAll(at, text[1..])
  }

  function Placeholders(text: string): seq<string> { FindAll(PlaceholderAt, text) }

  function Inlines(text: string): seq<string> { FindAll(InlineAt, text) }

  /** The value placeholders: those that are not inline markers. */
  function ValuePlaceholders(text: string): set<string> {
    set p | p in Placeholders(text) && p != INLINE_OPEN && p != INLINE_CLOSE
  }

  // ----- What the patterns find -----

  /** No match starts inside another. */
  ghost predicate NoOverlap(at: string -> nat) {
    && (forall u :: at(u) <= |u|)
    && (forall u: string, j: nat :: 0 < j < at(u) ==> at(u[j..]) == 0)
  }

  /** The matches at all positions of a text, in order. */
  function Occurrences(at: string -> nat, text: string): seq<string> {
    if text == "" then []
    else (if 0 < at(text) <= |text| then [text[..at(text)]] else []) + Occurrences(at, text[1..])
  }

  /** Nothing matches at the first `k` positions. */
  ghost predicate NothingBefore(at: string -> nat, text: string, k: nat)
    requires k <= |text|
  {
    forall j :: 0 <= j < k ==> at(text[j..]) == 0
  }

  lemma NothingBeforeNext(at: string -> nat, text: string, k: nat)
    requires 0 < k <= |text|
    requires forall j :: 0 < j < k ==> at(text[j..]) == 0
    ensures NothingBefore(at, text[1..], k - 1) && text[1..][k - 1..] == text[k..]
  {
    forall j | 0 <= j < k - 1 ensures at(text[1..][j..]) == 0 {
      assert text[1..][j..] == text[j + 1..];
    }
  }

  lemma {:induction false} NothingSkipped(at: string -> nat, text: string, k: nat)
    requires k <= |text| && NothingBefore(at, text, k)
    ensures Occurrences(at, text) == Occurrences(at, text[k..])
  {
    if k == 0 {
      assert text[0..] == text;
    } else {
      NothingAtFront(at, text, k);
      NothingBeforeNext(at, text, k);
      NothingSkipped(at, text[1..], k - 1);
    }
  }

  lemma NothingAtFront(at: string -> nat, text: string, k: nat)
    requires 0 < k <= |text| && NothingBefore(at, text, k)
    ensures Occurrences(at, text) == Occurrences(at, text[1..])
  {
    assert at(text[0..]) == 0 && text[0..] == text;
    assert [] + Occurrences(at, text[1..]) == Occurrences(at, text[1..]);
  }

  /** The scan, which goes on after the end of each match, misses none. */
  lemma {:induction false} FindAllFindsAll(at: string -> nat, text: string)
    requires NoOverlap(at)
    ensures FindAll(at, text) == Occurrences(at, text)
    decreases |text|
  {
    if text != "" {
      var n := at(text);
      if n > 0 {
        FindAllFindsAll(at, text[n..]);
        NothingBeforeNext(at, text, n);
        NothingSkipped(at, text[1..], n - 1);
      } else {
        FindAllFindsAll(at, text[1..]);
      }
    }
  }

  /** The pattern matches `p` at position `i`. */
  ghost predicate MatchesAt(at: string -> nat, text: string, i: nat, p: string)
    requires i <= |text|
  {
    0 < at(text[i..]) <= |text| - i && p == text[i..][..at(text[i..])]
  }

  lemma {:induction false} OccurrencesAre(at: string -> nat, text: string, p: string)
    ensures p in Occurrences(at, text) <==> exists i :: 0 <= i < |text| && MatchesAt(at, text, i, p)
  {
    if text != "" {
      OccurrencesAre(at, text[1..], p);
      assert text[0..] == text;
      if i :| 0 <= i < |text| && MatchesAt(at, text, i, p) {
        assert i > 0 ==> text[i..] == text[1..][i - 1..] && MatchesAt(at, text[1..], i - 1, p);
      }
      if i :| 0 <= i < |text[1..]| && MatchesAt(at, text[1..], i, p) {
        assert text[1..][i..] == text[i + 1..];
        assert MatchesAt(at, text, i + 1, p);
      }
      if 0 < at(text) <= |text| && p == text[..at(text)] {
        assert MatchesAt(at, text, 0, p);
      }
    }
  }

  /** A brace at each end and none between. */
  predicate IsPlaceholder(p: string) {
    && |p| >= 2 && p[0] == '{' && p[|p| - 1] == '}'
    && forall i :: 0 < i < |p| - 1 ==> p[i] != '{' && p[i] != '}'
  }

  lemma PlaceholderStarts(text: string)
    ensures PlaceholderAt(text) > 0 ==> IsPlaceholder(text[..PlaceholderAt(text)])
  {
    var n := PlaceholderAt(text);
    if n > 0 {
      assert forall i :: 0 < i < n - 1 ==> text[i] == text[1..][i - 1];
      assert text[n - 1] == '}';
    }
  }

  lemma PlaceholderMatches(text: string, p: string)
    requires IsPlaceholder(p) && p <= text
    ensures PlaceholderAt(text) == |p|
  {
    var k, n := FirstBrace(text[1..]), |p|;
    assert text[..n] == p;
    assert text[1..][n - 2] == text[n - 1] == '}';
    forall j | 0 <= j < n - 2 ensures !IsBrace(text[1..][j]) {
      assert text[1..][j] == p[j + 1];
    }
  }

  lemma PlaceholdersDoNotOverlap()
    ensures NoOverlap(PlaceholderAt)
  {
    forall u: string, j: nat | 0 < j < PlaceholderAt(u) ensures PlaceholderAt(u[j..]) == 0 {
      InsidePlaceholder(u, j);
    }
  }

  /** A match has a brace at its front and at its back and nowhere between. */
  lemma InsidePlaceholder(text: string, i: nat)
    requires 0 < i < PlaceholderAt(text)
    ensures text[i] != '{'
  {
  }

  predicate Contains(text: string, token: string) {
    exists i :: 0 <= i <= |text| && token <= text[i..]
  }

  lemma PlaceholderOccurs(text: string, i: nat, p: string)
    requires i <= |text| && MatchesAt(PlaceholderAt, text, i, p)
    ensures IsPlaceholder(p) && Contains(text, p)
  {
    PlaceholderStarts(text[i..]);
    assert p <= text[i..];
  }

  lemma OccurringMatches(text: string, p: string) returns (i: nat)
    requires IsPlaceholder(p) && Contains(text, p)
    ensures i < |text| && MatchesAt(PlaceholderAt, text, i, p)
  {
    i :| 0 <= i <= |text| && p <= text[i..];
    PlaceholderMatches(text[i..], p);
  }

  /** A text contains what it can be cut around. */
  lemma ContainedIsCutOut(text: string, token: string)
    ensures Contains(text, token) <==> exists x, y :: text == x + token + y
  {
    if i :| 0 <= i <= |text| && token <= text[i..] {
      assert text == text[..i] + token + text[i + |token|..];
    }
    if x, y :| text == x + token + y {
      assert text[|x|..] == token + y;
    }
  }

  /** The placeholders of a text are what stands in it between two braces without another
      brace inside. */
  lemma PlaceholdersAre(text: string, p: string)
    ensures p in Placeholders(text) <==> IsPlaceholder(p) && Contains(text, p)
  {
    PlaceholdersDoNotOverlap();
    FindAllFindsAll(PlaceholderAt, text);
    OccurrencesAre(PlaceholderAt, text, p);
    if p in Placeholders(text) {
      var i :| 0 <= i < |text| && MatchesAt(PlaceholderAt, text, i, p);
      PlaceholderOccurs(text, i, p);
    }
    if IsPlaceholder(p) && Contains(text, p) {
      var i := OccurringMatches(text, p);
    }
  }

  /** A value placeholder of the text: a placeholder that is no inline marker. */
  ghost predicate HasValue(text: string, p: string) {
    Contains(text, p) && IsPlaceholder(p) && p != "{b}" && p != "{/b}"
  }

  lemma ValuePlaceholdersAre(text: string, p: string)
    ensures p in ValuePlaceholders(text) <==> HasValue(text, p)
  {
    PlaceholdersAre(text, p);
  }

  /** The inline markers of a text, read position by position. */
  function Markers(text: string): seq<string> {
    if text == "" then []
    else (if "{b}" <= text then ["{b}"] else if "{/b}" <= text then ["{/b}"] else []) + Markers(text[1..])
  }

  lemma InsideInline(text: string, j: nat)
    requires 0 < j < InlineAt(text)
    ensures text[j] != '{'
  {
    if INLINE_OPEN <= text {
      assert text[j] == INLINE_OPEN[j];
    } else {
      assert text[j] == INLINE_CLOSE[j];
    }
  }

  lemma InlineStarts(text: string)
    ensures InlineAt(text) > 0 ==> text[0] == '{'
  {
    if INLINE_OPEN <= text {
      assert text[0] == INLINE_OPEN[0];
    } else if INLINE_CLOSE <= text {
      assert text[0] == INLINE_CLOSE[0];
    }
  }

  lemma InlinesDoNotOverlap()
    ensures NoOverlap(InlineAt)
  {
    forall u: string, j: nat | 0 < j < InlineAt(u) ensures InlineAt(u[j..]) == 0 {
      InsideInline(u, j);
      InlineStarts(u[j..]);
    }
  }

  lemma {:induction false} MarkersOccur(text: string)
    ensures Occurrences(InlineAt, text) == Markers(text)
  {
    if text != "" {
      MarkersOccur(text[1..]);
      assert INLINE_OPEN <= text ==> text[..3] == "{b}";
      assert INLINE_CLOSE <= text ==> text[..4] == "{/b}";
    }
  }

  lemma InlinesAreMarkers(text: string)
    ensures Inlines(text) == Markers(text)
  {
    InlinesDoNotOverlap();
    FindAllFindsAll(InlineAt, text);
    MarkersOccur(text);
  }

  // ----- Braces -----

  /** The braces of a text, in order. */
  function Braces(text: string): string {
    if text == "" then ""
    else Braces(text[..|text| - 1]) + if IsBrace(text[|text| - 1]) then [text[|text| - 1]] else []
  }

  /** Pairs and nothing else: never two of a kind in a row. */
  predicate Paired(braces: string) {
    braces == "" || (|braces| >= 2 && Paired(braces[..|braces| - 2]) && braces[|braces| - 2..] == "{}")
  }

  predicate Unbalanced(text: string) { !Paired(Braces(text)) }

  ghost predicate Opened(braces: string) {
    braces != "" && Paired(braces[..|braces| - 1]) && braces[|braces| - 1] == '{'
  }

  lemma PairedSnoc(braces: string, c: char)
    ensures Paired(braces + [c]) <==> Opened(braces) && c == '}'
    ensures Opened(braces + [c]) <==> Paired(braces) && c == '{'
  {
    var s := braces + [c];
    assert s[..|s| - 1] == braces;
    if braces != "" {
      assert s[..|s| - 2] == braces[..|braces| - 1];
      assert s[|s| - 2..] == [braces[|braces| - 1], c];
    }
  }

  lemma BrokenStep(braces: string, c: char)
    requires !Paired(braces) && !Opened(braces)
    ensures !Paired(braces + [c]) && !Opened(braces + [c])
  {
    PairedSnoc(braces, c);
  }

  /** Once the pairing is broken no continuation mends it. */
  lemma {:induction false} BrokenStaysBroken(a: string, b: string)
    requires !Paired(a) && !Opened(a)
    ensures !Paired(a + b) && !Opened(a + b)
    decreases |b|
  {
    if b == "" {
      assert a + b == a;
    } else {
      var n := |b| - 1;
      assert a + b == a + b[..n] + [b[n]];
      BrokenStaysBroken(a, b[..n]);
      BrokenStep(a + b[..n], b[n]);
    }
  }

  lemma {:induction false} BracesAppend(a: string, b: string)
    ensures Braces(a + b) == Braces(a) + Braces(b)
    decreases |b|
  {
    if b == "" {
      assert a + b == a;
    } else {
      assert (a + b)[..|a + b| - 1] == a + b[..|b| - 1];
      BracesAppend(a, b[..|b| - 1]);
    }
  }

  lemma NotBoth(braces: string)
    ensures !(Paired(braces) && Opened(braces))
  {
  }

  /** The depth the loop has after a prefix, if it has not stopped. */
  ghost predicate DepthIs(prefix: string, depth: int) {
    if depth == 0 then Paired(Braces(prefix)) else Opened(Braces(prefix))
  }

  lemma BracesSnoc(prefix: string, c: char)
    ensures Braces(prefix + [c]) == if IsBrace(c) then Braces(prefix) + [c] else Braces(prefix)
  {
    assert (prefix + [c])[..|prefix|] == prefix;
    assert Braces(prefix) + [] == Braces(prefix);
  }

  lemma DepthStep(prefix: string, c: char, depth: int)
    requires DepthIs(prefix, depth)
    ensures !IsBrace(c) ==> DepthIs(prefix + [c], depth)
    ensures c == '{' && depth == 0 ==> DepthIs(prefix + [c], 1)
    ensures c == '}' && depth != 0 ==> DepthIs(prefix + [c], 0)
  {
    BracesSnoc(prefix, c);
    PairedSnoc(Braces(prefix), c);
  }

  /** A brace that does not fit decides the answer, whatever follows. */
  lemma DepthBreaks(prefix: string, c: char, rest: string, depth: int)
    requires DepthIs(prefix, depth) && ((c == '{' && depth != 0) || (c == '}' && depth == 0))
    ensures Unbalanced(prefix + [c] + rest)
  {
    BracesSnoc(prefix, c);
    PairedSnoc(Braces(prefix), c);
    NotBoth(Braces(prefix));
    BracesAppend(prefix + [c], rest);
    BrokenStaysBroken(Braces(prefix + [c]), Braces(rest));
  }

  /** The depth loop, with its early exits. */
  method UnbalancedBraces(text: string) returns (unbalanced: bool)
    ensures unbalanced == Unbalanced(text)
  {
    var depth := 0;
    for i := 0 to |text|
      invariant depth == 0 || depth == 1
      invariant DepthIs(text[..i], depth)
    {
      var c := text[i];
      assert text[..i + 1] == text[..i] + [c];
      assert text == text[..i] + [c] + text[i + 1..];
      DepthStep(text[..i], c, depth);
      if c == '{' {
        if depth != 0 {
          DepthBreaks(text[..i], c, text[i + 1..], depth);
          return true;
        }
        depth := 1;
      } else if c == '}' {
        if depth == 0 {
          DepthBreaks(text[..i], c, text[i + 1..], depth);
          return true;
        }
        depth := 0;
      }
    }
    assert text[..|text|] == text;
    NotBoth(Braces(text));
    return depth != 0;
  }

  // ----- Validation -----

  datatype SourceMessage = SourceMessage(en: string, desc: Option<string>, hash: string, maxLen: Option<nat>)

  /** A candidate may lack any of its fields. */
  datatype Message = Message(en: Option<string>, desc: Option<string>, hash: Option<string>, maxLen: Option<nat>)

  datatype Check =
    | Completeness | Orphan | Syntax | PlaceholderParity | CatalogMarkup | EntityMarkup
    | InlineStructure | Stale | Length | FrozenToken(token: string)

  datatype Problem = Problem(check: Check, id: string)

  predicate HasMarkup(text: string) { '<' in text || '>' in text }

  function TextOf(c: Message): string { if c.en.Some? then c.en.value else "" }

  predicate TooLong(s: SourceMessage, text: string) {
    s.maxLen.Some? && s.maxLen.value != 0 && |text| > s.maxLen.value
  }

  function AddIf(checks: seq<Check>, fails: bool, check: Check): seq<Check> {
    if fails then checks + [check] else checks
  }

  predicate Dropped(source: string, text: string, token: string) {
    Contains(source, token) && !Contains(text, token)
  }

  function AddFrozen(checks: seq<Check>, tokens: seq<string>, source: string, text: string): seq<Check> {
    if tokens == [] then checks
    else
      var last := tokens[|tokens| - 1];
      AddIf(AddFrozen(checks, tokens[..|tokens| - 1], source, text), Dropped(source, text, last), FrozenToken(last))
  }

  predicate Misplaced(s: SourceMessage, text: string) {
    !Unbalanced(text) && ValuePlaceholders(s.en) != ValuePlaceholders(text)
  }

  /** `unescape` stands for the entity decoder. */
  predicate EncodesMarkup(text: string, unescape: string -> string) {
    unescape(text) != text && HasMarkup(unescape(text))
  }

  /** The findings about structure and markup, in the order in which they are reported. */
  function TextChecks(s: SourceMessage, text: string, unescape: string -> string): seq<Check> {
    var braces := AddIf(AddIf([], Unbalanced(text), Syntax), Misplaced(s, text), PlaceholderParity);
    var markup := AddIf(AddIf(braces, HasMarkup(text), CatalogMarkup), EncodesMarkup(text, unescape), EntityMarkup);
    AddIf(markup, Inlines(text) != Inlines(s.en), InlineStructure)
  }

  function Checks(s: SourceMessage, c: Message, tokens: seq<string>, unescape: string -> string): seq<Check> {
    var text := TextOf(c);
    var stale := AddIf(TextChecks(s, text, unescape), c.hash != Some(s.hash), Stale);
    AddFrozen(AddIf(stale, TooLong(s, text), Length), tokens, s.en, text)
  }

  function Tagged(checks: seq<Check>, id: string): (problems: seq<Problem>)
    ensures |problems| == |checks| && forall i :: 0 <= i < |checks| ==> problems[i] == Problem(checks[i], id)
  {
    seq(|checks|, i requires 0 <= i < |checks| => Problem(checks[i], id))
  }

  function Missing(source: map<string, SourceMessage>, candidate: map<string, Message>, ids: seq<string>): seq<Problem> {
    if ids == [] then []
    else
      var id := ids[|ids| - 1];
      Missing(source, candidate, ids[..|ids| - 1])
        + if id in source && id !in candidate then [Problem(Completeness, id)] else []
  }

  function Orphans(source: map<string, SourceMessage>, candidate: map<string, Message>, ids: seq<string>): seq<Problem> {
    if ids == [] then []
    else
      var id := ids[|ids| - 1];
      Orphans(source, candidate, ids[..|ids| - 1])
        + if id in candidate && id !in source then [Problem(Orphan, id)] else []
  }

  function Shared(source: map<string, SourceMessage>, candidate: map<string, Message>, ids: seq<string>,
                  tokens: seq<string>, unescape: string -> string): seq<Problem> {
    if ids == [] then []
    else
      var id := ids[|ids| - 1];
      Shared(source, candidate, ids[..|ids| - 1], tokens, unescape)
        + if id in source && id in candidate then Tagged(Checks(source[id], candidate[id], tokens, unescape), id) else []
  }

  /** Everything `validate` reports, when `ids` lists the ids of both catalogs. */
  function Problems(source: map<string, SourceMessage>, candidate: map<string, Message>, ids: seq<string>,
                    tokens: seq<string>, unescape: string -> string): seq<Problem> {
    Missing(source, candidate, ids) + Orphans(source, candidate, ids)
      + Shared(source, candidate, ids, tokens, unescape)
  }

  /** The order of code points, as `sorted` compares strings. */
  predicate Before(a: string, b: string)
    decreases |a|
  {
    b != "" && (a == "" || a[0] < b[0] || (a[0] == b[0] && Before(a[1..], b[1..])))
  }

  /** The two strings agree on the first `k` characters; then `a` ends, or has the smaller. */
  ghost predicate DiffersAt(a: string, b: string, k: nat) {
    && k <= |a| && k < |b|
    && (forall i :: 0 <= i < k ==> a[i] == b[i])
    && (k == |a| || a[k] < b[k])
  }

  /** Strings compare at the first character in which they differ; a prefix comes first. */
  lemma {:induction false} BeforeAtFirstDifference(a: string, b: string)
    ensures Before(a, b) <==> exists k: nat :: DiffersAt(a, b, k)
    decreases |a|
  {
    if a != "" && b != "" && a[0] == b[0] {
      BeforeAtFirstDifference(a[1..], b[1..]);
      if k: nat :| DiffersAt(a, b, k) {
        assert DiffersAt(a[1..], b[1..], k - 1);
      }
      if k: nat :| DiffersAt(a[1..], b[1..], k) {
        assert DiffersAt(a, b, k + 1);
      }
    } else if Before(a, b) {
      assert DiffersAt(a, b, 0);
    }
  }

  ghost predicate Ascending(s: seq<string>) {
    forall i, j :: 0 <= i < j < |s| ==> Before(s[i], s[j])
  }

  /** The ids of both catalogs. */
  ghost predicate Lists(ids: seq<string>, source: map<string, SourceMessage>, candidate: map<string, Message>) {
    forall id :: id in ids <==> id in source || id in candidate
  }

  // ----- What a report means -----

  /** What it is for a check to fail for a message that both catalogs have. */
  ghost predicate Fails(check: Check, s: SourceMessage, c: Message, tokens: seq<string>, unescape: string -> string) {
    var text := if c.en.Some? then c.en.value else "";
    var decoded := unescape(text);
    match check
    case Completeness => false
    case Orphan => false
    case Syntax => Unbalanced(text)
    case PlaceholderParity => !Unbalanced(text) && !SameValues(s.en, text)
    case CatalogMarkup => '<' in text || '>' in text
    case EntityMarkup => decoded != text && ('<' in decoded || '>' in decoded)
    case InlineStructure => Markers(text) != Markers(s.en)
    case Stale => c.hash != Some(s.hash)
    case Length => s.maxLen.Some? && 0 < s.maxLen.value < |text|
    case FrozenToken(token) => token in tokens && Contains(s.en, token) && !Contains(text, token)
  }

  /** The same value placeholders occur in both texts. */
  ghost predicate SameValues(a: string, b: string) {
    forall p :: HasValue(a, p) <==> HasValue(b, p)
  }

  lemma SameValuesAre(a: string, b: string)
    ensures ValuePlaceholders(a) == ValuePlaceholders(b) <==> SameValues(a, b)
  {
    forall p ensures (p in ValuePlaceholders(a) <==> HasValue(a, p)) && (p in ValuePlaceholders(b) <==> HasValue(b, p)) {
      ValuePlaceholdersAre(a, p);
      ValuePlaceholdersAre(b, p);
    }
  }

  ghost predicate Wrong(p: Problem, source: map<string, SourceMessage>, candidate: map<string, Message>,
                        tokens: seq<string>, unescape: string -> string) {
    match p.check
    case Completeness => p.id in source && p.id !in candidate
    case Orphan => p.id in candidate && p.id !in source
    case _ => p.id in source && p.id in candidate && Fails(p.check, source[p.id], candidate[p.id], tokens, unescape)
  }

  lemma AddIfHas(checks: seq<Check>, fails: bool, added: Check, check: Check)
    ensures check in AddIf(checks, fails, added) <==> check in checks || (fails && check == added)
  {
  }

  lemma {:induction false} AddFrozenHas(checks: seq<Check>, tokens: seq<string>, source: string, text: string, check: Check)
    ensures check in AddFrozen(checks, tokens, source, text) <==>
      check in checks || (check.FrozenToken? && check.token in tokens && Dropped(source, text, check.token))
  {
    if tokens != [] {
      var n := |tokens| - 1;
      AddFrozenHas(checks, tokens[..n], source, text, check);
      AddIfHas(AddFrozen(checks, tokens[..n], source, text), Dropped(source, text, tokens[n]), FrozenToken(tokens[n]), check);
      assert tokens == tokens[..n] + [tokens[n]];
    }
  }

  lemma TextChecksHave(s: SourceMessage, text: string, unescape: string -> string, check: Check)
    ensures check in TextChecks(s, text, unescape) <==>
      || (check == Syntax && Unbalanced(text))
      || (check == PlaceholderParity && Misplaced(s, text))
      || (check == CatalogMarkup && HasMarkup(text))
      || (check == EntityMarkup && EncodesMarkup(text, unescape))
      || (check == InlineStructure && Inlines(text) != Inlines(s.en))
  {
    var syntax := AddIf([], Unbalanced(text), Syntax);
    var braces := AddIf(syntax, Misplaced(s, text), PlaceholderParity);
    var raw := AddIf(braces, HasMarkup(text), CatalogMarkup);
    var markup := AddIf(raw, EncodesMarkup(text, unescape), EntityMarkup);
    AddIfHas([], Unbalanced(text), Syntax, check);
    AddIfHas(syntax, Misplaced(s, text), PlaceholderParity, check);
    AddIfHas(braces, HasMarkup(text), CatalogMarkup, check);
    AddIfHas(raw, EncodesMarkup(text, unescape), EntityMarkup, check);
    AddIfHas(markup, Inlines(text) != Inlines(s.en), InlineStructure, check);
  }

  lemma StaleAndLengthHave(checks: seq<Check>, stale: bool, long: bool, check: Check)
    ensures check in AddIf(AddIf(checks, stale, Stale), long, Length) <==>
      check in checks || (stale && check == Stale) || (long && check == Length)
  {
    AddIfHas(checks, stale, Stale, check);
    AddIfHas(AddIf(checks, stale, Stale), long, Length, check);
  }

  lemma ChecksHave(s: SourceMessage, c: Message, tokens: seq<string>, unescape: string -> string, check: Check)
    ensures check in Checks(s, c, tokens, unescape) <==>
      || check in TextChecks(s, TextOf(c), unescape)
      || (check == Stale && c.hash != Some(s.hash))
      || (check == Length && TooLong(s, TextOf(c)))
      || (check.FrozenToken? && check.token in tokens && Dropped(s.en, TextOf(c), check.token))
  {
    var text := TextOf(c);
    var checks := TextChecks(s, text, unescape);
    StaleAndLengthHave(checks, c.hash != Some(s.hash), TooLong(s, text), check);
    AddFrozenHas(AddIf(AddIf(checks, c.hash != Some(s.hash), Stale), TooLong(s, text), Length), tokens, s.en, text, check);
  }

  lemma CheckedIffFails(s: SourceMessage, c: Message, tokens: seq<string>, unescape: string -> string, check: Check)
    ensures check in Checks(s, c, tokens, unescape) <==> Fails(check, s, c, tokens, unescape)
  {
    ChecksHave(s, c, tokens, unescape, check);
    TextChecksHave(s, TextOf(c), unescape, check);
    SameValuesAre(s.en, TextOf(c));
    InlinesAreMarkers(s.en);
    InlinesAreMarkers(TextOf(c));
  }

  lemma TaggedHas(checks: seq<Check>, id: string, p: Problem)
    ensures p in Tagged(checks, id) <==> p.id == id && p.check in checks
  {
    if p in Tagged(checks, id) {
      var i :| 0 <= i < |checks| && Tagged(checks, id)[i] == p;
      assert checks[i] == p.check;
    }
    if p.id == id && p.check in checks {
      var i :| 0 <= i < |checks| && checks[i] == p.check;
      assert Tagged(checks, id)[i] == p;
    }
  }

  lemma {:induction false} MissingHas(source: map<string, SourceMessage>, candidate: map<string, Message>, ids: seq<string>, p: Problem)
    ensures p in Missing(source, candidate, ids) <==>
      p.check == Completeness && p.id in ids && p.id in source && p.id !in candidate
  {
    if ids != [] {
      var n := |ids| - 1;
      MissingHas(source, candidate, ids[..n], p);
      assert p.id in ids <==> p.id in ids[..n] || p.id == ids[n];
    }
  }

  lemma {:induction false} OrphansHave(source: map<string, SourceMessage>, candidate: map<string, Message>, ids: seq<string>, p: Problem)
    ensures p in Orphans(source, candidate, ids) <==>
      p.check == Orphan && p.id in ids && p.id in candidate && p.id !in source
  {
    if ids != [] {
      var n := |ids| - 1;
      OrphansHave(source, candidate, ids[..n], p);
      assert p.id in ids <==> p.id in ids[..n] || p.id == ids[n];
    }
  }

  lemma {:induction false} SharedHas(source: map<string, SourceMessage>, candidate: map<string, Message>, ids: seq<string>,
                                     tokens: seq<string>, unescape: string -> string, p: Problem)
    ensures p in Shared(source, candidate, ids, tokens, unescape) <==>
      p.id in ids && p.id in source && p.id in candidate
      && Fails(p.check, source[p.id], candidate[p.id], tokens, unescape)
  {
    if ids != [] {
      var n := |ids| - 1;
      var id := ids[n];
      SharedHas(source, candidate, ids[..n], tokens, unescape, p);
      assert p.id in ids <==> p.id in ids[..n] || p.id == id;
      if id in source && id in candidate {
        TaggedHas(Checks(source[id], candidate[id], tokens, unescape), id, p);
        CheckedIffFails(source[id], candidate[id], tokens, unescape, p.check);
      }
    }
  }

  /** A problem is reported if and only if it is there. */
  lemma ReportedIffWrong(source: map<string, SourceMessage>, candidate: map<string, Message>, ids: seq<string>,
                         tokens: seq<string>, unescape: string -> string, p: Problem)
    requires Lists(ids, source, candidate)
    ensures p in Problems(source, candidate, ids, tokens, unescape) <==> Wrong(p, source, candidate, tokens, unescape)
  {
    MissingHas(source, candidate, ids, p);
    OrphansHave(source, candidate, ids, p);
    SharedHas(source, candidate, ids, tokens, unescape, p);
  }

  /** Every message that the source has passes every check. */
  ghost predicate AllPass(source: map<string, SourceMessage>, candidate: map<string, Message>,
                          tokens: seq<string>, unescape: string -> string)
    requires source.Keys == candidate.Keys
  {
    forall id, check :: id in source ==> !Fails(check, source[id], candidate[id], tokens, unescape)
  }

  /** A report is empty if and only if the catalogs have the same ids and every message
      passes every check. */
  lemma EmptyIffSound(source: map<string, SourceMessage>, candidate: map<string, Message>, ids: seq<string>,
                      tokens: seq<string>, unescape: string -> string)
    requires Lists(ids, source, candidate)
    ensures Problems(source, candidate, ids, tokens, unescape) == []
       <==> source.Keys == candidate.Keys && AllPass(source, candidate, tokens, unescape)
  {
    var found := Problems(source, candidate, ids, tokens, unescape);
    if found == [] {
      forall id ensures id in source <==> id in candidate {
        ReportedIffWrong(source, candidate, ids, tokens, unescape, Problem(Completeness, id));
        ReportedIffWrong(source, candidate, ids, tokens, unescape, Problem(Orphan, id));
      }
      forall id, check | id in source ensures !Fails(check, source[id], candidate[id], tokens, unescape) {
        ReportedIffWrong(source, candidate, ids, tokens, unescape, Problem(check, id));
      }
    } else {
      ReportedIffWrong(source, candidate, ids, tokens, unescape, found[0]);
    }
  }

  // ----- The order of a report -----

  function Section(check: Check): nat {
    match check case Completeness => 0 case Orphan => 1 case _ => 2
  }

  /** The order in which the checks of one message are made. */
  function Rank(check: Check): nat {
    match check
    case Completeness => 0
    case Orphan => 0
    case Syntax => 1
    case PlaceholderParity => 2
    case CatalogMarkup => 3
    case EntityMarkup => 4
    case InlineStructure => 5
    case Stale => 6
    case Length => 7
    case FrozenToken(_) => 8
  }

  /** Frozen tokens come in their own order. */
  predicate CheckedBefore(a: Check, b: Check) {
    Rank(a) < Rank(b) || (a.FrozenToken? && b.FrozenToken? && Before(a.token, b.token))
  }

  predicate ReportedBefore(p: Problem, q: Problem) {
    || Section(p.check) < Section(q.check)
    || (Section(p.check) == Section(q.check) && Before(p.id, q.id))
    || (Section(p.check) == Section(q.check) && p.id == q.id && CheckedBefore(p.check, q.check))
  }

  ghost predicate ChecksInOrder(checks: seq<Check>) {
    forall i, j :: 0 <= i < j < |checks| ==> CheckedBefore(checks[i], checks[j])
  }

  ghost predicate InReportOrder(problems: seq<Problem>) {
    forall i, j :: 0 <= i < j < |problems| ==> ReportedBefore(problems[i], problems[j])
  }

  ghost predicate RankedBelow(checks: seq<Check>, rank: nat) {
    forall c :: c in checks ==> Rank(c) < rank
  }

  lemma AddIfInOrder(checks: seq<Check>, fails: bool, added: Check)
    requires ChecksInOrder(checks) && RankedBelow(checks, Rank(added))
    ensures ChecksInOrder(AddIf(checks, fails, added)) && RankedBelow(AddIf(checks, fails, added), Rank(added) + 1)
  {
  }

  lemma TextChecksInOrder(s: SourceMessage, text: string, unescape: string -> string)
    ensures ChecksInOrder(TextChecks(s, text, unescape)) && RankedBelow(TextChecks(s, text, unescape), 6)
  {
    var syntax := AddIf([], Unbalanced(text), Syntax);
    var braces := AddIf(syntax, Misplaced(s, text), PlaceholderParity);
    var raw := AddIf(braces, HasMarkup(text), CatalogMarkup);
    var markup := AddIf(raw, EncodesMarkup(text, unescape), EntityMarkup);
    AddIfInOrder([], Unbalanced(text), Syntax);
    AddIfInOrder(syntax, Misplaced(s, text), PlaceholderParity);
    AddIfInOrder(braces, HasMarkup(text), CatalogMarkup);
    AddIfInOrder(raw, EncodesMarkup(text, unescape), EntityMarkup);
    AddIfInOrder(markup, Inlines(text) != Inlines(s.en), InlineStructure);
  }

  lemma AddFrozenLast(checks: seq<Check>, tokens: seq<string>, source: string, text: string, c: Check)
    requires tokens != [] && Ascending(tokens) && RankedBelow(checks, 8)
    requires c in AddFrozen(checks, tokens[..|tokens| - 1], source, text)
    ensures CheckedBefore(c, FrozenToken(tokens[|tokens| - 1]))
  {
    var n := |tokens| - 1;
    AddFrozenHas(checks, tokens[..n], source, text, c);
    if c !in checks {
      var k :| 0 <= k < n && tokens[..n][k] == c.token;
      assert Before(tokens[k], tokens[n]);
    }
  }

  lemma {:induction false} FrozenInOrder(checks: seq<Check>, tokens: seq<string>, source: string, text: string)
    requires ChecksInOrder(checks) && RankedBelow(checks, 8) && Ascending(tokens)
    ensures ChecksInOrder(AddFrozen(checks, tokens, source, text))
  {
    if tokens != [] {
      var n := |tokens| - 1;
      var before := AddFrozen(checks, tokens[..n], source, text);
      FrozenInOrder(checks, tokens[..n], source, text);
      forall i | 0 <= i < |before| ensures CheckedBefore(before[i], FrozenToken(tokens[n])) {
        AddFrozenLast(checks, tokens, source, text, before[i]);
      }
    }
  }

  lemma ChecksAreInOrder(s: SourceMessage, c: Message, tokens: seq<string>, unescape: string -> string)
    requires Ascending(tokens)
    ensures ChecksInOrder(Checks(s, c, tokens, unescape))
  {
    var text := TextOf(c);
    var checks := TextChecks(s, text, unescape);
    var stale := AddIf(checks, c.hash != Some(s.hash), Stale);
    TextChecksInOrder(s, text, unescape);
    AddIfInOrder(checks, c.hash != Some(s.hash), Stale);
    AddIfInOrder(stale, TooLong(s, text), Length);
    FrozenInOrder(AddIf(stale, TooLong(s, text), Length), tokens, s.en, text);
  }

  lemma ReportAppend(a: seq<Problem>, b: seq<Problem>)
    requires InReportOrder(a) && InReportOrder(b)
    requires forall i, j :: 0 <= i < |a| && 0 <= j < |b| ==> ReportedBefore(a[i], b[j])
    ensures InReportOrder(a + b)
  {
    var all := a + b;
    forall i, j | 0 <= i < j < |all| ensures ReportedBefore(all[i], all[j]) {
      if j < |a| {
        assert ReportedBefore(a[i], a[j]);
      } else if i < |a| {
        assert ReportedBefore(a[i], b[j - |a|]);
      } else {
        assert ReportedBefore(b[i - |a|], b[j - |a|]);
      }
    }
  }

  /** Problems of one section about ids before the last, then those about the last. */
  lemma NextId(ids: seq<string>, a: seq<Problem>, b: seq<Problem>, section: nat)
    requires ids != [] && Ascending(ids) && InReportOrder(a) && InReportOrder(b)
    requires forall p :: p in a ==> p.id in ids[..|ids| - 1] && Section(p.check) == section
    requires forall p :: p in b ==> p.id == ids[|ids| - 1] && Section(p.check) == section
    ensures InReportOrder(a + b)
  {
    var n := |ids| - 1;
    forall i, j | 0 <= i < |a| && 0 <= j < |b| ensures ReportedBefore(a[i], b[j]) {
      assert a[i] in a && b[j] in b;
      var k :| 0 <= k < n && ids[..n][k] == a[i].id;
      assert Before(ids[k], ids[n]);
    }
    ReportAppend(a, b);
  }

  lemma {:induction false} MissingInOrder(source: map<string, SourceMessage>, candidate: map<string, Message>, ids: seq<string>)
    requires Ascending(ids)
    ensures InReportOrder(Missing(source, candidate, ids))
  {
    if ids != [] {
      var n := |ids| - 1;
      MissingInOrder(source, candidate, ids[..n]);
      forall p | p in Missing(source, candidate, ids[..n]) ensures p.id in ids[..n] && Section(p.check) == 0 {
        MissingHas(source, candidate, ids[..n], p);
      }
      NextId(ids, Missing(source, candidate, ids[..n]),
             if ids[n] in source && ids[n] !in candidate then [Problem(Completeness, ids[n])] else [], 0);
    }
  }

  lemma {:induction false} OrphansInOrder(source: map<string, SourceMessage>, candidate: map<string, Message>, ids: seq<string>)
    requires Ascending(ids)
    ensures InReportOrder(Orphans(source, candidate, ids))
  {
    if ids != [] {
      var n := |ids| - 1;
      OrphansInOrder(source, candidate, ids[..n]);
      forall p | p in Orphans(source, candidate, ids[..n]) ensures p.id in ids[..n] && Section(p.check) == 1 {
        OrphansHave(source, candidate, ids[..n], p);
      }
      NextId(ids, Orphans(source, candidate, ids[..n]),
             if ids[n] in candidate && ids[n] !in source then [Problem(Orphan, ids[n])] else [], 1);
    }
  }

  lemma TaggedInOrder(s: SourceMessage, c: Message, tokens: seq<string>, unescape: string -> string, id: string)
    requires Ascending(tokens)
    ensures var tagged := Tagged(Checks(s, c, tokens, unescape), id);
      && InReportOrder(tagged)
      && (forall p :: p in tagged ==> p.id == id && Section(p.check) == 2)
  {
    var checks := Checks(s, c, tokens, unescape);
    ChecksAreInOrder(s, c, tokens, unescape);
    forall i | 0 <= i < |checks| ensures Section(checks[i]) == 2 {
      CheckedIffFails(s, c, tokens, unescape, checks[i]);
    }
    forall p | p in Tagged(checks, id) ensures p.id == id && Section(p.check) == 2 {
      var i :| 0 <= i < |checks| && Tagged(checks, id)[i] == p;
    }
  }

  lemma {:induction false} SharedInOrder(source: map<string, SourceMessage>, candidate: map<string, Message>, ids: seq<string>,
                                         tokens: seq<string>, unescape: string -> string)
    requires Ascending(ids) && Ascending(tokens)
    ensures InReportOrder(Shared(source, candidate, ids, tokens, unescape))
  {
    if ids != [] {
      var n := |ids| - 1;
      var id, early := ids[n], Shared(source, candidate, ids[..n], tokens, unescape);
      SharedInOrder(source, candidate, ids[..n], tokens, unescape);
      forall p | p in early ensures p.id in ids[..n] && Section(p.check) == 2 {
        SharedHas(source, candidate, ids[..n], tokens, unescape, p);
      }
      if id in source && id in candidate {
        TaggedInOrder(source[id], candidate[id], tokens, unescape, id);
        NextId(ids, early, Tagged(Checks(source[id], candidate[id], tokens, unescape), id), 2);
      } else {
        assert early + [] == early;
      }
    }
  }

  /** A report is sorted: missing ids, orphans, then the shared messages; each section by
      id, the problems of one message in the order of the checks. */
  lemma ReportIsInOrder(source: map<string, SourceMessage>, candidate: map<string, Message>, ids: seq<string>,
                        tokens: seq<string>, unescape: string -> string)
    requires Ascending(ids) && Ascending(tokens)
    ensures InReportOrder(Problems(source, candidate, ids, tokens, unescape))
  {
    var missing, orphans := Missing(source, candidate, ids), Orphans(source, candidate, ids);
    var shared := Shared(source, candidate, ids, tokens, unescape);
    MissingInOrder(source, candidate, ids);
    OrphansInOrder(source, candidate, ids);
    SharedInOrder(source, candidate, ids, tokens, unescape);
    forall i | 0 <= i < |missing| ensures Section(missing[i].check) == 0 {
      MissingHas(source, candidate, ids, missing[i]);
    }
    forall i | 0 <= i < |orphans| ensures Section(orphans[i].check) == 1 {
      OrphansHave(source, candidate, ids, orphans[i]);
    }
    forall i | 0 <= i < |shared| ensures Section(shared[i].check) == 2 {
      SharedHas(source, candidate, ids, tokens, unescape, shared[i]);
    }
    ReportAppend(missing, orphans);
    forall i | 0 <= i < |missing + orphans| ensures Section((missing + orphans)[i].check) < 2 {
    }
    ReportAppend(missing + orphans, shared);
  }

  lemma {:induction false} NotBeforeItself(a: string)
    ensures !Before(a, a)
  {
    if a != "" {
      NotBeforeItself(a[1..]);
    }
  }

  /** So no problem is reported twice. */
  lemma InOrderHasNoRepeats(problems: seq<Problem>)
    requires InReportOrder(problems)
    ensures NoRepeats(problems)
  {
    forall i, j | 0 <= i < j < |problems| ensures problems[i] != problems[j] {
      assert ReportedBefore(problems[i], problems[j]);
      NotBeforeItself(problems[i].id);
      if problems[i].check.FrozenToken? {
        NotBeforeItself(problems[i].check.token);
      }
    }
  }

  // ----- The loops -----

  method CheckText(s: SourceMessage, text: string, unescape: string -> string) returns (checks: seq<Check>)
    ensures checks == TextChecks(s, text, unescape)
  {
    checks := [];
    var unbalanced := UnbalancedBraces(text);
    if unbalanced {
      checks := checks + [Syntax];
    } else {
      var want, got := ValuePlaceholders(s.en), ValuePlaceholders(text);
      if want != got {
        checks := checks + [PlaceholderParity];
      }
    }
    if HasMarkup(text) {
      checks := checks + [CatalogMarkup];
    }
    var decoded := unescape(text);
    if decoded != text && HasMarkup(decoded) {
      checks := checks + [EntityMarkup];
    }
    if Inlines(text) != Inlines(s.en) {
      checks := checks + [InlineStructure];
    }
  }

  method CheckMessage(s: SourceMessage, c: Message, tokens: seq<string>, unescape: string -> string) returns (checks: seq<Check>)
    ensures checks == Checks(s, c, tokens, unescape)
  {
    var text := TextOf(c);
    checks := CheckText(s, text, unescape);
    if c.hash != Some(s.hash) {
      checks := checks + [Stale];
    }
    if TooLong(s, text) {
      checks := checks + [Length];
    }
    ghost var before := checks;
    for i := 0 to |tokens|
      invariant checks == AddFrozen(before, tokens[..i], s.en, text)
    {
      assert tokens[..i + 1][..i] == tokens[..i];
      if Contains(s.en, tokens[i]) && !Contains(text, tokens[i]) {
        checks := checks + [FrozenToken(tokens[i])];
      }
    }
    assert tokens[..|tokens|] == tokens;
  }

  method FindMissing(source: map<string, SourceMessage>, candidate: map<string, Message>, ids: seq<string>)
    returns (problems: seq<Problem>)
    ensures problems == Missing(source, candidate, ids)
  {
    problems := [];
    for i := 0 to |ids|
      invariant problems == Missing(source, candidate, ids[..i])
    {
      assert ids[..i + 1][..i] == ids[..i];
      if ids[i] in source && ids[i] !in candidate {
        problems := problems + [Problem(Completeness, ids[i])];
      }
    }
    assert ids[..|ids|] == ids;
  }

  method FindOrphans(source: map<string, SourceMessage>, candidate: map<string, Message>, ids: seq<string>)
    returns (problems: seq<Problem>)
    ensures problems == Orphans(source, candidate, ids)
  {
    problems := [];
    for i := 0 to |ids|
      invariant problems == Orphans(source, candidate, ids[..i])
    {
      assert ids[..i + 1][..i] == ids[..i];
      if ids[i] in candidate && ids[i] !in source {
        problems := problems + [Problem(Orphan, ids[i])];
      }
    }
    assert ids[..|ids|] == ids;
  }

  lemma SharedNext(source: map<string, SourceMessage>, candidate: map<string, Message>, ids: seq<string>, i: nat,
                   tokens: seq<string>, unescape: string -> string)
    requires i < |ids|
    ensures Shared(source, candidate, ids[..i + 1], tokens, unescape)
         == Shared(source, candidate, ids[..i], tokens, unescape)
            + if ids[i] in source && ids[i] in candidate
              then Tagged(Checks(source[ids[i]], candidate[ids[i]], tokens, unescape), ids[i]) else []
  {
    assert ids[..i + 1][..i] == ids[..i];
  }

  method CheckShared(source: map<string, SourceMessage>, candidate: map<string, Message>, ids: seq<string>,
                     tokens: seq<string>, unescape: string -> string) returns (problems: seq<Problem>)
    ensures problems == Shared(source, candidate, ids, tokens, unescape)
  {
    problems := [];
    for i := 0 to |ids|
      invariant problems == Shared(source, candidate, ids[..i], tokens, unescape)
    {
      SharedNext(source, candidate, ids, i, tokens, unescape);
      if ids[i] in source && ids[i] in candidate {
        var checks := CheckMessage(source[ids[i]], candidate[ids[i]], tokens, unescape);
        problems := problems + Tagged(checks, ids[i]);
      }
    }
    assert ids[..|ids|] == ids;
  }

  /** The whole validation. `ids` and `tokens` are the sorted ids of both catalogs and the
      sorted never-translate list. A problem is reported if and only if it is there, and
      then once, in sorted order. */
  method Validate(source: map<string, SourceMessage>, candidate: map<string, Message>, ids: seq<string>,
                  tokens: seq<string>, unescape: string -> string) returns (problems: seq<Problem>)
    requires Lists(ids, source, candidate) && Ascending(ids) && Ascending(tokens)
    ensures problems == Problems(source, candidate, ids, tokens, unescape)
    ensures forall p :: p in problems <==> Wrong(p, source, candidate, tokens, unescape)
    ensures InReportOrder(problems) && NoRepeats(problems)
    ensures problems == [] <==> source.Keys == candidate.Keys && AllPass(source, candidate, tokens, unescape)
  {
    var missing := FindMissing(source, candidate, ids);
    var orphans := FindOrphans(source, candidate, ids);
    var shared := CheckShared(source, candidate, ids, tokens, unescape);
    problems := missing + orphans + shared;
    forall p
      ensures p in problems <==> Wrong(p, source, candidate, tokens, unescape)
    {
      ReportedIffWrong(source, candidate, ids, tokens, unescape, p);
    }
    EmptyIffSound(source, candidate, ids, tokens, unescape);
    ReportIsInOrder(source, candidate, ids, tokens, unescape);
    InOrderHasNoRepeats(problems);
  }
}
