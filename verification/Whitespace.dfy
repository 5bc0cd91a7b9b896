/** White space at the ends of a text, as JavaScript's `trim` sees it. */
module Whitespace {

  /** The white space and line terminators that `trim` removes. */
  predicate Blank(c: char) {
    c in {'\t', '\n', '\U{0B}', '\U{0C}', '\r', ' ', '\U{A0}', '\U{1680}', '\U{2028}', '\U{2029}',
          '\U{202F}', '\U{205F}', '\U{3000}', '\U{FEFF}'}
    || '\U{2000}' <= c <= '\U{200A}'
  }

  function TrimStart(s: string): string {
    if s != "" && Blank(s[0]) then TrimStart(s[1..]) else s
  }

  function TrimEnd(s: string): string {
    if s != "" && Blank(s[|s| - 1]) then TrimEnd(s[..|s| - 1]) else s
  }

  function Trim(s: string): string { TrimEnd(TrimStart(s)) }

  ghost predicate AllBlank(s: string) {
    forall i :: 0 <= i < |s| ==> Blank(s[i])
  }

  /** Neither end is white space. */
  ghost predicate Tight(s: string) {
    s != "" ==> !Blank(s[0]) && !Blank(s[|s| - 1])
  }

  lemma {:induction false} TrimStartDrops(x: string, s: string)
    requires AllBlank(x) && (s != "" ==> !Blank(s[0]))
    ensures TrimStart(x + s) == s
  {
    if x == "" {
      assert x + s == s;
    } else {
      assert (x + s)[1..] == x[1..] + s;
      TrimStartDrops(x[1..], s);
    }
  }

  lemma {:induction false} TrimEndDrops(s: string, y: string)
    requires AllBlank(y) && (s != "" ==> !Blank(s[|s| - 1]))
    ensures TrimEnd(s + y) == s
  {
    if y == "" {
      assert s + y == s;
    } else {
      assert (s + y)[..|s + y| - 1] == s + y[..|y| - 1];
      TrimEndDrops(s, y[..|y| - 1]);
    }
  }

  /** Trimming drops exactly the white space around a text. */
  lemma TrimDropsTheEnds(x: string, s: string, y: string)
    requires AllBlank(x) && Tight(s) && AllBlank(y)
    ensures Trim(x + s + y) == s
  {
    if s == "" {
      assert x + s + y == (x + y) + "";
      TrimStartDrops(x + y, "");
      assert TrimEnd("") == "";
    } else {
      assert x + s + y == x + (s + y);
      TrimStartDrops(x, s + y);
      TrimEndDrops(s, y);
    }
  }

  lemma {:induction false} TrimStartSplits(s: string) returns (x: string)
    ensures AllBlank(x) && s == x + TrimStart(s)
    ensures TrimStart(s) != "" ==> !Blank(TrimStart(s)[0])
  {
    if s != "" && Blank(s[0]) {
      var rest := TrimStartSplits(s[1..]);
      x := [s[0]] + rest;
    } else {
      x := "";
    }
  }

  lemma {:induction false} TrimEndSplits(s: string) returns (y: string)
    ensures AllBlank(y) && s == TrimEnd(s) + y
    ensures TrimEnd(s) != "" ==> !Blank(TrimEnd(s)[|TrimEnd(s)| - 1])
  {
    if s != "" && Blank(s[|s| - 1]) {
      var rest := TrimEndSplits(s[..|s| - 1]);
      y := rest + [s[|s| - 1]];
    } else {
      y := "";
    }
  }

  /** Every text is its trimmed middle between white space. */
  lemma TrimSplits(s: string) returns (x: string, y: string)
    ensures AllBlank(x) && Tight(Trim(s)) && AllBlank(y)
    ensures s == x + Trim(s) + y
  {
    x := TrimStartSplits(s);
    y := TrimEndSplits(TrimStart(s));
  }

  lemma TrimTwice(s: string)
    ensures Trim(Trim(s)) == Trim(s)
  {
    var x, y := TrimSplits(s);
    assert "" + Trim(s) + "" == Trim(s);
    TrimDropsTheEnds("", Trim(s), "");
  }
}
