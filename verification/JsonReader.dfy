/**
A reader of JSON text (section 2 of RFC 8259, without insignificant white space and with
whole numbers), as a reference for the canonical serialiser: what it prints for a value
reads back as that value with the members of every object in key order.
*/
module JsonReader {
  import opened Wrappers
  import opened JsonText
  import opened CanonicalJson

  // ----- The reader -----

  function Read(text: Text): Option<(Json, Text)>
    decreases |text|, 0
  {
    if [0x6E, 0x75, 0x6C, 0x6C] <= text then Some((Null, text[4..]))
    else if [0x74, 0x72, 0x75, 0x65] <= text then Some((Bool(true), text[4..]))
    else if [0x66, 0x61, 0x6C, 0x73, 0x65] <= text then Some((Bool(false), text[5..]))
    else if text == [] then None
    else if text[0] == 0x22 then
      var s := ReadString(text);
      if s.Some? then Some((Str(s.value.0), s.value.1)) else None
    else if text[0] == 0x5B then
      if [0x5D] <= text[1..] then Some((Arr([]), text[2..]))
      else
        var items := ReadItems(text[1..]);
        if items.Some? then Some((Arr(items.value.0), items.value.1)) else None
    else if text[0] == 0x7B then
      if [0x7D] <= text[1..] then Some((Obj([]), text[2..]))
      else
        var members := ReadMembers(text[1..]);
        if members.Some? then Some((Obj(members.value.0), members.value.1)) else None
    else if text[0] == 0x2D || IsDigit(text[0]) then
      var n := ReadInt(text);
      Some((Num(n.0), n.1))
    else None
  }

  /** Values separated by commas, up to the closing bracket. */
  function ReadItems(text: Text): Option<(seq<Json>, Text)>
    decreases |text|, 1
  {
    var first := Read(text);
    if first.None? || first.value.1 == [] || |first.value.1| >= |text| then None
    else
      var (v, rest) := first.value;
      if rest[0] == 0x5D then Some(([v], rest[1..]))
      else if rest[0] != 0x2C then None
      else
        var more := ReadItems(rest[1..]);
        if more.Some? then Some(([v] + more.value.0, more.value.1)) else None
  }

  /** Members separated by commas, up to the closing brace. */
  function ReadMembers(text: Text): Option<(seq<Member>, Text)>
    decreases |text|, 1
  {
    var key := ReadString(text);
    if key.None? || key.value.1 == [] || |key.value.1| >= |text| || key.value.1[0] != 0x3A then None
    else
      var first := Read(key.value.1[1..]);
      if first.None? || first.value.1 == [] || |first.value.1| >= |text| then None
      else
        var (v, rest) := first.value;
        var member := Member(key.value.0, v);
        if rest[0] == 0x7D then Some(([member], rest[1..]))
        else if rest[0] != 0x2C then None
        else
          var more := ReadMembers(rest[1..]);
          if more.Some? then Some(([member] + more.value.0, more.value.1)) else None
  }

  // ----- A value with every object in key order -----

  function Ordered(v: Json): Json
    decreases v, 0
  {
    match v
    case Arr(items) => Arr(OrderedItems(items))
    case Obj(members) => Obj(OrderedMembers(members, Sort(Keys(members))))
    case _ => v
  }

  function OrderedItems(items: seq<Json>): (r: seq<Json>)
    ensures |r| == |items|
    decreases items, 0
  {
    if items == [] then [] else [Ordered(items[0])] + OrderedItems(items[1..])
  }

  function OrderedMembers(members: seq<Member>, keys: seq<Text>): (r: seq<Member>)
    ensures |r| == |keys|
    decreases members, |keys|
  {
    if keys == [] then []
    else
      var i := Find(members, keys[0]);
      var value := if i < |members| then Ordered(members[i].value) else Null;
      [Member(keys[0], value)] + OrderedMembers(members, keys[1..])
  }

  lemma {:induction false} OrderedItemAt(items: seq<Json>, i: nat)
    requires i < |items|
    ensures OrderedItems(items)[i] == Ordered(items[i])
  {
    if i > 0 {
      OrderedItemAt(items[1..], i - 1);
    }
  }

  lemma {:induction false} OrderedMemberAt(members: seq<Member>, keys: seq<Text>, i: nat)
    requires i < |keys| && HasKey(members, keys[i])
    ensures OrderedMembers(members, keys)[i] == Member(keys[i], Ordered(members[Find(members, keys[i])].value))
    decreases |keys|
  {
    if i > 0 {
      OrderedMemberAt(members, keys[1..], i - 1);
    }
  }

  lemma OrderedHasTheKeys(members: seq<Member>, key: Text)
    requires WellFormed(Obj(members))
    ensures HasKey(OrderedMembers(members, Sort(Keys(members))), key) <==> HasKey(members, key)
  {
    var keys := Sort(Keys(members));
    var ordered := OrderedMembers(members, keys);
    SortedKeys(members);
    if HasKey(members, key) {
      var n :| 0 <= n < |keys| && keys[n] == key;
      OrderedMemberAt(members, keys, n);
      FindIsFirst(ordered, n);
    }
    if HasKey(ordered, key) {
      var n := Find(ordered, key);
      assert keys[n] in keys;
      OrderedMemberAt(members, keys, n);
    }
  }

  /** Ordering the members changes nothing but their order. */
  lemma {:induction false} OrderedIsSame(v: Json)
    requires WellFormed(v)
    ensures Same(v, Ordered(v))
    decreases v
  {
    match v
    case Arr(items) =>
      forall i | 0 <= i < |items| ensures Same(items[i], OrderedItems(items)[i]) {
        OrderedItemAt(items, i);
        OrderedIsSame(items[i]);
      }
    case Obj(members) =>
      var keys := Sort(Keys(members));
      var ordered := OrderedMembers(members, keys);
      SortedKeys(members);
      forall key ensures HasKey(members, key) <==> HasKey(ordered, key) {
        OrderedHasTheKeys(members, key);
      }
      forall i, j | 0 <= i < |members| && 0 <= j < |ordered| && members[i].key == ordered[j].key
        ensures Same(members[i].value, ordered[j].value)
      {
        assert keys[j] in keys;
        OrderedMemberAt(members, keys, j);
        FindsTheMember(members, i);
        OrderedIsSame(members[i].value);
      }
    case _ =>
  }

  // ----- Canonical text reads back -----

  lemma Starts(p: Text, r: Text)
    ensures p <= p + r && (p + r)[|p|..] == r
  {
  }

  lemma SameStart(p: Text, text: Text)
    requires p != [] && text != []
    ensures p <= text ==> text[0] == p[0]
  {
  }

  lemma NotAWord(v: Json, text: Text)
    requires text != [] && KindAt(text[0]) == KindOf(v) && !v.Null? && !v.Bool?
    ensures !([0x6E, 0x75, 0x6C, 0x6C] <= text)
    ensures !([0x74, 0x72, 0x75, 0x65] <= text)
    ensures !([0x66, 0x61, 0x6C, 0x73, 0x65] <= text)
  {
    SameStart([0x6E, 0x75, 0x6C, 0x6C], text);
    SameStart([0x74, 0x72, 0x75, 0x65], text);
    SameStart([0x66, 0x61, 0x6C, 0x73, 0x65], text);
  }

  /** The text of a value reads back as the value in key order, whatever follows it, as
      long as no digit follows. */
  lemma {:induction false} CanonicalReadsBack(v: Json, r: Text)
    requires WellFormed(v) && !DigitNext(r)
    ensures Read(Canonical(v) + r) == Some((Ordered(v), r))
    decreases v, 1, 0
  {
    HeadTellsTheKind(v);
    Starts(Canonical(v), r);
    if !v.Null? && !v.Bool? {
      NotAWord(v, Canonical(v) + r);
    }
    match v
    case Null =>
    case Bool(b) => assert !b ==> (FALSE_TEXT + r)[0] == 0x66;
    case Num(n) => IntRoundTrip(n, r);
    case Str(s) => StringRoundTrip(s, r);
    case Arr(items) => ArrayReadsBack(items, r);
    case Obj(members) => ObjectReadsBack(members, r);
  }

  lemma AfterOpening(open: unit, parts: seq<Text>, close: unit, r: Text)
    requires parts != []
    ensures ([open] + Join(parts) + [close] + r)[1..] == parts[0] + Onward(parts[1..], close, r)
  {
  }

  lemma {:induction false} ArrayReadsBack(a: seq<Json>, r: Text)
    requires WellFormed(Arr(a))
    ensures Read(Canonical(Arr(a)) + r) == Some((Ordered(Arr(a)), r))
    decreases a, 1, 0
  {
    var text := Canonical(Arr(a)) + r;
    assert text[0] == 0x5B;
    NotAWord(Arr(a), text);
    if a == [] {
      assert text == [0x5B, 0x5D] + r;
      assert text[1..] == [0x5D] + r && text[2..] == r;
    } else {
      AfterOpening(OPEN_ARR, Items(a), CLOSE_ARR, r);
      assert Items(a)[1..] == Items(a[1..]);
      HeadTellsTheKind(a[0]);
      assert text[1..][0] == Canonical(a[0])[0];
      ItemsReadBack(a, r);
    }
  }

  lemma {:induction false} ItemsReadBack(a: seq<Json>, r: Text)
    requires a != [] && WellFormed(Arr(a))
    ensures ReadItems(Canonical(a[0]) + Onward(Items(a[1..]), CLOSE_ARR, r)) == Some((OrderedItems(a), r))
    decreases a, 0, 0
  {
    var x := Onward(Items(a[1..]), CLOSE_ARR, r);
    WellFormedItems(a);
    OnwardStarts(Items(a[1..]), CLOSE_ARR, r);
    HeadTellsTheKind(a[0]);
    CanonicalReadsBack(a[0], x);
    if a[1..] == [] {
      OnwardEnds(CLOSE_ARR, r);
      assert OrderedItems(a) == [Ordered(a[0])];
    } else {
      OnwardNext(Items(a[1..]), CLOSE_ARR, r);
      assert Items(a[1..])[1..] == Items(a[1..][1..]);
      assert x[1..] == Canonical(a[1]) + Onward(Items(a[1..][1..]), CLOSE_ARR, r);
      ItemsReadBack(a[1..], r);
    }
  }

  lemma {:induction false} ObjectReadsBack(a: seq<Member>, r: Text)
    requires WellFormed(Obj(a))
    ensures Read(Canonical(Obj(a)) + r) == Some((Ordered(Obj(a)), r))
    decreases a, 1, 0
  {
    var text, keys := Canonical(Obj(a)) + r, Sort(Keys(a));
    assert text[0] == 0x7B;
    NotAWord(Obj(a), text);
    SortedKeys(a);
    if keys == [] {
      assert text == [0x7B, 0x7D] + r;
      assert text[1..] == [0x7D] + r && text[2..] == r;
    } else {
      AfterOpening(OPEN_OBJ, Entries(a, keys), CLOSE_OBJ, r);
      assert Entries(a, keys)[1..] == Entries(a, keys[1..]);
      assert text[1..][0] == Entries(a, keys)[0][0] == QUOTE;
      EntriesReadBack(a, keys, r);
    }
  }

  lemma {:induction false} EntriesReadBack(a: seq<Member>, keys: seq<Text>, r: Text)
    requires WellFormed(Obj(a)) && AllHeld(a, keys) && keys != []
    ensures ReadMembers(Entries(a, keys)[0] + Onward(Entries(a, keys[1..]), CLOSE_OBJ, r))
         == Some((OrderedMembers(a, keys), r))
    decreases a, 0, |keys|
  {
    var x := Onward(Entries(a, keys[1..]), CLOSE_OBJ, r);
    var v := a[Find(a, keys[0])].value;
    var text := Entries(a, keys)[0] + x;
    AllHeldTail(a, keys);
    HeldIsWellFormed(a, keys[0]);
    OnwardStarts(Entries(a, keys[1..]), CLOSE_OBJ, r);
    Regroup(Quote(keys[0]), Canonical(v), x);
    StringRoundTrip(keys[0], [COLON] + (Canonical(v) + x));
    assert ([COLON] + (Canonical(v) + x))[1..] == Canonical(v) + x;
    CanonicalReadsBack(v, x);
    if keys[1..] == [] {
      OnwardEnds(CLOSE_OBJ, r);
      assert OrderedMembers(a, keys) == [Member(keys[0], Ordered(v))];
    } else {
      OnwardNext(Entries(a, keys[1..]), CLOSE_OBJ, r);
      assert Entries(a, keys[1..])[1..] == Entries(a, keys[1..][1..]);
      assert x[1..] == Entries(a, keys[1..])[0] + Onward(Entries(a, keys[1..][1..]), CLOSE_OBJ, r);
      EntriesReadBack(a, keys[1..], r);
    }
  }
}
