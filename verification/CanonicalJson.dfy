/**
The canonical serialiser on which every comparison of the render harness rests: JSON text
with the keys of every object sorted by UTF-16 code units. An object is its list of
members in insertion order; numbers are whole.
*/
module CanonicalJson {
  import opened JsonText
  import opened Sequences

  datatype Json =
    | Null
    | Bool(b: bool)
    | Num(n: int)
    | Str(s: Text)
    | Arr(items: seq<Json>)
    | Obj(members: seq<Member>)

  datatype Member = Member(key: Text, value: Json)

  // ----- Key order -----

  /** Code-unit order, as the default sort compares strings. */
  predicate Less(a: Text, b: Text) {
    b != [] && (a == [] || a[0] < b[0] || (a[0] == b[0] && Less(a[1..], b[1..])))
  }

  function Insert(key: Text, keys: seq<Text>): seq<Text> {
    if keys == [] || !Less(keys[0], key) then [key] + keys else [keys[0]] + Insert(key, keys[1..])
  }

  function Sort(keys: seq<Text>): seq<Text> {
    if keys == [] then [] else Insert(keys[0], Sort(keys[1..]))
  }

  function Keys(members: seq<Member>): seq<Text> {
    if members == [] then [] else [members[0].key] + Keys(members[1..])
  }

  /** The index of the member with this key, or the length if there is none. */
  function Find(members: seq<Member>, key: Text): (i: nat)
    ensures i <= |members| && (i < |members| ==> members[i].key == key)
  {
    if members == [] || members[0].key == key then 0 else 1 + Find(members[1..], key)
  }

  lemma {:induction false} FindIsFirst(members: seq<Member>, i: nat)
    requires i < |members|
    ensures Find(members, members[i].key) <= i
  {
    if members[0].key != members[i].key {
      FindIsFirst(members[1..], i - 1);
    }
  }

  // ----- The serialiser -----

  const COMMA: unit := 0x2C
  const COLON: unit := 0x3A
  const OPEN_ARR: unit := 0x5B
  const CLOSE_ARR: unit := 0x5D
  const OPEN_OBJ: unit := 0x7B
  const CLOSE_OBJ: unit := 0x7D

  const NULL_TEXT: Text := [0x6E, 0x75, 0x6C, 0x6C]
  const TRUE_TEXT: Text := [0x74, 0x72, 0x75, 0x65]
  const FALSE_TEXT: Text := [0x66, 0x61, 0x6C, 0x73, 0x65]

  /** `parts.join(',')` */
  function Join(parts: seq<Text>): Text {
    if parts == [] then [] else parts[0] + JoinRest(parts[1..])
  }

  function JoinRest(parts: seq<Text>): Text {
    if parts == [] then [] else [COMMA] + parts[0] + JoinRest(parts[1..])
  }

  function Canonical(v: Json): Text
    decreases v, 0
  {
    match v
    case Null => NULL_TEXT
    case Bool(b) => if b then TRUE_TEXT else FALSE_TEXT
    case Num(n) => WriteInt(n)
    case Str(s) => Quote(s)
    case Arr(items) => [OPEN_ARR] + Join(Items(items)) + [CLOSE_ARR]
    case Obj(members) => [OPEN_OBJ] + Join(Entries(members, Sort(Keys(members)))) + [CLOSE_OBJ]
  }

  function Items(items: seq<Json>): (parts: seq<Text>)
    ensures |parts| == |items|
    decreases items, 0
  {
    if items == [] then [] else [Canonical(items[0])] + Items(items[1..])
  }

  function Entries(members: seq<Member>, keys: seq<Text>): (parts: seq<Text>)
    ensures |parts| == |keys|
    decreases members, |keys|
  {
    if keys == [] then []
    else
      var i := Find(members, keys[0]);
      var text := if i < |members| then Canonical(members[i].value) else [];
      [Quote(keys[0]) + [COLON] + text] + Entries(members, keys[1..])
  }

  // ----- Equality up to key order -----

  predicate HasKey(members: seq<Member>, key: Text) { Find(members, key) < |members| }

  /** Keys are distinct in every object, as they are in any parsed value. */
  ghost predicate WellFormed(v: Json) {
    match v
    case Arr(items) => forall i :: 0 <= i < |items| ==> WellFormed(items[i])
    case Obj(members) =>
      && (forall i, j :: 0 <= i < j < |members| ==> members[i].key != members[j].key)
      && (forall i :: 0 <= i < |members| ==> WellFormed(members[i].value))
    case _ => true
  }

  /** The same value, ignoring the order of the members of every object. */
  ghost predicate Same(v: Json, w: Json) {
    match (v, w)
    case (Arr(a), Arr(b)) => |a| == |b| && forall i :: 0 <= i < |a| ==> Same(a[i], b[i])
    case (Obj(a), Obj(b)) =>
      && (forall key :: HasKey(a, key) <==> HasKey(b, key))
      && (forall i, j :: 0 <= i < |a| && 0 <= j < |b| && a[i].key == b[j].key ==> Same(a[i].value, b[j].value))
    case _ => v == w
  }

  // ----- The sorted keys are determined by the set of keys -----

  ghost predicate StrictlySorted(keys: seq<Text>) {
    forall i, j :: 0 <= i < j < |keys| ==> Less(keys[i], keys[j])
  }

  /** The two texts agree on the first `k` units; then `a` ends, or has the smaller unit. */
  ghost predicate DiffersAt(a: Text, b: Text, k: nat) {
    && k <= |a| && k < |b|
    && (forall i :: 0 <= i < k ==> a[i] == b[i])
    && (k == |a| || a[k] < b[k])
  }

  /** Texts compare at the first unit in which they differ; a prefix comes first. */
  lemma {:induction false} LessAtFirstDifference(a: Text, b: Text)
    ensures Less(a, b) <==> exists k: nat :: DiffersAt(a, b, k)
    decreases |a|
  {
    if a != [] && b != [] && a[0] == b[0] {
      LessAtFirstDifference(a[1..], b[1..]);
      if k: nat :| DiffersAt(a, b, k) {
        assert DiffersAt(a[1..], b[1..], k - 1);
      }
      if k: nat :| DiffersAt(a[1..], b[1..], k) {
        assert DiffersAt(a, b, k + 1);
      }
    } else if Less(a, b) {
      assert DiffersAt(a, b, 0);
    }
  }

  lemma {:induction false} LessIsTotal(a: Text, b: Text)
    ensures a == b || Less(a, b) || Less(b, a)
    decreases |a|
  {
    if a != [] && b != [] && a[0] == b[0] {
      LessIsTotal(a[1..], b[1..]);
      assert a == [a[0]] + a[1..] && b == [b[0]] + b[1..];
    }
  }

  lemma {:induction false} LessIsAsymmetric(a: Text, b: Text)
    requires Less(a, b)
    ensures !Less(b, a)
    decreases |a|
  {
    if a != [] && a[0] == b[0] {
      LessIsAsymmetric(a[1..], b[1..]);
    }
  }

  lemma {:induction false} LessIsTransitive(a: Text, b: Text, c: Text)
    requires Less(a, b) && Less(b, c)
    ensures Less(a, c)
    decreases |a|
  {
    if a != [] && a[0] == b[0] && b[0] == c[0] {
      LessIsTransitive(a[1..], b[1..], c[1..]);
    }
  }

  lemma {:induction false} InsertIsSorted(key: Text, keys: seq<Text>)
    requires StrictlySorted(keys) && key !in keys
    ensures StrictlySorted(Insert(key, keys))
    ensures forall k :: k in Insert(key, keys) <==> k == key || k in keys
    decreases |keys|
  {
    if keys != [] {
      assert keys == [keys[0]] + keys[1..];
      if Less(keys[0], key) {
        InsertIsSorted(key, keys[1..]);
        var rest := Insert(key, keys[1..]);
        forall j | 0 <= j < |rest| ensures Less(keys[0], rest[j]) {
          assert rest[j] in rest;
          if rest[j] != key {
            var i :| 0 <= i < |keys[1..]| && keys[1..][i] == rest[j];
            assert Less(keys[0], keys[i + 1]);
          }
        }
      } else {
        LessIsTotal(keys[0], key);
        forall j | 0 <= j < |keys| ensures Less(key, keys[j]) {
          if j > 0 {
            LessIsTransitive(key, keys[0], keys[j]);
          }
        }
      }
    }
  }

  lemma {:induction false} SortIsSorted(keys: seq<Text>)
    requires NoRepeats(keys)
    ensures StrictlySorted(Sort(keys))
    ensures forall k :: k in Sort(keys) <==> k in keys
  {
    if keys != [] {
      SortIsSorted(keys[1..]);
      assert keys == [keys[0]] + keys[1..];
      InsertIsSorted(keys[0], Sort(keys[1..]));
    }
  }

  lemma LeastComesFirst(a: seq<Text>, b: seq<Text>)
    requires StrictlySorted(a) && StrictlySorted(b) && a != [] && b != []
    requires a[0] in b && b[0] in a
    ensures a[0] == b[0]
  {
    var j :| 0 <= j < |b| && b[j] == a[0];
    var i :| 0 <= i < |a| && a[i] == b[0];
    if i > 0 && j > 0 {
      LessIsAsymmetric(a[0], a[i]);
    }
  }

  lemma {:induction false} SortedIsUnique(a: seq<Text>, b: seq<Text>)
    requires StrictlySorted(a) && StrictlySorted(b)
    requires forall k :: k in a <==> k in b
    ensures a == b
    decreases |a|
  {
    NoMembers(a);
    NoMembers(b);
    if a != [] && b != [] {
      assert a[0] in b;
      assert b[0] in a;
      LeastComesFirst(a, b);
      assert a == [a[0]] + a[1..] && b == [b[0]] + b[1..];
      FirstIsNotLater(a);
      FirstIsNotLater(b);
      assert forall k :: k in a[1..] <==> k in a && k != a[0];
      SortedIsUnique(a[1..], b[1..]);
    }
  }

  lemma NoMembers(a: seq<Text>)
    ensures (forall k :: k !in a) ==> a == []
  {
    assert a != [] ==> a[0] in a;
  }

  lemma FirstIsNotLater(a: seq<Text>)
    requires StrictlySorted(a) && a != []
    ensures a[0] !in a[1..]
  {
    if i :| 0 <= i < |a[1..]| && a[1..][i] == a[0] {
      assert Less(a[0], a[i + 1]);
      LessIsAsymmetric(a[0], a[i + 1]);
    }
  }

  lemma {:induction false} KeysAre(members: seq<Member>)
    ensures |Keys(members)| == |members|
    ensures forall i :: 0 <= i < |members| ==> Keys(members)[i] == members[i].key
  {
    if members != [] {
      KeysAre(members[1..]);
    }
  }

  lemma KeyIsListed(members: seq<Member>, key: Text)
    ensures key in Keys(members) <==> HasKey(members, key)
  {
    KeysAre(members);
    if key in Keys(members) {
      var i :| 0 <= i < |members| && Keys(members)[i] == key;
      FindIsFirst(members, i);
    }
    if HasKey(members, key) {
      assert Keys(members)[Find(members, key)] == key;
    }
  }

  /** The serialiser's key list: sorted, and complete. */
  lemma SortedKeys(members: seq<Member>)
    requires WellFormed(Obj(members))
    ensures StrictlySorted(Sort(Keys(members)))
    ensures forall k :: k in Sort(Keys(members)) <==> HasKey(members, k)
  {
    KeysAre(members);
    SortIsSorted(Keys(members));
    forall k ensures k in Sort(Keys(members)) <==> HasKey(members, k) {
      KeyIsListed(members, k);
    }
  }

  // ----- Values that are the same print the same -----

  lemma {:induction false} ItemAt(items: seq<Json>, i: nat)
    requires i < |items|
    ensures Items(items)[i] == Canonical(items[i])
  {
    if i > 0 {
      ItemAt(items[1..], i - 1);
    }
  }

  lemma {:induction false} EntryAt(members: seq<Member>, keys: seq<Text>, i: nat)
    requires i < |keys| && HasKey(members, keys[i])
    ensures Entries(members, keys)[i]
         == Quote(keys[i]) + [COLON] + Canonical(members[Find(members, keys[i])].value)
    decreases |keys|
  {
    if i > 0 {
      EntryAt(members, keys[1..], i - 1);
    }
  }

  lemma {:induction false} SamePrintsTheSame(v: Json, w: Json)
    requires WellFormed(v) && WellFormed(w) && Same(v, w)
    ensures Canonical(v) == Canonical(w)
    decreases v
  {
    match (v, w)
    case (Arr(a), Arr(b)) =>
      forall i | 0 <= i < |a| ensures Items(a)[i] == Items(b)[i] {
        ItemAt(a, i);
        ItemAt(b, i);
        SamePrintsTheSame(a[i], b[i]);
      }
      assert Items(a) == Items(b);
    case (Obj(a), Obj(b)) =>
      SortedKeys(a);
      SortedKeys(b);
      SortedIsUnique(Sort(Keys(a)), Sort(Keys(b)));
      var keys := Sort(Keys(a));
      forall i | 0 <= i < |keys| ensures Entries(a, keys)[i] == Entries(b, keys)[i] {
        assert HasKey(a, keys[i]) && HasKey(b, keys[i]);
        EntryAt(a, keys, i);
        EntryAt(b, keys, i);
        SamePrintsTheSame(a[Find(a, keys[i])].value, b[Find(b, keys[i])].value);
      }
      assert Entries(a, keys) == Entries(b, keys);
    case _ =>
  }

  // ----- Values that print the same are the same -----

  /** What the first unit of canonical text gives away. */
  datatype Kind = KNull | KTrue | KFalse | KNum | KStr | KArr | KObj | KOther

  function KindOf(v: Json): Kind {
    match v
    case Null => KNull
    case Bool(b) => if b then KTrue else KFalse
    case Num(_) => KNum
    case Str(_) => KStr
    case Arr(_) => KArr
    case Obj(_) => KObj
  }

  function KindAt(c: unit): Kind {
    if c == 0x6E then KNull
    else if c == 0x74 then KTrue
    else if c == 0x66 then KFalse
    else if c == MINUS || IsDigit(c) then KNum
    else if c == QUOTE then KStr
    else if c == OPEN_ARR then KArr
    else if c == OPEN_OBJ then KObj
    else KOther
  }

  lemma HeadTellsTheKind(v: Json)
    ensures Canonical(v) != [] && KindAt(Canonical(v)[0]) == KindOf(v)
  {
    if v.Num? {
      DigitsRoundTrip(if v.n < 0 then -v.n else v.n);
    }
  }

  lemma SameTextSameKind(v: Json, w: Json, r: Text, t: Text)
    requires Canonical(v) + r == Canonical(w) + t
    ensures KindOf(v) == KindOf(w)
  {
    HeadTellsTheKind(v);
    HeadTellsTheKind(w);
    assert (Canonical(v) + r)[0] == Canonical(v)[0] && (Canonical(w) + t)[0] == Canonical(w)[0];
  }

  lemma SamePrefix(p: Text, x: Text, y: Text)
    requires p + x == p + y
    ensures x == y
  {
    assert (p + x)[|p|..] == x && (p + y)[|p|..] == y;
  }

  /** What follows an element: a comma if there are more, else the closing bracket. */
  function Onward(parts: seq<Text>, close: unit, r: Text): Text { JoinRest(parts) + [close] + r }

  lemma OnwardNext(parts: seq<Text>, close: unit, r: Text)
    requires parts != []
    ensures Onward(parts, close, r) == [COMMA] + (parts[0] + Onward(parts[1..], close, r))
  {
  }

  lemma OnwardEnds(close: unit, r: Text)
    ensures Onward([], close, r) == [close] + r
  {
  }

  lemma OnwardStarts(parts: seq<Text>, close: unit, r: Text)
    requires close == CLOSE_ARR || close == CLOSE_OBJ
    ensures var x := Onward(parts, close, r);
      x != [] && !DigitNext(x) && x[0] == (if parts == [] then close else COMMA)
  {
    if parts != [] {
      OnwardNext(parts, close, r);
    } else {
      OnwardEnds(close, r);
    }
  }

  /** What follows the opening bracket, with the comma that `join` leaves out. */
  lemma JoinIsOnward(parts: seq<Text>, close: unit, r: Text)
    ensures var x := Join(parts) + [close] + r;
      Onward(parts, close, r) == if parts == [] then x else [COMMA] + x
  {
  }

  lemma Bracketed(open: unit, parts: seq<Text>, close: unit, r: Text)
    ensures [open] + Join(parts) + [close] + r == [open] + (Join(parts) + [close] + r)
  {
  }

  /** Two bracketed lists whose emptiness shows at the first unit. */
  lemma ListsOnward(open: unit, a: seq<Text>, b: seq<Text>, close: unit, r: Text, t: Text)
    requires [open] + Join(a) + [close] + r == [open] + Join(b) + [close] + t
    requires a != [] ==> a[0] != [] && a[0][0] != close
    requires b != [] ==> b[0] != [] && b[0][0] != close
    ensures Onward(a, close, r) == Onward(b, close, t)
  {
    var x, y := Join(a) + [close] + r, Join(b) + [close] + t;
    Bracketed(open, a, close, r);
    Bracketed(open, b, close, t);
    SamePrefix([open], x, y);
    assert x[0] == if a == [] then close else a[0][0];
    assert y[0] == if b == [] then close else b[0][0];
    JoinIsOnward(a, close, r);
    JoinIsOnward(b, close, t);
  }

  /** No printed value is a proper beginning of another: from the text of a value and
      whatever follows, the value (up to key order) and what follows are determined. */
  lemma {:induction false} Unambiguous(v: Json, w: Json, r: Text, t: Text)
    requires WellFormed(v) && WellFormed(w)
    requires Canonical(v) + r == Canonical(w) + t && !DigitNext(r) && !DigitNext(t)
    ensures Same(v, w) && r == t
    decreases v, 1, 0
  {
    SameTextSameKind(v, w, r, t);
    if v.Num? {
      IntIsUnambiguous(v.n, w.n, r, t);
    } else if v.Str? {
      QuoteIsUnambiguous(v.s, w.s, r, t);
    } else if v.Arr? {
      UnambiguousArrays(v.items, w.items, r, t);
    } else if v.Obj? {
      UnambiguousObjects(v.members, w.members, r, t);
    } else {
      SamePrefix(Canonical(v), r, t);
    }
  }

  lemma {:induction false} UnambiguousArrays(a: seq<Json>, b: seq<Json>, r: Text, t: Text)
    requires WellFormed(Arr(a)) && WellFormed(Arr(b))
    requires Canonical(Arr(a)) + r == Canonical(Arr(b)) + t
    ensures Same(Arr(a), Arr(b)) && r == t
    decreases a, 1, 0
  {
    if a != [] { HeadTellsTheKind(a[0]); }
    if b != [] { HeadTellsTheKind(b[0]); }
    ListsOnward(OPEN_ARR, Items(a), Items(b), CLOSE_ARR, r, t);
    UnambiguousItems(a, b, r, t);
  }

  /** Peels the first element off both texts. */
  lemma ItemsStep(a: seq<Json>, b: seq<Json>, r: Text, t: Text)
    requires a != [] && Onward(Items(a), CLOSE_ARR, r) == Onward(Items(b), CLOSE_ARR, t)
    ensures b != []
    ensures Canonical(a[0]) + Onward(Items(a[1..]), CLOSE_ARR, r)
         == Canonical(b[0]) + Onward(Items(b[1..]), CLOSE_ARR, t)
  {
    OnwardStarts(Items(a), CLOSE_ARR, r);
    OnwardStarts(Items(b), CLOSE_ARR, t);
    OnwardNext(Items(a), CLOSE_ARR, r);
    OnwardNext(Items(b), CLOSE_ARR, t);
    SamePrefix([COMMA], Canonical(a[0]) + Onward(Items(a[1..]), CLOSE_ARR, r),
                        Canonical(b[0]) + Onward(Items(b[1..]), CLOSE_ARR, t));
  }

  lemma NothingLeft(parts: seq<Text>, close: unit, r: Text, t: Text)
    requires close == CLOSE_ARR || close == CLOSE_OBJ
    requires Onward([], close, r) == Onward(parts, close, t)
    ensures parts == [] && r == t
  {
    OnwardStarts([], close, r);
    OnwardStarts(parts, close, t);
    OnwardEnds(close, r);
    OnwardEnds(close, t);
    SamePrefix([close], r, t);
  }

  lemma WellFormedItems(a: seq<Json>)
    requires a != [] && WellFormed(Arr(a))
    ensures WellFormed(a[0]) && WellFormed(Arr(a[1..]))
  {
  }

  lemma SameItems(a: seq<Json>, b: seq<Json>)
    requires a != [] && b != [] && Same(a[0], b[0]) && Same(Arr(a[1..]), Arr(b[1..]))
    ensures Same(Arr(a), Arr(b))
  {
    forall i | 0 <= i < |a| ensures Same(a[i], b[i]) {
      assert i > 0 ==> a[i] == a[1..][i - 1] && b[i] == b[1..][i - 1];
    }
  }

  lemma {:induction false} UnambiguousItems(a: seq<Json>, b: seq<Json>, r: Text, t: Text)
    requires WellFormed(Arr(a)) && WellFormed(Arr(b))
    requires Onward(Items(a), CLOSE_ARR, r) == Onward(Items(b), CLOSE_ARR, t)
    ensures Same(Arr(a), Arr(b)) && r == t
    decreases a, 0, 0
  {
    if a != [] {
      ItemsStep(a, b, r, t);
      WellFormedItems(a);
      WellFormedItems(b);
      var x, y := Onward(Items(a[1..]), CLOSE_ARR, r), Onward(Items(b[1..]), CLOSE_ARR, t);
      OnwardStarts(Items(a[1..]), CLOSE_ARR, r);
      OnwardStarts(Items(b[1..]), CLOSE_ARR, t);
      Unambiguous(a[0], b[0], x, y);
      UnambiguousItems(a[1..], b[1..], r, t);
      SameItems(a, b);
    } else {
      NothingLeft(Items(b), CLOSE_ARR, r, t);
    }
  }

  lemma {:induction false} UnambiguousObjects(a: seq<Member>, b: seq<Member>, r: Text, t: Text)
    requires WellFormed(Obj(a)) && WellFormed(Obj(b))
    requires Canonical(Obj(a)) + r == Canonical(Obj(b)) + t
    ensures Same(Obj(a), Obj(b)) && r == t
    decreases a, 1, 0
  {
    SortedKeys(a);
    SortedKeys(b);
    var j, k := Sort(Keys(a)), Sort(Keys(b));
    ListsOnward(OPEN_OBJ, Entries(a, j), Entries(b, k), CLOSE_OBJ, r, t);
    UnambiguousEntries(a, b, j, k, r, t);
    AgreeingIsSame(a, b, j);
  }

  ghost predicate AllHeld(members: seq<Member>, keys: seq<Text>) {
    forall i :: 0 <= i < |keys| ==> HasKey(members, keys[i])
  }

  /** The members under each of the keys are the same values. */
  ghost predicate Agree(a: seq<Member>, b: seq<Member>, keys: seq<Text>)
    requires AllHeld(a, keys) && AllHeld(b, keys)
  {
    forall i :: 0 <= i < |keys| ==> Same(a[Find(a, keys[i])].value, b[Find(b, keys[i])].value)
  }

  /** Peels the first entry off both texts. */
  lemma EntriesStep(a: seq<Member>, b: seq<Member>, j: seq<Text>, k: seq<Text>, r: Text, t: Text)
    requires AllHeld(a, j) && AllHeld(b, k) && j != []
    requires Onward(Entries(a, j), CLOSE_OBJ, r) == Onward(Entries(b, k), CLOSE_OBJ, t)
    ensures k != [] && j[0] == k[0]
    ensures Canonical(a[Find(a, j[0])].value) + Onward(Entries(a, j[1..]), CLOSE_OBJ, r)
         == Canonical(b[Find(b, k[0])].value) + Onward(Entries(b, k[1..]), CLOSE_OBJ, t)
  {
    OnwardStarts(Entries(a, j), CLOSE_OBJ, r);
    OnwardStarts(Entries(b, k), CLOSE_OBJ, t);
    OnwardNext(Entries(a, j), CLOSE_OBJ, r);
    OnwardNext(Entries(b, k), CLOSE_OBJ, t);
    var x, y := Onward(Entries(a, j[1..]), CLOSE_OBJ, r), Onward(Entries(b, k[1..]), CLOSE_OBJ, t);
    var v, w := a[Find(a, j[0])].value, b[Find(b, k[0])].value;
    SamePrefix([COMMA], Quote(j[0]) + [COLON] + Canonical(v) + x, Quote(k[0]) + [COLON] + Canonical(w) + y);
    UnambiguousEntry(j[0], k[0], Canonical(v), Canonical(w), x, y);
  }

  lemma AllHeldTail(members: seq<Member>, keys: seq<Text>)
    requires keys != [] && AllHeld(members, keys)
    ensures HasKey(members, keys[0]) && AllHeld(members, keys[1..])
  {
  }

  lemma HeldIsWellFormed(members: seq<Member>, key: Text)
    requires WellFormed(Obj(members)) && HasKey(members, key)
    ensures WellFormed(members[Find(members, key)].value)
  {
  }

  lemma AgreeMore(a: seq<Member>, b: seq<Member>, keys: seq<Text>)
    requires keys != [] && AllHeld(a, keys) && AllHeld(b, keys)
    requires AllHeld(a, keys[1..]) && AllHeld(b, keys[1..]) && Agree(a, b, keys[1..])
    requires Same(a[Find(a, keys[0])].value, b[Find(b, keys[0])].value)
    ensures Agree(a, b, keys)
  {
    forall i | 0 <= i < |keys| ensures Same(a[Find(a, keys[i])].value, b[Find(b, keys[i])].value) {
      assert i > 0 ==> keys[i] == keys[1..][i - 1];
    }
  }

  lemma {:induction false} UnambiguousEntries(a: seq<Member>, b: seq<Member>, j: seq<Text>, k: seq<Text>, r: Text, t: Text)
    requires WellFormed(Obj(a)) && WellFormed(Obj(b)) && AllHeld(a, j) && AllHeld(b, k)
    requires Onward(Entries(a, j), CLOSE_OBJ, r) == Onward(Entries(b, k), CLOSE_OBJ, t)
    ensures j == k && Agree(a, b, j) && r == t
    decreases a, 0, |j|
  {
    if j != [] {
      EntriesStep(a, b, j, k, r, t);
      AllHeldTail(a, j);
      AllHeldTail(b, k);
      HeldIsWellFormed(a, j[0]);
      HeldIsWellFormed(b, k[0]);
      var x, y := Onward(Entries(a, j[1..]), CLOSE_OBJ, r), Onward(Entries(b, k[1..]), CLOSE_OBJ, t);
      OnwardStarts(Entries(a, j[1..]), CLOSE_OBJ, r);
      OnwardStarts(Entries(b, k[1..]), CLOSE_OBJ, t);
      Unambiguous(a[Find(a, j[0])].value, b[Find(b, k[0])].value, x, y);
      UnambiguousEntries(a, b, j[1..], k[1..], r, t);
      SameSplit(j, k);
      AgreeMore(a, b, j);
    } else {
      NothingLeft(Entries(b, k), CLOSE_OBJ, r, t);
    }
  }

  lemma SameSplit(j: seq<Text>, k: seq<Text>)
    requires j != [] && k != [] && j[0] == k[0] && j[1..] == k[1..]
    ensures j == k
  {
    assert j == [j[0]] + j[1..] && k == [k[0]] + k[1..];
  }

  lemma UnambiguousEntry(j: Text, k: Text, v: Text, w: Text, x: Text, y: Text)
    requires Quote(j) + [COLON] + v + x == Quote(k) + [COLON] + w + y
    ensures j == k && v + x == w + y
  {
    Regroup(Quote(j), v, x);
    Regroup(Quote(k), w, y);
    QuoteIsUnambiguous(j, k, [COLON] + (v + x), [COLON] + (w + y));
    SamePrefix([COLON], v + x, w + y);
  }

  lemma Regroup(q: Text, v: Text, x: Text)
    ensures q + [COLON] + v + x == q + ([COLON] + (v + x))
  {
  }

  lemma FindsTheMember(members: seq<Member>, i: nat)
    requires WellFormed(Obj(members)) && i < |members|
    ensures Find(members, members[i].key) == i
  {
    FindIsFirst(members, i);
    var k := Find(members, members[i].key);
    assert members[k].key == members[i].key;
  }

  lemma AgreeingIsSame(a: seq<Member>, b: seq<Member>, keys: seq<Text>)
    requires WellFormed(Obj(a)) && WellFormed(Obj(b)) && AllHeld(a, keys) && AllHeld(b, keys)
    requires forall key :: key in keys <==> HasKey(a, key)
    requires forall key :: key in keys <==> HasKey(b, key)
    requires Agree(a, b, keys)
    ensures Same(Obj(a), Obj(b))
  {
    forall i, j | 0 <= i < |a| && 0 <= j < |b| && a[i].key == b[j].key
      ensures Same(a[i].value, b[j].value)
    {
      var key := a[i].key;
      FindsTheMember(a, i);
      FindsTheMember(b, j);
      assert HasKey(a, key) && key in keys;
      var n :| 0 <= n < |keys| && keys[n] == key;
    }
  }

  /** `canonicalJson` is injective up to key order: two values print to the same text if
      and only if they are equal with the order of object keys ignored. */
  lemma InjectiveUpToKeyOrder(v: Json, w: Json)
    requires WellFormed(v) && WellFormed(w)
    ensures Canonical(v) == Canonical(w) <==> Same(v, w)
  {
    if Same(v, w) {
      SamePrintsTheSame(v, w);
    }
    if Canonical(v) == Canonical(w) {
      Unambiguous(v, w, [], []);
    }
  }
}
