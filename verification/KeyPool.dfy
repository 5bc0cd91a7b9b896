/**
The client's pool of API keys: keys are deduplicated on registration, handed out round
robin over those whose rate limit has expired, and parked by a 429 for its Retry-After.
Times are milliseconds since the epoch.
*/
module KeyPool {
  import opened Wrappers
  import opened Numbers
  import opened Sequences
  import opened Whitespace

  const DEFAULT_RETRY_AFTER_MS: int := 60_000

  datatype KeyState = KeyState(
    key: string,
    successCount: nat,
    failureCount: nat,
    rateLimitCount: nat,
    rateLimitedUntil: Option<int>,
    lastFailureReason: Option<string>)

  datatype Pool = Pool(keys: seq<KeyState>, cursor: nat)

  function Registered(key: string): KeyState { KeyState(key, 0, 0, 0, None, None) }

  predicate Limited(s: KeyState, now: int) {
    s.rateLimitedUntil.Some? && s.rateLimitedUntil.value > now
  }

  // ----- Registration -----

  /** The distinct non-blank keys of a list, trimmed, in order of first occurrence. */
  function Distinct(raw: seq<string>): seq<string> {
    if raw == [] then []
    else
      var before, key := Distinct(raw[..|raw| - 1]), Trim(raw[|raw| - 1]);
      if key == "" || key in before then before else before + [key]
  }

  /** Some entry of the list, trimmed, is this key. */
  ghost predicate Mentions(raw: seq<string>, key: string) {
    exists i :: 0 <= i < |raw| && Trim(raw[i]) == key
  }

  lemma MentionsSnoc(raw: seq<string>, last: string, key: string)
    ensures Mentions(raw + [last], key) <==> Mentions(raw, key) || Trim(last) == key
  {
    var all := raw + [last];
    assert all[|raw|] == last;
    if i :| 0 <= i < |raw| && Trim(raw[i]) == key {
      assert Trim(all[i]) == key;
    }
  }

  lemma {:induction false} InDistinct(raw: seq<string>, key: string)
    ensures key in Distinct(raw) <==> key != "" && Mentions(raw, key)
  {
    if raw != [] {
      var n := |raw| - 1;
      InDistinct(raw[..n], key);
      MentionsSnoc(raw[..n], raw[n], key);
      assert raw == raw[..n] + [raw[n]];
    }
  }

  lemma {:induction false} DistinctHasNoRepeats(raw: seq<string>)
    ensures NoRepeats(Distinct(raw))
  {
    if raw != [] {
      DistinctHasNoRepeats(raw[..|raw| - 1]);
    }
  }

  /** Registration keeps every distinct non-blank key exactly once and nothing else. */
  lemma {:induction false} DistinctIsExact(raw: seq<string>)
    ensures NoRepeats(Distinct(raw))
    ensures forall key :: key in Distinct(raw) <==> key != "" && Mentions(raw, key)
  {
    DistinctHasNoRepeats(raw);
    forall key
      ensures key in Distinct(raw) <==> key != "" && Mentions(raw, key)
    {
      InDistinct(raw, key);
    }
  }

  /** How far into the list a key is first mentioned. */
  function FirstMention(raw: seq<string>, key: string): (n: nat)
    ensures n <= |raw|
  {
    if raw == [] || Trim(raw[0]) == key then 0 else 1 + FirstMention(raw[1..], key)
  }

  lemma {:induction false} FirstMentionSnoc(raw: seq<string>, last: string, key: string)
    ensures FirstMention(raw + [last], key)
         == if FirstMention(raw, key) < |raw| then FirstMention(raw, key)
            else if Trim(last) == key then |raw| else |raw| + 1
  {
    if raw == [] {
      assert (raw + [last])[1..] == [];
    } else {
      assert (raw + [last])[1..] == raw[1..] + [last];
      FirstMentionSnoc(raw[1..], last, key);
    }
  }

  lemma {:induction false} MentionedSomewhere(raw: seq<string>, key: string)
    ensures FirstMention(raw, key) < |raw| <==> Mentions(raw, key)
  {
    if raw != [] {
      MentionedSomewhere(raw[1..], key);
      if Trim(raw[0]) != key {
        MentionedLater(raw, key);
      }
    }
  }

  lemma MentionedLater(raw: seq<string>, key: string)
    requires raw != [] && Trim(raw[0]) != key
    ensures Mentions(raw, key) <==> Mentions(raw[1..], key)
  {
    if i :| 0 <= i < |raw| && Trim(raw[i]) == key {
      assert Trim(raw[1..][i - 1]) == key;
    }
    if i :| 0 <= i < |raw[1..]| && Trim(raw[1..][i]) == key {
      assert Trim(raw[i + 1]) == key;
    }
  }

  /** The keys stand in the order in which they are first mentioned. */
  lemma {:induction false} DistinctKeepsTheOrder(raw: seq<string>, i: nat, j: nat)
    requires i < j < |Distinct(raw)|
    ensures FirstMention(raw, Distinct(raw)[i]) < FirstMention(raw, Distinct(raw)[j]) < |raw|
  {
    var n := |raw| - 1;
    var early := raw[..n];
    var before, a, b := Distinct(early), Distinct(raw)[i], Distinct(raw)[j];
    assert raw == early + [raw[n]];
    assert a == before[i] && a in before;
    InDistinct(early, a);
    InDistinct(early, b);
    MentionedSomewhere(early, a);
    MentionedSomewhere(early, b);
    FirstMentionSnoc(early, raw[n], a);
    FirstMentionSnoc(early, raw[n], b);
    if j < |before| {
      DistinctKeepsTheOrder(early, i, j);
      assert b in before;
    } else {
      assert b !in before;
    }
  }

  lemma KeysAreTrimmed(raw: seq<string>, key: string)
    requires key in Distinct(raw)
    ensures key != "" && Trim(key) == key
  {
    InDistinct(raw, key);
    var i :| 0 <= i < |raw| && Trim(raw[i]) == key;
    TrimTwice(raw[i]);
  }

  lemma {:induction false} CleanListStays(keys: seq<string>)
    requires NoRepeats(keys)
    requires forall i :: 0 <= i < |keys| ==> keys[i] != "" && Trim(keys[i]) == keys[i]
    ensures Distinct(keys) == keys
  {
    if keys != [] {
      var n := |keys| - 1;
      CleanListStays(keys[..n]);
      assert keys[n] !in keys[..n];
    }
  }

  /** Splitting a key list and registering the result changes nothing more. */
  lemma DistinctTwice(raw: seq<string>)
    ensures Distinct(Distinct(raw)) == Distinct(raw)
  {
    var keys := Distinct(raw);
    DistinctHasNoRepeats(raw);
    forall i | 0 <= i < |keys|
      ensures keys[i] != "" && Trim(keys[i]) == keys[i]
    {
      KeysAreTrimmed(raw, keys[i]);
    }
    CleanListStays(keys);
  }

  // ----- What each call does -----

  ghost predicate Valid(p: Pool) {
    && (p.cursor < |p.keys| || p.cursor == |p.keys| == 0)
    && (forall i, j :: 0 <= i < j < |p.keys| ==> p.keys[i].key != p.keys[j].key)
  }

  /** An index that ran past the end of `n` entries starts over. */
  function Wrapped(n: nat, x: nat): nat
    requires n > 0
  {
    if x < n then x else x - n
  }

  /** The index scanned `i` places after the cursor. */
  function Slot(p: Pool, i: nat): nat
    requires p.keys != []
  {
    Wrapped(|p.keys|, p.cursor + i)
  }

  /** The scan's `%` never wraps more than once. */
  lemma RemainderWraps(n: nat, x: nat)
    requires n > 0 && x < 2 * n
    ensures x % n == Wrapped(n, x)
  {
    if x < n {
      Remainder(x, n, 0, x);
    } else {
      Remainder(x, n, 1, x - n);
    }
  }

  method Modulo(x: nat, n: nat) returns (r: nat)
    requires n > 0 && x < 2 * n
    ensures r == Wrapped(n, x) < n
  {
    RemainderWraps(n, x);
    r := x % n;
  }

  /** How far the scan for a free key gets, starting at offset `i`. */
  function FirstFree(p: Pool, now: int, i: nat): (k: nat)
    requires p.cursor < |p.keys| && i <= |p.keys|
    ensures i <= k <= |p.keys|
    decreases |p.keys| - i
  {
    if i == |p.keys| || !Limited(p.keys[Slot(p, i)], now) then i else FirstFree(p, now, i + 1)
  }

  lemma {:induction false} FirstFreeIsFree(p: Pool, now: int, i: nat)
    requires p.cursor < |p.keys| && i <= |p.keys|
    ensures var k := FirstFree(p, now, i); k < |p.keys| ==> !Limited(p.keys[Slot(p, k)], now)
    decreases |p.keys| - i
  {
    if i < |p.keys| && Limited(p.keys[Slot(p, i)], now) {
      FirstFreeIsFree(p, now, i + 1);
    }
  }

  lemma {:induction false} BeforeFirstFree(p: Pool, now: int, i: nat, j: nat)
    requires p.cursor < |p.keys| && i <= j < |p.keys| && !Limited(p.keys[Slot(p, j)], now)
    ensures FirstFree(p, now, i) <= j
    decreases |p.keys| - i
  {
    if Limited(p.keys[Slot(p, i)], now) {
      BeforeFirstFree(p, now, i + 1, j);
    }
  }

  /** The index `nextAvailable` picks, if any. */
  function Picked(p: Pool, now: int): Option<nat>
    requires Valid(p)
  {
    if p.keys == [] then None
    else
      var k := FirstFree(p, now, 0);
      if k == |p.keys| then None else Some(Slot(p, k))
  }

  function AfterNext(p: Pool, now: int): Pool
    requires Valid(p)
  {
    match Picked(p, now)
    case None => p
    case Some(idx) => p.(cursor := Wrapped(|p.keys|, idx + 1))
  }

  function Find(keys: seq<KeyState>, key: string): (i: nat)
    ensures i <= |keys| && (i < |keys| ==> keys[i].key == key)
  {
    if keys == [] || keys[0].key == key then 0 else 1 + Find(keys[1..], key)
  }

  lemma {:induction false} FindIsFirst(keys: seq<KeyState>, key: string, j: nat)
    requires j < |keys| && keys[j].key == key
    ensures Find(keys, key) <= j
  {
    if keys[0].key != key {
      FindIsFirst(keys[1..], key, j - 1);
    }
  }

  lemma FindsTheKey(p: Pool, j: nat)
    requires Valid(p) && j < |p.keys|
    ensures Find(p.keys, p.keys[j].key) == j
  {
    FindIsFirst(p.keys, p.keys[j].key, j);
  }

  /** `p` with the named key's record replaced; unchanged if the key is unknown. */
  function Put(p: Pool, key: string, s: KeyState): Pool {
    var i := Find(p.keys, key);
    if i < |p.keys| then p.(keys := p.keys[i := s]) else p
  }

  function AfterSuccess(p: Pool, key: string): Pool {
    var i := Find(p.keys, key);
    if i == |p.keys| then p
    else
      var s := p.keys[i];
      Put(p, key, s.(successCount := s.successCount + 1, rateLimitedUntil := None, lastFailureReason := None))
  }

  function AfterFailure(p: Pool, key: string, reason: string): Pool {
    var i := Find(p.keys, key);
    if i == |p.keys| then p
    else
      var s := p.keys[i];
      Put(p, key, s.(failureCount := s.failureCount + 1, lastFailureReason := Some(reason)))
  }

  function AfterRateLimit(p: Pool, key: string, now: int, retryAfterMs: Option<int>): Pool {
    var i := Find(p.keys, key);
    if i == |p.keys| then p
    else
      var s := p.keys[i];
      var wait := if retryAfterMs.Some? then retryAfterMs.value else DEFAULT_RETRY_AFTER_MS;
      Put(p, key, s.(rateLimitCount := s.rateLimitCount + 1,
                     lastFailureReason := Some("Rate limited (429)"),
                     rateLimitedUntil := Some(now + wait)))
  }

  /** The least of the recorded instants, if any is recorded. */
  function Earliest(keys: seq<KeyState>): (t: Option<int>)
    ensures t.None? <==> forall i :: 0 <= i < |keys| ==> keys[i].rateLimitedUntil.None?
    ensures t.Some? ==> exists i :: 0 <= i < |keys| && keys[i].rateLimitedUntil == t
    ensures t.Some? ==> forall i :: 0 <= i < |keys| && keys[i].rateLimitedUntil.Some? ==> t.value <= keys[i].rateLimitedUntil.value
  {
    if keys == [] then None
    else
      var rest, own := Earliest(keys[1..]), keys[0].rateLimitedUntil;
      if own.None? then rest
      else if rest.None? || own.value < rest.value then own
      else rest
  }

  // ----- The mutable object -----

  class FlockKeyPool {
    var keys: seq<KeyState>
    var cursor: nat

    ghost function Contents(): Pool
      reads this
    {
      Pool(keys, cursor)
    }

    constructor (raw: seq<string>)
      ensures Valid(Contents()) && cursor == 0
      ensures |keys| == |Distinct(raw)|
      ensures forall i :: 0 <= i < |keys| ==> keys[i] == KeyState(Distinct(raw)[i], 0, 0, 0, None, None)
    {
      keys, cursor := [], 0;
      new;
      var seen: set<string> := {};
      for n := 0 to |raw|
        invariant cursor == 0
        invariant |keys| == |Distinct(raw[..n])|
        invariant forall i :: 0 <= i < |keys| ==> keys[i] == Registered(Distinct(raw[..n])[i])
        invariant forall key :: key in seen <==> key in Distinct(raw[..n])
      {
        assert raw[..n + 1][..n] == raw[..n];
        var key := Trim(raw[n]);
        if key != "" && key !in seen {
          seen := seen + {key};
          keys := keys + [Registered(key)];
        }
      }
      assert raw[..|raw|] == raw;
      DistinctIsExact(raw);
    }

    method NextAvailable(now: int) returns (key: Option<string>)
      requires Valid(Contents())
      modifies this
      ensures Valid(Contents()) && Contents() == AfterNext(old(Contents()), now)
      ensures key.Some? <==> Picked(old(Contents()), now).Some?
      ensures key.Some? ==> key.value == old(keys)[Picked(old(Contents()), now).value].key
    {
      ghost var p := Contents();
      for i := 0 to |keys|
        invariant Contents() == p
        invariant p.keys != [] ==> FirstFree(p, now, 0) == FirstFree(p, now, i)
      {
        var idx := Modulo(cursor + i, |keys|);
        assert idx == Slot(p, i);
        if !Limited(keys[idx], now) {
          cursor := Modulo(idx + 1, |keys|);
          return Some(keys[idx].key);
        }
      }
      return None;
    }

    method RecordSuccess(key: string)
      modifies this
      ensures Contents() == AfterSuccess(old(Contents()), key)
    {
      var i := Find(keys, key);
      if i == |keys| { return; }
      var s := keys[i];
      keys := keys[i := s.(successCount := s.successCount + 1, rateLimitedUntil := None, lastFailureReason := None)];
    }

    method RecordFailure(key: string, reason: string)
      modifies this
      ensures Contents() == AfterFailure(old(Contents()), key, reason)
    {
      var i := Find(keys, key);
      if i == |keys| { return; }
      var s := keys[i];
      keys := keys[i := s.(failureCount := s.failureCount + 1, lastFailureReason := Some(reason))];
    }

    method RecordRateLimit(key: string, now: int, retryAfterMs: Option<int>)
      modifies this
      ensures Contents() == AfterRateLimit(old(Contents()), key, now, retryAfterMs)
    {
      var i := Find(keys, key);
      if i == |keys| { return; }
      var s := keys[i];
      var wait := if retryAfterMs.Some? then retryAfterMs.value else DEFAULT_RETRY_AFTER_MS;
      keys := keys[i := s.(rateLimitCount := s.rateLimitCount + 1,
                           lastFailureReason := Some("Rate limited (429)"),
                           rateLimitedUntil := Some(now + wait))];
    }
  }

  // ----- The wait is exact -----

  lemma EverySlotIsScanned(p: Pool, j: nat) returns (i: nat)
    requires p.cursor < |p.keys| && j < |p.keys|
    ensures i < |p.keys| && Slot(p, i) == j
    ensures i == if j >= p.cursor then j - p.cursor else j + |p.keys| - p.cursor
  {
    i := if j >= p.cursor then j - p.cursor else j + |p.keys| - p.cursor;
  }

  /** `nextAvailable` finds a key if and only if some key is not limited. */
  lemma PickedIffSomeFree(p: Pool, now: int)
    requires Valid(p)
    ensures Picked(p, now).Some? <==> exists j :: 0 <= j < |p.keys| && !Limited(p.keys[j], now)
    ensures Picked(p, now).Some? ==> Picked(p, now).value < |p.keys| && !Limited(p.keys[Picked(p, now).value], now)
  {
    if p.keys != [] {
      FirstFreeIsFree(p, now, 0);
    }
    if j :| 0 <= j < |p.keys| && !Limited(p.keys[j], now) {
      var i := EverySlotIsScanned(p, j);
      BeforeFirstFree(p, now, 0, i);
    }
  }

  /** When every key is limited, the earliest recorded instant lies in the future, every
      call before it still finds nothing, and every call from it on finds a key. */
  lemma WaitIsExact(p: Pool, now: int)
    requires Valid(p) && p.keys != [] && Picked(p, now).None?
    ensures Earliest(p.keys).Some? && Earliest(p.keys).value > now
    ensures forall t :: Picked(p, t).Some? <==> t >= Earliest(p.keys).value
  {
    PickedIffSomeFree(p, now);
    assert Limited(p.keys[0], now);
    var e := Earliest(p.keys);
    forall t
      ensures Picked(p, t).Some? <==> t >= e.value
    {
      PickedIffSomeFree(p, t);
      var i :| 0 <= i < |p.keys| && p.keys[i].rateLimitedUntil == e;
      assert t >= e.value ==> !Limited(p.keys[i], t);
      assert forall j :: 0 <= j < |p.keys| ==> Limited(p.keys[j], now);
    }
  }

  // ----- Rotation over a run -----

  datatype Op =
    | Next(now: int)
    | Succeeded(key: string)
    | Failed(key: string, reason: string)
    | RateLimited(key: string, now: int, retryAfterMs: Option<int>)

  function Apply(p: Pool, op: Op): Pool
    requires Valid(p)
  {
    match op
    case Next(now) => AfterNext(p, now)
    case Succeeded(key) => AfterSuccess(p, key)
    case Failed(key, reason) => AfterFailure(p, key, reason)
    case RateLimited(key, now, retryAfterMs) => AfterRateLimit(p, key, now, retryAfterMs)
  }

  /** No call adds, drops, renames or reorders keys; only `Next` moves the cursor. */
  lemma ApplyKeepsTheKeys(p: Pool, op: Op)
    requires Valid(p)
    ensures Valid(Apply(p, op)) && |Apply(p, op).keys| == |p.keys|
    ensures forall i :: 0 <= i < |p.keys| ==> Apply(p, op).keys[i].key == p.keys[i].key
    ensures !op.Next? ==> Apply(p, op).cursor == p.cursor
    ensures op.Next? ==> Apply(p, op).keys == p.keys
  {
  }

  function AfterAll(p: Pool, ops: seq<Op>): Pool
    requires Valid(p)
    decreases |ops|
  {
    if ops == [] then p
    else
      ApplyKeepsTheKeys(p, ops[0]);
      AfterAll(Apply(p, ops[0]), ops[1..])
  }

  /** The call records a success or a further rate limit for this key. */
  predicate Reparks(op: Op, key: string) {
    (op.Succeeded? || op.RateLimited?) && op.key == key
  }

  lemma {:induction false} ParkingLasts(p: Pool, ops: seq<Op>, k: nat)
    requires Valid(p) && k < |p.keys|
    requires forall i :: 0 <= i < |ops| ==> !Reparks(ops[i], p.keys[k].key)
    ensures k < |AfterAll(p, ops).keys|
    ensures AfterAll(p, ops).keys[k].key == p.keys[k].key
    ensures AfterAll(p, ops).keys[k].rateLimitedUntil == p.keys[k].rateLimitedUntil
    decreases |ops|
  {
    if ops != [] {
      var q := Apply(p, ops[0]);
      ApplyKeepsTheKeys(p, ops[0]);
      assert q.keys[k].rateLimitedUntil == p.keys[k].rateLimitedUntil;
      ParkingLasts(q, ops[1..], k);
    }
  }

  /** A 429 parks the key for exactly its Retry-After: whatever happens next, short of a
      success or another 429 for that key, it is limited at `t` if and only if `t` comes
      before the end of the wait. */
  lemma ParkedForItsRetryAfter(p: Pool, k: nat, now: int, retryAfterMs: Option<int>, ops: seq<Op>, t: int)
    requires Valid(p) && k < |p.keys|
    requires forall i :: 0 <= i < |ops| ==> !Reparks(ops[i], p.keys[k].key)
    ensures var parked := AfterRateLimit(p, p.keys[k].key, now, retryAfterMs);
      var wait := if retryAfterMs.Some? then retryAfterMs.value else 60_000;
      && Valid(parked) && k < |AfterAll(parked, ops).keys|
      && (Limited(AfterAll(parked, ops).keys[k], t) <==> t < now + wait)
  {
    ApplyKeepsTheKeys(p, RateLimited(p.keys[k].key, now, retryAfterMs));
    FindsTheKey(p, k);
    ParkingLasts(AfterRateLimit(p, p.keys[k].key, now, retryAfterMs), ops, k);
  }

  /** A success un-parks the key: it is free at every instant until its next 429. */
  lemma SuccessUnparks(p: Pool, k: nat, ops: seq<Op>, t: int)
    requires Valid(p) && k < |p.keys|
    requires forall i :: 0 <= i < |ops| ==> !(ops[i].RateLimited? && ops[i].key == p.keys[k].key)
    ensures var freed := AfterSuccess(p, p.keys[k].key);
      Valid(freed) && k < |AfterAll(freed, ops).keys| && !Limited(AfterAll(freed, ops).keys[k], t)
  {
    ApplyKeepsTheKeys(p, Succeeded(p.keys[k].key));
    FindsTheKey(p, k);
    StaysUnparked(AfterSuccess(p, p.keys[k].key), ops, k);
  }

  lemma {:induction false} StaysUnparked(p: Pool, ops: seq<Op>, k: nat)
    requires Valid(p) && k < |p.keys| && p.keys[k].rateLimitedUntil.None?
    requires forall i :: 0 <= i < |ops| ==> !(ops[i].RateLimited? && ops[i].key == p.keys[k].key)
    ensures k < |AfterAll(p, ops).keys| && AfterAll(p, ops).keys[k].rateLimitedUntil.None?
    decreases |ops|
  {
    if ops != [] {
      ApplyKeepsTheKeys(p, ops[0]);
      StaysUnparked(Apply(p, ops[0]), ops[1..], k);
    }
  }

  /** What a run of calls leaves as the reason of the latest failure of `key`. */
  function LatestReason(ops: seq<Op>, key: string, initial: Option<string>): Option<string>
    decreases |ops|
  {
    if ops == [] then initial
    else
      match ops[|ops| - 1]
      case Succeeded(k) => if k == key then None else LatestReason(ops[..|ops| - 1], key, initial)
      case Failed(k, reason) => if k == key then Some(reason) else LatestReason(ops[..|ops| - 1], key, initial)
      case RateLimited(k, _, _) =>
        if k == key then Some("Rate limited (429)") else LatestReason(ops[..|ops| - 1], key, initial)
      case Next(_) => LatestReason(ops[..|ops| - 1], key, initial)
  }

  /** How many calls of a run satisfy `which`. */
  function Count(ops: seq<Op>, which: Op -> bool): nat {
    if ops == [] then 0 else Count(ops[..|ops| - 1], which) + if which(ops[|ops| - 1]) then 1 else 0
  }

  lemma {:induction false} AfterAllSnoc(p: Pool, ops: seq<Op>, op: Op)
    requires Valid(p)
    ensures Valid(AfterAll(p, ops)) && AfterAll(p, ops + [op]) == Apply(AfterAll(p, ops), op)
    decreases |ops|
  {
    if ops == [] {
      ApplyKeepsTheKeys(p, op);
      assert (ops + [op])[1..] == [];
    } else {
      ApplyKeepsTheKeys(p, ops[0]);
      assert (ops + [op])[1..] == ops[1..] + [op];
      AfterAllSnoc(Apply(p, ops[0]), ops[1..], op);
    }
  }

  /** One record before and after a call. */
  lemma RecordStep(p: Pool, op: Op, k: nat)
    requires Valid(p) && k < |p.keys|
    ensures k < |Apply(p, op).keys|
    ensures var s, t := p.keys[k], Apply(p, op).keys[k];
      && t.key == s.key
      && t.successCount == s.successCount + (if op.Succeeded? && op.key == s.key then 1 else 0)
      && t.failureCount == s.failureCount + (if op.Failed? && op.key == s.key then 1 else 0)
      && t.rateLimitCount == s.rateLimitCount + (if op.RateLimited? && op.key == s.key then 1 else 0)
      && t.lastFailureReason == LatestReason([op], s.key, s.lastFailureReason)
  {
    FindsTheKey(p, k);
    assert [op][..0] == [];
    assert LatestReason([], p.keys[k].key, p.keys[k].lastFailureReason) == p.keys[k].lastFailureReason;
  }

  /** After any run, each record counts the run's successes, failures and 429s of its own
      key and keeps the reason of the latest of them. */
  lemma {:induction false} RecordsAreTallies(p: Pool, ops: seq<Op>, k: nat)
    requires Valid(p) && k < |p.keys|
    ensures k < |AfterAll(p, ops).keys|
    ensures var s, t := p.keys[k], AfterAll(p, ops).keys[k];
      && t.key == s.key
      && t.successCount == s.successCount + Count(ops, (op: Op) => op.Succeeded? && op.key == s.key)
      && t.failureCount == s.failureCount + Count(ops, (op: Op) => op.Failed? && op.key == s.key)
      && t.rateLimitCount == s.rateLimitCount + Count(ops, (op: Op) => op.RateLimited? && op.key == s.key)
      && t.lastFailureReason == LatestReason(ops, s.key, s.lastFailureReason)
    decreases |ops|
  {
    if ops != [] {
      var n := |ops| - 1;
      RecordsAreTallies(p, ops[..n], k);
      assert ops == ops[..n] + [ops[n]];
      AfterAllSnoc(p, ops[..n], ops[n]);
      RecordStep(AfterAll(p, ops[..n]), ops[n], k);
      assert [ops[n]][..0] == [];
    }
  }

  function Calls(ops: seq<Op>): nat {
    if ops == [] then 0 else (if ops[0].Next? then 1 else 0) + Calls(ops[1..])
  }

  /** The indices handed out in a run, one per `Next` that found a key. */
  ghost function Served(p: Pool, ops: seq<Op>): seq<nat>
    requires Valid(p)
    decreases |ops|
  {
    if ops == [] then []
    else
      ApplyKeepsTheKeys(p, ops[0]);
      (if ops[0].Next? && Picked(p, ops[0].now).Some? then [Picked(p, ops[0].now).value] else [])
        + Served(Apply(p, ops[0]), ops[1..])
  }

  /** Key `j` is not limited at any `Next` of the run. */
  ghost predicate FreeThroughout(p: Pool, ops: seq<Op>, j: nat)
    requires Valid(p) && j < |p.keys|
    decreases |ops|
  {
    ops == [] ||
      (ApplyKeepsTheKeys(p, ops[0]);
       (ops[0].Next? ==> !Limited(p.keys[j], ops[0].now)) && FreeThroughout(Apply(p, ops[0]), ops[1..], j))
  }

  /** How many places the cursor is before key `j`. */
  function Distance(p: Pool, j: nat): nat
    requires p.cursor < |p.keys| && j < |p.keys|
  {
    if j >= p.cursor then j - p.cursor else j + |p.keys| - p.cursor
  }

  lemma NextComesCloser(p: Pool, now: int, j: nat)
    requires Valid(p) && j < |p.keys| && !Limited(p.keys[j], now)
    ensures Picked(p, now).Some?
    ensures Picked(p, now).value == j || Distance(AfterNext(p, now), j) < Distance(p, j)
  {
    var d := EverySlotIsScanned(p, j);
    BeforeFirstFree(p, now, 0, d);
  }

  /** A free key is reached after at most as many calls as its distance, plus one. */
  lemma {:induction false} ReachedWithinDistance(p: Pool, ops: seq<Op>, j: nat)
    requires Valid(p) && j < |p.keys| && FreeThroughout(p, ops, j) && Calls(ops) > Distance(p, j)
    ensures j in Served(p, ops)
    decreases |ops|
  {
    var op := ops[0];
    ApplyKeepsTheKeys(p, op);
    if op.Next? {
      NextComesCloser(p, op.now, j);
      if Picked(p, op.now).value != j {
        ReachedWithinDistance(Apply(p, op), ops[1..], j);
      }
    } else {
      ReachedWithinDistance(Apply(p, op), ops[1..], j);
    }
  }

  /** No starvation: a key that is not limited at any of as many calls as the pool has
      keys is handed out by one of them, whatever outcomes are recorded in between. */
  lemma NoStarvation(p: Pool, ops: seq<Op>, j: nat)
    requires Valid(p) && j < |p.keys|
    requires FreeThroughout(p, ops, j) && Calls(ops) >= |p.keys|
    ensures j in Served(p, ops)
  {
    ReachedWithinDistance(p, ops, j);
  }

  /** The key handed out is the free key nearest after the cursor. */
  lemma PickedIsNearest(p: Pool, now: int, j: nat)
    requires Valid(p) && j < |p.keys| && !Limited(p.keys[j], now)
    ensures Picked(p, now).Some? && Picked(p, now).value < |p.keys|
    ensures Distance(p, Picked(p, now).value) <= Distance(p, j)
  {
    PickedIffSomeFree(p, now);
    var d := EverySlotIsScanned(p, j);
    BeforeFirstFree(p, now, 0, d);
  }

  /** Once handed out, a key is the farthest from the cursor. */
  lemma ServedGoesLast(p: Pool, now: int)
    requires Valid(p) && Picked(p, now).Some?
    ensures var q, j := AfterNext(p, now), Picked(p, now).value;
      && Valid(q) && q.keys == p.keys && j < |p.keys|
      && Distance(q, j) == |p.keys| - 1
      && (forall i :: 0 <= i < |p.keys| && i != j ==> Distance(q, i) < Distance(q, j))
  {
    PickedIffSomeFree(p, now);
  }

  /** A call brings every key it does not hand out nearer by the same number of places, if
      it hands out one that is nearer still. */
  lemma OthersComeCloser(p: Pool, now: int, i: nat, j: nat)
    requires Valid(p) && i < |p.keys| && j < |p.keys|
    requires !Limited(p.keys[i], now) && Distance(p, i) < Distance(p, j)
    ensures Picked(p, now).Some? && Picked(p, now).value != j
    ensures Picked(p, now).value != i ==>
      Distance(AfterNext(p, now), i) < Distance(AfterNext(p, now), j)
  {
    PickedIsNearest(p, now, i);
  }

  /** `i` occurs in the list, and before the first `j` if there is one. */
  ghost predicate ComesFirst(served: seq<nat>, i: nat, j: nat) {
    exists n :: 0 <= n < |served| && served[n] == i && forall m :: 0 <= m <= n ==> served[m] != j
  }

  lemma ComesFirstLater(k: nat, served: seq<nat>, i: nat, j: nat)
    requires k != j && (k == i || ComesFirst(served, i, j))
    ensures ComesFirst([k] + served, i, j)
  {
    var all := [k] + served;
    if k == i {
      assert all[0] == i;
    } else {
      var n :| 0 <= n < |served| && served[n] == i && forall m :: 0 <= m <= n ==> served[m] != j;
      assert all[n + 1] == i;
    }
  }

  lemma {:induction false} NearerIsServedFirst(p: Pool, ops: seq<Op>, i: nat, j: nat)
    requires Valid(p) && i < |p.keys| && j < |p.keys| && Distance(p, i) < Distance(p, j)
    requires FreeThroughout(p, ops, i) && j in Served(p, ops)
    ensures ComesFirst(Served(p, ops), i, j)
    decreases |ops|
  {
    var op := ops[0];
    ApplyKeepsTheKeys(p, op);
    var q := Apply(p, op);
    if op.Next? {
      OthersComeCloser(p, op.now, i, j);
      var k := Picked(p, op.now).value;
      assert Served(p, ops) == [k] + Served(q, ops[1..]);
      if k != i {
        NearerIsServedFirst(q, ops[1..], i, j);
      }
      ComesFirstLater(k, Served(q, ops[1..]), i, j);
    } else {
      assert Served(p, ops) == Served(q, ops[1..]);
      NearerIsServedFirst(q, ops[1..], i, j);
    }
  }

  /** Fair rotation: when a key has been handed out, then whatever is recorded meanwhile and
      however many keys are parked, every other key that is free at every call up to the
      next time it is handed out is handed out before that. */
  lemma FairRotation(p: Pool, now: int, ops: seq<Op>, i: nat)
    requires Valid(p) && Picked(p, now).Some? && i < |p.keys| && i != Picked(p, now).value
    requires Valid(AfterNext(p, now)) && FreeThroughout(AfterNext(p, now), ops, i)
    requires Picked(p, now).value in Served(AfterNext(p, now), ops)
    ensures ComesFirst(Served(AfterNext(p, now), ops), i, Picked(p, now).value)
  {
    ServedGoesLast(p, now);
    NearerIsServedFirst(AfterNext(p, now), ops, i, Picked(p, now).value);
  }

  ghost predicate AllFree(p: Pool, ops: seq<Op>)
    requires Valid(p)
  {
    forall j :: 0 <= j < |p.keys| ==> FreeThroughout(p, ops, j)
  }

  lemma NextIsTheCursor(p: Pool, now: int)
    requires Valid(p) && p.keys != [] && !Limited(p.keys[p.cursor], now)
    ensures Picked(p, now) == Some(p.cursor) && AfterNext(p, now).cursor == Slot(p, 1)
  {
  }

  lemma SlotAfterNext(p: Pool, q: Pool, i: nat)
    requires p.cursor < |p.keys| && |q.keys| == |p.keys| && q.cursor == Slot(p, 1)
    requires i < |p.keys|
    ensures q.cursor < |q.keys| && Slot(q, i) == Slot(p, i + 1)
  {
  }

  lemma AllFreeNext(p: Pool, ops: seq<Op>)
    requires Valid(p) && AllFree(p, ops) && ops != []
    ensures Valid(Apply(p, ops[0])) && |Apply(p, ops[0]).keys| == |p.keys| && AllFree(Apply(p, ops[0]), ops[1..])
    ensures ops[0].Next? ==> forall j :: 0 <= j < |p.keys| ==> !Limited(p.keys[j], ops[0].now)
  {
    ApplyKeepsTheKeys(p, ops[0]);
    forall j | 0 <= j < |p.keys| ensures FreeThroughout(Apply(p, ops[0]), ops[1..], j) {
      assert FreeThroughout(p, ops, j);
    }
    forall j | 0 <= j < |p.keys| && ops[0].Next? ensures !Limited(p.keys[j], ops[0].now) {
      assert FreeThroughout(p, ops, j);
    }
  }

  lemma {:induction false} EveryCallServes(p: Pool, ops: seq<Op>)
    requires Valid(p) && p.keys != [] && AllFree(p, ops)
    ensures |Served(p, ops)| == Calls(ops)
    decreases |ops|
  {
    if ops != [] {
      AllFreeNext(p, ops);
      PickedIffSomeFree(p, if ops[0].Next? then ops[0].now else 0);
      EveryCallServes(Apply(p, ops[0]), ops[1..]);
    }
  }

  lemma NextServesTheCursor(p: Pool, ops: seq<Op>)
    requires Valid(p) && p.keys != [] && ops != [] && ops[0].Next? && !Limited(p.keys[p.cursor], ops[0].now)
    ensures Valid(Apply(p, ops[0])) && Apply(p, ops[0]).cursor == Slot(p, 1)
    ensures Served(p, ops) == [p.cursor] + Served(Apply(p, ops[0]), ops[1..])
  {
    ApplyKeepsTheKeys(p, ops[0]);
    NextIsTheCursor(p, ops[0].now);
  }

  lemma {:induction false} RotationInOrder(p: Pool, ops: seq<Op>, i: nat)
    requires Valid(p) && p.keys != [] && AllFree(p, ops) && i < Calls(ops) && i < |p.keys|
    ensures |Served(p, ops)| == Calls(ops) && Served(p, ops)[i] == Slot(p, i)
    decreases |ops|
  {
    EveryCallServes(p, ops);
    AllFreeNext(p, ops);
    ApplyKeepsTheKeys(p, ops[0]);
    var q := Apply(p, ops[0]);
    if !ops[0].Next? {
      assert Served(p, ops) == Served(q, ops[1..]);
      RotationInOrder(q, ops[1..], i);
    } else {
      NextServesTheCursor(p, ops);
      if i > 0 {
        RotationInOrder(q, ops[1..], i - 1);
        SlotAfterNext(p, q, i - 1);
      }
    }
  }

  /** If no key is limited, as many calls as the pool has keys hand out every key exactly
      once: key `j` comes at its distance from the cursor and nowhere else. */
  lemma FullRotation(p: Pool, ops: seq<Op>, j: nat)
    requires Valid(p) && AllFree(p, ops) && Calls(ops) == |p.keys| && j < |p.keys|
    ensures |Served(p, ops)| == |p.keys|
    ensures forall i :: 0 <= i < |p.keys| ==> (Served(p, ops)[i] == j <==> i == Distance(p, j))
  {
    RotationInOrder(p, ops, 0);
    forall i | 0 <= i < |p.keys|
      ensures Served(p, ops)[i] == j <==> i == Distance(p, j)
    {
      RotationInOrder(p, ops, i);
    }
  }
}
