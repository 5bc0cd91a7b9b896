/**
The client's request loop: rotate keys, park a key on a 429, retry what is retryable, back
off only when there is a single key.

The server is a function from the attempt number to the outcome of that fetch; the clock
moves by an arbitrary amount at every reading, during every fetch and past the end of
every sleep, so the theorems hold whatever the timing, as long as nobody else uses the
pool and no sleep ends early.
*/
module RetryLoop {
  import opened Numbers
  import opened Wrappers
  import opened KeyPool

  /** The Retry-After header of section 10.2.3 of RFC 9110, as far as the client reads it. */
  datatype RetryAfter = Absent | Seconds(n: nat) | HttpDate(at: int) | Unreadable

  function RetryAfterMs(header: RetryAfter, now: int): int {
    match header
    case Absent => DEFAULT_RETRY_AFTER_MS
    case Seconds(n) => n * 1000
    case HttpDate(at) => if at - now < 0 then 0 else at - now
    case Unreadable => DEFAULT_RETRY_AFTER_MS
  }

  /** What one fetch comes to: a completed response, the client's own timeout, or a
      rejection that may carry a `retryable` mark. */
  datatype Outcome =
    | Response(status: nat, retryAfter: RetryAfter)
    | TimedOut
    | Rejected(retryable: bool)

  predicate Ok(o: Outcome) { o.Response? && 200 <= o.status <= 299 }

  predicate Retryable(o: Outcome) {
    match o
    case Response(status, _) => status in {429, 500, 502, 503, 504}
    case TimedOut => false
    case Rejected(retryable) => retryable
  }

  /** One fetch: the key and the reading of the clock at which it was chosen, what came
      back, and the readings at which a 429's header was read and its key was parked. */
  datatype Attempt = Attempt(key: string, chosenAt: int, outcome: Outcome, parsedAt: int, recordedAt: int)

  datatype Verdict = Fulfilled | Failed(last: Outcome) | MaxRetriesExceeded

  /** Milliseconds. `drift` says how far the clock has moved before each reading; `asleep`
      is the time slept on purpose. */
  class Clock {
    var now: int
    var readings: nat
    ghost var asleep: nat
    const drift: nat -> nat

    constructor (start: int, drift: nat -> nat)
      ensures now == start && this.drift == drift && asleep == 0
    {
      now, readings, this.drift := start, 0, drift;
      asleep := 0;
    }

    method Read() returns (t: int)
      modifies this
      ensures t == now == old(now) + drift(old(readings)) && readings == old(readings) + 1
      ensures asleep == old(asleep)
    {
      now := now + drift(readings);
      readings := readings + 1;
      t := now;
    }

    method Sleep(ms: int)
      modifies this
      ensures now >= old(now) + ms && now >= old(now)
      ensures asleep == old(asleep) + Max(ms, 0)
    {
      if ms > 0 {
        now := now + ms;
        asleep := asleep + ms;
      }
      var t := Read();
    }
  }

  // ----- What an attempt does to the pool -----

  function Decimal(n: nat): string {
    if n < 10 then ["0123456789"[n]] else Decimal(n / 10) + ["0123456789"[n % 10]]
  }

  /** The number that decimal digits spell. */
  function Spelled(digits: string): int {
    if digits == "" then 0 else 10 * Spelled(digits[..|digits| - 1]) + (digits[|digits| - 1] as int - '0' as int)
  }

  lemma SpelledSnoc(digits: string, c: char)
    ensures Spelled(digits + [c]) == 10 * Spelled(digits) + (c as int - '0' as int)
  {
    assert (digits + [c])[..|digits|] == digits;
  }

  lemma DigitSpells(d: nat)
    requires d < 10
    ensures '0' <= "0123456789"[d] <= '9' && "0123456789"[d] as int - '0' as int == d
  {
  }

  /** The decimal text of a number is digits that spell it, without a leading zero. */
  lemma {:induction false} DecimalSpells(n: nat)
    ensures Decimal(n) != "" && (n > 0 ==> Decimal(n)[0] != '0')
    ensures forall i :: 0 <= i < |Decimal(n)| ==> '0' <= Decimal(n)[i] <= '9'
    ensures Spelled(Decimal(n)) == n
  {
    DigitSpells(n % 10);
    if n < 10 {
      assert "" + ["0123456789"[n]] == ["0123456789"[n]];
      SpelledSnoc("", "0123456789"[n]);
    } else {
      DecimalSpells(n / 10);
      SpelledSnoc(Decimal(n / 10), "0123456789"[n % 10]);
    }
  }

  /** What the pool records for one completed attempt. */
  function Recorded(p: Pool, a: Attempt): Pool {
    if !a.outcome.Response? then p
    else if Ok(a.outcome) then AfterSuccess(p, a.key)
    else if a.outcome.status == 429 then
      AfterRateLimit(p, a.key, a.recordedAt, Some(RetryAfterMs(a.outcome.retryAfter, a.parsedAt)))
    else KeyPool.AfterFailure(p, a.key, "HTTP " + Decimal(a.outcome.status))
  }

  /** One key's record after an attempt: other keys' attempts leave it alone, and so do
      attempts that no response completed. */
  function Credited(s: KeyState, a: Attempt): KeyState {
    if a.key != s.key || !a.outcome.Response? then s
    else if Ok(a.outcome) then
      s.(successCount := s.successCount + 1, rateLimitedUntil := None, lastFailureReason := None)
    else if a.outcome.status == 429 then
      s.(rateLimitCount := s.rateLimitCount + 1,
         rateLimitedUntil := Some(a.recordedAt + RetryAfterMs(a.outcome.retryAfter, a.parsedAt)),
         lastFailureReason := Some("Rate limited (429)"))
    else
      s.(failureCount := s.failureCount + 1, lastFailureReason := Some("HTTP " + Decimal(a.outcome.status)))
  }

  function CreditedAll(keys: seq<KeyState>, a: Attempt): (after: seq<KeyState>)
    ensures |after| == |keys|
    ensures forall i :: 0 <= i < |keys| ==> after[i] == Credited(keys[i], a)
  {
    seq(|keys|, i requires 0 <= i < |keys| => Credited(keys[i], a))
  }

  /** The records of the keys after a log of attempts. */
  function Replayed(keys: seq<KeyState>, log: seq<Attempt>): (after: seq<KeyState>)
    ensures |after| == |keys|
  {
    if log == [] then keys else CreditedAll(Replayed(keys, log[..|log| - 1]), log[|log| - 1])
  }

  lemma ReplayedSnoc(keys: seq<KeyState>, log: seq<Attempt>, a: Attempt)
    ensures Replayed(keys, log + [a]) == CreditedAll(Replayed(keys, log), a)
  {
    assert (log + [a])[..|log|] == log;
  }

  lemma RecordedKeepsThePool(p: Pool, a: Attempt)
    requires Valid(p)
    ensures Valid(Recorded(p, a)) && |Recorded(p, a).keys| == |p.keys|
  {
  }

  lemma RecordedCredits(p: Pool, a: Attempt, i: nat)
    requires Valid(p) && i < |p.keys|
    ensures |Recorded(p, a).keys| == |p.keys| && Recorded(p, a).keys[i] == Credited(p.keys[i], a)
  {
    FindsTheKey(p, i);
    assert Find(p.keys, a.key) < |p.keys| ==> p.keys[Find(p.keys, a.key)].key == a.key;
  }

  /** The pool's records are those the log accounts for. */
  lemma RecordedIsCredited(p: Pool, a: Attempt)
    requires Valid(p)
    ensures Recorded(p, a).keys == CreditedAll(p.keys, a)
  {
    RecordedKeepsThePool(p, a);
    forall i | 0 <= i < |p.keys|
      ensures Recorded(p, a).keys[i] == Credited(p.keys[i], a)
    {
      RecordedCredits(p, a, i);
    }
  }

  lemma RecordedForAll(p: Pool)
    requires Valid(p)
    ensures forall a :: Recorded(p, a).keys == CreditedAll(p.keys, a)
  {
    forall a
      ensures Recorded(p, a).keys == CreditedAll(p.keys, a)
    {
      RecordedIsCredited(p, a);
    }
  }

  // ----- Accounting -----

  /** How many attempts with `key` completed with a success, a 429, or another failure. */
  function Successes(log: seq<Attempt>, key: string): nat {
    if log == [] then 0
    else
      var last := log[|log| - 1];
      Successes(log[..|log| - 1], key) + if last.key == key && Ok(last.outcome) then 1 else 0
  }

  function RateLimits(log: seq<Attempt>, key: string): nat {
    if log == [] then 0
    else
      var last := log[|log| - 1];
      RateLimits(log[..|log| - 1], key)
        + if last.key == key && last.outcome.Response? && last.outcome.status == 429 then 1 else 0
  }

  function Failures(log: seq<Attempt>, key: string): nat {
    if log == [] then 0
    else
      var last := log[|log| - 1];
      Failures(log[..|log| - 1], key)
        + if last.key == key && last.outcome.Response? && !Ok(last.outcome) && last.outcome.status != 429 then 1 else 0
  }

  function Completed(log: seq<Attempt>, key: string): nat {
    if log == [] then 0
    else
      var last := log[|log| - 1];
      Completed(log[..|log| - 1], key) + if last.key == key && last.outcome.Response? then 1 else 0
  }

  /** Every completed response adds exactly one to exactly one counter of the key used. */
  lemma {:induction false} EveryResponseCountsOnce(keys: seq<KeyState>, log: seq<Attempt>, i: nat)
    requires i < |keys|
    ensures var before, after := keys[i], Replayed(keys, log)[i];
      && after.key == before.key
      && after.successCount == before.successCount + Successes(log, before.key)
      && after.rateLimitCount == before.rateLimitCount + RateLimits(log, before.key)
      && after.failureCount == before.failureCount + Failures(log, before.key)
    ensures Completed(log, keys[i].key)
         == Successes(log, keys[i].key) + RateLimits(log, keys[i].key) + Failures(log, keys[i].key)
  {
    if log != [] {
      EveryResponseCountsOnce(keys, log[..|log| - 1], i);
    }
  }

  /** All the counters of a pool together. */
  function Total(keys: seq<KeyState>): nat {
    if keys == [] then 0
    else
      var last := keys[|keys| - 1];
      Total(keys[..|keys| - 1]) + last.successCount + last.rateLimitCount + last.failureCount
  }

  function Responses(log: seq<Attempt>): nat {
    if log == [] then 0
    else Responses(log[..|log| - 1]) + if log[|log| - 1].outcome.Response? then 1 else 0
  }

  ghost predicate Known(keys: seq<KeyState>, key: string) {
    exists i :: 0 <= i < |keys| && keys[i].key == key
  }

  ghost predicate DistinctKeys(keys: seq<KeyState>) {
    forall i, j :: 0 <= i < j < |keys| ==> keys[i].key != keys[j].key
  }

  lemma {:induction false} CreditedOnce(keys: seq<KeyState>, a: Attempt)
    requires DistinctKeys(keys)
    ensures Total(CreditedAll(keys, a)) == Total(keys) + if a.outcome.Response? && Known(keys, a.key) then 1 else 0
  {
    if keys != [] {
      var n := |keys| - 1;
      CreditedOnce(keys[..n], a);
      assert CreditedAll(keys, a)[..n] == CreditedAll(keys[..n], a);
      KnownSnoc(keys, a.key);
    }
  }

  lemma KnownSnoc(keys: seq<KeyState>, key: string)
    requires keys != []
    ensures Known(keys, key) <==> Known(keys[..|keys| - 1], key) || keys[|keys| - 1].key == key
    ensures DistinctKeys(keys) ==> !(Known(keys[..|keys| - 1], key) && keys[|keys| - 1].key == key)
  {
    var early := keys[..|keys| - 1];
    if i :| 0 <= i < |early| && early[i].key == key {
      assert keys[i].key == key;
    }
  }

  /** The key is in the pool and not parked at `now`. */
  ghost predicate KnownFree(keys: seq<KeyState>, key: string, now: int) {
    exists i :: 0 <= i < |keys| && keys[i].key == key && !Limited(keys[i], now)
  }

  /** No key comes free before `t`. */
  ghost predicate NoneFreeBefore(keys: seq<KeyState>, t: int) {
    forall i :: 0 <= i < |keys| ==> keys[i].rateLimitedUntil.Some? && keys[i].rateLimitedUntil.value >= t
  }

  lemma NoneFreeSooner(keys: seq<KeyState>, t: int, sooner: int)
    requires NoneFreeBefore(keys, t) && sooner <= t
    ensures NoneFreeBefore(keys, sooner)
  {
  }

  lemma AllParked(p: Pool, now: int)
    requires KeyPool.Valid(p) && p.keys != [] && Picked(p, now).None?
    ensures Earliest(p.keys).Some? && Earliest(p.keys).value > now
    ensures NoneFreeBefore(p.keys, Earliest(p.keys).value)
  {
    WaitIsExact(p, now);
    PickedIffSomeFree(p, now);
    forall i | 0 <= i < |p.keys|
      ensures p.keys[i].rateLimitedUntil.Some? && p.keys[i].rateLimitedUntil.value >= Earliest(p.keys).value
    {
      assert Limited(p.keys[i], now);
    }
  }

  lemma FreeAgain(p: Pool, now: int, later: int)
    requires KeyPool.Valid(p) && p.keys != [] && Picked(p, now).None?
    requires Earliest(p.keys).Some? && later >= Earliest(p.keys).value
    ensures Picked(p, later).Some?
  {
    WaitIsExact(p, now);
  }

  lemma PickedIsKnownFree(p: Pool, now: int)
    requires KeyPool.Valid(p) && Picked(p, now).Some?
    ensures Picked(p, now).value < |p.keys| && KnownFree(p.keys, p.keys[Picked(p, now).value].key, now)
  {
    PickedIffSomeFree(p, now);
  }

  /** Every fetch used a key of the pool that was not parked when it was chosen, given the
      attempts before it. */
  ghost predicate UsesFreeKeys(keys: seq<KeyState>, log: seq<Attempt>) {
    log == [] ||
      (var early, last := log[..|log| - 1], log[|log| - 1];
       UsesFreeKeys(keys, early) && KnownFree(Replayed(keys, early), last.key, last.chosenAt))
  }

  lemma UsesFreeKeysSnoc(keys: seq<KeyState>, log: seq<Attempt>, a: Attempt)
    requires UsesFreeKeys(keys, log) && KnownFree(Replayed(keys, log), a.key, a.chosenAt)
    ensures UsesFreeKeys(keys, log + [a])
  {
    assert (log + [a])[..|log|] == log;
  }

  lemma {:induction false} ReplayedKeepsTheKeys(keys: seq<KeyState>, log: seq<Attempt>, i: nat)
    requires i < |keys|
    ensures Replayed(keys, log)[i].key == keys[i].key
  {
    if log != [] {
      ReplayedKeepsTheKeys(keys, log[..|log| - 1], i);
    }
  }

  lemma ReplayedStaysDistinct(keys: seq<KeyState>, log: seq<Attempt>)
    requires DistinctKeys(keys)
    ensures DistinctKeys(Replayed(keys, log))
  {
    forall i, j | 0 <= i < j < |keys|
      ensures Replayed(keys, log)[i].key != Replayed(keys, log)[j].key
    {
      ReplayedKeepsTheKeys(keys, log, i);
      ReplayedKeepsTheKeys(keys, log, j);
    }
  }

  /** Conservation: over the whole pool the counters grow by the number of completed
      responses, no more and no less. */
  lemma {:induction false} PoolCountsEveryResponse(keys: seq<KeyState>, log: seq<Attempt>)
    requires DistinctKeys(keys) && UsesFreeKeys(keys, log)
    ensures Total(Replayed(keys, log)) == Total(keys) + Responses(log)
  {
    if log != [] {
      var n := |log| - 1;
      PoolCountsEveryResponse(keys, log[..n]);
      ReplayedStaysDistinct(keys, log[..n]);
      CreditedOnce(Replayed(keys, log[..n]), log[n]);
    }
  }

  // ----- How long a 429 parks its key -----

  ghost predicate WasRateLimited(a: Attempt) { a.outcome.Response? && a.outcome.status == 429 }

  /** `t` is not before the end of the wait that a 429 asks for: a number of seconds, a
      date less the instant at which it was read, or a minute. */
  ghost predicate WaitIsOver(a: Attempt, t: int)
    requires WasRateLimited(a)
  {
    match a.outcome.retryAfter
    case Seconds(n) => t >= a.recordedAt + 1000 * n
    case HttpDate(at) => t >= a.recordedAt && t - a.recordedAt >= at - a.parsedAt
    case Absent => t >= a.recordedAt + 60_000
    case Unreadable => t >= a.recordedAt + 60_000
  }

  /** Between attempts `i` and `j` nothing tells anything new about the key of `i`: no
      success, no 429. */
  ghost predicate NoNewsBetween(log: seq<Attempt>, i: nat, j: nat)
    requires i < j <= |log|
  {
    forall m :: i < m < j && log[m].key == log[i].key && log[m].outcome.Response? ==>
      !Ok(log[m].outcome) && log[m].outcome.status != 429
  }

  lemma ParkedByIts429(s: KeyState, a: Attempt, t: int)
    requires a.key == s.key && WasRateLimited(a)
    ensures Limited(Credited(s, a), t) <==> !WaitIsOver(a, t)
  {
  }

  /** After a 429 the key is limited exactly until the end of the wait asked for, whatever
      is logged next, short of a success or another 429 with that key. */
  lemma {:induction false} ParkedUntilTheWaitIsOver(keys: seq<KeyState>, log: seq<Attempt>, i: nat, k: nat, t: int)
    requires i < |log| && WasRateLimited(log[i]) && NoNewsBetween(log, i, |log|)
    requires k < |keys| && keys[k].key == log[i].key
    ensures Limited(Replayed(keys, log)[k], t) <==> !WaitIsOver(log[i], t)
  {
    var n := |log| - 1;
    var before := Replayed(keys, log[..n])[k];
    ReplayedKeepsTheKeys(keys, log[..n], k);
    if i == n {
      ParkedByIts429(before, log[n], t);
    } else {
      ParkedUntilTheWaitIsOver(keys, log[..n], i, k, t);
      assert Credited(before, log[n]).rateLimitedUntil == before.rateLimitedUntil;
    }
  }

  /** No key is used again before the wait its 429 asked for is over. */
  ghost predicate RespectsRetryAfter(log: seq<Attempt>) {
    forall i, j :: 0 <= i < j < |log| && NextUse(log, i, j) ==> WaitIsOver(log[i], log[j].chosenAt)
  }

  /** Attempt `j` uses the key that attempt `i` had a 429 for, with no news in between. */
  ghost predicate NextUse(log: seq<Attempt>, i: nat, j: nat)
    requires i < j < |log|
  {
    WasRateLimited(log[i]) && log[j].key == log[i].key && NoNewsBetween(log, i, j)
  }

  lemma LastUseRespects(keys: seq<KeyState>, early: seq<Attempt>, a: Attempt, i: nat)
    requires KnownFree(Replayed(keys, early), a.key, a.chosenAt)
    requires i < |early| && WasRateLimited(early[i]) && a.key == early[i].key && NoNewsBetween(early, i, |early|)
    ensures WaitIsOver(early[i], a.chosenAt)
  {
    var after := Replayed(keys, early);
    var k :| 0 <= k < |after| && after[k].key == a.key && !Limited(after[k], a.chosenAt);
    ReplayedKeepsTheKeys(keys, early, k);
    ParkedUntilTheWaitIsOver(keys, early, i, k, a.chosenAt);
  }

  lemma NextUseEarlier(log: seq<Attempt>, n: nat, i: nat, j: nat)
    requires i < j < n <= |log| && NextUse(log, i, j)
    ensures NextUse(log[..n], i, j)
  {
  }

  lemma {:induction false} FreeKeysRespectRetryAfter(keys: seq<KeyState>, log: seq<Attempt>)
    requires UsesFreeKeys(keys, log)
    ensures RespectsRetryAfter(log)
  {
    if log != [] {
      var n := |log| - 1;
      var early := log[..n];
      FreeKeysRespectRetryAfter(keys, early);
      forall i, j | 0 <= i < j < |log| && NextUse(log, i, j)
        ensures WaitIsOver(log[i], log[j].chosenAt)
      {
        if j < n {
          NextUseEarlier(log, n, i, j);
        } else {
          assert NoNewsBetween(early, i, n);
          LastUseRespects(keys, early, log[n], i);
        }
      }
    }
  }

  /** The attempts follow one another between two readings of the clock. */
  ghost predicate Dated(log: seq<Attempt>, start: int, now: int) {
    if log == [] then start <= now
    else
      var last := log[|log| - 1];
      Dated(log[..|log| - 1], start, last.chosenAt) && last.chosenAt <= last.parsedAt <= last.recordedAt <= now
  }

  lemma DatedSnoc(log: seq<Attempt>, start: int, now: int, a: Attempt, later: int)
    requires Dated(log, start, now) && now <= a.chosenAt <= a.parsedAt <= a.recordedAt <= later
    ensures Dated(log + [a], start, later)
  {
    assert (log + [a])[..|log|] == log;
  }

  // ----- Backoff -----

  function Pow2(n: nat): (p: nat)
    ensures p >= 1
  {
    if n == 0 then 1 else 2 * Pow2(n - 1)
  }

  /** The delay that starts at `retryDelay` and doubles `n` times. */
  function Delay(retryDelay: nat, n: nat): nat {
    if n == 0 then retryDelay else 2 * Delay(retryDelay, n - 1)
  }

  lemma {:induction false} DelayIsPower(retryDelay: nat, n: nat)
    ensures Delay(retryDelay, n) == retryDelay * Pow2(n)
  {
    if n > 0 {
      DelayIsPower(retryDelay, n - 1);
      var p := Pow2(n - 1);
      assert 2 * (retryDelay * p) == retryDelay * (2 * p);
    }
  }

  /** The backoff a single-key client sleeps before attempts `1 .. n`. */
  function TotalBackoff(retryDelay: nat, n: nat): nat {
    if n == 0 then 0 else TotalBackoff(retryDelay, n - 1) + Delay(retryDelay, n - 1)
  }

  lemma {:induction false} TotalBackoffIsDelay(retryDelay: nat, n: nat)
    ensures TotalBackoff(retryDelay, n) + retryDelay == Delay(retryDelay, n)
  {
    if n > 0 {
      TotalBackoffIsDelay(retryDelay, n - 1);
    }
  }

  lemma BackoffDoubles(retryDelay: nat, n: nat)
    ensures TotalBackoff(retryDelay, n) == retryDelay * (Pow2(n) - 1)
  {
    TotalBackoffIsDelay(retryDelay, n);
    DelayIsPower(retryDelay, n);
    assert retryDelay * (Pow2(n) - 1) == retryDelay * Pow2(n) - retryDelay;
  }

  // ----- The loop -----

  /** Every fetch so far came back retryable. */
  ghost predicate AllRetried(log: seq<Attempt>, fetch: nat -> Outcome) {
    forall i :: 0 <= i < |log| ==> log[i].outcome == fetch(i) && Retryable(log[i].outcome)
  }

  /** The backoff slept before attempt number `n`, and in all over `n` attempts. */
  function BackoffStep(keys: nat, retryDelay: nat, n: nat): nat {
    if n > 0 && keys == 1 then Delay(retryDelay, n - 1) else 0
  }

  function BackoffOver(keys: nat, retryDelay: nat, n: nat): nat {
    if n == 0 || keys > 1 then 0 else TotalBackoff(retryDelay, n - 1)
  }

  lemma BackoffAdds(keys: nat, retryDelay: nat, n: nat)
    requires keys > 0
    ensures BackoffOver(keys, retryDelay, n + 1) == BackoffOver(keys, retryDelay, n) + BackoffStep(keys, retryDelay, n)
  {
  }

  lemma BackoffInAll(keys: nat, retryDelay: nat, n: nat)
    ensures BackoffOver(keys, retryDelay, n) == if keys > 1 || n == 0 then 0 else retryDelay * (Pow2(n - 1) - 1)
  {
    if n > 0 {
      BackoffDoubles(retryDelay, n - 1);
    }
  }

  /** The attempts, made between two readings of the clock with keys that were free, turn
      the records `before` into `after`. */
  ghost predicate Explains(log: seq<Attempt>, before: seq<KeyState>, after: seq<KeyState>, start: int, now: int) {
    after == Replayed(before, log) && UsesFreeKeys(before, log) && Dated(log, start, now)
  }

  lemma ExplainsSnoc(log: seq<Attempt>, before: seq<KeyState>, keys: seq<KeyState>, start: int, now: int, a: Attempt, later: int)
    requires Explains(log, before, keys, start, now) && KnownFree(keys, a.key, a.chosenAt)
    requires now <= a.chosenAt <= a.parsedAt <= a.recordedAt <= later
    ensures Explains(log + [a], before, CreditedAll(keys, a), start, later)
  {
    ReplayedSnoc(before, log, a);
    UsesFreeKeysSnoc(before, log, a);
    DatedSnoc(log, start, now, a, later);
  }

  lemma ExplainedCounts(log: seq<Attempt>, before: seq<KeyState>, after: seq<KeyState>, start: int, now: int)
    requires Explains(log, before, after, start, now) && DistinctKeys(before)
    ensures Total(after) == Total(before) + Responses(log)
  {
    PoolCountsEveryResponse(before, log);
  }

  lemma GoesOn(log: seq<Attempt>, a: Attempt, fetch: nat -> Outcome)
    requires AllRetried(log, fetch) && a.outcome == fetch(|log|) && Retryable(a.outcome)
    ensures AllRetried(log + [a], fetch)
  {
  }

  lemma StopsHere(log: seq<Attempt>, a: Attempt, fetch: nat -> Outcome, maxRetries: int)
    requires AllRetried(log, fetch) && |log| <= maxRetries && a.outcome == fetch(|log|)
    requires Retryable(a.outcome) ==> |log| == maxRetries
    ensures StopsAtFirstFinal(log + [a], fetch, maxRetries)
    ensures VerdictOf(log + [a]) == if Ok(a.outcome) then Fulfilled else Verdict.Failed(a.outcome)
  {
  }

  /** Worth another try: too many requests, a server error from 500 to 504 other than 501,
      or a rejection marked so. */
  ghost predicate Transient(o: Outcome) {
    || (o.Response? && (o.status == 429 || (500 <= o.status <= 504 && o.status != 501)))
    || (o.Rejected? && o.retryable)
  }

  /** The log of a call is the server's outcomes up to the first that ends the call. */
  ghost predicate StopsAtFirstFinal(log: seq<Attempt>, fetch: nat -> Outcome, maxRetries: int) {
    && |log| <= (if maxRetries < 0 then 0 else maxRetries + 1)
    && (forall i :: 0 <= i < |log| ==> log[i].outcome == fetch(i))
    && (forall i :: 0 <= i < |log| - 1 ==> Transient(log[i].outcome))
    && (|log| < maxRetries + 1 ==> log != [] && !Transient(log[|log| - 1].outcome))
  }

  /** How the last fetch decides the call. */
  function VerdictOf(log: seq<Attempt>): Verdict {
    if log == [] then MaxRetriesExceeded
    else
      var last := log[|log| - 1].outcome;
      if last.Response? && last.status / 100 == 2 then Fulfilled else Verdict.Failed(last)
  }

  class FlockClient {
    const apiKeys: seq<string>
    const maxRetries: int
    const retryDelay: nat
    const pool: FlockKeyPool
    const clock: Clock

    ghost predicate Valid()
      reads this, pool
    {
      && KeyPool.Valid(pool.Contents())
      && |pool.keys| == |apiKeys| > 0
    }

    /** `raw` is the key list as configured; a client needs at least one usable key. */
    constructor (raw: seq<string>, maxRetries: int, retryDelay: nat, clock: Clock)
      requires Distinct(raw) != []
      ensures Valid() && fresh(pool) && this.clock == clock
      ensures this.maxRetries == maxRetries && this.retryDelay == retryDelay
      ensures apiKeys == Distinct(raw)
      ensures forall i :: 0 <= i < |apiKeys| ==> pool.keys[i] == Registered(apiKeys[i])
    {
      var keys := Distinct(raw);
      DistinctTwice(raw);
      apiKeys := keys;
      pool := new FlockKeyPool(keys);
      this.maxRetries, this.retryDelay, this.clock := maxRetries, retryDelay, clock;
    }

    /** A key, now or after the wait the pool asks for, and the reading at which it was
        found. It never waits past the instant at which the first key comes free. The error
        thrown when there is still none is unreachable. */
    method ChooseKey() returns (key: string, at: int, ghost waited: nat)
      requires Valid()
      modifies pool, clock
      ensures Valid() && pool.keys == old(pool.keys)
      ensures KnownFree(pool.keys, key, at)
      ensures old(clock.now) <= at == clock.now
      ensures clock.asleep == old(clock.asleep) + waited
      ensures waited > 0 ==> NoneFreeBefore(pool.keys, old(clock.now) + waited)
    {
      waited := 0;
      ghost var p, start := pool.Contents(), clock.now;
      at := clock.Read();
      var choice := pool.NextAvailable(at);
      if choice.None? {
        AllParked(p, at);
        var waitUntil := Earliest(pool.keys);
        var t := clock.Read();
        var wait := if waitUntil.None? then retryDelay else Max(0, waitUntil.value - t);
        NoneFreeSooner(p.keys, waitUntil.value, start + wait);
        clock.Sleep(wait);
        waited := wait;
        var later := clock.Read();
        FreeAgain(p, at, later);
        at := later;
        choice := pool.NextAvailable(at);
        if choice.None? {
          assert false;
        }
      }
      PickedIsKnownFree(p, at);
      key := choice.value;
    }

    /** The clock is read only for a date. */
    method ParseRetryAfter(header: RetryAfter) returns (waitMs: int, ghost at: int)
      modifies clock
      ensures waitMs == RetryAfterMs(header, at)
      ensures old(clock.now) <= at == clock.now && clock.asleep == old(clock.asleep)
    {
      if header.HttpDate? {
        var t := clock.Read();
        return RetryAfterMs(header, t), t;
      }
      return RetryAfterMs(header, clock.now), clock.now;
    }

    /** Records an attempt against its key. */
    method Record(key: string, chosenAt: int, outcome: Outcome) returns (ghost a: Attempt)
      requires Valid()
      modifies pool, clock
      ensures Valid()
      ensures a.key == key && a.chosenAt == chosenAt && a.outcome == outcome
      ensures old(clock.now) <= a.parsedAt <= a.recordedAt <= clock.now
      ensures clock.asleep == old(clock.asleep)
      ensures pool.Contents() == Recorded(old(pool.Contents()), a)
    {
      a := Attempt(key, chosenAt, outcome, clock.now, clock.now);
      if outcome.Response? {
        if Ok(outcome) {
          pool.RecordSuccess(key);
        } else if outcome.status == 429 {
          var waitMs, parsedAt := ParseRetryAfter(outcome.retryAfter);
          var t := clock.Read();
          a := Attempt(key, chosenAt, outcome, parsedAt, t);
          pool.RecordRateLimit(key, t, Some(waitMs));
        } else {
          pool.RecordFailure(key, "HTTP " + Decimal(outcome.status));
        }
      }
      RecordedKeepsThePool(old(pool.Contents()), a);
    }

    /** The body of the loop up to the decision whether to go round again. */
    method TryOnce(attempt: nat, outcome: Outcome) returns (ghost a: Attempt, ghost slept: nat, ghost waited: nat)
      requires Valid()
      modifies pool, clock
      ensures Valid()
      ensures a.outcome == outcome && slept == BackoffStep(|apiKeys|, retryDelay, attempt)
      ensures KnownFree(old(pool.keys), a.key, a.chosenAt)
      ensures old(clock.now) <= a.chosenAt && a.chosenAt + slept <= a.parsedAt <= a.recordedAt <= clock.now
      ensures clock.asleep == old(clock.asleep) + waited + slept
      ensures waited > 0 ==> NoneFreeBefore(old(pool.keys), old(clock.now) + waited)
      ensures pool.keys == CreditedAll(old(pool.keys), a)
    {
      var key, at;
      key, at, waited := ChooseKey();
      slept := BackOff(attempt);
      RecordedForAll(pool.Contents());
      a := Record(key, at, outcome);
    }

    /** The attempts of one request, up to the fetch that ends it. */
    method MakeAttempts(fetch: nat -> Outcome) returns (verdict: Verdict, ghost log: seq<Attempt>, ghost backoff: nat)
      requires Valid()
      modifies pool, clock
      ensures Valid()
      ensures StopsAtFirstFinal(log, fetch, maxRetries) && verdict == VerdictOf(log)
      ensures Explains(log, old(pool.keys), pool.keys, old(clock.now), clock.now)
      ensures backoff == BackoffOver(|apiKeys|, retryDelay, |log|)
    {
      ghost var before, start := pool.keys, clock.now;
      verdict, log, backoff := MaxRetriesExceeded, [], 0;
      var attempt := 0;
      while attempt <= maxRetries
        invariant Valid() && 0 <= attempt == |log|
        invariant attempt == 0 || attempt <= maxRetries
        invariant AllRetried(log, fetch)
        invariant Explains(log, before, pool.keys, start, clock.now)
        invariant backoff == BackoffOver(|apiKeys|, retryDelay, attempt)
        decreases maxRetries - attempt
      {
        ghost var keys, now := pool.keys, clock.now;
        var outcome := fetch(attempt);
        var a, slept, _ := TryOnce(attempt, outcome);
        backoff := backoff + slept;
        BackoffAdds(|apiKeys|, retryDelay, attempt);
        ExplainsSnoc(log, before, keys, start, now, a, clock.now);
        if !Retryable(outcome) || attempt == maxRetries {
          StopsHere(log, a, fetch, maxRetries);
          log := log + [a];
          return if Ok(outcome) then Fulfilled else Verdict.Failed(outcome), log, backoff;
        }
        GoesOn(log, a, fetch);
        log := log + [a];
        attempt := attempt + 1;
      }
    }

    /** One request. `log` lists the fetches made, `backoff` the backoff slept. */
    method Request(fetch: nat -> Outcome) returns (verdict: Verdict, ghost log: seq<Attempt>, ghost backoff: nat)
      requires Valid()
      modifies pool, clock
      ensures Valid()
      ensures StopsAtFirstFinal(log, fetch, maxRetries) && verdict == VerdictOf(log)
      ensures Explains(log, old(pool.keys), pool.keys, old(clock.now), clock.now)
      ensures RespectsRetryAfter(log)
      ensures Total(pool.keys) == Total(old(pool.keys)) + Responses(log)
      ensures backoff == if |apiKeys| > 1 || |log| == 0 then 0 else retryDelay * (Pow2(|log| - 1) - 1)
    {
      verdict, log, backoff := MakeAttempts(fetch);
      FreeKeysRespectRetryAfter(old(pool.keys), log);
      ExplainedCounts(log, old(pool.keys), pool.keys, old(clock.now), clock.now);
      BackoffInAll(|apiKeys|, retryDelay, |log|);
    }

    /** With a single key every attempt but the first waits, twice as long each time. */
    method BackOff(attempt: nat) returns (ghost slept: nat)
      modifies clock
      requires apiKeys != []
      ensures clock.now >= old(clock.now) + slept
      ensures clock.asleep == old(clock.asleep) + slept
      ensures slept == BackoffStep(|apiKeys|, retryDelay, attempt)
    {
      slept := 0;
      var rotated := attempt > 0 && |apiKeys| > 1;
      if attempt > 0 && !rotated {
        DelayIsPower(retryDelay, attempt - 1);
        var delay := retryDelay * Pow2(attempt - 1);
        clock.Sleep(delay);
        slept := delay;
      }
    }
  }
}
