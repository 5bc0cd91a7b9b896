/**
The circuit breaker: closed lets everything through, `maxFailures` failures in a row open
it, an open breaker lets a trial through once `timeout` has passed, and `halfOpenMax`
successes in a row close it again. Instants and durations are whole nanoseconds.
*/
module Circuit {
  import opened Wrappers
  import opened Numbers

  type u32 = x: int | 0 <= x < 0x1_0000_0000
  type u64 = x: int | 0 <= x < 0x1_0000_0000_0000_0000

  const SECOND: int := 1_000_000_000

  datatype State = Closed | HalfOpen | Open

  datatype Breaker = Breaker(
    state: State,
    failures: nat,
    lastFailure: Option<int>,
    lastFailureUnix: nat,
    successes: nat,
    maxFailures: nat,
    timeout: nat,
    halfOpenMax: nat)

  datatype Snapshot = Snapshot(state: u32, failures: u32, lastFailureUnix: u64, consecutiveSuccesses: u32)

  function AtLeastOne(n: nat): nat { Max(n, 1) }

  function Fresh(maxFailures: nat, timeout: nat, halfOpenMax: nat): Breaker {
    Breaker(Closed, 0, None, 0, 0, AtLeastOne(maxFailures), timeout, AtLeastOne(halfOpenMax))
  }

  /** Five failures, thirty seconds, three successes. */
  function Defaults(): Breaker { Fresh(5, 30 * SECOND, 3) }

  // ----- What each call does -----

  predicate Allows(b: Breaker, now: int) {
    b.state.Open? ==> b.lastFailure.Some? && now - b.lastFailure.value >= b.timeout
  }

  function AfterAllow(b: Breaker, now: int): Breaker {
    if b.state.Open? && Allows(b, now) then b.(state := HalfOpen, successes := 0) else b
  }

  function AfterSuccess(b: Breaker): Breaker {
    match b.state
    case Closed => b.(failures := 0)
    case HalfOpen =>
      if b.successes + 1 >= b.halfOpenMax then b.(state := Closed, failures := 0, successes := 0)
      else b.(successes := b.successes + 1)
    case Open => b
  }

  function Opened(b: Breaker, now: int, unix: nat): Breaker {
    b.(state := Open, lastFailure := Some(now), lastFailureUnix := unix, successes := 0)
  }

  function AfterFailure(b: Breaker, now: int, unix: nat): Breaker {
    match b.state
    case Closed =>
      var counted := b.(failures := b.failures + 1);
      if counted.failures >= b.maxFailures then Opened(counted, now, unix) else counted
    case HalfOpen => Opened(b, now, unix)
    case Open => b
  }

  function Code(s: State): u32 {
    match s case Closed => 0 case HalfOpen => 1 case Open => 2
  }

  function Decode(code: u32): State {
    if code == 1 then HalfOpen else if code == 2 then Open else Closed
  }

  function SaturatingSub(a: nat, b: nat): nat { if a < b then 0 else a - b }

  /** A breaker rebuilt from a snapshot's fields; the parameters are the defaults. */
  function Restored(state: State, failures: nat, successes: nat, stamp: nat, now: int, unix: nat): Breaker {
    Defaults().(
      state := state,
      failures := failures,
      successes := successes,
      lastFailureUnix := stamp,
      lastFailure := if stamp > 0 then Some(now - SaturatingSub(unix, stamp) * SECOND) else None)
  }

  // ----- The mutable object -----

  /** The limits on the counters of a breaker that was built by `new` and then used. */
  ghost predicate Valid(b: Breaker) {
    && 1 <= b.maxFailures < 0x1_0000_0000 && 1 <= b.halfOpenMax < 0x1_0000_0000
    && b.failures <= b.maxFailures
    && (b.state.Closed? ==> b.failures < b.maxFailures)
    && (b.state.HalfOpen? ==> b.successes < b.halfOpenMax)
    && (!b.state.HalfOpen? ==> b.successes == 0)
    && (!b.state.Closed? ==> b.lastFailure.Some?)
  }

  /** Within those limits both counters have room for one more. */
  lemma ValidHasRoom(b: Breaker)
    requires Valid(b)
    ensures b.state.Closed? ==> b.failures + 1 < 0x1_0000_0000
    ensures b.state.HalfOpen? ==> b.successes + 1 < 0x1_0000_0000
  {
  }

  class CircuitBreaker {
    var state: State
    var failures: u32
    var lastFailure: Option<int>
    var lastFailureUnix: u64
    var consecutiveSuccesses: u32
    const maxFailures: u32
    const timeout: nat
    const halfOpenMax: u32

    ghost function Contents(): Breaker
      reads this
    {
      Breaker(state, failures, lastFailure, lastFailureUnix, consecutiveSuccesses, maxFailures, timeout, halfOpenMax)
    }

    constructor (maxFailures: u32, timeout: nat, halfOpenMax: u32)
      ensures Contents() == Fresh(maxFailures, timeout, halfOpenMax) && Valid(Contents())
      ensures this.maxFailures == (if maxFailures == 0 then 1 else maxFailures)
      ensures this.halfOpenMax == (if halfOpenMax == 0 then 1 else halfOpenMax)
    {
      state, failures, lastFailure, lastFailureUnix, consecutiveSuccesses := Closed, 0, None, 0, 0;
      this.maxFailures := AtLeastOne(maxFailures);
      this.timeout := timeout;
      this.halfOpenMax := AtLeastOne(halfOpenMax);
    }

    constructor Restore(snap: Snapshot, now: int, nowUnix: u64)
      ensures Contents() == Restored(Decode(snap.state), snap.failures, snap.consecutiveSuccesses,
                                     snap.lastFailureUnix, now, nowUnix)
      ensures (state.HalfOpen? <==> snap.state == 1) && (state.Open? <==> snap.state == 2)
      ensures lastFailure.Some? <==> snap.lastFailureUnix > 0
      ensures lastFailure.Some? && nowUnix >= snap.lastFailureUnix ==>
        lastFailure.value == now - (nowUnix - snap.lastFailureUnix) * SECOND
      ensures lastFailure.Some? && nowUnix < snap.lastFailureUnix ==> lastFailure.value == now
    {
      maxFailures, timeout, halfOpenMax := 5, 30 * SECOND, 3;
      failures := snap.failures;
      consecutiveSuccesses := snap.consecutiveSuccesses;
      lastFailureUnix := snap.lastFailureUnix;
      lastFailure := None;
      if snap.lastFailureUnix > 0 {
        var age := SaturatingSub(nowUnix, snap.lastFailureUnix);
        lastFailure := Some(now - age * SECOND);
      }
      state := Decode(snap.state);
    }

    method Allow(now: int) returns (allowed: bool)
      modifies this
      ensures allowed == Allows(old(Contents()), now)
      ensures Contents() == AfterAllow(old(Contents()), now)
    {
      match state {
        case Closed => return true;
        case HalfOpen => return true;
        case Open =>
          if lastFailure.Some? {
            if now - lastFailure.value >= timeout {
              state := HalfOpen;
              consecutiveSuccesses := 0;
              return true;
            }
          }
          return false;
      }
    }

    /** The counter must have room, as it always has in a breaker built by `new`; a
        snapshot edited by hand may leave none. */
    method RecordSuccess()
      requires state.HalfOpen? ==> consecutiveSuccesses + 1 < 0x1_0000_0000
      modifies this
      ensures Contents() == AfterSuccess(old(Contents()))
      ensures old(Valid(Contents())) ==> Valid(Contents())
    {
      match state {
        case Closed => failures := 0;
        case HalfOpen =>
          consecutiveSuccesses := consecutiveSuccesses + 1;
          if consecutiveSuccesses >= halfOpenMax {
            state := Closed;
            failures := 0;
            consecutiveSuccesses := 0;
          }
        case Open =>
      }
    }

    method RecordFailure(now: int, nowUnix: u64)
      requires state.Closed? ==> failures + 1 < 0x1_0000_0000
      modifies this
      ensures Contents() == AfterFailure(old(Contents()), now, nowUnix)
      ensures old(Valid(Contents())) ==> Valid(Contents())
    {
      match state {
        case Closed =>
          failures := failures + 1;
          if failures >= maxFailures {
            OpenAt(now, nowUnix);
          }
        case HalfOpen => OpenAt(now, nowUnix);
        case Open =>
      }
    }

    method OpenAt(now: int, nowUnix: u64)
      modifies this
      ensures Contents() == Opened(old(Contents()), now, nowUnix)
    {
      state := Open;
      lastFailure := Some(now);
      lastFailureUnix := nowUnix;
      consecutiveSuccesses := 0;
    }

    method ForceOpen(now: int, nowUnix: u64)
      modifies this
      ensures Contents() == Opened(old(Contents()), now, nowUnix)
    {
      OpenAt(now, nowUnix);
    }

    method TakeSnapshot() returns (snap: Snapshot)
      ensures snap == Snapshot(match state case Closed => 0 case HalfOpen => 1 case Open => 2,
                               failures, lastFailureUnix, consecutiveSuccesses)
    {
      snap := Snapshot(Code(state), failures, lastFailureUnix, consecutiveSuccesses);
    }
  }

  // ----- Runs -----

  datatype Call = Allow | Success | Failure | ForceOpen | Restart

  /** A call, the instant at which it is made and the wall clock's whole second then.
      `Restart` takes a snapshot and restores it in a new process. */
  datatype Event = Event(call: Call, now: int, unix: nat)

  function Step(b: Breaker, e: Event): Breaker {
    match e.call
    case Allow => AfterAllow(b, e.now)
    case Success => AfterSuccess(b)
    case Failure => AfterFailure(b, e.now, e.unix)
    case ForceOpen => Opened(b, e.now, e.unix)
    case Restart => Restored(b.state, b.failures, b.successes, b.lastFailureUnix, e.now, e.unix)
  }

  function Run(b: Breaker, tr: seq<Event>): Breaker {
    if tr == [] then b else Step(Run(b, tr[..|tr| - 1]), tr[|tr| - 1])
  }

  ghost predicate Never(tr: seq<Event>, call: Call) {
    forall i :: 0 <= i < |tr| ==> tr[i].call != call
  }

  ghost predicate Ordered(tr: seq<Event>) {
    forall i, j :: 0 <= i < j < |tr| ==> tr[i].now <= tr[j].now
  }

  function Tally(tr: seq<Event>, call: Call): nat {
    if tr == [] then 0
    else Tally(tr[..|tr| - 1], call) + if tr[|tr| - 1].call == call then 1 else 0
  }

  lemma ValidStep(b: Breaker, e: Event)
    requires Valid(b) && e.call != Restart
    ensures Valid(Step(b, e))
  {
  }

  /** In every reachable state the counters are below their limits, so neither `u32`
      counter can overflow. Holds with `ForceOpen` too. */
  lemma {:induction false} AlwaysValid(maxFailures: u32, timeout: nat, halfOpenMax: u32, tr: seq<Event>)
    requires Never(tr, Restart)
    ensures Valid(Run(Fresh(maxFailures, timeout, halfOpenMax), tr))
  {
    if tr != [] {
      AlwaysValid(maxFailures, timeout, halfOpenMax, tr[..|tr| - 1]);
      ValidStep(Run(Fresh(maxFailures, timeout, halfOpenMax), tr[..|tr| - 1]), tr[|tr| - 1]);
    }
  }

  // ----- When the breaker leaves closed -----

  /** Somewhere in the trace `m` failures occur with no success between them. */
  ghost predicate HasBurst(tr: seq<Event>, m: nat) {
    exists i, j :: 0 <= i <= j <= |tr| && BurstAt(tr, m, i, j)
  }

  ghost predicate BurstAt(tr: seq<Event>, m: nat, i: nat, j: nat)
    requires i <= j <= |tr|
  {
    Never(tr[i..j], Success) && Tally(tr[i..j], Failure) >= m
  }

  ghost predicate StaysClosed(b: Breaker, tr: seq<Event>) {
    forall n :: 0 <= n <= |tr| ==> Run(b, tr[..n]).state.Closed?
  }

  /** The failures since the last success. */
  function Streak(tr: seq<Event>): nat {
    if tr == [] then 0 else NextStreak(Streak(tr[..|tr| - 1]), tr[|tr| - 1].call)
  }

  function NextStreak(before: nat, call: Call): nat {
    if call.Success? then 0 else if call.Failure? then before + 1 else before
  }

  lemma {:induction false} StreakIsABurst(tr: seq<Event>) returns (i: nat)
    ensures i <= |tr| && Never(tr[i..], Success) && Tally(tr[i..], Failure) == Streak(tr)
  {
    if tr == [] || tr[|tr| - 1].call.Success? {
      i := |tr|;
    } else {
      i := StreakIsABurst(tr[..|tr| - 1]);
      assert tr[i..][..|tr| - 1 - i] == tr[..|tr| - 1][i..];
    }
  }

  lemma {:induction false} BurstIsWithinAStreak(tr: seq<Event>, i: nat)
    requires i <= |tr| && Never(tr[i..], Success)
    ensures Tally(tr[i..], Failure) <= Streak(tr)
  {
    if i < |tr| {
      var before := tr[..|tr| - 1];
      assert tr[i..][..|tr| - 1 - i] == before[i..];
      assert tr[i..][|tr| - 1 - i] == tr[|tr| - 1];
      BurstIsWithinAStreak(before, i);
    }
  }

  /** The streak stays below `m` throughout. */
  ghost predicate StreakBelow(tr: seq<Event>, m: nat) {
    forall n :: 0 <= n <= |tr| ==> Streak(tr[..n]) < m
  }

  lemma StaysClosedGrows(b: Breaker, before: seq<Event>, e: Event)
    ensures StaysClosed(b, before + [e]) <==> StaysClosed(b, before) && Run(b, before + [e]).state.Closed?
  {
    var tr := before + [e];
    assert tr[..|tr|] == tr;
    assert forall n :: 0 <= n <= |before| ==> tr[..n] == before[..n];
  }

  lemma StreakBelowGrows(before: seq<Event>, e: Event, m: nat)
    ensures StreakBelow(before + [e], m) <==> StreakBelow(before, m) && Streak(before + [e]) < m
  {
    var tr := before + [e];
    assert tr[..|tr|] == tr;
    assert forall n :: 0 <= n <= |before| ==> tr[..n] == before[..n];
  }

  lemma ClosedStep(b: Breaker, failures: nat, e: Event)
    requires b.state.Closed? && failures < b.maxFailures && !e.call.ForceOpen? && !e.call.Restart?
    ensures var next := Step(b.(failures := failures), e);
      && (next.state.Closed? <==> NextStreak(failures, e.call) < b.maxFailures)
      && (next.state.Closed? ==> next == b.(failures := NextStreak(failures, e.call)))
  {
  }

  lemma {:induction false} ClosedCountsTheStreak(b: Breaker, tr: seq<Event>)
    requires b.state.Closed? && b.failures == 0 < b.maxFailures
    requires Never(tr, ForceOpen) && Never(tr, Restart)
    ensures StaysClosed(b, tr) <==> StreakBelow(tr, b.maxFailures)
    ensures StaysClosed(b, tr) ==> Run(b, tr) == b.(failures := Streak(tr)) && Streak(tr) < b.maxFailures
  {
    if tr != [] {
      var before, e := tr[..|tr| - 1], tr[|tr| - 1];
      assert tr == before + [e];
      ClosedCountsTheStreak(b, before);
      StaysClosedGrows(b, before, e);
      StreakBelowGrows(before, e, b.maxFailures);
      if StaysClosed(b, before) {
        ClosedStep(b, Streak(before), e);
      }
    } else {
      assert forall n :: 0 <= n <= |tr| ==> tr[..n] == [];
    }
  }

  lemma BurstIffStreak(tr: seq<Event>, m: nat)
    ensures HasBurst(tr, m) <==> !StreakBelow(tr, m)
  {
    if HasBurst(tr, m) {
      var i, j :| 0 <= i <= j <= |tr| && BurstAt(tr, m, i, j);
      assert tr[..j][i..] == tr[i..j];
      BurstIsWithinAStreak(tr[..j], i);
    }
    if !StreakBelow(tr, m) {
      var n :| 0 <= n <= |tr| && Streak(tr[..n]) >= m;
      var i := StreakIsABurst(tr[..n]);
      assert tr[..n][i..] == tr[i..n];
      assert BurstAt(tr, m, i, n);
    }
  }

  /** Without `ForceOpen` a fresh breaker stays closed throughout a run if and only if the
      trace nowhere has `maxFailures` failures with no success between them. */
  lemma LeavesClosedIffBurst(maxFailures: u32, timeout: nat, halfOpenMax: u32, tr: seq<Event>)
    requires Never(tr, ForceOpen) && Never(tr, Restart)
    ensures StaysClosed(Fresh(maxFailures, timeout, halfOpenMax), tr) <==> !HasBurst(tr, AtLeastOne(maxFailures))
  {
    ClosedCountsTheStreak(Fresh(maxFailures, timeout, halfOpenMax), tr);
    BurstIffStreak(tr, AtLeastOne(maxFailures));
  }

  /** The same from any moment at which a run has the breaker closed with no failure on
      record, such as the end of a trial. */
  lemma LeavesClosedAgainIffBurst(b: Breaker, tr: seq<Event>)
    requires b.state.Closed? && b.failures == 0 < b.maxFailures
    requires Never(tr, ForceOpen) && Never(tr, Restart)
    ensures StaysClosed(b, tr) <==> !HasBurst(tr, b.maxFailures)
  {
    ClosedCountsTheStreak(b, tr);
    BurstIffStreak(tr, b.maxFailures);
  }

  // ----- When a trial closes the breaker -----

  ghost predicate StaysHalfOpen(b: Breaker, tr: seq<Event>) {
    forall n :: 0 <= n < |tr| ==> Run(b, tr[..n]).state.HalfOpen?
  }

  lemma {:induction false} HalfOpenCounts(b: Breaker, tr: seq<Event>)
    requires b.state.HalfOpen? && b.successes == 0 < b.halfOpenMax
    requires Never(tr, ForceOpen) && Never(tr, Restart) && StaysHalfOpen(b, tr)
    ensures var r := Run(b, tr);
      && (r.state.Closed? <==> Tally(tr, Failure) == 0 && Tally(tr, Success) == b.halfOpenMax)
      && (r.state.HalfOpen? <==> Tally(tr, Failure) == 0 && Tally(tr, Success) < b.halfOpenMax)
      && (r.state.Open? <==> Tally(tr, Failure) == 1)
      && (r.state.Closed? ==> r.failures == 0)
      && (r.state.HalfOpen? ==> r.successes == Tally(tr, Success))
      && r.halfOpenMax == b.halfOpenMax
  {
    if tr != [] {
      var before := tr[..|tr| - 1];
      assert forall n :: 0 <= n < |before| ==> tr[..n] == before[..n];
      HalfOpenCounts(b, before);
      assert Run(b, tr[..|tr| - 1]).state.HalfOpen?;
    }
  }

  lemma {:induction false} RunAppend(b: Breaker, x: seq<Event>, y: seq<Event>)
    ensures Run(b, x + y) == Run(Run(b, x), y)
  {
    if y == [] {
      assert x + y == x;
    } else {
      var n := |y| - 1;
      assert (x + y)[..|x + y| - 1] == x + y[..n];
      RunAppend(b, x, y[..n]);
    }
  }

  // ----- Cool-off -----

  /** The event opens the breaker, or forces it open while it is open already. */
  predicate Opens(b: Breaker, e: Event) {
    Step(b, e).state.Open? && (!b.state.Open? || e.call.ForceOpen?)
  }

  /** The instants at which the breaker was opened. */
  function Openings(b: Breaker, tr: seq<Event>): seq<int> {
    if tr == [] then []
    else
      var e := tr[|tr| - 1];
      Openings(b, tr[..|tr| - 1]) + if Opens(Run(b, tr[..|tr| - 1]), e) then [e.now] else []
  }

  /** The timer is set to the latest opening, and only the end of the cool-off lets the
      breaker out of the open state. */
  ghost predicate TimerRuns(b: Breaker, openings: seq<int>, clock: int) {
    if openings == [] then b.state.Closed? && b.lastFailure.None?
    else
      var latest := openings[|openings| - 1];
      && b.lastFailure == Some(latest) && latest <= clock
      && (!b.state.Open? ==> clock - latest >= b.timeout)
  }

  lemma TimerStep(b: Breaker, openings: seq<int>, clock: int, e: Event, next: seq<int>)
    requires e.call != Restart && TimerRuns(b, openings, clock) && clock <= e.now
    requires next == openings + if Opens(b, e) then [e.now] else []
    ensures TimerRuns(Step(b, e), next, e.now)
  {
  }

  lemma {:induction false} TimerAlwaysRuns(b: Breaker, tr: seq<Event>, clock: int)
    requires b.state.Closed? && b.lastFailure.None?
    requires Ordered(tr) && Never(tr, Restart)
    requires tr != [] ==> tr[|tr| - 1].now <= clock
    ensures TimerRuns(Run(b, tr), Openings(b, tr), clock)
    ensures Run(b, tr).timeout == b.timeout
  {
    if tr != [] {
      var before, e := tr[..|tr| - 1], tr[|tr| - 1];
      TimerAlwaysRuns(b, before, e.now);
      TimerStep(Run(b, before), Openings(b, before), e.now, e, Openings(b, tr));
    }
  }

  /** No call is let through in the `timeout` after the latest opening, forced or not. */
  lemma NoTrialDuringCoolOff(b: Breaker, tr: seq<Event>, now: int)
    requires b.state.Closed? && b.lastFailure.None?
    requires Ordered(tr) && Never(tr, Restart) && (tr != [] ==> tr[|tr| - 1].now <= now)
    requires Openings(b, tr) != [] && now < Openings(b, tr)[|Openings(b, tr)| - 1] + b.timeout
    ensures !Allows(Run(b, tr), now)
  {
    TimerAlwaysRuns(b, tr, now);
  }

  /** An open breaker lets a call through exactly from the end of its cool-off on, which
      is `timeout` after the latest opening. */
  lemma AllowedIffCooledOff(b: Breaker, tr: seq<Event>, now: int)
    requires b.state.Closed? && b.lastFailure.None?
    requires Ordered(tr) && Never(tr, Restart)
    ensures Run(b, tr).state.Open? ==> Openings(b, tr) != []
    ensures Allows(Run(b, tr), now) <==>
      !Run(b, tr).state.Open? || now >= Openings(b, tr)[|Openings(b, tr)| - 1] + b.timeout
  {
    TimerAlwaysRuns(b, tr, if tr == [] then now else tr[|tr| - 1].now);
  }

  /** A trial, from the call that admits it on: a run of a fresh breaker that is open, an
      `Allow` at or after the end of the cool-off, and further calls up to the moment the
      breaker leaves half-open. It closes exactly if those calls have `halfOpenMax`
      successes and no failure, with the failure count reset; it re-opens exactly on the
      first failure; until either it is half-open. */
  lemma TrialOutcome(maxFailures: u32, timeout: nat, halfOpenMax: u32, before: seq<Event>, admit: Event, tr: seq<Event>)
    requires Ordered(before) && Never(before, Restart)
    requires Run(Fresh(maxFailures, timeout, halfOpenMax), before).state.Open?
    requires admit.call.Allow? && Openings(Fresh(maxFailures, timeout, halfOpenMax), before) != []
    requires var openings := Openings(Fresh(maxFailures, timeout, halfOpenMax), before);
      admit.now >= openings[|openings| - 1] + timeout
    requires Never(tr, ForceOpen) && Never(tr, Restart)
    requires StaysHalfOpen(Run(Fresh(maxFailures, timeout, halfOpenMax), before + [admit]), tr)
    ensures var r := Run(Fresh(maxFailures, timeout, halfOpenMax), before + [admit] + tr);
      && (r.state.Closed? <==> Tally(tr, Failure) == 0 && Tally(tr, Success) == AtLeastOne(halfOpenMax))
      && (r.state.HalfOpen? <==> Tally(tr, Failure) == 0 && Tally(tr, Success) < AtLeastOne(halfOpenMax))
      && (r.state.Open? <==> Tally(tr, Failure) == 1)
      && (r.state.Closed? ==> r.failures == 0)
      && (r.state.HalfOpen? ==> r.successes == Tally(tr, Success))
  {
    var start := Fresh(maxFailures, timeout, halfOpenMax);
    AllowedIffCooledOff(start, before, admit.now);
    LimitsAreFixed(start, before);
    RunAppend(start, before, [admit]);
    RunAppend(start, before + [admit], tr);
    Admitted(Run(start, before), admit);
    HalfOpenCounts(Run(start, before + [admit]), tr);
  }

  /** Admission starts a trial from nothing. */
  lemma Admitted(b: Breaker, admit: Event)
    requires b.state.Open? && admit.call.Allow? && Allows(b, admit.now)
    ensures var a := Run(b, [admit]); a.state.HalfOpen? && a.successes == 0 && a.halfOpenMax == b.halfOpenMax
  {
    assert [admit][..0] == [];
  }

  /** Away from closed the failure count stands where it was when the breaker opened. */
  lemma {:induction false} FailuresStandWhileOpen(maxFailures: u32, timeout: nat, halfOpenMax: u32, tr: seq<Event>)
    requires Never(tr, ForceOpen) && Never(tr, Restart)
    ensures var b := Run(Fresh(maxFailures, timeout, halfOpenMax), tr);
      !b.state.Closed? ==> b.failures == AtLeastOne(maxFailures)
  {
    if tr != [] {
      var before := tr[..|tr| - 1];
      FailuresStandWhileOpen(maxFailures, timeout, halfOpenMax, before);
      AlwaysValid(maxFailures, timeout, halfOpenMax, before);
      LimitsAreFixed(Fresh(maxFailures, timeout, halfOpenMax), before);
    }
  }

  lemma {:induction false} OpeningsAreApart(b: Breaker, tr: seq<Event>, i: nat)
    requires b.state.Closed? && b.lastFailure.None?
    requires Ordered(tr) && Never(tr, Restart) && Never(tr, ForceOpen)
    requires i + 1 < |Openings(b, tr)|
    ensures Openings(b, tr)[i + 1] - Openings(b, tr)[i] >= b.timeout
  {
    var before, e := tr[..|tr| - 1], tr[|tr| - 1];
    if i + 1 < |Openings(b, before)| {
      OpeningsAreApart(b, before, i);
    } else {
      TimerAlwaysRuns(b, before, e.now);
    }
  }

  /** Without `ForceOpen`, `j - i` further openings take at least that many timeouts. */
  lemma {:induction false} OpeningsSpan(b: Breaker, tr: seq<Event>, i: nat, j: nat)
    requires b.state.Closed? && b.lastFailure.None?
    requires Ordered(tr) && Never(tr, Restart) && Never(tr, ForceOpen)
    requires i <= j < |Openings(b, tr)|
    ensures Openings(b, tr)[j] - Openings(b, tr)[i] >= (j - i) * b.timeout
    decreases j
  {
    if i < j {
      OpeningsSpan(b, tr, i, j - 1);
      OpeningsAreApart(b, tr, j - 1);
      assert (j - i) * b.timeout == (j - 1 - i) * b.timeout + b.timeout;
    }
  }

  function Successes(b: Breaker, n: nat): Breaker
    decreases n
  {
    if n == 0 then b else Successes(AfterSuccess(b), n - 1)
  }

  lemma {:induction false} SuccessesClose(b: Breaker, n: nat)
    requires Valid(b) && !b.state.Open?
    requires if b.state.Closed? then n >= 1 || b.failures == 0 else b.successes + n >= b.halfOpenMax
    ensures Successes(b, n).state.Closed? && Successes(b, n).failures == 0
    decreases n
  {
    if n > 0 {
      SuccessesClose(AfterSuccess(b), n - 1);
    }
  }

  /** Recovery: from any reachable state, once `timeout` has passed since the last event,
      one `Allow` succeeds and `halfOpenMax` successes then close the breaker with no
      failure on record. */
  lemma AlwaysRecovers(maxFailures: u32, timeout: nat, halfOpenMax: u32, tr: seq<Event>, now: int)
    requires Ordered(tr) && Never(tr, Restart)
    requires tr != [] ==> now >= tr[|tr| - 1].now + timeout
    ensures var b := Run(Fresh(maxFailures, timeout, halfOpenMax), tr);
      && Allows(b, now)
      && Successes(AfterAllow(b, now), AtLeastOne(halfOpenMax)).state.Closed?
      && Successes(AfterAllow(b, now), AtLeastOne(halfOpenMax)).failures == 0
  {
    var initial := Fresh(maxFailures, timeout, halfOpenMax);
    var b := Run(initial, tr);
    AlwaysValid(maxFailures, timeout, halfOpenMax, tr);
    LimitsAreFixed(initial, tr);
    TimerAlwaysRuns(initial, tr, if tr == [] then now else tr[|tr| - 1].now);
    SuccessesClose(AfterAllow(b, now), AtLeastOne(halfOpenMax));
  }

  lemma {:induction false} LimitsAreFixed(b: Breaker, tr: seq<Event>)
    requires Never(tr, Restart)
    ensures Run(b, tr).halfOpenMax == b.halfOpenMax && Run(b, tr).maxFailures == b.maxFailures && Run(b, tr).timeout == b.timeout
  {
    if tr != [] {
      LimitsAreFixed(b, tr[..|tr| - 1]);
    }
  }
}
