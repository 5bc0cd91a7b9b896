/**
The per-key sliding window of the mock upstream: a deque of admission stamps that
expires from the front, refuses when it holds `rpm` entries, and tells a refused caller
how long to wait.

The specification below follows one key over one run. `ts` lists the stamps of the key's
requests in LOCK order; since a handler reads its clock before it takes the lock, the
list need not be sorted, and the theorems say how much disorder they allow.
*/
module SlidingWindow {

  const WINDOW: real := 60.0

  datatype Decision = Admit | Refuse(retryAfter: int)

  datatype Reply = Reply(win: seq<real>, decision: Decision)

  /** The entries that survive at time `now`: the longest expired run at the front goes. */
  function Expire(win: seq<real>, now: real): seq<real>
  {
    if win != [] && now - win[0] >= WINDOW then Expire(win[1..], now) else win
  }

  /** Expiry keeps a suffix: everything it drops is at least 60 s old, the front it keeps
      is younger. */
  lemma {:induction false} ExpireKeepsASuffix(win: seq<real>, now: real)
    ensures var kept := Expire(win, now);
      && |kept| <= |win| && kept == win[|win| - |kept|..]
      && (forall j :: 0 <= j < |win| - |kept| ==> now - win[j] >= WINDOW)
      && (kept != [] ==> now - kept[0] < WINDOW)
  {
    if win != [] && now - win[0] >= WINDOW {
      ExpireKeepsASuffix(win[1..], now);
    }
  }

  lemma {:induction false} ExpireShrinks(win: seq<real>, now: real)
    ensures |Expire(win, now)| <= |win|
  {
    if win != [] && now - win[0] >= WINDOW {
      ExpireShrinks(win[1..], now);
    }
  }

  lemma OldFrontMakesRoom(rpm: int, win: seq<real>, now: real)
    requires rpm >= 1 && |win| <= rpm && (|win| == rpm ==> now - win[0] >= WINDOW)
    ensures |Expire(win, now)| < rpm
  {
    ExpireShrinks(win, now);
    if |win| == rpm {
      ExpireShrinks(win[1..], now);
    }
  }

  function RetryAfter(oldest: real, now: real): int
  {
    var wait := (WINDOW - (now - oldest)).Floor + 1;
    if wait < 1 then 1 else wait
  }

  /** One arrival: what the deque becomes, and the answer. */
  function Arrive(rpm: int, win: seq<real>, now: real): Reply
    requires rpm >= 1
  {
    var kept := Expire(win, now);
    if |kept| >= rpm then Reply(kept, Refuse(RetryAfter(kept[0], now)))
    else Reply(kept + [now], Admit)
  }

  /** A run of one key: the deque, and the stamp and the position in `ts` of every
      admitted request. */
  datatype Run = Run(win: seq<real>, stamps: seq<real>, positions: seq<nat>)

  function After(rpm: int, r: Run, n: nat, now: real): Run
    requires rpm >= 1
  {
    var reply := Arrive(rpm, r.win, now);
    if reply.decision.Admit? then Run(reply.win, r.stamps + [now], r.positions + [n])
    else r.(win := reply.win)
  }

  function Play(rpm: int, ts: seq<real>): Run
    requires rpm >= 1
  {
    if ts == [] then Run([], [], [])
    else var n := |ts| - 1; After(rpm, Play(rpm, ts[..n]), n, ts[n])
  }

  /** An earlier lock holder's stamp exceeds a later one's by at most `d`. */
  ghost predicate Skewed(ts: seq<real>, d: real) {
    forall i, j :: 0 <= i < j < |ts| ==> ts[i] <= ts[j] + d
  }

  ghost predicate Increasing(idx: seq<nat>, bound: nat) {
    && (forall i :: 0 <= i < |idx| ==> idx[i] < bound)
    && (forall i, j :: 0 <= i < j < |idx| ==> idx[i] < idx[j])
  }

  /** The positions are increasing and name the requests whose stamps were admitted. */
  ghost predicate Located(ts: seq<real>, r: Run) {
    && Increasing(r.positions, |ts|)
    && |r.stamps| == |r.positions|
    && (forall k :: 0 <= k < |r.stamps| ==> r.stamps[k] == ts[r.positions[k]])
  }

  lemma {:induction false} PositionsLocate(rpm: int, ts: seq<real>)
    requires rpm >= 1
    ensures Located(ts, Play(rpm, ts))
  {
    if ts != [] {
      PositionsLocate(rpm, ts[..|ts| - 1]);
    }
  }

  /** Some request of the run came 60 s or more after `stamp`. */
  ghost predicate Outlived(ts: seq<real>, stamp: real) {
    exists m :: 0 <= m < |ts| && ts[m] - stamp >= WINDOW
  }

  /** The deque is a contiguous suffix of what was admitted and holds at most `rpm`
      entries; everything admitted before it has expired. */
  ghost predicate SuffixOfAdmitted(rpm: int, ts: seq<real>, win: seq<real>, stamps: seq<real>) {
    && |win| <= rpm
    && |win| <= |stamps| && win == stamps[|stamps| - |win|..]
    && (forall k :: 0 <= k < |stamps| - |win| ==> Outlived(ts, stamps[k]))
  }

  lemma OutlivedStep(ts: seq<real>, now: real, stamp: real)
    ensures Outlived(ts, stamp) || now - stamp >= WINDOW ==> Outlived(ts + [now], stamp)
  {
    var all := ts + [now];
    assert all[|ts|] == now;
    if Outlived(ts, stamp) {
      var m :| 0 <= m < |ts| && ts[m] - stamp >= WINDOW;
      assert all[m] - stamp >= WINDOW;
    }
  }

  lemma ExpireStep(rpm: int, ts: seq<real>, win: seq<real>, stamps: seq<real>, now: real)
    requires SuffixOfAdmitted(rpm, ts, win, stamps)
    ensures SuffixOfAdmitted(rpm, ts + [now], Expire(win, now), stamps)
  {
    var kept := Expire(win, now);
    ExpireKeepsASuffix(win, now);
    forall k | 0 <= k < |stamps| - |kept|
      ensures Outlived(ts + [now], stamps[k])
    {
      OutlivedStep(ts, now, stamps[k]);
      var gap := |stamps| - |win|;
      if gap <= k {
        assert stamps[k] == win[k - gap];
      }
    }
  }

  lemma AdmitStep(rpm: int, ts: seq<real>, win: seq<real>, stamps: seq<real>, now: real)
    requires SuffixOfAdmitted(rpm, ts, win, stamps) && |win| < rpm
    ensures SuffixOfAdmitted(rpm, ts, win + [now], stamps + [now])
  {
    assert (stamps + [now])[|stamps| - |win|..] == stamps[|stamps| - |win|..] + [now];
  }

  lemma SuffixStep(rpm: int, ts: seq<real>, r: Run, now: real)
    requires rpm >= 1 && SuffixOfAdmitted(rpm, ts, r.win, r.stamps)
    ensures var next := After(rpm, r, |ts|, now); SuffixOfAdmitted(rpm, ts + [now], next.win, next.stamps)
  {
    var kept := Expire(r.win, now);
    ExpireStep(rpm, ts, r.win, r.stamps, now);
    if |kept| < rpm {
      AdmitStep(rpm, ts + [now], kept, r.stamps, now);
    }
  }

  /** Holds for stamps in any order. */
  lemma {:induction false} WindowIsSuffix(rpm: int, ts: seq<real>)
    requires rpm >= 1
    ensures SuffixOfAdmitted(rpm, ts, Play(rpm, ts).win, Play(rpm, ts).stamps)
  {
    if ts != [] {
      var n := |ts| - 1;
      WindowIsSuffix(rpm, ts[..n]);
      SuffixStep(rpm, ts[..n], Play(rpm, ts[..n]), ts[n]);
      assert ts == ts[..n] + [ts[n]];
    }
  }

  /** No entry of the deque is 60 s younger than its front. */
  ghost predicate FrontBounds(win: seq<real>) {
    forall j :: 0 <= j < |win| ==> win[j] - win[0] < WINDOW
  }

  /** Even when stamps are out of order: an entry can only become the front by being
      younger than the front that expired before it. */
  lemma FrontStep(rpm: int, win: seq<real>, now: real)
    requires rpm >= 1 && FrontBounds(win)
    ensures FrontBounds(Arrive(rpm, win, now).win)
  {
    var kept := Expire(win, now);
    ExpireKeepsASuffix(win, now);
    if kept != [] && |kept| < |win| {
      assert now - win[0] >= WINDOW > now - kept[0];
    }
    forall j | 0 <= j < |kept|
      ensures kept[j] - kept[0] < WINDOW
    {
      assert kept[j] == win[|win| - |kept| + j];
    }
  }

  lemma {:induction false} FrontBoundsWindow(rpm: int, ts: seq<real>)
    requires rpm >= 1
    ensures FrontBounds(Play(rpm, ts).win)
  {
    if ts != [] {
      FrontBoundsWindow(rpm, ts[..|ts| - 1]);
      FrontStep(rpm, Play(rpm, ts[..|ts| - 1]).win, ts[|ts| - 1]);
    }
  }

  // ----- Safety -----

  lemma {:induction false} SpacingUnderSkew(rpm: int, ts: seq<real>, d: real, k: nat, l: nat)
    requires rpm >= 1 && d >= 0.0 && Skewed(ts, d)
    requires k + rpm <= l < |Play(rpm, ts).stamps|
    ensures Play(rpm, ts).stamps[l] - Play(rpm, ts).stamps[k] >= WINDOW - d
  {
    var n := |ts| - 1;
    var r, before := Play(rpm, ts), Play(rpm, ts[..n]);
    if l < |before.stamps| {
      assert r.stamps[l] == before.stamps[l] && r.stamps[k] == before.stamps[k];
      SpacingUnderSkew(rpm, ts[..n], d, k, l);
    } else {
      assert r.stamps[l] == ts[n];
      WindowIsSuffix(rpm, ts);
      assert Outlived(ts, r.stamps[k]);
      var m :| 0 <= m < |ts| && ts[m] - r.stamps[k] >= WINDOW;
      assert ts[m] <= ts[n] + d;
    }
  }

  lemma {:induction false} IncreasingGap(idx: seq<nat>, bound: nat, i: nat, j: nat)
    requires Increasing(idx, bound) && i <= j < |idx|
    ensures idx[j] >= idx[i] + (j - i)
    decreases j
  {
    if i < j {
      IncreasingGap(idx, bound, i, j - 1);
    }
  }

  /** Safety: pick any `rpm + 1` admitted requests; with stamps at most `d` out of order
      they span at least `60 - d` seconds (60 when the order is exact). */
  lemma SafetyUnderSkew(rpm: int, ts: seq<real>, d: real, picks: seq<nat>)
    requires rpm >= 1 && d >= 0.0 && Skewed(ts, d)
    requires |picks| == rpm + 1 && Increasing(picks, |Play(rpm, ts).stamps|)
    ensures Play(rpm, ts).stamps[picks[rpm]] - Play(rpm, ts).stamps[picks[0]] >= WINDOW - d
  {
    IncreasingGap(picks, |Play(rpm, ts).stamps|, 0, rpm);
    SpacingUnderSkew(rpm, ts, d, picks[0], picks[rpm]);
  }

  lemma PlaySnoc(rpm: int, ts: seq<real>, now: real)
    requires rpm >= 1
    ensures Play(rpm, ts + [now]) == After(rpm, Play(rpm, ts), |ts|, now)
  {
    assert (ts + [now])[..|ts|] == ts;
  }

  /** `n` requests at time zero. */
  function Burst(n: nat): (ts: seq<real>)
    ensures |ts| == n
    ensures forall i :: 0 <= i < n ==> ts[i] == 0.0
  {
    if n == 0 then [] else Burst(n - 1) + [0.0]
  }

  lemma BurstStep(rpm: nat, r: Run, n: nat)
    requires |r.win| < rpm && forall i :: 0 <= i < |r.win| ==> r.win[i] == 0.0
    ensures After(rpm, r, n, 0.0).win == r.win + [0.0]
    ensures After(rpm, r, n, 0.0).stamps == r.stamps + [0.0]
  {
  }

  lemma {:induction false} BurstIsAdmitted(rpm: nat, n: nat)
    requires rpm >= 1 && n <= rpm
    ensures Play(rpm, Burst(n)).win == Burst(n)
    ensures Play(rpm, Burst(n)).stamps == Burst(n)
  {
    if n > 0 {
      BurstIsAdmitted(rpm, n - 1);
      BurstStep(rpm, Play(rpm, Burst(n - 1)), n - 1);
      PlaySnoc(rpm, Burst(n - 1), 0.0);
    }
  }

  lemma ThenAMinuteLater(rpm: nat) returns (ts: seq<real>)
    requires rpm >= 1
    ensures |ts| == rpm + 1 && ts[rpm] == WINDOW
    ensures forall i :: 0 <= i < rpm ==> ts[i] == 0.0
    ensures Play(rpm, ts).win == [WINDOW] && Play(rpm, ts).stamps == ts
  {
    BurstIsAdmitted(rpm, rpm);
    ExpireKeepsASuffix(Burst(rpm), WINDOW);
    PlaySnoc(rpm, Burst(rpm), WINDOW);
    ts := Burst(rpm) + [WINDOW];
  }

  lemma YoungFrontStays(win: seq<real>, now: real)
    requires win != [] && now - win[0] < WINDOW
    ensures Expire(win, now) == win
  {
  }

  lemma ThenLate(rpm: nat, ts: seq<real>, late: real)
    requires rpm >= 2 && late <= WINDOW && Play(rpm, ts).win == [WINDOW]
    ensures Play(rpm, ts + [late]).stamps == Play(rpm, ts).stamps + [late]
  {
    YoungFrontStays([WINDOW], late);
    PlaySnoc(rpm, ts, late);
  }

  lemma LateLastIsSkewed(first: seq<real>, rpm: nat, d: real)
    requires d >= 0.0 && |first| == rpm + 1 && first[rpm] == WINDOW
    requires forall i :: 0 <= i < rpm ==> first[i] == 0.0
    ensures Skewed(first + [WINDOW - d], d)
  {
    var ts := first + [WINDOW - d];
    forall i, j | 0 <= i < j < |ts|
      ensures ts[i] <= ts[j] + d
    {
      assert ts[j] == WINDOW - d || ts[j] == WINDOW || ts[i] == ts[j];
    }
  }

  /** The bound is the best possible: from two requests a minute on, for every skew `d`,
      some run has that skew and admits `rpm + 1` requests in a row that span exactly
      `60 - d`. */
  lemma SafetyBoundIsTight(rpm: nat, d: real) returns (ts: seq<real>)
    requires rpm >= 2 && d >= 0.0
    ensures Skewed(ts, d)
    ensures Play(rpm, ts).stamps == ts && |ts| == rpm + 2
    ensures ts[rpm + 1] - ts[1] == WINDOW - d
  {
    var first := ThenAMinuteLater(rpm);
    ThenLate(rpm, first, WINDOW - d);
    ts := first + [WINDOW - d];
    LateLastIsSkewed(first, rpm, d);
  }

  /** The window holds the last admission and nothing else. */
  ghost predicate OnlyTheLast(r: Run) {
    r.win == if r.stamps == [] then [] else [r.stamps[|r.stamps| - 1]]
  }

  lemma OnlyTheLastStep(r: Run, n: nat, now: real)
    requires OnlyTheLast(r)
    ensures OnlyTheLast(After(1, r, n, now))
  {
    ExpireKeepsASuffix(r.win, now);
  }

  lemma {:induction false} AtOneAMinuteOnlyTheLast(ts: seq<real>)
    ensures OnlyTheLast(Play(1, ts))
  {
    if ts != [] {
      var n := |ts| - 1;
      AtOneAMinuteOnlyTheLast(ts[..n]);
      OnlyTheLastStep(Play(1, ts[..n]), n, ts[n]);
    }
  }

  ghost predicate Apart(stamps: seq<real>) {
    forall k, l :: 0 <= k < l < |stamps| ==> stamps[l] - stamps[k] >= WINDOW
  }

  lemma ApartStep(r: Run, n: nat, now: real)
    requires OnlyTheLast(r) && Apart(r.stamps)
    ensures Apart(After(1, r, n, now).stamps)
  {
    var m := |r.stamps|;
    if m > 0 && After(1, r, n, now).stamps != r.stamps {
      assert now - r.stamps[m - 1] >= WINDOW;
      forall k | 0 <= k < m
        ensures now - r.stamps[k] >= WINDOW
      {
        assert k < m - 1 ==> r.stamps[m - 1] - r.stamps[k] >= WINDOW;
      }
    }
  }

  /** At one request a minute skew does not matter: any two admissions are 60 s apart,
      whatever the order of the stamps. */
  lemma {:induction false} OneAMinuteIgnoresSkew(ts: seq<real>)
    ensures Apart(Play(1, ts).stamps)
  {
    if ts != [] {
      var n := |ts| - 1;
      AtOneAMinuteOnlyTheLast(ts[..n]);
      OneAMinuteIgnoresSkew(ts[..n]);
      ApartStep(Play(1, ts[..n]), n, ts[n]);
    }
  }

  /** Which admitted requests are less than 60 s old at `now`. */
  ghost function Recent(stamps: seq<real>, now: real): set<nat> {
    set k: nat | k < |stamps| && now - stamps[k] < WINDOW
  }

  lemma {:induction false} TailSize(recent: set<nat>, lo: nat, hi: nat)
    requires lo <= hi && forall k: nat :: k in recent <==> lo <= k < hi
    ensures |recent| == hi - lo
    decreases hi
  {
    if lo < hi {
      TailSize(recent - {hi - 1}, lo, hi - 1);
    } else {
      assert recent == {};
    }
  }

  /** With ordered stamps the surviving deque is exactly what was admitted in the last 60 s. */
  lemma RecentIsTail(rpm: int, ts: seq<real>, r: Run, now: real, k: nat)
    requires Skewed(ts + [now], 0.0) && k < |r.stamps|
    requires Located(ts, r) && SuffixOfAdmitted(rpm, ts, r.win, r.stamps)
    ensures k in Recent(r.stamps, now) <==> |r.stamps| - |Expire(r.win, now)| <= k
  {
    var all, kept := ts + [now], Expire(r.win, now);
    ExpireKeepsASuffix(r.win, now);
    ExpireStep(rpm, ts, r.win, r.stamps, now);
    var front := |r.stamps| - |kept|;
    if k < front {
      assert Outlived(all, r.stamps[k]);
      var m :| 0 <= m < |all| && all[m] - r.stamps[k] >= WINDOW;
      assert all[m] <= all[|ts|] == now;
    } else {
      assert kept[0] == r.stamps[front] == all[r.positions[front]];
      assert all[r.positions[k]] == r.stamps[k];
      assert k > front ==> r.positions[front] < r.positions[k];
    }
  }

  /** With ordered stamps, a request is refused if and only if `rpm` requests were
      admitted in the last 60 s. */
  lemma RefusedIffWindowFull(rpm: int, ts: seq<real>, now: real)
    requires rpm >= 1 && Skewed(ts + [now], 0.0)
    ensures Arrive(rpm, Play(rpm, ts).win, now).decision.Refuse? <==> |Recent(Play(rpm, ts).stamps, now)| >= rpm
  {
    var r := Play(rpm, ts);
    WindowIsSuffix(rpm, ts);
    PositionsLocate(rpm, ts);
    ExpireKeepsASuffix(r.win, now);
    var front := |r.stamps| - |Expire(r.win, now)|;
    forall k: nat
      ensures k in Recent(r.stamps, now) <==> front <= k < |r.stamps|
    {
      if k < |r.stamps| {
        RecentIsTail(rpm, ts, r, now, k);
      }
    }
    TailSize(Recent(r.stamps, now), front, |r.stamps|);
  }

  // ----- Optimality -----

  /** A schedule: which requests to admit so that any `rpm + 1` of them span 60 s. */
  ghost predicate Schedule(rpm: int, ts: seq<real>, picks: seq<nat>)
    requires rpm >= 1
  {
    && Increasing(picks, |ts|)
    && (forall i, j :: 0 <= i && i + rpm <= j < |picks| ==> ts[picks[j]] - ts[picks[i]] >= WINDOW)
  }

  /** The i-th entry of `a` is never later than the i-th entry of `b`. */
  ghost predicate NeverLater(a: seq<nat>, b: seq<nat>) {
    |b| <= |a| && forall i :: 0 <= i < |b| ==> a[i] <= b[i]
  }

  lemma LastPickIsSpaced(rpm: int, ts: seq<real>, now: real, picks: seq<nat>, i: nat)
    requires rpm >= 1 && Schedule(rpm, ts + [now], picks + [|ts|]) && i + rpm == |picks|
    ensures picks[i] < |ts| && now - ts[picks[i]] >= WINDOW
  {
    var all, full := ts + [now], picks + [|ts|];
    assert full[i] == picks[i] < full[|picks|] == |ts|;
    assert all[full[|picks|]] - all[full[i]] >= WINDOW;
  }

  /** If the window has admitted one request fewer than a schedule that takes the next
      arrival, and none of its admissions is later than the schedule's, then the window
      takes that arrival too. */
  lemma WindowTakesIt(rpm: int, ts: seq<real>, r: Run, now: real, picks: seq<nat>)
    requires rpm >= 1 && Skewed(ts, 0.0) && Schedule(rpm, ts + [now], picks + [|ts|])
    requires Located(ts, r) && SuffixOfAdmitted(rpm, ts, r.win, r.stamps)
    requires |r.positions| == |picks| && NeverLater(r.positions, picks)
    ensures |Expire(r.win, now)| < rpm
  {
    if |picks| >= rpm {
      var i := |picks| - rpm;
      LastPickIsSpaced(rpm, ts, now, picks, i);
      assert r.positions[i] <= picks[i];
      assert r.stamps[i] == ts[r.positions[i]] <= ts[picks[i]];
      assert |r.win| == rpm ==> r.win[0] == r.stamps[i];
    }
    OldFrontMakesRoom(rpm, r.win, now);
  }

  /** The part of a schedule that lies before position `n`, its last possible pick. */
  ghost function Before(picks: seq<nat>, n: nat): seq<nat> {
    if picks != [] && picks[|picks| - 1] == n then picks[..|picks| - 1] else picks
  }

  lemma ExchangeStep(rpm: int, ts: seq<real>, r: Run, now: real, picks: seq<nat>)
    requires rpm >= 1 && Skewed(ts, 0.0) && Schedule(rpm, ts + [now], picks)
    requires Located(ts, r) && SuffixOfAdmitted(rpm, ts, r.win, r.stamps)
    requires NeverLater(r.positions, Before(picks, |ts|))
    ensures NeverLater(After(rpm, r, |ts|, now).positions, picks)
  {
    var rest := Before(picks, |ts|);
    if rest != picks && |rest| == |r.positions| {
      assert picks == rest + [|ts|];
      WindowTakesIt(rpm, ts, r, now, rest);
    }
    NeverLaterStep(r.positions, After(rpm, r, |ts|, now).positions, picks, |ts|);
  }

  lemma NeverLaterStep(mine: seq<nat>, next: seq<nat>, picks: seq<nat>, n: nat)
    requires NeverLater(mine, Before(picks, n))
    requires forall i :: 0 <= i < |mine| ==> mine[i] <= n
    requires next == mine + [n] || (next == mine && (Before(picks, n) == picks || |Before(picks, n)| < |mine|))
    ensures NeverLater(next, picks)
  {
    assert Before(picks, n) != picks ==> picks == Before(picks, n) + [n];
  }

  lemma BeforeIsASchedule(rpm: int, ts: seq<real>, now: real, picks: seq<nat>)
    requires rpm >= 1 && Schedule(rpm, ts + [now], picks)
    ensures Schedule(rpm, ts, Before(picks, |ts|))
  {
    var rest := Before(picks, |ts|);
    forall i | 0 <= i < |rest|
      ensures rest[i] < |ts|
    {
      assert i < |picks| - 1 ==> picks[i] < picks[|picks| - 1];
    }
  }

  /** The exchange argument: the i-th request the window admits is never later than the
      i-th request of any schedule. */
  lemma {:induction false} Exchange(rpm: int, ts: seq<real>, picks: seq<nat>)
    requires rpm >= 1 && Skewed(ts, 0.0) && Schedule(rpm, ts, picks)
    ensures NeverLater(Play(rpm, ts).positions, picks)
    decreases |ts|
  {
    if picks != [] {
      assert picks[0] < |ts|;
      var n := |ts| - 1;
      var early := ts[..n];
      assert ts == early + [ts[n]];
      BeforeIsASchedule(rpm, early, ts[n], picks);
      Exchange(rpm, early, Before(picks, n));
      PositionsLocate(rpm, early);
      WindowIsSuffix(rpm, early);
      ExchangeStep(rpm, early, Play(rpm, early), ts[n], picks);
    }
  }

  /** How many of the picked positions lie among the first `n` arrivals. */
  ghost function PickedBy(picks: seq<nat>, n: nat): (c: nat)
    ensures c <= |picks|
    ensures forall i :: 0 <= i < c ==> picks[i] < n
    ensures c < |picks| ==> picks[c] >= n
  {
    if picks == [] || picks[0] >= n then 0 else 1 + PickedBy(picks[1..], n)
  }

  /** Optimality: after every prefix of the arrivals the window has admitted at least as
      many requests as any schedule has. */
  lemma AdmissionIsOptimal(rpm: int, ts: seq<real>, picks: seq<nat>, n: nat)
    requires rpm >= 1 && Skewed(ts, 0.0) && Schedule(rpm, ts, picks) && n <= |ts|
    ensures PickedBy(picks, n) <= |Play(rpm, ts[..n]).stamps|
  {
    PositionsLocate(rpm, ts[..n]);
    Exchange(rpm, ts[..n], picks[..PickedBy(picks, n)]);
  }

  /** The window's own admissions form a schedule, so the optimum is attained. */
  lemma AdmissionIsASchedule(rpm: int, ts: seq<real>)
    requires rpm >= 1 && Skewed(ts, 0.0)
    ensures Schedule(rpm, ts, Play(rpm, ts).positions)
  {
    PositionsLocate(rpm, ts);
    var r := Play(rpm, ts);
    forall i, j | 0 <= i && i + rpm <= j < |r.positions|
      ensures ts[r.positions[j]] - ts[r.positions[i]] >= WINDOW
    {
      SpacingUnderSkew(rpm, ts, 0.0, i, j);
    }
  }

  // ----- Senders that pace themselves -----

  /** Among any `rpm + 1` requests in a row, two sends are at least `gap` apart. */
  ghost predicate Paced(rpm: nat, sends: seq<real>, gap: real) {
    forall k: nat {:trigger SpansFrom(sends, k, rpm, gap)} :: k + rpm < |sends| ==> SpansFrom(sends, k, rpm, gap)
  }

  ghost predicate SpansFrom(sends: seq<real>, k: nat, rpm: nat, gap: real)
    requires k + rpm < |sends|
  {
    exists x, y :: k <= x <= k + rpm && k <= y <= k + rpm && sends[x] - sends[y] >= gap
  }

  /** Each request reaches the lock with a stamp 0 to `jitter` after its send. */
  ghost predicate Delivered(sends: seq<real>, ts: seq<real>, jitter: real) {
    |sends| == |ts| && forall i :: 0 <= i < |ts| ==> sends[i] <= ts[i] <= sends[i] + jitter
  }

  lemma PacedPrefix(rpm: nat, sends: seq<real>, gap: real, n: nat)
    requires Paced(rpm, sends, gap) && n <= |sends|
    ensures Paced(rpm, sends[..n], gap)
  {
    forall k: nat | k + rpm < n
      ensures SpansFrom(sends[..n], k, rpm, gap)
    {
      assert SpansFrom(sends, k, rpm, gap);
      var x, y :| k <= x <= k + rpm && k <= y <= k + rpm && sends[x] - sends[y] >= gap;
      assert sends[..n][x] - sends[..n][y] >= gap;
    }
  }

  /** A paced sender's stamps spread too: some stamp is 60 s past the first of `rpm + 1`. */
  lemma PacedStampsSpread(rpm: nat, sends: seq<real>, ts: seq<real>, k: nat, jitter: real, d: real) returns (x: nat)
    requires d >= 0.0 && Skewed(ts, d) && Delivered(sends, ts, jitter)
    requires k + rpm < |ts| && Paced(rpm, sends, WINDOW + jitter + d)
    ensures k <= x <= k + rpm && ts[x] - ts[k] >= WINDOW
  {
    var gap := WINDOW + jitter + d;
    assert SpansFrom(sends, k, rpm, gap);
    var i, j :| k <= i <= k + rpm && k <= j <= k + rpm && sends[i] - sends[j] >= gap;
    assert ts[k] <= ts[j] + d;
    x := i;
  }

  lemma PacedStep(rpm: nat, sends: seq<real>, ts: seq<real>, r: Run, now: real, jitter: real, d: real)
    requires rpm >= 1 && d >= 0.0 && Skewed(ts + [now], d)
    requires Delivered(sends, ts + [now], jitter) && Paced(rpm, sends, WINDOW + jitter + d)
    requires r.stamps == ts && SuffixOfAdmitted(rpm, ts, r.win, r.stamps) && FrontBounds(r.win)
    ensures After(rpm, r, |ts|, now).stamps == ts + [now]
  {
    if |r.win| == rpm {
      FullWindowSpansTheMinute(rpm, sends, ts, r.win, |ts| - rpm, now, jitter, d);
    }
    OldFrontMakesRoom(rpm, r.win, now);
  }

  lemma FullWindowSpansTheMinute(rpm: nat, sends: seq<real>, ts: seq<real>, win: seq<real>, k: nat, now: real, jitter: real, d: real)
    requires rpm >= 1 && d >= 0.0 && Skewed(ts + [now], d)
    requires Delivered(sends, ts + [now], jitter) && Paced(rpm, sends, WINDOW + jitter + d)
    requires |ts| == k + rpm && win == ts[k..] && FrontBounds(win)
    ensures now - win[0] >= WINDOW
  {
    var all := ts + [now];
    var x := PacedStampsSpread(rpm, sends, all, k, jitter, d);
    assert all[k] == win[0] && all[|ts|] == now;
    forall i | k <= i < |ts|
      ensures all[i] - all[k] < WINDOW
    {
      assert all[i] == win[i - k];
    }
  }

  /** A paced sender is never refused. The margin it needs is the jitter plus the skew:
      with 1 s of jitter and exact order, 61 s. Sends may overtake one another. */
  lemma {:induction false} PacedSenderIsNeverRefused(rpm: nat, sends: seq<real>, ts: seq<real>, jitter: real, d: real)
    requires rpm >= 1 && d >= 0.0 && Skewed(ts, d)
    requires Delivered(sends, ts, jitter) && Paced(rpm, sends, WINDOW + jitter + d)
    ensures Play(rpm, ts).stamps == ts
    decreases |ts|
  {
    if ts != [] {
      var n := |ts| - 1;
      var early := ts[..n];
      PacedPrefix(rpm, sends, WINDOW + jitter + d, n);
      PacedSenderIsNeverRefused(rpm, sends[..n], early, jitter, d);
      WindowIsSuffix(rpm, early);
      FrontBoundsWindow(rpm, early);
      assert ts == early + [ts[n]];
      PacedStep(rpm, sends, early, Play(rpm, early), ts[n], jitter, d);
    }
  }

  // ----- Retry-After -----

  /** The deque after some further arrivals, and whether every one of them was refused. */
  function Continue(rpm: int, win: seq<real>, ts: seq<real>): (seq<real>, bool)
    requires rpm >= 1
    decreases |ts|
  {
    if ts == [] then (win, true)
    else
      var reply := Arrive(rpm, win, ts[0]);
      var (last, refused) := Continue(rpm, reply.win, ts[1..]);
      (last, refused && reply.decision.Refuse?)
  }

  lemma {:induction false} RefusalsKeepTheWindow(rpm: int, win: seq<real>, ts: seq<real>)
    requires rpm >= 1 && |win| <= rpm && Continue(rpm, win, ts).1
    ensures Continue(rpm, win, ts).0 == win
    decreases |ts|
  {
    if ts != [] {
      ExpireKeepsASuffix(win, ts[0]);
      assert Arrive(rpm, win, ts[0]).win == win;
      RefusalsKeepTheWindow(rpm, win, ts[1..]);
    }
  }

  /** Retry-After is honest: if nothing else is admitted meanwhile, a retry after that
      long is admitted; and it overshoots by at most a second, since every retry more
      than a second earlier is refused. */
  lemma RetryAfterIsExact(rpm: int, ts: seq<real>, now: real, meanwhile: seq<real>, retry: real)
    requires rpm >= 1
    requires Arrive(rpm, Play(rpm, ts).win, now).decision.Refuse?
    requires Continue(rpm, Arrive(rpm, Play(rpm, ts).win, now).win, meanwhile).1
    ensures var refusal := Arrive(rpm, Play(rpm, ts).win, now);
      var later := Arrive(rpm, Continue(rpm, refusal.win, meanwhile).0, retry).decision;
      && refusal.decision.retryAfter >= 1
      && (retry >= now + refusal.decision.retryAfter as real ==> later.Admit?)
      && (retry < now + (refusal.decision.retryAfter - 1) as real ==> later.Refuse?)
  {
    WindowIsSuffix(rpm, ts);
    var refusal := Arrive(rpm, Play(rpm, ts).win, now);
    ExpireKeepsASuffix(Play(rpm, ts).win, now);
    RefusalsKeepTheWindow(rpm, refusal.win, meanwhile);
    ExpireKeepsASuffix(refusal.win, retry);
    assert now - refusal.win[0] < WINDOW;
  }
}
