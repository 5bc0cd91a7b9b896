/**
Persistence of the circuit breaker. A snapshot keeps the wall clock's whole second of the
latest opening, so a restored breaker knows its failure instant only to within a second.
The theorems compare a run with restarts to the same run without them, for breakers with
the default parameters (the only ones `restore` can rebuild).
*/
module Restart {
  import opened Wrappers
  import opened Numbers
  import opened Circuit

  /** The wall clock in whole seconds at an instant; `epoch` is its unknown offset. */
  function Unix(epoch: int, now: int): int { (epoch + now) / SECOND }

  /** Time does not run backwards and the wall clock has left second zero. */
  ghost predicate Clocked(epoch: int, tr: seq<Event>) {
    && Ordered(tr)
    && (forall i :: 0 <= i < |tr| ==> tr[i].unix == Unix(epoch, tr[i].now) > 0)
  }

  function WithoutRestarts(tr: seq<Event>): seq<Event> {
    if tr == [] then []
    else
      WithoutRestarts(tr[..|tr| - 1]) + if tr[|tr| - 1].call.Restart? then [] else [tr[|tr| - 1]]
  }

  /** The answers `Allow` gives in a run. */
  function Decisions(b: Breaker, tr: seq<Event>): seq<bool> {
    if tr == [] then []
    else
      var before, e := tr[..|tr| - 1], tr[|tr| - 1];
      Decisions(b, before) + if e.call.Allow? then [Allows(Run(b, before), e.now)] else []
  }

  /** An `Allow` on an open breaker less than a second from the end of its cool-off. */
  ghost predicate CloseCall(b: Breaker, e: Event) {
    e.call.Allow? && b.state.Open? && b.lastFailure.Some?
    && -SECOND < e.now - (b.lastFailure.value + b.timeout) < SECOND
  }

  ghost predicate NoCloseCall(b: Breaker, tr: seq<Event>) {
    tr == [] || (NoCloseCall(b, tr[..|tr| - 1]) && !CloseCall(Run(b, tr[..|tr| - 1]), tr[|tr| - 1]))
  }

  /** Two breakers that agree on everything but the failure instant, and on that to
      within a second. */
  ghost predicate Alike(a: Breaker, b: Breaker) {
    && b.(lastFailure := a.lastFailure) == a
    && (a.lastFailure.Some? <==> b.lastFailure.Some?)
    && (a.lastFailure.Some? ==> -SECOND < b.lastFailure.value - a.lastFailure.value < SECOND)
  }

  /** What is known of a breaker that never restarted. */
  ghost predicate Stamped(a: Breaker, epoch: int, clock: int) {
    && a.(state := Closed, failures := 0, successes := 0, lastFailure := None, lastFailureUnix := 0) == Defaults()
    && match a.lastFailure
       case None => a.lastFailureUnix == 0 && !a.state.Open?
       case Some(t) => a.lastFailureUnix == Unix(epoch, t) > 0 && t <= clock
  }

  /** The instant of the latest restart since the breaker last opened, if there was one. */
  function RestartSince(tr: seq<Event>): Option<int> {
    if tr == [] then None
    else
      var before, e := tr[..|tr| - 1], tr[|tr| - 1];
      if e.call.Restart? then Some(e.now)
      else if Opens(Run(Defaults(), WithoutRestarts(before)), e) then None
      else RestartSince(before)
  }

  /** What a breaker that never restarted takes for its failure instant, as one that
      restarted at `restart` rebuilds it: the restart less the whole seconds since. */
  function Rebuilt(epoch: int, t: int, restart: Option<int>): int {
    match restart
    case None => t
    case Some(r) => r - (Unix(epoch, r) - Unix(epoch, t)) * SECOND
  }

  /** An `Allow` between the true and the rebuilt end of the cool-off. */
  ghost predicate Disputed(epoch: int, a: Breaker, restart: Option<int>, e: Event) {
    && e.call.Allow? && a.state.Open? && a.lastFailure.Some?
    && var t := a.lastFailure.value;
       var rebuilt := Rebuilt(epoch, t, restart);
       Min(t, rebuilt) + a.timeout <= e.now < Max(t, rebuilt) + a.timeout
  }

  /** No `Allow` of the run is disputed. Only the run without restarts and the instants of
      the restarts are consulted. */
  ghost predicate Undisputed(epoch: int, tr: seq<Event>) {
    tr == [] ||
      var before, e := tr[..|tr| - 1], tr[|tr| - 1];
      && Undisputed(epoch, before)
      && !Disputed(epoch, Run(Defaults(), WithoutRestarts(before)), RestartSince(before), e)
  }

  // ----- One step -----

  lemma UnixOrder(epoch: int, t: int, now: int)
    requires t <= now
    ensures Unix(epoch, t) <= Unix(epoch, now)
    ensures -SECOND < now - (Unix(epoch, now) - Unix(epoch, t)) * SECOND - t < SECOND
  {
  }

  /** The two breakers as they are at one moment of a run: alike, and the failure instant
      of the restarted one is the one rebuilt at the latest restart. */
  ghost predicate Paired(epoch: int, a: Breaker, b: Breaker, restart: Option<int>, clock: int) {
    && Stamped(a, epoch, clock) && Alike(a, b)
    && (restart.Some? ==> restart.value <= clock)
    && (a.lastFailure.Some? ==> b.lastFailure.value == Rebuilt(epoch, a.lastFailure.value, restart))
  }

  /** On one call the answers are the same if and only if the call is not disputed. */
  lemma AnswersDifferIfDisputed(epoch: int, a: Breaker, b: Breaker, restart: Option<int>, clock: int, e: Event)
    requires Paired(epoch, a, b, restart, clock) && e.call.Allow?
    ensures Allows(a, e.now) == Allows(b, e.now) <==> !Disputed(epoch, a, restart, e)
  {
  }

  lemma PairedStep(epoch: int, a: Breaker, b: Breaker, restart: Option<int>, clock: int, e: Event)
    requires Paired(epoch, a, b, restart, clock) && clock <= e.now && e.unix == Unix(epoch, e.now) > 0
    requires !e.call.Restart? && !Disputed(epoch, a, restart, e)
    ensures Paired(epoch, Step(a, e), Step(b, e), if Opens(a, e) then None else restart, e.now)
  {
    if e.call.Allow? {
      AnswersDifferIfDisputed(epoch, a, b, restart, clock, e);
    }
  }

  /** A restart rebuilds the failure instant from the stamp alone: whatever error earlier
      restarts had made is gone, and the new one is less than a second. */
  lemma PairedRestart(epoch: int, a: Breaker, b: Breaker, restart: Option<int>, clock: int, e: Event)
    requires Paired(epoch, a, b, restart, clock) && clock <= e.now && e.unix == Unix(epoch, e.now) > 0
    requires e.call.Restart?
    ensures Paired(epoch, a, Step(b, e), Some(e.now), e.now)
  {
    if a.lastFailure.Some? {
      UnixOrder(epoch, a.lastFailure.value, e.now);
    }
  }

  // ----- Whole runs -----

  lemma WithoutRestartsGrows(before: seq<Event>, e: Event)
    ensures WithoutRestarts(before + [e]) == if e.call.Restart? then WithoutRestarts(before) else WithoutRestarts(before) + [e]
  {
    assert (before + [e])[..|before|] == before;
  }

  lemma RunGrows(b: Breaker, tr: seq<Event>, e: Event)
    ensures Run(b, tr + [e]) == Step(Run(b, tr), e)
    ensures Decisions(b, tr + [e]) == if e.call.Allow? then Decisions(b, tr) + [Allows(Run(b, tr), e.now)] else Decisions(b, tr)
  {
    assert (tr + [e])[..|tr|] == tr;
    assert Decisions(b, tr) + [] == Decisions(b, tr);
  }

  /** As long as no call is disputed the two breakers stay paired. */
  lemma {:induction false} UndisputedRunsStayPaired(epoch: int, tr: seq<Event>, clock: int)
    requires Clocked(epoch, tr) && Undisputed(epoch, tr)
    requires tr != [] ==> tr[|tr| - 1].now <= clock
    ensures Paired(epoch, Run(Defaults(), WithoutRestarts(tr)), Run(Defaults(), tr), RestartSince(tr), clock)
  {
    if tr != [] {
      var n := |tr| - 1;
      var before, e := tr[..n], tr[n];
      var plain := WithoutRestarts(before);
      UndisputedRunsStayPaired(epoch, before, e.now);
      assert tr == before + [e];
      WithoutRestartsGrows(before, e);
      RunGrows(Defaults(), before, e);
      RunGrows(Defaults(), plain, e);
      var a, b := Run(Defaults(), plain), Run(Defaults(), before);
      if e.call.Restart? {
        PairedRestart(epoch, a, b, RestartSince(before), e.now, e);
      } else {
        PairedStep(epoch, a, b, RestartSince(before), e.now, e);
      }
    }
  }

  lemma SnocEqual(x: seq<bool>, y: seq<bool>, v: bool, w: bool)
    ensures x + [v] == y + [w] <==> x == y && v == w
  {
    assert (x + [v])[..|x|] == x && (y + [w])[..|y|] == y;
    assert (x + [v])[|x|] == v && (y + [w])[|y|] == w;
  }

  lemma UndisputedGrows(epoch: int, before: seq<Event>, e: Event)
    ensures Undisputed(epoch, before + [e]) <==>
      Undisputed(epoch, before) && !Disputed(epoch, Run(Defaults(), WithoutRestarts(before)), RestartSince(before), e)
  {
    assert (before + [e])[..|before|] == before;
  }

  /** One more event: the decisions still agree exactly if they did and it is undisputed. */
  lemma DecisionsGrow(epoch: int, before: seq<Event>, e: Event)
    requires Clocked(epoch, before + [e])
    requires Decisions(Defaults(), WithoutRestarts(before)) == Decisions(Defaults(), before) <==> Undisputed(epoch, before)
    ensures Decisions(Defaults(), WithoutRestarts(before + [e])) == Decisions(Defaults(), before + [e]) <==>
      Undisputed(epoch, before + [e])
  {
    var plain := WithoutRestarts(before);
    WithoutRestartsGrows(before, e);
    RunGrows(Defaults(), before, e);
    RunGrows(Defaults(), plain, e);
    UndisputedGrows(epoch, before, e);
    if e.call.Allow? {
      var a, b := Run(Defaults(), plain), Run(Defaults(), before);
      SnocEqual(Decisions(Defaults(), plain), Decisions(Defaults(), before), Allows(a, e.now), Allows(b, e.now));
      if Undisputed(epoch, before) {
        ClockedPrefix(epoch, before, e);
        UndisputedRunsStayPaired(epoch, before, e.now);
        AnswersDifferIfDisputed(epoch, a, b, RestartSince(before), e.now, e);
      }
    }
  }

  lemma ClockedPrefix(epoch: int, before: seq<Event>, e: Event)
    requires Clocked(epoch, before + [e])
    ensures Clocked(epoch, before)
    ensures before != [] ==> before[|before| - 1].now <= e.now
  {
    var tr := before + [e];
    assert forall i :: 0 <= i < |before| ==> tr[i] == before[i];
    assert tr[|before|] == e;
  }

  /** Exactly when restarts matter: over any run of calls with any number of restarts, a
      breaker answers every `Allow` as one that never restarted if and only if no `Allow`
      falls between the true end of a cool-off and the end rebuilt at the latest restart. */
  lemma {:induction false} RestartDiffersExactly(epoch: int, tr: seq<Event>)
    requires Clocked(epoch, tr)
    ensures Decisions(Defaults(), WithoutRestarts(tr)) == Decisions(Defaults(), tr) <==> Undisputed(epoch, tr)
  {
    if tr != [] {
      var before, e := tr[..|tr| - 1], tr[|tr| - 1];
      assert tr == before + [e];
      ClockedPrefix(epoch, before, e);
      RestartDiffersExactly(epoch, before);
      DecisionsGrow(epoch, before, e);
    }
  }

  // ----- A sufficient margin -----

  /** A disputed call is less than a second from the end of the cool-off. */
  lemma DisputedIsClose(epoch: int, a: Breaker, b: Breaker, restart: Option<int>, clock: int, e: Event)
    requires Paired(epoch, a, b, restart, clock) && Disputed(epoch, a, restart, e)
    ensures CloseCall(a, e)
  {
  }

  lemma NoCloseCallGrows(b: Breaker, tr: seq<Event>, e: Event)
    ensures NoCloseCall(b, tr + [e]) <==> NoCloseCall(b, tr) && !CloseCall(Run(b, tr), e)
  {
    assert (tr + [e])[..|tr|] == tr;
  }

  lemma NoCloseCallStep(epoch: int, before: seq<Event>, e: Event)
    requires Clocked(epoch, before + [e]) && Undisputed(epoch, before)
    requires NoCloseCall(Defaults(), WithoutRestarts(before + [e]))
    ensures Undisputed(epoch, before + [e])
  {
    var plain := WithoutRestarts(before);
    WithoutRestartsGrows(before, e);
    UndisputedGrows(epoch, before, e);
    var a, restart := Run(Defaults(), plain), RestartSince(before);
    if Disputed(epoch, a, restart, e) {
      NoCloseCallGrows(Defaults(), plain, e);
      ClockedPrefix(epoch, before, e);
      UndisputedRunsStayPaired(epoch, before, e.now);
      DisputedIsClose(epoch, a, Run(Defaults(), before), restart, e.now, e);
    }
  }

  lemma {:induction false} NoCloseCallIsUndisputed(epoch: int, tr: seq<Event>)
    requires Clocked(epoch, tr) && NoCloseCall(Defaults(), WithoutRestarts(tr))
    ensures Undisputed(epoch, tr)
  {
    if tr != [] {
      var before, e := tr[..|tr| - 1], tr[|tr| - 1];
      assert tr == before + [e];
      ClockedPrefix(epoch, before, e);
      WithoutRestartsGrows(before, e);
      NoCloseCallGrows(Defaults(), WithoutRestarts(before), e);
      NoCloseCallIsUndisputed(epoch, before);
      NoCloseCallStep(epoch, before, e);
    }
  }

  /** Restart fidelity: across any number of restarts the breaker keeps the state, the
      counters and the stamp of one that never restarted, its failure instant stays less
      than a second off, and it answers every `Allow` alike, provided that no `Allow`
      falls less than a second from the end of a cool-off. */
  lemma RestartFidelity(epoch: int, tr: seq<Event>)
    requires Clocked(epoch, tr) && NoCloseCall(Defaults(), WithoutRestarts(tr))
    ensures var steady, restarted := Run(Defaults(), WithoutRestarts(tr)), Run(Defaults(), tr);
      && restarted.state == steady.state
      && restarted.failures == steady.failures
      && restarted.successes == steady.successes
      && restarted.lastFailureUnix == steady.lastFailureUnix
      && (steady.lastFailure.Some? <==> restarted.lastFailure.Some?)
      && (steady.lastFailure.Some? ==>
            -SECOND < restarted.lastFailure.value - steady.lastFailure.value < SECOND)
    ensures Decisions(Defaults(), WithoutRestarts(tr)) == Decisions(Defaults(), tr)
  {
    NoCloseCallIsUndisputed(epoch, tr);
    UndisputedRunsStayPaired(epoch, tr, if tr == [] then 0 else tr[|tr| - 1].now);
    RestartDiffersExactly(epoch, tr);
  }

  /** Restarts keep the counters within their limits as well, close calls or not. */
  lemma {:induction false} ValidAcrossRestarts(tr: seq<Event>)
    requires forall i :: 0 <= i < |tr| ==> tr[i].unix > 0
    ensures var b := Run(Defaults(), tr);
      && Valid(b)
      && b.maxFailures == 5 && b.timeout == 30 * SECOND && b.halfOpenMax == 3
      && (b.lastFailure.Some? <==> b.lastFailureUnix > 0)
  {
    if tr != [] {
      ValidAcrossRestarts(tr[..|tr| - 1]);
    }
  }

  /** The condition spelled out for one restart of a breaker that opened at `t`. */
  lemma OneRestartDiffersExactly(epoch: int, t: int, restart: int, now: int)
    requires t <= restart && Unix(epoch, t) > 0
    ensures var b := Opened(Defaults(), t, Unix(epoch, t));
      var rebuilt := Rebuilt(epoch, t, Some(restart));
      var restarted := Step(b, Event(Call.Restart, restart, Max(0, Unix(epoch, restart))));
      Allows(b, now) != Allows(restarted, now) <==> Min(t, rebuilt) + b.timeout <= now < Max(t, rebuilt) + b.timeout
  {
    UnixOrder(epoch, t, restart);
  }

  /** A concrete run with a close call: opened half-way through second 1000 and restarted
      at the start of second 1010, the breaker is let through half a second early. */
  lemma RestartCanLetThroughEarly()
    ensures var half := SECOND / 2;
      var b := Opened(Defaults(), 1000 * SECOND + half, 1000);
      var restarted := Step(b, Event(Call.Restart, 1010 * SECOND, 1010));
      !Allows(b, 1030 * SECOND) && Allows(restarted, 1030 * SECOND)
  {
  }

  /** Taking a snapshot of one object and restoring it in another is the `Restart` step. */
  method Reboot(running: CircuitBreaker, now: int, nowUnix: u64) returns (rebuilt: CircuitBreaker)
    ensures fresh(rebuilt)
    ensures rebuilt.Contents() == Step(running.Contents(), Event(Call.Restart, now, nowUnix))
  {
    var snap := running.TakeSnapshot();
    rebuilt := new CircuitBreaker.Restore(snap, now, nowUnix);
  }
}
