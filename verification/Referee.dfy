/**
The mock upstream as a whole: the per-key windows, the per-model worker slots and the
statistics its handler threads share under one lock.

`MockNim` is the shared state with the three critical sections of a chat request as its
methods. `World` adds the handler threads: a run is any list of steps, each one thread
passing through one critical section, so every interleaving of the threads is a run.
*/
module Referee {
  import opened Numbers
  import opened SlidingWindow

  datatype Config = Config(enforce: bool, rpm: int, workerSlots: int)

  ghost predicate Usable(c: Config) {
    c.enforce ==> c.rpm >= 1
  }

  /** The shared state. A missing map entry stands for the default a `defaultdict` gives. */
  datatype Books = Books(
    windows: map<string, seq<real>>,
    workers: map<string, int>,
    chatRequests: nat,
    violations: nat,
    served429: nat,
    workerExhausted: nat,
    maxWorkers: map<string, int>,
    perKey: map<string, nat>)

  const EMPTY := Books(map[], map[], 0, 0, 0, 0, map[], map[])

  function At<V>(m: map<string, V>, k: string, default: V): V {
    if k in m then m[k] else default
  }

  // ----- The three critical sections -----

  function Counted(b: Books, key: string): Books {
    b.(chatRequests := b.chatRequests + 1, perKey := b.perKey[key := At(b.perKey, key, 0) + 1])
  }

  function Judged(c: Config, b: Books, key: string, now: real): Decision
    requires Usable(c)
  {
    if c.enforce then Arrive(c.rpm, At(b.windows, key, []), now).decision else Admit
  }

  function Entered(c: Config, b: Books, key: string, now: real): Books
    requires Usable(c)
  {
    var counted := Counted(b, key);
    if !c.enforce then counted
    else
      var reply := Arrive(c.rpm, At(b.windows, key, []), now);
      var windowed := counted.(windows := b.windows[key := reply.win]);
      if reply.decision.Admit? then windowed
      else windowed.(violations := b.violations + 1, served429 := b.served429 + 1)
  }

  predicate SlotFree(c: Config, b: Books, model: string) {
    c.workerSlots == 0 || At(b.workers, model, 0) < c.workerSlots
  }

  function SlotTried(c: Config, b: Books, model: string): Books {
    if c.workerSlots == 0 then b
    else if !SlotFree(c, b, model) then b.(workerExhausted := b.workerExhausted + 1)
    else
      var busy := At(b.workers, model, 0) + 1;
      b.(workers := b.workers[model := busy],
         maxWorkers := b.maxWorkers[model := Max(At(b.maxWorkers, model, 0), busy)])
  }

  function SlotReleased(c: Config, b: Books, model: string): Books {
    if c.workerSlots == 0 then b
    else b.(workers := b.workers[model := At(b.workers, model, 0) - 1])
  }

  class MockNim {
    const config: Config
    var windows: map<string, seq<real>>
    var workers: map<string, int>
    var chatRequests: nat
    var violations: nat
    var served429: nat
    var workerExhausted: nat
    var maxWorkers: map<string, int>
    var perKey: map<string, nat>

    ghost function Contents(): Books
      reads this
    {
      Books(windows, workers, chatRequests, violations, served429, workerExhausted, maxWorkers, perKey)
    }

    constructor (config: Config)
      ensures this.config == config && Contents() == EMPTY
    {
      this.config := config;
      windows, workers, maxWorkers, perKey := map[], map[], map[], map[];
      chatRequests, violations, served429, workerExhausted := 0, 0, 0, 0;
    }

    /** First section: count the request, expire the key's deque, admit or refuse. */
    method EnterWindow(key: string, now: real) returns (decision: Decision)
      requires Usable(config)
      modifies this
      ensures Contents() == Entered(config, old(Contents()), key, now)
      ensures decision == Judged(config, old(Contents()), key, now)
    {
      chatRequests := chatRequests + 1;
      perKey := perKey[key := At(perKey, key, 0) + 1];
      if config.enforce {
        var win := At(windows, key, []);
        ghost var reply := Arrive(config.rpm, win, now);
        while win != [] && now - win[0] >= WINDOW
          invariant Arrive(config.rpm, win, now) == reply
        {
          win := win[1..];
        }
        assert reply == if |win| >= config.rpm then Reply(win, Refuse(RetryAfter(win[0], now))) else Reply(win + [now], Admit);
        windows := windows[key := win];
        if |win| >= config.rpm {
          violations := violations + 1;
          served429 := served429 + 1;
          return Refuse(RetryAfter(win[0], now));
        }
        windows := windows[key := win + [now]];
      }
      return Admit;
    }

    /** Second section: take a worker slot of the model, or be refused. */
    method TakeSlot(model: string) returns (granted: bool)
      modifies this
      ensures Contents() == SlotTried(config, old(Contents()), model)
      ensures granted <==> SlotFree(config, old(Contents()), model)
    {
      if config.workerSlots != 0 {
        if At(workers, model, 0) >= config.workerSlots {
          workerExhausted := workerExhausted + 1;
          return false;
        }
        workers := workers[model := At(workers, model, 0) + 1];
        maxWorkers := maxWorkers[model := Max(At(maxWorkers, model, 0), workers[model])];
      }
      return true;
    }

    /** Third section, entered whether the generation succeeded or raised. */
    method ReleaseSlot(model: string)
      modifies this
      ensures Contents() == SlotReleased(config, old(Contents()), model)
    {
      if config.workerSlots != 0 {
        workers := workers[model := At(workers, model, 0) - 1];
      }
    }
  }

  // ----- Handler threads -----

  datatype Phase = RateLimited | Waiting | Exhausted | Generating | Done(failed: bool)

  datatype Thread = Thread(key: string, model: string, phase: Phase)

  datatype World = World(books: Books, threads: seq<Thread>)

  /** One thread passes one critical section. A request starts a new thread. */
  datatype Step =
    | Begin(key: string, model: string, now: real)
    | Take(thread: nat)
    | Finish(thread: nat, failed: bool)

  /** A step whose thread is not waiting for that section changes nothing. */
  function Next(c: Config, w: World, s: Step): World
    requires Usable(c)
  {
    match s
    case Begin(key, model, now) =>
      var phase := if Judged(c, w.books, key, now).Refuse? then RateLimited else Waiting;
      World(Entered(c, w.books, key, now), w.threads + [Thread(key, model, phase)])
    case Take(i) =>
      if i < |w.threads| && w.threads[i].phase.Waiting? then
        var t := w.threads[i];
        var phase := if SlotFree(c, w.books, t.model) then Generating else Exhausted;
        World(SlotTried(c, w.books, t.model), w.threads[i := t.(phase := phase)])
      else w
    case Finish(i, failed) =>
      if i < |w.threads| && w.threads[i].phase.Generating? then
        var t := w.threads[i];
        World(SlotReleased(c, w.books, t.model), w.threads[i := t.(phase := Done(failed))])
      else w
  }

  function Reached(c: Config, steps: seq<Step>): World
    requires Usable(c)
  {
    if steps == [] then World(EMPTY, [])
    else Next(c, Reached(c, steps[..|steps| - 1]), steps[|steps| - 1])
  }

  function Count(threads: seq<Thread>, p: Thread -> bool): nat
  {
    if threads == [] then 0
    else Count(threads[..|threads| - 1], p) + if p(threads[|threads| - 1]) then 1 else 0
  }

  lemma {:induction false} CountUpdate(threads: seq<Thread>, i: nat, t: Thread, p: Thread -> bool)
    requires i < |threads|
    ensures Count(threads[i := t], p)
         == Count(threads, p) - (if p(threads[i]) then 1 else 0) + (if p(t) then 1 else 0)
  {
    var n := |threads| - 1;
    if i < n {
      assert threads[i := t][..n] == threads[..n][i := t];
      CountUpdate(threads[..n], i, t, p);
    } else {
      assert threads[i := t][..n] == threads[..n];
    }
  }

  lemma CountAppend(threads: seq<Thread>, t: Thread, p: Thread -> bool)
    ensures Count(threads + [t], p) == Count(threads, p) + if p(t) then 1 else 0
  {
    assert (threads + [t])[..|threads|] == threads;
  }

  function GeneratingFor(model: string): Thread -> bool { (t: Thread) => t.phase.Generating? && t.model == model }

  function CameWith(key: string): Thread -> bool { (t: Thread) => t.key == key }

  function WasRateLimited(): Thread -> bool { (t: Thread) => t.phase.RateLimited? }

  function WasExhausted(): Thread -> bool { (t: Thread) => t.phase.Exhausted? }

  function WasAdmitted(): Thread -> bool { (t: Thread) => !t.phase.RateLimited? && !t.phase.Exhausted? }

  function InFlight(w: World, model: string): nat { Count(w.threads, GeneratingFor(model)) }

  // ----- What every reachable state satisfies -----

  /** The counters agree with the threads. */
  ghost predicate Balanced(w: World) {
    && w.books.chatRequests == |w.threads|
    && w.books.violations == w.books.served429 == Count(w.threads, WasRateLimited())
    && w.books.workerExhausted == Count(w.threads, WasExhausted())
    && (forall key :: At(w.books.perKey, key, 0) == Count(w.threads, CameWith(key)))
  }

  lemma BalancedBegin(c: Config, w: World, s: Step)
    requires Usable(c) && Balanced(w) && s.Begin?
    ensures Balanced(Next(c, w, s))
  {
    var next := Next(c, w, s);
    var t := next.threads[|w.threads|];
    CountAppend(w.threads, t, WasRateLimited());
    CountAppend(w.threads, t, WasExhausted());
    forall key ensures At(next.books.perKey, key, 0) == Count(next.threads, CameWith(key)) {
      CountAppend(w.threads, t, CameWith(key));
    }
  }

  lemma BalancedSlots(c: Config, w: World, s: Step)
    requires Usable(c) && Balanced(w) && !s.Begin?
    ensures Balanced(Next(c, w, s))
  {
    var next := Next(c, w, s);
    var i := s.thread;
    if i < |w.threads| && next != w {
      var t := next.threads[i];
      CountUpdate(w.threads, i, t, WasRateLimited());
      CountUpdate(w.threads, i, t, WasExhausted());
      forall key ensures At(next.books.perKey, key, 0) == Count(next.threads, CameWith(key)) {
        CountUpdate(w.threads, i, t, CameWith(key));
      }
    }
  }

  lemma BalancedStep(c: Config, w: World, s: Step)
    requires Usable(c) && Balanced(w)
    ensures Balanced(Next(c, w, s))
  {
    if s.Begin? {
      BalancedBegin(c, w, s);
    } else {
      BalancedSlots(c, w, s);
    }
  }

  lemma {:induction false} AlwaysBalanced(c: Config, steps: seq<Step>)
    requires Usable(c)
    ensures Balanced(Reached(c, steps))
  {
    if steps == [] {
      forall key ensures At(EMPTY.perKey, key, 0) == Count([], CameWith(key)) {}
    } else {
      AlwaysBalanced(c, steps[..|steps| - 1]);
      BalancedStep(c, Reached(c, steps[..|steps| - 1]), steps[|steps| - 1]);
    }
  }

  lemma {:induction false} FatesPartition(threads: seq<Thread>)
    ensures |threads| == Count(threads, WasRateLimited()) + Count(threads, WasExhausted()) + Count(threads, WasAdmitted())
  {
    if threads != [] {
      FatesPartition(threads[..|threads| - 1]);
    }
  }

  ghost function Total(m: map<string, nat>): nat {
    if m == map[] then 0
    else var k :| k in m; m[k] + Total(m - {k})
  }

  lemma {:induction false} TotalSplit(m: map<string, nat>, k: string)
    requires k in m
    ensures Total(m) == m[k] + Total(m - {k})
    decreases |m|
  {
    assert m != map[];
    var j :| j in m && Total(m) == m[j] + Total(m - {j});
    if j != k {
      TotalSplit(m - {j}, k);
      TotalSplit(m - {k}, j);
      assert m - {j} - {k} == m - {k} - {j};
    }
  }

  lemma TotalPut(m: map<string, nat>, k: string, v: nat)
    ensures Total(m[k := v]) == Total(m) - At(m, k, 0) + v
  {
    TotalSplit(m[k := v], k);
    if k in m {
      TotalSplit(m, k);
      assert m[k := v] - {k} == m - {k};
    } else {
      assert m[k := v] - {k} == m;
    }
  }

  lemma PerKeyStep(c: Config, w: World, s: Step)
    requires Usable(c) && Total(w.books.perKey) == w.books.chatRequests
    ensures Total(Next(c, w, s).books.perKey) == Next(c, w, s).books.chatRequests
  {
    if s.Begin? {
      TotalPut(w.books.perKey, s.key, At(w.books.perKey, s.key, 0) + 1);
    }
  }

  lemma {:induction false} PerKeyAddsUp(c: Config, steps: seq<Step>)
    requires Usable(c)
    ensures Total(Reached(c, steps).books.perKey) == Reached(c, steps).books.chatRequests
  {
    if steps != [] {
      PerKeyAddsUp(c, steps[..|steps| - 1]);
      PerKeyStep(c, Reached(c, steps[..|steps| - 1]), steps[|steps| - 1]);
    }
  }

  /** Every request received is a violation, a worker refusal or an admission, and is
      counted for exactly one key. */
  lemma RequestsAreConserved(c: Config, steps: seq<Step>)
    requires Usable(c)
    ensures var w := Reached(c, steps);
      && w.books.chatRequests == w.books.violations + w.books.workerExhausted + Count(w.threads, WasAdmitted())
      && w.books.chatRequests == Total(w.books.perKey)
      && w.books.violations == Count(w.threads, WasRateLimited())
      && w.books.workerExhausted == Count(w.threads, WasExhausted())
  {
    AlwaysBalanced(c, steps);
    FatesPartition(Reached(c, steps).threads);
    PerKeyAddsUp(c, steps);
  }

  // ----- Worker slots -----

  /** The worker counters are the numbers of threads generating, within the cap. */
  ghost predicate SlotsHeld(c: Config, w: World) {
    forall model :: At(w.books.workers, model, 0) == InFlight(w, model) <= Max(0, c.workerSlots)
  }

  /** The step gives a slot of `model` to a waiting thread. */
  ghost predicate Grants(c: Config, w: World, s: Step, model: string) {
    && s.Take? && s.thread < |w.threads|
    && w.threads[s.thread].phase.Waiting?
    && w.threads[s.thread].model == model
    && SlotFree(c, w.books, model)
  }

  /** The step takes a slot of `model` back from a generating thread. */
  ghost predicate Returns(w: World, s: Step, model: string) {
    && s.Finish? && s.thread < |w.threads|
    && w.threads[s.thread].phase.Generating?
    && w.threads[s.thread].model == model
  }

  ghost function Change(c: Config, w: World, s: Step, model: string): int {
    if Grants(c, w, s, model) then 1 else if Returns(w, s, model) then -1 else 0
  }

  lemma BeginInFlight(c: Config, w: World, s: Step, model: string)
    requires Usable(c) && s.Begin?
    ensures InFlight(Next(c, w, s), model) == InFlight(w, model)
  {
    CountAppend(w.threads, Next(c, w, s).threads[|w.threads|], GeneratingFor(model));
  }

  lemma TakeInFlight(c: Config, w: World, s: Step, model: string)
    requires Usable(c) && s.Take?
    ensures InFlight(Next(c, w, s), model) == InFlight(w, model) + if Grants(c, w, s, model) then 1 else 0
  {
    var i := s.thread;
    if i < |w.threads| && w.threads[i].phase.Waiting? {
      CountUpdate(w.threads, i, Next(c, w, s).threads[i], GeneratingFor(model));
    }
  }

  lemma FinishInFlight(c: Config, w: World, s: Step, model: string)
    requires Usable(c) && s.Finish?
    ensures InFlight(Next(c, w, s), model) == InFlight(w, model) - if Returns(w, s, model) then 1 else 0
  {
    var i := s.thread;
    if i < |w.threads| && w.threads[i].phase.Generating? {
      CountUpdate(w.threads, i, Next(c, w, s).threads[i], GeneratingFor(model));
    }
  }

  lemma InFlightStep(c: Config, w: World, s: Step, model: string)
    requires Usable(c)
    ensures InFlight(Next(c, w, s), model) == InFlight(w, model) + Change(c, w, s, model)
  {
    match s
    case Begin(_, _, _) => BeginInFlight(c, w, s, model);
    case Take(_) => TakeInFlight(c, w, s, model);
    case Finish(_, _) => FinishInFlight(c, w, s, model);
  }

  /** What a step does to the counter and to the peak of one model. */
  lemma WorkersStep(c: Config, w: World, s: Step, model: string)
    requires Usable(c) && c.workerSlots != 0
    ensures At(Next(c, w, s).books.workers, model, 0) == At(w.books.workers, model, 0) + Change(c, w, s, model)
    ensures At(Next(c, w, s).books.maxWorkers, model, 0)
         == if Grants(c, w, s, model) then Max(At(w.books.maxWorkers, model, 0), At(w.books.workers, model, 0) + 1)
            else At(w.books.maxWorkers, model, 0)
  {
    match s
    case Begin(_, _, _) =>
    case Take(_) =>
    case Finish(_, _) =>
  }

  lemma SlotsHeldStep(c: Config, w: World, s: Step)
    requires Usable(c) && c.workerSlots != 0 && SlotsHeld(c, w)
    ensures SlotsHeld(c, Next(c, w, s))
  {
    var next := Next(c, w, s);
    forall model
      ensures At(next.books.workers, model, 0) == InFlight(next, model) <= Max(0, c.workerSlots)
    {
      assert At(w.books.workers, model, 0) == InFlight(w, model) <= Max(0, c.workerSlots);
      InFlightStep(c, w, s, model);
      WorkersStep(c, w, s, model);
    }
  }

  /** Slots are conserved in every interleaving, failed generations included: a model's
      counter is the number of threads now generating for it and never exceeds the cap. */
  lemma {:induction false} SlotsAreConserved(c: Config, steps: seq<Step>)
    requires Usable(c) && c.workerSlots != 0
    ensures SlotsHeld(c, Reached(c, steps))
  {
    if steps != [] {
      SlotsAreConserved(c, steps[..|steps| - 1]);
      SlotsHeldStep(c, Reached(c, steps[..|steps| - 1]), steps[|steps| - 1]);
    }
  }

  /** A slot is refused exactly when the cap's number of threads is generating. */
  lemma RefusedIffFull(c: Config, steps: seq<Step>, model: string)
    requires Usable(c) && c.workerSlots != 0
    ensures SlotFree(c, Reached(c, steps).books, model) <==> InFlight(Reached(c, steps), model) < c.workerSlots
  {
    SlotsAreConserved(c, steps);
    assert At(Reached(c, steps).books.workers, model, 0) == InFlight(Reached(c, steps), model);
  }

  lemma PeakStep(c: Config, w: World, s: Step, model: string)
    requires Usable(c) && c.workerSlots != 0 && SlotsHeld(c, w)
    requires InFlight(w, model) <= At(w.books.maxWorkers, model, 0)
    ensures At(Next(c, w, s).books.maxWorkers, model, 0)
         == Max(At(w.books.maxWorkers, model, 0), InFlight(Next(c, w, s), model))
  {
    assert At(w.books.workers, model, 0) == InFlight(w, model);
    InFlightStep(c, w, s, model);
    WorkersStep(c, w, s, model);
  }

  /** Every state a run passes through, from the initial one to the last. */
  function Moments(c: Config, steps: seq<Step>): seq<World>
    requires Usable(c)
  {
    (if steps == [] then [] else Moments(c, steps[..|steps| - 1])) + [Reached(c, steps)]
  }

  /** `peak` is the greatest number of threads generating for `model` in any of the states. */
  ghost predicate IsPeak(moments: seq<World>, model: string, peak: int) {
    && (forall n :: 0 <= n < |moments| ==> InFlight(moments[n], model) <= peak)
    && (exists n :: 0 <= n < |moments| && InFlight(moments[n], model) == peak)
  }

  lemma PeakExtends(moments: seq<World>, w: World, model: string, peak: int)
    requires IsPeak(moments, model, peak)
    ensures IsPeak(moments + [w], model, Max(peak, InFlight(w, model)))
  {
    var all := moments + [w];
    var n :| 0 <= n < |moments| && InFlight(moments[n], model) == peak;
    assert InFlight(all[n], model) == peak && InFlight(all[|moments|], model) == InFlight(w, model);
  }

  /** The recorded peak is the true maximum over the run. */
  lemma {:induction false} PeakIsTheMaximum(c: Config, steps: seq<Step>, model: string)
    requires Usable(c) && c.workerSlots != 0
    ensures IsPeak(Moments(c, steps), model, At(Reached(c, steps).books.maxWorkers, model, 0))
  {
    if steps == [] {
      assert InFlight(Moments(c, steps)[0], model) == 0;
    } else {
      var last := |steps| - 1;
      var before := steps[..last];
      PeakIsTheMaximum(c, before, model);
      SlotsAreConserved(c, before);
      var w := Reached(c, before);
      assert Moments(c, before)[|Moments(c, before)| - 1] == w;
      PeakStep(c, w, steps[last], model);
      PeakExtends(Moments(c, before), Reached(c, steps), model, At(w.books.maxWorkers, model, 0));
    }
  }

  // ----- What is switched off -----

  lemma OffStep(c: Config, w: World, s: Step)
    requires Usable(c)
    ensures !c.enforce ==> Next(c, w, s).books.violations == w.books.violations && Next(c, w, s).books.windows == w.books.windows
    ensures c.workerSlots == 0 ==>
      && Next(c, w, s).books.workerExhausted == w.books.workerExhausted
      && Next(c, w, s).books.workers == w.books.workers && Next(c, w, s).books.maxWorkers == w.books.maxWorkers
  {
    match s
    case Begin(_, _, _) =>
    case Take(_) =>
    case Finish(_, _) =>
  }

  /** Without enforcement no request is a violation; without worker slots none is refused
      for want of one, and none is counted. */
  lemma {:induction false} SwitchedOffNeverRefuses(c: Config, steps: seq<Step>)
    requires Usable(c)
    ensures !c.enforce ==> Reached(c, steps).books.violations == 0 && Reached(c, steps).books.windows == map[]
    ensures c.workerSlots == 0 ==>
      && Reached(c, steps).books.workerExhausted == 0
      && Reached(c, steps).books.workers == map[] && Reached(c, steps).books.maxWorkers == map[]
  {
    if steps != [] {
      SwitchedOffNeverRefuses(c, steps[..|steps| - 1]);
      OffStep(c, Reached(c, steps[..|steps| - 1]), steps[|steps| - 1]);
    }
  }

  // ----- Keys do not interfere -----

  /** The stamps of one key's requests, in lock order. */
  function StampsOf(steps: seq<Step>, key: string): seq<real> {
    if steps == [] then []
    else
      var last := steps[|steps| - 1];
      StampsOf(steps[..|steps| - 1], key) + if last.Begin? && last.key == key then [last.now] else []
  }

  function RefusedFor(key: string): Thread -> bool { (t: Thread) => t.phase.RateLimited? && t.key == key }

  /** A key's deque and its refusals are those of a run with that key alone. */
  ghost predicate Isolated(c: Config, w: World, key: string, stamps: seq<real>)
    requires Usable(c) && c.enforce
  {
    && At(w.books.windows, key, []) == Play(c.rpm, stamps).win
    && Count(w.threads, RefusedFor(key)) == |stamps| - |Play(c.rpm, stamps).stamps|
  }

  lemma IsolatedBegin(c: Config, w: World, s: Step, key: string, stamps: seq<real>)
    requires Usable(c) && c.enforce && s.Begin? && s.key == key && Isolated(c, w, key, stamps)
    ensures Isolated(c, Next(c, w, s), key, stamps + [s.now])
  {
    CountAppend(w.threads, Next(c, w, s).threads[|w.threads|], RefusedFor(key));
    PlaySnoc(c.rpm, stamps, s.now);
  }

  lemma IsolatedFromOthers(c: Config, w: World, s: Step, key: string)
    requires Usable(c) && c.enforce && s.Begin? && s.key != key
    ensures At(Next(c, w, s).books.windows, key, []) == At(w.books.windows, key, [])
    ensures Count(Next(c, w, s).threads, RefusedFor(key)) == Count(w.threads, RefusedFor(key))
  {
    CountAppend(w.threads, Next(c, w, s).threads[|w.threads|], RefusedFor(key));
  }

  lemma IsolatedFromSlots(c: Config, w: World, s: Step, key: string)
    requires Usable(c) && c.enforce && !s.Begin?
    ensures Next(c, w, s).books.windows == w.books.windows
    ensures Count(Next(c, w, s).threads, RefusedFor(key)) == Count(w.threads, RefusedFor(key))
  {
    var i := s.thread;
    if i < |w.threads| {
      assert w.threads[i := w.threads[i]] == w.threads;
      CountUpdate(w.threads, i, Next(c, w, s).threads[i], RefusedFor(key));
    }
  }

  lemma IsolatedStep(c: Config, w: World, s: Step, key: string, stamps: seq<real>)
    requires Usable(c) && c.enforce && Isolated(c, w, key, stamps)
    ensures Isolated(c, Next(c, w, s), key, stamps + if s.Begin? && s.key == key then [s.now] else [])
  {
    assert stamps + [] == stamps;
    if !s.Begin? {
      IsolatedFromSlots(c, w, s, key);
    } else if s.key == key {
      IsolatedBegin(c, w, s, key, stamps);
    } else {
      IsolatedFromOthers(c, w, s, key);
    }
  }

  lemma {:induction false} KeysDoNotInterfere(c: Config, steps: seq<Step>, key: string)
    requires Usable(c) && c.enforce
    ensures Isolated(c, Reached(c, steps), key, StampsOf(steps, key))
  {
    if steps != [] {
      var before := steps[..|steps| - 1];
      KeysDoNotInterfere(c, before, key);
      IsolatedStep(c, Reached(c, before), steps[|steps| - 1], key, StampsOf(before, key));
    }
  }

  lemma {:induction false} SomeKeyWasRefused(threads: seq<Thread>) returns (key: string)
    requires Count(threads, WasRateLimited()) > 0
    ensures Count(threads, RefusedFor(key)) > 0
  {
    var n := |threads| - 1;
    if threads[n].phase.RateLimited? {
      key := threads[n].key;
    } else {
      key := SomeKeyWasRefused(threads[..n]);
    }
  }

  /** The sends behind one key's requests are paced and reach the lock within `jitter`. */
  ghost predicate PacedSender(rpm: nat, sends: seq<real>, stamps: seq<real>, jitter: real, d: real) {
    && Skewed(stamps, d)
    && Delivered(sends, stamps, jitter)
    && Paced(rpm, sends, WINDOW + jitter + d)
  }

  /** The referee's purpose: if the sender paces every key, then in every interleaving
      and with any number of keys it records zero violations. */
  lemma PacedSendersCauseNoViolation(c: Config, steps: seq<Step>, sends: map<string, seq<real>>, jitter: real, d: real)
    requires Usable(c) && c.enforce && d >= 0.0
    requires forall key :: PacedSender(c.rpm, At(sends, key, []), StampsOf(steps, key), jitter, d)
    ensures Reached(c, steps).books.violations == 0
  {
    AlwaysBalanced(c, steps);
    var w := Reached(c, steps);
    if Count(w.threads, WasRateLimited()) > 0 {
      var key := SomeKeyWasRefused(w.threads);
      KeysDoNotInterfere(c, steps, key);
      assert PacedSender(c.rpm, At(sends, key, []), StampsOf(steps, key), jitter, d);
      PacedSenderIsNeverRefused(c.rpm, At(sends, key, []), StampsOf(steps, key), jitter, d);
    }
  }
}
