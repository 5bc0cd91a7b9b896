/** Paths and reachability over an arbitrary edge relation. */
module Graphs {

  /** Consecutive entries are joined by edges. */
  ghost predicate IsPath<N>(edge: (N, N) -> bool, p: seq<N>) {
    p != [] && forall i :: 0 <= i < |p| - 1 ==> edge(p[i], p[i + 1])
  }

  /** `p` leads from `a` to `b` in one or more edges. */
  ghost predicate Leads<N>(edge: (N, N) -> bool, p: seq<N>, a: N, b: N) {
    |p| >= 2 && IsPath(edge, p) && p[0] == a && p[|p| - 1] == b
  }

  ghost predicate Reaches<N(!new)>(edge: (N, N) -> bool, a: N, b: N) {
    exists p :: Leads(edge, p, a, b)
  }

  ghost predicate HasCycle<N(!new)>(edge: (N, N) -> bool) {
    exists a :: Reaches(edge, a, a)
  }

  lemma TailIsPath<N>(edge: (N, N) -> bool, p: seq<N>)
    requires IsPath(edge, p) && |p| >= 2
    ensures IsPath(edge, p[1..])
  {
    var q := p[1..];
    forall i | 0 <= i < |q| - 1 ensures edge(q[i], q[i + 1]) {
      var j := i + 1;
      assert edge(p[j], p[j + 1]);
    }
  }

  lemma EdgeReaches<N(!new)>(edge: (N, N) -> bool, a: N, b: N)
    requires edge(a, b)
    ensures Reaches(edge, a, b)
  {
    assert Leads(edge, [a, b], a, b);
  }

  /** One step onwards. */
  lemma ReachesStep<N(!new)>(edge: (N, N) -> bool, a: N, b: N, c: N)
    requires Reaches(edge, a, b) && edge(b, c)
    ensures Reaches(edge, a, c)
  {
    var p :| Leads(edge, p, a, b);
    var q := p + [c];
    assert forall i :: 0 <= i < |q| - 1 ==> edge(q[i], q[i + 1]);
    assert Leads(edge, q, a, c);
  }

  /** One step before. */
  lemma StepReaches<N(!new)>(edge: (N, N) -> bool, a: N, b: N, c: N)
    requires edge(a, b) && Reaches(edge, b, c)
    ensures Reaches(edge, a, c)
  {
    var p :| Leads(edge, p, b, c);
    var q := [a] + p;
    assert forall i :: 0 <= i < |q| - 1 ==> edge(q[i], q[i + 1]);
    assert Leads(edge, q, a, c);
  }

  /** A non-trivial connection starts with an edge. */
  lemma ReachesSplits<N(!new)>(edge: (N, N) -> bool, a: N, c: N) returns (b: N)
    requires Reaches(edge, a, c)
    ensures edge(a, b) && (b == c || Reaches(edge, b, c))
  {
    var p :| Leads(edge, p, a, c);
    b := p[1];
    assert edge(p[0], p[1]);
    if |p| > 2 {
      TailIsPath(edge, p);
      assert Leads(edge, p[1..], b, c);
    }
  }

  /** Every edge goes from a listed node to a node listed earlier. */
  ghost predicate Topological<N(!new)>(edge: (N, N) -> bool, order: seq<N>) {
    forall k, b :: 0 <= k < |order| && edge(order[k], b) ==> b in order[..k]
  }

  /** So does every connection. */
  lemma {:induction false} PathsGoBack<N(!new)>(edge: (N, N) -> bool, order: seq<N>, k: nat, b: N)
    requires Topological(edge, order) && k < |order| && Reaches(edge, order[k], b)
    ensures b in order[..k]
    decreases k
  {
    var c := ReachesSplits(edge, order[k], b);
    var j :| 0 <= j < k && order[j] == c;
    if b != c {
      PathsGoBack(edge, order, j, b);
    }
  }

  lemma {:induction false} NoListedCycle<N(!new)>(edge: (N, N) -> bool, order: seq<N>, k: nat)
    requires Topological(edge, order) && k < |order|
    ensures !Reaches(edge, order[k], order[k])
    decreases k
  {
    if Reaches(edge, order[k], order[k]) {
      PathsGoBack(edge, order, k, order[k]);
      var j :| 0 <= j < k && order[j] == order[k];
      NoListedCycle(edge, order, j);
    }
  }

  /** If every node with an outgoing edge is listed in topological order, nothing cycles. */
  lemma TopologicalIsAcyclic<N(!new)>(edge: (N, N) -> bool, order: seq<N>)
    requires Topological(edge, order)
    requires forall a, b :: edge(a, b) ==> a in order
    ensures !HasCycle(edge)
  {
    if HasCycle(edge) {
      var a :| Reaches(edge, a, a);
      var b := ReachesSplits(edge, a, a);
      var k :| 0 <= k < |order| && order[k] == a;
      NoListedCycle(edge, order, k);
    }
  }

  /** A rank that every edge lowers is lowered by every connection. */
  lemma {:induction false} RankFalls<N(!new)>(edge: (N, N) -> bool, rank: N -> int, p: seq<N>)
    requires forall a, b :: edge(a, b) ==> rank(b) < rank(a)
    requires IsPath(edge, p) && |p| >= 2
    ensures rank(p[|p| - 1]) < rank(p[0])
    decreases |p|
  {
    assert edge(p[0], p[1]);
    if |p| > 2 {
      TailIsPath(edge, p);
      RankFalls(edge, rank, p[1..]);
    }
  }

  lemma RankedIsAcyclic<N(!new)>(edge: (N, N) -> bool, rank: N -> int)
    requires forall a, b :: edge(a, b) ==> rank(b) < rank(a)
    ensures !HasCycle(edge)
  {
    forall a | Reaches(edge, a, a) ensures false {
      var p :| Leads(edge, p, a, a);
      RankFalls(edge, rank, p);
    }
  }
}
