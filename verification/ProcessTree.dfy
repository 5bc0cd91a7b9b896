/**
The worklist that collects the descendants of a process from the process table, so that
they can be killed children first.
*/
module ProcessTree {
  import opened Graphs
  import opened Sequences

  datatype Process = Process(pid: int, parent: int)

  function ParentOf(table: seq<Process>): (int, int) -> bool {
    (parent, pid) => Process(pid, parent) in table
  }

  function Pids(table: seq<Process>): set<int> { set p | p in table :: p.pid }

  /** Everything found has its parent among the root and what was found before it. */
  ghost predicate ParentsFirst(table: seq<Process>, root: int, found: seq<int>) {
    forall k :: 0 <= k < |found| ==> HasParent(table, [root] + found[..k], found[k])
  }

  ghost predicate HasParent(table: seq<Process>, candidates: seq<int>, pid: int) {
    exists j :: 0 <= j < |candidates| && ParentOf(table)(candidates[j], pid)
  }

  /** `x` has been dealt with: its children are all found. */
  ghost predicate Explored(table: seq<Process>, found: seq<int>, x: int) {
    forall y :: ParentOf(table)(x, y) ==> y in found
  }

  /** What the worklist keeps true: nothing is found twice, everything found descends from
      the root, and whatever is not pending is explored. */
  ghost predicate Sound(table: seq<Process>, root: int, found: seq<int>) {
    && NoRepeats(found)
    && (forall x :: x in found ==> Reaches(ParentOf(table), root, x) && x in Pids(table))
    && ParentsFirst(table, root, found)
  }

  lemma FoundMore(table: seq<Process>, root: int, found: seq<int>, parent: int, pid: int)
    requires Sound(table, root, found) && ParentOf(table)(parent, pid)
    requires (parent == root || parent in found) && pid !in found
    ensures Sound(table, root, found + [pid])
  {
    var more := found + [pid];
    if parent == root {
      EdgeReaches(ParentOf(table), root, pid);
    }
    if parent in found {
      ReachesStep(ParentOf(table), root, parent, pid);
    }
    forall k | 0 <= k < |more|
      ensures HasParent(table, [root] + more[..k], more[k])
    {
      if k < |found| {
        assert more[..k] == found[..k];
      } else {
        var candidates := [root] + found;
        assert candidates[0] == root && candidates[1..] == found;
        assert parent in candidates;
        var j :| 0 <= j < |candidates| && candidates[j] == parent;
        assert more[..k] == found;
        assert ParentOf(table)(candidates[j], pid);
      }
    }
  }

  lemma {:induction false} ExploredHoldsAll(table: seq<Process>, found: seq<int>, a: int, p: seq<int>)
    requires IsPath(ParentOf(table), p) && p[0] == a && |p| >= 2
    requires Explored(table, found, a) && forall x :: x in found ==> Explored(table, found, x)
    ensures p[|p| - 1] in found
    decreases |p|
  {
    assert ParentOf(table)(p[0], p[1]);
    if |p| > 2 {
      TailIsPath(ParentOf(table), p);
      ExploredHoldsAll(table, found, p[1], p[1..]);
    }
  }

  lemma ExploredIsComplete(table: seq<Process>, root: int, found: seq<int>)
    requires Explored(table, found, root) && forall x :: x in found ==> Explored(table, found, x)
    ensures forall x :: Reaches(ParentOf(table), root, x) ==> x in found
  {
    forall x | Reaches(ParentOf(table), root, x) ensures x in found {
      var p :| Leads(ParentOf(table), p, root, x);
      ExploredHoldsAll(table, found, root, p);
    }
  }

  ghost function Elements(s: seq<int>): set<int> { set x | x in s }

  /** One pass over the table for one parent. */
  method AddChildren(table: seq<Process>, ghost root: int, parent: int, found0: seq<int>, pending0: seq<int>)
    returns (found: seq<int>, pending: seq<int>)
    requires Sound(table, root, found0) && (parent == root || parent in found0)
    ensures Sound(table, root, found) && found0 <= found && pending == pending0 + found[|found0|..]
    ensures Explored(table, found, parent)
  {
    found, pending := found0, pending0;
    for k := 0 to |table|
      invariant Sound(table, root, found) && found0 <= found && pending == pending0 + found[|found0|..]
      invariant forall j :: 0 <= j < k && table[j].parent == parent ==> table[j].pid in found
    {
      var p := table[k];
      if p.parent != parent || p.pid in found { continue; }
      assert p == Process(p.pid, parent) && p in table;
      FoundMore(table, root, found, parent, p.pid);
      found := found + [p.pid];
      pending := pending + [p.pid];
    }
  }

  /** The result lists exactly the descendants of `root`, none of them twice and each after
      its parent, even if the table has cycles. */
  method ProcessDescendants(table: seq<Process>, root: int) returns (found: seq<int>)
    ensures NoRepeats(found)
    ensures forall x :: x in found <==> Reaches(ParentOf(table), root, x)
    ensures ParentsFirst(table, root, found)
  {
    found := [];
    var pending := [root];
    while pending != []
      invariant Sound(table, root, found)
      invariant forall x :: x in pending ==> x == root || x in found
      invariant forall x :: x == root || x in found ==> x in pending || Explored(table, found, x)
      decreases Pids(table) - Elements(found), |pending|
    {
      var last := |pending| - 1;
      var parent, rest := pending[last], pending[..last];
      ghost var before := found;
      assert forall x :: x in pending <==> x in rest || x == parent;
      found, pending := AddChildren(table, root, parent, found, rest);
      Progress(table, root, before, found, rest, pending);
    }
    ExploredIsComplete(table, root, found);
  }

  lemma Progress(table: seq<Process>, root: int, before: seq<int>, found: seq<int>, rest: seq<int>, pending: seq<int>)
    requires Sound(table, root, found) && before <= found && pending == rest + found[|before|..]
    ensures forall x :: x in pending <==> x in rest || x in found[|before|..]
    ensures forall x :: x in found <==> x in before || x in found[|before|..]
    ensures forall x :: Explored(table, before, x) ==> Explored(table, found, x)
    ensures found == before || Pids(table) - Elements(found) < Pids(table) - Elements(before)
    ensures found == before ==> pending == rest
  {
    assert found == before + found[|before|..];
    if found != before {
      var x := found[|before|];
      assert x in Pids(table) && x !in before;
      assert x in Pids(table) - Elements(before) && x !in Pids(table) - Elements(found);
    }
  }
}
