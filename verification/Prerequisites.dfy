/**
The prerequisites of the fixture recipes: the check of every row's own list, the
recursive cycle check over the whole graph, and the flattening of one row's prerequisites
into the order in which they are performed.
*/
module Prerequisites {
  import opened Graphs
  import opened Sequences

  /** `NoArray` is a recipe whose prerequisites are null or missing. */
  datatype Recipe = NoRecipe | NoArray | Requires(ids: seq<string>)

  datatype Row = Row(id: string, recipe: Recipe)

  datatype Problem =
    | MissingRecipe(row: string)
    | NotAUniqueArray(row: string)
    | InvalidPrerequisite(row: string, dependency: string)
    | MustPrecede(row: string, dependency: string)
    | PrerequisiteCycle(row: string)
    | Other(row: string, text: string)

  /** What the loop has to say about a recipe before and after it looks at the
      prerequisites: keys, page, role and fixtures first, the request boundary last. */
  datatype Elsewhere = Elsewhere(shape: Row -> seq<string>, boundary: Row -> seq<string>)

  // ----- Looking rows up -----

  /** The index a `Map` built from the rows gives for an id: the last one; -1 if none. */
  function LastIndex(rows: seq<Row>, id: string): (i: int)
    ensures -1 <= i < |rows| && (i >= 0 ==> rows[i].id == id)
  {
    if rows == [] then -1
    else if rows[|rows| - 1].id == id then |rows| - 1
    else LastIndex(rows[..|rows| - 1], id)
  }

  /** The index `find` gives: the first one; -1 if none. */
  function FirstIndex(rows: seq<Row>, id: string): (i: int)
    ensures -1 <= i < |rows| && (i >= 0 ==> rows[i].id == id)
  {
    if rows == [] then -1
    else
      var i := FirstIndex(rows[..|rows| - 1], id);
      if i >= 0 then i else if rows[|rows| - 1].id == id then |rows| - 1 else -1
  }

  function IdsAt(rows: seq<Row>, i: int): seq<string> {
    if 0 <= i < |rows| && rows[i].recipe.Requires? then rows[i].recipe.ids else []
  }

  /** The prerequisites the cycle check follows from an id. */
  function Prereqs(rows: seq<Row>, id: string): seq<string> { IdsAt(rows, LastIndex(rows, id)) }

  function Needs(rows: seq<Row>): (string, string) -> bool { (a, b) => b in Prereqs(rows, a) }

  /** The prerequisites the flattening follows from an id. */
  function FirstPrereqs(rows: seq<Row>, id: string): seq<string> { IdsAt(rows, FirstIndex(rows, id)) }

  function FirstNeeds(rows: seq<Row>): (string, string) -> bool { (a, b) => b in FirstPrereqs(rows, a) }

  // ----- The check of each row's own list -----

  /** The size of the set the ids form. */
  function SetSize(ids: seq<string>): nat {
    if ids == [] then 0
    else SetSize(ids[..|ids| - 1]) + if ids[|ids| - 1] in ids[..|ids| - 1] then 0 else 1
  }

  predicate Unique(ids: seq<string>) { SetSize(ids) == |ids| }

  lemma {:induction false} SetSizeIsAtMostLength(ids: seq<string>)
    ensures SetSize(ids) <= |ids|
  {
    if ids != [] {
      SetSizeIsAtMostLength(ids[..|ids| - 1]);
    }
  }

  /** The set is as large as the list exactly when nothing is listed twice. */
  lemma {:induction false} UniqueIffNoRepeats(ids: seq<string>)
    ensures Unique(ids) <==> NoRepeats(ids)
  {
    if ids != [] {
      var n := |ids| - 1;
      UniqueIffNoRepeats(ids[..n]);
      SetSizeIsAtMostLength(ids[..n]);
      if ids[n] in ids[..n] {
        var i :| 0 <= i < n && ids[..n][i] == ids[n];
        assert ids[i] == ids[n];
      } else {
        assert forall i :: 0 <= i < n ==> ids[..n][i] == ids[i];
      }
    }
  }

  function DependencyProblem(rows: seq<Row>, row: Row, dependency: string): seq<Problem> {
    if LastIndex(rows, dependency) < 0 || dependency == row.id then [InvalidPrerequisite(row.id, dependency)]
    else if LastIndex(rows, dependency) >= LastIndex(rows, row.id) then [MustPrecede(row.id, dependency)]
    else []
  }

  function ListProblems(rows: seq<Row>, row: Row, ids: seq<string>): seq<Problem> {
    if ids == [] then []
    else ListProblems(rows, row, ids[..|ids| - 1]) + DependencyProblem(rows, row, ids[|ids| - 1])
  }

  function PrerequisitesOf(rows: seq<Row>, row: Row): seq<Problem> {
    match row.recipe
    case Requires(ids) => if Unique(ids) then ListProblems(rows, row, ids) else [NotAUniqueArray(row.id)]
    case _ => [NotAUniqueArray(row.id)]
  }

  function Others(row: Row, texts: seq<string>): (problems: seq<Problem>)
    ensures |problems| == |texts|
  {
    seq(|texts|, i requires 0 <= i < |texts| => Other(row.id, texts[i]))
  }

  function RowProblems(rows: seq<Row>, rest: Elsewhere, row: Row): seq<Problem> {
    if row.recipe.NoRecipe? then [MissingRecipe(row.id)]
    else Others(row, rest.shape(row)) + PrerequisitesOf(rows, row) + Others(row, rest.boundary(row))
  }

  function ProblemsAt(rows: seq<Row>, rest: Elsewhere): nat -> seq<Problem> {
    (i: nat) => if i < |rows| then RowProblems(rows, rest, rows[i]) else []
  }

  function FirstOf(parts: nat -> seq<Problem>, n: nat): seq<Problem> {
    if n == 0 then [] else FirstOf(parts, n - 1) + parts(n - 1)
  }

  /** What the row loop has to say about the first `n` rows. */
  function AllProblems(rows: seq<Row>, rest: Elsewhere, n: nat): seq<Problem> {
    FirstOf(ProblemsAt(rows, rest), n)
  }

  lemma AllProblemsNext(rows: seq<Row>, rest: Elsewhere, n: nat)
    requires n < |rows|
    ensures AllProblems(rows, rest, n + 1) == AllProblems(rows, rest, n) + RowProblems(rows, rest, rows[n])
  {
  }

  /** The check of one list. */
  method CheckList(rows: seq<Row>, row: Row) returns (problems: seq<Problem>)
    ensures problems == PrerequisitesOf(rows, row)
  {
    if !row.recipe.Requires? || !Unique(row.recipe.ids) {
      return [NotAUniqueArray(row.id)];
    }
    var ids := row.recipe.ids;
    problems := [];
    for k := 0 to |ids|
      invariant problems == ListProblems(rows, row, ids[..k])
    {
      assert ids[..k + 1][..k] == ids[..k];
      var d := ids[k];
      if LastIndex(rows, d) < 0 || d == row.id {
        problems := problems + [InvalidPrerequisite(row.id, d)];
      } else if LastIndex(rows, d) >= LastIndex(rows, row.id) {
        problems := problems + [MustPrecede(row.id, d)];
      }
    }
    assert ids[..|ids|] == ids;
  }

  /** The row loop. */
  method OrderProblems(rows: seq<Row>, rest: Elsewhere) returns (problems: seq<Problem>)
    ensures problems == AllProblems(rows, rest, |rows|)
    ensures ListsExactly(problems, rows, rest)
  {
    problems := [];
    for i := 0 to |rows|
      invariant problems == AllProblems(rows, rest, i)
    {
      var row := rows[i];
      var found := [MissingRecipe(row.id)];
      if !row.recipe.NoRecipe? {
        var listed := CheckList(rows, row);
        found := Others(row, rest.shape(row)) + listed + Others(row, rest.boundary(row));
      }
      AllProblemsNext(rows, rest, i);
      problems := problems + found;
    }
    ReportedExactly(rows, rest);
  }

  /** The row has a list without repeats, and every entry names another row placed before
      it (by the rows' last positions, should ids repeat). */
  ghost predicate Sound(rows: seq<Row>, row: Row) {
    && row.recipe.Requires? && NoRepeats(row.recipe.ids)
    && (forall i :: 0 <= i < |row.recipe.ids| ==> Precedes(rows, row, row.recipe.ids[i]))
  }

  ghost predicate AllSound(rows: seq<Row>) {
    forall i {:trigger Sound(rows, rows[i])} :: 0 <= i < |rows| ==> Sound(rows, rows[i])
  }

  /** The entry names another row placed before `row`. */
  predicate Precedes(rows: seq<Row>, row: Row, d: string) {
    0 <= LastIndex(rows, d) < LastIndex(rows, row.id) && d != row.id
  }

  lemma BothEmpty(a: seq<Problem>, b: seq<Problem>)
    ensures a + b == [] <==> a == [] && b == []
  {
    assert |a + b| == |a| + |b|;
  }

  lemma {:induction false} CleanListIsSound(rows: seq<Row>, row: Row, ids: seq<string>)
    ensures ListProblems(rows, row, ids) == [] <==> forall i :: 0 <= i < |ids| ==> Precedes(rows, row, ids[i])
  {
    if ids != [] {
      var n := |ids| - 1;
      CleanListIsSound(rows, row, ids[..n]);
      assert DependencyProblem(rows, row, ids[n]) == [] <==> Precedes(rows, row, ids[n]);
      BothEmpty(ListProblems(rows, row, ids[..n]), DependencyProblem(rows, row, ids[n]));
    }
  }

  /** Nothing else is wrong with the row. */
  ghost predicate CleanElsewhere(rest: Elsewhere, row: Row) {
    rest.shape(row) == [] && rest.boundary(row) == []
  }

  lemma CleanPrerequisitesAreSound(rows: seq<Row>, row: Row)
    ensures PrerequisitesOf(rows, row) == [] <==> Sound(rows, row)
  {
    if row.recipe.Requires? {
      UniqueIffNoRepeats(row.recipe.ids);
      CleanListIsSound(rows, row, row.recipe.ids);
    }
  }

  lemma CleanRowIsSound(rows: seq<Row>, rest: Elsewhere, row: Row)
    ensures RowProblems(rows, rest, row) == [] <==> Sound(rows, row) && CleanElsewhere(rest, row)
  {
    CleanPrerequisitesAreSound(rows, row);
    if !row.recipe.NoRecipe? {
      var before, after := Others(row, rest.shape(row)), Others(row, rest.boundary(row));
      BothEmpty(before, PrerequisitesOf(rows, row));
      BothEmpty(before + PrerequisitesOf(rows, row), after);
    }
  }

  lemma {:induction false} EmptyParts(parts: nat -> seq<Problem>, n: nat)
    ensures FirstOf(parts, n) == [] <==> forall i: nat :: i < n ==> parts(i) == []
  {
    if n > 0 {
      EmptyParts(parts, n - 1);
      BothEmpty(FirstOf(parts, n - 1), parts(n - 1));
    }
  }

  ghost predicate AllCleanElsewhere(rows: seq<Row>, rest: Elsewhere) {
    forall i {:trigger CleanElsewhere(rest, rows[i])} :: 0 <= i < |rows| ==> CleanElsewhere(rest, rows[i])
  }

  /** The row loop finds nothing exactly when every row is sound and nothing else is wrong
      with any. */
  lemma CleanIffSound(rows: seq<Row>, rest: Elsewhere)
    ensures AllProblems(rows, rest, |rows|) == [] <==> AllSound(rows) && AllCleanElsewhere(rows, rest)
  {
    var parts := ProblemsAt(rows, rest);
    EmptyParts(parts, |rows|);
    forall i: nat | i < |rows|
      ensures parts(i) == [] <==> Sound(rows, rows[i]) && CleanElsewhere(rest, rows[i])
    {
      CleanRowIsSound(rows, rest, rows[i]);
    }
    if AllProblems(rows, rest, |rows|) == [] {
      forall i | 0 <= i < |rows| ensures Sound(rows, rows[i]) && CleanElsewhere(rest, rows[i]) {
        assert parts(i) == [];
      }
    }
  }

  lemma {:induction false} LastIndexIsLast(rows: seq<Row>, j: nat)
    requires j < |rows|
    ensures LastIndex(rows, rows[j].id) >= j
  {
    if rows[|rows| - 1].id != rows[j].id {
      LastIndexIsLast(rows[..|rows| - 1], j);
    }
  }

  /** The last position is the last one, and there is one exactly for a row's id. */
  lemma LastIndexIs(rows: seq<Row>, id: string)
    ensures LastIndex(rows, id) >= 0 <==> exists j :: 0 <= j < |rows| && rows[j].id == id
    ensures forall j :: 0 <= j < |rows| && rows[j].id == id ==> j <= LastIndex(rows, id)
  {
    forall j | 0 <= j < |rows| && rows[j].id == id ensures j <= LastIndex(rows, id) {
      LastIndexIsLast(rows, j);
    }
  }

  lemma {:induction false} FirstIndexIsFirst(rows: seq<Row>, j: nat)
    requires j < |rows|
    ensures 0 <= FirstIndex(rows, rows[j].id) <= j
  {
    if j < |rows| - 1 {
      FirstIndexIsFirst(rows[..|rows| - 1], j);
    }
  }

  ghost predicate Lists(row: Row, id: string) { row.recipe.Requires? && id in row.recipe.ids }

  /** `b` is listed by the row that nothing with the same id follows. */
  lemma NeedsIsTheLastRow(rows: seq<Row>, a: string, b: string)
    ensures Needs(rows)(a, b) <==> exists i :: 0 <= i < |rows| && rows[i].id == a && Lists(rows[i], b)
                                     && forall m :: i < m < |rows| ==> rows[m].id != a
  {
    LastIndexIs(rows, a);
    if i :| 0 <= i < |rows| && rows[i].id == a && Lists(rows[i], b) && forall m :: i < m < |rows| ==> rows[m].id != a {
      assert i == LastIndex(rows, a);
    }
  }

  /** `b` is listed by the row that nothing with the same id precedes. */
  lemma FirstNeedsIsTheFirstRow(rows: seq<Row>, a: string, b: string)
    ensures FirstNeeds(rows)(a, b) <==> exists i :: 0 <= i < |rows| && rows[i].id == a && Lists(rows[i], b)
                                          && forall m :: 0 <= m < i ==> rows[m].id != a
  {
    var f := FirstIndex(rows, a);
    if FirstNeeds(rows)(a, b) {
      forall m | 0 <= m < f ensures rows[m].id != a {
        if rows[m].id == a {
          FirstIndexIsFirst(rows, m);
        }
      }
    }
    if i :| 0 <= i < |rows| && rows[i].id == a && Lists(rows[i], b) && forall m :: 0 <= m < i ==> rows[m].id != a {
      FirstIndexIsFirst(rows, i);
      assert f == i;
    }
  }

  // ----- Which problems are reported -----

  ghost predicate IsRow(rows: seq<Row>, id: string) {
    exists j :: 0 <= j < |rows| && rows[j].id == id
  }

  /** Some row with id `d` is followed by none with id `id`. */
  ghost predicate StandsLast(rows: seq<Row>, d: string, id: string) {
    exists j :: 0 <= j < |rows| && rows[j].id == d && forall m :: j < m < |rows| ==> rows[m].id != id
  }

  ghost predicate ListsOnce(row: Row) { row.recipe.Requires? && NoRepeats(row.recipe.ids) }

  /** What it is for a row to have a problem. */
  ghost predicate Has(rows: seq<Row>, rest: Elsewhere, row: Row, p: Problem) {
    && p.row == row.id
    && match p
       case MissingRecipe(_) => row.recipe.NoRecipe?
       case NotAUniqueArray(_) => !row.recipe.NoRecipe? && !ListsOnce(row)
       case InvalidPrerequisite(_, d) => ListsOnce(row) && d in row.recipe.ids && (d == row.id || !IsRow(rows, d))
       case MustPrecede(_, d) =>
         ListsOnce(row) && d in row.recipe.ids && d != row.id && StandsLast(rows, d, row.id)
       case Other(_, text) => !row.recipe.NoRecipe? && (text in rest.shape(row) || text in rest.boundary(row))
       case PrerequisiteCycle(_) => false
  }

  ghost predicate SomeRowHas(rows: seq<Row>, rest: Elsewhere, p: Problem) {
    exists i :: 0 <= i < |rows| && Has(rows, rest, rows[i], p)
  }

  lemma OrderIsByLastRow(rows: seq<Row>, d: string, id: string)
    requires IsRow(rows, d) && IsRow(rows, id)
    ensures LastIndex(rows, d) >= LastIndex(rows, id) <==> StandsLast(rows, d, id)
  {
    LastIndexIs(rows, d);
    LastIndexIs(rows, id);
    if StandsLast(rows, d, id) {
      var j :| 0 <= j < |rows| && rows[j].id == d && forall m :: j < m < |rows| ==> rows[m].id != id;
      assert LastIndex(rows, id) <= j <= LastIndex(rows, d);
    }
    if LastIndex(rows, d) >= LastIndex(rows, id) {
      var j := LastIndex(rows, d);
      assert rows[j].id == d && forall m :: j < m < |rows| ==> rows[m].id != id;
    }
  }

  lemma DependencyProblemIs(rows: seq<Row>, row: Row, d: string, p: Problem)
    requires row in rows
    ensures p in DependencyProblem(rows, row, d) <==>
      || (p == InvalidPrerequisite(row.id, d) && (d == row.id || !IsRow(rows, d)))
      || (p == MustPrecede(row.id, d) && d != row.id && StandsLast(rows, d, row.id))
  {
    assert IsRow(rows, row.id) by {
      var i :| 0 <= i < |rows| && rows[i] == row;
      assert rows[i].id == row.id;
    }
    LastIndexIs(rows, d);
    if IsRow(rows, d) {
      OrderIsByLastRow(rows, d, row.id);
    }
  }

  lemma {:induction false} ListProblemsAre(rows: seq<Row>, row: Row, ids: seq<string>, p: Problem)
    requires row in rows
    ensures p in ListProblems(rows, row, ids) <==>
      || (p.InvalidPrerequisite? && p.row == row.id && p.dependency in ids && (p.dependency == row.id || !IsRow(rows, p.dependency)))
      || (p.MustPrecede? && p.row == row.id && p.dependency in ids && p.dependency != row.id
          && StandsLast(rows, p.dependency, row.id))
  {
    if ids != [] {
      var n := |ids| - 1;
      ListProblemsAre(rows, row, ids[..n], p);
      DependencyProblemIs(rows, row, ids[n], p);
      assert ids == ids[..n] + [ids[n]];
    }
  }

  lemma OthersAre(row: Row, texts: seq<string>, p: Problem)
    ensures p in Others(row, texts) <==> p.Other? && p.row == row.id && p.text in texts
  {
    if p.Other? && p.row == row.id && p.text in texts {
      var i :| 0 <= i < |texts| && texts[i] == p.text;
      assert Others(row, texts)[i] == p;
    }
    if p in Others(row, texts) {
      var i :| 0 <= i < |texts| && Others(row, texts)[i] == p;
      assert texts[i] == p.text;
    }
  }

  lemma RowProblemsAre(rows: seq<Row>, rest: Elsewhere, row: Row, p: Problem)
    requires row in rows
    ensures p in RowProblems(rows, rest, row) <==> Has(rows, rest, row, p)
  {
    OthersAre(row, rest.shape(row), p);
    OthersAre(row, rest.boundary(row), p);
    if row.recipe.Requires? {
      UniqueIffNoRepeats(row.recipe.ids);
      ListProblemsAre(rows, row, row.recipe.ids, p);
    }
  }

  lemma {:induction false} PartsHave(parts: nat -> seq<Problem>, n: nat, p: Problem)
    ensures p in FirstOf(parts, n) <==> exists i: nat :: i < n && p in parts(i)
  {
    if n > 0 {
      PartsHave(parts, n - 1, p);
    }
  }

  /** The row loop reports a problem if and only if some row has it. */
  lemma ReportedIffThere(rows: seq<Row>, rest: Elsewhere, p: Problem)
    ensures p in AllProblems(rows, rest, |rows|) <==> SomeRowHas(rows, rest, p)
  {
    var parts := ProblemsAt(rows, rest);
    PartsHave(parts, |rows|, p);
    forall i: nat | i < |rows| ensures p in parts(i) <==> Has(rows, rest, rows[i], p) {
      RowProblemsAre(rows, rest, rows[i], p);
    }
    if i :| 0 <= i < |rows| && Has(rows, rest, rows[i], p) {
      assert p in parts(i);
    }
  }

  /** The list holds a problem if and only if some row has it. */
  ghost predicate ListsExactly(problems: seq<Problem>, rows: seq<Row>, rest: Elsewhere) {
    forall p :: p in problems <==> SomeRowHas(rows, rest, p)
  }

  lemma ReportedExactly(rows: seq<Row>, rest: Elsewhere)
    ensures ListsExactly(AllProblems(rows, rest, |rows|), rows, rest)
  {
    forall p
      ensures p in AllProblems(rows, rest, |rows|) <==> SomeRowHas(rows, rest, p)
    {
      ReportedIffThere(rows, rest, p);
    }
  }

  // ----- The recursive cycle check -----

  /** Everything the check can meet: the rows' ids and whatever they list. */
  ghost function Ids(rows: seq<Row>): set<string> {
    (set row | row in rows :: row.id) + (set i, d | 0 <= i < |rows| && d in IdsAt(rows, i) :: d)
  }

  class CycleFinder {
    const rows: seq<Row>
    var visiting: set<string>
    var visited: set<string>
    var cycles: seq<string>
    /** The visited ids in the order in which their visits ended. */
    ghost var order: seq<string>

    ghost predicate Valid()
      reads this
    {
      && visiting <= Ids(rows)
      && (forall id :: id in visited <==> id in order)
      && (cycles == [] ==> Topological(Needs(rows), order))
      && (forall i :: 0 <= i < |cycles| ==> Reaches(Needs(rows), cycles[i], cycles[i]))
    }

    constructor (rows: seq<Row>)
      ensures Valid() && this.rows == rows && visiting == {} && cycles == []
    {
      this.rows := rows;
      visiting, visited, cycles, order := {}, {}, [], [];
    }

    /** `stack` is the chain of visits in progress, from the row the search started at. */
    ghost predicate OnStack(stack: seq<string>)
      reads this
    {
      && (forall id :: id in visiting <==> id in stack)
      && (stack != [] ==> IsPath(Needs(rows), stack))
    }

    method Visit(id: string, ghost stack: seq<string>)
      requires Valid() && OnStack(stack) && id in Ids(rows)
      requires stack != [] ==> Needs(rows)(stack[|stack| - 1], id)
      modifies this
      ensures Valid() && visiting == old(visiting)
      ensures old(order) <= order && old(cycles) <= cycles
      ensures cycles == [] ==> id in order
      decreases Ids(rows) - visiting
    {
      if id in visiting {
        StackCloses(Needs(rows), stack, id);
        cycles := cycles + [id];
        return;
      }
      if id in visited { return; }
      visiting := visiting + {id};
      var dependencies := Prereqs(rows, id);
      ghost var deeper := stack + [id];
      for k := 0 to |dependencies|
        invariant Valid() && visiting == old(visiting) + {id}
        invariant old(order) <= order && old(cycles) <= cycles
        invariant cycles == [] ==> forall j :: 0 <= j < k ==> dependencies[j] in order
      {
        StackExtends(Needs(rows), stack, id);
        ListedIsKnown(rows, id, dependencies[k]);
        Visit(dependencies[k], deeper);
      }
      visiting := visiting - {id};
      visited := visited + {id};
      FinishedExtends(Needs(rows), order, id);
      order := order + [id];
    }

    /** The outer loop over all rows. */
    method VisitAll()
      requires Valid() && visiting == {} && cycles == []
      modifies this
      ensures Valid() && visiting == {}
      ensures cycles == [] <==> !HasCycle(Needs(rows))
    {
      for i := 0 to |rows|
        invariant Valid() && visiting == {}
        invariant cycles == [] ==> forall j :: 0 <= j < i ==> rows[j].id in order
      {
        Visit(rows[i].id, []);
      }
      if cycles == [] {
        forall a, b | Needs(rows)(a, b) ensures a in order {
          assert rows[LastIndex(rows, a)].id == a;
        }
        TopologicalIsAcyclic(Needs(rows), order);
      } else {
        assert Reaches(Needs(rows), cycles[0], cycles[0]);
      }
    }
  }

  lemma ListedIsKnown(rows: seq<Row>, id: string, dependency: string)
    requires dependency in Prereqs(rows, id)
    ensures dependency in Ids(rows)
  {
    var i := LastIndex(rows, id);
    assert dependency in IdsAt(rows, i);
  }

  lemma StackExtends(edge: (string, string) -> bool, stack: seq<string>, id: string)
    requires stack != [] ==> IsPath(edge, stack) && edge(stack[|stack| - 1], id)
    ensures IsPath(edge, stack + [id])
  {
  }

  lemma StackCloses(edge: (string, string) -> bool, stack: seq<string>, id: string)
    requires stack != [] && IsPath(edge, stack) && edge(stack[|stack| - 1], id) && id in stack
    ensures Reaches(edge, id, id)
  {
    var k :| 0 <= k < |stack| && stack[k] == id;
    StackExtends(edge, stack, id);
    var p := (stack + [id])[k..];
    forall i | 0 <= i < |p| - 1 ensures edge(p[i], p[i + 1]) {
      var j := k + i;
      assert edge((stack + [id])[j], (stack + [id])[j + 1]);
    }
    assert Leads(edge, p, id, id);
  }

  lemma FinishedExtends(edge: (string, string) -> bool, order: seq<string>, id: string)
    ensures Topological(edge, order) && (forall b :: edge(id, b) ==> b in order) ==> Topological(edge, order + [id])
  {
    var all := order + [id];
    assert all[..|order|] == order;
    assert forall k :: 0 <= k < |order| ==> all[..k] == order[..k];
  }

  lemma SoundAt(rows: seq<Row>, i: int, d: string)
    requires AllSound(rows) && d in IdsAt(rows, i)
    ensures 0 <= LastIndex(rows, d) < LastIndex(rows, rows[i].id)
  {
    assert Sound(rows, rows[i]);
    var ids := rows[i].recipe.ids;
    var j :| 0 <= j < |ids| && ids[j] == d;
    assert Precedes(rows, rows[i], ids[j]);
  }

  /** In a clean order every prerequisite's last position precedes its row's. */
  lemma CleanOrderIsRanked(rows: seq<Row>)
    requires AllSound(rows)
    ensures forall a, b :: Needs(rows)(a, b) ==> LastIndex(rows, b) < LastIndex(rows, a)
    ensures forall a, b :: FirstNeeds(rows)(a, b) ==> 0 <= LastIndex(rows, b) < LastIndex(rows, a)
  {
    forall a, b | Needs(rows)(a, b) ensures LastIndex(rows, b) < LastIndex(rows, a) {
      SoundAt(rows, LastIndex(rows, a), b);
    }
    forall a, b | FirstNeeds(rows)(a, b) ensures 0 <= LastIndex(rows, b) < LastIndex(rows, a) {
      SoundAt(rows, FirstIndex(rows, a), b);
    }
  }

  /** The check reports a cycle if and only if there is one, whatever the rows; every id it
      reports lies on a cycle; and it reports nothing at all exactly for sound rows. */
  method PrerequisiteProblems(rows: seq<Row>, rest: Elsewhere) returns (problems: seq<Problem>)
    ensures AllProblems(rows, rest, |rows|) <= problems
    ensures forall i :: |AllProblems(rows, rest, |rows|)| <= i < |problems| ==>
      problems[i].PrerequisiteCycle? && Reaches(Needs(rows), problems[i].row, problems[i].row)
    ensures HasCycle(Needs(rows)) <==> |problems| > |AllProblems(rows, rest, |rows|)|
    ensures problems == [] <==> AllSound(rows) && AllCleanElsewhere(rows, rest)
  {
    problems := OrderProblems(rows, rest);
    ghost var ordered := problems;
    CleanIffSound(rows, rest);
    var finder := new CycleFinder(rows);
    finder.VisitAll();
    if AllSound(rows) {
      CleanOrderHasNoCycle(rows);
    }
    for i := 0 to |finder.cycles|
      invariant |problems| == |ordered| + i && ordered <= problems
      invariant forall j :: |ordered| <= j < |problems| ==>
        problems[j].PrerequisiteCycle? && Reaches(Needs(rows), problems[j].row, problems[j].row)
    {
      problems := problems + [PrerequisiteCycle(finder.cycles[i])];
    }
  }

  /** Rows that are sound have no cycle, so none is ever reported for them. */
  lemma CleanOrderHasNoCycle(rows: seq<Row>)
    requires AllSound(rows)
    ensures !HasCycle(Needs(rows)) && !HasCycle(FirstNeeds(rows))
  {
    CleanOrderIsRanked(rows);
    RankedIsAcyclic(Needs(rows), id => LastIndex(rows, id));
    RankedIsAcyclic(FirstNeeds(rows), id => LastIndex(rows, id));
  }

  // ----- Flattening -----

  /** `x` is one of `ids` or is needed, directly or not, by one of them. */
  ghost predicate InClosure(rows: seq<Row>, ids: seq<string>, x: string) {
    exists i :: 0 <= i < |ids| && (ids[i] == x || Reaches(FirstNeeds(rows), ids[i], x))
  }

  lemma ClosureOfOne(rows: seq<Row>, id: string, x: string)
    ensures InClosure(rows, FirstPrereqs(rows, id), x) <==> Reaches(FirstNeeds(rows), id, x)
  {
    var edge, ids := FirstNeeds(rows), FirstPrereqs(rows, id);
    if InClosure(rows, ids, x) {
      var i :| 0 <= i < |ids| && (ids[i] == x || Reaches(edge, ids[i], x));
      assert edge(id, ids[i]);
      if ids[i] == x {
        EdgeReaches(edge, id, x);
      } else {
        StepReaches(edge, id, ids[i], x);
      }
    }
    if Reaches(edge, id, x) {
      var b := ReachesSplits(edge, id, x);
      var i :| 0 <= i < |ids| && ids[i] == b;
    }
  }

  class Flattener {
    const rows: seq<Row>
    var dependencies: seq<string>

    ghost predicate Valid()
      reads this
    {
      && AllSound(rows)
      && NoRepeats(dependencies)
      && Topological(FirstNeeds(rows), dependencies)
    }

    constructor (rows: seq<Row>)
      requires AllSound(rows)
      ensures Valid() && this.rows == rows && dependencies == []
    {
      this.rows, dependencies := rows, [];
    }

    /** The dependencies now are those from before and the closure of `ids`. */
    twostate predicate Gained(ids: seq<string>)
      reads this
    {
      && old(dependencies) <= dependencies
      && forall x :: x in dependencies <==> x in old(dependencies) || InClosure(rows, ids, x)
    }

    method AddDependency(id: string)
      requires Valid() && LastIndex(rows, id) >= 0
      modifies this
      ensures Valid() && Gained([id])
      decreases LastIndex(rows, id), 1
    {
      CleanOrderIsRanked(rows);
      var nested := FirstPrereqs(rows, id);
      assert forall d :: d in nested ==> FirstNeeds(rows)(id, d);
      AddAll(nested, LastIndex(rows, id));
      forall x ensures InClosure(rows, [id], x) <==> x == id || InClosure(rows, nested, x) {
        ClosureOfOne(rows, id, x);
        assert [id][0] == id;
      }
      forall b | FirstNeeds(rows)(id, b) ensures b in dependencies {
        var i :| 0 <= i < |nested| && nested[i] == b;
        assert InClosure(rows, nested, b);
      }
      if id !in dependencies {
        FinishedExtends(FirstNeeds(rows), dependencies, id);
        dependencies := dependencies + [id];
      }
    }

    method AddAll(ids: seq<string>, ghost bound: int)
      requires Valid() && bound >= 0
      requires forall d :: d in ids ==> 0 <= LastIndex(rows, d) < bound
      modifies this
      ensures Valid() && Gained(ids)
      decreases bound, 0
    {
      label start:
      for k := 0 to |ids|
        invariant Valid() && old(dependencies) <= dependencies
        invariant forall x :: x in dependencies <==> x in old(dependencies) || InClosure(rows, ids[..k], x)
      {
        forall x ensures InClosure(rows, ids[..k + 1], x) <==> InClosure(rows, ids[..k], x) || InClosure(rows, [ids[k]], x) {
          ClosureSplits(rows, ids, k, x);
        }
        AddDependency(ids[k]);
      }
      assert ids[..|ids|] == ids;
    }
  }

  lemma ClosureSplits(rows: seq<Row>, ids: seq<string>, k: nat, x: string)
    requires k < |ids|
    ensures InClosure(rows, ids[..k + 1], x) <==> InClosure(rows, ids[..k], x) || InClosure(rows, [ids[k]], x)
  {
    var more, fewer, one := ids[..k + 1], ids[..k], [ids[k]];
    if InClosure(rows, more, x) {
      var i :| 0 <= i < |more| && (more[i] == x || Reaches(FirstNeeds(rows), more[i], x));
      assert if i < k then fewer[i] == more[i] else one[0] == more[i];
    }
    if InClosure(rows, fewer, x) {
      var i :| 0 <= i < |fewer| && (fewer[i] == x || Reaches(FirstNeeds(rows), fewer[i], x));
      assert more[i] == fewer[i];
    }
    if InClosure(rows, one, x) {
      assert more[k] == one[0];
    }
  }

  /** The flattened list of the row at index `at` has no repeats, holds exactly the
      transitive closure of the row's prerequisites, places every entry after all of its
      own prerequisites, and does not hold the row itself. */
  method Flatten(rows: seq<Row>, at: nat) returns (dependencies: seq<string>)
    requires AllSound(rows) && at < |rows|
    ensures NoRepeats(dependencies)
    ensures forall x :: x in dependencies <==> InClosure(rows, IdsAt(rows, at), x)
    ensures Topological(FirstNeeds(rows), dependencies)
    ensures rows[at].id !in dependencies
  {
    LastIndexIsLast(rows, at);
    var flattener := new Flattener(rows);
    var ids := IdsAt(rows, at);
    forall d | d in ids ensures 0 <= LastIndex(rows, d) < LastIndex(rows, rows[at].id) {
      SoundAt(rows, at, d);
    }
    flattener.AddAll(ids, LastIndex(rows, rows[at].id));
    dependencies := flattener.dependencies;
    ClosureIsBefore(rows, at);
  }

  lemma ClosureIsBefore(rows: seq<Row>, at: nat)
    requires AllSound(rows) && at < |rows|
    ensures !InClosure(rows, IdsAt(rows, at), rows[at].id)
  {
    CleanOrderIsRanked(rows);
    var edge, rank, ids := FirstNeeds(rows), (id: string) => LastIndex(rows, id), IdsAt(rows, at);
    forall i | 0 <= i < |ids|
      ensures ids[i] != rows[at].id && !Reaches(edge, ids[i], rows[at].id)
    {
      SoundAt(rows, at, ids[i]);
      if Reaches(edge, ids[i], rows[at].id) {
        var p :| Leads(edge, p, ids[i], rows[at].id);
        RankFalls(edge, rank, p);
      }
    }
  }
}
