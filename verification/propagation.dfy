/** Change propagation: recomputing a cell and then, recursively, every
    cell that depends on it. */
module Propagation {

  import opened Cells
  import opened Dependencies
  import opened Evaluator

  /** Recomputes `id`, then walks its direct dependants, in the order the
      incoming-edge walker yields them, and updates each of them (and,
      recursively, their dependants) in turn. */
  function UpdateDependants<T, C>(cells: seq<Cell<T, C>>, id: CellId): (r: seq<Cell<T, C>>)
    requires DepsPrecede(cells) && id < |cells|
    ensures SameShape(cells, r)
    ensures forall k :: 0 <= k < |cells| && cells[k].Input? ==> r[k] == cells[k]
    decreases |cells| - id, 1, 0
  {
    var next := Recompute(cells, id);
    ShapeKeepsGraph(cells, next);
    var r := UpdateAlong(next, id, Incoming(DepGraph(next), id));
    ShapeTransitive(cells, next, r);
    r
  }

  /** The walk over the dependants `ds` of `id`. */
  function UpdateAlong<T, C>(cells: seq<Cell<T, C>>, id: CellId, ds: seq<CellId>): (r: seq<Cell<T, C>>)
    requires DepsPrecede(cells) && AreDependants(DepGraph(cells), id, ds)
    ensures SameShape(cells, r)
    ensures forall k :: 0 <= k < |cells| && cells[k].Input? ==> r[k] == cells[k]
    decreases |cells| - id, 0, |ds|
  {
    if ds == [] then cells
    else
      var next := UpdateDependants(cells, ds[0]);
      ShapeKeepsGraph(cells, next);
      var r := UpdateAlong(next, id, ds[1..]);
      ShapeTransitive(cells, next, r);
      r
  }

  /** `b` agrees with `a` on every cell outside `region`. */
  ghost predicate AgreeOutside<T, C>(a: seq<Cell<T, C>>, b: seq<Cell<T, C>>, region: set<CellId>) {
    |a| == |b| && forall k :: 0 <= k < |a| && k !in region ==> b[k] == a[k]
  }

  /** Every cell outside `region` consistent in `a` is still consistent in `b`. */
  ghost predicate KeepsConsistentOutside<T, C>(a: seq<Cell<T, C>>, b: seq<Cell<T, C>>, region: set<CellId>) {
    forall k :: 0 <= k < |a| && k !in region && Consistent(a, k) ==> Consistent(b, k)
  }

  ghost predicate ConsistentOn<T, C>(cells: seq<Cell<T, C>>, region: set<CellId>) {
    forall k :: k in region ==> Consistent(cells, k)
  }

  /** `b` results from `a` by an update confined to `region`: only cells of
      `region` change, all of them end consistent, and no other cell loses
      consistency. */
  ghost predicate UpdatedOn<T, C>(a: seq<Cell<T, C>>, b: seq<Cell<T, C>>, region: set<CellId>) {
    && AgreeOutside(a, b, region)
    && ConsistentOn(b, region)
    && KeepsConsistentOutside(a, b, region)
  }

  /** Two updates in a row change only the union of their regions and leave
      all of it consistent. */
  lemma Compose<T, C>(a: seq<Cell<T, C>>, b: seq<Cell<T, C>>, c: seq<Cell<T, C>>, first: set<CellId>, rest: set<CellId>)
    requires UpdatedOn(a, b, first) && UpdatedOn(b, c, rest)
    ensures UpdatedOn(a, c, first + rest)
  {
    forall k | k in first + rest
      ensures Consistent(c, k)
    {
      if k !in rest {
        assert Consistent(b, k);
      }
    }
  }

  /** Updating `id` changes only `id` and the cells depending on it, leaves
      all of them consistent, and keeps every other consistent cell consistent. */
  lemma {:induction false} UpdateDependantsCorrect<T, C>(cells: seq<Cell<T, C>>, id: CellId)
    requires DepsPrecede(cells) && id < |cells|
    ensures UpdatedOn(cells, UpdateDependants(cells, id), {id} + FindDeepDependenciesOn(DepGraph(cells), id))
    decreases |cells| - id, 1, 0
  {
    var g := DepGraph(cells);
    var next := Recompute(cells, id);
    ShapeKeepsGraph(cells, next);
    UpdateAlongCorrect(next, g, id, Incoming(g, id));
    RecomputeThenWalk(cells, g, id);
  }

  /** The step of `UpdateDependantsCorrect` after the walk over the dependants
      has been shown to be an update of exactly the deep dependants. */
  lemma RecomputeThenWalk<T, C>(cells: seq<Cell<T, C>>, g: seq<seq<CellId>>, id: CellId)
    requires DepsPrecede(cells) && id < |cells| && g == DepGraph(cells)
    requires UpdatedOn(Recompute(cells, id), UpdateAlong(Recompute(cells, id), id, Incoming(g, id)),
                       FindDeepDependenciesOn(g, id))
    ensures UpdatedOn(cells, UpdateDependants(cells, id), {id} + FindDeepDependenciesOn(g, id))
  {
    var deep := FindDeepDependenciesOn(g, id);
    var next := Recompute(cells, id);
    ShapeKeepsGraph(cells, next);
    var r := UpdateAlong(next, id, Incoming(g, id));
    assert r == UpdateDependants(cells, id);
    FindDeepExact(g, id);
    forall k | 0 <= k < |cells| && k !in {id} + deep && Consistent(cells, k)
      ensures Consistent(r, k)
    {
      OutsideHasNoAffectedDeps(cells, id, k);
      StaysConsistent(cells, next, k);
    }
    assert Consistent(r, id);
  }

  /** The walk over dependants `ds` of `id` updates exactly the cells it
      finds; `g` is the (unchanging) dependency graph. */
  lemma {:induction false} UpdateAlongCorrect<T, C>(cells: seq<Cell<T, C>>, g: seq<seq<CellId>>, id: CellId, ds: seq<CellId>)
    requires DepsPrecede(cells) && g == DepGraph(cells) && AreDependants(g, id, ds)
    ensures UpdatedOn(cells, UpdateAlong(cells, id, ds), FoundAlong(g, id, ds))
    decreases |cells| - id, 0, |ds|
  {
    if ds != [] {
      var k := ds[0];
      var next := UpdateDependants(cells, k);
      UpdateDependantsCorrect(cells, k);
      ShapeKeepsGraph(cells, next);
      UpdateAlongCorrect(next, g, id, ds[1..]);
      var r := UpdateAlong(next, id, ds[1..]);
      assert r == UpdateAlong(cells, id, ds);
      var first := {k} + FindDeepDependenciesOn(g, k);
      var rest := FoundAlong(g, id, ds[1..]);
      assert FoundAlong(g, id, ds) == first + rest;
      Compose(cells, next, r, first, rest);
    }
  }
}
