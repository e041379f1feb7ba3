/** Recomputing one cell from its dependencies' current values, and the
    facts about consistency that propagation relies on. */
module Evaluator {

  import opened Cells

  /** An outgoing edge of a computed cell: the dependency `target` sits at
      argument `position` of the compute function. */
  datatype Edge = Edge(position: nat, target: CellId)

  /** The edges the graph stores for cell `id`, one per declared dependency. */
  function OutEdges<T, C>(cells: seq<Cell<T, C>>, id: CellId): seq<Edge> {
    if id < |cells| && cells[id].Computed? then
      seq(|cells[id].deps|, p requires 0 <= p < |cells[id].deps| => Edge(p, cells[id].deps[p]))
    else []
  }

  /** Labels on a computed cell's edges are its argument positions `0..n-1`,
      each naming the dependency declared there. */
  lemma OutEdgesArePositions<T, C>(cells: seq<Cell<T, C>>, id: CellId)
    requires id < |cells| && cells[id].Computed?
    ensures forall e: Edge :: e in OutEdges(cells, id) <==> e.position < |cells[id].deps| && e.target == cells[id].deps[e.position]
  {
    var es := OutEdges(cells, id);
    forall e: Edge | e.position < |cells[id].deps| && e.target == cells[id].deps[e.position]
      ensures e in es
    {
      assert es[e.position] == e;
    }
  }

  /** The cell after recomputation: a computed cell takes its function of its
      dependencies' current values; an input cell keeps its value. */
  function Recompute<T, C>(cells: seq<Cell<T, C>>, id: CellId): (r: seq<Cell<T, C>>)
    requires DepsPrecede(cells) && id < |cells|
    ensures SameShape(cells, r)
    ensures forall k :: 0 <= k < |cells| && k != id ==> r[k] == cells[k]
    ensures cells[id].Input? ==> r == cells
    ensures Consistent(r, id)
  {
    if cells[id].Input? then cells
    else
      var c := cells[id];
      var r := cells[id := c.(value := c.compute(DepValues(cells, c.deps)))];
      DepValuesAgree(cells, r, c.deps);
      r
  }

  /** Every edge the walk yields is an edge of cell `id`. */
  lemma WalkedEdge<T, C>(cells: seq<Cell<T, C>>, id: CellId, walk: seq<Edge>, i: nat)
    requires multiset(walk) == multiset(OutEdges(cells, id)) && i < |walk|
    ensures id < |cells| && cells[id].Computed?
    ensures walk[i].position < |cells[id].deps| && walk[i].target == cells[id].deps[walk[i].position]
  {
    var es := OutEdges(cells, id);
    assert walk[i] in multiset(es);
    var p :| 0 <= p < |es| && es[p] == walk[i];
  }

  /** The walk yields an edge for every argument position of cell `id`. */
  lemma WalkCoversPositions<T, C>(cells: seq<Cell<T, C>>, id: CellId, walk: seq<Edge>, p: nat)
    requires multiset(walk) == multiset(OutEdges(cells, id))
    requires id < |cells| && cells[id].Computed? && p < |cells[id].deps|
    ensures exists j :: 0 <= j < |walk| && walk[j].position == p
  {
    var es := OutEdges(cells, id);
    assert es[p] in multiset(walk);
    var j :| 0 <= j < |walk| && walk[j] == es[p];
  }

  /** Recomputes cell `id`, reading its dependency values by walking its
      edges in the arbitrary order `walk` and putting each value back at the
      argument position its edge is labelled with. */
  method ComputeCellShallow<T, C>(cells: seq<Cell<T, C>>, id: CellId, walk: seq<Edge>)
      returns (cells': seq<Cell<T, C>>, res: Result<T>)
    requires DepsPrecede(cells)
    requires multiset(walk) == multiset(OutEdges(cells, id))
    ensures id >= |cells| ==> cells' == cells && res == Err(MissingCell(id))
    ensures id < |cells| ==> cells' == Recompute(cells, id) && res == Ok(cells'[id].value)
  {
    var byPosition: map<nat, T> := map[];
    var i := 0;
    while i < |walk|
      invariant 0 <= i <= |walk|
      invariant forall p :: p in byPosition ==>
                  id < |cells| && cells[id].Computed? && p < |cells[id].deps|
                  && byPosition[p] == cells[cells[id].deps[p]].value
      invariant forall j :: 0 <= j < i ==> walk[j].position in byPosition
    {
      WalkedEdge(cells, id, walk, i);
      var e := walk[i];
      byPosition := byPosition[e.position := cells[e.target].value];
      i := i + 1;
    }
    if id >= |cells| {
      return cells, Err(MissingCell(id));
    }
    if cells[id].Input? {
      return cells, Ok(cells[id].value);
    }
    var c := cells[id];
    forall p | 0 <= p < |c.deps|
      ensures p in byPosition
    {
      WalkCoversPositions(cells, id, walk, p);
    }
    // The map is ordered by position, so its values come out in argument order.
    var args := seq(|c.deps|, p requires 0 <= p < |c.deps| && p in byPosition => byPosition[p]);
    assert args == DepValues(cells, c.deps);
    var v := c.compute(args);
    cells' := cells[id := c.(value := v)];
    res := Ok(v);
  }

  /** Consistency of cell `k` survives a change elsewhere that leaves `k`
      and the cells it reads untouched. */
  lemma StaysConsistent<T, C>(a: seq<Cell<T, C>>, b: seq<Cell<T, C>>, k: CellId)
    requires |a| == |b| && Consistent(a, k) && b[k] == a[k]
    requires forall d :: d in DepGraph(a)[k] ==> b[d].value == a[d].value
    ensures Consistent(b, k)
  {
    if a[k].Computed? {
      assert DepGraph(a)[k] == a[k].deps;
      DepValuesAgree(a, b, a[k].deps);
    }
  }

  /** Recomputes every cell in creation order, starting at `lo`. */
  function RecomputeFrom<T, C>(cells: seq<Cell<T, C>>, lo: CellId): (r: seq<Cell<T, C>>)
    requires DepsPrecede(cells) && lo <= |cells|
    ensures SameShape(cells, r)
    ensures forall k :: 0 <= k < lo ==> r[k] == cells[k]
    ensures forall k :: 0 <= k < |cells| && cells[k].Input? ==> r[k] == cells[k]
    ensures forall k :: lo <= k < |cells| ==> Consistent(r, k)
    decreases |cells| - lo
  {
    if lo == |cells| then cells
    else
      var next := Recompute(cells, lo);
      ShapeKeepsGraph(cells, next);
      var r := RecomputeFrom(next, lo + 1);
      ShapeTransitive(cells, next, r);
      assert DepGraph(next)[lo] == DepGraph(cells)[lo];
      StaysConsistent(next, r, lo);
      r
  }

  /** The reference evaluation: every cell recomputed from scratch. */
  function FromScratch<T, C>(cells: seq<Cell<T, C>>): (r: seq<Cell<T, C>>)
    requires DepsPrecede(cells)
    ensures SameShape(cells, r) && AllConsistent(r)
    ensures forall k :: 0 <= k < |cells| && cells[k].Input? ==> r[k] == cells[k]
  {
    RecomputeFrom(cells, 0)
  }

  lemma {:induction false} ValuesAgreeBelow<T, C>(a: seq<Cell<T, C>>, b: seq<Cell<T, C>>, n: nat)
    requires SameShape(a, b) && DepsPrecede(a) && AllConsistent(a) && AllConsistent(b)
    requires forall k :: 0 <= k < |a| && a[k].Input? ==> b[k].value == a[k].value
    requires n <= |a|
    ensures forall k :: 0 <= k < n ==> b[k].value == a[k].value
    decreases n
  {
    if n > 0 {
      ValuesAgreeBelow(a, b, n - 1);
      var k := n - 1;
      assert b[k] == a[k].(value := b[k].value);
      if a[k].Computed? {
        assert Consistent(a, k) && Consistent(b, k);
        DepValuesAgree(a, b, a[k].deps);
      }
    }
  }

  /** Values of computed cells are determined by the input values: two
      all-consistent states of one graph that agree on every input are equal. */
  lemma ConsistentUnique<T, C>(a: seq<Cell<T, C>>, b: seq<Cell<T, C>>)
    requires SameShape(a, b) && DepsPrecede(a) && AllConsistent(a) && AllConsistent(b)
    requires forall k :: 0 <= k < |a| && a[k].Input? ==> b[k].value == a[k].value
    ensures a == b
  {
    ValuesAgreeBelow(a, b, |a|);
    forall k | 0 <= k < |a|
      ensures a[k] == b[k]
    {
      assert b[k] == a[k].(value := b[k].value);
    }
  }
}
