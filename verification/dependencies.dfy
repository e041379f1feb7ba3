/** The backward walk over the dependency graph that finds every cell
    depending, directly or transitively, on a given cell. The graph is the
    sequence of dependency lists, indexed by the dependant. */
module Dependencies {

  import opened Cells

  /** Cell `j` reaches `id` by following one or more dependency edges:
      the reference meaning of "j transitively depends on id". */
  ghost predicate DependsOn(g: seq<seq<CellId>>, j: CellId, id: CellId)
    decreases j
  {
    j < |g| && exists d :: d in g[j] && d < j && (d == id || DependsOn(g, d, id))
  }

  /** `ds` lists only direct dependants of `id`, each created after it. */
  ghost predicate AreDependants(g: seq<seq<CellId>>, id: CellId, ds: seq<CellId>) {
    forall i :: 0 <= i < |ds| ==> id < ds[i] < |g| && id in g[ds[i]]
  }

  /** The dependants of `id` among cells `id+1 .. hi-1`, one entry per edge,
      in the order the incoming-edge walker yields them: most recently added
      edge first, so later cells first. */
  function IncomingBelow(g: seq<seq<CellId>>, id: CellId, hi: nat): (ds: seq<CellId>)
    requires hi <= |g|
    ensures AreDependants(g, id, ds)
    ensures forall j :: id < j < hi && id in g[j] ==> j in ds
    decreases hi
  {
    if hi <= id + 1 then []
    else
      var j := hi - 1;
      var edges := seq(multiset(g[j])[id], _ => j);
      assert id in g[j] ==> id in multiset(g[j]) && edges[0] == j;
      edges + IncomingBelow(g, id, j)
  }

  /** The cells holding an edge to `id`, in walker order. */
  function Incoming(g: seq<seq<CellId>>, id: CellId): seq<CellId> {
    IncomingBelow(g, id, |g|)
  }

  /** All cells that depend on `id`, directly and indirectly: each direct
      dependant together with everything found recursively from it. */
  function FindDeepDependenciesOn(g: seq<seq<CellId>>, id: CellId): (deep: set<CellId>)
    ensures forall j :: j in deep ==> id < j < |g| && |g[j]| > 0
    decreases |g| - id, 1, 0
  {
    FoundAlong(g, id, Incoming(g, id))
  }

  /** What the walk over the dependants `ds` of `id` collects. */
  function FoundAlong(g: seq<seq<CellId>>, id: CellId, ds: seq<CellId>): (deep: set<CellId>)
    requires AreDependants(g, id, ds)
    ensures forall j :: j in deep ==> id < j < |g| && |g[j]| > 0
    decreases |g| - id, 0, |ds|
  {
    if ds == [] then {}
    else {ds[0]} + FindDeepDependenciesOn(g, ds[0]) + FoundAlong(g, id, ds[1..])
  }

  lemma {:induction false} DependsOnTransitive(g: seq<seq<CellId>>, j: CellId, k: CellId, id: CellId)
    requires DependsOn(g, j, k) && DependsOn(g, k, id)
    ensures DependsOn(g, j, id)
    decreases j
  {
    var d :| d in g[j] && d < j && (d == k || DependsOn(g, d, k));
    if d != k {
      DependsOnTransitive(g, d, k, id);
    }
  }

  /** A path from `j` to `id` starts, at the `id` end, with a direct dependant `k` of `id`. */
  lemma {:induction false} FirstStep(g: seq<seq<CellId>>, j: CellId, id: CellId) returns (k: CellId)
    requires DependsOn(g, j, id)
    ensures id < k <= j < |g| && id in g[k]
    ensures k == j || DependsOn(g, j, k)
    decreases j
  {
    var d :| d in g[j] && d < j && (d == id || DependsOn(g, d, id));
    if d == id {
      k := j;
    } else {
      k := FirstStep(g, d, id);
    }
  }

  lemma {:induction false} FoundAlongContains(g: seq<seq<CellId>>, id: CellId, ds: seq<CellId>, k: CellId)
    requires AreDependants(g, id, ds) && k in ds
    ensures k in FoundAlong(g, id, ds)
    ensures FindDeepDependenciesOn(g, k) <= FoundAlong(g, id, ds)
    decreases |ds|
  {
    if ds[0] != k {
      FoundAlongContains(g, id, ds[1..], k);
    }
  }

  lemma {:induction false} DependsOnIsFound(g: seq<seq<CellId>>, j: CellId, id: CellId)
    requires DependsOn(g, j, id)
    ensures j in FindDeepDependenciesOn(g, id)
    decreases |g| - id
  {
    var k := FirstStep(g, j, id);
    if k != j {
      DependsOnIsFound(g, j, k);
    }
    FoundAlongContains(g, id, Incoming(g, id), k);
  }

  lemma {:induction false} FoundDependsOn(g: seq<seq<CellId>>, id: CellId, j: CellId)
    requires j in FindDeepDependenciesOn(g, id)
    ensures DependsOn(g, j, id)
    decreases |g| - id, 1, 0
  {
    FoundAlongDependsOn(g, id, Incoming(g, id), j);
  }

  lemma {:induction false} FoundAlongDependsOn(g: seq<seq<CellId>>, id: CellId, ds: seq<CellId>, j: CellId)
    requires AreDependants(g, id, ds) && j in FoundAlong(g, id, ds)
    ensures DependsOn(g, j, id)
    decreases |g| - id, 0, |ds|
  {
    var k := ds[0];
    if j == k || j in FindDeepDependenciesOn(g, k) {
      assert DependsOn(g, k, id);
      if j != k {
        FoundDependsOn(g, k, j);
        DependsOnTransitive(g, j, k, id);
      }
    } else {
      FoundAlongDependsOn(g, id, ds[1..], j);
    }
  }

  /** The walk finds exactly the cells that transitively depend on `id`,
      never `id` itself. */
  lemma FindDeepExact(g: seq<seq<CellId>>, id: CellId)
    ensures forall j :: j in FindDeepDependenciesOn(g, id) <==> DependsOn(g, j, id)
    ensures id !in FindDeepDependenciesOn(g, id)
  {
    forall j
      ensures j in FindDeepDependenciesOn(g, id) <==> DependsOn(g, j, id)
    {
      if j in FindDeepDependenciesOn(g, id) {
        FoundDependsOn(g, id, j);
      }
      if DependsOn(g, j, id) {
        DependsOnIsFound(g, j, id);
      }
    }
  }

  /** The affected region `{id}` plus its dependants is closed under
      dependants: a cell outside it has no dependency inside it. */
  lemma OutsideHasNoAffectedDeps<T, C>(cells: seq<Cell<T, C>>, id: CellId, k: CellId)
    requires DepsPrecede(cells)
    requires k < |cells| && k != id && k !in FindDeepDependenciesOn(DepGraph(cells), id)
    ensures var g := DepGraph(cells);
            forall d :: d in g[k] ==> d != id && d !in FindDeepDependenciesOn(g, id)
  {
    var g := DepGraph(cells);
    forall d | d in g[k]
      ensures d != id && d !in FindDeepDependenciesOn(g, id)
    {
      var p :| 0 <= p < |g[k]| && g[k][p] == d;
      assert g[k] == cells[k].deps;
      if d == id {
        assert DependsOn(g, k, id);
        DependsOnIsFound(g, k, id);
      } else if d in FindDeepDependenciesOn(g, id) {
        FoundDependsOn(g, id, d);
        assert DependsOn(g, k, d);
        DependsOnTransitive(g, k, d, id);
        DependsOnIsFound(g, k, id);
      }
    }
  }
}
