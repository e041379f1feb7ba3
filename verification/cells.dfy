/** The reactor's data model: cells, errors, callback events, and the
    invariant that the reactor's operations keep. */
module Cells {

  /** Cells are numbered densely in creation order, as graph node indices are. */
  type CellId = nat

  /** Callback ids are drawn from one counter shared by every cell. */
  type CallbackId = nat

  datatype Option<+T> = None | Some(value: T)

  /** The error variants of the reactor, with their payloads. */
  datatype Error =
    | MissingCell(id: CellId)
    | ExpectedInputCell(id: CellId)
    | ExpectedComputedCell(id: CellId)
    | MissingDependencies(missing: seq<CellId>)
    | CallbackDoesntExist(callback: CallbackId)

  datatype Result<+R> = Ok(value: R) | Err(error: Error)

  /** An input cell holds a value set by the caller. A computed cell caches
      `compute` applied to the values of `deps` (in that order) and keeps the
      callbacks registered on it; a callback is represented by an opaque tag. */
  datatype Cell<!T, C> =
    | Input(value: T)
    | Computed(value: T, deps: seq<CellId>, compute: seq<T> -> T, callbacks: map<CallbackId, C>)

  /** The cells in creation order and the next callback id to hand out. */
  datatype Reactor<!T, C> = Reactor(cells: seq<Cell<T, C>>, nextCallback: CallbackId)

  /** One invocation of callback `callback` (the closure `tag`) registered on
      `cell`, receiving `value`. */
  datatype Event<T, C> = Event(cell: CellId, callback: CallbackId, tag: C, value: T)

  /** The state after an operation together with what the operation returned. */
  datatype Outcome<!T, C, R> = Outcome(state: Reactor<T, C>, result: Result<R>)

  /** The reactor with no cells and an unused callback counter. */
  function Empty<T, C>(): (r: Reactor<T, C>)
    ensures r.cells == [] && r.nextCallback == 0
    ensures Valid(r)
  {
    Reactor([], 0)
  }

  /** The dependency lists of all cells (an input cell has none): the
      edges of the dependency graph, indexed by the dependant. */
  function DepGraph<T, C>(cells: seq<Cell<T, C>>): (g: seq<seq<CellId>>)
    ensures |g| == |cells|
  {
    seq(|cells|, j requires 0 <= j < |cells| => if cells[j].Computed? then cells[j].deps else [])
  }

  /** Every dependency of a computed cell was created before it, so the
      dependency graph is acyclic and following edges always terminates. */
  ghost predicate DepsPrecede<T, C>(cells: seq<Cell<T, C>>) {
    forall j, k :: 0 <= j < |cells| && cells[j].Computed? && 0 <= k < |cells[j].deps| ==> cells[j].deps[k] < j
  }

  ghost predicate DepsExist<T, C>(cells: seq<Cell<T, C>>, deps: seq<CellId>) {
    forall i :: 0 <= i < |deps| ==> deps[i] < |cells|
  }

  /** The cached values of `deps`, in declared argument order. */
  function DepValues<T, C>(cells: seq<Cell<T, C>>, deps: seq<CellId>): (vs: seq<T>)
    requires DepsExist(cells, deps)
    ensures |vs| == |deps|
    ensures forall i :: 0 <= i < |deps| ==> vs[i] == cells[deps[i]].value
  {
    seq(|deps|, i requires 0 <= i < |deps| => cells[deps[i]].value)
  }

  /** Cell `j` exists and, if computed, caches its function of its dependencies' current values. */
  ghost predicate Consistent<T, C>(cells: seq<Cell<T, C>>, j: CellId) {
    && j < |cells|
    && (cells[j].Computed? ==>
          && DepsExist(cells, cells[j].deps)
          && cells[j].value == cells[j].compute(DepValues(cells, cells[j].deps)))
  }

  ghost predicate AllConsistent<T, C>(cells: seq<Cell<T, C>>) {
    forall j :: 0 <= j < |cells| ==> Consistent(cells, j)
  }

  /** The callbacks registered on cell `j`; none for an input or missing cell. */
  function Callbacks<T, C>(cells: seq<Cell<T, C>>, j: CellId): map<CallbackId, C> {
    if j < |cells| && cells[j].Computed? then cells[j].callbacks else map[]
  }

  /** `b` differs from `a` at most in cached values: kinds, dependencies,
      functions and callbacks are the same. */
  ghost predicate SameShape<T, C>(a: seq<Cell<T, C>>, b: seq<Cell<T, C>>) {
    && |a| == |b|
    && forall j :: 0 <= j < |a| ==> b[j] == a[j].(value := b[j].value)
  }

  /** The invariant the reactor's operations keep: the graph is acyclic by
      creation order, every computed cell is up to date, every registered
      callback id was issued by the counter, and no id is registered twice. */
  ghost predicate Valid<T, C>(r: Reactor<T, C>) {
    && DepsPrecede(r.cells)
    && AllConsistent(r.cells)
    && (forall j, k :: 0 <= j < |r.cells| && k in Callbacks(r.cells, j) ==> k < r.nextCallback)
    && (forall i, j, k :: 0 <= i < |r.cells| && 0 <= j < |r.cells| && k in Callbacks(r.cells, i) && k in Callbacks(r.cells, j) ==> i == j)
  }

  /** The cached value of cell `id`, or None when there is no such cell. */
  function Value<T, C>(r: Reactor<T, C>, id: CellId): (v: Option<T>)
    ensures v.None? <==> id >= |r.cells|
    ensures v.Some? ==> v.value == r.cells[id].value
  {
    if id < |r.cells| then Some(r.cells[id].value) else None
  }

  lemma ShapeKeepsGraph<T, C>(a: seq<Cell<T, C>>, b: seq<Cell<T, C>>)
    requires SameShape(a, b)
    ensures DepGraph(a) == DepGraph(b)
    ensures DepsPrecede(a) ==> DepsPrecede(b)
  {
    forall j | 0 <= j < |a|
      ensures DepGraph(a)[j] == DepGraph(b)[j]
    {
      assert b[j] == a[j].(value := b[j].value);
    }
    if DepsPrecede(a) {
      forall j, k | 0 <= j < |b| && b[j].Computed? && 0 <= k < |b[j].deps|
        ensures b[j].deps[k] < j
      {
        assert b[j] == a[j].(value := b[j].value);
      }
    }
  }

  lemma ShapeTransitive<T, C>(a: seq<Cell<T, C>>, b: seq<Cell<T, C>>, c: seq<Cell<T, C>>)
    requires SameShape(a, b) && SameShape(b, c)
    ensures SameShape(a, c)
  {
    forall j | 0 <= j < |a|
      ensures c[j] == a[j].(value := c[j].value)
    {
      assert b[j] == a[j].(value := b[j].value);
      assert c[j] == b[j].(value := c[j].value);
    }
  }

  /** Cells of the same shape carry the same callbacks, so a reactor stays
      valid when only its cached values move to another consistent state. */
  lemma ShapeKeepsValid<T, C>(r: Reactor<T, C>, b: seq<Cell<T, C>>)
    requires Valid(r) && SameShape(r.cells, b) && AllConsistent(b)
    ensures forall j :: 0 <= j < |b| ==> Callbacks(b, j) == Callbacks(r.cells, j)
    ensures Valid(Reactor(b, r.nextCallback))
  {
    forall j | 0 <= j < |b|
      ensures Callbacks(b, j) == Callbacks(r.cells, j)
    {
      assert b[j] == r.cells[j].(value := b[j].value);
    }
    ShapeKeepsGraph(r.cells, b);
  }

  /** Dependency values agree when the cells they read agree in value. */
  lemma DepValuesAgree<T, C>(a: seq<Cell<T, C>>, b: seq<Cell<T, C>>, deps: seq<CellId>)
    requires DepsExist(a, deps) && DepsExist(b, deps)
    requires forall i :: 0 <= i < |deps| ==> a[deps[i]].value == b[deps[i]].value
    ensures DepValues(a, deps) == DepValues(b, deps)
  {
  }
}
