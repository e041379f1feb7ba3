/** Callbacks on computed cells: registering, removing and invoking them.
    A callback is an opaque tag; invoking the callbacks of a cell yields one
    event per registered callback instead of running a closure. */
module Registry {

  import opened Cells

  /** The cells with the callbacks of computed cell `j` replaced by `cbs`. */
  function WithCallbacks<T, C>(cells: seq<Cell<T, C>>, j: CellId, cbs: map<CallbackId, C>): (b: seq<Cell<T, C>>)
    requires j < |cells| && cells[j].Computed?
    ensures |b| == |cells| && b[j].Computed? && Callbacks(b, j) == cbs
    ensures b[j].deps == cells[j].deps && b[j].compute == cells[j].compute
    ensures forall k :: 0 <= k < |cells| && k != j ==> b[k] == cells[k]
    ensures forall k :: 0 <= k < |cells| ==> b[k].value == cells[k].value
  {
    cells[j := cells[j].(callbacks := cbs)]
  }

  /** Replacing a cell's callbacks touches neither the graph nor any value,
      so the ordering and consistency of the cells survive it. */
  lemma CallbacksAreInert<T, C>(cells: seq<Cell<T, C>>, j: CellId, cbs: map<CallbackId, C>)
    requires j < |cells| && cells[j].Computed?
    ensures DepGraph(WithCallbacks(cells, j, cbs)) == DepGraph(cells)
    ensures DepsPrecede(cells) ==> DepsPrecede(WithCallbacks(cells, j, cbs))
    ensures AllConsistent(cells) ==> AllConsistent(WithCallbacks(cells, j, cbs))
  {
    var b := WithCallbacks(cells, j, cbs);
    assert forall k :: 0 <= k < |cells| ==> DepGraph(b)[k] == DepGraph(cells)[k];
    if AllConsistent(cells) {
      forall k | 0 <= k < |b|
        ensures Consistent(b, k)
      {
        assert Consistent(cells, k);
        if b[k].Computed? {
          DepValuesAgree(cells, b, b[k].deps);
        }
      }
    }
  }

  /** Registers `tag` on computed cell `cell` under the next callback id. */
  function AddCallback<T, C>(r: Reactor<T, C>, cell: CellId, tag: C): (o: Outcome<T, C, CallbackId>)
    ensures cell >= |r.cells| ==> o == Outcome(r, Err(MissingCell(cell)))
    ensures cell < |r.cells| && r.cells[cell].Input? ==> o == Outcome(r, Err(ExpectedComputedCell(cell)))
    ensures cell < |r.cells| && r.cells[cell].Computed? ==>
              && o.result == Ok(r.nextCallback)
              && o.state.nextCallback == r.nextCallback + 1
              && |o.state.cells| == |r.cells|
              && Callbacks(o.state.cells, cell) == Callbacks(r.cells, cell)[r.nextCallback := tag]
              && o.state.cells[cell] == r.cells[cell].(callbacks := Callbacks(o.state.cells, cell))
              && (forall k :: 0 <= k < |r.cells| && k != cell ==> o.state.cells[k] == r.cells[k])
              && (forall k :: 0 <= k < |r.cells| ==> o.state.cells[k].value == r.cells[k].value)
  {
    if cell >= |r.cells| then Outcome(r, Err(MissingCell(cell)))
    else if r.cells[cell].Input? then Outcome(r, Err(ExpectedComputedCell(cell)))
    else
      var cbs := r.cells[cell].callbacks[r.nextCallback := tag];
      Outcome(Reactor(WithCallbacks(r.cells, cell, cbs), r.nextCallback + 1), Ok(r.nextCallback))
  }

  /** The id a successful registration hands out was registered nowhere
      before, and registration keeps the reactor valid. */
  lemma AddCallbackFresh<T, C>(r: Reactor<T, C>, cell: CellId, tag: C)
    requires Valid(r)
    ensures var o := AddCallback(r, cell, tag);
            && Valid(o.state)
            && (o.result.Ok? ==> forall j :: 0 <= j < |r.cells| ==> o.result.value !in Callbacks(r.cells, j))
  {
    var o := AddCallback(r, cell, tag);
    if o.result.Ok? {
      var cbs := r.cells[cell].callbacks[r.nextCallback := tag];
      CallbacksAreInert(r.cells, cell, cbs);
      var b := o.state.cells;
      assert forall i :: 0 <= i < |b| && i != cell ==> Callbacks(b, i) == Callbacks(r.cells, i);
      assert forall k :: k in Callbacks(b, cell) ==> k == r.nextCallback || k in Callbacks(r.cells, cell);
      forall j, k | 0 <= j < |b| && k in Callbacks(b, j)
        ensures k < o.state.nextCallback
      {
        if j != cell {
          assert Callbacks(b, j) == Callbacks(r.cells, j);
        }
      }
    }
  }

  /** Unregisters callback `cb` from computed cell `cell`. */
  function RemoveCallback<T, C>(r: Reactor<T, C>, cell: CellId, cb: CallbackId): (o: Outcome<T, C, ()>)
    ensures cell >= |r.cells| ==> o == Outcome(r, Err(MissingCell(cell)))
    ensures cell < |r.cells| && r.cells[cell].Input? ==> o == Outcome(r, Err(ExpectedComputedCell(cell)))
    ensures cell < |r.cells| && r.cells[cell].Computed? && cb !in r.cells[cell].callbacks ==>
              o == Outcome(r, Err(CallbackDoesntExist(cb)))
    ensures cell < |r.cells| && r.cells[cell].Computed? && cb in r.cells[cell].callbacks ==>
              && o.result == Ok(())
              && o.state.nextCallback == r.nextCallback
              && |o.state.cells| == |r.cells|
              && Callbacks(o.state.cells, cell) == Callbacks(r.cells, cell) - {cb}
              && o.state.cells[cell] == r.cells[cell].(callbacks := Callbacks(o.state.cells, cell))
              && (forall k :: 0 <= k < |r.cells| && k != cell ==> o.state.cells[k] == r.cells[k])
              && (forall k :: 0 <= k < |r.cells| ==> o.state.cells[k].value == r.cells[k].value)
  {
    if cell >= |r.cells| then Outcome(r, Err(MissingCell(cell)))
    else if r.cells[cell].Input? then Outcome(r, Err(ExpectedComputedCell(cell)))
    else if cb !in r.cells[cell].callbacks then Outcome(r, Err(CallbackDoesntExist(cb)))
    else
      var cbs := r.cells[cell].callbacks - {cb};
      Outcome(Reactor(WithCallbacks(r.cells, cell, cbs), r.nextCallback), Ok(()))
  }

  /** A successful removal keeps the reactor valid and leaves `cb`
      registered on no cell at all. */
  lemma RemoveCallbackForgets<T, C>(r: Reactor<T, C>, cell: CellId, cb: CallbackId)
    requires Valid(r)
    ensures var o := RemoveCallback(r, cell, cb);
            && Valid(o.state)
            && (o.result.Ok? ==> forall j :: 0 <= j < |o.state.cells| ==> cb !in Callbacks(o.state.cells, j))
  {
    var o := RemoveCallback(r, cell, cb);
    if o.result.Ok? {
      var cbs := r.cells[cell].callbacks - {cb};
      CallbacksAreInert(r.cells, cell, cbs);
      var b := o.state.cells;
      assert forall j :: 0 <= j < |b| && j != cell ==> Callbacks(b, j) == Callbacks(r.cells, j);
      assert cb in Callbacks(r.cells, cell);
    }
  }

  /** Removing a callback right after registering it restores the cells;
      only the counter has moved on. */
  lemma RemoveAfterAdd<T, C>(r: Reactor<T, C>, cell: CellId, tag: C)
    requires Valid(r)
    requires AddCallback(r, cell, tag).result.Ok?
    ensures var o := AddCallback(r, cell, tag);
            var back := RemoveCallback(o.state, cell, o.result.value);
            && back.result == Ok(())
            && back.state == Reactor(r.cells, r.nextCallback + 1)
  {
    var o := AddCallback(r, cell, tag);
    AddCallbackFresh(r, cell, tag);
    var back := RemoveCallback(o.state, cell, o.result.value);
    assert Callbacks(back.state.cells, cell) == Callbacks(r.cells, cell);
    assert back.state.cells[cell] == r.cells[cell];
    assert back.state.cells == r.cells;
  }

  /** Runs the callbacks of computed cell `id`, each once, with the cell's
      current value. */
  function InvokeCallback<T(==), C(==)>(cells: seq<Cell<T, C>>, id: CellId): (r: Result<set<Event<T, C>>>)
    ensures id >= |cells| <==> r == Err(MissingCell(id))
    ensures id < |cells| && cells[id].Input? <==> r == Err(ExpectedComputedCell(id))
    ensures r.Ok? ==> forall e :: e in r.value ==>
              && e.cell == id
              && e.callback in Callbacks(cells, id)
              && e.tag == Callbacks(cells, id)[e.callback]
              && e.value == cells[id].value
    ensures r.Ok? ==> forall k :: k in Callbacks(cells, id) ==>
              Event(id, k, Callbacks(cells, id)[k], cells[id].value) in r.value
  {
    if id >= |cells| then Err(MissingCell(id))
    else if cells[id].Input? then Err(ExpectedComputedCell(id))
    else
      var cbs := cells[id].callbacks;
      Ok(set k | k in cbs :: Event(id, k, cbs[k], cells[id].value))
  }

  /** Invoking a cell's callbacks runs every registered callback exactly once. */
  lemma InvokeCallbackOnce<T, C>(cells: seq<Cell<T, C>>, id: CellId, k: CallbackId)
    requires id < |cells| && cells[id].Computed? && k in cells[id].callbacks
    ensures var fired := InvokeCallback(cells, id).value;
            exists e :: e in fired && e.callback == k
    ensures var fired := InvokeCallback(cells, id).value;
            forall e1, e2 :: e1 in fired && e2 in fired && e1.callback == k && e2.callback == k ==> e1 == e2
  {
    var e := Event(id, k, cells[id].callbacks[k], cells[id].value);
    assert e in InvokeCallback(cells, id).value;
  }
}
