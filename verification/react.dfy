/** The reactor's public operations: creating cells, setting inputs with
    change propagation and callback firing, and whole runs of operations. */
module React {

  import opened Cells
  import opened Dependencies
  import opened Evaluator
  import opened Propagation
  import opened Registry

  /** Appending a cell that is up to date and reads only existing cells
      keeps the reactor valid. */
  lemma AppendKeepsValid<T, C>(r: Reactor<T, C>, c: Cell<T, C>)
    requires c.Computed? ==> DepsExist(r.cells, c.deps) && c.callbacks == map[]
                             && c.value == c.compute(DepValues(r.cells, c.deps))
    ensures Valid(r) ==> Valid(Reactor(r.cells + [c], r.nextCallback))
  {
    if !Valid(r) {
      return;
    }
    var b := r.cells + [c];
    forall j | 0 <= j < |b|
      ensures Consistent(b, j)
    {
      if j < |r.cells| {
        assert Consistent(r.cells, j);
        if b[j].Computed? {
          DepValuesAgree(r.cells, b, b[j].deps);
        }
      } else if c.Computed? {
        DepValuesAgree(r.cells, b, c.deps);
      }
    }
    assert forall j :: 0 <= j < |r.cells| ==> Callbacks(b, j) == Callbacks(r.cells, j);
  }

  /** Creates an input cell holding `initial`; its id is the next free index. */
  function CreateInput<T, C>(r: Reactor<T, C>, initial: T): (o: Outcome<T, C, CellId>)
    ensures o.result == Ok(|r.cells|)
    ensures |o.state.cells| == |r.cells| + 1 && o.state.cells[..|r.cells|] == r.cells
    ensures o.state.cells[|r.cells|].Input? && Value(o.state, |r.cells|) == Some(initial)
    ensures o.state.nextCallback == r.nextCallback
    ensures Valid(r) ==> Valid(o.state)
  {
    AppendKeepsValid(r, Input(initial));
    Outcome(Reactor(r.cells + [Input(initial)], r.nextCallback), Ok(|r.cells|))
  }

  /** The dependencies that name no cell of a reactor with `count` cells, in
      the order and with the repetitions they were given. */
  function MissingDeps(deps: seq<CellId>, count: nat): (missing: seq<CellId>)
    ensures forall d :: d in missing <==> d in deps && d >= count
    ensures |missing| <= |deps|
  {
    if deps == [] then []
    else (if deps[0] >= count then [deps[0]] else []) + MissingDeps(deps[1..], count)
  }

  /** Filtering out the missing dependencies distributes over concatenation:
      together with the one-element case this fixes their order. */
  lemma {:induction false} MissingDepsAppend(a: seq<CellId>, b: seq<CellId>, count: nat)
    ensures MissingDeps(a + b, count) == MissingDeps(a, count) + MissingDeps(b, count)
    decreases |a|
  {
    if a != [] {
      assert (a + b)[1..] == a[1..] + b;
      MissingDepsAppend(a[1..], b, count);
    } else {
      assert a + b == b;
    }
  }

  /** Creates a computed cell reading `deps` (in that order) through `f`, or
      reports every dependency that does not exist. */
  function CreateCompute<T, C>(r: Reactor<T, C>, deps: seq<CellId>, f: seq<T> -> T): (o: Outcome<T, C, CellId>)
    ensures MissingDeps(deps, |r.cells|) != [] ==>
              o == Outcome(r, Err(MissingDependencies(MissingDeps(deps, |r.cells|))))
    ensures o.result.Ok? <==> forall i :: 0 <= i < |deps| ==> deps[i] < |r.cells|
    ensures o.result.Ok? ==>
              && o.result.value == |r.cells|
              && |o.state.cells| == |r.cells| + 1 && o.state.cells[..|r.cells|] == r.cells
              && o.state.nextCallback == r.nextCallback
              && o.state.cells[|r.cells|].Computed?
              && o.state.cells[|r.cells|].deps == deps
              && o.state.cells[|r.cells|].compute == f
              && o.state.cells[|r.cells|].callbacks == map[]
              && Consistent(o.state.cells, |r.cells|)
    ensures Valid(r) ==> Valid(o.state)
  {
    var missing := MissingDeps(deps, |r.cells|);
    if missing != [] then
      assert missing[0] in deps;
      Outcome(r, Err(MissingDependencies(missing)))
    else
      assert forall i :: 0 <= i < |deps| ==> deps[i] in deps;
      var c := Computed(f(DepValues(r.cells, deps)), deps, f, map[]);
      var cells := r.cells + [c];
      DepValuesAgree(r.cells, cells, deps);
      AppendKeepsValid(r, c);
      Outcome(Reactor(cells, r.nextCallback), Ok(|r.cells|))
  }

  /** The new cell's value is `f` of its dependencies' values in declared
      order, and its edges carry the argument positions `0..n-1`. */
  lemma CreateComputeReads<T, C>(r: Reactor<T, C>, deps: seq<CellId>, f: seq<T> -> T)
    requires CreateCompute(r, deps, f).result.Ok?
    ensures var o := CreateCompute(r, deps, f);
            var id := o.result.value;
            && (forall i :: 0 <= i < |deps| ==> Value(r, deps[i]).Some?)
            && Value(o.state, id) == Some(f(seq(|deps|, i requires 0 <= i < |deps| => Value(r, deps[i]).value)))
            && (forall e: Edge :: e in OutEdges(o.state.cells, id) <==> e.position < |deps| && e.target == deps[e.position])
  {
    var o := CreateCompute(r, deps, f);
    var id := o.result.value;
    OutEdgesArePositions(o.state.cells, id);
    assert DepValues(o.state.cells, deps) == seq(|deps|, i requires 0 <= i < |deps| => Value(r, deps[i]).value);
  }

  /** What `set_value` returns: the new state, the result, and the callback
      invocations it caused. */
  datatype SetOutcome<!T(==), C(==)> = SetOutcome(state: Reactor<T, C>, result: Result<()>, fired: set<Event<T, C>>)

  /** The callback invocations on every cell of `changed`: each callback
      registered on such a cell, once, with the cell's value, and nothing
      else. */
  function Fire<T(==), C(==)>(cells: seq<Cell<T, C>>, changed: set<CellId>): (fired: set<Event<T, C>>)
    ensures forall e :: e in fired ==>
              && e.cell in changed && e.cell < |cells|
              && e.callback in Callbacks(cells, e.cell)
              && e.tag == Callbacks(cells, e.cell)[e.callback]
              && e.value == cells[e.cell].value
    ensures forall c: CellId, k :: c in changed && k in Callbacks(cells, c) ==>
              Event(c, k, Callbacks(cells, c)[k], cells[c].value) in fired
  {
    assert forall c: CellId, k :: c in changed && k in Callbacks(cells, c) ==> InvokeCallback(cells, c).Ok?;
    set c, e | c in changed && InvokeCallback(cells, c).Ok? && e in InvokeCallback(cells, c).value :: e
  }

  /** The cells of `affected` whose value differs between `before` and `after`. */
  function Changed<T(==), C>(before: seq<Cell<T, C>>, after: seq<Cell<T, C>>, affected: set<CellId>): (changed: set<CellId>)
    requires |before| == |after| && forall c :: c in affected ==> c < |before|
    ensures forall c :: c in changed <==> c in affected && after[c].value != before[c].value
  {
    set c | c in affected && after[c].value != before[c].value
  }

  /** Sets input cell `id` to `v`, recomputes everything depending on it,
      and fires the callbacks of every dependant whose value changed. */
  function SetValue<T(==), C(==)>(r: Reactor<T, C>, id: CellId, v: T): (o: SetOutcome<T, C>)
    requires DepsPrecede(r.cells)
    ensures id >= |r.cells| ==> o == SetOutcome(r, Err(MissingCell(id)), {})
    ensures id < |r.cells| && r.cells[id].Computed? ==> o == SetOutcome(r, Err(ExpectedInputCell(id)), {})
    ensures id < |r.cells| && r.cells[id].Input? ==>
              && o.result == Ok(())
              && o.state.nextCallback == r.nextCallback
              && SameShape(r.cells, o.state.cells)
              && o.state.cells[id] == Input(v)
  {
    if id >= |r.cells| then SetOutcome(r, Err(MissingCell(id)), {})
    else if r.cells[id].Computed? then SetOutcome(r, Err(ExpectedInputCell(id)), {})
    else
      var before := r.cells[id := Input(v)];
      ShapeKeepsGraph(r.cells, before);
      var affected := FindDeepDependenciesOn(DepGraph(before), id);
      var after := UpdateDependants(before, id);
      ShapeTransitive(r.cells, before, after);
      SetOutcome(Reactor(after, r.nextCallback), Ok(()), Fire(after, Changed(before, after, affected)))
  }

  /** The facts the lemmas about a successful `SetValue` share: the input
      is written, the walk is an update of exactly `id` and its dependants,
      and every other cell was already consistent before the walk. */
  lemma SetValueWalk<T, C>(r: Reactor<T, C>, id: CellId, v: T)
    requires Valid(r) && id < |r.cells| && r.cells[id].Input?
    ensures var before := r.cells[id := Input(v)];
            var g := DepGraph(r.cells);
            && SameShape(r.cells, before) && DepsPrecede(before) && DepGraph(before) == g
            && UpdatedOn(before, UpdateDependants(before, id), {id} + FindDeepDependenciesOn(g, id))
            && (forall k :: 0 <= k < |r.cells| && k != id && k !in FindDeepDependenciesOn(g, id) ==> Consistent(before, k))
  {
    var before := r.cells[id := Input(v)];
    var g := DepGraph(r.cells);
    ShapeKeepsGraph(r.cells, before);
    UpdateDependantsCorrect(before, id);
    forall k | 0 <= k < |r.cells| && k != id && k !in FindDeepDependenciesOn(g, id)
      ensures Consistent(before, k)
    {
      OutsideHasNoAffectedDeps(r.cells, id, k);
      assert Consistent(r.cells, k);
      StaysConsistent(r.cells, before, k);
    }
  }

  /** A successful `SetValue` keeps the reactor valid (every computed cell
      again caches its function of its dependencies) and changes no cell
      that neither is `id` nor depends on it. */
  lemma SetValueUpdates<T, C>(r: Reactor<T, C>, id: CellId, v: T)
    requires Valid(r) && id < |r.cells| && r.cells[id].Input?
    ensures var o := SetValue(r, id, v);
            && Valid(o.state)
            && (forall k :: 0 <= k < |r.cells| && k != id && !DependsOn(DepGraph(r.cells), k, id) ==>
                  o.state.cells[k] == r.cells[k])
  {
    var o := SetValue(r, id, v);
    var g := DepGraph(r.cells);
    SetValueWalk(r, id, v);
    FindDeepExact(g, id);
    ShapeKeepsValid(r, o.state.cells);
  }

  /** The callbacks `SetValue` fires are exactly those registered on a cell
      that depends on `id` and whose value changed, each with the cell's
      final value. */
  lemma SetValueFires<T, C>(r: Reactor<T, C>, id: CellId, v: T)
    requires DepsPrecede(r.cells) && id < |r.cells| && r.cells[id].Input?
    ensures var o := SetValue(r, id, v);
            var g := DepGraph(r.cells);
            forall e :: e in o.fired ==>
              && e.cell < |r.cells| && DependsOn(g, e.cell, id)
              && o.state.cells[e.cell].value != r.cells[e.cell].value
              && e.callback in Callbacks(o.state.cells, e.cell)
              && e.tag == Callbacks(o.state.cells, e.cell)[e.callback]
              && e.value == o.state.cells[e.cell].value
    ensures var o := SetValue(r, id, v);
            var g := DepGraph(r.cells);
            forall c: CellId, k ::
              (&& c < |r.cells| && DependsOn(g, c, id)
               && o.state.cells[c].value != r.cells[c].value
               && k in Callbacks(o.state.cells, c)) ==>
              Event(c, k, Callbacks(o.state.cells, c)[k], o.state.cells[c].value) in o.fired
  {
    var o := SetValue(r, id, v);
    var g := DepGraph(r.cells);
    var before := r.cells[id := Input(v)];
    ShapeKeepsGraph(r.cells, before);
    FindDeepExact(g, id);
    var after := o.state.cells;
    forall c: CellId, k | c < |r.cells| && DependsOn(g, c, id) && after[c].value != r.cells[c].value && k in Callbacks(after, c)
      ensures Event(c, k, Callbacks(after, c)[k], after[c].value) in o.fired
    {
      assert c in FindDeepDependenciesOn(g, id) && c != id;
      assert InvokeCallback(after, c).Ok?;
    }
  }

  /** Every cell the propagation reaches is a computed cell that exists, so
      invoking its callbacks cannot fail. */
  lemma AffectedAreComputed<T, C>(r: Reactor<T, C>, id: CellId, v: T)
    requires DepsPrecede(r.cells) && id < |r.cells| && r.cells[id].Input?
    ensures var after := SetValue(r, id, v).state.cells;
            forall c: CellId :: DependsOn(DepGraph(r.cells), c, id) ==> InvokeCallback(after, c).Ok?
  {
    var g := DepGraph(r.cells);
    var after := SetValue(r, id, v).state.cells;
    FindDeepExact(g, id);
    forall c: CellId | DependsOn(g, c, id)
      ensures InvokeCallback(after, c).Ok?
    {
      assert c in FindDeepDependenciesOn(g, id);
      assert after[c] == r.cells[c].(value := after[c].value);
    }
  }

  /** Within one `SetValue` each callback fires at most once: callback ids
      are registered on one cell only, and that cell fires each once. */
  lemma SetValueFiresOnce<T, C>(r: Reactor<T, C>, id: CellId, v: T)
    requires Valid(r) && id < |r.cells| && r.cells[id].Input?
    ensures var o := SetValue(r, id, v);
            forall e1, e2 :: e1 in o.fired && e2 in o.fired && e1.callback == e2.callback ==> e1 == e2
  {
    var o := SetValue(r, id, v);
    SetValueFires(r, id, v);
    SetValueUpdates(r, id, v);
  }

  /** The propagated state is the reference evaluation of the cells with the
      new input value: the update order does not matter. */
  lemma SetValueMatchesFromScratch<T, C>(r: Reactor<T, C>, id: CellId, v: T)
    requires Valid(r) && id < |r.cells| && r.cells[id].Input?
    ensures SetValue(r, id, v).state.cells == FromScratch(r.cells[id := Input(v)])
  {
    var o := SetValue(r, id, v);
    var before := r.cells[id := Input(v)];
    SetValueUpdates(r, id, v);
    ShapeKeepsGraph(r.cells, before);
    var ref := FromScratch(before);
    ShapeTransitive(before, ref, o.state.cells) by {
      ShapeTransitive(r.cells, before, o.state.cells);
      forall j | 0 <= j < |before|
        ensures o.state.cells[j] == ref[j].(value := o.state.cells[j].value)
      {
        assert ref[j] == before[j].(value := ref[j].value);
        assert o.state.cells[j] == r.cells[j].(value := o.state.cells[j].value);
      }
    }
    ShapeKeepsGraph(before, ref);
    ConsistentUnique(ref, o.state.cells);
  }

  /** Setting an input to the value it already holds changes nothing and
      fires no callback. */
  lemma SetSameValueIsQuiet<T, C>(r: Reactor<T, C>, id: CellId, v: T)
    requires Valid(r) && id < |r.cells| && r.cells[id] == Input(v)
    ensures SetValue(r, id, v).state == r
    ensures SetValue(r, id, v).fired == {}
  {
    var o := SetValue(r, id, v);
    SetValueUpdates(r, id, v);
    assert r.cells[id := Input(v)] == r.cells;
    ConsistentUnique(r.cells, o.state.cells);
    SetValueFires(r, id, v);
  }

  /** A computed cell's value, as `Value` reports it, is its function of its
      dependencies' current values. */
  lemma ValueOfComputed<T, C>(r: Reactor<T, C>, id: CellId)
    requires Valid(r) && id < |r.cells| && r.cells[id].Computed?
    ensures var c := r.cells[id];
            && (forall i :: 0 <= i < |c.deps| ==> Value(r, c.deps[i]).Some?)
            && Value(r, id) == Some(c.compute(seq(|c.deps|, i requires 0 <= i < |c.deps| => Value(r, c.deps[i]).value)))
  {
    var c := r.cells[id];
    assert Consistent(r.cells, id);
    assert DepValues(r.cells, c.deps) == seq(|c.deps|, i requires 0 <= i < |c.deps| => Value(r, c.deps[i]).value);
  }

  /** The public `update_dependants`: recomputes `id` and everything that
      depends on it, or reports `MissingCell` for an unknown id. */
  function Propagate<T, C>(r: Reactor<T, C>, id: CellId): (o: Outcome<T, C, ()>)
    requires DepsPrecede(r.cells)
    ensures id >= |r.cells| ==> o == Outcome(r, Err(MissingCell(id)))
    ensures id < |r.cells| ==>
              && o.result == Ok(())
              && o.state.nextCallback == r.nextCallback
              && SameShape(r.cells, o.state.cells)
              && (forall k :: 0 <= k < |r.cells| && r.cells[k].Input? ==> o.state.cells[k] == r.cells[k])
  {
    if id >= |r.cells| then Outcome(r, Err(MissingCell(id)))
    else Outcome(Reactor(UpdateDependants(r.cells, id), r.nextCallback), Ok(()))
  }

  /** On a valid reactor every cached value is already up to date, so an
      explicit `update_dependants` changes nothing, whatever the cell. */
  lemma PropagateIsIdle<T, C>(r: Reactor<T, C>, id: CellId)
    requires Valid(r)
    ensures Propagate(r, id).state == r
  {
    if id < |r.cells| {
      var after := UpdateDependants(r.cells, id);
      var region := {id} + FindDeepDependenciesOn(DepGraph(r.cells), id);
      UpdateDependantsCorrect(r.cells, id);
      forall k | 0 <= k < |after|
        ensures Consistent(after, k)
      {
        assert Consistent(r.cells, k);
        if k !in region {
          assert Consistent(after, k);
        }
      }
      ConsistentUnique(r.cells, after);
    }
  }

  /** One call of a public method that changes the reactor (direct edits
      of the underlying graph are not among them). */
  datatype Op<!T, C> =
    | CreateInputOp(initial: T)
    | CreateComputeOp(deps: seq<CellId>, f: seq<T> -> T)
    | SetValueOp(id: CellId, value: T)
    | AddCallbackOp(cell: CellId, tag: C)
    | RemoveCallbackOp(cell: CellId, callback: CallbackId)
    | UpdateDependantsOp(id: CellId)

  /** The state after some operations and every callback invocation they caused. */
  datatype Trace<!T(==), C(==)> = Trace(state: Reactor<T, C>, fired: set<Event<T, C>>)

  function Step<T(==), C(==)>(r: Reactor<T, C>, op: Op<T, C>): (t: Trace<T, C>)
    requires Valid(r)
    ensures Valid(t.state)
    ensures t.state.nextCallback >= r.nextCallback
    ensures !op.SetValueOp? ==> t.fired == {}
  {
    match op
    case CreateInputOp(initial) => Trace(CreateInput(r, initial).state, {})
    case CreateComputeOp(deps, f) => Trace(CreateCompute(r, deps, f).state, {})
    case SetValueOp(id, value) =>
      var o := SetValue(r, id, value);
      if id < |r.cells| && r.cells[id].Input? then SetValueUpdates(r, id, value); Trace(o.state, o.fired)
      else Trace(o.state, o.fired)
    case AddCallbackOp(cell, tag) => AddCallbackFresh(r, cell, tag); Trace(AddCallback(r, cell, tag).state, {})
    case RemoveCallbackOp(cell, cb) => RemoveCallbackForgets(r, cell, cb); Trace(RemoveCallback(r, cell, cb).state, {})
    case UpdateDependantsOp(id) => PropagateIsIdle(r, id); Trace(Propagate(r, id).state, {})
  }

  /** Runs `ops` in order: the reactor stays valid and the callback counter
      never goes back. */
  function Run<T(==), C(==)>(r: Reactor<T, C>, ops: seq<Op<T, C>>): (t: Trace<T, C>)
    requires Valid(r)
    ensures Valid(t.state)
    ensures t.state.nextCallback >= r.nextCallback
    decreases |ops|
  {
    if ops == [] then Trace(r, {})
    else
      var first := Step(r, ops[0]);
      var rest := Run(first.state, ops[1..]);
      Trace(rest.state, first.fired + rest.fired)
  }

  /** A callback id below the counter and registered nowhere is retired. */
  ghost predicate Retired<T, C>(r: Reactor<T, C>, cb: CallbackId) {
    cb < r.nextCallback && forall j :: 0 <= j < |r.cells| ==> cb !in Callbacks(r.cells, j)
  }

  /** One operation never fires a retired callback, and it stays retired. */
  lemma StepKeepsRetired<T, C>(r: Reactor<T, C>, op: Op<T, C>, cb: CallbackId)
    requires Valid(r) && Retired(r, cb)
    ensures Retired(Step(r, op).state, cb)
    ensures forall e :: e in Step(r, op).fired ==> e.callback != cb
  {
    var t := Step(r, op);
    match op
    case CreateInputOp(initial) =>
      assert forall j :: 0 <= j < |r.cells| ==> Callbacks(t.state.cells, j) == Callbacks(r.cells, j);
    case CreateComputeOp(deps, f) =>
      if CreateCompute(r, deps, f).result.Ok? {
        assert forall j :: 0 <= j < |r.cells| ==> Callbacks(t.state.cells, j) == Callbacks(r.cells, j);
      }
    case SetValueOp(id, value) =>
      SetValueKeepsRetired(r, id, value, cb);
    case AddCallbackOp(cell, tag) =>
      if AddCallback(r, cell, tag).result.Ok? {
        assert forall j :: 0 <= j < |r.cells| && j != cell ==> Callbacks(t.state.cells, j) == Callbacks(r.cells, j);
      }
    case RemoveCallbackOp(cell, c) =>
      if RemoveCallback(r, cell, c).result.Ok? {
        assert forall j :: 0 <= j < |r.cells| && j != cell ==> Callbacks(t.state.cells, j) == Callbacks(r.cells, j);
      }
    case UpdateDependantsOp(id) =>
      PropagateIsIdle(r, id);
  }

  lemma SetValueKeepsRetired<T, C>(r: Reactor<T, C>, id: CellId, v: T, cb: CallbackId)
    requires Valid(r) && Retired(r, cb)
    ensures Retired(SetValue(r, id, v).state, cb)
    ensures forall e :: e in SetValue(r, id, v).fired ==> e.callback != cb
  {
    if id < |r.cells| && r.cells[id].Input? {
      var o := SetValue(r, id, v);
      SetValueFires(r, id, v);
      SetValueUpdates(r, id, v);
      ShapeKeepsValid(r, o.state.cells);
    }
  }

  lemma {:induction false} RunKeepsRetired<T, C>(r: Reactor<T, C>, ops: seq<Op<T, C>>, cb: CallbackId)
    requires Valid(r) && Retired(r, cb)
    ensures forall e :: e in Run(r, ops).fired ==> e.callback != cb
    decreases |ops|
  {
    if ops != [] {
      StepKeepsRetired(r, ops[0], cb);
      RunKeepsRetired(Step(r, ops[0]).state, ops[1..], cb);
    }
  }

  /** Once removed, a callback never fires again, whatever operations follow. */
  lemma RemovedCallbackNeverFires<T, C>(r: Reactor<T, C>, cell: CellId, cb: CallbackId, ops: seq<Op<T, C>>)
    requires Valid(r) && RemoveCallback(r, cell, cb).result.Ok?
    ensures var s := RemoveCallback(r, cell, cb).state;
            Valid(s) && forall e :: e in Run(s, ops).fired ==> e.callback != cb
  {
    var s := RemoveCallback(r, cell, cb).state;
    RemoveCallbackForgets(r, cell, cb);
    assert cb in Callbacks(r.cells, cell);
    RunKeepsRetired(s, ops, cb);
  }

  /** Callback ids handed out at different times are different. */
  lemma IssuedIdsDistinct<T, C>(r: Reactor<T, C>, cell1: CellId, tag1: C, ops: seq<Op<T, C>>, cell2: CellId, tag2: C)
    requires Valid(r) && AddCallback(r, cell1, tag1).result.Ok?
    ensures var o1 := AddCallback(r, cell1, tag1);
            Valid(o1.state) &&
            var o2 := AddCallback(Run(o1.state, ops).state, cell2, tag2);
            o2.result.Ok? ==> o2.result.value > o1.result.value
  {
    AddCallbackFresh(r, cell1, tag1);
  }
}
