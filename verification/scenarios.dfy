/** Concrete runs of the reactor: a callback fires with the new value when
    its cell changes, and stays silent when recomputation yields the old
    value. */
module Scenarios {

  import opened Cells
  import opened Dependencies
  import opened Registry
  import opened React

  /** Input cell 0 starts at `initial`; computed cell 1 is `f` of cell 0 and
      carries callback 0 with tag `tag`. */
  function OneDependant(initial: int, f: seq<int> -> int, tag: int): (r: Reactor<int, int>)
    ensures Valid(r) && |r.cells| == 2 && r.nextCallback == 1
    ensures r.cells[0] == Input(initial)
    ensures r.cells[1].Computed? && r.cells[1].deps == [0] && r.cells[1].compute == f
    ensures Callbacks(r.cells, 1) == map[0 := tag]
  {
    var r1 := CreateInput(Empty(), initial).state;
    var r2 := CreateCompute(r1, [0], f).state;
    var r3 := AddCallback(r2, 1, tag).state;
    AddCallbackFresh(r2, 1, tag);
    r3
  }

  /** Cell 1 of `OneDependant` starts out as `f` of the initial value. */
  lemma OneDependantStart(initial: int, f: seq<int> -> int, tag: int)
    ensures OneDependant(initial, f, tag).cells[1].value == f([initial])
  {
    var r := OneDependant(initial, f, tag);
    assert Consistent(r.cells, 1);
    assert DepValues(r.cells, [0]) == [initial];
  }

  /** After one `set_value` on cell 0 of `OneDependant`, cell 1 holds `f` of
      the new value and still carries its callback. */
  lemma SetOnOneDependantValue(initial: int, f: seq<int> -> int, tag: int, v: int)
    ensures var r := OneDependant(initial, f, tag);
            var o := SetValue(r, 0, v);
            && r.cells[1].value == f([initial])
            && |o.state.cells| == 2 && o.state.cells[1].value == f([v])
            && Callbacks(o.state.cells, 1) == map[0 := tag]
  {
    var r := OneDependant(initial, f, tag);
    var o := SetValue(r, 0, v);
    var cells := o.state.cells;
    OneDependantStart(initial, f, tag);
    SetValueUpdates(r, 0, v);
    assert cells[1] == r.cells[1].(value := cells[1].value);
    assert Consistent(cells, 1);
    assert cells[0] == Input(v);
    assert DepValues(cells, [0]) == [v];
  }

  /** In `OneDependant`, cell 1 and only cell 1 depends on cell 0. */
  lemma OnlyCellOneDepends(initial: int, f: seq<int> -> int, tag: int)
    ensures var g := DepGraph(OneDependant(initial, f, tag).cells);
            forall c :: DependsOn(g, c, 0) <==> c == 1
  {
    var g := DepGraph(OneDependant(initial, f, tag).cells);
    assert g[0] == [] && g[1] == [0];
    assert 0 in g[1];
  }

  /** Every callback invocation that `set_value` on cell 0 of
      `OneDependant` causes is the callback of cell 1 with `f` of the new
      value, and it happens only when that value changed. */
  lemma OneDependantFiresOnlyCallback(initial: int, f: seq<int> -> int, tag: int, v: int)
    ensures var o := SetValue(OneDependant(initial, f, tag), 0, v);
            forall e :: e in o.fired ==> e == Event(1, 0, tag, f([v])) && f([v]) != f([initial])
  {
    var r := OneDependant(initial, f, tag);
    SetOnOneDependantValue(initial, f, tag, v);
    OnlyCellOneDepends(initial, f, tag);
    SetValueFires(r, 0, v);
  }

  /** When the value of cell 1 changes, its callback is invoked. */
  lemma OneDependantFiresOnChange(initial: int, f: seq<int> -> int, tag: int, v: int)
    requires f([v]) != f([initial])
    ensures Event(1, 0, tag, f([v])) in SetValue(OneDependant(initial, f, tag), 0, v).fired
  {
    var r := OneDependant(initial, f, tag);
    var o := SetValue(r, 0, v);
    var g := DepGraph(r.cells);
    SetOnOneDependantValue(initial, f, tag, v);
    OnlyCellOneDepends(initial, f, tag);
    SetValueFires(r, 0, v);
    assert DependsOn(g, 1, 0);
    assert 0 in Callbacks(o.state.cells, 1) && Callbacks(o.state.cells, 1)[0] == tag;
  }

  /** What one `set_value` on cell 0 of `OneDependant` fires: the callback,
      with the new value of cell 1, exactly when that value changed. */
  lemma SetOnOneDependant(initial: int, f: seq<int> -> int, tag: int, v: int)
    ensures var r := OneDependant(initial, f, tag);
            var o := SetValue(r, 0, v);
            && Value(o.state, 1) == Some(f([v]))
            && o.fired == if f([v]) != f([initial]) then {Event(1, 0, tag, f([v]))} else {}
  {
    SetOnOneDependantValue(initial, f, tag, v);
    OneDependantFiresOnlyCallback(initial, f, tag, v);
    if f([v]) != f([initial]) {
      OneDependantFiresOnChange(initial, f, tag, v);
    }
  }

  /** Cell 1 = cell 0 + 1 with a callback; setting cell 0 from 1 to 3 fires
      the callback once, with 4. */
  lemma IncrementFires()
    ensures var r := OneDependant(1, vs => if |vs| == 1 then vs[0] + 1 else 0, 7);
            var o := SetValue(r, 0, 3);
            Value(o.state, 1) == Some(4) && o.fired == {Event(1, 0, 7, 4)}
  {
    var increment := (vs: seq<int>) => if |vs| == 1 then vs[0] + 1 else 0;
    assert increment([3]) == 4 && increment([1]) == 2;
    SetOnOneDependant(1, increment, 7, 3);
  }

  /** Cell 1 = whether cell 0 is at least 10; setting cell 0 from 1 to 2
      recomputes cell 1 to the same value and fires nothing. */
  lemma UnchangedStaysSilent()
    ensures var r := OneDependant(1, vs => if |vs| == 1 && vs[0] >= 10 then 1 else 0, 7);
            SetValue(r, 0, 2).fired == {}
  {
    var atLeastTen := (vs: seq<int>) => if |vs| == 1 && vs[0] >= 10 then 1 else 0;
    assert atLeastTen([2]) == atLeastTen([1]) == 0;
    SetOnOneDependant(1, atLeastTen, 7, 2);
  }

  /** A reactor shaped as a diamond: input cell 0 holds `initial`; computed
      cell 1 is `f` of cell 0; computed cell 2 is `h` of cells 0 and 1 and
      carries callback 0 with tag `tag`. Cell 2 is reached from cell 0 along
      two paths. */
  ghost predicate IsDiamond(r: Reactor<int, int>, initial: int, f: seq<int> -> int, h: seq<int> -> int, tag: int) {
    && Valid(r) && |r.cells| == 3
    && r.cells[0] == Input(initial)
    && r.cells[1] == Computed(f([initial]), [0], f, map[])
    && r.cells[2].Computed? && r.cells[2].deps == [0, 1] && r.cells[2].compute == h
    && r.cells[2].value == h([initial, f([initial])])
    && Callbacks(r.cells, 2) == map[0 := tag]
  }

  /** Input cell 0 holding `initial` and computed cell 1 = `f` of cell 0,
      built through the public operations. */
  function InputAndDependant(initial: int, f: seq<int> -> int): (r: Reactor<int, int>)
    ensures Valid(r) && r.nextCallback == 0
    ensures r.cells == [Input(initial), Computed(f([initial]), [0], f, map[])]
  {
    var r1 := CreateInput(Empty(), initial).state;
    var r2 := CreateCompute(r1, [0], f).state;
    assert Consistent(r2.cells, 1) && DepValues(r2.cells, [0]) == [initial];
    r2
  }

  /** The diamond built through the public operations: one input, two
      computed cells, one callback. */
  function Diamond(initial: int, f: seq<int> -> int, h: seq<int> -> int, tag: int): (r: Reactor<int, int>)
    ensures IsDiamond(r, initial, f, h, tag) && r.nextCallback == 1
  {
    var r2 := InputAndDependant(initial, f);
    var r3 := CreateCompute(r2, [0, 1], h).state;
    assert r3.cells[..2] == r2.cells && r3.nextCallback == 0;
    assert Consistent(r3.cells, 2) && DepValues(r3.cells, [0, 1]) == [initial, f([initial])];
    var r4 := AddCallback(r3, 2, tag).state;
    AddCallbackFresh(r3, 2, tag);
    assert r4.cells[0] == r3.cells[0] && r4.cells[1] == r3.cells[1];
    r4
  }

  /** The dependency graph of a diamond. */
  lemma DiamondGraph(r: Reactor<int, int>, initial: int, f: seq<int> -> int, h: seq<int> -> int, tag: int)
    requires IsDiamond(r, initial, f, h, tag)
    ensures DepGraph(r.cells) == [[], [0], [0, 1]]
  {
    var g := DepGraph(r.cells);
    assert g[0] == [] && g[1] == [0] && g[2] == [0, 1];
  }

  /** The incoming walk over the diamond's graph, one step at a time. */
  lemma DiamondIncoming(g: seq<seq<CellId>>)
    requires g == [[], [0], [0, 1]]
    ensures Incoming(g, 0) == [2, 1] && Incoming(g, 1) == [2]
  {
    assert multiset(g[1])[0] == 1 && multiset(g[2])[0] == 1 && multiset(g[2])[1] == 1;
    var one := seq(1, _ => 1);
    var two := seq(1, _ => 2);
    assert one == [1] && two == [2];
    assert IncomingBelow(g, 0, 1) == [];
    assert IncomingBelow(g, 0, 2) == one + [];
    assert IncomingBelow(g, 0, 3) == two + [1];
    assert IncomingBelow(g, 1, 2) == [];
    assert IncomingBelow(g, 1, 3) == two + [];
  }

  /** The incoming walk from cell 0 yields cell 2 (the newer edge) and then
      cell 1; from cell 1 it yields cell 2 again. So the propagation
      recomputes cell 2 twice, the first time with a stale cell 1. */
  lemma DiamondWalk(r: Reactor<int, int>, initial: int, f: seq<int> -> int, h: seq<int> -> int, tag: int)
    requires IsDiamond(r, initial, f, h, tag)
    ensures Incoming(DepGraph(r.cells), 0) == [2, 1] && Incoming(DepGraph(r.cells), 1) == [2]
  {
    DiamondGraph(r, initial, f, h, tag);
    DiamondIncoming(DepGraph(r.cells));
  }

  /** In a diamond, exactly cells 1 and 2 depend on cell 0. */
  lemma DiamondDependants(r: Reactor<int, int>, initial: int, f: seq<int> -> int, h: seq<int> -> int, tag: int)
    requires IsDiamond(r, initial, f, h, tag)
    ensures forall c :: DependsOn(DepGraph(r.cells), c, 0) <==> c == 1 || c == 2
  {
    DiamondGraph(r, initial, f, h, tag);
    var g := DepGraph(r.cells);
    assert 0 in g[1] && 0 in g[2];
  }

  /** Any consistent state of the diamond's shape with input `v` holds
      `f([v])` in cell 1 and `h([v, f([v])])` in cell 2. */
  lemma DiamondShapeValues(cells: seq<Cell<int, int>>, f: seq<int> -> int, h: seq<int> -> int, v: int)
    requires |cells| == 3 && cells[0] == Input(v)
    requires cells[1].Computed? && cells[1].deps == [0] && cells[1].compute == f
    requires cells[2].Computed? && cells[2].deps == [0, 1] && cells[2].compute == h
    requires Consistent(cells, 1) && Consistent(cells, 2)
    ensures cells[1].value == f([v]) && cells[2].value == h([v, f([v])])
  {
    assert DepValues(cells, [0]) == [v];
    assert DepValues(cells, [0, 1]) == [v, f([v])];
  }

  /** After `set_value` on cell 0 of a diamond, both computed cells hold
      their functions of the new value, and the callbacks are unchanged. */
  lemma SetOnDiamondValues(r: Reactor<int, int>, initial: int, f: seq<int> -> int, h: seq<int> -> int, tag: int, v: int)
    requires IsDiamond(r, initial, f, h, tag)
    ensures var o := SetValue(r, 0, v);
            && |o.state.cells| == 3
            && o.state.cells[1].value == f([v])
            && o.state.cells[2].value == h([v, f([v])])
            && Callbacks(o.state.cells, 2) == map[0 := tag]
            && Callbacks(o.state.cells, 1) == map[]
  {
    var cells := SetValue(r, 0, v).state.cells;
    SetValueUpdates(r, 0, v);
    assert Valid(Reactor(cells, r.nextCallback));
    assert Consistent(cells, 1) && Consistent(cells, 2);
    assert cells[1] == r.cells[1].(value := cells[1].value);
    assert cells[2] == r.cells[2].(value := cells[2].value);
    DiamondShapeValues(cells, f, h, v);
  }

  /** Every invocation that `set_value` on cell 0 of a diamond causes is
      the callback of cell 2 with its final value, and only when that value
      changed. */
  lemma DiamondFiresOnlyCallback(r: Reactor<int, int>, initial: int, f: seq<int> -> int, h: seq<int> -> int, tag: int, v: int)
    requires IsDiamond(r, initial, f, h, tag)
    ensures forall e :: e in SetValue(r, 0, v).fired ==>
              e == Event(2, 0, tag, h([v, f([v])])) && h([v, f([v])]) != h([initial, f([initial])])
  {
    SetOnDiamondValues(r, initial, f, h, tag, v);
    DiamondDependants(r, initial, f, h, tag);
    SetValueFires(r, 0, v);
  }

  /** When the value of cell 2 changes, its callback is invoked. */
  lemma DiamondFiresOnChange(r: Reactor<int, int>, initial: int, f: seq<int> -> int, h: seq<int> -> int, tag: int, v: int)
    requires IsDiamond(r, initial, f, h, tag)
    requires h([v, f([v])]) != h([initial, f([initial])])
    ensures Event(2, 0, tag, h([v, f([v])])) in SetValue(r, 0, v).fired
  {
    var o := SetValue(r, 0, v);
    SetOnDiamondValues(r, initial, f, h, tag, v);
    DiamondDependants(r, initial, f, h, tag);
    SetValueFires(r, 0, v);
    assert DependsOn(DepGraph(r.cells), 2, 0);
    assert 0 in Callbacks(o.state.cells, 2) && Callbacks(o.state.cells, 2)[0] == tag;
  }

  /** The invocations of one `set_value` on cell 0 of a diamond: the
      callback of cell 2 with its final value if that value changed, and
      nothing otherwise. */
  lemma DiamondFired(r: Reactor<int, int>, initial: int, f: seq<int> -> int, h: seq<int> -> int, tag: int, v: int)
    requires IsDiamond(r, initial, f, h, tag)
    ensures SetValue(r, 0, v).fired ==
              if h([v, f([v])]) != h([initial, f([initial])]) then {Event(2, 0, tag, h([v, f([v])]))} else {}
  {
    DiamondFiresOnlyCallback(r, initial, f, h, tag, v);
    if h([v, f([v])]) != h([initial, f([initial])]) {
      DiamondFiresOnChange(r, initial, f, h, tag, v);
    }
  }

  /** What one `set_value` on cell 0 of a diamond does: although cell 2 is
      reached along two paths and recomputed twice, it ends with its
      function of the final values, and its callback is invoked at most
      once, with that value, exactly when the value changed. */
  lemma SetOnDiamond(r: Reactor<int, int>, initial: int, f: seq<int> -> int, h: seq<int> -> int, tag: int, v: int)
    requires IsDiamond(r, initial, f, h, tag)
    ensures var o := SetValue(r, 0, v);
            && Value(o.state, 1) == Some(f([v]))
            && Value(o.state, 2) == Some(h([v, f([v])]))
            && o.fired == if h([v, f([v])]) != h([initial, f([initial])]) then {Event(2, 0, tag, h([v, f([v])]))} else {}
  {
    SetOnDiamondValues(r, initial, f, h, tag, v);
    DiamondFired(r, initial, f, h, tag, v);
  }

  /** Cell 1 = cell 0 + 1 and cell 2 = cell 0 * cell 1: setting cell 0 from
      1 to 3 makes cell 2 go from 2 to 12, and its callback fires once, with 12. */
  lemma DiamondProductFires()
    ensures var r := Diamond(1, vs => if |vs| == 1 then vs[0] + 1 else 0,
                                vs => if |vs| == 2 then vs[0] * vs[1] else 0, 7);
            var o := SetValue(r, 0, 3);
            Value(o.state, 2) == Some(12) && o.fired == {Event(2, 0, 7, 12)}
  {
    var increment := (vs: seq<int>) => if |vs| == 1 then vs[0] + 1 else 0;
    var product := (vs: seq<int>) => if |vs| == 2 then vs[0] * vs[1] else 0;
    assert increment([3]) == 4 && increment([1]) == 2;
    assert product([3, 4]) == 12 && product([1, 2]) == 2;
    SetOnDiamond(Diamond(1, increment, product, 7), 1, increment, product, 7, 3);
  }
}
