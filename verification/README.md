# Reactor: a verified model of an incremental-computation cell graph

The Reactor is an in-memory graph of cells. An *input cell* holds a value
that the caller sets. A *computed cell* caches a function of the values of
its dependencies, given as an ordered list of earlier cells. Setting an
input (`set_value`) does four things:

1. it finds every cell that depends on the input, directly or transitively;
2. it records their values;
3. it recomputes them along the dependency edges;
4. it invokes the callbacks registered on each of those cells whose value
   changed, once each, with the new value.

Callbacks are added and removed by id. The ids come from one counter that
only ever grows.

The model is functional. The state is `Reactor(cells, nextCallback)`, where
`cells` is a `seq<Cell>` indexed by cell id, in creation order. A computed
cell carries:

- its dependency ids, in declared order;
- its compute function, as a pure Dafny function `seq<T> -> T`;
- its callbacks, as a map from callback id to an opaque tag.

Every operation is a pure function that returns the new state and the
result. `SetValue` also returns the set of callback invocations it caused,
as `Event(cell, callback, tag, value)` values.

The invariant `Valid` holds for every reactor reached through the
reactor's operations. It says:

- every dependency id is smaller than its dependant's id, so the graph is
  acyclic;
- every computed cell caches its function of its dependencies' current
  values;
- every registered callback id is below the counter;
- no callback id is registered on two cells.

Modules, in dependency order:

- `Cells` (`cells.dfy`): the data model, the error variants, `Valid`, and `value`.
- `Dependencies` (`dependencies.dfy`): the backward walk of `find_deep_dependencies_on`, proved against a reference definition of transitive dependence (`DependsOn`).
- `Evaluator` (`evaluator.dfy`): `compute_cell_shallow`, which walks a cell's edges in any order and restores argument order from the edge labels. It also holds the reference recomputation `FromScratch` and the proof that an all-consistent state is determined by its inputs.
- `Propagation` (`propagation.dfy`): `update_dependants`, and the proof that it updates exactly the input and its dependants and leaves every cell consistent.
- `Registry` (`registry.dfy`): `add_callback`, `remove_callback` and `invoke_callback`.
- `React` (`react.dfy`): `create_input`, `create_compute` and `set_value`, with their postconditions. It also models runs of operations, with the guarantees that a removed callback never fires again and that issued ids never repeat.
- `Scenarios` (`scenarios.dfy`): concrete runs on a two-cell reactor and on a diamond (one input read by a computed cell directly and through a second computed cell), showing the callback contract at work.

The incoming-edge walk is modelled in the walker's own order. Each edge is
visited once, so a dependant appears once per edge. Edges are visited most
recently added first, so later cells come first (`Dependencies.Incoming`).
`Propagation.UpdateAlongCorrect` and `Dependencies.FoundAlongDependsOn` hold
for any list of direct dependants, so the results do not rest on that order.

## Model

| member | source | states |
|---|---|---|
| Cells.Value | src/lib.rs:137-139 | `None` exactly when the id names no cell, otherwise that cell's cached value; the reactor is only read |
| Cells.Empty | src/lib.rs:80-85 | a new reactor, with no cells and the counter at 0, satisfies the reactor invariant |
| Dependencies.IncomingBelow | src/lib.rs:200-201 | the incoming walk yields only direct dependants of `id` created after it, and yields every one of them |
| Dependencies.FindDeepDependenciesOn | src/lib.rs:197-206 | every cell found was created after `id` and has dependencies; `Dependencies.FindDeepExact` shows the set is exactly the cells depending on `id` |
| Dependencies.FindDeepExact | src/lib.rs:197-206 | the recursive walk returns exactly the cells that depend on `id` through one or more edges; `id` itself is never included, and a cell reached along several paths is in the set once |
| Dependencies.FoundAlongDependsOn | src/lib.rs:200-204 | every cell the loop over a list of direct dependants collects depends on `id` transitively, whatever the order of the list |
| Dependencies.OutsideHasNoAffectedDeps | src/lib.rs:197-206 | a cell outside `{id}` plus its dependants has no dependency inside that region |
| Evaluator.OutEdgesArePositions | src/lib.rs:123-126 | the edges of a computed cell are labelled with argument positions `0..n-1`, each edge pointing at the dependency declared at that position |
| Evaluator.Recompute | src/lib.rs:188-194 | recomputing a cell changes no other cell and no structure; an input cell is left as it is; a computed cell afterwards caches its function of its dependencies' values |
| Evaluator.ComputeCellShallow | src/lib.rs:179-195 | collecting dependency values over the edges in any order, keyed by edge label, and reading them back in key order gives the arguments in declared order; the result equals `Recompute`, or `MissingCell` for an unknown id |
| Evaluator.ConsistentUnique | src/lib.rs:208-218 | two states of one graph in which every computed cell is consistent, and which agree on every input, are equal; so the propagation order cannot change the final values |
| Propagation.UpdateDependants | src/lib.rs:208-218 | recursive propagation changes only cached values, never the structure or an input cell |
| Propagation.UpdateDependantsCorrect | src/lib.rs:208-218 | `update_dependants(id)` changes only `id` and the cells depending on it, leaves all of them consistent, and keeps every other consistent cell consistent |
| Propagation.UpdateAlong | src/lib.rs:213-216 | the loop over the dependants changes only cached values and leaves input cells alone; `Propagation.UpdateAlongCorrect` states which cells it updates |
| Propagation.UpdateAlongCorrect | src/lib.rs:213-216 | the loop over any list of direct dependants is such an update of exactly the cells that list leads to |
| Registry.AddCallback | src/lib.rs:243-254 | `MissingCell` or `ExpectedComputedCell` with the state unchanged; otherwise the callback is stored under the counter value, that value is returned, the counter grows by one, and nothing else changes |
| Registry.AddCallbackFresh | src/lib.rs:243-254 | the returned id was registered on no cell before, and the reactor stays valid |
| Registry.RemoveCallback | src/lib.rs:262-274 | `MissingCell`, `ExpectedComputedCell` or `CallbackDoesntExist` with the state unchanged; otherwise only that one entry is removed |
| Registry.RemoveCallbackForgets | src/lib.rs:262-274 | after a successful removal the id is registered on no cell, and the reactor stays valid |
| Registry.RemoveAfterAdd | src/lib.rs:243-274 | removing a callback right after adding it restores the cells exactly; only the counter has advanced |
| Registry.InvokeCallback | src/lib.rs:221-229 | `MissingCell` or `ExpectedComputedCell` for an unknown or input cell; otherwise one event for each registered callback and nothing else, each carrying the cell's current value |
| Registry.InvokeCallbackOnce | src/lib.rs:221-229 | each registered callback of the cell is invoked, and invoked exactly once |
| React.CreateInput | src/lib.rs:88-91 | appends an input cell holding `initial` under id = old cell count; earlier cells and the counter are unchanged; validity is kept |
| React.MissingDeps | src/lib.rs:105-108 | an id is reported as missing exactly when it occurs among the dependencies and names no cell |
| React.MissingDepsAppend | src/lib.rs:105-108 | the report keeps the input order and repetitions: filtering distributes over concatenation |
| React.CreateCompute | src/lib.rs:104-128 | with any missing dependency: `MissingDepedencies` listing exactly the missing ids, state unchanged; otherwise it appends a computed cell with the given dependencies, the given function `f`, no callbacks, and a consistent cached value, under id = old cell count; validity is kept |
| React.CreateComputeReads | src/lib.rs:114-126 | the new cell's value is `f` applied to the dependencies' values in declared order, and its edges carry positions `0..n-1` |
| React.Fire | src/lib.rs:168-171 | the invocations are each registered callback of each changed cell, once, with that cell's value, and nothing else; `React.SetValueFires` states what this means for `set_value` |
| React.SetValue | src/lib.rs:150-159 | `MissingCell` or `ExpectedInputCell` leaves the state unchanged and fires nothing; on success the input holds the new value, the structure, callbacks and counter are unchanged |
| React.SetValueUpdates | src/lib.rs:150-164 | after a successful set every computed cell again caches its function of its dependencies' values, so the reactor is valid; every cell that is not the input and does not depend on it is unchanged |
| React.SetValueFires | src/lib.rs:160-171 | the invocations are exactly those of the callbacks on the cells that depend on the input and whose value changed, each with that cell's final value |
| React.AffectedAreComputed | src/lib.rs:165-171 | every cell that depends on the input is an existing computed cell, so `invoke_callback` on it succeeds |
| React.SetValueFiresOnce | src/lib.rs:237-242 | within one set, no callback is invoked twice |
| React.SetValueMatchesFromScratch | src/lib.rs:150-172 | the propagated state equals the reference evaluation of the cells with the new input value |
| React.SetSameValueIsQuiet | src/lib.rs:150-172 | setting an input to the value it already holds leaves the reactor equal to what it was and fires no callback |
| React.ValueOfComputed | src/lib.rs:137-139 | in a valid reactor, the value of a computed cell is its function of the values of its dependencies |
| React.Propagate | src/lib.rs:208-218 | the public `update_dependants`: `MissingCell` with the state unchanged for an unknown id; otherwise only cached values of computed cells change, and the counter is kept |
| React.PropagateIsIdle | src/lib.rs:208-218 | on a valid reactor an explicit `update_dependants` changes nothing, for any id |
| React.Step | src/lib.rs:79-274 | each public operation that changes the reactor, `update_dependants` included, keeps the reactor valid and never lowers the callback counter; only `set_value` invokes callbacks |
| React.Run | src/lib.rs:99-103 | any sequence of operations keeps the reactor valid and never lowers the callback counter |
| React.RemovedCallbackNeverFires | src/lib.rs:256-261 | after a successful removal the callback is never invoked again, whatever operations follow |
| Scenarios.SetOnOneDependant | src/lib.rs:237-242 | with input cell 0 and computed cell 1 = `f`(cell 0) carrying one callback, setting cell 0 to `v` gives cell 1 the value `f([v])`, and invokes the callback exactly when `f([v])` differs from the old value, once, with `f([v])` |
| Scenarios.IncrementFires | src/lib.rs:237-242 | cell 1 = cell 0 + 1: setting cell 0 from 1 to 3 makes cell 1 equal to 4 and invokes its callback once, with 4 |
| Scenarios.UnchangedStaysSilent | src/lib.rs:237-242 | cell 1 = (cell 0 >= 10): setting cell 0 from 1 to 2 recomputes cell 1 to the same value and invokes no callback |
| Scenarios.DiamondWalk | src/lib.rs:197-216 | in the diamond the incoming walk from the input yields the later cell first and then the middle cell, whose own walk yields the later cell again; so that cell is recomputed twice |
| Scenarios.SetOnDiamond | src/lib.rs:237-242 | in the diamond, setting the input to `v` gives the later cell its function of `v` and the middle cell's new value; its callback is invoked once, with that value, exactly when it changed |
| Scenarios.DiamondProductFires | src/lib.rs:237-242 | cell 1 = cell 0 + 1, cell 2 = cell 0 * cell 1: setting cell 0 from 1 to 3 takes cell 2 from 2 to 12 and invokes its callback once, with 12 |
| React.IssuedIdsDistinct | src/lib.rs:243-254 | an id handed out later, after any operations, is larger than one handed out earlier, so issued ids never repeat |

## Left out

- The petgraph structure is replaced by the cell sequence and each cell's ordered dependency list. The edges leaving a cell are `Evaluator.OutEdges`, and the edges into it are `Dependencies.Incoming`.
- Closures are left out. Compute functions are pure Dafny functions. Callbacks are opaque tags, and invoking one yields an `Event` instead of running code with side effects.
- `HashMap` and `HashSet` iteration order is left out. It decides the order in which callbacks run, within a cell and across cells. Invocations are therefore returned as a set.
- The `u32` callback counter is modelled as an unbounded `nat`. Overflow after 2^32 registrations is not modelled.
- A callback that calls back into the reactor (for example a reentrant `set_value`) is left out. The source does not define what happens.
- The `Fail` and `Debug` derives and the display strings of the errors are left out. Only the error variants and their payloads are kept.
- React.SetValue: the `?` error exits inside `set_value` are not modelled. These are `MissingCell` from `compute_cell_shallow` during propagation and `ExpectedComputedCell` from `invoke_callback`. Under `Valid`, every cell the walk reaches exists, and every cell in the affected set is computed, because only computed cells have dependencies. So these exits cannot happen (`React.AffectedAreComputed`), and the model reports success.
- React.SetValue: the change test is Rust's `!=` under `PartialEq` (lib.rs:78, lib.rs:169), which need not be reflexive. With `f64` values, a cell holding NaN before and after counts as changed and its callbacks run. The model compares with Dafny's `==`, which is an equivalence, so it does not model that case.
- React.SetSameValueIsQuiet: holds only for a reflexive equality on the value type, for the reason above; with a NaN value the source would invoke callbacks.
- React.SetValue: its contract requires the cell-ordering part of the invariant. Every operation in `React.Op` keeps it (`React.Run`), so it holds in every state those operations reach, and the model needs it for the recursion to terminate.
- React.Step: direct use of the public `dep_graph` field (lib.rs:25) is not modelled. Through it a caller can add an edge that closes a cycle, after which `set_value` recurses without end, or overwrite a cached value. `Valid` and everything proved from it hold only for reactors changed through the operations in `React.Op`.
- Single-pass recomputation is left out. The source, like the model, recomputes a cell once for each path and each edge that reaches it. Recomputing every affected cell once each, in topological order, is the recommended strategy, but the code does not do that. The model follows the code. `Evaluator.ConsistentUnique` shows the final state is the same either way.
- The snapshot of "before" values is taken after the input has been written. This differs from the order in which the protocol is usually described. Nothing changes as a result, because the input itself is not in the affected set.
