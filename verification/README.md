# leptos_reactive: the runtime's scope and tracking bookkeeping, in Dafny

This project models the bookkeeping core of the `leptos_reactive` runtime
(`leptos_reactive/src/runtime.rs` and `leptos_reactive/src/scope.rs`):

- the **scope arena**, a generational `SlotMap<ScopeId, ScopeState>` owned by the `Runtime`;
- each scope's three **entity arenas** (signals, memos, effects) holding type-erased boxes,
  reached through two-part handles `(ScopeId, LocalId)`;
- the **subscriber tracking stack** `Vec<Subscriber>` with push, pop, peek (`running_effect`)
  and the empty-stack swap of `untrack`;
- scope creation, entity creation, `child_scope`, disposal and `ScopeDisposer`.

Files and modules:

| file | module | models |
|---|---|---|
| `wrappers.dfy` | `Wrappers` | `Option`, and `Result`/`Outcome` standing for the runtime's panics |
| `slotmap.dfy` | `SlotMaps` | the `slotmap` crate's arena: a map plus an ever-growing next key, so a removed key never resolves again |
| `state.dfy` | `ReactiveState` | ids, type tags, boxed entities, `Subscriber`, the panic kinds (`Fault`), `ScopeState`, `ScopeDisposer` |
| `runtime.dfy` | `Runtimes` | `class Runtime` with fields `stack` and `scopes`, its lookups as functions and its mutators as methods |
| `scope.dfy` | `Scopes` | `Scope` (runtime + id) and the operations of `scope.rs` |
| `findings.dfy` | `Findings` | the places where the code departs from its evident intent, as written and corrected |

Modelling choices:

- A panic ("couldn't locate …", "couldn't convert … to SignalState<T>") is a `Failure`/`Fail`
  carrying a `Fault` that names the same handle the message names.
- The closure argument `f` of `scope`, `any_*`, `signal` and `memo` is dropped: each function
  returns the value `f` would be called on. The body of `untrack` is a function from the stack
  it starts with to the stack it leaves and its result.
- `Box<dyn AnySignal>` and friends are `AnyEntity(tag, state)`; the downcast to `SignalState<T>`
  or `MemoState<T>` succeeds exactly when the tag equals the requested type's name.
- The runtime's invariant `Runtime.Valid()` says every arena hands out keys above all live
  ones, and that a child id is larger than its parent's id. Every operation keeps it.
- `ScopeDisposer` is a value: `DisposeScope(id)` (the closure `move || scope.dispose()`)
  or `DoNothing` (the closure of `child_scope`). `Scopes.RunDisposer` runs it.

## Model

| member | source | states |
|---|---|---|
| `SlotMaps.SlotMap.Insert` | leptos_reactive/src/runtime.rs:115 | the value is stored under a key that was never live before and is at least `next`; every other key resolves as before; the arena stays valid |
| `SlotMaps.SlotMap.Set` | leptos_reactive/src/scope.rs:43-45 | updating a live scope's state in place keeps the key set and `next`, and changes only that key's value |
| `SlotMaps.SlotMap.Remove` | leptos_reactive/src/runtime.rs:130-133 | the key stops resolving, every other key resolves as before, an absent key leaves the map equal, validity is kept |
| `SlotMaps.SlotMap.RemoveAll` | leptos_reactive/src/scope.rs:69-71 | exactly the given keys stop resolving; all others keep their values |
| `SlotMaps.Empty` | leptos_reactive/src/scope.rs:107-111 | a fresh arena holds no key and is valid |
| `SlotMaps.StaleKeyNeverResolves` | leptos_reactive/src/runtime.rs:115 | a key below `next` that is not live resolves after no sequence of insertions (keys are not reissued) |
| `SlotMaps.RemovedNeverResolves` | leptos_reactive/src/runtime.rs:130-133 | once a live key is removed it never resolves again, whatever is inserted afterwards (the generation check) |
| `ReactiveState.NewScopeState` | leptos_reactive/src/scope.rs:104-113 | records the parent; children empty; signal, memo and effect arenas resolve nothing |
| `Runtimes.Runtime.constructor` | leptos_reactive/src/runtime.rs:16-18 | a new runtime has an empty stack and no scopes |
| `Runtimes.Runtime.Scope` | leptos_reactive/src/runtime.rs:20-26 | succeeds exactly when the id is live, with the stored state; otherwise the "couldn't locate" fault for that id |
| `Runtimes.Runtime.AnyEffect` | leptos_reactive/src/runtime.rs:28-40 | succeeds exactly when both the scope and the effect id are live, with the stored box; a dead scope is a fault on the scope id, a dead effect one on the pair |
| `Runtimes.Runtime.AnyMemo` | leptos_reactive/src/runtime.rs:42-50 | the same for the memo arena |
| `Runtimes.Runtime.Memo` | leptos_reactive/src/runtime.rs:52-66 | succeeds exactly when `AnyMemo` does and the stored type tag equals the requested one, handing over that memo's state; passes `AnyMemo`'s faults on; a tag mismatch is the "couldn't convert" fault |
| `Runtimes.Runtime.AnySignal` | leptos_reactive/src/runtime.rs:68-80 | the same as `AnyEffect` for the signal arena |
| `Runtimes.Runtime.Signal` | leptos_reactive/src/runtime.rs:82-96 | the same as `Memo`, over `AnySignal` |
| `Runtimes.Runtime.RunningEffect` | leptos_reactive/src/runtime.rs:98-100 | `None` exactly when the stack is empty, otherwise the most recently pushed subscriber still on it |
| `Runtimes.Runtime.CreateScope` | leptos_reactive/src/runtime.rs:110-120 | stores `ScopeState::new(parent)` under an id never live before; every other scope, the parent included, is unchanged; the stack is unchanged; the disposer disposes the new scope |
| `Runtimes.Runtime.PushStack` | leptos_reactive/src/runtime.rs:122-124 | appends the subscriber, which is then the running effect; scopes unchanged |
| `Runtimes.Runtime.PopStack` | leptos_reactive/src/runtime.rs:126-128 | drops the last subscriber; an empty stack stays empty |
| `Runtimes.PushPopRestores` | leptos_reactive/src/runtime.rs:122-128 | a push followed by a pop leaves the stack and the scopes exactly as before |
| `Runtimes.Runtime.RemoveScope` | leptos_reactive/src/runtime.rs:130-133 | the id no longer resolves, all other scopes are unchanged, an absent id changes nothing, the invariant is kept |
| `Runtimes.Runtime.Untrack` | leptos_reactive/src/runtime.rs:135-140 | the body runs on an empty stack (so it sees no running effect), its result is returned, and the stack afterwards equals the stack before |
| `Scopes.DisposeChildren` | leptos_reactive/src/scope.rs:66-74 | disposing a live scope removes exactly the ids listed in its children; a dead scope is the "couldn't locate" fault and changes nothing |
| `Scopes.DisposeChildrenValid` | leptos_reactive/src/scope.rs:66-74 | disposal keeps the arena invariant |
| `Scopes.DisposeKeepsSelf` | leptos_reactive/src/scope.rs:66-74 | as written, the disposed scope itself stays in the arena with its own entities |
| `Scopes.Scope.ChildScope` | leptos_reactive/src/scope.rs:26-30 | as written, `f` receives the very same scope, nothing is allocated, and the disposer does nothing |
| `Scopes.Scope.Untrack` | leptos_reactive/src/scope.rs:32-34 | the runtime's `untrack`, with the same guarantees |
| `Scopes.Scope.PushSignal` | leptos_reactive/src/scope.rs:39-46 | on a live scope: a fresh signal id that resolves to the given box; earlier signals, the memo and effect arenas, parent, children, all other scopes and the scope arena's key counter unchanged; on a dead scope the "couldn't locate" fault and no change |
| `Scopes.Scope.PushEffect` | leptos_reactive/src/scope.rs:48-55 | the same for the effect arena |
| `Scopes.Scope.PushMemo` | leptos_reactive/src/scope.rs:57-64 | the same for the memo arena |
| `Scopes.Scope.Dispose` | leptos_reactive/src/scope.rs:66-74 | the loop over the children removes them one by one; the final arena and outcome are `DisposeChildren`'s |
| `Scopes.CreateScope` | leptos_reactive/src/scope.rs:14-17 | a fresh runtime holding exactly one scope, with no parent and an empty stack; the disposer disposes that scope |
| `Scopes.RunDisposer` | leptos_reactive/src/scope.rs:79-83 | runs the disposer's one action: `Scope::dispose` for a `create_scope` disposer, nothing for the `child_scope` one |
| `Findings.DisposeAsWritten` | leptos_reactive/src/scope.rs:66-72 | with `RefCell`'s borrow rule, dispose never removes anything and succeeds exactly when the scope is live and childless; with children it is the borrow panic |
| `Findings.DisposeAsWrittenAgrees` | leptos_reactive/src/scope.rs:66-72 | for a childless scope the as-written and the loop disposal give the same arena |
| `Findings.BorrowConflictExample` | leptos_reactive/src/scope.rs:68-71 | on a chain 0→1→2, dispose(0) panics and keeps 1, where the loop removes 1 |
| `Findings.ShallowDisposeExample` | leptos_reactive/src/scope.rs:66-74 | on a chain 0→1→2, dispose(0) leaves 0 and 2 live |
| `Findings.Subtree` | leptos_reactive/src/scope.rs:73 | the scopes under an id include the id itself, and every one of them has an id no smaller (was created no earlier) |
| `Findings.SubtreeClosed` | leptos_reactive/src/scope.rs:66-74 | every child of a live scope in the subtree is in the subtree |
| `Findings.DisposeRecursive` | leptos_reactive/src/scope.rs:66-74 | corrected disposal removes exactly the scope's subtree, itself included, and keeps the invariant |
| `Findings.TreeDisposalComplete` | leptos_reactive/src/scope.rs:66-74 | after the corrected disposal neither the scope nor any child of any scope under it resolves |
| `Findings.UnregisteredChildSurvives` | leptos_reactive/src/runtime.rs:110-120 | a scope created with a parent survives that parent's disposal, because the parent's children do not list it |
| `Findings.CreateChildScope` | leptos_reactive/src/runtime.rs:110-120 | corrected creation stores `ScopeState::new(Some(parent))` under a fresh id, appends that id to the live parent's children (so the new scope is in the parent's subtree), moves the key counter past it and leaves the stack and every other scope unchanged; a dead parent is a fault and changes nothing |
| `Findings.GenuineChildScope` | leptos_reactive/src/scope.rs:26-30 | corrected `child_scope` yields a new scope distinct from the parent, registered among its children and under it in the tree, with a disposer for it; the stack, the key counter's monotonicity and every other scope are kept; a dead parent is a fault and changes nothing |

## Findings

| source | as written | input that shows it | evidently intended | confidence | as-written member | corrected member |
|---|---|---|---|---|---|---|
| leptos_reactive/src/scope.rs:68-71 | `dispose` calls `remove_scope` inside the closure of `Runtime::scope`, which still holds `scopes.borrow()` (runtime.rs:21) when `remove_scope` asks for `borrow_mut` (runtime.rs:131): a `RefCell` panic | any live scope whose children list is non-empty, e.g. scope 0 of the chain 0→1→2 | the children are removed one by one | not executed; high | `Findings.BorrowConflictExample` | `Scopes.Scope.Dispose` |
| leptos_reactive/src/scope.rs:66-74 | only the direct children are removed; the scope itself and deeper descendants stay, against the comment at line 73 | dispose scope 0 of the chain 0→1→2: scopes 0 and 2 stay live | the scope and its whole subtree leave the arena | not executed; high | `Findings.ShallowDisposeExample` | `Findings.DisposeRecursive` |
| leptos_reactive/src/runtime.rs:115 | `create_scope(f, Some(parent))` does not add the new id to the parent's `children` | any live parent: the new scope survives the parent's dispose | the new scope is registered as the parent's child | not executed; medium (no caller in these files passes a parent) | `Findings.UnregisteredChildSurvives` | `Findings.CreateChildScope` |
| leptos_reactive/src/scope.rs:26-30 | `child_scope` calls `f` with the same scope and returns a no-op disposer; the allocating line 27 is commented out | any scope `s`: `s.child_scope(f)` hands `s` itself to `f` | a new child scope with its own id and a disposer for it | not executed; high | `Scopes.Scope.ChildScope` | `Findings.GenuineChildScope` |

The as-written members stay the model of the code; the corrected ones stand beside them with
their properties proved. The root disposer (`Scopes.RunDisposer`) uses the corrected loop of
`Scopes.Scope.Dispose`, i.e. it sets the borrow conflict aside and keeps the shallow removal.
A consequence of the third row: as written, no operation ever puts an id into a `children`
list, so every list stays empty and `dispose` removes nothing.

## Left out

- The `contexts` map of `ScopeState` (scope.rs:96): nothing in these files reads or writes it, so `ScopeState` has no such field.
- `running_transition` and `transition` (runtime.rs:102-108) are stubs that always return `None`; transitions are not part of this model.
- Reading, writing and propagating signals, memos and effects, and their subscriber lists: that code is not part of this model, so an entity's state is the abstract `EntityState`.
- `Runtimes.Runtime.Untrack`: the body is a pure function of the stack, so effects it would have on the scope arena are not modelled, nor is a panic inside it that skips restoring the stack.
- `Runtimes.Runtime.CreateScope`: the call of `f` between inserting the scope and building the disposer is not modelled; the caller's later operations stand for it.
- `ScopeState.parent` keeps only the parent's `ScopeId`, not the runtime reference inside `Scope`: one runtime is assumed.
- `Scopes.RunDisposer`: the disposer holds only the scope id, so the runtime is passed in when it is run; consuming it exactly once (Rust's `FnOnce` and ownership) is not enforced.
- `Scopes.Scope.Dispose`: does not model the `RefCell` borrow panic that `dispose` raises whenever the scope's children list is non-empty (only `Findings.DisposeAsWritten` does); it removes the children instead. As written, no operation ever fills a `children` list, so on every state the code can reach the two agree (`Findings.DisposeAsWrittenAgrees`).
- `Scopes.RunDisposer`: inherits the same omission of the borrow panic from `Scopes.Scope.Dispose`.
- Other `RefCell` borrow panics, and panics inside closures.
- The slot map's version counters and slot reuse are replaced by never reissuing a key; arena exhaustion is not modelled.
- `TypeId`/`type_name` are compared as type-name strings.
- `Runtime`'s pointer-identity `PartialEq`/`Hash` (runtime.rs:143-155) and the deliberate `Box::leak` (scope.rs:15): memory-address and lifetime concerns.
- `examples/counter_isomorphic/src/counters.rs`: view code, server functions, atomics and server-sent events, outside the reactive core.
