/** `Scope` and its operations: creating the root scope, entity creation in a scope's arenas,
    disposal, `child_scope`, `untrack`, and running a `ScopeDisposer`. */
module Scopes {
  import opened Wrappers
  import opened SlotMaps
  import opened ReactiveState
  import opened Runtimes

  /** The arena after `Scope::dispose` on scope `id`, and whether it panicked: every scope
      listed in `id`'s children is removed, and nothing else. */
  function DisposeChildren(a: SlotMap<ScopeState>, id: ScopeId): (r: (SlotMap<ScopeState>, Outcome<Fault>))
    ensures id !in a.slots ==> r == (a, Fail(ScopeNotFound(id)))
    ensures id in a.slots ==> r.1 == Pass && r.0.next == a.next
    ensures id in a.slots ==>
              forall k :: r.0.Get(k) == if k in a.slots[id].children then None else a.Get(k)
  {
    if id !in a.slots then (a, Fail(ScopeNotFound(id)))
    else (a.RemoveAll(a.slots[id].ChildIds()), Pass)
  }

  /** Disposal keeps the arena's invariant. */
  lemma DisposeChildrenValid(a: SlotMap<ScopeState>, id: ScopeId)
    requires ValidArena(a)
    ensures ValidArena(DisposeChildren(a, id).0)
  {
  }

  /** As written, disposing a scope leaves the scope itself in the arena, with its own
      signals, memos and effects: only its children go. */
  lemma {:induction false} DisposeKeepsSelf(a: SlotMap<ScopeState>, id: ScopeId)
    requires ValidArena(a) && id in a.slots
    ensures DisposeChildren(a, id).0.Get(id) == Some(a.slots[id])
  {
  }

  /** `Scope`: a runtime and the id of one of its scopes, freely copied. */
  datatype Scope = Scope(runtime: Runtime, id: ScopeId) {

    /** `Scope::child_scope(f)` as written: `f` is called with this very scope, no scope is
        allocated, and the disposer does nothing. */
    method ChildScope() returns (child: Scope, disposer: ScopeDisposer)
      ensures child == this && child.id == id
      ensures disposer == DoNothing
    {
      child := this;
      disposer := DoNothing;
    }

    /** `Scope::untrack`: the runtime's `untrack`. */
    method Untrack<T>(body: seq<Subscriber> -> (seq<Subscriber>, T)) returns (r: T)
      modifies runtime
      ensures r == body([]).1
      ensures runtime.stack == old(runtime.stack) && runtime.scopes == old(runtime.scopes)
    {
      r := runtime.Untrack(body);
    }

    /** `Scope::push_signal`: stores the boxed signal in this scope's signal arena under a
        fresh id. Fails, changing nothing, when this scope is not live. */
    method PushSignal(state: AnyEntity) returns (r: Result<SignalId, Fault>)
      requires runtime.Valid()
      modifies runtime
      ensures runtime.Valid() && runtime.stack == old(runtime.stack)
      ensures id !in old(runtime.scopes.slots) ==>
                r == Failure(ScopeNotFound(id)) && runtime.scopes == old(runtime.scopes)
      ensures id in old(runtime.scopes.slots) ==>
                && r.Success? && id in runtime.scopes.slots
                && runtime.AnySignal((id, r.value)) == Success(state)
                && var before, after := old(runtime.scopes.slots[id]), runtime.scopes.slots[id];
                && InsertedAt(before.signals, after.signals, r.value, state)
                && after.signals == before.signals.Insert(state).0
                && after == before.(signals := after.signals)
      ensures runtime.scopes.slots.Keys == old(runtime.scopes.slots.Keys)
      ensures runtime.scopes.next == old(runtime.scopes.next)
      ensures forall other :: other != id ==> runtime.scopes.Get(other) == old(runtime.scopes.Get(other))
    {
      match runtime.Scope(id)
      case Failure(e) =>
        r := Failure(e);
      case Success(scope) =>
        var (signals, key) := scope.signals.Insert(state);
        runtime.scopes := runtime.scopes.Set(id, scope.(signals := signals));
        r := Success(key);
    }

    /** `Scope::push_effect`: as `PushSignal`, in the effect arena. */
    method PushEffect(state: AnyEntity) returns (r: Result<EffectId, Fault>)
      requires runtime.Valid()
      modifies runtime
      ensures runtime.Valid() && runtime.stack == old(runtime.stack)
      ensures id !in old(runtime.scopes.slots) ==>
                r == Failure(ScopeNotFound(id)) && runtime.scopes == old(runtime.scopes)
      ensures id in old(runtime.scopes.slots) ==>
                && r.Success? && id in runtime.scopes.slots
                && runtime.AnyEffect((id, r.value)) == Success(state)
                && var before, after := old(runtime.scopes.slots[id]), runtime.scopes.slots[id];
                && InsertedAt(before.effects, after.effects, r.value, state)
                && after.effects == before.effects.Insert(state).0
                && after == before.(effects := after.effects)
      ensures runtime.scopes.slots.Keys == old(runtime.scopes.slots.Keys)
      ensures runtime.scopes.next == old(runtime.scopes.next)
      ensures forall other :: other != id ==> runtime.scopes.Get(other) == old(runtime.scopes.Get(other))
    {
      match runtime.Scope(id)
      case Failure(e) =>
        r := Failure(e);
      case Success(scope) =>
        var (effects, key) := scope.effects.Insert(state);
        runtime.scopes := runtime.scopes.Set(id, scope.(effects := effects));
        r := Success(key);
    }

    /** `Scope::push_memo`: as `PushSignal`, in the memo arena. */
    method PushMemo(state: AnyEntity) returns (r: Result<MemoId, Fault>)
      requires runtime.Valid()
      modifies runtime
      ensures runtime.Valid() && runtime.stack == old(runtime.stack)
      ensures id !in old(runtime.scopes.slots) ==>
                r == Failure(ScopeNotFound(id)) && runtime.scopes == old(runtime.scopes)
      ensures id in old(runtime.scopes.slots) ==>
                && r.Success? && id in runtime.scopes.slots
                && runtime.AnyMemo((id, r.value)) == Success(state)
                && var before, after := old(runtime.scopes.slots[id]), runtime.scopes.slots[id];
                && InsertedAt(before.memos, after.memos, r.value, state)
                && after.memos == before.memos.Insert(state).0
                && after == before.(memos := after.memos)
      ensures runtime.scopes.slots.Keys == old(runtime.scopes.slots.Keys)
      ensures runtime.scopes.next == old(runtime.scopes.next)
      ensures forall other :: other != id ==> runtime.scopes.Get(other) == old(runtime.scopes.Get(other))
    {
      match runtime.Scope(id)
      case Failure(e) =>
        r := Failure(e);
      case Success(scope) =>
        var (memos, key) := scope.memos.Insert(state);
        runtime.scopes := runtime.scopes.Set(id, scope.(memos := memos));
        r := Success(key);
    }

    /** `Scope::dispose`: removes, one after another, every scope listed in this scope's
        children. This scope itself and the children's own children stay. */
    method Dispose() returns (r: Outcome<Fault>)
      requires runtime.Valid()
      modifies runtime
      ensures runtime.Valid() && runtime.stack == old(runtime.stack)
      ensures (runtime.scopes, r) == DisposeChildren(old(runtime.scopes), id)
    {
      match runtime.Scope(id)
      case Failure(e) =>
        r := Fail(e);
      case Success(scope) =>
        var children := scope.children;
        ghost var before := runtime.scopes;
        ghost var removed: set<ScopeId> := {};
        for i := 0 to |children|
          invariant runtime.Valid() && runtime.stack == old(runtime.stack)
          invariant forall c :: c in removed <==> c in children[..i]
          invariant runtime.scopes == before.RemoveAll(removed)
        {
          runtime.RemoveScope(children[i]);
          RemoveAllStep(before, removed, children[i]);
          removed := removed + {children[i]};
          assert children[..i + 1] == children[..i] + [children[i]];
        }
        assert children[..|children|] == children;
        assert removed == scope.ChildIds();
        r := Pass;
    }
  }

  /** The top-level `create_scope(f)`: a new runtime holding exactly one scope, which has
      no parent; `f` is called with that scope, and the disposer disposes it. */
  method CreateScope() returns (scope: Scope, disposer: ScopeDisposer)
    ensures fresh(scope.runtime) && scope.runtime.Valid() && scope.runtime.stack == []
    ensures scope.runtime.Scope(scope.id) == Success(NewScopeState(None))
    ensures forall other :: other != scope.id ==> scope.runtime.scopes.Get(other) == None
    ensures disposer == DisposeScope(scope.id)
  {
    var runtime := new Runtime();
    var id;
    id, disposer := runtime.CreateScope(None);
    scope := Scope(runtime, id);
  }

  /** `ScopeDisposer::dispose`: runs the disposer's action once. For a disposer made by
      `create_scope` that is `Scope::dispose` on its scope; the one from `child_scope` does
      nothing. */
  method RunDisposer(runtime: Runtime, disposer: ScopeDisposer) returns (r: Outcome<Fault>)
    requires runtime.Valid()
    modifies runtime
    ensures runtime.Valid() && runtime.stack == old(runtime.stack)
    ensures disposer == DoNothing ==> r == Pass && runtime.scopes == old(runtime.scopes)
    ensures disposer.DisposeScope? ==>
              (runtime.scopes, r) == DisposeChildren(old(runtime.scopes), disposer.scope)
  {
    match disposer
    case DoNothing =>
      r := Pass;
    case DisposeScope(id) =>
      r := Scope(runtime, id).Dispose();
  }
}
