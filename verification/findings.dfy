/** Where the runtime's scope bookkeeping departs from what its own comments and the
    commented-out code say it should do: each departure is modelled as written, shown on an
    input, and paired with the corrected operation and the property it then has. */
module Findings {
  import opened Wrappers
  import opened SlotMaps
  import opened ReactiveState
  import opened Runtimes
  import opened Scopes

  /** Why `Scope::dispose` panics as written. */
  datatype DisposePanic =
    | Located(fault: Fault)          // `Runtime::scope` found no such scope
    | AlreadyBorrowed(scope: ScopeId) // `remove_scope` asks for `borrow_mut` while `scope` holds `borrow`

  /** `Scope::dispose` with `RefCell`'s borrow rule applied: `Runtime::scope` keeps the
      arena borrowed while its closure runs, so the first `remove_scope` inside it panics
      before anything is removed. Only a scope without children disposes cleanly. */
  function DisposeAsWritten(a: SlotMap<ScopeState>, id: ScopeId): (r: (SlotMap<ScopeState>, Outcome<DisposePanic>))
    ensures r.0 == a
    ensures id !in a.slots ==> r.1 == Fail(Located(ScopeNotFound(id)))
    ensures r.1 == Pass <==> id in a.slots && a.slots[id].children == []
    ensures id in a.slots && a.slots[id].children != [] ==> r.1 == Fail(AlreadyBorrowed(id))
  {
    if id !in a.slots then (a, Fail(Located(ScopeNotFound(id))))
    else if a.slots[id].children != [] then (a, Fail(AlreadyBorrowed(id)))
    else (a, Pass)
  }

  /** Without the panic the two agree: a scope without children disposes to the same arena. */
  lemma DisposeAsWrittenAgrees(a: SlotMap<ScopeState>, id: ScopeId)
    requires id in a.slots && a.slots[id].children == []
    ensures DisposeAsWritten(a, id).0 == DisposeChildren(a, id).0
  {
    assert a.RemoveAll(a.slots[id].ChildIds()).slots == a.slots;
  }

  /** A three-scope chain 0 -> 1 -> 2, each listing the next as its child. */
  function Chain(): (a: SlotMap<ScopeState>)
    ensures ValidArena(a)
  {
    var s := NewScopeState(None);
    SlotMap(map[0 := s.(children := [1]),
                1 := s.(parent := Some(0), children := [2]),
                2 := s.(parent := Some(1))], 3)
  }

  /** On the chain, disposing scope 0 as written panics and keeps its child, where the
      evident intent (the loop over the children) removes the child. */
  lemma BorrowConflictExample()
    ensures DisposeAsWritten(Chain(), 0).1 == Fail(AlreadyBorrowed(0))
    ensures DisposeAsWritten(Chain(), 0).0.Get(1).Some?
    ensures DisposeChildren(Chain(), 0).0.Get(1) == None
  {
  }

  /** On the chain, disposing scope 0 removes scope 1 only: scope 0 itself and its
      grandchild 2 stay live, though the disposal should drop the scope and everything
      under it. */
  lemma ShallowDisposeExample()
    ensures DisposeChildren(Chain(), 0).0.Get(0).Some?
    ensures DisposeChildren(Chain(), 0).0.Get(1) == None
    ensures DisposeChildren(Chain(), 0).0.Get(2).Some?
  {
  }

  /** Every scope under `id` (itself included), found through the children lists. Ids
      listed as children but no longer live are included; removing them changes nothing.
      Every scope under `id` was created after it. */
  function Subtree(a: SlotMap<ScopeState>, id: ScopeId): (r: set<ScopeId>)
    requires ChildrenAfterParent(a)
    ensures id in r
    ensures forall x :: x in r ==> id <= x
    decreases a.next - id, 1
  {
    {id} + if id in a.slots then Forest(a, a.slots[id].children, id) else {}
  }

  /** The subtrees under each of `roots`, all of which were handed out after `above`. */
  function Forest(a: SlotMap<ScopeState>, roots: seq<ScopeId>, above: ScopeId): (r: set<ScopeId>)
    requires ChildrenAfterParent(a)
    requires forall i :: 0 <= i < |roots| ==> above < roots[i] < a.next
    ensures forall x :: x in r ==> above < x
    decreases a.next - above, 0, |roots|
  {
    if roots == [] then {} else Subtree(a, roots[0]) + Forest(a, roots[1..], above)
  }

  lemma {:induction false} ForestHasRoots(a: SlotMap<ScopeState>, roots: seq<ScopeId>, above: ScopeId, i: nat)
    requires ChildrenAfterParent(a)
    requires forall j :: 0 <= j < |roots| ==> above < roots[j] < a.next
    requires i < |roots|
    ensures roots[i] in Forest(a, roots, above)
    decreases |roots|
  {
    if i > 0 {
      ForestHasRoots(a, roots[1..], above, i - 1);
    }
  }

  /** The subtree is closed under the children lists: a child of any live scope in it is in it. */
  lemma {:induction false} SubtreeClosed(a: SlotMap<ScopeState>, id: ScopeId, x: ScopeId, i: nat)
    requires ChildrenAfterParent(a)
    requires x in Subtree(a, id) && x in a.slots && i < |a.slots[x].children|
    ensures a.slots[x].children[i] in Subtree(a, id)
    decreases a.next - id, 1
  {
    if x == id {
      ForestHasRoots(a, a.slots[id].children, id, i);
    } else {
      ForestClosed(a, a.slots[id].children, id, x, i);
    }
  }

  lemma {:induction false} ForestClosed(a: SlotMap<ScopeState>, roots: seq<ScopeId>, above: ScopeId, x: ScopeId, i: nat)
    requires ChildrenAfterParent(a)
    requires forall j :: 0 <= j < |roots| ==> above < roots[j] < a.next
    requires x in Forest(a, roots, above) && x in a.slots && i < |a.slots[x].children|
    ensures a.slots[x].children[i] in Forest(a, roots, above)
    decreases a.next - above, 0, |roots|
  {
    if x in Subtree(a, roots[0]) {
      SubtreeClosed(a, roots[0], x, i);
    } else {
      ForestClosed(a, roots[1..], above, x, i);
    }
  }

  /** Corrected disposal, as the comment on `Scope::dispose` describes it: the scope and
      every scope under it leave the arena; every other scope stays. */
  method DisposeRecursive(runtime: Runtime, id: ScopeId) returns (r: Outcome<Fault>)
    requires runtime.Valid()
    modifies runtime
    ensures runtime.Valid() && runtime.stack == old(runtime.stack)
    ensures id !in old(runtime.scopes.slots) ==>
              r == Fail(ScopeNotFound(id)) && runtime.scopes == old(runtime.scopes)
    ensures id in old(runtime.scopes.slots) ==>
              r == Pass && runtime.scopes == old(runtime.scopes).RemoveAll(Subtree(old(runtime.scopes), id))
  {
    match runtime.Scope(id)
    case Failure(e) =>
      r := Fail(e);
    case Success(_) =>
      var doomed := Subtree(runtime.scopes, id);
      ghost var all := doomed;
      ghost var before := runtime.scopes;
      while doomed != {}
        invariant runtime.Valid() && runtime.stack == old(runtime.stack)
        invariant doomed <= all
        invariant runtime.scopes == before.RemoveAll(all - doomed)
        decreases doomed
      {
        var k :| k in doomed;
        runtime.RemoveScope(k);
        RemoveAllStep(before, all - doomed, k);
        assert (all - doomed) + {k} == all - (doomed - {k});
        doomed := doomed - {k};
      }
      r := Pass;
  }

  /** The corrected disposal is complete: after it, the disposed scope and every child of
      every scope under it fail to resolve, so no handle into the subtree resolves. */
  lemma TreeDisposalComplete(a: SlotMap<ScopeState>, id: ScopeId, x: ScopeId, i: nat)
    requires ValidArena(a)
    requires x in Subtree(a, id) && x in a.slots && i < |a.slots[x].children|
    ensures a.RemoveAll(Subtree(a, id)).Get(id) == None
    ensures a.RemoveAll(Subtree(a, id)).Get(a.slots[x].children[i]) == None
  {
    SubtreeClosed(a, id, x, i);
  }

  /** As written, `Runtime::create_scope` with a parent does not list the new scope among
      the parent's children, so disposing the parent leaves the new scope live. */
  lemma UnregisteredChildSurvives(a: SlotMap<ScopeState>, parent: ScopeId)
    requires ValidArena(a) && parent in a.slots
    ensures var (a', k) := a.Insert(NewScopeState(Some(parent)));
            DisposeChildren(a', parent).0.Get(k) == Some(NewScopeState(Some(parent)))
  {
    var (a', k) := a.Insert(NewScopeState(Some(parent)));
    assert a'.slots[parent] == a.slots[parent];
  }

  /** Corrected `create_scope` for a child: the new scope is also appended to its parent's
      children, so the parent's disposal reaches it. A parent that is not live is the
      "couldn't locate" panic. */
  method CreateChildScope(runtime: Runtime, parent: ScopeId) returns (r: Result<ScopeId, Fault>)
    requires runtime.Valid()
    modifies runtime
    ensures runtime.Valid() && runtime.stack == old(runtime.stack)
    ensures old(runtime.scopes.next) <= runtime.scopes.next
    ensures parent !in old(runtime.scopes.slots) ==>
              r == Failure(ScopeNotFound(parent)) && runtime.scopes == old(runtime.scopes)
    ensures parent in old(runtime.scopes.slots) ==>
              && r.Success? && r.value !in old(runtime.scopes.slots) && r.value != parent
              && old(runtime.scopes.next) <= r.value < runtime.scopes.next
              && runtime.Scope(r.value) == Success(NewScopeState(Some(parent)))
              && parent in runtime.scopes.slots
              && runtime.scopes.slots[parent] ==
                   old(runtime.scopes.slots[parent]).(children := old(runtime.scopes.slots[parent].children) + [r.value])
              && (forall other :: other != r.value && other != parent ==>
                    runtime.scopes.Get(other) == old(runtime.scopes.Get(other)))
              && r.value in Subtree(runtime.scopes, parent)
  {
    match runtime.Scope(parent)
    case Failure(e) =>
      r := Failure(e);
    case Success(state) =>
      var id, _ := runtime.CreateScope(Some(parent));
      var state' := state.(children := state.children + [id]);
      runtime.scopes := runtime.scopes.Set(parent, state');
      ForestHasRoots(runtime.scopes, state'.children, parent, |state.children|);
      r := Success(id);
  }

  /** Corrected `Scope::child_scope`, as its commented-out line reads: a genuine new child
      scope, distinct from this one, with a disposer for that child. */
  method GenuineChildScope(scope: Scope) returns (r: Result<Scope, Fault>, disposer: ScopeDisposer)
    requires scope.runtime.Valid()
    modifies scope.runtime
    ensures scope.runtime.Valid() && scope.runtime.stack == old(scope.runtime.stack)
    ensures old(scope.runtime.scopes.next) <= scope.runtime.scopes.next
    ensures scope.id !in old(scope.runtime.scopes.slots) ==>
              && r == Failure(ScopeNotFound(scope.id)) && disposer == DoNothing
              && scope.runtime.scopes == old(scope.runtime.scopes)
    ensures scope.id in old(scope.runtime.scopes.slots) ==>
              && r.Success? && r.value.runtime == scope.runtime && r.value.id != scope.id
              && r.value.id !in old(scope.runtime.scopes.slots)
              && scope.runtime.Scope(r.value.id) == Success(NewScopeState(Some(scope.id)))
              && r.value.id in Subtree(scope.runtime.scopes, scope.id)
              && scope.id in scope.runtime.scopes.slots
              && scope.runtime.scopes.slots[scope.id] ==
                   old(scope.runtime.scopes.slots[scope.id]).(children :=
                     old(scope.runtime.scopes.slots[scope.id].children) + [r.value.id])
              && (forall other :: other != r.value.id && other != scope.id ==>
                    scope.runtime.scopes.Get(other) == old(scope.runtime.scopes.Get(other)))
              && disposer == DisposeScope(r.value.id)
  {
    var created := CreateChildScope(scope.runtime, scope.id);
    match created
    case Failure(e) =>
      r, disposer := Failure(e), DoNothing;
    case Success(id) =>
      r, disposer := Success(Scope(scope.runtime, id)), DisposeScope(id);
  }
}
