/** `Runtime`: the scope arena and the subscriber tracking stack, both changed in place. */
module Runtimes {
  import opened Wrappers
  import opened SlotMaps
  import opened ReactiveState

  class Runtime {
    /** The tracking stack; its last element is the subscriber currently running. */
    var stack: seq<Subscriber>
    /** Every live scope, by id. */
    var scopes: SlotMap<ScopeState>

    ghost predicate Valid()
      reads this
    {
      ValidArena(scopes)
    }

    /** `Runtime::new`: no scopes and nothing running. */
    constructor ()
      ensures Valid() && stack == []
      ensures forall id :: scopes.Get(id) == None
    {
      stack := [];
      scopes := Empty();
    }

    /** `Runtime::scope(id, f)`: the state `f` is called on, or the "couldn't locate" panic. */
    function Scope(id: ScopeId): (r: Result<ScopeState, Fault>)
      reads this
      ensures r.Success? <==> id in scopes.slots
      ensures r.Success? ==> r.value == scopes.slots[id]
      ensures r.Failure? ==> r.error == ScopeNotFound(id)
    {
      match scopes.Get(id)
      case Some(s) => Success(s)
      case None => Failure(ScopeNotFound(id))
    }

    /** `Runtime::any_effect(id, f)`: the boxed effect `f` is called on. */
    function AnyEffect(id: (ScopeId, EffectId)): (r: Result<AnyEntity, Fault>)
      reads this
      ensures r.Success? <==> id.0 in scopes.slots && id.1 in scopes.slots[id.0].effects.slots
      ensures r.Success? ==> r.value == scopes.slots[id.0].effects.slots[id.1]
      ensures id.0 !in scopes.slots ==> r == Failure(ScopeNotFound(id.0))
      ensures id.0 in scopes.slots && id.1 !in scopes.slots[id.0].effects.slots ==>
                r == Failure(EffectNotFound(id))
    {
      match Scope(id.0)
      case Failure(e) => Failure(e)
      case Success(scope) =>
        match scope.effects.Get(id.1)
        case Some(n) => Success(n)
        case None => Failure(EffectNotFound(id))
    }

    /** `Runtime::any_memo(id, f)`: the boxed memo `f` is called on. */
    function AnyMemo(id: (ScopeId, MemoId)): (r: Result<AnyEntity, Fault>)
      reads this
      ensures r.Success? <==> id.0 in scopes.slots && id.1 in scopes.slots[id.0].memos.slots
      ensures r.Success? ==> r.value == scopes.slots[id.0].memos.slots[id.1]
      ensures id.0 !in scopes.slots ==> r == Failure(ScopeNotFound(id.0))
      ensures id.0 in scopes.slots && id.1 !in scopes.slots[id.0].memos.slots ==>
                r == Failure(MemoNotFound(id))
    {
      match Scope(id.0)
      case Failure(e) => Failure(e)
      case Success(scope) =>
        match scope.memos.Get(id.1)
        case Some(n) => Success(n)
        case None => Failure(MemoNotFound(id))
    }

    /** `Runtime::memo::<T, _>(id, f)`: the memo state `f` is called on, provided the memo was
        created at type `expected`. */
    function Memo(id: (ScopeId, MemoId), expected: TypeTag): (r: Result<EntityState, Fault>)
      reads this
      ensures r.Success? <==> AnyMemo(id).Success? && AnyMemo(id).value.tag == expected
      ensures r.Success? ==> r.value == AnyMemo(id).value.state
      ensures AnyMemo(id).Failure? ==> r == Failure(AnyMemo(id).error)
      ensures AnyMemo(id).Success? && AnyMemo(id).value.tag != expected ==>
                r == Failure(NotMemoOf(id, expected))
    {
      match AnyMemo(id)
      case Failure(e) => Failure(e)
      case Success(n) =>
        if n.tag == expected then Success(n.state) else Failure(NotMemoOf(id, expected))
    }

    /** `Runtime::any_signal(id, f)`: the boxed signal `f` is called on. */
    function AnySignal(id: (ScopeId, SignalId)): (r: Result<AnyEntity, Fault>)
      reads this
      ensures r.Success? <==> id.0 in scopes.slots && id.1 in scopes.slots[id.0].signals.slots
      ensures r.Success? ==> r.value == scopes.slots[id.0].signals.slots[id.1]
      ensures id.0 !in scopes.slots ==> r == Failure(ScopeNotFound(id.0))
      ensures id.0 in scopes.slots && id.1 !in scopes.slots[id.0].signals.slots ==>
                r == Failure(SignalNotFound(id))
    {
      match Scope(id.0)
      case Failure(e) => Failure(e)
      case Success(scope) =>
        match scope.signals.Get(id.1)
        case Some(n) => Success(n)
        case None => Failure(SignalNotFound(id))
    }

    /** `Runtime::signal::<T, _>(id, f)`: the signal state `f` is called on, provided the
        signal was created at type `expected`. */
    function Signal(id: (ScopeId, SignalId), expected: TypeTag): (r: Result<EntityState, Fault>)
      reads this
      ensures r.Success? <==> AnySignal(id).Success? && AnySignal(id).value.tag == expected
      ensures r.Success? ==> r.value == AnySignal(id).value.state
      ensures AnySignal(id).Failure? ==> r == Failure(AnySignal(id).error)
      ensures AnySignal(id).Success? && AnySignal(id).value.tag != expected ==>
                r == Failure(NotSignalOf(id, expected))
    {
      match AnySignal(id)
      case Failure(e) => Failure(e)
      case Success(n) =>
        if n.tag == expected then Success(n.state) else Failure(NotSignalOf(id, expected))
    }

    /** `Runtime::running_effect`: the innermost subscriber still on the stack. */
    function RunningEffect(): (r: Option<Subscriber>)
      reads this
      ensures r == None <==> stack == []
      ensures r.Some? ==> r.value == stack[|stack| - 1] && r.value in stack
    {
      if stack == [] then None else Some(stack[|stack| - 1])
    }

    /** `Runtime::create_scope(f, parent)`: stores `ScopeState::new(parent)` under a fresh id
        (the scope `f` is then called with) and hands back a disposer for it. The parent's
        own state is left as it was. */
    method CreateScope(parent: Option<ScopeId>) returns (id: ScopeId, disposer: ScopeDisposer)
      requires Valid()
      modifies this
      ensures Valid()
      ensures id !in old(scopes.slots) && old(scopes.next) <= id
      ensures Scope(id) == Success(NewScopeState(parent))
      ensures forall other :: other != id ==> scopes.Get(other) == old(scopes.Get(other))
      ensures scopes.slots == old(scopes.slots)[id := NewScopeState(parent)]
      ensures stack == old(stack)
      ensures disposer == DisposeScope(id)
    {
      var state := NewScopeState(parent);
      var (inserted, key) := scopes.Insert(state);
      scopes, id := inserted, key;
      assert scopes.slots == old(scopes.slots)[id := state] by {
        assert forall k :: scopes.Get(k) == old(scopes).Get(k) || k == id;
      }
      disposer := DisposeScope(id);
    }

    /** `Runtime::push_stack`: `s` becomes the running subscriber. */
    method PushStack(s: Subscriber)
      modifies this
      ensures stack == old(stack) + [s]
      ensures RunningEffect() == Some(s)
      ensures scopes == old(scopes)
    {
      stack := stack + [s];
    }

    /** `Runtime::pop_stack`: drops the running subscriber; popping an empty stack is a no-op. */
    method PopStack()
      modifies this
      ensures old(stack) == [] ==> stack == []
      ensures old(stack) != [] ==> stack == old(stack)[..|old(stack)| - 1]
      ensures scopes == old(scopes)
    {
      if stack != [] {
        stack := stack[..|stack| - 1];
      }
    }

    /** `Runtime::remove_scope`: `id` stops resolving and no other scope changes; an absent
        id changes nothing. */
    method RemoveScope(id: ScopeId)
      requires Valid()
      modifies this
      ensures Valid()
      ensures scopes == old(scopes).Remove(id)
      ensures Scope(id) == Failure(ScopeNotFound(id))
      ensures forall other :: other != id ==> scopes.Get(other) == old(scopes.Get(other))
      ensures id !in old(scopes.slots) ==> scopes == old(scopes)
      ensures stack == old(stack)
    {
      scopes := scopes.Remove(id);
    }

    /** `Runtime::untrack(f)`. The body is given as what it does to the stack it runs on
        and what it returns: it starts on an empty stack, so it sees no running subscriber,
        and whatever it leaves on the stack is replaced by the saved one afterwards. */
    method Untrack<T>(body: seq<Subscriber> -> (seq<Subscriber>, T)) returns (r: T)
      modifies this
      ensures r == body([]).1
      ensures stack == old(stack) && scopes == old(scopes)
    {
      var prev := stack;
      stack := [];
      assert RunningEffect() == None;
      var run := body(stack);
      stack := run.0;
      stack := prev;
      r := run.1;
    }
  }

  /** A tracked computation's bracket: pushing a subscriber and popping it again restores
      the stack, and while it is pushed it is the running effect. */
  method PushPopRestores(rt: Runtime, s: Subscriber)
    modifies rt
    ensures rt.stack == old(rt.stack) && rt.scopes == old(rt.scopes)
  {
    rt.PushStack(s);
    assert rt.RunningEffect() == Some(s);
    rt.PopStack();
    assert rt.stack == (old(rt.stack) + [s])[..|old(rt.stack)|];
  }
}
