/** The values the reactive runtime stores: handles, the type-erased entities of a scope,
    the subscribers on the tracking stack and the per-scope `ScopeState`. */
module ReactiveState {
  import opened Wrappers
  import opened SlotMaps

  /** Keys of the scope arena and of the three per-scope arenas. */
  type ScopeId = Key
  type SignalId = Key
  type MemoId = Key
  type EffectId = Key

  /** The name of the Rust type `T` an entity was created at (`std::any::type_name::<T>()`);
      comparing tags stands for `downcast_ref::<SignalState<T>>()`. */
  type TypeTag = string

  /** Whatever a `SignalState<T>`, `MemoState<T>` or `EffectState<T>` holds (value, closure,
      subscriber list). The runtime code modelled here never looks inside it. */
  type EntityState(==, 0)

  /** A `Box<dyn AnySignal>`, `Box<dyn AnyMemo>` or `Box<dyn AnyEffect>`: the entity's state
      together with the type it was created at. */
  datatype AnyEntity = AnyEntity(tag: TypeTag, state: EntityState)

  /** The computation that can be "currently running": a memo or an effect, by its handle. */
  datatype Subscriber =
    | MemoSubscriber(memo: (ScopeId, MemoId))
    | EffectSubscriber(effect: (ScopeId, EffectId))

  /** The conditions under which the runtime panics, with what its message names. */
  datatype Fault =
    | ScopeNotFound(scope: ScopeId)                               // "couldn't locate {id:?}"
    | SignalNotFound(signal: (ScopeId, SignalId))
    | MemoNotFound(memo: (ScopeId, MemoId))
    | EffectNotFound(effect: (ScopeId, EffectId))
    | NotSignalOf(signal: (ScopeId, SignalId), expected: TypeTag) // "couldn't convert {id:?} to SignalState<T>"
    | NotMemoOf(memo: (ScopeId, MemoId), expected: TypeTag)

  /** One scope: its parent, the ids of its child scopes and its three entity arenas. */
  datatype ScopeState = ScopeState(
    parent: Option<ScopeId>,
    children: seq<ScopeId>,
    signals: SlotMap<AnyEntity>,
    memos: SlotMap<AnyEntity>,
    effects: SlotMap<AnyEntity>)
  {
    ghost predicate Valid() {
      signals.Valid() && memos.Valid() && effects.Valid()
    }

    /** The ids listed in `children`. */
    function ChildIds(): set<ScopeId> {
      set c | c in children
    }
  }

  /** `ScopeState::new(parent)`: records the parent; no children and no entities yet. */
  function NewScopeState(parent: Option<ScopeId>): (s: ScopeState)
    ensures s.Valid() && s.parent == parent && s.children == []
    ensures forall k :: s.signals.Get(k) == None && s.memos.Get(k) == None && s.effects.Get(k) == None
  {
    ScopeState(parent, [], Empty(), Empty(), Empty())
  }

  /** What a `ScopeDisposer` will do when it is run: dispose a scope of the runtime that
      created it, or nothing at all. */
  datatype ScopeDisposer = DisposeScope(scope: ScopeId) | DoNothing

  /** Child ids are handed out after their parent's id, and before the arena's `next`.
      Every operation of the runtime keeps this; it orders the scope tree by id. */
  ghost predicate ChildrenAfterParent(a: SlotMap<ScopeState>) {
    forall p, i :: p in a.slots && 0 <= i < |a.slots[p].children| ==>
      p < a.slots[p].children[i] < a.next
  }

  /** The invariant of the scope arena. */
  ghost predicate ValidArena(a: SlotMap<ScopeState>) {
    && a.Valid()
    && (forall p :: p in a.slots ==> a.slots[p].Valid())
    && ChildrenAfterParent(a)
  }
}
