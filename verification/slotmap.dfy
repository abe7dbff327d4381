/** The generational arena (`slotmap::SlotMap`) the runtime keeps its scopes in and every
    scope keeps its signals, memos and effects in.

    A key is handed out once: `next` only grows, and `Insert` uses it and moves it on, so a
    key that has been removed can never resolve again. This is what the crate's per-slot
    version counter achieves; the model keeps the effect and not the slot reuse. */
module SlotMaps {
  import opened Wrappers

  type Key = nat

  datatype SlotMap<V> = SlotMap(slots: map<Key, V>, next: Key) {

    /** Every live key was handed out before `next`. */
    ghost predicate Valid() {
      forall k :: k in slots ==> k < next
    }

    /** `SlotMap::get`. */
    function Get(k: Key): Option<V> {
      if k in slots then Some(slots[k]) else None
    }

    /** `SlotMap::insert`: the new map and the key the value is stored under. */
    function Insert(v: V): (r: (SlotMap<V>, Key))
      requires Valid()
      ensures r.0.Valid()
      ensures r.1 !in slots && next <= r.1 < r.0.next
      ensures r.0.Get(r.1) == Some(v)
      ensures forall k :: k != r.1 ==> r.0.Get(k) == Get(k)
    {
      (SlotMap(slots[next := v], next + 1), next)
    }

    /** Replaces the value of a live key in place (what a `RefCell` borrow of a stored
        value lets the runtime do); keys and `next` are untouched. */
    function Set(k: Key, v: V): (r: SlotMap<V>)
      requires k in slots
      ensures r.slots.Keys == slots.Keys && r.next == next
      ensures r.Get(k) == Some(v)
      ensures forall j :: j != k ==> r.Get(j) == Get(j)
    {
      SlotMap(slots[k := v], next)
    }

    /** `SlotMap::remove`: the key stops resolving, nothing else changes, and removing an
        absent key is a no-op. */
    function Remove(k: Key): (r: SlotMap<V>)
      ensures r.Get(k) == None && r.next == next
      ensures forall j :: j != k ==> r.Get(j) == Get(j)
      ensures k !in slots ==> r == this
      ensures Valid() ==> r.Valid()
    {
      SlotMap(slots - {k}, next)
    }

    /** The map after removing every key of `ks`, in any order. */
    function RemoveAll(ks: set<Key>): (r: SlotMap<V>)
      ensures r.next == next
      ensures forall j :: r.Get(j) == if j in ks then None else Get(j)
      ensures Valid() ==> r.Valid()
    {
      SlotMap(slots - ks, next)
    }

    /** Inserts `vs` one after another. */
    function InsertAll(vs: seq<V>): (r: SlotMap<V>)
      requires Valid()
      ensures r.Valid() && next <= r.next
      decreases |vs|
    {
      if vs == [] then this else Insert(vs[0]).0.InsertAll(vs[1..])
    }
  }

  /** `after` is `before` with `v` stored under the fresh key `k`, and nothing else changed. */
  ghost predicate InsertedAt<V>(before: SlotMap<V>, after: SlotMap<V>, k: Key, v: V) {
    && k !in before.slots
    && after.Get(k) == Some(v)
    && (forall j :: j != k ==> after.Get(j) == before.Get(j))
  }

  function Empty<V>(): (m: SlotMap<V>)
    ensures m.Valid() && m.slots.Keys == {}
  {
    SlotMap(map[], 0)
  }

  /** Removing one more key extends the removed set by that key. */
  lemma RemoveAllStep<V>(m: SlotMap<V>, ks: set<Key>, k: Key)
    ensures m.RemoveAll(ks).Remove(k) == m.RemoveAll(ks + {k})
  {
    assert m.RemoveAll(ks).Remove(k).slots == m.RemoveAll(ks + {k}).slots;
  }

  /** The generation check: a key below `next` that is not live (it was removed, or never
      handed out) does not resolve after any number of further insertions. */
  lemma {:induction false} StaleKeyNeverResolves<V>(m: SlotMap<V>, k: Key, vs: seq<V>)
    requires m.Valid() && k < m.next && k !in m.slots
    ensures m.InsertAll(vs).Get(k) == None
    decreases |vs|
  {
    if vs != [] {
      var (m', key) := m.Insert(vs[0]);
      assert k != key;
      StaleKeyNeverResolves(m', k, vs[1..]);
    }
  }

  /** Once removed, a live key never resolves again, whatever is inserted afterwards. */
  lemma {:induction false} RemovedNeverResolves<V>(m: SlotMap<V>, k: Key, vs: seq<V>)
    requires m.Valid() && k in m.slots
    ensures m.Remove(k).InsertAll(vs).Get(k) == None
  {
    StaleKeyNeverResolves(m.Remove(k), k, vs);
  }
}
