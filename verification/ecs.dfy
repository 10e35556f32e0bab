/** The entity-component store of `src/ecs.rs`.

    Entities are dense ids 0, 1, ..., `entitiesCount - 1`. Each component kind
    has at most one table, a sequence with one optional slot per entity. The
    Rust store finds a table by downcasting a type-erased box; here the kinds
    form a closed type `K` and the tables a map keyed by kind. */
module Ecs {
  import opened Wrappers

  datatype Store<K, C> = Store(entitiesCount: nat, tables: map<K, seq<Option<C>>>)

  /** Every table has exactly one slot per entity. */
  predicate Valid<K, C>(s: Store<K, C>) {
    forall k :: k in s.tables ==> |s.tables[k]| == s.entitiesCount
  }

  function NoneTable<C>(n: nat): (t: seq<Option<C>>)
    ensures |t| == n
    ensures forall i :: 0 <= i < n ==> t[i] == None
  {
    seq(n, _ => None)
  }

  /** `ECS::new`: no entities and no tables. */
  function Empty<K, C>(): (s: Store<K, C>)
    ensures Valid(s) && s.entitiesCount == 0 && s.tables == map[]
  {
    Store(0, map[])
  }

  /** `borrow_component_vec` (and its `_mut` twin, which is the same lookup). */
  function BorrowComponentVec<K, C>(s: Store<K, C>, k: K): (r: Option<seq<Option<C>>>)
    requires Valid(s)
    ensures r.None? <==> k !in s.tables
    ensures r.Some? ==> |r.value| == s.entitiesCount && r.value == s.tables[k]
  {
    if k in s.tables then Some(s.tables[k]) else None
  }

  /** `get_component`: the slot's copy, or `None` when the kind has no table.
      Indexing panics only when a table exists, hence the guarded requires. */
  function GetComponent<K, C>(s: Store<K, C>, k: K, e: nat): Option<C>
    requires Valid(s)
    requires k in s.tables ==> e < s.entitiesCount
  {
    match BorrowComponentVec(s, k)
    case Some(t) => t[e]
    case None => None
  }

  /** `push_none` on every table: the new entity id is the previous count. */
  function NewEntity<K(!new), C>(s: Store<K, C>): (r: (Store<K, C>, nat))
    requires Valid(s)
    ensures Valid(r.0)
    ensures r.1 == s.entitiesCount && r.0.entitiesCount == s.entitiesCount + 1
    ensures r.0.tables.Keys == s.tables.Keys
    ensures forall k :: k in s.tables ==> r.0.tables[k] == s.tables[k] + [None]
    ensures forall k :: GetComponent(r.0, k, r.1) == None
    ensures forall k, e: nat :: e < s.entitiesCount ==> GetComponent(r.0, k, e) == GetComponent(s, k, e)
  {
    var tables := map k | k in s.tables :: s.tables[k] + [None];
    (Store(s.entitiesCount + 1, tables), s.entitiesCount)
  }

  /** `add_component`: an upsert; the table is created, all `None`, when the
      kind has none yet. Only slot (k, e) changes. */
  function AddComponent<K(!new), C>(s: Store<K, C>, k: K, e: nat, v: C): (r: Store<K, C>)
    requires Valid(s)
    requires e < s.entitiesCount
    ensures Valid(r) && r.entitiesCount == s.entitiesCount
    ensures r.tables.Keys == s.tables.Keys + {k}
    ensures GetComponent(r, k, e) == Some(v)
    ensures forall k', e': nat :: e' < s.entitiesCount && (k' != k || e' != e) ==>
              GetComponent(r, k', e') == GetComponent(s, k', e')
  {
    if k in s.tables then
      Store(s.entitiesCount, s.tables[k := s.tables[k][e := Some(v)]])
    else
      Store(s.entitiesCount, s.tables[k := NoneTable(s.entitiesCount)[e := Some(v)]])
  }

  /** `set_component`: overwrite an existing slot; a no-op, not a panic, when
      the kind has no table. */
  function SetComponent<K(!new), C>(s: Store<K, C>, k: K, e: nat, v: C): (r: Store<K, C>)
    requires Valid(s)
    requires k in s.tables ==> e < s.entitiesCount
    ensures Valid(r) && r.entitiesCount == s.entitiesCount
    ensures r.tables.Keys == s.tables.Keys
    ensures k !in s.tables ==> r == s
    ensures k in s.tables ==> GetComponent(r, k, e) == Some(v)
    ensures forall k', e': nat :: e' < s.entitiesCount && (k' != k || e' != e) ==>
              GetComponent(r, k', e') == GetComponent(s, k', e')
  {
    if k in s.tables then
      Store(s.entitiesCount, s.tables[k := s.tables[k][e := Some(v)]])
    else
      s
  }

  /** Write visibility: a set after an add is read back. */
  lemma AddThenSetVisible<K(!new), C>(s: Store<K, C>, k: K, e: nat, v: C, v2: C)
    requires Valid(s) && e < s.entitiesCount
    ensures GetComponent(SetComponent(AddComponent(s, k, e, v), k, e, v2), k, e) == Some(v2)
  {
  }

  /** Adding twice to the same slot is the same as adding the last value once. */
  lemma AddLastWriteWins<K(!new), C>(s: Store<K, C>, k: K, e: nat, v1: C, v2: C)
    requires Valid(s) && e < s.entitiesCount
    ensures AddComponent(AddComponent(s, k, e, v1), k, e, v2) == AddComponent(s, k, e, v2)
  {
    var s1 := AddComponent(s, k, e, v1);
    assert s1.tables[k][e := Some(v2)] == AddComponent(s, k, e, v2).tables[k];
  }

  /** Once the table exists, `set_component` is the same upsert as `add_component`. */
  lemma SetAfterAddIsAdd<K(!new), C>(s: Store<K, C>, k: K, e: nat, v: C, v2: C)
    requires Valid(s) && e < s.entitiesCount
    ensures SetComponent(AddComponent(s, k, e, v), k, e, v2) == AddComponent(s, k, e, v2)
  {
    var s1 := AddComponent(s, k, e, v);
    assert s1.tables[k][e := Some(v2)] == AddComponent(s, k, e, v2).tables[k];
  }

  /** Writing back the value a slot already holds leaves the store unchanged. */
  lemma SetSameValue<K(!new), C>(s: Store<K, C>, k: K, e: nat, v: C)
    requires Valid(s) && e < s.entitiesCount
    requires GetComponent(s, k, e) == Some(v)
    ensures SetComponent(s, k, e, v) == s
  {
    assert s.tables[k][e := Some(v)] == s.tables[k];
    assert s.tables[k := s.tables[k]] == s.tables;
  }
}
