/** The unused store of `src/unused_code/ecs_old.rs`. Its tables are
    created as vectors of cells (`Vec<RefCell<Option<Box<T>>>>`), but both
    lookups downcast to a vector of plain options (`Vec<Option<Box<T>>>`),
    a different type, so no lookup ever finds a table. The tag of a table
    records which of the two Rust types it has; a downcast succeeds exactly
    when the tags are equal. */
module EcsOld {
  import opened Wrappers
  import Ecs
  import opened RefCellWorld

  /** The Rust table type for component kind `k`. */
  datatype TableType<K> = OptionVec(kind: K) | CellVec(kind: K)

  type OldWorld<K, C> = World<TableType<K>, C>

  /** Every table was created by this store, hence has the cell layout. */
  predicate CellTables<K, C>(w: OldWorld<K, C>) {
    forall i :: 0 <= i < |w.tables| ==> w.tables[i].tag.CellVec?
  }

  /** `new_entity` is the list store's; it keeps every table's layout. */
  lemma NewEntityKeepsLayout<K(!new), C>(w: OldWorld<K, C>)
    requires Valid(w) && CellTables(w)
    ensures CellTables(NewEntity(w).0) && NewEntity(w).1 == w.entitiesCount
  {
  }

  /** `borrow_component_vec` as written: it looks for the option layout. */
  function BorrowComponentVecAsWritten<K(==,!new), C>(w: OldWorld<K, C>, k: K): (r: Option<seq<Option<C>>>)
    requires Valid(w)
    ensures CellTables(w) ==> r == None
  {
    BorrowComponentVec(w, OptionVec(k))
  }

  /** `add_component_to_entity` as written: the lookup for the option
      layout fails, so a fresh cell-layout table is appended every time. */
  function AddComponentAsWritten<K(==,!new), C>(w: OldWorld<K, C>, k: K, e: nat, v: C): (r: OldWorld<K, C>)
    requires Valid(w) && e < w.entitiesCount
    ensures Valid(r) && r.entitiesCount == w.entitiesCount
    ensures CellTables(w) ==>
      CellTables(r) && |r.tables| == |w.tables| + 1 &&
      r.tables[..|w.tables|] == w.tables && r.tables[|w.tables|].tag == CellVec(k) &&
      r.tables[|w.tables|].slots[e] == Some(v)
  {
    match Find(w.tables, OptionVec(k), 0)
    case Some(i) => World(w.entitiesCount, w.tables[i := Table(OptionVec(k), w.tables[i].slots[e := Some(v)])])
    case None => World(w.entitiesCount, w.tables + [Table(CellVec(k), Ecs.NoneTable(w.entitiesCount)[e := Some(v)])])
  }

  /** `borrow_component`: `None` for an id out of range; otherwise the
      table lookup is unwrapped (a panic when it fails) and the entity's
      slot read. The lookup is for the table type `tt`. */
  function BorrowComponent<K(==,!new), C>(w: OldWorld<K, C>, tt: TableType<K>, e: nat): (r: Result<Option<C>>)
    requires Valid(w)
    ensures e >= w.entitiesCount ==> r == Ok(None)
    ensures e < w.entitiesCount ==> (r.Ok? <==> BorrowComponentVec(w, tt).Some?)
    ensures e < w.entitiesCount && r.Ok? ==> r.value == BorrowComponentVec(w, tt).value[e]
  {
    if e >= w.entitiesCount then Ok(None)
    else
      var t :- Unwrap(BorrowComponentVec(w, tt));
      Ok(t[e])
  }

  function BorrowComponentAsWritten<K(==,!new), C>(w: OldWorld<K, C>, k: K, e: nat): (r: Result<Option<C>>)
    requires Valid(w)
    ensures e >= w.entitiesCount ==> r == Ok(None)
    ensures CellTables(w) && e < w.entitiesCount ==> r == Panic(UnwrapNone)
  {
    BorrowComponent(w, OptionVec(k), e)
  }

  /** The defect: a component just added cannot be read back (reading it
      panics), and adding to the same kind again appends a second table
      instead of reusing the first. */
  lemma AddedComponentIsLost<K(!new), C>(w: OldWorld<K, C>, k: K, e: nat, v: C, v2: C)
    requires Valid(w) && CellTables(w) && e < w.entitiesCount
    ensures var w1 := AddComponentAsWritten(w, k, e, v);
      BorrowComponentAsWritten(w1, k, e) == Panic(UnwrapNone) &&
      BorrowComponentVecAsWritten(w1, k) == None &&
      |AddComponentAsWritten(w1, k, e, v2).tables| == |w.tables| + 2
  {
  }

  /** A concrete run: one entity, a component added to it, then read. */
  lemma AddedComponentIsLostExample()
    ensures var w := NewEntity(New<TableType<bool>, int>()).0;
      BorrowComponentAsWritten(AddComponentAsWritten(w, true, 0, 7), true, 0) == Panic(UnwrapNone)
    ensures var w := NewEntity(New<TableType<bool>, int>()).0;
      BorrowComponent(AddComponent(w, true, 0, 7), CellVec(true), 0) == Ok(Some(7))
  {
    var w := NewEntity(New<TableType<bool>, int>()).0;
    assert w.tables == [];
    AddThenBorrow(w, true, 0, 7);
  }

  /** The evidently intended store: both lookups look for the layout the
      tables are created with, which is the list store's upsert. */
  function AddComponent<K(==,!new), C>(w: OldWorld<K, C>, k: K, e: nat, v: C): (r: OldWorld<K, C>)
    requires Valid(w) && e < w.entitiesCount
    ensures Valid(r) && r.entitiesCount == w.entitiesCount
    ensures CellTables(w) ==> CellTables(r)
    ensures Abs(r) == Ecs.AddComponent(Abs(w), CellVec(k), e, v)
  {
    AddRefines(w, CellVec(k), e, v);
    AddComponentToEntity(w, CellVec(k), e, v)
  }

  /** With the corrected lookup, a component added is read back, and a
      second add to the same kind reuses the table. */
  lemma AddThenBorrow<K(!new), C>(w: OldWorld<K, C>, k: K, e: nat, v: C)
    requires Valid(w) && e < w.entitiesCount
    ensures BorrowComponent(AddComponent(w, k, e, v), CellVec(k), e) == Ok(Some(v))
    ensures |AddComponent(AddComponent(w, k, e, v), k, e, v).tables| == |AddComponent(w, k, e, v).tables|
  {
  }

  /** `update_all` of this store passes each component its index as the
      entity id; `upd` is the per-component effect of `update`. */
  function UpdateAllWithIds<K(==,!new), C>(w: OldWorld<K, C>, upd: (C, nat) -> C): (r: OldWorld<K, C>)
    requires Valid(w)
    ensures Valid(r) && r.entitiesCount == w.entitiesCount && |r.tables| == |w.tables|
    ensures forall i, e :: 0 <= i < |w.tables| && 0 <= e < w.entitiesCount ==>
      r.tables[i].tag == w.tables[i].tag &&
      r.tables[i].slots[e] == (match w.tables[i].slots[e] case Some(c) => Some(upd(c, e)) case None => None)
  {
    World(w.entitiesCount, seq(|w.tables|, i requires 0 <= i < |w.tables| =>
      Table(w.tables[i].tag, seq(w.entitiesCount, e requires 0 <= e < w.entitiesCount =>
        match w.tables[i].slots[e]
        case Some(c) => Some(upd(c, e))
        case None => None))))
  }

  /** An update that ignores the id gives the other store's `update_all`. */
  lemma UpdateAllIgnoringIds<K(!new), C>(w: OldWorld<K, C>, f: C -> C)
    requires Valid(w)
    ensures UpdateAllWithIds(w, (c, _) => f(c)) == UpdateAll(w, f)
  {
    var a := UpdateAllWithIds(w, (c, _) => f(c));
    var b := UpdateAll(w, f);
    assert |a.tables| == |b.tables|;
    forall i | 0 <= i < |a.tables| ensures a.tables[i] == b.tables[i] {
      assert a.tables[i].slots == b.tables[i].slots;
    }
  }
}
