/** The earlier entity-component store of `src/ecs/mod.rs`, kept in the
    shape Rust gives it: a list of type-tagged tables searched front to back
    for the first table whose tag matches (the downcast). The tag type `T`
    stands for the Rust table type. The map-based store of module `Ecs` is
    its abstraction, and the operations agree with it. */
module RefCellWorld {
  import opened Wrappers
  import Ecs

  datatype Table<T, C> = Table(tag: T, slots: seq<Option<C>>)

  datatype World<T, C> = World(entitiesCount: nat, tables: seq<Table<T, C>>)

  /** Every table has one slot per entity. */
  predicate Valid<T(==,!new), C>(w: World<T, C>) {
    forall i :: 0 <= i < |w.tables| ==> |w.tables[i].slots| == w.entitiesCount
  }

  /** The index of the first table from `from` on with tag `tag`. */
  function Find<T(==,!new), C>(tables: seq<Table<T, C>>, tag: T, from: nat): (r: Option<nat>)
    ensures r.None? <==> forall i :: from <= i < |tables| ==> tables[i].tag != tag
    ensures r.Some? ==>
      from <= r.value < |tables| && tables[r.value].tag == tag &&
      forall i :: from <= i < r.value ==> tables[i].tag != tag
    decreases |tables| - from
  {
    if from >= |tables| then None
    else if tables[from].tag == tag then Some(from)
    else Find(tables, tag, from + 1)
  }

  /** `World::new`: no entities, no tables. */
  function New<T(==,!new), C>(): (w: World<T, C>)
    ensures Valid(w) && w.entitiesCount == 0 && w.tables == []
  {
    World(0, [])
  }

  /** `new_entity`: push `None` on every table; the id is the old count. */
  function NewEntity<T(==,!new), C>(w: World<T, C>): (r: (World<T, C>, nat))
    requires Valid(w)
    ensures Valid(r.0) && r.1 == w.entitiesCount && r.0.entitiesCount == w.entitiesCount + 1
    ensures |r.0.tables| == |w.tables|
    ensures forall i :: 0 <= i < |w.tables| ==>
      r.0.tables[i].tag == w.tables[i].tag && r.0.tables[i].slots == w.tables[i].slots + [None]
  {
    (World(w.entitiesCount + 1, seq(|w.tables|, i requires 0 <= i < |w.tables| =>
      Table(w.tables[i].tag, w.tables[i].slots + [None]))), w.entitiesCount)
  }

  /** `borrow_component_vec`: the slots of the first table with the tag. */
  function BorrowComponentVec<T(==,!new), C>(w: World<T, C>, tag: T): (r: Option<seq<Option<C>>>)
    requires Valid(w)
    ensures r.None? <==> forall i :: 0 <= i < |w.tables| ==> w.tables[i].tag != tag
    ensures r.Some? ==> |r.value| == w.entitiesCount
  {
    match Find(w.tables, tag, 0)
    case Some(i) => Some(w.tables[i].slots)
    case None => None
  }

  /** `add_component_to_entity`: overwrite the slot in the first matching
      table, or append a new table, all `None` except the entity's slot.
      Either way the entity's component is found afterwards and no other
      table changes. */
  function AddComponentToEntity<T(==,!new), C>(w: World<T, C>, tag: T, e: nat, v: C): (r: World<T, C>)
    requires Valid(w) && e < w.entitiesCount
    ensures Valid(r) && r.entitiesCount == w.entitiesCount
    ensures BorrowComponentVec(r, tag).Some? && BorrowComponentVec(r, tag).value[e] == Some(v)
    ensures BorrowComponentVec(w, tag).None? ==>
      |r.tables| == |w.tables| + 1 && forall e' :: 0 <= e' < w.entitiesCount && e' != e ==> BorrowComponentVec(r, tag).value[e'] == None
    ensures BorrowComponentVec(w, tag).Some? ==>
      |r.tables| == |w.tables| && forall e' :: 0 <= e' < w.entitiesCount && e' != e ==>
        BorrowComponentVec(r, tag).value[e'] == BorrowComponentVec(w, tag).value[e']
    ensures forall t :: t != tag ==> BorrowComponentVec(r, t) == BorrowComponentVec(w, t)
  {
    match Find(w.tables, tag, 0)
    case Some(i) =>
      var r := World(w.entitiesCount, w.tables[i := Table(tag, w.tables[i].slots[e := Some(v)])]);
      FindAfterReplace(w.tables, i, Table(tag, w.tables[i].slots[e := Some(v)]));
      r
    case None =>
      var r := World(w.entitiesCount, w.tables + [Table(tag, Ecs.NoneTable(w.entitiesCount)[e := Some(v)])]);
      forall t ensures Find(r.tables, t, 0) == (if t == tag then Some(|w.tables|) else Find(w.tables, t, 0)) {
        FindAfterAppend(w.tables, Table(tag, Ecs.NoneTable(w.entitiesCount)[e := Some(v)]), t, 0);
      }
      r
  }

  /** Replacing the first `tag` table by another `tag` table leaves every
      search where it was. */
  lemma FindAfterReplace<T(!new), C>(tables: seq<Table<T, C>>, i: nat, t: Table<T, C>)
    requires Find(tables, t.tag, 0) == Some(i)
    ensures forall tag :: Find(tables[i := t], tag, 0) == Find(tables, tag, 0)
  {
    forall tag ensures Find(tables[i := t], tag, 0) == Find(tables, tag, 0) {
      FindSame(tables, tables[i := t], tag, 0);
    }
  }

  /** Searches over two table lists with the same tags agree. */
  lemma {:induction false} FindSame<T(!new), C>(a: seq<Table<T, C>>, b: seq<Table<T, C>>, tag: T, from: nat)
    requires |a| == |b| && forall j :: 0 <= j < |a| ==> a[j].tag == b[j].tag
    ensures Find(a, tag, from) == Find(b, tag, from)
    decreases |a| - from
  {
    if from < |a| && a[from].tag != tag {
      FindSame(a, b, tag, from + 1);
    }
  }

  /** Appending a table changes only the searches for a tag not yet present. */
  lemma {:induction false} FindAfterAppend<T(!new), C>(tables: seq<Table<T, C>>, t: Table<T, C>, tag: T, from: nat)
    requires from <= |tables|
    ensures Find(tables, tag, from).Some? ==> Find(tables + [t], tag, from) == Find(tables, tag, from)
    ensures Find(tables, tag, from).None? ==>
      Find(tables + [t], tag, from) == (if t.tag == tag then Some(|tables|) else None)
    decreases |tables| - from
  {
    if from < |tables| {
      assert (tables + [t])[from] == tables[from];
      if tables[from].tag != tag {
        FindAfterAppend(tables, t, tag, from + 1);
      }
    } else {
      assert (tables + [t])[from] == t;
      assert Find(tables + [t], tag, from + 1) == None;
    }
  }

  /** The entity indices from `from` on whose slot holds a component. */
  function Present<C>(slots: seq<Option<C>>, from: nat): seq<nat>
    decreases |slots| - from
  {
    if from >= |slots| then []
    else (if slots[from].Some? then [from] else []) + Present(slots, from + 1)
  }

  /** The present indices from `from` on, each once, in increasing order. */
  lemma {:induction false} PresentExact<C>(slots: seq<Option<C>>, from: nat)
    ensures forall i :: 0 <= i < |Present(slots, from)| ==>
      from <= Present(slots, from)[i] < |slots| && slots[Present(slots, from)[i]].Some?
    ensures forall i, j :: 0 <= i < j < |Present(slots, from)| ==> Present(slots, from)[i] < Present(slots, from)[j]
    ensures forall e :: from <= e < |slots| && slots[e].Some? ==> e in Present(slots, from)
    decreases |slots| - from
  {
    if from < |slots| {
      var rest := Present(slots, from + 1);
      PresentExact(slots, from + 1);
      if slots[from].Some? {
        var r := [from] + rest;
        assert Present(slots, from) == r;
        assert forall i :: 1 <= i < |r| ==> r[i] == rest[i - 1];
        forall e | from <= e < |slots| && slots[e].Some? ensures e in r {
          if e > from {
            assert e in rest;
          }
        }
      } else {
        assert Present(slots, from) == rest;
        forall e | from <= e < |slots| && slots[e].Some? ensures e in rest {
          assert e != from;
        }
      }
    }
  }

  /** The calls of one table: (table index, entity id) per present slot. */
  function TableCalls<C>(t: nat, slots: seq<Option<C>>): (r: seq<(nat, nat)>)
    ensures |r| == |Present(slots, 0)|
    ensures forall i :: 0 <= i < |r| ==> r[i] == (t, Present(slots, 0)[i])
  {
    var p := Present(slots, 0);
    seq(|p|, i requires 0 <= i < |p| => (t, p[i]))
  }

  /** `update_all`: the `update(dt)` calls it makes, as (table index,
      entity id), for the tables from `from` on. */
  function UpdateCalls<T(!new), C>(tables: seq<Table<T, C>>, from: nat): seq<(nat, nat)>
    decreases |tables| - from
  {
    if from >= |tables| then []
    else TableCalls(from, tables[from].slots) + UpdateCalls(tables, from + 1)
  }

  predicate CallBefore(a: (nat, nat), b: (nat, nat)) {
    a.0 < b.0 || (a.0 == b.0 && a.1 < b.1)
  }

  /** `update_all` calls `update` exactly on the present components, table
      by table and in entity order within a table, each once. */
  lemma {:induction false} UpdateCallsExact<T(!new), C>(tables: seq<Table<T, C>>, from: nat)
    ensures forall i :: 0 <= i < |UpdateCalls(tables, from)| ==>
      from <= UpdateCalls(tables, from)[i].0 < |tables| &&
      UpdateCalls(tables, from)[i].1 < |tables[UpdateCalls(tables, from)[i].0].slots| &&
      tables[UpdateCalls(tables, from)[i].0].slots[UpdateCalls(tables, from)[i].1].Some?
    ensures forall t, e :: from <= t < |tables| && 0 <= e < |tables[t].slots| && tables[t].slots[e].Some? ==>
      (t, e) in UpdateCalls(tables, from)
    ensures forall i, j :: 0 <= i < j < |UpdateCalls(tables, from)| ==>
      CallBefore(UpdateCalls(tables, from)[i], UpdateCalls(tables, from)[j])
    decreases |tables| - from
  {
    if from < |tables| {
      var head := TableCalls(from, tables[from].slots);
      var rest := UpdateCalls(tables, from + 1);
      var all := head + rest;
      assert UpdateCalls(tables, from) == all;
      PresentExact(tables[from].slots, 0);
      UpdateCallsExact(tables, from + 1);
      assert forall i :: |head| <= i < |all| ==> all[i] == rest[i - |head|];
      forall t, e | from <= t < |tables| && 0 <= e < |tables[t].slots| && tables[t].slots[e].Some?
        ensures (t, e) in all
      {
        if t == from {
          var k :| 0 <= k < |Present(tables[from].slots, 0)| && Present(tables[from].slots, 0)[k] == e;
          assert all[k] == (t, e);
        } else {
          assert (t, e) in rest;
        }
      }
    }
  }

  /** The effect of `update_all` when each `update` only changes its own
      component, by `upd`: every present component is updated once. */
  function UpdateAll<T(!new), C>(w: World<T, C>, upd: C -> C): (r: World<T, C>)
    requires Valid(w)
    ensures Valid(r) && r.entitiesCount == w.entitiesCount && |r.tables| == |w.tables|
    ensures forall i :: 0 <= i < |w.tables| ==> r.tables[i].tag == w.tables[i].tag
    ensures forall i, e :: 0 <= i < |w.tables| && 0 <= e < w.entitiesCount ==>
      r.tables[i].slots[e].Some? == w.tables[i].slots[e].Some? &&
      (w.tables[i].slots[e].Some? ==> r.tables[i].slots[e].value == upd(w.tables[i].slots[e].value))
  {
    World(w.entitiesCount, seq(|w.tables|, i requires 0 <= i < |w.tables| =>
      Table(w.tables[i].tag, seq(w.entitiesCount, e requires 0 <= e < w.entitiesCount =>
        match w.tables[i].slots[e]
        case Some(c) => Some(upd(c))
        case None => None))))
  }

  /** A slot `update_all` changes is one it calls `update` on. */
  lemma UpdateAllTouchesOnlyCalled<T(!new), C>(w: World<T, C>, upd: C -> C, i: nat, e: nat)
    requires Valid(w) && i < |w.tables| && e < w.entitiesCount
    requires UpdateAll(w, upd).tables[i].slots[e] != w.tables[i].slots[e]
    ensures (i, e) in UpdateCalls(w.tables, 0)
  {
    UpdateCallsExact(w.tables, 0);
  }

  /** The tags that have a table. */
  function Tags<T(==,!new), C>(w: World<T, C>): set<T> {
    set i | 0 <= i < |w.tables| :: w.tables[i].tag
  }

  /** The map-based store this list stands for: each tag's first table. */
  function Abs<T(==,!new), C>(w: World<T, C>): (s: Ecs.Store<T, C>)
    requires Valid(w)
    ensures Ecs.Valid(s) && s.entitiesCount == w.entitiesCount
  {
    Ecs.Store(w.entitiesCount, map t | t in Tags(w) :: w.tables[Find(w.tables, t, 0).value].slots)
  }

  /** `borrow_component_vec` of the list is that of the abstract store. */
  lemma BorrowRefines<T(!new), C>(w: World<T, C>, tag: T)
    requires Valid(w)
    ensures BorrowComponentVec(w, tag) == Ecs.BorrowComponentVec(Abs(w), tag)
  {
    if Find(w.tables, tag, 0).Some? {
      assert tag in Tags(w);
    }
  }

  /** Two valid list stores with the same lookups stand for the same store. */
  lemma AbsByLookups<T(!new), C>(w: World<T, C>, s: Ecs.Store<T, C>)
    requires Valid(w) && Ecs.Valid(s) && s.entitiesCount == w.entitiesCount
    requires forall t :: BorrowComponentVec(w, t) == Ecs.BorrowComponentVec(s, t)
    ensures Abs(w) == s
  {
    forall t ensures BorrowComponentVec(w, t) == Ecs.BorrowComponentVec(Abs(w), t) {
      BorrowRefines(w, t);
    }
    forall t ensures t in Abs(w).tables <==> t in s.tables {
      assert Ecs.BorrowComponentVec(Abs(w), t) == Ecs.BorrowComponentVec(s, t);
    }
    forall t | t in s.tables ensures Abs(w).tables[t] == s.tables[t] {
      assert Ecs.BorrowComponentVec(Abs(w), t) == Ecs.BorrowComponentVec(s, t);
    }
  }

  /** `new_entity` of the list store is `new_entity` of the map store. */
  lemma NewEntityRefines<T(!new), C>(w: World<T, C>)
    requires Valid(w)
    ensures Abs(NewEntity(w).0) == Ecs.NewEntity(Abs(w)).0
    ensures NewEntity(w).1 == Ecs.NewEntity(Abs(w)).1
  {
    var r := NewEntity(w).0;
    forall t ensures BorrowComponentVec(r, t) == Ecs.BorrowComponentVec(Ecs.NewEntity(Abs(w)).0, t) {
      FindSame(r.tables, w.tables, t, 0);
      BorrowRefines(w, t);
    }
    AbsByLookups(r, Ecs.NewEntity(Abs(w)).0);
  }

  /** `add_component_to_entity` of the list store is `add_component` of the
      map store. */
  lemma AddRefines<T(!new), C>(w: World<T, C>, tag: T, e: nat, v: C)
    requires Valid(w) && e < w.entitiesCount
    ensures Abs(AddComponentToEntity(w, tag, e, v)) == Ecs.AddComponent(Abs(w), tag, e, v)
  {
    var r := AddComponentToEntity(w, tag, e, v);
    var s := Ecs.AddComponent(Abs(w), tag, e, v);
    forall t ensures BorrowComponentVec(r, t) == Ecs.BorrowComponentVec(s, t) {
      BorrowRefines(w, t);
      if t == tag {
        var a := BorrowComponentVec(r, t).value;
        var b := s.tables[t];
        assert |a| == |b|;
        forall j | 0 <= j < |a| ensures a[j] == b[j] {
          assert Ecs.GetComponent(s, t, j) == b[j];
          if j != e {
            assert Ecs.GetComponent(s, t, j) == Ecs.GetComponent(Abs(w), t, j);
          }
        }
        assert a == b;
      } else {
        assert t in s.tables <==> t in Abs(w).tables;
        if t in s.tables {
          assert s.tables[t] == Abs(w).tables[t];
        }
        assert Ecs.BorrowComponentVec(s, t) == Ecs.BorrowComponentVec(Abs(w), t);
      }
    }
    AbsByLookups(r, s);
  }
}
