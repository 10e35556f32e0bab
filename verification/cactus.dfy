/** The older obstacle pool of `src/cactus.rs`: cacti are handed out
    round-robin from a cursor, moved with the earlier `Movable`, and tested
    with the earlier offset box. */
module Cactus {
  import opened Wrappers
  import opened Vectors
  import opened Constants
  import opened EarlyWorld
  import EarlyMovement
  import EarlyCollision
  import Ecs

  datatype CactusEntry = CactusEntry(id: nat, active: bool)

  /** `cur` is the slot the next activation looks at. */
  datatype CactusPool = CactusPool(cacti: seq<CactusEntry>, cur: nat)

  datatype CactusManager = CactusManager(pool: CactusPool, delay: real, nextSpawnTime: real)

  function NewEntry(id: nat): (c: CactusEntry)
    ensures c.id == id && !c.active
  {
    CactusEntry(id, false)
  }

  /** `CactusPool::new` (and `with_capacity`, which only reserves memory). */
  function NewPool(): (p: CactusPool)
    ensures p.cacti == [] && p.cur == 0
  {
    CactusPool([], 0)
  }

  /** `add_cactus`: one more inactive entry at the end; the cursor stays. */
  function AddCactus(p: CactusPool, id: nat): (r: CactusPool)
    ensures |r.cacti| == |p.cacti| + 1 && r.cacti[..|p.cacti|] == p.cacti
    ensures r.cacti[|p.cacti|] == NewEntry(id) && r.cur == p.cur
  {
    p.(cacti := p.cacti + [NewEntry(id)])
  }

  /** `activate_next`: indexing at the cursor panics when it is out of
      range (always so for an empty pool); an active cursor slot gives
      `None` and no change; otherwise the cursor slot is activated, its id
      returned and the cursor advanced cyclically. */
  function ActivateNext(p: CactusPool): (r: Result<(CactusPool, Option<nat>)>)
    ensures r.Panic? <==> p.cur >= |p.cacti|
    ensures r.Ok? && p.cacti[p.cur].active ==> r.value == (p, None)
    ensures r.Ok? && !p.cacti[p.cur].active ==>
      r.value.1 == Some(p.cacti[p.cur].id) &&
      r.value.0.cacti == p.cacti[p.cur := p.cacti[p.cur].(active := true)] &&
      r.value.0.cur < |p.cacti| && (p.cur + 1 == r.value.0.cur || (p.cur + 1 == |p.cacti| && r.value.0.cur == 0))
  {
    if p.cur >= |p.cacti| then Panic(IndexOutOfBounds)
    else if p.cacti[p.cur].active then Ok((p, None))
    else
      var res := p.cur;
      Ok((CactusPool(p.cacti[res := p.cacti[res].(active := true)], (p.cur + 1) % |p.cacti|), Some(p.cacti[res].id)))
  }

  /** `k` activations in a row, collecting what each returned. */
  function ActivateRepeat(p: CactusPool, k: nat): Result<(CactusPool, seq<Option<nat>>)>
    decreases k
  {
    if k == 0 then Ok((p, []))
    else
      var a :- ActivateNext(p);
      var rest :- ActivateRepeat(a.0, k - 1);
      Ok((rest.0, [a.1] + rest.1))
  }

  /** Slots `from .. to - 1` are all inactive. */
  predicate FreeRange(cacti: seq<CactusEntry>, from: nat, to: nat)
    requires from <= to <= |cacti|
  {
    forall j :: from <= j < to ==> !cacti[j].active
  }

  /** The cursor hands out consecutive slots: from a run of `k` free slots
      starting at the cursor, `k` activations return those slots' ids in
      order, activate exactly them and leave the cursor just past them. */
  lemma {:induction false} RoundRobinOrder(p: CactusPool, k: nat)
    requires p.cur + k <= |p.cacti| && FreeRange(p.cacti, p.cur, p.cur + k)
    ensures ActivateRepeat(p, k).Ok?
    ensures var r := ActivateRepeat(p, k).value;
      |r.1| == k && (forall j :: 0 <= j < k ==> r.1[j] == Some(p.cacti[p.cur + j].id)) &&
      |r.0.cacti| == |p.cacti| &&
      (forall j :: 0 <= j < |p.cacti| ==> r.0.cacti[j].id == p.cacti[j].id) &&
      (forall j :: 0 <= j < |p.cacti| ==>
        r.0.cacti[j].active == (p.cacti[j].active || p.cur <= j < p.cur + k)) &&
      r.0.cur == (if k == 0 then p.cur else (p.cur + k) % |p.cacti|)
    decreases k
  {
    if k > 0 {
      var a := ActivateNext(p).value;
      assert a.0.cur == (p.cur + 1) % |p.cacti|;
      if k == 1 {
        assert ActivateRepeat(a.0, 0) == Ok((a.0, []));
      } else {
        assert p.cur + 1 < |p.cacti|;
        assert (p.cur + 1) % |p.cacti| == p.cur + 1;
        RoundRobinOrder(a.0, k - 1);
        var r := ActivateRepeat(a.0, k - 1).value;
        assert ActivateRepeat(p, k).value == (r.0, [a.1] + r.1);
      }
    }
  }

  /** `deactivate(id)`: every entry with that id becomes inactive; nothing
      else changes. */
  function Deactivate(p: CactusPool, id: nat): (r: CactusPool)
    ensures |r.cacti| == |p.cacti| && r.cur == p.cur
    ensures forall j :: 0 <= j < |p.cacti| ==>
      r.cacti[j].id == p.cacti[j].id && r.cacti[j].active == (p.cacti[j].active && p.cacti[j].id != id)
  {
    p.(cacti := seq(|p.cacti|, j requires 0 <= j < |p.cacti| =>
      if p.cacti[j].id == id then p.cacti[j].(active := false) else p.cacti[j]))
  }

  /** Freeing the cactus under the cursor makes the next activation hand it
      out again. */
  lemma DeactivateThenActivate(p: CactusPool)
    requires p.cur < |p.cacti|
    ensures var q := Deactivate(p, p.cacti[p.cur].id);
      ActivateNext(q).Ok? && ActivateNext(q).value.1 == Some(p.cacti[p.cur].id)
  {
  }

  /** `CactusManager::new` (and `with_capacity`). */
  function NewManager(delay: real): (m: CactusManager)
    ensures m.pool == NewPool() && m.delay == delay && m.nextSpawnTime == 0.0
  {
    CactusManager(NewPool(), delay, 0.0)
  }

  function ManagerAddCactus(m: CactusManager, id: nat): (r: CactusManager)
    ensures r.pool == AddCactus(m.pool, id) && r.delay == m.delay && r.nextSpawnTime == m.nextSpawnTime
  {
    m.(pool := AddCactus(m.pool, id))
  }

  /** `get_component::<Movable>(id).unwrap()` for an id the pool holds: an
      out-of-range id panics (by indexing when the table exists, by the
      unwrap otherwise), as does a missing `Movable`. */
  function MovableAt(w: World, id: nat): (r: Result<Movable>)
    requires Ecs.Valid(w)
    ensures r.Ok? <==> id < w.entitiesCount && GetMovable(w, id).Some?
    ensures r.Ok? ==> r.value == GetMovable(w, id).value
  {
    if id >= w.entitiesCount then
      if MovableKind in w.tables then Panic(IndexOutOfBounds) else Panic(UnwrapNone)
    else Unwrap(GetMovable(w, id))
  }

  /** Where a new cactus appears: 50 past the right screen edge. */
  const SPAWN_X: real := SCREEN_W / 2.0 + 50.0

  /** `check_for_next_cactus`: nothing while the spawn time is in the
      future; otherwise the cursor cactus is activated (panicking when it is
      still active), moved to `SPAWN_X` at its height, and the next spawn is
      `delay` from now. */
  function CheckForNextCactus(m: CactusManager, w: World, time: real): (r: Result<(CactusManager, World)>)
    requires Ecs.Valid(w)
    ensures m.nextSpawnTime > time ==> r == Ok((m, w))
    ensures m.nextSpawnTime <= time && m.pool.cur < |m.pool.cacti| && m.pool.cacti[m.pool.cur].active ==> r.Panic?
    ensures m.nextSpawnTime <= time ==>
      (r.Ok? <==>
        m.pool.cur < |m.pool.cacti| && !m.pool.cacti[m.pool.cur].active &&
        m.pool.cacti[m.pool.cur].id < w.entitiesCount && GetMovable(w, m.pool.cacti[m.pool.cur].id).Some?)
    ensures r.Ok? ==> Ecs.Valid(r.value.1) && r.value.1.entitiesCount == w.entitiesCount && r.value.0.delay == m.delay
    ensures r.Ok? && m.nextSpawnTime <= time ==> m.pool.cur < |m.pool.cacti| && !m.pool.cacti[m.pool.cur].active
    ensures r.Ok? && m.nextSpawnTime <= time ==>
      var id := m.pool.cacti[m.pool.cur].id;
      r.value.0.pool == ActivateNext(m.pool).value.0 && r.value.0.nextSpawnTime == time + m.delay &&
      Live(w, id) && GetMovable(w, id).Some? &&
      GetMovable(r.value.1, id) == Some(GetMovable(w, id).value.(pos := Vec2(SPAWN_X, GetMovable(w, id).value.pos.y))) &&
      forall k, e: nat :: e < w.entitiesCount && (k != MovableKind || e != id) ==> Slot(r.value.1, k, e) == Slot(w, k, e)
  {
    if m.nextSpawnTime > time then Ok((m, w))
    else
      var act :- ActivateNext(m.pool);
      var id :- Unwrap(act.1);
      var mv :- MovableAt(w, id);
      Ok((m.(pool := act.0, nextSpawnTime := time + m.delay), SetMovable(w, id, mv.(pos := Vec2(SPAWN_X, mv.pos.y)))))
  }

  /** The x below which an active cactus is recycled. */
  const DESPAWN_X: real := -SCREEN_W - 50.0

  /** Every active cactus from slot `i` on names an entity with a `Movable`:
      exactly what the loop of `update` needs not to panic. */
  predicate SweepReady(cacti: seq<CactusEntry>, w: World, i: nat) {
    forall j :: i <= j < |cacti| && cacti[j].active ==>
      cacti[j].id < w.entitiesCount && Ecs.Valid(w) && GetMovable(w, cacti[j].id).Some?
  }

  /** The loop of `update` from slot `i` on: an active cactus beyond
      `DESPAWN_X` is deactivated by id, any other active cactus integrated
      one step, inactive ones skipped. */
  function Sweep(p: CactusPool, w: World, i: nat, dt: real): (r: Result<(CactusPool, World)>)
    requires Ecs.Valid(w) && i <= |p.cacti|
    ensures r.Ok? ==> Ecs.Valid(r.value.1) && r.value.1.entitiesCount == w.entitiesCount
    ensures r.Ok? ==> |r.value.0.cacti| == |p.cacti| && r.value.0.cur == p.cur
    ensures r.Ok? ==> forall j :: 0 <= j < |p.cacti| ==>
      r.value.0.cacti[j].id == p.cacti[j].id && (r.value.0.cacti[j].active ==> p.cacti[j].active)
    ensures r.Ok? <==> SweepReady(p.cacti, w, i)
    decreases |p.cacti| - i
  {
    if i == |p.cacti| then Ok((p, w))
    else if !p.cacti[i].active then Sweep(p, w, i + 1, dt)
    else
      var id := p.cacti[i].id;
      var mv :- MovableAt(w, id);
      if mv.pos.x < DESPAWN_X then
        assert SweepReady(p.cacti, w, i) <==> SweepReady(Deactivate(p, id).cacti, w, i + 1);
        Sweep(Deactivate(p, id), w, i + 1, dt)
      else
        var w1 := EarlyMovement.UpdatePos(w, id, dt);
        assert SweepReady(p.cacti, w, i + 1) <==> SweepReady(p.cacti, w1, i + 1) by {
          forall j | i + 1 <= j < |p.cacti| && p.cacti[j].active && p.cacti[j].id < w.entitiesCount && p.cacti[j].id != id
            ensures GetMovable(w1, p.cacti[j].id) == GetMovable(w, p.cacti[j].id)
          {
            assert Slot(w1, MovableKind, p.cacti[j].id) == Slot(w, MovableKind, p.cacti[j].id);
          }
        }
        Sweep(p, w1, i + 1, dt)
  }

  predicate DistinctIds(cacti: seq<CactusEntry>) {
    forall i, j :: 0 <= i < j < |cacti| ==> cacti[i].id != cacti[j].id
  }

  /** No slot from `i` on holds entity `e`. */
  predicate NotHeldFrom(cacti: seq<CactusEntry>, i: nat, e: nat) {
    forall j :: i <= j < |cacti| ==> cacti[j].id != e
  }

  /** The sweep writes only `Movable`s of entities held from slot `i` on. */
  lemma {:induction false} SweepFrame(p: CactusPool, w: World, i: nat, dt: real)
    requires Ecs.Valid(w) && i <= |p.cacti| && Sweep(p, w, i, dt).Ok?
    ensures forall k, e: nat :: e < w.entitiesCount && (k != MovableKind || NotHeldFrom(p.cacti, i, e)) ==>
      Slot(Sweep(p, w, i, dt).value.1, k, e) == Slot(w, k, e)
    decreases |p.cacti| - i
  {
    if i < |p.cacti| && p.cacti[i].active {
      var id := p.cacti[i].id;
      if GetMovable(w, id).value.pos.x < DESPAWN_X {
        SweepFrame(Deactivate(p, id), w, i + 1, dt);
      } else {
        SweepFrame(p, EarlyMovement.UpdatePos(w, id, dt), i + 1, dt);
      }
    } else if i < |p.cacti| {
      SweepFrame(p, w, i + 1, dt);
    }
  }

  /** With distinct ids, each active cactus at or after slot `i` ends
      inactive exactly when it was beyond `DESPAWN_X`. */
  lemma {:induction false} SweepFreesOffScreen(p: CactusPool, w: World, i: nat, dt: real)
    requires Ecs.Valid(w) && i <= |p.cacti| && DistinctIds(p.cacti)
    requires Sweep(p, w, i, dt).Ok?
    ensures forall j :: i <= j < |p.cacti| && p.cacti[j].active ==>
      Live(w, p.cacti[j].id) && GetMovable(w, p.cacti[j].id).Some? &&
      Sweep(p, w, i, dt).value.0.cacti[j].active == (GetMovable(w, p.cacti[j].id).value.pos.x >= DESPAWN_X)
    decreases |p.cacti| - i
  {
    if i == |p.cacti| {
    } else if !p.cacti[i].active {
      SweepFreesOffScreen(p, w, i + 1, dt);
    } else {
      var id := p.cacti[i].id;
      assert NotHeldFrom(p.cacti, i + 1, id);
      if GetMovable(w, id).value.pos.x < DESPAWN_X {
        var p1 := Deactivate(p, id);
        assert Sweep(p, w, i, dt) == Sweep(p1, w, i + 1, dt);
        assert forall j :: 0 <= j < |p.cacti| ==> p1.cacti[j] == (if j == i then p.cacti[i].(active := false) else p.cacti[j]);
        SweepFreesOffScreen(p1, w, i + 1, dt);
        SweepKeepsEarlier(p1, w, i + 1, dt);
      } else {
        var w1 := EarlyMovement.UpdatePos(w, id, dt);
        assert Sweep(p, w, i, dt) == Sweep(p, w1, i + 1, dt);
        SweepFreesOffScreen(p, w1, i + 1, dt);
        SweepKeepsEarlier(p, w1, i + 1, dt);
        forall j | i + 1 <= j < |p.cacti| && p.cacti[j].active && Live(w1, p.cacti[j].id)
          ensures GetMovable(w1, p.cacti[j].id) == GetMovable(w, p.cacti[j].id)
        {
          assert Slot(w1, MovableKind, p.cacti[j].id) == Slot(w, MovableKind, p.cacti[j].id);
        }
      }
    }
  }

  /** With distinct ids, each active cactus at or after slot `i` that stays
      in use is integrated one step, and a recycled one is not moved. */
  lemma {:induction false} SweepMovesKept(p: CactusPool, w: World, i: nat, dt: real)
    requires Ecs.Valid(w) && i <= |p.cacti| && DistinctIds(p.cacti)
    requires Sweep(p, w, i, dt).Ok?
    ensures MovedKept(p.cacti, w, i, dt, Sweep(p, w, i, dt).value.1)
    decreases |p.cacti| - i, 1
  {
    if i == |p.cacti| {
    } else if !p.cacti[i].active {
      SweepMovesKept(p, w, i + 1, dt);
    } else if GetMovable(w, p.cacti[i].id).value.pos.x < DESPAWN_X {
      MovesKeptFreeStep(p, w, i, dt);
    } else {
      MovesKeptMoveStep(p, w, i, dt);
    }
  }

  /** Slot by slot from `i` on, each active cactus's entity in `w1` is its
      entity in `w` integrated one step, or left as it was when recycled. */
  predicate MovedKept(cacti: seq<CactusEntry>, w: World, i: nat, dt: real, w1: World) {
    forall j :: i <= j < |cacti| && cacti[j].active ==>
      Live(w, cacti[j].id) && GetMovable(w, cacti[j].id).Some? &&
      Live(w1, cacti[j].id) &&
      GetMovable(w1, cacti[j].id) == Some(
        if GetMovable(w, cacti[j].id).value.pos.x >= DESPAWN_X
        then EarlyMovement.CheckGroundCollision(w, cacti[j].id, EarlyMovement.EulerStep(GetMovable(w, cacti[j].id).value, dt))
        else GetMovable(w, cacti[j].id).value)
  }

  /** `SweepMovesKept` when slot `i`'s cactus is recycled. */
  lemma {:induction false} MovesKeptFreeStep(p: CactusPool, w: World, i: nat, dt: real)
    requires Ecs.Valid(w) && i < |p.cacti| && DistinctIds(p.cacti) && p.cacti[i].active
    requires Live(w, p.cacti[i].id) && GetMovable(w, p.cacti[i].id).Some?
    requires GetMovable(w, p.cacti[i].id).value.pos.x < DESPAWN_X
    requires Sweep(p, w, i, dt).Ok?
    ensures MovedKept(p.cacti, w, i, dt, Sweep(p, w, i, dt).value.1)
    decreases |p.cacti| - i, 0
  {
    var id := p.cacti[i].id;
    assert NotHeldFrom(p.cacti, i + 1, id);
    var p1 := Deactivate(p, id);
    assert Sweep(p, w, i, dt) == Sweep(p1, w, i + 1, dt);
    var r := Sweep(p1, w, i + 1, dt).value.1;
    SweepMovesKept(p1, w, i + 1, dt);
    SweepFrame(p1, w, i + 1, dt);
    assert NotHeldFrom(p1.cacti, i + 1, id);
    assert Slot(r, MovableKind, id) == Slot(w, MovableKind, id);
    forall j | i + 1 <= j < |p.cacti| && p.cacti[j].active
      ensures p1.cacti[j] == p.cacti[j]
    {
      assert p.cacti[j].id != id;
    }
  }

  /** `SweepMovesKept` when slot `i`'s cactus is stepped. */
  lemma {:induction false} MovesKeptMoveStep(p: CactusPool, w: World, i: nat, dt: real)
    requires Ecs.Valid(w) && i < |p.cacti| && DistinctIds(p.cacti) && p.cacti[i].active
    requires Live(w, p.cacti[i].id) && GetMovable(w, p.cacti[i].id).Some?
    requires GetMovable(w, p.cacti[i].id).value.pos.x >= DESPAWN_X
    requires Sweep(p, w, i, dt).Ok?
    ensures MovedKept(p.cacti, w, i, dt, Sweep(p, w, i, dt).value.1)
    decreases |p.cacti| - i, 0
  {
    var id := p.cacti[i].id;
    assert NotHeldFrom(p.cacti, i + 1, id);
    var w1 := EarlyMovement.UpdatePos(w, id, dt);
    assert Sweep(p, w, i, dt) == Sweep(p, w1, i + 1, dt);
    SweepMovesKept(p, w1, i + 1, dt);
    SweepFrame(p, w1, i + 1, dt);
    forall j | i + 1 <= j < |p.cacti| && p.cacti[j].active && Live(w1, p.cacti[j].id)
      ensures GetMovable(w1, p.cacti[j].id) == GetMovable(w, p.cacti[j].id)
      ensures GetBox(w1, p.cacti[j].id) == GetBox(w, p.cacti[j].id)
    {
      assert Slot(w1, MovableKind, p.cacti[j].id) == Slot(w, MovableKind, p.cacti[j].id);
      assert Slot(w1, BoxKind, p.cacti[j].id) == Slot(w, BoxKind, p.cacti[j].id);
    }
  }

  /** The sweep never adds or removes a `Movable`. */
  lemma {:induction false} SweepKeepsMovables(p: CactusPool, w: World, i: nat, dt: real)
    requires Ecs.Valid(w) && i <= |p.cacti| && Sweep(p, w, i, dt).Ok?
    ensures forall e: nat :: e < w.entitiesCount ==>
      GetMovable(Sweep(p, w, i, dt).value.1, e).Some? == GetMovable(w, e).Some?
    decreases |p.cacti| - i
  {
    if i < |p.cacti| && p.cacti[i].active {
      var id := p.cacti[i].id;
      if GetMovable(w, id).value.pos.x < DESPAWN_X {
        SweepKeepsMovables(Deactivate(p, id), w, i + 1, dt);
      } else {
        var w1 := EarlyMovement.UpdatePos(w, id, dt);
        SweepKeepsMovables(p, w1, i + 1, dt);
        forall e: nat | e < w.entitiesCount && e != id ensures GetMovable(w1, e) == GetMovable(w, e) {
          assert Slot(w1, MovableKind, e) == Slot(w, MovableKind, e);
        }
      }
    } else if i < |p.cacti| {
      SweepKeepsMovables(p, w, i + 1, dt);
    }
  }

  /** With distinct ids, slots before `i` keep their entries. */
  lemma {:induction false} SweepKeepsEarlier(p: CactusPool, w: World, i: nat, dt: real)
    requires Ecs.Valid(w) && i <= |p.cacti| && DistinctIds(p.cacti)
    requires Sweep(p, w, i, dt).Ok?
    ensures forall j :: 0 <= j < i ==> Sweep(p, w, i, dt).value.0.cacti[j] == p.cacti[j]
    decreases |p.cacti| - i
  {
    if i < |p.cacti| && p.cacti[i].active {
      var id := p.cacti[i].id;
      if GetMovable(w, id).value.pos.x < DESPAWN_X {
        var p1 := Deactivate(p, id);
        assert forall j :: 0 <= j < |p.cacti| ==> p1.cacti[j] == (if j == i then p.cacti[i].(active := false) else p.cacti[j]);
        SweepKeepsEarlier(p1, w, i + 1, dt);
      } else {
        SweepKeepsEarlier(p, EarlyMovement.UpdatePos(w, id, dt), i + 1, dt);
      }
    } else if i < |p.cacti| {
      SweepKeepsEarlier(p, w, i + 1, dt);
    }
  }

  /** `CactusManager::update`: sweep, then maybe spawn. */
  function Update(m: CactusManager, w: World, time: real, dt: real): (r: Result<(CactusManager, World)>)
    requires Ecs.Valid(w)
    ensures r.Ok? ==> Ecs.Valid(r.value.1) && r.value.1.entitiesCount == w.entitiesCount
    ensures r.Ok? ==> |r.value.0.pool.cacti| == |m.pool.cacti| && r.value.0.delay == m.delay
    ensures r.Ok? ==> forall j :: 0 <= j < |m.pool.cacti| ==> r.value.0.pool.cacti[j].id == m.pool.cacti[j].id
    ensures r.Ok? && m.nextSpawnTime > time ==>
      forall j :: 0 <= j < |m.pool.cacti| ==> (r.value.0.pool.cacti[j].active ==> m.pool.cacti[j].active)
    ensures r.Ok? ==> SweepReady(m.pool.cacti, w, 0)
    ensures r.Ok? && m.nextSpawnTime <= time ==>
      m.pool.cur < |m.pool.cacti| && m.pool.cacti[m.pool.cur].id < w.entitiesCount &&
      GetMovable(w, m.pool.cacti[m.pool.cur].id).Some?
    ensures SweepReady(m.pool.cacti, w, 0) && m.nextSpawnTime > time ==> r.Ok?
    ensures (SweepReady(m.pool.cacti, w, 0) && m.pool.cur < |m.pool.cacti| && !m.pool.cacti[m.pool.cur].active &&
             m.pool.cacti[m.pool.cur].id < w.entitiesCount && GetMovable(w, m.pool.cacti[m.pool.cur].id).Some?) ==> r.Ok?
  {
    var sw :- Sweep(m.pool, w, 0, dt);
    SweepKeepsMovables(m.pool, w, 0, dt);
    CheckForNextCactus(m.(pool := sw.0), sw.1, time)
  }

  /** One cactus's test: the earlier `check_collision` with the player,
      which answers false without touching the cactus when the player has
      no box, and otherwise indexes the cactus's box slot. */
  function SlotCollides(w: World, e: nat, id: nat): (r: Result<bool>)
    requires Live(w, e)
    ensures id < w.entitiesCount ==> r == EarlyCollision.CheckCollision(w, e, id)
    ensures id >= w.entitiesCount ==> (r.Ok? <==> GetBox(w, e).None?) && (r.Ok? ==> !r.value)
  {
    if id < w.entitiesCount then EarlyCollision.CheckCollision(w, e, id)
    else if GetBox(w, e).None? then Ok(false)
    else Panic(IndexOutOfBounds)
  }

  /** The scan of `check_collision` from slot `i`, stopping at the first hit. */
  function AnyActiveCollides(cacti: seq<CactusEntry>, w: World, e: nat, i: nat): (r: Result<bool>)
    requires Live(w, e) && i <= |cacti|
    ensures r == Ok(true) ==> exists j :: i <= j < |cacti| && cacti[j].active && SlotCollides(w, e, cacti[j].id) == Ok(true)
    ensures r == Ok(false) <==> forall j :: i <= j < |cacti| && cacti[j].active ==> SlotCollides(w, e, cacti[j].id) == Ok(false)
    decreases |cacti| - i
  {
    if i == |cacti| then Ok(false)
    else if !cacti[i].active then AnyActiveCollides(cacti, w, e, i + 1)
    else
      var hit :- SlotCollides(w, e, cacti[i].id);
      if hit then Ok(true) else AnyActiveCollides(cacti, w, e, i + 1)
  }

  /** `CactusManager::check_collision`: true iff some active cactus collides. */
  function CheckCollision(m: CactusManager, w: World, e: nat): (r: Result<bool>)
    requires Live(w, e)
    ensures r == Ok(true) ==> exists j :: 0 <= j < |m.pool.cacti| && m.pool.cacti[j].active && SlotCollides(w, e, m.pool.cacti[j].id) == Ok(true)
    ensures r == Ok(false) <==> forall j :: 0 <= j < |m.pool.cacti| && m.pool.cacti[j].active ==> SlotCollides(w, e, m.pool.cacti[j].id) == Ok(false)
  {
    AnyActiveCollides(m.pool.cacti, w, e, 0)
  }
}
