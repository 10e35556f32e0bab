/** The obstacle scheduler of `src/obstacles.rs` (`ObstacleManager`): timed
    spawning at the right screen edge, off-screen recycling, the scroll-speed
    ramp and its propagation to every scrolling entity. */
module Obstacles {
  import opened Wrappers
  import opened Vectors
  import opened Bounds
  import opened Constants
  import opened Components
  import Ecs
  import Collision
  import Movement
  import opened ObstaclePool


  datatype ObstacleManager = ObstacleManager(
    pool: Pool, delay: real, nextSpawnTime: real, movableIds: seq<nat>, scrollSpeed: real)

  /** `ObstacleManager::new` (and `with_capacity`, which differs only in
      allocation): an empty pool, spawning due at once, starting speed. */
  function NewManager(delay: real, movableIds: seq<nat>, t: Tuning): (m: ObstacleManager)
    ensures m.pool == [] && m.delay == delay && m.movableIds == movableIds
    ensures m.nextSpawnTime == 0.0 && m.scrollSpeed == t.startScrollSpeed
  {
    ObstacleManager([], delay, 0.0, movableIds, t.startScrollSpeed)
  }

  /** `restart`: every slot free and the speed back at the start; the spawn
      timer is left as it was. */
  function Restart(m: ObstacleManager, t: Tuning): (r: ObstacleManager)
    ensures |r.pool| == |m.pool| && Ids(r.pool) == Ids(m.pool)
    ensures forall i :: 0 <= i < |r.pool| ==> !r.pool[i].active
    ensures r.scrollSpeed == t.startScrollSpeed
    ensures r.nextSpawnTime == m.nextSpawnTime && r.delay == m.delay && r.movableIds == m.movableIds
  {
    m.(pool := DeactivateAll(m.pool), scrollSpeed := t.startScrollSpeed)
  }

  /** `update_scroll_speed`: ramps by 5.5 per second while below the cap and
      is frozen from the first frame at or above it. */
  function UpdateScrollSpeed(m: ObstacleManager, dt: real, t: Tuning): (r: ObstacleManager)
    ensures m.scrollSpeed >= t.maxScrollSpeed ==> r == m
    ensures m.scrollSpeed < t.maxScrollSpeed ==> r == m.(scrollSpeed := m.scrollSpeed + SCROLL_RAMP * dt)
  {
    if m.scrollSpeed >= t.maxScrollSpeed then m
    else m.(scrollSpeed := m.scrollSpeed + dt * SCROLL_RAMP)
  }

  /** Frame by frame the speed never falls, and it passes the cap by less
      than one frame's ramp. */
  lemma {:induction false} ScrollSpeedRamp(m: ObstacleManager, dts: seq<real>, t: Tuning)
    requires forall i :: 0 <= i < |dts| ==> 0.0 <= dts[i] <= 1.0
    requires m.scrollSpeed < t.maxScrollSpeed + SCROLL_RAMP
    ensures RampAll(m, dts, t).scrollSpeed >= m.scrollSpeed
    ensures RampAll(m, dts, t).scrollSpeed < t.maxScrollSpeed + SCROLL_RAMP
    decreases |dts|
  {
    if |dts| > 0 {
      var m1 := UpdateScrollSpeed(m, dts[0], t);
      assert m1.scrollSpeed < t.maxScrollSpeed + SCROLL_RAMP by {
        if m.scrollSpeed < t.maxScrollSpeed {
          assert SCROLL_RAMP * dts[0] <= SCROLL_RAMP;
        }
      }
      ScrollSpeedRamp(m1, dts[1..], t);
    }
  }

  /** Speed updates for a sequence of frame lengths. */
  function RampAll(m: ObstacleManager, dts: seq<real>, t: Tuning): ObstacleManager
    decreases |dts|
  {
    if |dts| == 0 then m else RampAll(UpdateScrollSpeed(m, dts[0], t), dts[1..], t)
  }

  /** A `Movable` with only its horizontal velocity replaced. */
  function WithVx(mv: Movable, vx: real): (r: Movable)
    ensures r.velocity.x == vx && r.(velocity := mv.velocity) == mv && r.velocity.y == mv.velocity.y
  {
    mv.(velocity := Vec2(vx, mv.velocity.y))
  }

  /** One `get_component` / `velocity.x = ..` / `set_component` round:
      panics when the id is out of range or has no `Movable`. */
  function SetVx(w: World, id: nat, vx: real): (r: Result<World>)
    requires Ecs.Valid(w)
    ensures r.Ok? <==> id < w.entitiesCount && GetMovable(w, id).Some?
    ensures r.Ok? ==> Ecs.Valid(r.value) && r.value.entitiesCount == w.entitiesCount
    ensures r.Ok? ==> GetMovable(r.value, id) == Some(WithVx(GetMovable(w, id).value, vx))
    ensures r.Ok? ==> forall k, e: nat :: e < w.entitiesCount && (k != MovableKind || e != id) ==>
      Slot(r.value, k, e) == Slot(w, k, e)
  {
    if id >= w.entitiesCount then Panic(IndexOutOfBounds)
    else
      var mv :- Unwrap(GetMovable(w, id));
      Ok(SetMovable(w, id, WithVx(mv, vx)))
  }

  /** No later write in `writes` names the same entity as write `i`. */
  predicate LastWrite(writes: seq<(nat, real)>, i: nat)
    requires i < |writes|
  {
    forall j :: i < j < |writes| ==> writes[j].0 != writes[i].0
  }

  predicate Written(writes: seq<(nat, real)>, e: nat) {
    exists i :: 0 <= i < |writes| && writes[i].0 == e
  }

  /** A sequence of velocity writes, in order; panics at the first entity
      that is out of range or has no `Movable`. */
  function SetVxAll(w: World, writes: seq<(nat, real)>): (r: Result<World>)
    requires Ecs.Valid(w)
    ensures r.Ok? <==> forall i :: 0 <= i < |writes| ==>
      writes[i].0 < w.entitiesCount && GetMovable(w, writes[i].0).Some?
    ensures r.Ok? ==> Ecs.Valid(r.value) && r.value.entitiesCount == w.entitiesCount
    decreases |writes|
  {
    if |writes| == 0 then Ok(w)
    else
      var w1 :- SetVx(w, writes[0].0, writes[0].1);
      assert forall e: nat :: e < w.entitiesCount ==> GetMovable(w1, e).Some? == GetMovable(w, e).Some?;
      assert forall i :: 1 <= i < |writes| ==> writes[1..][i - 1] == writes[i];
      SetVxAll(w1, writes[1..])
  }

  /** Each written entity ends with the velocity of its last write and
      nothing else about it changes; entities never written, and every other
      component, are untouched. */
  lemma {:induction false} SetVxAllEffect(w: World, writes: seq<(nat, real)>)
    requires Ecs.Valid(w) && SetVxAll(w, writes).Ok?
    ensures forall k, e: nat :: e < w.entitiesCount && (k != MovableKind || !Written(writes, e)) ==>
      Slot(SetVxAll(w, writes).value, k, e) == Slot(w, k, e)
    ensures forall i :: 0 <= i < |writes| && LastWrite(writes, i) ==>
      GetMovable(SetVxAll(w, writes).value, writes[i].0) == Some(WithVx(GetMovable(w, writes[i].0).value, writes[i].1))
    ensures forall e: nat :: e < w.entitiesCount && GetMovable(w, e).Some? ==>
      GetMovable(SetVxAll(w, writes).value, e).Some? &&
      GetMovable(SetVxAll(w, writes).value, e).value.pos == GetMovable(w, e).value.pos
    decreases |writes|
  {
    if |writes| > 0 {
      var w1 := SetVx(w, writes[0].0, writes[0].1).value;
      var rest := writes[1..];
      var r := SetVxAll(w, writes).value;
      assert SetVxAll(w1, rest) == Ok(r);
      SetVxAllEffect(w1, rest);
      forall e: nat | Written(rest, e) ensures Written(writes, e) {
        var j :| 0 <= j < |rest| && rest[j].0 == e;
        assert writes[j + 1].0 == e;
      }
      forall i | 0 <= i < |writes| && LastWrite(writes, i)
        ensures GetMovable(r, writes[i].0) == Some(WithVx(GetMovable(w, writes[i].0).value, writes[i].1))
      {
        if i == 0 {
          assert !Written(rest, writes[0].0);
          assert Slot(r, MovableKind, writes[0].0) == Slot(w1, MovableKind, writes[0].0);
        } else {
          assert rest[i - 1] == writes[i];
          assert LastWrite(rest, i - 1) by {
            forall j | i - 1 < j < |rest| ensures rest[j].0 != rest[i - 1].0 {
              assert rest[j] == writes[j + 1];
            }
          }
        }
      }
    }
  }

  /** The writes of `update_movables_speed`: every background entity at
      `-speed`, then every pooled obstacle at `-(speed + its extra speed)`. */
  function SpeedWrites(ids: seq<nat>, pool: Pool, speed: real): (r: seq<(nat, real)>)
    ensures |r| == |ids| + |pool|
    ensures forall i :: 0 <= i < |ids| ==> r[i] == (ids[i], -speed)
    ensures forall i :: 0 <= i < |pool| ==> r[|ids| + i] == (pool[i].id, -(speed + pool[i].additionalSpeed))
  {
    seq(|ids|, i requires 0 <= i < |ids| => (ids[i], -speed)) +
    seq(|pool|, i requires 0 <= i < |pool| => (pool[i].id, -(speed + pool[i].additionalSpeed)))
  }

  /** `update_movables_speed`: skipped once the speed has reached the cap. */
  function UpdateMovablesSpeed(m: ObstacleManager, w: World, speed: real, t: Tuning): (r: Result<World>)
    requires Ecs.Valid(w)
    ensures m.scrollSpeed >= t.maxScrollSpeed ==> r == Ok(w)
    ensures m.scrollSpeed < t.maxScrollSpeed ==> (r.Ok? <==>
      (forall i :: 0 <= i < |m.movableIds| ==> m.movableIds[i] < w.entitiesCount && GetMovable(w, m.movableIds[i]).Some?) &&
      (forall i :: 0 <= i < |m.pool| ==> m.pool[i].id < w.entitiesCount && GetMovable(w, m.pool[i].id).Some?))
    ensures r.Ok? ==> Ecs.Valid(r.value) && r.value.entitiesCount == w.entitiesCount
  {
    if m.scrollSpeed >= t.maxScrollSpeed then Ok(w)
    else SetVxAll(w, SpeedWrites(m.movableIds, m.pool, speed))
  }

  /** All scrolling entities are distinct. */
  predicate DistinctScrollIds(m: ObstacleManager) {
    var ids := m.movableIds + Ids(m.pool);
    forall i, j :: 0 <= i < j < |ids| ==> ids[i] != ids[j]
  }

  /** With distinct ids, every write of `update_movables_speed` is the last
      one for its entity. */
  lemma SpeedWritesAreLast(m: ObstacleManager, speed: real)
    requires DistinctScrollIds(m)
    ensures forall i :: 0 <= i < |m.movableIds| + |m.pool| ==> LastWrite(SpeedWrites(m.movableIds, m.pool, speed), i)
  {
    var writes := SpeedWrites(m.movableIds, m.pool, speed);
    var ids := m.movableIds + Ids(m.pool);
    assert forall i :: 0 <= i < |writes| ==> writes[i].0 == ids[i];
    forall i | 0 <= i < |writes| ensures LastWrite(writes, i) {
    }
  }

  /** With distinct ids, below the cap, each background entity moves left at
      the scroll speed and each obstacle at the scroll speed plus its extra. */
  lemma MovablesSpeedEffect(m: ObstacleManager, w: World, speed: real, t: Tuning)
    requires Ecs.Valid(w) && DistinctScrollIds(m) && m.scrollSpeed < t.maxScrollSpeed
    requires UpdateMovablesSpeed(m, w, speed, t).Ok?
    ensures var r := UpdateMovablesSpeed(m, w, speed, t).value;
      (forall i :: 0 <= i < |m.movableIds| ==>
        m.movableIds[i] < w.entitiesCount && GetMovable(r, m.movableIds[i]).Some? &&
        GetMovable(r, m.movableIds[i]).value.velocity.x == -speed) &&
      (forall i :: 0 <= i < |m.pool| ==>
        m.pool[i].id < w.entitiesCount && GetMovable(r, m.pool[i].id).Some? &&
        GetMovable(r, m.pool[i].id).value.velocity.x == -(speed + m.pool[i].additionalSpeed))
  {
    BackgroundSpeed(m, w, speed, t);
    ObstacleSpeed(m, w, speed, t);
  }

  lemma BackgroundSpeed(m: ObstacleManager, w: World, speed: real, t: Tuning)
    requires Ecs.Valid(w) && DistinctScrollIds(m) && m.scrollSpeed < t.maxScrollSpeed
    requires UpdateMovablesSpeed(m, w, speed, t).Ok?
    ensures var r := UpdateMovablesSpeed(m, w, speed, t).value;
      forall i :: 0 <= i < |m.movableIds| ==>
        m.movableIds[i] < w.entitiesCount && GetMovable(r, m.movableIds[i]).Some? &&
        GetMovable(r, m.movableIds[i]).value.velocity.x == -speed
  {
    var writes := SpeedWrites(m.movableIds, m.pool, speed);
    var r := UpdateMovablesSpeed(m, w, speed, t).value;
    assert SetVxAll(w, writes) == Ok(r);
    SpeedWritesAreLast(m, speed);
    forall i | 0 <= i < |m.movableIds|
      ensures m.movableIds[i] < w.entitiesCount && GetMovable(r, m.movableIds[i]).Some? &&
              GetMovable(r, m.movableIds[i]).value.velocity.x == -speed
    {
      assert writes[i] == (m.movableIds[i], -speed);
      LastWriteEffect(w, writes, i);
    }
  }

  lemma ObstacleSpeed(m: ObstacleManager, w: World, speed: real, t: Tuning)
    requires Ecs.Valid(w) && DistinctScrollIds(m) && m.scrollSpeed < t.maxScrollSpeed
    requires UpdateMovablesSpeed(m, w, speed, t).Ok?
    ensures var r := UpdateMovablesSpeed(m, w, speed, t).value;
      forall i :: 0 <= i < |m.pool| ==>
        m.pool[i].id < w.entitiesCount && GetMovable(r, m.pool[i].id).Some? &&
        GetMovable(r, m.pool[i].id).value.velocity.x == -(speed + m.pool[i].additionalSpeed)
  {
    var writes := SpeedWrites(m.movableIds, m.pool, speed);
    var r := UpdateMovablesSpeed(m, w, speed, t).value;
    assert SetVxAll(w, writes) == Ok(r);
    SpeedWritesAreLast(m, speed);
    forall i | 0 <= i < |m.pool|
      ensures m.pool[i].id < w.entitiesCount && GetMovable(r, m.pool[i].id).Some? &&
              GetMovable(r, m.pool[i].id).value.velocity.x == -(speed + m.pool[i].additionalSpeed)
    {
      var j := |m.movableIds| + i;
      assert writes[j] == (m.pool[i].id, -(speed + m.pool[i].additionalSpeed));
      LastWriteEffect(w, writes, j);
    }
  }

  /** One write that no later write overrides, read back. */
  lemma LastWriteEffect(w: World, writes: seq<(nat, real)>, i: nat)
    requires Ecs.Valid(w) && SetVxAll(w, writes).Ok? && i < |writes| && LastWrite(writes, i)
    ensures writes[i].0 < w.entitiesCount && GetMovable(w, writes[i].0).Some?
    ensures GetMovable(SetVxAll(w, writes).value, writes[i].0) == Some(WithVx(GetMovable(w, writes[i].0).value, writes[i].1))
  {
    SetVxAllEffect(w, writes);
  }

  /** The spawn placement: the left envelope edge on the right screen edge. */
  function SpawnAt(mv: Movable, col: Collider): (r: Movable)
    ensures Add(r.pos, Collision.ColliderBoundOffset(col, Left)).x == SCREEN_W / 2.0
    ensures r.pos.y == mv.pos.y && r.(pos := mv.pos) == mv
  {
    mv.(pos := Vec2(SCREEN_W / 2.0 - Collision.ColliderBoundOffset(col, Left).x, mv.pos.y))
  }

  /** `check_for_next_obstacle`. Before the spawn time nothing happens.
      Otherwise a slot is activated (draw `rU`), its entity placed just off
      the right screen edge, speeds propagated, and the next spawn scheduled
      `delay + 1.3 * rF` later (draw `rF` in [0, 1)). An empty or full pool,
      or a spawned entity without `Movable` or `Collider`, panics. */
  function CheckForNextObstacle(m: ObstacleManager, w: World, rU: nat, rF: real, time: real, t: Tuning)
    : (r: Result<(ObstacleManager, World)>)
    requires Ecs.Valid(w)
    ensures time < m.nextSpawnTime ==> r == Ok((m, w))
    ensures time >= m.nextSpawnTime && (|m.pool| == 0 || AllActive(m.pool)) ==> r.Panic?
    ensures r.Ok? ==> Ecs.Valid(r.value.1) && r.value.1.entitiesCount == w.entitiesCount
    ensures r.Ok? ==>
      r.value.0.delay == m.delay && r.value.0.movableIds == m.movableIds && r.value.0.scrollSpeed == m.scrollSpeed
    ensures r.Ok? && time >= m.nextSpawnTime ==>
      ActivateNext(m.pool, rU).Ok? && r.value.0.pool == ActivateNext(m.pool, rU).value.0 &&
      r.value.0.nextSpawnTime == time + m.delay + SPAWN_JITTER * rF
    ensures time >= m.nextSpawnTime && ActivateNext(m.pool, rU).Ok? && ActivateNext(m.pool, rU).value.1.Some? ==>
      (var id := ActivateNext(m.pool, rU).value.1.value;
       var m1 := m.(pool := ActivateNext(m.pool, rU).value.0);
       (r.Ok? <==>
         id < w.entitiesCount && GetMovable(w, id).Some? && GetCollider(w, id).Some? &&
         UpdateMovablesSpeed(m1, SetMovable(w, id, SpawnAt(GetMovable(w, id).value, GetCollider(w, id).value)), m.scrollSpeed, t).Ok?) &&
       (r.Ok? ==>
         Ok(r.value.1) ==
         UpdateMovablesSpeed(m1, SetMovable(w, id, SpawnAt(GetMovable(w, id).value, GetCollider(w, id).value)), m.scrollSpeed, t)))
  {
    if time < m.nextSpawnTime then Ok((m, w))
    else
      var act :- ActivateNext(m.pool, rU);
      var id :- Unwrap(act.1);
      if id >= w.entitiesCount then Panic(IndexOutOfBounds)
      else
        var mv :- Unwrap(GetMovable(w, id));
        var col :- Unwrap(GetCollider(w, id));
        var w1 := SetMovable(w, id, SpawnAt(mv, col));
        var m1 := m.(pool := act.0);
        var w2 :- UpdateMovablesSpeed(m1, w1, m1.scrollSpeed, t);
        Ok((m1.(nextSpawnTime := time + m.delay + rF * SPAWN_JITTER), w2))
  }

  /** The spawn time moves at least `delay` and less than `delay + 1.3`
      past the current time. */
  lemma NextSpawnWindow(m: ObstacleManager, w: World, rU: nat, rF: real, time: real, t: Tuning)
    requires Ecs.Valid(w) && 0.0 <= rF < 1.0
    requires time >= m.nextSpawnTime && CheckForNextObstacle(m, w, rU, rF, time, t).Ok?
    ensures var n := CheckForNextObstacle(m, w, rU, rF, time, t).value.0.nextSpawnTime;
      time + m.delay <= n < time + m.delay + SPAWN_JITTER
  {
  }

  /** The spawned obstacle ends with its left envelope edge on the right
      screen edge (the speed propagation touches velocities only). */
  lemma SpawnedAtRightEdge(m: ObstacleManager, w: World, rU: nat, rF: real, time: real, t: Tuning)
    requires Ecs.Valid(w) && time >= m.nextSpawnTime
    requires CheckForNextObstacle(m, w, rU, rF, time, t).Ok?
    ensures ActivateNext(m.pool, rU).Ok? && ActivateNext(m.pool, rU).value.1.Some?
    ensures var id := ActivateNext(m.pool, rU).value.1.value;
      var w2 := CheckForNextObstacle(m, w, rU, rF, time, t).value.1;
      Live(w, id) && Live(w2, id) && GetMovable(w2, id).Some? && GetCollider(w, id).Some? &&
      Add(GetMovable(w2, id).value.pos, Collision.ColliderBoundOffset(GetCollider(w, id).value, Left)).x == SCREEN_W / 2.0
  {
    var act := ActivateNext(m.pool, rU).value;
    var id := act.1.value;
    var mv := GetMovable(w, id).value;
    var col := GetCollider(w, id).value;
    var w1 := SetMovable(w, id, SpawnAt(mv, col));
    var m1 := m.(pool := act.0);
    if m1.scrollSpeed < t.maxScrollSpeed {
      assert UpdateMovablesSpeed(m1, w1, m1.scrollSpeed, t) == SetVxAll(w1, SpeedWrites(m1.movableIds, m1.pool, m1.scrollSpeed));
      SetVxAllEffect(w1, SpeedWrites(m1.movableIds, m1.pool, m1.scrollSpeed));
    }
  }

  /** `update_movables_speed` writes velocities only, and only of the
      scrolled entities. */
  lemma MovablesSpeedFrame(m: ObstacleManager, w: World, speed: real, t: Tuning)
    requires Ecs.Valid(w) && UpdateMovablesSpeed(m, w, speed, t).Ok?
    ensures var r := UpdateMovablesSpeed(m, w, speed, t).value;
      (forall k, e: nat :: e < w.entitiesCount && k != MovableKind ==> Slot(r, k, e) == Slot(w, k, e)) &&
      (forall e: nat :: e < w.entitiesCount && GetMovable(w, e).Some? ==>
        GetMovable(r, e).Some? && GetMovable(r, e).value.pos == GetMovable(w, e).value.pos) &&
      (forall e: nat :: e < w.entitiesCount && e !in m.movableIds && e !in Ids(m.pool) ==>
        Slot(r, MovableKind, e) == Slot(w, MovableKind, e))
  {
    if m.scrollSpeed < t.maxScrollSpeed {
      var writes := SpeedWrites(m.movableIds, m.pool, speed);
      assert UpdateMovablesSpeed(m, w, speed, t) == SetVxAll(w, writes);
      SetVxAllEffect(w, writes);
      forall e: nat | Written(writes, e) ensures e in m.movableIds || e in Ids(m.pool) {
        var i :| 0 <= i < |writes| && writes[i].0 == e;
        if i >= |m.movableIds| {
          assert Ids(m.pool)[i - |m.movableIds|] == e;
        }
      }
    }
  }

  /** Every background id and every pooled id names an entity with a
      `Movable`, and every pooled id one with a `Collider` too. */
  predicate Scrollable(m: ObstacleManager, w: World) {
    Ecs.Valid(w) &&
    (forall i :: 0 <= i < |m.movableIds| ==> m.movableIds[i] < w.entitiesCount && GetMovable(w, m.movableIds[i]).Some?) &&
    (forall j :: 0 <= j < |m.pool| ==>
      m.pool[j].id < w.entitiesCount && GetMovable(w, m.pool[j].id).Some? && GetCollider(w, m.pool[j].id).Some?)
  }

  /** A due spawn into a pool with a free slot, in a world where every
      scrolled entity is complete, succeeds. */
  lemma SpawnSucceeds(m: ObstacleManager, w: World, rU: nat, rF: real, time: real, t: Tuning)
    requires Scrollable(m, w) && !AllActive(m.pool)
    ensures CheckForNextObstacle(m, w, rU, rF, time, t).Ok?
  {
    if time >= m.nextSpawnTime {
      SpawnKeepsScrollable(m, w, rU);
      var act := ActivateNext(m.pool, rU).value;
      var id := act.1.value;
      var w1 := SetMovable(w, id, SpawnAt(GetMovable(w, id).value, GetCollider(w, id).value));
      var m1 := m.(pool := act.0);
      assert UpdateMovablesSpeed(m1, w1, m.scrollSpeed, t).Ok?;
    }
  }

  /** The slot a spawn picks names a complete entity, and placing it keeps
      every scrolled entity complete. */
  lemma SpawnKeepsScrollable(m: ObstacleManager, w: World, rU: nat)
    requires Scrollable(m, w) && !AllActive(m.pool)
    ensures ActivateNext(m.pool, rU).Ok? && ActivateNext(m.pool, rU).value.1.Some?
    ensures var act := ActivateNext(m.pool, rU).value;
      var id := act.1.value;
      id < w.entitiesCount && GetMovable(w, id).Some? && GetCollider(w, id).Some? &&
      Scrollable(m.(pool := act.0), SetMovable(w, id, SpawnAt(GetMovable(w, id).value, GetCollider(w, id).value)))
  {
    var act := ActivateNext(m.pool, rU).value;
    var k :| 0 <= k < |m.pool| && FirstInactiveFrom(m.pool, rU % |m.pool|, k) &&
      act.1.value == m.pool[k].id && act.0 == m.pool[k := m.pool[k].(active := true)];
    var id := act.1.value;
    var w1 := SetMovable(w, id, SpawnAt(GetMovable(w, id).value, GetCollider(w, id).value));
    assert forall e: nat :: e < w.entitiesCount && GetMovable(w, e).Some? ==>
      GetMovable(w1, e).Some? && GetCollider(w1, e) == GetCollider(w, e) by {
      forall e: nat | e < w.entitiesCount && GetMovable(w, e).Some?
        ensures GetMovable(w1, e).Some? && GetCollider(w1, e) == GetCollider(w, e)
      {
        assert Slot(w1, ColliderKind, e) == Slot(w, ColliderKind, e);
        if e != id {
          assert Slot(w1, MovableKind, e) == Slot(w, MovableKind, e);
        }
      }
    }
  }

  /** What a spawn leaves alone: every component other than `Movable`; every
      position except the spawned entity's; and the whole `Movable` of any
      entity that is neither spawned nor scrolled. */
  lemma SpawnFrame(m: ObstacleManager, w: World, rU: nat, rF: real, time: real, t: Tuning)
    requires Ecs.Valid(w) && time >= m.nextSpawnTime
    requires CheckForNextObstacle(m, w, rU, rF, time, t).Ok?
    ensures ActivateNext(m.pool, rU).Ok? && ActivateNext(m.pool, rU).value.1.Some?
    ensures var id := ActivateNext(m.pool, rU).value.1.value;
      var w2 := CheckForNextObstacle(m, w, rU, rF, time, t).value.1;
      Ecs.Valid(w2) && w2.entitiesCount == w.entitiesCount &&
      (forall k, e: nat :: e < w.entitiesCount && k != MovableKind ==> Slot(w2, k, e) == Slot(w, k, e)) &&
      (forall e: nat :: e < w.entitiesCount && e != id && GetMovable(w, e).Some? ==>
        GetMovable(w2, e).Some? && GetMovable(w2, e).value.pos == GetMovable(w, e).value.pos) &&
      (forall e: nat :: e < w.entitiesCount && e != id && e !in m.movableIds && e !in Ids(m.pool) ==>
        Slot(w2, MovableKind, e) == Slot(w, MovableKind, e))
  {
    var act := ActivateNext(m.pool, rU).value;
    var id := act.1.value;
    var w2 := CheckForNextObstacle(m, w, rU, rF, time, t).value.1;
    var w1 := SetMovable(w, id, SpawnAt(GetMovable(w, id).value, GetCollider(w, id).value));
    var m1 := m.(pool := act.0);
    assert UpdateMovablesSpeed(m1, w1, m.scrollSpeed, t) == Ok(w2);
    MovablesSpeedFrame(m1, w1, m.scrollSpeed, t);
    IdsStable(m.pool, rU, id);
    assert forall e: nat :: e < w.entitiesCount && e != id ==> GetMovable(w1, e) == GetMovable(w, e);
  }

  /** Every active slot from `i` on names an entity with a `Collider` and a
      `Movable`: exactly what the recycling loop needs not to panic. */
  predicate SweepReady(pool: Pool, w: World, i: nat) {
    forall j :: i <= j < |pool| && pool[j].active ==>
      pool[j].id < w.entitiesCount && Ecs.Valid(w) &&
      GetCollider(w, pool[j].id).Some? && GetMovable(w, pool[j].id).Some?
  }

  /** The recycling loop of `update` from slot `i` on: an active slot whose
      right edge has passed the left screen edge is deactivated (by id);
      any other active slot is integrated one step; inactive slots are
      skipped. A missing collider or `Movable` on an active slot panics. */
  function Sweep(pool: Pool, w: World, i: nat, dt: real): (r: Result<(Pool, World)>)
    requires Ecs.Valid(w) && i <= |pool|
    ensures r.Ok? ==> Ecs.Valid(r.value.1) && r.value.1.entitiesCount == w.entitiesCount
    ensures r.Ok? ==> |r.value.0| == |pool| && Ids(r.value.0) == Ids(pool)
    ensures r.Ok? ==> forall j :: 0 <= j < |pool| ==>
      r.value.0[j].additionalSpeed == pool[j].additionalSpeed && (r.value.0[j].active ==> pool[j].active)
    decreases |pool| - i
  {
    if i == |pool| then Ok((pool, w))
    else if !pool[i].active then Sweep(pool, w, i + 1, dt)
    else
      var id := pool[i].id;
      if id >= w.entitiesCount then Panic(IndexOutOfBounds)
      else
        var col :- Unwrap(GetCollider(w, id));
        var right :- Collision.ColliderGetBound(col, w, id, Right);
        if right.x < -SCREEN_W / 2.0 then
          IdsStable(pool, 0, id);
          Sweep(Deactivate(pool, id), w, i + 1, dt)
        else Sweep(pool, Movement.UpdatePos(w, id, dt), i + 1, dt)
  }

  /** `ObstacleManager::update`: recycle, maybe spawn, ramp the speed. */
  function Update(m: ObstacleManager, w: World, rU: nat, rF: real, time: real, dt: real, t: Tuning)
    : (r: Result<(ObstacleManager, World)>)
    requires Ecs.Valid(w)
    ensures r.Ok? ==> Ecs.Valid(r.value.1) && r.value.1.entitiesCount == w.entitiesCount
    ensures r.Ok? ==> Ids(r.value.0.pool) == Ids(m.pool) && r.value.0.movableIds == m.movableIds
    ensures r.Ok? ==> r.value.0.scrollSpeed == UpdateScrollSpeed(m, dt, t).scrollSpeed
    ensures r.Ok? && time < m.nextSpawnTime ==>
      forall j :: 0 <= j < |m.pool| ==> (r.value.0.pool[j].active ==> m.pool[j].active)
  {
    var sw :- Sweep(m.pool, w, 0, dt);
    var nx :- CheckForNextObstacle(m.(pool := sw.0), sw.1, rU, rF, time, t);
    IdsStable(sw.0, rU, 0);
    Ok((UpdateScrollSpeed(nx.0, dt, t), nx.1))
  }

  /** The sweep never adds or removes a `Movable` or a `Collider`. */
  lemma {:induction false} SweepKeepsComponents(pool: Pool, w: World, i: nat, dt: real)
    requires Ecs.Valid(w) && i <= |pool| && Sweep(pool, w, i, dt).Ok?
    ensures forall e: nat :: e < w.entitiesCount ==>
      GetMovable(Sweep(pool, w, i, dt).value.1, e).Some? == GetMovable(w, e).Some? &&
      GetCollider(Sweep(pool, w, i, dt).value.1, e) == GetCollider(w, e)
    decreases |pool| - i
  {
    if i < |pool| && pool[i].active {
      var id := pool[i].id;
      var right := Collision.ColliderGetBound(GetCollider(w, id).value, w, id, Right).value;
      if right.x < -SCREEN_W / 2.0 {
        assert Sweep(pool, w, i, dt) == Sweep(Deactivate(pool, id), w, i + 1, dt);
        SweepKeepsComponents(Deactivate(pool, id), w, i + 1, dt);
      } else {
        var w1 := Movement.UpdatePos(w, id, dt);
        assert Sweep(pool, w, i, dt) == Sweep(pool, w1, i + 1, dt);
        SweepKeepsComponents(pool, w1, i + 1, dt);
        forall e: nat | e < w.entitiesCount
          ensures GetMovable(w1, e).Some? == GetMovable(w, e).Some? && GetCollider(w1, e) == GetCollider(w, e)
        {
          assert Slot(w1, ColliderKind, e) == Slot(w, ColliderKind, e);
          if e != id {
            assert Slot(w1, MovableKind, e) == Slot(w, MovableKind, e);
          }
        }
      }
    } else if i < |pool| {
      SweepKeepsComponents(pool, w, i + 1, dt);
    }
  }

  /** `update` panics only in the sweep or the spawn: it succeeds before the
      spawn time whenever the sweep can, and when due whenever every
      scrolled entity is complete and the pool has a free slot. */
  lemma UpdateSucceeds(m: ObstacleManager, w: World, rU: nat, rF: real, time: real, dt: real, t: Tuning)
    requires Ecs.Valid(w)
    ensures Update(m, w, rU, rF, time, dt, t).Ok? ==> SweepReady(m.pool, w, 0)
    ensures SweepReady(m.pool, w, 0) && time < m.nextSpawnTime ==> Update(m, w, rU, rF, time, dt, t).Ok?
    ensures Scrollable(m, w) && !AllActive(m.pool) ==> Update(m, w, rU, rF, time, dt, t).Ok?
  {
    SweepSucceeds(m.pool, w, 0, dt);
    if Scrollable(m, w) && !AllActive(m.pool) {
      assert SweepReady(m.pool, w, 0);
      var sw := Sweep(m.pool, w, 0, dt).value;
      SweepKeepsScrollable(m, w, dt);
      SpawnSucceeds(m.(pool := sw.0), sw.1, rU, rF, time, t);
    }
  }

  /** A sweep of a complete world leaves it complete, and leaves a free
      slot free. */
  lemma SweepKeepsScrollable(m: ObstacleManager, w: World, dt: real)
    requires Scrollable(m, w) && Sweep(m.pool, w, 0, dt).Ok?
    ensures Scrollable(m.(pool := Sweep(m.pool, w, 0, dt).value.0), Sweep(m.pool, w, 0, dt).value.1)
    ensures !AllActive(m.pool) ==> !AllActive(Sweep(m.pool, w, 0, dt).value.0)
  {
    var sw := Sweep(m.pool, w, 0, dt).value;
    SweepKeepsComponents(m.pool, w, 0, dt);
    assert forall j :: 0 <= j < |sw.0| ==> sw.0[j].id == m.pool[j].id by {
      forall j | 0 <= j < |sw.0| ensures sw.0[j].id == m.pool[j].id {
        assert Ids(sw.0)[j] == Ids(m.pool)[j];
      }
    }
    if !AllActive(m.pool) {
      var k :| 0 <= k < |m.pool| && !m.pool[k].active;
      assert !sw.0[k].active;
    }
  }

  /** The sweep succeeds exactly when every active slot from `i` on names
      an entity with a `Collider` and a `Movable`. */
  lemma {:induction false} SweepSucceeds(pool: Pool, w: World, i: nat, dt: real)
    requires Ecs.Valid(w) && i <= |pool|
    ensures Sweep(pool, w, i, dt).Ok? <==> SweepReady(pool, w, i)
    decreases |pool| - i
  {
    if i == |pool| {
    } else if !pool[i].active {
      SweepSucceeds(pool, w, i + 1, dt);
    } else {
      var id := pool[i].id;
      if id < w.entitiesCount && GetCollider(w, id).Some? && GetMovable(w, id).Some? {
        var right := Collision.ColliderGetBound(GetCollider(w, id).value, w, id, Right).value;
        if right.x < -SCREEN_W / 2.0 {
          assert Sweep(pool, w, i, dt) == Sweep(Deactivate(pool, id), w, i + 1, dt);
          SweepSucceeds(Deactivate(pool, id), w, i + 1, dt);
          ReadyAfterFree(pool, w, i);
        } else {
          assert Sweep(pool, w, i, dt) == Sweep(pool, Movement.UpdatePos(w, id, dt), i + 1, dt);
          SweepSucceeds(pool, Movement.UpdatePos(w, id, dt), i + 1, dt);
          ReadyAfterMove(pool, w, i, dt);
        }
      }
    }
  }

  /** Freeing slot `i`'s entity keeps the remaining slots ready. */
  lemma ReadyAfterFree(pool: Pool, w: World, i: nat)
    requires Ecs.Valid(w) && i < |pool| && pool[i].active
    requires pool[i].id < w.entitiesCount && GetCollider(w, pool[i].id).Some? && GetMovable(w, pool[i].id).Some?
    ensures SweepReady(pool, w, i) <==> SweepReady(Deactivate(pool, pool[i].id), w, i + 1)
  {
    var p1 := Deactivate(pool, pool[i].id);
    if SweepReady(pool, w, i) {
      ReadyFreeForward(pool, p1, w, i);
    }
    if SweepReady(p1, w, i + 1) {
      ReadyFreeBackward(pool, p1, w, i);
    }
  }

  lemma ReadyFreeForward(pool: Pool, p1: Pool, w: World, i: nat)
    requires i < |pool| && p1 == Deactivate(pool, pool[i].id) && SweepReady(pool, w, i)
    ensures SweepReady(p1, w, i + 1)
  {
    forall j | i + 1 <= j < |p1| && p1[j].active
      ensures p1[j].id < w.entitiesCount && Ecs.Valid(w) && GetCollider(w, p1[j].id).Some? && GetMovable(w, p1[j].id).Some?
    {
      assert pool[j].active && pool[j].id == p1[j].id;
    }
  }

  lemma ReadyFreeBackward(pool: Pool, p1: Pool, w: World, i: nat)
    requires Ecs.Valid(w) && i < |pool| && pool[i].active
    requires pool[i].id < w.entitiesCount && GetCollider(w, pool[i].id).Some? && GetMovable(w, pool[i].id).Some?
    requires p1 == Deactivate(pool, pool[i].id) && SweepReady(p1, w, i + 1)
    ensures SweepReady(pool, w, i)
  {
    forall j | i <= j < |pool| && pool[j].active
      ensures pool[j].id < w.entitiesCount && Ecs.Valid(w) && GetCollider(w, pool[j].id).Some? && GetMovable(w, pool[j].id).Some?
    {
      if pool[j].id != pool[i].id {
        assert p1[j].active && pool[j].id == p1[j].id;
      }
    }
  }

  /** Stepping slot `i`'s entity keeps the remaining slots ready. */
  lemma ReadyAfterMove(pool: Pool, w: World, i: nat, dt: real)
    requires Ecs.Valid(w) && i < |pool| && pool[i].active
    requires pool[i].id < w.entitiesCount && GetCollider(w, pool[i].id).Some? && GetMovable(w, pool[i].id).Some?
    ensures SweepReady(pool, w, i) <==> SweepReady(pool, Movement.UpdatePos(w, pool[i].id, dt), i + 1)
  {
    var id := pool[i].id;
    var w1 := Movement.UpdatePos(w, id, dt);
    forall j | i + 1 <= j < |pool| && pool[j].active && pool[j].id < w.entitiesCount && pool[j].id != id
      ensures GetMovable(w1, pool[j].id) == GetMovable(w, pool[j].id)
      ensures GetCollider(w1, pool[j].id) == GetCollider(w, pool[j].id)
    {
      assert Slot(w1, MovableKind, pool[j].id) == Slot(w, MovableKind, pool[j].id);
      assert Slot(w1, ColliderKind, pool[j].id) == Slot(w, ColliderKind, pool[j].id);
    }
  }

  predicate DistinctIds(pool: Pool) {
    forall i, j :: 0 <= i < j < |pool| ==> pool[i].id != pool[j].id
  }

  /** An integration step depends only on the entity's own components. */
  lemma SteppedLocal(w: World, w1: World, e: nat, m: Movable, dt: real)
    requires Live(w, e) && Live(w1, e) && GetCollider(w1, e) == GetCollider(w, e)
    ensures Movement.Stepped(w1, e, m, dt) == Movement.Stepped(w, e, m, dt)
  {
  }

  /** No slot from `i` on holds entity `e`. */
  predicate NotPooledFrom(pool: Pool, i: nat, e: nat) {
    forall j :: i <= j < |pool| ==> pool[j].id != e
  }

  /** The sweep writes only the `Movable`s of entities pooled from slot `i` on. */
  lemma {:induction false} SweepFrame(pool: Pool, w: World, i: nat, dt: real)
    requires Ecs.Valid(w) && i <= |pool| && Sweep(pool, w, i, dt).Ok?
    ensures forall k, e: nat :: e < w.entitiesCount && (k != MovableKind || NotPooledFrom(pool, i, e)) ==>
      Slot(Sweep(pool, w, i, dt).value.1, k, e) == Slot(w, k, e)
    decreases |pool| - i
  {
    if i < |pool| {
      if !pool[i].active {
        SweepFrame(pool, w, i + 1, dt);
      } else {
        var id := pool[i].id;
        var right := Collision.ColliderGetBound(GetCollider(w, id).value, w, id, Right).value;
        if right.x < -SCREEN_W / 2.0 {
          var pool1 := Deactivate(pool, id);
          SweepFrame(pool1, w, i + 1, dt);
          forall e: nat | NotPooledFrom(pool, i, e) ensures NotPooledFrom(pool1, i + 1, e) {
            assert forall j :: i + 1 <= j < |pool| ==> pool1[j].id == pool[j].id;
          }
        } else {
          SweepFrame(pool, Movement.UpdatePos(w, id, dt), i + 1, dt);
        }
      }
    }
  }

  /** With distinct pooled ids, slots before `i` and inactive slots keep
      their state. */
  lemma {:induction false} SweepKeepsOthers(pool: Pool, w: World, i: nat, dt: real)
    requires Ecs.Valid(w) && i <= |pool| && DistinctIds(pool)
    requires Sweep(pool, w, i, dt).Ok?
    ensures var p := Sweep(pool, w, i, dt).value.0;
      (forall j :: 0 <= j < i ==> p[j] == pool[j]) &&
      (forall j :: i <= j < |pool| && !pool[j].active ==> p[j] == pool[j])
    decreases |pool| - i
  {
    if i == |pool| {
    } else if !pool[i].active {
      SweepKeepsOthers(pool, w, i + 1, dt);
    } else {
      var id := pool[i].id;
      var right := Collision.ColliderGetBound(GetCollider(w, id).value, w, id, Right).value;
      if right.x < -SCREEN_W / 2.0 {
        var pool1 := Deactivate(pool, id);
        assert pool1 == pool[i := pool[i].(active := false)];
        SweepKeepsOthers(pool1, w, i + 1, dt);
      } else {
        SweepKeepsOthers(pool, Movement.UpdatePos(w, id, dt), i + 1, dt);
      }
    }
  }

  /** With distinct pooled ids the sweep frees exactly the active slots
      whose right edge was past the left screen edge. */
  lemma {:induction false} SweepFreesOffScreen(pool: Pool, w: World, i: nat, dt: real)
    requires Ecs.Valid(w) && i <= |pool| && DistinctIds(pool)
    requires Sweep(pool, w, i, dt).Ok?
    ensures FreedOffScreen(pool, w, i, Sweep(pool, w, i, dt).value.0)
    decreases |pool| - i, 1
  {
    if i == |pool| {
    } else if !pool[i].active {
      SweepFreesOffScreen(pool, w, i + 1, dt);
    } else {
      var id := pool[i].id;
      var right := Collision.ColliderGetBound(GetCollider(w, id).value, w, id, Right).value;
      assert Collision.RightEdge(w, id) == right.x;
      if right.x < -SCREEN_W / 2.0 {
        SweepFreesFreeStep(pool, w, i, dt);
      } else {
        SweepFreesMoveStep(pool, w, i, dt);
      }
    }
  }

  /** Slot by slot from `i` on, `p` is `pool` with each active slot freed
      exactly when its entity's right edge was past the left screen edge. */
  predicate FreedOffScreen(pool: Pool, w: World, i: nat, p: Pool) {
    |p| == |pool| &&
    forall j :: i <= j < |pool| && pool[j].active ==>
      Live(w, pool[j].id) && GetCollider(w, pool[j].id).Some? && GetMovable(w, pool[j].id).Some? &&
      p[j] == pool[j].(active := Collision.RightEdge(w, pool[j].id) >= -SCREEN_W / 2.0)
  }

  /** `SweepFreesOffScreen` when slot `i` is freed. */
  lemma {:induction false} SweepFreesFreeStep(pool: Pool, w: World, i: nat, dt: real)
    requires Ecs.Valid(w) && i < |pool| && DistinctIds(pool) && pool[i].active
    requires Live(w, pool[i].id) && GetCollider(w, pool[i].id).Some? && GetMovable(w, pool[i].id).Some?
    requires Collision.RightEdge(w, pool[i].id) < -SCREEN_W / 2.0
    requires Sweep(pool, w, i, dt).Ok?
    ensures FreedOffScreen(pool, w, i, Sweep(pool, w, i, dt).value.0)
    decreases |pool| - i, 0
  {
    var id := pool[i].id;
    var right := Collision.ColliderGetBound(GetCollider(w, id).value, w, id, Right).value;
    assert Collision.RightEdge(w, id) == right.x;
    var pool1 := Deactivate(pool, id);
    assert pool1 == pool[i := pool[i].(active := false)];
    assert Sweep(pool, w, i, dt) == Sweep(pool1, w, i + 1, dt);
    SweepFreesOffScreen(pool1, w, i + 1, dt);
    SweepKeepsOthers(pool1, w, i + 1, dt);
  }

  /** `SweepFreesOffScreen` when slot `i`'s entity is stepped. */
  lemma {:induction false} SweepFreesMoveStep(pool: Pool, w: World, i: nat, dt: real)
    requires Ecs.Valid(w) && i < |pool| && DistinctIds(pool) && pool[i].active
    requires Live(w, pool[i].id) && GetCollider(w, pool[i].id).Some? && GetMovable(w, pool[i].id).Some?
    requires Collision.RightEdge(w, pool[i].id) >= -SCREEN_W / 2.0
    requires Sweep(pool, w, i, dt).Ok?
    ensures FreedOffScreen(pool, w, i, Sweep(pool, w, i, dt).value.0)
    decreases |pool| - i, 0
  {
    var id := pool[i].id;
    var right := Collision.ColliderGetBound(GetCollider(w, id).value, w, id, Right).value;
    assert Collision.RightEdge(w, id) == right.x;
    var w1 := Movement.UpdatePos(w, id, dt);
    assert Sweep(pool, w, i, dt) == Sweep(pool, w1, i + 1, dt);
    SweepFreesOffScreen(pool, w1, i + 1, dt);
    SweepKeepsOthers(pool, w1, i + 1, dt);
    forall j | i + 1 <= j < |pool| && pool[j].active && Live(w1, pool[j].id)
      ensures GetCollider(w1, pool[j].id) == GetCollider(w, pool[j].id)
      ensures GetMovable(w1, pool[j].id) == GetMovable(w, pool[j].id)
    {
      assert Slot(w1, ColliderKind, pool[j].id) == Slot(w, ColliderKind, pool[j].id);
      assert Slot(w1, MovableKind, pool[j].id) == Slot(w, MovableKind, pool[j].id);
    }
  }

  /** With distinct pooled ids, each active slot's entity that stays in use
      takes exactly one integration step and a freed one is not moved. */
  lemma {:induction false} SweepWorldDistinct(pool: Pool, w: World, i: nat, dt: real)
    requires Ecs.Valid(w) && i <= |pool| && DistinctIds(pool)
    requires Sweep(pool, w, i, dt).Ok?
    ensures SweptWorld(pool, w, i, dt)
    decreases |pool| - i, 1
  {
    if i < |pool| {
      if !pool[i].active {
        SweepWorldDistinct(pool, w, i + 1, dt);
      } else {
        var id := pool[i].id;
        var right := Collision.ColliderGetBound(GetCollider(w, id).value, w, id, Right).value;
        if right.x < -SCREEN_W / 2.0 {
          SweepWorldFreeStep(pool, w, i, dt);
        } else {
          SweepWorldMoveStep(pool, w, i, dt);
        }
      }
    }
  }

  /** The sweep's effect on the world, for the active slots from `i` on. */
  predicate SweptWorld(pool: Pool, w: World, i: nat, dt: real)
    requires Ecs.Valid(w) && i <= |pool| && Sweep(pool, w, i, dt).Ok?
  {
    var w2 := Sweep(pool, w, i, dt).value.1;
    forall j :: i <= j < |pool| && pool[j].active ==>
      Live(w, pool[j].id) && Live(w2, pool[j].id) && GetCollider(w, pool[j].id).Some? && GetMovable(w, pool[j].id).Some? &&
      GetMovable(w2, pool[j].id) == Some(if Collision.RightEdge(w, pool[j].id) >= -SCREEN_W / 2.0
        then Movement.Stepped(w, pool[j].id, GetMovable(w, pool[j].id).value, dt) else GetMovable(w, pool[j].id).value)
  }

  /** `SweepWorldDistinct` when slot `i` is active and is freed. */
  lemma {:induction false} SweepWorldFreeStep(pool: Pool, w: World, i: nat, dt: real)
    requires Ecs.Valid(w) && i < |pool| && DistinctIds(pool) && pool[i].active
    requires Sweep(pool, w, i, dt).Ok?
    requires Collision.ColliderGetBound(GetCollider(w, pool[i].id).value, w, pool[i].id, Right).value.x < -SCREEN_W / 2.0
    ensures SweptWorld(pool, w, i, dt)
    decreases |pool| - i, 0
  {
    var id := pool[i].id;
    var pool1 := Deactivate(pool, id);
    assert NotPooledFrom(pool, i + 1, id);
    assert pool1 == pool[i := pool[i].(active := false)];
    assert Sweep(pool, w, i, dt) == Sweep(pool1, w, i + 1, dt);
    SweepWorldDistinct(pool1, w, i + 1, dt);
    SweepFrame(pool1, w, i + 1, dt);
    assert Collision.RightEdge(w, id) < -SCREEN_W / 2.0;
  }

  /** `SweepWorldDistinct` when slot `i` is active and its entity moves. */
  lemma {:induction false} SweepWorldMoveStep(pool: Pool, w: World, i: nat, dt: real)
    requires Ecs.Valid(w) && i < |pool| && DistinctIds(pool) && pool[i].active
    requires Sweep(pool, w, i, dt).Ok?
    requires Collision.ColliderGetBound(GetCollider(w, pool[i].id).value, w, pool[i].id, Right).value.x >= -SCREEN_W / 2.0
    ensures SweptWorld(pool, w, i, dt)
    decreases |pool| - i, 0
  {
    var id := pool[i].id;
    var w1 := Movement.UpdatePos(w, id, dt);
    assert NotPooledFrom(pool, i + 1, id);
    assert Sweep(pool, w, i, dt) == Sweep(pool, w1, i + 1, dt);
    SweepWorldDistinct(pool, w1, i + 1, dt);
    SweepFrame(pool, w1, i + 1, dt);
    assert Collision.RightEdge(w, id) >= -SCREEN_W / 2.0;
    forall j | i + 1 <= j < |pool| && pool[j].active
      ensures GetCollider(w1, pool[j].id) == GetCollider(w, pool[j].id)
      ensures GetMovable(w1, pool[j].id) == GetMovable(w, pool[j].id)
      ensures Movement.Stepped(w1, pool[j].id, GetMovable(w, pool[j].id).value, dt) ==
              Movement.Stepped(w, pool[j].id, GetMovable(w, pool[j].id).value, dt)
    {
      assert Slot(w1, ColliderKind, pool[j].id) == Slot(w, ColliderKind, pool[j].id);
      assert Slot(w1, MovableKind, pool[j].id) == Slot(w, MovableKind, pool[j].id);
      SteppedLocal(w, w1, pool[j].id, GetMovable(w, pool[j].id).value, dt);
    }
  }

  /** One slot's test of `check_collision`: `check_entity_collision` with the
      player, which answers false without touching the slot's entity when the
      player has no collider, and otherwise indexes it (panicking when out of range). */
  function SlotCollides(w: World, e: nat, id: nat): (r: Result<bool>)
    requires Live(w, e)
    ensures id < w.entitiesCount ==> r == Collision.CheckEntityCollision(w, e, id)
    ensures id >= w.entitiesCount ==> (r.Ok? <==> GetCollider(w, e).None?) && (r.Ok? ==> !r.value)
  {
    if id < w.entitiesCount then Collision.CheckEntityCollision(w, e, id)
    else if GetCollider(w, e).None? then Ok(false)
    else Panic(IndexOutOfBounds)
  }

  /** The scan of `check_collision` from slot `i`, stopping at the first hit.
      `Cactus.AnyActiveCollides` is the same loop in the earlier cactus
      manager; the two stay separate, as in the source, because they run
      over different slot records with different per-slot tests. */
  function AnyActiveCollides(pool: Pool, w: World, e: nat, i: nat): (r: Result<bool>)
    requires Live(w, e) && i <= |pool|
    ensures r == Ok(true) ==> exists j :: i <= j < |pool| && pool[j].active && SlotCollides(w, e, pool[j].id) == Ok(true)
    ensures r == Ok(false) <==> forall j :: i <= j < |pool| && pool[j].active ==> SlotCollides(w, e, pool[j].id) == Ok(false)
    decreases |pool| - i
  {
    if i == |pool| then Ok(false)
    else if !pool[i].active then AnyActiveCollides(pool, w, e, i + 1)
    else
      var hit :- SlotCollides(w, e, pool[i].id);
      if hit then Ok(true) else AnyActiveCollides(pool, w, e, i + 1)
  }

  /** `ObstacleManager::check_collision`: true iff some active slot collides
      with the player (inactive slots are never looked at). */
  function CheckCollision(m: ObstacleManager, w: World, e: nat): (r: Result<bool>)
    requires Live(w, e)
    ensures r == Ok(true) ==> exists j :: 0 <= j < |m.pool| && m.pool[j].active && SlotCollides(w, e, m.pool[j].id) == Ok(true)
    ensures r == Ok(false) <==> forall j :: 0 <= j < |m.pool| && m.pool[j].active ==> SlotCollides(w, e, m.pool[j].id) == Ok(false)
  {
    AnyActiveCollides(m.pool, w, e, 0)
  }

  /** A freshly restarted pool collides with nothing. */
  lemma RestartedCollidesWithNothing(m: ObstacleManager, w: World, e: nat, t: Tuning)
    requires Live(w, e)
    ensures CheckCollision(Restart(m, t), w, e) == Ok(false)
  {
  }
}
