/** The dinosaur's controller of `src/components/dino.rs`: the gated jump and
    the per-frame derivation of the displayed state from the ground flag. */
module DinoRules {
  import opened Wrappers
  import opened Vectors
  import opened Constants
  import opened Components
  import Ecs
  import Movement


  /** `DinoController::jump`: read the controlled entity's `Movable` (panic
      when absent), try a jump at `JUMP_VELOCITY`, and write it back only
      when the jump succeeded. The second result tells whether it did (the
      sound played on success is left out). */
  function ControllerJump(c: DinoController, w: World): (r: Result<(World, bool)>)
    requires Ecs.Valid(w)
    ensures r.Ok? <==> c.entityId < w.entitiesCount && GetMovable(w, c.entityId).Some?
    ensures r.Ok? ==> (r.value.1 <==> GetMovable(w, c.entityId).value.onGround)
    ensures r.Ok? && !r.value.1 ==> r.value.0 == w
    ensures r.Ok? && r.value.1 ==>
      var m := GetMovable(w, c.entityId).value;
      Ecs.Valid(r.value.0) && r.value.0.entitiesCount == w.entitiesCount &&
      GetMovable(r.value.0, c.entityId) == Some(m.(velocity := Vec2(m.velocity.x, JUMP_VELOCITY), onGround := false)) &&
      forall k, e': nat :: e' < w.entitiesCount && (k != MovableKind || e' != c.entityId) ==>
        Slot(r.value.0, k, e') == Slot(w, k, e')
  {
    if c.entityId >= w.entitiesCount then Panic(IndexOutOfBounds)
    else
      var m :- Unwrap(GetMovable(w, c.entityId));
      var (m1, jumped) := Movement.Jump(m, JUMP_VELOCITY);
      if jumped then Ok((SetMovable(w, c.entityId, m1), true)) else Ok((w, false))
  }

  /** The state the dinosaur shows for a given ground flag. */
  function StateFor(onGround: bool): (s: DinoState)
    ensures s != Dead
    ensures s == Run <==> onGround
  {
    if onGround then Run else Jump
  }

  /** `Update for DinoController`: `Run` on the ground, `Jump` in the air,
      written over whatever state was there (including `Dead`) whenever the
      entity's state table exists; panics without a `Movable`. */
  function DinoUpdate(w: World, e: nat): (r: Result<World>)
    requires Live(w, e)
    ensures r.Ok? <==> GetMovable(w, e).Some?
    ensures r.Ok? ==> Ecs.Valid(r.value) && r.value.entitiesCount == w.entitiesCount
    ensures r.Ok? && StateKind !in w.tables ==> r.value == w
    ensures r.Ok? && StateKind in w.tables ==>
      GetState(r.value, e) == Some(if GetMovable(w, e).value.onGround then Run else Jump)
    ensures r.Ok? ==> forall k, e': nat :: e' < w.entitiesCount && (k != StateKind || e' != e) ==>
      Slot(r.value, k, e') == Slot(w, k, e')
  {
    var m :- Unwrap(GetMovable(w, e));
    Ok(SetState(w, e, StateFor(m.onGround)))
  }

  /** The state update is idempotent. */
  lemma DinoUpdateIdempotent(w: World, e: nat)
    requires Live(w, e) && GetMovable(w, e).Some?
    ensures var w1 := DinoUpdate(w, e).value; Live(w1, e) && DinoUpdate(w1, e) == Ok(w1)
  {
    var w1 := DinoUpdate(w, e).value;
    assert GetMovable(w1, e) == GetMovable(w, e) by {
      assert Slot(w1, MovableKind, e) == Slot(w, MovableKind, e);
    }
    if StateKind in w.tables {
      Ecs.SetSameValue(w1, StateKind, e, StateC(StateFor(GetMovable(w, e).value.onGround)));
    }
  }

  /** A successful jump shows as `Jump` on the next state update. */
  lemma JumpShowsJumpState(c: DinoController, w: World)
    requires Ecs.Valid(w) && StateKind in w.tables
    requires ControllerJump(c, w).Ok? && ControllerJump(c, w).value.1
    ensures var w1 := ControllerJump(c, w).value.0;
      Live(w1, c.entityId) && DinoUpdate(w1, c.entityId).Ok? &&
      GetState(DinoUpdate(w1, c.entityId).value, c.entityId) == Some(Jump)
  {
    var w1 := ControllerJump(c, w).value.0;
    assert w1.tables.Keys == w.tables.Keys;
  }
}
