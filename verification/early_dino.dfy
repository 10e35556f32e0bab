/** The dinosaur controller of `src/dino.rs`, written against the earlier
    components: a jump that always writes the `Movable` back, and the state
    derivation from the ground flag. */
module EarlyDino {
  import opened Wrappers
  import opened Constants
  import opened EarlyWorld
  import EarlyMovement
  import Ecs

  /** `DinoController::new`: the controller drives entity `id`. */
  function NewController(id: nat): (c: DinoController)
    ensures c.entityId == id
  {
    DinoController(id)
  }

  /** `jump`: read the controlled `Movable` (panic without one), jump at
      `JUMP_VELOCITY`, write the result back whatever it is. */
  function ControllerJump(c: DinoController, w: World): (r: Result<World>)
    requires Ecs.Valid(w)
    ensures r.Ok? <==> c.entityId < w.entitiesCount && GetMovable(w, c.entityId).Some?
    ensures r.Ok? ==> Ecs.Valid(r.value) && r.value.entitiesCount == w.entitiesCount
    ensures r.Ok? ==> GetMovable(r.value, c.entityId) == Some(EarlyMovement.Jump(GetMovable(w, c.entityId).value, JUMP_VELOCITY))
    ensures r.Ok? ==> forall k, e': nat :: e' < w.entitiesCount && (k != MovableKind || e' != c.entityId) ==>
      Slot(r.value, k, e') == Slot(w, k, e')
  {
    if c.entityId >= w.entitiesCount then Panic(IndexOutOfBounds)
    else
      var m :- Unwrap(GetMovable(w, c.entityId));
      Ok(SetMovable(w, c.entityId, EarlyMovement.Jump(m, JUMP_VELOCITY)))
  }

  /** The unconditional write-back is harmless: in the air the world is
      left exactly as it was. */
  lemma MidAirJumpChangesNothing(c: DinoController, w: World)
    requires Ecs.Valid(w) && c.entityId < w.entitiesCount
    requires GetMovable(w, c.entityId).Some? && !GetMovable(w, c.entityId).value.onGround
    ensures ControllerJump(c, w) == Ok(w)
  {
    Ecs.SetSameValue(w, MovableKind, c.entityId, MovableC(GetMovable(w, c.entityId).value));
  }

  /** `Update for DinoController`: `Run` on the ground, `Jump` in the air;
      panics without a `Movable`. */
  function DinoUpdate(w: World, e: nat): (r: Result<World>)
    requires Live(w, e)
    ensures r.Ok? <==> GetMovable(w, e).Some?
    ensures r.Ok? ==> Ecs.Valid(r.value) && r.value.entitiesCount == w.entitiesCount
    ensures r.Ok? && StateKind !in w.tables ==> r.value == w
    ensures r.Ok? && StateKind in w.tables ==>
      (GetState(r.value, e) == Some(Run) <==> GetMovable(w, e).value.onGround) &&
      GetState(r.value, e) != Some(Dead) && GetState(r.value, e).Some?
    ensures r.Ok? ==> forall k, e': nat :: e' < w.entitiesCount && (k != StateKind || e' != e) ==>
      Slot(r.value, k, e') == Slot(w, k, e')
  {
    var m :- Unwrap(GetMovable(w, e));
    Ok(SetState(w, e, if m.onGround then Run else Jump))
  }

  /** A jump from the ground shows as `Jump` at the next state update. */
  lemma JumpShowsJumpState(c: DinoController, w: World)
    requires Ecs.Valid(w) && StateKind in w.tables
    requires c.entityId < w.entitiesCount && GetMovable(w, c.entityId).Some?
    requires GetMovable(w, c.entityId).value.onGround
    ensures var w1 := ControllerJump(c, w).value;
      Live(w1, c.entityId) && DinoUpdate(w1, c.entityId).Ok? &&
      GetState(DinoUpdate(w1, c.entityId).value, c.entityId) == Some(Jump)
  {
    var w1 := ControllerJump(c, w).value;
    assert w1.tables.Keys == w.tables.Keys;
  }
}
