/** The movement rules of `src/ecs/movable.rs`: the same semi-implicit
    Euler step as the current game, a ground clamp switched on by a flag
    of the entity's box, and a jump that reports nothing. */
module EarlyMovement {
  import opened Wrappers
  import opened Vectors
  import opened Bounds
  import opened Constants
  import opened EarlyWorld
  import opened EarlyCollision
  import Components
  import Movement
  import Ecs

  /** `Movable::new`: not on the ground. */
  function NewMovable(pos: Vec2, velocity: Vec2, gravity: Vec2): (m: Movable)
    ensures m.pos == pos && m.velocity == velocity && m.gravity == gravity && !m.onGround
  {
    Movable(pos, velocity, gravity, false)
  }

  /** The same state as a current-snapshot `Movable`, with the given flag. */
  function AsCurrent(m: Movable, groundCheck: bool): Components.Movable {
    Components.Movable(m.pos, m.velocity, m.gravity, m.onGround, groundCheck)
  }

  /** The integration step of `update_pos`; it is the current game's step. */
  function EulerStep(m: Movable, dt: real): (r: Movable)
    ensures forall g :: AsCurrent(r, g) == Movement.EulerStep(AsCurrent(m, g), dt)
  {
    var v := Add(m.velocity, Scale(m.gravity, dt));
    m.(velocity := v, pos := Add(m.pos, Scale(v, dt)))
  }

  /** The clamp applies to a grounded-checked box only. */
  predicate Clamped(w: World, e: nat)
    requires Live(w, e)
  {
    GetBox(w, e).Some? && GetBox(w, e).value.groundCheck
  }

  /** The lowest point of the entity's box (its offset ignored, as
      `get_bound_offset` does) for the given position. */
  function Lowest(b: BoxCollider, m: Movable): real {
    m.pos.y + BoundOffset(b, Down).y
  }

  /** `check_ground_collision`: without a box, or with the flag clear,
      nothing happens; otherwise a lowest point below the ground is put
      back on it, with velocity zero and `on_ground` set. */
  function CheckGroundCollision(w: World, e: nat, m: Movable): (r: Movable)
    requires Live(w, e)
    ensures !Clamped(w, e) ==> r == m
    ensures r.pos.x == m.pos.x && r.gravity == m.gravity
    ensures Clamped(w, e) ==> Lowest(GetBox(w, e).value, r) >= GROUND_Y_COORD
    ensures Clamped(w, e) && Lowest(GetBox(w, e).value, m) >= GROUND_Y_COORD ==> r == m
    ensures r != m ==>
      Clamped(w, e) && Lowest(GetBox(w, e).value, r) == GROUND_Y_COORD && r.velocity == Zero && r.onGround
  {
    match GetBox(w, e)
    case None => m
    case Some(b) =>
      if !b.groundCheck then m
      else
        var offs := BoundOffset(b, Down).y;
        if m.pos.y + offs < GROUND_Y_COORD then
          m.(pos := Vec2(m.pos.x, GROUND_Y_COORD - offs), velocity := Zero, onGround := true)
        else
          m
  }

  /** Clamping twice is clamping once. */
  lemma GroundClampIdempotent(w: World, e: nat, m: Movable)
    requires Live(w, e)
    ensures CheckGroundCollision(w, e, CheckGroundCollision(w, e, m)) == CheckGroundCollision(w, e, m)
  {
  }

  /** `update_pos`: nothing without a `Movable`; otherwise one Euler step
      followed by the ground check. Only that `Movable` changes. */
  function UpdatePos(w: World, e: nat, dt: real): (r: World)
    requires Live(w, e)
    ensures Ecs.Valid(r) && r.entitiesCount == w.entitiesCount && r.tables.Keys == w.tables.Keys
    ensures GetMovable(w, e).None? ==> r == w
    ensures GetMovable(w, e).Some? ==>
      GetMovable(r, e) == Some(CheckGroundCollision(w, e, EulerStep(GetMovable(w, e).value, dt)))
    ensures forall k, e': nat :: e' < w.entitiesCount && (k != MovableKind || e' != e) ==>
      Slot(r, k, e') == Slot(w, k, e')
  {
    match GetMovable(w, e)
    case None => w
    case Some(m) => SetMovable(w, e, CheckGroundCollision(w, e, EulerStep(m, dt)))
  }

  /** `Movable::jump`, which returns nothing: refused unless on the ground;
      otherwise the vertical velocity is set and the ground left. */
  function Jump(m: Movable, vel: real): (r: Movable)
    ensures !m.onGround ==> r == m
    ensures m.onGround ==>
      !r.onGround && r.velocity == Vec2(m.velocity.x, vel) && r.pos == m.pos && r.gravity == m.gravity
  {
    if !m.onGround then m
    else m.(velocity := Vec2(m.velocity.x, vel), onGround := false)
  }

  /** It is the current game's gated jump with the success flag dropped. */
  lemma JumpIsGatedJump(m: Movable, vel: real, g: bool)
    ensures AsCurrent(Jump(m, vel), g) == Movement.Jump(AsCurrent(m, g), vel).0
  {
  }
}
