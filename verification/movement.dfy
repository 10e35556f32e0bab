/** Movement rules of `src/components/movable.rs`: semi-implicit Euler
    integration, the ground clamp, the ground-gated jump and the endless
    horizontal scroll of background tiles. */
module Movement {
  import opened Wrappers
  import opened Vectors
  import opened Bounds
  import opened Constants
  import opened Components
  import opened Collision
  import Ecs
  import opened Arith

  /** `Movable::new`: not on the ground and not ground-checked. */
  function NewMovable(pos: Vec2, velocity: Vec2, gravity: Vec2): (m: Movable)
    ensures m.pos == pos && m.velocity == velocity && m.gravity == gravity
    ensures !m.onGround && !m.groundCheck
  {
    Movable(pos, velocity, gravity, false, false)
  }

  /** `ground_check_on`: only the ground-check flag changes. */
  function GroundCheckOn(m: Movable): (r: Movable)
    ensures r.groundCheck
    ensures r.(groundCheck := m.groundCheck) == m
  {
    m.(groundCheck := true)
  }

  /** One integration step: velocity first, then position with the NEW velocity. */
  function EulerStep(m: Movable, dt: real): (r: Movable)
    ensures r.gravity == m.gravity && r.onGround == m.onGround && r.groundCheck == m.groundCheck
  {
    var v := Add(m.velocity, Scale(m.gravity, dt));
    m.(velocity := v, pos := Add(m.pos, Scale(v, dt)))
  }

  /** The step undone: position back with the new velocity, then velocity. */
  function EulerStepBack(m: Movable, dt: real): Movable {
    var p := Sub(m.pos, Scale(m.velocity, dt));
    m.(pos := p, velocity := Sub(m.velocity, Scale(m.gravity, dt)))
  }

  /** The step is semi-implicit (the position uses the updated velocity) and
      it loses no information: stepping back recovers the state. */
  lemma EulerStepSemiImplicit(m: Movable, dt: real)
    ensures EulerStep(m, dt).velocity == Add(m.velocity, Scale(m.gravity, dt))
    ensures EulerStep(m, dt).pos == Add(m.pos, Scale(EulerStep(m, dt).velocity, dt))
    ensures EulerStepBack(EulerStep(m, dt), dt) == m
  {
  }

  /** The lowest point of the entity's collider, for the given position. */
  function Lowest(c: Collider, m: Movable): real {
    m.pos.y + ColliderBoundOffset(c, Down).y
  }

  /** `check_ground_collision`: when the collider's lowest point has sunk
      below the ground line it is put back exactly on it, the velocity is
      zeroed and `on_ground` set; otherwise the `Movable` is returned as is
      (in particular `on_ground` is never cleared here). */
  function CheckGroundCollision(w: World, e: nat, m: Movable): (r: Movable)
    requires Live(w, e)
    ensures GetCollider(w, e).None? ==> r == m
    ensures r.pos.x == m.pos.x && r.gravity == m.gravity && r.groundCheck == m.groundCheck
    ensures GetCollider(w, e).Some? ==> Lowest(GetCollider(w, e).value, r) >= GROUND_Y_COORD
    ensures GetCollider(w, e).Some? && Lowest(GetCollider(w, e).value, m) >= GROUND_Y_COORD ==> r == m
    ensures r != m ==> Lowest(GetCollider(w, e).value, r) == GROUND_Y_COORD && r.velocity == Zero && r.onGround
  {
    match GetCollider(w, e)
    case None => m
    case Some(col) =>
      var lowestOffs := ColliderBoundOffset(col, Down).y;
      if m.pos.y + lowestOffs < GROUND_Y_COORD then
        m.(pos := Vec2(m.pos.x, GROUND_Y_COORD - lowestOffs), velocity := Zero, onGround := true)
      else
        m
  }

  /** Clamping twice is clamping once. */
  lemma GroundClampIdempotent(w: World, e: nat, m: Movable)
    requires Live(w, e)
    ensures CheckGroundCollision(w, e, CheckGroundCollision(w, e, m)) == CheckGroundCollision(w, e, m)
  {
  }

  /** The Movable an update step produces from `m`. */
  function Stepped(w: World, e: nat, m: Movable, dt: real): Movable
    requires Live(w, e)
  {
    var s := EulerStep(m, dt);
    if s.groundCheck then CheckGroundCollision(w, e, s) else s
  }

  /** `Movable::update_pos` (also the `Update` impl of `Movable`): nothing
      without a `Movable`; otherwise one Euler step, then the ground clamp
      when the entity asked for it. Only that `Movable` changes. */
  function UpdatePos(w: World, e: nat, dt: real): (r: World)
    requires Live(w, e)
    ensures Ecs.Valid(r) && r.entitiesCount == w.entitiesCount && r.tables.Keys == w.tables.Keys
    ensures GetMovable(w, e).None? ==> r == w
    ensures GetMovable(w, e).Some? ==> GetMovable(r, e) == Some(Stepped(w, e, GetMovable(w, e).value, dt))
    ensures forall k, e': nat :: e' < w.entitiesCount && (k != MovableKind || e' != e) ==>
              Slot(r, k, e') == Slot(w, k, e')
  {
    match GetMovable(w, e)
    case None => w
    case Some(m) => SetMovable(w, e, Stepped(w, e, m, dt))
  }

  /** A ground-checked entity resting on the ground under downward gravity
      stays exactly there, at rest, after any forward step. */
  lemma RestingStaysOnGround(w: World, e: nat, dt: real)
    requires Live(w, e)
    requires GetMovable(w, e).Some? && GetCollider(w, e).Some?
    requires var m := GetMovable(w, e).value;
      m.groundCheck && m.velocity == Zero && m.gravity.x == 0.0 && m.gravity.y < 0.0 &&
      Lowest(GetCollider(w, e).value, m) == GROUND_Y_COORD
    requires dt > 0.0
    ensures GetMovable(UpdatePos(w, e, dt), e) == Some(GetMovable(w, e).value.(onGround := true))
  {
    var m := GetMovable(w, e).value;
    RestingStep(w, e, m, dt);
  }

  lemma RestingStep(w: World, e: nat, m: Movable, dt: real)
    requires Live(w, e) && GetCollider(w, e).Some?
    requires m.groundCheck && m.velocity == Zero && m.gravity.x == 0.0 && m.gravity.y < 0.0
    requires Lowest(GetCollider(w, e).value, m) == GROUND_Y_COORD
    requires dt > 0.0
    ensures Stepped(w, e, m, dt) == m.(onGround := true)
  {
    var s := EulerStep(m, dt);
    assert Stepped(w, e, m, dt) == CheckGroundCollision(w, e, s);
    var vy := m.gravity.y * dt;
    MulSign(m.gravity.y, dt);
    MulSign(vy, dt);
    assert s.velocity == Vec2(0.0, vy);
    assert s.pos == Vec2(m.pos.x, m.pos.y + vy * dt);
    var offs := ColliderBoundOffset(GetCollider(w, e).value, Down).y;
    assert s.pos.y + offs < GROUND_Y_COORD;
  }

  /** `Movable::jump`: refused (and nothing changes) unless on the ground;
      otherwise the vertical velocity is set and the entity leaves the ground. */
  function Jump(m: Movable, vel: real): (r: (Movable, bool))
    ensures r.1 <==> m.onGround
    ensures !r.1 ==> r.0 == m
    ensures r.1 ==> r.0 == m.(velocity := Vec2(m.velocity.x, vel), onGround := false)
  {
    if !m.onGround then (m, false)
    else (m.(velocity := Vec2(m.velocity.x, vel), onGround := false), true)
  }

  /** No double jump: right after a jump, another jump is refused. */
  lemma NoDoubleJump(m: Movable, v1: real, v2: real)
    ensures Jump(m, v1).1 ==> Jump(Jump(m, v1).0, v2) == (Jump(m, v1).0, false)
  {
  }

  /** `EndlessScroll::update`: a tile whose right edge has passed the left
      screen edge is moved right by its width plus the screen width. Both
      components are unwrapped, so either one missing panics. */
  function ScrollUpdate(w: World, e: nat): (r: Result<World>)
    requires Live(w, e)
    ensures r.Ok? <==> GetMovable(w, e).Some? && GetScroll(w, e).Some?
    ensures r.Ok? ==> Ecs.Valid(r.value) && r.value.entitiesCount == w.entitiesCount
    ensures r.Ok? ==>
      var m := GetMovable(w, e).value;
      var width := GetScroll(w, e).value.width;
      if m.pos.x + width / 2.0 < -SCREEN_W / 2.0
      then GetMovable(r.value, e) == Some(m.(pos := Vec2(m.pos.x + width + SCREEN_W, m.pos.y)))
      else r.value == w
    ensures r.Ok? ==> forall k, e': nat :: e' < w.entitiesCount && (k != MovableKind || e' != e) ==>
              Slot(r.value, k, e') == Slot(w, k, e')
  {
    var m :- Unwrap(GetMovable(w, e));
    var scroll :- Unwrap(GetScroll(w, e));
    if m.pos.x + scroll.width / 2.0 < -SCREEN_W / 2.0 then
      Ok(SetMovable(w, e, m.(pos := Vec2(m.pos.x + scroll.width + SCREEN_W, m.pos.y))))
    else
      Ok(w)
  }

  /** A tile that passed the edge by less than one period lands back in view,
      so a second update in the same frame does nothing. */
  lemma ScrollWrapSettles(w: World, e: nat)
    requires Live(w, e)
    requires GetMovable(w, e).Some? && GetScroll(w, e).Some?
    requires GetScroll(w, e).value.width >= 0.0
    requires GetMovable(w, e).value.pos.x + GetScroll(w, e).value.width / 2.0 >=
             -SCREEN_W / 2.0 - (GetScroll(w, e).value.width + SCREEN_W)
    ensures ScrollUpdate(w, e).Ok?
    ensures ScrollUpdate(ScrollUpdate(w, e).value, e) == ScrollUpdate(w, e)
  {
    var r := ScrollUpdate(w, e).value;
    assert Slot(r, ScrollKind, e) == Slot(w, ScrollKind, e);
  }
}
