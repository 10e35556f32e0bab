/** The `Actor` of the first prototype (`src/lib.rs`; `src/unused_code/actor.rs`
    is a second copy whose collision test delegates to the collider, while
    `lib.rs` inlines it, see `InlineCheckCollision`): a position, a velocity, a
    constant gravity, an enum collider and an "in the air" flag, moved by an
    Euler step with a ground clamp and wrapped around the screen edges. The
    screen size is the tuple `(width, height)`. */
module LegacyActor {
  import opened Vectors
  import opened Bounds
  import opened Geometry
  import opened Constants
  import LegacyCollider
  import opened Arith

  /** The prototype's own jump speed (the later game uses `JUMP_VELOCITY`).
      Its ground height is the game's `GROUND_Y_COORD`. */
  const PROTOTYPE_JUMP_VELOCITY: real := 400.0

  datatype ActorType = Dino | Cactus

  datatype Actor = Actor(
    tag: ActorType,
    pos: Vec2,
    velocity: Vec2,
    gravity: Vec2,
    collider: LegacyCollider.Collider,
    inAir: bool)

  type Screen2 = (real, real)

  /** `Actor::new`: the given state, standing (not in the air). */
  function NewActor(tag: ActorType, pos: Vec2, velocity: Vec2, gravity: Vec2, collider: LegacyCollider.Collider): (a: Actor)
    ensures a.tag == tag && a.pos == pos && a.velocity == velocity && a.gravity == gravity
    ensures a.collider == collider && !a.inAir
  {
    Actor(tag, pos, velocity, gravity, collider, false)
  }

  /** `bound_offset`: the side midpoint for a box, the origin without one. */
  function BoundOffset(a: Actor, bound: BoundType): (r: Vec2)
    ensures a.collider.NoCollider? ==> r == Zero
    ensures a.collider.BoxCollider? ==> r == LegacyCollider.BoxBoundOffs(a.collider.half, bound)
  {
    match a.collider
    case NoCollider => Vec2(0.0, 0.0)
    case BoxCollider(col) => LegacyCollider.BoxBoundOffs(col, bound)
  }

  /** The side offset lies on the actor's own box, opposite sides mirror
      each other, and an actor without a collider is a point. */
  lemma BoundOffsetOnBox(a: Actor, bound: BoundType)
    ensures BoundOffset(a, Opposite(bound)) == Scale(BoundOffset(a, bound), -1.0)
    ensures a.collider.BoxCollider? && NonNeg(a.collider.half) ==>
      LegacyCollider.ContainsPoint(a.collider, BoundOffset(a, bound))
    ensures a.collider.NoCollider? ==> Add(a.pos, BoundOffset(a, bound)) == a.pos
  {
    if a.collider.BoxCollider? {
      LegacyCollider.BoxBoundOffsMirror(a.collider.half, bound);
    }
  }

  /** The y coordinate of the actor's bottom edge. */
  function Bottom(a: Actor): real {
    a.pos.y + BoundOffset(a, Down).y
  }

  /** `update_pos`: velocity then position take one Euler step; if the bottom
      edge is then below the ground it is put on the ground, the vertical
      speed is zeroed and the actor counts as landed. Only the vertical
      state is ever clamped. */
  function UpdatePos(a: Actor, dt: real): (r: Actor)
    ensures r.tag == a.tag && r.gravity == a.gravity && r.collider == a.collider
    ensures r.velocity.x == a.velocity.x + a.gravity.x * dt
    ensures r.pos.x == a.pos.x + r.velocity.x * dt
    ensures Bottom(r) >= GROUND_Y_COORD
    ensures var vy := a.velocity.y + a.gravity.y * dt;
      var y := a.pos.y + vy * dt;
      if y + BoundOffset(a, Down).y < GROUND_Y_COORD
      then Bottom(r) == GROUND_Y_COORD && r.velocity.y == 0.0 && !r.inAir
      else r.pos.y == y && r.velocity.y == vy && r.inAir == a.inAir
  {
    var velocity := Add(a.velocity, Scale(a.gravity, dt));
    var pos := Add(a.pos, Scale(velocity, dt));
    var a1 := a.(velocity := velocity, pos := pos);
    var offs := BoundOffset(a1, Down);
    if a1.pos.y + offs.y < GROUND_Y_COORD then
      a1.(pos := a1.pos.(y := GROUND_Y_COORD - offs.y),
          velocity := a1.velocity.(y := 0.0),
          inAir := false)
    else a1
  }

  /** An actor resting on the ground under downward (or no) gravity stays
      where it is: the step never lifts it and the clamp puts it back, so
      repeated updates leave it grounded. */
  lemma RestingStaysOnGround(a: Actor, dt: real)
    requires Bottom(a) == GROUND_Y_COORD && a.velocity.y == 0.0 && !a.inAir
    requires a.gravity.y <= 0.0 && dt >= 0.0
    ensures UpdatePos(a, dt).pos.y == a.pos.y
    ensures UpdatePos(a, dt).velocity.y == 0.0 && !UpdatePos(a, dt).inAir
  {
    var r := UpdatePos(a, dt);
    var vy := a.velocity.y + a.gravity.y * dt;
    assert vy == a.gravity.y * dt;
    MulSign(a.gravity.y, dt);
    MulSign(vy, dt);
    if a.pos.y + vy * dt + BoundOffset(a, Down).y < GROUND_Y_COORD {
      assert Bottom(r) == GROUND_Y_COORD;
    } else {
      assert vy * dt == 0.0;
      assert vy == 0.0;
    }
  }

  /** `jump`: sets the vertical speed and the in-air flag, nothing else. */
  function Jump(a: Actor, jumpSpeed: real): (r: Actor)
    ensures r.velocity == Vec2(a.velocity.x, jumpSpeed) && r.inAir
    ensures r.(velocity := a.velocity, inAir := a.inAir) == a
  {
    a.(velocity := a.velocity.(y := jumpSpeed), inAir := true)
  }

  /** The prototype's input: just the jump flag. */
  datatype InputState = InputState(jump: bool)

  function JumpStart(i: InputState): (r: InputState)
    ensures r.jump
  {
    i.(jump := true)
  }

  function JumpEnd(i: InputState): (r: InputState)
    ensures !r.jump
  {
    i.(jump := false)
  }

  /** `player_handle_input`: a pressed jump is taken only from the ground; it
      launches the actor at the prototype's jump speed and consumes the
      press. Otherwise actor and input are untouched. */
  function PlayerHandleInput(a: Actor, input: InputState, dt: real): (r: (Actor, InputState))
    ensures input.jump && !a.inAir ==>
      r.0.velocity == Vec2(a.velocity.x, PROTOTYPE_JUMP_VELOCITY) && r.0.inAir &&
      r.0.pos == a.pos && r.0.collider == a.collider && !r.1.jump
    ensures !(input.jump && !a.inAir) ==> r == (a, input)
  {
    if input.jump && !a.inAir then (Jump(a, PROTOTYPE_JUMP_VELOCITY), JumpEnd(input))
    else (a, input)
  }

  /** No double jump: once launched, a fresh press does nothing while the
      actor is in the air, and the actor stays in the air until a step whose
      landing clamp fires. */
  lemma NoJumpInAir(a: Actor, dt: real, dt2: real)
    requires a.inAir
    ensures PlayerHandleInput(a, JumpStart(InputState(false)), dt) == (a, InputState(true))
    ensures var vy := a.velocity.y + a.gravity.y * dt2;
      !UpdatePos(a, dt2).inAir <==> a.pos.y + vy * dt2 + BoundOffset(a, Down).y < GROUND_Y_COORD
  {
  }

  /** `screen_bound`: the midpoint of the named screen side, the screen
      being centred on the world origin. */
  function ScreenBound(s: Screen2, bound: BoundType): (r: Vec2)
    ensures Horizontal(bound) ==> r == Vec2(if bound == Right then s.0 / 2.0 else -s.0 / 2.0, 0.0)
    ensures Vertical(bound) ==> r == Vec2(0.0, if bound == Up then s.1 / 2.0 else -s.1 / 2.0)
    ensures s.0 >= 0.0 && s.1 >= 0.0 ==> InRect(Vec2(s.0 / 2.0, s.1 / 2.0), Zero, r)
  {
    var half := (s.0 / 2.0, s.1 / 2.0);
    LegacyCollider.BoxBoundOffs(Vec2(half.0, half.1), bound)
  }

  /** `out_of_screen_from`: the actor's side facing the screen lies strictly
      beyond the named screen side. */
  predicate OutOfScreenFrom(a: Actor, s: Screen2, bound: BoundType) {
    var boundPos := Add(a.pos, BoundOffset(a, Opposite(bound)));
    var boundScr := ScreenBound(s, bound);
    match bound
    case Left => boundPos.x < boundScr.x
    case Right => boundPos.x > boundScr.x
    case Down => boundPos.y < boundScr.y
    case Up => boundPos.y > boundScr.y
  }

  /** The point lies strictly beyond the named side of the screen. */
  predicate Beyond(s: Screen2, bound: BoundType, p: Vec2) {
    match bound
    case Left => p.x < -s.0 / 2.0
    case Right => p.x > s.0 / 2.0
    case Down => p.y < -s.1 / 2.0
    case Up => p.y > s.1 / 2.0
  }

  /** For a box actor, being out of the screen from a side means that every
      point of its box lies beyond that side: a box still touching the
      screen edge is not out. */
  lemma OutOfScreenExact(a: Actor, s: Screen2, bound: BoundType)
    requires a.collider.BoxCollider? && NonNeg(a.collider.half)
    ensures OutOfScreenFrom(a, s, bound) <==>
      forall p :: InRect(a.collider.half, a.pos, p) ==> Beyond(s, bound, p)
  {
    var h := a.collider.half;
    var edge := Add(a.pos, BoundOffset(a, Opposite(bound)));
    assert InRect(h, a.pos, edge);
    match bound
    case Left =>
      assert edge.x == a.pos.x + h.x;
      assert OutOfScreenFrom(a, s, bound) == (edge.x < -s.0 / 2.0);
    case Right =>
      assert edge.x == a.pos.x - h.x;
      assert OutOfScreenFrom(a, s, bound) == (edge.x > s.0 / 2.0);
    case Down =>
      assert edge.y == a.pos.y + h.y;
      assert OutOfScreenFrom(a, s, bound) == (edge.y < -s.1 / 2.0);
    case Up =>
      assert edge.y == a.pos.y - h.y;
      assert OutOfScreenFrom(a, s, bound) == (edge.y > s.1 / 2.0);
  }

  /** `out_of_screen_bounds`: out of the screen from some side. */
  predicate OutOfScreenBounds(a: Actor, s: Screen2) {
    OutOfScreenFrom(a, s, Up) || OutOfScreenFrom(a, s, Down) ||
    OutOfScreenFrom(a, s, Left) || OutOfScreenFrom(a, s, Right)
  }

  lemma OutOfScreenBoundsAnySide(a: Actor, s: Screen2)
    ensures OutOfScreenBounds(a, s) <==> exists b :: OutOfScreenFrom(a, s, b)
  {
    if exists b :: OutOfScreenFrom(a, s, b) {
      var b :| OutOfScreenFrom(a, s, b);
      match b
      case Up =>
      case Down =>
      case Left =>
      case Right =>
    }
  }

  /** `enter_screen_from`: moves the actor so that its side facing away from
      the named screen side sits exactly on it, i.e. just inside the screen.
      Everything but the position is kept. */
  function EnterScreenFrom(a: Actor, s: Screen2, bound: BoundType): (r: Actor)
    ensures Add(r.pos, BoundOffset(r, Opposite(bound))) == ScreenBound(s, bound)
    ensures r.(pos := a.pos) == a
  {
    a.(pos := Sub(ScreenBound(s, bound), BoundOffset(a, Opposite(bound))))
  }

  /** An actor that has just entered from a side is not out of the screen
      from that side (its edge is on the side, and the test is strict). */
  lemma EnteredIsNotOut(a: Actor, s: Screen2, bound: BoundType)
    ensures !OutOfScreenFrom(EnterScreenFrom(a, s, bound), s, bound)
  {
    var r := EnterScreenFrom(a, s, bound);
    assert Add(r.pos, BoundOffset(r, Opposite(bound))) == ScreenBound(s, bound);
  }

  /** The x coordinate of the actor's right edge. */
  function RightEdge(a: Actor): real {
    a.pos.x + BoundOffset(a, Right).x
  }

  /** `check_respawn_right`: an actor whose right edge has passed the left
      screen side reappears with its left edge on the right screen side and
      the answer is true; otherwise nothing changes and the answer is false.
      The re-entry sets the whole position, so the height becomes 0. */
  function CheckRespawnRight(a: Actor, s: Screen2): (r: (Actor, bool))
    ensures r.1 <==> RightEdge(a) < -s.0 / 2.0
    ensures !r.1 ==> r.0 == a
    ensures r.1 ==>
      (r.0.(pos := a.pos) == a && r.0.pos.x + BoundOffset(a, Left).x == s.0 / 2.0 && r.0.pos.y == 0.0)
  {
    if OutOfScreenFrom(a, s, Left) then (EnterScreenFrom(a, s, Right), true)
    else (a, false)
  }

  /** A respawned actor is back on the screen: it is no longer out from the
      left, so the next check leaves it alone. */
  lemma RespawnOnce(a: Actor, s: Screen2)
    requires a.collider.BoxCollider? ==> a.collider.half.x >= 0.0
    requires s.0 >= 0.0
    requires CheckRespawnRight(a, s).1
    ensures var a1 := CheckRespawnRight(a, s).0;
      CheckRespawnRight(a1, s) == (a1, false)
  {
  }

  /** `world_to_screen_coords`: shift by half a screen and flip the y axis,
      so the screen's y grows downwards. */
  function WorldToScreenCoords(s: Screen2, point: Vec2): (r: Vec2)
    ensures r.x - s.0 / 2.0 == point.x && s.1 / 2.0 - r.y == point.y
  {
    var x := point.x + s.0 / 2.0;
    var y := s.1 - (point.y + s.1 / 2.0);
    Vec2(x, y)
  }

  /** The inverse map, from a screen point back to the world. */
  function ScreenToWorldCoords(s: Screen2, q: Vec2): Vec2 {
    Vec2(q.x - s.0 / 2.0, s.1 / 2.0 - q.y)
  }

  /** The two maps are inverse to each other; the world origin is the screen
      centre, and a higher world point is drawn higher up (smaller screen y). */
  lemma ScreenCoordsRoundTrip(s: Screen2, p: Vec2, q: Vec2)
    ensures ScreenToWorldCoords(s, WorldToScreenCoords(s, p)) == p
    ensures WorldToScreenCoords(s, ScreenToWorldCoords(s, q)) == q
    ensures WorldToScreenCoords(s, Zero) == Vec2(s.0 / 2.0, s.1 / 2.0)
    ensures p.y < q.y ==> WorldToScreenCoords(s, p).y > WorldToScreenCoords(s, q).y
  {
  }

  /** `get_collider_corners`: the collider's corners moved to the actor's
      position, or the collider's error without a box. */
  method GetColliderCorners(a: Actor) returns (r: LegacyCollider.GameResult<seq<Vec2>>)
    ensures r.Err? <==> a.collider.NoCollider?
    ensures r.Err? ==> r.message == LegacyCollider.NoBoxError
    ensures r.Ok? ==> |r.value| == 4 && forall p :: p in r.value ==> PointInsideCollider(a, p) || !NonNeg(a.collider.half)
    ensures r.Ok? ==> r.value == Corners(a.collider.half, a.pos)
  {
    var c := LegacyCollider.GetCorners(a.collider);
    if c.Err? {
      return LegacyCollider.Err(c.message);
    }
    var arr := c.value;
    var i := 0;
    while i < 4
      invariant 0 <= i <= 4 && |arr| == 4
      invariant forall j :: 0 <= j < i ==> arr[j] == Add(c.value[j], a.pos)
      invariant forall j :: i <= j < 4 ==> arr[j] == c.value[j]
    {
      arr := arr[i := Add(arr[i], a.pos)];
      i := i + 1;
    }
    assert arr == Corners(a.collider.half, a.pos) by {
      forall j | 0 <= j < 4 ensures arr[j] == Corners(a.collider.half, a.pos)[j] {
      }
    }
    if NonNeg(a.collider.half) {
      CornersInside(a.collider.half, a.pos);
    }
    return LegacyCollider.Ok(arr);
  }

  /** `point_inside_collider`: the point, taken relative to the actor, is in
      its collider; i.e. it lies in the closed box about the actor. */
  function PointInsideCollider(a: Actor, point: Vec2): (r: bool)
    ensures r <==> a.collider.BoxCollider? && InRect(a.collider.half, a.pos, point)
  {
    LegacyCollider.ContainsPoint(a.collider, Sub(point, a.pos))
  }

  /** `Actor::check_collision` of `src/unused_code/actor.rs`: delegates to the
      collider's Minkowski test with both positions. */
  function CheckCollision(a: Actor, other: Actor): (r: bool)
    ensures r <==>
      (a.collider.BoxCollider? && other.collider.BoxCollider? &&
       MinkowskiTest(a.collider.half, a.pos, other.collider.half, other.pos))
  {
    LegacyCollider.CheckCollision(a.collider, a.pos, other.collider, other.pos)
  }

  /** `Actor::check_collision` of `src/lib.rs`, which spells the Minkowski
      test out in place; it agrees with the delegating version, is symmetric
      and, for boxes with non-negative half-extents, is exact. */
  function InlineCheckCollision(a: Actor, other: Actor): (r: bool)
    ensures r == CheckCollision(a, other)
    ensures r == CheckCollision(other, a)
    ensures (a.collider.BoxCollider? && other.collider.BoxCollider? &&
             NonNeg(a.collider.half) && NonNeg(other.collider.half)) ==>
      (r <==> Intersect(a.collider.half, a.pos, other.collider.half, other.pos))
  {
    LegacyCollider.CheckCollisionExact(a.collider, a.pos, other.collider, other.pos);
    match (a.collider, other.collider)
    case (BoxCollider(col1), BoxCollider(col2)) =>
      LegacyCollider.PointInBox(a.pos, Add(col1, col2), other.pos)
    case _ => false
  }

  /** The unit tests: half-5 box actors at (0, 0) and (9, 9) collide, at
      (0, 0) and (11, 9) they do not. */
  lemma CollisionTests()
    ensures var act1 := NewActor(Dino, Zero, Zero, Zero, LegacyCollider.NewBox(Vec2(5.0, 5.0)));
      var act2 := NewActor(Dino, Vec2(9.0, 9.0), Zero, Zero, LegacyCollider.NewBox(Vec2(5.0, 5.0)));
      InlineCheckCollision(act1, act2)
    ensures var act1 := NewActor(Dino, Zero, Zero, Zero, LegacyCollider.NewBox(Vec2(5.0, 5.0)));
      var act2 := NewActor(Dino, Vec2(11.0, 9.0), Zero, Zero, LegacyCollider.NewBox(Vec2(5.0, 5.0)));
      !InlineCheckCollision(act1, act2)
  {
  }
}
