/** The enum collider of the first prototype (`src/unused_code/collider.rs`).
    `src/lib.rs` carries the same enum with a reduced impl: no
    `check_collision`, and `get_corners` and `contains_point` private; what it
    keeps computes the same values as here. A box is
    given by its half-extent and is centred on its owner's position; the
    other variant is "no collider". Overlap is decided by the Minkowski-sum
    test, not by the corner test of the later colliders. */
module LegacyCollider {
  import opened Vectors
  import opened Bounds
  import opened Geometry
  import Components
  import Collision

  datatype Collider = BoxCollider(half: Vec2) | NoCollider

  /** ggez's `GameResult`: a value, or an error carrying a message. */
  datatype GameResult<+T> = Ok(value: T) | Err(message: string)

  const NoBoxError := "Actor::get_collider_corners() was called on an actor with no box collider."

  /** `Collider::new_box`: the argument is the half-extent. */
  function NewBox(size: Vec2): (c: Collider)
    ensures c.BoxCollider? && c.half == size
  {
    BoxCollider(size)
  }

  /** `point_in_box`: closed rectangle of half-extent `boxSize` about `boxPos`. */
  predicate PointInBox(boxPos: Vec2, boxSize: Vec2, point: Vec2) {
    point.x >= boxPos.x - boxSize.x && point.x <= boxPos.x + boxSize.x &&
    point.y >= boxPos.y - boxSize.y && point.y <= boxPos.y + boxSize.y
  }

  /** `point_in_box` is inclusive on all four edges: it is the closed
      rectangle of the shared geometry, so the centre and the four corners
      of a box with a non-negative half-extent pass, and any point beyond
      an edge fails. */
  lemma PointInBoxInclusive(boxPos: Vec2, boxSize: Vec2, point: Vec2)
    ensures PointInBox(boxPos, boxSize, point) <==> InRect(boxSize, boxPos, point)
    ensures NonNeg(boxSize) ==> PointInBox(boxPos, boxSize, boxPos)
    ensures NonNeg(boxSize) ==> forall p :: p in Corners(boxSize, boxPos) ==> PointInBox(boxPos, boxSize, p)
    ensures point.x > boxPos.x + boxSize.x || point.x < boxPos.x - boxSize.x ==> !PointInBox(boxPos, boxSize, point)
  {
    if NonNeg(boxSize) {
      CornersInside(boxSize, boxPos);
    }
  }

  /** `box_bound_offs`: the midpoint of the named side relative to the box
      centre, one half-extent out along the side's axis and zero along the
      other. It is the later box collider's side offset for a box without
      an offset. */
  function BoxBoundOffs(halfSize: Vec2, bound: BoundType): (r: Vec2)
    ensures Horizontal(bound) ==> r.y == 0.0 && r.x == (if bound == Right then halfSize.x else -halfSize.x)
    ensures Vertical(bound) ==> r.x == 0.0 && r.y == (if bound == Up then halfSize.y else -halfSize.y)
    ensures r == Collision.BoxBoundOffset(Components.BoxCollider(halfSize, Zero), bound)
  {
    match bound
    case Up => Vec2(0.0, halfSize.y)
    case Down => Vec2(0.0, -halfSize.y)
    case Left => Vec2(-halfSize.x, 0.0)
    case Right => Vec2(halfSize.x, 0.0)
  }

  /** Opposite sides are mirror images through the centre, and every side
      midpoint lies on the box. */
  lemma BoxBoundOffsMirror(halfSize: Vec2, bound: BoundType)
    ensures BoxBoundOffs(halfSize, Opposite(bound)) == Scale(BoxBoundOffs(halfSize, bound), -1.0)
    ensures NonNeg(halfSize) ==> InRect(halfSize, Zero, BoxBoundOffs(halfSize, bound))
  {
    match bound
    case Up =>
    case Down =>
    case Left =>
    case Right =>
  }

  /** `get_corners`: an error for `None`; for a box the four corners about the
      origin, left column first and bottom before top in each column. */
  function GetCorners(c: Collider): (r: GameResult<seq<Vec2>>)
    ensures r.Err? <==> c.NoCollider?
    ensures r.Err? ==> r.message == NoBoxError
    ensures r.Ok? ==> |r.value| == 4 && forall i :: 0 <= i < 4 ==>
      r.value[i] == Vec2(if i < 2 then -c.half.x else c.half.x, if i % 2 == 0 then -c.half.y else c.half.y)
  {
    match c
    case BoxCollider(h) =>
      var z := [Zero, Zero, Zero, Zero];
      var a0 := z[0].(x := z[0].x - h.x, y := z[0].y - h.y);
      var a1 := z[1].(x := z[1].x - h.x, y := z[1].y + h.y);
      var a2 := z[2].(x := z[2].x + h.x, y := z[2].y - h.y);
      var a3 := z[3].(x := z[3].x + h.x, y := z[3].y + h.y);
      Ok([a0, a1, a2, a3])
    case NoCollider => Err(NoBoxError)
  }

  /** `contains_point`: false without a box; otherwise the closed box
      centred at the origin. */
  function ContainsPoint(c: Collider, point: Vec2): (r: bool)
    ensures r <==> c.BoxCollider? && InRect(c.half, Zero, point)
  {
    match c
    case BoxCollider(col) =>
      point.x >= -col.x && point.x <= col.x && point.y >= -col.y && point.y <= col.y
    case NoCollider => false
  }

  /** Every corner `get_corners` reports is contained in the box it came from
      (for a non-negative half-extent), and the corners are the shared
      geometry's corners of the box at the origin. */
  lemma CornersContained(c: Collider)
    requires c.BoxCollider? && NonNeg(c.half)
    ensures GetCorners(c).Ok? && GetCorners(c).value == Corners(c.half, Zero)
    ensures forall p :: p in GetCorners(c).value ==> ContainsPoint(c, p)
  {
    var cs := GetCorners(c).value;
    assert cs == Corners(c.half, Zero) by {
      forall i | 0 <= i < 4 ensures cs[i] == Corners(c.half, Zero)[i] {
      }
    }
    CornersInside(c.half, Zero);
  }

  /** `Collider::check_collision`: false unless both are boxes; otherwise
      the second centre must lie in the first box grown by the second
      box's half-extent. */
  function CheckCollision(c1: Collider, pos1: Vec2, c2: Collider, pos2: Vec2): (r: bool)
    ensures r ==> c1.BoxCollider? && c2.BoxCollider?
    ensures c1.BoxCollider? && c2.BoxCollider? ==> (r <==> MinkowskiTest(c1.half, pos1, c2.half, pos2))
  {
    match (c1, c2)
    case (BoxCollider(h1), BoxCollider(h2)) => PointInBox(pos1, Add(h1, h2), pos2)
    case _ => false
  }

  /** The Minkowski test reports exactly the pairs of boxes that share a
      point, in either argument order. */
  lemma CheckCollisionExact(c1: Collider, pos1: Vec2, c2: Collider, pos2: Vec2)
    ensures CheckCollision(c1, pos1, c2, pos2) == CheckCollision(c2, pos2, c1, pos1)
    ensures c1.BoxCollider? && c2.BoxCollider? && NonNeg(c1.half) && NonNeg(c2.half) ==>
      (CheckCollision(c1, pos1, c2, pos2) <==> Intersect(c1.half, pos1, c2.half, pos2))
  {
    if c1.BoxCollider? && c2.BoxCollider? && NonNeg(c1.half) && NonNeg(c2.half) {
      MinkowskiExact(c1.half, pos1, c2.half, pos2);
    }
  }

  /** Unlike the corner test of the later colliders, the Minkowski test sees
      two boxes crossing without either holding a corner of the other. */
  lemma DetectsCrossingBoxes()
    ensures CheckCollision(BoxCollider(Vec2(10.0, 1.0)), Zero, BoxCollider(Vec2(1.0, 10.0)), Zero)
    ensures !CornerTest(Vec2(10.0, 1.0), Zero, Vec2(1.0, 10.0), Zero)
  {
    CornerTestIncomplete();
  }

  /** The two collision tests of the prototype's unit tests: half-5 boxes at
      (0, 0) and (9, 9) collide; at (0, 0) and (11, 9) they do not. */
  lemma CollisionExamples()
    ensures CheckCollision(NewBox(Vec2(5.0, 5.0)), Zero, NewBox(Vec2(5.0, 5.0)), Vec2(9.0, 9.0))
    ensures !CheckCollision(NewBox(Vec2(5.0, 5.0)), Zero, NewBox(Vec2(5.0, 5.0)), Vec2(11.0, 9.0))
  {
  }
}
