/** The position-carrying box of `src/ecs/movable/collision.rs`: the box
    stores its own centre instead of reading the entity's position. */
module PositionedBox {
  import opened Vectors
  import opened Bounds
  import opened Geometry

  datatype Box = Box(pos: Vec2, halfSize: Vec2)

  function NewBox(pos: Vec2, halfSize: Vec2): (b: Box)
    ensures b.pos == pos && b.halfSize == halfSize
  {
    Box(pos, halfSize)
  }

  /** Closed-rectangle test around the stored centre. */
  predicate ContainsPoint(b: Box, point: Vec2) {
    InRect(b.halfSize, b.pos, point)
  }

  function GetCorners(b: Box): seq<Vec2> {
    Corners(b.halfSize, b.pos)
  }

  /** A box with a non-negative extent contains its four corners. */
  lemma CornersContained(b: Box)
    requires NonNeg(b.halfSize)
    ensures |GetCorners(b)| == 4
    ensures forall i :: 0 <= i < 4 ==> ContainsPoint(b, GetCorners(b)[i])
  {
    CornersInside(b.halfSize, b.pos);
  }

  /** `check_collision`: the other box's corners in this one first, then
      this box's corners in the other. */
  predicate CheckCollision(self: Box, other: Box) {
    AnyIn(GetCorners(other), self.halfSize, self.pos) || AnyIn(GetCorners(self), other.halfSize, other.pos)
  }

  /** The test is the shared corner test, so it is symmetric and sound. */
  lemma CheckCollisionProperties(a: Box, b: Box)
    ensures CheckCollision(a, b) == CornerTest(a.halfSize, a.pos, b.halfSize, b.pos)
    ensures CheckCollision(a, b) == CheckCollision(b, a)
    ensures NonNeg(a.halfSize) && NonNeg(b.halfSize) && CheckCollision(a, b) ==>
      Intersect(a.halfSize, a.pos, b.halfSize, b.pos)
  {
    if NonNeg(a.halfSize) && NonNeg(b.halfSize) && CheckCollision(a, b) {
      CornerTestSound(a.halfSize, a.pos, b.halfSize, b.pos);
    }
  }

  function BoundOffset(b: Box, bound: BoundType): (r: Vec2)
    ensures Horizontal(bound) ==> r.y == 0.0 && r.x == (if bound == Right then b.halfSize.x else -b.halfSize.x)
    ensures Vertical(bound) ==> r.x == 0.0 && r.y == (if bound == Up then b.halfSize.y else -b.halfSize.y)
  {
    match bound
    case Up => Vec2(0.0, b.halfSize.y)
    case Down => Vec2(0.0, -b.halfSize.y)
    case Left => Vec2(-b.halfSize.x, 0.0)
    case Right => Vec2(b.halfSize.x, 0.0)
  }

  /** Opposite sides are mirror images through the centre, and the
      positive sides are `Right` and `Up`. */
  lemma BoundOffsetMirror(b: Box, bound: BoundType)
    ensures Add(BoundOffset(b, bound), BoundOffset(b, Opposite(bound))) == Zero
    ensures bound == Right ==> BoundOffset(b, bound).x == b.halfSize.x
    ensures bound == Up ==> BoundOffset(b, bound).y == b.halfSize.y
  {
    match bound
    case Up => assert BoundOffset(b, Down) == Vec2(0.0, -b.halfSize.y);
    case Down => assert BoundOffset(b, Up) == Vec2(0.0, b.halfSize.y);
    case Left => assert BoundOffset(b, Right) == Vec2(b.halfSize.x, 0.0);
    case Right => assert BoundOffset(b, Left) == Vec2(-b.halfSize.x, 0.0);
  }

  /** `get_bound`: the named side of the box, which lies on the box. */
  function GetBound(b: Box, bound: BoundType): (r: Vec2)
    ensures Sub(r, b.pos) == BoundOffset(b, bound)
    ensures NonNeg(b.halfSize) ==> ContainsPoint(b, r)
  {
    Add(b.pos, BoundOffset(b, bound))
  }

  /** `update_pos`: the centre is replaced, the extent kept. */
  function UpdatePos(b: Box, newPos: Vec2): (r: Box)
    ensures r.pos == newPos && r.halfSize == b.halfSize
  {
    b.(pos := newPos)
  }

  /** The three unit tests of the file. */
  lemma Examples()
    ensures CheckCollision(Box(Zero, Vec2(5.0, 5.0)), Box(Vec2(9.0, 9.0), Vec2(5.0, 5.0)))
    ensures !CheckCollision(Box(Zero, Vec2(5.0, 5.0)), Box(Vec2(9.0, 11.0), Vec2(5.0, 5.0)))
    ensures CheckCollision(Box(Zero, Vec2(5.0, 5.0)), Box(Zero, Vec2(15.0, 15.0)))
  {
    assert ContainsPoint(Box(Vec2(9.0, 9.0), Vec2(5.0, 5.0)), GetCorners(Box(Zero, Vec2(5.0, 5.0)))[3]);
    assert ContainsPoint(Box(Zero, Vec2(15.0, 15.0)), GetCorners(Box(Zero, Vec2(5.0, 5.0)))[0]);
  }
}
