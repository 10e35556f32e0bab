/** The offset box of `src/ecs/collision.rs`: collision between two
    entities, each box placed at its entity's `Movable` position plus its
    offset, and the sides of a box. */
module EarlyCollision {
  import opened Wrappers
  import opened Vectors
  import opened Bounds
  import opened Geometry
  import opened EarlyWorld
  import Components
  import Collision

  function NewBox(halfSize: Vec2): (b: BoxCollider)
    ensures b.halfSize == halfSize && b.offset == Zero && !b.groundCheck
  {
    BoxCollider(halfSize, Zero, false)
  }

  /** A copy of the box with another offset; everything else is kept. */
  function WithOffset(b: BoxCollider, offset: Vec2): (r: BoxCollider)
    ensures r.offset == offset
    ensures r.halfSize == b.halfSize && r.groundCheck == b.groundCheck
  {
    b.(offset := offset)
  }

  /** The same box in the current snapshot's terms. */
  function AsCurrent(b: BoxCollider): Components.BoxCollider {
    Components.BoxCollider(b.halfSize, b.offset)
  }

  /** Closed-rectangle test of the box centred at `pos`. */
  predicate ContainsPoint(b: BoxCollider, pos: Vec2, point: Vec2) {
    InRect(b.halfSize, pos, point)
  }

  /** `get_pos`: the entity's position plus the box offset; panics when the
      entity has no `Movable`. */
  function GetPos(b: BoxCollider, w: World, e: nat): (r: Result<Vec2>)
    requires Live(w, e)
    ensures r.Ok? <==> GetMovable(w, e).Some?
    ensures r.Ok? ==> Sub(r.value, b.offset) == GetMovable(w, e).value.pos
  {
    var m :- Unwrap(GetMovable(w, e));
    Ok(Add(m.pos, b.offset))
  }

  /** `check_collision`: `false` as soon as either entity lacks a box;
      otherwise both positions are read (panicking without a `Movable`) and
      the corners are tested in both directions. */
  function CheckCollision(w: World, e1: nat, e2: nat): (r: Result<bool>)
    requires Live(w, e1) && Live(w, e2)
    ensures GetBox(w, e1).None? || GetBox(w, e2).None? ==> r == Ok(false)
    ensures GetBox(w, e1).Some? && GetBox(w, e2).Some? ==>
      (r.Ok? <==> GetMovable(w, e1).Some? && GetMovable(w, e2).Some?)
    ensures r.Ok? && GetBox(w, e1).Some? && GetBox(w, e2).Some? ==>
      var b1 := GetBox(w, e1).value;
      var b2 := GetBox(w, e2).value;
      r.value == CornerTest(b1.halfSize, Add(GetMovable(w, e1).value.pos, b1.offset),
                            b2.halfSize, Add(GetMovable(w, e2).value.pos, b2.offset))
  {
    match (GetBox(w, e1), GetBox(w, e2))
    case (Some(b1), Some(b2)) =>
      var p1 :- GetPos(b1, w, e1);
      var p2 :- GetPos(b2, w, e2);
      Ok(AnyIn(Corners(b1.halfSize, p1), b2.halfSize, p2) || AnyIn(Corners(b2.halfSize, p2), b1.halfSize, p1))
    case _ => Ok(false)
  }

  /** The entity order does not matter, not even for which call panics. */
  lemma CheckCollisionSymmetric(w: World, e1: nat, e2: nat)
    requires Live(w, e1) && Live(w, e2)
    ensures CheckCollision(w, e1, e2) == CheckCollision(w, e2, e1)
  {
  }

  /** A reported collision is real: the two placed boxes share a point. */
  lemma CheckCollisionSound(w: World, e1: nat, e2: nat)
    requires Live(w, e1) && Live(w, e2)
    requires CheckCollision(w, e1, e2) == Ok(true)
    requires NonNeg(GetBox(w, e1).value.halfSize) && NonNeg(GetBox(w, e2).value.halfSize)
    ensures GetMovable(w, e1).Some? && GetMovable(w, e2).Some?
    ensures Intersect(GetBox(w, e1).value.halfSize, Add(GetMovable(w, e1).value.pos, GetBox(w, e1).value.offset),
                      GetBox(w, e2).value.halfSize, Add(GetMovable(w, e2).value.pos, GetBox(w, e2).value.offset))
  {
    var b1 := GetBox(w, e1).value;
    var b2 := GetBox(w, e2).value;
    CornerTestSound(b1.halfSize, Add(GetMovable(w, e1).value.pos, b1.offset),
                    b2.halfSize, Add(GetMovable(w, e2).value.pos, b2.offset));
  }

  /** `get_bound_offset` of this snapshot leaves the offset out: it is the
      current snapshot's side offset minus the box offset. */
  function BoundOffset(b: BoxCollider, bound: BoundType): (r: Vec2)
    ensures Add(r, b.offset) == Collision.BoxBoundOffset(AsCurrent(b), bound)
  {
    match bound
    case Up => Vec2(0.0, b.halfSize.y)
    case Down => Vec2(0.0, -b.halfSize.y)
    case Left => Vec2(-b.halfSize.x, 0.0)
    case Right => Vec2(b.halfSize.x, 0.0)
  }

  /** The side offsets do not depend on the box offset, and opposite sides
      are mirror images through the centre. */
  lemma BoundOffsetIgnoresOffset(b: BoxCollider, bound: BoundType, o: Vec2)
    ensures BoundOffset(b.(offset := o), bound) == BoundOffset(b, bound)
    ensures Add(BoundOffset(b, bound), BoundOffset(b, Opposite(bound))) == Zero
  {
  }

  /** `get_bound`: the side of the placed box, so position plus offset plus
      the side offset; the offset does count here. */
  function GetBound(b: BoxCollider, w: World, e: nat, bound: BoundType): (r: Result<Vec2>)
    requires Live(w, e)
    ensures r.Ok? <==> GetMovable(w, e).Some?
    ensures r.Ok? ==> r.value == Collision.BoxGetBound(AsCurrent(b), GetMovable(w, e).value.pos, bound)
  {
    var p :- GetPos(b, w, e);
    Ok(Add(p, BoundOffset(b, bound)))
  }
}
