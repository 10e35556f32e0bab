/** Box and composite colliders of `src/components/collision.rs`. */
module Collision {
  import opened Wrappers
  import opened Vectors
  import opened Bounds
  import opened Geometry
  import opened Constants
  import opened Components

  // ---------------------------------------------------------------- one box

  function NewBox(halfSize: Vec2): (b: BoxCollider)
    ensures b.halfSize == halfSize && b.offset == Zero
  {
    BoxCollider(halfSize, Zero)
  }

  /** A copy of the box with another offset; the half-extent is kept. */
  function WithOffset(b: BoxCollider, offset: Vec2): (r: BoxCollider)
    ensures r.halfSize == b.halfSize && r.offset == offset
  {
    b.(offset := offset)
  }

  /** Closed-rectangle test of the box centred at `pos` (the offset is not
      applied here; callers pass the already offset centre). */
  predicate ContainsPoint(b: BoxCollider, pos: Vec2, point: Vec2) {
    InRect(b.halfSize, pos, point)
  }

  lemma ContainsPointInclusive(b: BoxCollider, pos: Vec2, point: Vec2)
    ensures ContainsPoint(b, pos, point) <==>
      (pos.x - b.halfSize.x <= point.x <= pos.x + b.halfSize.x &&
       pos.y - b.halfSize.y <= point.y <= pos.y + b.halfSize.y)
    ensures NonNeg(b.halfSize) ==> forall c :: c in GetCorners(b, pos) ==> ContainsPoint(b, pos, c)
  {
    if NonNeg(b.halfSize) {
      CornersInside(b.halfSize, pos);
    }
  }

  function GetCorners(b: BoxCollider, pos: Vec2): seq<Vec2> {
    Corners(b.halfSize, pos)
  }

  /** Corner containment in both directions, each box at position plus offset. */
  predicate CheckCollision(c1: BoxCollider, c2: BoxCollider, pos1: Vec2, pos2: Vec2) {
    var p1 := Add(pos1, c1.offset);
    var p2 := Add(pos2, c2.offset);
    AnyIn(GetCorners(c1, p1), c2.halfSize, p2) || AnyIn(GetCorners(c2, p2), c1.halfSize, p1)
  }

  /** The box test does not depend on argument order, is sound, and catches
      a box that lies inside the other. */
  lemma CheckCollisionProperties(c1: BoxCollider, c2: BoxCollider, pos1: Vec2, pos2: Vec2)
    ensures CheckCollision(c1, c2, pos1, pos2) == CheckCollision(c2, c1, pos2, pos1)
    ensures CheckCollision(c1, c2, pos1, pos2) ==
      CornerTest(c1.halfSize, Add(pos1, c1.offset), c2.halfSize, Add(pos2, c2.offset))
    ensures NonNeg(c1.halfSize) && NonNeg(c2.halfSize) && CheckCollision(c1, c2, pos1, pos2) ==>
      Intersect(c1.halfSize, Add(pos1, c1.offset), c2.halfSize, Add(pos2, c2.offset))
  {
    var p1 := Add(pos1, c1.offset);
    var p2 := Add(pos2, c2.offset);
    if NonNeg(c1.halfSize) && NonNeg(c2.halfSize) && CheckCollision(c1, c2, pos1, pos2) {
      CornerTestSound(c1.halfSize, p1, c2.halfSize, p2);
    }
  }

  /** The offset of the named side from the entity position, offset included. */
  function BoxBoundOffset(b: BoxCollider, bound: BoundType): (r: Vec2)
    ensures Horizontal(bound) ==> r.y == b.offset.y
    ensures Vertical(bound) ==> r.x == b.offset.x
  {
    Add(b.offset,
      match bound
      case Up => Vec2(0.0, b.halfSize.y)
      case Down => Vec2(0.0, -b.halfSize.y)
      case Left => Vec2(-b.halfSize.x, 0.0)
      case Right => Vec2(b.halfSize.x, 0.0))
  }

  /** Opposite sides are symmetric about the box centre, and each side lies on
      the box (for a box with a non-negative half-extent). */
  lemma BoxBoundOffsetProperties(b: BoxCollider, bound: BoundType)
    ensures Add(BoxBoundOffset(b, bound), BoxBoundOffset(b, Opposite(bound))) == Scale(b.offset, 2.0)
    ensures Horizontal(bound) ==> BoxBoundOffset(b, bound).x == b.offset.x + (if bound == Right then b.halfSize.x else -b.halfSize.x)
    ensures Vertical(bound) ==> BoxBoundOffset(b, bound).y == b.offset.y + (if bound == Up then b.halfSize.y else -b.halfSize.y)
    ensures NonNeg(b.halfSize) ==> ContainsPoint(b, b.offset, BoxBoundOffset(b, bound))
  {
  }

  /** `BoxCollider::get_bound`: the named side in world space, for a box whose
      owner sits at `pos`: half an extent out from the placed centre in the
      side's direction, level with the centre on the other axis. */
  function BoxGetBound(b: BoxCollider, pos: Vec2, bound: BoundType): (r: Vec2)
    ensures NonNeg(b.halfSize) ==> ContainsPoint(b, Add(pos, b.offset), r)
    ensures Horizontal(bound) ==> r.y == pos.y + b.offset.y
    ensures Vertical(bound) ==> r.x == pos.x + b.offset.x
    ensures Horizontal(bound) ==> r.x == pos.x + b.offset.x + (if bound == Right then b.halfSize.x else -b.halfSize.x)
    ensures Vertical(bound) ==> r.y == pos.y + b.offset.y + (if bound == Up then b.halfSize.y else -b.halfSize.y)
  {
    Add(pos, BoxBoundOffset(b, bound))
  }

  // ---------------------------------------------------------- composite box

  function NewSingle(c1: BoxCollider): (r: Collider)
    ensures |r.col| == NUM_OF_COLLIDERS
    ensures r.col[0] == Some(c1) && forall i :: 1 <= i < |r.col| ==> r.col[i] == None
  {
    Collider([Some(c1), None])
  }

  function NewDouble(c1: BoxCollider, c2: BoxCollider): (r: Collider)
    ensures |r.col| == NUM_OF_COLLIDERS
    ensures r.col[0] == Some(c1) && r.col[1] == Some(c2)
  {
    Collider([Some(c1), Some(c2)])
  }

  /** The coordinate a side is measured on. */
  function Coord(bound: BoundType, v: Vec2): real {
    if Horizontal(bound) then v.x else v.y
  }

  /** `a` is at least as far out as `b` in the direction of `bound`. */
  predicate Outermost(bound: BoundType, a: Vec2, b: Vec2) {
    if bound == Left || bound == Down then Coord(bound, a) <= Coord(bound, b)
    else Coord(bound, a) >= Coord(bound, b)
  }

  /** The side offsets of the present sub-boxes, in slot order. */
  function PresentBounds(cols: seq<Option<BoxCollider>>, bound: BoundType): (r: seq<Vec2>)
    ensures forall i :: 0 <= i < |cols| && cols[i].Some? ==> BoxBoundOffset(cols[i].value, bound) in r
    ensures |r| == 0 <==> forall i :: 0 <= i < |cols| ==> cols[i].None?
  {
    if |cols| == 0 then []
    else
      var rest := PresentBounds(cols[1..], bound);
      assert forall i :: 1 <= i < |cols| ==> cols[i] == cols[1..][i - 1];
      match cols[0]
      case Some(b) => [BoxBoundOffset(b, bound)] + rest
      case None => rest
  }

  /** The source's scan: keep the first present side, then replace it by a
      strictly more extreme one (`<` for Left/Down, `>` for Right/Up). */
  function BoundScan(cols: seq<Option<BoxCollider>>, bound: BoundType, ans: Vec2, ansSet: bool): (r: Vec2)
    ensures |PresentBounds(cols, bound)| == 0 ==> r == ans
    ensures r == ans || r in PresentBounds(cols, bound)
    ensures ansSet ==> Outermost(bound, r, ans)
    ensures forall v :: v in PresentBounds(cols, bound) ==> Outermost(bound, r, v)
    ensures !ansSet && |PresentBounds(cols, bound)| > 0 ==> r in PresentBounds(cols, bound)
  {
    if |cols| == 0 then ans
    else
      match cols[0]
      case None => BoundScan(cols[1..], bound, ans, ansSet)
      case Some(c) =>
        var b := BoxBoundOffset(c, bound);
        if !ansSet then BoundScan(cols[1..], bound, b, true)
        else
          var more := if Horizontal(bound) then Outer(bound, b.x, ans.x) else Outer(bound, b.y, ans.y);
          BoundScan(cols[1..], bound, if more then b else ans, true)
  }

  predicate Outer(bound: BoundType, v1: real, v2: real) {
    if bound == Left || bound == Down then v1 < v2 else v1 > v2
  }

  /** How far out `v` lies in the direction of `bound`. */
  function Reach(bound: BoundType, v: Vec2): real {
    if bound == Left || bound == Down then -Coord(bound, v) else Coord(bound, v)
  }

  /** `vs[k]` reaches at least as far as every element of `vs`, and strictly
      further than every element before it: the first of the extremes. */
  predicate FirstOutermost(vs: seq<Vec2>, bound: BoundType, k: int) {
    0 <= k < |vs| &&
    (forall j :: 0 <= j < |vs| ==> Reach(bound, vs[j]) <= Reach(bound, vs[k])) &&
    (forall j :: 0 <= j < k ==> Reach(bound, vs[j]) < Reach(bound, vs[k]))
  }

  /** What the scan chooses among: the running answer when one is set, then
      the present sides in slot order. */
  function Candidates(cols: seq<Option<BoxCollider>>, bound: BoundType, ans: Vec2, ansSet: bool): seq<Vec2> {
    (if ansSet then [ans] else []) + PresentBounds(cols, bound)
  }

  /** Ties go to the earliest candidate: the scan returns the first of the
      most extreme candidates. */
  lemma {:induction false} BoundScanFirst(cols: seq<Option<BoxCollider>>, bound: BoundType, ans: Vec2, ansSet: bool)
    ensures |Candidates(cols, bound, ans, ansSet)| > 0 ==>
      exists k :: FirstOutermost(Candidates(cols, bound, ans, ansSet), bound, k) &&
        BoundScan(cols, bound, ans, ansSet) == Candidates(cols, bound, ans, ansSet)[k]
    decreases |cols|, 1
  {
    if |cols| == 0 {
      if ansSet {
        assert FirstOutermost(Candidates(cols, bound, ans, ansSet), bound, 0);
      }
    } else if cols[0].None? {
      assert PresentBounds(cols, bound) == PresentBounds(cols[1..], bound);
      assert Candidates(cols, bound, ans, ansSet) == Candidates(cols[1..], bound, ans, ansSet);
      BoundScanFirst(cols[1..], bound, ans, ansSet);
    } else if !ansSet {
      var b := BoxBoundOffset(cols[0].value, bound);
      assert PresentBounds(cols, bound) == [b] + PresentBounds(cols[1..], bound);
      assert Candidates(cols, bound, ans, ansSet) == Candidates(cols[1..], bound, b, true);
      BoundScanFirst(cols[1..], bound, b, true);
    } else {
      ScanCompareFirst(cols, bound, ans);
      assert Candidates(cols, bound, ans, ansSet) == [ans] + PresentBounds(cols, bound);
    }
  }

  /** The step of `BoundScanFirst` where a present side meets a set answer. */
  lemma {:induction false} ScanCompareFirst(cols: seq<Option<BoxCollider>>, bound: BoundType, ans: Vec2)
    requires |cols| > 0 && cols[0].Some?
    ensures exists k ::
      FirstOutermost([ans] + PresentBounds(cols, bound), bound, k) &&
      BoundScan(cols, bound, ans, true) == ([ans] + PresentBounds(cols, bound))[k]
    decreases |cols|, 0
  {
    var rest := PresentBounds(cols[1..], bound);
    var b := BoxBoundOffset(cols[0].value, bound);
    PresentBoundsCons(cols, bound);
    OuterIsReach(bound, b, ans);
    var nw := if Reach(bound, b) > Reach(bound, ans) then b else ans;
    assert BoundScan(cols, bound, ans, true) == BoundScan(cols[1..], bound, nw, true);
    BoundScanFirst(cols[1..], bound, nw, true);
    ScanStepLift(ans, b, rest, PresentBounds(cols, bound), Candidates(cols[1..], bound, nw, true),
                 BoundScan(cols, bound, ans, true), bound);
  }

  /** `ScanStepFirst` restated over named sequences, so that a caller only
      has to supply the equalities. */
  lemma ScanStepLift(ans: Vec2, b: Vec2, rest: seq<Vec2>, pb: seq<Vec2>, cs: seq<Vec2>, r: Vec2, bound: BoundType)
    requires pb == [b] + rest
    requires cs == [if Reach(bound, b) > Reach(bound, ans) then b else ans] + rest
    requires exists k :: FirstOutermost(cs, bound, k) && r == cs[k]
    ensures exists k :: FirstOutermost([ans] + pb, bound, k) && r == ([ans] + pb)[k]
  {
    var k :| FirstOutermost(cs, bound, k) && r == cs[k];
    var k' := ScanStepFirst(ans, b, rest, bound, k);
    var us := [ans] + pb;
    assert us == [ans, b] + rest;
    assert FirstOutermost(us, bound, k') && r == us[k'];
  }

  /** A present first slot contributes its side at the front. */
  lemma PresentBoundsCons(cols: seq<Option<BoxCollider>>, bound: BoundType)
    requires |cols| > 0 && cols[0].Some?
    ensures PresentBounds(cols, bound) == [BoxBoundOffset(cols[0].value, bound)] + PresentBounds(cols[1..], bound)
  {
  }

  /** The scan's comparison is a comparison of reach. */
  lemma OuterIsReach(bound: BoundType, b: Vec2, ans: Vec2)
    ensures (if Horizontal(bound) then Outer(bound, b.x, ans.x) else Outer(bound, b.y, ans.y)) <==>
      Reach(bound, b) > Reach(bound, ans)
  {
  }

  /** One comparison of the scan: if slot `k` of `[nw] + rest` is its first
      extreme, where `nw` is the further of `ans` and `b` with ties to
      `ans`, the same side is the first extreme of `[ans, b] + rest`. */
  lemma ScanStepFirst(ans: Vec2, b: Vec2, rest: seq<Vec2>, bound: BoundType, k: int) returns (k': int)
    requires FirstOutermost([if Reach(bound, b) > Reach(bound, ans) then b else ans] + rest, bound, k)
    ensures FirstOutermost([ans, b] + rest, bound, k')
    ensures ([ans, b] + rest)[k'] == ([if Reach(bound, b) > Reach(bound, ans) then b else ans] + rest)[k]
  {
    k' := if k > 0 then k + 1 else if Reach(bound, b) > Reach(bound, ans) then 1 else 0;
    var ra, rb := Reach(bound, ans), Reach(bound, b);
    var nw := if rb > ra then b else ans;
    var vs := [nw] + rest;
    var us := [ans, b] + rest;
    var top := Reach(bound, vs[k]);
    assert Reach(bound, vs[0]) <= top;
    assert ra <= top && rb <= top;
    forall j | 2 <= j < |us| ensures us[j] == vs[j - 1] && Reach(bound, us[j]) <= top {
      assert us[j] == rest[j - 2] == vs[j - 1];
    }
    if k > 0 {
      assert Reach(bound, vs[0]) < top;
      assert us[k + 1] == vs[k];
      forall j | 2 <= j < k + 1 ensures Reach(bound, us[j]) < top {
        assert us[j] == vs[j - 1];
      }
    }
  }

  /** `Collider::get_bound_offset`: the envelope side of the composite
      collider, which is the most extreme side of its present sub-boxes, or
      (0, 0) when no sub-box is present. */
  function ColliderBoundOffset(c: Collider, bound: BoundType): (r: Vec2)
    ensures (forall i :: 0 <= i < |c.col| ==> c.col[i].None?) ==> r == Zero
    ensures (exists i :: 0 <= i < |c.col| && c.col[i].Some?) ==> r in PresentBounds(c.col, bound)
    ensures forall i :: 0 <= i < |c.col| && c.col[i].Some? ==>
              Outermost(bound, r, BoxBoundOffset(c.col[i].value, bound))
  {
    BoundScan(c.col, bound, Zero, false)
  }

  /** Ties between sub-boxes go to the lowest slot: the envelope side is the
      first of the most extreme present sides. */
  lemma ColliderBoundFirst(c: Collider, bound: BoundType)
    requires exists i :: 0 <= i < |c.col| && c.col[i].Some?
    ensures exists k ::
      FirstOutermost(PresentBounds(c.col, bound), bound, k) && ColliderBoundOffset(c, bound) == PresentBounds(c.col, bound)[k]
  {
    BoundScanFirst(c.col, bound, Zero, false);
    assert Candidates(c.col, bound, Zero, false) == PresentBounds(c.col, bound);
  }

  /** `Collider::get_bound`: the envelope side in world space. */
  function ColliderGetBound(c: Collider, w: World, e: nat, bound: BoundType): (r: Result<Vec2>)
    requires Live(w, e)
    ensures r.Ok? <==> GetMovable(w, e).Some?
    ensures r.Ok? ==> r.value == Add(GetMovable(w, e).value.pos, ColliderBoundOffset(c, bound))
  {
    var pos :- GetPos(w, e);
    Ok(Add(pos, ColliderBoundOffset(c, bound)))
  }

  /** x of an entity's right envelope edge in world space. */
  function RightEdge(w: World, e: nat): real
    requires Live(w, e) && GetCollider(w, e).Some? && GetMovable(w, e).Some?
  {
    Add(GetMovable(w, e).value.pos, ColliderBoundOffset(GetCollider(w, e).value, Right)).x
  }

  /** Does `c1` collide with some present box of `cols`? */
  predicate AnyWith(c1: BoxCollider, cols: seq<Option<BoxCollider>>, p1: Vec2, p2: Vec2)
    ensures AnyWith(c1, cols, p1, p2) <==>
      exists j :: 0 <= j < |cols| && cols[j].Some? && CheckCollision(c1, cols[j].value, p1, p2)
  {
    if |cols| == 0 then false
    else
      assert forall j :: 1 <= j < |cols| ==> cols[j] == cols[1..][j - 1];
      (cols[0].Some? && CheckCollision(c1, cols[0].value, p1, p2)) || AnyWith(c1, cols[1..], p1, p2)
  }

  /** The nested scan over every pair of present boxes. */
  predicate AnyPair(cols1: seq<Option<BoxCollider>>, cols2: seq<Option<BoxCollider>>, p1: Vec2, p2: Vec2)
    ensures AnyPair(cols1, cols2, p1, p2) <==>
      exists i, j :: 0 <= i < |cols1| && 0 <= j < |cols2| && cols1[i].Some? && cols2[j].Some? &&
        CheckCollision(cols1[i].value, cols2[j].value, p1, p2)
  {
    if |cols1| == 0 then false
    else
      assert forall i :: 1 <= i < |cols1| ==> cols1[i] == cols1[1..][i - 1];
      (cols1[0].Some? && AnyWith(cols1[0].value, cols2, p1, p2)) || AnyPair(cols1[1..], cols2, p1, p2)
  }

  /** `Collider::check_entity_collision`: false when either entity has no
      collider; otherwise true iff some pair of present boxes collides. It
      panics when a collider is present but a `Movable` is not. */
  function CheckEntityCollision(w: World, e1: nat, e2: nat): (r: Result<bool>)
    requires Live(w, e1) && Live(w, e2)
    ensures GetCollider(w, e1).None? || GetCollider(w, e2).None? ==> r == Ok(false)
    ensures GetCollider(w, e1).Some? && GetCollider(w, e2).Some? ==>
      (r.Ok? <==> GetMovable(w, e1).Some? && GetMovable(w, e2).Some?)
    ensures r.Ok? && GetCollider(w, e1).Some? && GetCollider(w, e2).Some? ==>
      (r.value <==>
        exists i, j :: 0 <= i < |GetCollider(w, e1).value.col| && 0 <= j < |GetCollider(w, e2).value.col| &&
          GetCollider(w, e1).value.col[i].Some? && GetCollider(w, e2).value.col[j].Some? &&
          CheckCollision(GetCollider(w, e1).value.col[i].value, GetCollider(w, e2).value.col[j].value,
                         GetMovable(w, e1).value.pos, GetMovable(w, e2).value.pos))
  {
    match GetCollider(w, e1)
    case None => Ok(false)
    case Some(col1) =>
      match GetCollider(w, e2)
      case None => Ok(false)
      case Some(col2) =>
        var pos1 :- GetPos(w, e1);
        var pos2 :- GetPos(w, e2);
        Ok(AnyPair(col1.col, col2.col, pos1, pos2))
  }

  /** Swapping the two entities gives the same answer (and the same panic). */
  lemma CheckEntityCollisionSymmetric(w: World, e1: nat, e2: nat)
    requires Live(w, e1) && Live(w, e2)
    ensures CheckEntityCollision(w, e1, e2) == CheckEntityCollision(w, e2, e1)
  {
    if GetCollider(w, e1).Some? && GetCollider(w, e2).Some? &&
       GetMovable(w, e1).Some? && GetMovable(w, e2).Some? {
      var c1 := GetCollider(w, e1).value.col;
      var c2 := GetCollider(w, e2).value.col;
      var p1 := GetMovable(w, e1).value.pos;
      var p2 := GetMovable(w, e2).value.pos;
      forall i, j | 0 <= i < |c1| && 0 <= j < |c2| && c1[i].Some? && c2[j].Some?
        ensures CheckCollision(c1[i].value, c2[j].value, p1, p2) == CheckCollision(c2[j].value, c1[i].value, p2, p1)
      {
        CheckCollisionProperties(c1[i].value, c2[j].value, p1, p2);
      }
      assert AnyPair(c1, c2, p1, p2) == AnyPair(c2, c1, p2, p1);
    }
  }

  /** A reported hit is a real overlap: when every box has a non-negative
      half-size, `Ok(true)` means some pair of placed boxes shares a point. */
  lemma EntityCollisionSound(w: World, e1: nat, e2: nat)
    requires Live(w, e1) && Live(w, e2)
    requires GetCollider(w, e1).Some? && GetCollider(w, e2).Some?
    requires forall i :: 0 <= i < |GetCollider(w, e1).value.col| && GetCollider(w, e1).value.col[i].Some? ==>
      NonNeg(GetCollider(w, e1).value.col[i].value.halfSize)
    requires forall j :: 0 <= j < |GetCollider(w, e2).value.col| && GetCollider(w, e2).value.col[j].Some? ==>
      NonNeg(GetCollider(w, e2).value.col[j].value.halfSize)
    ensures CheckEntityCollision(w, e1, e2) == Ok(true) ==>
      exists i, j :: 0 <= i < |GetCollider(w, e1).value.col| && 0 <= j < |GetCollider(w, e2).value.col| &&
        GetCollider(w, e1).value.col[i].Some? && GetCollider(w, e2).value.col[j].Some? &&
        Intersect(GetCollider(w, e1).value.col[i].value.halfSize,
                  Add(GetMovable(w, e1).value.pos, GetCollider(w, e1).value.col[i].value.offset),
                  GetCollider(w, e2).value.col[j].value.halfSize,
                  Add(GetMovable(w, e2).value.pos, GetCollider(w, e2).value.col[j].value.offset))
  {
    if CheckEntityCollision(w, e1, e2) == Ok(true) {
      var c1 := GetCollider(w, e1).value.col;
      var c2 := GetCollider(w, e2).value.col;
      var p1 := GetMovable(w, e1).value.pos;
      var p2 := GetMovable(w, e2).value.pos;
      var i, j :| 0 <= i < |c1| && 0 <= j < |c2| && c1[i].Some? && c2[j].Some? &&
        CheckCollision(c1[i].value, c2[j].value, p1, p2);
      CheckCollisionProperties(c1[i].value, c2[j].value, p1, p2);
    }
  }

  /** The unit tests of `bound_test` and `bound_test_2`. */
  lemma BoundOffsetExamples()
    ensures ColliderBoundOffset(NewSingle(WithOffset(NewBox(Vec2(10.0, 10.0)), Vec2(-5.0, 0.0))), Left) == Vec2(-15.0, 0.0)
    ensures ColliderBoundOffset(NewDouble(NewBox(Vec2(5.0, 5.0)), NewBox(Vec2(10.0, 10.0))), Right) == Vec2(10.0, 0.0)
  {
  }
}
