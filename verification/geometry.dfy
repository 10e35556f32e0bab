/** Axis-aligned box geometry shared by every collider variant of the game.
    A box is given by its centre `c` and half-extent `h`; it is the closed
    rectangle [c.x - h.x, c.x + h.x] x [c.y - h.y, c.y + h.y]. */
module Geometry {
  import opened Vectors

  /** Point containment, inclusive on all four edges. */
  predicate InRect(h: Vec2, c: Vec2, p: Vec2) {
    p.x >= c.x - h.x && p.x <= c.x + h.x &&
    p.y >= c.y - h.y && p.y <= c.y + h.y
  }

  predicate NonNeg(h: Vec2) {
    h.x >= 0.0 && h.y >= 0.0
  }

  /** The four corners, in the source's order: (-,-), (-,+), (+,-), (+,+). */
  function Corners(h: Vec2, c: Vec2): (r: seq<Vec2>)
    ensures |r| == 4
    ensures forall p :: p in r ==> (p.x == c.x - h.x || p.x == c.x + h.x) && (p.y == c.y - h.y || p.y == c.y + h.y)
    ensures forall i :: 0 <= i < 4 ==>
      r[i] == Vec2(if i < 2 then c.x - h.x else c.x + h.x, if i % 2 == 0 then c.y - h.y else c.y + h.y)
  {
    [Vec2(c.x - h.x, c.y - h.y), Vec2(c.x - h.x, c.y + h.y),
     Vec2(c.x + h.x, c.y - h.y), Vec2(c.x + h.x, c.y + h.y)]
  }

  /** A box with positive extent has four different corners: every sign
      combination appears exactly once. */
  lemma CornersDistinct(h: Vec2, c: Vec2)
    requires h.x > 0.0 && h.y > 0.0
    ensures forall i, j :: 0 <= i < j < 4 ==> Corners(h, c)[i] != Corners(h, c)[j]
  {
  }

  /** A box with a non-negative half-extent contains its own corners. */
  lemma CornersInside(h: Vec2, c: Vec2)
    requires NonNeg(h)
    ensures forall p :: p in Corners(h, c) ==> InRect(h, c, p)
  {
  }

  /** The early-exit scan over a list of points: is any of them in the box? */
  predicate AnyIn(ps: seq<Vec2>, h: Vec2, c: Vec2)
    ensures AnyIn(ps, h, c) <==> exists i :: 0 <= i < |ps| && InRect(h, c, ps[i])
  {
    |ps| > 0 && (InRect(h, c, ps[0]) || AnyIn(ps[1..], h, c))
  }

  /** The corner test: some corner of the first box lies in the second one,
      or some corner of the second lies in the first. */
  predicate CornerTest(h1: Vec2, c1: Vec2, h2: Vec2, c2: Vec2) {
    AnyIn(Corners(h1, c1), h2, c2) || AnyIn(Corners(h2, c2), h1, c1)
  }

  /** The Minkowski-sum test: the second centre lies in the first box grown by
      the second box's half-extent. */
  predicate MinkowskiTest(h1: Vec2, c1: Vec2, h2: Vec2, c2: Vec2) {
    InRect(Add(h1, h2), c1, c2)
  }

  /** The two closed rectangles share a point. */
  ghost predicate Intersect(h1: Vec2, c1: Vec2, h2: Vec2, c2: Vec2) {
    exists p :: InRect(h1, c1, p) && InRect(h2, c2, p)
  }

  lemma CornerTestSymmetric(h1: Vec2, c1: Vec2, h2: Vec2, c2: Vec2)
    ensures CornerTest(h1, c1, h2, c2) == CornerTest(h2, c2, h1, c1)
  {
  }

  /** A positive corner test is never a false alarm: the boxes do share a point. */
  lemma CornerTestSound(h1: Vec2, c1: Vec2, h2: Vec2, c2: Vec2)
    requires NonNeg(h1) && NonNeg(h2)
    requires CornerTest(h1, c1, h2, c2)
    ensures Intersect(h1, c1, h2, c2)
  {
    CornersInside(h1, c1);
    CornersInside(h2, c2);
    if AnyIn(Corners(h1, c1), h2, c2) {
      var i :| 0 <= i < 4 && InRect(h2, c2, Corners(h1, c1)[i]);
      var p := Corners(h1, c1)[i];
      assert InRect(h1, c1, p) && InRect(h2, c2, p);
    } else {
      var i :| 0 <= i < 4 && InRect(h1, c1, Corners(h2, c2)[i]);
      var p := Corners(h2, c2)[i];
      assert InRect(h1, c1, p) && InRect(h2, c2, p);
    }
  }

  /** The Minkowski test is exact: it holds exactly when the boxes share a point. */
  lemma MinkowskiExact(h1: Vec2, c1: Vec2, h2: Vec2, c2: Vec2)
    requires NonNeg(h1) && NonNeg(h2)
    ensures MinkowskiTest(h1, c1, h2, c2) <==> Intersect(h1, c1, h2, c2)
  {
    if MinkowskiTest(h1, c1, h2, c2) {
      var px := if c1.x - h1.x >= c2.x - h2.x then c1.x - h1.x else c2.x - h2.x;
      var py := if c1.y - h1.y >= c2.y - h2.y then c1.y - h1.y else c2.y - h2.y;
      var p := Vec2(px, py);
      assert InRect(h1, c1, p) && InRect(h2, c2, p);
    }
    if Intersect(h1, c1, h2, c2) {
      var p :| InRect(h1, c1, p) && InRect(h2, c2, p);
      assert MinkowskiTest(h1, c1, h2, c2);
    }
  }

  /** Hence the corner test is at most as permissive as the exact test. */
  lemma CornerImpliesMinkowski(h1: Vec2, c1: Vec2, h2: Vec2, c2: Vec2)
    requires NonNeg(h1) && NonNeg(h2)
    requires CornerTest(h1, c1, h2, c2)
    ensures MinkowskiTest(h1, c1, h2, c2)
  {
    CornerTestSound(h1, c1, h2, c2);
    MinkowskiExact(h1, c1, h2, c2);
  }

  /** A box lying inside another one is detected (its corners are inside). */
  lemma ContainedIsDetected(h1: Vec2, c1: Vec2, h2: Vec2, c2: Vec2)
    requires NonNeg(h1)
    requires c2.x - h2.x <= c1.x - h1.x && c1.x + h1.x <= c2.x + h2.x
    requires c2.y - h2.y <= c1.y - h1.y && c1.y + h1.y <= c2.y + h2.y
    ensures CornerTest(h1, c1, h2, c2)
  {
    assert InRect(h2, c2, Corners(h1, c1)[0]);
  }

  /** The corner test is not complete: a wide flat box and a tall thin box
      crossing at the origin share a point, yet no corner of either lies in
      the other. */
  lemma CornerTestIncomplete()
    ensures Intersect(Vec2(10.0, 1.0), Zero, Vec2(1.0, 10.0), Zero)
    ensures !CornerTest(Vec2(10.0, 1.0), Zero, Vec2(1.0, 10.0), Zero)
  {
    assert InRect(Vec2(10.0, 1.0), Zero, Zero) && InRect(Vec2(1.0, 10.0), Zero, Zero);
  }
}
