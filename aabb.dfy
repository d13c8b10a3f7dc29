/**
 * Axis-aligned bounding boxes (src/core/AABB.ts).
 *
 * `Box` is the value of a box: `pos` is its centre and the edges lie half a
 * width/height away from it. `AABB` is the mutable object with
 * `setFromTwoPoints`.
 */
module Boxes {
  import opened Vectors

  datatype Box = Box(width: real, height: real, pos: Vec) {
    /** The edges lie half a width or height from the centre, on either side. */
    function Left(): (r: real)
      ensures width >= 0.0 ==> r <= pos.x
    { pos.x - width / 2.0 }

    function Right(): (r: real)
      ensures width >= 0.0 ==> pos.x <= r
    { pos.x + width / 2.0 }

    function Top(): (r: real)
      ensures height >= 0.0 ==> r <= pos.y
    { pos.y - height / 2.0 }

    function Bottom(): (r: real)
      ensures height >= 0.0 ==> pos.y <= r
    { pos.y + height / 2.0 }

    /** Inclusive point test against the four edges. */
    predicate MouseIsInside(p: Vec)
      ensures MouseIsInside(p) <==> AbsR(p.x - pos.x) <= width / 2.0 && AbsR(p.y - pos.y) <= height / 2.0
    {
      p.x >= Left() && p.x <= Right() && p.y >= Top() && p.y <= Bottom()
    }

    predicate NonNegative() { width >= 0.0 && height >= 0.0 }
  }

  /** Static `AABB.collideAABB`: the boxes overlap or touch. */
  predicate CollideAABB(a: Box, b: Box)
    ensures CollideAABB(a, b) <==>
            AbsR(a.pos.x - b.pos.x) <= (a.width + b.width) / 2.0 && AbsR(a.pos.y - b.pos.y) <= (a.height + b.height) / 2.0
  {
    !(a.Right() < b.Left() || a.Left() > b.Right() || a.Bottom() < b.Top() || a.Top() > b.Bottom())
  }

  /** Static `AABB.insideAABB`: this test reads `pos` as the top-left corner. */
  predicate InsideAABB(box: Box, p: Vec)
    ensures InsideAABB(box, p) ==> box.NonNegative()
    ensures p == box.pos ==> (InsideAABB(box, p) <==> box.NonNegative())
  {
    p.x >= box.pos.x && p.x <= box.pos.x + box.width &&
    p.y >= box.pos.y && p.y <= box.pos.y + box.height
  }

  /** The box `setFromTwoPoints(a, b)` produces. */
  function FromTwoPoints(a: Vec, b: Vec): Box {
    Box(AbsR(a.x - b.x), AbsR(a.y - b.y), Vec((a.x + b.x) / 2.0, (a.y + b.y) / 2.0))
  }

  class AABB {
    var width: real
    var height: real
    var pos: Vector2D

    function Value(): Box reads this, pos { Box(width, height, pos.Value()) }

    constructor (w: real, h: real, p: Vector2D)
      ensures width == w && height == h && pos == p
    {
      width, height, pos := w, h, p;
    }

    /** Overwrites the size and moves the (shared) centre vector in place. */
    method SetFromTwoPoints(a: Vector2D, b: Vector2D)
      modifies this, pos
      ensures pos == old(pos)
      ensures Value() == FromTwoPoints(old(a.Value()), old(b.Value()))
    {
      var cX := (a.x + b.x) / 2.0;
      var cY := (a.y + b.y) / 2.0;
      var w := AbsR(a.x - b.x);
      var h := AbsR(a.y - b.y);
      width := w;
      height := h;
      pos.Set(cX, cY);
    }
  }

  // ---------------------------------------------------------------------
  // Properties

  lemma EdgesOrdered(b: Box)
    requires b.NonNegative()
    ensures b.Left() <= b.Right() && b.Top() <= b.Bottom()
    ensures b.Right() - b.Left() == b.width && b.Bottom() - b.Top() == b.height
  {
  }

  lemma FromTwoPointsShape(a: Vec, b: Vec)
    ensures FromTwoPoints(a, b).NonNegative()
    ensures FromTwoPoints(a, b).width == AbsR(a.x - b.x)
    ensures FromTwoPoints(a, b).height == AbsR(a.y - b.y)
    ensures FromTwoPoints(a, b).pos == Vec((a.x + b.x) / 2.0, (a.y + b.y) / 2.0)
    ensures FromTwoPoints(a, b) == FromTwoPoints(b, a)
  {
  }

  /** Both corner points lie inside the box built from them: the edges are inclusive. */
  lemma FromTwoPointsContainsCorners(a: Vec, b: Vec)
    ensures FromTwoPoints(a, b).MouseIsInside(a)
    ensures FromTwoPoints(a, b).MouseIsInside(b)
  {
  }

  lemma CollideSymmetric(a: Box, b: Box)
    ensures CollideAABB(a, b) <==> CollideAABB(b, a)
  {
  }

  lemma CollideSelf(a: Box)
    requires a.NonNegative()
    ensures CollideAABB(a, a)
  {
  }

  /** A point shared by two boxes witnesses their collision. */
  lemma CommonPointCollides(a: Box, b: Box, p: Vec)
    requires a.MouseIsInside(p) && b.MouseIsInside(p)
    ensures CollideAABB(a, b)
  {
  }

  /** `insideAABB` is `mouseIsInside` on the box moved by half its size. */
  lemma InsideAABBIsShiftedMouseIsInside(box: Box, p: Vec)
    ensures InsideAABB(box, p) <==>
            Box(box.width, box.height, box.pos.Plus(Vec(box.width / 2.0, box.height / 2.0))).MouseIsInside(p)
  {
  }
}
