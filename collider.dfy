/**
 * Precise hit tests (src/core/Collider.ts): a box collider and a polyline
 * collider. Rotated boxes are not modelled: `BoxCollider.MouseIsInside`
 * is specified for angle 0, the only angle any caller passes.
 */
module Colliders {
  import opened Vectors
  import opened Wrappers

  /** Box test in box-local coordinates, inclusive on all four sides. */
  predicate BoxContains(center: Vec, halfW: real, halfH: real, p: Vec) {
    var v := p.Minus(center);
    -halfW <= v.x && v.x <= halfW && -halfH <= v.y && v.y <= halfH
  }

  function Clamp01(t: real): real { if t < 0.0 then 0.0 else if t > 1.0 then 1.0 else t }

  /**
   * One segment of the polyline test. For a zero-length segment the source
   * computes 0/0 = NaN, and every comparison with NaN is false, so such a
   * segment never matches.
   */
  predicate SegmentHit(a: Vec, b: Vec, p: Vec, r2: real)
    ensures SegmentHit(a, b, p, r2) ==> a != b && r2 >= 0.0
  {
    var v := b.Minus(a);
    var w := p.Minus(a);
    var c2 := v.Dot(v);
    c2 != 0.0 &&
    var t := Clamp01(w.Dot(v) / c2);
    var d := p.Minus(a.Plus(v.Scale(t)));
    d.Dot(d) <= r2
  }

  /** Some segment of `path` passes within `height / 2` of `p`. */
  predicate LineContains(path: seq<Vec>, height: real, p: Vec)
    ensures LineContains(path, height, p) ==> exists i :: 0 <= i < |path| - 1 && path[i] != path[i + 1]
  {
    var r := height * 0.5;
    exists i :: 0 <= i < |path| - 1 && SegmentHit(path[i], path[i + 1], p, r * r)
  }

  /**
   * What an entity's collider is, as the scene sees it. A node's box
   * collider is built around the node's own `pos` vector (the object, not a
   * copy), so its centre is always the entity position: `BoxOnPos` records
   * just its size.
   */
  datatype ColliderShape = BoxOnPos(width: real, height: real) | Polyline(path: seq<Vec>, lineHeight: real)

  predicate ShapeContains(s: ColliderShape, entityPos: Vec, p: Vec) {
    match s
    case BoxOnPos(w, h) => BoxContains(entityPos, w / 2.0, h / 2.0, p)
    case Polyline(path, lh) => LineContains(path, lh, p)
  }

  class BoxCollider {
    var width: real
    var height: real
    var center: Vector2D
    var angle: real
    var halfW: real
    var halfH: real

    ghost predicate Consistent() reads this {
      halfW == width / 2.0 && halfH == height / 2.0
    }

    /** Keeps the given vector as its centre (shared, not copied). */
    constructor (w: real, h: real, c: Vector2D, a: real)
      ensures Consistent()
      ensures width == w && height == h && center == c && angle == a
    {
      width, height, center, angle := w, h, c, a;
      halfW := w / 2.0;
      halfH := h / 2.0;
    }

    /** Copies `pos` into the existing centre vector: the centre stays its own object. */
    method UpdateData(w: real, h: real, pos: Vector2D, a: real)
      modifies this, center
      ensures Consistent()
      ensures width == w && height == h && angle == a
      ensures center == old(center) && center.Value() == old(pos.Value())
    {
      width := w;
      height := h;
      center.Copy(pos);
      angle := a;
      halfW := w / 2.0;
      halfH := h / 2.0;
    }

    method MouseIsInside(p: Vector2D) returns (b: bool)
      requires angle == 0.0
      ensures b <==> BoxContains(center.Value(), halfW, halfH, p.Value())
    {
      // p.clone().subtract(center).rotate(0)
      var vx := p.x - center.x;
      var vy := p.y - center.y;
      b := -halfW <= vx && vx <= halfW && -halfH <= vy && vy <= halfH;
    }
  }

  /** `updateData`'s optional height: changed only when present and non-zero (truthy). */
  function NewLineHeight(old_h: real, h: Option<real>): real {
    if h.Some? && h.value != 0.0 then h.value else old_h
  }

  class LineCollider {
    var path: seq<Vec>
    var height: real

    constructor (pth: seq<Vec>, h: real)
      ensures path == pth && height == h
    {
      path, height := pth, h;
    }

    method UpdateData(pth: seq<Vec>, h: Option<real>)
      modifies this
      ensures path == pth
      ensures height == NewLineHeight(old(height), h)
    {
      path := pth;
      if h.Some? && h.value != 0.0 {
        height := h.value;
      }
    }

    method MouseIsInside(pos: Vec) returns (b: bool)
      ensures b <==> LineContains(path, height, pos)
    {
      var r := height * 0.5;
      var r2 := r * r;
      var i := 0;
      while i < |path| - 1
        invariant 0 <= i <= if |path| == 0 then 0 else |path| - 1
        invariant forall j :: 0 <= j < i ==> !SegmentHit(path[j], path[j + 1], pos, r2)
      {
        var hit := SegmentTest(path[i], path[i + 1], pos, r2);
        if hit {
          return true;
        }
        i := i + 1;
      }
      return false;
    }
  }

  /** The body of the polyline loop for the segment from `a` to `c`. */
  method SegmentTest(a: Vec, c: Vec, pos: Vec, r2: real) returns (hit: bool)
    ensures hit <==> SegmentHit(a, c, pos, r2)
  {
    var vx := c.x - a.x;
    var vy := c.y - a.y;
    var wx := pos.x - a.x;
    var wy := pos.y - a.y;
    var c1 := wx * vx + wy * vy;
    var c2 := vx * vx + vy * vy;
    assert c1 == pos.Minus(a).Dot(c.Minus(a)) && c2 == c.Minus(a).Dot(c.Minus(a));
    if c2 == 0.0 {
      // t = 0/0 is NaN: no comparison with it holds
      return false;
    }
    var t := c1 / c2;
    ghost var t0 := t;
    if t < 0.0 { t := 0.0; } else if t > 1.0 { t := 1.0; }
    assert t == Clamp01(t0);
    var projx := a.x + t * vx;
    var projy := a.y + t * vy;
    assert Vec(projx, projy) == a.Plus(c.Minus(a).Scale(t));
    var dx := pos.x - projx;
    var dy := pos.y - projy;
    hit := dx * dx + dy * dy <= r2;
  }

  // ---------------------------------------------------------------------
  // Properties

  lemma BoxContainsIsDistanceTest(center: Vec, halfW: real, halfH: real, p: Vec)
    ensures BoxContains(center, halfW, halfH, p) <==>
            AbsR(p.x - center.x) <= halfW && AbsR(p.y - center.y) <= halfH
  {
  }

  lemma BoxContainsCentre(center: Vec, halfW: real, halfH: real)
    requires halfW >= 0.0 && halfH >= 0.0
    ensures BoxContains(center, halfW, halfH, center)
  {
  }

  lemma ShortPathContainsNothing(path: seq<Vec>, height: real, p: Vec)
    requires |path| < 2
    ensures !LineContains(path, height, p)
  {
  }

  lemma ZeroLengthSegmentNeverHits(a: Vec, p: Vec, r2: real)
    ensures !SegmentHit(a, a, p, r2)
  {
  }

  /**
   * A segment whose squared length is not zero; over the reals this is
   * exactly a segment whose endpoints differ.
   */
  predicate NonDegenerate(a: Vec, b: Vec) {
    b.Minus(a).Dot(b.Minus(a)) != 0.0
  }

  /** Both endpoints of a segment of non-zero length test inside it. */
  lemma SegmentStartHits(a: Vec, b: Vec, r2: real)
    requires NonDegenerate(a, b) && r2 >= 0.0
    ensures SegmentHit(a, b, a, r2)
  {
    var v := b.Minus(a);
    var c2 := v.Dot(v);
    assert a.Minus(a) == Vec(0.0, 0.0);
    assert a.Minus(a).Dot(v) == 0.0;
    assert 0.0 / c2 == 0.0;
    assert v.Scale(0.0) == Vec(0.0, 0.0);
    assert a.Plus(v.Scale(0.0)) == a;
    assert a.Minus(a).Dot(a.Minus(a)) == 0.0;
  }

  lemma SegmentEndHits(a: Vec, b: Vec, r2: real)
    requires NonDegenerate(a, b) && r2 >= 0.0
    ensures SegmentHit(a, b, b, r2)
  {
    var v := b.Minus(a);
    var c2 := v.Dot(v);
    assert c2 / c2 == 1.0;
    assert v.Scale(1.0) == v;
    assert a.Plus(v) == b;
    assert b.Minus(b) == Vec(0.0, 0.0);
    assert b.Minus(b).Dot(b.Minus(b)) == 0.0;
  }

  lemma SquareNonNegative(r: real)
    ensures r * r >= 0.0
    ensures r != 0.0 ==> r * r > 0.0
  {
    if r < 0.0 {
      assert r * r == (-r) * (-r);
    }
  }

  /** Both ends of every non-degenerate segment of a polyline hit it. */
  lemma SegmentStartInsideLine(path: seq<Vec>, height: real, i: nat)
    requires i + 1 < |path| && NonDegenerate(path[i], path[i + 1])
    ensures LineContains(path, height, path[i])
  {
    ghost var r := height * 0.5;
    SquareNonNegative(r);
    SegmentStartHits(path[i], path[i + 1], r * r);
  }

  lemma SegmentEndInsideLine(path: seq<Vec>, height: real, i: nat)
    requires i + 1 < |path| && NonDegenerate(path[i], path[i + 1])
    ensures LineContains(path, height, path[i + 1])
  {
    ghost var r := height * 0.5;
    SquareNonNegative(r);
    SegmentEndHits(path[i], path[i + 1], r * r);
  }
}
