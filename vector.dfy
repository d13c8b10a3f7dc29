/**
 * 2D vectors (src/core/Vector.ts).
 *
 * `Vec` is the value of a vector; `Vector2D` is the mutable object of the
 * source, whose in-place operations are specified through `Value()`.
 * Coordinates are reals: floating-point rounding is not modelled.
 */
module Vectors {

  datatype Vec = Vec(x: real, y: real) {
    function Plus(v: Vec): Vec { Vec(x + v.x, y + v.y) }
    function Minus(v: Vec): Vec { Vec(x - v.x, y - v.y) }
    function Scale(s: real): Vec { Vec(x * s, y * s) }
    /** `divide` skips a zero divisor instead of producing infinities. */
    function DivideBy(s: real): Vec { if s != 0.0 then Vec(x / s, y / s) else this }
    function Dot(v: Vec): real { x * v.x + y * v.y }
    function Cross(v: Vec): real { x * v.y - y * v.x }
    /** Left normal (-y, x). */
    function Normal(): Vec { Vec(-y, x) }
    /** Right normal (y, -x). */
    function NormalRight(): Vec { Vec(y, -x) }
    function Neg(): Vec { Vec(-x, -y) }
    function Abs(): Vec { Vec(AbsR(x), AbsR(y)) }
  }

  function AbsR(r: real): real { if r < 0.0 then -r else r }

  class Vector2D {
    var x: real
    var y: real

    function Value(): Vec reads this { Vec(x, y) }

    /** `new Vector2D(x, y)`. */
    constructor (x0: real, y0: real)
      ensures Value() == Vec(x0, y0)
    {
      x, y := x0, y0;
    }

    /** `new Vector2D(obj)`: copies the coordinates of an object. */
    constructor Of(v: Vec)
      ensures Value() == v
    {
      x, y := v.x, v.y;
    }

    method Clone() returns (c: Vector2D)
      ensures fresh(c) && c.Value() == Value()
    {
      c := new Vector2D(x, y);
    }

    method Set(x0: real, y0: real)
      modifies this
      ensures Value() == Vec(x0, y0)
    {
      x, y := x0, y0;
    }

    method Copy(v: Vector2D)
      modifies this
      ensures Value() == old(v.Value())
    {
      x, y := v.x, v.y;
    }

    method Add(v: Vector2D)
      modifies this
      ensures Value() == old(Value()).Plus(old(v.Value()))
    {
      var vx, vy := v.x, v.y;
      x := x + vx;
      y := y + vy;
    }

    method Subtract(v: Vector2D)
      modifies this
      ensures Value() == old(Value()).Minus(old(v.Value()))
    {
      var vx, vy := v.x, v.y;
      x := x - vx;
      y := y - vy;
    }

    method Multiply(s: real)
      modifies this
      ensures Value() == old(Value()).Scale(s)
    {
      x := x * s;
      y := y * s;
    }

    method Divide(s: real)
      modifies this
      ensures Value() == old(Value()).DivideBy(s)
      ensures s == 0.0 ==> Value() == old(Value())
    {
      if s != 0.0 {
        x := x / s;
        y := y / s;
      }
    }

    method Dot(v: Vector2D) returns (r: real)
      ensures r == Value().Dot(v.Value())
    {
      r := x * v.x + y * v.y;
    }

    method Cross(v: Vector2D) returns (r: real)
      ensures r == Value().Cross(v.Value())
    {
      r := x * v.y - y * v.x;
    }

    method Equals(v: Vector2D) returns (b: bool)
      ensures b <==> Value() == v.Value()
    {
      b := x == v.x && y == v.y;
    }

    method Normal() returns (n: Vector2D)
      ensures fresh(n) && n.Value() == Value().Normal()
    {
      n := new Vector2D(-y, x);
    }

    method NormalRight() returns (n: Vector2D)
      ensures fresh(n) && n.Value() == Value().NormalRight()
    {
      n := new Vector2D(y, -x);
    }

    method Abs() returns (a: Vector2D)
      ensures fresh(a) && a.Value() == Value().Abs()
    {
      a := new Vector2D(AbsR(x), AbsR(y));
    }

    /** Static `Vector2D.add`: a new vector, arguments untouched. */
    static method Sum(v1: Vector2D, v2: Vector2D) returns (r: Vector2D)
      ensures fresh(r) && r.Value() == v1.Value().Plus(v2.Value())
    {
      r := new Vector2D(v1.x + v2.x, v1.y + v2.y);
    }

    /** Static `Vector2D.subtract`: a new vector, arguments untouched. */
    static method Difference(v1: Vector2D, v2: Vector2D) returns (r: Vector2D)
      ensures fresh(r) && r.Value() == v1.Value().Minus(v2.Value())
    {
      r := new Vector2D(v1.x - v2.x, v1.y - v2.y);
    }
  }

  // ---------------------------------------------------------------------
  // Properties of the vector algebra

  lemma AddThenSubtract(u: Vec, v: Vec)
    ensures u.Plus(v).Minus(v) == u
  {
  }

  lemma DivideUndoesMultiply(u: Vec, s: real)
    requires s != 0.0
    ensures u.Scale(s).DivideBy(s) == u
  {
    assert u.x * s / s == u.x;
    assert u.y * s / s == u.y;
  }

  lemma DotSymmetric(u: Vec, v: Vec)
    ensures u.Dot(v) == v.Dot(u)
  {
  }

  lemma CrossAntisymmetric(u: Vec, v: Vec)
    ensures u.Cross(v) == -v.Cross(u)
    ensures u.Cross(u) == 0.0
  {
  }

  lemma NormalIsPerpendicular(u: Vec)
    ensures u.Dot(u.Normal()) == 0.0
    ensures u.Cross(u.Normal()) == u.x * u.x + u.y * u.y
  {
  }

  lemma NormalRightIsNegatedNormal(u: Vec)
    ensures u.NormalRight() == u.Normal().Neg()
  {
  }

  lemma AbsKeepsMagnitudes(u: Vec)
    ensures u.Abs().x >= 0.0 && u.Abs().y >= 0.0
    ensures u.Abs().x == u.x || u.Abs().x == -u.x
    ensures u.Abs().y == u.y || u.Abs().y == -u.y
  {
  }

  /** A clone equals its original, and changing the clone leaves the original alone. */
  method CloneIsIndependent(v: Vector2D, d: Vector2D)
    requires d != v
    modifies {}
    ensures v.Value() == old(v.Value())
  {
    var c := v.Clone();
    var same := c.Equals(v);
    assert same;
    c.Add(d);
  }

  /** `add(v)` then `subtract(v)` restores the coordinates of the receiver. */
  method AddSubtractRestores(u: Vector2D, v: Vector2D)
    requires u != v
    modifies u
    ensures u.Value() == old(u.Value())
  {
    u.Add(v);
    u.Subtract(v);
    AddThenSubtract(old(u.Value()), v.Value());
  }
}
