/**
 * Grid helpers of the editor (src/editor/utils.ts): the key under which the
 * router stores a grid cell, and the "fast" floor.
 *
 * JavaScript's bit operators first convert their operands to signed 32-bit
 * integers (ToInt32) and produce a signed 32-bit result; both are written
 * out here on unbounded integers.
 */
module EditorUtils {

  const TWO_16: int := 0x1_0000
  const TWO_31: int := 0x8000_0000
  const TWO_32: int := 0x1_0000_0000

  /** ECMAScript ToInt32 on an integer: wrap modulo 2^32 into [-2^31, 2^31). */
  function ToInt32(n: int): (r: int)
    ensures -TWO_31 <= r < TWO_31
    ensures (r - n) % TWO_32 == 0
  {
    var m := n % TWO_32;
    if m >= TWO_31 then m - TWO_32 else m
  }

  /**
   * `v & 0xffff` keeps the low 16 bits of the two's-complement encoding of
   * ToInt32(v); since 2^16 divides 2^32 that is v modulo 2^16.
   */
  function Low16(v: int): int { v % TWO_16 }

  /**
   * hashPos(x, y) = ((x & 0xffff) << 16) | (y & 0xffff). The shifted field
   * occupies bits 16..31 and the other bits 0..15, so the OR is their sum,
   * and the shift's result is read back as a signed 32-bit integer.
   */
  function HashPos(x: int, y: int): (r: int)
    ensures -TWO_31 <= r < TWO_31
    ensures r % TWO_16 == Low16(y)
  {
    ToInt32(Low16(x) * TWO_16 + Low16(y))
  }

  /** The low 16 bits of each coordinate, read back from a key. */
  function UnhashPos(h: int): (int, int) {
    ((h / TWO_16) % TWO_16, h % TWO_16)
  }

  lemma HashPosRange(x: int, y: int)
    ensures -TWO_31 <= HashPos(x, y) < TWO_31
  {
  }

  /** A key gives back the low 16 bits of both coordinates. */
  lemma UnhashHashPos(x: int, y: int)
    ensures UnhashPos(HashPos(x, y)) == (Low16(x), Low16(y))
  {
    var n := Low16(x) * TWO_16 + Low16(y);
    assert 0 <= n < TWO_32;
    if n >= TWO_31 {
      var h := n - TWO_32;
      assert h == (Low16(x) - TWO_16) * TWO_16 + Low16(y);
    }
  }

  /** The sign bit of a key is bit 15 of x. */
  lemma HashPosNegativeIff(x: int, y: int)
    ensures HashPos(x, y) < 0 <==> Low16(x) >= TWO_16 / 2
  {
  }

  /** Two cells share a key exactly when their coordinates agree modulo 2^16. */
  lemma HashPosEqualIff(x1: int, y1: int, x2: int, y2: int)
    ensures HashPos(x1, y1) == HashPos(x2, y2) <==> Low16(x1) == Low16(x2) && Low16(y1) == Low16(y2)
  {
    UnhashHashPos(x1, y1);
    UnhashHashPos(x2, y2);
  }

  predicate InInt16(v: int) { -TWO_16 / 2 <= v < TWO_16 / 2 }

  /** On the signed 16-bit range the key is injective. */
  lemma HashPosInjective(x1: int, y1: int, x2: int, y2: int)
    requires InInt16(x1) && InInt16(y1) && InInt16(x2) && InInt16(y2)
    requires HashPos(x1, y1) == HashPos(x2, y2)
    ensures x1 == x2 && y1 == y2
  {
    HashPosEqualIff(x1, y1, x2, y2);
  }

  /** Cells 2^16 apart collide. */
  lemma HashPosCollidesAtPeriod(x: int, y: int)
    ensures HashPos(x + TWO_16, y) == HashPos(x, y)
    ensures HashPos(x, y - TWO_16) == HashPos(x, y)
  {
    HashPosEqualIff(x + TWO_16, y, x, y);
    HashPosEqualIff(x, y - TWO_16, x, y);
  }

  /**
   * fastFloor(x) = x >= 0 ? x | 0 : Math.floor(x). For a non-negative
   * number `x | 0` is ToInt32 of its integer part. NaN and the infinities
   * are not modelled.
   */
  function FastFloor(x: real): (r: int)
    ensures (r - x.Floor) % TWO_32 == 0
    ensures r == x.Floor || x >= TWO_31 as real
  {
    if x >= 0.0 then ToInt32(x.Floor) else x.Floor
  }

  /** Below 2^31 the fast floor is the floor. */
  lemma FastFloorIsFloor(x: real)
    requires x < TWO_31 as real
    ensures FastFloor(x) == x.Floor
    ensures FastFloor(x) as real <= x < FastFloor(x) as real + 1.0
  {
  }

  /** From 2^31 on, `x | 0` wraps around to negative values. */
  lemma FastFloorWrapsAt31()
    ensures FastFloor(TWO_31 as real) == -TWO_31
    ensures FastFloor(TWO_32 as real + 7.5) == 7
  {
  }
}
