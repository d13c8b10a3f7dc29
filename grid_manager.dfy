/**
 * Snapping to the editor grid (src/editor/GridManager.ts). The cell size
 * is the node cell size, 50.
 */
module Grid {
  import opened Vectors
  import Nodes

  /** `Math.floor(v / s) * s` with s = 50: the grid line at or below `v`. */
  function SnapCoord(v: real): real {
    (v / Nodes.CELL_SIZE).Floor as real * Nodes.CELL_SIZE
  }

  predicate OnGrid(c: real) {
    (c / Nodes.CELL_SIZE).Floor as real * Nodes.CELL_SIZE == c
  }

  /** The snapped coordinate is a grid line, at most one cell below `v`. */
  lemma SnapCoordBounds(v: real)
    ensures OnGrid(SnapCoord(v))
    ensures SnapCoord(v) <= v < SnapCoord(v) + 50.0
  {
    var k := (v / 50.0).Floor;
    assert k as real <= v / 50.0 < k as real + 1.0;
    assert SnapCoord(v) / 50.0 == k as real;
  }

  /** The grid line at or below `v` is unique: any such line is the snap. */
  lemma SnapCoordUnique(v: real, c: real)
    requires OnGrid(c) && c <= v < c + 50.0
    ensures SnapCoord(v) == c
  {
    var k := (c / 50.0).Floor;
    var f := (v / 50.0).Floor;
    assert c == k as real * 50.0;
    assert k as real <= v / 50.0 < k as real + 1.0;
    assert f as real <= v / 50.0 < f as real + 1.0;
    assert k as real < (f + 1) as real && f as real < (k + 1) as real;
    assert f == k;
  }

  /** Snapping twice is snapping once. */
  lemma SnapCoordIdempotent(v: real)
    ensures SnapCoord(SnapCoord(v)) == SnapCoord(v)
  {
    SnapCoordBounds(v);
    SnapCoordUnique(SnapCoord(v), SnapCoord(v));
  }

  /** `GridManager.snap(p)`: both coordinates move down to their grid lines. */
  method Snap(p: Vector2D)
    modifies p
    ensures p.Value() == Vec(SnapCoord(old(p.x)), SnapCoord(old(p.y)))
  {
    var s := Nodes.CELL_SIZE;
    p.x := (p.x / s).Floor as real * s;
    p.y := (p.y / s).Floor as real * s;
  }
}
