/**
 * Wires (src/Entities/Wire.ts): a polyline entity on layer 0 whose
 * bounding box is the box of its points padded by half the line height,
 * and the snapping of a wire point to the centre of its grid cell.
 */
module Wires {
  import opened Wrappers
  import opened Vectors
  import opened Boxes
  import opened Colliders
  import opened Scene
  import Grid
  import Nodes

  const LINE_HEIGHT: real := 14.0
  /** Wires draw and hit-test below nodes. */
  const WIRE_LAYER: int := 0

  lemma WiresBelowNodes()
    ensures WIRE_LAYER < Nodes.NODE_LAYER
  {
  }

  // ---------------------------------------------------------------------
  // Bounding box of a path

  function Xs(path: seq<Vec>): (r: seq<real>)
    ensures |r| == |path| && forall k :: 0 <= k < |path| ==> r[k] == path[k].x
  {
    seq(|path|, k requires 0 <= k < |path| => path[k].x)
  }

  function Ys(path: seq<Vec>): (r: seq<real>)
    ensures |r| == |path| && forall k :: 0 <= k < |path| ==> r[k] == path[k].y
  {
    seq(|path|, k requires 0 <= k < |path| => path[k].y)
  }

  /** The running maximum `if (m < v) m = v` over a non-empty sequence. */
  function MaxOf(xs: seq<real>): real
    requires |xs| > 0
  {
    if |xs| == 1 then xs[0] else Max(MaxOf(xs[..|xs| - 1]), xs[|xs| - 1])
  }

  /** The running minimum `if (m > v) m = v` over a non-empty sequence. */
  function MinOf(xs: seq<real>): real
    requires |xs| > 0
  {
    if |xs| == 1 then xs[0] else Min(MinOf(xs[..|xs| - 1]), xs[|xs| - 1])
  }

  /** The running maximum is an upper bound that some element attains. */
  lemma {:induction false} MaxOfIsMaximum(xs: seq<real>)
    requires |xs| > 0
    ensures forall k :: 0 <= k < |xs| ==> xs[k] <= MaxOf(xs)
    ensures exists k :: 0 <= k < |xs| && xs[k] == MaxOf(xs)
    decreases |xs|
  {
    if |xs| > 1 {
      var front := xs[..|xs| - 1];
      MaxOfIsMaximum(front);
      assert forall k :: 0 <= k < |front| ==> front[k] == xs[k];
      var j :| 0 <= j < |front| && front[j] == MaxOf(front);
      if MaxOf(xs) != xs[|xs| - 1] {
        assert xs[j] == MaxOf(xs);
      } else {
        assert xs[|xs| - 1] == MaxOf(xs);
      }
    } else {
      assert xs[0] == MaxOf(xs);
    }
  }

  /** The running minimum is a lower bound that some element attains. */
  lemma {:induction false} MinOfIsMinimum(xs: seq<real>)
    requires |xs| > 0
    ensures forall k :: 0 <= k < |xs| ==> MinOf(xs) <= xs[k]
    ensures exists k :: 0 <= k < |xs| && xs[k] == MinOf(xs)
    decreases |xs|
  {
    if |xs| > 1 {
      var front := xs[..|xs| - 1];
      MinOfIsMinimum(front);
      assert forall k :: 0 <= k < |front| ==> front[k] == xs[k];
      var j :| 0 <= j < |front| && front[j] == MinOf(front);
      if MinOf(xs) != xs[|xs| - 1] {
        assert xs[j] == MinOf(xs);
      } else {
        assert xs[|xs| - 1] == MinOf(xs);
      }
    } else {
      assert xs[0] == MinOf(xs);
    }
  }

  /** `updateBounding` of a wire with a non-empty path. */
  function PathBox(path: seq<Vec>): (r: Box)
    requires |path| > 0
    ensures r.width >= LINE_HEIGHT && r.height >= LINE_HEIGHT
  {
    MaxOfIsMaximum(Xs(path));
    MaxOfIsMaximum(Ys(path));
    MinOfIsMinimum(Xs(path));
    MinOfIsMinimum(Ys(path));
    var maxX, maxY := MaxOf(Xs(path)), MaxOf(Ys(path));
    var minX, minY := MinOf(Xs(path)), MinOf(Ys(path));
    var pad := LINE_HEIGHT / 2.0;
    Box(maxX - minX + pad * 2.0, maxY - minY + pad * 2.0, Vec((maxX + minX) / 2.0, (maxY + minY) / 2.0))
  }

  /**
   * The wire's box holds every point of the path at least half a line
   * height from its edges, and is tight: each edge is exactly that far
   * from some point.
   */
  lemma PathBoxPadsPoints(path: seq<Vec>)
    requires |path| > 0
    ensures var b := PathBox(path);
      b.width >= LINE_HEIGHT && b.height >= LINE_HEIGHT &&
      (forall k :: 0 <= k < |path| ==>
         b.Left() + 7.0 <= path[k].x <= b.Right() - 7.0 && b.Top() + 7.0 <= path[k].y <= b.Bottom() - 7.0)
    ensures var b := PathBox(path);
      (exists k :: 0 <= k < |path| && path[k].x == b.Left() + 7.0) &&
      (exists k :: 0 <= k < |path| && path[k].x == b.Right() - 7.0) &&
      (exists k :: 0 <= k < |path| && path[k].y == b.Top() + 7.0) &&
      (exists k :: 0 <= k < |path| && path[k].y == b.Bottom() - 7.0)
  {
    MaxOfIsMaximum(Xs(path));
    MaxOfIsMaximum(Ys(path));
    MinOfIsMinimum(Xs(path));
    MinOfIsMinimum(Ys(path));
    var k :| 0 <= k < |path| && Xs(path)[k] == MaxOf(Xs(path));
    assert Xs(path)[0] <= MaxOf(Xs(path)) && MinOf(Xs(path)) <= Xs(path)[0];
    assert Ys(path)[0] <= MaxOf(Ys(path)) && MinOf(Ys(path)) <= Ys(path)[0];
  }

  /** A one-point wire has a 14 x 14 box centred on the point. */
  lemma SinglePointBox(p: Vec)
    ensures PathBox([p]) == Box(14.0, 14.0, p)
  {
  }

  lemma PrefixLast<T>(s: seq<T>, i: nat)
    requires 0 < i < |s|
    ensures s[..i + 1][..i] == s[..i] && s[..i + 1][i] == s[i]
  {
  }

  /**
   * The loop of `updateBounding`. The extremes start at the first point:
   * the source starts them at -Infinity and Infinity, which the first
   * point always replaces.
   */
  method WireBounds(path: seq<Vec>) returns (b: Box)
    requires |path| > 0
    ensures b == PathBox(path)
  {
    var xs, ys := Xs(path), Ys(path);
    var maxX, maxY, minX, minY := path[0].x, path[0].y, path[0].x, path[0].y;
    assert xs[..1] == [xs[0]] && ys[..1] == [ys[0]];
    var i := 1;
    while i < |path|
      invariant 1 <= i <= |path|
      invariant maxX == MaxOf(xs[..i]) && minX == MinOf(xs[..i])
      invariant maxY == MaxOf(ys[..i]) && minY == MinOf(ys[..i])
    {
      var p := path[i];
      PrefixLast(xs, i);
      PrefixLast(ys, i);
      if maxX < p.x { maxX := p.x; }
      if maxY < p.y { maxY := p.y; }
      if minX > p.x { minX := p.x; }
      if minY > p.y { minY := p.y; }
      i := i + 1;
    }
    assert xs[..i] == xs && ys[..i] == ys;
    var pad := LINE_HEIGHT / 2.0;
    b := Box(maxX - minX + pad * 2.0, maxY - minY + pad * 2.0, Vec((maxX + minX) / 2.0, (maxY + minY) / 2.0));
  }

  // ---------------------------------------------------------------------
  // Snapping a wire point

  /** The centre of the grid cell holding `v`. */
  function CellCentre(v: real): real {
    Grid.SnapCoord(v) + Nodes.CELL_SIZE / 2.0
  }

  /** A wire point lands on a cell centre at most half a cell away; snapping again keeps it. */
  lemma CellCentreProperties(v: real)
    ensures Grid.OnGrid(CellCentre(v) - 25.0)
    ensures CellCentre(v) - 25.0 <= v < CellCentre(v) + 25.0
    ensures CellCentre(CellCentre(v)) == CellCentre(v)
  {
    Grid.SnapCoordBounds(v);
    var c := Grid.SnapCoord(v);
    Grid.SnapCoordUnique(c + 25.0, c);
  }

  /**
   * Placing a node of odd span (snap, then the half-cell offset) puts its
   * centre on a cell centre, where wire points land.
   */
  lemma OddSpanNodesCentreOnCells(v: real, span: int)
    requires span > 0 && span % 2 == 1
    ensures Grid.SnapCoord(v) + Nodes.HalfCellIfOdd(span) == CellCentre(v)
  {
    Nodes.HalfCellIfOddIff(span);
  }

  /**
   * A number as JavaScript arithmetic sees it, enough to follow the
   * as-written `adjustPos`: a finite value or NaN. Infinities are not needed.
   */
  datatype JsNumber = Num(r: real) | NaN

  function JsAdd(a: JsNumber, b: JsNumber): JsNumber {
    if a.NaN? || b.NaN? then NaN else Num(a.r + b.r)
  }

  function JsMul(a: JsNumber, b: JsNumber): JsNumber {
    if a.NaN? || b.NaN? then NaN else Num(a.r * b.r)
  }

  /** Division by a non-zero number or by NaN (division by zero gives infinities, not modelled). */
  function JsDiv(a: JsNumber, b: JsNumber): JsNumber
    requires b.Num? ==> b.r != 0.0
  {
    if a.NaN? || b.NaN? then NaN else Num(a.r / b.r)
  }

  function JsFloor(a: JsNumber): JsNumber {
    if a.NaN? then NaN else Num(a.r.Floor as real)
  }

  /**
   * `GridManager.CELL_SIZE` as the source reads it: the class declares no
   * such member, so the read gives `undefined`, and arithmetic converts
   * `undefined` to NaN.
   */
  const GRID_CELL_SIZE_AS_READ: JsNumber := NaN

  /** The body of `Wire.adjustPos` with cell size `s`, on one coordinate. */
  function AdjustCoordWith(v: real, s: JsNumber): JsNumber
    requires s.Num? ==> s.r != 0.0
  {
    JsAdd(JsMul(JsFloor(JsDiv(Num(v), s)), s), JsDiv(s, Num(2.0)))
  }

  /** As written, `Wire.adjustPos` sets both coordinates of every point to NaN. */
  lemma AdjustPosAsWrittenIsNaN(p: Vec)
    ensures AdjustCoordWith(p.x, GRID_CELL_SIZE_AS_READ) == NaN
    ensures AdjustCoordWith(p.y, GRID_CELL_SIZE_AS_READ) == NaN
  {
  }

  /** With the node cell size the same formula yields the cell centre. */
  lemma AdjustPosWithCellSize(v: real)
    ensures AdjustCoordWith(v, Num(Nodes.CELL_SIZE)) == Num(CellCentre(v))
  {
  }

  class Wire {
    const id: nat
    var path: seq<Vec>

    /** `new Wire(path)`: an entity on layer 0. */
    constructor (tree: SceneTree, path0: seq<Vec>)
      modifies tree
      requires tree.Valid()
      ensures tree.Valid()
      ensures id == |old(tree.ents)| && tree.ents == old(tree.ents) + [NewState(WIRE_LAYER)]
      ensures path == path0
    {
      var e := tree.NewEntity(WIRE_LAYER);
      id := e;
      path := path0;
    }

    /** `init`: a line collider over the path, 14 wide. */
    method Init(tree: SceneTree)
      modifies tree
      requires tree.Valid() && id < |tree.ents|
      ensures tree.Valid() && SameLinks(old(tree.ents), tree.ents)
      ensures tree.ents == old(tree.ents)[id := old(tree.ents[id]).(collider := Some(Polyline(path, LINE_HEIGHT)))]
    {
      tree.SetCollider(id, Polyline(path, LINE_HEIGHT));
    }

    /** `_updateLayout` with the wire's `updateBounding`, for a non-empty path. */
    method UpdateLayout(tree: SceneTree)
      modifies tree
      requires tree.Valid() && id < |tree.ents| && |path| > 0
      ensures tree.Valid() && SameLinks(old(tree.ents), tree.ents) && !tree.ents[id].dirty
      ensures old(tree.ents[id].dirty) ==>
        tree.ents == old(tree.ents)[id := old(tree.ents[id]).(bounding := PathBox(path), dirty := false)]
      ensures !old(tree.ents[id].dirty) ==> tree.ents == old(tree.ents)
    {
      if tree.ents[id].dirty {
        var b := WireBounds(path);
        tree.StoreLayout(id, b);
      }
    }

    /** `Wire.adjustPos(p)` with the node cell size: `p` moves to the centre of its cell. */
    static method AdjustPos(p: Vector2D)
      modifies p
      ensures p.Value() == Vec(CellCentre(old(p.x)), CellCentre(old(p.y)))
    {
      var cellSize := Nodes.CELL_SIZE;
      p.y := (p.y / cellSize).Floor as real * cellSize;
      p.x := (p.x / cellSize).Floor as real * cellSize;
      p.x := p.x + cellSize / 2.0;
      p.y := p.y + cellSize / 2.0;
    }
  }
}
