/**
 * Gate nodes on the editor grid (src/Entities/NodeEntity.ts): size
 * arithmetic derived from the spans, the half-cell offset of odd spans,
 * connector pins on the four sides, the hit classification of a point,
 * and the registry of wire anchors refreshed when the node is dirty.
 *
 * A node is an entity of the scene arena (`id`); the class holds the
 * fields the subclass adds. Positions live in the arena.
 */
module Nodes {
  import opened Wrappers
  import opened Vectors
  import opened Boxes
  import opened Colliders
  import opened Scene

  const CELL_SIZE: real := 50.0
  const CONNECTION_WIDTH: real := CELL_SIZE / 2.0
  const CONNECTION_HEIGHT: real := CELL_SIZE / 4.0
  /** Nodes draw and hit-test above wires (layer 0). */
  const NODE_LAYER: int := 1

  datatype Direction = Left | Top | Right | Bottom

  datatype Connector = Connector(name: string, direction: Direction, idx: int)

  /** The size fields of a node and its connector table. */
  datatype NodeShape = NodeShape(
    colSpan: int,
    rowSpan: int,
    nodeWidth: real,
    nodeHeight: real,
    width: real,
    height: real,
    connectors: seq<Connector>)

  /**
   * JavaScript `a % 2`: the remainder takes the sign of `a`, so it is -1
   * for negative odd numbers.
   */
  function JsRem2(a: int): (r: int)
    ensures r == 0 <==> a % 2 == 0
    ensures r == 1 <==> a > 0 && a % 2 == 1
    ensures r == -1 <==> a < 0 && a % 2 == 1
  {
    if a >= 0 then a % 2 else -((-a) % 2)
  }

  /** `span % 2 == 1 ? cellSize / 2 : 0`. */
  function HalfCellIfOdd(span: int): real {
    if JsRem2(span) == 1 then CELL_SIZE / 2.0 else 0.0
  }

  /**
   * The half-cell offset applies exactly to positive odd spans: a negative
   * odd span has remainder -1 in JavaScript.
   */
  lemma HalfCellIfOddIff(span: int)
    ensures HalfCellIfOdd(span) == 25.0 <==> span > 0 && span % 2 == 1
    ensures HalfCellIfOdd(span) == 25.0 || HalfCellIfOdd(span) == 0.0
  {
  }

  function SpanOffset(colSpan: int, rowSpan: int): Vec {
    Vec(HalfCellIfOdd(colSpan), HalfCellIfOdd(rowSpan))
  }

  /** The size fields `init` computes from the spans. */
  function InitShape(colSpan: int, rowSpan: int, connectors: seq<Connector>): (s: NodeShape)
    ensures s.nodeWidth == 50.0 * colSpan as real && s.nodeHeight == 50.0 * rowSpan as real
    ensures s.width == s.nodeWidth + 25.0 && s.height == s.nodeHeight + 25.0
    ensures s.colSpan == colSpan && s.rowSpan == rowSpan && s.connectors == connectors
  {
    var nodeHeight := CELL_SIZE * rowSpan as real;
    var nodeWidth := CELL_SIZE * colSpan as real;
    NodeShape(colSpan, rowSpan, nodeWidth, nodeHeight,
              nodeWidth + CONNECTION_HEIGHT * 2.0, nodeHeight + CONNECTION_HEIGHT * 2.0, connectors)
  }

  // ---------------------------------------------------------------------
  // Connector pins

  /** The index of the first connector satisfying `p`, if any. */
  function FirstIndex(cs: seq<Connector>, p: Connector -> bool): (r: Option<nat>)
    ensures r.None? <==> forall k :: 0 <= k < |cs| ==> !p(cs[k])
    ensures r.Some? ==> r.value < |cs| && p(cs[r.value]) && forall j :: 0 <= j < r.value ==> !p(cs[j])
  {
    if cs == [] then None
    else if p(cs[0]) then Some(0)
    else match FirstIndex(cs[1..], p)
      case None => None
      case Some(k) => Some(k + 1)
  }

  /**
   * The pin centre of connector (`d`, `idx`) as the source computes it:
   * left and right pins sit in the left and right bands, stacked by `idx`;
   * a "top" pin is given the y of the bottom band and a "bottom" pin the y
   * of the top band.
   */
  function PinPointAsWritten(s: NodeShape, pos: Vec, d: Direction, idx: int): (r: Vec)
    ensures d == Left || d == Right ==> InPinRect(s, pos, d, idx, r)
  {
    var cW := CONNECTION_WIDTH;
    var cH := CONNECTION_HEIGHT;
    var x := if d == Top || d == Bottom then pos.x - s.width / 2.0 + (idx as real * 2.0 + 1.0) * cW + cW / 2.0
             else if d == Left then pos.x - s.width / 2.0 + cH / 2.0
             else pos.x + s.width / 2.0 - cH / 2.0;
    var y := if d == Left || d == Right then pos.y - s.height / 2.0 + (idx as real * 2.0 + 1.0) * cW + cW / 2.0
             else if d == Top then pos.y + s.height / 2.0 - cH / 2.0
             else pos.y - s.height / 2.0 + cH / 2.0;
    Vec(x, y)
  }

  /** The pin centre with the y of "top" and "bottom" pins in their own bands. */
  function PinPoint(s: NodeShape, pos: Vec, d: Direction, idx: int): Vec {
    var p := PinPointAsWritten(s, pos, d, idx);
    var cH := CONNECTION_HEIGHT;
    if d == Top then Vec(p.x, pos.y - s.height / 2.0 + cH / 2.0)
    else if d == Bottom then Vec(p.x, pos.y + s.height / 2.0 - cH / 2.0)
    else p
  }

  /**
   * The rectangle where the node's image draws the pin, in world
   * coordinates: the image spans width x height around `pos`, and pin
   * `idx` starts 2 * cH + idx * CELL_SIZE along its side.
   */
  predicate InPinRect(s: NodeShape, pos: Vec, d: Direction, idx: int, q: Vec) {
    var lx := q.x - (pos.x - s.width / 2.0);
    var ly := q.y - (pos.y - s.height / 2.0);
    var cW := CONNECTION_WIDTH;
    var cH := CONNECTION_HEIGHT;
    var pin := cH * 2.0 + idx as real * CELL_SIZE;
    match d
    case Left => 0.0 <= lx <= cH && pin <= ly <= pin + cW
    case Right => s.width - cH <= lx <= s.width && pin <= ly <= pin + cW
    case Top => pin <= lx <= pin + cW && 0.0 <= ly <= cH
    case Bottom => pin <= lx <= pin + cW && s.height - cH - 1.0 <= ly <= s.height - 1.0
  }

  /** The fixed formulas of the source, side by side. */
  lemma PinPointAsWrittenFormulas(s: NodeShape, pos: Vec, idx: int)
    ensures PinPointAsWritten(s, pos, Left, idx).x == pos.x - s.width / 2.0 + 6.25
    ensures PinPointAsWritten(s, pos, Right, idx).x == pos.x + s.width / 2.0 - 6.25
    ensures PinPointAsWritten(s, pos, Left, idx).y == pos.y - s.height / 2.0 + 50.0 * idx as real + 37.5
    ensures PinPointAsWritten(s, pos, Right, idx).y == pos.y - s.height / 2.0 + 50.0 * idx as real + 37.5
    ensures PinPointAsWritten(s, pos, Top, idx).x == pos.x - s.width / 2.0 + 50.0 * idx as real + 37.5
    ensures PinPointAsWritten(s, pos, Top, idx).y == pos.y + s.height / 2.0 - 6.25
    ensures PinPointAsWritten(s, pos, Bottom, idx).y == pos.y - s.height / 2.0 + 6.25
  {
  }

  /** Every corrected pin centre lies on the pin the node draws. */
  lemma PinPointInPinRect(s: NodeShape, pos: Vec, d: Direction, idx: int)
    ensures InPinRect(s, pos, d, idx, PinPoint(s, pos, d, idx))
  {
  }

  /**
   * As written, the centre of a "top" pin lies in the bottom band, outside
   * the drawn pin, for any node taller than 1.5 connector heights (every
   * node with rowSpan >= 1 is at least 75 tall).
   */
  lemma TopPinAsWrittenMissesPin(s: NodeShape, pos: Vec, idx: int)
    requires s.height > 18.75
    ensures !InPinRect(s, pos, Top, idx, PinPointAsWritten(s, pos, Top, idx))
    ensures PinPointAsWritten(s, pos, Top, idx).y > pos.y
  {
  }

  /** A 3 x 1 node with a single top connector "T". */
  function TopPinShape(): NodeShape {
    InitShape(3, 1, [Connector("T", Top, 0)])
  }

  /**
   * At the origin, `getConnectoPos("T")` of that node lies below the
   * centre, in the bottom band.
   */
  lemma TopConnectorAsWritten()
    ensures GetConnectoPos(TopPinShape(), Vec(0.0, 0.0), "T") == Some(Vec(-50.0, 31.25))
  {
    assert ByName("T")(TopPinShape().connectors[0]);
  }

  /** A click in that node's top band reports the pin of "T" below the centre. */
  lemma TopClickAsWritten()
    ensures IsInside(TopPinShape(), Vec(0.0, 0.0), Vec(-50.0, -35.0)) == Some(ConnectorHit(-50.0, 31.25, "T"))
  {
    var s := TopPinShape();
    assert s.width == 175.0 && s.height == 75.0 && s.nodeWidth == 150.0 && s.nodeHeight == 50.0;
    GetIdxIff(37.5, 3, 0);
    assert GetIdx(-50.0 + s.width / 2.0, s.colSpan) == Some(0);
    assert MatchesPin(Top, 0)(s.connectors[0]);
  }

  /** The first connector with the given name. */
  function ByName(name: string): Connector -> bool {
    (c: Connector) => c.name == name
  }

  /** `k` is the position of the first connector called `name`. */
  predicate FirstNamed(cs: seq<Connector>, name: string, k: int) {
    0 <= k < |cs| && cs[k].name == name && forall j :: 0 <= j < k ==> cs[j].name != name
  }

  /**
   * `getConnectoPos(name)`: the pin of the first connector with that name,
   * with the source's formulas (top and bottom y as written).
   */
  function GetConnectoPos(s: NodeShape, pos: Vec, name: string): (r: Option<Vec>)
    ensures r.None? <==> forall k :: 0 <= k < |s.connectors| ==> s.connectors[k].name != name
    ensures r.Some? ==> exists k :: FirstNamed(s.connectors, name, k) && r.value == PinPointAsWritten(s, pos, s.connectors[k].direction, s.connectors[k].idx)
  {
    match FirstIndex(s.connectors, ByName(name))
    case None => None
    case Some(k) => Some(PinPointAsWritten(s, pos, s.connectors[k].direction, s.connectors[k].idx))
  }

  /** Left and right pins are where the source puts them; only top and bottom differ. */
  lemma PinPointAgreesOnSides(s: NodeShape, pos: Vec, d: Direction, idx: int)
    ensures PinPoint(s, pos, d, idx) == PinPointAsWritten(s, pos, d, idx) <==> d == Left || d == Right || s.height == CONNECTION_HEIGHT
  {
  }

  // ---------------------------------------------------------------------
  // isInside

  datatype NodeHit = BoxHit(x: real, y: real) | ConnectorHit(x: real, y: real, name: string)

  /**
   * `getIdx`: the coordinate along a side, in connector widths; pins take
   * the odd slots, slot 2k+1 holding pin k for 0 <= k < maxIdx.
   */
  function GetIdx(value: real, maxIdx: int): (r: Option<int>)
    ensures r.Some? ==> 0 <= r.value < maxIdx
  {
    var slot := (value / CONNECTION_WIDTH).Floor;
    if JsRem2(slot) == 0 then None
    else
      var k := (slot - 1) / 2;
      if k < 0 || k >= maxIdx then None else Some(k)
  }

  /** A pin index is found exactly when the coordinate lies in that pin's slot. */
  lemma GetIdxIff(value: real, maxIdx: int, k: int)
    ensures GetIdx(value, maxIdx) == Some(k) <==>
            0 <= k < maxIdx && (2 * k + 1) as real * 25.0 <= value < (2 * k + 2) as real * 25.0
  {
    var slot := (value / CONNECTION_WIDTH).Floor;
    assert slot as real <= value / 25.0 < slot as real + 1.0;
    if 0 <= k < maxIdx && (2 * k + 1) as real * 25.0 <= value < (2 * k + 2) as real * 25.0 {
      assert (2 * k + 1) as real <= value / 25.0 < (2 * k + 2) as real;
      assert slot == 2 * k + 1;
    }
    if GetIdx(value, maxIdx) == Some(k) {
      assert slot == 2 * k + 1;
    }
  }

  function MatchesPin(d: Direction, idx: int): Connector -> bool {
    (c: Connector) => c.idx == idx && c.direction == d
  }

  /**
   * `isInside(p)`: the body when strictly inside the node rectangle;
   * otherwise, in one of the border bands, the connector whose slot holds
   * the point. In a corner both bands apply and the left/right reading
   * wins, but a failed reading in either band means no hit.
   */
  function IsInside(s: NodeShape, pos: Vec, p: Vec): (r: Option<NodeHit>)
    ensures r.Some? && r.value.ConnectorHit? ==> exists k :: 0 <= k < |s.connectors| && s.connectors[k].name == r.value.name
    ensures r.Some? && r.value.BoxHit? ==> !(s.nodeWidth / 2.0 <= AbsR(p.x - pos.x)) && !(s.nodeHeight / 2.0 <= AbsR(p.y - pos.y))
  {
    var v := p.Minus(pos);
    var v1 := v.Abs();
    var horizontal := s.nodeWidth / 2.0 < v1.x && v1.x < s.width / 2.0;
    var vertical := s.nodeHeight / 2.0 < v1.y && v1.y < s.height / 2.0;
    if s.nodeWidth / 2.0 > v1.x && s.nodeHeight / 2.0 > v1.y then Some(BoxHit(pos.x, pos.y))
    else if !horizontal && !vertical then None
    else
      var a := GetIdx(v.x + s.width / 2.0, s.colSpan);
      var b := GetIdx(v.y + s.height / 2.0, s.rowSpan);
      if vertical && a.None? then None
      else if horizontal && b.None? then None
      else
        var d := if horizontal then (if v.x < 0.0 then Left else Right) else (if v.y < 0.0 then Top else Bottom);
        var idx := if horizontal then b.value else a.value;
        match FirstIndex(s.connectors, MatchesPin(d, idx))
        case None => None
        case Some(k) =>
          var q := PinPointAsWritten(s, pos, d, idx);
          Some(ConnectorHit(q.x, q.y, s.connectors[k].name))
  }

  /** The body is reported exactly for points strictly inside the node rectangle. */
  lemma IsInsideBodyIff(s: NodeShape, pos: Vec, p: Vec)
    ensures IsInside(s, pos, p) == Some(BoxHit(pos.x, pos.y)) <==>
            AbsR(p.x - pos.x) < s.nodeWidth / 2.0 && AbsR(p.y - pos.y) < s.nodeHeight / 2.0
    ensures IsInside(s, pos, p).Some? && IsInside(s, pos, p).value.BoxHit? ==>
            IsInside(s, pos, p) == Some(BoxHit(pos.x, pos.y))
  {
  }

  /** Outside the body and both border bands there is no hit. */
  lemma IsInsideOutsideBands(s: NodeShape, pos: Vec, p: Vec)
    requires !(AbsR(p.x - pos.x) < s.nodeWidth / 2.0 && AbsR(p.y - pos.y) < s.nodeHeight / 2.0)
    requires !(s.nodeWidth / 2.0 < AbsR(p.x - pos.x) < s.width / 2.0)
    requires !(s.nodeHeight / 2.0 < AbsR(p.y - pos.y) < s.height / 2.0)
    ensures IsInside(s, pos, p) == None
  {
  }

  /**
   * `c`'s side is the band holding `p`, its index is in range for that side
   * and its slot holds `p`, and `q` is its pin centre.
   */
  predicate HitsConnector(s: NodeShape, pos: Vec, p: Vec, q: Vec, c: Connector) {
    q == PinPointAsWritten(s, pos, c.direction, c.idx) &&
    (c.direction == Top || c.direction == Bottom ==>
       0 <= c.idx < s.colSpan &&
       (2 * c.idx + 1) as real * 25.0 <= p.x - pos.x + s.width / 2.0 < (2 * c.idx + 2) as real * 25.0) &&
    (c.direction == Left || c.direction == Right ==>
       0 <= c.idx < s.rowSpan &&
       (2 * c.idx + 1) as real * 25.0 <= p.y - pos.y + s.height / 2.0 < (2 * c.idx + 2) as real * 25.0) &&
    (c.direction == Top ==> p.y < pos.y) && (c.direction == Bottom ==> p.y >= pos.y) &&
    (c.direction == Left ==> p.x < pos.x) && (c.direction == Right ==> p.x >= pos.x)
  }

  /**
   * A connector hit names a connector of the node whose side is the band
   * holding the point, whose index is in range for that side and whose
   * slot holds the point; the reported point is that pin's centre.
   */
  lemma IsInsideConnector(s: NodeShape, pos: Vec, p: Vec, x: real, y: real, name: string)
    requires IsInside(s, pos, p) == Some(ConnectorHit(x, y, name))
    ensures exists k :: 0 <= k < |s.connectors| && s.connectors[k].name == name &&
              HitsConnector(s, pos, p, Vec(x, y), s.connectors[k])
  {
    var v := p.Minus(pos);
    var horizontal := s.nodeWidth / 2.0 < v.Abs().x && v.Abs().x < s.width / 2.0;
    var a := GetIdx(v.x + s.width / 2.0, s.colSpan);
    var b := GetIdx(v.y + s.height / 2.0, s.rowSpan);
    var d := if horizontal then (if v.x < 0.0 then Left else Right) else (if v.y < 0.0 then Top else Bottom);
    var idx := if horizontal then b.value else a.value;
    var k := FirstIndex(s.connectors, MatchesPin(d, idx)).value;
    var c := s.connectors[k];
    assert MatchesPin(d, idx)(c);
    var q := PinPointAsWritten(s, pos, d, idx);
    assert IsInside(s, pos, p) == Some(ConnectorHit(q.x, q.y, c.name));
    if horizontal {
      GetIdxIff(v.y + s.height / 2.0, s.rowSpan, idx);
    } else {
      GetIdxIff(v.x + s.width / 2.0, s.colSpan, idx);
    }
    assert HitsConnector(s, pos, p, Vec(x, y), c);
  }

  /** `k` is the first connector on side `d` with index `idx`. */
  predicate FirstOnPin(cs: seq<Connector>, d: Direction, idx: int, k: int) {
    0 <= k < |cs| && cs[k].direction == d && cs[k].idx == idx &&
    forall j :: 0 <= j < k ==> !(cs[j].direction == d && cs[j].idx == idx)
  }

  /**
   * A point in the left or right band, outside the top and bottom bands,
   * in the slot of pin `idx`: `isInside` reports the first connector on
   * that side with that index, at its pin centre.
   */
  lemma SideBandHit(s: NodeShape, pos: Vec, p: Vec, idx: int, k: nat)
    requires s.nodeWidth / 2.0 < AbsR(p.x - pos.x) < s.width / 2.0
    requires !(s.nodeHeight / 2.0 < AbsR(p.y - pos.y) < s.height / 2.0)
    requires 0 <= idx < s.rowSpan
    requires (2 * idx + 1) as real * 25.0 <= p.y - pos.y + s.height / 2.0 < (2 * idx + 2) as real * 25.0
    requires FirstOnPin(s.connectors, if p.x < pos.x then Left else Right, idx, k)
    ensures var q := PinPointAsWritten(s, pos, s.connectors[k].direction, idx);
            IsInside(s, pos, p) == Some(ConnectorHit(q.x, q.y, s.connectors[k].name))
  {
    GetIdxIff(p.y - pos.y + s.height / 2.0, s.rowSpan, idx);
    var d := if p.x < pos.x then Left else Right;
    FirstIndexIsFirstOnPin(s.connectors, d, idx, k);
  }

  /**
   * A point in the top or bottom band, outside the left and right bands,
   * in the slot of pin `idx`: `isInside` reports the first connector on
   * that side with that index, at its pin centre as written.
   */
  lemma EdgeBandHit(s: NodeShape, pos: Vec, p: Vec, idx: int, k: nat)
    requires s.nodeHeight / 2.0 < AbsR(p.y - pos.y) < s.height / 2.0
    requires !(s.nodeWidth / 2.0 < AbsR(p.x - pos.x) < s.width / 2.0)
    requires 0 <= idx < s.colSpan
    requires (2 * idx + 1) as real * 25.0 <= p.x - pos.x + s.width / 2.0 < (2 * idx + 2) as real * 25.0
    requires FirstOnPin(s.connectors, if p.y < pos.y then Top else Bottom, idx, k)
    ensures var q := PinPointAsWritten(s, pos, s.connectors[k].direction, idx);
            IsInside(s, pos, p) == Some(ConnectorHit(q.x, q.y, s.connectors[k].name))
  {
    GetIdxIff(p.x - pos.x + s.width / 2.0, s.colSpan, idx);
    var d := if p.y < pos.y then Top else Bottom;
    FirstIndexIsFirstOnPin(s.connectors, d, idx, k);
  }

  lemma FirstIndexIsFirstOnPin(cs: seq<Connector>, d: Direction, idx: int, k: nat)
    requires FirstOnPin(cs, d, idx, k)
    ensures FirstIndex(cs, MatchesPin(d, idx)) == Some(k)
  {
    assert MatchesPin(d, idx)(cs[k]);
  }

  predicate UniqueNames(cs: seq<Connector>) {
    forall i, j :: 0 <= i < j < |cs| ==> cs[i].name != cs[j].name
  }

  /** With unique connector names a connector hit reports `getConnectoPos` of its name. */
  lemma ConnectorHitIsConnectoPos(s: NodeShape, pos: Vec, p: Vec, x: real, y: real, name: string)
    requires UniqueNames(s.connectors)
    requires IsInside(s, pos, p) == Some(ConnectorHit(x, y, name))
    ensures GetConnectoPos(s, pos, name) == Some(Vec(x, y))
  {
    IsInsideConnector(s, pos, p, x, y, name);
    var k :| 0 <= k < |s.connectors| && s.connectors[k].name == name &&
      HitsConnector(s, pos, p, Vec(x, y), s.connectors[k]);
    var j := FirstIndex(s.connectors, ByName(name)).value;
    assert ByName(name)(s.connectors[j]);
  }

  // ---------------------------------------------------------------------
  // Wire anchors

  /** A wire end glued to a connector: its point and the wire entity. */
  datatype Anchor = Anchor(pos: Vec, wire: nat)

  /** The registry's keys, listed once each in insertion order (the order of `for ... in`). */
  predicate RegistryValid(names: seq<string>, m: map<string, seq<Anchor>>) {
    (forall i, j :: 0 <= i < j < |names| ==> names[i] != names[j]) &&
    (forall n :: n in m ==> n in names) && (forall k :: 0 <= k < |names| ==> names[k] in m)
  }

  /** Every anchored wire is an entity of an arena of `n` entities. */
  predicate AnchorsBelow(m: map<string, seq<Anchor>>, n: nat) {
    forall name, k :: name in m && 0 <= k < |m[name]| ==> m[name][k].wire < n
  }

  function WiresOfList(l: seq<Anchor>): (r: seq<nat>)
    ensures |r| == |l| && forall k :: 0 <= k < |l| ==> r[k] == l[k].wire
  {
    seq(|l|, k requires 0 <= k < |l| => l[k].wire)
  }

  /** The wires `onDirty` marks, in the order it marks them. */
  function WiresOf(names: seq<string>, m: map<string, seq<Anchor>>): seq<nat> {
    if names == [] then []
    else
      var last := names[|names| - 1];
      WiresOf(names[..|names| - 1], m) + (if last in m then WiresOfList(m[last]) else [])
  }

  lemma {:induction false} WiresOfBelow(names: seq<string>, m: map<string, seq<Anchor>>, n: nat)
    requires AnchorsBelow(m, n)
    ensures AllBelow(WiresOf(names, m), n)
    decreases |names|
  {
    if names != [] {
      WiresOfBelow(names[..|names| - 1], m, n);
    }
  }

  /**
   * A coordinate field of a vector as JavaScript holds it: a number, the
   * `{x, y}` object `getConnectoPos` returns (or its `undefined`), or
   * `undefined`.
   */
  datatype JsField = Number(r: real) | PinObject(pin: Option<Vec>) | Undefined

  /**
   * `item.pos.set(p)` as written: `set(x, y)` receives the pin object as
   * `x` and nothing as `y`.
   */
  function SetWithPinAsWritten(p: Option<Vec>): (JsField, JsField) {
    (PinObject(p), Undefined)
  }

  /**
   * As written, after `set(p)` neither coordinate of an anchor is a
   * number, whatever the pin: the anchor is never placed on it.
   */
  lemma SetWithPinAsWrittenLeavesNoNumber(p: Option<Vec>)
    ensures !SetWithPinAsWritten(p).0.Number? && !SetWithPinAsWritten(p).1.Number?
    ensures forall v: Vec :: SetWithPinAsWritten(p) != (Number(v.x), Number(v.y))
  {
  }

  /** A list of anchors moved to `p`; unchanged when the name has no connector. */
  function Retarget(l: seq<Anchor>, p: Option<Vec>): (r: seq<Anchor>)
    ensures |r| == |l|
    ensures forall k :: 0 <= k < |l| ==> r[k].wire == l[k].wire
    ensures forall k :: 0 <= k < |l| ==> r[k].pos == if p.Some? then p.value else l[k].pos
  {
    if p.None? then l else seq(|l|, k requires 0 <= k < |l| => l[k].(pos := p.value))
  }

  /** The anchor registry after `onDirty`. */
  function Refreshed(m: map<string, seq<Anchor>>, s: NodeShape, pos: Vec): map<string, seq<Anchor>> {
    map n | n in m :: Retarget(m[n], GetConnectoPos(s, pos, n))
  }

  /** After the refresh every anchor of a connector's name sits on that connector's pin. */
  lemma RefreshedAnchorsOnPins(m: map<string, seq<Anchor>>, s: NodeShape, pos: Vec, name: string, k: nat)
    requires name in m && k < |m[name]|
    requires exists c :: c in s.connectors && c.name == name
    ensures var r := Refreshed(m, s, pos);
      name in r && |r[name]| == |m[name]| &&
      r[name][k] == Anchor(GetConnectoPos(s, pos, name).value, m[name][k].wire)
  {
    var c :| c in s.connectors && c.name == name;
    var i :| 0 <= i < |s.connectors| && s.connectors[i] == c;
  }

  class NodeEntity {
    const id: nat
    var colSpan: int
    var rowSpan: int
    var nodeWidth: real
    var nodeHeight: real
    var width: real
    var height: real
    var connectors: seq<Connector>
    var wireNames: seq<string>
    var wiresPos: map<string, seq<Anchor>>

    predicate Valid() reads this { RegistryValid(wireNames, wiresPos) }

    function Shape(): NodeShape reads this {
      NodeShape(colSpan, rowSpan, nodeWidth, nodeHeight, width, height, connectors)
    }

    /** A node entity with the spans and connectors its gate class sets, at layer 1. */
    constructor (tree: SceneTree, colSpan0: int, rowSpan0: int, connectors0: seq<Connector>)
      modifies tree
      requires tree.Valid()
      ensures tree.Valid() && Valid()
      ensures id == |old(tree.ents)| && tree.ents == old(tree.ents) + [NewState(NODE_LAYER)]
      ensures colSpan == colSpan0 && rowSpan == rowSpan0 && connectors == connectors0
      ensures nodeWidth == 0.0 && nodeHeight == 0.0 && width == 0.0 && height == 0.0
      ensures wireNames == [] && wiresPos == map[]
    {
      var e := tree.NewEntity(NODE_LAYER);
      id := e;
      colSpan, rowSpan, connectors := colSpan0, rowSpan0, connectors0;
      nodeWidth, nodeHeight, width, height := 0.0, 0.0, 0.0, 0.0;
      wireNames, wiresPos := [], map[];
    }

    /** `NodeEntity.adjustPos(node)`: the half-cell offset of odd spans; nothing else changes. */
    static method AdjustPos(node: NodeEntity, tree: SceneTree)
      modifies tree
      requires tree.Valid() && node.id < |tree.ents|
      ensures tree.Valid() && SameLinks(old(tree.ents), tree.ents)
      ensures tree.ents == old(tree.ents)[node.id := old(tree.ents[node.id]).(
                pos := old(tree.ents[node.id].pos).Plus(SpanOffset(node.colSpan, node.rowSpan)))]
    {
      tree.Translate(node.id, SpanOffset(node.colSpan, node.rowSpan));
    }

    /**
     * The geometry part of `init`: the odd-span offset, the sizes, and a box
     * collider around the entity position.
     */
    method Init(tree: SceneTree)
      modifies this, tree
      requires tree.Valid() && id < |tree.ents|
      ensures tree.Valid() && SameLinks(old(tree.ents), tree.ents)
      ensures Shape() == InitShape(old(colSpan), old(rowSpan), old(connectors))
      ensures wireNames == old(wireNames) && wiresPos == old(wiresPos)
      ensures tree.ents == old(tree.ents)[id := old(tree.ents[id]).(
                pos := old(tree.ents[id].pos).Plus(SpanOffset(colSpan, rowSpan)),
                collider := Some(BoxOnPos(width, height)))]
    {
      tree.Translate(id, SpanOffset(colSpan, rowSpan));
      nodeHeight := CELL_SIZE * rowSpan as real;
      nodeWidth := CELL_SIZE * colSpan as real;
      width := nodeWidth + CONNECTION_HEIGHT * 2.0;
      height := nodeHeight + CONNECTION_HEIGHT * 2.0;
      tree.SetCollider(id, BoxOnPos(width, height));
    }

    /**
     * `_updateLayout` with the node's `updateBounding`: when dirty, the
     * bounding box becomes width x height around the entity position.
     */
    method UpdateLayout(tree: SceneTree)
      modifies tree
      requires tree.Valid() && id < |tree.ents|
      ensures tree.Valid() && SameLinks(old(tree.ents), tree.ents) && !tree.ents[id].dirty
      ensures old(tree.ents[id].dirty) ==>
        tree.ents == old(tree.ents)[id := old(tree.ents[id]).(
          bounding := Box(width, height, old(tree.ents[id].pos)), dirty := false)]
      ensures !old(tree.ents[id].dirty) ==> tree.ents == old(tree.ents)
    {
      if tree.ents[id].dirty {
        tree.StoreLayout(id, Box(width, height, tree.ents[id].pos));
      }
    }

    /** `setWirePos(name, pos, wire)`: appends an anchor under `name`, creating its list. */
    method SetWirePos(name: string, wirePos: Vec, wire: nat)
      modifies this
      requires Valid()
      ensures Valid()
      ensures wiresPos == old(wiresPos)[name := (if name in old(wiresPos) then old(wiresPos)[name] else []) + [Anchor(wirePos, wire)]]
      ensures wireNames == if name in old(wiresPos) then old(wireNames) else old(wireNames) + [name]
      ensures Shape() == old(Shape())
    {
      if name !in wiresPos {
        wireNames := wireNames + [name];
        wiresPos := wiresPos[name := []];
      }
      wiresPos := wiresPos[name := wiresPos[name] + [Anchor(wirePos, wire)]];
    }

    /**
     * `onDirty`: every anchor moves to the pin of its connector name, and
     * every anchored wire is marked dirty, name by name in insertion order.
     */
    method OnDirty(tree: SceneTree, ghost rank: seq<nat>)
      modifies this, tree
      requires Valid() && Inv(tree.ents, rank) && id < |tree.ents|
      requires AnchorsBelow(wiresPos, |tree.ents|)
      ensures Valid() && wireNames == old(wireNames) && Shape() == old(Shape())
      ensures wiresPos == Refreshed(old(wiresPos), Shape(), old(tree.ents[id].pos))
      ensures AllBelow(WiresOf(wireNames, old(wiresPos)), |old(tree.ents)|)
      ensures tree.ents == MarkAll(old(tree.ents), rank, WiresOf(wireNames, old(wiresPos)))
    {
      WiresOfBelow(wireNames, wiresPos, |tree.ents|);
      var ws := RefreshAnchors(tree.ents[id].pos);
      tree.MarkEach(ws, rank);
    }

    /**
     * The anchor part of `onDirty` for a node at `pos`: returns the anchored
     * wires in the order they are to be marked.
     */
    method RefreshAnchors(pos: Vec) returns (ws: seq<nat>)
      modifies this
      requires Valid()
      ensures Valid() && wireNames == old(wireNames) && Shape() == old(Shape())
      ensures wiresPos == Refreshed(old(wiresPos), Shape(), pos)
      ensures ws == WiresOf(wireNames, old(wiresPos))
    {
      var acc;
      acc, ws := RefreshLoop(wireNames, wiresPos, Shape(), pos);
      wiresPos := acc;
    }
  }

  /** The registry with the lists of the first `i` names refreshed. */
  ghost function RefreshedUpTo(names: seq<string>, m0: map<string, seq<Anchor>>, shape: NodeShape, pos: Vec, i: nat)
    : map<string, seq<Anchor>>
    requires i <= |names|
  {
    map n | n in m0 :: if n in names[..i] then Retarget(m0[n], GetConnectoPos(shape, pos, n)) else m0[n]
  }

  /** Refreshing the list of the next name, which is still the original one. */
  lemma RefreshedStep(names: seq<string>, m0: map<string, seq<Anchor>>, shape: NodeShape, pos: Vec, i: nat)
    requires RegistryValid(names, m0) && i < |names|
    ensures var acc := RefreshedUpTo(names, m0, shape, pos, i);
      names[i] in acc && acc[names[i]] == m0[names[i]] &&
      RefreshedUpTo(names, m0, shape, pos, i + 1) == acc[names[i] := Retarget(m0[names[i]], GetConnectoPos(shape, pos, names[i]))]
  {
    var name := names[i];
    assert name !in names[..i];
    PrefixSnoc(names, i);
    var acc := RefreshedUpTo(names, m0, shape, pos, i);
    var acc' := acc[name := Retarget(m0[name], GetConnectoPos(shape, pos, name))];
    var next := RefreshedUpTo(names, m0, shape, pos, i + 1);
    forall n | n in m0 ensures next[n] == acc'[n] {
      if n != name {
        assert n in names[..i + 1] <==> n in names[..i];
      }
    }
  }

  lemma RefreshedNone(names: seq<string>, m0: map<string, seq<Anchor>>, shape: NodeShape, pos: Vec)
    ensures RefreshedUpTo(names, m0, shape, pos, 0) == m0
  {
  }

  lemma RefreshedAll(names: seq<string>, m0: map<string, seq<Anchor>>, shape: NodeShape, pos: Vec)
    requires RegistryValid(names, m0)
    ensures RefreshedUpTo(names, m0, shape, pos, |names|) == Refreshed(m0, shape, pos)
  {
    assert names[..|names|] == names;
  }

  lemma WiresOfSnoc(names: seq<string>, m: map<string, seq<Anchor>>, i: nat)
    requires i < |names| && names[i] in m
    ensures WiresOf(names[..i + 1], m) == WiresOf(names[..i], m) + WiresOfList(m[names[i]])
  {
    PrefixSnoc(names, i);
  }

  /** One name of the loop of `onDirty`: both loop invariants carry over. */
  lemma RefreshTurn(names: seq<string>, m0: map<string, seq<Anchor>>, acc: map<string, seq<Anchor>>,
                    shape: NodeShape, pos: Vec, i: nat, ws: seq<nat>)
    requires RegistryValid(names, m0) && i < |names|
    requires acc == RefreshedUpTo(names, m0, shape, pos, i) && ws == WiresOf(names[..i], m0)
    ensures names[i] in acc
    ensures RefreshedUpTo(names, m0, shape, pos, i + 1) ==
            acc[names[i] := Retarget(acc[names[i]], GetConnectoPos(shape, pos, names[i]))]
    ensures ws + WiresOfList(acc[names[i]]) == WiresOf(names[..i + 1], m0)
  {
    RefreshedStep(names, m0, shape, pos, i);
    WiresOfSnoc(names, m0, i);
  }

  /** The loop of `onDirty` over the registry, on values. */
  method RefreshLoop(names: seq<string>, m0: map<string, seq<Anchor>>, shape: NodeShape, pos: Vec)
    returns (acc: map<string, seq<Anchor>>, ws: seq<nat>)
    requires RegistryValid(names, m0)
    ensures acc == Refreshed(m0, shape, pos)
    ensures ws == WiresOf(names, m0)
  {
    acc := m0;
    ws := [];
    var i := 0;
    RefreshedNone(names, m0, shape, pos);
    while i < |names|
      invariant 0 <= i <= |names|
      invariant acc == RefreshedUpTo(names, m0, shape, pos, i)
      invariant ws == WiresOf(names[..i], m0)
    {
      var name := names[i];
      RefreshTurn(names, m0, acc, shape, pos, i, ws);
      var moved, marked := MoveAnchors(acc[name], GetConnectoPos(shape, pos, name));
      acc := acc[name := moved];
      ws := ws + marked;
      i := i + 1;
    }
    RefreshedAll(names, m0, shape, pos);
    assert names[..i] == names;
  }

  lemma PrefixSnoc<T>(s: seq<T>, i: nat)
    requires i < |s|
    ensures s[..i + 1] == s[..i] + [s[i]] && s[..i + 1][..i] == s[..i]
  {
  }

  /**
   * One name's list in `onDirty`: each anchor moves to `p` (when the name
   * has a connector), and its wire is listed to be marked dirty.
   */
  method MoveAnchors(list: seq<Anchor>, p: Option<Vec>) returns (moved: seq<Anchor>, wires: seq<nat>)
    ensures moved == Retarget(list, p)
    ensures wires == WiresOfList(list)
  {
    var j := 0;
    moved, wires := [], [];
    while j < |list|
      invariant 0 <= j <= |list|
      invariant moved == Retarget(list, p)[..j]
      invariant wires == WiresOfList(list)[..j]
    {
      moved := moved + [if p.Some? then list[j].(pos := p.value) else list[j]];
      wires := wires + [list[j].wire];
      j := j + 1;
    }
  }

  // ---------------------------------------------------------------------
  // The gates' connector tables (src/Entities/gates)

  /** The OR gate: 3 x 3 cells, input A on the left, outputs B and C on the right. */
  function OrShape(): NodeShape {
    InitShape(3, 3, [Connector("A", Left, 1), Connector("B", Right, 0), Connector("C", Right, 2)])
  }

  /** The NOT gate: 3 x 1 cells, input A on the left, output B on the right. */
  function NotShape(): NodeShape {
    InitShape(3, 1, [Connector("A", Left, 0), Connector("B", Right, 0)])
  }

  /** The gates' pins sit on the left and right edges, one cell apart. */
  lemma GatePins()
    ensures NotShape().width == 175.0 && NotShape().height == 75.0
    ensures GetConnectoPos(NotShape(), Vec(0.0, 0.0), "A") == Some(Vec(-81.25, 0.0))
    ensures GetConnectoPos(NotShape(), Vec(0.0, 0.0), "B") == Some(Vec(81.25, 0.0))
    ensures GetConnectoPos(OrShape(), Vec(0.0, 0.0), "A") == Some(Vec(-81.25, 0.0))
    ensures GetConnectoPos(OrShape(), Vec(0.0, 0.0), "C") == Some(Vec(81.25, 50.0))
    ensures GetConnectoPos(OrShape(), Vec(0.0, 0.0), "D") == None
  {
    assert NotShape().connectors[0].name == "A";
    assert NotShape().connectors[1].name == "B";
    assert OrShape().connectors[0].name == "A";
    assert OrShape().connectors[2].name == "C";
    assert OrShape().connectors[0].name != "C" && OrShape().connectors[1].name != "C";
    assert NotShape().connectors[0].name != "B";
    assert forall k :: 0 <= k < 3 ==> OrShape().connectors[k].name != "D";
  }

  /** A click on the NOT gate's left pin hits connector A at its pin centre. */
  lemma NotGateClickOnA()
    ensures IsInside(NotShape(), Vec(0.0, 0.0), Vec(-80.0, 5.0)) == Some(ConnectorHit(-81.25, 0.0, "A"))
    ensures IsInside(NotShape(), Vec(0.0, 0.0), Vec(10.0, -5.0)) == Some(BoxHit(0.0, 0.0))
  {
    GetIdxIff(5.0 + 37.5, 1, 0);
    assert MatchesPin(Left, 0)(NotShape().connectors[0]);
  }
}
