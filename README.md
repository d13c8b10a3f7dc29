# GateMaker editor core, modelled in Dafny

GateMaker is a browser editor for logic circuits. Gates are nodes on a
grid, and wires join the gates' connector pins. This project models the
core of the editor and proves properties of that model:

- **Geometry.**
  - `Vectors`: the 2D vector.
  - `Boxes`: the axis-aligned bounding box.
  - `Colliders`: the box and polyline hit tests.
- **Scene tree.** `Scene` holds entities with parent and child links, the
  dirty flag that `markDirty` spreads up the parent chain, the layout
  update, the one-time start hook, the breadth-first `traveler` walk and
  the bounding box of all descendants (`calcBounding`).
- **Gate nodes.** `Nodes` covers the size arithmetic, the half-cell
  offset of odd spans and the connector pins. It also covers the hit
  classification of a point (body, connector or nothing) and the registry
  of wire anchors refreshed by `onDirty`.
- **Wires.** `Wires` covers the padded bounding box of a wire and the
  snapping of a wire point to a cell centre.
- **Editor.**
  - `Grid`: snapping to the grid.
  - `EditorUtils`: the `hashPos` cell key and `fastFloor`.
  - `Router`: the A* wire router with its sorted-array "min-heap", and
    `simplifyPath`.
  - `DragTools`: the drag tool.
  - `Tools`: the tool manager's tool switching and hit resolution
    (`getHits`).
- **Events.** `Events` is the typed event bus, with `on`, `off`, `emit`,
  `once` and `clear`.

Modelling choices:

- **Numbers.** Coordinates are `real`. Integer grid cells are `int`, and
  JavaScript's 32-bit bit operators are written out explicitly. Where the
  source relies on floating-point behaviour (NaN from `0/0` or from
  `undefined`), the model states that behaviour explicitly.
- **Scene arena.** The scene is an arena: an entity is an index into
  `SceneTree.ents`. Walks over parent or child links take a ghost `rank`
  that witnesses what the source assumes without checking: the links are
  acyclic.
- **Mutable objects.**
  - `Vector2D`, `AABB`, `BoxCollider`, `LineCollider`, `MinHeap`,
    `EventEmitter`, `SceneTree`, `NodeEntity`, `Wire` and `ToolManager`
    are classes whose methods change their fields.
  - Pure computations are functions, with lemmas about them.
- **Callers' parameters.**
  - I/O and rendering are not modelled.
  - The grid's `worldToGrid`, `gridToWorld` and `isWalkable` are function
    parameters of `route`.
  - What a listener or a tool does is not modelled. What is modelled is
    the order in which they are called or switched.

## Model

| member | source | states |
|---|---|---|
| Vectors.Vector2D.constructor | src/core/Vector.ts:8-11 | `new Vector2D(x, y)` has exactly those coordinates |
| Vectors.Vector2D.Of | src/core/Vector.ts:5-7 | `new Vector2D(obj)` copies the object's coordinates |
| Vectors.Vector2D.Clone | src/core/Vector.ts:16-18 | a fresh vector with the same coordinates |
| Vectors.Vector2D.Set | src/core/Vector.ts:20-24 | the vector becomes (x, y) |
| Vectors.Vector2D.Copy | src/core/Vector.ts:26-30 | the vector takes the other vector's coordinates |
| Vectors.Vector2D.Add | src/core/Vector.ts:34-38 | in-place sum with the old value of the argument |
| Vectors.Vector2D.Subtract | src/core/Vector.ts:40-44 | in-place difference |
| Vectors.Vector2D.Multiply | src/core/Vector.ts:46-50 | in-place scaling |
| Vectors.Vector2D.Divide | src/core/Vector.ts:52-58 | in-place division; a zero divisor leaves the vector unchanged |
| Vectors.Vector2D.Dot | src/core/Vector.ts:135-137 | the dot product of the two values |
| Vectors.Vector2D.Cross | src/core/Vector.ts:139-141 | the 2D cross product of the two values |
| Vectors.Vector2D.Equals | src/core/Vector.ts:145-147 | true exactly when both coordinates agree |
| Vectors.Vector2D.Normal | src/core/Vector.ts:160-162 | a fresh left normal (-y, x) |
| Vectors.Vector2D.NormalRight | src/core/Vector.ts:167-169 | a fresh right normal (y, -x) |
| Vectors.Vector2D.Abs | src/core/Vector.ts:182-184 | a fresh vector of the absolute coordinates |
| Vectors.Vector2D.Sum | src/core/Vector.ts:188-190 | static `add`: a fresh vector holding the sum |
| Vectors.Vector2D.Difference | src/core/Vector.ts:192-194 | static `subtract`: a fresh vector holding the difference |
| Vectors.AddThenSubtract | src/core/Vector.ts:34-44 | subtracting what was added restores the vector |
| Vectors.DivideUndoesMultiply | src/core/Vector.ts:46-58 | dividing by a non-zero scalar undoes multiplying by it |
| Vectors.DotSymmetric | src/core/Vector.ts:135-137 | the dot product is symmetric |
| Vectors.CrossAntisymmetric | src/core/Vector.ts:139-141 | the cross product is antisymmetric and zero on a vector with itself |
| Vectors.NormalIsPerpendicular | src/core/Vector.ts:156-162 | the normal is perpendicular to the vector; their cross product is the squared length |
| Vectors.NormalRightIsNegatedNormal | src/core/Vector.ts:160-169 | the right normal is the negated left normal |
| Vectors.AbsKeepsMagnitudes | src/core/Vector.ts:182-184 | `abs` gives non-negative coordinates of the same magnitude |
| Vectors.CloneIsIndependent | src/core/Vector.ts:16-18 | a clone starts equal, and changing it leaves the original alone |
| Vectors.AddSubtractRestores | src/core/Vector.ts:34-44 | `add(v)` then `subtract(v)` restores the receiver's coordinates |
| Boxes.AABB.constructor | src/core/AABB.ts:4-8 | keeps the given size and the given position object |
| Boxes.AABB.SetFromTwoPoints | src/core/AABB.ts:23-31 | the size is the absolute differences; the same position object moves to the midpoint |
| Boxes.Box.Left | src/core/AABB.ts:10-12 | for a non-negative width the left edge is at or left of the centre |
| Boxes.Box.Right | src/core/AABB.ts:13-15 | for a non-negative width the right edge is at or right of the centre |
| Boxes.Box.Top | src/core/AABB.ts:16-18 | for a non-negative height the top edge is at or above the centre |
| Boxes.Box.Bottom | src/core/AABB.ts:19-21 | for a non-negative height the bottom edge is at or below the centre |
| Boxes.Box.MouseIsInside | src/core/AABB.ts:33-40 | the point lies within half the width and half the height of the centre, edges included |
| Boxes.CollideAABB | src/core/AABB.ts:47-54 | the boxes collide exactly when their centres are at most half their summed widths and half their summed heights apart |
| Boxes.InsideAABB | src/core/AABB.ts:57-64 | only a box of non-negative size holds a point, and such a box holds its own `pos`, its top-left corner here |
| Boxes.EdgesOrdered | src/core/AABB.ts:10-21 | for a non-negative size, left <= right and top <= bottom, and they are width and height apart |
| Boxes.FromTwoPointsShape | src/core/AABB.ts:23-31 | the box of two points has the absolute differences as its size and the midpoint as its centre, and does not depend on the order of the points |
| Boxes.FromTwoPointsContainsCorners | src/core/AABB.ts:23-40 | both points pass `mouseIsInside` of the box built from them |
| Boxes.CollideSymmetric | src/core/AABB.ts:47-54 | `collideAABB` is symmetric |
| Boxes.CollideSelf | src/core/AABB.ts:47-54 | a box of non-negative size collides with itself |
| Boxes.CommonPointCollides | src/core/AABB.ts:33-54 | two boxes that contain a common point collide |
| Boxes.InsideAABBIsShiftedMouseIsInside | src/core/AABB.ts:57-64 | `insideAABB` reads `pos` as the top-left corner: it is `mouseIsInside` of the box moved by half its size |
| Colliders.BoxCollider.constructor | src/core/Collider.ts:11-19 | keeps the size, the centre object and the angle; the half sizes are half the size |
| Colliders.BoxCollider.UpdateData | src/core/Collider.ts:29-36 | new size and angle; the given position is copied into the same centre object; the half sizes follow |
| Colliders.BoxCollider.MouseIsInside | src/core/Collider.ts:38-46 | at angle 0, true exactly when the point lies within the half sizes of the centre, edges included |
| Colliders.LineCollider.constructor | src/core/Collider.ts:50-53 | keeps the path and the height |
| Colliders.LineCollider.UpdateData | src/core/Collider.ts:66-69 | replaces the path; the height changes only when a non-zero height is given |
| Colliders.LineCollider.MouseIsInside | src/core/Collider.ts:71-100 | true exactly when some segment passes within half the height of the point |
| Colliders.SegmentHit | src/core/Collider.ts:79-96 | a segment hit needs two distinct end points and a non-negative squared radius |
| Colliders.LineContains | src/core/Collider.ts:71-100 | a line hit needs some segment with two distinct end points |
| Colliders.SegmentTest | src/core/Collider.ts:79-96 | one loop step: the projection clamped to the segment, then a squared-distance test; a zero-length segment never hits |
| Colliders.BoxContainsIsDistanceTest | src/core/Collider.ts:38-46 | the box test is the absolute-distance test on each axis |
| Colliders.BoxContainsCentre | src/core/Collider.ts:38-46 | the centre of a box collider is inside it |
| Colliders.ShortPathContainsNothing | src/core/Collider.ts:78-99 | a path of fewer than two points hits nothing |
| Colliders.ZeroLengthSegmentNeverHits | src/core/Collider.ts:87-91 | a zero-length segment never hits (the parameter is NaN) |
| Colliders.SegmentStartHits | src/core/Collider.ts:79-96 | the start of a non-degenerate segment hits it |
| Colliders.SegmentEndHits | src/core/Collider.ts:79-96 | the end of a non-degenerate segment hits it |
| Colliders.SegmentStartInsideLine | src/core/Collider.ts:71-100 | every start point of a non-degenerate segment of the path is inside the line |
| Colliders.SegmentEndInsideLine | src/core/Collider.ts:71-100 | every end point of a non-degenerate segment of the path is inside the line |
| EditorUtils.HashPos | src/editor/utils.ts:2-3 | `hashPos`: a signed 32-bit key whose low 16 bits are y's |
| EditorUtils.FastFloor | src/editor/utils.ts:1 | `fastFloor`: the floor modulo 2^32, and the floor itself unless x >= 2^31 |
| EditorUtils.ToInt32 | src/editor/utils.ts:2-3 | ECMAScript ToInt32: the result is in the signed 32-bit range and congruent to the input modulo 2^32 |
| EditorUtils.UnhashPos | src/editor/utils.ts:2-3 | reads the two 16-bit fields back from a key |
| EditorUtils.HashPosRange | src/editor/utils.ts:2-3 | a key is a signed 32-bit integer |
| EditorUtils.UnhashHashPos | src/editor/utils.ts:2-3 | a key gives back the low 16 bits of both coordinates |
| EditorUtils.HashPosNegativeIff | src/editor/utils.ts:2-3 | a key is negative exactly when bit 15 of x is set |
| EditorUtils.HashPosEqualIff | src/editor/utils.ts:2-3 | two cells share a key exactly when both coordinates agree modulo 2^16 |
| EditorUtils.HashPosInjective | src/editor/utils.ts:2-3 | on the signed 16-bit range, different cells have different keys |
| EditorUtils.HashPosCollidesAtPeriod | src/editor/utils.ts:2-3 | cells 2^16 apart on either axis share a key |
| EditorUtils.FastFloorIsFloor | src/editor/utils.ts:1 | below 2^31, `fastFloor` is the floor |
| EditorUtils.FastFloorWrapsAt31 | src/editor/utils.ts:1 | from 2^31 on, `x \| 0` wraps around (2^31 gives -2^31) |
| Grid.SnapCoordBounds | src/editor/GridManager.ts:5-9 | a snapped coordinate lies on a grid line, at most one cell below the original |
| Grid.SnapCoordUnique | src/editor/GridManager.ts:5-9 | that grid line is unique |
| Grid.SnapCoordIdempotent | src/editor/GridManager.ts:5-9 | snapping twice is snapping once |
| Grid.Snap | src/editor/GridManager.ts:5-9 | `snap(p)` moves both coordinates of `p` down to their grid lines |
| Router.Heuristic | src/editor/WireRouter.ts:31-33 | the Manhattan distance is zero exactly on the goal cell |
| Router.HeuristicTriangle | src/editor/WireRouter.ts:31-33 | the heuristic is symmetric and obeys the triangle inequality |
| Router.AdjacentIsUnitDistance | src/editor/WireRouter.ts:72-82 | a neighbour step is exactly a pair of cells at heuristic distance 1 |
| Router.HeuristicConsistent | src/editor/WireRouter.ts:31-33 | one step changes the heuristic by at most one |
| Router.InsertPosMeets | src/editor/WireRouter.ts:18-21 | before the insertion point every entry has `f` <= the new `f`; the entry at it has a larger `f` |
| Router.StableInsertShape | src/editor/WireRouter.ts:18-21 | a push places the new node at its insertion point and shifts the rest by one |
| Router.StableInsertIsStableSort | src/editor/WireRouter.ts:18-21 | on a sorted array, push-then-sort gives an array that is sorted, holds one more copy of the node and keeps the other entries in order, with the node after every entry of equal `f` |
| Router.PopIsMinimal | src/editor/WireRouter.ts:22-24 | the front of the sorted array has the least `f` |
| Router.MinHeap.constructor | src/editor/WireRouter.ts:14-17 | an empty, sorted heap |
| Router.MinHeap.Push | src/editor/WireRouter.ts:18-21 | the array becomes the stable insertion of the node and stays sorted by `f` |
| Router.MinHeap.Pop | src/editor/WireRouter.ts:22-24 | `shift`: the front node and the rest of the array, or nothing on an empty heap |
| Router.ChainAppend | src/editor/WireRouter.ts:94-102 | adding a search node leaves every existing parent chain unchanged |
| Router.ChainIsPath | src/editor/WireRouter.ts:60-68 | every parent chain of the search is a path of the kind `route` returns |
| Router.CurChainClosed | src/editor/WireRouter.ts:70 | once the popped node's key is closed, its whole chain is closed |
| Router.SearchInvGrowClosed | src/editor/WireRouter.ts:70 | the search invariant survives growing the closed set |
| Router.SearchInvAppend | src/editor/WireRouter.ts:79-103 | a walkable, unclosed neighbour of a closed node keeps the search invariant |
| Router.HeapInArenaAppend | src/editor/WireRouter.ts:94-102 | the open heap still holds search nodes after a push |
| Router.Expand | src/editor/WireRouter.ts:72-103 | the neighbour loop keeps the heap sorted and keeps the search invariant |
| Router.Reconstruct | src/editor/WireRouter.ts:60-68 | follows parent links and reverses them: the world points of the node's chain, root first |
| Router.Route | src/editor/WireRouter.ts:35-107 | a non-empty result runs from the start cell to the end cell in unit steps through walkable cells and repeats no cell key; the same start and end cell gives that one cell |
| Router.KeptIdxPicks | src/editor/WireRouter.ts:111-120 | the kept indices are increasing and interior, and name exactly the kept points |
| Router.KeptIdxIff | src/editor/WireRouter.ts:111-120 | an interior index is kept exactly when its point is not straight between its original neighbours |
| Router.Simplify | src/editor/WireRouter.ts:108-124 | the simplified path has at least two points and keeps the first and the last |
| Router.SimplifyMeets | src/editor/WireRouter.ts:108-124 | the first and last points are kept; in between come, in order, exactly the non-straight interior points; one point yields that point twice |
| Router.SimplifyPath | src/editor/WireRouter.ts:108-124 | the loop computes the simplification; an empty input gives two undefined points |
| Router.StraightIffSameHeading | src/editor/WireRouter.ts:116 | between two axis steps that do not double back, "straight" means "same heading" |
| Router.HeadingTrans | src/editor/WireRouter.ts:116 | two steps with the same axis heading give a step with that heading |
| Router.TurnAt | src/editor/WireRouter.ts:116 | on a routed path, the test at a point is "the heading does not change" |
| Router.SimplifyKeepsTurns | src/editor/WireRouter.ts:108-124 | on a routed path, exactly the turn points are kept |
| Router.RunHeading | src/editor/WireRouter.ts:108-124 | a run of straight points keeps one heading |
| Router.FullSelects | src/editor/WireRouter.ts:108-124 | the result's indices keep both ends, are increasing, pick non-straight points and skip only straight ones |
| Router.GapNotKept | src/editor/WireRouter.ts:111-120 | an index skipped between two kept indices is interior and straight |
| Router.SimplifiedStep | src/editor/WireRouter.ts:108-124 | a step of the simplified path heads the way the original steps at its ends do |
| Router.PickedStaysTurn | src/editor/WireRouter.ts:108-124 | a kept interior point is still a turn in the simplified path |
| Router.NoStraightKeepsAll | src/editor/WireRouter.ts:111-120 | a list with no straight interior point keeps all its interior points |
| Router.SimplifyIdempotent | src/editor/WireRouter.ts:108-124 | on a routed path, simplifying twice is simplifying once |
| Router.GridPointOrder | src/editor/WireRouter.ts:60-68 | placing cells on a grid of positive size keeps their order on both axes |
| Router.PlacedSteps | src/editor/WireRouter.ts:72-82 | a placed grid step is along an axis, and doubles back only onto the same cell |
| Router.RoutedPathIsOrtho | src/editor/WireRouter.ts:35-107 | a route result placed on a grid has axis steps and never doubles back |
| Scene.SceneTree.constructor | src/core/Entity.ts:6-25 | an empty scene |
| Scene.SceneTree.NewEntity | src/core/Entity.ts:19-25 | a new entity is detached, at the origin, dirty and not started, on its class's layer |
| Scene.SceneTree.AddChild | src/core/Entity.ts:52-56 | the child points at the parent and is appended to the parent's children; nothing else changes, and a previous parent keeps listing the child |
| Scene.SceneTree.MarkDirty | src/core/Entity.ts:73-76 | exactly the entity and its ancestors become dirty; nothing else changes |
| Scene.SceneTree.MarkEach | src/core/Entity.ts:73-76 | `markDirty` on each listed entity in turn |
| Scene.SceneTree.SetCollider | src/core/Entity.ts:32-34 | sets one entity's collider and nothing else |
| Scene.SceneTree.StoreLayout | src/core/Entity.ts:88-94 | stores the box and clears the dirty flag of one entity |
| Scene.SceneTree.UpdateLayout | src/core/Entity.ts:65-67 | when dirty, the box becomes `calcBounding` and the flag clears; when clean nothing changes |
| Scene.SceneTree.Start | src/core/Entity.ts:96-100 | the start hook runs on the first call only |
| Scene.SceneTree.Translate | src/core/Entity.ts:17 | `pos.add(delta)` on one entity, nothing else |
| Scene.SceneTree.Traveler | src/core/Entity.ts:102-122 | the output is the breadth-first walk `Bfs` of the starts; every visited entity satisfies the predicate; each is a start or a child of an earlier visited entity; every start and every child of a visited entity that satisfies the predicate is visited |
| Scene.SceneTree.CalcBounding | src/core/Entity.ts:124-147 | the box at the entity position when there are no descendants, otherwise the tight hull of the bounding boxes of all descendants |
| Scene.CalcBoundingNonNegative | src/core/Entity.ts:124-147 | when every descendant's box has non-negative width and height, so has the box of `calcBounding` |
| Scene.BfsStep | src/core/Entity.ts:113-120 | one turn of the walk: a passing front entity is emitted and its children queued at the back; a failing one is dropped with everything below it |
| Scene.BfsQueueFirst | src/core/Entity.ts:113-120 | when the first n queued entities pass, the walk emits exactly them first, in queue order |
| Scene.BfsChildrenInOrder | src/core/Entity.ts:102-120 | from a passing start whose children all pass, the walk begins with the start and then its children in their order |
| Scene.ScanEdges | src/core/Entity.ts:125-140 | the worklist lists every child, stays within the descendants and ends closed under children; the running extremes are attained bounds of the listed boxes |
| Scene.ExtremesStep | src/core/Entity.ts:135-138 | one `Math.min`/`Math.max` step keeps the extremes of the list |
| Scene.ExtremesOfMeets | src/core/Entity.ts:131-140 | the running extremes bound every listed box and are attained |
| Scene.HullOfExtremes | src/core/Entity.ts:141-146 | the box built from the extremes is the tight hull of the listed boxes |
| Scene.ScanGivesBounding | src/core/Entity.ts:124-147 | a finished worklist covers exactly the descendants, so the result is `calcBounding`'s box |
| Scene.DirtyUpKeepsInv | src/core/Entity.ts:73-76 | spreading the flag keeps the links and the invariant |
| Scene.MarkAllDirtyIff | src/core/Entity.ts:73-76 | after marking a list, an entity is dirty exactly when it was, or it is an ancestor of a listed entity; nothing else changes |
| Scene.DescendantsClosed | src/core/Entity.ts:124-147 | the descendants are closed under children |
| Scene.ClosedContainsDescendants | src/core/Entity.ts:124-147 | any child-closed set holding the children holds all descendants |
| Scene.AncestryInRange | src/core/Entity.ts:73-76 | the ancestor chain holds the entity and only scene entities |
| Scene.AncestrySameLinks | src/core/Entity.ts:73-76 | the ancestor chain depends only on the links |
| Scene.StartedRunsOnce | src/core/Entity.ts:96-100 | after `_start` the hook has run once; a second `_start` changes nothing |
| Nodes.JsRem2 | src/Entities/NodeEntity.ts:55-59 | JavaScript `% 2`: 0 on even, 1 on positive odd and -1 on negative odd numbers |
| Nodes.HalfCellIfOddIff | src/Entities/NodeEntity.ts:55-59 | the half-cell offset applies exactly to positive odd spans |
| Nodes.NodeEntity.AdjustPos | src/Entities/NodeEntity.ts:55-59 | the node moves by the half-cell offset of its spans; nothing else changes |
| Nodes.InitShape | src/Entities/NodeEntity.ts:61-75 | the node's size is its spans in cells; the full size adds one connector height on each side |
| Nodes.NodeEntity.constructor | src/Entities/NodeEntity.ts:42-45 | a new layer-1 entity with the given spans and connectors and an empty anchor registry |
| Nodes.NodeEntity.Init | src/Entities/NodeEntity.ts:61-75 | the odd-span offset, the sizes, and a box collider centred on the entity position |
| Nodes.NodeEntity.UpdateLayout | src/Entities/NodeEntity.ts:47-51 | when dirty, the bounding box becomes width by height around the position; when clean nothing changes |
| Nodes.FirstIndex | src/Entities/NodeEntity.ts:172-175 | the first connector satisfying the test, or none exactly when no connector does |
| Nodes.GetConnectoPos | src/Entities/NodeEntity.ts:194-216 | no result exactly when no connector has the name; otherwise the pin centre of the first connector with that name, by the source's formulas (top and bottom y as written) |
| Nodes.PinPointAsWritten | src/Entities/NodeEntity.ts:201-213 | the source's pin centre; for left and right connectors it lies on the pin the node draws |
| Nodes.PinPointAgreesOnSides | src/Entities/NodeEntity.ts:201-213 | the corrected pin equals the source's exactly for left and right connectors (or a node only one connector height tall) |
| Nodes.TopConnectorAsWritten | src/Entities/NodeEntity.ts:194-216 | for a 3 x 1 node at the origin with a top connector at index 0, `getConnectoPos` gives (-50, 31.25), below the centre |
| Nodes.TopClickAsWritten | src/Entities/NodeEntity.ts:134-192 | a click at (-50, -35) on that node, in its top band, reports the connector at (-50, 31.25) |
| Nodes.PinPointAsWrittenFormulas | src/Entities/NodeEntity.ts:201-213 | the pin formulas exactly as written, including top pins in the bottom band and bottom pins in the top band |
| Nodes.TopPinAsWrittenMissesPin | src/Entities/NodeEntity.ts:208-213 | as written, a top pin's centre lies below the node centre, outside the pin the node draws |
| Nodes.PinPointInPinRect | src/Entities/NodeEntity.ts:102-128 | the corrected pin `PinPoint`, with the y of top and bottom pins in their own bands: every pin centre lies on the pin the node draws |
| Nodes.GetIdx | src/Entities/NodeEntity.ts:139-145 | `getIdx`: a found index is in range (exactly which slots give it is `GetIdxIff`) |
| Nodes.GetIdxIff | src/Entities/NodeEntity.ts:139-145 | `getIdx` finds pin k exactly when the coordinate lies in the odd slot 2k+1, with k in range |
| Nodes.IsInside | src/Entities/NodeEntity.ts:134-192 | `isInside`: a connector hit names one of the node's connectors; a body hit lies strictly inside the node rectangle |
| Nodes.IsInsideBodyIff | src/Entities/NodeEntity.ts:150-152 | the body is reported exactly for points strictly inside the node rectangle, at the node position |
| Nodes.IsInsideOutsideBands | src/Entities/NodeEntity.ts:148-154 | outside the body and both border bands there is no hit |
| Nodes.IsInsideConnector | src/Entities/NodeEntity.ts:134-192 | a connector hit names a connector whose side is the band holding the point, whose index is in range and whose slot holds the point; the reported point is its pin centre by the source's formulas |
| Nodes.SideBandHit | src/Entities/NodeEntity.ts:148-191 | for a point in the left or right band, outside the top and bottom bands, in the slot of pin idx: `isInside` reports the first connector on that side with that index, at its pin centre |
| Nodes.EdgeBandHit | src/Entities/NodeEntity.ts:148-191 | for a point in the top or bottom band, outside the left and right bands, in the slot of pin idx: `isInside` reports the first connector on that side with that index, at its pin centre as written |
| Nodes.ConnectorHitIsConnectoPos | src/Entities/NodeEntity.ts:172-216 | with unique connector names, a connector hit reports `getConnectoPos` of its name |
| Nodes.NodeEntity.SetWirePos | src/Entities/NodeEntity.ts:218-221 | appends an anchor under the name, creating the list and registering the name the first time |
| Nodes.Retarget | src/Entities/NodeEntity.ts:225-229 | every anchor of the list moves to the pin and keeps its wire |
| Nodes.SetWithPinAsWrittenLeavesNoNumber | src/Entities/NodeEntity.ts:227 | as written, after `set(p)` neither coordinate of an anchor is a number, so the anchor never lies on the pin |
| Nodes.RefreshedAnchorsOnPins | src/Entities/NodeEntity.ts:223-231 | after `onDirty` every anchor of a connector's name sits on that connector's pin |
| Nodes.NodeEntity.OnDirty | src/Entities/NodeEntity.ts:223-231 | every anchor moves to its connector's pin as `getConnectoPos` computes it, and each anchored wire is marked dirty, name by name in insertion order |
| Nodes.NodeEntity.RefreshAnchors | src/Entities/NodeEntity.ts:224-230 | the anchor part of `onDirty`: the refreshed registry and the wires to mark, in order |
| Nodes.RefreshLoop | src/Entities/NodeEntity.ts:224-230 | the loop over the registry names gives the refreshed registry and the anchored wires in order |
| Nodes.MoveAnchors | src/Entities/NodeEntity.ts:226-229 | the loop over one name's anchors: each moves to the pin, and its wire is listed |
| Nodes.WiresOfBelow | src/Entities/NodeEntity.ts:226-229 | every wire `onDirty` marks is a scene entity |
| Nodes.GatePins | src/Entities/gates/NotEntity.ts:4-14 | the NOT and OR gates' sizes and pin centres; an unknown name has no pin |
| Nodes.NotGateClickOnA | src/Entities/gates/NotEntity.ts:4-14 | a click on the NOT gate's left pin hits connector A at its pin centre; a click in the middle hits the body |
| Wires.WiresBelowNodes | src/Entities/Wire.ts:7-10 | wires are on a lower layer than nodes |
| Wires.Wire.constructor | src/Entities/Wire.ts:7-10 | a new layer-0 entity holding the path |
| Wires.Wire.Init | src/Entities/Wire.ts:12-14 | a line collider over the path, 14 wide |
| Wires.MaxOfIsMaximum | src/Entities/Wire.ts:22-28 | the running maximum bounds every value and is attained |
| Wires.MinOfIsMinimum | src/Entities/Wire.ts:22-28 | the running minimum bounds every value and is attained |
| Wires.PathBoxPadsPoints | src/Entities/Wire.ts:16-33 | the wire's box holds every point at least half a line height inside its edges, and each edge is exactly that far from some point |
| Wires.SinglePointBox | src/Entities/Wire.ts:16-33 | a one-point wire has a 14 by 14 box centred on the point |
| Wires.PathBox | src/Entities/Wire.ts:16-33 | the padded box of a non-empty path is at least one line height wide and tall |
| Wires.WireBounds | src/Entities/Wire.ts:16-33 | the loop computes the padded box of the path |
| Wires.Wire.UpdateLayout | src/Entities/Wire.ts:16-33 | when dirty, the box becomes the padded box of the path and the flag clears; when clean nothing changes |
| Wires.AdjustPosAsWrittenIsNaN | src/Entities/Wire.ts:59-65 | as written (an undefined cell size), both coordinates become NaN |
| Wires.AdjustPosWithCellSize | src/Entities/Wire.ts:59-65 | with the node cell size the formula gives the cell centre |
| Wires.CellCentreProperties | src/Entities/Wire.ts:59-65 | the cell centre is half a cell above a grid line, at most half a cell from the point, and stable under a second snap |
| Wires.OddSpanNodesCentreOnCells | src/Entities/NodeEntity.ts:55-59 | an odd-span node placed by snapping and the half-cell offset is centred on a cell centre, where wire points land |
| Wires.Wire.AdjustPos | src/Entities/Wire.ts:59-65 | with the node cell size, the point moves to the centre of its cell |
| DragTools.ShiftKeepsInv | src/editor/DragTool.ts:6 | moving keeps the links and the invariant |
| DragTools.Dragged | src/editor/DragTool.ts:4-9 | the state after a drag keeps the links and the invariant |
| DragTools.DraggedStep | src/editor/DragTool.ts:5-8 | one more item moves by the delta, and its ancestor chain becomes dirty |
| DragTools.MoveOnceMore | src/editor/DragTool.ts:6 | moving c times and once more is moving c + 1 times |
| DragTools.DraggedMoves | src/editor/DragTool.ts:4-9 | after a drag, each entity has moved by the delta once per occurrence in the items, and nothing but the position and the dirty flag changed |
| DragTools.DraggedDirtyIff | src/editor/DragTool.ts:4-9 | after a drag, an entity is dirty exactly when it was, or it is on the ancestor chain of a dragged item |
| DragTools.Drag | src/editor/DragTool.ts:4-9 | each item in turn moves by the delta and is marked dirty |
| Events.IndexOf | src/core/EventEmitter.ts:42 | -1 exactly when the listener is absent; otherwise its first position |
| Events.RemoveFirstCounts | src/core/EventEmitter.ts:33-51 | `off` takes out exactly one occurrence when there is one, and nothing otherwise |
| Events.OffUndoesOn | src/core/EventEmitter.ts:16-51 | the unsubscribe function of `on` restores the registry, for a listener not yet registered |
| Events.OffAbsentIsNoOp | src/core/EventEmitter.ts:33-51 | removing an unregistered listener changes nothing |
| Events.FnsSnoc | src/core/EventEmitter.ts:65-67 | one more listener run is one more call, at the end |
| Events.DropOnceMembers | src/core/EventEmitter.ts:56-82 | after `emit`, exactly the direct listeners of the emitted list remain |
| Events.RemoveFirstAfter | src/core/EventEmitter.ts:33-51 | a wrapper found after a prefix that lacks it is cut out there |
| Events.LiveStep | src/core/EventEmitter.ts:65-67 | running a wrapper takes it out of the live list; a direct listener stays |
| Events.LiveEnd | src/core/EventEmitter.ts:56-68 | after the last entry ran, the live list is the direct listeners of the snapshot |
| Events.EventEmitter.constructor | src/core/EventEmitter.ts:10 | no listeners |
| Events.EventEmitter.On | src/core/EventEmitter.ts:16-28 | appends the listener to the event's list, creating it; returns its unsubscribe function |
| Events.EventEmitter.AddListener | src/core/EventEmitter.ts:16-28 | the append of `on`, for a direct listener or a `once` wrapper |
| Events.EventEmitter.Off | src/core/EventEmitter.ts:33-51 | removes the first occurrence of the listener and deletes an emptied list |
| Events.EventEmitter.Unsub | src/core/EventEmitter.ts:26-27 | calling the unsubscribe function is `off` of that event and listener |
| Events.EventEmitter.Emit | src/core/EventEmitter.ts:56-68 | calls the snapshot's functions in order; afterwards only the event's direct listeners remain |
| Events.EventEmitter.Once | src/core/EventEmitter.ts:73-82 | registers a fresh wrapper around the function |
| Events.EventEmitter.Clear | src/core/EventEmitter.ts:87-89 | every event loses all its listeners |
| Tools.UsedMeets | src/editor/tools/ToolManager.ts:72-76 | asking for the current tool changes nothing; otherwise the current tool is reset and the registered tool of that name (or none) becomes current |
| Tools.UsedIdempotent | src/editor/tools/ToolManager.ts:72-76 | using the same name twice is using it once |
| Tools.AutoSelectedCases | src/editor/tools/ToolManager.ts:82-107 | nothing happens while the current tool is locked or for the middle button; otherwise a node's body or a wire selects the selection tool, a node's connector the wire tool, a miss the selection tool on the left button and no tool otherwise |
| Tools.AutoSelectedIdempotent | src/editor/tools/ToolManager.ts:82-107 | repeating `autoSelectTool` with the same event changes nothing more |
| Tools.ToolManager.constructor | src/editor/tools/ToolManager.ts:33-39 | no tools, no current tool, no hook has run |
| Tools.ToolManager.Register | src/editor/tools/ToolManager.ts:67-70 | runs the tool's `init` hook, then stores it under its name, replacing any previous one |
| Tools.ToolManager.Use | src/editor/tools/ToolManager.ts:72-76 | the tools, the current tool and the reset log become those of `use` on the old state (described by UsedMeets); the init log and the scratch list are unchanged |
| Tools.ToolManager.Restore | src/editor/tools/ToolManager.ts:78-80 | no current tool, and no reset hook runs |
| Tools.ToolManager.AutoSelectTool | src/editor/tools/ToolManager.ts:82-107 | the selection state becomes that of `autoSelectTool` on the old one (its outcomes are listed by AutoSelectedCases); the init log and the scratch list are unchanged |
| Tools.InsertByLayer | src/editor/tools/ToolManager.ts:117 | one step of the stable sort: the list grows by one entry |
| Tools.SortByLayer | src/editor/tools/ToolManager.ts:117 | the sort of `hits` by layer keeps the number of entries (the permutation, order and stability are the lemmas below) |
| Tools.FirstHit | src/editor/tools/ToolManager.ts:118 | `find`: a result is an entry of the list whose collider contains the point |
| Tools.InsertByLayerPerm | src/editor/tools/ToolManager.ts:117 | inserting adds exactly that entity |
| Tools.InsertByLayerMeets | src/editor/tools/ToolManager.ts:117 | inserting keeps a list sorted highest layer first |
| Tools.InsertByLayerStable | src/editor/tools/ToolManager.ts:117 | inserting puts the entity after every entry of its own layer |
| Tools.OfLayerAppend | src/editor/tools/ToolManager.ts:117 | the entries of one layer of a concatenation are those of its parts |
| Tools.OfLayerBelow | src/editor/tools/ToolManager.ts:117 | a descending list whose head is below a layer has no entry of that layer |
| Tools.SortByLayerSorts | src/editor/tools/ToolManager.ts:117 | the sort is a permutation ordered highest layer first |
| Tools.SortByLayerStable | src/editor/tools/ToolManager.ts:117 | the sort is stable: within each layer the entries keep the walk's order |
| Tools.SortByLayerIds | src/editor/tools/ToolManager.ts:117 | sorting keeps the ids in range |
| Tools.FirstHitMeets | src/editor/tools/ToolManager.ts:118 | `find` gives nothing exactly when no entry is hit; otherwise the first hit entry |
| Tools.FirstHitOfLayer | src/editor/tools/ToolManager.ts:118 | the first hit is also the first hit among the entries of its own layer |
| Tools.HigherComesFirst | src/editor/tools/ToolManager.ts:117 | in the sorted list, an entry of a higher layer comes earlier |
| Tools.GetHitsPicksTopmost | src/editor/tools/ToolManager.ts:110-119 | the hit is nothing exactly when no candidate is hit; otherwise it is a hit candidate with no hit candidate on a higher layer, and the first hit in walk order among the candidates of its own layer |
| Tools.ToolManager.GetHits | src/editor/tools/ToolManager.ts:110-119 | the candidates are the breadth-first walk `Bfs` from the root through boxes containing the point: each has a box containing the point, the root is one when its box contains the point, and so is every child of a candidate whose box contains it; the scratch list is their sort by layer; the result is the first of those whose collider contains the point |

## Left out

- Rendering, canvas drawing, labels, assets, and the mouse event plumbing
  (`_mouseDown` and the others, `initEvents`, `renderTools`): these are
  I/O.
- `Vector2D.angle`, `angleBetween`, `rotate`, `toDegrees`, `toRadians`,
  `magnitude`, `normalize`, `distance`, `length`, `unitNormal`,
  `toString`: these use trigonometry, square roots or string formatting,
  which real arithmetic does not model.
- Colliders.BoxCollider.MouseIsInside: specified for angle 0 only. A
  rotation needs `cos`/`sin`, and no caller passes another angle.
- `Wire.moveLastPoint`: it chooses the axis by `atan2` angles
  (trigonometry). What it calls at the end, `Wire.adjustPos`, is modelled.
- Floating-point rounding: coordinates are reals. The NaN of a
  zero-length segment is modelled in `SegmentHit`. The NaN that the
  undefined cell size of `Wire.adjustPos` produces is modelled by
  `AdjustPosAsWrittenIsNaN`, not by the method. Infinities are replaced
  by "no value yet" (`None`) in the running extremes of `calcBounding`
  and by the first point in `Wire.updateBounding`.
- Wires.Wire.AdjustPos: uses the node cell size 50, the corrected half of
  the Wire.ts:60 row under "## Findings". As written, every coordinate
  becomes NaN (`AdjustPosAsWrittenIsNaN`).
- Wires.Wire.UpdateLayout: requires a non-empty path. With an empty path
  the source computes a box from ±Infinity, which is not modelled.
- Aliasing between objects that the scene arena stores as values:
  - a wire anchor's point is, in the source, the same object as a point of
    the wire's path;
  - a node's bounding position is its `pos` object;
  - the box `calcBounding` gives an entity without descendants has the
    entity's own `pos` object as its position (src/core/Entity.ts:141);
  - a line collider shares the wire's path array.

  The model copies these values, so a change through one alias is not
  seen through the other.
- Nodes.NodeEntity.OnDirty: `item.pos.set(p)` is modelled as copying the
  pin's coordinates into the anchor, the corrected half of the
  NodeEntity.ts:227 row under "## Findings". As written, `set` receives the
  object as `x` and `undefined` as `y`. For a name with no connector, the
  model leaves the anchors where they are.
- The delta of `drag` is taken as a value. If the delta were one of the
  dragged positions, the source would see it move.
- Router.Route: proves soundness of a non-empty result (its shape). It
  does not prove completeness (a route is found if one exists) or
  optimality.
- Router.Route: the watchdog's pop count is internal and not exposed.
- Router.Route: the closed set and the g-scores are keyed by `hashPos`
  as in the source, so cells 2^16 apart share a key. The proofs carry
  this through (no key repeats on a route) rather than assuming distinct
  keys for distinct cells.
- Router.Route: `worldToGrid`, `gridToWorld` and `isWalkable` belong to
  a grid class that is not part of this model. They are parameters, and
  the start cell is not tested for walkability, as in the source.
- `Entity.collect`, which `getHits` calls, is not among the modelled
  files. It is modelled as `traveler` from the root with the bounding-box
  predicate.
- Scene.SceneTree.Traveler: its output is the breadth-first walk `Bfs`,
  which fixes the order. It does not state that each entity is visited
  once: on a scene where a child is listed by two parents, the source
  visits it twice too.
- Plain `Entity` declares no `layerIdx`: the model uses the layer its
  subclass sets (0 for wires, 1 for nodes). `LayerOf` gives 0 for an id
  outside the scene.
- Tools.ToolManager.Register: `inits` lists the registered tools in
  order, and `resets` lists the tools that `use` leaves, in order. The
  source calls `reset` only on a tool that defines it, which the model
  does not distinguish. What the hooks do is not modelled.
- Tools.ToolManager.constructor: starts with no tools. The source's
  constructor registers the camera, wire and selection tools through
  `initTools`; those tool classes are not part of this model, and
  `Register` models what each registration does.
- The `MouseButton` values come from a mouse controller that is not part
  of this model. They are a datatype of three buttons.
- Events.EventEmitter.Emit: a listener that calls back into the emitter
  (other than a `once` wrapper removing itself) is not modelled. The
  snapshot guards iteration in the source, but the resulting registry
  would depend on what the listener does.
- Nodes.NodeEntity.OnDirty: the wires are marked dirty in the order
  `for ... in` lists the registry's keys, which is taken to be insertion
  order. Integer-like names would be listed first in JavaScript.
- `NodeEntity.updateCollider` and `Entity.updateCollider` are empty in
  the source, and the model has no step for them.

## Findings

| source | as written | input that shows it | evidently intended | confidence | as-written member | corrected member |
|---|---|---|---|---|---|---|
| src/Entities/NodeEntity.ts:184-189 and 208-213 | a "top" connector's pin centre gets y = pos.y + height/2 - cH/2, the bottom band; a "bottom" connector gets the top band | a node of colSpan 3 and rowSpan 1 (175 x 75) at the origin with a top connector at idx 0: the pin centre is (-50, 31.25), below the node centre, while the node draws that pin at y from -37.5 to -25 (lines 119-123) | top pins at pos.y - height/2 + cH/2 and bottom pins at pos.y + height/2 - cH/2, where the pins are drawn | not executed; medium | Nodes.TopPinAsWrittenMissesPin | Nodes.PinPointInPinRect |
| src/Entities/Wire.ts:60 | `GridManager.CELL_SIZE` is read, but GridManager declares no such member, so the cell size is `undefined` and every coordinate becomes NaN | any point, for example (10, 10) | the node cell size, 50, which `GridManager.snap` itself uses: the point moves to the centre of its cell | not executed; medium | Wires.AdjustPosAsWrittenIsNaN | Wires.AdjustPosWithCellSize |
| src/Entities/NodeEntity.ts:227 | `item.pos.set(p)` passes the `{x, y}` pin object (or `undefined`) to `set(x, y)` (src/core/Vector.ts:20-24), so the anchor's `x` becomes that object and its `y` becomes `undefined` | any node with a registered wire anchor whose name has a connector, once `onDirty` runs | `item.pos.set(p.x, p.y)` or `copy(p)`: the anchor moves onto the pin | not executed; medium | Nodes.SetWithPinAsWrittenLeavesNoNumber | Nodes.RefreshedAnchorsOnPins |

The model's operations keep the first row's code as written:
`GetConnectoPos`, `IsInside` and the anchors `onDirty` moves use
`PinPointAsWritten`, and `TopConnectorAsWritten` and `TopClickAsWritten`
give the input above. The corrected pin is `PinPoint`, and
`PinPointAgreesOnSides` shows that the two differ only for top and
bottom connectors.
