/**
 * The grid wire router (src/editor/WireRouter.ts): an A* search over
 * integer grid cells with a Manhattan heuristic, an "open heap" that is an
 * array re-sorted on every push, a closed set of `hashPos` keys and a
 * watchdog of 5000 pops; and `simplifyPath`, which drops the interior
 * points of straight runs.
 *
 * The grid's `worldToGrid`, `gridToWorld` and `isWalkable` are not part of
 * this model; `route` takes them as function parameters.
 */
module Router {
  import opened Wrappers
  import opened Vectors
  import opened EditorUtils

  datatype Cell = Cell(x: int, y: int)

  /** The key a cell gets in the closed set and in the g-score map. */
  function Key(c: Cell): int {
    HashPos(c.x, c.y)
  }

  function AbsInt(n: int): nat {
    if n < 0 then -n else n
  }

  /** `heuristic(a, b)`: the Manhattan distance; zero exactly on the goal cell. */
  function Heuristic(a: Cell, b: Cell): (r: nat)
    ensures r == 0 <==> a == b
  {
    AbsInt(a.x - b.x) + AbsInt(a.y - b.y)
  }

  /** The Manhattan distance is symmetric and obeys the triangle inequality. */
  lemma HeuristicTriangle(a: Cell, b: Cell, c: Cell)
    ensures Heuristic(a, b) == Heuristic(b, a)
    ensures Heuristic(a, c) <= Heuristic(a, b) + Heuristic(b, c)
  {
  }

  /** Two cells one step apart: they differ by exactly 1 on exactly one axis. */
  predicate Adjacent(a: Cell, b: Cell) {
    (a.x == b.x && AbsInt(a.y - b.y) == 1) || (a.y == b.y && AbsInt(a.x - b.x) == 1)
  }

  /** Steps of the search are exactly the pairs of cells at Manhattan distance 1. */
  lemma AdjacentIsUnitDistance(a: Cell, b: Cell)
    ensures Adjacent(a, b) <==> Heuristic(a, b) == 1
  {
  }

  /** The heuristic is consistent: one step changes it by at most one. */
  lemma HeuristicConsistent(a: Cell, b: Cell, goal: Cell)
    requires Adjacent(a, b)
    ensures Heuristic(a, goal) <= 1 + Heuristic(b, goal)
    ensures Heuristic(b, goal) <= 1 + Heuristic(a, goal)
  {
    HeuristicTriangle(a, b, goal);
    HeuristicTriangle(b, a, goal);
  }

  /** The four neighbour offsets, in the order the search visits them. */
  const Dirs: seq<(int, int)> := [(1, 0), (-1, 0), (0, 1), (0, -1)]

  /**
   * A search node. `id` is the node's place in the arena of all nodes the
   * search created: the object identity that a child's `parent` refers to.
   */
  datatype SearchNode = SearchNode(cell: Cell, g: int, h: int, f: int, parent: Option<nat>, id: nat)

  // ---------------------------------------------------------------- MinHeap

  predicate SortedByF(s: seq<SearchNode>) {
    forall i, j :: 0 <= i < j < |s| ==> s[i].f <= s[j].f
  }

  /** Where a stable sort of `s + [v]` puts `v`: before the first entry with a larger `f`. */
  function InsertPos(s: seq<SearchNode>, v: SearchNode): (k: nat)
    ensures k <= |s|
  {
    if s == [] then 0
    else if v.f < s[0].f then 0
    else 1 + InsertPos(s[1..], v)
  }

  /** Every entry before the insertion point has `f` at most `v.f`; the one at it has a larger `f`. */
  lemma {:induction false} InsertPosMeets(s: seq<SearchNode>, v: SearchNode)
    ensures forall j :: 0 <= j < InsertPos(s, v) ==> s[j].f <= v.f
    ensures InsertPos(s, v) < |s| ==> v.f < s[InsertPos(s, v)].f
    decreases |s|
  {
    if s != [] && s[0].f <= v.f {
      InsertPosMeets(s[1..], v);
      forall j | 0 < j < InsertPos(s, v) ensures s[j].f <= v.f {
        assert s[j] == s[1..][j - 1];
      }
      assert InsertPos(s, v) < |s| ==> s[InsertPos(s, v)] == s[1..][InsertPos(s[1..], v)];
    }
  }

  /** `push`: `arr.push(v)` followed by a stable `arr.sort` on `f`, of an array already sorted. */
  function StableInsert(s: seq<SearchNode>, v: SearchNode): seq<SearchNode> {
    var k := InsertPos(s, v);
    s[..k] + [v] + s[k..]
  }

  /** Splicing `v` in at `k`. */
  lemma Splice<T>(a: seq<T>, k: nat, v: T)
    requires k <= |a|
    ensures |a[..k] + [v] + a[k..]| == |a| + 1
    ensures (a[..k] + [v] + a[k..])[k] == v
    ensures forall j :: 0 <= j < k ==> (a[..k] + [v] + a[k..])[j] == a[j]
    ensures forall j :: k < j <= |a| ==> (a[..k] + [v] + a[k..])[j] == a[j - 1]
    ensures (a[..k] + [v] + a[k..])[..k] + (a[..k] + [v] + a[k..])[k + 1..] == a
    ensures multiset(a[..k] + [v] + a[k..]) == multiset(a) + multiset{v}
  {
    var r := a[..k] + [v] + a[k..];
    assert r[..k] == a[..k];
    assert r[k + 1..] == a[k..];
    assert a == a[..k] + a[k..];
  }

  /** The push puts `v` at its insertion point and shifts the rest by one. */
  lemma StableInsertShape(s: seq<SearchNode>, v: SearchNode)
    ensures var r := StableInsert(s, v); var k := InsertPos(s, v);
      |r| == |s| + 1 && r[k] == v && r[..k] + r[k + 1..] == s
      && (forall j :: 0 <= j < k ==> r[j] == s[j])
      && (forall j :: k < j < |r| ==> r[j] == s[j - 1])
      && multiset(r) == multiset(s) + multiset{v}
  {
    Splice(s, InsertPos(s, v), v);
  }

  /**
   * On a sorted array, the push is the stable sort of `s + [v]`: the result
   * is sorted, holds one more `v`, keeps the other entries in their order,
   * and puts `v` after every entry of equal `f` pushed before it.
   */
  lemma StableInsertIsStableSort(s: seq<SearchNode>, v: SearchNode)
    requires SortedByF(s)
    ensures var r := StableInsert(s, v); var k := InsertPos(s, v);
      SortedByF(r) && multiset(r) == multiset(s) + multiset{v}
      && r[k] == v && r[..k] + r[k + 1..] == s
      && (forall j :: 0 <= j < k ==> s[j].f <= v.f)
      && (forall j :: k <= j < |s| ==> v.f < s[j].f)
  {
    var r := StableInsert(s, v);
    var k := InsertPos(s, v);
    StableInsertShape(s, v);
    InsertPosMeets(s, v);
    forall j | k <= j < |s| ensures v.f < s[j].f {
      assert s[k].f <= s[j].f;
    }
    forall i, j | 0 <= i < j < |r| ensures r[i].f <= r[j].f {
      if j < k {
      } else if j == k {
      } else if i == k {
        assert r[j] == s[j - 1];
      } else if i < k {
        assert r[j] == s[j - 1];
      } else {
        assert r[i] == s[i - 1] && r[j] == s[j - 1];
      }
    }
  }

  /** The front of a sorted array has the least `f`: what `pop` returns is minimal. */
  lemma PopIsMinimal(s: seq<SearchNode>)
    requires SortedByF(s) && s != []
    ensures forall j :: 0 <= j < |s| ==> s[0].f <= s[j].f
  {
    forall j | 0 < j < |s| ensures s[0].f <= s[j].f {
    }
  }

  class MinHeap {
    var arr: seq<SearchNode>

    /** The array is kept sorted by `f`, since every push re-sorts it. */
    predicate Valid() reads this {
      SortedByF(arr)
    }

    constructor ()
      ensures Valid() && arr == []
    {
      arr := [];
    }

    predicate IsEmpty() reads this {
      arr == []
    }

    method Push(v: SearchNode)
      modifies this
      requires Valid()
      ensures Valid() && arr == StableInsert(old(arr), v)
    {
      StableInsertIsStableSort(arr, v);
      arr := StableInsert(arr, v);
    }

    /** `pop`: `arr.shift()`, `undefined` on an empty heap. */
    method Pop() returns (r: Option<SearchNode>)
      modifies this
      requires Valid()
      ensures Valid()
      ensures old(arr) == [] ==> r == None && arr == []
      ensures old(arr) != [] ==> r == Some(old(arr)[0]) && arr == old(arr)[1..]
    {
      if arr == [] {
        r := None;
      } else {
        r := Some(arr[0]);
        arr := arr[1..];
      }
    }
  }

  // ------------------------------------------------------------ the search

  const MAX_ITER: nat := 5000

  /** Cell keys in a path are pairwise distinct (so are its cells). */
  predicate DistinctKeys(c: seq<Cell>) {
    forall s, t :: 0 <= s < t < |c| ==> Key(c[s]) != Key(c[t])
  }

  /** What a non-empty `route` result walks through, in grid cells. */
  predicate RoutePath(cells: seq<Cell>, start: Cell, end: Cell, walkable: (int, int) -> bool) {
    |cells| > 0 && cells[0] == start && cells[|cells| - 1] == end
    && (forall t :: 0 <= t < |cells| - 1 ==> Adjacent(cells[t], cells[t + 1]))
    && (forall t :: 0 < t < |cells| ==> walkable(cells[t].x, cells[t].y))
    && DistinctKeys(cells)
  }

  predicate ParentsBelow(arena: seq<SearchNode>) {
    forall i :: 0 <= i < |arena| && arena[i].parent.Some? ==> arena[i].parent.value < i
  }

  /** The cells from the root to node `i`, following parent links. */
  function Chain(arena: seq<SearchNode>, i: nat): seq<Cell>
    requires ParentsBelow(arena) && i < |arena|
    decreases i
  {
    match arena[i].parent
    case None => [arena[i].cell]
    case Some(p) => Chain(arena, p) + [arena[i].cell]
  }

  predicate KeysIn(c: seq<Cell>, closed: set<int>) {
    forall t :: 0 <= t < |c| ==> Key(c[t]) in closed
  }

  predicate KeyAbsent(c: seq<Cell>, k: int) {
    forall t :: 0 <= t < |c| ==> Key(c[t]) != k
  }

  /**
   * The nodes created so far: node 0 is the start node, every other node
   * is a walkable neighbour of its parent, whose key was not on its
   * parent's chain when it was created, and every such chain is closed.
   */
  ghost predicate SearchInv(arena: seq<SearchNode>, closed: set<int>, start: Cell, walkable: (int, int) -> bool) {
    && |arena| > 0 && ParentsBelow(arena)
    && arena[0].cell == start && arena[0].parent == None
    && (forall i :: 0 <= i < |arena| ==> arena[i].id == i)
    && (forall i :: 0 < i < |arena| ==> NodeOk(arena, i, closed, walkable))
  }

  ghost predicate NodeOk(arena: seq<SearchNode>, i: nat, closed: set<int>, walkable: (int, int) -> bool)
    requires ParentsBelow(arena) && i < |arena|
  {
    && arena[i].parent.Some?
    && Adjacent(arena[arena[i].parent.value].cell, arena[i].cell)
    && walkable(arena[i].cell.x, arena[i].cell.y)
    && KeyAbsent(Chain(arena, arena[i].parent.value), Key(arena[i].cell))
    && KeysIn(Chain(arena, arena[i].parent.value), closed)
  }

  predicate HeapInArena(h: seq<SearchNode>, arena: seq<SearchNode>) {
    forall t :: 0 <= t < |h| ==> h[t].id < |arena| && arena[h[t].id] == h[t]
  }

  /** Appending a node leaves every earlier chain as it was. */
  lemma {:induction false} ChainAppend(arena: seq<SearchNode>, n: SearchNode, i: nat)
    requires ParentsBelow(arena) && ParentsBelow(arena + [n]) && i < |arena|
    ensures Chain(arena + [n], i) == Chain(arena, i)
    decreases i
  {
    assert (arena + [n])[i] == arena[i];
    match arena[i].parent
    case None =>
    case Some(p) => ChainAppend(arena, n, p);
  }

  /** Every chain of the arena is a path of the kind `route` promises. */
  lemma {:induction false} ChainIsPath(arena: seq<SearchNode>, i: nat, closed: set<int>, start: Cell, walkable: (int, int) -> bool)
    requires SearchInv(arena, closed, start, walkable) && i < |arena|
    ensures RoutePath(Chain(arena, i), start, arena[i].cell, walkable)
    decreases i
  {
    if i == 0 {
    } else {
      assert NodeOk(arena, i, closed, walkable);
      var p := arena[i].parent.value;
      ChainIsPath(arena, p, closed, start, walkable);
      var c := Chain(arena, p);
      var k := Key(arena[i].cell);
      assert Chain(arena, i) == c + [arena[i].cell];
      assert KeyAbsent(c, k);
    }
  }

  /** Once the popped node's key is closed, its whole chain is closed. */
  lemma CurChainClosed(arena: seq<SearchNode>, closed: set<int>, start: Cell, walkable: (int, int) -> bool, i: nat)
    requires SearchInv(arena, closed, start, walkable) && i < |arena|
    ensures KeysIn(Chain(arena, i), closed + {Key(arena[i].cell)})
  {
    if i > 0 {
      assert NodeOk(arena, i, closed, walkable);
    }
  }

  /** The invariant survives growing the closed set. */
  lemma SearchInvGrowClosed(arena: seq<SearchNode>, closed: set<int>, more: set<int>, start: Cell, walkable: (int, int) -> bool)
    requires SearchInv(arena, closed, start, walkable)
    ensures SearchInv(arena, closed + more, start, walkable)
  {
    forall i | 0 < i < |arena| ensures NodeOk(arena, i, closed + more, walkable) {
      assert NodeOk(arena, i, closed, walkable);
    }
  }

  /** A new neighbour of a closed node, whose own key is not closed, keeps the invariant. */
  lemma SearchInvAppend(arena: seq<SearchNode>, closed: set<int>, start: Cell, walkable: (int, int) -> bool, cur: nat, n: SearchNode)
    requires SearchInv(arena, closed, start, walkable) && cur < |arena|
    requires KeysIn(Chain(arena, cur), closed)
    requires n.parent == Some(cur) && n.id == |arena|
    requires Adjacent(arena[cur].cell, n.cell) && walkable(n.cell.x, n.cell.y) && Key(n.cell) !in closed
    ensures SearchInv(arena + [n], closed, start, walkable)
    ensures Chain(arena + [n], cur) == Chain(arena, cur)
  {
    var a := arena + [n];
    assert ParentsBelow(a) by {
      forall i | 0 <= i < |a| && a[i].parent.Some? ensures a[i].parent.value < i {
        if i < |arena| {
          assert a[i] == arena[i];
        }
      }
    }
    ChainAppend(arena, n, cur);
    forall i | 0 < i < |a| ensures NodeOk(a, i, closed, walkable) {
      if i < |arena| {
        assert a[i] == arena[i];
        assert NodeOk(arena, i, closed, walkable);
        var p := arena[i].parent.value;
        ChainAppend(arena, n, p);
        assert a[p] == arena[p];
      } else {
        assert a[i] == n;
        assert a[cur] == arena[cur];
      }
    }
  }

  /** The heap still holds arena nodes once the arena grows. */
  lemma HeapInArenaAppend(h: seq<SearchNode>, arena: seq<SearchNode>, n: SearchNode)
    requires HeapInArena(h, arena) && n.id == |arena|
    ensures HeapInArena(StableInsert(h, n), arena + [n])
  {
    var k := InsertPos(h, n);
    var r := StableInsert(h, n);
    forall t | 0 <= t < |r| ensures r[t].id < |arena + [n]| && (arena + [n])[r[t].id] == r[t] {
      if t < k {
        assert r[t] == h[t];
      } else if t > k {
        assert r[t] == h[t - 1];
      }
    }
  }

  /**
   * The neighbour loop of `route`: each walkable, unclosed neighbour whose
   * tentative g improves on its g-score is recorded and pushed as a child
   * of `cur`.
   */
  method Expand(open: MinHeap, arena0: seq<SearchNode>, closed: set<int>, gScore0: map<int, int>, cur: SearchNode, end: Cell,
                walkable: (int, int) -> bool, ghost start: Cell)
    returns (arena: seq<SearchNode>, gScore: map<int, int>)
    modifies open
    requires open.Valid() && SearchInv(arena0, closed, start, walkable) && HeapInArena(open.arr, arena0)
    requires cur.id < |arena0| && arena0[cur.id] == cur && KeysIn(Chain(arena0, cur.id), closed)
    ensures open.Valid() && SearchInv(arena, closed, start, walkable) && HeapInArena(open.arr, arena)
  {
    arena := arena0;
    gScore := gScore0;
    for d := 0 to 4
      invariant open.Valid() && SearchInv(arena, closed, start, walkable) && HeapInArena(open.arr, arena)
      invariant cur.id < |arena| && arena[cur.id] == cur && KeysIn(Chain(arena, cur.id), closed)
    {
      var (dx, dy) := Dirs[d];
      var n := Cell(cur.cell.x + dx, cur.cell.y + dy);
      var key := Key(n);
      if !walkable(n.x, n.y) {
        continue;
      }
      if key in closed {
        continue;
      }
      var tentativeG := cur.g + 1;
      if key in gScore && tentativeG >= gScore[key] {
        continue;
      }
      gScore := gScore[key := tentativeG];
      var h := Heuristic(n, end);
      var node := SearchNode(n, tentativeG, h, tentativeG + h, Some(cur.id), |arena|);
      SearchInvAppend(arena, closed, start, walkable, cur.id, node);
      HeapInArenaAppend(open.arr, arena, node);
      assert (arena + [node])[cur.id] == cur;
      arena := arena + [node];
      open.Push(node);
    }
  }

  /** `s` read backwards: `Array.prototype.reverse`. */
  function Reverse<T>(s: seq<T>): seq<T> {
    seq(|s|, t requires 0 <= t < |s| => s[|s| - 1 - t])
  }

  /** The world points of a list of cells. */
  function WorldPoints(cells: seq<Cell>, toWorld: (int, int) -> Vec): (r: seq<Vec>)
    ensures |r| == |cells|
  {
    seq(|cells|, t requires 0 <= t < |cells| => toWorld(cells[t].x, cells[t].y))
  }

  /** The reconstruction loop: follows parent links from node `i`, then reverses. */
  method Reconstruct(arena: seq<SearchNode>, i: nat, toWorld: (int, int) -> Vec) returns (path: seq<Vec>, ghost cells: seq<Cell>)
    requires ParentsBelow(arena) && i < |arena|
    ensures path == WorldPoints(Chain(arena, i), toWorld)
    ensures cells == Chain(arena, i)
    ensures |path| == |cells| && forall t :: 0 <= t < |cells| ==> path[t] == toWorld(cells[t].x, cells[t].y)
  {
    var rev: seq<Vec> := [];
    var c: Option<nat> := Some(i);
    cells := [];
    while c.Some?
      invariant c.Some? ==> c.value < |arena|
      invariant Chain(arena, i) == (if c.Some? then Chain(arena, c.value) else []) + cells
      invariant |rev| == |cells|
      invariant forall t :: 0 <= t < |rev| ==> rev[t] == toWorld(cells[|cells| - 1 - t].x, cells[|cells| - 1 - t].y)
      decreases if c.Some? then c.value + 1 else 0
    {
      var n := arena[c.value];
      rev := rev + [toWorld(n.cell.x, n.cell.y)];
      cells := [n.cell] + cells;
      c := n.parent;
    }
    path := Reverse(rev);
    assert path == WorldPoints(cells, toWorld);
  }

  /**
   * `route(grid, a, b)`. Every non-empty result starts on `a`'s cell, ends
   * on `b`'s cell, moves one cell at a time through walkable cells and
   * visits no cell (no key) twice; when both points lie on the same cell
   * the result is that one cell. The watchdog bounds the loop by 5000
   * pops, after which the result is `[]`, as it is when the open set runs
   * empty.
   */
  method Route(toGrid: Vec -> Cell, toWorld: (int, int) -> Vec, walkable: (int, int) -> bool, a: Vec, b: Vec)
    returns (path: seq<Vec>, ghost cells: seq<Cell>)
    ensures |path| == |cells| && forall t :: 0 <= t < |cells| ==> path[t] == toWorld(cells[t].x, cells[t].y)
    ensures path != [] ==> RoutePath(cells, toGrid(a), toGrid(b), walkable)
    ensures toGrid(a) == toGrid(b) ==> path == [toWorld(toGrid(b).x, toGrid(b).y)]
  {
    var start := toGrid(a);
    var end := toGrid(b);
    var open := new MinHeap();
    var closed: set<int> := {};
    var gScore: map<int, int> := map[Key(start) := 0];
    var root := SearchNode(start, 0, 0, 0, None, 0);
    var arena := [root];
    open.Push(root);
    var iter := 0;
    while !open.IsEmpty()
      invariant fresh(open) && open.Valid()
      invariant 0 <= iter <= MAX_ITER
      invariant SearchInv(arena, closed, start, walkable) && HeapInArena(open.arr, arena)
      invariant start == end ==> iter == 0 && open.arr == [root] && arena == [root]
      decreases MAX_ITER - iter
    {
      iter := iter + 1;
      if iter > MAX_ITER {
        return [], [];
      }
      var popped := open.Pop();
      var cur := popped.value;
      if cur.cell == end {
        path, cells := Reconstruct(arena, cur.id, toWorld);
        ChainIsPath(arena, cur.id, closed, start, walkable);
        return;
      }
      CurChainClosed(arena, closed, start, walkable, cur.id);
      SearchInvGrowClosed(arena, closed, {Key(cur.cell)}, start, walkable);
      closed := closed + {Key(cur.cell)};
      arena, gScore := Expand(open, arena, closed, gScore, cur, end, walkable, start);
    }
    return [], [];
  }

  // ---------------------------------------------------------- simplifyPath

  /** An interior point `b` whose neighbours `a` and `c` share its x, or share its y. */
  predicate Straight(a: Vec, b: Vec, c: Vec) {
    (a.x == b.x && b.x == c.x) || (a.y == b.y && b.y == c.y)
  }

  /** The test `simplifyPath` applies to the interior point `i`. */
  predicate StraightAt(p: seq<Vec>, i: nat)
    requires 1 <= i < |p| - 1
  {
    Straight(p[i - 1], p[i], p[i + 1])
  }

  /** The interior points from `i` on that `simplifyPath` keeps, in order. */
  function KeptFrom(p: seq<Vec>, i: nat): seq<Vec>
    requires 1 <= i
    decreases |p| - i
  {
    if i + 1 >= |p| then []
    else (if StraightAt(p, i) then [] else [p[i]]) + KeptFrom(p, i + 1)
  }

  /** The indices of those points. */
  function KeptIdx(p: seq<Vec>, i: nat): seq<nat>
    requires 1 <= i
    decreases |p| - i
  {
    if i + 1 >= |p| then []
    else (if StraightAt(p, i) then [] else [i]) + KeptIdx(p, i + 1)
  }

  /** The result of `simplifyPath` on a non-empty list: first point, kept points, last point. */
  function Simplify(p: seq<Vec>): (r: seq<Vec>)
    requires |p| > 0
    ensures |r| >= 2 && r[0] == p[0] && r[|r| - 1] == p[|p| - 1]
  {
    [p[0]] + KeptFrom(p, 1) + [p[|p| - 1]]
  }

  /** `simplifyPath([])` is `[undefined, undefined]`, since `points[0]` and `points.at(-1)` are. */
  datatype Simplified = Points(points: seq<Vec>) | UndefinedPair

  /** The kept indices are increasing, interior, and name exactly the kept points. */
  lemma {:induction false} KeptIdxPicks(p: seq<Vec>, i: nat)
    requires 1 <= i
    ensures var idx := KeptIdx(p, i); var kept := KeptFrom(p, i);
      |idx| == |kept|
      && (forall t :: 0 <= t < |idx| ==> i <= idx[t] < |p| - 1 && kept[t] == p[idx[t]])
      && (forall s, t :: 0 <= s < t < |idx| ==> idx[s] < idx[t])
    decreases |p| - i
  {
    if i + 1 < |p| {
      KeptIdxPicks(p, i + 1);
    }
  }

  /** An interior index is kept exactly when its point is not straight between its neighbours. */
  lemma {:induction false} KeptIdxIff(p: seq<Vec>, i: nat, k: nat)
    requires 1 <= i
    ensures k in KeptIdx(p, i) <==> i <= k < |p| - 1 && !StraightAt(p, k)
    decreases |p| - i
  {
    if i + 1 < |p| {
      KeptIdxIff(p, i + 1, k);
    }
  }

  /**
   * What `simplifyPath` promises: the result starts with the first point
   * and ends with the last, and in between lists, in order, exactly the
   * interior points that are not straight between their two original
   * neighbours; a one-point list yields that point twice.
   */
  lemma SimplifyMeets(p: seq<Vec>)
    requires |p| > 0
    ensures var r := Simplify(p); var idx := KeptIdx(p, 1);
      |r| == |idx| + 2 && r[0] == p[0] && r[|r| - 1] == p[|p| - 1]
      && (forall t :: 0 <= t < |idx| ==> 1 <= idx[t] < |p| - 1 && r[t + 1] == p[idx[t]])
      && (forall s, t :: 0 <= s < t < |idx| ==> idx[s] < idx[t])
      && (forall k: nat :: k in idx <==> 1 <= k < |p| - 1 && !StraightAt(p, k))
    ensures |p| == 1 ==> Simplify(p) == [p[0], p[0]]
  {
    KeptIdxPicks(p, 1);
    forall k: nat ensures k in KeptIdx(p, 1) <==> 1 <= k < |p| - 1 && !StraightAt(p, k) {
      KeptIdxIff(p, 1, k);
    }
  }

  /** `simplifyPath(points)`: the loop over the interior points. */
  method SimplifyPath(points: seq<Vec>) returns (r: Simplified)
    ensures points == [] <==> r == UndefinedPair
    ensures points != [] ==> r == Points(Simplify(points))
  {
    if points == [] {
      return UndefinedPair;
    }
    var out := [points[0]];
    var i := 1;
    while i < |points| - 1
      invariant 1 <= i <= |points|
      invariant out + KeptFrom(points, i) == [points[0]] + KeptFrom(points, 1)
    {
      var a := points[i - 1];
      var b := points[i];
      var c := points[i + 1];
      if (a.x == b.x && b.x == c.x) || (a.y == b.y && b.y == c.y) {
        i := i + 1;
        continue;
      }
      out := out + [b];
      i := i + 1;
    }
    out := out + [points[|points| - 1]];
    return Points(out);
  }

  // ----------------------------------------- simplifyPath on routed paths

  /** The direction of the step from `a` to `b`; `Oblique` when it is not along an axis. */
  datatype Heading = PlusX | MinusX | PlusY | MinusY | Oblique

  function HeadingOf(a: Vec, b: Vec): Heading {
    if a.y == b.y && a.x < b.x then PlusX
    else if a.y == b.y && b.x < a.x then MinusX
    else if a.x == b.x && a.y < b.y then PlusY
    else if a.x == b.x && b.y < a.y then MinusY
    else Oblique
  }

  function Opposite(h: Heading): Heading {
    match h
    case PlusX => MinusX
    case MinusX => PlusX
    case PlusY => MinusY
    case MinusY => PlusY
    case Oblique => Oblique
  }

  predicate AxisStep(p: seq<Vec>, i: nat)
    requires i + 1 < |p|
  {
    HeadingOf(p[i], p[i + 1]) != Oblique
  }

  predicate NoDoubleBack(p: seq<Vec>, i: nat)
    requires i + 2 < |p|
  {
    HeadingOf(p[i + 1], p[i + 2]) != Opposite(HeadingOf(p[i], p[i + 1]))
  }

  /** The shape of a routed path: every step is along an axis, and no step doubles back. */
  predicate OrthoPath(p: seq<Vec>) {
    && (forall i: nat :: i + 1 < |p| ==> AxisStep(p, i))
    && (forall i: nat :: i + 2 < |p| ==> NoDoubleBack(p, i))
  }

  /** Between two axis steps that do not double back, "straight" means "same heading". */
  lemma StraightIffSameHeading(a: Vec, b: Vec, c: Vec)
    requires HeadingOf(a, b) != Oblique && HeadingOf(b, c) != Oblique
    requires HeadingOf(b, c) != Opposite(HeadingOf(a, b))
    ensures Straight(a, b, c) <==> HeadingOf(a, b) == HeadingOf(b, c)
  {
  }

  lemma HeadingTrans(a: Vec, b: Vec, c: Vec)
    requires HeadingOf(a, b) != Oblique && HeadingOf(b, c) == HeadingOf(a, b)
    ensures HeadingOf(a, c) == HeadingOf(a, b)
  {
  }

  /** At an interior point of a routed path, the two steps are along axes and do not double back. */
  lemma TurnAt(p: seq<Vec>, k: nat)
    requires OrthoPath(p) && 1 <= k < |p| - 1
    ensures HeadingOf(p[k - 1], p[k]) != Oblique && HeadingOf(p[k], p[k + 1]) != Oblique
    ensures HeadingOf(p[k], p[k + 1]) != Opposite(HeadingOf(p[k - 1], p[k]))
    ensures StraightAt(p, k) <==> HeadingOf(p[k - 1], p[k]) == HeadingOf(p[k], p[k + 1])
  {
    assert AxisStep(p, k - 1) && AxisStep(p, k) && NoDoubleBack(p, k - 1);
    StraightIffSameHeading(p[k - 1], p[k], p[k + 1]);
  }

  /** On a routed path, `simplifyPath` keeps exactly the turn points. */
  lemma SimplifyKeepsTurns(p: seq<Vec>, k: nat)
    requires OrthoPath(p) && 1 <= k < |p| - 1
    ensures k in KeptIdx(p, 1) <==> HeadingOf(p[k - 1], p[k]) != HeadingOf(p[k], p[k + 1])
  {
    KeptIdxIff(p, 1, k);
    TurnAt(p, k);
  }

  /** A run of straight points keeps one heading from its first point to its last. */
  lemma {:induction false} RunHeading(p: seq<Vec>, j: nat, k: nat)
    requires OrthoPath(p) && j < k < |p| && GapStraight(p, j, k)
    ensures HeadingOf(p[j], p[k]) == HeadingOf(p[j], p[j + 1])
    ensures HeadingOf(p[k - 1], p[k]) == HeadingOf(p[j], p[j + 1])
    decreases k - j
  {
    if k > j + 1 {
      RunHeading(p, j, k - 1);
      TurnAt(p, k - 1);
      HeadingTrans(p[j], p[k - 1], p[k]);
    }
  }

  /** The indices of the result of `simplifyPath` in its input. */
  function Full(p: seq<Vec>): seq<nat>
    requires |p| > 0
  {
    [0] + KeptIdx(p, 1) + [|p| - 1]
  }

  /** Every point strictly between indices `lo` and `hi` is interior and straight. */
  predicate GapStraight(p: seq<Vec>, lo: nat, hi: nat) {
    forall i: nat :: lo < i < hi ==> 1 <= i < |p| - 1 && StraightAt(p, i)
  }

  /**
   * `full` picks out a simplification of `p`: both ends, increasing,
   * non-straight at every picked interior index and straight at every
   * index it skips.
   */
  predicate Selection(p: seq<Vec>, full: seq<nat>) {
    && |full| >= 2 && full[0] == 0 && full[|full| - 1] == |p| - 1
    && (forall t :: 0 <= t < |full| ==> full[t] < |p|)
    && (forall t :: 0 < t < |full| ==> full[t - 1] < full[t])
    && (forall t :: 0 < t < |full| - 1 ==> 1 <= full[t] < |p| - 1 && !StraightAt(p, full[t]))
    && (forall t :: 0 <= t < |full| - 1 ==> GapStraight(p, full[t], full[t + 1]))
  }

  lemma {:induction false} IncreasingFromSteps(full: seq<nat>, s: nat, t: nat)
    requires forall u :: 0 < u < |full| ==> full[u - 1] < full[u]
    requires s < t < |full|
    ensures full[s] < full[t]
    decreases t - s
  {
    if s + 1 < t {
      IncreasingFromSteps(full, s, t - 1);
    }
  }

  lemma FullSteps(p: seq<Vec>)
    requires |p| >= 2
    ensures var full := Full(p);
      |full| == |Simplify(p)| && full[0] == 0 && full[|full| - 1] == |p| - 1
      && (forall t :: 0 < t < |full| ==> full[t - 1] < full[t])
      && (forall t :: 0 < t < |full| - 1 ==> full[t] == KeptIdx(p, 1)[t - 1])
      && (forall t :: 0 <= t < |full| ==> full[t] < |p| && Simplify(p)[t] == p[full[t]])
  {
    SimplifyMeets(p);
  }

  /** Nothing of a strictly increasing list lies strictly between two consecutive entries. */
  lemma NotBetweenSteps(full: seq<nat>, t: nat, i: nat)
    requires forall u :: 0 < u < |full| ==> full[u - 1] < full[u]
    requires t + 1 < |full| && full[t] < i < full[t + 1]
    ensures i !in full
  {
    forall s | 0 <= s < |full| ensures full[s] != i {
      if s < t {
        IncreasingFromSteps(full, s, t);
      } else if t + 1 < s {
        IncreasingFromSteps(full, t + 1, s);
      }
    }
  }

  /** An index skipped between two consecutive picked indices is not kept. */
  lemma GapNotKept(p: seq<Vec>, t: nat, i: nat)
    requires |p| >= 2 && t + 1 < |Full(p)| && Full(p)[t] < i < Full(p)[t + 1]
    ensures 1 <= i < |p| - 1 && StraightAt(p, i)
  {
    FullSteps(p);
    var full := Full(p);
    if t + 1 < |full| - 1 {
      IncreasingFromSteps(full, t + 1, |full| - 1);
    }
    NotBetweenSteps(full, t, i);
    assert full == [0] + KeptIdx(p, 1) + [|p| - 1];
    assert i !in KeptIdx(p, 1);
    KeptIdxIff(p, 1, i);
  }

  lemma FullSelects(p: seq<Vec>)
    requires |p| >= 2
    ensures Selection(p, Full(p))
  {
    SimplifyMeets(p);
    FullSteps(p);
    var idx := KeptIdx(p, 1);
    var full := Full(p);
    forall t | 0 < t < |full| - 1 ensures 1 <= full[t] < |p| - 1 && !StraightAt(p, full[t]) {
      assert idx[t - 1] in idx;
    }
    forall t | 0 <= t < |full| - 1 ensures GapStraight(p, full[t], full[t + 1]) {
      forall i: nat | full[t] < i < full[t + 1] ensures 1 <= i < |p| - 1 && StraightAt(p, i) {
        GapNotKept(p, t, i);
      }
    }
  }

  /** A step of the simplified path heads the way both original steps at its ends do. */
  lemma SimplifiedStep(p: seq<Vec>, full: seq<nat>, t: nat)
    requires OrthoPath(p) && Selection(p, full) && t + 1 < |full|
    ensures HeadingOf(p[full[t]], p[full[t + 1]]) == HeadingOf(p[full[t]], p[full[t] + 1])
    ensures HeadingOf(p[full[t + 1] - 1], p[full[t + 1]]) == HeadingOf(p[full[t]], p[full[t] + 1])
  {
    RunHeading(p, full[t], full[t + 1]);
  }

  /** A picked interior point is still a turn between the picked points around it. */
  lemma PickedStaysTurn(p: seq<Vec>, full: seq<nat>, t: nat)
    requires OrthoPath(p) && Selection(p, full) && 1 <= t < |full| - 1
    ensures !Straight(p[full[t - 1]], p[full[t]], p[full[t + 1]])
  {
    SimplifiedStep(p, full, t - 1);
    SimplifiedStep(p, full, t);
    var k := full[t];
    TurnAt(p, k);
    StraightIffSameHeading(p[full[t - 1]], p[k], p[full[t + 1]]);
  }

  /** A list with no straight interior point is its own simplification. */
  lemma {:induction false} NoStraightKeepsAll(q: seq<Vec>, i: nat)
    requires 1 <= i <= |q| - 1
    requires forall t: nat :: 1 <= t < |q| - 1 ==> !StraightAt(q, t)
    ensures KeptFrom(q, i) == q[i..|q| - 1]
    decreases |q| - i
  {
    if i + 1 < |q| {
      NoStraightKeepsAll(q, i + 1);
      assert q[i..|q| - 1] == [q[i]] + q[i + 1..|q| - 1];
    }
  }

  /**
   * On a routed path `simplifyPath` is idempotent: the points it keeps are
   * turns of the simplified path too, so a second pass keeps them all.
   */
  lemma SimplifyIdempotent(p: seq<Vec>)
    requires |p| > 0 && OrthoPath(p)
    ensures Simplify(Simplify(p)) == Simplify(p)
  {
    var q := Simplify(p);
    if |p| >= 2 {
      FullSteps(p);
      FullSelects(p);
      var full := Full(p);
      forall t: nat | 1 <= t < |q| - 1 ensures !StraightAt(q, t) {
        PickedStaysTurn(p, full, t);
      }
      NoStraightKeepsAll(q, 1);
      assert q == [q[0]] + q[1..|q| - 1] + [q[|q| - 1]];
    }
  }

  /** A grid-to-world map of the usual kind: cells of side `size` from `origin`. */
  function GridPoint(c: Cell, size: real, origin: Vec): Vec {
    Vec(c.x as real * size + origin.x, c.y as real * size + origin.y)
  }

  function Placed(cells: seq<Cell>, size: real, origin: Vec): seq<Vec> {
    seq(|cells|, t requires 0 <= t < |cells| => GridPoint(cells[t], size, origin))
  }

  lemma ScaleOrder(m: int, n: int, size: real, o: real)
    requires size > 0.0
    ensures m < n <==> m as real * size + o < n as real * size + o
    ensures m == n <==> m as real * size + o == n as real * size + o
  {
    if m < n {
      assert (n - m) as real * size > 0.0;
    } else if n < m {
      assert (m - n) as real * size > 0.0;
    }
  }

  /** Grid points keep the order of their cells on both axes. */
  lemma GridPointOrder(a: Cell, b: Cell, size: real, origin: Vec)
    requires size > 0.0
    ensures var pa := GridPoint(a, size, origin); var pb := GridPoint(b, size, origin);
      (a.x < b.x <==> pa.x < pb.x) && (a.x == b.x <==> pa.x == pb.x)
      && (a.y < b.y <==> pa.y < pb.y) && (a.y == b.y <==> pa.y == pb.y)
  {
    ScaleOrder(a.x, b.x, size, origin.x);
    ScaleOrder(a.y, b.y, size, origin.y);
  }

  /** A grid step, placed in the world, is along an axis; two steps double back only onto the same cell. */
  lemma PlacedSteps(a: Cell, b: Cell, c: Cell, size: real, origin: Vec)
    requires size > 0.0 && Adjacent(a, b)
    ensures HeadingOf(GridPoint(a, size, origin), GridPoint(b, size, origin)) != Oblique
    ensures Adjacent(b, c) && a != c ==>
      HeadingOf(GridPoint(b, size, origin), GridPoint(c, size, origin))
        != Opposite(HeadingOf(GridPoint(a, size, origin), GridPoint(b, size, origin)))
  {
    GridPointOrder(a, b, size, origin);
    GridPointOrder(b, c, size, origin);
  }

  /**
   * A `route` result, placed on a grid of positive cell size, has the
   * routed shape; so (by SimplifyIdempotent) simplifying it twice is
   * simplifying it once.
   */
  lemma RoutedPathIsOrtho(cells: seq<Cell>, start: Cell, end: Cell, walkable: (int, int) -> bool, size: real, origin: Vec)
    requires RoutePath(cells, start, end, walkable) && size > 0.0
    ensures OrthoPath(Placed(cells, size, origin))
  {
    var p := Placed(cells, size, origin);
    forall i: nat | i + 1 < |p| ensures AxisStep(p, i) {
      PlacedSteps(cells[i], cells[i + 1], cells[i + 1], size, origin);
    }
    forall i: nat | i + 2 < |p| ensures NoDoubleBack(p, i) {
      assert Key(cells[i]) != Key(cells[i + 2]);
      PlacedSteps(cells[i], cells[i + 1], cells[i + 2], size, origin);
    }
  }
}
