/**
 * Tool selection and hit resolution of the editor
 * (src/editor/tools/ToolManager.ts).
 *
 * A tool is its name and its `lock` flag; what a tool does on pointer
 * events is not modelled. The optional `init` and `reset` hooks are
 * recorded in the order they are invoked. The mouse buttons are a datatype
 * standing for the `MouseButton` values the source compares against.
 */
module Tools {
  import opened Wrappers
  import opened Vectors
  import opened Boxes
  import opened Colliders
  import opened Scene
  import opened Nodes

  datatype Tool = Tool(name: string, lock: bool)

  datatype MouseButton = LeftButton | MiddleButton | RightButton

  /** The state `use`, `restore` and `autoSelectTool` work on. */
  datatype Selection = Selection(tools: map<string, Tool>, current: Option<Tool>, resets: seq<Tool>)

  /** Every tool is stored under its own name. */
  predicate NamesMatch(tools: map<string, Tool>) {
    forall n :: n in tools ==> tools[n].name == n
  }

  /** `use(name)`: nothing when the current tool has that name; otherwise reset it and switch. */
  function Used(s: Selection, name: string): Selection {
    if s.current.Some? && s.current.value.name == name then s
    else
      Selection(s.tools,
                if name in s.tools then Some(s.tools[name]) else None,
                s.resets + (if s.current.Some? then [s.current.value] else []))
  }

  /** `restore()`: no current tool, and no reset hook runs. */
  function Restored(s: Selection): Selection {
    s.(current := None)
  }

  /** What the pointer went down on: a node (with its geometry), a wire, or another entity. */
  datatype Target = NodeTarget(shape: NodeShape, pos: Vec) | WireTarget | OtherTarget

  /** `autoSelectTool(hit, e)` on the state `s`. */
  function AutoSelected(s: Selection, hit: Option<Target>, p: Vec, button: MouseButton): Selection {
    if s.current.Some? && s.current.value.lock then s
    else if button == MiddleButton then s
    else
      match hit
      case None => if button == LeftButton then Used(s, "selection") else Restored(s)
      case Some(NodeTarget(shape, pos)) =>
        (match IsInside(shape, pos, p)
         case Some(BoxHit(_, _)) => Used(s, "selection")
         case Some(ConnectorHit(_, _, _)) => Used(s, "wire")
         case None => s)
      case Some(WireTarget) => Used(s, "selection")
      case Some(OtherTarget) => s
  }

  /**
   * `use` switches to the registered tool of that name (or to none), and
   * resets the tool it leaves; asking for the current tool's name changes
   * nothing.
   */
  lemma UsedMeets(s: Selection, name: string)
    ensures s.current.Some? && s.current.value.name == name ==> Used(s, name) == s
    ensures !(s.current.Some? && s.current.value.name == name) ==>
      Used(s, name).current == (if name in s.tools then Some(s.tools[name]) else None)
      && Used(s, name).tools == s.tools
      && |Used(s, name).resets| == |s.resets| + (if s.current.Some? then 1 else 0)
  {
  }

  /** Using the same name twice is using it once. */
  lemma UsedIdempotent(s: Selection, name: string)
    requires NamesMatch(s.tools)
    ensures Used(Used(s, name), name) == Used(s, name)
  {
  }

  /**
   * The outcomes of `autoSelectTool`: nothing while the current tool is
   * locked or for the middle button; otherwise, by what was hit, the
   * selection tool, the wire tool, no tool, or no change.
   */
  lemma AutoSelectedCases(s: Selection, hit: Option<Target>, p: Vec, button: MouseButton)
    ensures (s.current.Some? && s.current.value.lock) || button == MiddleButton ==> AutoSelected(s, hit, p, button) == s
    ensures var r := AutoSelected(s, hit, p, button);
      r == s || r == Used(s, "selection") || r == Used(s, "wire") || r == Restored(s)
    ensures !(s.current.Some? && s.current.value.lock) && button != MiddleButton && hit.None? ==>
      AutoSelected(s, hit, p, button) == (if button == LeftButton then Used(s, "selection") else s.(current := None))
    ensures !(s.current.Some? && s.current.value.lock) && button != MiddleButton && hit.Some? && hit.value.NodeTarget? ==>
      var h := IsInside(hit.value.shape, hit.value.pos, p);
      AutoSelected(s, hit, p, button) ==
        if h.None? then s else if h.value.BoxHit? then Used(s, "selection") else Used(s, "wire")
  {
  }

  /** A second `autoSelectTool` with the same event changes nothing more. */
  lemma AutoSelectedIdempotent(s: Selection, hit: Option<Target>, p: Vec, button: MouseButton)
    requires NamesMatch(s.tools)
    ensures var r := AutoSelected(s, hit, p, button);
      AutoSelected(r, hit, p, button) == r
  {
    var r := AutoSelected(s, hit, p, button);
    if !(s.current.Some? && s.current.value.lock) && button != MiddleButton {
      match hit
      case None =>
        if button == LeftButton {
          UsedIdempotent(s, "selection");
        }
      case Some(NodeTarget(shape, pos)) =>
        match IsInside(shape, pos, p) {
          case Some(BoxHit(_, _)) => UsedIdempotent(s, "selection");
          case Some(ConnectorHit(_, _, _)) => UsedIdempotent(s, "wire");
          case None =>
        }
      case Some(WireTarget) => UsedIdempotent(s, "selection");
      case Some(OtherTarget) =>
    }
  }

  // ------------------------------------------------------------- getHits

  predicate IdsBelow(ents: seq<EntityState>, l: seq<nat>) {
    forall k :: 0 <= k < |l| ==> l[k] < |ents|
  }

  /** `layerIdx` of entity `e`; an id outside the scene names no entity and counts as layer 0. */
  function LayerOf(ents: seq<EntityState>, e: nat): int {
    if e < |ents| then ents[e].layer else 0
  }

  /** `getCollider()?.mouseIsInside(pos)`: an entity without a collider is never hit. */
  predicate ColliderHits(s: EntityState, p: Vec) {
    s.collider.Some? && ShapeContains(s.collider.value, s.pos, p)
  }

  /** Entity `e` exists and its collider contains `p`. */
  predicate HitAt(ents: seq<EntityState>, e: nat, p: Vec) {
    e < |ents| && ColliderHits(ents[e], p)
  }

  /** Inserts `x` after every entry whose layer is not below its own. */
  function InsertByLayer(ents: seq<EntityState>, s: seq<nat>, x: nat): (r: seq<nat>)
    ensures |r| == |s| + 1
  {
    if s == [] then [x]
    else if LayerOf(ents, s[0]) < LayerOf(ents, x) then [x] + s
    else [s[0]] + InsertByLayer(ents, s[1..], x)
  }

  /**
   * `hits.sort((a, b) => b.layerIdx - a.layerIdx)`: a stable sort by layer,
   * highest first (insertion of each entry, in order, into the sorted prefix).
   */
  function SortByLayer(ents: seq<EntityState>, l: seq<nat>): (r: seq<nat>)
    ensures |r| == |l|
  {
    if l == [] then []
    else InsertByLayer(ents, SortByLayer(ents, l[..|l| - 1]), l[|l| - 1])
  }

  predicate LayersDescending(ents: seq<EntityState>, s: seq<nat>) {
    forall i, j :: 0 <= i < j < |s| ==> LayerOf(ents, s[j]) <= LayerOf(ents, s[i])
  }

  /** The entries of layer `layer`, in order. */
  function OfLayer(ents: seq<EntityState>, s: seq<nat>, layer: int): seq<nat> {
    if s == [] then []
    else (if LayerOf(ents, s[0]) == layer then [s[0]] else []) + OfLayer(ents, s[1..], layer)
  }

  /** Insertion adds exactly `x`. */
  lemma {:induction false} InsertByLayerPerm(ents: seq<EntityState>, s: seq<nat>, x: nat)
    ensures multiset(InsertByLayer(ents, s, x)) == multiset(s) + multiset{x}
    decreases |s|
  {
    if s != [] && LayerOf(ents, x) <= LayerOf(ents, s[0]) {
      InsertByLayerPerm(ents, s[1..], x);
      assert s == [s[0]] + s[1..];
    }
  }

  /** Insertion keeps a list sorted by layer, highest first. */
  lemma {:induction false} InsertByLayerMeets(ents: seq<EntityState>, s: seq<nat>, x: nat)
    requires LayersDescending(ents, s)
    ensures LayersDescending(ents, InsertByLayer(ents, s, x))
    decreases |s|
  {
    if s != [] && LayerOf(ents, x) <= LayerOf(ents, s[0]) {
      assert LayersDescending(ents, s[1..]);
      InsertByLayerMeets(ents, s[1..], x);
      var t := InsertByLayer(ents, s[1..], x);
      InsertByLayerPerm(ents, s[1..], x);
      forall j | 0 <= j < |t| ensures LayerOf(ents, t[j]) <= LayerOf(ents, s[0]) {
        assert t[j] in multiset(t);
        if t[j] != x {
          assert t[j] in multiset(s[1..]);
          var m :| 0 <= m < |s[1..]| && s[1..][m] == t[j];
          assert s[m + 1] == t[j];
        }
      }
      assert InsertByLayer(ents, s, x) == [s[0]] + t;
    } else if s != [] {
      assert InsertByLayer(ents, s, x) == [x] + s;
    }
  }

  lemma {:induction false} OfLayerAppend(ents: seq<EntityState>, a: seq<nat>, b: seq<nat>, layer: int)
    ensures OfLayer(ents, a + b, layer) == OfLayer(ents, a, layer) + OfLayer(ents, b, layer)
    decreases |a|
  {
    if a != [] {
      assert (a + b)[1..] == a[1..] + b;
      OfLayerAppend(ents, a[1..], b, layer);
    } else {
      assert a + b == b;
    }
  }

  lemma OfLayerSingle(ents: seq<EntityState>, x: nat, layer: int)
    ensures OfLayer(ents, [x], layer) == if LayerOf(ents, x) == layer then [x] else []
  {
    assert [x][1..] == [];
  }

  /** In a descending list whose head is below `layer`, nothing is of that layer. */
  lemma {:induction false} OfLayerBelow(ents: seq<EntityState>, s: seq<nat>, layer: int)
    requires LayersDescending(ents, s) && s != [] && LayerOf(ents, s[0]) < layer
    ensures OfLayer(ents, s, layer) == []
    decreases |s|
  {
    if |s| > 1 {
      assert LayersDescending(ents, s[1..]);
      assert LayerOf(ents, s[1]) <= LayerOf(ents, s[0]);
      OfLayerBelow(ents, s[1..], layer);
    } else {
      assert s[1..] == [];
    }
  }

  /** Inserting into a descending list puts `x` after every entry of its own layer. */
  lemma {:induction false} InsertByLayerStable(ents: seq<EntityState>, s: seq<nat>, x: nat, layer: int)
    requires LayersDescending(ents, s)
    ensures OfLayer(ents, InsertByLayer(ents, s, x), layer) == OfLayer(ents, s, layer) + OfLayer(ents, [x], layer)
    decreases |s|
  {
    OfLayerSingle(ents, x, layer);
    if s == [] {
    } else if LayerOf(ents, s[0]) < LayerOf(ents, x) {
      OfLayerAppend(ents, [x], s, layer);
      if LayerOf(ents, x) == layer {
        OfLayerBelow(ents, s, layer);
      }
    } else {
      assert LayersDescending(ents, s[1..]);
      InsertByLayerStable(ents, s[1..], x, layer);
      var r := InsertByLayer(ents, s, x);
      assert r[1..] == InsertByLayer(ents, s[1..], x);
    }
  }

  /** The sort of `getHits` orders by layer, highest first, and is a permutation. */
  lemma {:induction false} SortByLayerSorts(ents: seq<EntityState>, l: seq<nat>)
    ensures multiset(SortByLayer(ents, l)) == multiset(l)
    ensures LayersDescending(ents, SortByLayer(ents, l))
    decreases |l|
  {
    if l != [] {
      var front := l[..|l| - 1];
      var x := l[|l| - 1];
      SortByLayerSorts(ents, front);
      var sf := SortByLayer(ents, front);
      InsertByLayerPerm(ents, sf, x);
      InsertByLayerMeets(ents, sf, x);
      assert l == front + [x];
    }
  }

  /** The sort is stable: within each layer the entries keep the walk's order. */
  lemma {:induction false} SortByLayerStable(ents: seq<EntityState>, l: seq<nat>, layer: int)
    ensures OfLayer(ents, SortByLayer(ents, l), layer) == OfLayer(ents, l, layer)
    decreases |l|
  {
    if l != [] {
      var front := l[..|l| - 1];
      var x := l[|l| - 1];
      var sf := SortByLayer(ents, front);
      calc {
        OfLayer(ents, SortByLayer(ents, l), layer);
        OfLayer(ents, InsertByLayer(ents, sf, x), layer);
        == { SortByLayerSorts(ents, front); InsertByLayerStable(ents, sf, x, layer); }
        OfLayer(ents, sf, layer) + OfLayer(ents, [x], layer);
        == { SortByLayerStable(ents, front, layer); }
        OfLayer(ents, front, layer) + OfLayer(ents, [x], layer);
        == { OfLayerAppend(ents, front, [x], layer); }
        OfLayer(ents, front + [x], layer);
        == { assert l == front + [x]; }
        OfLayer(ents, l, layer);
      }
    }
  }

  /** Sorting keeps the ids in range. */
  lemma SortByLayerIds(ents: seq<EntityState>, l: seq<nat>)
    requires IdsBelow(ents, l)
    ensures IdsBelow(ents, SortByLayer(ents, l))
  {
    var r := SortByLayer(ents, l);
    SortByLayerSorts(ents, l);
    forall k | 0 <= k < |r| ensures r[k] < |ents| {
      assert r[k] in multiset(r);
      var j :| 0 <= j < |l| && l[j] == r[k];
    }
  }

  /** `find`: the first entry whose collider contains the point. */
  function FirstHit(ents: seq<EntityState>, s: seq<nat>, p: Vec): (r: Option<nat>)
    ensures r.Some? ==> r.value in s && HitAt(ents, r.value, p)
  {
    if s == [] then None
    else if HitAt(ents, s[0], p) then Some(s[0])
    else FirstHit(ents, s[1..], p)
  }

  /** Entry `k` is hit and no earlier entry is. */
  predicate FirstHitAt(ents: seq<EntityState>, s: seq<nat>, p: Vec, k: int) {
    0 <= k < |s| && HitAt(ents, s[k], p) && forall j :: 0 <= j < k ==> !HitAt(ents, s[j], p)
  }

  /** `find` gives the first hit entry, or `undefined` when no entry is hit. */
  lemma {:induction false} FirstHitMeets(ents: seq<EntityState>, s: seq<nat>, p: Vec)
    ensures FirstHit(ents, s, p).None? <==> forall k :: 0 <= k < |s| ==> !HitAt(ents, s[k], p)
    ensures FirstHit(ents, s, p).Some? ==> exists k :: FirstHitAt(ents, s, p, k) && s[k] == FirstHit(ents, s, p).value
    decreases |s|
  {
    if s != [] && !HitAt(ents, s[0], p) {
      FirstHitMeets(ents, s[1..], p);
      if FirstHit(ents, s[1..], p).Some? {
        var k :| FirstHitAt(ents, s[1..], p, k) && s[1..][k] == FirstHit(ents, s[1..], p).value;
        assert s[k + 1] == s[1..][k];
        forall j | 0 <= j < k + 1 ensures !HitAt(ents, s[j], p) {
          if j > 0 {
            assert s[j] == s[1..][j - 1];
          }
        }
      } else {
        forall k | 0 <= k < |s| ensures !HitAt(ents, s[k], p) {
          if k > 0 {
            assert s[k] == s[1..][k - 1];
          }
        }
      }
    } else if s != [] {
      assert FirstHitAt(ents, s, p, 0);
    }
  }

  /** The first hit of a list is also the first hit among the entries of its own layer. */
  lemma {:induction false} FirstHitOfLayer(ents: seq<EntityState>, s: seq<nat>, p: Vec, layer: int)
    requires FirstHit(ents, s, p).Some? && LayerOf(ents, FirstHit(ents, s, p).value) == layer
    ensures FirstHit(ents, OfLayer(ents, s, layer), p) == FirstHit(ents, s, p)
    decreases |s|
  {
    if !HitAt(ents, s[0], p) {
      FirstHitOfLayer(ents, s[1..], p, layer);
      var rest := OfLayer(ents, s[1..], layer);
      if LayerOf(ents, s[0]) == layer {
        assert ([s[0]] + rest)[1..] == rest;
      } else {
        assert [] + rest == rest;
      }
    }
  }

  /** In a list sorted highest layer first, an entry of a higher layer comes earlier. */
  lemma HigherComesFirst(ents: seq<EntityState>, r: seq<nat>, i: int, j: int)
    requires LayersDescending(ents, r) && 0 <= i < |r| && 0 <= j < |r|
    requires LayerOf(ents, r[i]) < LayerOf(ents, r[j])
    ensures j < i
  {
    var lj, li := LayerOf(ents, r[j]), LayerOf(ents, r[i]);
    assert i <= j ==> lj <= li;
  }

  /** No candidate above the layer of `e` is hit. */
  predicate Topmost(ents: seq<EntityState>, cands: seq<nat>, p: Vec, e: nat) {
    forall k :: 0 <= k < |cands| && LayerOf(ents, e) < LayerOf(ents, cands[k]) ==> !HitAt(ents, cands[k], p)
  }

  /**
   * What `getHits` resolves to: nothing exactly when no candidate is hit;
   * otherwise a hit candidate such that no candidate of a higher layer is
   * hit, and which is the first hit, in the walk's order, among the
   * candidates of its own layer.
   */
  lemma GetHitsPicksTopmost(ents: seq<EntityState>, cands: seq<nat>, p: Vec)
    ensures FirstHit(ents, SortByLayer(ents, cands), p).None? <==> forall k :: 0 <= k < |cands| ==> !HitAt(ents, cands[k], p)
    ensures var h := FirstHit(ents, SortByLayer(ents, cands), p);
      h.Some? ==> h.value in cands && HitAt(ents, h.value, p) && Topmost(ents, cands, p, h.value)
    ensures var h := FirstHit(ents, SortByLayer(ents, cands), p);
      h.Some? ==> FirstHit(ents, OfLayer(ents, cands, LayerOf(ents, h.value)), p) == h
  {
    SortByLayerSorts(ents, cands);
    var r := SortByLayer(ents, cands);
    FirstHitMeets(ents, r, p);
    var h := FirstHit(ents, r, p);
    forall k | 0 <= k < |cands| ensures cands[k] in r {
      assert cands[k] in multiset(cands);
    }
    forall k | 0 <= k < |r| ensures r[k] in cands {
      assert r[k] in multiset(r);
    }
    if h.Some? {
      var i :| FirstHitAt(ents, r, p, i) && r[i] == h.value;
      assert r[i] in multiset(r);
      forall k | 0 <= k < |cands| && LayerOf(ents, h.value) < LayerOf(ents, cands[k]) ensures !HitAt(ents, cands[k], p) {
        var j :| 0 <= j < |r| && r[j] == cands[k];
        HigherComesFirst(ents, r, i, j);
      }
      FirstHitOfLayer(ents, r, p, LayerOf(ents, h.value));
      SortByLayerStable(ents, cands, LayerOf(ents, h.value));
    } else {
      forall k | 0 <= k < |cands| ensures !HitAt(ents, cands[k], p) {
        var j :| 0 <= j < |r| && r[j] == cands[k];
      }
    }
  }

  /** The broad-phase test of `getHits`: the entity's bounding box contains `p`. */
  function BoxHolds(p: Vec): EntityState -> bool {
    (s: EntityState) => s.bounding.MouseIsInside(p)
  }

  class ToolManager {
    var tools: map<string, Tool>
    var current: Option<Tool>
    /** The tools whose `reset` hook ran, in order. */
    var resets: seq<Tool>
    /** The tools whose `init` hook ran, in order. */
    var inits: seq<Tool>
    /** The scratch list of `getHits`. */
    var hits: seq<nat>

    function State(): Selection reads this {
      Selection(tools, current, resets)
    }

    predicate Valid() reads this {
      NamesMatch(tools)
    }

    constructor ()
      ensures Valid() && tools == map[] && current == None && resets == [] && inits == [] && hits == []
    {
      tools := map[];
      current := None;
      resets := [];
      inits := [];
      hits := [];
    }

    /** `register(tool)`: runs its `init` hook and stores it under its name, replacing any previous one. */
    method Register(tool: Tool)
      modifies this
      requires Valid()
      ensures Valid() && tools == old(tools)[tool.name := tool] && inits == old(inits) + [tool]
      ensures current == old(current) && resets == old(resets) && hits == old(hits)
    {
      inits := inits + [tool];
      tools := tools[tool.name := tool];
    }

    method Use(name: string)
      modifies this
      requires Valid()
      ensures Valid() && State() == Used(old(State()), name)
      ensures inits == old(inits) && hits == old(hits)
    {
      if current.Some? && current.value.name == name {
        return;
      }
      if current.Some? {
        resets := resets + [current.value];
      }
      current := if name in tools then Some(tools[name]) else None;
    }

    method Restore()
      modifies this
      requires Valid()
      ensures Valid() && State() == Restored(old(State()))
      ensures inits == old(inits) && hits == old(hits)
    {
      current := None;
    }

    method AutoSelectTool(hit: Option<Target>, p: Vec, button: MouseButton)
      modifies this
      requires Valid()
      ensures Valid() && State() == AutoSelected(old(State()), hit, p, button)
      ensures inits == old(inits) && hits == old(hits)
    {
      if current.Some? && current.value.lock {
        return;
      }
      if button == MiddleButton {
        return;
      }
      if hit.Some? {
        if hit.value.NodeTarget? {
          var hitNode := IsInside(hit.value.shape, hit.value.pos, p);
          if hitNode.Some? && hitNode.value.BoxHit? {
            Use("selection");
            return;
          }
          if hitNode.Some? && hitNode.value.ConnectorHit? {
            Use("wire");
          }
        }
        if hit.value.WireTarget? {
          Use("selection");
        }
      } else {
        if button == LeftButton {
          Use("selection");
        } else {
          Restore();
        }
      }
    }

    /**
     * `getHits(pos)`: the broad phase collects, from `root`, the entities
     * whose bounding box contains `pos` (pruning below any that does not);
     * the candidates are sorted by layer, highest first, and the first
     * whose collider contains `pos` is the hit.
     */
    method GetHits(tree: SceneTree, root: nat, p: Vec, ghost rank: seq<nat>) returns (r: Option<nat>, cands: seq<nat>)
      modifies this
      requires Valid() && Inv(tree.ents, rank) && root < |tree.ents|
      ensures Valid() && State() == old(State()) && inits == old(inits)
      ensures IdsBelow(tree.ents, cands) && hits == SortByLayer(tree.ents, cands)
      ensures IdsBelow(tree.ents, hits)
      ensures r == FirstHit(tree.ents, hits, p)
      ensures forall k :: 0 <= k < |cands| ==> tree.ents[cands[k]].bounding.MouseIsInside(p)
      ensures WalkOrder(tree.ents, [root], cands)
      ensures tree.ents[root].bounding.MouseIsInside(p) ==> root in cands
      ensures forall x, c ::
                x in cands && c in tree.ents[x].children && c < |tree.ents| && tree.ents[c].bounding.MouseIsInside(p)
                ==> c in cands
      ensures cands == Bfs(tree.ents, rank, BoxHolds(p), [root])
    {
      hits := [];
      cands := tree.Traveler([root], BoxHolds(p), rank);
      hits := SortByLayer(tree.ents, cands);
      SortByLayerIds(tree.ents, cands);
      r := FirstHit(tree.ents, hits, p);
    }
  }
}
