/**
 * The entity scene tree (src/core/Entity.ts), as an arena.
 *
 * Every entity is an index into `SceneTree.ents`; its parent pointer and its
 * child list are indices too. `addChild` does not detach the child from a
 * previous parent, so a child may be listed by more than one entity: the
 * child lists form a directed graph whose edges need not agree with the
 * parent pointers. Walks that follow parents or children terminate only on
 * an acyclic structure, which the source assumes and never checks; here the
 * walks take a ghost `rank` that witnesses acyclicity (`Acyclic`).
 */
module Scene {
  import opened Wrappers
  import opened Vectors
  import opened Boxes
  import opened Colliders

  datatype EntityState = EntityState(
    parent: Option<nat>,
    children: seq<nat>,
    pos: Vec,
    bounding: Box,
    collider: Option<ColliderShape>,
    layer: int,
    dirty: bool,
    started: bool,
    startRuns: nat)   // how many times the `start` hook has run

  /** The state of `new Entity()`: detached, at the origin, dirty. */
  function NewState(layer: int): EntityState {
    EntityState(None, [], Vec(0.0, 0.0), Box(0.0, 0.0, Vec(0.0, 0.0)), None, layer, true, false, 0)
  }

  predicate LinksInRange(ents: seq<EntityState>, s: EntityState) {
    (s.parent.Some? ==> s.parent.value < |ents|) && AllBelow(s.children, |ents|)
  }

  predicate ValidEnts(ents: seq<EntityState>) {
    forall i :: 0 <= i < |ents| ==>
      LinksInRange(ents, ents[i]) && ents[i].startRuns == (if ents[i].started then 1 else 0)
  }

  /**
   * `rank` strictly decreases from an entity to each entity it lists as a
   * child, and strictly increases from an entity to its parent.
   */
  predicate Acyclic(ents: seq<EntityState>, rank: seq<nat>) {
    |rank| == |ents| &&
    (forall i :: 0 <= i < |ents| ==> rank[i] < |ents|) &&
    (forall i :: 0 <= i < |ents| && ents[i].parent.Some? && ents[i].parent.value < |ents| ==>
       rank[i] < rank[ents[i].parent.value]) &&
    (forall i, k :: 0 <= i < |ents| && 0 <= k < |ents[i].children| && ents[i].children[k] < |ents| ==>
       rank[ents[i].children[k]] < rank[i])
  }

  predicate Inv(ents: seq<EntityState>, rank: seq<nat>) {
    ValidEnts(ents) && Acyclic(ents, rank)
  }

  /** The two states have the same parent pointers and child lists. */
  predicate SameLinks(a: seq<EntityState>, b: seq<EntityState>) {
    |a| == |b| && forall i :: 0 <= i < |a| ==> a[i].parent == b[i].parent && a[i].children == b[i].children
  }

  /** The entity and every ancestor on its parent chain. */
  ghost function Ancestry(ents: seq<EntityState>, rank: seq<nat>, e: nat): set<nat>
    requires Inv(ents, rank) && e < |ents|
    decreases |ents| - rank[e]
  {
    {e} + match ents[e].parent
          case None => {}
          case Some(p) => Ancestry(ents, rank, p)
  }

  /** Every entity reachable through child lists, at any depth. */
  ghost function Descendants(ents: seq<EntityState>, rank: seq<nat>, e: nat): set<nat>
    requires Inv(ents, rank) && e < |ents|
    decreases rank[e]
  {
    set c, d | c in ents[e].children && d in {c} + Descendants(ents, rank, c) :: d
  }

  /** The number of paths that start at `e` and follow child lists. */
  ghost function Weight(ents: seq<EntityState>, rank: seq<nat>, e: nat): nat
    requires Inv(ents, rank) && e < |ents|
    decreases rank[e], 1
  {
    1 + SumWeight(ents, rank, ents[e].children, rank[e])
  }

  ghost function SumWeight(ents: seq<EntityState>, rank: seq<nat>, cs: seq<nat>, bound: nat): nat
    requires Inv(ents, rank)
    requires forall k :: 0 <= k < |cs| ==> cs[k] < |ents| && rank[cs[k]] < bound
    decreases bound, 0, |cs|
  {
    if cs == [] then 0 else Weight(ents, rank, cs[0]) + SumWeight(ents, rank, cs[1..], bound)
  }

  predicate AllBelow(l: seq<nat>, n: nat) {
    forall k :: 0 <= k < |l| ==> l[k] < n
  }

  /** A worklist of entities, weighed with a bound that holds for every rank. */
  ghost function ListWeight(ents: seq<EntityState>, rank: seq<nat>, l: seq<nat>): nat
    requires Inv(ents, rank)
    requires AllBelow(l, |ents|)
  {
    SumWeight(ents, rank, l, |ents|)
  }

  lemma SumWeightBound(ents: seq<EntityState>, rank: seq<nat>, cs: seq<nat>, b1: nat, b2: nat)
    requires Inv(ents, rank)
    requires forall k :: 0 <= k < |cs| ==> cs[k] < |ents| && rank[cs[k]] < b1 && rank[cs[k]] < b2
    ensures SumWeight(ents, rank, cs, b1) == SumWeight(ents, rank, cs, b2)
    decreases |cs|
  {
    if cs != [] {
      SumWeightBound(ents, rank, cs[1..], b1, b2);
    }
  }

  lemma {:induction false} ListWeightAppend(ents: seq<EntityState>, rank: seq<nat>, s: seq<nat>, t: seq<nat>)
    requires Inv(ents, rank)
    requires AllBelow(s, |ents|) && AllBelow(t, |ents|)
    ensures ListWeight(ents, rank, s + t) == ListWeight(ents, rank, s) + ListWeight(ents, rank, t)
    decreases |s|
  {
    if s == [] {
      assert s + t == t;
    } else {
      assert (s + t)[1..] == s[1..] + t;
      ListWeightAppend(ents, rank, s[1..], t);
    }
  }

  /** Replacing the head of a worklist by its children lowers the weight by one. */
  lemma ListWeightStep(ents: seq<EntityState>, rank: seq<nat>, l: seq<nat>)
    requires Inv(ents, rank) && |l| > 0 && AllBelow(l, |ents|)
    ensures AllBelow(ents[l[0]].children, |ents|)
    ensures ListWeight(ents, rank, l[1..] + ents[l[0]].children) + 1 == ListWeight(ents, rank, l)
    ensures ListWeight(ents, rank, l[1..]) < ListWeight(ents, rank, l)
  {
    var cs := ents[l[0]].children;
    assert LinksInRange(ents, ents[l[0]]);
    ListWeightAppend(ents, rank, l[1..], cs);
    SumWeightBound(ents, rank, cs, rank[l[0]], |ents|);
    assert ListWeight(ents, rank, l) == Weight(ents, rank, l[0]) + ListWeight(ents, rank, l[1..]);
    assert Weight(ents, rank, l[0]) == 1 + ListWeight(ents, rank, cs);
  }

  /** Descendants are closed under taking children. */
  lemma {:induction false} DescendantsClosed(ents: seq<EntityState>, rank: seq<nat>, e: nat, x: nat, c: nat)
    requires Inv(ents, rank) && e < |ents|
    requires x < |ents| && x in Descendants(ents, rank, e) && c in ents[x].children
    ensures c in Descendants(ents, rank, e)
    decreases rank[e]
  {
    var c0 :| c0 in ents[e].children && x in {c0} + Descendants(ents, rank, c0);
    if x == c0 {
      ChildrenAreDescendants(ents, rank, c0);
      assert c in {c0} + Descendants(ents, rank, c0);
    } else {
      DescendantsClosed(ents, rank, c0, x, c);
      assert c in {c0} + Descendants(ents, rank, c0);
    }
  }

  /** Any set that holds the children of `e` and is closed holds all descendants. */
  lemma {:induction false} ClosedContainsDescendants(ents: seq<EntityState>, rank: seq<nat>, e: nat, s: set<nat>)
    requires Inv(ents, rank) && e < |ents|
    requires forall c :: c in ents[e].children ==> c in s
    requires forall x, c :: x in s && x < |ents| && c in ents[x].children ==> c in s
    ensures Descendants(ents, rank, e) <= s
    decreases rank[e]
  {
    forall c | c in ents[e].children
      ensures Descendants(ents, rank, c) <= s
    {
      ClosedContainsDescendants(ents, rank, c, s);
    }
  }

  lemma {:induction false} DescendantsInRange(ents: seq<EntityState>, rank: seq<nat>, e: nat)
    requires Inv(ents, rank) && e < |ents|
    ensures forall d :: d in Descendants(ents, rank, e) ==> d < |ents|
    decreases rank[e]
  {
    forall c | c in ents[e].children
      ensures forall d :: d in Descendants(ents, rank, c) ==> d < |ents|
    {
      DescendantsInRange(ents, rank, c);
    }
  }

  lemma ChildrenAreDescendants(ents: seq<EntityState>, rank: seq<nat>, e: nat)
    requires Inv(ents, rank) && e < |ents|
    ensures forall c :: c in ents[e].children ==> c in Descendants(ents, rank, e)
  {
    forall c | c in ents[e].children ensures c in Descendants(ents, rank, e) {
      assert c in {c} + Descendants(ents, rank, c);
    }
  }

  lemma InvSameLinks(a: seq<EntityState>, b: seq<EntityState>, rank: seq<nat>)
    requires Inv(a, rank) && SameLinks(a, b)
    requires forall i :: 0 <= i < |b| ==> b[i].startRuns == (if b[i].started then 1 else 0)
    ensures Inv(b, rank)
  {
    assert forall i :: 0 <= i < |a| ==> LinksInRange(b, b[i]) by {
      forall i | 0 <= i < |a| ensures LinksInRange(b, b[i]) {
        assert LinksInRange(a, a[i]);
      }
    }
  }

  lemma {:induction false} AncestrySameLinks(a: seq<EntityState>, b: seq<EntityState>, rank: seq<nat>, e: nat)
    requires Inv(a, rank) && Inv(b, rank) && SameLinks(a, b) && e < |a|
    ensures Ancestry(a, rank, e) == Ancestry(b, rank, e)
    decreases |a| - rank[e]
  {
    if a[e].parent.Some? {
      AncestrySameLinks(a, b, rank, a[e].parent.value);
    }
  }

  lemma {:induction false} AncestryInRange(ents: seq<EntityState>, rank: seq<nat>, e: nat)
    requires Inv(ents, rank) && e < |ents|
    ensures e in Ancestry(ents, rank, e)
    ensures forall a :: a in Ancestry(ents, rank, e) ==> a < |ents|
    decreases |ents| - rank[e]
  {
    if ents[e].parent.Some? {
      AncestryInRange(ents, rank, ents[e].parent.value);
    }
  }

  /** The state after `markDirty(e)`: the entity and its ancestors dirty. */
  ghost function DirtyUp(ents: seq<EntityState>, rank: seq<nat>, e: nat): (r: seq<EntityState>)
    requires Inv(ents, rank) && e < |ents|
    ensures |r| == |ents|
  {
    seq(|ents|, i requires 0 <= i < |ents| =>
      if i in Ancestry(ents, rank, e) then ents[i].(dirty := true) else ents[i])
  }

  lemma DirtyUpKeepsInv(ents: seq<EntityState>, rank: seq<nat>, e: nat)
    requires Inv(ents, rank) && e < |ents|
    ensures Inv(DirtyUp(ents, rank, e), rank) && SameLinks(ents, DirtyUp(ents, rank, e))
  {
    InvSameLinks(ents, DirtyUp(ents, rank, e), rank);
  }

  /** Flagging `e` first and then its parent's chain is flagging the chain of `e`. */
  lemma DirtyUpStep(ents0: seq<EntityState>, rank: seq<nat>, e: nat)
    requires Inv(ents0, rank) && e < |ents0|
    ensures Inv(ents0[e := ents0[e].(dirty := true)], rank)
    ensures ents0[e].parent.None? ==> DirtyUp(ents0, rank, e) == ents0[e := ents0[e].(dirty := true)]
    ensures ents0[e].parent.Some? ==>
      DirtyUp(ents0[e := ents0[e].(dirty := true)], rank, ents0[e].parent.value) == DirtyUp(ents0, rank, e)
  {
    var ents1 := ents0[e := ents0[e].(dirty := true)];
    InvSameLinks(ents0, ents1, rank);
    var whole := DirtyUp(ents0, rank, e);
    if ents0[e].parent.Some? {
      var p := ents0[e].parent.value;
      AncestrySameLinks(ents0, ents1, rank, p);
      var up := DirtyUp(ents1, rank, p);
      forall i | 0 <= i < |ents0| ensures up[i] == whole[i] {
      }
    } else {
      forall i | 0 <= i < |ents0| ensures ents1[i] == whole[i] {
      }
    }
  }

  /** `markDirty` on each entity of `ws` in turn. */
  ghost function MarkAll(ents: seq<EntityState>, rank: seq<nat>, ws: seq<nat>): (r: seq<EntityState>)
    requires Inv(ents, rank) && AllBelow(ws, |ents|)
    ensures Inv(r, rank) && SameLinks(ents, r)
    decreases |ws|
  {
    if ws == [] then ents
    else
      var front := ws[..|ws| - 1];
      assert AllBelow(front, |ents|) by {
        forall k | 0 <= k < |front| ensures front[k] < |ents| { assert front[k] == ws[k]; }
      }
      var prev := MarkAll(ents, rank, front);
      DirtyUpKeepsInv(prev, rank, ws[|ws| - 1]);
      DirtyUp(prev, rank, ws[|ws| - 1])
  }

  /** `i` lies on the ancestor chain of some member of `ws`. */
  ghost predicate Touched(ents: seq<EntityState>, rank: seq<nat>, ws: seq<nat>, i: nat)
    requires Inv(ents, rank) && AllBelow(ws, |ents|)
  {
    exists k :: 0 <= k < |ws| && i in Ancestry(ents, rank, ws[k])
  }

  lemma TouchedSnoc(ents: seq<EntityState>, rank: seq<nat>, ws: seq<nat>, i: nat)
    requires Inv(ents, rank) && AllBelow(ws, |ents|) && |ws| > 0
    ensures AllBelow(ws[..|ws| - 1], |ents|)
    ensures Touched(ents, rank, ws, i) <==>
            Touched(ents, rank, ws[..|ws| - 1], i) || i in Ancestry(ents, rank, ws[|ws| - 1])
  {
    var n := |ws| - 1;
    var front := ws[..n];
    assert forall k :: 0 <= k < n ==> front[k] == ws[k];
    if Touched(ents, rank, ws, i) {
      var k :| 0 <= k < |ws| && i in Ancestry(ents, rank, ws[k]);
      if k < n {
        assert i in Ancestry(ents, rank, front[k]);
      }
    }
    if Touched(ents, rank, front, i) {
      var k :| 0 <= k < n && i in Ancestry(ents, rank, front[k]);
      assert i in Ancestry(ents, rank, ws[k]);
    }
  }

  /**
   * After marking every entity of `ws` dirty, exactly the entities on the
   * ancestor chain of some member of `ws` have become dirty, and no other
   * field changed.
   */
  lemma {:induction false} MarkAllDirtyIff(ents: seq<EntityState>, rank: seq<nat>, ws: seq<nat>, i: nat)
    requires Inv(ents, rank) && AllBelow(ws, |ents|) && i < |ents|
    ensures MarkAll(ents, rank, ws)[i] == ents[i].(dirty := MarkAll(ents, rank, ws)[i].dirty)
    ensures MarkAll(ents, rank, ws)[i].dirty <==> ents[i].dirty || Touched(ents, rank, ws, i)
    decreases |ws|
  {
    if ws != [] {
      var n := |ws| - 1;
      TouchedSnoc(ents, rank, ws, i);
      var front := ws[..n];
      MarkAllDirtyIff(ents, rank, front, i);
      var prev := MarkAll(ents, rank, front);
      AncestrySameLinks(ents, prev, rank, ws[n]);
    }
  }

  /** Marking one more entity extends the fold by one `DirtyUp`. */
  lemma MarkAllPrefix(ents: seq<EntityState>, rank: seq<nat>, ws: seq<nat>, j: nat)
    requires Inv(ents, rank) && AllBelow(ws, |ents|) && j < |ws|
    ensures AllBelow(ws[..j], |ents|) && AllBelow(ws[..j + 1], |ents|)
    ensures MarkAll(ents, rank, ws[..j + 1]) == DirtyUp(MarkAll(ents, rank, ws[..j]), rank, ws[j])
  {
    assert ws[..j + 1][..j] == ws[..j];
  }

  /** Every entity of a walk is a start or a child of an entity earlier in the walk. */
  predicate WalkOrder(ents: seq<EntityState>, starts: seq<nat>, out: seq<nat>)
    requires AllBelow(out, |ents|)
  {
    forall k :: 0 <= k < |out| ==> out[k] in starts || exists j :: 0 <= j < k && out[k] in ents[out[j]].children
  }

  /** The state of the walk: `l` is the worklist, `popped` what was taken from it. */
  ghost predicate Frontier(ents: seq<EntityState>, starts: seq<nat>, pred: EntityState -> bool,
                           l: seq<nat>, out: seq<nat>, popped: seq<nat>)
  {
    AllBelow(l, |ents|) && AllBelow(out, |ents|) &&
    (forall k :: 0 <= k < |out| ==> pred(ents[out[k]])) &&
    WalkOrder(ents, starts, out) &&
    (forall y :: y in l ==> y in starts || exists j :: 0 <= j < |out| && y in ents[out[j]].children) &&
    (forall s :: s in starts ==> s in popped || s in l) &&
    (forall x, c :: x in out && x < |ents| && c in ents[x].children ==> c in popped || c in l) &&
    (forall x :: x in popped && x < |ents| && pred(ents[x]) ==> x in out)
  }

  lemma FrontierVisit(ents: seq<EntityState>, starts: seq<nat>, pred: EntityState -> bool,
                      l: seq<nat>, out: seq<nat>, popped: seq<nat>)
    requires ValidEnts(ents) && Frontier(ents, starts, pred, l, out, popped) && |l| > 0
    requires pred(ents[l[0]])
    ensures Frontier(ents, starts, pred, l[1..] + ents[l[0]].children, out + [l[0]], popped + [l[0]])
  {
    var item := l[0];
    var cs := ents[item].children;
    var l' := l[1..] + cs;
    assert LinksInRange(ents, ents[item]);
    assert forall y :: y in l' ==> y in l[1..] || y in cs;
    assert forall y :: y in l[1..] ==> y in l;
    assert AllBelow(l', |ents|);
    VisitKeepsOrder(ents, starts, l, out);
    VisitKeepsOrigins(ents, starts, l, out);
    VisitKeepsCoverage(ents, starts, l, out, popped);
  }

  lemma VisitKeepsOrder(ents: seq<EntityState>, starts: seq<nat>, l: seq<nat>, out: seq<nat>)
    requires AllBelow(l, |ents|) && AllBelow(out, |ents|) && |l| > 0
    requires WalkOrder(ents, starts, out)
    requires forall y :: y in l ==> y in starts || exists j :: 0 <= j < |out| && y in ents[out[j]].children
    ensures AllBelow(out + [l[0]], |ents|) && WalkOrder(ents, starts, out + [l[0]])
  {
    var item := l[0];
    var out' := out + [item];
    assert AllBelow(out', |ents|);
    forall k | 0 <= k < |out'|
      ensures out'[k] in starts || exists j :: 0 <= j < k && out'[k] in ents[out'[j]].children
    {
      if k < |out| {
        assert out'[k] == out[k];
        if out[k] !in starts {
          var j :| 0 <= j < k && out[k] in ents[out[j]].children;
          assert out'[j] == out[j];
        }
      } else {
        assert out'[k] == item && item in l;
        if item !in starts {
          var j :| 0 <= j < |out| && item in ents[out[j]].children;
          assert out'[j] == out[j];
        }
      }
    }
  }

  lemma VisitKeepsOrigins(ents: seq<EntityState>, starts: seq<nat>, l: seq<nat>, out: seq<nat>)
    requires AllBelow(l, |ents|) && AllBelow(out, |ents|) && |l| > 0
    requires forall y :: y in l ==> y in starts || exists j :: 0 <= j < |out| && y in ents[out[j]].children
    ensures var out' := out + [l[0]];
            forall y :: y in l[1..] + ents[l[0]].children ==>
              y in starts || exists j :: 0 <= j < |out'| && y in ents[out'[j]].children
  {
    var item := l[0];
    var cs := ents[item].children;
    var out' := out + [item];
    forall y | y in l[1..] + cs
      ensures y in starts || exists j :: 0 <= j < |out'| && y in ents[out'[j]].children
    {
      if y in cs {
        assert out'[|out|] == item;
      } else {
        assert y in l[1..];
        assert y in l;
        if y !in starts {
          var j :| 0 <= j < |out| && y in ents[out[j]].children;
          assert out'[j] == out[j];
        }
      }
    }
  }

  lemma VisitKeepsCoverage(ents: seq<EntityState>, starts: seq<nat>, l: seq<nat>, out: seq<nat>, popped: seq<nat>)
    requires AllBelow(l, |ents|) && |l| > 0
    requires forall s :: s in starts ==> s in popped || s in l
    requires forall x, c :: x in out && x < |ents| && c in ents[x].children ==> c in popped || c in l
    ensures var l', out', popped' := l[1..] + ents[l[0]].children, out + [l[0]], popped + [l[0]];
            (forall s :: s in starts ==> s in popped' || s in l') &&
            (forall x, c :: x in out' && x < |ents| && c in ents[x].children ==> c in popped' || c in l')
  {
    var item := l[0];
    var l', out', popped' := l[1..] + ents[item].children, out + [item], popped + [item];
    assert l == [item] + l[1..];
    forall x, c | x in out' && x < |ents| && c in ents[x].children
      ensures c in popped' || c in l'
    {
      if x != item {
        assert x in out;
        if c in l && c != item {
          assert c in l[1..];
        }
      }
    }
    forall s | s in starts ensures s in popped' || s in l' {
      if s in l && s != item {
        assert s in l[1..];
      }
    }
  }

  lemma FrontierPrune(ents: seq<EntityState>, starts: seq<nat>, pred: EntityState -> bool,
                      l: seq<nat>, out: seq<nat>, popped: seq<nat>)
    requires ValidEnts(ents) && Frontier(ents, starts, pred, l, out, popped) && |l| > 0
    requires !pred(ents[l[0]])
    ensures Frontier(ents, starts, pred, l[1..], out, popped + [l[0]])
  {
    var item := l[0];
    var popped' := popped + [item];
    assert forall y :: y in l[1..] ==> y in l;
    assert l == [item] + l[1..];
    assert AllBelow(l[1..], |ents|);
    forall x, c | x in out && x < |ents| && c in ents[x].children
      ensures c in popped' || c in l[1..]
    {
      if c in l && c != item {
        assert c in l[1..];
      }
    }
    forall s | s in starts ensures s in popped' || s in l[1..] {
      if s in l && s != item {
        assert s in l[1..];
      }
    }
  }

  /**
   * The breadth-first walk of `traveler` as a recursion on its worklist:
   * take the front; if it passes, emit it and queue its children at the
   * back, otherwise drop it and everything below it.
   */
  ghost function Bfs(ents: seq<EntityState>, rank: seq<nat>, pred: EntityState -> bool, l: seq<nat>): seq<nat>
    requires Inv(ents, rank) && AllBelow(l, |ents|)
    decreases ListWeight(ents, rank, l)
  {
    if l == [] then []
    else
      ListWeightStep(ents, rank, l);
      if pred(ents[l[0]]) then [l[0]] + Bfs(ents, rank, pred, l[1..] + ents[l[0]].children)
      else Bfs(ents, rank, pred, l[1..])
  }

  /** One step of the walk on a non-empty worklist. */
  lemma BfsStep(ents: seq<EntityState>, rank: seq<nat>, pred: EntityState -> bool, out: seq<nat>, l: seq<nat>)
    requires Inv(ents, rank) && AllBelow(l, |ents|) && |l| > 0
    ensures AllBelow(ents[l[0]].children, |ents|) && AllBelow(l[1..], |ents|)
    ensures pred(ents[l[0]]) ==>
      out + Bfs(ents, rank, pred, l) == (out + [l[0]]) + Bfs(ents, rank, pred, l[1..] + ents[l[0]].children)
    ensures !pred(ents[l[0]]) ==> out + Bfs(ents, rank, pred, l) == out + Bfs(ents, rank, pred, l[1..])
  {
    ListWeightStep(ents, rank, l);
  }

  /**
   * Queue order comes first: when the first `n` queued entities pass, the
   * walk emits exactly them, in queue order, before anything found below
   * them.
   */
  lemma {:induction false} BfsQueueFirst(ents: seq<EntityState>, rank: seq<nat>, pred: EntityState -> bool, l: seq<nat>, n: nat)
    requires Inv(ents, rank) && AllBelow(l, |ents|) && n <= |l|
    requires forall k :: 0 <= k < n ==> pred(ents[l[k]])
    ensures n <= |Bfs(ents, rank, pred, l)| && Bfs(ents, rank, pred, l)[..n] == l[..n]
    decreases n
  {
    if n > 0 {
      ListWeightStep(ents, rank, l);
      var l' := l[1..] + ents[l[0]].children;
      assert forall k :: 0 <= k < n - 1 ==> l'[k] == l[k + 1];
      BfsQueueFirst(ents, rank, pred, l', n - 1);
      assert Bfs(ents, rank, pred, l) == [l[0]] + Bfs(ents, rank, pred, l');
    }
  }

  /** From one passing start whose children all pass, the walk begins with it and then its children in order. */
  lemma BfsChildrenInOrder(ents: seq<EntityState>, rank: seq<nat>, pred: EntityState -> bool, r: nat)
    requires Inv(ents, rank) && r < |ents| && pred(ents[r])
    requires forall k :: 0 <= k < |ents[r].children| ==> pred(ents[ents[r].children[k]])
    ensures var cs := ents[r].children;
            1 + |cs| <= |Bfs(ents, rank, pred, [r])| && Bfs(ents, rank, pred, [r])[..1 + |cs|] == [r] + cs
  {
    var cs := ents[r].children;
    ListWeightStep(ents, rank, [r]);
    assert [r][1..] + cs == cs;
    BfsQueueFirst(ents, rank, pred, cs, |cs|);
    assert cs[..|cs|] == cs;
  }

  /** A set of entities that holds the children of each of its members. */
  predicate Closed(ents: seq<EntityState>, ds: set<nat>) {
    forall x, c :: x in ds && x < |ents| && c in ents[x].children ==> c in ds
  }

  lemma DescendantsAreClosed(ents: seq<EntityState>, rank: seq<nat>, e: nat)
    requires Inv(ents, rank) && e < |ents|
    ensures Closed(ents, Descendants(ents, rank, e))
  {
    forall x, c | x in Descendants(ents, rank, e) && x < |ents| && c in ents[x].children
      ensures c in Descendants(ents, rank, e)
    {
      DescendantsClosed(ents, rank, e, x, c);
    }
  }

  /**
   * The state of `calcBounding`'s worklist after `i` items: every listed
   * entity is in `ds`, and the `roots` and the children of every item
   * already taken are listed.
   */
  predicate Scan(ents: seq<EntityState>, ds: set<nat>, roots: seq<nat>, l: seq<nat>, i: int) {
    0 <= i <= |l| && AllBelow(l, |ents|) &&
    (forall k :: 0 <= k < |l| ==> l[k] in ds) &&
    (forall c :: c in roots ==> c in l) &&
    (forall k, c :: 0 <= k < i && c in ents[l[k]].children ==> c in l)
  }

  lemma ScanStep(ents: seq<EntityState>, ds: set<nat>, roots: seq<nat>, l: seq<nat>, i: int)
    requires ValidEnts(ents) && Closed(ents, ds) && Scan(ents, ds, roots, l, i) && i < |l|
    ensures Scan(ents, ds, roots, l + ents[l[i]].children, i + 1)
    ensures (l + ents[l[i]].children)[..i + 1] == l[..i + 1]
  {
    var item := l[i];
    var cs := ents[item].children;
    var l' := l + cs;
    assert LinksInRange(ents, ents[item]);
    assert item in ds;
    forall k | 0 <= k < |l'| ensures l'[k] in ds && l'[k] < |ents| {
      if k >= |l| {
        assert l'[k] == cs[k - |l|];
      }
    }
    forall k, c | 0 <= k < i + 1 && c in ents[l'[k]].children ensures c in l' {
      if k == i {
        assert c in l'[|l|..];
      }
    }
  }

  /** The entities a list holds. */
  function Listed(l: seq<nat>): set<nat> {
    set k | 0 <= k < |l| :: l[k]
  }

  /** A finished scan lists a closed set holding the roots and lying inside `ds`. */
  lemma ScanEnd(ents: seq<EntityState>, ds: set<nat>, roots: seq<nat>, l: seq<nat>)
    requires Scan(ents, ds, roots, l, |l|)
    ensures Listed(l) <= ds && Closed(ents, Listed(l))
    ensures forall c :: c in roots ==> c in Listed(l)
  {
    forall c | c in roots ensures c in Listed(l) {
      var k :| 0 <= k < |l| && l[k] == c;
    }
    forall x, c | x in Listed(l) && x < |ents| && c in ents[x].children ensures c in Listed(l) {
      var k :| 0 <= k < |l| && l[k] == x;
      assert c in l;
      var j :| 0 <= j < |l| && l[j] == c;
    }
  }

  /** Popping the head of the queue and appending children, as sequence identities. */
  lemma QueueShift(q: seq<nat>, i: nat, cs: seq<nat>)
    requires i < |q|
    ensures q[i..][1..] + cs == (q + cs)[i + 1..]
    ensures (q + cs)[..i + 1] == q[..i] + [q[i]]
  {
  }

  /** One turn of the worklist loop keeps the scan invariant, widens by the item taken, and shrinks the work left. */
  lemma ScanTurn(ents: seq<EntityState>, roots: seq<nat>, rank: seq<nat>, ds: set<nat>, q: seq<nat>, i: nat)
    requires Inv(ents, rank) && Closed(ents, ds) && Scan(ents, ds, roots, q, i) && i < |q|
    ensures Scan(ents, ds, roots, q + ents[q[i]].children, i + 1)
    ensures AllBelow(q[..i], |ents|) && AllBelow((q + ents[q[i]].children)[..i + 1], |ents|)
    ensures ExtremesOf(ents, (q + ents[q[i]].children)[..i + 1]) == Some(Widen(ExtremesOf(ents, q[..i]), ents[q[i]].bounding))
    ensures ListWeight(ents, rank, (q + ents[q[i]].children)[i + 1..]) < ListWeight(ents, rank, q[i..])
  {
    var item := q[i];
    ListWeightStep(ents, rank, q[i..]);
    QueueShift(q, i, ents[item].children);
    ScanStep(ents, ds, roots, q, i);
    var taken := (q + ents[item].children)[..i + 1];
    assert taken[..i] == q[..i];
  }

  /**
   * The loop of `calcBounding`: a worklist seeded with `roots` that appends
   * the children of every item it takes and widens the running extremes by
   * the item's bounding box. It ends listing a closed set that holds the
   * roots and lies inside any closed `ds` around them, with the extremes of
   * the bounding boxes of what it listed.
   */
  method ScanEdges(ents: seq<EntityState>, roots: seq<nat>, ghost rank: seq<nat>, ghost ds: set<nat>)
    returns (edges: Option<Edges>, ghost l: seq<nat>)
    requires Inv(ents, rank) && AllBelow(roots, |ents|)
    requires Closed(ents, ds) && forall c :: c in roots ==> c in ds
    ensures AllBelow(l, |ents|) && Listed(l) <= ds && Closed(ents, Listed(l))
    ensures forall c :: c in roots ==> c in Listed(l)
    ensures edges == ExtremesOf(ents, l) && Extremes(ents, l, edges)
    ensures edges.None? <==> roots == []
  {
    var q := roots;
    var i := 0;
    edges := None;
    while i < |q|
      invariant Scan(ents, ds, roots, q, i)
      invariant AllBelow(q[..i], |ents|) && edges == ExtremesOf(ents, q[..i])
      invariant roots == [] ==> q == []
      decreases ListWeight(ents, rank, q[i..])
    {
      var item := q[i];
      ScanTurn(ents, roots, rank, ds, q, i);
      edges := Some(Widen(edges, ents[item].bounding));
      q := q + ents[item].children;
      i := i + 1;
    }
    assert q[..i] == q;
    ScanEnd(ents, ds, roots, q);
    ExtremesOfMeets(ents, q);
    l := q;
    if roots != [] {
      assert roots[0] in Listed(l);
    }
  }

  /** The smallest box around the bounding boxes of the entities in `ds`. */
  predicate IsHull(ents: seq<EntityState>, ds: set<nat>, b: Box)
    requires forall d :: d in ds ==> d < |ents|
  {
    (forall d :: d in ds ==>
       b.Left() <= ents[d].bounding.Left() && ents[d].bounding.Right() <= b.Right() &&
       b.Top() <= ents[d].bounding.Top() && ents[d].bounding.Bottom() <= b.Bottom()) &&
    (exists d :: d in ds && b.Left() == ents[d].bounding.Left()) &&
    (exists d :: d in ds && b.Right() == ents[d].bounding.Right()) &&
    (exists d :: d in ds && b.Top() == ents[d].bounding.Top()) &&
    (exists d :: d in ds && b.Bottom() == ents[d].bounding.Bottom())
  }

  /** Running extremes of bounding edges: left, top, right, bottom. */
  datatype Edges = Edges(minX: real, minY: real, maxX: real, maxY: real)

  function Min(a: real, b: real): real { if b < a then b else a }
  function Max(a: real, b: real): real { if b > a then b else a }

  /**
   * One step of `Math.min`/`Math.max` over a bounding box. `None` stands for
   * the initial state (minimums at +Infinity, maximums at -Infinity), which
   * any box replaces.
   */
  function Widen(o: Option<Edges>, bb: Box): Edges {
    match o
    case None => Edges(bb.Left(), bb.Top(), bb.Right(), bb.Bottom())
    case Some(ed) => Edges(Min(ed.minX, bb.Left()), Min(ed.minY, bb.Top()),
                           Max(ed.maxX, bb.Right()), Max(ed.maxY, bb.Bottom()))
  }

  /** `o` holds the extremes of the bounding edges of `items`, each attained; `None` for no items. */
  predicate Extremes(ents: seq<EntityState>, items: seq<nat>, o: Option<Edges>)
    requires AllBelow(items, |ents|)
  {
    (o.None? <==> |items| == 0) &&
    (o.Some? ==>
      var ed := o.value;
      (forall k :: 0 <= k < |items| ==>
         ed.minX <= ents[items[k]].bounding.Left() && ents[items[k]].bounding.Right() <= ed.maxX &&
         ed.minY <= ents[items[k]].bounding.Top() && ents[items[k]].bounding.Bottom() <= ed.maxY) &&
      (exists k :: 0 <= k < |items| && ed.minX == ents[items[k]].bounding.Left()) &&
      (exists k :: 0 <= k < |items| && ed.maxX == ents[items[k]].bounding.Right()) &&
      (exists k :: 0 <= k < |items| && ed.minY == ents[items[k]].bounding.Top()) &&
      (exists k :: 0 <= k < |items| && ed.maxY == ents[items[k]].bounding.Bottom()))
  }

  lemma ExtremesStep(ents: seq<EntityState>, items: seq<nat>, x: nat, o: Option<Edges>)
    requires AllBelow(items, |ents|) && x < |ents| && Extremes(ents, items, o)
    ensures AllBelow(items + [x], |ents|)
    ensures Extremes(ents, items + [x], Some(Widen(o, ents[x].bounding)))
  {
    var s := items + [x];
    assert s[|items|] == x;
    assert forall k :: 0 <= k < |items| ==> s[k] == items[k];
    if o.Some? {
      var ed := o.value;
      var k1 :| 0 <= k1 < |items| && ed.minX == ents[items[k1]].bounding.Left();
      var k2 :| 0 <= k2 < |items| && ed.maxX == ents[items[k2]].bounding.Right();
      var k3 :| 0 <= k3 < |items| && ed.minY == ents[items[k3]].bounding.Top();
      var k4 :| 0 <= k4 < |items| && ed.maxY == ents[items[k4]].bounding.Bottom();
      assert s[k1] == items[k1] && s[k2] == items[k2] && s[k3] == items[k3] && s[k4] == items[k4];
    }
  }

  /** The running extremes after widening by the bounding boxes of `items`, in order. */
  function ExtremesOf(ents: seq<EntityState>, items: seq<nat>): Option<Edges>
    requires AllBelow(items, |ents|)
  {
    if items == [] then None
    else
      var front := items[..|items| - 1];
      assert AllBelow(front, |ents|) by {
        forall k | 0 <= k < |front| ensures front[k] < |ents| {
          assert front[k] == items[k];
        }
      }
      Some(Widen(ExtremesOf(ents, front), ents[items[|items| - 1]].bounding))
  }

  /** Widening box by box yields the extremes of all the boxes, each one attained. */
  lemma {:induction false} ExtremesOfMeets(ents: seq<EntityState>, items: seq<nat>)
    requires AllBelow(items, |ents|)
    ensures Extremes(ents, items, ExtremesOf(ents, items))
    decreases |items|
  {
    if items != [] {
      var front := items[..|items| - 1];
      var x := items[|items| - 1];
      ExtremesOfMeets(ents, front);
      ExtremesStep(ents, front, x, ExtremesOf(ents, front));
      assert items == front + [x];
    }
  }

  /** The box `calcBounding` builds from the extremes. */
  function EdgesBox(ed: Edges): Box {
    Box(ed.maxX - ed.minX, ed.maxY - ed.minY, Vec((ed.minX + ed.maxX) / 2.0, (ed.minY + ed.maxY) / 2.0))
  }

  lemma HullOfExtremes(ents: seq<EntityState>, l: seq<nat>, ed: Edges)
    requires AllBelow(l, |ents|) && Extremes(ents, l, Some(ed))
    ensures forall d :: d in Listed(l) ==> d < |ents|
    ensures IsHull(ents, Listed(l), EdgesBox(ed))
  {
    var b := EdgesBox(ed);
    var ds := Listed(l);
    assert b.Left() == ed.minX && b.Right() == ed.maxX && b.Top() == ed.minY && b.Bottom() == ed.maxY;
    forall d | d in ds
      ensures d < |ents|
      ensures b.Left() <= ents[d].bounding.Left() && ents[d].bounding.Right() <= b.Right()
           && b.Top() <= ents[d].bounding.Top() && ents[d].bounding.Bottom() <= b.Bottom()
    {
      var k :| 0 <= k < |l| && d == l[k];
    }
    var k1 :| 0 <= k1 < |l| && ed.minX == ents[l[k1]].bounding.Left();
    var k2 :| 0 <= k2 < |l| && ed.maxX == ents[l[k2]].bounding.Right();
    var k3 :| 0 <= k3 < |l| && ed.minY == ents[l[k3]].bounding.Top();
    var k4 :| 0 <= k4 < |l| && ed.maxY == ents[l[k4]].bounding.Bottom();
    assert l[k1] in ds && l[k2] in ds && l[k3] in ds && l[k4] in ds;
  }

  /**
   * The box `calcBounding` promises for a set of descendants: a 0x0 box at
   * the entity position when there are none, otherwise their hull.
   */
  predicate BoundingOf(ents: seq<EntityState>, ds: set<nat>, pos: Vec, b: Box)
    requires forall d :: d in ds ==> d < |ents|
  {
    if ds == {} then b == Box(0.0, 0.0, pos) else IsHull(ents, ds, b)
  }

  /** What `Entity.calcBounding(e)` returns. */
  ghost predicate IsCalcBounding(ents: seq<EntityState>, rank: seq<nat>, e: nat, b: Box)
    requires Inv(ents, rank) && e < |ents|
  {
    DescendantsInRange(ents, rank, e);
    BoundingOf(ents, Descendants(ents, rank, e), ents[e].pos, b)
  }

  /**
   * When every descendant's box has a non-negative size, so has the box of
   * `calcBounding`: a hull spans each box it holds.
   */
  lemma CalcBoundingNonNegative(ents: seq<EntityState>, rank: seq<nat>, e: nat, b: Box)
    requires Inv(ents, rank) && e < |ents| && IsCalcBounding(ents, rank, e, b)
    requires forall d :: d in Descendants(ents, rank, e) && d < |ents| ==> ents[d].bounding.NonNegative()
    ensures b.NonNegative()
  {
    DescendantsInRange(ents, rank, e);
    var ds := Descendants(ents, rank, e);
    if ds != {} {
      var d :| d in ds;
      var bd := ents[d].bounding;
      assert b.Left() <= bd.Left() <= bd.Right() <= b.Right();
      assert b.Top() <= bd.Top() <= bd.Bottom() <= b.Bottom();
    }
  }

  /** The extremes of a list give the box of the entities it lists. */
  lemma ListedBounding(ents: seq<EntityState>, l: seq<nat>, edges: Option<Edges>, pos: Vec, b: Box)
    requires AllBelow(l, |ents|) && Extremes(ents, l, edges)
    requires b == if edges.None? then Box(0.0, 0.0, pos) else EdgesBox(edges.value)
    ensures forall d :: d in Listed(l) ==> d < |ents|
    ensures BoundingOf(ents, Listed(l), pos, b)
  {
    if edges.None? {
      assert Listed(l) == {};
    } else {
      assert l[0] in Listed(l);
      HullOfExtremes(ents, l, edges.value);
    }
  }

  lemma SubsetsEqual(a: set<nat>, b: set<nat>)
    requires a <= b && b <= a
    ensures a == b
  {
  }

  /** A finished scan of the descendants of `e` yields `calcBounding`'s box. */
  lemma ScanGivesBounding(ents: seq<EntityState>, rank: seq<nat>, e: nat, l: seq<nat>, edges: Option<Edges>, b: Box)
    requires Inv(ents, rank) && e < |ents| && AllBelow(l, |ents|)
    requires Listed(l) <= Descendants(ents, rank, e) && Closed(ents, Listed(l))
    requires forall c :: c in ents[e].children ==> c in Listed(l)
    requires Extremes(ents, l, edges)
    requires b == if edges.None? then Box(0.0, 0.0, ents[e].pos) else EdgesBox(edges.value)
    ensures IsCalcBounding(ents, rank, e, b)
  {
    ClosedContainsDescendants(ents, rank, e, Listed(l));
    ListedBounding(ents, l, edges, ents[e].pos, b);
    SubsetsEqual(Descendants(ents, rank, e), Listed(l));
    DescendantsInRange(ents, rank, e);
  }

  /** The `start` hook runs only the first time. */
  function Started(s: EntityState): EntityState {
    if s.started then s else s.(started := true, startRuns := s.startRuns + 1)
  }

  lemma StartedRunsOnce(s: EntityState)
    requires s.startRuns == (if s.started then 1 else 0)
    ensures Started(s).started && Started(s).startRuns == 1
    ensures Started(Started(s)) == Started(s)
    ensures Started(s).(started := s.started, startRuns := s.startRuns) == s
  {
  }

  class SceneTree {
    var ents: seq<EntityState>

    predicate Valid() reads this { ValidEnts(ents) }

    constructor ()
      ensures ents == []
    {
      ents := [];
    }

    /** `new Entity()` with the layer index its class gives it. */
    method NewEntity(layer: int) returns (e: nat)
      modifies this
      requires Valid()
      ensures Valid()
      ensures e == |old(ents)| && ents == old(ents) + [NewState(layer)]
    {
      e := |ents|;
      ents := ents + [NewState(layer)];
      forall i | 0 <= i < |ents| ensures LinksInRange(ents, ents[i]) {
        if i < e {
          assert LinksInRange(old(ents), ents[i]);
        }
      }
    }

    /**
     * `p.addChild(c)`: points `c` at `p` and appends it to `p`'s children.
     * No dirty flag changes, and a previous parent keeps `c` in its list.
     */
    method AddChild(p: nat, c: nat) returns (r: nat)
      modifies this
      requires Valid() && p < |ents| && c < |ents|
      ensures Valid() && r == p && |ents| == |old(ents)|
      ensures ents[c].parent == Some(p)
      ensures ents[p].children == old(ents[p].children) + [c]
      ensures c != p ==> ents[c] == old(ents[c]).(parent := Some(p))
      ensures c != p ==> ents[p] == old(ents[p]).(children := old(ents[p].children) + [c])
      ensures c == p ==> ents[p] == old(ents[p]).(parent := Some(p), children := old(ents[p].children) + [c])
      ensures forall i :: 0 <= i < |ents| && i != p && i != c ==> ents[i] == old(ents[i])
    {
      ents := ents[c := ents[c].(parent := Some(p))];
      ents := ents[p := ents[p].(children := ents[p].children + [c])];
      r := p;
      forall i | 0 <= i < |ents| ensures LinksInRange(ents, ents[i]) {
        assert LinksInRange(old(ents), old(ents)[i]);
      }
    }

    /** Sets the dirty flag of the entity and of every ancestor; nothing else changes. */
    method MarkDirty(e: nat, ghost rank: seq<nat>)
      modifies this
      requires Inv(ents, rank) && e < |ents|
      ensures Inv(ents, rank) && SameLinks(old(ents), ents)
      ensures forall i :: 0 <= i < |ents| ==>
        ents[i] == if i in Ancestry(old(ents), rank, e) then old(ents[i]).(dirty := true) else old(ents[i])
      ensures ents == DirtyUp(old(ents), rank, e)
      decreases |ents| - rank[e]
    {
      ghost var ents0 := ents;
      DirtyUpStep(ents0, rank, e);
      DirtyUpKeepsInv(ents0, rank, e);
      ents := ents[e := ents[e].(dirty := true)];
      var parent := ents[e].parent;
      if parent.Some? {
        MarkDirty(parent.value, rank);
      }
    }

    /** Sets the precise collider of an entity (what `init` does in the subclasses). */
    method SetCollider(e: nat, c: ColliderShape)
      modifies this
      requires Valid() && e < |ents|
      ensures Valid() && SameLinks(old(ents), ents)
      ensures ents == old(ents)[e := old(ents[e]).(collider := Some(c))]
    {
      ents := ents[e := ents[e].(collider := Some(c))];
      forall i | 0 <= i < |ents| ensures LinksInRange(ents, ents[i]) {
        assert LinksInRange(old(ents), old(ents)[i]);
      }
    }

    /** `markDirty` on each entity of `ws` in turn. */
    method MarkEach(ws: seq<nat>, ghost rank: seq<nat>)
      modifies this
      requires Inv(ents, rank) && AllBelow(ws, |ents|)
      ensures Inv(ents, rank) && SameLinks(old(ents), ents)
      ensures ents == MarkAll(old(ents), rank, ws)
    {
      ghost var ents0 := ents;
      var j := 0;
      while j < |ws|
        invariant 0 <= j <= |ws|
        invariant AllBelow(ws[..j], |ents0|)
        invariant ents == MarkAll(ents0, rank, ws[..j])
      {
        MarkAllPrefix(ents0, rank, ws, j);
        MarkDirty(ws[j], rank);
        j := j + 1;
      }
      assert ws[..j] == ws;
    }

    /** Stores a freshly computed bounding box and clears the dirty flag. */
    method StoreLayout(e: nat, b: Box)
      modifies this
      requires Valid() && e < |ents|
      ensures Valid() && SameLinks(old(ents), ents)
      ensures ents == old(ents)[e := old(ents[e]).(bounding := b, dirty := false)]
    {
      ents := ents[e := ents[e].(bounding := b, dirty := false)];
      forall i | 0 <= i < |ents| ensures LinksInRange(ents, ents[i]) {
        assert LinksInRange(old(ents), old(ents)[i]);
      }
    }

    /**
     * `_updateLayout` of an entity with the default `updateBounding`: when
     * dirty, the bounding box becomes `calcBounding` and the flag clears;
     * when clean, nothing happens, so a second call changes nothing.
     */
    method UpdateLayout(e: nat, ghost rank: seq<nat>)
      modifies this
      requires Inv(ents, rank) && e < |ents|
      ensures Inv(ents, rank) && SameLinks(old(ents), ents) && !ents[e].dirty
      ensures old(ents[e].dirty) ==>
        ents == old(ents)[e := old(ents[e]).(bounding := ents[e].bounding, dirty := false)] &&
        IsCalcBounding(old(ents), rank, e, ents[e].bounding)
      ensures !old(ents[e].dirty) ==> ents == old(ents)
    {
      if ents[e].dirty {
        var b := CalcBounding(e, rank);
        StoreLayout(e, b);
        InvSameLinks(old(ents), ents, rank);
      }
    }

    /** `_start`: the hook runs on the first call only. */
    method Start(e: nat)
      modifies this
      requires Valid() && e < |ents|
      ensures Valid() && SameLinks(old(ents), ents)
      ensures ents == old(ents)[e := Started(old(ents[e]))]
    {
      if !ents[e].started {
        ents := ents[e := ents[e].(started := true, startRuns := ents[e].startRuns + 1)];
      }
      forall i | 0 <= i < |ents| ensures LinksInRange(ents, ents[i]) {
        assert LinksInRange(old(ents), old(ents)[i]);
      }
    }

    /** `e.pos.add(delta)`. */
    method Translate(e: nat, delta: Vec)
      modifies this
      requires Valid() && e < |ents|
      ensures Valid() && SameLinks(old(ents), ents)
      ensures ents == old(ents)[e := old(ents[e]).(pos := old(ents[e].pos).Plus(delta))]
    {
      ents := ents[e := ents[e].(pos := ents[e].pos.Plus(delta))];
      forall i | 0 <= i < |ents| ensures LinksInRange(ents, ents[i]) {
        assert LinksInRange(old(ents), old(ents)[i]);
      }
    }

    /**
     * `Entity.traveler(starts, pred)`: a breadth-first walk that drops an
     * entity whose predicate is false together with everything below it.
     * With `pred` always true it visits everything reachable.
     */
    method Traveler(starts: seq<nat>, pred: EntityState -> bool, ghost rank: seq<nat>) returns (out: seq<nat>)
      requires Inv(ents, rank) && AllBelow(starts, |ents|)
      ensures AllBelow(out, |ents|)
      ensures forall k :: 0 <= k < |out| ==> pred(ents[out[k]])
      ensures WalkOrder(ents, starts, out)
      ensures forall s :: s in starts && s < |ents| && pred(ents[s]) ==> s in out
      ensures forall x, c :: x in out && x < |ents| && c in ents[x].children && c < |ents| && pred(ents[c]) ==> c in out
      ensures out == Bfs(ents, rank, pred, starts)
    {
      var l: seq<nat> := starts;
      out := [];
      ghost var popped: seq<nat> := [];
      while |l| > 0
        invariant Frontier(ents, starts, pred, l, out, popped)
        invariant out + Bfs(ents, rank, pred, l) == Bfs(ents, rank, pred, starts)
        decreases ListWeight(ents, rank, l)
      {
        ListWeightStep(ents, rank, l);
        BfsStep(ents, rank, pred, out, l);
        var item := l[0];
        if pred(ents[item]) {
          FrontierVisit(ents, starts, pred, l, out, popped);
          out := out + [item];
          l := l[1..] + ents[item].children;
        } else {
          FrontierPrune(ents, starts, pred, l, out, popped);
          l := l[1..];
        }
        popped := popped + [item];
      }
      assert out + [] == out;
    }

    /**
     * `Entity.calcBounding(e)`: a worklist over all descendants (not only
     * the children) keeping running extremes of their bounding edges.
     */
    method CalcBounding(e: nat, ghost rank: seq<nat>) returns (b: Box)
      requires Inv(ents, rank) && e < |ents|
      ensures IsCalcBounding(ents, rank, e, b)
    {
      assert LinksInRange(ents, ents[e]);
      ChildrenAreDescendants(ents, rank, e);
      DescendantsAreClosed(ents, rank, e);
      var edges, l := ScanEdges(ents, ents[e].children, rank, Descendants(ents, rank, e));
      b := if edges.None? then Box(0.0, 0.0, ents[e].pos) else EdgesBox(edges.value);
      ScanGivesBounding(ents, rank, e, l, edges, b);
    }
  }
}
