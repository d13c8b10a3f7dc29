/**
 * The drag tool (src/editor/DragTool.ts): every dragged entity moves
 * by the same delta and is marked dirty, one entity after the other.
 */
module DragTools {
  import opened Vectors
  import opened Scene

  /** The entity `e` moved by `delta`. */
  function Shift(ents: seq<EntityState>, e: nat, delta: Vec): (r: seq<EntityState>)
    requires e < |ents|
    ensures |r| == |ents|
  {
    ents[e := ents[e].(pos := ents[e].pos.Plus(delta))]
  }

  lemma ShiftKeepsInv(ents: seq<EntityState>, rank: seq<nat>, e: nat, delta: Vec)
    requires Inv(ents, rank) && e < |ents|
    ensures Inv(Shift(ents, e, delta), rank) && SameLinks(ents, Shift(ents, e, delta))
  {
    InvSameLinks(ents, Shift(ents, e, delta), rank);
  }

  /** The state after `drag(items, delta)`. */
  ghost function Dragged(ents: seq<EntityState>, rank: seq<nat>, items: seq<nat>, delta: Vec): (r: seq<EntityState>)
    requires Inv(ents, rank) && AllBelow(items, |ents|)
    ensures Inv(r, rank) && SameLinks(ents, r)
    decreases |items|
  {
    if items == [] then ents
    else
      var front := items[..|items| - 1];
      var e := items[|items| - 1];
      assert AllBelow(front, |ents|) by {
        forall k | 0 <= k < |front| ensures front[k] < |ents| { assert front[k] == items[k]; }
      }
      var prev := Dragged(ents, rank, front, delta);
      ShiftKeepsInv(prev, rank, e, delta);
      var moved := Shift(prev, e, delta);
      DirtyUpKeepsInv(moved, rank, e);
      DirtyUp(moved, rank, e)
  }

  /** How many times `i` occurs in `items`. */
  function Count(items: seq<nat>, i: nat): nat {
    if items == [] then 0
    else Count(items[..|items| - 1], i) + (if items[|items| - 1] == i then 1 else 0)
  }

  lemma DraggedPrefix(ents: seq<EntityState>, rank: seq<nat>, items: seq<nat>, delta: Vec, j: nat)
    requires Inv(ents, rank) && AllBelow(items, |ents|) && j < |items|
    ensures AllBelow(items[..j], |ents|) && AllBelow(items[..j + 1], |ents|)
    ensures Inv(Shift(Dragged(ents, rank, items[..j], delta), items[j], delta), rank)
    ensures Dragged(ents, rank, items[..j + 1], delta) ==
            DirtyUp(Shift(Dragged(ents, rank, items[..j], delta), items[j], delta), rank, items[j])
  {
    assert items[..j + 1][..j] == items[..j];
    ShiftKeepsInv(Dragged(ents, rank, items[..j], delta), rank, items[j], delta);
  }

  /** One more dragged entity `e`: it moves by `delta`, its ancestor chain becomes dirty. */
  lemma DraggedStep(ents: seq<EntityState>, rank: seq<nat>, items: seq<nat>, delta: Vec, i: nat)
    requires Inv(ents, rank) && AllBelow(items, |ents|) && i < |ents| && |items| > 0
    ensures AllBelow(items[..|items| - 1], |ents|)
    ensures var prev := Dragged(ents, rank, items[..|items| - 1], delta);
      var e := items[|items| - 1];
      var r := Dragged(ents, rank, items, delta);
      r[i] == prev[i].(pos := if e == i then prev[i].pos.Plus(delta) else prev[i].pos, dirty := r[i].dirty) &&
      (r[i].dirty <==> prev[i].dirty || i in Ancestry(ents, rank, e))
  {
    var n := |items| - 1;
    var front := items[..n];
    var e := items[n];
    assert AllBelow(front, |ents|) by {
      forall k | 0 <= k < |front| ensures front[k] < |ents| { assert front[k] == items[k]; }
    }
    var prev := Dragged(ents, rank, front, delta);
    ShiftKeepsInv(prev, rank, e, delta);
    var moved := Shift(prev, e, delta);
    SameLinksTrans(ents, prev, moved);
    AncestrySameLinks(ents, moved, rank, e);
    var r := Dragged(ents, rank, items, delta);
    assert r == DirtyUp(moved, rank, e);
    assert r[i] == if i in Ancestry(moved, rank, e) then moved[i].(dirty := true) else moved[i];
  }

  lemma SameLinksTrans(a: seq<EntityState>, b: seq<EntityState>, c: seq<EntityState>)
    requires SameLinks(a, b) && SameLinks(b, c)
    ensures SameLinks(a, c)
  {
  }

  /** Moving by `delta` c times and once more is moving by it c + 1 times. */
  lemma MoveOnceMore(p: Vec, delta: Vec, c: real)
    ensures p.Plus(delta.Scale(c)).Plus(delta) == p.Plus(delta.Scale(c + 1.0))
    ensures p.Plus(delta.Scale(c + 1.0)) == p.Plus(delta.Scale(c)).Plus(delta)
    ensures p.Plus(delta.Scale(0.0)) == p
  {
  }

  /**
   * After a drag each entity has moved by `delta` once per occurrence in
   * `items`, and no field other than the position and the dirty flag changed.
   */
  lemma {:induction false} DraggedMoves(ents: seq<EntityState>, rank: seq<nat>, items: seq<nat>, delta: Vec, i: nat)
    requires Inv(ents, rank) && AllBelow(items, |ents|) && i < |ents|
    ensures var r := Dragged(ents, rank, items, delta);
      r[i] == ents[i].(pos := ents[i].pos.Plus(delta.Scale(Count(items, i) as real)), dirty := r[i].dirty)
    decreases |items|
  {
    if items != [] {
      var n := |items| - 1;
      var front := items[..n];
      DraggedStep(ents, rank, items, delta, i);
      DraggedMoves(ents, rank, front, delta, i);
      var c := Count(front, i) as real;
      if items[n] == i {
        assert Count(items, i) as real == c + 1.0;
        MoveOnceMore(ents[i].pos, delta, c);
      }
    } else {
      MoveOnceMore(ents[i].pos, delta, -1.0);
    }
  }

  /**
   * After a drag exactly the entities on the ancestor chain of a dragged
   * entity have become dirty.
   */
  lemma {:induction false} DraggedDirtyIff(ents: seq<EntityState>, rank: seq<nat>, items: seq<nat>, delta: Vec, i: nat)
    requires Inv(ents, rank) && AllBelow(items, |ents|) && i < |ents|
    ensures Dragged(ents, rank, items, delta)[i].dirty <==> ents[i].dirty || Touched(ents, rank, items, i)
    decreases |items|
  {
    if items != [] {
      var n := |items| - 1;
      TouchedSnoc(ents, rank, items, i);
      DraggedStep(ents, rank, items, delta, i);
      DraggedDirtyIff(ents, rank, items[..n], delta, i);
    }
  }

  /** `drag(items, delta)`: each item in turn moves by `delta` and is marked dirty. */
  method Drag(tree: SceneTree, items: seq<nat>, delta: Vec, ghost rank: seq<nat>)
    modifies tree
    requires Inv(tree.ents, rank) && AllBelow(items, |tree.ents|)
    ensures Inv(tree.ents, rank) && SameLinks(old(tree.ents), tree.ents)
    ensures tree.ents == Dragged(old(tree.ents), rank, items, delta)
  {
    ghost var ents0 := tree.ents;
    var j := 0;
    while j < |items|
      invariant 0 <= j <= |items|
      invariant AllBelow(items[..j], |ents0|)
      invariant tree.ents == Dragged(ents0, rank, items[..j], delta)
    {
      DraggedPrefix(ents0, rank, items, delta, j);
      tree.Translate(items[j], delta);
      tree.MarkDirty(items[j], rank);
      j := j + 1;
    }
    assert items[..j] == items;
  }
}
