/**
 * The typed event bus (src/core/EventEmitter.ts): per event name, an
 * ordered list of listeners. Listener functions are compared by identity
 * (`indexOf` uses `===`), so they are modelled by identifiers; the wrapper
 * that `once` creates is a fresh function, modelled by a fresh key.
 *
 * What a listener does when called is not modelled: the model records the
 * order in which `emit` calls them, and assumes listeners do not call back
 * into the emitter (except the wrapper of `once`, whose behaviour is known).
 */
module Events {

  datatype Listener = Direct(fn: nat) | OnceWrapper(key: nat, fn: nat)

  /** The closure `on` returns: calling it is `off(event, listener)`. */
  datatype Unsubscribe = Unsubscribe(event: string, listener: Listener)

  type Registry = map<string, seq<Listener>>

  function ListOf(m: Registry, event: string): seq<Listener> {
    if event in m then m[event] else []
  }

  /** `list.indexOf(x)`: the first position of `x`, or -1. */
  function IndexOf(l: seq<Listener>, x: Listener): (r: int)
    ensures r == -1 <==> x !in l
    ensures r != -1 ==> 0 <= r < |l| && l[r] == x && x !in l[..r]
  {
    if l == [] then -1
    else if l[0] == x then 0
    else
      var r := IndexOf(l[1..], x);
      assert l[1..][..(if r == -1 then 0 else r)] == l[1..(if r == -1 then 1 else r + 1)];
      if r == -1 then -1 else r + 1
  }

  /** `indexOf` then `splice(index, 1)` when found. */
  function RemoveFirst(l: seq<Listener>, x: Listener): seq<Listener> {
    var k := IndexOf(l, x);
    if k == -1 then l else l[..k] + l[k + 1..]
  }

  /** Removing a listener takes out exactly one occurrence, when there is one. */
  lemma RemoveFirstCounts(l: seq<Listener>, x: Listener)
    ensures x in l ==> multiset(RemoveFirst(l, x)) == multiset(l) - multiset{x} && |RemoveFirst(l, x)| == |l| - 1
    ensures x !in l ==> RemoveFirst(l, x) == l
  {
    var k := IndexOf(l, x);
    if k != -1 {
      assert l == l[..k] + [x] + l[k + 1..];
      assert multiset(l) == multiset(l[..k]) + multiset{x} + multiset(l[k + 1..]);
    }
  }

  /** The list stored under `event`; an emptied list is deleted. */
  function SetList(m: Registry, event: string, l: seq<Listener>): Registry {
    if l == [] then m - {event} else m[event := l]
  }

  /** The registry after `on(event, x)`. */
  function Added(m: Registry, event: string, x: Listener): Registry {
    m[event := ListOf(m, event) + [x]]
  }

  /** The registry after `off(event, x)`. */
  function Removed(m: Registry, event: string, x: Listener): Registry {
    if event !in m then m else SetList(m, event, RemoveFirst(m[event], x))
  }

  /** No event keeps an empty list. */
  predicate NoEmptyLists(m: Registry) {
    forall e :: e in m ==> |m[e]| > 0
  }

  /** Every registered `once` wrapper has a key below `next`: a new wrapper is a new function. */
  predicate WrappersFresh(m: Registry, next: nat) {
    forall e, i :: e in m && 0 <= i < |m[e]| && m[e][i].OnceWrapper? ==> m[e][i].key < next
  }

  /** The unsubscribe function of `on` undoes it, for a listener not yet registered. */
  lemma OffUndoesOn(m: Registry, event: string, x: Listener)
    requires NoEmptyLists(m) && x !in ListOf(m, event)
    ensures Removed(Added(m, event, x), event, x) == m
  {
    var l := ListOf(m, event);
    assert IndexOf(l + [x], x) == |l|;
    assert (l + [x])[..|l|] == l;
    var added := Added(m, event, x);
    if l == [] {
      assert event !in m;
      assert added - {event} == m;
    } else {
      assert (l + [x])[|l| + 1..] == [];
      assert RemoveFirst(l + [x], x) == l;
      assert added[event := l] == m;
    }
  }

  /** Removing a listener that is not registered changes nothing. */
  lemma OffAbsentIsNoOp(m: Registry, event: string, x: Listener)
    requires NoEmptyLists(m) && x !in ListOf(m, event)
    ensures Removed(m, event, x) == m
  {
  }

  /** The listeners `emit` leaves behind: the direct ones, in order. */
  function DropOnce(l: seq<Listener>): seq<Listener> {
    if l == [] then []
    else DropOnce(l[..|l| - 1]) + (if l[|l| - 1].Direct? then [l[|l| - 1]] else [])
  }

  /** The functions called by one `emit`, in order. */
  function Fns(l: seq<Listener>): seq<nat> {
    seq(|l|, k requires 0 <= k < |l| => l[k].fn)
  }

  /** One more listener run is one more call, at the end. */
  lemma FnsSnoc(l: seq<Listener>, x: Listener)
    ensures Fns(l + [x]) == Fns(l) + [x.fn]
  {
    assert forall k :: 0 <= k < |l| ==> (l + [x])[k] == l[k];
  }

  /**
   * After `emit`, exactly the direct listeners of the emitted list remain:
   * no once-listener is still registered.
   */
  lemma {:induction false} DropOnceMembers(l: seq<Listener>, x: Listener)
    ensures x in DropOnce(l) <==> x in l && x.Direct?
    decreases |l|
  {
    if l != [] {
      var front := l[..|l| - 1];
      DropOnceMembers(front, x);
      assert l == front + [l[|l| - 1]];
    }
  }

  /** Extending the prefix by one entry keeps that entry exactly when it is direct. */
  lemma DropOnceSnoc(s: seq<Listener>, i: nat)
    requires i < |s|
    ensures DropOnce(s[..i + 1]) == DropOnce(s[..i]) + (if s[i].Direct? then [s[i]] else [])
  {
    assert s[..i + 1][..i] == s[..i];
    assert s[..i + 1][i] == s[i];
  }

  /** `indexOf` finds a listener right after a prefix that does not hold it, and `splice` cuts it out. */
  lemma RemoveFirstAfter(d: seq<Listener>, x: Listener, rest: seq<Listener>)
    requires x !in d
    ensures RemoveFirst(d + ([x] + rest), x) == d + rest
  {
    var l := d + ([x] + rest);
    assert l[..|d| + 1][|d|] == x;
    assert l[..|d|] == d;
    assert IndexOf(l, x) == |d|;
    assert l[|d| + 1..] == rest;
  }

  /** The list during `emit` after the first `i` snapshot entries ran. */
  function Live(s: seq<Listener>, i: nat): seq<Listener>
    requires i <= |s|
  {
    DropOnce(s[..i]) + s[i..]
  }

  /** Running entry `i`: a wrapper takes itself out of the live list, a direct listener stays. */
  lemma LiveStep(s: seq<Listener>, i: nat)
    requires i < |s|
    ensures s[i].OnceWrapper? ==> RemoveFirst(Live(s, i), s[i]) == Live(s, i + 1)
    ensures s[i].Direct? ==> Live(s, i) == Live(s, i + 1)
  {
    DropOnceSnoc(s, i);
    var d := DropOnce(s[..i]);
    assert s[i..] == [s[i]] + s[i + 1..];
    if s[i].OnceWrapper? {
      DropOnceMembers(s[..i], s[i]);
      RemoveFirstAfter(d, s[i], s[i + 1..]);
    } else {
      assert d + [s[i]] + s[i + 1..] == d + ([s[i]] + s[i + 1..]);
    }
  }

  /** Before the first entry runs, the live list is the snapshot. */
  lemma LiveStart(s: seq<Listener>)
    ensures Live(s, 0) == s
  {
    assert s[..0] == [] && s[0..] == s;
  }

  /** After the last entry ran, the live list is the direct listeners of the snapshot. */
  lemma LiveEnd(s: seq<Listener>)
    ensures Live(s, |s|) == DropOnce(s)
  {
    assert s[..|s|] == s && s[|s|..] == [];
  }

  /** `off` on a list just stored under `event` removes from that list. */
  lemma RemovedAfterSet(m0: Registry, event: string, l: seq<Listener>, x: Listener)
    requires l != []
    ensures Removed(SetList(m0, event, l), event, x) == SetList(m0, event, RemoveFirst(l, x))
  {
    var m := m0[event := l];
    var l2 := RemoveFirst(l, x);
    if l2 == [] {
      assert m - {event} == m0 - {event};
    } else {
      assert m[event := l2] == m0[event := l2];
    }
  }

  /** The live list holds the entry about to run. */
  lemma LiveHoldsNext(s: seq<Listener>, i: nat)
    requires i < |s|
    ensures Live(s, i) != []
  {
    assert Live(s, i)[|DropOnce(s[..i])|] == s[i];
  }

  /**
   * One step of `emit` on the registry: after a wrapper's `off`, or after a
   * direct listener ran, the event's list is the live list past entry `i`.
   */
  lemma RunStep(m0: Registry, event: string, s: seq<Listener>, i: nat)
    requires i < |s|
    ensures s[i].OnceWrapper? ==> Removed(SetList(m0, event, Live(s, i)), event, s[i]) == SetList(m0, event, Live(s, i + 1))
    ensures s[i].Direct? ==> SetList(m0, event, Live(s, i)) == SetList(m0, event, Live(s, i + 1))
  {
    LiveStep(s, i);
    LiveHoldsNext(s, i);
    RemovedAfterSet(m0, event, Live(s, i), s[i]);
  }

  class EventEmitter {
    var listeners: Registry
    /** The key the next `once` wrapper gets: each wrapper is a new function. */
    var nextKey: nat

    predicate Valid() reads this {
      NoEmptyLists(listeners) && WrappersFresh(listeners, nextKey)
    }

    constructor ()
      ensures Valid() && listeners == map[]
    {
      listeners := map[];
      nextKey := 0;
    }

    /** `on(event, listener)`: appends the listener; the result unsubscribes it. */
    method On(event: string, fn: nat) returns (unsub: Unsubscribe)
      modifies this
      requires Valid()
      ensures Valid() && nextKey == old(nextKey)
      ensures listeners == Added(old(listeners), event, Direct(fn))
      ensures unsub == Unsubscribe(event, Direct(fn))
    {
      AddListener(event, Direct(fn));
      unsub := Unsubscribe(event, Direct(fn));
    }

    method AddListener(event: string, x: Listener)
      modifies this
      requires Valid()
      requires x.OnceWrapper? ==> x.key < nextKey && x !in ListOf(listeners, event)
      ensures Valid() && nextKey == old(nextKey)
      ensures listeners == Added(old(listeners), event, x)
    {
      if event !in listeners {
        listeners := listeners[event := []];
      }
      var list := listeners[event];
      listeners := listeners[event := list + [x]];
    }

    /** `off(event, listener)`: removes its first occurrence; deletes the list once empty. */
    method Off(event: string, x: Listener)
      modifies this
      requires Valid()
      ensures Valid() && nextKey == old(nextKey)
      ensures listeners == Removed(old(listeners), event, x)
    {
      if event !in listeners {
        return;
      }
      var list := listeners[event];
      var index := IndexOf(list, x);
      if index != -1 {
        list := list[..index] + list[index + 1..];
      }
      RemoveFirstStaysFresh(listeners[event], x, nextKey);
      if |list| == 0 {
        listeners := listeners - {event};
      } else {
        listeners := listeners[event := list];
      }
    }

    /** Calling the function `on` returned. */
    method Unsub(u: Unsubscribe)
      modifies this
      requires Valid()
      ensures Valid() && nextKey == old(nextKey)
      ensures listeners == Removed(old(listeners), u.event, u.listener)
    {
      Off(u.event, u.listener);
    }

    /**
     * `emit(event)`: calls the listeners of a snapshot of the list, in
     * order; a `once` wrapper first unregisters itself, then calls its
     * listener.
     */
    method Emit(event: string) returns (calls: seq<nat>)
      modifies this
      requires Valid()
      ensures Valid() && nextKey == old(nextKey)
      ensures calls == Fns(ListOf(old(listeners), event))
      ensures listeners == if event in old(listeners) then SetList(old(listeners), event, DropOnce(old(listeners)[event]))
                           else old(listeners)
    {
      calls := [];
      if event !in listeners {
        return;
      }
      var runList := listeners[event];
      ghost var m0 := listeners;
      LiveStart(runList);
      assert SetList(m0, event, runList) == m0;
      var i := 0;
      while i < |runList|
        invariant 0 <= i <= |runList|
        invariant Valid() && nextKey == old(nextKey)
        invariant listeners == SetList(m0, event, Live(runList, i))
        invariant calls == Fns(runList[..i])
      {
        var x := runList[i];
        RunStep(m0, event, runList, i);
        if x.OnceWrapper? {
          Off(event, x);
        }
        TakeSnoc(runList, i);
        FnsSnoc(runList[..i], x);
        calls := calls + [x.fn];
        i := i + 1;
      }
      LiveEnd(runList);
    }

    /** `once(event, listener)`: registers a fresh wrapper that removes itself when called. */
    method Once(event: string, fn: nat)
      modifies this
      requires Valid()
      ensures Valid() && nextKey == old(nextKey) + 1
      ensures listeners == Added(old(listeners), event, OnceWrapper(old(nextKey), fn))
    {
      var wrapper := OnceWrapper(nextKey, fn);
      nextKey := nextKey + 1;
      AddListener(event, wrapper);
    }

    /** `clear()`: every event loses all its listeners. */
    method Clear()
      modifies this
      requires Valid()
      ensures Valid() && listeners == map[] && nextKey == old(nextKey)
    {
      listeners := map[];
    }
  }

  lemma TakeSnoc(s: seq<Listener>, i: nat)
    requires i < |s|
    ensures s[..i + 1] == s[..i] + [s[i]]
  {
  }

  lemma RemoveFirstStaysFresh(l: seq<Listener>, x: Listener, next: nat)
    requires forall i :: 0 <= i < |l| && l[i].OnceWrapper? ==> l[i].key < next
    ensures var r := RemoveFirst(l, x);
      forall i :: 0 <= i < |r| && r[i].OnceWrapper? ==> r[i].key < next
  {
    var k := IndexOf(l, x);
    if k != -1 {
      var r := RemoveFirst(l, x);
      forall i | 0 <= i < |r| && r[i].OnceWrapper? ensures r[i].key < next {
        assert r[i] == l[if i < k then i else i + 1];
      }
    }
  }
}
