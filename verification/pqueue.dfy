/** The indexed binary heap of cpu/pqueue.c.

    Entries are opaque pointers.  What the get/set callbacks read and write in an entry, its priority and its
    stored position, is in a Store that every queue over the same entries shares. */
module PQueue {
  import opened Base
  import opened HeapOrder

  type Entry = int

  // ---------------------------------------------------------------------------------------------
  // Slots 1 .. size-1 as a sequence
  // ---------------------------------------------------------------------------------------------

  function Pri(pri: map<Entry, int>, e: Entry): int {
    if e in pri then pri[e] else 0
  }

  /** Slot 0 is never used; its priority is given as 0. */
  function Pris(pri: map<Entry, int>, s: seq<Entry>): (ps: seq<int>)
    ensures |ps| == |s| && forall k :: 1 <= k < |s| ==> ps[k] == Pri(pri, s[k])
  {
    seq(|s|, k requires 0 <= k < |s| => if k == 0 then 0 else Pri(pri, s[k]))
  }

  function Elems(s: seq<Entry>): set<Entry> {
    set k | 1 <= k < |s| :: s[k]
  }

  predicate Distinct(s: seq<Entry>) {
    forall j, k :: 1 <= j < k < |s| ==> s[j] != s[k]
  }

  /** Every entry but the one in slot `except` has its own index stored as its position. */
  predicate PositionsExcept(pos: map<Entry, nat>, s: seq<Entry>, except: nat) {
    forall k :: 1 <= k < |s| && k != except ==> s[k] in pos && pos[s[k]] == k
  }

  /** Every entry is in one slot, and has its own index stored unless positions are not tracked. */
  predicate Indexed(tracks: bool, pos: map<Entry, nat>, s: seq<Entry>, except: nat) {
    Distinct(s) && (tracks ==> PositionsExcept(pos, s, except))
  }

  /** Storing the position of the entry in slot i. */
  lemma PositionStored(pos: map<Entry, nat>, s: seq<Entry>, i: nat)
    requires Distinct(s) && 1 <= i < |s| && PositionsExcept(pos, s, i)
    ensures PositionsExcept(pos[s[i] := i], s, 0)
  {
  }

  /** The entry from slot j moves to slot i, whose own entry is in flight. */
  lemma PositionMoved(pos: map<Entry, nat>, s: seq<Entry>, i: nat, j: nat)
    requires Distinct(s) && 1 <= i < |s| && 1 <= j < |s| && i != j && PositionsExcept(pos, s, i)
    ensures PositionsExcept(pos[s[j] := i], Swap(s, i, j), j)
  {
  }

  lemma PositionOutside(pos: map<Entry, nat>, s: seq<Entry>, e: Entry, i: nat)
    requires e !in Elems(s) && PositionsExcept(pos, s, 0)
    ensures PositionsExcept(pos[e := i], s, 0)
  {
  }

  lemma SwapElems(s: seq<Entry>, i: nat, j: nat)
    requires 1 <= i < |s| && 1 <= j < |s|
    ensures Elems(Swap(s, i, j)) == Elems(s)
  {
    var t := Swap(s, i, j);
    forall e ensures e in Elems(t) <==> e in Elems(s) {
      if e in Elems(s) {
        var k :| 1 <= k < |s| && s[k] == e;
        assert t[if k == i then j else if k == j then i else k] == e;
      }
      if e in Elems(t) {
        var k :| 1 <= k < |t| && t[k] == e;
        assert s[if k == i then j else if k == j then i else k] == e;
      }
    }
  }

  lemma SwapDistinct(s: seq<Entry>, i: nat, j: nat)
    requires Distinct(s) && 1 <= i < |s| && 1 <= j < |s|
    ensures Distinct(Swap(s, i, j))
  {
  }

  /** The entries queued, each as often as it is. */
  function Bag(s: seq<Entry>): multiset<Entry>
    requires |s| >= 1
  {
    multiset(s[1..])
  }

  lemma SwapBag(s: seq<Entry>, i: nat, j: nat)
    requires 1 <= i < |s| && 1 <= j < |s|
    ensures Bag(Swap(s, i, j)) == Bag(s)
  {
    assert Swap(s, i, j)[1..] == s[1..][i - 1 := s[j]][j - 1 := s[i]];
  }

  lemma AppendBag(s: seq<Entry>, e: Entry)
    requires |s| >= 1
    ensures Bag(s + [e]) == Bag(s) + multiset{e}
  {
    assert (s + [e])[1..] == s[1..] + [e];
  }

  /** An entry that is queued twice is in two slots. */
  lemma {:induction false} TwoPlaces(t: seq<Entry>, e: Entry) returns (j: nat, k: nat)
    requires multiset(t)[e] >= 2
    ensures j < k < |t| && t[j] == t[k] == e
  {
    assert t == [t[0]] + t[1..];
    if t[0] == e {
      assert multiset(t[1..])[e] >= 1;
      assert e in t[1..];
      var i: nat :| i < |t[1..]| && t[1..][i] == e;
      j, k := 0, i + 1;
    } else {
      j, k := TwoPlaces(t[1..], e);
      j, k := j + 1, k + 1;
    }
  }

  lemma TwiceIsNotDistinct(s: seq<Entry>, e: Entry)
    requires |s| >= 1 && Bag(s)[e] >= 2
    ensures !Distinct(s)
  {
    var j, k := TwoPlaces(s[1..], e);
    assert s[j + 1] == s[k + 1];
  }

  lemma SwapPris(pri: map<Entry, int>, s: seq<Entry>, i: nat, j: nat)
    requires 1 <= i < |s| && 1 <= j < |s|
    ensures Pris(pri, Swap(s, i, j)) == Swap(Pris(pri, s), i, j)
  {
  }

  /** Copying slot j into slot i moves the hole, and the entry in flight with it, from i to j. */
  lemma SwapInFlight(s: seq<Entry>, i: nat, j: nat, e: Entry)
    requires i < |s| && j < |s| && i != j
    ensures Swap(s[i := e], i, j) == s[i := s[j]][j := e]
  {
  }

  /** One step of bubble_up on the slots. */
  lemma BubbleSwap(cmp: Cmp, pri: map<Entry, int>, v: seq<Entry>, i: nat)
    requires StrictWeakOrder(cmp) && 2 <= i < |v| && ExceptUp(cmp, Pris(pri, v), i)
    requires cmp(Pri(pri, v[i / 2]), Pri(pri, v[i]))
    ensures Elems(Swap(v, i, i / 2)) == Elems(v) && Bag(Swap(v, i, i / 2)) == Bag(v)
    ensures ExceptUp(cmp, Pris(pri, Swap(v, i, i / 2)), i / 2)
  {
    hide StrictWeakOrder, ExceptUp, Elems, Bag;
    SwapElems(v, i, i / 2);
    SwapBag(v, i, i / 2);
    SwapPris(pri, v, i, i / 2);
    BubbleStep(cmp, Pris(pri, v), i);
  }

  /** One step of percolate_down on the slots. */
  lemma PercolateSwap(cmp: Cmp, pri: map<Entry, int>, v: seq<Entry>, i: nat, c: nat)
    requires StrictWeakOrder(cmp) && 1 <= i < |v| && ExceptDown(cmp, Pris(pri, v), i)
    requires 1 <= c < |v| && IsMaxChild(cmp, Pris(pri, v), i, c) && cmp(Pri(pri, v[i]), Pri(pri, v[c]))
    ensures Elems(Swap(v, i, c)) == Elems(v)
    ensures ExceptDown(cmp, Pris(pri, Swap(v, i, c)), c)
  {
    hide StrictWeakOrder, ExceptDown, Elems, IsMaxChild;
    SwapElems(v, i, c);
    SwapPris(pri, v, i, c);
    PercolateStep(cmp, Pris(pri, v), i, c);
  }

  /** Which child is highest does not depend on what slot i itself holds. */
  lemma MaxChildMoving(cmp: Cmp, pri: map<Entry, int>, s: seq<Entry>, i: nat, c: nat, e: Entry)
    requires 1 <= i < |s| && IsMaxChild(cmp, Pris(pri, s), i, c)
    ensures IsMaxChild(cmp, Pris(pri, s[i := e]), i, c)
  {
    hide IsMaxChild;
    MaxChildIgnoresParent(cmp, Pris(pri, s), i, c, Pri(pri, e));
    assert Pris(pri, s[i := e]) == Pris(pri, s)[i := Pri(pri, e)];
  }

  lemma AppendElems(s: seq<Entry>, e: Entry)
    requires |s| >= 1
    ensures Elems(s + [e]) == Elems(s) + {e}
    ensures Distinct(s) && e !in Elems(s) ==> Distinct(s + [e])
  {
    var t := s + [e];
    forall x ensures x in Elems(t) <==> x in Elems(s) || x == e {
      if x in Elems(s) {
        var k :| 1 <= k < |s| && s[k] == x;
        assert t[k] == x;
      }
      assert t[|s|] == e;
    }
  }

  /** Slot i overwritten by the last entry, and the last slot dropped. */
  function RemoveAt(s: seq<Entry>, i: nat): seq<Entry>
    requires 1 <= i < |s|
  {
    s[i := s[|s| - 1]][..|s| - 1]
  }

  lemma RemoveElems(s: seq<Entry>, i: nat)
    requires Distinct(s) && 1 <= i < |s|
    ensures Distinct(RemoveAt(s, i)) && Elems(RemoveAt(s, i)) == Elems(s) - {s[i]}
  {
    var t, n := RemoveAt(s, i), |s| - 1;
    forall x ensures x in Elems(t) <==> x in Elems(s) && x != s[i] {
      if x in Elems(s) && x != s[i] {
        var k :| 1 <= k < |s| && s[k] == x;
        assert k == n ==> t[i] == x;
        assert k != n ==> t[k] == x;
      }
      if x in Elems(t) {
        var k :| 1 <= k < |t| && t[k] == x;
        assert x == if k == i then s[n] else s[k];
      }
    }
  }

  lemma LastApart(s: seq<Entry>)
    requires Distinct(s) && |s| >= 2
    ensures Distinct(s[..|s| - 1]) && s[|s| - 1] !in Elems(s[..|s| - 1])
    ensures Elems(s) == Elems(s[..|s| - 1]) + {s[|s| - 1]}
  {
    var n := |s| - 1;
    AppendElems(s[..n], s[n]);
    assert s == s[..n] + [s[n]];
  }

  lemma {:induction false} ElemsCount(s: seq<Entry>)
    requires Distinct(s) && |s| >= 1
    ensures |Elems(s)| == |s| - 1
  {
    hide Distinct, Elems;
    if |s| == 1 {
      NoElems(s);
    } else {
      LastApart(s);
      ElemsCount(s[..|s| - 1]);
    }
  }

  lemma RepricePris(pri: map<Entry, int>, pos: map<Entry, nat>, s: seq<Entry>, i: nat, x: int)
    requires Indexed(true, pos, s, 0) && 1 <= i < |s|
    ensures Pris(pri[s[i] := x], s) == Pris(pri, s)[i := x]
  {
  }

  lemma RepriceOutside(pri: map<Entry, int>, s: seq<Entry>, e: Entry, x: int)
    requires e !in Elems(s)
    ensures Pris(pri[e := x], s) == Pris(pri, s)
  {
  }

  lemma PositionsAppend(pos: map<Entry, nat>, s: seq<Entry>, e: Entry)
    requires PositionsExcept(pos, s, 0)
    ensures PositionsExcept(pos, s + [e], |s|)
  {
  }

  lemma PositionsBeyond(pos: map<Entry, nat>, s: seq<Entry>, i: nat)
    requires PositionsExcept(pos, s, i) && i >= |s|
    ensures PositionsExcept(pos, s, 0)
  {
  }

  /** The stored position of a queued entry leads to its slot. */
  lemma PositionOfMember(pos: map<Entry, nat>, s: seq<Entry>, e: Entry)
    requires Indexed(true, pos, s, 0) && e in Elems(s)
    ensures e in pos && 1 <= pos[e] < |s| && s[pos[e]] == e
  {
  }

  /** No queued entry outranks the one in slot 1. */
  lemma RootOutranksMembers(cmp: Cmp, pri: map<Entry, int>, s: seq<Entry>)
    requires StrictWeakOrder(cmp) && Heap(cmp, Pris(pri, s)) && |s| >= 2
    ensures s[1] in Elems(s) && forall e :: e in Elems(s) ==> !cmp(Pri(pri, s[1]), Pri(pri, e))
  {
    hide StrictWeakOrder, Heap;
    forall e | e in Elems(s) ensures !cmp(Pri(pri, s[1]), Pri(pri, e)) {
      var k :| 1 <= k < |s| && s[k] == e;
      RootOutranksAll(cmp, Pris(pri, s), k);
    }
  }

  lemma RemovePositions(pos: map<Entry, nat>, s: seq<Entry>, i: nat)
    requires 1 <= i < |s| && PositionsExcept(pos, s, 0)
    ensures PositionsExcept(pos, RemoveAt(s, i), i)
  {
  }

  /** The last entry takes slot i, in the middle of the heap: the order can then be broken upward or downward, never
      both, and the priorities around the slot tell. */
  lemma RemoveOrder(cmp: Cmp, pri: map<Entry, int>, s: seq<Entry>, i: nat)
    requires StrictWeakOrder(cmp) && Heap(cmp, Pris(pri, s)) && 1 <= i < |s| - 1
    ensures var ps, y, qs := Pris(pri, s), Pri(pri, s[|s| - 1]), Pris(pri, RemoveAt(s, i));
            && (Heap(cmp, qs) <==> TopsChildren(cmp, ps, i, y) && UnderParent(cmp, ps, i, y))
            && (TopsChildren(cmp, ps, i, y) || UnderParent(cmp, ps, i, y))
            && (TopsChildren(cmp, ps, i, y) ==> ExceptUp(cmp, qs, i))
            && (UnderParent(cmp, ps, i, y) ==> ExceptDown(cmp, qs, i))
            && (if cmp(ps[i], y) then TopsChildren(cmp, ps, i, y) else UnderParent(cmp, ps, i, y))
  {
    hide StrictWeakOrder, Heap, ExceptUp, ExceptDown, TopsChildren;
    var ps, y := Pris(pri, s), Pri(pri, s[|s| - 1]);
    DropLast(cmp, ps);
    TopsOthers(cmp, ps, i);
    ReplaceWay(cmp, ps[..|s| - 1], i, y);
    assert Pris(pri, RemoveAt(s, i)) == ps[..|s| - 1][i := y];
  }

  /** Removing the last entry. */
  lemma RemoveLast(cmp: Cmp, pri: map<Entry, int>, s: seq<Entry>)
    requires Heap(cmp, Pris(pri, s)) && |s| >= 2
    ensures RemoveAt(s, |s| - 1) == s[..|s| - 1] && Heap(cmp, Pris(pri, s[..|s| - 1]))
    ensures UnderParent(cmp, Pris(pri, s), |s| - 1, Pri(pri, s[|s| - 1]))
  {
    DropLast(cmp, Pris(pri, s));
    assert Pris(pri, s[..|s| - 1]) == Pris(pri, s)[..|s| - 1];
    assert |s| > 2 ==> Ordered(cmp, Pris(pri, s), |s| - 1);
  }

  /** e does not outrank its parent as the last entry. */
  predicate FitsLast(cmp: Cmp, pri: map<Entry, int>, s: seq<Entry>, e: Entry) {
    |s| < 2 || !cmp(Pri(pri, s[|s| / 2]), Pri(pri, e))
  }

  lemma AppendOrder(cmp: Cmp, pri: map<Entry, int>, s: seq<Entry>, e: Entry)
    requires Heap(cmp, Pris(pri, s)) && |s| >= 1
    ensures ExceptUp(cmp, Pris(pri, s + [e]), |s|)
  {
    AppendOne(cmp, Pris(pri, s), Pri(pri, e));
    assert Pris(pri, s + [e]) == Pris(pri, s) + [Pri(pri, e)];
  }

  lemma IndexedMoved(tracks: bool, pos: map<Entry, nat>, v: seq<Entry>, i: nat, j: nat)
    requires Indexed(tracks, pos, v, i) && 1 <= i < |v| && 1 <= j < |v| && i != j
    ensures Indexed(tracks, if tracks then pos[v[j] := i] else pos, Swap(v, i, j), j)
  {
    hide Distinct, PositionsExcept, Swap;
    SwapDistinct(v, i, j);
    if tracks {
      PositionMoved(pos, v, i, j);
    }
  }

  lemma IndexedStored(tracks: bool, pos: map<Entry, nat>, v: seq<Entry>, i: nat)
    requires Indexed(tracks, pos, v, i) && 1 <= i < |v|
    ensures Indexed(tracks, if tracks then pos[v[i] := i] else pos, v, 0)
  {
    hide Distinct, PositionsExcept;
    if tracks {
      PositionStored(pos, v, i);
    }
  }

  lemma IndexedOutside(tracks: bool, pos: map<Entry, nat>, v: seq<Entry>, e: Entry, i: nat)
    requires Indexed(tracks, pos, v, 0) && e !in Elems(v)
    ensures Indexed(tracks, if tracks then pos[e := i] else pos, v, 0)
  {
    hide Distinct, PositionsExcept, Elems;
    if tracks {
      PositionOutside(pos, v, e, i);
    }
  }

  lemma IndexedWeaken(tracks: bool, pos: map<Entry, nat>, v: seq<Entry>, i: nat)
    requires Indexed(tracks, pos, v, 0)
    ensures Indexed(tracks, pos, v, i)
  {
  }

  lemma AppendIndexed(tracks: bool, pos: map<Entry, nat>, s: seq<Entry>, e: Entry)
    requires Indexed(tracks, pos, s, 0) && |s| >= 1
    ensures e !in Elems(s) ==> Indexed(tracks, pos, s + [e], |s|)
  {
    hide Distinct, PositionsExcept, Elems;
    AppendElems(s, e);
    if tracks {
      PositionsAppend(pos, s, e);
    }
  }

  lemma QueuedTwice(tracks: bool, pos: map<Entry, nat>, t: seq<Entry>, s: seq<Entry>, e: Entry)
    requires |t| >= 1 && |s| >= 1 && e in Elems(s) && Bag(t) == Bag(s) + multiset{e}
    ensures !Indexed(tracks, pos, t, 0)
  {
    var k :| 1 <= k < |s| && s[k] == e;
    assert s[1..][k - 1] == e;
    assert Bag(s)[e] >= 1;
    TwiceIsNotDistinct(t, e);
  }

  /** What is left after slot i gave way to the last entry. */
  lemma RemoveIndexed(tracks: bool, pos: map<Entry, nat>, s: seq<Entry>, i: nat)
    requires Indexed(tracks, pos, s, 0) && 1 <= i < |s|
    ensures Elems(RemoveAt(s, i)) == Elems(s) - {s[i]} && s[i] in Elems(s)
    ensures Indexed(tracks, pos, RemoveAt(s, i), if i < |s| - 1 then i else 0)
  {
    hide PositionsExcept;
    RemoveElems(s, i);
    if tracks {
      RemovePositions(pos, s, i);
      if i == |s| - 1 {
        PositionsBeyond(pos, RemoveAt(s, i), i);
      }
    }
  }

  lemma NoElems(s: seq<Entry>)
    requires |s| == 1
    ensures Elems(s) == {}
  {
  }

  /** What a heapsort has emitted: `out` holds the entries of m that are no longer in `left`, each once, in priority
      order, and nothing left outranks any of them. */
  ghost predicate Printed(cmp: Cmp, m: map<Entry, int>, left: map<Entry, int>, out: seq<Entry>) {
    && (forall e :: e in left ==> e in m && m[e] == left[e] && e !in out)
    && (forall e :: e in m <==> e in left || e in out)
    && (forall j, k :: 0 <= j < k < |out| ==> out[j] != out[k] && !cmp(Pri(m, out[j]), Pri(m, out[k])))
    && (forall j, x :: 0 <= j < |out| && x in left ==> !cmp(Pri(m, out[j]), Pri(m, x)))
  }

  lemma PrintedNone(cmp: Cmp, m: map<Entry, int>)
    ensures Printed(cmp, m, m, [])
  {
  }

  lemma PrintedAll(cmp: Cmp, m: map<Entry, int>, out: seq<Entry>)
    requires Printed(cmp, m, map[], out)
    ensures forall e :: e in out <==> e in m
    ensures forall j, k :: 0 <= j < k < |out| ==> out[j] != out[k] && !cmp(m[out[j]], m[out[k]])
  {
  }

  lemma PrintedNext(cmp: Cmp, m: map<Entry, int>, left: map<Entry, int>, out: seq<Entry>, e: Entry)
    requires Printed(cmp, m, left, out) && e in left && forall x :: x in left ==> !cmp(left[e], left[x])
    ensures Printed(cmp, m, left - {e}, out + [e])
    ensures |left - {e}| < |left|
  {
    assert (left - {e}).Keys == left.Keys - {e};
    assert |left| == |left.Keys| && |left - {e}| == |(left - {e}).Keys|;
    forall x ensures x in out + [e] <==> x in out || x == e {
    }
  }

  // ---------------------------------------------------------------------------------------------
  // The queue
  // ---------------------------------------------------------------------------------------------

  /** What the callbacks reach: the priority and the position stored in each entry. */
  class Store {
    var pri: map<Entry, int>
    var pos: map<Entry, nat>

    constructor ()
      ensures pri == map[] && pos == map[]
    {
      pri, pos := map[], map[];
    }
  }

  class Queue {
    var d: array<Entry>
    var size: nat
    const step: nat
    const cmppri: Cmp
    const tracks: bool        // whether the set-position callback stores anything
    const store: Store

    /** Slots 0 .. size-1. */
    function Slots(): seq<Entry>
      requires size <= d.Length
      reads this, d
    {
      d[..size]
    }

    ghost function Contents(): set<Entry>
      requires size <= d.Length
      reads this, d
    {
      Elems(Slots())
    }

    ghost predicate Shape()
      reads this, d, store
    {
      && 1 <= size <= d.Length && step >= 1
      && StrictWeakOrder(cmppri)
      && forall e :: e in Contents() ==> e in store.pri
    }

    /** No entry outranks its parent. */
    ghost predicate InOrder()
      requires size <= d.Length
      reads this, d, store
    {
      Heap(cmppri, Pris(store.pri, Slots()))
    }

    ghost predicate Valid()
      reads this, d, store
    {
      Shape() && InOrder() && Indexed(tracks, store.pos, Slots(), 0)
    }

    /** The abstract value: a finite map from queued entries to priorities. */
    ghost function Model(): (m: map<Entry, int>)
      requires Shape()
      reads this, d, store
      ensures m.Keys == Contents() && forall e :: e in m ==> e in store.pri && m[e] == store.pri[e]
    {
      map e | e in Contents() :: store.pri[e]
    }

    /** pqueue_init. */
    constructor (n: nat, cmppri: Cmp, tracks: bool, store: Store)
      requires StrictWeakOrder(cmppri)
      ensures Valid() && Model() == map[] && fresh(d) && d.Length == step == n + 1
      ensures this.cmppri == cmppri && this.tracks == tracks && this.store == store
    {
      d := new Entry[n + 1](_ => 0);
      size, step := 1, n + 1;
      this.cmppri, this.tracks, this.store := cmppri, tracks, store;
    }

    /** The set-position callback. */
    method SetPos(e: Entry, i: nat)
      modifies store`pos
      ensures store.pos == if tracks then old(store.pos)[e := i] else old(store.pos)
    {
      if tracks {
        store.pos := store.pos[e := i];
      }
    }

    /** The entry in slot i has no reason to move up. */
    ghost predicate UnderItsParent(i: nat)
      requires i < d.Length
      reads this, d, store
    {
      i < 2 || !cmppri(Pri(store.pri, d[i / 2]), Pri(store.pri, d[i]))
    }

    /** The entry in slot i0 moves up past ancestors it outranks: at most log2(i0) entries are shifted.
        Slot `size` is allowed for an entry that stays: remove bubbles there when it took the last entry. */
    method BubbleUp(i0: nat) returns (ghost shifts: nat)
      requires Shape() && 1 <= i0 <= size && i0 < d.Length
      requires UnderItsParent(i0) || (i0 < size && ExceptUp(cmppri, Pris(store.pri, Slots()), i0))
      requires Indexed(tracks, store.pos, Slots(), 0) ==> i0 < size || d[i0] !in Contents()
      modifies d, store`pos
      ensures Shape() && Contents() == old(Contents()) && Bag(Slots()) == old(Bag(Slots()))
      ensures i0 < size && old(ExceptUp(cmppri, Pris(store.pri, Slots()), i0)) ==> InOrder()
      ensures old(UnderItsParent(i0)) ==> Slots() == old(Slots())
      ensures old(UnderItsParent(i0)) ==> store.pos == if tracks then old(store.pos[d[i0] := i0]) else old(store.pos)
      ensures old(Indexed(tracks, store.pos, Slots(), if i0 < size then i0 else 0)) ==>
                Indexed(tracks, store.pos, Slots(), 0)
      ensures !tracks ==> store.pos == old(store.pos)
      ensures Pow2(shifts) <= i0
    {
      hide StrictWeakOrder, ExceptUp, Heap, Elems, Indexed, Pris, Swap, Bag;
      hide Ancestor, Pow2, Ordered, Bridged, Pri;
      var i := i0;
      var moving := d[i];
      var parent := i / 2;
      ghost var inside, stays := i0 < size, UnderItsParent(i0);
      ghost var up := inside && ExceptUp(cmppri, Pris(store.pri, Slots()), i0);
      ghost var v, indexed := Slots(), Indexed(tracks, store.pos, Slots(), if inside then i0 else 0);
      shifts := 0;
      assert i == Ancestor(i0, 0) by { AncestorZero(i0); }
      while i > 1 && cmppri(Pri(store.pri, d[parent]), Pri(store.pri, moving))
        invariant 1 <= i <= size && i < d.Length && parent == i / 2
        invariant if inside then i < size && v == Slots()[i := moving] else v == Slots()
        invariant stays ==> i == i0 && v == old(Slots()) && d[i0] == moving && UnderItsParent(i0) && store.pos == old(store.pos)
        invariant Elems(v) == old(Contents()) && Bag(v) == old(Bag(Slots()))
        invariant up ==> inside && ExceptUp(cmppri, Pris(store.pri, v), i)
        invariant indexed ==> Indexed(tracks, store.pos, v, if inside then i else 0)
        invariant !tracks ==> store.pos == old(store.pos)
        invariant i == Ancestor(i0, shifts)
      {
        BubbleSwap(cmppri, store.pri, v, i);
        if indexed {
          IndexedMoved(tracks, store.pos, v, i, parent);
        }
        ghost var s := Slots();
        SwapInFlight(s, i, parent, moving);
        d[i] := d[parent];
        assert Slots() == s[i := s[parent]];
        SetPos(d[i], i);
        v := Swap(v, i, parent);
        AncestorOnce(i0, shifts);
        shifts := shifts + 1;
        i := parent;
        parent := i / 2;
      }
      if up {
        BubbleDone(cmppri, Pris(store.pri, v), i);
      }
      if indexed {
        if inside {
          IndexedStored(tracks, store.pos, v, i);
        } else {
          IndexedOutside(tracks, store.pos, v, moving, i);
        }
      }
      d[i] := moving;
      SetPos(moving, i);
      assert Slots() == v;
      assert Pow2(shifts) <= i0 by {
        AncestorSpan(i0, shifts);
        MulMono(1, i, Pow2(shifts));
      }
    }

    /** maxchild: 0 if slot i has no child. */
    function MaxChild(i: nat): (c: nat)
      requires 1 <= i && size <= d.Length
      reads this, d, store
      ensures StrictWeakOrder(cmppri) ==> IsMaxChild(cmppri, Pris(store.pri, Slots()), i, c)
      ensures if 2 * i < size then c / 2 == i && i < c < size else c == 0
    {
      var child := 2 * i;
      if child >= size then 0
      else if child + 1 < size && cmppri(Pri(store.pri, d[child]), Pri(store.pri, d[child + 1])) then child + 1
      else child
    }

    /** The entry in slot i has no reason to move down. */
    ghost predicate TopsItsChildren(i: nat)
      requires 1 <= i < d.Length && size <= d.Length
      reads this, d, store
    {
      MaxChild(i) == 0 || !cmppri(Pri(store.pri, d[i]), Pri(store.pri, d[MaxChild(i)]))
    }

    /** The entry in slot i0 moves down below descendants that outrank it, at most log2((size-1)/i0) levels.
        Slot `size` is allowed: pop and remove percolate there when they took the last entry. */
    method PercolateDown(i0: nat) returns (ghost levels: nat)
      requires Shape() && 1 <= i0 <= size && i0 < d.Length
      requires TopsItsChildren(i0) || (i0 < size && ExceptDown(cmppri, Pris(store.pri, Slots()), i0))
      requires Indexed(tracks, store.pos, Slots(), if i0 < size then i0 else 0) && (i0 == size ==> d[i0] !in Contents())
      modifies d, store`pos
      ensures Shape() && Contents() == old(Contents()) && Indexed(tracks, store.pos, Slots(), 0)
      ensures i0 < size && old(ExceptDown(cmppri, Pris(store.pri, Slots()), i0)) ==> InOrder()
      ensures old(TopsItsChildren(i0)) ==> Slots() == old(Slots())
      ensures old(TopsItsChildren(i0)) ==> store.pos == if tracks then old(store.pos[d[i0] := i0]) else old(store.pos)
      ensures !tracks ==> store.pos == old(store.pos)
      ensures i0 < size ==> i0 * Pow2(levels) <= size - 1
    {
      hide StrictWeakOrder, ExceptDown, Heap, Elems, Indexed, IsMaxChild, Pris, Swap;
      hide MaxChild, Ancestor, Pow2, Ordered, Bridged, Pri;
      var i := i0;
      var moving := d[i];
      var child := MaxChild(i);
      ghost var v := Slots();
      ghost var inside, stays := i0 < size, TopsItsChildren(i0);
      ghost var down := inside && ExceptDown(cmppri, Pris(store.pri, v), i0);
      levels := 0;
      assert i0 == Ancestor(i, 0) by { AncestorZero(i); }
      while child != 0 && cmppri(Pri(store.pri, moving), Pri(store.pri, d[child]))
        invariant 1 <= i <= size && i < d.Length && child == MaxChild(i) && (!inside ==> child == 0)
        invariant if inside then i < size && v == Slots()[i := moving] else i == i0 && v == Slots()
        invariant stays ==> i == i0 && v == old(Slots()) && d[i0] == moving && TopsItsChildren(i0) && store.pos == old(store.pos)
        invariant Elems(v) == old(Contents())
        invariant down ==> inside && ExceptDown(cmppri, Pris(store.pri, v), i)
        invariant Indexed(tracks, store.pos, v, if inside then i else 0)
        invariant !tracks ==> store.pos == old(store.pos)
        invariant i0 == Ancestor(i, levels)
        decreases size - i
      {
        MaxChildMoving(cmppri, store.pri, Slots(), i, child, moving);
        PercolateSwap(cmppri, store.pri, v, i, child);
        AncestorOfChild(i, child, levels);
        IndexedMoved(tracks, store.pos, v, i, child);
        ghost var s := Slots();
        SwapInFlight(s, i, child, moving);
        d[i] := d[child];
        assert Slots() == s[i := s[child]];
        SetPos(d[i], i);
        v := Swap(v, i, child);
        levels := levels + 1;
        i := child;
        child := MaxChild(i);
      }
      if down {
        MaxChildMoving(cmppri, store.pri, Slots(), i, child, moving);
        PercolateDone(cmppri, Pris(store.pri, v), i, child);
      }
      if inside {
        AncestorSpan(i, levels);
        IndexedStored(tracks, store.pos, v, i);
      } else {
        IndexedOutside(tracks, store.pos, v, moving, i);
      }
      d[i] := moving;
      SetPos(moving, i);
      assert Slots() == v;
    }

    /** Where the last entry of s, put in slot i, has no reason to move. */
    lemma TookOut(s: seq<Entry>, i: nat)
      requires 1 <= i < |s| && i < d.Length && 1 <= size <= d.Length
      requires Slots() == RemoveAt(s, i) && d[i] == s[|s| - 1]
      ensures UnderParent(cmppri, Pris(store.pri, s), i, Pri(store.pri, d[i])) ==> UnderItsParent(i)
      ensures TopsChildren(cmppri, Pris(store.pri, s), i, Pri(store.pri, d[i])) || i == size ==> TopsItsChildren(i)
    {
      var t, c := Slots(), MaxChild(i);
      assert i >= 2 ==> d[i / 2] == t[i / 2] == s[i / 2];
      assert c != 0 ==> c / 2 == i && d[c] == t[c] == s[c];
    }

    lemma Appended(s: seq<Entry>, e: Entry)
      requires 1 <= |s| < d.Length && size == |s| + 1 && Slots() == s + [e]
      ensures FitsLast(cmppri, store.pri, s, e) ==> UnderItsParent(|s|)
    {
      assert d[|s| / 2] == Slots()[|s| / 2] == s[|s| / 2] && d[|s|] == Slots()[|s|];
    }

    /** In a heap every entry is in its place. */
    lemma InPlace(i: nat)
      requires Shape() && InOrder() && 1 <= i < size
      ensures UnderItsParent(i) && TopsItsChildren(i)
      ensures ExceptUp(cmppri, Pris(store.pri, Slots()), i) && ExceptDown(cmppri, Pris(store.pri, Slots()), i)
    {
      var ps, c := Pris(store.pri, Slots()), MaxChild(i);
      HeapHasNoDefect(cmppri, ps, i);
      assert i >= 2 ==> Ordered(cmppri, ps, i);
      assert c != 0 ==> Ordered(cmppri, ps, c);
    }

    /** The owner of an entry that is not queued sets the priority in it. */
    method Prepare(e: Entry, x: int)
      requires Valid() && e !in Contents()
      modifies store`pri
      ensures Valid() && Model() == old(Model()) && store.pri == old(store.pri)[e := x]
    {
      hide StrictWeakOrder, Heap, Indexed;
      assert Pris(store.pri[e := x], Slots()) == Pris(store.pri, Slots());
      store.pri := store.pri[e := x];
    }

    /** Makes room: the array grows by `step` when it is full. */
    method Grow()
      requires 1 <= size <= d.Length && step >= 1
      modifies `d
      ensures size < d.Length && Slots() == old(Slots()) && (d == old(d) || fresh(d))
      ensures d.Length == if old(size) < old(d.Length) then old(d.Length) else old(size) + step
    {
      if size >= d.Length {
        var tmp := new Entry[size + step](_ => 0);
        forall k | 0 <= k < size {
          tmp[k] := d[k];
        }
        d := tmp;
      }
    }

    /** pqueue_insert.  Inserting an entry that is queued already keeps the order and adds it once more, but no
        stored position can then be right for both slots. */
    method Insert(e: Entry)
      requires Valid() && e in store.pri
      modifies `d, `size, store`pos, d
      ensures Shape() && InOrder() && Model() == old(Model())[e := store.pri[e]]
      ensures Bag(Slots()) == old(Bag(Slots())) + multiset{e}
      ensures Valid() <==> e !in old(Contents())
      ensures d == old(d) || fresh(d)
      ensures FitsLast(cmppri, store.pri, old(Slots()), e) ==> Slots() == old(Slots()) + [e]
      ensures FitsLast(cmppri, store.pri, old(Slots()), e) && tracks ==> store.pos == old(store.pos)[e := old(size)]
      ensures !tracks ==> store.pos == old(store.pos)
    {
      hide StrictWeakOrder, ExceptUp, Heap, Elems, Indexed, Bag, FitsLast, UnderItsParent;
      ghost var s := Slots();
      Grow();
      AppendOrder(cmppri, store.pri, s, e);
      assert Elems(s + [e]) == Elems(s) + {e} by { AppendElems(s, e); }
      AppendBag(s, e);
      AppendIndexed(tracks, store.pos, s, e);
      var i := size;
      size := size + 1;
      d[i] := e;
      assert Slots() == s + [e];
      Appended(s, e);
      var _ := BubbleUp(i);
      if e in Elems(s) {
        QueuedTwice(tracks, store.pos, Slots(), s, e);
      }
    }

    /** The position stored in e names a used slot: that of e itself as long as e is queued, and maybe that of
        another entry once e has been popped or removed. */
    predicate Follows(e: Entry)
      reads this, store
    {
      e in store.pos && 1 <= store.pos[e] < size
    }

    lemma MemberFollows(e: Entry)
      requires Valid() && tracks && e in Contents()
      ensures Follows(e) && d[store.pos[e]] == e
    {
      hide StrictWeakOrder, Heap;
      PositionOfMember(store.pos, Slots(), e);
    }

    /** pqueue_change_priority.  For an entry that is not queued it changes the priority in the entry and nothing in
        the queue, since it then sifts an entry that is in its place. */
    method ChangePriority(newPri: int, e: Entry)
      requires Valid() && tracks && Follows(e)
      modifies store, d
      ensures Valid() && store.pri == old(store.pri)[e := newPri]
      ensures Model() == if e in old(Contents()) then old(Model())[e := newPri] else old(Model())
      ensures e !in old(Contents()) ==> Slots() == old(Slots())
    {
      hide StrictWeakOrder, ExceptUp, ExceptDown, Heap, Elems, Indexed, Pris, UnderItsParent, TopsItsChildren;
      ghost var s, queued := Slots(), e in Elems(Slots());
      var posn := store.pos[e];
      if queued {
        MemberFollows(e);
        RepricePris(store.pri, store.pos, s, posn, newPri);
        ReplaceOne(cmppri, Pris(store.pri, s), posn, newPri);
      } else {
        RepriceOutside(store.pri, s, e, newPri);
      }
      IndexedWeaken(tracks, store.pos, s, posn);
      var oldPri := Pri(store.pri, e);
      store.pri := store.pri[e := newPri];
      assert Slots() == s;
      if !queued {
        InPlace(posn);
      }
      if cmppri(oldPri, newPri) {
        var _ := BubbleUp(posn);
      } else {
        var _ := PercolateDown(posn);
      }
    }

    /** Slot i is overwritten with the last entry, and the queue shrinks. */
    method TakeOut(i: nat)
      requires 1 <= i < size <= d.Length
      modifies `size, d
      ensures size == old(size) - 1 && Slots() == RemoveAt(old(Slots()), i) && d[i] == old(d[size - 1])
    {
      size := size - 1;
      d[i] := d[size];
    }

    /** Whether the last entry, put in the slot that e leads to, is sifted the way it may have to move: the priority
        of e decides the way, and e is not what is in that slot unless it is queued. */
    ghost predicate RightWay(e: Entry)
      requires Follows(e) && size <= d.Length
      reads this, d, store
    {
      var i, y, ps := store.pos[e], Pri(store.pri, d[size - 1]), Pris(store.pri, Slots());
      i == size - 1 ||
      if cmppri(Pri(store.pri, e), y) then TopsChildren(cmppri, ps, i, y) else UnderParent(cmppri, ps, i, y)
    }

    /** pqueue_remove takes out whatever is in the slot that e leads to. */
    method Remove(e: Entry)
      requires Valid() && tracks && Follows(e)
      modifies `size, store`pos, d
      ensures Shape() && Model() == old(Model()) - {old(d[store.pos[e]])}
      ensures Indexed(tracks, store.pos, Slots(), 0)
      ensures Valid() <==> old(RightWay(e))
      ensures e in old(Contents()) ==> Valid() && old(d[store.pos[e]]) == e
      ensures old(e in Contents() && store.pos[e] == size - 1) ==>
                Slots() == old(Slots()[..size - 1]) && store.pos == old(store.pos)
    {
      hide StrictWeakOrder, ExceptUp, ExceptDown, Heap, Elems, Indexed, TopsChildren, UnderParent, Pris;
      hide UnderItsParent, TopsItsChildren;
      ghost var s := Slots();
      var posn := store.pos[e];
      if e in Elems(s) {
        MemberFollows(e);
      }
      RemoveIndexed(tracks, store.pos, s, posn);
      if posn == size - 1 {
        RemoveLast(cmppri, store.pri, s);
      } else {
        RemoveOrder(cmppri, store.pri, s, posn);
      }
      TakeOut(posn);
      TookOut(s, posn);
      if cmppri(Pri(store.pri, e), Pri(store.pri, d[posn])) {
        var _ := BubbleUp(posn);
      } else {
        var _ := PercolateDown(posn);
      }
    }

    /** pqueue_pop: None only when nothing is queued; otherwise an entry that no queued entry outranks. */
    method Pop() returns (r: Option<Entry>)
      requires Valid()
      modifies `size, store`pos, d
      ensures Valid()
      ensures r == None ==> old(Contents()) == {} && Model() == old(Model())
      ensures r.Some? ==> r.value in old(Model()) && Model() == old(Model()) - {r.value}
      ensures r.Some? ==> forall x :: x in old(Model()) ==> !cmppri(store.pri[r.value], store.pri[x])
      ensures !tracks ==> store.pos == old(store.pos)
    {
      hide StrictWeakOrder, ExceptUp, ExceptDown, Heap, Elems, Indexed, TopsChildren;
      ghost var s := Slots();
      if size == 1 {
        NoElems(s);
        return None;
      }
      RootOutranksMembers(cmppri, store.pri, s);
      RemoveIndexed(tracks, store.pos, s, 1);
      if size == 2 {
        RemoveLast(cmppri, store.pri, s);
      } else {
        RemoveOrder(cmppri, store.pri, s, 1);
      }
      var head := d[1];
      r := Some(head);
      TakeOut(1);
      TookOut(s, 1);
      var _ := PercolateDown(1);
    }

    /** pqueue_peek. */
    method Peek() returns (r: Option<Entry>)
      requires Valid()
      ensures r == None <==> Contents() == {}
      ensures r.Some? ==> r.value in Model() && forall x :: x in Model() ==> !cmppri(store.pri[r.value], store.pri[x])
    {
      if size == 1 {
        return None;
      }
      RootOutranksMembers(cmppri, store.pri, Slots());
      return Some(d[1]);
    }

    /** pqueue_size. */
    function Size(): (n: nat)
      requires Valid()
      reads this, d, store
      ensures n == |Contents()| == |Model()|
    {
      ElemsCount(Slots());
      assert Model().Keys == Contents();
      size - 1
    }

    /** The copy pqueue_print works on: the same entries, but a set-position callback that does nothing. */
    method Duplicate() returns (dup: Queue)
      requires Valid()
      ensures fresh(dup) && fresh(dup.d) && dup.Valid() && dup.Model() == Model()
      ensures dup.cmppri == cmppri && dup.store == store && !dup.tracks
    {
      hide StrictWeakOrder, Heap, Distinct, PositionsExcept, Elems;
      dup := new Queue(size, cmppri, false, store);
      dup.size := size;
      forall k | 0 <= k < size {
        dup.d[k] := d[k];
      }
      assert dup.Slots() == Slots();
    }

    /** pqueue_print: a heapsort on a copy.  The entries are shared with the copy, but no position stored in them
        changes, and neither do the slots of the queue. */
    method Print() returns (out: seq<Entry>)
      requires Valid()
      modifies store`pos
      ensures Valid() && store.pos == old(store.pos) && d[..] == old(d[..])
      ensures forall e :: e in out <==> e in Model()
      ensures forall j, k :: 0 <= j < k < |out| ==> out[j] != out[k] && !cmppri(Model()[out[j]], Model()[out[k]])
    {
      hide StrictWeakOrder, Heap, Indexed, Elems, Printed, Pri;
      ghost var m := Model();
      var dup := Duplicate();
      ghost var left, copied := m, dup.d;
      out := [];
      PrintedNone(cmppri, m);
      var e := dup.Pop();
      while e.Some?
        invariant fresh(dup) && dup.d == copied && fresh(copied) && dup.Valid()
        invariant store.pos == old(store.pos)
        invariant Printed(cmppri, m, left, out)
        invariant e.Some? ==> e.value in left && dup.Model() == left - {e.value}
        invariant e.Some? ==> forall x :: x in left ==> !cmppri(left[e.value], left[x])
        invariant e == None ==> left == map[]
        decreases |left|
      {
        PrintedNext(cmppri, m, left, out, e.value);
        out := out + [e.value];
        left := dup.Model();
        e := dup.Pop();
      }
      PrintedAll(cmppri, m, out);
    }

    /** subtree_is_valid, by recursion on both children. */
    predicate SubtreeIsValid(p: nat): (ok: bool)
      requires 1 <= p && size <= d.Length
      reads this, d, store
      ensures ok <==> SubtreeOrdered(cmppri, Pris(store.pri, Slots()), p)
      decreases size - p
    {
      hide Ordered, Below;
      SubtreeSplits(cmppri, Pris(store.pri, Slots()), p);
      && (2 * p < size ==> !cmppri(Pri(store.pri, d[p]), Pri(store.pri, d[2 * p])) && SubtreeIsValid(2 * p))
      && (2 * p + 1 < size ==> !cmppri(Pri(store.pri, d[p]), Pri(store.pri, d[2 * p + 1])) && SubtreeIsValid(2 * p + 1))
    }

    /** pqueue_is_valid: true iff no entry is outranked by an entry below it, whatever the size. */
    predicate IsValid(): (ok: bool)
      requires size <= d.Length && StrictWeakOrder(cmppri)
      reads this, d, store
      ensures ok <==> forall i, k :: 1 <= i < k < size && Below(i, k) ==> !cmppri(Pri(store.pri, d[i]), Pri(store.pri, d[k]))
      ensures ok <==> InOrder()
    {
      ValidMeansRanked(cmppri, Pris(store.pri, Slots()));
      SubtreeIsValid(1)
    }
  }
}
