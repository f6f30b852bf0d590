/** Heap order on a sequence of priorities, as cpu/pqueue.c arranges them: the root is at index 1, the
    children of i are at 2i and 2i+1, and cmp(a, b) says that b outranks a. */
module HeapOrder {

  type Cmp = (int, int) -> bool

  /** cmppri is a strict weak order: outranking is irreflexive, transitive, and so is not outranking. */
  ghost predicate StrictWeakOrder(cmp: Cmp) {
    && (forall a :: !cmp(a, a))
    && (forall a, b, c :: cmp(a, b) && cmp(b, c) ==> cmp(a, c))
    && (forall a, b, c :: cmp(a, c) ==> cmp(a, b) || cmp(b, c))
  }

  /** The smaller priority outranks, as in cmp_pri of cpu/my_coroutine.c. */
  const SMALLER_FIRST: Cmp := (next, curr) => next > curr

  lemma SmallerFirstIsOrder()
    ensures StrictWeakOrder(SMALLER_FIRST)
  {
  }

  lemma NotOutranked(cmp: Cmp, a: int, b: int, c: int)
    requires StrictWeakOrder(cmp) && !cmp(a, b) && !cmp(b, c)
    ensures !cmp(a, c)
  {
  }

  lemma Asymmetric(cmp: Cmp, a: int, b: int)
    requires StrictWeakOrder(cmp) && cmp(a, b)
    ensures !cmp(b, a)
  {
  }

  /** The entry at k does not outrank its parent. */
  predicate Ordered(cmp: Cmp, ps: seq<int>, k: nat)
    requires 2 <= k < |ps|
  {
    !cmp(ps[k / 2], ps[k])
  }

  ghost predicate Heap(cmp: Cmp, ps: seq<int>) {
    forall k :: 2 <= k < |ps| ==> Ordered(cmp, ps, k)
  }

  /** No child of i outranks the parent of i. */
  ghost predicate Bridged(cmp: Cmp, ps: seq<int>, i: nat) {
    forall k :: 2 <= i && 2 <= k < |ps| && k / 2 == i ==> !cmp(ps[i / 2], ps[k])
  }

  /** Ordered except that the entry at i may outrank its ancestors. */
  ghost predicate ExceptUp(cmp: Cmp, ps: seq<int>, i: nat) {
    && (forall k :: 2 <= k < |ps| && k != i ==> Ordered(cmp, ps, k))
    && Bridged(cmp, ps, i)
  }

  /** Ordered except that the entry at i may be outranked by its descendants. */
  ghost predicate ExceptDown(cmp: Cmp, ps: seq<int>, i: nat) {
    && (forall k :: 2 <= k < |ps| && k / 2 != i ==> Ordered(cmp, ps, k))
    && Bridged(cmp, ps, i)
  }

  function Swap<T>(s: seq<T>, i: nat, j: nat): seq<T>
    requires i < |s| && j < |s|
  {
    s[i := s[j]][j := s[i]]
  }

  /** c is the child of i that no other child outranks, or 0 if i has none. */
  ghost predicate IsMaxChild(cmp: Cmp, ps: seq<int>, i: nat, c: nat) {
    if 2 * i >= |ps| then c == 0
    else c / 2 == i && c < |ps| && forall k :: 2 <= k < |ps| && k / 2 == i ==> !cmp(ps[c], ps[k])
  }

  /** One step of bubble_up: the moving entry outranks its parent and trades places with it. */
  lemma BubbleStep(cmp: Cmp, ps: seq<int>, i: nat)
    requires StrictWeakOrder(cmp) && 2 <= i < |ps| && ExceptUp(cmp, ps, i)
    requires cmp(ps[i / 2], ps[i])
    ensures ExceptUp(cmp, Swap(ps, i, i / 2), i / 2)
  {
    hide StrictWeakOrder;
    var p, qs := i / 2, Swap(ps, i, i / 2);
    Asymmetric(cmp, ps[p], ps[i]);
    forall k | 2 <= k < |qs| && k != p ensures Ordered(cmp, qs, k) {
      assert k != i ==> Ordered(cmp, ps, k);
      if k != i && k / 2 == p {
        NotOutranked(cmp, ps[i], ps[p], ps[k]);
      }
    }
    forall k | 2 <= p && 2 <= k < |qs| && k / 2 == p ensures !cmp(qs[p / 2], qs[k]) {
      assert Ordered(cmp, ps, p);
      if k != i {
        assert Ordered(cmp, ps, k);
        NotOutranked(cmp, ps[p / 2], ps[p], ps[k]);
      }
    }
  }

  lemma BubbleDone(cmp: Cmp, ps: seq<int>, i: nat)
    requires 1 <= i < |ps| && ExceptUp(cmp, ps, i)
    requires i == 1 || !cmp(ps[i / 2], ps[i])
    ensures Heap(cmp, ps)
  {
    forall k | 2 <= k < |ps| ensures Ordered(cmp, ps, k) {
    }
  }

  /** One step of percolate_down: the highest-ranking child outranks the moving entry and trades places with it. */
  lemma PercolateStep(cmp: Cmp, ps: seq<int>, i: nat, c: nat)
    requires StrictWeakOrder(cmp) && 1 <= i < |ps| && ExceptDown(cmp, ps, i)
    requires c != 0 && IsMaxChild(cmp, ps, i, c) && cmp(ps[i], ps[c])
    ensures ExceptDown(cmp, Swap(ps, i, c), c)
  {
    hide StrictWeakOrder;
    var qs := Swap(ps, i, c);
    Asymmetric(cmp, ps[i], ps[c]);
    forall k | 2 <= k < |qs| && k / 2 != c ensures Ordered(cmp, qs, k) {
      assert k / 2 != i ==> Ordered(cmp, ps, k);
    }
    forall k | 2 <= k < |qs| && k / 2 == c ensures !cmp(qs[c / 2], qs[k]) {
      assert Ordered(cmp, ps, k);
    }
  }

  lemma PercolateDone(cmp: Cmp, ps: seq<int>, i: nat, c: nat)
    requires StrictWeakOrder(cmp) && 1 <= i < |ps| && ExceptDown(cmp, ps, i)
    requires IsMaxChild(cmp, ps, i, c) && (c == 0 || !cmp(ps[i], ps[c]))
    ensures Heap(cmp, ps)
  {
    hide StrictWeakOrder;
    forall k | 2 <= k < |ps| ensures Ordered(cmp, ps, k) {
      if k / 2 == i {
        NotOutranked(cmp, ps[i], ps[c], ps[k]);
      }
    }
  }

  lemma HeapHasNoDefect(cmp: Cmp, ps: seq<int>, i: nat)
    requires StrictWeakOrder(cmp) && Heap(cmp, ps) && 1 <= i < |ps|
    ensures ExceptUp(cmp, ps, i) && ExceptDown(cmp, ps, i)
  {
    hide StrictWeakOrder;
    forall k | 2 <= i && 2 <= k < |ps| && k / 2 == i ensures !cmp(ps[i / 2], ps[k]) {
      assert Ordered(cmp, ps, i) && Ordered(cmp, ps, k);
      NotOutranked(cmp, ps[i / 2], ps[i], ps[k]);
    }
  }

  /** No child of i would outrank a priority y put there. */
  ghost predicate TopsChildren(cmp: Cmp, ps: seq<int>, i: nat, y: int) {
    forall k :: 2 <= k < |ps| && k / 2 == i ==> !cmp(y, ps[k])
  }

  /** A priority y put at i would not outrank the parent of i. */
  ghost predicate UnderParent(cmp: Cmp, ps: seq<int>, i: nat, y: int)
    requires i < |ps|
  {
    i < 2 || !cmp(ps[i / 2], y)
  }

  /** A new priority in a heap can outrank its parent or be outranked by a child, never both; the entry may then have
      to move that way, and a sift the other way leaves the heap broken. */
  lemma ReplaceWay(cmp: Cmp, ps: seq<int>, i: nat, y: int)
    requires StrictWeakOrder(cmp) && Heap(cmp, ps) && 1 <= i < |ps|
    ensures TopsChildren(cmp, ps, i, y) || UnderParent(cmp, ps, i, y)
    ensures if cmp(ps[i], y) then TopsChildren(cmp, ps, i, y) else UnderParent(cmp, ps, i, y)
    ensures Heap(cmp, ps[i := y]) <==> TopsChildren(cmp, ps, i, y) && UnderParent(cmp, ps, i, y)
    ensures TopsChildren(cmp, ps, i, y) ==> ExceptUp(cmp, ps[i := y], i)
    ensures UnderParent(cmp, ps, i, y) ==> ExceptDown(cmp, ps[i := y], i)
  {
    hide StrictWeakOrder;
    var qs := ps[i := y];
    if cmp(ps[i], y) {
      Asymmetric(cmp, ps[i], y);
    }
    forall k | 2 <= k < |ps| && k / 2 == i ensures cmp(ps[i], y) ==> !cmp(y, ps[k]) {
      assert Ordered(cmp, ps, k);
      if cmp(ps[i], y) {
        NotOutranked(cmp, y, ps[i], ps[k]);
      }
    }
    if i >= 2 && !cmp(ps[i], y) {
      assert Ordered(cmp, ps, i);
      NotOutranked(cmp, ps[i / 2], ps[i], y);
    }
    forall k | 2 <= i && 2 <= k < |qs| && k / 2 == i ensures !cmp(qs[i / 2], qs[k]) {
      assert Ordered(cmp, ps, i) && Ordered(cmp, ps, k);
      NotOutranked(cmp, ps[i / 2], ps[i], ps[k]);
    }
    forall k | 2 <= k < |qs| && k != i && k / 2 != i ensures Ordered(cmp, qs, k) {
      assert Ordered(cmp, ps, k);
    }
    if Heap(cmp, qs) {
      forall k | 2 <= k < |ps| && k / 2 == i ensures !cmp(y, ps[k]) {
        assert Ordered(cmp, qs, k);
      }
      if i >= 2 {
        assert Ordered(cmp, qs, i);
      }
    }
  }

  /** Replacing one priority of a heap leaves a defect only upward or only downward. */
  lemma ReplaceOne(cmp: Cmp, ps: seq<int>, i: nat, x: int)
    requires StrictWeakOrder(cmp) && Heap(cmp, ps) && 1 <= i < |ps|
    ensures if cmp(ps[i], x) then ExceptUp(cmp, ps[i := x], i) else ExceptDown(cmp, ps[i := x], i)
  {
    hide *;
    ReplaceWay(cmp, ps, i, x);
  }

  /** The last priority does not outrank itself, so where it would go only the others matter. */
  lemma TopsOthers(cmp: Cmp, ps: seq<int>, i: nat)
    requires StrictWeakOrder(cmp) && |ps| >= 1
    ensures TopsChildren(cmp, ps, i, ps[|ps| - 1]) <==> TopsChildren(cmp, ps[..|ps| - 1], i, ps[|ps| - 1])
  {
    hide StrictWeakOrder;
    Irreflexive(cmp, ps[|ps| - 1]);
  }

  /** Dropping the last entry keeps the order. */
  lemma DropLast(cmp: Cmp, ps: seq<int>)
    requires Heap(cmp, ps) && |ps| >= 1
    ensures Heap(cmp, ps[..|ps| - 1])
  {
    var qs := ps[..|ps| - 1];
    forall k | 2 <= k < |qs| ensures Ordered(cmp, qs, k) {
      assert Ordered(cmp, ps, k);
    }
  }

  /** A new last entry is a defect only upward. */
  lemma AppendOne(cmp: Cmp, ps: seq<int>, x: int)
    requires Heap(cmp, ps) && |ps| >= 1
    ensures ExceptUp(cmp, ps + [x], |ps|)
  {
    var qs := ps + [x];
    forall k | 2 <= k < |qs| && k != |ps| ensures Ordered(cmp, qs, k) {
      assert Ordered(cmp, ps, k);
    }
  }

  /** d is i itself or below it in the tree. */
  predicate Below(i: nat, d: nat)
    decreases d
  {
    d == i || (d > i && Below(i, d / 2))
  }

  lemma {:induction false} BelowIsLater(i: nat, d: nat)
    requires Below(i, d)
    ensures i <= d
  {
  }

  /** What lies strictly below i lies below one of its two children. */
  lemma {:induction false} BelowSplits(i: nat, d: nat)
    requires 1 <= i
    ensures Below(i, d) && d != i <==> Below(2 * i, d) || Below(2 * i + 1, d)
    decreases d
  {
    if d > i {
      BelowSplits(i, d / 2);
      BelowParent(2 * i, d);
      BelowParent(2 * i + 1, d);
    } else if Below(2 * i, d) {
      BelowIsLater(2 * i, d);
    } else if Below(2 * i + 1, d) {
      BelowIsLater(2 * i + 1, d);
    }
  }

  lemma BelowParent(j: nat, d: nat)
    requires j >= 1
    ensures Below(j, d) && d != j ==> Below(j, d / 2)
    ensures Below(j, d / 2) && d >= 1 ==> Below(j, d)
  {
    if Below(j, d / 2) {
      BelowIsLater(j, d / 2);
    }
  }

  lemma Irreflexive(cmp: Cmp, a: int)
    requires StrictWeakOrder(cmp)
    ensures !cmp(a, a)
  {
  }

  /** In an ordered tree no entry is outranked by an entry below it. */
  lemma {:induction false} NoneOutranksAncestor(cmp: Cmp, ps: seq<int>, i: nat, d: nat)
    requires StrictWeakOrder(cmp) && 1 <= i <= d < |ps| && Below(i, d)
    requires forall k :: i < k < |ps| && Below(i, k) ==> Ordered(cmp, ps, k)
    ensures !cmp(ps[i], ps[d])
    decreases d
  {
    hide StrictWeakOrder;
    if d > i {
      BelowIsLater(i, d / 2);
      NoneOutranksAncestor(cmp, ps, i, d / 2);
      assert Ordered(cmp, ps, d);
      NotOutranked(cmp, ps[i], ps[d / 2], ps[d]);
    } else {
      assert !cmp(ps[i], ps[i]) by { Irreflexive(cmp, ps[i]); }
    }
  }

  lemma {:induction false} EverythingBelowRoot(d: nat)
    requires d >= 1
    ensures Below(1, d)
  {
    if d > 1 {
      EverythingBelowRoot(d / 2);
    }
  }

  /** The root of a heap is outranked by no entry. */
  lemma RootOutranksAll(cmp: Cmp, ps: seq<int>, d: nat)
    requires StrictWeakOrder(cmp) && Heap(cmp, ps) && 1 <= d < |ps|
    ensures !cmp(ps[1], ps[d])
  {
    EverythingBelowRoot(d);
    NoneOutranksAncestor(cmp, ps, 1, d);
  }

  /** Everything strictly below p is in order with its parent. */
  ghost predicate SubtreeOrdered(cmp: Cmp, ps: seq<int>, p: nat)
    requires p >= 1
  {
    forall k :: p < k < |ps| && Below(p, k) ==> Ordered(cmp, ps, k)
  }

  lemma ChildIsBelow(p: nat, c: nat)
    requires p >= 1 && c / 2 == p
    ensures Below(p, c) && c > p
  {
  }

  /** A subtree is ordered iff its two children and their subtrees are. */
  lemma SubtreeSplits(cmp: Cmp, ps: seq<int>, p: nat)
    requires p >= 1
    ensures SubtreeOrdered(cmp, ps, p) <==>
              && (2 * p < |ps| ==> !cmp(ps[p], ps[2 * p]) && SubtreeOrdered(cmp, ps, 2 * p))
              && (2 * p + 1 < |ps| ==> !cmp(ps[p], ps[2 * p + 1]) && SubtreeOrdered(cmp, ps, 2 * p + 1))
  {
    if SubtreeOrdered(cmp, ps, p) {
      ChildIsBelow(p, 2 * p);
      ChildIsBelow(p, 2 * p + 1);
      assert 2 * p < |ps| ==> Ordered(cmp, ps, 2 * p);
      assert 2 * p + 1 < |ps| ==> Ordered(cmp, ps, 2 * p + 1);
      forall k | 2 * p < k < |ps| && Below(2 * p, k) ensures Ordered(cmp, ps, k) {
        BelowSplits(p, k);
      }
      forall k | 2 * p + 1 < k < |ps| && Below(2 * p + 1, k) ensures Ordered(cmp, ps, k) {
        BelowSplits(p, k);
      }
    } else {
      var k :| p < k < |ps| && Below(p, k) && !Ordered(cmp, ps, k);
      BelowSplits(p, k);
      if Below(2 * p, k) {
        BelowIsLater(2 * p, k);
      } else {
        BelowIsLater(2 * p + 1, k);
      }
    }
  }

  /** Every entry is in order with its parent iff none is outranked by any entry below it. */
  lemma ValidMeansRanked(cmp: Cmp, ps: seq<int>)
    requires StrictWeakOrder(cmp)
    ensures Heap(cmp, ps) <==> SubtreeOrdered(cmp, ps, 1)
    ensures Heap(cmp, ps) <==> forall i, k :: 1 <= i < k < |ps| && Below(i, k) ==> !cmp(ps[i], ps[k])
  {
    forall k | 1 < k < |ps| ensures Below(1, k) {
      EverythingBelowRoot(k);
    }
    if Heap(cmp, ps) {
      forall i, k | 1 <= i < k < |ps| && Below(i, k) ensures !cmp(ps[i], ps[k]) {
        NoneOutranksAncestor(cmp, ps, i, k);
      }
    }
    if forall i, k :: 1 <= i < k < |ps| && Below(i, k) ==> !cmp(ps[i], ps[k]) {
      forall k | 2 <= k < |ps| ensures Ordered(cmp, ps, k) {
        assert Below(k / 2, k);
      }
    }
  }

  function Pow2(n: nat): nat {
    if n == 0 then 1 else 2 * Pow2(n - 1)
  }

  /** n levels up from i. */
  function Ancestor(i: nat, n: nat): nat {
    if n == 0 then i else Ancestor(i, n - 1) / 2
  }

  lemma MulAssoc(x: nat, y: nat, z: nat)
    ensures x * (y * z) == (x * y) * z
  {
  }

  /** A walk of n levels between i and an ancestor spans a factor of 2 to the n. */
  lemma {:induction false} AncestorSpan(i: nat, n: nat)
    ensures Ancestor(i, n) * Pow2(n) <= i
  {
    if n > 0 {
      AncestorSpan(i, n - 1);
      OneLevelSpan(Ancestor(i, n - 1), Pow2(n - 1), i);
    }
  }

  lemma OneLevelSpan(a: nat, p: nat, i: nat)
    requires a * p <= i
    ensures (a / 2) * (2 * p) <= i
  {
    var h := a / 2;
    MulAssoc(h, 2, p);
    MulMono(h * 2, a, p);
  }

  lemma {:induction false} MulMono(x: nat, y: nat, z: nat)
    requires x <= y
    ensures x * z <= y * z
  {
    var d := y - x;
    assert y == x + d;
    MulDistributes(x, d, z);
  }

  lemma MulDistributes(x: nat, d: nat, z: nat)
    ensures (x + d) * z == x * z + d * z && d * z >= 0
  {
  }

  lemma AncestorZero(i: nat)
    ensures Ancestor(i, 0) == i
  {
  }

  lemma AncestorOnce(i: nat, n: nat)
    ensures Ancestor(i, n + 1) == Ancestor(i, n) / 2
  {
  }

  /** Going one level down from i, then n levels up. */
  lemma {:induction false} AncestorOfChild(i: nat, c: nat, n: nat)
    requires c / 2 == i
    ensures Ancestor(c, n + 1) == Ancestor(i, n)
  {
    if n > 0 {
      AncestorOfChild(i, c, n - 1);
    }
  }

  /** Which child is highest does not depend on the parent's own priority. */
  lemma MaxChildIgnoresParent(cmp: Cmp, ps: seq<int>, i: nat, c: nat, x: int)
    requires 1 <= i < |ps| && IsMaxChild(cmp, ps, i, c)
    ensures IsMaxChild(cmp, ps[i := x], i, c)
  {
  }
}
