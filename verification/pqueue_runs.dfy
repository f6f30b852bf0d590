/** Whole runs of the priority queue of cpu/pqueue.c: any sequence of its operations refines the same sequence on a
    finite map from queued entries to priorities. */
module PQueueRuns {
  import opened Base
  import opened HeapOrder
  import opened PQueue

  type Priorities = map<Entry, int>

  datatype Op = Insert(e: Entry, p: int) | ChangePriority(e: Entry, p: int) | Remove(e: Entry) | Pop

  /** Callers insert entries that are not queued, and change or remove entries that are. */
  predicate Legal(m: Priorities, op: Op) {
    match op
    case Insert(e, _) => e !in m
    case ChangePriority(e, _) => e in m
    case Remove(e) => e in m
    case Pop => true
  }

  /** e is queued and no queued entry outranks it. */
  ghost predicate Foremost(cmp: Cmp, m: Priorities, e: Entry) {
    e in m && forall x :: x in m ==> !cmp(m[e], m[x])
  }

  /** One operation on the map; which of several equally ranked entries a pop returns is left open. */
  ghost predicate Does(cmp: Cmp, m: Priorities, op: Op, out: Option<Entry>, m1: Priorities) {
    match op
    case Insert(e, p) => out == None && m1 == m[e := p]
    case ChangePriority(e, p) => out == None && m1 == m[e := p]
    case Remove(e) => out == None && m1 == m - {e}
    case Pop =>
      if m == map[] then out == None && m1 == m
      else out.Some? && Foremost(cmp, m, out.value) && m1 == m - {out.value}
  }

  /** Every operation is legal when its turn comes, whatever the pops before it returned. */
  ghost predicate AllLegal(cmp: Cmp, m: Priorities, ops: seq<Op>)
    decreases ops
  {
    ops == [] ||
    (Legal(m, ops[0]) && forall out, m1 :: Does(cmp, m, ops[0], out, m1) ==> AllLegal(cmp, m1, ops[1..]))
  }

  ghost predicate Runs(cmp: Cmp, m: Priorities, ops: seq<Op>, outs: seq<Option<Entry>>, end: Priorities)
    decreases ops
  {
    |outs| == |ops| &&
    if ops == [] then end == m
    else exists m1 :: Does(cmp, m, ops[0], outs[0], m1) && Runs(cmp, m1, ops[1..], outs[1..], end)
  }

  /** One more operation after a first one. */
  lemma RunsCons(cmp: Cmp, m: Priorities, op: Op, out: Option<Entry>, m1: Priorities,
                 ops: seq<Op>, outs: seq<Option<Entry>>, end: Priorities)
    requires Does(cmp, m, op, out, m1) && Runs(cmp, m1, ops, outs, end)
    ensures Runs(cmp, m, [op] + ops, [out] + outs, end)
  {
    hide Does;
    var ops1, outs1 := [op] + ops, [out] + outs;
    assert ops1[1..] == ops && outs1[1..] == outs && ops1[0] == op && outs1[0] == out;
  }

  lemma {:induction false} RunsSnoc(cmp: Cmp, m: Priorities, ops: seq<Op>, outs: seq<Option<Entry>>, mid: Priorities,
                                    op: Op, out: Option<Entry>, end: Priorities)
    requires Runs(cmp, m, ops, outs, mid) && Does(cmp, mid, op, out, end)
    ensures Runs(cmp, m, ops + [op], outs + [out], end)
    decreases ops
  {
    hide Does;
    if ops == [] {
      RunsNone(cmp, end);
      RunsCons(cmp, mid, op, out, end, [], [], end);
      assert [op] + [] == ops + [op] && [out] + [] == outs + [out];
    } else {
      var m1 :| Does(cmp, m, ops[0], outs[0], m1) && Runs(cmp, m1, ops[1..], outs[1..], mid);
      RunsSnoc(cmp, m1, ops[1..], outs[1..], mid, op, out, end);
      RunsCons(cmp, m, ops[0], outs[0], m1, ops[1..] + [op], outs[1..] + [out], end);
      assert [ops[0]] + (ops[1..] + [op]) == ops + [op] && [outs[0]] + (outs[1..] + [out]) == outs + [out];
    }
  }

  lemma RunsNone(cmp: Cmp, m: Priorities)
    ensures Runs(cmp, m, [], [], m)
  {
  }

  // The entries that come in, and go out either way, in a run

  function Bag(e: Option<Entry>): multiset<Entry> {
    if e.Some? then multiset{e.value} else multiset{}
  }

  function Inserted(ops: seq<Op>): multiset<Entry>
    decreases ops
  {
    if ops == [] then multiset{} else Bag(if ops[0].Insert? then Some(ops[0].e) else None) + Inserted(ops[1..])
  }

  function Removed(ops: seq<Op>): multiset<Entry>
    decreases ops
  {
    if ops == [] then multiset{} else Bag(if ops[0].Remove? then Some(ops[0].e) else None) + Removed(ops[1..])
  }

  function Popped(outs: seq<Option<Entry>>): multiset<Entry>
    decreases outs
  {
    if outs == [] then multiset{} else Bag(outs[0]) + Popped(outs[1..])
  }

  lemma DoesMove(cmp: Cmp, m: Priorities, op: Op, out: Option<Entry>, m1: Priorities)
    requires Legal(m, op) && Does(cmp, m, op, out, m1)
    ensures multiset(m.Keys) + Bag(if op.Insert? then Some(op.e) else None)
         == multiset(m1.Keys) + Bag(if op.Remove? then Some(op.e) else None) + Bag(out)
  {
    match op {
      case Insert(e, p) =>
        assert m1.Keys == m.Keys + {e};
      case ChangePriority(e, p) =>
        assert m1.Keys == m.Keys;
      case Remove(e) =>
        assert m1.Keys == m.Keys - {e};
      case Pop =>
        if out.Some? {
          assert m1.Keys == m.Keys - {out.value};
        }
    }
  }

  lemma Rebalance(x: multiset<Entry>, y: multiset<Entry>, z: multiset<Entry>, i: multiset<Entry>, r: multiset<Entry>,
                  p: multiset<Entry>, i1: multiset<Entry>, r1: multiset<Entry>, p1: multiset<Entry>)
    requires x + i == y + r + p && y + i1 == z + r1 + p1
    ensures x + (i + i1) == z + (r + r1) + (p + p1)
  {
    forall v: Entry ensures (x + (i + i1))[v] == (z + (r + r1) + (p + p1))[v] {
      assert (x + i)[v] == (y + r + p)[v] && (y + i1)[v] == (z + r1 + p1)[v];
    }
  }

  /** Conservation: over a legal run, the entries queued at first or inserted are those still queued, removed or popped. */
  lemma {:induction false} EntriesAreConserved(cmp: Cmp, m: Priorities, ops: seq<Op>, outs: seq<Option<Entry>>, end: Priorities)
    requires AllLegal(cmp, m, ops) && Runs(cmp, m, ops, outs, end)
    ensures multiset(m.Keys) + Inserted(ops) == multiset(end.Keys) + Removed(ops) + Popped(outs)
    decreases ops
  {
    hide Does, Legal, Bag;
    if ops != [] {
      var m1 :| Does(cmp, m, ops[0], outs[0], m1) && Runs(cmp, m1, ops[1..], outs[1..], end);
      DoesMove(cmp, m, ops[0], outs[0], m1);
      EntriesAreConserved(cmp, m1, ops[1..], outs[1..], end);
      Rebalance(multiset(m.Keys), multiset(m1.Keys), multiset(end.Keys),
                Bag(if ops[0].Insert? then Some(ops[0].e) else None), Bag(if ops[0].Remove? then Some(ops[0].e) else None),
                Bag(outs[0]), Inserted(ops[1..]), Removed(ops[1..]), Popped(outs[1..]));
    }
  }

  lemma LegalNext(cmp: Cmp, m: Priorities, ops: seq<Op>, i: nat)
    requires i < |ops| && AllLegal(cmp, m, ops[i..])
    ensures Legal(m, ops[i])
    ensures forall out, m1 :: Does(cmp, m, ops[i], out, m1) ==> AllLegal(cmp, m1, ops[i + 1..])
  {
    hide Does, Legal;
    assert ops[i..][1..] == ops[i + 1..];
  }

  method Perform(q: Queue, op: Op) returns (out: Option<Entry>)
    requires q.Valid() && q.tracks && Legal(q.Model(), op)
    modifies q, q.d, q.store
    ensures q.Valid() && Does(q.cmppri, old(q.Model()), op, out, q.Model())
    ensures q.d == old(q.d) || fresh(q.d)
  {
    hide Queue.Model, StrictWeakOrder, Heap, Indexed, Elems;
    out := None;
    match op {
      case Insert(e, p) =>
        q.Prepare(e, p);
        q.Insert(e);
      case ChangePriority(e, p) =>
        q.MemberFollows(e);
        q.ChangePriority(p, e);
      case Remove(e) =>
        q.MemberFollows(e);
        q.Remove(e);
      case Pop =>
        out := q.Pop();
    }
  }

  /** Any legal sequence of operations on the heap does to the abstract map what it says, with every pop returning
      an entry that none outranks. */
  method RunOps(q: Queue, ops: seq<Op>) returns (outs: seq<Option<Entry>>)
    requires q.Valid() && q.tracks && AllLegal(q.cmppri, q.Model(), ops)
    modifies q, q.d, q.store
    ensures q.Valid() && Runs(q.cmppri, old(q.Model()), ops, outs, q.Model())
  {
    hide Legal, Does, AllLegal, Runs, Queue.Model, StrictWeakOrder, Heap, Indexed, Elems;
    ghost var m := q.Model();
    outs := [];
    RunsNone(q.cmppri, m);
    var i := 0;
    while i < |ops|
      invariant 0 <= i <= |ops| && q.Valid() && (q.d == old(q.d) || fresh(q.d))
      invariant AllLegal(q.cmppri, q.Model(), ops[i..])
      invariant Runs(q.cmppri, m, ops[..i], outs, q.Model())
    {
      ghost var mid := q.Model();
      LegalNext(q.cmppri, mid, ops, i);
      var out := Perform(q, ops[i]);
      RunsSnoc(q.cmppri, m, ops[..i], outs, mid, ops[i], out, q.Model());
      assert ops[..i + 1] == ops[..i] + [ops[i]];
      outs := outs + [out];
      i := i + 1;
    }
    assert ops[..i] == ops;
  }

  // ---------------------------------------------------------------------------------------------
  // Removing an entry that has been removed already
  // ---------------------------------------------------------------------------------------------

  /** A new entry that may stay in the last slot. */
  method InsertLast(q: Queue, e: Entry, x: int)
    requires q.Valid() && q.tracks && e !in q.Contents()
    requires FitsLast(q.cmppri, q.store.pri[e := x], q.Slots(), e)
    modifies q, q.d, q.store
    ensures q.Valid() && q.Slots() == old(q.Slots()) + [e] && (q.d == old(q.d) || fresh(q.d))
    ensures q.store.pri == old(q.store.pri)[e := x] && q.store.pos == old(q.store.pos)[e := old(q.size)]
  {
    hide StrictWeakOrder, Heap, Indexed, Elems, FitsLast, Queue.Model;
    q.Prepare(e, x);
    q.Insert(e);
  }

  /** Entries 1, 2 and 3 with those priorities, and entry 0 with priority 9 and a stale position 1. */
  ghost predicate OneTwoThree(q: Queue)
    requires q.size <= q.d.Length
    reads q, q.d, q.store
  {
    && q.cmppri == SMALLER_FIRST && q.size == 4 && q.Slots()[1..] == [1, 2, 3]
    && (var pri := q.store.pri; Pri(pri, 0) == 9 && Pri(pri, 1) == 1 && Pri(pri, 2) == 2 && Pri(pri, 3) == 3)
    && 0 in q.store.pos && q.store.pos[0] == 1
  }

  lemma WrongWay(q: Queue)
    requires q.size <= q.d.Length && OneTwoThree(q)
    ensures q.Follows(0) && !q.RightWay(0)
  {
    var s, ps := q.Slots(), Pris(q.store.pri, q.Slots());
    assert s[1] == s[1..][0] && s[2] == s[1..][1] && s[3] == s[1..][2] && q.d[3] == s[3];
    assert ps[2] == 2 && SMALLER_FIRST(3, ps[2]);
  }

  /** Entry 0 leaves an empty queue, and keeps the position it had. */
  method ComeAndGo() returns (q: Queue)
    ensures q.Valid() && q.tracks && q.cmppri == SMALLER_FIRST && q.size == 1
    ensures q.store.pri == map[0 := 9] && q.store.pos == map[0 := 1]
    ensures fresh(q) && fresh(q.d) && fresh(q.store)
  {
    hide Heap, Indexed, Queue.Model, StrictWeakOrder;
    assert StrictWeakOrder(SMALLER_FIRST) by { SmallerFirstIsOrder(); }
    var store := new Store();
    q := new Queue(8, SMALLER_FIRST, true, store);
    InsertLast(q, 0, 9);
    assert q.Slots()[1] == 0 && 0 in q.Contents();
    q.Remove(0);
  }

  /** An entry of priority 9 is inserted and removed, so that its stored position stays 1; then entries of priority 1,
      2 and 3 are inserted.  Removing the first again takes out the 1, and the 3 that takes its slot is not sifted
      below the 2: the queue is broken. */
  method RemoveTwice() returns (q: Queue)
    ensures fresh(q) && q.tracks && q.Shape() && !q.Valid()
  {
    hide Heap, Indexed, StrictWeakOrder, Queue.RightWay, Queue.Model;
    q := ComeAndGo();
    InsertLast(q, 1, 1);
    InsertLast(q, 2, 2);
    InsertLast(q, 3, 3);
    WrongWay(q);
    q.Remove(0);
  }
}
