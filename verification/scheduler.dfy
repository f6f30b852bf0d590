/** The timer scheduler of cpu/my_coroutine.c: `delay`, and the event loop over the queue of deadlines.

    A coroutine runs from the moment it is resumed to its next call of `delay`, so one resumption is described
    by the two clock readings taken on the way and the length of that delay. */
module Scheduler {
  import opened HeapOrder
  import opened PQueue

  type Coroutine = int

  // ---------------------------------------------------------------------------------------------
  // Runs, as a reader of the program's intent sees them: each suspended coroutine has one deadline
  // ---------------------------------------------------------------------------------------------

  datatype Event =
    | Started(c: Coroutine, after: int, ms: int)                            // first resumption, from main
    | Ran(c: Coroutine, deadline: int, check: int, after: int, ms: int)     // resumed by the event loop
    | Idle(check: int)                                                      // the event loop went to sleep

  type Waiting = map<Coroutine, int>

  ghost predicate Possible(w: Waiting, ev: Event) {
    match ev
    case Started(c, after, ms) => c !in w
    case Ran(c, deadline, check, after, ms) =>
      c in w && w[c] == deadline < check && forall x :: x in w ==> deadline <= w[x]
    case Idle(check) => forall x :: x in w ==> check <= w[x]
  }

  function After(w: Waiting, ev: Event): Waiting {
    match ev
    case Started(c, after, ms) => w[c := ms + after]
    case Ran(c, deadline, check, after, ms) => w[c := ms + after]
    case Idle(check) => w
  }

  ghost predicate Explains(w: Waiting, evs: seq<Event>, end: Waiting)
    decreases evs
  {
    if evs == [] then w == end
    else Possible(w, evs[0]) && Explains(After(w, evs[0]), evs[1..], end)
  }

  /** Clock readings never decrease and no delay is negative. */
  predicate Timed(t: int, evs: seq<Event>)
    decreases evs
  {
    evs == [] ||
    match evs[0]
    case Started(c, after, ms) => t <= after && ms >= 0 && Timed(after, evs[1..])
    case Ran(c, deadline, check, after, ms) => t <= check <= after && ms >= 0 && Timed(after, evs[1..])
    case Idle(check) => t <= check && Timed(check, evs[1..])
  }

  /** The deadlines of the tasks popped, in order. */
  function Popped(evs: seq<Event>): seq<int>
    decreases evs
  {
    if evs == [] then []
    else if evs[0].Ran? then [evs[0].deadline] + Popped(evs[1..])
    else Popped(evs[1..])
  }

  predicate Sorted(s: seq<int>) {
    forall i, j :: 0 <= i < j < |s| ==> s[i] <= s[j]
  }

  lemma {:induction false} DeadlinesAbove(t: int, low: int, w: Waiting, evs: seq<Event>, end: Waiting)
    requires Explains(w, evs, end) && Timed(t, evs)
    requires low <= t && forall c :: c in w ==> low <= w[c]
    ensures Sorted(Popped(evs)) && forall i :: 0 <= i < |Popped(evs)| ==> low <= Popped(evs)[i]
    decreases evs
  {
    if evs != [] {
      var w1 := After(w, evs[0]);
      match evs[0]
      case Started(c, after, ms) => DeadlinesAbove(after, low, w1, evs[1..], end);
      case Ran(c, deadline, check, after, ms) => DeadlinesAbove(after, deadline, w1, evs[1..], end);
      case Idle(check) => DeadlinesAbove(check, low, w1, evs[1..], end);
    }
  }

  /** Over any run from the start, the popped deadlines never decrease, although tasks keep being inserted. */
  lemma DeadlineOrder(t: int, evs: seq<Event>, end: Waiting)
    requires Explains(map[], evs, end) && Timed(t, evs)
    ensures Sorted(Popped(evs))
  {
    DeadlinesAbove(t, t, map[], evs, end);
  }

  /** No coroutine is resumed at or before its deadline. */
  lemma {:induction false} NeverEarly(w: Waiting, evs: seq<Event>, end: Waiting, i: nat)
    requires Explains(w, evs, end) && i < |evs|
    ensures evs[i].Ran? ==> evs[i].deadline < evs[i].check
    decreases evs
  {
    if i > 0 {
      NeverEarly(After(w, evs[0]), evs[1..], end, i - 1);
    }
  }

  /** c runs in this event, up to its next delay. */
  predicate Runs(ev: Event, c: Coroutine) {
    !ev.Idle? && ev.c == c
  }

  /** A coroutine due at d that has not run since is resumed for that deadline. */
  lemma {:induction false} DueUntilRun(w: Waiting, evs: seq<Event>, end: Waiting, c: Coroutine, j: nat)
    requires Explains(w, evs, end) && c in w && j < |evs| && evs[j].Ran? && evs[j].c == c
    requires forall k :: 0 <= k < j ==> !Runs(evs[k], c)
    ensures evs[j].deadline == w[c] < evs[j].check
    decreases evs
  {
    if j > 0 {
      assert !Runs(evs[0], c);
      forall k | 0 <= k < j - 1 ensures !Runs(evs[1..][k], c) {
        assert evs[1..][k] == evs[k + 1];
      }
      DueUntilRun(After(w, evs[0]), evs[1..], end, c, j - 1);
    }
  }

  /** The coroutine that runs at i is next resumed at j. */
  predicate Consecutive(evs: seq<Event>, i: nat, j: nat)
    requires i < j < |evs|
  {
    !evs[i].Idle? && evs[j].Ran? && evs[j].c == evs[i].c && forall k :: i < k < j ==> !Runs(evs[k], evs[i].c)
  }

  /** delay(ms) returns only once more than ms have passed since it was called: i and j are consecutive runs of one
      coroutine, and the clock that ends its wait is past the clock that began it by more than ms. */
  lemma {:induction false} SleepsLongEnough(w: Waiting, evs: seq<Event>, end: Waiting, i: nat, j: nat)
    requires Explains(w, evs, end) && i < j < |evs| && Consecutive(evs, i, j)
    ensures evs[j].deadline == evs[i].after + evs[i].ms
    ensures evs[j].check - evs[i].after > evs[i].ms
    decreases evs
  {
    var rest := evs[1..];
    assert forall k :: 0 <= k < |rest| ==> rest[k] == evs[k + 1];
    if i > 0 {
      SleepsLongEnough(After(w, evs[0]), rest, end, i - 1, j - 1);
    } else {
      DueUntilRun(After(w, evs[0]), rest, end, evs[0].c, j - 1);
    }
  }

  function RunsOf(b: Coroutine, evs: seq<Event>): nat
    decreases evs
  {
    if evs == [] then 0
    else (if evs[0].Ran? && evs[0].c == b then 1 else 0) + RunsOf(b, evs[1..])
  }

  predicate DelaysAtLeast(b: Coroutine, p: int, evs: seq<Event>) {
    forall i :: 0 <= i < |evs| && evs[i].Ran? && evs[i].c == b ==> evs[i].ms >= p
  }

  /** How often a coroutine due at d can run before one due at e, when it waits at least p each time. */
  function Overtakes(d: int, e: int, p: nat): nat {
    if d > e then 0 else (e - d) / (p + 1) + 1
  }

  lemma OvertakesOnce(d: int, d1: int, e: int, p: nat)
    requires d <= e && d + p + 1 <= d1
    ensures 1 + Overtakes(d1, e, p) <= Overtakes(d, e, p)
  {
    if d1 <= e {
      DivMono(e - d1, e - d - (p + 1), p + 1);
      DivStep(e - d, p + 1);
    }
  }

  lemma MulLess(a: nat, b: nat, q: nat)
    ensures a < b ==> a * q + q <= b * q
  {
    if a < b {
      MulMono(a + 1, b, q);
      MulDistributes(a, 1, q);
    }
  }

  lemma DivMono(x: nat, y: nat, q: nat)
    requires x <= y && q >= 1
    ensures x / q <= y / q
  {
    MulLess(y / q, x / q, q);
  }

  lemma DivStep(x: nat, q: nat)
    requires q >= 1 && x >= q
    ensures (x - q) / q == x / q - 1
  {
    var k, k1 := x / q, (x - q) / q;
    MulLess(k1 + 1, k, q);
    MulLess(k, k1 + 1, q);
    MulDistributes(k1, 1, q);
  }

  /** No starvation: while a waits for its deadline e, a coroutine b due at d whose delays are at least p is
      resumed at most (e - d) / (p + 1) + 1 times, and not at all if d is later than e. */
  lemma {:induction false} NoStarvation(t: int, w: Waiting, evs: seq<Event>, end: Waiting, a: Coroutine, b: Coroutine, p: nat)
    requires Explains(w, evs, end) && Timed(t, evs)
    requires a in w && b in w && a != b
    requires RunsOf(a, evs) == 0 && DelaysAtLeast(b, p, evs)
    ensures RunsOf(b, evs) <= Overtakes(w[b], w[a], p)
    decreases evs
  {
    if evs != [] {
      var ev, rest := evs[0], evs[1..];
      var w1 := After(w, ev);
      assert DelaysAtLeast(b, p, rest) by {
        forall i | 0 <= i < |rest| && rest[i].Ran? && rest[i].c == b ensures rest[i].ms >= p {
          assert evs[i + 1] == rest[i];
        }
      }
      var t1 := if ev.Idle? then ev.check else ev.after;
      NoStarvation(t1, w1, rest, end, a, b, p);
      if ev.Ran? && ev.c == b {
        OvertakesOnce(w[b], w1[b], w[a], p);
      }
    }
  }

  /** How often the coroutines of cs, delaying at least p of each, can run before one due at e. */
  ghost function Budget(w: Waiting, cs: set<Coroutine>, e: int, p: Coroutine -> nat): nat
    requires cs <= w.Keys
  {
    if exists c :: c in cs then
      var c :| c in cs;
      Overtakes(w[c], e, p(c)) + Budget(w, cs - {c}, e, p)
    else
      0
  }

  lemma {:induction false} BudgetWithout(w: Waiting, cs: set<Coroutine>, e: int, p: Coroutine -> nat, b: Coroutine)
    requires cs <= w.Keys && b in cs
    ensures Budget(w, cs, e, p) == Overtakes(w[b], e, p(b)) + Budget(w, cs - {b}, e, p)
    decreases cs
  {
    hide Overtakes;
    var c :| c in cs && Budget(w, cs, e, p) == Overtakes(w[c], e, p(c)) + Budget(w, cs - {c}, e, p);
    if c != b {
      BudgetWithout(w, cs - {c}, e, p, b);
      BudgetWithout(w, cs - {b}, e, p, c);
      assert cs - {c} - {b} == cs - {b} - {c};
    }
  }

  lemma {:induction false} BudgetDependsOn(w: Waiting, w1: Waiting, cs: set<Coroutine>, e: int, p: Coroutine -> nat)
    requires cs <= w.Keys && cs <= w1.Keys && forall c :: c in cs ==> w[c] == w1[c]
    ensures Budget(w, cs, e, p) == Budget(w1, cs, e, p)
    decreases cs
  {
    hide Overtakes;
    if c :| c in cs {
      BudgetWithout(w, cs, e, p, c);
      BudgetWithout(w1, cs, e, p, c);
      BudgetDependsOn(w, w1, cs - {c}, e, p);
    }
  }

  /** One more run of b, due again at d1, uses up some of the budget. */
  lemma BudgetSpent(w: Waiting, b: Coroutine, d1: int, cs: set<Coroutine>, e: int, p: Coroutine -> nat)
    requires b in cs && cs <= w.Keys && w[b] <= e && w[b] + p(b) + 1 <= d1
    ensures 1 + Budget(w[b := d1], cs, e, p) <= Budget(w, cs, e, p)
  {
    hide Overtakes, Budget;
    BudgetWithout(w, cs, e, p, b);
    BudgetWithout(w[b := d1], cs, e, p, b);
    BudgetDependsOn(w, w[b := d1], cs - {b}, e, p);
    OvertakesOnce(w[b], d1, e, p(b));
  }

  function TotalRuns(evs: seq<Event>): nat
    decreases evs
  {
    if evs == [] then 0 else (if evs[0].Ran? then 1 else 0) + TotalRuns(evs[1..])
  }

  /** The event loop at work: nothing is started, and the coroutine c delays at least p(c) each time. */
  predicate Looping(p: Coroutine -> nat, evs: seq<Event>) {
    forall ev :: ev in evs ==> !ev.Started? && (ev.Ran? ==> ev.ms >= p(ev.c))
  }

  /** While a waits, all other coroutines together are resumed at most as often as the budgets of each allow. */
  lemma {:induction false} TotalOvertaking(t: int, w: Waiting, evs: seq<Event>, end: Waiting, a: Coroutine, p: Coroutine -> nat)
    requires Explains(w, evs, end) && Timed(t, evs) && Looping(p, evs)
    requires a in w && RunsOf(a, evs) == 0
    ensures TotalRuns(evs) <= Budget(w, w.Keys - {a}, w[a], p)
    decreases evs
  {
    hide Budget, Overtakes;
    if evs != [] {
      var ev, rest := evs[0], evs[1..];
      var w1 := After(w, ev);
      assert ev in evs && forall x :: x in rest ==> x in evs;
      TotalOvertaking(if ev.Idle? then ev.check else ev.after, w1, rest, end, a, p);
      if ev.Ran? {
        assert w1.Keys == w.Keys;
        BudgetSpent(w, ev.c, w1[ev.c], w.Keys - {a}, w[a], p);
      }
    }
  }

  /** Once the clock is past its deadline, a coroutine runs before the event loop has gone round more often than the
      budgets of the others allow: the loop cannot sleep through it. */
  lemma {:induction false} RunsInTime(t: int, w: Waiting, evs: seq<Event>, end: Waiting, a: Coroutine, p: Coroutine -> nat)
    requires Explains(w, evs, end) && Timed(t, evs) && Looping(p, evs)
    requires a in w && w[a] < t
    requires |evs| > Budget(w, w.Keys - {a}, w[a], p)
    ensures RunsOf(a, evs) > 0
  {
    if RunsOf(a, evs) == 0 {
      NeverIdle(t, w, evs, end, a, p);
      TotalOvertaking(t, w, evs, end, a, p);
      assert false;
    }
  }

  lemma {:induction false} NeverIdle(t: int, w: Waiting, evs: seq<Event>, end: Waiting, a: Coroutine, p: Coroutine -> nat)
    requires Explains(w, evs, end) && Timed(t, evs) && Looping(p, evs)
    requires a in w && w[a] < t && RunsOf(a, evs) == 0
    ensures TotalRuns(evs) == |evs|
    decreases evs
  {
    if evs != [] {
      var ev, rest := evs[0], evs[1..];
      assert ev in evs && forall x :: x in rest ==> x in evs;
      NeverIdle(ev.after, After(w, ev), rest, end, a, p);
    }
  }

  function Reached(w: Waiting, evs: seq<Event>): Waiting
    decreases evs
  {
    if evs == [] then w else Reached(After(w, evs[0]), evs[1..])
  }

  function LastReading(t: int, evs: seq<Event>): int
    decreases evs
  {
    if evs == [] then t else LastReading(if evs[0].Idle? then evs[0].check else evs[0].after, evs[1..])
  }

  /** Any moment of a run is the end of one run and the start of another. */
  lemma {:induction false} RunSplits(t: int, w: Waiting, xs: seq<Event>, ys: seq<Event>, end: Waiting)
    requires Explains(w, xs + ys, end) && Timed(t, xs + ys)
    ensures Explains(w, xs, Reached(w, xs)) && Timed(t, xs)
    ensures Explains(Reached(w, xs), ys, end) && Timed(LastReading(t, xs), ys)
    decreases xs
  {
    if xs == [] {
      assert xs + ys == ys;
    } else {
      assert (xs + ys)[1..] == xs[1..] + ys;
      RunSplits(if xs[0].Idle? then xs[0].check else xs[0].after, After(w, xs[0]), xs[1..], ys, end);
    }
  }

  /** The same bound for the stretch `ys` between any two moments of a whole run xs + ys + zs. */
  lemma NoStarvationInRun(t: int, xs: seq<Event>, ys: seq<Event>, zs: seq<Event>, end: Waiting,
                          a: Coroutine, b: Coroutine, p: nat)
    requires Explains(map[], xs + (ys + zs), end) && Timed(t, xs + (ys + zs))
    requires a in Reached(map[], xs) && b in Reached(map[], xs) && a != b
    requires RunsOf(a, ys) == 0 && DelaysAtLeast(b, p, ys)
    ensures RunsOf(b, ys) <= Overtakes(Reached(map[], xs)[b], Reached(map[], xs)[a], p)
  {
    var w, t1 := Reached(map[], xs), LastReading(t, xs);
    RunSplits(t, map[], xs, ys + zs, end);
    RunSplits(t1, w, ys, zs, end);
    NoStarvation(t1, w, ys, Reached(w, ys), a, b, p);
  }

  // ---------------------------------------------------------------------------------------------
  // The tasks behind a waiting map
  // ---------------------------------------------------------------------------------------------

  /** The clock readings, and the delay, of one round of the event loop and of a first resumption. */
  datatype Start = Start(c: Coroutine, after: int, ms: int)
  datatype Tick = Tick(check: int, after: int, ms: int)

  /** e is the task of c. */
  ghost predicate TaskOf(model: map<Entry, int>, owner: map<Entry, Coroutine>, c: Coroutine, e: Entry) {
    e in model && e in owner && owner[e] == c
  }

  /** Each suspended coroutine has exactly one queued task, which carries its deadline. */
  ghost predicate Linked(model: map<Entry, int>, owner: map<Entry, Coroutine>, w: Waiting, next: Entry) {
    && (forall e :: e in model ==> e < next && e in owner && owner[e] in w && w[owner[e]] == model[e])
    && (forall c :: c in w ==> exists e :: TaskOf(model, owner, c, e))
    && (forall c, e, f :: TaskOf(model, owner, c, e) && TaskOf(model, owner, c, f) ==> e == f)
  }

  lemma LinkedInsert(model: map<Entry, int>, owner: map<Entry, Coroutine>, w: Waiting, next: Entry, c: Coroutine, x: int)
    requires Linked(model, owner, w, next) && c !in w
    ensures next !in model
    ensures Linked(model[next := x], owner[next := c], w[c := x], next + 1)
  {
    var model1, owner1 := model[next := x], owner[next := c];
    assert TaskOf(model1, owner1, c, next);
    forall k | k in w ensures exists e :: TaskOf(model1, owner1, k, e) {
      var e :| TaskOf(model, owner, k, e);
      assert TaskOf(model1, owner1, k, e);
    }
    forall k, e, f | TaskOf(model1, owner1, k, e) && TaskOf(model1, owner1, k, f) ensures e == f {
      assert e != next ==> TaskOf(model, owner, k, e);
      assert f != next ==> TaskOf(model, owner, k, f);
    }
  }

  lemma LinkedRemove(model: map<Entry, int>, owner: map<Entry, Coroutine>, w: Waiting, next: Entry, e: Entry)
    requires Linked(model, owner, w, next) && e in model
    ensures e in owner && owner[e] in w && w[owner[e]] == model[e]
    ensures Linked(model - {e}, owner - {e}, w - {owner[e]}, next)
  {
    var model1, owner1, c := model - {e}, owner - {e}, owner[e];
    assert TaskOf(model, owner, c, e);
    forall f | f in model1 ensures owner[f] != c {
      assert TaskOf(model, owner, owner[f], f);
    }
    forall k | k in w && k != c ensures exists f :: TaskOf(model1, owner1, k, f) {
      var f :| TaskOf(model, owner, k, f);
      assert TaskOf(model1, owner1, k, f);
    }
    forall k, f, g | TaskOf(model1, owner1, k, f) && TaskOf(model1, owner1, k, g) ensures f == g {
      assert TaskOf(model, owner, k, f) && TaskOf(model, owner, k, g);
    }
  }

  /** A task no other outranks carries the earliest deadline. */
  lemma EarliestTask(model: map<Entry, int>, owner: map<Entry, Coroutine>, w: Waiting, next: Entry, e: Entry)
    requires Linked(model, owner, w, next) && e in model
    requires forall x :: x in model ==> !SMALLER_FIRST(model[e], model[x])
    ensures e in owner && owner[e] in w && w[owner[e]] == model[e]
    ensures forall c :: c in w ==> model[e] <= w[c]
  {
    forall c | c in w ensures model[e] <= w[c] {
      var x :| TaskOf(model, owner, c, x);
      assert !SMALLER_FIRST(model[e], model[x]);
    }
  }

  ghost predicate DueAt(w: Waiting, c: Coroutine, deadline: int) {
    c in w && w[c] == deadline
  }

  lemma RanIsPossible(w: Waiting, c: Coroutine, deadline: int, t: Tick)
    requires c in w && w[c] == deadline < t.check && forall x :: x in w ==> deadline <= w[x]
    ensures Possible(w, Ran(c, deadline, t.check, t.after, t.ms))
    ensures After(w, Ran(c, deadline, t.check, t.after, t.ms)) == (w - {c})[c := t.ms + t.after]
  {
  }

  lemma IdleIsPossible(w: Waiting, t: Tick)
    requires forall x :: x in w ==> t.check <= w[x]
    ensures Possible(w, Idle(t.check)) && After(w, Idle(t.check)) == w
  {
  }

  lemma SomeTask(model: map<Entry, int>, owner: map<Entry, Coroutine>, w: Waiting, next: Entry)
    requires Linked(model, owner, w, next)
    ensures forall c :: c in w ==> |model| > 0
  {
    forall c | c in w ensures |model| > 0 {
      var e :| TaskOf(model, owner, c, e);
      assert e in model.Keys;
    }
  }

  lemma {:induction false} ExplainsSnoc(w: Waiting, evs: seq<Event>, mid: Waiting, ev: Event)
    requires Explains(w, evs, mid) && Possible(mid, ev)
    ensures Explains(w, evs + [ev], After(mid, ev))
    decreases evs
  {
    if evs == [] {
      assert ([ev])[1..] == [];
    } else {
      ExplainsSnoc(After(w, evs[0]), evs[1..], mid, ev);
      assert (evs + [ev])[1..] == evs[1..] + [ev];
    }
  }

  // ---------------------------------------------------------------------------------------------
  // The program
  // ---------------------------------------------------------------------------------------------

  /** The events that main and the event loop leave for the given clock readings and delays. */
  ghost predicate FollowsStart(ev: Event, s: Start) {
    ev == Started(s.c, s.after, s.ms)
  }

  ghost predicate FollowsTick(ev: Event, t: Tick) {
    if ev.Idle? then ev.check == t.check
    else ev.Ran? && ev.check == t.check && ev.after == t.after && ev.ms == t.ms
  }

  lemma StartSnoc(evs: seq<Event>, w: Waiting, s: Start)
    requires Explains(map[], evs, w) && s.c !in w
    ensures Explains(map[], evs + [Started(s.c, s.after, s.ms)], w[s.c := s.ms + s.after])
  {
    ExplainsSnoc(map[], evs, w, Started(s.c, s.after, s.ms));
  }

  class Schedule {
    const queue: Queue
    var current: Coroutine
    var owner: map<Entry, Coroutine>       // task->coroutine
    var nextTask: Entry                    // what malloc hands out next
    ghost var waiting: Waiting             // the deadline of each suspended coroutine

    ghost predicate Valid()
      reads this, queue, queue.d, queue.store
    {
      && queue.Valid() && queue.tracks && queue.cmppri == SMALLER_FIRST
      && Linked(queue.Model(), owner, waiting, nextTask)
    }

    /** coroutine_init. */
    constructor ()
      ensures Valid() && waiting == map[] && fresh(queue) && fresh(queue.d) && fresh(queue.store)
    {
      var store := new Store();
      queue := new Queue(100, SMALLER_FIRST, true, store);
      current, owner, nextTask, waiting := 0, map[], 0, map[];
    }

    /** delay, up to the yield: the running coroutine queues one task for itself. */
    method Delay(ms: int, now: int)
      requires Valid() && current !in waiting
      modifies this`owner, this`nextTask, this`waiting, queue, queue.d, queue.store
      ensures Valid() && waiting == old(waiting)[current := ms + now]
      ensures queue.d == old(queue.d) || fresh(queue.d)
    {
      hide StrictWeakOrder, Indexed, Elems, Linked, PQueue.Bag, Queue.InOrder, Queue.Model;
      ghost var model := queue.Model();
      var task := nextTask;
      LinkedInsert(model, owner, waiting, nextTask, current, ms + now);
      nextTask := nextTask + 1;
      owner := owner[task := current];
      queue.Prepare(task, ms + now);
      queue.Insert(task);
      assert queue.Model() == model[task := ms + now];
      waiting := waiting[current := ms + now];
    }

    /** coroutine_resume, for a coroutine that then runs up to its next delay. */
    method Resume(c: Coroutine, after: int, ms: int)
      requires Valid() && c !in waiting
      modifies this, queue, queue.d, queue.store
      ensures Valid() && waiting == old(waiting)[c := ms + after] && current == c
      ensures queue.d == old(queue.d) || fresh(queue.d)
    {
      current := c;
      Delay(ms, after);
    }

    /** Pops and frees the task that no other outranks. */
    method TakeEarliest() returns (c: Coroutine, deadline: int)
      requires Valid() && queue.Size() > 0
      modifies this`owner, this`waiting, queue, queue.d, queue.store
      ensures Valid() && queue.d == old(queue.d)
      ensures c in old(waiting) && deadline == old(waiting)[c] && forall x :: x in old(waiting) ==> deadline <= old(waiting)[x]
      ensures waiting == old(waiting) - {c}
    {
      hide StrictWeakOrder, Indexed, Elems, Linked, Queue.InOrder, Queue.Model;
      ghost var model := queue.Model();
      var popped := queue.Pop();
      var task := popped.value;
      EarliestTask(model, owner, waiting, nextTask, task);
      LinkedRemove(model, owner, waiting, nextTask, task);
      c, deadline := owner[task], queue.store.pri[task];
      owner, waiting := owner - {task}, waiting - {c};
    }

    /** Reads the expiry of the task in front. */
    method FrontExpiry() returns (expire: int)
      requires Valid() && queue.Size() > 0
      ensures (exists c :: DueAt(waiting, c, expire)) && forall c :: c in waiting ==> expire <= waiting[c]
    {
      hide StrictWeakOrder, Indexed, Elems, Linked, Queue.InOrder, Queue.Model;
      var top := queue.Peek();
      EarliestTask(queue.Model(), owner, waiting, nextTask, top.value);
      expire := queue.store.pri[top.value];
      ghost var front := owner[top.value];
      assert DueAt(waiting, front, expire);
    }

    /** One round of the event loop: the earliest task is popped and its coroutine resumed up to its next delay,
        if the clock is past its deadline; otherwise the loop goes to sleep. */
    method Round(t: Tick) returns (ev: Event)
      requires Valid()
      modifies this, queue, queue.d, queue.store
      ensures Valid() && FollowsTick(ev, t)
      ensures Possible(old(waiting), ev) && waiting == After(old(waiting), ev)
      ensures current == if ev.Ran? then ev.c else old(current)
      ensures queue.d == old(queue.d) || fresh(queue.d)
    {
      hide StrictWeakOrder, Indexed, Elems, Linked, Possible, After, Queue.InOrder, Queue.Model, Queue.Size;
      if queue.Size() > 0 {
        var expire := FrontExpiry();
        ghost var front :| DueAt(waiting, front, expire);
        if t.check > expire {
          var c, deadline := TakeEarliest();
          RanIsPossible(old(waiting), c, deadline, t);
          Resume(c, t.after, t.ms);
          return Ran(c, deadline, t.check, t.after, t.ms);
        }
      } else {
        SomeTask(queue.Model(), owner, waiting, nextTask);
      }
      IdleIsPossible(waiting, t);
      return Idle(t.check);
    }

    /** main: every coroutine is started once, then the event loop runs for as long as the clock readings last. */
    method RunProgram(starts: seq<Start>, ticks: seq<Tick>) returns (evs: seq<Event>)
      requires Valid() && waiting == map[]
      requires forall i, j :: 0 <= i < j < |starts| ==> starts[i].c != starts[j].c
      modifies this, queue, queue.d, queue.store
      ensures Valid() && Explains(map[], evs, waiting)
      ensures |evs| == |starts| + |ticks|
      ensures forall i :: 0 <= i < |starts| ==> FollowsStart(evs[i], starts[i])
      ensures forall i :: 0 <= i < |ticks| ==> FollowsTick(evs[|starts| + i], ticks[i])
      ensures forall t :: Timed(t, evs) ==> Sorted(Popped(evs))
      ensures forall i :: 0 <= i < |evs| && evs[i].Ran? ==> evs[i].deadline < evs[i].check
      ensures forall i, j :: 0 <= i < j < |evs| && Consecutive(evs, i, j) ==> evs[j].check - evs[i].after > evs[i].ms
    {
      hide Possible, After, FollowsTick, StrictWeakOrder, Queue.Valid, Queue.Shape, Linked;
      evs := [];
      var k := 0;
      while k < |starts|
        invariant 0 <= k <= |starts| && |evs| == k
        invariant Valid() && Explains(map[], evs, waiting)
        invariant queue.d == old(queue.d) || fresh(queue.d)
        invariant forall c :: c in waiting <==> exists i :: 0 <= i < k && starts[i].c == c
        invariant forall i :: 0 <= i < k ==> FollowsStart(evs[i], starts[i])
      {
        StartSnoc(evs, waiting, starts[k]);
        evs := evs + [Started(starts[k].c, starts[k].after, starts[k].ms)];
        Resume(starts[k].c, starts[k].after, starts[k].ms);
        k := k + 1;
      }
      k := 0;
      while k < |ticks|
        invariant 0 <= k <= |ticks| && |evs| == |starts| + k
        invariant Valid() && Explains(map[], evs, waiting)
        invariant queue.d == old(queue.d) || fresh(queue.d)
        invariant forall i :: 0 <= i < |starts| ==> FollowsStart(evs[i], starts[i])
        invariant forall i :: 0 <= i < k ==> FollowsTick(evs[|starts| + i], ticks[i])
      {
        ghost var w := waiting;
        var ev := Round(ticks[k]);
        ExplainsSnoc(map[], evs, w, ev);
        evs := evs + [ev];
        k := k + 1;
      }
      forall t | Timed(t, evs) ensures Sorted(Popped(evs)) {
        DeadlineOrder(t, evs, waiting);
      }
      forall i | 0 <= i < |evs| && evs[i].Ran? ensures evs[i].deadline < evs[i].check {
        NeverEarly(map[], evs, waiting, i);
      }
      forall i, j | 0 <= i < j < |evs| && Consecutive(evs, i, j) ensures evs[j].check - evs[i].after > evs[i].ms {
        SleepsLongEnough(map[], evs, waiting, i, j);
      }
    }
  }
}
