/** The three-state futex lock of thread/lock-impl/lock_impl.c and the worker threads that use it.

    The futex word is 0 (free), 1 (held, nobody waits) or 2 (held, somebody may wait).  Every atomic
    instruction, every futex system call and each half of the non-atomic `sum++` is one step of one
    thread, so a run is an arbitrary interleaving of these steps.  Memory is sequentially consistent. */
module FutexLock {

  // ---------------------------------------------------------------------------------------------
  // Threads and states
  // ---------------------------------------------------------------------------------------------

  /** What a thread does next. */
  datatype Pc =
    | LoopHead    // test i < COUNT
    | FastPath    // compare-and-swap 0 -> 1
    | CheckWord   // if (*futex == 2)
    | WaitCall    // enter futex_wait(futex, 2)
    | Asleep      // queued in the kernel
    | Exchange    // exchange in 2; acquired iff the old value was 0
    | ReadSum     // load half of sum++
    | WriteSum    // store half of sum++
    | Unlock      // exchange in 0
    | WakeCall    // futex_wake(futex, 1)
    | Done

  /** Thread-local state: program counter, loop counter, and the value loaded by `sum++`. */
  datatype Thread = Thread(pc: Pc, i: nat, loaded: int)

  datatype State = State(futex: int, sum: int, threads: seq<Thread>)

  /** `Run(t, w)` lets thread t take its next step; w is the sleeper the kernel picks if the step is a
      wake call.  `Interrupt(t)` is a spurious return of futex_wait in thread t. */
  datatype Action = Run(t: nat, w: nat) | Interrupt(t: nat)

  predicate SomeAsleep(s: State) {
    exists t :: 0 <= t < |s.threads| && s.threads[t].pc == Asleep
  }

  predicate Enabled(s: State, a: Action) {
    match a
    case Run(t, w) =>
      && t < |s.threads|
      && s.threads[t].pc != Asleep && s.threads[t].pc != Done
      && (s.threads[t].pc == WakeCall && SomeAsleep(s) ==> w < |s.threads| && s.threads[w].pc == Asleep)
    case Interrupt(t) =>
      t < |s.threads| && s.threads[t].pc == Asleep
  }

  /** What one step does to the shared words and to the thread that takes it. */
  datatype Effect = Effect(futex: int, sum: int, th: Thread)

  function LocalStep(count: nat, futex: int, sum: int, th: Thread): Effect {
    match th.pc
    case LoopHead => Effect(futex, sum, th.(pc := if th.i < count then FastPath else Done))
    case FastPath => if futex == 0 then Effect(1, sum, th.(pc := ReadSum)) else Effect(futex, sum, th.(pc := CheckWord))
    case CheckWord => Effect(futex, sum, th.(pc := if futex == 2 then WaitCall else Exchange))
    case WaitCall => Effect(futex, sum, th.(pc := if futex == 2 then Asleep else Exchange))
    case Exchange => Effect(2, sum, th.(pc := if futex == 0 then ReadSum else WaitCall))
    case ReadSum => Effect(futex, sum, th.(pc := WriteSum, loaded := sum))
    case WriteSum => Effect(futex, th.loaded + 1, th.(pc := Unlock))
    case Unlock => Effect(0, sum, if futex > 1 then th.(pc := WakeCall) else th.(pc := LoopHead, i := th.i + 1))
    case WakeCall => Effect(futex, sum, th.(pc := LoopHead, i := th.i + 1))
    case _ => Effect(futex, sum, th)
  }

  /** A step of thread t changes thread t, and a wake call changes the sleeper as well. */
  function Apply(count: nat, s: State, a: Action): State
    requires a.t < |s.threads|
  {
    if a.Interrupt? then
      s.(threads := s.threads[a.t := s.threads[a.t].(pc := Exchange)])
    else
      var e := LocalStep(count, s.futex, s.sum, s.threads[a.t]);
      State(e.futex, e.sum, Awaken(s.threads[a.t].pc == WakeCall, s.threads[a.t := e.th], a.w))
  }

  function Awaken(wakes: bool, ts: seq<Thread>, w: nat): (r: seq<Thread>) {
    if wakes && w < |ts| && ts[w].pc == Asleep then ts[w := ts[w].(pc := Exchange)] else ts
  }

  function Init(n: nat): State {
    State(0, 0, seq(n, _ => Thread(LoopHead, 0, 0)))
  }

  /** `acts` is a schedule from the initial state of n threads, visiting the states `ss`. */
  ghost predicate Trace(count: nat, n: nat, ss: seq<State>, acts: seq<Action>) {
    && |ss| == |acts| + 1
    && ss[0] == Init(n)
    && forall k :: 0 <= k < |acts| ==> Enabled(ss[k], acts[k]) && ss[k + 1] == Apply(count, ss[k], acts[k])
  }

  // ---------------------------------------------------------------------------------------------
  // Sums over the threads
  // ---------------------------------------------------------------------------------------------

  function Total(f: Thread -> nat, ts: seq<Thread>): nat {
    if ts == [] then 0 else f(ts[0]) + Total(f, ts[1..])
  }

  lemma {:induction false} TotalUpdate(f: Thread -> nat, ts: seq<Thread>, t: nat, x: Thread)
    requires t < |ts|
    ensures Total(f, ts[t := x]) == Total(f, ts) - f(ts[t]) + f(x)
    ensures Total(f, ts) >= f(ts[t])
  {
    if t == 0 {
      assert ts[t := x][1..] == ts[1..];
    } else {
      assert ts[t := x][1..] == ts[1..][t - 1 := x];
      TotalUpdate(f, ts[1..], t - 1, x);
    }
  }

  lemma {:induction false} TotalOfTwo(f: Thread -> nat, ts: seq<Thread>, t: nat, u: nat)
    requires t < u < |ts|
    ensures Total(f, ts) >= f(ts[t]) + f(ts[u])
  {
    if t == 0 {
      TotalUpdate(f, ts[1..], u - 1, ts[u]);
    } else {
      TotalOfTwo(f, ts[1..], t - 1, u - 1);
    }
  }

  lemma {:induction false} TotalConstant(f: Thread -> nat, ts: seq<Thread>, c: nat)
    requires forall t :: 0 <= t < |ts| ==> f(ts[t]) == c
    ensures Total(f, ts) == |ts| * c
  {
    if ts == [] {
    } else {
      TotalConstant(f, ts[1..], c);
      assert |ts| * c == (|ts| - 1) * c + c;
    }
  }

  lemma {:induction false} TotalBound(f: Thread -> nat, ts: seq<Thread>, c: nat)
    requires forall t :: 0 <= t < |ts| ==> f(ts[t]) <= c
    ensures Total(f, ts) <= |ts| * c
  {
    if ts == [] {
    } else {
      TotalBound(f, ts[1..], c);
      assert |ts| * c == (|ts| - 1) * c + c;
    }
  }

  lemma {:induction false} TotalWitness(f: Thread -> nat, ts: seq<Thread>) returns (t: nat)
    requires Total(f, ts) > 0
    ensures t < |ts| && f(ts[t]) > 0
  {
    if f(ts[0]) > 0 {
      t := 0;
    } else {
      t := TotalWitness(f, ts[1..]);
      t := t + 1;
    }
  }

  predicate Holding(th: Thread) {
    th.pc == ReadSum || th.pc == WriteSum || th.pc == Unlock
  }

  function HoldCount(): Thread -> nat {
    (th: Thread) => if Holding(th) then 1 else 0
  }

  function At(pc: Pc): Thread -> nat {
    (th: Thread) => if th.pc == pc then 1 else 0
  }

  /** Increments of `sum` a thread has finished. */
  function Finished(): Thread -> nat {
    (th: Thread) => if th.pc == Unlock || th.pc == WakeCall then th.i + 1 else th.i
  }

  // ---------------------------------------------------------------------------------------------
  // Safety: what every step keeps
  // ---------------------------------------------------------------------------------------------

  /** The word is 0, 1 or 2 and non-zero exactly when one thread holds the lock. */
  ghost predicate LockInv(s: State) {
    && s.futex in {0, 1, 2}
    && Total(HoldCount(), s.threads) == (if s.futex == 0 then 0 else 1)
  }

  /** A sleeper is covered by the word, by a pending wake call or by a thread about to exchange in 2. */
  ghost predicate WakeInv(s: State) {
    Total(At(Asleep), s.threads) > 0 ==>
      s.futex == 2 || Total(At(WakeCall), s.threads) + Total(At(Exchange), s.threads) > 0
  }

  ghost predicate LocalInv(count: nat, s: State, th: Thread) {
    && th.i <= count
    && (th.pc != LoopHead && th.pc != Done ==> th.i < count)
    && (th.pc == Done ==> th.i == count)
    && (th.pc == WriteSum ==> th.loaded == s.sum)
  }

  ghost predicate Inv(count: nat, s: State) {
    && LockInv(s)
    && WakeInv(s)
    && s.sum == Total(Finished(), s.threads)
    && forall t :: 0 <= t < |s.threads| ==> LocalInv(count, s, s.threads[t])
  }

  lemma InitInv(count: nat, n: nat)
    ensures Inv(count, Init(n))
  {
    TotalConstant(HoldCount(), Init(n).threads, 0);
    TotalConstant(At(Asleep), Init(n).threads, 0);
    TotalConstant(Finished(), Init(n).threads, 0);
  }

  /** A step changes thread t only, or thread t and the thread it wakes. */
  lemma StepShape(count: nat, s: State, a: Action, f: Thread -> nat)
    requires Enabled(s, a) && a.Run?
    ensures var th := s.threads[a.t];
            var rest := Total(f, s.threads) - f(th) + f(LocalStep(count, s.futex, s.sum, th).th);
            Total(f, Apply(count, s, a).threads) == rest +
              (if th.pc == WakeCall && SomeAsleep(s) then f(s.threads[a.w].(pc := Exchange)) - f(s.threads[a.w]) else 0)
    ensures Total(f, s.threads) >= f(s.threads[a.t])
  {
    var mid := s.threads[a.t := LocalStep(count, s.futex, s.sum, s.threads[a.t]).th];
    TotalUpdate(f, s.threads, a.t, mid[a.t]);
    if s.threads[a.t].pc == WakeCall && SomeAsleep(s) {
      TotalUpdate(f, mid, a.w, mid[a.w].(pc := Exchange));
    } else if s.threads[a.t].pc == WakeCall && a.w < |mid| {
      assert mid[a.w].pc != Asleep;
    }
  }

  lemma InterruptShape(count: nat, s: State, a: Action, f: Thread -> nat)
    requires Enabled(s, a) && a.Interrupt?
    ensures Total(f, Apply(count, s, a).threads)
         == Total(f, s.threads) - f(s.threads[a.t]) + f(s.threads[a.t].(pc := Exchange))
  {
    TotalUpdate(f, s.threads, a.t, s.threads[a.t].(pc := Exchange));
  }

  lemma StepLock(count: nat, s: State, a: Action)
    requires LockInv(s) && Enabled(s, a)
    ensures LockInv(Apply(count, s, a))
  {
    if a.Run? {
      StepShape(count, s, a, HoldCount());
    } else {
      InterruptShape(count, s, a, HoldCount());
    }
  }

  lemma StepWake(count: nat, s: State, a: Action)
    requires WakeInv(s) && Enabled(s, a) && a.Run?
    ensures WakeInv(Apply(count, s, a))
  {
    StepShape(count, s, a, At(Asleep));
    StepShape(count, s, a, At(WakeCall));
    StepShape(count, s, a, At(Exchange));
    if s.threads[a.t].pc == WakeCall && !SomeAsleep(s) && Total(At(Asleep), s.threads) > 0 {
      var u := TotalWitness(At(Asleep), s.threads);
    }
  }

  lemma InterruptWake(count: nat, s: State, a: Action)
    requires Enabled(s, a) && a.Interrupt?
    ensures WakeInv(Apply(count, s, a))
  {
    InterruptShape(count, s, a, At(Exchange));
    TotalUpdate(At(Exchange), s.threads, a.t, s.threads[a.t]);
  }

  lemma StepSum(count: nat, s: State, a: Action)
    requires s.sum == Total(Finished(), s.threads) && Enabled(s, a) && LocalInv(count, s, s.threads[a.t])
    ensures Apply(count, s, a).sum == Total(Finished(), Apply(count, s, a).threads)
  {
    if a.Run? {
      StepShape(count, s, a, Finished());
    } else {
      InterruptShape(count, s, a, Finished());
    }
  }

  /** At most one thread is inside the critical section. */
  lemma HoldersAgree(s: State, t: nat, u: nat)
    requires LockInv(s)
    requires t < |s.threads| && u < |s.threads| && Holding(s.threads[t]) && Holding(s.threads[u])
    ensures t == u
  {
    if t < u {
      TotalOfTwo(HoldCount(), s.threads, t, u);
    } else if u < t {
      TotalOfTwo(HoldCount(), s.threads, u, t);
    }
  }

  lemma StepLocal(count: nat, s: State, a: Action, u: nat)
    requires LockInv(s) && Enabled(s, a) && u < |s.threads|
    requires LocalInv(count, s, s.threads[u]) && LocalInv(count, s, s.threads[a.t])
    ensures LocalInv(count, Apply(count, s, a), Apply(count, s, a).threads[u])
  {
    var s' := Apply(count, s, a);
    if u == a.t {
    } else if s'.threads[u] == s.threads[u] {
      if a.Run? && s.threads[a.t].pc == WriteSum && s.threads[u].pc == WriteSum {
        HoldersAgree(s, a.t, u);
      }
    }
  }

  lemma StepInv(count: nat, s: State, a: Action)
    requires Inv(count, s) && Enabled(s, a)
    ensures Inv(count, Apply(count, s, a))
  {
    StepLock(count, s, a);
    if a.Run? {
      StepWake(count, s, a);
    } else {
      InterruptWake(count, s, a);
    }
    StepSum(count, s, a);
    forall u: nat | u < |s.threads| ensures LocalInv(count, Apply(count, s, a), Apply(count, s, a).threads[u]) {
      StepLocal(count, s, a, u);
    }
  }

  lemma {:induction false} TraceInv(count: nat, n: nat, ss: seq<State>, acts: seq<Action>, k: nat)
    requires Trace(count, n, ss, acts) && k < |ss|
    ensures Inv(count, ss[k]) && |ss[k].threads| == n
  {
    if k == 0 {
      InitInv(count, n);
    } else {
      TraceInv(count, n, ss, acts, k - 1);
      StepInv(count, ss[k - 1], acts[k - 1]);
    }
  }

  /** In every reachable state, under every schedule and with any spurious wakeups, the word is non-zero
      exactly when a thread holds the lock, and never two threads hold it. */
  lemma MutualExclusion(count: nat, n: nat, ss: seq<State>, acts: seq<Action>, k: nat)
    requires Trace(count, n, ss, acts) && k < |ss|
    ensures ss[k].futex in {0, 1, 2}
    ensures ss[k].futex != 0 <==> exists t :: 0 <= t < |ss[k].threads| && Holding(ss[k].threads[t])
    ensures forall t, u | 0 <= t < |ss[k].threads| && 0 <= u < |ss[k].threads| ::
              Holding(ss[k].threads[t]) && Holding(ss[k].threads[u]) ==> t == u
  {
    TraceInv(count, n, ss, acts, k);
    var s := ss[k];
    if s.futex != 0 {
      var t := TotalWitness(HoldCount(), s.threads);
      assert Holding(s.threads[t]);
    }
    forall t | 0 <= t < |s.threads| && Holding(s.threads[t]) ensures s.futex != 0 {
      TotalUpdate(HoldCount(), s.threads, t, s.threads[t]);
    }
    forall t, u | 0 <= t < |s.threads| && 0 <= u < |s.threads| && Holding(s.threads[t]) && Holding(s.threads[u])
      ensures t == u
    {
      HoldersAgree(s, t, u);
    }
  }

  /** No lost wakeup: whenever a thread sleeps, the word is 2, so the next unlock wakes somebody, or an
      unlocker has still to make its wake call, or a slow-path thread is about to exchange in 2. */
  lemma NoLostWakeup(count: nat, n: nat, ss: seq<State>, acts: seq<Action>, k: nat, t: nat)
    requires Trace(count, n, ss, acts) && k < |ss|
    requires t < |ss[k].threads| && ss[k].threads[t].pc == Asleep
    ensures || ss[k].futex == 2
            || exists u :: 0 <= u < |ss[k].threads| && ss[k].threads[u].pc in {WakeCall, Exchange}
  {
    TraceInv(count, n, ss, acts, k);
    var s := ss[k];
    TotalUpdate(At(Asleep), s.threads, t, s.threads[t]);
    if s.futex != 2 {
      if Total(At(WakeCall), s.threads) > 0 {
        var u := TotalWitness(At(WakeCall), s.threads);
        assert s.threads[u].pc in {WakeCall, Exchange};
      } else {
        var u := TotalWitness(At(Exchange), s.threads);
        assert s.threads[u].pc in {WakeCall, Exchange};
      }
    }
  }

  // ---------------------------------------------------------------------------------------------
  // Contention alone leads to the kernel
  // ---------------------------------------------------------------------------------------------

  /** Inside the slow path of lll_lock, or in the wake call of an unlock. */
  predicate Slow(th: Thread) {
    th.pc in {CheckWord, WaitCall, Asleep, Exchange, WakeCall}
  }

  /** A single worker finds the word 0 whenever it does not hold the lock, sets it to 1, and never calls the kernel. */
  lemma {:induction false} NeverContended(count: nat, ss: seq<State>, acts: seq<Action>, k: nat)
    requires Trace(count, 1, ss, acts) && k < |ss|
    ensures |ss[k].threads| == 1 && !Slow(ss[k].threads[0])
    ensures ss[k].futex == if Holding(ss[k].threads[0]) then 1 else 0
  {
    if k > 0 {
      NeverContended(count, ss, acts, k - 1);
      assert Enabled(ss[k - 1], acts[k - 1]);
    }
  }

  predicate HeldByOther(s: State, t: nat) {
    exists u :: 0 <= u < |s.threads| && u != t && Holding(s.threads[u])
  }

  /** Whoever turns to futex_wait leaves the word at 2, for another thread that holds the lock to find. */
  lemma WaitsForHolder(count: nat, n: nat, ss: seq<State>, acts: seq<Action>, k: nat)
    requires Trace(count, n, ss, acts) && k < |acts| && acts[k].t < |ss[k + 1].threads|
    requires ss[k + 1].threads[acts[k].t].pc == WaitCall && ss[k].threads[acts[k].t].pc != WaitCall
    ensures ss[k + 1].futex == 2
    ensures HeldByOther(ss[k + 1], acts[k].t)
  {
    TraceInv(count, n, ss, acts, k + 1);
    TraceInv(count, n, ss, acts, k);
    assert ss[k + 1] == Apply(count, ss[k], acts[k]);
    var u := TotalWitness(HoldCount(), ss[k + 1].threads);
    assert Holding(ss[k + 1].threads[u]);
  }

  /** How many of the first k steps were taken by a thread at pc. */
  function StepsAt(pc: Pc, ss: seq<State>, acts: seq<Action>, k: nat): nat
    requires k <= |acts| <= |ss| && forall j :: 0 <= j < |acts| ==> acts[j].t < |ss[j].threads|
  {
    if k == 0 then 0
    else StepsAt(pc, ss, acts, k - 1) + (if acts[k - 1].Run? && ss[k - 1].threads[acts[k - 1].t].pc == pc then 1 else 0)
  }

  /** Wake calls that are pending, or will be due when the lock is released. */
  function Owed(s: State): nat {
    Total(At(WakeCall), s.threads) + if s.futex == 2 then 1 else 0
  }

  /** Every wake call, made or to be made, is owed to an exchange on the slow path of some lll_lock, and so is a 2 in
      the word. */
  lemma {:induction false} WakesAreOwed(count: nat, n: nat, ss: seq<State>, acts: seq<Action>, k: nat)
    requires Trace(count, n, ss, acts) && k <= |acts|
    ensures forall j :: 0 <= j < |acts| ==> acts[j].t < |ss[j].threads|
    ensures StepsAt(WakeCall, ss, acts, k) + Owed(ss[k]) <= StepsAt(Exchange, ss, acts, k)
  {
    forall j | 0 <= j < |acts| ensures acts[j].t < |ss[j].threads| {
      assert Enabled(ss[j], acts[j]);
    }
    if k == 0 {
      TotalConstant(At(WakeCall), Init(n).threads, 0);
    } else {
      WakesAreOwed(count, n, ss, acts, k - 1);
      TraceInv(count, n, ss, acts, k - 1);
      OwedStep(count, ss[k - 1], acts[k - 1]);
    }
  }

  lemma OwedStep(count: nat, s: State, a: Action)
    requires LockInv(s) && Enabled(s, a)
    ensures Owed(Apply(count, s, a)) + (if a.Run? && s.threads[a.t].pc == WakeCall then 1 else 0)
         <= Owed(s) + (if a.Run? && s.threads[a.t].pc == Exchange then 1 else 0)
  {
    hide Total, HoldCount;
    if a.Run? {
      StepShape(count, s, a, At(WakeCall));
    } else {
      InterruptShape(count, s, a, At(WakeCall));
    }
  }

  /** The state after k steps of thread t alone. */
  function Solo(count: nat, s: State, t: nat, k: nat): State
    requires t < |s.threads|
    ensures |Solo(count, s, t, k).threads| == |s.threads|
  {
    if k == 0 then s else Apply(count, Solo(count, s, t, k - 1), Run(t, 0))
  }

  /** While the lock is free an iteration takes five steps, none of them in the kernel: loop test, swap 0 to 1, the two
      halves of sum++, exchange in 0. */
  lemma UncontendedIteration(count: nat, s: State, t: nat)
    requires t < |s.threads| && s.futex == 0 && s.threads[t].pc == LoopHead && s.threads[t].i < count
    ensures forall k :: 0 <= k < 5 ==> Enabled(Solo(count, s, t, k), Run(t, 0)) && !Slow(Solo(count, s, t, k).threads[t])
    ensures forall k :: 2 <= k < 5 ==> Solo(count, s, t, k).futex == 1
    ensures Solo(count, s, t, 5) == State(0, s.sum + 1, s.threads[t := Thread(LoopHead, s.threads[t].i + 1, s.sum)])
  {
    var th := s.threads[t];
    assert Solo(count, s, t, 0) == s;
    var s1, s2, s3, s4 := Solo(count, s, t, 1), Solo(count, s, t, 2), Solo(count, s, t, 3), Solo(count, s, t, 4);
    assert s1 == State(0, s.sum, s.threads[t := th.(pc := FastPath)]);
    assert s2 == State(1, s.sum, s.threads[t := th.(pc := ReadSum)]);
    assert s3 == State(1, s.sum, s.threads[t := Thread(WriteSum, th.i, s.sum)]);
    assert s4 == State(1, s.sum + 1, s.threads[t := Thread(Unlock, th.i, s.sum)]);
  }

  ghost predicate AllDone(s: State) {
    forall t :: 0 <= t < |s.threads| ==> s.threads[t].pc == Done
  }

  /** No deadlock: while some thread is not done, some thread can take a step without being woken. */
  lemma CanRun(count: nat, s: State) returns (a: Action)
    requires Inv(count, s) && !AllDone(s)
    ensures a.Run? && Enabled(s, a)
  {
    var t: nat :| t < |s.threads| && s.threads[t].pc != Done;
    if s.threads[t].pc == Asleep {
      TotalUpdate(At(Asleep), s.threads, t, s.threads[t]);
      if s.futex == 2 {
        t := TotalWitness(HoldCount(), s.threads);
      } else if Total(At(WakeCall), s.threads) > 0 {
        t := TotalWitness(At(WakeCall), s.threads);
      } else {
        t := TotalWitness(At(Exchange), s.threads);
      }
    }
    a := Run(t, 0);
    if SomeAsleep(s) {
      var w: nat :| w < |s.threads| && s.threads[w].pc == Asleep;
      a := Run(t, w);
    }
  }

  lemma NoDeadlock(count: nat, n: nat, ss: seq<State>, acts: seq<Action>, k: nat)
    requires Trace(count, n, ss, acts) && k < |ss|
    requires !AllDone(ss[k])
    ensures exists t, w :: 0 <= t < n && 0 <= w && t < |ss[k].threads| && ss[k].threads[t].pc !in {Asleep, Done} && Enabled(ss[k], Run(t, w))
  {
    TraceInv(count, n, ss, acts, k);
    var a := CanRun(count, ss[k]);
    assert a == Run(a.t, a.w);
  }

  /** When every worker has returned, no increment was lost and the lock is free. */
  lemma FinalSum(count: nat, n: nat, ss: seq<State>, acts: seq<Action>, k: nat)
    requires Trace(count, n, ss, acts) && k < |ss|
    requires AllDone(ss[k])
    ensures ss[k].sum == n * count && ss[k].futex == 0
  {
    TraceInv(count, n, ss, acts, k);
    DoneSum(count, ss[k]);
  }

  lemma DoneSum(count: nat, s: State)
    requires Inv(count, s) && AllDone(s)
    ensures s.sum == |s.threads| * count && s.futex == 0
  {
    forall t | 0 <= t < |s.threads| ensures Finished()(s.threads[t]) == count {
      assert LocalInv(count, s, s.threads[t]);
    }
    TotalConstant(Finished(), s.threads, count);
    TotalConstant(HoldCount(), s.threads, 0);
  }

  /** A schedule that can go no further has done everything: all workers have returned, every increment counted. */
  lemma StuckOnlyWhenDone(count: nat, n: nat, ss: seq<State>, acts: seq<Action>)
    requires Trace(count, n, ss, acts)
    requires forall t, w :: !Enabled(ss[|acts|], Run(t, w))
    ensures AllDone(ss[|acts|]) && ss[|acts|].sum == n * count && ss[|acts|].futex == 0
  {
    if !AllDone(ss[|acts|]) {
      NoDeadlock(count, n, ss, acts, |acts|);
    } else {
      FinalSum(count, n, ss, acts, |acts|);
    }
  }

  // ---------------------------------------------------------------------------------------------
  // Termination: every schedule is finite
  // ---------------------------------------------------------------------------------------------

  /** Unlock operations thread th still has to perform. */
  function UnlocksLeft(count: nat): Thread -> nat {
    (th: Thread) =>
      if th.i >= count then 0 else if th.pc == WakeCall then count - th.i - 1 else count - th.i
  }

  /** Steps to the next change of the word or of the two counts above.  A slow-path thread heads for
      sleep while the word is 2 and for the exchange otherwise. */
  function RankOf(contended: bool): Thread -> nat {
    (th: Thread) =>
      match th.pc
      case LoopHead => 7
      case FastPath => 6
      case CheckWord => 5
      case Exchange => if contended then 4 else 3
      case WaitCall => if contended then 3 else 4
      case ReadSum => 2
      case WriteSum => 1
      case _ => 0
  }

  ghost function Coarse(count: nat, s: State): nat
    requires s.futex in {0, 1, 2}
  {
    (Total(UnlocksLeft(count), s.threads) * (|s.threads| + 1) + Total(At(WakeCall), s.threads)) * 3 + (2 - s.futex)
  }

  /** A single number that every step of every thread decreases. */
  ghost function Measure(count: nat, s: State): nat
    requires s.futex in {0, 1, 2}
  {
    Coarse(count, s) * (7 * |s.threads| + 1) + Total(RankOf(s.futex == 2), s.threads)
  }

  lemma RankBound(s: State)
    ensures Total(RankOf(s.futex == 2), s.threads) <= 7 * |s.threads|
    ensures Total(At(WakeCall), s.threads) <= |s.threads|
  {
    TotalBound(RankOf(s.futex == 2), s.threads, 7);
    TotalBound(At(WakeCall), s.threads, 1);
  }

  lemma MulGap(x: nat, y: nat, m: nat)
    requires x < y
    ensures x * m + m <= y * m
  {
    assert (y - x) * m == y * m - x * m;
    assert (y - x) * m == m + (y - x - 1) * m;
  }

  /** The lexicographic order on (unlocks left, pending wakes, 2 - futex, ranks) as one number. */
  lemma LexicographicOrder(n: nat, a: nat, b: nat, c: nat, r: nat, a': nat, b': nat, c': nat, r': nat)
    requires b <= n && b' <= n && c <= 2 && c' <= 2 && r <= 7 * n && r' <= 7 * n
    requires a' < a || (a' == a && (b' < b || (b' == b && (c' < c || (c' == c && r' < r)))))
    ensures ((a' * (n + 1) + b') * 3 + c') * (7 * n + 1) + r' < ((a * (n + 1) + b) * 3 + c) * (7 * n + 1) + r
  {
    if a' < a {
      MulGap(a', a, n + 1);
    }
    var x, x' := (a * (n + 1) + b) * 3 + c, (a' * (n + 1) + b') * 3 + c';
    if x' < x {
      MulGap(x', x, 7 * n + 1);
    }
  }

  /** State s' is below s in the lexicographic order (unlocks left, pending wakes, 2 - futex, ranks). */
  ghost predicate Below(count: nat, s': State, s: State) {
    var u, u' := Total(UnlocksLeft(count), s.threads), Total(UnlocksLeft(count), s'.threads);
    var w, w' := Total(At(WakeCall), s.threads), Total(At(WakeCall), s'.threads);
    u' < u || (u' == u && (w' < w || (w' == w && (s'.futex > s.futex || (s'.futex == s.futex &&
      Total(RankOf(s'.futex == 2), s'.threads) < Total(RankOf(s.futex == 2), s.threads))))))
  }

  lemma BelowDecreases(count: nat, s': State, s: State)
    requires |s'.threads| == |s.threads| && s.futex in {0, 1, 2} && s'.futex in {0, 1, 2}
    requires Below(count, s', s)
    ensures Measure(count, s') < Measure(count, s)
  {
    RankBound(s);
    RankBound(s');
    LexicographicOrder(|s.threads|,
      Total(UnlocksLeft(count), s.threads), Total(At(WakeCall), s.threads), 2 - s.futex, Total(RankOf(s.futex == 2), s.threads),
      Total(UnlocksLeft(count), s'.threads), Total(At(WakeCall), s'.threads), 2 - s'.futex, Total(RankOf(s'.futex == 2), s'.threads));
  }

  lemma RunUnlocks(count: nat, s: State, a: Action)
    requires Enabled(s, a) && a.Run? && LocalInv(count, s, s.threads[a.t])
    ensures Total(UnlocksLeft(count), Apply(count, s, a).threads)
         == Total(UnlocksLeft(count), s.threads) - (if s.threads[a.t].pc == Unlock then 1 else 0)
  {
    StepShape(count, s, a, UnlocksLeft(count));
  }

  lemma RunWakes(count: nat, s: State, a: Action)
    requires Enabled(s, a) && a.Run? && s.threads[a.t].pc != Unlock
    ensures Total(At(WakeCall), Apply(count, s, a).threads)
         == Total(At(WakeCall), s.threads) - (if s.threads[a.t].pc == WakeCall then 1 else 0)
  {
    StepShape(count, s, a, At(WakeCall));
  }

  /** Only an unlock lowers the word; a step that leaves the word, and wakes nobody, lowers its thread's rank. */
  lemma RunRanks(count: nat, s: State, a: Action)
    requires LockInv(s) && Enabled(s, a) && a.Run? && s.threads[a.t].pc != Unlock && s.threads[a.t].pc != WakeCall
    ensures Apply(count, s, a).futex >= s.futex
    ensures Apply(count, s, a).futex == s.futex ==>
      Total(RankOf(s.futex == 2), Apply(count, s, a).threads) < Total(RankOf(s.futex == 2), s.threads)
  {
    hide Total, HoldCount;
    StepShape(count, s, a, RankOf(s.futex == 2));
  }

  lemma RunGoesBelow(count: nat, s: State, a: Action)
    requires LockInv(s) && Enabled(s, a) && a.Run? && LocalInv(count, s, s.threads[a.t])
    ensures Below(count, Apply(count, s, a), s)
  {
    assert a.t < |s.threads|;
    hide Total, Apply, Enabled, LocalInv, UnlocksLeft, At, RankOf;
    RunUnlocks(count, s, a);
    if s.threads[a.t].pc != Unlock {
      RunWakes(count, s, a);
      if s.threads[a.t].pc != WakeCall {
        RunRanks(count, s, a);
      }
    }
  }

  lemma RunDecreases(count: nat, s: State, a: Action)
    requires Inv(count, s) && Enabled(s, a) && a.Run?
    ensures Inv(count, Apply(count, s, a))
    ensures Measure(count, Apply(count, s, a)) < Measure(count, s)
  {
    StepInv(count, s, a);
    assert LocalInv(count, s, s.threads[a.t]);
    RunGoesBelow(count, s, a);
    BelowDecreases(count, Apply(count, s, a), s);
  }

  lemma InterruptCosts(count: nat, s: State, a: Action)
    requires Enabled(s, a) && a.Interrupt? && s.futex in {0, 1, 2}
    ensures Measure(count, Apply(count, s, a)) <= Measure(count, s) + 4
  {
    InterruptShape(count, s, a, UnlocksLeft(count));
    InterruptShape(count, s, a, At(WakeCall));
    InterruptShape(count, s, a, RankOf(s.futex == 2));
    assert Coarse(count, Apply(count, s, a)) == Coarse(count, s);
  }

  function Interrupts(acts: seq<Action>): nat {
    if acts == [] then 0 else Interrupts(acts[..|acts| - 1]) + (if acts[|acts| - 1].Interrupt? then 1 else 0)
  }

  /** The most steps n workers can take between them if nothing wakes spuriously. */
  function StepBound(count: nat, n: nat): nat {
    ((n * count) * (n + 1) * 3 + 2) * (7 * n + 1) + 7 * n
  }

  lemma InitMeasure(count: nat, n: nat)
    ensures Measure(count, Init(n)) == StepBound(count, n)
  {
    TotalConstant(UnlocksLeft(count), Init(n).threads, count);
    TotalConstant(At(WakeCall), Init(n).threads, 0);
    TotalConstant(RankOf(false), Init(n).threads, 7);
  }

  lemma {:induction false} ScheduleMeasure(count: nat, n: nat, ss: seq<State>, acts: seq<Action>)
    requires Trace(count, n, ss, acts)
    ensures Inv(count, ss[|acts|])
    ensures |acts| + Measure(count, ss[|acts|]) <= StepBound(count, n) + 5 * Interrupts(acts)
  {
    if acts == [] {
      InitInv(count, n);
      InitMeasure(count, n);
    } else {
      var m := |acts| - 1;
      ScheduleMeasure(count, n, ss[..|acts|], acts[..m]);
      if acts[m].Run? {
        RunDecreases(count, ss[m], acts[m]);
      } else {
        StepInv(count, ss[m], acts[m]);
        InterruptCosts(count, ss[m], acts[m]);
      }
    }
  }

  /** Every schedule is finite whatever the scheduler does: without spurious wakeups it has at most
      StepBound steps, and each spurious wakeup can add at most five. */
  lemma EveryScheduleIsFinite(count: nat, n: nat, ss: seq<State>, acts: seq<Action>)
    requires Trace(count, n, ss, acts)
    ensures |acts| <= StepBound(count, n) + 5 * Interrupts(acts)
  {
    ScheduleMeasure(count, n, ss, acts);
  }

  // ---------------------------------------------------------------------------------------------
  // The program itself: shared words updated in place
  // ---------------------------------------------------------------------------------------------

  class LockProgram {
    const count: nat
    var futex: int
    var sum: int
    const threads: array<Thread>

    function View(): State
      reads this, threads
    {
      State(futex, sum, threads[..])
    }

    constructor (n: nat, count: nat)
      ensures View() == Init(n) && this.count == count && fresh(threads)
    {
      this.count := count;
      futex, sum := 0, 0;
      threads := new Thread[n](_ => Thread(LoopHead, 0, 0));
    }

    /** The compare-and-swap of lll_lock. */
    method CompareAndSwap(oldval: int, newval: int) returns (swapped: bool)
      modifies this`futex
      ensures swapped == (old(futex) == oldval)
      ensures futex == if swapped then newval else old(futex)
    {
      swapped := futex == oldval;
      if swapped {
        futex := newval;
      }
    }

    /** xchg: atomic_exchange_acq and atomic_exchange_rel. */
    method AtomicExchange(newval: int) returns (previous: int)
      modifies this`futex
      ensures previous == old(futex) && futex == newval
    {
      previous := futex;
      futex := newval;
    }

    /** One step of thread t; w is the sleeper that the kernel wakes if the step is a wake call. */
    method StepThread(t: nat, w: nat)
      requires Enabled(View(), Run(t, w))
      modifies this`futex, this`sum, threads
      ensures View() == Apply(count, old(View()), Run(t, w))
    {
      var th := threads[t];
      match th.pc {
        case LoopHead =>
          threads[t] := th.(pc := if th.i < count then FastPath else Done);
        case FastPath =>
          var swapped := CompareAndSwap(0, 1);
          threads[t] := th.(pc := if swapped then ReadSum else CheckWord);
        case CheckWord =>
          threads[t] := th.(pc := if futex == 2 then WaitCall else Exchange);
        case WaitCall =>
          threads[t] := th.(pc := if futex == 2 then Asleep else Exchange);
        case Exchange =>
          var previous := AtomicExchange(2);
          threads[t] := th.(pc := if previous != 0 then WaitCall else ReadSum);
        case ReadSum =>
          threads[t] := th.(pc := WriteSum, loaded := sum);
        case WriteSum =>
          sum := th.loaded + 1;
          threads[t] := th.(pc := Unlock);
        case Unlock =>
          var previous := AtomicExchange(0);
          threads[t] := if previous > 1 then th.(pc := WakeCall) else th.(pc := LoopHead, i := th.i + 1);
        case WakeCall =>
          threads[t] := th.(pc := LoopHead, i := th.i + 1);
          if w < threads.Length && threads[w].pc == Asleep {
            threads[w] := threads[w].(pc := Exchange);
          }
      }
    }

    /** Runs the program under an arbitrary scheduler until every worker has returned. */
    method RunWorkers()
      requires View() == Init(threads.Length)
      modifies this`futex, this`sum, threads
      ensures AllDone(View()) && futex == 0
      ensures sum == threads.Length * count
    {
      InitInv(count, threads.Length);
      while exists t :: 0 <= t < threads.Length && threads[t].pc != Done
        invariant Inv(count, View())
        decreases Measure(count, View())
      {
        ghost var a := CanRun(count, View());
        assert Enabled(View(), Run(a.t, a.w));
        var t: nat, w: nat :| Enabled(View(), Run(t, w));
        RunDecreases(count, View(), Run(t, w));
        StepThread(t, w);
      }
      DoneSum(count, View());
    }
  }
}
