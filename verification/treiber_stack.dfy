/** The lock-free stack of thread/atomic/test.cpp.

    Every shared-memory access of push and pop is one step of one thread: allocating the node, loading
    `top`, linking the node, reading `oldTop->next`, the compare-and-swap, and reading `oldTop->data`.
    A run interleaves these steps of any number of threads, each performing any sequence of operations.
    Nodes are fresh when allocated and never freed, as in the source. */
module TreiberStack {
  import opened Base

  datatype Ptr = Null | At(addr: nat)

  datatype Node = Node(data: int, next: Ptr)

  datatype Op = Push(val: int) | Pop

  datatype Result = Pushed | Popped(val: int) | Empty

  /** Where a thread is inside push or pop, with its local variables. */
  datatype Local =
    | Idle
    | PushAlloc(val: int)
    | PushLoad(val: int, node: nat)
    | PushLink(val: int, node: nat, oldTop: Ptr)
    | PushCas(val: int, node: nat, oldTop: Ptr)
    | PushReturn(val: int)
    | PopLoad
    | PopNext(oldNode: nat)
    | PopCas(oldNode: nat, next: Ptr)
    | PopData(oldNode: nat)
    | PopReturn(result: Result)

  datatype State = State(heap: seq<Node>, top: Ptr, locals: seq<Local>)

  datatype Action = Call(t: nat, op: Op) | Step(t: nat)

  function Init(n: nat): State {
    State([], Null, seq(n, _ => Idle))
  }

  predicate Enabled(s: State, a: Action) {
    a.t < |s.locals| && (a.Call? <==> s.locals[a.t].Idle?)
  }

  /** Dereferencing a node; a pointer to no node is a crash, excluded by the invariant. */
  predicate Safe(s: State, a: Action)
    requires Enabled(s, a)
  {
    match s.locals[a.t]
    case PushLink(_, node, _) => node < |s.heap|
    case PopNext(o) => o < |s.heap|
    case PopData(o) => o < |s.heap|
    case _ => true
  }

  /** The effect of one step on the thread's local state, on `top` and on the heap. */
  function Apply(s: State, a: Action): State
    requires Enabled(s, a) && Safe(s, a)
  {
    var t := a.t;
    match s.locals[t]
    case Idle => s.(locals := s.locals[t := if a.op.Push? then PushAlloc(a.op.val) else PopLoad])
    case PushAlloc(v) =>
      s.(heap := s.heap + [Node(v, Null)], locals := s.locals[t := PushLoad(v, |s.heap|)])
    case PushLoad(v, node) => s.(locals := s.locals[t := PushLink(v, node, s.top)])
    case PushLink(v, node, oldTop) =>
      s.(heap := s.heap[node := s.heap[node].(next := oldTop)], locals := s.locals[t := PushCas(v, node, oldTop)])
    case PushCas(v, node, oldTop) =>
      if s.top == oldTop then s.(top := At(node), locals := s.locals[t := PushReturn(v)])
      else s.(locals := s.locals[t := PushLoad(v, node)])
    case PushReturn(_) => s.(locals := s.locals[t := Idle])
    case PopLoad =>
      s.(locals := s.locals[t := if s.top.Null? then PopReturn(Empty) else PopNext(s.top.addr)])
    case PopNext(o) => s.(locals := s.locals[t := PopCas(o, s.heap[o].next)])
    case PopCas(o, next) =>
      if s.top == At(o) then s.(top := next, locals := s.locals[t := PopData(o)])
      else s.(locals := s.locals[t := PopLoad])
    case PopData(o) => s.(locals := s.locals[t := PopReturn(Popped(s.heap[o].data))])
    case PopReturn(_) => s.(locals := s.locals[t := Idle])
  }

  // ---------------------------------------------------------------------------------------------
  // Histories and linearizability
  // ---------------------------------------------------------------------------------------------

  /** Invocations and returns are what callers see; `Lin` marks the instant an operation takes effect. */
  datatype Event = Inv(t: nat, op: Op) | Lin(t: nat, op: Op, res: Result) | Ret(t: nat, res: Result)

  /** The events callers see of one step. */
  function Visible(s: State, a: Action): seq<Event>
    requires Enabled(s, a)
  {
    match s.locals[a.t]
    case Idle => [Inv(a.t, a.op)]
    case PushReturn(_) => [Ret(a.t, Pushed)]
    case PopReturn(r) => [Ret(a.t, r)]
    case _ => []
  }

  /** The atomic stack: the first element is the top. */
  function Atomic(xs: seq<int>, op: Op): (seq<int>, Result) {
    match op
    case Push(v) => ([v] + xs, Pushed)
    case Pop => if xs == [] then (xs, Empty) else (xs[1..], Popped(xs[0]))
  }

  /** What a caller gets from n pops of the atomic stack, one after the other. */
  function Drain(xs: seq<int>, n: nat): seq<Result> {
    if n == 0 then [] else [Atomic(xs, Pop).1] + Drain(Atomic(xs, Pop).0, n - 1)
  }

  function Fill(xs: seq<int>, vs: seq<int>): seq<int>
    decreases vs
  {
    if vs == [] then xs else Fill(Atomic(xs, Push(vs[0])).0, vs[1..])
  }

  /** Last in, first out: values pushed on an empty stack are popped in the opposite order, and after them nothing. */
  lemma LastInFirstOut(vs: seq<int>, n: nat)
    ensures |Drain(Fill([], vs), n)| == n
    ensures forall k :: 0 <= k < n ==>
              Drain(Fill([], vs), n)[k] == if k < |vs| then Popped(vs[|vs| - 1 - k]) else Empty
  {
    FillAt([], vs);
    DrainAt(Fill([], vs), n);
  }

  lemma {:induction false} FillAt(xs: seq<int>, vs: seq<int>)
    ensures |Fill(xs, vs)| == |vs| + |xs|
    ensures forall k :: 0 <= k < |vs| ==> Fill(xs, vs)[k] == vs[|vs| - 1 - k]
    ensures forall k :: 0 <= k < |xs| ==> Fill(xs, vs)[|vs| + k] == xs[k]
    decreases vs
  {
    if vs != [] {
      var ys, us := [vs[0]] + xs, vs[1..];
      FillAt(ys, us);
      assert Fill(xs, vs) == Fill(ys, us);
      forall k | 0 <= k < |vs| ensures Fill(xs, vs)[k] == vs[|vs| - 1 - k] {
        if k == |vs| - 1 {
          assert Fill(ys, us)[|us| + 0] == ys[0];
        } else {
          assert us[|us| - 1 - k] == vs[|vs| - 1 - k];
        }
      }
      forall k | 0 <= k < |xs| ensures Fill(xs, vs)[|vs| + k] == xs[k] {
        assert Fill(ys, us)[|us| + (k + 1)] == ys[k + 1];
      }
    }
  }

  lemma {:induction false} DrainAt(xs: seq<int>, n: nat)
    ensures |Drain(xs, n)| == n
    ensures forall k :: 0 <= k < n ==> Drain(xs, n)[k] == if k < |xs| then Popped(xs[k]) else Empty
  {
    if n > 0 {
      DrainAt(Atomic(xs, Pop).0, n - 1);
    }
  }

  datatype Replayed = Illegal | Stack(xs: seq<int>)

  /** Executes the `Lin` events of a history in order on the atomic stack; Illegal if a recorded result is wrong. */
  function Replay(h: seq<Event>): Replayed {
    if h == [] then Stack([]) else
    var r := Replay(h[..|h| - 1]);
    var e := h[|h| - 1];
    if r.Illegal? || !e.Lin? then r
    else if Atomic(r.xs, e.op).1 == e.res then Stack(Atomic(r.xs, e.op).0)
    else Illegal
  }

  datatype Phase = Ready | Invoked(op: Op) | Linearized(op: Op, res: Result) | Broken

  function Advance(p: Phase, e: Event): Phase {
    match e
    case Inv(_, op) => if p.Ready? then Invoked(op) else Broken
    case Lin(_, op, res) => if p == Invoked(op) then Linearized(op, res) else Broken
    case Ret(_, res) => if p.Linearized? && p.res == res then Ready else Broken
  }

  /** Follows one thread through a history: invocation, linearization point, return with that result. */
  function PhaseOf(h: seq<Event>, t: nat): Phase {
    if h == [] then Ready else
    var p := PhaseOf(h[..|h| - 1], t);
    if h[|h| - 1].t == t then Advance(p, h[|h| - 1]) else p
  }

  /** What remains of a history for callers. */
  function Erase(h: seq<Event>): seq<Event> {
    if h == [] then [] else
    Erase(h[..|h| - 1]) + (if h[|h| - 1].Lin? then [] else [h[|h| - 1]])
  }

  /** History h explains the observed history: its Lin events are a legal run of the atomic stack, and
      each operation's Lin event lies between its invocation and its return, which reports its result. */
  ghost predicate Explains(h: seq<Event>, observed: seq<Event>) {
    && Erase(h) == observed
    && Replay(h).Stack?
    && forall t: nat :: !PhaseOf(h, t).Broken?
  }

  /** The operation, if any, that takes effect in this step. */
  function LinPoint(s: State, a: Action): seq<Op>
    requires Enabled(s, a)
  {
    match s.locals[a.t]
    case PushCas(v, node, oldTop) => if s.top == oldTop then [Push(v)] else []
    case PopLoad => if s.top.Null? then [Pop] else []
    case PopCas(o, next) => if s.top == At(o) then [Pop] else []
    case _ => []
  }

  /** The events of one step, with the result the atomic stack gives at a linearization point. */
  function Events(h: seq<Event>, s: State, a: Action): (es: seq<Event>)
    requires Enabled(s, a) && Replay(h).Stack?
  {
    var op := LinPoint(s, a);
    if op == [] then Visible(s, a) else [Lin(a.t, op[0], Atomic(Replay(h).xs, op[0]).1)]
  }

  // ---------------------------------------------------------------------------------------------
  // The invariant
  // ---------------------------------------------------------------------------------------------

  /** Following `next` from p through published nodes reads exactly the values xs. */
  ghost predicate Chain(heap: seq<Node>, pub: set<nat>, p: Ptr, xs: seq<int>)
    decreases xs
  {
    if xs == [] then p == Null
    else
      && p.At? && p.addr in pub && p.addr < |heap|
      && heap[p.addr].data == xs[0]
      && Chain(heap, pub, heap[p.addr].next, xs[1..])
  }

  function Published(pub: set<nat>, s: State, a: Action): set<nat>
    requires Enabled(s, a)
  {
    var l := s.locals[a.t];
    if l.PushCas? && s.top == l.oldTop then pub + {l.node} else pub
  }

  predicate OwnsNode(l: Local) {
    l.PushLoad? || l.PushLink? || l.PushCas?
  }

  ghost predicate PtrIn(p: Ptr, pub: set<nat>) {
    p.Null? || p.addr in pub
  }

  /** What thread-local variables mean in the shared heap, and how far the thread's operation has got. */
  ghost predicate LocalOk(heap: seq<Node>, pub: set<nat>, phase: Phase, l: Local) {
    && (OwnsNode(l) ==>
      l.node < |heap| && l.node !in pub && heap[l.node].data == l.val && phase == Invoked(Push(l.val)))
    && match l
      case Idle => phase == Ready
      case PushAlloc(v) => phase == Invoked(Push(v))
      case PushLoad(_, _) => true
      case PushLink(_, _, oldTop) => PtrIn(oldTop, pub)
      case PushCas(_, node, oldTop) => PtrIn(oldTop, pub) && heap[node].next == oldTop
      case PushReturn(v) => phase == Linearized(Push(v), Pushed)
      case PopLoad => phase == Invoked(Pop)
      case PopNext(o) => o in pub && o < |heap| && phase == Invoked(Pop)
      case PopCas(o, next) => o in pub && o < |heap| && heap[o].next == next && phase == Invoked(Pop)
      case PopData(o) => o in pub && o < |heap| && phase == Linearized(Pop, Popped(heap[o].data))
      case PopReturn(r) => phase == Linearized(Pop, r)
  }

  ghost predicate InvOn(s: State, pub: set<nat>, h: seq<Event>) {
    && Replay(h).Stack?
    && Chain(s.heap, pub, s.top, Replay(h).xs)
    && (forall p :: p in pub ==> p < |s.heap|)
    && (forall t :: 0 <= t < |s.locals| ==> LocalOk(s.heap, pub, PhaseOf(h, t), s.locals[t]))
    && (forall t, u :: 0 <= t < u < |s.locals| && OwnsNode(s.locals[t]) && OwnsNode(s.locals[u]) ==>
          s.locals[t].node != s.locals[u].node)
    && (forall t: nat :: t >= |s.locals| ==> PhaseOf(h, t) == Ready)
  }

  /** The invariant, as it concerns one thread. */
  lemma LocalOf(s: State, pub: set<nat>, h: seq<Event>, t: nat)
    requires InvOn(s, pub, h) && t < |s.locals|
    ensures Replay(h).Stack? && LocalOk(s.heap, pub, PhaseOf(h, t), s.locals[t])
  {
  }

  /** The invariant, as it concerns two threads that are building nodes. */
  lemma OwnNodes(s: State, pub: set<nat>, h: seq<Event>, t: nat, u: nat)
    requires InvOn(s, pub, h) && t < |s.locals| && u < |s.locals| && t != u
    requires OwnsNode(s.locals[t]) && OwnsNode(s.locals[u])
    ensures s.locals[t].node != s.locals[u].node
  {
  }

  /** Published nodes never change, so the list below any published node never changes. */
  lemma {:induction false} ChainFrame(heap: seq<Node>, pub: set<nat>, heap': seq<Node>, pub': set<nat>, p: Ptr, xs: seq<int>)
    requires Chain(heap, pub, p, xs)
    requires pub <= pub'
    requires forall a :: a in pub && a < |heap| ==> a < |heap'| && heap'[a] == heap[a]
    ensures Chain(heap', pub', p, xs)
    decreases xs
  {
    if xs == [] {
    } else {
      ChainFrame(heap, pub, heap', pub', heap[p.addr].next, xs[1..]);
    }
  }

  lemma AppendPhase(h: seq<Event>, e: Event, t: nat)
    ensures PhaseOf(h + [e], t) == if t != e.t then PhaseOf(h, t) else Advance(PhaseOf(h, t), e)
  {
    assert (h + [e])[..|h + [e]| - 1] == h;
  }

  lemma AppendReplay(h: seq<Event>, e: Event)
    ensures Replay(h + [e]) ==
      if Replay(h).Illegal? || !e.Lin? then Replay(h)
      else if Atomic(Replay(h).xs, e.op).1 == e.res then Stack(Atomic(Replay(h).xs, e.op).0) else Illegal
  {
    hide Atomic;
    assert (h + [e])[..|h + [e]| - 1] == h;
  }

  lemma AppendErase(h: seq<Event>, e: Event)
    ensures Erase(h + [e]) == Erase(h) + (if e.Lin? then [] else [e])
  {
    assert (h + [e])[..|h + [e]| - 1] == h;
  }

  /** A step adds at most one event. */
  lemma AtMostOneEvent(h: seq<Event>, s: State, a: Action)
    requires Enabled(s, a) && Replay(h).Stack?
    ensures var es := Events(h, s, a); es == [] || es == [es[0]]
  {
    hide Replay, Atomic;
  }

  lemma ExtendPhase(h: seq<Event>, s: State, a: Action, t: nat)
    requires Enabled(s, a) && Replay(h).Stack?
    ensures var es := Events(h, s, a);
            PhaseOf(h + es, t) == if es == [] || t != a.t then PhaseOf(h, t) else Advance(PhaseOf(h, t), es[0])
  {
    hide Replay, Atomic, PhaseOf, Advance;
    var es := Events(h, s, a);
    AtMostOneEvent(h, s, a);
    if es == [] {
      assert h + es == h;
    } else {
      AppendPhase(h, es[0], t);
    }
  }

  lemma ExtendReplay(h: seq<Event>, s: State, a: Action)
    requires Enabled(s, a) && Replay(h).Stack?
    ensures var op := LinPoint(s, a);
            Replay(h + Events(h, s, a)) == if op == [] then Replay(h) else Stack(Atomic(Replay(h).xs, op[0]).0)
  {
    hide Replay, Atomic;
    var es := Events(h, s, a);
    AtMostOneEvent(h, s, a);
    if es == [] {
      assert h + es == h;
    } else {
      AppendReplay(h, es[0]);
    }
  }

  lemma ExtendErase(h: seq<Event>, s: State, a: Action)
    requires Enabled(s, a) && Replay(h).Stack?
    ensures Erase(h + Events(h, s, a)) == Erase(h) + Visible(s, a)
  {
    hide Replay, Atomic, Erase;
    var es := Events(h, s, a);
    AtMostOneEvent(h, s, a);
    if es == [] {
      assert h + es == h;
    } else {
      AppendErase(h, es[0]);
    }
  }

  lemma StepChain(s: State, pub: set<nat>, h: seq<Event>, a: Action)
    requires InvOn(s, pub, h) && Enabled(s, a)
    ensures Safe(s, a)
    ensures var h' := h + Events(h, s, a);
            Replay(h').Stack? && Chain(Apply(s, a).heap, Published(pub, s, a), Apply(s, a).top, Replay(h').xs)
  {
    hide Replay, PhaseOf;
    ExtendReplay(h, s, a);
    var l := s.locals[a.t];
    assert LocalOk(s.heap, pub, PhaseOf(h, a.t), l);
    var xs := Replay(h).xs;
    ChainFrame(s.heap, pub, Apply(s, a).heap, Published(pub, s, a), s.top, xs);
    if l.PushCas? && s.top == l.oldTop {
      assert ([l.val] + xs)[1..] == xs;
    }
  }

  /** The thread's own local state after a step of a push, or of the call that starts an operation. */
  lemma StepOwnPush(s: State, pub: set<nat>, h: seq<Event>, a: Action)
    requires InvOn(s, pub, h) && Enabled(s, a) && Safe(s, a)
    requires var l := s.locals[a.t]; l.Idle? || l.PushAlloc? || OwnsNode(l) || l.PushReturn?
    ensures LocalOk(Apply(s, a).heap, Published(pub, s, a), PhaseOf(h + Events(h, s, a), a.t), Apply(s, a).locals[a.t])
  {
    LocalOf(s, pub, h, a.t);
    TopIsPublished(s, pub, h);
    PublishedExist(s, pub, h);
    hide Replay, PhaseOf, InvOn;
    ExtendPhase(h, s, a, a.t);
  }

  lemma StepOwnPop(s: State, pub: set<nat>, h: seq<Event>, a: Action)
    requires InvOn(s, pub, h) && Enabled(s, a) && Safe(s, a)
    requires var l := s.locals[a.t]; !(l.Idle? || l.PushAlloc? || OwnsNode(l) || l.PushReturn?)
    ensures LocalOk(Apply(s, a).heap, Published(pub, s, a), PhaseOf(h + Events(h, s, a), a.t), Apply(s, a).locals[a.t])
  {
    LocalOf(s, pub, h, a.t);
    TopIsPublished(s, pub, h);
    hide Replay, PhaseOf, InvOn;
    ExtendPhase(h, s, a, a.t);
  }

  lemma PublishedExist(s: State, pub: set<nat>, h: seq<Event>)
    requires InvOn(s, pub, h)
    ensures forall p :: p in pub ==> p < |s.heap|
  {
  }

  /** The stack is empty exactly when `top` is null, and otherwise its first value is in the top node. */
  lemma TopIsPublished(s: State, pub: set<nat>, h: seq<Event>)
    requires InvOn(s, pub, h)
    ensures Replay(h).Stack? && (Replay(h).xs == [] <==> s.top.Null?)
    ensures s.top.At? ==> s.top.addr in pub && s.top.addr < |s.heap| && s.heap[s.top.addr].data == Replay(h).xs[0]
  {
    hide Replay, PhaseOf;
  }

  lemma StepOther(s: State, pub: set<nat>, h: seq<Event>, a: Action, u: nat)
    requires InvOn(s, pub, h) && Enabled(s, a) && Safe(s, a) && u < |s.locals| && u != a.t
    ensures LocalOk(Apply(s, a).heap, Published(pub, s, a), PhaseOf(h + Events(h, s, a), u), s.locals[u])
  {
    hide Replay, PhaseOf, InvOn, Events, Apply, Safe, Published, LocalOk;
    var l := s.locals[u];
    LocalOf(s, pub, h, u);
    OwnIsPrivate(s, pub, h, a.t);
    OwnIsPrivate(s, pub, h, u);
    if OwnsNode(l) && OwnsNode(s.locals[a.t]) {
      OwnNodes(s, pub, h, u, a.t);
    }
    HeapFrame(s, pub, a, l);
    ExtendPhase(h, s, a, u);
    OtherFrame(s.heap, pub, Apply(s, a).heap, Published(pub, s, a), PhaseOf(h, u), l);
  }

  lemma OwnIsPrivate(s: State, pub: set<nat>, h: seq<Event>, t: nat)
    requires InvOn(s, pub, h) && t < |s.locals|
    ensures var l := s.locals[t]; OwnsNode(l) ==> l.node < |s.heap| && l.node !in pub
  {
    hide Replay, PhaseOf, Chain;
    LocalOf(s, pub, h, t);
  }

  /** A step leaves published nodes, and the node that another thread is building, as they are. */
  lemma HeapFrame(s: State, pub: set<nat>, a: Action, other: Local)
    requires Enabled(s, a) && Safe(s, a)
    requires var l := s.locals[a.t]; OwnsNode(l) ==> l.node !in pub && (OwnsNode(other) ==> other.node != l.node)
    requires OwnsNode(other) ==> other.node < |s.heap| && other.node !in pub
    ensures Apply(s, a).locals == s.locals[a.t := Apply(s, a).locals[a.t]]
    ensures pub <= Published(pub, s, a) && |s.heap| <= |Apply(s, a).heap|
    ensures forall p :: p in pub && p < |s.heap| ==> Apply(s, a).heap[p] == s.heap[p]
    ensures OwnsNode(other) ==> other.node !in Published(pub, s, a) && Apply(s, a).heap[other.node] == s.heap[other.node]
  {
  }

  /** A thread's local state stays right while nodes it can see stay as they are. */
  lemma OtherFrame(heap: seq<Node>, pub: set<nat>, heap': seq<Node>, pub': set<nat>, phase: Phase, l: Local)
    requires LocalOk(heap, pub, phase, l) && pub <= pub' && |heap| <= |heap'|
    requires forall a :: a in pub && a < |heap| ==> heap'[a] == heap[a]
    requires OwnsNode(l) ==> l.node !in pub' && heap'[l.node] == heap[l.node]
    ensures LocalOk(heap', pub', phase, l)
  {
  }

  /** Nodes under construction stay private to the thread that builds them. */
  lemma StepPrivate(s: State, pub: set<nat>, h: seq<Event>, a: Action)
    requires InvOn(s, pub, h) && Enabled(s, a) && Safe(s, a)
    ensures forall t, u :: 0 <= t < u < |s.locals| && OwnsNode(Apply(s, a).locals[t]) && OwnsNode(Apply(s, a).locals[u]) ==>
              Apply(s, a).locals[t].node != Apply(s, a).locals[u].node
  {
    hide Replay, PhaseOf, Chain;
    var s' := Apply(s, a);
    forall t, u | 0 <= t < u < |s.locals| && OwnsNode(s'.locals[t]) && OwnsNode(s'.locals[u])
      ensures s'.locals[t].node != s'.locals[u].node
    {
      assert LocalOk(s.heap, pub, PhaseOf(h, t), s.locals[t]);
      assert LocalOk(s.heap, pub, PhaseOf(h, u), s.locals[u]);
    }
  }

  /** Every step of every thread keeps the invariant, and dereferences existing nodes only. */
  lemma StepInv(s: State, pub: set<nat>, h: seq<Event>, a: Action)
    requires InvOn(s, pub, h) && Enabled(s, a)
    ensures Safe(s, a)
    ensures InvOn(Apply(s, a), Published(pub, s, a), h + Events(h, s, a))
  {
    hide Replay, PhaseOf, Chain, Events;
    StepChain(s, pub, h, a);
    var s' := Apply(s, a);
    assert LocalOk(s.heap, pub, PhaseOf(h, a.t), s.locals[a.t]);
    forall u: nat | u < |s'.locals|
      ensures LocalOk(s'.heap, Published(pub, s, a), PhaseOf(h + Events(h, s, a), u), s'.locals[u])
    {
      if u != a.t {
        StepOther(s, pub, h, a, u);
      } else if s.locals[u].Idle? || s.locals[u].PushAlloc? || OwnsNode(s.locals[u]) || s.locals[u].PushReturn? {
        StepOwnPush(s, pub, h, a);
      } else {
        StepOwnPop(s, pub, h, a);
      }
    }
    forall u: nat | u >= |s'.locals| ensures PhaseOf(h + Events(h, s, a), u) == Ready {
      ExtendPhase(h, s, a, u);
    }
    StepPrivate(s, pub, h, a);
  }

  // ---------------------------------------------------------------------------------------------
  // Whole runs
  // ---------------------------------------------------------------------------------------------

  ghost predicate Trace(n: nat, ss: seq<State>, acts: seq<Action>) {
    && |ss| == |acts| + 1
    && ss[0] == Init(n)
    && forall k :: 0 <= k < |acts| ==>
         Enabled(ss[k], acts[k]) && Safe(ss[k], acts[k]) && ss[k + 1] == Apply(ss[k], acts[k])
  }

  /** What callers observe of a run. */
  ghost function Observed(n: nat, ss: seq<State>, acts: seq<Action>): seq<Event>
    requires Trace(n, ss, acts)
  {
    if acts == [] then [] else
    Observed(n, ss[..|acts|], acts[..|acts| - 1]) + Visible(ss[|acts| - 1], acts[|acts| - 1])
  }

  /** The list reachable from `top` holds exactly the values xs. */
  ghost predicate Contains(s: State, xs: seq<int>) {
    exists pub :: Chain(s.heap, pub, s.top, xs)
  }

  lemma InitInv(n: nat)
    ensures InvOn(Init(n), {}, [])
  {
  }

  /** A run without its last step. */
  lemma TracePrefix(n: nat, ss: seq<State>, acts: seq<Action>)
    requires Trace(n, ss, acts) && acts != []
    ensures Trace(n, ss[..|acts|], acts[..|acts| - 1])
  {
    hide Enabled, Safe, Apply;
  }

  lemma {:induction false} TraceInv(n: nat, ss: seq<State>, acts: seq<Action>) returns (pub: set<nat>, h: seq<Event>)
    requires Trace(n, ss, acts)
    ensures InvOn(ss[|acts|], pub, h) && |ss[|acts|].locals| == n
    ensures Erase(h) == Observed(n, ss, acts)
    ensures PushedValues(h) == Pushes(n, ss, acts) && PoppedValues(h) == Pops(n, ss, acts)
  {
    hide InvOn, Visible, Events, Published, Safe, StepPushes, StepPops;
    if acts == [] {
      pub, h := {}, [];
      InitInv(n);
    } else {
      var m := |acts| - 1;
      TracePrefix(n, ss, acts);
      var pub0, h0 := TraceInv(n, ss[..|acts|], acts[..m]);
      LocalOf(ss[m], pub0, h0, acts[m].t);
      pub, h := Published(pub0, ss[m], acts[m]), h0 + Events(h0, ss[m], acts[m]);
      TraceStep(ss[m], pub0, h0, acts[m]);
    }
  }

  /** What one step does to the invariant and to each of the books kept along a run. */
  lemma TraceStep(s: State, pub: set<nat>, h: seq<Event>, a: Action)
    requires InvOn(s, pub, h) && Enabled(s, a)
    ensures Safe(s, a) && InvOn(Apply(s, a), Published(pub, s, a), h + Events(h, s, a))
    ensures |Apply(s, a).locals| == |s.locals|
    ensures Erase(h + Events(h, s, a)) == Erase(h) + Visible(s, a)
    ensures PushedValues(h + Events(h, s, a)) == PushedValues(h) + Bag(StepPushes(s, a))
    ensures PoppedValues(h + Events(h, s, a)) == PoppedValues(h) + Bag(StepPops(s, a))
  {
    hide InvOn, Apply, Safe, Replay, PhaseOf, Erase, PushedValues, PoppedValues, Visible, Events, Published, StepPushes, StepPops;
    StepInv(s, pub, h, a);
    LocalOf(s, pub, h, a.t);
    LocalsKept(s, a);
    ExtendErase(h, s, a);
    StepValues(s, pub, h, a);
  }

  lemma LocalsKept(s: State, a: Action)
    requires Enabled(s, a) && Safe(s, a)
    ensures Apply(s, a).locals == s.locals[a.t := Apply(s, a).locals[a.t]]
  {
  }

  /** Linearizability: whatever the interleaving, the observed history is explained by a sequential
      history of the atomic stack, and the nodes reachable from `top` hold that stack's contents. */
  lemma Linearizable(n: nat, ss: seq<State>, acts: seq<Action>)
    requires Trace(n, ss, acts)
    ensures exists h :: Explains(h, Observed(n, ss, acts)) && Contains(ss[|acts|], Replay(h).xs)
  {
    var pub, h := TraceInv(n, ss, acts);
    forall t: nat ensures !PhaseOf(h, t).Broken? {
      if t < n {
        assert LocalOk(ss[|acts|].heap, pub, PhaseOf(h, t), ss[|acts|].locals[t]);
      }
    }
    assert Explains(h, Observed(n, ss, acts)) && Contains(ss[|acts|], Replay(h).xs);
  }

  /** A run never gets stuck and never follows a null or dangling pointer: any thread can always take its next step. */
  lemma NeverStuck(n: nat, ss: seq<State>, acts: seq<Action>, a: Action)
    requires Trace(n, ss, acts) && Enabled(ss[|acts|], a)
    ensures Safe(ss[|acts|], a)
    ensures Trace(n, ss + [Apply(ss[|acts|], a)], acts + [a])
  {
    hide InvOn;
    var pub, h := TraceInv(n, ss, acts);
    assert Safe(ss[|acts|], a) by { StepInv(ss[|acts|], pub, h, a); }
    hide Enabled, Safe, Apply;
    var ss1, acts1 := ss + [Apply(ss[|acts|], a)], acts + [a];
    forall k | 0 <= k < |acts1| ensures Enabled(ss1[k], acts1[k]) && Safe(ss1[k], acts1[k]) && ss1[k + 1] == Apply(ss1[k], acts1[k]) {
      if k < |acts| {
        assert ss1[k] == ss[k] && acts1[k] == acts[k] && ss1[k + 1] == ss[k + 1];
      }
    }
  }

  /** The values reachable from `top` are a function of the heap: `Contains` names at most one list. */
  lemma {:induction false} ChainUnique(heap: seq<Node>, pub: set<nat>, pub': set<nat>, p: Ptr, xs: seq<int>, ys: seq<int>)
    requires Chain(heap, pub, p, xs) && Chain(heap, pub', p, ys)
    ensures xs == ys
    decreases xs
  {
    if xs == [] {
    } else {
      ChainUnique(heap, pub, pub', heap[p.addr].next, xs[1..], ys[1..]);
      assert xs == [xs[0]] + xs[1..] && ys == [ys[0]] + ys[1..];
    }
  }

  predicate CasSucceeds(s: State, a: Action)
    requires Enabled(s, a)
  {
    match s.locals[a.t]
    case PushCas(_, _, oldTop) => s.top == oldTop
    case PopCas(o, _) => s.top == At(o)
    case _ => false
  }

  predicate CasFails(s: State, a: Action)
    requires Enabled(s, a)
  {
    (s.locals[a.t].PushCas? || s.locals[a.t].PopCas?) && !CasSucceeds(s, a)
  }

  /** The stack's contents change only at a successful compare-and-swap, and then exactly as one atomic
      push or pop of the thread that performed it. */
  lemma ContentsChangeAtCas(n: nat, ss: seq<State>, acts: seq<Action>, xs: seq<int>, a: Action)
    requires Trace(n, ss, acts) && Enabled(ss[|acts|], a) && Contains(ss[|acts|], xs)
    ensures Safe(ss[|acts|], a)
    ensures !CasSucceeds(ss[|acts|], a) ==> Contains(Apply(ss[|acts|], a), xs)
    ensures CasSucceeds(ss[|acts|], a) ==>
      var l := ss[|acts|].locals[a.t];
      if l.PushCas? then Contains(Apply(ss[|acts|], a), [l.val] + xs)
      else xs != [] && Contains(Apply(ss[|acts|], a), xs[1..])
  {
    var s := ss[|acts|];
    var pub, h := TraceInv(n, ss, acts);
    var pub0 :| Chain(s.heap, pub0, s.top, xs);
    ChainUnique(s.heap, pub0, pub, s.top, xs, Replay(h).xs);
    StepChain(s, pub, h, a);
    ExtendReplay(h, s, a);
    assert Chain(Apply(s, a).heap, Published(pub, s, a), Apply(s, a).top, Replay(h + Events(h, s, a)).xs);
  }

  // ---------------------------------------------------------------------------------------------
  // Conservation of values
  // ---------------------------------------------------------------------------------------------

  function Bag(v: Option<int>): multiset<int> {
    if v.Some? then multiset{v.value} else multiset{}
  }

  function PushedIn(e: Event): Option<int> {
    if e.Lin? && e.op.Push? then Some(e.op.val) else None
  }

  function PoppedIn(e: Event): Option<int> {
    if e.Lin? && e.res.Popped? then Some(e.res.val) else None
  }

  function PushedValues(h: seq<Event>): multiset<int> {
    if h == [] then multiset{} else PushedValues(h[..|h| - 1]) + Bag(PushedIn(h[|h| - 1]))
  }

  function PoppedValues(h: seq<Event>): multiset<int> {
    if h == [] then multiset{} else PoppedValues(h[..|h| - 1]) + Bag(PoppedIn(h[|h| - 1]))
  }

  lemma FirstAndRest(x: int, xs: seq<int>)
    ensures multiset([x] + xs) == multiset{x} + multiset(xs)
  {
  }

  lemma Balance(pushed: multiset<int>, popped: multiset<int>, rest: multiset<int>,
                pushed': multiset<int>, popped': multiset<int>, rest': multiset<int>)
    requires pushed == popped + rest && pushed' + rest == rest' + popped'
    ensures pushed + pushed' == (popped + popped') + rest'
  {
    forall v: int ensures (pushed + pushed')[v] == ((popped + popped') + rest')[v] {
      assert pushed[v] == (popped + rest)[v] && (pushed' + rest)[v] == (rest' + popped')[v];
    }
  }

  /** One event of a legal history. */
  lemma EventBalance(xs: seq<int>, e: Event)
    requires e.Lin? ==> Atomic(xs, e.op).1 == e.res
    ensures Bag(PushedIn(e)) + multiset(xs) == multiset(if e.Lin? then Atomic(xs, e.op).0 else xs) + Bag(PoppedIn(e))
  {
    if e.Lin? && e.op.Push? {
      FirstAndRest(e.op.val, xs);
    } else if e.Lin? && xs != [] {
      assert xs == [xs[0]] + xs[1..];
      FirstAndRest(xs[0], xs[1..]);
    }
  }

  lemma NothingMore(ms: multiset<int>)
    ensures ms + multiset{} == ms
  {
  }

  /** In a legal history of the atomic stack, what was pushed is what was popped plus what remains. */
  lemma {:induction false} HistoryConservation(h: seq<Event>)
    requires Replay(h).Stack?
    ensures PushedValues(h) == PoppedValues(h) + multiset(Replay(h).xs)
  {
    if h != [] {
      var h0, e := h[..|h| - 1], h[|h| - 1];
      HistoryConservation(h0);
      var xs, pushed, popped := Replay(h0).xs, PushedValues(h0), PoppedValues(h0);
      hide Atomic, Bag, PushedIn, PoppedIn;
      EventBalance(xs, e);
      Balance(pushed, popped, multiset(xs), Bag(PushedIn(e)), Bag(PoppedIn(e)), multiset(Replay(h).xs));
    }
  }

  /** The value that a step pushes: that of a node whose compare-and-swap onto `top` succeeds. */
  function StepPushes(s: State, a: Action): Option<int>
    requires Enabled(s, a)
  {
    match s.locals[a.t]
    case PushCas(v, _, oldTop) => if s.top == oldTop then Some(v) else None
    case _ => None
  }

  /** The value that a step pops: that of the node which a successful compare-and-swap takes off `top`. */
  function StepPops(s: State, a: Action): Option<int>
    requires Enabled(s, a)
  {
    match s.locals[a.t]
    case PopCas(o, _) => if s.top == At(o) && o < |s.heap| then Some(s.heap[o].data) else None
    case _ => None
  }

  lemma AppendValues(h: seq<Event>, e: Event)
    ensures PushedValues(h + [e]) == PushedValues(h) + Bag(PushedIn(e))
    ensures PoppedValues(h + [e]) == PoppedValues(h) + Bag(PoppedIn(e))
  {
    hide Bag, PushedIn, PoppedIn;
    assert (h + [e])[..|h + [e]| - 1] == h;
  }

  /** The linearization point of a step carries the value that the step moves in the heap. */
  lemma EventMoves(s: State, pub: set<nat>, h: seq<Event>, a: Action)
    requires InvOn(s, pub, h) && Enabled(s, a)
    ensures Replay(h).Stack?
    ensures var es := Events(h, s, a);
            if es == [] then StepPushes(s, a) == None && StepPops(s, a) == None
            else PushedIn(es[0]) == StepPushes(s, a) && PoppedIn(es[0]) == StepPops(s, a)
  {
    LocalOf(s, pub, h, a.t);
    TopIsPublished(s, pub, h);
    hide Replay, PhaseOf, InvOn;
  }

  lemma StepValues(s: State, pub: set<nat>, h: seq<Event>, a: Action)
    requires InvOn(s, pub, h) && Enabled(s, a)
    ensures Replay(h).Stack?
    ensures PushedValues(h + Events(h, s, a)) == PushedValues(h) + Bag(StepPushes(s, a))
    ensures PoppedValues(h + Events(h, s, a)) == PoppedValues(h) + Bag(StepPops(s, a))
  {
    EventMoves(s, pub, h, a);
    AtMostOneEvent(h, s, a);
    hide Replay, PhaseOf, InvOn, PushedValues, PoppedValues, Events, PushedIn, PoppedIn, StepPushes, StepPops, Enabled;
    var es := Events(h, s, a);
    if es == [] {
      assert h + es == h;
      NothingMore(PushedValues(h));
      NothingMore(PoppedValues(h));
    } else {
      AppendValues(h, es[0]);
    }
  }

  /** The values moved onto and off the list in a run. */
  ghost function Pushes(n: nat, ss: seq<State>, acts: seq<Action>): multiset<int>
    requires Trace(n, ss, acts)
  {
    if acts == [] then multiset{} else
    Pushes(n, ss[..|acts|], acts[..|acts| - 1]) + Bag(StepPushes(ss[|acts| - 1], acts[|acts| - 1]))
  }

  ghost function Pops(n: nat, ss: seq<State>, acts: seq<Action>): multiset<int>
    requires Trace(n, ss, acts)
  {
    if acts == [] then multiset{} else
    Pops(n, ss[..|acts|], acts[..|acts| - 1]) + Bag(StepPops(ss[|acts| - 1], acts[|acts| - 1]))
  }

  /** In every interleaving, no value is lost, duplicated or invented: the values that successful swaps put on the
      list are those that successful swaps took off it plus those reachable from `top`. */
  lemma Conservation(n: nat, ss: seq<State>, acts: seq<Action>, xs: seq<int>)
    requires Trace(n, ss, acts) && Contains(ss[|acts|], xs)
    ensures Pushes(n, ss, acts) == Pops(n, ss, acts) + multiset(xs)
  {
    hide Pushes, Pops, PushedValues, PoppedValues, Replay, PhaseOf, LocalOk;
    var pub, h := TraceInv(n, ss, acts);
    var s := ss[|acts|];
    var pub0 :| Chain(s.heap, pub0, s.top, xs);
    ChainUnique(s.heap, pub0, pub, s.top, xs, Replay(h).xs);
    HistoryConservation(h);
  }

  // What callers see: arguments of push at the call, results of pop at the return

  function CalledIn(e: Event): Option<int> {
    if e.Inv? && e.op.Push? then Some(e.op.val) else None
  }

  function ReturnedIn(e: Event): Option<int> {
    if e.Ret? && e.res.Popped? then Some(e.res.val) else None
  }

  function PushCalls(h: seq<Event>): multiset<int> {
    if h == [] then multiset{} else PushCalls(h[..|h| - 1]) + Bag(CalledIn(h[|h| - 1]))
  }

  function PopReturns(h: seq<Event>): multiset<int> {
    if h == [] then multiset{} else PopReturns(h[..|h| - 1]) + Bag(ReturnedIn(h[|h| - 1]))
  }

  /** The value of a push that has been called and has not reached the list. */
  function OnTheWayIn(l: Local): Option<int> {
    match l
    case PushAlloc(v) => Some(v)
    case PushLoad(v, _) => Some(v)
    case PushLink(v, _, _) => Some(v)
    case PushCas(v, _, _) => Some(v)
    case _ => None
  }

  /** The value of a pop that has left the list and has not been returned. */
  function OnTheWayOut(heap: seq<Node>, l: Local): Option<int> {
    match l
    case PopData(o) => if o < |heap| then Some(heap[o].data) else None
    case PopReturn(r) => if r.Popped? then Some(r.val) else None
    case _ => None
  }

  function AllIn(ls: seq<Local>): multiset<int> {
    if ls == [] then multiset{} else Bag(OnTheWayIn(ls[0])) + AllIn(ls[1..])
  }

  function AllOut(heap: seq<Node>, ls: seq<Local>): multiset<int> {
    if ls == [] then multiset{} else Bag(OnTheWayOut(heap, ls[0])) + AllOut(heap, ls[1..])
  }

  lemma AddLeft(w: multiset<int>, x: multiset<int>, a: multiset<int>, y: multiset<int>, b: multiset<int>)
    requires x + a == y + b
    ensures (w + x) + a == (w + y) + b
  {
    forall v: int ensures ((w + x) + a)[v] == ((w + y) + b)[v] {
      assert (x + a)[v] == (y + b)[v];
    }
  }

  lemma Exchange(a: multiset<int>, r: multiset<int>, b: multiset<int>)
    ensures (a + r) + b == (b + r) + a
  {
  }

  lemma {:induction false} AllInUpdate(ls: seq<Local>, t: nat, l: Local)
    requires t < |ls|
    ensures AllIn(ls[t := l]) + Bag(OnTheWayIn(ls[t])) == AllIn(ls) + Bag(OnTheWayIn(l))
  {
    hide OnTheWayIn, Bag;
    var w, rest := Bag(OnTheWayIn(ls[0])), AllIn(ls[1..]);
    if t == 0 {
      assert ls[t := l][1..] == ls[1..];
      Exchange(Bag(OnTheWayIn(l)), rest, w);
    } else {
      assert ls[t := l][1..] == ls[1..][t - 1 := l];
      AllInUpdate(ls[1..], t - 1, l);
      AddLeft(w, AllIn(ls[1..][t - 1 := l]), Bag(OnTheWayIn(ls[t])), rest, Bag(OnTheWayIn(l)));
    }
  }

  lemma {:induction false} AllOutUpdate(heap: seq<Node>, ls: seq<Local>, t: nat, l: Local)
    requires t < |ls|
    ensures AllOut(heap, ls[t := l]) + Bag(OnTheWayOut(heap, ls[t])) == AllOut(heap, ls) + Bag(OnTheWayOut(heap, l))
  {
    hide OnTheWayOut, Bag;
    var w, rest := Bag(OnTheWayOut(heap, ls[0])), AllOut(heap, ls[1..]);
    if t == 0 {
      assert ls[t := l][1..] == ls[1..];
      Exchange(Bag(OnTheWayOut(heap, l)), rest, w);
    } else {
      assert ls[t := l][1..] == ls[1..][t - 1 := l];
      AllOutUpdate(heap, ls[1..], t - 1, l);
      AddLeft(w, AllOut(heap, ls[1..][t - 1 := l]), Bag(OnTheWayOut(heap, ls[t])), rest, Bag(OnTheWayOut(heap, l)));
    }
  }

  /** Data never changes in a node, so what is on its way out stays the same while the heap grows and is relinked. */
  lemma {:induction false} AllOutFrame(heap: seq<Node>, heap': seq<Node>, ls: seq<Local>)
    requires |heap| <= |heap'| && forall a :: 0 <= a < |heap| ==> heap'[a].data == heap[a].data
    requires forall t :: 0 <= t < |ls| && ls[t].PopData? ==> ls[t].oldNode < |heap|
    ensures AllOut(heap', ls) == AllOut(heap, ls)
  {
    if ls != [] {
      assert OnTheWayOut(heap', ls[0]) == OnTheWayOut(heap, ls[0]);
      AllOutFrame(heap, heap', ls[1..]);
    }
  }

  lemma {:induction false} NothingOnTheWay(heap: seq<Node>, ls: seq<Local>)
    requires forall t :: 0 <= t < |ls| ==> ls[t].Idle?
    ensures AllIn(ls) == multiset{} && AllOut(heap, ls) == multiset{}
  {
    if ls != [] {
      NothingOnTheWay(heap, ls[1..]);
    }
  }

  lemma AppendCall(h: seq<Event>, e: Event)
    ensures PushCalls(h + [e]) == PushCalls(h) + Bag(CalledIn(e)) && PopReturns(h + [e]) == PopReturns(h) + Bag(ReturnedIn(e))
  {
    hide Bag, CalledIn, ReturnedIn;
    assert (h + [e])[..|h + [e]| - 1] == h;
  }

  /** The value of the push that a step calls, and of the pop from which it returns. */
  function CalledWith(s: State, a: Action): Option<int>
    requires Enabled(s, a)
  {
    if s.locals[a.t].Idle? && a.op.Push? then Some(a.op.val) else None
  }

  function ReturnedFrom(s: State, a: Action): Option<int>
    requires Enabled(s, a)
  {
    match s.locals[a.t]
    case PopReturn(r) => if r.Popped? then Some(r.val) else None
    case _ => None
  }

  lemma VisibleMoves(s: State, a: Action)
    requires Enabled(s, a)
    ensures var es := Visible(s, a);
            if es == [] then CalledWith(s, a) == None && ReturnedFrom(s, a) == None
            else es == [es[0]] && CalledIn(es[0]) == CalledWith(s, a) && ReturnedIn(es[0]) == ReturnedFrom(s, a)
  {
  }

  lemma AppendCalls(h: seq<Event>, s: State, a: Action)
    requires Enabled(s, a)
    ensures PushCalls(h + Visible(s, a)) == PushCalls(h) + Bag(CalledWith(s, a))
    ensures PopReturns(h + Visible(s, a)) == PopReturns(h) + Bag(ReturnedFrom(s, a))
  {
    VisibleMoves(s, a);
    hide Visible, PushCalls, PopReturns, Enabled, CalledIn, ReturnedIn, CalledWith, ReturnedFrom;
    var es := Visible(s, a);
    if es == [] {
      assert h + es == h;
      NothingMore(PushCalls(h));
      NothingMore(PopReturns(h));
    } else {
      AppendCall(h, es[0]);
    }
  }

  /** A value a comes from where b was and goes to c or d: at most one of each pair is there. */
  predicate Moves(a: Option<int>, b: Option<int>, c: Option<int>, d: Option<int>) {
    || (a == c && b == None && d == None)
    || (a == None && b == c && d == None)
    || (a == d && b == None && c == None)
  }

  lemma MovedBags(a: Option<int>, b: Option<int>, c: Option<int>, d: Option<int>)
    requires Moves(a, b, c, d)
    ensures Bag(a) + Bag(b) == Bag(c) + Bag(d)
  {
    assert Bag(None) == multiset{};
    hide Bag;
    NothingMore(Bag(a));
    NothingMore(Bag(c));
    NothingBefore(Bag(b));
    NothingBefore(Bag(d));
  }

  lemma NothingBefore(ms: multiset<int>)
    ensures multiset{} + ms == ms
  {
  }

  /** One step moves a value one stage on. */
  lemma StepIn(s: State, a: Action)
    requires Enabled(s, a) && Safe(s, a)
    ensures Moves(OnTheWayIn(s.locals[a.t]), CalledWith(s, a), OnTheWayIn(Apply(s, a).locals[a.t]), StepPushes(s, a))
  {
  }

  lemma StepOut(s: State, a: Action)
    requires Enabled(s, a) && Safe(s, a) && (s.locals[a.t].PopCas? ==> s.locals[a.t].oldNode < |s.heap|)
    ensures Moves(OnTheWayOut(Apply(s, a).heap, s.locals[a.t]), StepPops(s, a),
                  OnTheWayOut(Apply(s, a).heap, Apply(s, a).locals[a.t]), ReturnedFrom(s, a))
  {
  }

  /** The books of a run: a called push is on its way in or on the list, a popped value on its way out or returned. */
  lemma {:induction false} RunBooks(n: nat, ss: seq<State>, acts: seq<Action>)
    requires Trace(n, ss, acts)
    ensures PushCalls(Observed(n, ss, acts)) == Pushes(n, ss, acts) + AllIn(ss[|acts|].locals)
    ensures Pops(n, ss, acts) == PopReturns(Observed(n, ss, acts)) + AllOut(ss[|acts|].heap, ss[|acts|].locals)
  {
    hide Visible, StepPushes, StepPops, PushCalls, PopReturns, AllIn, AllOut, Apply, Safe;
    if acts == [] {
      NothingOnTheWay(ss[0].heap, ss[0].locals);
      assert PushCalls([]) == multiset{} && PopReturns([]) == multiset{} by { NoCalls(); }
    } else {
      var m := |acts| - 1;
      TracePrefix(n, ss, acts);
      RunBooks(n, ss[..|acts|], acts[..m]);
      var pub, h := TraceInv(n, ss[..|acts|], acts[..m]);
      BooksStep(ss[m], pub, h, acts[m], Observed(n, ss[..|acts|], acts[..m]),
                Pushes(n, ss[..|acts|], acts[..m]), Pops(n, ss[..|acts|], acts[..m]));
    }
  }

  lemma NoCalls()
    ensures PushCalls([]) == multiset{} && PopReturns([]) == multiset{}
  {
  }

  /** One step keeps the books balanced. */
  lemma BooksStep(s: State, pub: set<nat>, h: seq<Event>, a: Action, seen: seq<Event>, pushes: multiset<int>, pops: multiset<int>)
    requires InvOn(s, pub, h) && Enabled(s, a) && Safe(s, a)
    requires PushCalls(seen) == pushes + AllIn(s.locals)
    requires pops == PopReturns(seen) + AllOut(s.heap, s.locals)
    ensures PushCalls(seen + Visible(s, a)) == pushes + Bag(StepPushes(s, a)) + AllIn(Apply(s, a).locals)
    ensures pops + Bag(StepPops(s, a)) == PopReturns(seen + Visible(s, a)) + AllOut(Apply(s, a).heap, Apply(s, a).locals)
  {
    hide InvOn, LocalOk, StepPushes, StepPops, PushCalls, PopReturns, AllIn, AllOut, OnTheWayIn, OnTheWayOut;
    hide Published, Apply, Visible, Safe, Moves, Bag, CalledWith, ReturnedFrom;
    var t, s' := a.t, Apply(s, a);
    LocalsKept(s, a);
    AppendCalls(seen, s, a);
    BooksIn(s, a, seen, pushes);
    PoppingIsPublished(s, pub, h);
    BooksOut(s, a, seen, pops);
  }

  lemma BooksIn(s: State, a: Action, seen: seq<Event>, pushes: multiset<int>)
    requires Enabled(s, a) && Safe(s, a) && PushCalls(seen) == pushes + AllIn(s.locals)
    ensures PushCalls(seen) + Bag(CalledWith(s, a)) == pushes + Bag(StepPushes(s, a)) + AllIn(Apply(s, a).locals)
  {
    hide StepPushes, PushCalls, AllIn, OnTheWayIn, Apply, Safe, Moves, Bag, CalledWith;
    LocalsKept(s, a);
    var l, l' := s.locals[a.t], Apply(s, a).locals[a.t];
    StepIn(s, a);
    MovedBags(OnTheWayIn(l), CalledWith(s, a), OnTheWayIn(l'), StepPushes(s, a));
    AllInUpdate(s.locals, a.t, l');
    BalanceIn(PushCalls(seen), pushes, AllIn(s.locals), AllIn(Apply(s, a).locals), Bag(OnTheWayIn(l)), Bag(OnTheWayIn(l')),
              Bag(CalledWith(s, a)), Bag(StepPushes(s, a)));
  }

  lemma BooksOut(s: State, a: Action, seen: seq<Event>, pops: multiset<int>)
    requires Enabled(s, a) && Safe(s, a) && pops == PopReturns(seen) + AllOut(s.heap, s.locals)
    requires forall t :: 0 <= t < |s.locals| && (s.locals[t].PopCas? || s.locals[t].PopData?) ==> s.locals[t].oldNode < |s.heap|
    ensures pops + Bag(StepPops(s, a)) == PopReturns(seen) + Bag(ReturnedFrom(s, a)) + AllOut(Apply(s, a).heap, Apply(s, a).locals)
  {
    hide StepPops, PopReturns, AllOut, OnTheWayOut, Apply, Safe, Moves, Bag, ReturnedFrom;
    LocalsKept(s, a);
    var heap', l, l' := Apply(s, a).heap, s.locals[a.t], Apply(s, a).locals[a.t];
    StepOut(s, a);
    MovedBags(OnTheWayOut(heap', l), StepPops(s, a), OnTheWayOut(heap', l'), ReturnedFrom(s, a));
    DataKept(s, a);
    AllOutFrame(s.heap, heap', s.locals);
    AllOutUpdate(heap', s.locals, a.t, l');
    BalanceOut(pops, PopReturns(seen), AllOut(s.heap, s.locals), AllOut(heap', Apply(s, a).locals), Bag(OnTheWayOut(heap', l)),
               Bag(OnTheWayOut(heap', l')), Bag(ReturnedFrom(s, a)), Bag(StepPops(s, a)));
  }

  lemma PoppingIsPublished(s: State, pub: set<nat>, h: seq<Event>)
    requires InvOn(s, pub, h)
    ensures forall t :: 0 <= t < |s.locals| && (s.locals[t].PopCas? || s.locals[t].PopData?) ==> s.locals[t].oldNode < |s.heap|
  {
    hide Replay, PhaseOf, Chain;
    forall t | 0 <= t < |s.locals| && (s.locals[t].PopCas? || s.locals[t].PopData?) ensures s.locals[t].oldNode < |s.heap| {
      LocalOf(s, pub, h, t);
    }
  }

  lemma DataKept(s: State, a: Action)
    requires Enabled(s, a) && Safe(s, a)
    ensures |s.heap| <= |Apply(s, a).heap|
    ensures forall p :: 0 <= p < |s.heap| ==> Apply(s, a).heap[p].data == s.heap[p].data
  {
  }

  lemma BalanceIn(calls: multiset<int>, pushes: multiset<int>, x: multiset<int>, x': multiset<int>,
                  l: multiset<int>, l': multiset<int>, call: multiset<int>, push: multiset<int>)
    requires calls == pushes + x && x' + l == x + l' && l + call == l' + push
    ensures calls + call == pushes + push + x'
  {
    forall v: int ensures (calls + call)[v] == (pushes + push + x')[v] {
      assert calls[v] == (pushes + x)[v] && (x' + l)[v] == (x + l')[v] && (l + call)[v] == (l' + push)[v];
    }
  }

  lemma BalanceOut(pops: multiset<int>, results: multiset<int>, x: multiset<int>, x': multiset<int>,
                   l: multiset<int>, l': multiset<int>, ret: multiset<int>, pop: multiset<int>)
    requires pops == results + x && x' + l == x + l' && l + pop == l' + ret
    ensures pops + pop == results + ret + x'
  {
    forall v: int ensures (pops + pop)[v] == (results + ret + x')[v] {
      assert pops[v] == (results + x)[v] && (x' + l)[v] == (x + l')[v] && (l + pop)[v] == (l' + ret)[v];
    }
  }

  predicate AllIdle(s: State) {
    forall t :: 0 <= t < |s.locals| ==> s.locals[t].Idle?
  }

  /** What callers see of conservation: once every operation has returned, the values they pushed are those their
      pops returned plus those still reachable from `top`. */
  lemma CallersConserve(n: nat, ss: seq<State>, acts: seq<Action>, xs: seq<int>)
    requires Trace(n, ss, acts) && Contains(ss[|acts|], xs) && AllIdle(ss[|acts|])
    ensures PushCalls(Observed(n, ss, acts)) == PopReturns(Observed(n, ss, acts)) + multiset(xs)
  {
    hide Pushes, Pops, PushCalls, PopReturns, Observed, Contains, AllIn, AllOut;
    RunBooks(n, ss, acts);
    Conservation(n, ss, acts, xs);
    NothingOnTheWay(ss[|acts|].heap, ss[|acts|].locals);
    NothingMore(Pushes(n, ss, acts));
    NothingMore(PopReturns(Observed(n, ss, acts)));
  }

  // ---------------------------------------------------------------------------------------------
  // Lock freedom: an operation retries only because another one took effect
  // ---------------------------------------------------------------------------------------------

  /** The thread has loaded a value of `top` that is out of date. */
  predicate Stale(top: Ptr, l: Local) {
    match l
    case PushLink(_, _, oldTop) => top != oldTop
    case PushCas(_, _, oldTop) => top != oldTop
    case PopNext(o) => top != At(o)
    case PopCas(o, _) => top != At(o)
    case _ => false
  }

  function StaleCount(top: Ptr, ls: seq<Local>): (c: nat)
    ensures c <= |ls|
  {
    if ls == [] then 0 else (if Stale(top, ls[0]) then 1 else 0) + StaleCount(top, ls[1..])
  }

  lemma {:induction false} StaleUpdate(top: Ptr, ls: seq<Local>, t: nat, l: Local)
    requires t < |ls|
    ensures StaleCount(top, ls[t := l]) ==
      StaleCount(top, ls) - (if Stale(top, ls[t]) then 1 else 0) + (if Stale(top, l) then 1 else 0)
  {
    if t == 0 {
      assert ls[t := l][1..] == ls[1..];
    } else {
      assert ls[t := l][1..] == ls[1..][t - 1 := l];
      StaleUpdate(top, ls[1..], t - 1, l);
    }
  }

  /** Failed and successful compare-and-swaps among the first k steps of a run. */
  ghost function Failures(n: nat, ss: seq<State>, acts: seq<Action>, k: nat): nat
    requires Trace(n, ss, acts) && k <= |acts|
  {
    if k == 0 then 0 else Failures(n, ss, acts, k - 1) + (if CasFails(ss[k - 1], acts[k - 1]) then 1 else 0)
  }

  ghost function Successes(n: nat, ss: seq<State>, acts: seq<Action>, k: nat): nat
    requires Trace(n, ss, acts) && k <= |acts|
  {
    if k == 0 then 0 else Successes(n, ss, acts, k - 1) + (if CasSucceeds(ss[k - 1], acts[k - 1]) then 1 else 0)
  }

  lemma StepStale(s: State, a: Action)
    requires Enabled(s, a) && Safe(s, a) && !CasSucceeds(s, a)
    ensures var s' := Apply(s, a);
            StaleCount(s'.top, s'.locals) + (if CasFails(s, a) then 1 else 0) <= StaleCount(s.top, s.locals)
  {
    StaleUpdate(s.top, s.locals, a.t, Apply(s, a).locals[a.t]);
  }

  lemma SucceedsNotFails(s: State, a: Action)
    requires Enabled(s, a) && CasSucceeds(s, a)
    ensures !CasFails(s, a)
  {
  }

  lemma MulSucc(n: nat, k: nat)
    ensures n * (k + 1) == n * k + n
  {
  }

  /** The counts after one more step. */
  lemma CountsStep(n: nat, ss: seq<State>, acts: seq<Action>, k: nat)
    requires Trace(n, ss, acts) && 0 < k <= |acts|
    ensures Failures(n, ss, acts, k)
         == Failures(n, ss, acts, k - 1) + (if CasFails(ss[k - 1], acts[k - 1]) then 1 else 0)
    ensures Successes(n, ss, acts, k)
         == Successes(n, ss, acts, k - 1) + (if CasSucceeds(ss[k - 1], acts[k - 1]) then 1 else 0)
  {
    hide CasFails, CasSucceeds, Apply, Safe;
  }

  lemma {:induction false} StaleBudget(n: nat, ss: seq<State>, acts: seq<Action>, k: nat)
    requires Trace(n, ss, acts) && k <= |acts|
    ensures |ss[k].locals| == n
    ensures Failures(n, ss, acts, k) + StaleCount(ss[k].top, ss[k].locals) <= n * Successes(n, ss, acts, k)
  {
    if k == 0 {
      NoneStale(Null, ss[0].locals);
    } else {
      StaleBudget(n, ss, acts, k - 1);
      CountsStep(n, ss, acts, k);
      LocalsKept(ss[k - 1], acts[k - 1]);
      assert ss[k] == Apply(ss[k - 1], acts[k - 1]);
      if CasSucceeds(ss[k - 1], acts[k - 1]) {
        SucceedsNotFails(ss[k - 1], acts[k - 1]);
        hide *;
        BudgetGrows(n, Failures(n, ss, acts, k), StaleCount(ss[k - 1].top, ss[k - 1].locals), Successes(n, ss, acts, k - 1),
                    StaleCount(ss[k].top, ss[k].locals));
      } else {
        StepStale(ss[k - 1], acts[k - 1]);
        hide *;
      }
    }
  }

  /** A successful swap pays for every thread to fail once. */
  lemma BudgetGrows(n: nat, failed: nat, stale: nat, won: nat, stale1: nat)
    requires failed + stale <= n * won && stale1 <= n
    ensures failed + stale1 <= n * (won + 1)
  {
    MulSucc(n, won);
  }

  lemma {:induction false} NoneStale(top: Ptr, ls: seq<Local>)
    requires forall t :: 0 <= t < |ls| ==> ls[t].Idle?
    ensures StaleCount(top, ls) == 0
  {
    if ls != [] {
      NoneStale(top, ls[1..]);
    }
  }

  /** Over any run of n threads, compare-and-swaps fail at most n times as often as they succeed. */
  lemma RetriesAreBounded(n: nat, ss: seq<State>, acts: seq<Action>)
    requires Trace(n, ss, acts)
    ensures Failures(n, ss, acts, |acts|) <= n * Successes(n, ss, acts, |acts|)
  {
    StaleBudget(n, ss, acts, |acts|);
  }

  /** Steps to the return if no compare-and-swap fails on the way. */
  function StepsLeft(l: Local): nat {
    match l
    case Idle => 0
    case PushAlloc(_) => 5
    case PushLoad(_, _) => 4
    case PushLink(_, _, _) => 3
    case PushCas(_, _, _) => 2
    case PushReturn(_) => 1
    case PopLoad => 5
    case PopNext(_) => 4
    case PopCas(_, _) => 3
    case PopData(_) => 2
    case PopReturn(_) => 1
  }

  /** Whether the operation can still have its successful compare-and-swap. */
  function CanWin(l: Local): nat {
    if l.PushAlloc? || OwnsNode(l) || l.PopLoad? || l.PopNext? || l.PopCas? then 1 else 0
  }

  function AllLeft(ls: seq<Local>): nat {
    if ls == [] then 0 else StepsLeft(ls[0]) + AllLeft(ls[1..])
  }

  function AllWins(ls: seq<Local>): nat {
    if ls == [] then 0 else CanWin(ls[0]) + AllWins(ls[1..])
  }

  lemma {:induction false} LeftUpdate(ls: seq<Local>, t: nat, l: Local)
    requires t < |ls|
    ensures AllLeft(ls[t := l]) + StepsLeft(ls[t]) == AllLeft(ls) + StepsLeft(l)
    ensures AllWins(ls[t := l]) + CanWin(ls[t]) == AllWins(ls) + CanWin(l)
  {
    hide StepsLeft, CanWin;
    if t == 0 {
      assert ls[t := l][1..] == ls[1..];
    } else {
      assert ls[t := l][1..] == ls[1..][t - 1 := l];
      LeftUpdate(ls[1..], t - 1, l);
    }
  }

  lemma {:induction false} NoneLeft(ls: seq<Local>)
    requires forall t :: 0 <= t < |ls| ==> ls[t].Idle?
    ensures AllLeft(ls) == 0 && AllWins(ls) == 0
  {
    if ls != [] {
      NoneLeft(ls[1..]);
    }
  }

  /** Operations called among the first k steps. */
  function Calls(acts: seq<Action>, k: nat): nat
    requires k <= |acts|
  {
    if k == 0 then 0 else Calls(acts, k - 1) + (if acts[k - 1].Call? then 1 else 0)
  }

  /** A step uses up one of its operation's steps; only a call, or a failed compare-and-swap, provides new ones. */
  lemma StepProgress(s: State, a: Action)
    requires Enabled(s, a) && Safe(s, a)
    ensures var l, l' := s.locals[a.t], Apply(s, a).locals[a.t];
            && 1 + StepsLeft(l') <= StepsLeft(l) + (if a.Call? then 6 else 0) + (if CasFails(s, a) then 3 else 0)
            && (if CasSucceeds(s, a) then 1 else 0) + CanWin(l') <= CanWin(l) + (if a.Call? then 1 else 0)
  {
  }

  /** One step, summed over all threads. */
  lemma SumProgress(s: State, a: Action)
    requires Enabled(s, a) && Safe(s, a)
    ensures var s1 := Apply(s, a);
            && 1 + AllLeft(s1.locals) <= AllLeft(s.locals) + (if a.Call? then 6 else 0) + (if CasFails(s, a) then 3 else 0)
            && (if CasSucceeds(s, a) then 1 else 0) + AllWins(s1.locals) <= AllWins(s.locals) + (if a.Call? then 1 else 0)
  {
    var l := Apply(s, a).locals[a.t];
    StepProgress(s, a);
    LocalsKept(s, a);
    assert Apply(s, a).locals == s.locals[a.t := l];
    hide CasSucceeds, CasFails, Apply, Safe, AllLeft, AllWins, StepsLeft, CanWin;
    LeftUpdate(s.locals, a.t, l);
  }

  lemma {:induction false} StepsSoFar(n: nat, ss: seq<State>, acts: seq<Action>, k: nat)
    requires Trace(n, ss, acts) && k <= |acts|
    ensures k + AllLeft(ss[k].locals) <= 6 * Calls(acts, k) + 3 * Failures(n, ss, acts, k)
    ensures Successes(n, ss, acts, k) + AllWins(ss[k].locals) <= Calls(acts, k)
  {
    if k == 0 {
      NoneLeft(ss[0].locals);
    } else {
      StepsSoFar(n, ss, acts, k - 1);
      CountsStep(n, ss, acts, k);
      CallsStep(acts, k);
      assert ss[k] == Apply(ss[k - 1], acts[k - 1]);
      SumProgress(ss[k - 1], acts[k - 1]);
      hide *;
    }
  }

  lemma CallsStep(acts: seq<Action>, k: nat)
    requires 0 < k <= |acts|
    ensures Calls(acts, k) == Calls(acts, k - 1) + (if acts[k - 1].Call? then 1 else 0)
  {
  }

  lemma Distribute(calls: nat, n: nat, wins: nat)
    requires wins <= calls
    ensures 6 * calls + 3 * (n * wins) <= (6 + 3 * n) * calls
  {
    assert n * wins <= n * calls by { MulOrder(n, wins, calls); }
    assert (6 + 3 * n) * calls == 6 * calls + 3 * (n * calls);
  }

  lemma {:induction false} MulOrder(n: nat, x: nat, y: nat)
    requires x <= y
    ensures n * x <= n * y
  {
    if x < y {
      MulOrder(n, x, y - 1);
      MulSucc(n, y - 1);
    }
  }

  /** Lock freedom: threads cannot keep each other from finishing.  Whatever the schedule, the steps of a run are
      bounded by the operations called and the swaps that took effect, and so by the operations alone: with
      finitely many calls, every schedule ends. */
  lemma LockFreedom(n: nat, ss: seq<State>, acts: seq<Action>)
    requires Trace(n, ss, acts)
    ensures Successes(n, ss, acts, |acts|) <= Calls(acts, |acts|)
    ensures |acts| <= 6 * Calls(acts, |acts|) + 3 * (n * Successes(n, ss, acts, |acts|))
    ensures |acts| <= (6 + 3 * n) * Calls(acts, |acts|)
  {
    hide Failures, Successes, Calls;
    StepsSoFar(n, ss, acts, |acts|);
    RetriesAreBounded(n, ss, acts);
    Distribute(Calls(acts, |acts|), n, Successes(n, ss, acts, |acts|));
  }

  // ---------------------------------------------------------------------------------------------
  // The program itself: `top` and the nodes updated in place
  // ---------------------------------------------------------------------------------------------

  class ConcurrentStack {
    var top: Ptr
    var heap: seq<Node>
    const locals: array<Local>

    function View(): State
      reads this, locals
    {
      State(heap, top, locals[..])
    }

    constructor (n: nat)
      ensures View() == Init(n) && fresh(locals)
    {
      top, heap := Null, [];
      locals := new Local[n](_ => Idle);
    }

    method CompareAndSwap(oldTop: Ptr, newTop: Ptr) returns (swapped: bool)
      modifies this`top
      ensures swapped == (old(top) == oldTop)
      ensures top == if swapped then newTop else old(top)
    {
      swapped := top == oldTop;
      if swapped {
        top := newTop;
      }
    }

    /** `new node(val)`. */
    method NewNode(val: int) returns (node: nat)
      modifies this`heap
      ensures node == old(|heap|) && heap == old(heap) + [Node(val, Null)]
    {
      node := |heap|;
      heap := heap + [Node(val, Null)];
    }

    /** One step of one thread. */
    method StepThread(a: Action)
      requires Enabled(View(), a) && Safe(View(), a)
      modifies this`top, this`heap, locals
      ensures View() == Apply(old(View()), a)
    {
      match locals[a.t] {
        case Idle =>
          locals[a.t] := if a.op.Push? then PushAlloc(a.op.val) else PopLoad;
        case PushAlloc(val) =>
          var node := NewNode(val);
          locals[a.t] := PushLoad(val, node);
        case PushLoad(val, node) =>
          locals[a.t] := PushLink(val, node, top);
        case PushLink(val, node, oldTop) =>
          heap := heap[node := heap[node].(next := oldTop)];
          locals[a.t] := PushCas(val, node, oldTop);
        case PushCas(val, node, oldTop) =>
          var swapped := CompareAndSwap(oldTop, At(node));
          locals[a.t] := if swapped then PushReturn(val) else PushLoad(val, node);
        case PushReturn(_) =>
          locals[a.t] := Idle;
        case PopLoad =>
          locals[a.t] := if top.Null? then PopReturn(Empty) else PopNext(top.addr);
        case PopNext(o) =>
          locals[a.t] := PopCas(o, heap[o].next);
        case PopCas(o, next) =>
          var swapped := CompareAndSwap(At(o), next);
          locals[a.t] := if swapped then PopData(o) else PopLoad;
        case PopData(o) =>
          locals[a.t] := PopReturn(Popped(heap[o].data));
        case PopReturn(_) =>
          locals[a.t] := Idle;
      }
    }
  }
}
