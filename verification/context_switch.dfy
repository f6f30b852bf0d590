/** The context switch of cpu/my_coroutine.c: swap_context on the x86-64 registers, and coroutine_new,
    coroutine_resume and coroutine_yield around it.

    Whatever the running code does between two switches is arbitrary: it may leave any values in its registers
    and any memory, but it does not write the saved register blocks of other contexts. */
module ContextSwitch {

  const TWO64 := 0x1_0000_0000_0000_0000

  type Word = w: int | 0 <= w < TWO64

  /** 64-bit address arithmetic. */
  function Offset(w: Word, n: int): Word {
    (w + n) % TWO64
  }

  lemma OffsetBack(w: Word, n: int)
    ensures Offset(Offset(w, -n), n) == w
  {
  }

  /** struct cpu_context: void *reg[8]. */
  type Context = array<Word>

  const STACK_SIZE: Word := 0x8000

  /** The registers a function may rely on after a call returns: the callee-saved ones, and where it is. */
  datatype Frame = Frame(r12: Word, r13: Word, r14: Word, r15: Word, rip: Word, rsp: Word, rbx: Word, rbp: Word)

  /** A frame in the layout of struct cpu_context. */
  function Layout(f: Frame): seq<Word> {
    [f.r12, f.r13, f.r14, f.r15, f.rip, f.rsp, f.rbx, f.rbp]
  }

  /** One switch: context `out` stopped with frame `left` due to it, and `into` went on with frame `got`. */
  datatype Switch = Switch(out: nat, left: Frame, into: nat, got: Frame)

  /** What a context is due to continue with: its frame at its last switch-out, or the one it was created with. */
  function Due(evs: seq<Switch>, created: seq<Frame>, c: nat): Frame
    requires c < |created|
    decreases evs
  {
    if evs == [] then created[c]
    else if evs[|evs| - 1].out == c then evs[|evs| - 1].left
    else Due(evs[..|evs| - 1], created, c)
  }

  /** Every switch continues the context it goes to with the frame that context is due, and switches follow one
      another: main first, then from main to a coroutine and from a coroutine to main. */
  ghost predicate RoundTrips(evs: seq<Switch>, created: seq<Frame>)
    decreases evs
  {
    evs == [] ||
    var n := |evs| - 1;
    var s := evs[n];
    && s.out == (if n == 0 then 0 else evs[n - 1].into)
    && (s.out == 0 <==> s.into != 0) && s.into < |created|
    && s.got == Due(evs[..n], created, s.into)
    && RoundTrips(evs[..n], created)
  }

  /** The coroutine that takes part in a switch: the one resumed, or the one that yields. */
  function Resumed(s: Switch): nat {
    if s.into != 0 then s.into else s.out
  }

  lemma {:induction false} RoundTripsAt(evs: seq<Switch>, created: seq<Frame>, i: nat)
    requires RoundTrips(evs, created) && i < |evs|
    ensures evs[i].into < |created| && evs[i].got == Due(evs[..i], created, evs[i].into)
    decreases evs
  {
    var n := |evs| - 1;
    if i < n {
      RoundTripsAt(evs[..n], created, i);
      assert evs[..n][..i] == evs[..i];
    }
  }

  lemma {:induction false} DueSince(evs: seq<Switch>, created: seq<Frame>, c: nat, i: nat)
    requires c < |created| && i < |evs| && evs[i].out == c
    requires forall k :: i < k < |evs| ==> evs[k].out != c
    ensures Due(evs, created, c) == evs[i].left
    decreases evs
  {
    var n := |evs| - 1;
    if i < n {
      assert evs[n].out != c;
      DueSince(evs[..n], created, c, i);
    }
  }

  /** A context switched out at i and next switched in at j goes on as if swap_context had simply returned. */
  lemma ContinuesWhereItLeft(evs: seq<Switch>, created: seq<Frame>, i: nat, j: nat)
    requires RoundTrips(evs, created) && i < j < |evs| && evs[i].out == evs[j].into
    requires forall k :: i < k < j ==> evs[k].out != evs[i].out
    ensures evs[j].got == evs[i].left
  {
    RoundTripsAt(evs, created, j);
    DueSince(evs[..j], created, evs[j].into, i);
  }

  /** The first time a context is switched in it starts from the frame it was created with. */
  lemma {:induction false} NeverLeft(evs: seq<Switch>, created: seq<Frame>, c: nat)
    requires c < |created| && forall k :: 0 <= k < |evs| ==> evs[k].out != c
    ensures Due(evs, created, c) == created[c]
    decreases evs
  {
    if evs != [] {
      assert evs[|evs| - 1].out != c;
      NeverLeft(evs[..|evs| - 1], created, c);
    }
  }

  lemma StartsAsCreated(evs: seq<Switch>, created: seq<Frame>, j: nat)
    requires RoundTrips(evs, created) && j < |evs|
    requires forall k :: 0 <= k < j ==> evs[k].out != evs[j].into
    ensures evs[j].into < |created| && evs[j].got == created[evs[j].into]
  {
    RoundTripsAt(evs, created, j);
    NeverLeft(evs[..j], created, evs[j].into);
  }

  lemma RoundTripsNext(evs: seq<Switch>, created: seq<Frame>, s: Switch)
    requires RoundTrips(evs, created)
    requires s.out == (if evs == [] then 0 else evs[|evs| - 1].into)
    requires (s.out == 0 <==> s.into != 0) && s.into < |created| && s.got == Due(evs, created, s.into)
    ensures RoundTrips(evs + [s], created)
  {
    assert (evs + [s])[..|evs|] == evs;
  }

  /** After a switch only the context that stopped is due something else. */
  lemma DueNext(evs: seq<Switch>, created: seq<Frame>, s: Switch, c: nat)
    requires c < |created|
    ensures Due(evs + [s], created, c) == if s.out == c then s.left else Due(evs, created, c)
  {
    assert (evs + [s])[..|evs|] == evs;
  }

  /** coroutine_new: entry point and stack top are set, the other saved registers hold what malloc left there. */
  method CoroutineNew(func: Word, stack: Word) returns (context: Context)
    ensures fresh(context) && context.Length == 8
    ensures exists f: Frame :: context[..] == Layout(f) && f.rip == func && f.rsp == Offset(stack, STACK_SIZE)
    ensures context[4] == func && context[5] as int == (stack + 32 * 1024) % 0x1_0000_0000_0000_0000
  {
    context := new Word[8];
    context[4] := func;
    context[5] := Offset(stack, STACK_SIZE);
    ghost var f := Frame(context[0], context[1], context[2], context[3], context[4], context[5], context[6], context[7]);
    assert context[..] == Layout(f);
  }

  /** What the running context did before its next switch: the registers it calls swap_context with, the return
      address that the call pushed, and the coroutine that main wants to resume. */
  datatype Turn = Turn(frame: Frame, to: nat)

  class Machine {
    var r12: Word
    var r13: Word
    var r14: Word
    var r15: Word
    var rbx: Word
    var rbp: Word
    var rsp: Word
    var rip: Word
    var memory: Word -> Word
    var current: nat                // sched->current
    const contexts: seq<Context>    // main_context, then the coroutines

    ghost predicate Valid()
    {
      && |contexts| >= 1
      && (forall i :: 0 <= i < |contexts| ==> contexts[i].Length == 8)
      && (forall i, j :: 0 <= i < j < |contexts| ==> contexts[i] != contexts[j])
    }

    constructor (contexts: seq<Context>)
      requires |contexts| >= 1 && forall i :: 0 <= i < |contexts| ==> contexts[i].Length == 8
      requires forall i, j :: 0 <= i < j < |contexts| ==> contexts[i] != contexts[j]
      ensures Valid() && this.contexts == contexts
    {
      this.contexts := contexts;
      r12, r13, r14, r15, rbx, rbp, rsp, rip := 0, 0, 0, 0, 0, 0, 0, 0;
      memory, current := _ => 0, 0;
    }

    ghost function Blocks(): set<Context> {
      set i | 0 <= i < |contexts| :: contexts[i]
    }

    /** The registers as they are. */
    ghost function Live(): Frame
      reads this
    {
      Frame(r12, r13, r14, r15, rip, rsp, rbx, rbp)
    }

    /** The registers as an ordinary return would leave them. */
    ghost function Returned(): Frame
      reads this
    {
      Frame(r12, r13, r14, r15, memory(rsp), Offset(rsp, 8), rbx, rbp)
    }

    /** swap_context, instruction by instruction. */
    method SwapContext(rdi: Context, rsi: Context)
      requires rdi.Length == 8 && rsi.Length == 8 && rdi != rsi
      modifies `r12, `r13, `r14, `r15, `rbx, `rbp, `rsp, `rip, rdi
      ensures rdi[..] == Layout(old(Returned()))
      ensures rdi[0] == old(r12) && rdi[1] == old(r13) && rdi[2] == old(r14) && rdi[3] == old(r15)
      ensures rdi[4] == old(memory(rsp)) && rdi[5] as int == old((rsp + 8) % 0x1_0000_0000_0000_0000)
      ensures rdi[6] == old(rbx) && rdi[7] == old(rbp)
      ensures Layout(Live()) == old(rsi[..])
      ensures r12 == old(rsi[0]) && r13 == old(rsi[1]) && r14 == old(rsi[2]) && r15 == old(rsi[3])
      ensures rip == old(rsi[4]) && rsp == old(rsi[5]) && rbx == old(rsi[6]) && rbp == old(rsi[7])
    {
      var rdx := memory(rsp);
      var rcx := Offset(rsp, 8);
      rdi[0] := r12;
      rdi[1] := r13;
      rdi[2] := r14;
      rdi[3] := r15;
      rdi[4] := rdx;
      rdi[5] := rcx;
      rdi[6] := rbx;
      rdi[7] := rbp;
      assert rdi[..] == Layout(old(Returned()));
      ghost var due := rsi[..];
      assert due == old(rsi[..]);
      r12 := rsi[0];
      r13 := rsi[1];
      r14 := rsi[2];
      r15 := rsi[3];
      var rax := rsi[4];
      rcx := rsi[5];
      rbx := rsi[6];
      rbp := rsi[7];
      rsp := rcx;
      rip := rax;
      assert Layout(Live()) == due;
    }

    /** coroutine_resume, called from main. */
    method CoroutineResume(co: nat)
      requires Valid() && 1 <= co < |contexts|
      modifies this, contexts[0]
      ensures current == co && Layout(Live()) == old(contexts[co][..])
      ensures contexts[0][..] == Layout(old(Returned()))
    {
      current := co;
      SwapContext(contexts[0], contexts[co]);
    }

    /** coroutine_yield, called from the current coroutine. */
    method CoroutineYield()
      requires Valid() && 1 <= current < |contexts|
      modifies this, contexts[current]
      ensures current == old(current) && Layout(Live()) == old(contexts[0][..])
      ensures contexts[current][..] == Layout(old(Returned()))
    {
      SwapContext(contexts[current], contexts[0]);
    }

    /** The running context does its work and calls: registers and stack hold what it left there. */
    method Work(f: Frame)
      modifies this
      ensures Returned() == f && current == old(current)
    {
      r12, r13, r14, r15, rbx, rbp := f.r12, f.r13, f.r14, f.r15, f.rbx, f.rbp;
      rsp := Offset(f.rsp, -8);
      OffsetBack(f.rsp, 8);
      memory := _ => f.rip;
    }

    /** Every context but the running one has in its block the frame it is due. */
    ghost predicate Suspended(evs: seq<Switch>, created: seq<Frame>, running: nat)
      requires Valid() && |created| == |contexts|
      reads this, Blocks()
    {
      forall c :: 0 <= c < |contexts| && c != running ==> contexts[c][..] == Layout(Due(evs, created, c))
    }

    /** One turn: the running context works, then main resumes a coroutine or the coroutine yields. */
    method TakeTurn(t: Turn, inMain: bool, ghost evs: seq<Switch>, ghost created: seq<Frame>) returns (ghost s: Switch)
      requires Valid() && |created| == |contexts| && 1 <= t.to < |contexts|
      requires inMain || 1 <= current < |contexts|
      requires Suspended(evs, created, if inMain then 0 else current)
      modifies this, Blocks()
      ensures s.out == (if inMain then 0 else old(current)) && s.left == t.frame
      ensures s.into == (if inMain then t.to else 0) && s.got == Due(evs, created, s.into)
      ensures current == (if inMain then t.to else old(current)) && Live() == s.got
      ensures Suspended(evs + [s], created, s.into)
    {
      hide Due;
      ghost var out := if inMain then 0 else current;
      ghost var into := if inMain then t.to else 0;
      ghost var due := Due(evs, created, into);
      Work(t.frame);
      assert contexts[into][..] == Layout(due);
      if inMain {
        CoroutineResume(t.to);
      } else {
        CoroutineYield();
      }
      s := Switch(out, t.frame, into, Live());
      forall c | 0 <= c < |contexts| && c != into ensures contexts[c][..] == Layout(Due(evs + [s], created, c)) {
        DueNext(evs, created, s, c);
      }
    }

    /** At first every context is due the frame it was created with. */
    lemma AllAsCreated(created: seq<Frame>)
      requires Valid() && |created| == |contexts|
      requires forall c :: 0 <= c < |contexts| ==> contexts[c][..] == Layout(created[c])
      ensures Suspended([], created, 0)
    {
      forall c | 0 <= c < |contexts| ensures Due([], created, c) == created[c] {
        NeverLeft([], created, c);
      }
    }

    /** Any interleaving of resumes from main and yields from the coroutines. */
    method RunSwitches(turns: seq<Turn>, ghost created: seq<Frame>) returns (ghost evs: seq<Switch>)
      requires Valid() && |created| == |contexts|
      requires forall c :: 0 <= c < |contexts| ==> contexts[c][..] == Layout(created[c])
      requires forall i :: 0 <= i < |turns| ==> 1 <= turns[i].to < |contexts|
      modifies this, Blocks()
      ensures |evs| == |turns| && RoundTrips(evs, created)
      ensures forall i :: 0 <= i < |turns| ==> evs[i].left == turns[i].frame
      ensures forall i :: 0 <= i < |turns| && evs[i].out == 0 ==> evs[i].into == turns[i].to
      ensures turns != [] ==> Live() == evs[|evs| - 1].got && current == Resumed(evs[|evs| - 1])
      ensures Suspended(evs, created, if evs == [] then 0 else evs[|evs| - 1].into)
    {
      hide RoundTrips, Due, Layout, Suspended, Obey, Valid, Blocks, Offset;
      evs := [];
      var inMain := true;
      var k := 0;
      RoundTripsNone(created);
      AllAsCreated(created);
      ObeyNone(turns);
      while k < |turns|
        invariant 0 <= k <= |turns| && |evs| == k && RoundTrips(evs, created)
        invariant inMain || 1 <= current < |contexts|
        invariant (if inMain then 0 else current) == if evs == [] then 0 else evs[k - 1].into
        invariant Suspended(evs, created, if inMain then 0 else current)
        invariant Obey(evs, turns)
        invariant k > 0 ==> Live() == evs[k - 1].got && current == Resumed(evs[k - 1])
      {
        ghost var s := TakeTurn(turns[k], inMain, evs, created);
        RoundTripsNext(evs, created, s);
        ObeyNext(evs, turns, s);
        evs := evs + [s];
        inMain := !inMain;
        k := k + 1;
      }
      ObeyAll(evs, turns);
    }
  }

  /** Every switch so far saves what its turn left, and a switch from main goes where its turn says. */
  ghost predicate Obey(evs: seq<Switch>, turns: seq<Turn>) {
    && |evs| <= |turns|
    && forall i :: 0 <= i < |evs| ==> evs[i].left == turns[i].frame && (evs[i].out == 0 ==> evs[i].into == turns[i].to)
  }

  lemma ObeyNone(turns: seq<Turn>)
    ensures Obey([], turns)
  {
  }

  lemma ObeyNext(evs: seq<Switch>, turns: seq<Turn>, s: Switch)
    requires Obey(evs, turns) && |evs| < |turns|
    requires s.left == turns[|evs|].frame && (s.out == 0 ==> s.into == turns[|evs|].to)
    ensures Obey(evs + [s], turns)
  {
  }

  lemma ObeyAll(evs: seq<Switch>, turns: seq<Turn>)
    requires Obey(evs, turns) && |evs| == |turns|
    ensures forall i :: 0 <= i < |turns| ==> evs[i].left == turns[i].frame
    ensures forall i :: 0 <= i < |turns| && evs[i].out == 0 ==> evs[i].into == turns[i].to
  {
  }

  lemma RoundTripsNone(created: seq<Frame>)
    ensures RoundTrips([], created)
  {
  }
}
