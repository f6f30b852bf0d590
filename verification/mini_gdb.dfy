/** Breakpoints and stepping in basic/mini-gdb/src/breakpoint.rs and basic/mini-gdb/src/debugger.rs.

    The debuggee is a processor over a code memory that the debugger patches through 8-byte peeks and pokes.
    The processor executes the bytes it finds; an int3 byte (0xcc) traps with the pc just behind it. */
module MiniGdb {

  const INT3: bv8 := 0xcc
  const SI_KERNEL := 128
  const TRAP_BRKPT := 1
  const TRAP_TRACE := 2

  // ---------------------------------------------------------------------------------------------
  // Words and bytes
  // ---------------------------------------------------------------------------------------------

  /** The 8-byte little-endian word ptrace transfers. */
  function Word(b0: bv8, b1: bv8, b2: bv8, b3: bv8, b4: bv8, b5: bv8, b6: bv8, b7: bv8): bv64 {
    (b0 as bv64) | ((b1 as bv64) << 8) | ((b2 as bv64) << 16) | ((b3 as bv64) << 24)
    | ((b4 as bv64) << 32) | ((b5 as bv64) << 40) | ((b6 as bv64) << 48) | ((b7 as bv64) << 56)
  }

  function Low(w: bv64): bv8 {
    (w & 0xff) as bv8
  }

  /** Replacing the low-order byte of a word leaves the seven bytes above it alone. */
  lemma ReplaceLow(b0: bv8, b1: bv8, b2: bv8, b3: bv8, b4: bv8, b5: bv8, b6: bv8, b7: bv8, b: bv8)
    ensures var w := Word(b0, b1, b2, b3, b4, b5, b6, b7);
            var w' := (w & !0xff) | (b as bv64);
            && Low(w) == b0 && Low(w') == b
            && Low(w' >> 8) == b1 && Low(w' >> 16) == b2 && Low(w' >> 24) == b3 && Low(w' >> 32) == b4
            && Low(w' >> 40) == b5 && Low(w' >> 48) == b6 && Low(w' >> 56) == b7
  {
  }

  /** Memory after a word is stored at addr. */
  function Poked(m: seq<bv8>, addr: nat, w: bv64): (r: seq<bv8>)
    requires addr + 8 <= |m|
    ensures |r| == |m|
  {
    m[addr := Low(w)][addr + 1 := Low(w >> 8)][addr + 2 := Low(w >> 16)][addr + 3 := Low(w >> 24)]
     [addr + 4 := Low(w >> 32)][addr + 5 := Low(w >> 40)][addr + 6 := Low(w >> 48)][addr + 7 := Low(w >> 56)]
  }

  function Peeked(m: seq<bv8>, addr: nat): bv64
    requires addr + 8 <= |m|
  {
    Word(m[addr], m[addr + 1], m[addr + 2], m[addr + 3], m[addr + 4], m[addr + 5], m[addr + 6], m[addr + 7])
  }

  /** Reading a word, replacing its low-order byte and writing it back changes one byte of memory. */
  lemma PatchByte(m: seq<bv8>, addr: nat, b: bv8)
    requires addr + 8 <= |m|
    ensures Low(Peeked(m, addr)) == m[addr]
    ensures Poked(m, addr, (Peeked(m, addr) & !0xff) | (b as bv64)) == m[addr := b]
  {
    ReplaceLow(m[addr], m[addr + 1], m[addr + 2], m[addr + 3], m[addr + 4], m[addr + 5], m[addr + 6], m[addr + 7], b);
    RestoreSeven(m, addr, b, m[addr + 1], m[addr + 2], m[addr + 3], m[addr + 4], m[addr + 5], m[addr + 6], m[addr + 7]);
  }

  lemma RestoreSeven(m: seq<bv8>, a: nat, b: bv8, b1: bv8, b2: bv8, b3: bv8, b4: bv8, b5: bv8, b6: bv8, b7: bv8)
    requires a + 8 <= |m|
    requires m[a + 1] == b1 && m[a + 2] == b2 && m[a + 3] == b3 && m[a + 4] == b4
    requires m[a + 5] == b5 && m[a + 6] == b6 && m[a + 7] == b7
    ensures m[a := b][a + 1 := b1][a + 2 := b2][a + 3 := b3][a + 4 := b4][a + 5 := b5][a + 6 := b6][a + 7 := b7] == m[a := b]
  {
  }

  // ---------------------------------------------------------------------------------------------
  // The processor and the native run
  // ---------------------------------------------------------------------------------------------

  /** Program counter, other registers, and data memory. */
  datatype Cpu = Cpu(pc: nat, regs: map<nat, bv64>, data: map<nat, bv8>)

  /** An instruction set: the length of the instruction at the start of a byte sequence, its effect, and whether the
      kernel reports a single step over it with the code of a breakpoint, as it does for system calls. */
  datatype Isa = Isa(len: seq<bv8> -> nat, exec: (seq<bv8>, Cpu) -> Cpu, brkpt: seq<bv8> -> bool)

  /** The instruction at the pc, if the memory holds all of it. */
  predicate CanFetch(isa: Isa, mem: seq<bv8>, pc: nat) {
    pc < |mem| && 1 <= isa.len(mem[pc..]) <= |mem| - pc
  }

  function Fetch(isa: Isa, mem: seq<bv8>, pc: nat): seq<bv8>
    requires CanFetch(isa, mem, pc)
  {
    mem[pc..pc + isa.len(mem[pc..])]
  }

  /** A single step of the instruction at pc is reported as TRAP_BRKPT. */
  predicate SaysBrkpt(isa: Isa, mem: seq<bv8>, pc: nat) {
    CanFetch(isa, mem, pc) && isa.brkpt(Fetch(isa, mem, pc))
  }

  /** pc - 1 in a 64-bit register. */
  function Rewind(pc: nat): (r: nat)
    ensures r != pc
  {
    if pc > 0 then pc - 1 else 0xffff_ffff_ffff_ffff
  }

  /** Instruction lengths are determined by the instruction's own bytes. */
  ghost predicate SelfDelimiting(isa: Isa) {
    forall a: seq<bv8>, b: seq<bv8> ::
      1 <= isa.len(a) <= |a| && isa.len(a) <= |b| && a[..isa.len(a)] == b[..isa.len(a)] ==> isa.len(b) == isa.len(a)
  }

  /** A program: its code, its instruction starts, and the state it starts in. */
  datatype Program = Program(isa: Isa, code: seq<bv8>, starts: set<nat>, entry: Cpu)

  /** Instructions do not overlap, contain no int3 of their own, and have a mapped word at their start. */
  ghost predicate WellFormed(p: Program) {
    && SelfDelimiting(p.isa)
    && (forall a :: a in p.starts ==> a + 8 <= |p.code| && CanFetch(p.isa, p.code, a) && p.code[a] != INT3)
    && (forall a, b :: a in p.starts && b in p.starts ==> !(a < b < a + p.isa.len(p.code[a..])))
    && (forall k: nat :: Native(p, k).pc in p.starts)
  }

  /** Such programs exist: one that runs a one-byte instruction for ever. */
  lemma SomeProgram() returns (p: Program)
    ensures WellFormed(p) && p.starts != {}
  {
    var nop: bv8 := 0x90;
    p := Program(Isa(b => 1, (b, cpu) => cpu, b => false), [nop, nop, nop, nop, nop, nop, nop, nop], {0}, Cpu(0, map[], map[]));
    forall k: nat ensures Native(p, k).pc in p.starts {
      StaysPut(p, k);
    }
  }

  /** And so do some with a step that is reported as a breakpoint. */
  lemma SomeMisreportedStep() returns (p: Program)
    ensures WellFormed(p) && Misreported(p, 0)
  {
    var sys: bv8 := 0x0f;
    p := Program(Isa(b => 1, (b, cpu) => cpu, b => true), [sys, sys, sys, sys, sys, sys, sys, sys], {0}, Cpu(0, map[], map[]));
    forall k: nat ensures Native(p, k).pc in p.starts {
      StaysPut(p, k);
    }
  }

  lemma {:induction false} StaysPut(p: Program, k: nat)
    requires forall b, cpu :: p.isa.exec(b, cpu) == cpu
    ensures Native(p, k) == p.entry
  {
    if k > 0 {
      StaysPut(p, k - 1);
    }
  }

  function Execute(isa: Isa, mem: seq<bv8>, cpu: Cpu): Cpu {
    if CanFetch(isa, mem, cpu.pc) then isa.exec(Fetch(isa, mem, cpu.pc), cpu) else cpu
  }

  /** The state after k instructions without a debugger. */
  function Native(p: Program, k: nat): Cpu {
    if k == 0 then p.entry else Execute(p.isa, p.code, Native(p, k - 1))
  }

  /** The code with int3 at the addresses `on`. */
  ghost predicate Overlay(code: seq<bv8>, on: set<nat>, mem: seq<bv8>) {
    && |mem| == |code|
    && forall i :: 0 <= i < |code| ==> mem[i] == if i in on then INT3 else code[i]
  }

  lemma StartFacts(p: Program, a: nat)
    requires WellFormed(p) && a in p.starts
    ensures a + 8 <= |p.code| && CanFetch(p.isa, p.code, a) && p.code[a] != INT3
    ensures forall b :: b in p.starts ==> !(a < b < a + p.isa.len(p.code[a..]))
  {
  }

  /** A breakpoint elsewhere does not disturb the instruction at the pc. */
  lemma SameInstruction(p: Program, on: set<nat>, mem: seq<bv8>, cpu: Cpu)
    requires WellFormed(p) && Overlay(p.code, on, mem) && on <= p.starts
    requires cpu.pc in p.starts && cpu.pc !in on
    ensures mem[cpu.pc] != INT3
    ensures Execute(p.isa, mem, cpu) == Execute(p.isa, p.code, cpu)
    ensures SaysBrkpt(p.isa, mem, cpu.pc) == SaysBrkpt(p.isa, p.code, cpu.pc)
  {
    StartFacts(p, cpu.pc);
    SameFetch(p.isa, p.code, mem, on, cpu.pc);
  }

  /** What the processor does next on the patched memory, at step k of the native run. */
  lemma NextStep(p: Program, on: set<nat>, mem: seq<bv8>, cpu: Cpu, k: nat)
    requires WellFormed(p) && Overlay(p.code, on, mem) && on <= p.starts && cpu == Native(p, k)
    ensures cpu.pc in p.starts && cpu.pc + 8 <= |mem|
    ensures cpu.pc in on ==> mem[cpu.pc] == INT3
    ensures cpu.pc !in on ==> mem[cpu.pc] != INT3 && Execute(p.isa, mem, cpu) == Native(p, k + 1)
    ensures cpu.pc !in on ==> SaysBrkpt(p.isa, mem, cpu.pc) == SaysBrkpt(p.isa, p.code, cpu.pc)
  {
    assert Native(p, k).pc in p.starts;
    StartFacts(p, cpu.pc);
    if cpu.pc !in on {
      SameInstruction(p, on, mem, cpu);
    }
  }

  lemma SameFetch(isa: Isa, code: seq<bv8>, mem: seq<bv8>, on: set<nat>, pc: nat)
    requires SelfDelimiting(isa) && Overlay(code, on, mem) && CanFetch(isa, code, pc)
    requires forall b :: b in on ==> !(pc <= b < pc + isa.len(code[pc..]))
    ensures CanFetch(isa, mem, pc) && Fetch(isa, mem, pc) == Fetch(isa, code, pc) && mem[pc] == code[pc]
  {
    hide SelfDelimiting;
    var n := isa.len(code[pc..]);
    forall i | pc <= i < pc + n ensures mem[i] == code[i] {
    }
    SameLength(isa, code[pc..], mem[pc..], n);
    assert mem[pc..pc + n] == code[pc..pc + n];
  }

  lemma SameLength(isa: Isa, a: seq<bv8>, b: seq<bv8>, n: nat)
    requires SelfDelimiting(isa) && 1 <= n == isa.len(a) <= |a| == |b|
    requires forall i :: 0 <= i < n ==> a[i] == b[i]
    ensures isa.len(b) == n
  {
    assert a[..n] == b[..n];
  }

  // ---------------------------------------------------------------------------------------------
  // The debuggee
  // ---------------------------------------------------------------------------------------------

  class Process {
    const isa: Isa
    const mem: array<bv8>
    var cpu: Cpu

    constructor (p: Program)
      ensures isa == p.isa && cpu == p.entry && mem[..] == p.code && fresh(mem)
    {
      isa, cpu := p.isa, p.entry;
      mem := new bv8[|p.code|](i requires 0 <= i < |p.code| => p.code[i]);
    }

    /** PTRACE_PEEKDATA. */
    method Peek(addr: nat) returns (w: bv64)
      requires addr + 8 <= mem.Length
      ensures w == Peeked(mem[..], addr)
    {
      hide Word;
      w := Word(mem[addr], mem[addr + 1], mem[addr + 2], mem[addr + 3],
                mem[addr + 4], mem[addr + 5], mem[addr + 6], mem[addr + 7]);
    }

    /** PTRACE_POKEDATA. */
    method Poke(addr: nat, w: bv64)
      requires addr + 8 <= mem.Length
      modifies mem
      ensures mem[..] == Poked(old(mem[..]), addr, w)
    {
      hide Low;
      mem[addr] := Low(w);
      mem[addr + 1] := Low(w >> 8);
      mem[addr + 2] := Low(w >> 16);
      mem[addr + 3] := Low(w >> 24);
      mem[addr + 4] := Low(w >> 32);
      mem[addr + 5] := Low(w >> 40);
      mem[addr + 6] := Low(w >> 48);
      mem[addr + 7] := Low(w >> 56);
    }

    /** The processor executes what it finds at the pc; an int3 traps with the pc behind it. */
    method Cycle() returns (trapped: bool)
      requires cpu.pc < mem.Length
      modifies this`cpu
      ensures trapped <==> old(mem[cpu.pc]) == INT3
      ensures cpu == if trapped then old(cpu).(pc := old(cpu.pc) + 1) else Execute(isa, mem[..], old(cpu))
    {
      trapped := mem[cpu.pc] == INT3;
      cpu := if trapped then cpu.(pc := cpu.pc + 1) else Execute(isa, mem[..], cpu);
    }

    /** PTRACE_SINGLESTEP followed by waitpid: the si_code of the SIGTRAP that stops the process. */
    method SingleStep() returns (code: int)
      requires cpu.pc < mem.Length
      modifies this`cpu
      ensures old(mem[cpu.pc]) == INT3 ==> code == SI_KERNEL && cpu == old(cpu).(pc := old(cpu.pc) + 1)
      ensures old(mem[cpu.pc]) != INT3 ==>
        code == (if SaysBrkpt(isa, mem[..], old(cpu.pc)) then TRAP_BRKPT else TRAP_TRACE) && cpu == Execute(isa, mem[..], old(cpu))
    {
      var step := if SaysBrkpt(isa, mem[..], cpu.pc) then TRAP_BRKPT else TRAP_TRACE;
      var trapped := Cycle();
      code := if trapped then SI_KERNEL else step;
    }
  }

  // ---------------------------------------------------------------------------------------------
  // Breakpoints
  // ---------------------------------------------------------------------------------------------

  class BreakPoint {
    const addr: nat
    var enabled: bool
    var saved_data: bv8

    constructor (addr: nat)
      ensures this.addr == addr && !enabled && saved_data == 0
    {
      this.addr := addr;
      enabled, saved_data := false, 0;
    }

    /** Changes exactly the byte at addr, though whole words are read and written. */
    method Enable(process: Process)
      requires addr + 8 <= process.mem.Length
      modifies this, process.mem
      ensures process.mem[..] == old(process.mem[..])[addr := INT3] && process.mem[addr] == 0xcc
      ensures saved_data == old(process.mem[addr]) && enabled
    {
      hide Low, Word, Peeked, Poked;
      var data := process.Peek(addr);
      saved_data := Low(data);
      var replaced_data := (data & !0xff) | (INT3 as bv64);
      PatchByte(process.mem[..], addr, INT3);
      process.Poke(addr, replaced_data);
      enabled := true;
    }

    method Disable(process: Process)
      requires addr + 8 <= process.mem.Length
      modifies this`enabled, process.mem
      ensures process.mem[..] == old(process.mem[..])[addr := saved_data]
      ensures !enabled
    {
      hide Low, Word, Peeked, Poked;
      var data := process.Peek(addr);
      var replaced_data := (data & !0xff) | (saved_data as bv64);
      PatchByte(process.mem[..], addr, saved_data);
      process.Poke(addr, replaced_data);
      enabled := false;
    }
  }

  // ---------------------------------------------------------------------------------------------
  // Debugger sessions, in terms of the native run
  // ---------------------------------------------------------------------------------------------

  datatype Command = SetBreak(addr: nat) | Continue | StepInstruction

  /** m is the first step after n at which the native run is at an address in bps. */
  ghost predicate IsNextStop(p: Program, bps: set<nat>, n: nat, m: nat) {
    && n < m
    && Native(p, m).pc in bps
    && forall j :: n < j < m ==> Native(p, j).pc !in bps
  }

  /** The debugger takes the step of the native run at n for a breakpoint when it single-steps it. */
  ghost predicate Misreported(p: Program, n: nat) {
    SaysBrkpt(p.isa, p.code, Native(p, n).pc)
  }

  /** A command the debugger is asked to perform at step n: a new breakpoint must be on an instruction start
      and fresh; a continue must reach a breakpoint, and not start by stepping over one on a misreported step. */
  ghost predicate Allowed(p: Program, bps: set<nat>, n: nat, c: Command) {
    match c
    case SetBreak(a) => a in p.starts && a !in bps
    case StepInstruction => true
    case Continue => (exists m :: IsNextStop(p, bps, n, m)) && !(Native(p, n).pc in bps && Misreported(p, n))
  }

  /** k is the native step count after the command. */
  ghost predicate CommandStep(p: Program, bps: set<nat>, n: nat, c: Command, k: nat) {
    match c
    case SetBreak(_) => k == n
    case StepInstruction => k == n + 1
    case Continue => IsNextStop(p, bps, n, k)
  }

  function BreaksAfter(bps: set<nat>, c: Command): set<nat> {
    if c.SetBreak? then bps + {c.addr} else bps
  }

  /** Every command of the sequence is allowed when its turn comes, and no `si` is on a misreported step. */
  ghost predicate Feasible(p: Program, bps: set<nat>, n: nat, cmds: seq<Command>)
    decreases cmds
  {
    cmds == [] ||
    (Allowed(p, bps, n, cmds[0]) && !(cmds[0].StepInstruction? && Misreported(p, n)) &&
     forall k :: CommandStep(p, bps, n, cmds[0], k) ==> Feasible(p, BreaksAfter(bps, cmds[0]), k, cmds[1..]))
  }

  lemma NextStopUnique(p: Program, bps: set<nat>, n: nat, m: nat, m': nat)
    requires IsNextStop(p, bps, n, m) && IsNextStop(p, bps, n, m')
    ensures m == m'
  {
  }

  /** ks is the native step count after each command of a session. */
  ghost predicate SessionSteps(p: Program, bps: set<nat>, n: nat, cmds: seq<Command>, ks: seq<nat>)
    decreases cmds
  {
    |ks| == |cmds| && (cmds == [] ||
    (CommandStep(p, bps, n, cmds[0], ks[0]) &&
     SessionSteps(p, BreaksAfter(bps, cmds[0]), ks[0], cmds[1..], ks[1..])))
  }

  function AllBreaks(bps: set<nat>, cmds: seq<Command>): set<nat>
    decreases cmds
  {
    if cmds == [] then bps else AllBreaks(BreaksAfter(bps, cmds[0]), cmds[1..])
  }

  lemma {:induction false} SessionSnoc(p: Program, bps: set<nat>, n: nat, cmds: seq<Command>, ks: seq<nat>, c: Command, k: nat)
    requires SessionSteps(p, bps, n, cmds, ks)
    requires CommandStep(p, AllBreaks(bps, cmds), if ks == [] then n else ks[|ks| - 1], c, k)
    ensures SessionSteps(p, bps, n, cmds + [c], ks + [k])
    ensures AllBreaks(bps, cmds + [c]) == BreaksAfter(AllBreaks(bps, cmds), c)
    decreases cmds
  {
    assert (cmds + [c])[1..] == if cmds == [] then [] else cmds[1..] + [c];
    assert (ks + [k])[1..] == if cmds == [] then [] else ks[1..] + [k];
    if cmds != [] {
      SessionSnoc(p, BreaksAfter(bps, cmds[0]), ks[0], cmds[1..], ks[1..], c, k);
    }
  }

  /** The first command of a feasible sequence is allowed, and the rest is feasible after it. */
  lemma FeasibleNext(p: Program, bps: set<nat>, n: nat, cmds: seq<Command>, i: nat)
    requires i < |cmds| && Feasible(p, bps, n, cmds[i..])
    ensures Allowed(p, bps, n, cmds[i]) && !(cmds[i].StepInstruction? && Misreported(p, n))
    ensures forall k :: CommandStep(p, bps, n, cmds[i], k) ==> Feasible(p, BreaksAfter(bps, cmds[i]), k, cmds[i + 1..])
  {
    hide Allowed, CommandStep, BreaksAfter;
    assert cmds[i..][1..] == cmds[i + 1..];
  }

  /** A session's steps are determined by its commands. */
  lemma {:induction false} SessionDeterministic(p: Program, bps: set<nat>, n: nat, cmds: seq<Command>, ks: seq<nat>, ks': seq<nat>)
    requires SessionSteps(p, bps, n, cmds, ks) && SessionSteps(p, bps, n, cmds, ks')
    ensures ks == ks'
    decreases cmds
  {
    if cmds != [] {
      if cmds[0].Continue? {
        NextStopUnique(p, bps, n, ks[0], ks'[0]);
      }
      SessionDeterministic(p, BreaksAfter(bps, cmds[0]), ks[0], cmds[1..], ks[1..], ks'[1..]);
      assert ks == [ks[0]] + ks[1..] && ks' == [ks'[0]] + ks'[1..];
    }
  }

  /** The stops of a session occur in order in the native run. */
  lemma {:induction false} SessionStepsInOrder(p: Program, bps: set<nat>, n: nat, cmds: seq<Command>, ks: seq<nat>)
    requires SessionSteps(p, bps, n, cmds, ks)
    ensures forall i :: 0 <= i < |ks| ==> n <= ks[i]
    ensures forall i, j :: 0 <= i < j < |ks| ==> ks[i] <= ks[j]
    decreases cmds
  {
    if cmds != [] {
      SessionStepsInOrder(p, BreaksAfter(bps, cmds[0]), ks[0], cmds[1..], ks[1..]);
      assert forall i :: 1 <= i < |ks| ==> ks[i] == ks[1..][i - 1];
    }
  }

  // ---------------------------------------------------------------------------------------------
  // The debugger
  // ---------------------------------------------------------------------------------------------

  class Debugger {
    const process: Process
    ghost const program: Program
    var break_points: map<nat, BreakPoint>
    ghost var steps: nat   // instructions the debuggee has executed

    /** The memory is the original code with int3 exactly at the breakpoints in `on`, and every saved byte is the
        original one. */
    ghost predicate Planted(on: set<nat>)
      reads `break_points, process.mem, break_points.Values
    {
      && WellFormed(program) && process.isa == program.isa
      && on <= break_points.Keys <= program.starts
      && Overlay(program.code, on, process.mem[..])
      && forall a :: a in break_points ==>
           var bp := break_points[a];
           bp.addr == a && bp.saved_data == program.code[a] && (bp.enabled <==> a in on)
    }

    /** Moreover the debuggee is where the native run is after `steps` instructions. */
    ghost predicate Patched(on: set<nat>)
      reads this, process, process.mem, break_points.Values
    {
      Planted(on) && process.cpu == Native(program, steps)
    }

    /** Between commands every breakpoint is enabled. */
    ghost predicate Ready()
      reads this, process, process.mem, break_points.Values
    {
      Patched(break_points.Keys)
    }

    /** The breakpoint at the pc has int3 as the byte to restore. */
    ghost predicate Jammed()
      reads this, process, process.mem, break_points.Values
    {
      var pc := process.cpu.pc;
      && pc in break_points && pc + 8 <= process.mem.Length && process.mem[pc] == INT3
      && break_points[pc].addr == pc && break_points[pc].saved_data == INT3
    }

    lemma ReadyNotJammed()
      requires Ready()
      ensures !Jammed()
    {
      hide Native;
      var pc := process.cpu.pc;
      if pc in break_points {
        StartFacts(program, pc);
      }
    }

    /** Where the debuggee is after n native instructions, if the last was single-stepped. */
    ghost function SteppedTo(n: nat): Cpu
      requires n > 0
    {
      var cpu := Native(program, n);
      if Misreported(program, n - 1) then cpu.(pc := Rewind(cpu.pc)) else cpu
    }

    constructor (p: Program)
      requires WellFormed(p)
      ensures Ready() && program == p && break_points == map[] && steps == 0 && fresh(process) && fresh(process.mem)
    {
      program, break_points, steps := p, map[], 0;
      process := new Process(p);
    }

    /** set_breakpoint.  The overlay survives exactly when the address is an instruction start that has no
        breakpoint yet: setting one twice saves the int3 as if it were the program's byte, and jams the debugger
        there. */
    method SetBreakpoint(addr: nat)
      requires Ready() && addr + 8 <= process.mem.Length
      modifies this`break_points, process.mem
      ensures process.mem[..] == old(process.mem[..])[addr := INT3]
      ensures addr in break_points && fresh(break_points[addr])
      ensures break_points == old(break_points)[addr := break_points[addr]]
      ensures break_points[addr].enabled && break_points[addr].saved_data == old(process.mem[addr])
      ensures Ready() <==> addr in program.starts && addr !in old(break_points)
      ensures addr in old(break_points) && addr == process.cpu.pc ==> Jammed()
    {
      hide WellFormed, Native, Execute, Fetch, CanFetch;
      ghost var was := process.mem[..];
      var bp := new BreakPoint(addr);
      bp.Enable(process);
      break_points := break_points[addr := bp];
      if addr in program.starts {
        StartFacts(program, addr);
        if addr in old(break_points) {
          assert was[addr] == INT3 && bp.saved_data != program.code[addr];
        } else {
          assert was[addr] == program.code[addr];
        }
      }
    }

    /** handle_sigtrap: behind an int3 the pc is set back onto it, and so it is wherever the kernel says TRAP_BRKPT. */
    method HandleSigtrap(si_code: int)
      modifies process`cpu
      ensures process.cpu == if si_code == SI_KERNEL || si_code == TRAP_BRKPT
                             then old(process.cpu).(pc := Rewind(old(process.cpu.pc))) else old(process.cpu)
      ensures old(process.cpu.pc) > 0 && si_code in {0x80, 1} ==> process.cpu.pc == old(process.cpu.pc) - 1
    {
      if si_code == SI_KERNEL || si_code == TRAP_BRKPT {
        process.cpu := process.cpu.(pc := Rewind(process.cpu.pc));
      }
    }

    /** PTRACE_SINGLESTEP and the wait, at an address where no breakpoint is enabled: the native run advances, but
        the pc stays with it exactly when the step is not reported as a breakpoint. */
    method SingleStepInstruction(ghost on: set<nat>)
      requires Patched(on) && process.cpu.pc !in on
      modifies this`steps, process`cpu
      ensures Planted(on) && steps == old(steps) + 1 && process.cpu == SteppedTo(steps)
      ensures Patched(on) <==> !Misreported(program, old(steps))
    {
      hide WellFormed, Native, Execute, Fetch, CanFetch, SaysBrkpt;
      NextStep(program, on, process.mem[..], process.cpu, steps);
      var si_code := process.SingleStep();
      HandleSigtrap(si_code);
      steps := steps + 1;
    }

    /** step_over_breakpoint: at a breakpoint, disable it, execute one instruction, enable it again.  Where the
        breakpoint is jammed nothing changes. */
    method StepOverBreakpoint()
      requires Ready() || Jammed()
      modifies this`steps, process`cpu, process.mem, break_points.Values
      ensures old(Ready()) ==>
        var hit := old(process.cpu.pc) in break_points;
        && Planted(break_points.Keys) && steps == old(steps) + (if hit then 1 else 0)
        && process.cpu == (if hit then SteppedTo(steps) else old(process.cpu))
        && (Ready() <==> !(hit && Misreported(program, old(steps))))
      ensures old(Jammed()) ==> Jammed() && process.cpu == old(process.cpu) && process.mem[..] == old(process.mem[..])
    {
      hide WellFormed, Native, Execute, Fetch, CanFetch, SaysBrkpt;
      var pc := process.cpu.pc;
      ghost var ready := Ready();
      if ready {
        ReadyNotJammed();
      }
      if pc in break_points {
        if ready {
          NextStep(program, break_points.Keys, process.mem[..], process.cpu, steps);
        }
        break_points[pc].Disable(process);
        if ready {
          assert Patched(break_points.Keys - {pc});
        }
        StepDisabled(ready, pc);
        break_points[pc].Enable(process);
      }
    }

    /** The single step in the middle of step_over_breakpoint. */
    method StepDisabled(ghost ready: bool, ghost pc: nat)
      requires pc == process.cpu.pc < process.mem.Length
      requires if ready then pc in break_points && Patched(break_points.Keys - {pc}) else process.mem[pc] == INT3
      modifies this`steps, process`cpu
      ensures ready ==> Planted(break_points.Keys - {pc}) && steps == old(steps) + 1 && process.cpu == SteppedTo(steps)
      ensures !ready ==> process.cpu == old(process.cpu)
    {
      hide WellFormed, Native, Execute, Fetch, CanFetch, SaysBrkpt;
      if ready {
        NextStep(program, break_points.Keys - {pc}, process.mem[..], process.cpu, steps);
      }
      var si_code := process.SingleStep();
      HandleSigtrap(si_code);
      if ready {
        steps := steps + 1;
      }
    }

    /** single_step_instruction_with_breakpoint_check: one native instruction.  The debugger stays with the native
        run exactly when the step is not misreported; where the breakpoint is jammed it never advances. */
    method StepInstructionWithCheck()
      requires Ready() || Jammed()
      modifies this`steps, process`cpu, process.mem, break_points.Values
      ensures old(Ready()) ==> Planted(break_points.Keys) && steps == old(steps) + 1 && process.cpu == SteppedTo(steps)
      ensures old(Ready()) ==> (Ready() <==> !Misreported(program, old(steps)))
      ensures old(Jammed()) ==> Jammed() && process.cpu == old(process.cpu) && process.mem[..] == old(process.mem[..])
    {
      hide WellFormed, Native, Execute, Fetch, CanFetch, SaysBrkpt;
      if process.cpu.pc in break_points {
        StepOverBreakpoint();
      } else {
        SingleStepInstruction(break_points.Keys);
      }
    }

    /** PTRACE_CONT and the wait: execute until an int3 traps.  m is the step at which that happens, unless the pc
        is at an int3 to begin with. */
    method ContinueToTrap(ghost jammed: bool, ghost m: nat) returns (si_code: int)
      requires if jammed then process.cpu.pc < process.mem.Length && process.mem[process.cpu.pc] == INT3
               else Ready() && steps <= m && Native(program, m).pc in break_points
      requires !jammed ==> forall j :: steps <= j < m ==> Native(program, j).pc !in break_points
      modifies this`steps, process`cpu
      ensures si_code == SI_KERNEL
      ensures jammed ==> process.cpu == old(process.cpu).(pc := old(process.cpu.pc) + 1)
      ensures !jammed ==> Planted(break_points.Keys) && steps == m
      ensures !jammed ==> process.cpu == Native(program, m).(pc := Native(program, m).pc + 1)
    {
      hide WellFormed, Native, Execute, Fetch, CanFetch, SaysBrkpt, Overlay;
      var trapped := false;
      while !trapped
        invariant jammed ==> process.cpu == old(process.cpu).(pc := old(process.cpu.pc) + if trapped then 1 else 0)
        invariant !jammed ==> steps <= m && Planted(break_points.Keys)
        invariant !jammed && !trapped ==> process.cpu == Native(program, steps)
        invariant !jammed && trapped ==> steps == m && process.cpu == Native(program, m).(pc := Native(program, m).pc + 1)
        decreases if jammed then 0 else m - steps, !trapped
      {
        if !jammed {
          NextStep(program, break_points.Keys, process.mem[..], process.cpu, steps);
        }
        trapped := process.Cycle();
        if !trapped {
          steps := steps + 1;
        }
      }
      return SI_KERNEL;
    }

    /** continue_execution: stops at the first breakpoint reached after at least one instruction; where the
        breakpoint is jammed it never leaves it. */
    method ContinueExecution()
      requires (Ready() && Allowed(program, break_points.Keys, steps, Continue)) || Jammed()
      modifies this`steps, process`cpu, process.mem, break_points.Values
      ensures old(Ready()) ==> Ready() && IsNextStop(program, break_points.Keys, old(steps), steps)
      ensures old(Jammed()) ==> Jammed() && process.cpu == old(process.cpu) && process.mem[..] == old(process.mem[..])
    {
      hide WellFormed, Native, Execute, Fetch, CanFetch, Misreported, Planted;
      ghost var jammed, m: nat := Jammed(), 0;
      if Ready() {
        ReadyNotJammed();
        m :| IsNextStop(program, break_points.Keys, steps, m);
      }
      StepOverBreakpoint();
      var si_code := ContinueToTrap(jammed, m);
      HandleSigtrap(si_code);
    }

    /** handle_command: `b`, `c` and `si`. */
    method HandleCommand(c: Command)
      requires (Ready() && Allowed(program, break_points.Keys, steps, c)) || (Jammed() && !c.SetBreak?)
      modifies this, process`cpu, process.mem, break_points.Values
      ensures old(Ready()) ==> (Ready() <==> !(c.StepInstruction? && Misreported(program, old(steps))))
      ensures old(Ready()) ==> break_points.Keys == BreaksAfter(old(break_points.Keys), c)
      ensures old(Ready()) ==> CommandStep(program, old(break_points.Keys), old(steps), c, steps)
      ensures Ready() ==> process.cpu == Native(program, steps)
      ensures fresh(break_points.Values - old(break_points.Values))
      ensures old(Jammed()) ==> Jammed() && process.cpu == old(process.cpu) && process.mem[..] == old(process.mem[..])
    {
      hide WellFormed, Native, Execute, Fetch, CanFetch, Misreported, Planted;
      if Ready() {
        ReadyNotJammed();
      }
      match c {
        case SetBreak(addr) =>
          RoomAt(addr);
          SetBreakpoint(addr);
        case StepInstruction =>
          StepInstructionWithCheck();
        case Continue =>
          ContinueExecution();
      }
    }

    lemma RoomAt(addr: nat)
      requires Ready() && addr in program.starts
      ensures addr + 8 <= process.mem.Length
    {
      hide Native;
      StartFacts(program, addr);
    }
  }

  /** A debugger jams: two breakpoints set at the address where the program starts. */
  method JamAtEntry(p: Program) returns (dbg: Debugger)
    requires WellFormed(p)
    ensures dbg.program == p && dbg.Jammed() && dbg.process.cpu == p.entry
  {
    assert Native(p, 0).pc in p.starts;
    StartFacts(p, p.entry.pc);
    hide WellFormed, Execute, Overlay;
    dbg := new Debugger(p);
    dbg.RoomAt(p.entry.pc);
    dbg.SetBreakpoint(p.entry.pc);
    dbg.SetBreakpoint(p.entry.pc);
  }

  /** No sequence of `c` and `si` gets away from a breakpoint that was set twice: the debuggee never moves. */
  method JammedSession(dbg: Debugger, cmds: seq<Command>)
    requires dbg.Jammed() && forall i :: 0 <= i < |cmds| ==> !cmds[i].SetBreak?
    modifies dbg, dbg.process`cpu, dbg.process.mem, dbg.break_points.Values
    ensures dbg.Jammed() && dbg.process.cpu == old(dbg.process.cpu) && dbg.process.mem[..] == old(dbg.process.mem[..])
  {
    hide Debugger.Ready, Debugger.Jammed, Allowed;
    for i := 0 to |cmds|
      invariant dbg.Jammed() && dbg.process.cpu == old(dbg.process.cpu) && dbg.process.mem[..] == old(dbg.process.mem[..])
      invariant fresh(dbg.break_points.Values - old(dbg.break_points.Values))
    {
      dbg.HandleCommand(cmds[i]);
    }
  }

  // ---------------------------------------------------------------------------------------------
  // Sessions
  // ---------------------------------------------------------------------------------------------

  /** What a session has done after its first i commands. */
  ghost predicate Session(p: Program, bps: set<nat>, n: nat, cmds: seq<Command>, i: nat,
                          keys: set<nat>, steps: nat, ks: seq<nat>, stops: seq<Cpu>)
    requires i <= |cmds|
  {
    && |ks| == |stops| == i && keys == AllBreaks(bps, cmds[..i])
    && steps == (if ks == [] then n else ks[|ks| - 1])
    && SessionSteps(p, bps, n, cmds[..i], ks)
    && Feasible(p, keys, steps, cmds[i..])
    && forall j :: 0 <= j < |ks| ==> stops[j] == Native(p, ks[j])
  }

  lemma SessionStart(p: Program, bps: set<nat>, n: nat, cmds: seq<Command>)
    requires Feasible(p, bps, n, cmds)
    ensures Session(p, bps, n, cmds, 0, bps, n, [], [])
  {
    hide Feasible;
    assert cmds[..0] == [] && cmds[0..] == cmds;
  }

  lemma SessionNext(p: Program, bps: set<nat>, n: nat, cmds: seq<Command>, i: nat, keys: set<nat>, steps: nat,
                    ks: seq<nat>, stops: seq<Cpu>, keys': set<nat>, steps': nat, stop: Cpu)
    requires i < |cmds| && Session(p, bps, n, cmds, i, keys, steps, ks, stops)
    requires keys' == BreaksAfter(keys, cmds[i]) && CommandStep(p, keys, steps, cmds[i], steps') && stop == Native(p, steps')
    ensures Session(p, bps, n, cmds, i + 1, keys', steps', ks + [steps'], stops + [stop])
  {
    hide Feasible, Allowed, CommandStep, SessionSteps, AllBreaks, BreaksAfter, Native, Misreported;
    FeasibleNext(p, keys, steps, cmds, i);
    assert cmds[..i] + [cmds[i]] == cmds[..i + 1];
    SessionSnoc(p, bps, n, cmds[..i], ks, cmds[i], steps');
  }

  lemma SessionTurn(p: Program, bps: set<nat>, n: nat, cmds: seq<Command>, i: nat, keys: set<nat>, steps: nat,
                    ks: seq<nat>, stops: seq<Cpu>)
    requires i < |cmds| && Session(p, bps, n, cmds, i, keys, steps, ks, stops)
    ensures Allowed(p, keys, steps, cmds[i]) && !(cmds[i].StepInstruction? && Misreported(p, steps))
  {
    hide Feasible, Allowed, CommandStep, SessionSteps, AllBreaks, BreaksAfter, Native, Misreported;
    FeasibleNext(p, keys, steps, cmds, i);
  }

  /** A whole session: its stops occur in order in the native run, each at the start of an instruction and so never
      inside an int3. */
  lemma SessionDone(p: Program, bps: set<nat>, n: nat, cmds: seq<Command>, keys: set<nat>, steps: nat,
                    ks: seq<nat>, stops: seq<Cpu>)
    requires WellFormed(p) && Session(p, bps, n, cmds, |cmds|, keys, steps, ks, stops)
    ensures SessionSteps(p, bps, n, cmds, ks)
    ensures |stops| == |ks| && forall i :: 0 <= i < |ks| ==> stops[i] == Native(p, ks[i])
    ensures forall i :: 0 <= i < |ks| ==> n <= ks[i]
    ensures forall i, j :: 0 <= i < j < |ks| ==> ks[i] <= ks[j]
    ensures forall i :: 0 <= i < |stops| ==> stops[i].pc in p.starts
  {
    hide SessionSteps, AllBreaks, Feasible;
    assert cmds[..|cmds|] == cmds;
    SessionStepsInOrder(p, bps, n, cmds, ks);
  }

  /** The command loop.  For any feasible sequence of commands the states at the stops are states of the native run,
      in its order, and none has the pc anywhere but at the start of an instruction. */
  method RunSession(dbg: Debugger, cmds: seq<Command>) returns (stops: seq<Cpu>, ghost ks: seq<nat>)
    requires dbg.Ready() && Feasible(dbg.program, dbg.break_points.Keys, dbg.steps, cmds)
    modifies dbg, dbg.process, dbg.process.mem, dbg.break_points.Values
    ensures dbg.Ready()
    ensures SessionSteps(dbg.program, old(dbg.break_points.Keys), old(dbg.steps), cmds, ks)
    ensures |stops| == |ks| && forall i :: 0 <= i < |ks| ==> stops[i] == Native(dbg.program, ks[i])
    ensures forall i :: 0 <= i < |ks| ==> old(dbg.steps) <= ks[i]
    ensures forall i, j :: 0 <= i < j < |ks| ==> ks[i] <= ks[j]
    ensures forall i :: 0 <= i < |stops| ==> stops[i].pc in dbg.program.starts
  {
    hide WellFormed, Native, Feasible, Allowed, CommandStep, SessionSteps, AllBreaks, BreaksAfter, Session, Misreported;
    hide Debugger.Ready;
    ghost var p, bps, n := dbg.program, dbg.break_points.Keys, dbg.steps;
    stops, ks := [], [];
    SessionStart(p, bps, n, cmds);
    var i := 0;
    while i < |cmds|
      invariant 0 <= i <= |cmds| && dbg.Ready()
      invariant fresh(dbg.break_points.Values - old(dbg.break_points.Values))
      invariant Session(p, bps, n, cmds, i, dbg.break_points.Keys, dbg.steps, ks, stops)
    {
      ghost var keys, steps := dbg.break_points.Keys, dbg.steps;
      SessionTurn(p, bps, n, cmds, i, keys, steps, ks, stops);
      dbg.HandleCommand(cmds[i]);
      SessionNext(p, bps, n, cmds, i, keys, steps, ks, stops, dbg.break_points.Keys, dbg.steps, dbg.process.cpu);
      stops, ks := stops + [dbg.process.cpu], ks + [dbg.steps];
      i := i + 1;
    }
    ReadyProgram(dbg);
    SessionDone(p, bps, n, cmds, dbg.break_points.Keys, dbg.steps, ks, stops);
  }

  lemma ReadyProgram(dbg: Debugger)
    requires dbg.Ready()
    ensures WellFormed(dbg.program)
  {
  }
}
