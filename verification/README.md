# Verified models of the demo programs

The repository holds small C, C++ and Rust programs that demonstrate how systems software works. This project models
the ones with an algorithm worth proving and proves what each is meant to do, for all inputs and all runs.

- `futex_lock.dfy`: the three-state futex lock and the workers that count with it. Every atomic instruction, every
  futex call and each half of `sum++` is one step of one thread; a run is any interleaving, for any number of threads
  and iterations, with a kernel that may wake any sleeper and may also return spuriously from a wait.
- `treiber_stack.dfy`: the lock-free stack. Every access to shared memory is one step; histories of invocations and
  returns are compared with an atomic stack.
- `netlink_format.dfy`, `netlink_builder.dfy`, `netlink_session.dfy`, `network.dfy`: the netlink message builder (the
  format is that of sections 2.2 and 2.3.2 of RFC 3549), which writes attributes into a bounded buffer and patches the
  lengths of nested ones afterwards, against a recursive serializer and a parser; and the link request that
  `lxc_veth_create` builds with it. `hwaddr.dfy` is the hardware-address parser of the same component.
- `mini_gdb.dfy`: breakpoints patched into code with 8-byte peeks and pokes of a traced process, and the commands
  `b`, `c` and `si`, against the run of the same program without a debugger.
- `heap_order.dfy`, `pqueue.dfy`, `pqueue_runs.dfy`: the indexed binary heap: sift loops that move a hole, stored
  positions, arbitrary removal and re-prioritisation, against a finite map from entries to priorities. The
  priority and position that the callbacks keep in each entry are in a store that queues over the same entries share.
- `scheduler.dfy`: `delay` and the event loop, on top of that heap. `context_switch.dfy`: the assembly that switches
  between the coroutines.
- `route_trie.dfy`: the routing trie, with the exact condition under which `search` is longest-prefix match.

`base.dfy` holds two types that several models share.

Code that updates state step by step is modelled by classes and methods that update the same fields, arrays and
loops, each proved against functions on values; the properties of whole runs are lemmas about those functions.

## Assumptions

- Memory is sequentially consistent. `futex_wait` tests the word and enqueues the caller in one step; `futex_wake`
  dequeues one sleeper if there is one.
- `compare_and_swap` is not a member of `std::atomic`; it is modelled as the atomic compare-and-swap it is meant as.
- The debuggee has one thread, does not exit, does not read or write its code as data, and contains no int3 of its
  own; instruction lengths are determined by the instruction's own bytes. Addresses given to `b` are instruction
  starts with eight mapped bytes. Which single steps the kernel reports with the code of a breakpoint, as Linux does
  for system calls, is left open. `MiniGdb.SomeProgram` shows that programs meeting this exist,
  `MiniGdb.SomeMisreportedStep` that some of them have such a step.
- Code between two context switches may do anything except write another context's saved registers.
- `cmppri` is a strict weak order. The clock does not run backwards and delays are not negative, where a lemma says
  so. A coroutine runs from one `delay` to its next, as `foo` and `bar` do, for any number of coroutines. Expiry
  times are non-negative, so the queue's unsigned priorities order them as the signed ones do.
- Allocation succeeds.

## Where the code differs from its description

- `search` in the trie is commented as backtracking to the longest prefix. It descends instead:
  `RouteTrie.AnswerIsLongestMatchIff` gives the condition, `RouteTrie.FallbackMissesShorterMatch` an address it
  answers wrongly. The comment in `main` expects 192.168.2.1 for 11010101; the code returns 192.168.3.1, since the
  walk ends at the marked node 110: `RouteTrie.MainLookups`.
- An attribute of 65536 bytes or more has its length truncated to 16 bits, and a message of 2^32 bytes or more to 32:
  `NetlinkFormat.RoundTrip` and `NetlinkFormat.LongAttributeIsLost`.
- The name check of `lxc_veth_create` refuses names of length 1 and accepts the empty name; the model does the same.
- `set_breakpoint` at an address that has a breakpoint saves int3 as the program's byte:
  `MiniGdb.Debugger.SetBreakpoint` gives both directions. `MiniGdb.JamAtEntry` does it with two commands; from there
  neither `c` nor `si` moves the debuggee again: `MiniGdb.JammedSession`.
- Every SIGTRAP reported as TRAP_BRKPT moves the pc back by one, also when it only ends a single step:
  `MiniGdb.Debugger.StepInstructionWithCheck` says that `si` stays with the native run exactly when its step is not
  reported that way, and where the pc is otherwise.
- `pqueue_insert` accepts an entry that is queued already. The order survives, but the entry is then in two slots and
  one stored position: `PQueue.Queue.Insert` gives both directions.
- `pqueue_remove` and `pqueue_change_priority` follow the position stored in the entry, which is stale once the entry
  has left the queue. Changing its priority is then harmless (`PQueue.Queue.ChangePriority`); removing it takes out
  whatever is in that slot, and `PQueue.Queue.Remove` gives the exact condition under which the order survives.
  `PQueueRuns.RemoveTwice` is an input on which it does not.
- `nlmsg_len` has 32 bits and the capacity has 64: `NetlinkBuilder.Message.StoredLength` says what it holds when a
  message outgrows it.

## Model

| member | source | states |
|---|---|---|
| FutexLock.MutualExclusion | thread/lock-impl/lock_impl.c:29-83 | In every state of every schedule the word is 0, 1 or 2, it is non-zero exactly when some thread holds the lock, and no two threads hold it. |
| FutexLock.NoLostWakeup | thread/lock-impl/lock_impl.c:31-53 | Whenever a thread sleeps, the word is 2, or an unlocker has yet to make its wake call, or a slow-path thread is about to exchange in 2. |
| FutexLock.NoDeadlock | thread/lock-impl/lock_impl.c:29-83 | In every reachable state with unfinished work some thread that is neither asleep nor done can step. |
| FutexLock.FinalSum | thread/lock-impl/lock_impl.c:238-255 | When all workers are done no increment was lost, although `sum++` is two steps: the sum is N times COUNT and the lock is free. |
| FutexLock.StuckOnlyWhenDone | thread/lock-impl/lock_impl.c:238-255 | A schedule in which no thread can take another step has ended with every worker done, the sum N times COUNT and the lock free. |
| FutexLock.NeverContended | thread/lock-impl/lock_impl.c:66-83 | A single worker finds the word 0 whenever it does not hold the lock, holds it with the word at 1, and never reaches the slow path or a wake call. |
| FutexLock.WakesAreOwed | thread/lock-impl/lock_impl.c:44-53 | In every run the wake calls made and pending, plus one if the word is 2, are at most the exchanges made on the slow path: only contention leads to the kernel. |
| FutexLock.WaitsForHolder | thread/lock-impl/lock_impl.c:29-42 | A thread that turns to `futex_wait` leaves the word at 2, and another thread holds the lock. |
| FutexLock.UncontendedIteration | thread/lock-impl/lock_impl.c:66-83 | From any state with the lock free, an iteration of one thread is five steps outside the kernel, with the word at 1 while the lock is held. |
| FutexLock.EveryScheduleIsFinite | thread/lock-impl/lock_impl.c:29-83 | No schedule is longer than a bound in N and COUNT plus five steps for each spurious wakeup. |
| FutexLock.RunDecreases | thread/lock-impl/lock_impl.c:29-83 | Every step of every thread lowers one number, the lexicographic measure (unlocks left, pending wakes, 2 - word, ranks). |
| FutexLock.InterruptCosts | thread/lock-impl/lock_impl.c:39-40 | A spurious wakeup raises that number by at most four. |
| FutexLock.StepInv | thread/lock-impl/lock_impl.c:29-83 | Every step of every thread, and every spurious wakeup, keeps the lock, wake, sum and local invariants. |
| FutexLock.LockProgram.StepThread | thread/lock-impl/lock_impl.c:29-83 | The program's own step, on the shared words in place, is the step of the model, of which the rows above say what it does. |
| FutexLock.LockProgram.CompareAndSwap | thread/lock-impl/lock_impl.c:59-61 | Reports whether the word was the expected one and writes only then. |
| FutexLock.LockProgram.AtomicExchange | thread/lock-impl/lock_impl.c:103-124 | Returns the old word and leaves the new one. |
| FutexLock.LockProgram.RunWorkers | thread/lock-impl/lock_impl.c:238-255 | Under an arbitrary scheduler the program terminates with every worker done, the lock free and the sum right. |
| TreiberStack.Linearizable | thread/atomic/test.cpp:14-33 | Whatever the interleaving, what callers observe is explained by an atomic LIFO stack taking effect once between each call and its return, and the list from `top` holds that stack's contents. |
| TreiberStack.LastInFirstOut | thread/atomic/test.cpp:14-33 | On the atomic stack that explains every run, values pushed come out in the opposite order, and after them pop finds it empty. |
| TreiberStack.NeverStuck | thread/atomic/test.cpp:14-33 | No step of any run follows a null or dangling pointer. |
| TreiberStack.ContentsChangeAtCas | thread/atomic/test.cpp:18-30 | The list changes only at a successful compare-and-swap, and then by exactly one push or pop of the thread that made it. |
| TreiberStack.ChainUnique | thread/atomic/test.cpp:3-8 | The list reachable from a pointer has only one reading. |
| TreiberStack.Conservation | thread/atomic/test.cpp:14-33 | In every interleaving the values that successful swaps put on the list are those that successful swaps took off plus those reachable from `top`, as multisets. |
| TreiberStack.CallersConserve | thread/atomic/test.cpp:14-33 | Once all operations have returned, the arguments of the pushes are the values the pops returned plus those reachable from `top`. |
| TreiberStack.RunBooks | thread/atomic/test.cpp:14-33 | At any moment of any run, a value that push was called with is on its way in or has been put on the list, and a value taken off is on its way out or has been returned. |
| TreiberStack.RetriesAreBounded | thread/atomic/test.cpp:17-30 | Among n threads compare-and-swaps fail at most n times as often as they succeed. |
| TreiberStack.LockFreedom | thread/atomic/test.cpp:14-33 | Every step of a run counted, there are at most six for each call and three n for each successful swap, and no more successful swaps than calls: with finitely many calls every schedule ends. |
| TreiberStack.StepInv | thread/atomic/test.cpp:14-33 | Every step of every thread keeps the simulation with the atomic stack. |
| TreiberStack.ConcurrentStack.StepThread | thread/atomic/test.cpp:14-33 | The program's own step, on `top` and the nodes in place, is the step of the model. |
| NetlinkFormat.RoundTrip | toy_docker/step_network/lxc_network/nl.c:51-67 | A parser recovers the attribute tree from its serialization if and only if every attribute length fits in 16 bits and the message length in 32. |
| NetlinkFormat.LongAttributeIsLost | toy_docker/step_network/lxc_network/nl.c:55-63 | A leaf with 65532 bytes of payload is written with length 0 and cannot be parsed. |
| NetlinkFormat.AttributeOnWire | toy_docker/step_network/lxc_network/nl.c:51-67 | Byte by byte: the length without padding, low byte first, then the type, the payload, and zeros up to a multiple of four. |
| NetlinkFormat.MessageOnWire | toy_docker/step_network/lxc_network/nl.c:110-131 | The first four bytes are the length of the whole message, low byte first; twelve more header bytes and the items follow. |
| NetlinkFormat.ItemOnWire | toy_docker/step_network/lxc_network/nl.c:51-67 | Items lie one behind the other in the order they were put. |
| NetlinkFormat.BlockOnWire | toy_docker/step_network/lxc_network/nl.c:133-149 | A reserved block is its bytes and zeros up to a multiple of four. |
| NetlinkFormat.ParseSerializedAttrs | toy_docker/step_network/lxc_network/nl.c:51-67 | Parsing undoes serializing on attribute lists nested to any depth. |
| NetlinkFormat.ParseSerializedBlock | toy_docker/step_network/lxc_network/nl.c:133-149 | The same where a fixed header precedes the attributes. |
| NetlinkBuilder.Message.constructor | toy_docker/step_network/lxc_network/nl.c:110-131 | A new message is empty, zeroed and as large as the aligned request plus the header, whatever the request. |
| NetlinkBuilder.Message.Put | toy_docker/step_network/lxc_network/nl.c:51-93 | Fails exactly when the aligned attribute would pass the capacity, changing nothing; otherwise the buffer is the serialization with the attribute added to the innermost open nest, and ready for the next call if its length fits in 32 bits. |
| NetlinkBuilder.Message.StoredLength | toy_docker/step_network/lxc_network/nl.c:56-65 | `nlmsg_len` is the length of the message modulo 2 to the 32. |
| NetlinkBuilder.Message.BeginNested | toy_docker/step_network/lxc_network/nl.c:95-103 | Opens a nest at the tail, or fails exactly for lack of room. |
| NetlinkBuilder.Message.EndNested | toy_docker/step_network/lxc_network/nl.c:105-108 | Exactly two bytes change, for whatever attribute already written; for the innermost open nest that turns it into an attribute holding everything put since it was begun. |
| NetlinkBuilder.EndsInEitherOrder | toy_docker/step_network/lxc_network/nl.c:105-108 | Ending an outer nest before the inner one, with nothing put in between, leaves the bytes of the properly nested order. |
| NetlinkBuilder.Message.Reserve | toy_docker/step_network/lxc_network/nl.c:133-149 | Adds a zeroed, padded block, or fails exactly for lack of room. |
| NetlinkBuilder.EndNestedBytes | toy_docker/step_network/lxc_network/nl.c:105-108 | The patched bytes of any open message are the serialization with the innermost nest closed. |
| NetlinkBuilder.PutBytes | toy_docker/step_network/lxc_network/nl.c:51-67 | The four writes of an attribute leave the serialization of the longer message. |
| NetlinkBuilder.OpenAligned | toy_docker/step_network/lxc_network/nl.c:35-36 | At any point of any construction the message length is a multiple of four. |
| NetlinkSession.ExecItem | toy_docker/step_network/lxc_network/nl.c:51-149 | The calls for a tree are accepted exactly when the whole tree fits, and add exactly that tree. |
| NetlinkSession.RunCalls | toy_docker/step_network/lxc_network/nl.c:51-149 | Any well-bracketed calls on the buffer succeed, and build, exactly what they do on the tree, whenever the buffer or what the calls add is below 2^32 bytes. |
| NetlinkSession.Session | toy_docker/step_network/lxc_network/nl.c:51-149 | After any well-bracketed calls that succeed and close every nest, the bytes are the serialized tree. |
| NetlinkSession.BuildTree | toy_docker/step_network/lxc_network/nl.c:51-149 | Every tree can be built in place exactly when it fits, and a receiver recovers it exactly when its lengths fit in 16 bits. |
| Network.LxcVethCreate | toy_docker/step_network/lxc_network/network.c:146-213 | The request fails, with -22, exactly for a name of length 1 or above 15. Otherwise a receiver of the bytes reads type 16 and flags 0x605, finds name1 under attribute 3, "veth" under 18, 1 and name2 under 18, 2, 1, 3, each with its NUL, and no other attribute. |
| Network.VethRoundTrip | toy_docker/step_network/lxc_network/network.c:176-213 | The same of the serialized request, for every pair of admissible names: name1 is the device, name2 its peer. |
| Network.LookupRequest | toy_docker/step_network/lxc_network/network.c:180-213 | What every path of attribute types leads to in the request: the three payloads, and nothing else. |
| Network.VethTreeConforms | toy_docker/step_network/lxc_network/network.c:180-213 | For every pair of admissible names the tree is well formed and fits the buffer. |
| HardwareAddress.ConvertMac | toy_docker/step_network/lxc_network/network.c:329-374 | On every NUL-terminated string the loop ends, reads nothing past the NUL, stores at most six bytes and returns what the recursive parser does; six bytes written as pairs of digits of either case with colons are stored as they are. |
| HardwareAddress.AcceptsIff | toy_docker/step_network/lxc_network/network.c:338-371 | A string is accepted exactly when it splits into at most n pieces of a digit and a second digit or colon, each with one more colon allowed, the last possibly a lone digit, and only after n pieces anything more. |
| HardwareAddress.DigitValue | toy_docker/step_network/lxc_network/network.c:341-358 | A character is taken as the digit of value v exactly when it is at place v of 0123456789abcdef or of 0123456789ABCDEF. |
| HardwareAddress.ParseJoined | toy_docker/step_network/lxc_network/network.c:338-371 | Any colon-separated spelling of bytes with one or two of those digits each parses to those bytes. |
| HardwareAddress.RenderRoundTrip | toy_docker/step_network/lxc_network/network.c:338-371 | Any bytes written with two digits each, in either case or mixed, and colons in between are parsed back. |
| HardwareAddress.RenderRenders | toy_docker/step_network/lxc_network/network.c:710-711 | The lower-case form that `%02x` prints, and the upper-case one, are of that kind. |
| MiniGdb.PatchByte | basic/mini-gdb/src/breakpoint.rs:24-28 | Reading a word, replacing its low byte and writing it back changes one byte of memory. |
| MiniGdb.BreakPoint.Enable | basic/mini-gdb/src/breakpoint.rs:23-35 | Exactly the byte at the address becomes int3, and the byte it replaced is saved. |
| MiniGdb.BreakPoint.Disable | basic/mini-gdb/src/breakpoint.rs:36-41 | Exactly the byte at the address becomes the saved one, other breakpoints in the same word included in what stays. |
| MiniGdb.SameInstruction | basic/mini-gdb/src/breakpoint.rs:23-41 | Breakpoints on other instruction starts do not disturb the instruction at the pc. |
| MiniGdb.Debugger.SetBreakpoint | basic/mini-gdb/src/debugger.rs:193-197 | The overlay survives if and only if the address is an instruction start without a breakpoint; a second breakpoint at the pc jams the debugger there. |
| MiniGdb.Debugger.HandleSigtrap | basic/mini-gdb/src/debugger.rs:335-350 | The pc goes back by one exactly for the two breakpoint codes. |
| MiniGdb.Debugger.StepOverBreakpoint | basic/mini-gdb/src/debugger.rs:234-246 | At a breakpoint one native instruction is executed and the overlay is complete again, and the debugger stays with the native run exactly when the step is not reported as a breakpoint; elsewhere nothing happens, and where the breakpoint is jammed nothing changes. |
| MiniGdb.Debugger.StepInstructionWithCheck | basic/mini-gdb/src/debugger.rs:225-233 | The native run advances by exactly one instruction, breakpoint or not; the debugger stays with it if and only if the step is not reported as a breakpoint, and is one byte behind it otherwise. |
| MiniGdb.JamAtEntry | basic/mini-gdb/src/debugger.rs:193-197 | In every program, setting a breakpoint twice where it starts jams the debugger there. |
| MiniGdb.JammedSession | basic/mini-gdb/src/debugger.rs:213-246 | At a breakpoint set twice, no sequence of `c` and `si` commands moves the debuggee or changes its memory. |
| MiniGdb.Debugger.ContinueToTrap | basic/mini-gdb/src/debugger.rs:213-219 | A resumed process traps at the first enabled breakpoint its native run meets, one byte past it. |
| MiniGdb.Debugger.ContinueExecution | basic/mini-gdb/src/debugger.rs:213-219 | Stops at the first breakpoint address the native run reaches after at least one instruction; from a jammed breakpoint it comes back unmoved. |
| MiniGdb.Debugger.HandleCommand | basic/mini-gdb/src/debugger.rs:142-154 | Each of `b`, `c` and `si` moves the native run as the command says, and keeps the overlay and the debugger with it except for an `si` on a step reported as a breakpoint; where a breakpoint is jammed, `c` and `si` change nothing. |
| MiniGdb.RunSession | basic/mini-gdb/src/debugger.rs:258-277 | For every feasible command sequence the states at the stops are states of the native run, in its order, each with the pc at an instruction start. |
| MiniGdb.SessionDone | basic/mini-gdb/src/debugger.rs:213-246 | The stops of a session occur in order in the native run, none before its start, and always have the pc at an instruction start. |
| MiniGdb.SessionDeterministic | basic/mini-gdb/src/debugger.rs:213-246 | The commands alone determine at which native steps the session stops. |
| HeapOrder.ReplaceOne | cpu/pqueue.c:169-197 | Whether the new priority outranks the old one tells which single direction the heap is broken in. |
| HeapOrder.ReplaceWay | cpu/pqueue.c:169-197 | A new priority in a heap can outrank its parent or be outranked by a child, never both; the heap is intact exactly when neither, and a sift the wrong way finds nothing to move. |
| HeapOrder.BubbleStep | cpu/pqueue.c:93-99 | Trading places with an outranked parent keeps the rest of the heap in order. |
| HeapOrder.PercolateStep | cpu/pqueue.c:129-135 | Trading places with the foremost child keeps the rest of the heap in order. |
| HeapOrder.RootOutranksAll | cpu/pqueue.c:216-224 | No entry of a heap outranks the root. |
| HeapOrder.AncestorSpan | cpu/pqueue.c:86-139 | n levels of the tree span a factor of two to the n. |
| PQueue.Queue.BubbleUp | cpu/pqueue.c:86-103 | Repairs a heap broken upward, positions included, shifting at most log2 of the index entries; an entry that does not outrank its parent stays. |
| PQueue.Queue.MaxChild | cpu/pqueue.c:106-119 | The child no other child outranks, or 0 exactly when there is none. |
| PQueue.Queue.PercolateDown | cpu/pqueue.c:122-139 | Repairs a heap broken downward, positions included, going down at most log2((size-1)/i) levels; an entry that no child outranks stays. |
| PQueue.Queue.Insert | cpu/pqueue.c:142-166 | The map gains the entry with its priority, whether or not the array has to grow; order and positions are right afterwards if and only if the entry was not queued already. |
| PQueue.Queue.ChangePriority | cpu/pqueue.c:169-183 | The map changes at that entry only; for an entry that has left the queue, nothing in the queue changes. |
| PQueue.Queue.Remove | cpu/pqueue.c:186-197 | The map loses the entry in the slot that the stored position names, the last one included: that is the entry itself while it is queued, and then the queue stays valid. For any entry, it stays valid if and only if the priority of the entry sends the last one the way it may have to move. |
| PQueue.Queue.Pop | cpu/pqueue.c:200-213 | Nothing exactly when the queue is empty; otherwise an entry no other outranks leaves the map. |
| PQueue.Queue.Peek | cpu/pqueue.c:216-224 | The same choice without removing it. |
| PQueue.Queue.Size | cpu/pqueue.c:78-83 | The number of queued entries. |
| PQueue.Queue.Print | cpu/pqueue.c:260-281 | Heapsort: every queued entry once, none before one that outranks it. The slots of the queue, and the positions stored in the entries it shares with the copy, are unchanged. |
| PQueue.Queue.SubtreeIsValid | cpu/pqueue.c:284-302 | True iff everything below the index is in order with its parent. |
| PQueue.Queue.IsValid | cpu/pqueue.c:305-309 | True iff no entry is outranked by an entry below it, for every size. |
| PQueueRuns.RunOps | cpu/pqueue.c:142-224 | Any legal sequence of insert, change, remove and pop does to the map what it says, with heap order and positions kept throughout. |
| PQueueRuns.RemoveTwice | cpu/pqueue.c:186-197 | Removing an entry of priority 9 again, after it was removed and 1, 2 and 3 were inserted, leaves a broken queue. |
| PQueueRuns.EntriesAreConserved | cpu/pqueue.c:142-224 | Over any legal run, the entries queued at first and inserted are those still queued, removed and popped, as multisets. |
| Scheduler.DeadlineOrder | cpu/my_coroutine.c:179-199 | Over any run from the start, the popped deadlines never decrease. |
| Scheduler.NeverEarly | cpu/my_coroutine.c:185-189 | No coroutine is resumed at or before its deadline. |
| Scheduler.SleepsLongEnough | cpu/my_coroutine.c:150-195 | Between two consecutive runs of a coroutine the deadline is the clock at the delay plus ms, and more than ms pass. |
| Scheduler.NoStarvation | cpu/my_coroutine.c:150-195 | While one coroutine waits for deadline e, another due at d with delays of at least p runs at most (e-d)/(p+1)+1 times, and never if d is later. |
| Scheduler.NoStarvationInRun | cpu/my_coroutine.c:150-195 | The same between any two moments of a whole run. |
| Scheduler.TotalOvertaking | cpu/my_coroutine.c:150-195 | While one coroutine waits, all others together run at most as often as the sum of those bounds. |
| Scheduler.RunsInTime | cpu/my_coroutine.c:179-199 | Once the clock is past a coroutine's deadline, it runs within that many rounds of the event loop plus one: the loop never sleeps through it. |
| Scheduler.Schedule.Delay | cpu/my_coroutine.c:150-156 | The running coroutine gets one task with its deadline; every other coroutine keeps exactly its one task. |
| Scheduler.Schedule.FrontExpiry | cpu/my_coroutine.c:183-185 | The expiry read is that of a waiting coroutine and the earliest of all. |
| Scheduler.Schedule.TakeEarliest | cpu/my_coroutine.c:186-188 | The coroutine with the earliest deadline leaves the waiting ones, and only it. |
| Scheduler.Schedule.Round | cpu/my_coroutine.c:182-193 | The earliest coroutine runs exactly when the clock is past its deadline and waits again at its new one; otherwise nothing was overdue. |
| Scheduler.Schedule.RunProgram | cpu/my_coroutine.c:220-234 | Any starts followed by any clock readings give a run of the waiting map, with its deadlines popped in order, no coroutine resumed at or before its own, and every delay longer than asked for. |
| ContextSwitch.Machine.SwapContext | cpu/my_coroutine.c:29-65 | Register by register: one block receives what an ordinary return would leave, in its eight places, and the registers are loaded from the same places of the other block. |
| ContextSwitch.CoroutineNew | cpu/my_coroutine.c:129-135 | The saved frame of a new coroutine returns into its function at the top of its own stack. |
| ContextSwitch.Machine.TakeTurn | cpu/my_coroutine.c:137-144 | A resume leaves the frame due to the coroutine asked for in the registers, a yield that due to main; `current` is the coroutine last resumed, and every other context keeps its frame. |
| ContextSwitch.Machine.RunSwitches | cpu/my_coroutine.c:137-144 | Under any interleaving of resumes and yields every switch continues its target with the frame it is due, the registers hold the frame of the last switch, and every suspended context's block holds what it is due. |
| ContextSwitch.ContinuesWhereItLeft | cpu/my_coroutine.c:29-65 | A context switched out and later in again sees r12 to r15, rbx, rbp, return address and stack pointer as if the call had simply returned. |
| ContextSwitch.StartsAsCreated | cpu/my_coroutine.c:129-140 | Switched in for the first time, a context has the frame it was created with. |
| RouteTrie.Trie.Insert | network/route/route_test.cpp:29-41 | The first prefixLen bits of the address lead to the next hop, and no other prefix changes; the nodes are again exactly the prefixes of routes, marked and labelled accordingly. |
| RouteTrie.Trie.InsertAll | network/route/route_test.cpp:62-69 | Building from any list of routes gives the table of that list, with the first prefixLen bits of every route in it. |
| RouteTrie.LastRouteWins | network/route/route_test.cpp:39-40 | For each prefix the table holds the next hop inserted last. |
| RouteTrie.LongestRouteMatches | network/route/route_test.cpp:29-41 | A route whose first prefixLen bits an address starts with, while no route with more bits has that, is the longest match of the address. |
| RouteTrie.RouteAnswers | network/route/route_test.cpp:29-59 | Such a route answers the address, with its own next hop, if no route with more bits goes on along the address. |
| RouteTrie.MainTable | network/route/route_test.cpp:62-69 | The table of the four routes of `main`. |
| RouteTrie.MainLookups | network/route/route_test.cpp:65-76 | The four lookups of `main` give 192.168.3.1, 192.168.3.1, 192.168.4.1 and 192.168.1.1. |
| RouteTrie.Trie.Search | network/route/route_test.cpp:44-59 | On any non-empty table the search ends at a route and returns its next hop; the route matches the address, and is the longest match, iff the walk ends at a route. |
| RouteTrie.AnswerIsLongestMatchIff | network/route/route_test.cpp:44-59 | The same equivalences on the set of prefixes. |
| RouteTrie.RightIffNotPast | network/route/route_test.cpp:54-57 | An address with a longest match is answered from it iff the walk does not run past it. |
| RouteTrie.FallbackMissesShorterMatch | network/route/route_test.cpp:54-57 | With routes for 1 and 111, address 110 matches 1 but is answered from 111. |
| RouteTrie.FallbackTakesChildZero | network/route/route_test.cpp:54-57 | With routes for 10 and 11, an address that matches neither is answered from 10. |

## Left out

- NetlinkSession.RunCalls: the buffer, or what the calls add, is below 2^32 bytes; the call that takes a message past that is covered by Put, BeginNested, Reserve and StoredLength, and calls after it, which go by the truncated length, are not.
- NetlinkSession.Session: the same limit.
- NetlinkSession.BuildTree: the same limit, on the buffer or the tree.
- NetlinkBuilder.Message.Fill: writes only into the block reserved last, which is how both callers use the returned pointer.
- MiniGdb.RunSession: commands are limited to those allowed at their turn: a fresh instruction start for `b`, a breakpoint ahead for `c`, which otherwise waits for ever, and no single step reported as a breakpoint; SetBreakpoint, JammedSession and StepInstructionWithCheck cover the others.
- MiniGdb.Debugger.ContinueExecution: a breakpoint is ahead in the native run, since it does not return otherwise, and the step over the breakpoint it starts from is not reported as one, since it would go on from inside an instruction.
- MiniGdb.Debugger.HandleCommand: covers the arms `c`, `b` and `si` (debugger.rs:185-187); it does not model the register and memory commands, which bypass the breakpoints, nor `step`, which follows source lines.
- PQueueRuns.RunOps: entries are inserted only while not queued, and changed or removed only while queued; PQueue.Queue.Insert, ChangePriority and Remove say what one operation does in the other cases.
- PQueue.Queue.Remove: the stored position is that of a used slot; beyond those the source goes by slots no longer in use.
- PQueue.Queue.ChangePriority: the same limit on the stored position.
- RouteTrie.Trie.Search: the table must not be empty; the source dereferences a null child then. Addresses consist of '0' and '1', since any other character indexes outside `children`.
- ContextSwitch.Machine.RunSwitches: resumes come from main only, as in the source; a coroutine resuming another would overwrite the main context.
- Futex lock: the wait for `go`, thread creation and joining, the system-call macros, the width of `sum`, and the unused `__lll_lock_wait`.
- Stack: memory reclamation, which the source does not do either, and weaker memory orders.
- Netlink: sockets, sending, receiving and transactions, `nlmsg_alloc_reserve`, and the rest of `network.c`.
- `lxc_convert_mac` under a locale where `isdigit` accepts more than the ten digits, and the address family it stores.
- Debugger: DWARF lookup and source printing, `step`, register and memory commands, load address, other signals than SIGTRAP, and the exit of the debuggee.
- Queue: `pqueue_dump`, `pqueue_free` and allocation failure; `pqueue_print` copies `avail` and `step` into the duplicate, which is never inserted into, so the model does not.
- Scheduler: the addresses malloc returns (tasks are numbered), what coroutines do between delays, and the length of the sleep.
- The mutual-exclusion, FUSE, network, container and memory demos, which are fixed sequences of system calls or easier forms of what is proved here.
