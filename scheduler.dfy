/** The task table and round-robin selector of the preemptive scheduler.
    Both builds of the firmware (the HAL build's `Scheduler` class and the
    libopencm3 build's `SCHED` namespace) run the same algorithm over the same
    globals; this module models them once. Register-level context switching is
    outside the model: a saved context is data on a task's stack. */
module Scheduler {
  import opened Machine

  /** Life-cycle state of a task. */
  datatype TaskState = Uninitialized | Ready | Running | Suspended | Terminated

  /** A slot the selector may hand the CPU to. */
  predicate Runnable(s: TaskState)
  {
    s == Ready || s == Running
  }

  /** Size of the name field of a task control block. */
  const NAME_SIZE: nat := 16
  /** Words pushed onto a fresh stack: 8 hardware-stacked, 8 callee-saved. */
  const FRAME_WORDS: nat := 16
  /** Initial xPSR: only the Thumb execution-state bit (bit 24) is set. */
  const XPSR_THUMB: u32 := 0x0100_0000

  /** A task control block. `stackBase` is the task's own word buffer (null in
      a zeroed block) and `stackPointer` is a word offset into it. */
  datatype Tcb = Tcb(stackBase: array?<u32>, stackPointer: nat, state: TaskState, name: seq<u8>)

  /** The all-zero control block that `memset` leaves in a new slot. */
  const ZERO_TCB: Tcb := Tcb(null, 0, Uninitialized, seq(NAME_SIZE, _ => 0))

  // ---------------------------------------------------------------------------
  // Task names

  /** `strncpy(dst, src, n)`: the bytes of the C string `src` (up to its NUL
      terminator or the end of the sequence, which stands for the terminator)
      followed by NUL padding, exactly `n` bytes in all. */
  function StrNCpy(src: seq<u8>, n: nat): (dst: seq<u8>)
    ensures |dst| == n
    decreases n
  {
    if n == 0 then []
    else if src == [] || src[0] == 0 then seq(n, _ => 0)
    else [src[0]] + StrNCpy(src[1..], n - 1)
  }

  /** The name field of a new task: copied when a name is given, otherwise
      the zeros of the fresh control block. */
  function NameField(name: Option<seq<u8>>): (f: seq<u8>)
    ensures |f| == NAME_SIZE
  {
    if name.Some? then StrNCpy(name.value, NAME_SIZE) else seq(NAME_SIZE, _ => 0)
  }

  /** A name without NUL bytes is copied up to the field size and padded with
      zeros; a name of 16 bytes or more fills the field with no terminator. */
  lemma {:induction false} StrNCpyCopiesPrefix(src: seq<u8>, n: nat)
    requires forall i :: 0 <= i < |src| ==> src[i] != 0
    ensures var m := Min(n, |src|);
      StrNCpy(src, n) == src[..m] + seq(n - m, _ => 0)
    ensures |src| >= n ==> forall i :: 0 <= i < n ==> StrNCpy(src, n)[i] != 0
  {
    if n == 0 {
    } else if src == [] {
      assert StrNCpy(src, n) == seq(n, _ => 0);
    } else {
      var rest := StrNCpy(src[1..], n - 1);
      StrNCpyCopiesPrefix(src[1..], n - 1);
      var m := Min(n - 1, |src| - 1);
      assert StrNCpy(src, n) == [src[0]] + rest;
      assert src[1..][..m] == src[1..m + 1];
      assert rest == src[1..m + 1] + seq(n - 1 - m, _ => 0);
      assert [src[0]] + src[1..m + 1] == src[..m + 1];
      assert Min(n, |src|) == m + 1;
      if |src| >= n {
        forall i | 0 <= i < n ensures StrNCpy(src, n)[i] != 0 {
          if i > 0 { assert StrNCpy(src, n)[i] == rest[i - 1]; }
        }
      }
    }
  }

  // ---------------------------------------------------------------------------
  // Initial stack frame

  /** The 16 words at the top of a fresh stack, lowest address first:
      R4-R11 (callee-saved, zero), then the basic exception frame of the
      ARMv7-M Architecture Reference Manual, section B1.5.6 -- R0, R1, R2, R3,
      R12 (zero), LR (the exit routine), PC (the entry function), xPSR. */
  function InitialFrame(entry: u32, exitRoutine: u32): (f: seq<u32>)
    ensures |f| == FRAME_WORDS
    ensures f[FRAME_WORDS - 1] == XPSR_THUMB && f[FRAME_WORDS - 2] == entry && f[FRAME_WORDS - 3] == exitRoutine
  {
    seq(8, _ => 0) + [0, 0, 0, 0, 0, exitRoutine, entry, XPSR_THUMB]
  }

  /** The whole stack of a new task: zeros below the initial frame. */
  function InitialStack(stackSize: nat, entry: u32, exitRoutine: u32): (s: seq<u32>)
    requires stackSize >= FRAME_WORDS
    ensures |s| == stackSize
  {
    seq(stackSize - FRAME_WORDS, _ => 0) + InitialFrame(entry, exitRoutine)
  }

  /** A fresh stack is zero up to the initial frame, which fills its top
      16 words. */
  lemma InitialStackLayout(stackSize: nat, entry: u32, exitRoutine: u32)
    requires stackSize >= FRAME_WORDS
    ensures var s := InitialStack(stackSize, entry, exitRoutine);
      && s[stackSize - FRAME_WORDS..] == InitialFrame(entry, exitRoutine)
      && forall i :: 0 <= i < stackSize - FRAME_WORDS ==> s[i] == 0
  {
    var s := InitialStack(stackSize, entry, exitRoutine);
    assert s[stackSize - FRAME_WORDS..] == InitialFrame(entry, exitRoutine);
  }

  /** Registers as they stand after a context is resumed from word offset `sp`. */
  datatype Registers = Registers(r: seq<u32>, lr: u32, pc: u32, xpsr: u32, sp: nat)

  /** Resuming a saved context, following the architecture rather than the
      code that built the frame: the context switcher pops R4-R11 from `sp`,
      then exception return pops R0-R3, R12, LR, the return address and xPSR
      (ARMv7-M Architecture Reference Manual, section B1.5.6). `r` holds R0-R12. */
  function Resume(stack: seq<u32>, sp: nat): (regs: Registers)
    requires sp + FRAME_WORDS <= |stack|
    ensures |regs.r| == 13 && regs.sp == sp + FRAME_WORDS
  {
    var callee := stack[sp..sp + 8];
    var hw := stack[sp + 8..sp + 16];
    Registers(hw[..4] + callee + [hw[4]], hw[5], hw[6], hw[7], sp + FRAME_WORDS)
  }

  /** A new task, resumed from the stack pointer `initTaskStack` leaves it,
      starts at its entry function in Thumb state with R0-R12 zero, returns
      into the exit routine, and has popped its whole frame. */
  lemma FreshStackResumesAtEntry(stackSize: nat, entry: u32, exitRoutine: u32)
    requires stackSize >= FRAME_WORDS
    ensures var regs := Resume(InitialStack(stackSize, entry, exitRoutine), stackSize - FRAME_WORDS);
      regs.pc == entry && regs.lr == exitRoutine &&
      (regs.xpsr / 0x100_0000) % 2 == 1 &&
      (forall i :: 0 <= i < 13 ==> regs.r[i] == 0) &&
      regs.sp == stackSize
  {
    var s := InitialStack(stackSize, entry, exitRoutine);
    var sp := stackSize - FRAME_WORDS;
    assert s[sp..] == InitialFrame(entry, exitRoutine);
    assert s[sp..sp + 8] == seq(8, _ => 0);
    assert s[sp + 8..sp + 16] == [0, 0, 0, 0, 0, exitRoutine, entry, XPSR_THUMB];
    var regs := Resume(s, sp);
    assert regs.r == [0, 0, 0, 0] + seq(8, _ => 0) + [0];
  }

  // ---------------------------------------------------------------------------
  // Round-robin selection

  /** The slot `k` places after `start` in a table of `n` slots, wrapping. */
  function Cyclic(start: nat, k: nat, n: nat): nat
    requires n > 0
  {
    (start + k) % n
  }

  /** Offset from `start`, in cyclic table order, of the slot the selector's
      do-while loop stops at: the first runnable one, or the last slot it may
      examine when none is runnable. */
  function ScanOffset(ts: seq<Tcb>, start: nat, k: nat): (off: nat)
    requires start < |ts| && k < |ts|
    ensures k <= off < |ts|
    decreases |ts| - k
  {
    if k == |ts| - 1 || Runnable(ts[Cyclic(start, k, |ts|)].state) then k
    else ScanOffset(ts, start, k + 1)
  }

  /** The slot `updateNextTask` selects when the cursor stands at `start`. */
  function Select(ts: seq<Tcb>, start: nat): (j: nat)
    requires start < |ts|
    ensures j < |ts|
  {
    Cyclic(start, ScanOffset(ts, start, 0), |ts|)
  }

  /** Facts about cyclic slot arithmetic. */
  lemma CyclicSlot(start: nat, k: nat, n: nat)
    requires start < n && k < n
    ensures Cyclic(start, k, n) == if start + k < n then start + k else start + k - n
  {
    if start + k >= n {
      assert start + k == n + (start + k - n);
    }
  }

  /** One step of the scan: the cursor moves from offset `k` to offset
      `k + 1`, coming back to `start` exactly after the last offset. */
  lemma ScanAdvance(start: nat, k: nat, n: nat)
    requires start < n && k < n
    ensures Cyclic(start, k, n) < n
    ensures k + 1 < n ==> (Cyclic(start, k, n) + 1) % n == Cyclic(start, k + 1, n) != start
    ensures k + 1 == n ==> (Cyclic(start, k, n) + 1) % n == start
  {
    CyclicSlot(start, k, n);
    NextSlot(Cyclic(start, k, n), n);
    if k + 1 < n {
      CyclicSlot(start, k + 1, n);
    }
  }

  /** Where the scan stops, at the last offset or at a runnable slot, is
      the selected slot. */
  lemma ScanStops(ts: seq<Tcb>, start: nat, k: nat)
    requires start < |ts| && k < |ts|
    requires ScanOffset(ts, start, k) == ScanOffset(ts, start, 0)
    requires k == |ts| - 1 || Runnable(ts[Cyclic(start, k, |ts|)].state)
    ensures Select(ts, start) == Cyclic(start, k, |ts|)
  {
  }

  /** Every slot lies at some offset from the cursor. */
  lemma SlotAtOffset(start: nat, i: nat, n: nat) returns (k: nat)
    requires start < n && i < n
    ensures k < n && Cyclic(start, k, n) == i
  {
    k := if i >= start then i - start else i + n - start;
    CyclicSlot(start, k, n);
  }

  lemma {:induction false} ScanOffsetSkipsIdle(ts: seq<Tcb>, start: nat, k: nat)
    requires start < |ts| && k < |ts|
    ensures var off := ScanOffset(ts, start, k);
      (forall m :: k <= m < off ==> !Runnable(ts[Cyclic(start, m, |ts|)].state)) &&
      (Runnable(ts[Cyclic(start, off, |ts|)].state) || off == |ts| - 1)
    decreases |ts| - k
  {
    if k == |ts| - 1 || Runnable(ts[Cyclic(start, k, |ts|)].state) {
    } else {
      ScanOffsetSkipsIdle(ts, start, k + 1);
    }
  }

  /** The selector picks the first runnable slot at or after the cursor in
      cyclic order; it examines at most one full rotation; and it picks a
      runnable slot whenever one exists. */
  lemma SelectIsFirstRunnable(ts: seq<Tcb>, start: nat)
    requires start < |ts|
    ensures Select(ts, start) < |ts|
    ensures forall m :: 0 <= m < ScanOffset(ts, start, 0) ==> !Runnable(ts[Cyclic(start, m, |ts|)].state)
    ensures (exists i :: 0 <= i < |ts| && Runnable(ts[i].state)) ==> Runnable(ts[Select(ts, start)].state)
  {
    var n := |ts|;
    ScanOffsetSkipsIdle(ts, start, 0);
    var off := ScanOffset(ts, start, 0);
    if exists i :: 0 <= i < n && Runnable(ts[i].state) {
      var i :| 0 <= i < n && Runnable(ts[i].state);
      var k := SlotAtOffset(start, i, n);
    }
  }

  /** With a single task the selector always resolves to that task. */
  lemma SingleTaskSelectsItself(ts: seq<Tcb>)
    requires |ts| == 1
    ensures Select(ts, 0) == 0
  {
  }

  /** With every slot runnable the selector picks the slot under the cursor. */
  lemma AllRunnableSelectsCursor(ts: seq<Tcb>, start: nat)
    requires start < |ts|
    requires forall i :: 0 <= i < |ts| ==> Runnable(ts[i].state)
    ensures Select(ts, start) == start
  {
    CyclicSlot(start, 0, |ts|);
  }

  /** The slots chosen by `rounds` successive selections from cursor `start`,
      each leaving the cursor one past its choice. */
  function Visits(ts: seq<Tcb>, start: nat, rounds: nat): (v: seq<nat>)
    requires start < |ts|
    ensures |v| == rounds
    decreases rounds
  {
    if rounds == 0 then []
    else
      var j := Select(ts, start);
      [j] + Visits(ts, (j + 1) % |ts|, rounds - 1)
  }

  /** `(i + 1) % n` for a slot index `i`: the next slot, wrapping to 0. */
  lemma NextSlot(i: nat, n: nat)
    requires i < n
    ensures (i + 1) % n == if i + 1 == n then 0 else i + 1
  {
  }

  /** Round-robin fairness: when no task blocks, up to N successive
      selections over N tasks visit the slots in table order from the
      cursor, wrapping once. */
  lemma {:induction false} RoundRobinVisitsInOrder(ts: seq<Tcb>, start: nat, rounds: nat)
    requires start < |ts| && rounds <= |ts|
    requires forall i :: 0 <= i < |ts| ==> Runnable(ts[i].state)
    ensures forall k :: 0 <= k < rounds ==> Visits(ts, start, rounds)[k] == Cyclic(start, k, |ts|)
    decreases rounds
  {
    if rounds > 0 {
      var n := |ts|;
      AllRunnableSelectsCursor(ts, start);
      NextSlot(start, n);
      var next := (start + 1) % n;
      RoundRobinVisitsInOrder(ts, next, rounds - 1);
      CyclicSlot(start, 0, n);
      forall k | 1 <= k < rounds
        ensures Visits(ts, start, rounds)[k] == Cyclic(start, k, n)
      {
        assert Visits(ts, start, rounds)[k] == Visits(ts, next, rounds - 1)[k - 1];
        CyclicSlot(next, k - 1, n);
        CyclicSlot(start, k, n);
      }
    }
  }

  /** Consequently N selections over N runnable tasks give every task the
      CPU exactly once. */
  lemma RoundRobinServesEveryTaskOnce(ts: seq<Tcb>, start: nat)
    requires start < |ts|
    requires forall i :: 0 <= i < |ts| ==> Runnable(ts[i].state)
    ensures forall i :: 0 <= i < |ts| ==> i in Visits(ts, start, |ts|)
    ensures forall a, b :: 0 <= a < b < |ts| ==> Visits(ts, start, |ts|)[a] != Visits(ts, start, |ts|)[b]
  {
    var n := |ts|;
    var v := Visits(ts, start, n);
    RoundRobinVisitsInOrder(ts, start, n);
    forall i | 0 <= i < n
      ensures i in v
    {
      var k := SlotAtOffset(start, i, n);
      assert v[k] == i;
    }
    forall a, b | 0 <= a < b < n
      ensures v[a] != v[b]
    {
      CyclicSlot(start, a, n);
      CyclicSlot(start, b, n);
    }
  }

  // ---------------------------------------------------------------------------
  // taskExit as the source writes it

  /** What `taskExit` does to the table, as written. `outOfBoundsWrite`
      records the `memcpy` into `tasks[-1]` when the cursor is 0;
      `divideByZero` records `updateNextTask` running with `taskCount == 0`.
      `freed` is the stack handed to `free`. */
  datatype ExitTrace = ExitTrace(
    outOfBoundsWrite: bool,
    divideByZero: bool,
    table: seq<Tcb>,
    freed: array?<u32>,
    cursor: nat,
    next: Option<nat>)

  /** `taskExit` as written, with the current task in slot `c` and the cursor
      at `taskIndex`: mark slot `c` terminated, copy every slot from
      `taskIndex` on one place down, free the stack found in slot `c` AFTER
      the copy, shrink the table by one slot, step the cursor back unless it
      is 0 and reselect. */
  function ExitAsWritten(ts: seq<Tcb>, taskIndex: nat, c: nat): (t: ExitTrace)
    requires c < |ts| && taskIndex < |ts|
    ensures |t.table| == |ts| - 1
    ensures t.outOfBoundsWrite <==> taskIndex == 0
    ensures t.divideByZero <==> |ts| == 1
    ensures t.next.Some? ==> t.next.value < |t.table| && t.cursor < |t.table|
  {
    var n := |ts|;
    var marked := ts[c := ts[c].(state := Terminated)];
    // copies into slots max(taskIndex,1)-1 .. n-2; slot n-1 keeps its value
    var from := if taskIndex == 0 then 1 else taskIndex;
    var shifted := marked[..from - 1] + marked[from..] + [marked[n - 1]];
    var freed := shifted[c].stackBase;
    var kept := shifted[..n - 1];
    var cursor := if taskIndex != 0 then taskIndex - 1 else 0;
    if n == 1 then
      ExitTrace(taskIndex == 0, true, kept, freed, cursor, None)
    else
      var j := Select(kept, cursor);
      ExitTrace(taskIndex == 0, false, kept, freed, (j + 1) % (n - 1), Some(j))
  }

  /** When the selector chooses the last slot, the cursor wraps to 0; if that
      task then exits, the copy loop writes `tasks[-1]`, drops the control
      block of slot 0 (a live task) and keeps the exiting task's block, marked
      terminated and pointing at the stack it just freed. */
  lemma ExitAfterWrapCorruptsTable(ts: seq<Tcb>, start: nat)
    requires |ts| >= 2 && start < |ts|
    requires Select(ts, start) == |ts| - 1
    ensures var n := |ts|;
      var cursor := (Select(ts, start) + 1) % n;
      var t := ExitAsWritten(ts, cursor, n - 1);
      cursor == 0 && t.outOfBoundsWrite &&
      t.table == ts[1..n - 1] + [ts[n - 1].(state := Terminated)] &&
      t.freed == ts[n - 1].stackBase
  {
    var n := |ts|;
    assert (n - 1 + 1) % n == 0;
  }

  /** Whenever the exiting task is not in the last slot, the stack released
      is the one of the NEXT task, which stays in the table, while the
      exiting task's own stack is never released. */
  lemma ExitFreesSuccessorStack(ts: seq<Tcb>, taskIndex: nat)
    requires 1 <= taskIndex < |ts|
    requires forall i, j :: 0 <= i < j < |ts| ==> ts[i].stackBase != ts[j].stackBase
    ensures var c := taskIndex - 1;
      var t := ExitAsWritten(ts, taskIndex, c);
      !t.outOfBoundsWrite &&
      t.table == ts[..c] + ts[c + 1..] &&
      t.freed == ts[taskIndex].stackBase && t.freed != ts[c].stackBase &&
      t.freed == t.table[c].stackBase &&
      forall i :: 0 <= i < |t.table| ==> t.table[i].stackBase != ts[c].stackBase
  {
    var c := taskIndex - 1;
    var t := ExitAsWritten(ts, taskIndex, c);
    assert t.table == ts[..c] + ts[c + 1..];
    forall i | 0 <= i < |t.table|
      ensures t.table[i].stackBase != ts[c].stackBase
    {
      if i < c {
        assert t.table[i] == ts[i];
      } else {
        assert t.table[i] == ts[i + 1];
      }
    }
  }

  /** When the only task exits, the cursor is necessarily 0, so the copy loop
      writes `tasks[-1]`, and the reselection takes `% taskCount` of zero. */
  lemma ExitOfOnlyTaskDividesByZero(ts: seq<Tcb>, taskIndex: nat)
    requires |ts| == 1 && taskIndex < |ts|
    ensures var t := ExitAsWritten(ts, taskIndex, 0);
      t.outOfBoundsWrite && t.divideByZero && t.table == []
  {
  }

  /** Cursor after the current task's slot `c` has been removed from a table
      that now holds `count` slots: it keeps pointing at the same successor. */
  function CursorAfterRemoval(taskIndex: nat, c: nat, count: nat): (i: nat)
    ensures count > 0 ==> i < count
    ensures count == 0 ==> i == 0
  {
    var i := if taskIndex > c then taskIndex - 1 else taskIndex;
    if i >= count then 0 else i
  }

  /** Outcome of the tick-polling delay. */
  datatype DelayOutcome = BlockingDelay(ms: u32) | Polled(waits: nat)

  // ---------------------------------------------------------------------------
  // Table and stack primitives

  /** `realloc` of the task table to `n` slots: the common prefix is kept,
      slots beyond the old end are zero. */
  method ReallocTable(a: array<Tcb>, n: nat) returns (b: array<Tcb>)
    ensures fresh(b) && b.Length == n
    ensures b[..Min(n, a.Length)] == a[..Min(n, a.Length)]
    ensures forall k :: a.Length <= k < n ==> b[k] == ZERO_TCB
  {
    b := new Tcb[n](_ => ZERO_TCB);
    var m := Min(n, a.Length);
    var i := 0;
    while i < m
      invariant 0 <= i <= m
      invariant forall k :: 0 <= k < i ==> b[k] == a[k]
      invariant forall k :: m <= k < n ==> b[k] == ZERO_TCB
    {
      b[i] := a[i];
      i := i + 1;
    }
  }

  /** Allocate a zeroed stack of `stackSize` words and push the initial
      frame, pre-decrementing the stack pointer from the top. */
  method BuildStack(entry: u32, stackSize: nat, exitRoutine: u32) returns (stack: array<u32>, sp: nat)
    requires stackSize >= FRAME_WORDS
    ensures fresh(stack) && stack.Length == stackSize
    ensures sp == stackSize - FRAME_WORDS
    ensures stack[..] == InitialStack(stackSize, entry, exitRoutine)
  {
    stack := new u32[stackSize](_ => 0);
    sp := stackSize;
    sp := sp - 1; stack[sp] := XPSR_THUMB;
    sp := sp - 1; stack[sp] := entry;
    sp := sp - 1; stack[sp] := exitRoutine;
    sp := sp - 1; stack[sp] := 0; // R12
    sp := sp - 1; stack[sp] := 0; // R3
    sp := sp - 1; stack[sp] := 0; // R2
    sp := sp - 1; stack[sp] := 0; // R1
    sp := sp - 1; stack[sp] := 0; // R0
    ghost var expected := InitialStack(stackSize, entry, exitRoutine);
    ghost var frame := InitialFrame(entry, exitRoutine);
    assert forall k :: stackSize - FRAME_WORDS <= k < stackSize ==> expected[k] == frame[k - (stackSize - FRAME_WORDS)];
    assert forall k :: 0 <= k < stackSize - 3 ==> expected[k] == 0;
    ghost var top := stackSize - 8;
    var i := 0;
    while i < 8
      invariant 0 <= i <= 8 && sp == top - i
      invariant forall k :: 0 <= k < stackSize ==> stack[k] == if k < sp then 0 else expected[k]
    {
      sp := sp - 1;
      stack[sp] := 0;
      i := i + 1;
    }
    assert stack[..] == expected;
  }

  /** The copy loop of task exit: every slot after `c` moves one place down;
      the last slot keeps its old value. */
  method ShiftDown(a: array<Tcb>, c: nat)
    requires c < a.Length
    modifies a
    ensures a[..a.Length - 1] == old(a[..c]) + old(a[c + 1..])
    ensures a[a.Length - 1] == old(a[a.Length - 1])
  {
    ghost var before := a[..];
    var i := c + 1;
    while i < a.Length
      invariant c + 1 <= i <= a.Length
      invariant forall k :: 0 <= k < c ==> a[k] == before[k]
      invariant forall k :: c <= k < i - 1 ==> a[k] == before[k + 1]
      invariant forall k :: i - 1 <= k < a.Length ==> a[k] == before[k]
    {
      a[i - 1] := a[i];
      i := i + 1;
    }
    assert a[..a.Length - 1] == before[..c] + before[c + 1..];
  }

  // ---------------------------------------------------------------------------
  // The scheduler state

  /** The scheduler globals: the heap-allocated TCB array (`tasks`, exactly
      `taskCount` slots after every realloc), the round-robin cursor, the
      current and next task (kept as slot indices), the `active` flag, the
      PendSV request bit and the stacks released so far. */
  class TaskTable {
    var tasks: array<Tcb>
    var tableAllocated: bool
    var taskCount: nat
    var taskIndex: nat
    var currentTask: Option<nat>
    var nextTask: Option<nat>
    var active: bool
    var pendSvRequested: bool
    var freedStacks: seq<array?<u32>>
    /** Address of the exit routine, pushed as the initial LR. */
    const exitRoutine: u32

    ghost predicate Valid()
      reads this, tasks
    {
      && tasks.Length == taskCount
      && (!tableAllocated ==> taskCount == 0)
      && (if taskCount == 0 then taskIndex == 0 else taskIndex < taskCount)
      && (currentTask.Some? ==> currentTask.value < taskCount)
      && (nextTask.Some? ==> nextTask.value < taskCount)
    }

    /** The static initial values of the globals. */
    constructor (exitRoutine: u32)
      ensures Valid() && this.exitRoutine == exitRoutine
      ensures taskCount == 0 && taskIndex == 0 && !tableAllocated && !active
      ensures currentTask == None && nextTask == None
      ensures !pendSvRequested && freedStacks == []
    {
      this.exitRoutine := exitRoutine;
      tasks := new Tcb[0](_ => ZERO_TCB);
      tableAllocated := false;
      taskCount := 0;
      taskIndex := 0;
      currentTask := None;
      nextTask := None;
      active := false;
      pendSvRequested := false;
      freedStacks := [];
    }

    /** Register a task: grow the table by one zeroed slot, give it a zeroed
        stack of `stackSize` words with the initial frame pushed on top, copy
        the name and mark it ready. */
    method InitTaskStack(entry: u32, stackSize: u32, name: Option<seq<u8>>)
      requires Valid()
      requires stackSize >= FRAME_WORDS
      modifies this
      ensures Valid() && tableAllocated
      ensures taskCount == old(taskCount) + 1
      ensures tasks[..taskCount - 1] == old(tasks[..])
      ensures var t := tasks[taskCount - 1];
        t.stackBase != null && fresh(t.stackBase) &&
        t.stackBase.Length == stackSize &&
        t.stackPointer == stackSize - FRAME_WORDS &&
        t.stackBase[..] == InitialStack(stackSize, entry, exitRoutine) &&
        t.state == Ready && t.name == NameField(name)
      ensures taskIndex == old(taskIndex) && currentTask == old(currentTask) && nextTask == old(nextTask)
      ensures active == old(active) && pendSvRequested == old(pendSvRequested)
      ensures freedStacks == old(freedStacks)
    {
      AppendSlot();
      ghost var kept := tasks[..taskCount - 1];
      var stack, sp := BuildStack(entry, stackSize, exitRoutine);
      var t := tasks[taskCount - 1].(stackBase := stack, stackPointer := sp);
      if name.Some? {
        t := t.(name := StrNCpy(name.value, NAME_SIZE));
      }
      tasks[taskCount - 1] := t.(state := Ready);
      assert tasks[..taskCount - 1] == kept;
    }

    /** The table half of `initTaskStack`: malloc of one slot for the first
        task, realloc to one more otherwise, and the new slot zeroed. */
    method AppendSlot()
      requires Valid()
      modifies this`tasks, this`tableAllocated, this`taskCount
      ensures Valid() && tableAllocated && fresh(tasks)
      ensures taskCount == old(taskCount) + 1
      ensures tasks[..taskCount - 1] == old(tasks[..]) && tasks[taskCount - 1] == ZERO_TCB
    {
      tasks := ReallocTable(tasks, taskCount + 1);
      tableAllocated := true;
      tasks[taskCount] := ZERO_TCB;
      taskCount := taskCount + 1;
    }

    /** The round-robin scan: starting at the cursor, examine at most one
        full rotation of slots and stop at the first runnable one; the cursor
        ends one past the chosen slot. */
    method UpdateNextTask()
      requires Valid() && taskCount > 0
      modifies this`taskIndex, this`nextTask
      ensures Valid()
      ensures nextTask == Some(Select(tasks[..], old(taskIndex)))
      ensures taskIndex == (nextTask.value + 1) % taskCount
    {
      var startIndex := taskIndex;
      ghost var off: nat := 0;
      ghost var ts := tasks[..];
      while true
        invariant off < taskCount && startIndex < taskCount && ts == tasks[..]
        invariant taskIndex == Cyclic(startIndex, off, taskCount)
        invariant ScanOffset(ts, startIndex, off) == ScanOffset(ts, startIndex, 0)
        invariant Valid()
        decreases taskCount - off
      {
        var next := taskIndex;
        nextTask := Some(next);
        ScanAdvance(startIndex, off, taskCount);
        taskIndex := (taskIndex + 1) % taskCount;
        if taskIndex == startIndex {
          ScanStops(ts, startIndex, off);
          break;
        }
        if Runnable(tasks[next].state) {
          ScanStops(ts, startIndex, off);
          break;
        }
        off := off + 1;
      }
    }

    /** Exit of the current task, removing the CURRENT task's slot: shift the
        later slots down one, release the exiting task's own stack, shrink
        the table, keep the cursor on the same successor, reselect only when
        a task remains, and request a context switch. */
    method TaskExit()
      requires Valid() && currentTask.Some?
      modifies this, tasks
      ensures Valid() && tableAllocated == old(tableAllocated)
      ensures var c := old(currentTask.value);
        && taskCount == old(taskCount) - 1
        && tasks[..] == old(tasks[..c]) + old(tasks[c + 1..])
        && freedStacks == old(freedStacks) + [old(tasks[c].stackBase)]
      ensures currentTask == None && pendSvRequested && active == old(active)
      ensures var cursor := CursorAfterRemoval(old(taskIndex), old(currentTask.value), taskCount);
        if taskCount == 0 then nextTask == None && taskIndex == 0
        else nextTask == Some(Select(tasks[..], cursor)) && taskIndex == (nextTask.value + 1) % taskCount
    {
      var c := currentTask.value;
      RemoveSlot(c);
      taskIndex := CursorAfterRemoval(taskIndex, c, taskCount);
      currentTask := None;
      // the previous selection indexes the old table; it is recomputed here
      nextTask := None;
      if taskCount > 0 {
        UpdateNextTask();
      }
      pendSvRequested := true;
    }

    /** The table half of `taskExit`: mark slot `c` terminated, shift the
        later slots down over it, release its stack and shrink the table by
        one slot. */
    method RemoveSlot(c: nat)
      requires Valid() && c < taskCount
      modifies this`tasks, this`taskCount, this`freedStacks, tasks
      ensures tasks.Length == taskCount && taskCount == old(taskCount) - 1
      ensures tasks[..] == old(tasks[..c]) + old(tasks[c + 1..])
      ensures freedStacks == old(freedStacks) + [old(tasks[c].stackBase)]
    {
      ghost var before := tasks[..];
      var exiting := tasks[c].stackBase;
      tasks[c] := tasks[c].(state := Terminated);
      assert tasks[..c] == before[..c] && tasks[c + 1..] == before[c + 1..];
      ShiftDown(tasks, c);
      ghost var remaining := before[..c] + before[c + 1..];
      assert tasks[..taskCount - 1] == remaining;
      freedStacks := freedStacks + [exiting];
      tasks := ReallocTable(tasks, taskCount - 1);
      assert tasks[..] == remaining;
      taskCount := taskCount - 1;
    }

    /** `yieldDelay`: without an active scheduler or a task table, fall back
        to the blocking delay; otherwise read the tick counter once for the
        start and once per check, yielding after every check that finds fewer
        than `ms` ticks elapsed (32-bit wrap-around subtraction). `ticks`
        lists the values the successive reads return. */
    method YieldDelay(ms: u32, ticks: seq<u32>) returns (outcome: DelayOutcome)
      requires Valid()
      requires active && tableAllocated ==>
        |ticks| >= 1 && exists k :: 1 <= k < |ticks| && Elapsed32(ticks[0], ticks[k]) >= ms
      ensures !(active && tableAllocated) ==> outcome == BlockingDelay(ms)
      ensures active && tableAllocated ==>
        && outcome.Polled?
        && outcome.waits + 1 < |ticks|
        && Elapsed32(ticks[0], ticks[outcome.waits + 1]) >= ms
        && forall k :: 1 <= k <= outcome.waits ==> Elapsed32(ticks[0], ticks[k]) < ms
    {
      if !active || !tableAllocated {
        return BlockingDelay(ms);
      }
      var startTime := ticks[0];
      var read := 1;
      var polls := 0;
      while Elapsed32(startTime, ticks[read]) < ms
        invariant 1 <= read < |ticks| && polls == read - 1
        invariant forall k :: 1 <= k < read ==> Elapsed32(startTime, ticks[k]) < ms
        invariant exists k :: read <= k < |ticks| && Elapsed32(startTime, ticks[k]) >= ms
        decreases |ticks| - read
      {
        polls := polls + 1;
        read := read + 1;
      }
      return Polled(polls);
    }

    /** The PendSV handler of the libopencm3 build: nothing happens until the
        scheduler is active; then the next task is selected (the register
        switch that follows is not modelled). An active scheduler whose last
        task has exited has nothing to select: the source's selector takes
        `% 0` there, the model selects nothing, as `TaskExit` does. */
    method PendSv()
      requires Valid()
      modifies this`taskIndex, this`nextTask
      ensures Valid()
      ensures !old(active) ==> taskIndex == old(taskIndex) && nextTask == old(nextTask)
      ensures old(active) && taskCount == 0 ==> nextTask == None && taskIndex == 0
      ensures old(active) && taskCount > 0 ==>
        nextTask == Some(Select(tasks[..], old(taskIndex))) &&
        taskIndex == (nextTask.value + 1) % taskCount
    {
      if !active {
        return;
      }
      if taskCount == 0 {
        return;
      }
      UpdateNextTask();
    }
  }
}
