# BeaRTOS core, modelled and verified in Dafny

BeaRTOS is firmware for an STM32H7 microcontroller: a small cooperative/
preemptive round-robin scheduler, a tracking heap allocator, two UART
drivers (an interrupt-driven ring-buffer driver and a DMA transmit queue), a
serial line editor that feeds a command shell, a software rasteriser for a
160x80 RGB565 LCD framebuffer, and a millisecond/microsecond timebase.
This project models the sequential core of those components as Dafny
classes whose fields are the C++ globals, with the hardware (registers,
interrupts, DMA engines, the system allocator) turned into parameters, and
proves what each operation does to that state.

One module per component, all files directly in this directory:

- `machine.dfy` (`Machine`): fixed-width integer types and the explicit
  32/64-bit and 16-bit wrap-around the C++ code relies on (`uint32_t`
  tick differences, `size_t` counters, `int16_t` pen positions).
- `scheduler.dfy` (`Scheduler`): the task table of both builds
  (`src/system/scheduler.cpp`, HAL; `src/sched.cpp`, libopencm3, which
  runs the same algorithm), the initial exception frame pushed on a new
  task's stack, the bounded cyclic selector, task exit, the tick-polling
  delay and the `active` guard of the PendSV handler. The TCB follows
  `src/sched.h:10-15`. `currentTask`/`nextTask` pointers become slot
  indices; freed stacks are recorded in a ghost log.
- `memory.dfy` (`Memory`): the tracking allocator. Memory is a map from
  32-bit word address to word, the system allocator is an oracle whose
  answer is a parameter, and the bounded tracker is an array compacted in
  place. `MallocSpec`/`FreeSpec`/`ReallocSpec` state each operation on an
  abstract state; the `Heap` methods are proved against them.
- `uart_ring.dfy` (`UartRing`): the 1024-byte TX/RX rings of `src/uart.cpp`
  with the one-slot-empty full rule, the USART1 interrupt handler, and
  `write`/`read`/`available`/`_write`. The bytes on the wire are a ghost
  log, so every transmit path is proved to keep
  `wire + pending == everything written`.
- `uart_dma.dfy` (`UartDma`): the DMA transmit queue of
  `src/peripherals/uart.cpp` (a deque of strings plus `dmaBusy`), with the
  HAL result as a parameter and the started transfers as a log.
- `line_editor.dfy` (`LineEditor`): the per-byte loop of `task2` in
  `src/tasks.cpp`. `Step` is the reference definition of one byte (escape
  state machine, insert at cursor, backspace, Enter with the command/
  argument split); the `Editor` class works on the real 128-byte
  `cmd_buf` with the source's shift loops and is proved to follow `Step`.
  A terminal model (`Emit`) interprets the echoed bytes, so the echo is
  proved to keep the screen showing `"$ "` followed by the line, with the
  terminal cursor at the edit cursor.
- `lcd.dfy` (`Lcd`): the framebuffer drawing of
  `src/peripherals/lcd.cpp` on a 25600-byte array: `setPixel`, lines,
  rectangles, `fillRGBRect` with clipping, glyph rendering and clipping in
  `drawChar`, `drawString`, Bresenham `drawLine`, and the `readID` byte
  packing. The font tables are a parameter.
- `timebase.dfy` (`Timebase`): `src/tim.cpp`: the SysTick millisecond
  count, the retry loop of `get_us` with the interrupt timing of each pass
  as a parameter, the cycle-to-microsecond conversion at 550 MHz
  (`src/clk.cpp:45`), and the wrap-safe busy-wait delays.

## Model

| member | source | states |
|---|---|---|
| Machine.Elapsed32 | src/system/scheduler.cpp:107 | `now - start` in 32-bit unsigned arithmetic: the result added to `start` gives `now` modulo 2^32 |
| Machine.Elapsed32IsWrapSafe | src/system/scheduler.cpp:106-107 | when fewer than 2^32 ticks pass, the wrapped difference of the wrapped readings is the true elapsed time, even across a counter wrap |
| Machine.Elapsed64 | src/tim.cpp:34 | `get_us() - start` in 64-bit unsigned arithmetic: the result added to `start` gives `now` modulo 2^64 |
| Machine.Elapsed64IsWrapSafe | src/tim.cpp:33-34 | when fewer than 2^64 microseconds pass, the wrapped difference is the true elapsed time |
| Machine.Add32 | src/system/memory.cpp:50 | `heap.used += size` wraps modulo 2^32 |
| Machine.Sub32 | src/system/memory.cpp:89 | `heap.used -= size` wraps modulo 2^32 |
| Machine.SubUndoesAdd32 | src/system/memory.cpp:50-89 | subtracting what was added restores the counter, whatever the wrap |
| Machine.WrapI16 | src/peripherals/lcd.cpp:280 | the `int16_t` pen advance: equal to the sum modulo 2^16, and exactly the sum when it fits |
| Scheduler.StrNCpy | src/system/scheduler.cpp:52-54 | `strncpy` into the name field always yields exactly `n` bytes; its contents are stated by `StrNCpyCopiesPrefix` |
| Scheduler.StrNCpyCopiesPrefix | src/system/scheduler.cpp:52-54 | the 16-byte name field holds the name's first bytes and is zero-padded; a name of 16 or more bytes fills the field with no terminator |
| Scheduler.InitialFrame | src/system/scheduler.cpp:37-49 | the pushed context is 16 words with xPSR on top, then the entry function as PC, then `taskExit` as LR |
| Scheduler.InitialStack | src/system/scheduler.cpp:33-49 | a new stack has exactly `stackSize` words |
| Scheduler.InitialStackLayout | src/system/scheduler.cpp:33-49 | the memset stack is zero up to the pushed context, which fills its top 16 words |
| Scheduler.Resume | src/system/scheduler.cpp:35-49 | popping the 16-word frame yields all registers and moves the stack pointer up by exactly 16 words |
| Scheduler.FreshStackResumesAtEntry | src/system/scheduler.cpp:35-49 | resuming a fresh stack starts at the entry function with `taskExit` as return address, the Thumb bit set in xPSR, R0-R12 zero and the stack empty again |
| Scheduler.ScanOffset | src/system/scheduler.cpp:115-119 | the scan of `updateNextTask` examines at most `taskCount` slots |
| Scheduler.CyclicSlot | src/system/scheduler.cpp:117 | the cyclic step `(i + 1) % taskCount` from the start slot, in closed form |
| Scheduler.ScanAdvance | src/system/scheduler.cpp:117-119 | each step of the do-while moves to the next slot and only returns to the start after `taskCount` steps |
| Scheduler.ScanStops | src/system/scheduler.cpp:118-119 | the loop stops at the first runnable slot, or at the last slot examined |
| Scheduler.SlotAtOffset | src/system/scheduler.cpp:115-119 | every slot is reached by the cyclic scan at some offset |
| Scheduler.ScanOffsetSkipsIdle | src/system/scheduler.cpp:115-119 | every slot skipped is neither READY nor RUNNING |
| Scheduler.Select | src/system/scheduler.cpp:112-120 | the slot `updateNextTask` picks from cursor `start` is a slot of the table; which one is stated by `SelectIsFirstRunnable` |
| Scheduler.SelectIsFirstRunnable | src/system/scheduler.cpp:115-119 | the selected slot is in range, every slot before it in cyclic order is idle, and it is runnable whenever any slot is |
| Scheduler.SingleTaskSelectsItself | src/sched.cpp:14-18 | with one task the selector picks slot 0 |
| Scheduler.AllRunnableSelectsCursor | src/system/scheduler.cpp:115-119 | when every task is runnable the selector picks the slot at `taskIndex` |
| Scheduler.NextSlot | src/system/scheduler.cpp:117 | `(i + 1) % n` is `i + 1` or wraps to 0 |
| Scheduler.RoundRobinVisitsInOrder | src/system/scheduler.cpp:113-119 | with every task runnable, successive selections visit the slots in cyclic order from the cursor |
| Scheduler.RoundRobinServesEveryTaskOnce | src/system/scheduler.cpp:113-119 | with every task runnable, `taskCount` selections serve each task exactly once |
| Scheduler.ExitAsWritten | src/system/scheduler.cpp:62-96 | as written: the table shrinks by one slot, the copy loop writes out of bounds exactly when `taskIndex` is 0, `updateNextTask` divides by zero exactly when the last task exits, and otherwise the new selection and cursor lie in the shrunk table (Findings) |
| Scheduler.ExitAfterWrapCorruptsTable | src/system/scheduler.cpp:68-69 | as written: when the selector picked the last slot, `taskIndex` is 0 and `taskExit` writes `tasks[-1]`, drops slot 0's task from the table and keeps the exiting task's TCB, marked terminated, in the last slot (Findings) |
| Scheduler.ExitFreesSuccessorStack | src/system/scheduler.cpp:68-73 | as written: after the shift, `currentTask->stackBase` is the successor's stack, so the successor's stack is freed and the exiting task's stack leaks (Findings) |
| Scheduler.ExitOfOnlyTaskDividesByZero | src/system/scheduler.cpp:79-90 | as written: when the only task exits, `updateNextTask` runs with `taskCount == 0` and takes `% 0` (Findings) |
| Scheduler.CursorAfterRemoval | src/system/scheduler.cpp:81-84 | the cursor after a removal stays below the new task count, or is 0 when the table is empty |
| Scheduler.ReallocTable | src/system/scheduler.cpp:19-27 | the grown table keeps the old slots and the new slot is zeroed |
| Scheduler.BuildStack | src/system/scheduler.cpp:33-49 | a zeroed stack of `stackSize` words with the 16-word initial frame on top, and the stack pointer 16 words below the top |
| Scheduler.ShiftDown | src/system/scheduler.cpp:67-70 | the in-place shift removes one slot and keeps the others in order |
| Scheduler.TaskTable.constructor | src/system/scheduler.cpp:9-14 | an empty, inactive table |
| Scheduler.TaskTable.InitTaskStack | src/system/scheduler.cpp:16-60 | exactly one READY task is appended after the unchanged old ones, with a fresh stack holding the initial frame, its stack pointer 16 words below the top and its name copied; nothing else changes |
| Scheduler.TaskTable.AppendSlot | src/system/scheduler.cpp:19-29 | the table grows by one zeroed slot and keeps the old ones |
| Scheduler.TaskTable.UpdateNextTask | src/system/scheduler.cpp:112-120 | `nextTask` is the first runnable slot from `taskIndex` in cyclic order, and `taskIndex` moves to the slot after it |
| Scheduler.TaskTable.TaskExit | src/system/scheduler.cpp:62-96 | the running task's slot is removed with later slots shifted down in order, its own stack is freed, `currentTask` is cleared, PendSV is requested, and the next task is selected only when one remains |
| Scheduler.TaskTable.RemoveSlot | src/system/scheduler.cpp:65-79 | removes slot `c` in order, decrements the count and frees that slot's stack |
| Scheduler.TaskTable.YieldDelay | src/system/scheduler.cpp:98-110 | inactive or without a table: the blocking delay; otherwise it polls the tick until `(tick - start) mod 2^32 >= ms` and yields once per earlier poll (so `ms == 0` yields zero times) |
| Scheduler.TaskTable.PendSv | src/sched.cpp:86-90 | inactive: nothing changes; active with tasks: the next task is selected; active with an empty table: nothing is selected, where the source's selector takes `% 0` (Findings, scheduler.cpp:79-90) |
| Memory.EncodeHeader | src/system/memory.cpp:51 | every header `size \| 0x10000000` carries the marker |
| Memory.DecodeSizeAsWritten | src/system/memory.cpp:88 | as written: `stored & 0x7FFFFFFF` is below 2^31 and at most `stored` (Findings) |
| Memory.DecodeSize | src/system/memory.cpp:88 | corrected decode: the result carries no marker and is at most `stored` (Findings) |
| Memory.HeaderIsMarked | src/system/memory.cpp:51 | `size \| 0x10000000` carries the marker bit and keeps every other bit of `size` |
| Memory.DecodeSizeRoundTrip | src/system/memory.cpp:88 | decoding with the marker cleared recovers the stored size (for sizes below the marker bit) |
| Memory.DecodeAsWrittenKeepsMarker | src/system/memory.cpp:88 | as written: the `0x7FFFFFFF` mask returns `size + 0x10000000`, not `size` (Findings) |
| Memory.FreeAsWrittenUndercounts | src/system/memory.cpp:88-89 | as written: `malloc(16)` then `free` leaves `heap.used` at 0xF0000000 instead of 0 (Findings) |
| Memory.FindFirst | src/system/memory.cpp:93-94 | the index of the first tracker entry with the pointer, or the length when there is none |
| Memory.TrackStaysBounded | src/system/memory.cpp:56-62 | the tracker appends only below `MAX_ALLOCATIONS`, so it never exceeds the bound, and an append puts the entry last |
| Memory.RemoveFirstRemovesOne | src/system/memory.cpp:93-102 | removal takes out exactly the first matching entry (as a multiset) and leaves the tracker unchanged when nothing matches |
| Memory.RemoveFirstUndoesAppend | src/system/memory.cpp:93-102 | removing a freshly tracked pointer restores the tracker |
| Memory.UpdateFirstKeepsOthers | src/system/memory.cpp:139-147 | `realloc` rewrites the first matching entry in place and no other entry |
| Memory.OversizeRequestsChangeNothing | src/system/memory.cpp:46-47 | `malloc` and `realloc` of more than `SIZE_MAX - 8` return null and change nothing |
| Memory.MallocAccountsForBlock | src/system/memory.cpp:45-66 | a successful `malloc` raises `used` by `size`, returns an owned pointer whose header decodes to `size`, and keeps the tracker bounded. Corrected: the payload follows the magic word and the size is decoded with the marker cleared (Findings, memory.cpp:65 and :88). |
| Memory.FreeUndoesMalloc | src/system/memory.cpp:68-106 | `free` of a fresh allocation restores `used` and the tracker and releases the system block, also when the tracker was full and the allocation went untracked. Corrected: the payload follows the magic word and the size is decoded with the marker cleared (Findings, memory.cpp:65 and :88). |
| Memory.NullPointerCases | src/system/memory.cpp:111-112 | `realloc(nullptr, n)` is `malloc(n)`, and `free(nullptr)` changes nothing |
| Memory.ReallocAccountsForResize | src/system/memory.cpp:128-152 | a failed system realloc changes nothing and returns null; a successful one changes `used` by `size - old_size`, keeps the tracker length, and rewrites the entry. Corrected: the payload follows the magic word and the size is decoded with the marker cleared (Findings, memory.cpp:65 and :88). |
| Memory.PayloadWritesKeepOwnership | src/system/memory.cpp:72-86 | with the payload after the magic word, the caller's writes into its block never break the ownership checks of `free` |
| Memory.PayloadAsWritten | src/system/memory.cpp:65 | as written: the pointer returned is the address of the magic word, the corrected layout's `MagicAddr` (Findings) |
| Memory.PayloadWriteBreaksOwnershipAsWritten | src/system/memory.cpp:65 | as written: the returned pointer is the magic word, so the caller's first write makes `free` treat the block as foreign (Findings) |
| Memory.Heap.constructor | src/system/memory.cpp:10-14 | the zeroed globals: empty heap region, empty tracker |
| Memory.Heap.Init | src/system/memory.cpp:17-25 | the heap spans `_ebss` to `_estack`, with nothing used or tracked |
| Memory.Heap.Malloc | src/system/memory.cpp:45-66 | the new state and result are those of `MallocSpec`; returns the payload of the corrected layout, one word later than memory.cpp:65 (Findings) |
| Memory.Heap.Free | src/system/memory.cpp:68-106 | the new state is that of `FreeSpec`; reads the header and magic words of the corrected layout and decodes with the marker cleared, not the mask of :88 (Findings) |
| Memory.Heap.Untrack | src/system/memory.cpp:93-102 | the tracker loop removes the first matching entry |
| Memory.Heap.Realloc | src/system/memory.cpp:108-153 | the new state and result are those of `ReallocSpec`; uses the corrected layout and decodes the old size with the marker cleared, not the mask of :128 (Findings) |
| Memory.Heap.FindTracked | src/system/memory.cpp:93-94 | the search loop finds the first matching entry |
| Memory.FindFirstIsFirst | src/system/memory.cpp:93-94 | an index before which nothing matches, and which matches, is the first match |
| Memory.CloseGap | src/system/memory.cpp:96-99 | the shift loop removes one entry and keeps the rest in order |
| UartRing.Advance | src/uart.cpp:32 | a head/tail advance stays in `[0, 1024)` |
| UartRing.Count | src/uart.cpp:61 | the number of buffered bytes is below 1024 |
| UartRing.RingSlice | src/uart.cpp:4-10 | the bytes between tail and head, as many as `Count` |
| UartRing.PushAppends | src/uart.cpp:36-37 | storing at `head` and advancing it appends the byte to the buffered contents |
| UartRing.PopRemovesOldest | src/uart.cpp:53-54 | reading at `tail` and advancing it takes the oldest byte |
| UartRing.FullMeansCount | src/uart.cpp:33 | `next_head == tail` exactly when 1023 bytes are buffered |
| UartRing.WrappedDifferenceCounts | src/uart.cpp:61 | `(rx_head - rx_tail) % 1024` in 32-bit arithmetic is the buffered count, also when the head has wrapped below the tail |
| UartRing.WriteAsWrittenWaitsForever | src/uart.cpp:33-35 | as written: a write of 1024 or more bytes from an idle transmitter fills the ring with the TX interrupt off, and no number of yields ever frees a slot (Findings) |
| UartRing.YieldWithoutInterruptIsIdle | src/uart.cpp:82-83 | with the TX interrupt disabled, yielding never drains the ring |
| UartRing.YieldWithInterruptFreesSlot | src/uart.cpp:84-87 | with the TX interrupt enabled, one interrupt frees a slot of a full ring |
| UartRing.Usart1.constructor | src/uart.cpp:4-10 | both rings empty, nothing sent, TX interrupt off |
| UartRing.Usart1.UsartIsr | src/uart.cpp:74-89 | RXNE: the byte is appended unless the ring is full, then dropped with no index change; TXE: the TX service below |
| UartRing.Usart1.ServiceTx | src/uart.cpp:81-88 | an empty ring disables the TX interrupt; otherwise the oldest byte goes to the wire and the tail advances |
| UartRing.Usart1.Write | src/uart.cpp:30-48 | all `size` bytes are queued in order behind what was pending, and at most one byte is sent immediately; the wait for room is the corrected `WaitForRoom` (Findings, uart.cpp:33-35) |
| UartRing.Usart1.StartTransmitter | src/uart.cpp:39-47 | the TXE kick sends at most one byte and enables the TX interrupt, losing nothing |
| UartRing.Usart1.PutByte | src/uart.cpp:32-37 | one byte is queued in order, waiting for room only when the ring is full, with the corrected `WaitForRoom` (Findings, uart.cpp:33-35) |
| UartRing.Usart1.WaitForRoom | src/uart.cpp:33-35 | returns with room in the ring, having only moved bytes from the ring to the wire |
| UartRing.Usart1.Read | src/uart.cpp:50-58 | returns `min(size, buffered)` bytes in FIFO order, NUL-terminates them and consumes exactly those bytes |
| UartRing.Usart1.Available | src/uart.cpp:60-62 | the number of buffered RX bytes |
| UartRing.Usart1.WriteSyscall | src/uart.cpp:67-71 | `_write` queues `len` bytes (truncated to 16 bits, as `write` takes a `uint16_t`) and returns `len` unchanged |
| UartDma.StartFront | src/peripherals/uart.cpp:91-95 | a transfer of the front string is started; a HAL failure halts |
| UartDma.WriteOfNothingChangesNothing | src/peripherals/uart.cpp:85-86 | `count <= 0` returns 0 and changes nothing |
| UartDma.WriteQueuesAtBack | src/peripherals/uart.cpp:88-96 | one `count`-byte string is appended at the back; a transfer of the front starts only when the DMA was idle |
| UartDma.WriteReturnsCount | src/peripherals/uart.cpp:90-99 | a write returns `count` with `dmaBusy` set, or -1 after a failed start |
| UartDma.CallbackPopsFront | src/peripherals/uart.cpp:102-113 | the front is popped; an emptied queue clears `dmaBusy` and starts nothing, otherwise the new front is transmitted |
| UartDma.IdleAccountsForNothing | src/peripherals/uart.cpp:14-15 | the initial queue accounts for no writes |
| UartDma.WritePreservesAccounts | src/peripherals/uart.cpp:84-100 | the queue invariant (transfers started, then strings waiting, equal everything written) survives a write |
| UartDma.CallbackPreservesAccounts | src/peripherals/uart.cpp:102-113 | the same invariant survives a completed transfer |
| UartDma.TransfersFollowWriteOrder | src/peripherals/uart.cpp:103-109 | the transfers started are a prefix of the strings written, and the rest are waiting |
| UartDma.DrainTransmitsAll | src/peripherals/uart.cpp:102-112 | completing every queued transfer transmits exactly the strings written, in order, and leaves the DMA idle |
| UartDma.DmaUart.constructor | src/peripherals/uart.cpp:14-15 | empty queue, DMA idle |
| UartDma.DmaUart.Write | src/peripherals/uart.cpp:84-100 | the new queue, flag and result are those of `WriteSpec` |
| UartDma.DmaUart.DmaCallback | src/peripherals/uart.cpp:102-113 | the new queue and flag are those of `CallbackSpec` |
| LineEditor.SkipSpaces | src/tasks.cpp:55 | the first non-space position at or after `i` |
| LineEditor.WordEnd | src/tasks.cpp:58 | the first space at or after `i`, or the end |
| LineEditor.Split | src/tasks.cpp:53-67 | the command and the arguments are disjoint parts of the line: together shorter than it by at least the separating space |
| LineEditor.SplitTrims | src/tasks.cpp:53-67 | the command has no space and is empty exactly for a blank line; arguments, when present, are non-empty and start with a non-space |
| LineEditor.SplitReassembles | src/tasks.cpp:53-67 | the line is leading spaces, the command, and then either only spaces or one space, more spaces and the arguments |
| LineEditor.Step | src/tasks.cpp:34-100 | every input byte keeps `cursor <= cmd_pos <= 127` and a printable buffer |
| LineEditor.EscapeSequencesOpen | src/tasks.cpp:35-39 | ESC enters the ESC state; then `[` enters CSI and any other byte returns to NORMAL and is discarded |
| LineEditor.ControlSequenceMovesCursor | src/tasks.cpp:40-44 | in CSI, `D` moves the cursor left if it can and `C` right if it can; any byte returns to NORMAL with the buffer unchanged |
| LineEditor.PrintableInsertsAtCursor | src/tasks.cpp:90-95 | a printable byte with room is inserted at the cursor and the cursor moves past it |
| LineEditor.RubOutDeletesBeforeCursor | src/tasks.cpp:78-83 | backspace/DEL deletes the byte before the cursor, or does nothing at column 0 |
| LineEditor.RubOutUndoesInsert | src/tasks.cpp:78-95 | DEL after inserting a byte restores the line and cursor |
| LineEditor.EnterDispatchesCommand | src/tasks.cpp:48-77 | Enter empties the line and calls `handleCmd` with the split line exactly when the command is non-empty |
| LineEditor.OtherBytesAreIgnored | src/tasks.cpp:90-100 | any other byte, or a printable one without room, changes nothing and echoes nothing |
| LineEditor.ArrowLeftMovesCursor | src/tasks.cpp:41 | the bytes `ESC [ D` move the cursor one left and echo the same sequence |
| LineEditor.ArrowRightMovesCursor | src/tasks.cpp:42 | the bytes `ESC [ C` move the cursor one right and echo the same sequence |
| LineEditor.EnterControlSequence | src/tasks.cpp:36-38 | `ESC [` enters CSI and changes nothing else |
| LineEditor.LeftThenRightRestoresCursor | src/tasks.cpp:41-42 | left then right arrow restores the line |
| LineEditor.ConsumeAllAppend | src/tasks.cpp:31-101 | feeding two chunks is feeding their concatenation |
| LineEditor.InsertEchoShowsLine | src/tasks.cpp:96-99 | after an insert the terminal shows the prompt and the new line, with its cursor at the edit cursor |
| LineEditor.InsertRedrawsTail | src/tasks.cpp:97 | the insert echo redraws the tail after the cursor |
| LineEditor.RubOutBlanks | src/tasks.cpp:84 | `"\b \b"` blanks the cell before the terminal cursor and leaves the cursor there |
| LineEditor.RubOutRedraw | src/tasks.cpp:84-88 | the backspace echo leaves the terminal showing the shortened line |
| LineEditor.RubOutEchoShowsLine | src/tasks.cpp:78-89 | after a backspace the terminal shows the prompt and the new line, with its cursor at the edit cursor |
| LineEditor.EchoKeepsTerminalInStep | src/tasks.cpp:34-100 | every input byte's echo keeps the terminal showing the prompt and the line |
| LineEditor.GreetingShowsEmptyLine | src/tasks.cpp:20-23 | the greeting leaves the terminal showing the prompt and an empty line |
| LineEditor.EchoTracksLine | src/tasks.cpp:27-101 | over any input, the terminal keeps showing the prompt and the current line |
| LineEditor.RequestAsWritten | src/tasks.cpp:28-30 | as written: `task2` asks `read` for every waiting byte (Findings) |
| LineEditor.Request | src/tasks.cpp:28-30 | the corrected read request: never more than available and always below the 32-byte `rx_buf` |
| LineEditor.RequestAsWrittenOverrunsRxBuf | src/tasks.cpp:28-30 | as written: with 32 or more bytes buffered, `read(available, rx_buf)` breaks `read`'s demand on its destination (`ReadFits`), and the count `read` promises to copy, where it stores the NUL, lies past the 32-byte `rx_buf` (Findings) |
| LineEditor.RequestFitsRxBuf | src/tasks.cpp:15 | the corrected request meets `read`'s demand on `rx_buf` (`ReadFits`), so every byte and the NUL stay inside it, and reads everything when fewer than 32 bytes are waiting |
| LineEditor.ShiftLeft | src/tasks.cpp:80-81 | the backspace loop removes one byte from the buffer in place, keeping the rest in order |
| LineEditor.ShiftRight | src/tasks.cpp:91-92 | the insert loop opens a gap at the cursor, keeping the rest in order |
| LineEditor.SkipSpacesIn | src/tasks.cpp:55 | the pointer loop over the NUL-terminated buffer stops where `SkipSpaces` does |
| LineEditor.WordEndIn | src/tasks.cpp:58 | the pointer loop stops at the first space or at the NUL |
| LineEditor.InsertAt | src/tasks.cpp:91-93 | shift and store insert the byte at the cursor |
| LineEditor.SplitLine | src/tasks.cpp:53-67 | the in-place split of `cmd_buf` yields the command and arguments of `Split` |
| LineEditor.ArgsAfter | src/tasks.cpp:60-67 | the argument pointer skips spaces after the command and is null when only spaces follow |
| LineEditor.MoveBack | src/tasks.cpp:98-99 | the loop echoes `ESC [ D` once per column |
| LineEditor.Editor.constructor | src/tasks.cpp:15-25 | empty line, NORMAL state, greeting and prompt echoed |
| LineEditor.Editor.Feed | src/tasks.cpp:32-100 | one byte on the real buffer does what `Step` says |
| LineEditor.Editor.ControlByte | src/tasks.cpp:40-44 | the CSI branch does what `Step` says |
| LineEditor.Editor.Enter | src/tasks.cpp:48-77 | the Enter branch does what `Step` says |
| LineEditor.Editor.RubOut | src/tasks.cpp:78-89 | the backspace branch does what `Step` says |
| LineEditor.Editor.RedrawAfterRubOut | src/tasks.cpp:84-88 | echoes the rub-out, the tail, a space and one cursor-left per column |
| LineEditor.Editor.DeleteBeforeCursor | src/tasks.cpp:79-83 | the byte before the cursor is removed and both indices drop by one |
| LineEditor.Editor.Insert | src/tasks.cpp:90-100 | the insert branch does what `Step` says |
| LineEditor.Editor.InsertAtCursor | src/tasks.cpp:91-95 | the byte is inserted at the cursor and both indices rise by one |
| LineEditor.Editor.FeedAll | src/tasks.cpp:31-101 | the byte loop does what `ConsumeAll` says |
| LineEditor.Editor.Poll | src/tasks.cpp:27-31 | one pass of the main loop consumes exactly the requested prefix of the received bytes and edits by it. Corrected: the request is `Request(available)`, at most 31 bytes, where tasks.cpp:30 asks for all of them (Findings, src/tasks.cpp:28-30) |
| Lcd.ByteIndex | src/peripherals/lcd.cpp:288 | every on-screen pixel's two bytes lie below 25600 |
| Lcd.ByteIndexSeparates | src/peripherals/lcd.cpp:288 | distinct pixels use disjoint byte pairs |
| Lcd.SetPixelPaintsOnePixel | src/peripherals/lcd.cpp:285-291 | `setPixel` paints the one pixel, when on-screen, and nothing else |
| Lcd.RowMajor | src/peripherals/lcd.cpp:193 | `row * width + col` stays inside the `width * height` source block |
| Lcd.ClipExtent | src/peripherals/lcd.cpp:188-189 | the clipped extent is positive, fits on screen, and is either the whole size or reaches the edge |
| Lcd.EveryByteBelongsToAPixel | src/peripherals/lcd.hpp:132 | each framebuffer byte is one byte of exactly one pixel |
| Lcd.FontWidth | src/peripherals/lcd.cpp:204 | the font is 6 pixels wide for size 12 and 8 for size 16 |
| Lcd.Glyph | src/peripherals/lcd.cpp:255-257 | a glyph has `size` bytes |
| Lcd.GlyphCell | src/peripherals/lcd.cpp:262-266 | every glyph cell is `POINT_COLOR` or `BACK_COLOR` |
| Lcd.TopBitAfterShifts | src/peripherals/lcd.cpp:261-270 | after `k` 8-bit left shifts the top bit of the byte is its bit `7 - k` |
| Lcd.ClipGlyph | src/peripherals/lcd.cpp:211-241 | no clip exactly when the glyph is entirely off-screen; otherwise a positive visible region that lies on screen and inside the glyph |
| Lcd.AsWrittenReadsInside | src/peripherals/lcd.cpp:274 | the as-written call never reads past the 2-D glyph array |
| Lcd.AsWrittenRightWhenNotClippedSideways | src/peripherals/lcd.cpp:274 | the as-written call draws the right cells when the glyph is not clipped at the left or right |
| Lcd.DrawCharAsWrittenShearsClippedGlyph | src/peripherals/lcd.cpp:274 | as written: a glyph clipped at the left edge is drawn sheared, and a concrete pixel gets the wrong colour (Findings) |
| Lcd.RenderGlyph | src/peripherals/lcd.cpp:243-271 | the bit loop fills `write[row][col]` with the glyph's cells |
| Lcd.PaintBit | src/peripherals/lcd.cpp:261-268 | one bit paints one cell and keeps the others |
| Lcd.CellDoneStep | src/peripherals/lcd.cpp:263-264 | bookkeeping of which cells the loop has painted |
| Lcd.CString | src/peripherals/lcd.cpp:278 | the characters before the first NUL |
| Lcd.TextStartsAtPen | src/peripherals/lcd.cpp:277-283 | `drawString` leaves the pixels left of the pen alone |
| Lcd.TextShowsEachCharacter | src/peripherals/lcd.cpp:277-283 | the `k`-th character's glyph appears at `x + k * font_width`, the pen advancing by 6 or 8. Corrected: each glyph is drawn by the corrected `drawChar`, so a glyph clipped at the left or right edge is not sheared (Findings, lcd.cpp:274). |
| Lcd.TextShowsLaterCharacter | src/peripherals/lcd.cpp:280-281 | the later characters appear one font width further on each. Corrected: each glyph is drawn by the corrected `drawChar`, so a glyph clipped at the left or right edge is not sheared (Findings, lcd.cpp:274). |
| Lcd.TextShowsFirstCharacter | src/peripherals/lcd.cpp:279 | the first character appears at the pen. Corrected: each glyph is drawn by the corrected `drawChar`, so a glyph clipped at the left or right edge is not sheared (Findings, lcd.cpp:274). |
| Lcd.LinePathMovesAway | src/peripherals/lcd.cpp:326-337 | each pixel of the line lies strictly further from the start than the ones before |
| Lcd.LinePathIsSimple | src/peripherals/lcd.cpp:326-337 | the line never sets the same pixel twice |
| Lcd.NoOvershoot | src/peripherals/lcd.cpp:326-337 | the pen never passes the end point on either axis |
| Lcd.BresenhamStep | src/peripherals/lcd.cpp:328-336 | each round moves the pen on at least one axis and keeps the error term's invariant |
| Lcd.LineRound | src/peripherals/lcd.cpp:327-336 | each pixel set lies in the bounding box, short of the end point, with its cross product against the segment's direction at most `dx + dy` in size (it is near the ideal segment) |
| Lcd.PenInBox | src/peripherals/lcd.cpp:320-336 | the pen stays inside the bounding box and the `int16_t` error terms never overflow |
| Lcd.DrawingRound | src/peripherals/lcd.cpp:326-337 | one loop round extends the painted path by the current pixel |
| Lcd.DrawingDone | src/peripherals/lcd.cpp:326 | when the pen reaches the end point, the painted path is the whole line |
| Lcd.PackId | src/peripherals/lcd.cpp:150 | `tmp[0] << 16 \| tmp[1] << 8 \| tmp[2]`: the three bytes are recovered from the 24-bit ID |
| Lcd.Display.constructor | src/peripherals/lcd.cpp:125-129 | a cleared framebuffer |
| Lcd.Display.SetPixel | src/peripherals/lcd.cpp:285-291 | the framebuffer becomes `SetPixelSpec` of the old one |
| Lcd.Display.DrawHLine | src/peripherals/lcd.cpp:293-299 | nothing when the line passes the right edge; otherwise exactly the line's pixels are painted |
| Lcd.Display.DrawVLine | src/peripherals/lcd.cpp:301-307 | nothing when the line passes the bottom edge; otherwise exactly the line's pixels are painted |
| Lcd.Display.FillRect | src/peripherals/lcd.cpp:309-317 | nothing when the rectangle passes an edge; otherwise exactly its pixels are painted |
| Lcd.Display.FillRGBRect | src/peripherals/lcd.cpp:185-201 | nothing for an off-screen origin or zero size; otherwise the clipped box shows the source block read with the clipped width as stride, and nothing else changes |
| Lcd.Display.DrawChar | src/peripherals/lcd.cpp:203-275 | the glyph's visible cells appear at the pen and nothing else changes; a glyph entirely off-screen changes nothing |
| Lcd.Display.FillClippedGlyph | src/peripherals/lcd.cpp:273-274 | copying the visible rows with the glyph's own stride shows exactly the visible cells |
| Lcd.Display.DrawCharAsWritten | src/peripherals/lcd.cpp:203-275 | as written: the clipped box receives the glyph array read with the visible width as stride |
| Lcd.Display.FillAsWritten | src/peripherals/lcd.cpp:274 | as written: `fillRGBRect` over the flattened glyph array |
| Lcd.Display.DrawString | src/peripherals/lcd.cpp:277-283 | the framebuffer becomes `Text` of the characters before the NUL. Corrected: each glyph is drawn by the corrected `drawChar`, so a glyph clipped at the left or right edge is not sheared (Findings, lcd.cpp:274). |
| Lcd.Display.DrawLine | src/peripherals/lcd.cpp:319-338 | terminates; paints exactly a simple chain of pixels from the start up to but excluding the end, each near the segment (nothing when the end points coincide) |
| Timebase.SubMillisecond | src/tim.cpp:19-29 | for a counter value in `[0, 550000]`: the microseconds elapsed in the current millisecond, in `[0, 1000]`, 1000 only at counter 0, and the whole microseconds in `550000 - val` cycles |
| Timebase.Microseconds | src/tim.cpp:29 | `ms * 1000` plus the sub-millisecond part, in `[ms * 1000, ms * 1000 + 1000]`, and in the same millisecond as `ms` for a non-zero counter |
| Timebase.MicrosecondsContinuousAtTick | src/tim.cpp:29 | the reading just before a tick equals the reading just after it, both for a sample of 550000 and for the reload value 549999 |
| Timebase.MicrosecondsMonotone | src/tim.cpp:18-30 | a later sample never gives a smaller reading |
| Timebase.Clock.GetMs | src/tim.cpp:15 | `get_ms` returns the tick count, which is also the millisecond part of every `get_us` reading taken off a tick boundary |
| Timebase.Clock.constructor | src/tim.cpp:5 | `systick_ms` starts at 0 |
| Timebase.Clock.SysTickHandler | src/tim.cpp:47-50 | `systick_ms` rises by exactly 1, modulo 2^64 |
| Timebase.Clock.Interrupts | src/tim.cpp:47-48 | `n` ticks raise `systick_ms` by `n`, modulo 2^64 |
| Timebase.Clock.GetUs | src/tim.cpp:18-30 | the reading of the first pass without an interrupt between the two reads of `systick_ms`, from the count both reads agree on |
| Timebase.Clock.ReadSettled | src/tim.cpp:22-27 | the retry loop ends at the first undisturbed pass, with the count still in force |
| Timebase.Clock.ReadTwice | src/tim.cpp:24-26 | the two reads agree exactly when no interrupt fired between them |
| Timebase.WrapTwiceReturns | src/tim.cpp:23-27 | counting on by fewer than 2^64 ticks returns to the start count only when no tick happened |
| Timebase.DelayUs | src/tim.cpp:32-37 | returns at the first reading with `get_us() - start >= us`, waiting once per earlier reading |
| Timebase.MsToUs | src/tim.cpp:41 | `ms * 1000` in 64 bits: exact when it fits, congruent modulo 2^64 |
| Timebase.DelayMs | src/tim.cpp:40-42 | `delay_us(ms * 1000)` |
| Timebase.DelayMeasuresRealTime | src/tim.cpp:33-36 | against a true clock, the wrap-around test stops exactly once `us` real microseconds have passed |

The two scheduler builds share the algorithm line for line:
`src/sched.cpp:12-19` is `updateNextTask`, `:21-43` is `taskExit` and
`:45-81` is `initTaskStack`. The rows above cite the HAL build. Its
`src/system/scheduler.hpp` declares a fixed-size table that
`scheduler.cpp` does not use, and `src/system/memory.hpp` declares older
signatures; the model follows the `.cpp` files and `src/sched.h`.

## Left out

- Register-level context switching (`switchTasks`, `start`, the PendSV and SVC assembly): the saved frame is data, and `TaskTable.PendSv` models only the `active` guard and the reselection, with the empty table corrected to select nothing.
- Interrupt masking, `volatile` and ISR/task interleaving: every function is one atomic step. Interrupts that matter to a result are parameters: the interrupt timing of each `get_us` pass, the TXE/RXNE flags of `usart1_isr`, and the yields of the UART wait loop.
- The system `::malloc`/`::realloc`/`::free`: an oracle whose answer is a parameter. Foreign pointers passed on to them are modelled only as "released". `printAllocations` and `getStats` are formatting only.
- Peripheral bring-up: `UART::init`/`mspInit`, `TIM::init` (SysTick configuration), the LCD `init` command sequence except its framebuffer clear, `setDisplayWindow`, `displayOn`/`displayOff`, brightness and `setCursor`, clock setup.
- LCD bus traffic: `writeReg`, `readReg`, `sendData`, `recvData`, `waitForDMA` and `update` are SPI I/O. `readID` is modelled only by its byte packing (`PackId`).
- The font tables `ascii_1206`/`ascii_1608` are in a header that is not part of this model: they are a parameter (`Fonts`).
- `ErrorHandler::handle` never returns: it is the `halted` flag of the DMA queue.
- `handleCmd` and what the commands do: the model only logs each call with its command and arguments.
- The echo of the line editor is collected as a byte sequence, not passed through the UART ring: the UART model covers what `write` does with it.
- The `yield()` in `sys_tick_handler` is a scheduler request and is not modelled.
- Timebase.Clock.GetUs: the SysTick reload value 549999 comes from `systick_set_frequency`, which is not part of this model. The counter sample is therefore a parameter, and the bounds of `SubMillisecond`/`Microseconds` assume a sample in `[0, 550000]`. The hardware race where the counter reloads before the interrupt runs is not modelled. Fewer than 2^64 interrupts are assumed within one pass.
- Timebase.DelayUs: the `get_us` readings are a parameter, not tied to the `Clock` object. `DelayMeasuresRealTime` connects them to a true clock.
- Scheduler.TaskTable.YieldDelay: the blocking `HAL_Delay` path is its outcome value only, and the tick readings are a parameter.
- Scheduler.TaskTable.InitTaskStack: the source checks neither allocation for null; the model assumes both succeed and requires `stackSize >= 16`, since a smaller stack would be written below its base. The model keeps `currentTask`/`nextTask` as slot indices, so "nothing else changes" holds for them by construction. In the source they are pointers into the table, and the `realloc` of src/system/scheduler.cpp:24 (src/sched.cpp:52) may move it. When a running task registers another (`exitingTask`, src/main.cpp:100), both pointers then dangle: the next switch saves the stack pointer into the freed block, and the new table keeps a stale `stackPointer` for the running task. That aliasing is not captured.
- Memory.Heap.Malloc: models the corrected layout: it returns the block plus two words, after the magic word, where src/system/memory.cpp:65 returns the block plus one word, the magic word itself (Findings; the as-written pointer is `PayloadWriteBreaksOwnershipAsWritten`).
- Memory.Heap.Free: models the corrected allocator: ownership is read at the corrected layout's header and magic words, and the size is decoded with the marker cleared instead of the `0x7FFFFFFF` mask of src/system/memory.cpp:88, which leaves `used` 0x10000000 short per block (`FreeAsWrittenUndercounts`).
- Memory.Heap.Realloc: models the corrected allocator, with the corrected layout for the new block and the old size decoded with the marker cleared instead of the mask of src/system/memory.cpp:128.
- Memory.MallocAccountsForBlock: proved of the corrected allocator (`MallocSpec`), whose returned pointer is one word later than the source's.
- Memory.FreeUndoesMalloc: holds only for the corrected allocator; as written, `free(malloc(16))` leaves `used` at 0xF0000000 (`FreeAsWrittenUndercounts`), and a caller's first payload write makes `free` treat the block as foreign (`PayloadWriteBreaksOwnershipAsWritten`).
- Memory.ReallocAccountsForResize: the change of `size - old_size` holds only with the corrected decode; as written, `old_size` keeps the marker and `used` drops by a further 0x10000000.
- Memory.DecodeSizeRoundTrip: the round trip is stated for sizes without bit 28, i.e. below 256 MiB, far above this part's RAM. A larger size is indistinguishable from the marker in the header format itself.
- UartRing.Usart1.Write: the promise that at most one byte goes out immediately is stated only when the ring has room for all the bytes. Otherwise the write waits, and bytes go out while it waits. That wait is the corrected one (`WaitForRoom` enables the TX interrupt first); as written in src/uart.cpp:33-35, a write of 1024 or more bytes from an idle transmitter never returns (`WriteAsWrittenWaitsForever`), so "all bytes are queued" holds only for the corrected code.
- UartRing.Usart1.PutByte: queues its byte only through the corrected `WaitForRoom`; as written, waiting on a full ring with the TX interrupt off never ends (Findings).
- Lcd.Display.DrawChar: sizes other than 12 and 16 and characters outside the font tables are excluded by `requires`, because the source indexes the tables out of range for them.
- Lcd.Display.DrawString: requires a NUL in the string and printable characters before it, as `drawChar` does. It draws through the corrected `drawChar`: as written, src/peripherals/lcd.cpp:277-283 calls `drawChar` with no edge check, so a string starting at a negative `x` or running past x=160 (size 12 with the last glyph at x=156, say) has that glyph sheared by lcd.cpp:274.
- Lcd.TextShowsEachCharacter: proved of `Text`, which draws every glyph with the corrected `drawChar`; as written, a glyph clipped at the left or right edge is sheared (`DrawCharAsWrittenShearsClippedGlyph`).
- Lcd.TextShowsLaterCharacter: proved of the corrected `Text`; as written, a later glyph that crosses x=160 is sheared.
- Lcd.TextShowsFirstCharacter: proved of the corrected `Text`; as written, a first glyph at a negative `x` is sheared.
- LineEditor.Editor.Poll: reads the corrected `Request(available)`, at most 31 bytes per pass, where src/tasks.cpp:30 reads all `available` bytes (up to 1023) into the 32-byte `rx_buf`. The rest stays in the ring for the next pass.
- Lcd.Display.DrawLine: the `int16_t` locals are modelled as unbounded integers. `PenInBox` proves they stay in the 16-bit range, so no wrap can occur. The path of pixels is a ghost result, characterised by `LinePath` rather than a closed formula.
- ADC, FatFs forwarding, microSD, GPIO and the demo tasks are outside the core.

## Findings

| source | as written | input that shows it | evidently intended | confidence | as-written member | corrected member |
|---|---|---|---|---|---|---|
| src/system/scheduler.cpp:68-69 | `taskExit` shifts from `taskIndex - 1` even when `taskIndex` is 0 (same in src/sched.cpp:26-27) | 2 or more tasks, the selector picked the last slot so `taskIndex` wrapped to 0, and that task exits | remove the running task's own slot | high, not executed | Scheduler.ExitAfterWrapCorruptsTable | Scheduler.TaskTable.TaskExit |
| src/system/scheduler.cpp:73 | the stack freed is read through `currentTask` after the shift has overwritten its slot (same in src/sched.cpp:30) | 3 tasks with distinct stacks, task in slot 0 exits with `taskIndex == 1`: slot 1's stack is freed | free the exiting task's stack | high, not executed | Scheduler.ExitFreesSuccessorStack | Scheduler.TaskTable.RemoveSlot |
| src/system/scheduler.cpp:79-90 | after the last task exits, `updateNextTask` takes `% taskCount` with `taskCount == 0` (line 117); the PendSV handler of src/sched.cpp:86-89 reaches the same `% 0` while the scheduler stays active (the model's `TaskTable.PendSv` selects nothing there) | one task, which exits | select nothing when the table is empty | high, not executed | Scheduler.ExitOfOnlyTaskDividesByZero | Scheduler.TaskTable.TaskExit |
| src/system/memory.cpp:88 | the decode mask `0x7FFFFFFF` keeps the `0x10000000` marker (same at :128) | `malloc(16)` then `free`: `heap.used` becomes 0xF0000000 | mask the marker off to recover `size` | high, not executed | Memory.FreeAsWrittenUndercounts | Memory.DecodeSizeRoundTrip |
| src/system/memory.cpp:65 | the returned pointer is the address of the magic word written at :52 | `malloc(4)` then the caller stores any word other than 0xDEADBEEF at the pointer, then `free`: the block is taken as foreign | return the address after the magic word | high, not executed | Memory.PayloadWriteBreaksOwnershipAsWritten | Memory.PayloadWritesKeepOwnership |
| src/peripherals/lcd.cpp:274 | `drawChar` passes a `font_width`-stride glyph array to `fillRGBRect`, which reads with the clipped width as stride (:193) | size-12 glyph at `x = -2`: visible width 4, so row 1 is read from the wrong cells | copy each visible row from the glyph's own stride | high, not executed | Lcd.DrawCharAsWrittenShearsClippedGlyph | Lcd.Display.DrawChar |
| src/uart.cpp:33-35 | `write` waits for room with the TX interrupt disabled, which the ISR does whenever the ring empties (:82-83) | idle transmitter, `write` of 1024 bytes: the ring fills and never drains | enable the TX interrupt before waiting | high, not executed | UartRing.WriteAsWrittenWaitsForever | UartRing.Usart1.WaitForRoom |
| src/tasks.cpp:28-30 | `read(available, rx_buf)` with up to 1023 bytes available and a 32-byte `rx_buf`; `read` also stores a NUL after the bytes (src/uart.cpp:56) | 32 or more bytes received before one pass of the loop | request at most 31 bytes | high, not executed | LineEditor.RequestAsWrittenOverrunsRxBuf | LineEditor.RequestFitsRxBuf |
