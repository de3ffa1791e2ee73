/** The DMA-driven USART1 transmitter of the HAL build: a double-ended
    queue of strings and a `dmaBusy` flag. `write` queues a copy of the
    caller's bytes and starts a transfer when none is running; the DMA
    completion callback drops the string just sent and chains the next one.
    Every call of `HAL_UART_Transmit_DMA` is recorded in `transfers`; its
    status is a parameter. `ErrorHandler::handle` never returns, which is
    modelled by the `halted` flag. */
module UartDma {
  import opened Machine

  /** The driver's globals plus the log of started transfers. */
  datatype DmaQueue = DmaQueue(
    buffers: seq<seq<u8>>,   // `txBuffers`, front first
    busy: bool,              // `dmaBusy`
    transfers: seq<seq<u8>>, // the strings handed to the DMA, in order
    halted: bool)            // the error handler has been entered

  const IDLE := DmaQueue([], false, [], false)

  /** The strings queued but not yet handed to the DMA: while a transfer
      runs, the front string is the one on its way out. */
  function Waiting(q: DmaQueue): (w: seq<seq<u8>>)
    ensures |w| <= |q.buffers|
    ensures w == [] <==> (q.busy && |q.buffers| <= 1) || q.buffers == []
  {
    if q.busy && q.buffers != [] then q.buffers[1..] else q.buffers
  }

  /** Start the DMA on the front string; a failed start enters the error
      handler. */
  function StartFront(q: DmaQueue, halOk: bool): (r: DmaQueue)
    requires q.buffers != []
    ensures r.buffers == q.buffers && r.busy == q.busy
    ensures r.transfers == q.transfers + [q.buffers[0]]
    ensures r.halted <==> q.halted || !halOk
  {
    q.(transfers := q.transfers + [q.buffers[0]], halted := q.halted || !halOk)
  }

  /** `UART::write(buf, count)`: the new state and the return value. */
  function WriteSpec(q: DmaQueue, buf: seq<u8>, count: int, halOk: bool): (DmaQueue, int)
    requires count <= |buf|
  {
    if count <= 0 then (q, 0)
    else
      var queued := q.(buffers := q.buffers + [buf[..count]]);
      if !q.busy then
        var started := StartFront(queued, halOk);
        if !halOk then (started, -1) else (started.(busy := true), count)
      else (queued.(busy := true), count)
  }

  /** `UART::dmaCallback()`: the transfer of the front string has ended. */
  function CallbackSpec(q: DmaQueue, halOk: bool): DmaQueue
    requires q.buffers != []
  {
    var popped := q.(buffers := q.buffers[1..]);
    if popped.buffers == [] then popped.(busy := false)
    else StartFront(popped, halOk)
  }

  /** A running driver: a transfer is under way exactly when strings are
      queued, and the transfers started so far followed by the strings
      still waiting are exactly `written`, in order. */
  predicate Accounts(q: DmaQueue, written: seq<seq<u8>>)
  {
    && !q.halted
    && (q.busy <==> q.buffers != [])
    && q.transfers + Waiting(q) == written
  }

  lemma WriteOfNothingChangesNothing(q: DmaQueue, buf: seq<u8>, count: int, halOk: bool)
    requires count <= 0
    ensures WriteSpec(q, buf, count, halOk) == (q, 0)
  {
  }

  /** A write of `count > 0` bytes queues exactly one string, those bytes,
      at the back, and starts a transfer of the front string exactly when
      none was running. */
  lemma WriteQueuesAtBack(q: DmaQueue, buf: seq<u8>, count: int, halOk: bool)
    requires 0 < count <= |buf|
    ensures WriteSpec(q, buf, count, halOk).0.buffers == q.buffers + [buf[..count]]
    ensures |WriteSpec(q, buf, count, halOk).0.buffers[|q.buffers|]| == count
    ensures q.busy ==> WriteSpec(q, buf, count, halOk).0.transfers == q.transfers
    ensures !q.busy ==> WriteSpec(q, buf, count, halOk).0.transfers
                        == q.transfers + [(q.buffers + [buf[..count]])[0]]
  {
  }

  /** A write that did not enter the error handler returns `count` and
      leaves a transfer running; a failed start returns -1 and halts. */
  lemma WriteReturnsCount(q: DmaQueue, buf: seq<u8>, count: int, halOk: bool)
    requires 0 < count <= |buf| && !q.halted
    ensures var (q', r) := WriteSpec(q, buf, count, halOk);
      if q.busy || halOk then r == count && q'.busy && !q'.halted
      else r == -1 && q'.halted && !q'.busy
  {
  }

  /** The callback drops the front string; it clears `dmaBusy` and starts
      nothing when the queue has run dry, and otherwise starts the new
      front. */
  lemma CallbackPopsFront(q: DmaQueue, halOk: bool)
    requires q.buffers != []
    ensures CallbackSpec(q, halOk).buffers == q.buffers[1..]
    ensures |q.buffers| == 1 ==>
      !CallbackSpec(q, halOk).busy && CallbackSpec(q, halOk).transfers == q.transfers
    ensures |q.buffers| > 1 ==>
      CallbackSpec(q, halOk).busy == q.busy
      && CallbackSpec(q, halOk).transfers == q.transfers + [q.buffers[1]]
  {
  }

  lemma IdleAccountsForNothing()
    ensures Accounts(IDLE, [])
  {
  }

  /** A successful write keeps the account, with the new string written
      last. */
  lemma WritePreservesAccounts(q: DmaQueue, written: seq<seq<u8>>, buf: seq<u8>, count: int)
    requires Accounts(q, written) && 0 < count <= |buf|
    ensures Accounts(WriteSpec(q, buf, count, true).0, written + [buf[..count]])
  {
    var s := buf[..count];
    var q' := WriteSpec(q, buf, count, true).0;
    if q.busy {
      assert Waiting(q') == Waiting(q) + [s];
    } else {
      assert q.buffers == [];
      assert q'.buffers == [s];
    }
  }

  /** A successful callback keeps the account: nothing is written, and
      at most one waiting string moves to the transfers. */
  lemma CallbackPreservesAccounts(q: DmaQueue, written: seq<seq<u8>>)
    requires Accounts(q, written) && q.buffers != []
    ensures Accounts(CallbackSpec(q, true), written)
  {
    var q' := CallbackSpec(q, true);
    if |q.buffers| > 1 {
      assert Waiting(q) == [q.buffers[1]] + Waiting(q');
    }
  }

  /** The strings are handed to the DMA in the order they were written:
      the transfers are always a prefix of what was written. */
  lemma TransfersFollowWriteOrder(q: DmaQueue, written: seq<seq<u8>>)
    requires Accounts(q, written)
    ensures q.transfers <= written
    ensures |written| - |q.transfers| == |Waiting(q)|
  {
    assert written[..|q.transfers|] == q.transfers;
  }

  /** `k` completions in a row, each chaining successfully. */
  function Complete(q: DmaQueue, k: nat): (r: DmaQueue)
    requires k <= |q.buffers|
    ensures |r.buffers| == |q.buffers| - k
    decreases k
  {
    if k == 0 then q else Complete(CallbackSpec(q, true), k - 1)
  }

  /** Once the DMA has completed every queued string, each string written
      has been transmitted, in order, and the driver is idle again. */
  lemma {:induction false} DrainTransmitsAll(q: DmaQueue, written: seq<seq<u8>>)
    requires Accounts(q, written)
    ensures Complete(q, |q.buffers|).transfers == written
    ensures !Complete(q, |q.buffers|).busy
    decreases |q.buffers|
  {
    if q.buffers != [] {
      CallbackPreservesAccounts(q, written);
      DrainTransmitsAll(CallbackSpec(q, true), written);
    }
  }

  /** The driver's globals. */
  class DmaUart {
    var txBuffers: seq<seq<u8>>
    var dmaBusy: bool
    var transfers: seq<seq<u8>>
    var halted: bool

    function State(): (q: DmaQueue)
      reads this
      ensures q.buffers == txBuffers && q.busy == dmaBusy
    {
      DmaQueue(txBuffers, dmaBusy, transfers, halted)
    }

    constructor ()
      ensures State() == IDLE
    {
      txBuffers := [];
      dmaBusy := false;
      transfers := [];
      halted := false;
    }

    /** `UART::write`. The string is copied from the first `count` bytes of
        `buf`. */
    method Write(buf: seq<u8>, count: int, halOk: bool) returns (r: int)
      requires !halted && count <= |buf|
      modifies this
      ensures (State(), r) == WriteSpec(old(State()), buf, count, halOk)
    {
      if count <= 0 {
        return 0;
      }
      txBuffers := txBuffers + [buf[..count]];
      if !dmaBusy {
        transfers := transfers + [txBuffers[0]];
        if !halOk {
          halted := true;
          return -1;
        }
      }
      dmaBusy := true;
      return count;
    }

    /** `UART::dmaCallback`, raised when a transfer has finished; the
        queue holds the string that was being sent. */
    method DmaCallback(halOk: bool)
      requires !halted && txBuffers != []
      modifies this
      ensures State() == CallbackSpec(old(State()), halOk)
    {
      txBuffers := txBuffers[1..];
      if txBuffers == [] {
        dmaBusy := false;
        return;
      }
      transfers := transfers + [txBuffers[0]];
      if !halOk {
        halted := true;
      }
    }
  }
}
