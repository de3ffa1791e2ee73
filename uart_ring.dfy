/** The interrupt-driven USART1 driver: two 1024-byte rings with head and
    tail indices, one slot always left empty. Each function is one atomic
    step; the flags the code polls (RXNE, TXE) and the received byte are
    parameters, and every byte put on the line is appended to `wire`. */
module UartRing {
  import opened Machine

  const RING_SIZE: nat := 1024

  /** `(i + 1) % sizeof(buffer)`. */
  function Advance(i: nat): (j: nat)
    requires i < RING_SIZE
    ensures j < RING_SIZE
  {
    (i + 1) % RING_SIZE
  }

  /** Number of bytes buffered between `tail` and `head`. */
  function Count(tail: nat, head: nat): (n: nat)
    requires tail < RING_SIZE && head < RING_SIZE
    ensures n < RING_SIZE
  {
    if tail <= head then head - tail else head + RING_SIZE - tail
  }

  /** The bytes buffered in `buf`, oldest first. */
  function RingSlice(buf: seq<u8>, tail: nat, head: nat): (s: seq<u8>)
    requires |buf| == RING_SIZE && tail < RING_SIZE && head < RING_SIZE
    ensures |s| == Count(tail, head)
  {
    seq(Count(tail, head), k requires 0 <= k < Count(tail, head) => buf[(tail + k) % RING_SIZE])
  }

  /** Storing at the head and advancing it appends one byte, unless the
      ring is full. */
  lemma PushAppends(buf: seq<u8>, tail: nat, head: nat, b: u8)
    requires |buf| == RING_SIZE && tail < RING_SIZE && head < RING_SIZE
    requires Advance(head) != tail
    ensures RingSlice(buf[head := b], tail, Advance(head)) == RingSlice(buf, tail, head) + [b]
  {
    var s := RingSlice(buf, tail, head);
    var s' := RingSlice(buf[head := b], tail, Advance(head));
    assert |s'| == |s| + 1;
    forall k | 0 <= k < |s'|
      ensures s'[k] == (s + [b])[k]
    {
      if k < |s| {
        assert (tail + k) % RING_SIZE != head;
      } else {
        assert (tail + k) % RING_SIZE == head;
      }
    }
  }

  /** Taking the byte at the tail and advancing it removes the oldest byte. */
  lemma PopRemovesOldest(buf: seq<u8>, tail: nat, head: nat)
    requires |buf| == RING_SIZE && tail < RING_SIZE && head < RING_SIZE
    requires tail != head
    ensures RingSlice(buf, tail, head) != []
    ensures RingSlice(buf, tail, head)[0] == buf[tail]
    ensures RingSlice(buf, Advance(tail), head) == RingSlice(buf, tail, head)[1..]
  {
    var s := RingSlice(buf, tail, head);
    var s' := RingSlice(buf, Advance(tail), head);
    assert |s'| == |s| - 1;
    forall k | 0 <= k < |s'|
      ensures s'[k] == s[k + 1]
    {
      assert (Advance(tail) + k) % RING_SIZE == (tail + (k + 1)) % RING_SIZE;
    }
  }

  /** The ring is full exactly when it holds 1023 bytes. */
  lemma FullMeansCount(tail: nat, head: nat)
    requires tail < RING_SIZE && head < RING_SIZE
    ensures Advance(head) == tail <==> Count(tail, head) == RING_SIZE - 1
  {
  }

  /** `(head - tail) % 1024` computed on 32-bit `size_t` counts the
      buffered bytes, also when the head has wrapped below the tail. */
  lemma WrappedDifferenceCounts(tail: nat, head: nat)
    requires tail < RING_SIZE && head < RING_SIZE
    ensures Sub32(head, tail) % RING_SIZE == Count(tail, head)
  {
    if head < tail {
      assert Sub32(head, tail) == (0x40_0000 - 1) * RING_SIZE + (head + RING_SIZE - tail);
    }
  }

  // ---------------------------------------------------------------------------
  // The transmit wait as written

  /** The transmit side as the wait loop in `write` sees it. */
  datatype TxRing = TxRing(head: nat, tail: nat, txInterrupt: bool)

  predicate WellFormed(r: TxRing)
  {
    r.head < RING_SIZE && r.tail < RING_SIZE
  }

  /** One `yield()`: the TX interrupt runs only while it is enabled, and then
      either sends the oldest byte or, on an empty ring, disables itself. */
  function YieldOnce(r: TxRing): (r': TxRing)
    requires WellFormed(r)
    ensures WellFormed(r')
  {
    if !r.txInterrupt then r
    else if r.head == r.tail then r.(txInterrupt := false)
    else r.(tail := Advance(r.tail))
  }

  function YieldTimes(r: TxRing, k: nat): (r': TxRing)
    requires WellFormed(r)
    ensures WellFormed(r')
    decreases k
  {
    if k == 0 then r else YieldTimes(YieldOnce(r), k - 1)
  }

  /** The store loop of `write` before its first wait, when nothing drains
      the ring: `n` bytes stored, or as many as fit. */
  function StoreWithoutDrain(r: TxRing, n: nat): (r': TxRing)
    requires WellFormed(r)
    ensures WellFormed(r')
    decreases n
  {
    if n == 0 || Advance(r.head) == r.tail then r
    else StoreWithoutDrain(r.(head := Advance(r.head)), n - 1)
  }

  /** The TX interrupt is disabled whenever the ring has drained; a `write`
      of 1024 bytes or more from that state stores 1023 bytes, finds the ring
      full, and waits with the interrupt still disabled, so no number of
      yields ever frees a slot. */
  lemma {:induction false} WriteAsWrittenWaitsForever(tail: nat, n: nat, k: nat)
    requires tail < RING_SIZE && n >= RING_SIZE
    ensures var r := StoreWithoutDrain(TxRing(tail, tail, false), n);
      && Advance(r.head) == r.tail
      && !r.txInterrupt
      && YieldTimes(r, k) == r
  {
    var r := StoreWithoutDrain(TxRing(tail, tail, false), n);
    StoreFillsRing(TxRing(tail, tail, false), n, 0);
    YieldWithoutInterruptIsIdle(r, k);
  }

  lemma {:induction false} StoreFillsRing(r: TxRing, n: nat, stored: nat)
    requires WellFormed(r) && !r.txInterrupt
    requires stored < RING_SIZE && Count(r.tail, r.head) == stored
    requires n + stored >= RING_SIZE
    ensures var r' := StoreWithoutDrain(r, n);
      Advance(r'.head) == r'.tail && !r'.txInterrupt && r'.tail == r.tail
    decreases n
  {
    if Advance(r.head) == r.tail {
    } else {
      assert n > 0;
      var r1 := r.(head := Advance(r.head));
      assert Count(r1.tail, r1.head) == stored + 1;
      StoreFillsRing(r1, n - 1, stored + 1);
    }
  }

  lemma {:induction false} YieldWithoutInterruptIsIdle(r: TxRing, k: nat)
    requires WellFormed(r) && !r.txInterrupt
    ensures YieldTimes(r, k) == r
    decreases k
  {
    if k > 0 {
      YieldWithoutInterruptIsIdle(YieldOnce(r), k - 1);
    }
  }

  /** With the interrupt enabled before each wait, a full ring always frees
      a slot at the next yield. */
  lemma YieldWithInterruptFreesSlot(r: TxRing)
    requires WellFormed(r) && Advance(r.head) == r.tail
    ensures var r' := YieldOnce(r.(txInterrupt := true));
      Advance(r'.head) != r'.tail && r'.tail == Advance(r.tail)
  {
  }

  /** What `read(size, data)` demands of its destination: room for up to
      `size` bytes and the NUL stored after them. */
  predicate ReadFits(capacity: nat, size: nat)
  {
    capacity > size
  }

  /** How many bytes `read(size, data)` copies when `buffered` are waiting;
      the NUL goes to that index of `data`. */
  function ReadCount(size: nat, buffered: nat): nat
  {
    Min(size, buffered)
  }

  // ---------------------------------------------------------------------------
  // The driver state

  class Usart1 {
    var txBuffer: array<u8>
    var rxBuffer: array<u8>
    var txHead: nat
    var txTail: nat
    var rxHead: nat
    var rxTail: nat
    /** The TXE interrupt enable bit of USART1. */
    var txInterruptEnabled: bool
    /** Every byte handed to the transmitter, in order. */
    var wire: seq<u8>

    ghost predicate Valid()
      reads this
    {
      && txBuffer.Length == RING_SIZE && rxBuffer.Length == RING_SIZE
      && txBuffer != rxBuffer
      && txHead < RING_SIZE && txTail < RING_SIZE
      && rxHead < RING_SIZE && rxTail < RING_SIZE
    }

    /** Bytes waiting to be sent, oldest first. */
    ghost function TxPending(): seq<u8>
      reads this, txBuffer
      requires Valid()
    {
      RingSlice(txBuffer[..], txTail, txHead)
    }

    /** Bytes received and not yet read, oldest first. */
    ghost function RxPending(): seq<u8>
      reads this, rxBuffer
      requires Valid()
    {
      RingSlice(rxBuffer[..], rxTail, rxHead)
    }

    /** Static initial values: both rings empty, TX interrupt off. */
    constructor ()
      ensures Valid() && fresh(txBuffer) && fresh(rxBuffer)
      ensures TxPending() == [] && RxPending() == [] && wire == [] && !txInterruptEnabled
    {
      txBuffer := new u8[RING_SIZE](_ => 0);
      rxBuffer := new u8[RING_SIZE](_ => 0);
      txHead, txTail, rxHead, rxTail := 0, 0, 0, 0;
      txInterruptEnabled := false;
      wire := [];
    }

    /** `usart1_isr`: a received byte (RXNE) is stored unless the RX ring
        is full, in which case it is dropped; otherwise, on TXE, the transmit
        side is served. */
    method UsartIsr(rxne: bool, received: u8, txe: bool)
      requires Valid()
      modifies this`rxHead, this`txTail, this`txInterruptEnabled, this`wire, rxBuffer
      ensures Valid()
      ensures rxne ==>
        && (if Count(old(rxTail), old(rxHead)) < RING_SIZE - 1
            then RxPending() == old(RxPending()) + [received]
            else RxPending() == old(RxPending()) && rxHead == old(rxHead))
        && wire == old(wire) && txTail == old(txTail) && txInterruptEnabled == old(txInterruptEnabled)
      ensures !rxne ==> rxHead == old(rxHead) && RxPending() == old(RxPending())
      ensures !rxne && txe ==> TxServed(old(TxPending()), old(wire), old(txTail), old(txInterruptEnabled))
      ensures !rxne && !txe ==>
        wire == old(wire) && txTail == old(txTail) && txInterruptEnabled == old(txInterruptEnabled)
    {
      if rxne {
        FullMeansCount(rxTail, rxHead);
        if Advance(rxHead) != rxTail {
          PushAppends(rxBuffer[..], rxTail, rxHead, received);
          rxBuffer[rxHead] := received;
          rxHead := Advance(rxHead);
        }
      } else if txe {
        ServiceTx();
      }
    }

    /** What serving TXE did, given the state before: an empty ring turned
        the TX interrupt off; otherwise the oldest pending byte went onto the
        line. */
    ghost predicate TxServed(pending: seq<u8>, wire0: seq<u8>, tail0: nat, enabled0: bool)
      reads this, txBuffer
      requires Valid()
    {
      if pending == [] then
        !txInterruptEnabled && wire == wire0 && txTail == tail0
      else
        && wire == wire0 + [pending[0]]
        && TxPending() == pending[1..]
        && txInterruptEnabled == enabled0
    }

    /** The TXE branch of `usart1_isr`. */
    method ServiceTx()
      requires Valid()
      modifies this`txTail, this`txInterruptEnabled, this`wire
      ensures Valid()
      ensures TxServed(old(TxPending()), old(wire), old(txTail), old(txInterruptEnabled))
    {
      if txHead == txTail {
        txInterruptEnabled := false;
      } else {
        PopRemovesOldest(txBuffer[..], txTail, txHead);
        wire := wire + [txBuffer[txTail]];
        txTail := Advance(txTail);
      }
    }

    /** `write`: append `size` bytes of `data` to the TX ring, waiting for
        room when it is full, then, if the transmitter is idle (`txe`),
        send the oldest byte at once, and enable the TX interrupt. The wait
        is the corrected one of `WaitForRoom`: the TX interrupt is enabled
        first, so one `yield()` lets it send one byte (the source only
        yields, see `WriteAsWrittenWaitsForever`). */
    method Write(size: u16, data: seq<u8>, txe: bool)
      requires Valid() && |data| >= size
      modifies this`txHead, this`txTail, this`txInterruptEnabled, this`wire, txBuffer
      ensures Valid() && txInterruptEnabled
      ensures wire + TxPending() == old(wire + TxPending()) + data[..size]
      ensures old(|TxPending()|) + size < RING_SIZE ==> |wire| <= old(|wire|) + 1
    {
      ghost var sent, pending := wire, TxPending();
      var i := 0;
      while i < size
        invariant Valid() && i <= size
        invariant wire + TxPending() == sent + pending + data[..i]
        invariant |pending| + size < RING_SIZE ==>
          wire == sent && |TxPending()| == |pending| + i
      {
        PutByte(data[i]);
        assert data[..i + 1] == data[..i] + [data[i]];
        i := i + 1;
      }
      assert data[..size] == data[..i];
      StartTransmitter(txe);
    }

    /** The end of `write`: when the transmit register is empty and bytes
        are waiting, the oldest goes out at once; then the TX interrupt is
        enabled. */
    method StartTransmitter(txe: bool)
      requires Valid()
      modifies this`txTail, this`txInterruptEnabled, this`wire
      ensures Valid() && txInterruptEnabled
      ensures wire + TxPending() == old(wire + TxPending())
      ensures |wire| <= old(|wire|) + 1
    {
      if txe && txHead != txTail {
        PopRemovesOldest(txBuffer[..], txTail, txHead);
        wire := wire + [txBuffer[txTail]];
        txTail := Advance(txTail);
      }
      txInterruptEnabled := true;
    }

    /** One round of the copy loop of `write`: wait for room in the TX
        ring with the corrected `WaitForRoom`, then store `b` at the head
        and advance it. */
    method PutByte(b: u8)
      requires Valid()
      modifies this`txHead, this`txTail, this`txInterruptEnabled, this`wire, txBuffer
      ensures Valid()
      ensures wire + TxPending() == old(wire + TxPending()) + [b]
      ensures Advance(old(txHead)) != old(txTail) ==>
        wire == old(wire) && |TxPending()| == old(|TxPending()|) + 1
    {
      var nextHead := Advance(txHead);
      FullMeansCount(txTail, txHead);
      WaitForRoom();
      ghost var w, pending := wire, TxPending();
      PushAppends(txBuffer[..], txTail, txHead, b);
      txBuffer[txHead] := b;
      txHead := nextHead;
      assert TxPending() == pending + [b];
    }

    /** The wait loop of `write`, corrected: while the TX ring is full,
        enable the TX interrupt and yield, letting it send the oldest byte
        (the source yields without enabling it). */
    method WaitForRoom()
      requires Valid()
      modifies this`txTail, this`txInterruptEnabled, this`wire
      ensures Valid() && Advance(txHead) != txTail
      ensures wire + TxPending() == old(wire + TxPending())
      ensures Advance(old(txHead)) != old(txTail) ==> wire == old(wire) && txTail == old(txTail)
    {
      while Advance(txHead) == txTail
        invariant Valid()
        invariant wire + TxPending() == old(wire + TxPending())
        invariant Advance(old(txHead)) != old(txTail) ==> wire == old(wire) && txTail == old(txTail)
        decreases if Advance(txHead) == txTail then 1 else 0
      {
        txInterruptEnabled := true;
        ServiceTx();
      }
    }

    /** `read`: copy up to `size` buffered bytes into `data` in arrival
        order, NUL-terminate them, and return how many were copied. */
    method Read(size: u16, data: array<u8>) returns (count: nat)
      requires Valid() && ReadFits(data.Length, size)
      requires data != rxBuffer && data != txBuffer
      modifies this`rxTail, data
      ensures Valid()
      ensures count == ReadCount(size, |old(RxPending())|)
      ensures data[..count] == old(RxPending())[..count] && data[count] == 0
      ensures RxPending() == old(RxPending())[count..]
    {
      count := 0;
      while rxTail != rxHead && count < size
        invariant Valid() && count <= size
        invariant count <= |old(RxPending())|
        invariant data[..count] == old(RxPending())[..count]
        invariant RxPending() == old(RxPending())[count..]
        decreases size - count
      {
        PopRemovesOldest(rxBuffer[..], rxTail, rxHead);
        data[count] := rxBuffer[rxTail];
        rxTail := Advance(rxTail);
        count := count + 1;
      }
      data[count] := 0;
    }

    /** `available`: the number of bytes waiting in the RX ring. */
    method Available() returns (n: nat)
      requires Valid()
      ensures n == |RxPending()|
    {
      WrappedDifferenceCounts(rxTail, rxHead);
      n := Sub32(rxHead, rxTail) % RING_SIZE;
    }

    /** `_write`, the C library's output hook: the length is passed on as a
        16-bit count, and the full `len` is reported back as written. */
    method WriteSyscall(file: int, ptr: seq<u8>, len: int, txe: bool) returns (r: int)
      requires Valid() && |ptr| >= len % TWO_16
      modifies this`txHead, this`txTail, this`txInterruptEnabled, this`wire, txBuffer
      ensures Valid() && r == len
      ensures wire + TxPending() == old(wire + TxPending()) + ptr[..len % TWO_16]
    {
      Write(len % TWO_16, ptr, txe);
      r := len;
    }
  }
}
