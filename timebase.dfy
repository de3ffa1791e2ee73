/** The millisecond/microsecond timebase of the libopencm3 build: a 64-bit
    millisecond count advanced by the SysTick interrupt, a microsecond
    reading that combines it with the SysTick down-counter, and the
    wrap-safe busy-wait delays built on that reading. */
module Timebase {
  import opened Machine

  /** SysTick interrupt rate in Hz: one tick per millisecond. */
  const SYSTICK_FREQ: int := 1000
  /** Core clock cycles per microsecond and per millisecond at 550 MHz. */
  const TICKS_PER_US: int := 550
  const TICKS_PER_MS: int := 550000
  /** Width of the SysTick current-value register. */
  const TWO_24: int := 0x100_0000

  type u24 = x: int | 0 <= x < TWO_24

  // ---------------------------------------------------------------------------
  // The microsecond reading

  /** Microseconds within the current millisecond: the cycles the SysTick
      counter has counted down from 550000, divided by 550. Both steps are
      64-bit unsigned, so a counter value above 550000 wraps. */
  function SubMillisecond(val: u24): (sub: u64)
    ensures val <= TICKS_PER_MS ==> 0 <= sub <= 1000
    ensures val <= TICKS_PER_MS ==> (sub == 1000 <==> val == 0)
    ensures val <= TICKS_PER_MS ==> sub * TICKS_PER_US <= TICKS_PER_MS - val < (sub + 1) * TICKS_PER_US
  {
    ((TICKS_PER_MS - val) % TWO_64) / TICKS_PER_US
  }

  /** The value `get_us` returns for a millisecond count `ms` and a SysTick
      sample `val`, with the 64-bit wrap of `ms * 1000 + ...`. */
  function Microseconds(ms: u64, val: u24): (us: u64)
    ensures ms * 1000 + 1000 < TWO_64 && val <= TICKS_PER_MS ==>
      ms * 1000 <= us <= ms * 1000 + 1000 && us == ms * 1000 + SubMillisecond(val)
    ensures ms * 1000 + 1000 < TWO_64 && 0 < val <= TICKS_PER_MS ==> us / 1000 == ms
  {
    (ms * 1000 + SubMillisecond(val)) % TWO_64
  }

  /** The reading that catches the counter at zero, just before the tick,
      equals the reading that catches it at reload, just after: the
      microsecond count is continuous across a millisecond boundary. The
      counter reloads to 549999, one below `TICKS_PER_MS`; that sample
      gives the same reading, since both round down to no microsecond. */
  lemma MicrosecondsContinuousAtTick(ms: u64)
    requires ms * 1000 + 2000 < TWO_64
    ensures Microseconds(ms, 0) == Microseconds(ms + 1, TICKS_PER_MS)
    ensures Microseconds(ms, 0) == Microseconds(ms + 1, TICKS_PER_MS - 1)
  {
  }

  /** Later readings never give a smaller microsecond count: within one
      millisecond the counter counts down, and a later millisecond outweighs
      any sub-millisecond part. */
  lemma {:induction false} MicrosecondsMonotone(ms1: u64, val1: u24, ms2: u64, val2: u24)
    requires val1 <= TICKS_PER_MS && val2 <= TICKS_PER_MS
    requires ms1 < ms2 || (ms1 == ms2 && val1 >= val2)
    requires ms2 * 1000 + 1000 < TWO_64
    ensures Microseconds(ms1, val1) <= Microseconds(ms2, val2)
  {
    var sub1, sub2 := SubMillisecond(val1), SubMillisecond(val2);
    if ms1 == ms2 {
      assert sub1 <= sub2;
    } else {
      assert ms1 * 1000 + 1000 <= ms2 * 1000;
    }
  }

  // ---------------------------------------------------------------------------
  // The interrupt-driven millisecond count

  /** One pass of the retry loop in `get_us`, as the interrupt timing decides
      it: `lead` SysTick interrupts fire before the first read of the
      millisecond count, `early` between that read and the counter sample
      `val`, `late` between the sample and the second read. */
  datatype Attempt = Attempt(lead: nat, early: nat, val: u24, late: nat)

  /** A pass during whose reads no interrupt fired. */
  predicate Undisturbed(a: Attempt)
  {
    a.early == 0 && a.late == 0
  }

  class Clock {
    /** `systick_ms`: milliseconds since boot. */
    var systickMs: u64

    /** The count starts at zero at boot. */
    constructor()
      ensures systickMs == 0
    {
      systickMs := 0;
    }

    /** `get_ms`: the millisecond count, which is also the millisecond
        part of every `get_us` reading taken off a tick boundary. */
    function GetMs(): (ms: u64)
      reads this
      ensures ms == systickMs
      ensures ms * 1000 + 1000 < TWO_64 ==>
        forall val: u24 :: 0 < val <= TICKS_PER_MS ==> Microseconds(ms, val) / 1000 == ms
    {
      systickMs
    }

    /** `sys_tick_handler`: the count goes up by exactly one, wrapping at
        2^64. The yield that follows is the scheduler's concern. */
    method SysTickHandler()
      modifies this
      ensures systickMs == (old(systickMs) + 1) % TWO_64
    {
      systickMs := if systickMs + 1 < TWO_64 then systickMs + 1 else 0;
    }

    /** `n` SysTick interrupts in a row. */
    method Interrupts(n: nat)
      modifies this
      ensures systickMs == (old(systickMs) + n) % TWO_64
    {
      var fired := 0;
      while fired < n
        invariant fired <= n
        invariant systickMs == (old(systickMs) + fired) % TWO_64
      {
        SysTickHandler();
        fired := fired + 1;
      }
    }

    /** `get_us`: the microsecond reading of the first pass whose two reads
        of the count agree. `attempts` lists the interrupt timing and the
        counter sample of every pass; `tries` is the number of passes that
        were thrown away. The count never moves by a whole 2^64 during one
        pass. */
    method GetUs(attempts: seq<Attempt>) returns (us: u64, tries: nat)
      requires forall i :: 0 <= i < |attempts| ==> attempts[i].early + attempts[i].late < TWO_64
      requires exists i :: 0 <= i < |attempts| && Undisturbed(attempts[i])
      modifies this
      ensures tries < |attempts| && Undisturbed(attempts[tries])
      ensures forall j :: 0 <= j < tries ==> !Undisturbed(attempts[j])
      ensures us == Microseconds(systickMs, attempts[tries].val)
    {
      var ms, val;
      ms, val, tries := ReadSettled(attempts);
      us := Microseconds(ms, val);
    }

    /** The retry loop of `get_us`: read the count, sample the SysTick
        counter, read the count again, until both reads agree. The count
        returned is the one in force when the counter was sampled, and it is
        still in force on return. */
    method ReadSettled(attempts: seq<Attempt>) returns (ms: u64, val: u24, tries: nat)
      requires forall i :: 0 <= i < |attempts| ==> attempts[i].early + attempts[i].late < TWO_64
      requires exists i :: 0 <= i < |attempts| && Undisturbed(attempts[i])
      modifies this
      ensures tries < |attempts| && Undisturbed(attempts[tries])
      ensures forall j :: 0 <= j < tries ==> !Undisturbed(attempts[j])
      ensures ms == systickMs && val == attempts[tries].val
    {
      ghost var last :| 0 <= last < |attempts| && Undisturbed(attempts[last]);
      tries := 0;
      while true
        invariant tries <= last
        invariant forall j :: 0 <= j < tries ==> !Undisturbed(attempts[j])
        decreases |attempts| - tries
      {
        var a := attempts[tries];
        var ms1, ms2 := ReadTwice(a);
        if ms1 == ms2 {
          return ms1, a.val, tries;
        }
        tries := tries + 1;
      }
    }

    /** One pass of the retry loop: let `a.lead` interrupts fire, read the
        count, let `a.early` fire, sample the counter, let `a.late` fire,
        read the count again. The reads agree exactly when no interrupt
        fired between them. */
    method ReadTwice(a: Attempt) returns (ms1: u64, ms2: u64)
      requires a.early + a.late < TWO_64
      modifies this
      ensures ms1 == ms2 <==> Undisturbed(a)
      ensures ms2 == systickMs
    {
      Interrupts(a.lead);
      ms1 := GetMs();
      Interrupts(a.early);
      Interrupts(a.late);
      ms2 := GetMs();
      WrapTwiceReturns(ms1, a.early, a.late);
    }
  }

  /** Counting on from `x` by `e` and then by `l` (modulo 2^64), with
      `e + l` below 2^64, comes back to `x` only when both steps are zero. */
  lemma WrapTwiceReturns(x: u64, e: nat, l: nat)
    requires e + l < TWO_64
    ensures ((x + e) % TWO_64 + l) % TWO_64 == x <==> e == 0 && l == 0
  {
    var y := (x + e) % TWO_64;
    assert y == if x + e < TWO_64 then x + e else x + e - TWO_64;
    var z := (y + l) % TWO_64;
    assert z == if y + l < TWO_64 then y + l else y + l - TWO_64;
  }

  // ---------------------------------------------------------------------------
  // Busy-wait delays

  /** `delay_us`: take a start reading, then yield after every reading that
      finds fewer than `us` microseconds elapsed (64-bit wrap-around
      subtraction). `readings` lists what the successive `get_us` calls
      return; the result is the number of waits. */
  method DelayUs(us: u64, readings: seq<u64>) returns (waits: nat)
    requires |readings| >= 1
    requires exists k :: 1 <= k < |readings| && Elapsed64(readings[0], readings[k]) >= us
    ensures waits + 1 < |readings|
    ensures Elapsed64(readings[0], readings[waits + 1]) >= us
    ensures forall k :: 1 <= k <= waits ==> Elapsed64(readings[0], readings[k]) < us
  {
    var start := readings[0];
    var read := 1;
    waits := 0;
    while Elapsed64(start, readings[read]) < us
      invariant 1 <= read < |readings| && waits == read - 1
      invariant forall k :: 1 <= k < read ==> Elapsed64(start, readings[k]) < us
      invariant exists k :: read <= k < |readings| && Elapsed64(start, readings[k]) >= us
      decreases |readings| - read
    {
      waits := waits + 1;
      read := read + 1;
    }
  }

  /** The microsecond count `ms * 1000` of `delay_ms`, computed in 64 bits. */
  function MsToUs(ms: u64): (us: u64)
    ensures ms * 1000 < TWO_64 ==> us == ms * 1000
    ensures (ms * 1000 - us) % TWO_64 == 0
  {
    (ms * 1000) % TWO_64
  }

  /** `delay_ms`: a microsecond delay of `ms * 1000`. */
  method DelayMs(ms: u64, readings: seq<u64>) returns (waits: nat)
    requires |readings| >= 1
    requires exists k :: 1 <= k < |readings| && Elapsed64(readings[0], readings[k]) >= MsToUs(ms)
    ensures waits + 1 < |readings|
    ensures Elapsed64(readings[0], readings[waits + 1]) >= MsToUs(ms)
    ensures forall k :: 1 <= k <= waits ==> Elapsed64(readings[0], readings[k]) < MsToUs(ms)
  {
    waits := DelayUs(MsToUs(ms), readings);
  }

  /** Read against true time: when the readings are a clock taken modulo
      2^64 and less than 2^64 microseconds pass during the wait, the delay
      polls exactly until `us` real microseconds have elapsed, wrap-around
      of the register included. */
  lemma {:induction false} DelayMeasuresRealTime(us: u64, times: seq<nat>, readings: seq<u64>)
    requires |times| == |readings| >= 1
    requires forall k :: 0 <= k < |times| ==> readings[k] == times[k] % TWO_64
    requires forall k :: 0 <= k < |times| ==> 0 <= times[k] - times[0] < TWO_64
    ensures forall k :: 0 <= k < |times| ==>
      (Elapsed64(readings[0], readings[k]) >= us <==> times[k] - times[0] >= us)
  {
    forall k | 0 <= k < |times|
      ensures Elapsed64(readings[0], readings[k]) == times[k] - times[0]
    {
      Elapsed64IsWrapSafe(times[0], times[k]);
    }
  }
}
