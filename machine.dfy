/** Fixed-width machine integers of the Cortex-M7 target, and the small
    helpers shared by the firmware modules. Every C integer of a given width
    is an unbounded integer restricted to its range; wrap-around is written
    out where the C code relies on it. */
module Machine {

  const TWO_8: int := 0x100
  const TWO_16: int := 0x1_0000
  const TWO_32: int := 0x1_0000_0000
  const TWO_64: int := 0x1_0000_0000_0000_0000

  type u8 = x: int | 0 <= x < TWO_8
  type u16 = x: int | 0 <= x < TWO_16
  type u32 = x: int | 0 <= x < TWO_32
  type u64 = x: int | 0 <= x < TWO_64
  type i16 = x: int | -0x8000 <= x < 0x8000

  datatype Option<T> = None | Some(value: T)

  /** Unsigned subtraction `now - start` of two 32-bit counter readings, as
      the C expression computes it: the elapsed count that a wrap-safe polling
      loop compares against its bound. */
  function Elapsed32(start: u32, now: u32): (d: u32)
    ensures (start + d - now) % TWO_32 == 0
  {
    if start <= now then now - start else now - start + TWO_32
  }

  /** 32-bit unsigned addition, wrapping modulo 2^32. */
  function Add32(a: u32, b: u32): (r: u32)
    ensures (a + b - r) % TWO_32 == 0
  {
    if a + b < TWO_32 then a + b else a + b - TWO_32
  }

  /** 32-bit unsigned subtraction `a - b`, wrapping modulo 2^32. */
  function Sub32(a: u32, b: u32): (r: u32)
    ensures (b + r - a) % TWO_32 == 0
  {
    Elapsed32(b, a)
  }

  /** Wrapping subtraction undoes wrapping addition. */
  lemma SubUndoesAdd32(a: u32, b: u32)
    ensures Sub32(Add32(a, b), b) == a
  {
  }

  /** The same subtraction on 64-bit readings. */
  function Elapsed64(start: u64, now: u64): (d: u64)
    ensures (start + d - now) % TWO_64 == 0
  {
    if start <= now then now - start else now - start + TWO_64
  }

  /** Wrap-around subtraction is exact whenever the real elapsed time fits in
      the register: a tick counter that overflowed between the two reads
      still yields the true distance. */
  lemma {:induction false} Elapsed32IsWrapSafe(start: nat, now: nat)
    requires 0 <= now - start < TWO_32
    ensures Elapsed32(start % TWO_32, now % TWO_32) == now - start
  {
    var s, n := start % TWO_32, now % TWO_32;
    var qs, qn := start / TWO_32, now / TWO_32;
    assert start == qs * TWO_32 + s;
    assert now == qn * TWO_32 + n;
    assert qs <= qn <= qs + 1;
    if qn == qs {
      assert n - s == now - start;
    } else {
      assert n - s == now - start - TWO_32;
    }
  }

  /** The 64-bit counterpart: a microsecond counter read modulo 2^64 still
      yields the true distance while it is below 2^64. */
  lemma {:induction false} Elapsed64IsWrapSafe(start: nat, now: nat)
    requires 0 <= now - start < TWO_64
    ensures Elapsed64(start % TWO_64, now % TWO_64) == now - start
  {
    var s, n := start % TWO_64, now % TWO_64;
    var qs, qn := start / TWO_64, now / TWO_64;
    assert start == qs * TWO_64 + s;
    assert now == qn * TWO_64 + n;
    assert qs <= qn <= qs + 1;
    if qn == qs {
      assert n - s == now - start;
    } else {
      assert n - s == now - start - TWO_64;
    }
  }

  /** Conversion of an integer to a two's-complement 16-bit value, as the
      compiler does for `int16_t x += ...`. */
  function WrapI16(x: int): (r: i16)
    ensures (r - x) % TWO_16 == 0
    ensures -0x8000 <= x < 0x8000 ==> r == x
  {
    var m := x % TWO_16;
    if m < 0x8000 then m else m - TWO_16
  }

  function Min(a: int, b: int): (m: int)
    ensures m <= a && m <= b && (m == a || m == b)
  {
    if a <= b then a else b
  }

  function Max(a: int, b: int): (m: int)
    ensures m >= a && m >= b && (m == a || m == b)
  {
    if a >= b then a else b
  }
}
