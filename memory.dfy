/** The tracking allocator that wraps the system `malloc`/`free`/`realloc`.
    Each block carries a header word `size | MARKER` and a magic word in front
    of the caller's payload; a running `used` counter and a bounded tracker of
    live allocations are kept beside. Words are 32-bit (`size_t` on the
    Cortex-M7), with wrap-around written out and the two bit operations of
    the source written as arithmetic on bit 28 and bit 31; memory is a map
    from word address to word, and the system
    allocator is an oracle whose answer (a block address, or 0 for null) is a
    parameter of each operation. */
module Memory {
  import opened Machine

  /** `sizeof(size_t)`. */
  const WORD: u32 := 4
  const SIZE_MAX: u32 := 0xFFFF_FFFF
  const MEMORY_MAGIC: u32 := 0xDEAD_BEEF
  /** The bit that marks a header written by this allocator. */
  const MARKER: u32 := 0x1000_0000
  /** `x & 0x7FFFFFFF` keeps the bits below bit 31: `x % 2^31`. */
  const LOW_31: u32 := 0x8000_0000

  /** One tracker entry: payload address, size and the call site. */
  datatype Allocation = Allocation(ptr: u32, size: u32, file: string, line: u32)

  const NO_ALLOCATION: Allocation := Allocation(0, 0, "", 0)

  /** Word at `a`; memory never written reads as 0. */
  function Load(mem: map<u32, u32>, a: u32): u32
  {
    if a in mem then mem[a] else 0
  }

  // ---------------------------------------------------------------------------
  // Header encoding

  /** `(w & MARKER) != 0`: bit 28 of `w` is set. */
  predicate Marked(w: u32)
  {
    (w / MARKER) % 2 == 1
  }

  /** `size | MARKER`: set bit 28. */
  function EncodeHeader(size: u32): (h: u32)
    ensures Marked(h)
  {
    if Marked(size) then size else size + MARKER
  }

  /** Size recovered from a header as the source decodes it:
      `stored & 0x7FFFFFFF`. */
  function DecodeSizeAsWritten(stored: u32): (size: u32)
    ensures size <= stored && size < LOW_31
  {
    stored % LOW_31
  }

  /** Size recovered from a header by clearing exactly the marker bit:
      `stored & ~MARKER`. */
  function DecodeSize(stored: u32): (size: u32)
    ensures !Marked(size) && size <= stored
  {
    if Marked(stored) then stored - MARKER else stored
  }

  /** Setting bit 28 touches no other bit, and every header this allocator
      writes carries the marker. */
  lemma HeaderIsMarked(size: u32)
    ensures Marked(EncodeHeader(size))
    ensures EncodeHeader(size) / (2 * MARKER) == size / (2 * MARKER)
    ensures EncodeHeader(size) % MARKER == size % MARKER
  {
  }

  /** Decoding recovers the size for every size whose bit 28 is clear, that
      is every size below 256 MiB. */
  lemma DecodeSizeRoundTrip(size: u32)
    requires !Marked(size)
    ensures DecodeSize(EncodeHeader(size)) == size
  {
  }

  /** The source's mask keeps the marker: for every size below 256 MiB the
      decoded size is too large by exactly 0x10000000. */
  lemma DecodeAsWrittenKeepsMarker(size: u32)
    requires size < MARKER
    ensures DecodeSizeAsWritten(EncodeHeader(size)) == size + MARKER
    ensures DecodeSizeAsWritten(EncodeHeader(size)) != size
  {
  }

  // ---------------------------------------------------------------------------
  // Tracker operations

  /** Index of the first entry for payload `p`, or `|t|` when there is none. */
  function FindFirst(t: seq<Allocation>, p: u32): (i: nat)
    ensures i <= |t|
    ensures i < |t| ==> t[i].ptr == p
    ensures forall k :: 0 <= k < i ==> t[k].ptr != p
  {
    if t == [] then 0
    else if t[0].ptr == p then 0
    else 1 + FindFirst(t[1..], p)
  }

  /** Append an entry while there is room for it. */
  function Track(t: seq<Allocation>, max: nat, e: Allocation): (t': seq<Allocation>)
  {
    if |t| < max then t + [e] else t
  }

  /** Drop the first entry for `p`, keeping the order of the others. */
  function RemoveFirst(t: seq<Allocation>, p: u32): (t': seq<Allocation>)
  {
    var i := FindFirst(t, p);
    if i == |t| then t else t[..i] + t[i + 1..]
  }

  /** Replace the first entry for `p` by `e`. */
  function UpdateFirst(t: seq<Allocation>, p: u32, e: Allocation): (t': seq<Allocation>)
  {
    var i := FindFirst(t, p);
    if i == |t| then t else t[i := e]
  }

  /** The tracker never grows past its bound. */
  lemma TrackStaysBounded(t: seq<Allocation>, max: nat, e: Allocation)
    requires |t| <= max
    ensures |Track(t, max, e)| <= max
    ensures |t| < max ==> Track(t, max, e)[|t|] == e
  {
  }

  /** Removal takes out exactly one entry, the first one for `p`, when there
      is one, and changes nothing otherwise. */
  lemma RemoveFirstRemovesOne(t: seq<Allocation>, p: u32)
    ensures (exists k :: 0 <= k < |t| && t[k].ptr == p) ==>
      |RemoveFirst(t, p)| == |t| - 1 &&
      multiset(RemoveFirst(t, p)) + multiset{t[FindFirst(t, p)]} == multiset(t)
    ensures (forall k :: 0 <= k < |t| ==> t[k].ptr != p) ==> RemoveFirst(t, p) == t
  {
    var i := FindFirst(t, p);
    if i < |t| {
      assert t == t[..i] + [t[i]] + t[i + 1..];
      assert RemoveFirst(t, p) == t[..i] + t[i + 1..];
      assert multiset(t) == multiset(t[..i]) + multiset{t[i]} + multiset(t[i + 1..]);
    }
  }

  /** Removing an entry that was just appended restores the tracker. */
  lemma {:induction false} RemoveFirstUndoesAppend(t: seq<Allocation>, e: Allocation)
    requires forall k :: 0 <= k < |t| ==> t[k].ptr != e.ptr
    ensures RemoveFirst(t + [e], e.ptr) == t
  {
    FindFirstPastAbsent(t, [e], e.ptr);
    assert (t + [e])[..|t|] == t;
  }

  lemma {:induction false} FindFirstPastAbsent(t: seq<Allocation>, u: seq<Allocation>, p: u32)
    requires forall k :: 0 <= k < |t| ==> t[k].ptr != p
    ensures FindFirst(t + u, p) == |t| + FindFirst(u, p)
  {
    if t != [] {
      assert (t + u)[0] == t[0] && t[0].ptr != p;
      assert (t + u)[1..] == t[1..] + u;
      FindFirstPastAbsent(t[1..], u, p);
      assert FindFirst(t + u, p) == 1 + FindFirst(t[1..] + u, p);
    } else {
      assert t + u == u;
    }
  }

  /** An in-place update keeps the length and touches only the first entry
      for `p`. */
  lemma UpdateFirstKeepsOthers(t: seq<Allocation>, p: u32, e: Allocation)
    ensures |UpdateFirst(t, p, e)| == |t|
    ensures forall k :: 0 <= k < |t| && k != FindFirst(t, p) ==> UpdateFirst(t, p, e)[k] == t[k]
    ensures FindFirst(t, p) < |t| ==> UpdateFirst(t, p, e)[FindFirst(t, p)] == e
  {
  }

  // ---------------------------------------------------------------------------
  // The allocator as a state transformer

  /** The allocator's observable state: the `used` counter, the live tracker
      entries, the words written, and the addresses handed to the system
      `free`, in order. */
  datatype HeapState = HeapState(used: u32, tracked: seq<Allocation>, mem: map<u32, u32>, released: seq<u32>)

  /** Result of an operation: the new state and the pointer returned. */
  datatype Outcome = Outcome(state: HeapState, ret: u32)

  /** Corrected block layout (the source returns the magic word's address
      instead; see `PayloadWriteBreaksOwnershipAsWritten`): header word at
      the block, magic word after it, payload after both. */
  function PayloadOf(block: u32): u32 { Add32(block, 2 * WORD) }
  function MagicAddr(p: u32): u32 { Sub32(p, WORD) }
  function HeaderAddr(p: u32): u32 { Sub32(p, 2 * WORD) }

  /** A payload pointer whose header words were written by this allocator. */
  predicate Owned(mem: map<u32, u32>, p: u32)
  {
    Load(mem, MagicAddr(p)) == MEMORY_MAGIC && Marked(Load(mem, HeaderAddr(p)))
  }

  /** `malloc(size)` with the system allocator answering `sys` for a block
      of `size + 8` bytes, returning the payload of the corrected layout. */
  function MallocSpec(s: HeapState, max: nat, size: u32, file: string, line: u32, sys: u32): (o: Outcome)
  {
    if size > SIZE_MAX - 2 * WORD || sys == 0 then Outcome(s, 0)
    else
      var p := PayloadOf(sys);
      Outcome(s.(used := Add32(s.used, size),
                 tracked := Track(s.tracked, max, Allocation(p, size, file, line)),
                 mem := s.mem[sys := EncodeHeader(size)][Add32(sys, WORD) := MEMORY_MAGIC]), p)
  }

  /** `free(p)`: null is ignored; a pointer without this allocator's magic
      and marker goes to the system `free` unchanged; an own block is taken
      off the counter and the tracker and its whole block is released. The
      size is recovered with the corrected `DecodeSize`, not the source's
      mask (see `FreeAsWrittenUndercounts`). */
  function FreeSpec(s: HeapState, p: u32): (s': HeapState)
  {
    if p == 0 then s
    else if !Owned(s.mem, p) then s.(released := s.released + [p])
    else
      s.(used := Sub32(s.used, DecodeSize(Load(s.mem, HeaderAddr(p)))),
         tracked := RemoveFirst(s.tracked, p),
         released := s.released + [HeaderAddr(p)])
  }

  /** `realloc(p, size)`. For an own block `sys` is the system allocator's
      answer to resizing the whole block; for a foreign pointer it is the
      system `realloc`'s own result, which is returned as is. The old size
      is recovered with the corrected `DecodeSize`, and the corrected layout
      is used for the new block. */
  function ReallocSpec(s: HeapState, max: nat, p: u32, size: u32, file: string, line: u32, sys: u32): (o: Outcome)
  {
    if size > SIZE_MAX - 2 * WORD then Outcome(s, 0)
    else if p == 0 then MallocSpec(s, max, size, file, line, sys)
    else if !Owned(s.mem, p) then Outcome(s, sys)
    else if sys == 0 then Outcome(s, 0)
    else
      var oldSize := DecodeSize(Load(s.mem, HeaderAddr(p)));
      var q := PayloadOf(sys);
      Outcome(s.(used := Add32(Sub32(s.used, oldSize), size),
                 tracked := UpdateFirst(s.tracked, p, Allocation(q, size, file, line)),
                 mem := s.mem[sys := EncodeHeader(size)][Add32(sys, WORD) := MEMORY_MAGIC]), q)
  }

  /** A request too large for the header arithmetic is refused by both
      `malloc` and `realloc` without any change. */
  lemma OversizeRequestsChangeNothing(s: HeapState, max: nat, p: u32, size: u32, file: string, line: u32, sys: u32)
    requires size > SIZE_MAX - 2 * WORD
    ensures MallocSpec(s, max, size, file, line, sys) == Outcome(s, 0)
    ensures ReallocSpec(s, max, p, size, file, line, sys) == Outcome(s, 0)
  {
  }

  /** A successful `malloc` adds exactly `size` to the counter, marks the
      block, returns a payload whose header decodes to `size`, and keeps the
      tracker within its bound. */
  lemma MallocAccountsForBlock(s: HeapState, max: nat, size: u32, file: string, line: u32, sys: u32)
    requires size <= SIZE_MAX - 2 * WORD && sys != 0 && |s.tracked| <= max
    requires !Marked(size)
    ensures var o := MallocSpec(s, max, size, file, line, sys);
      && o.ret == PayloadOf(sys)
      && o.state.used == Add32(s.used, size)
      && Owned(o.state.mem, o.ret)
      && DecodeSize(Load(o.state.mem, HeaderAddr(o.ret))) == size
      && |o.state.tracked| <= max
      && o.state.released == s.released
  {
    var o := MallocSpec(s, max, size, file, line, sys);
    assert HeaderAddr(o.ret) == sys && MagicAddr(o.ret) == Add32(sys, WORD);
    DecodeSizeRoundTrip(size);
    TrackStaysBounded(s.tracked, max, Allocation(PayloadOf(sys), size, file, line));
  }

  /** `free` undoes `malloc`: freeing the pointer just returned restores the
      counter and the tracker and hands the system allocator back exactly the
      block it gave out. */
  lemma FreeUndoesMalloc(s: HeapState, max: nat, size: u32, file: string, line: u32, sys: u32)
    requires size <= SIZE_MAX - 2 * WORD && sys != 0 && |s.tracked| <= max
    requires !Marked(size)
    // the block the system allocator hands out lies inside the address space
    requires sys + 2 * WORD + size <= SIZE_MAX
    requires forall k :: 0 <= k < |s.tracked| ==> s.tracked[k].ptr != PayloadOf(sys)
    ensures var o := MallocSpec(s, max, size, file, line, sys);
      FreeSpec(o.state, o.ret) == s.(mem := o.state.mem, released := s.released + [sys])
  {
    var o := MallocSpec(s, max, size, file, line, sys);
    MallocAccountsForBlock(s, max, size, file, line, sys);
    SubUndoesAdd32(s.used, size);
    RemoveFirstUndoesAppend(s.tracked, Allocation(PayloadOf(sys), size, file, line));
    var f := FreeSpec(o.state, o.ret);
    assert f.used == s.used;
    assert f.tracked == s.tracked;
    assert f.released == s.released + [sys];
  }

  /** `free(nullptr)` changes nothing, and `realloc(nullptr, n)` is
      `malloc(n)`. */
  lemma NullPointerCases(s: HeapState, max: nat, size: u32, file: string, line: u32, sys: u32)
    ensures FreeSpec(s, 0) == s
    ensures size <= SIZE_MAX - 2 * WORD ==>
      ReallocSpec(s, max, 0, size, file, line, sys) == MallocSpec(s, max, size, file, line, sys)
  {
  }

  /** A successful `realloc` of an own block moves the counter by the size
      difference, keeps the number of tracked entries, and rewrites the
      block's entry in place; a failed one changes nothing. */
  lemma ReallocAccountsForResize(s: HeapState, max: nat, p: u32, size: u32, file: string, line: u32, sys: u32)
    requires size <= SIZE_MAX - 2 * WORD && p != 0 && Owned(s.mem, p)
    ensures var o := ReallocSpec(s, max, p, size, file, line, sys);
      sys == 0 ==> o == Outcome(s, 0)
    ensures var o := ReallocSpec(s, max, p, size, file, line, sys);
      var oldSize := DecodeSize(Load(s.mem, HeaderAddr(p)));
      sys != 0 ==>
        && o.ret == PayloadOf(sys)
        && Add32(o.state.used, oldSize) == Add32(s.used, size)
        && |o.state.tracked| == |s.tracked|
        && Owned(o.state.mem, o.ret)
        && (FindFirst(s.tracked, p) < |s.tracked| ==>
              o.state.tracked[FindFirst(s.tracked, p)] == Allocation(o.ret, size, file, line))
  {
    if sys != 0 {
      UpdateFirstKeepsOthers(s.tracked, p, Allocation(PayloadOf(sys), size, file, line));
      var o := ReallocSpec(s, max, p, size, file, line, sys);
      assert HeaderAddr(o.ret) == sys && MagicAddr(o.ret) == Add32(sys, WORD);
      HeaderIsMarked(size);
    }
  }

  /** The caller may write anywhere in its payload without disturbing the
      header words: `free` still recognises the block. */
  lemma PayloadWritesKeepOwnership(s: HeapState, max: nat, size: u32, file: string, line: u32, sys: u32, q: u32, v: u32)
    requires size <= SIZE_MAX - 2 * WORD && sys != 0
    requires Sub32(q, PayloadOf(sys)) < size
    ensures var o := MallocSpec(s, max, size, file, line, sys);
      Owned(o.state.mem[q := v], o.ret)
  {
    var o := MallocSpec(s, max, size, file, line, sys);
    assert q != sys && q != Add32(sys, WORD);
    assert HeaderAddr(o.ret) == sys && MagicAddr(o.ret) == Add32(sys, WORD);
  }

  // ---------------------------------------------------------------------------
  // The layout as written: the payload pointer is the magic word's address

  /** Payload pointer returned in the source: one word into the block. */
  function PayloadAsWritten(block: u32): (p: u32)
    ensures p == MagicAddr(PayloadOf(block))
  {
    Add32(block, WORD)
  }

  /** Ownership test of the source's `free`: magic AT the payload pointer,
      header one word before it. */
  predicate OwnedAsWritten(mem: map<u32, u32>, p: u32)
  {
    Load(mem, p) == MEMORY_MAGIC && Marked(Load(mem, Sub32(p, WORD)))
  }

  /** With the source's layout the first word of the caller's payload IS the
      magic word: any value the caller stores there other than the magic
      makes `free` treat its own block as foreign, so the block is passed to
      the system `free` at a wrong address and never taken off the counter. */
  lemma PayloadWriteBreaksOwnershipAsWritten(mem: map<u32, u32>, size: u32, sys: u32, v: u32)
    requires size >= WORD && v != MEMORY_MAGIC
    ensures var m := mem[sys := EncodeHeader(size)][Add32(sys, WORD) := MEMORY_MAGIC];
      var p := PayloadAsWritten(sys);
      && OwnedAsWritten(m, p)
      && !OwnedAsWritten(m[p := v], p)
  {
  }

  /** With the source's decode mask, `malloc(16)` followed by `free` on a
      fresh allocator leaves the counter at 0xF0000000 instead of 0. */
  lemma FreeAsWrittenUndercounts()
    ensures Sub32(Add32(0, 16), DecodeSizeAsWritten(EncodeHeader(16))) == 0xF000_0000
  {
  }

  // ---------------------------------------------------------------------------
  // The allocator globals

  /** `heap` region, tracker array and counter, plus the memory words and
      the log of system `free` calls. */
  class Heap {
    var start: u32
    var size: u32
    var used: u32
    const maxAllocations: nat
    var allocations: array<Allocation>
    var allocationCount: nat
    var mem: map<u32, u32>
    var released: seq<u32>

    ghost predicate Valid()
      reads this
    {
      allocations.Length == maxAllocations && allocationCount <= maxAllocations
    }

    /** The live tracker entries. */
    ghost function Tracked(): seq<Allocation>
      reads this, allocations
      requires Valid()
    {
      allocations[..allocationCount]
    }

    ghost function State(): HeapState
      reads this, allocations
      requires Valid()
    {
      HeapState(used, Tracked(), mem, released)
    }

    /** Static initial values: empty region, empty tracker. */
    constructor (maxAllocations: nat)
      ensures Valid() && this.maxAllocations == maxAllocations
      ensures start == 0 && size == 0 && State() == HeapState(0, [], map[], [])
    {
      this.maxAllocations := maxAllocations;
      start, size, used := 0, 0, 0;
      allocations := new Allocation[maxAllocations](_ => NO_ALLOCATION);
      allocationCount := 0;
      mem := map[];
      released := [];
    }

    /** `init`: the heap spans from the end of .bss to the top of the stack;
        the counter and the tracker start empty. */
    method Init(ebss: u32, estack: u32)
      requires Valid()
      modifies this
      ensures Valid() && allocations == old(allocations)
      ensures start == ebss && size == Sub32(estack, ebss) && used == 0 && allocationCount == 0
      ensures mem == old(mem) && released == old(released)
    {
      start := ebss;
      size := Sub32(estack, ebss);
      used := 0;
      allocationCount := 0;
    }

    method Malloc(size: u32, file: string, line: u32, sys: u32) returns (p: u32)
      requires Valid()
      modifies this`used, this`mem, this`allocationCount, allocations
      ensures Valid()
      ensures Outcome(State(), p) == MallocSpec(old(State()), maxAllocations, size, file, line, sys)
    {
      if size > SIZE_MAX - 2 * WORD {
        return 0;
      }
      if sys == 0 {
        return 0;
      }
      used := Add32(used, size);
      mem := mem[sys := EncodeHeader(size)];
      mem := mem[Add32(sys, WORD) := MEMORY_MAGIC];
      p := PayloadOf(sys);
      if allocationCount < maxAllocations {
        allocations[allocationCount] := Allocation(p, size, file, line);
        allocationCount := allocationCount + 1;
      }
    }

    method Free(p: u32, file: string, line: u32)
      requires Valid()
      modifies this`used, this`allocationCount, this`released, allocations
      ensures Valid()
      ensures State() == FreeSpec(old(State()), p)
    {
      if p == 0 {
        return;
      }
      var meta := HeaderAddr(p);
      var magic := Load(mem, MagicAddr(p));
      if magic != MEMORY_MAGIC {
        released := released + [p];
        return;
      }
      var stored := Load(mem, meta);
      if !Marked(stored) {
        released := released + [p];
        return;
      }
      used := Sub32(used, DecodeSize(stored));
      Untrack(p);
      released := released + [meta];
    }

    /** The tracker half of `free`: find the first entry for `p` and close
        the gap it leaves. */
    method Untrack(p: u32)
      requires Valid()
      modifies this`allocationCount, allocations
      ensures Valid() && Tracked() == RemoveFirst(old(Tracked()), p)
    {
      ghost var t0 := Tracked();
      var i := FindTracked(p);
      if i < allocationCount {
        assert t0[..i] == allocations[..i] && t0[i + 1..] == allocations[i + 1..allocationCount];
        CloseGap(allocations, allocationCount, i);
        allocationCount := allocationCount - 1;
        assert Tracked() == t0[..i] + t0[i + 1..];
      }
    }

    method Realloc(p: u32, size: u32, file: string, line: u32, sys: u32) returns (q: u32)
      requires Valid()
      modifies this`used, this`mem, this`allocationCount, allocations
      ensures Valid()
      ensures Outcome(State(), q) == ReallocSpec(old(State()), maxAllocations, p, size, file, line, sys)
    {
      if size > SIZE_MAX - 2 * WORD {
        return 0;
      }
      if p == 0 {
        q := Malloc(size, file, line, sys);
        return;
      }
      var meta := HeaderAddr(p);
      var magic := Load(mem, MagicAddr(p));
      if magic != MEMORY_MAGIC {
        return sys;
      }
      var stored := Load(mem, meta);
      if !Marked(stored) {
        return sys;
      }
      var oldSize := DecodeSize(stored);
      if sys == 0 {
        return 0;
      }
      used := Sub32(used, oldSize);
      used := Add32(used, size);
      mem := mem[sys := EncodeHeader(size)];
      mem := mem[Add32(sys, WORD) := MEMORY_MAGIC];
      q := PayloadOf(sys);
      var i := FindTracked(p);
      if i < allocationCount {
        allocations[i] := Allocation(q, size, file, line);
      }
    }

    /** The tracker search loop: index of the first live entry for `p`, or
        `allocationCount` when there is none. */
    method FindTracked(p: u32) returns (i: nat)
      requires Valid()
      ensures i == FindFirst(Tracked(), p)
    {
      i := 0;
      while i < allocationCount
        invariant i <= allocationCount
        invariant forall k :: 0 <= k < i ==> allocations[k].ptr != p
      {
        if allocations[i].ptr == p {
          FindFirstIsFirst(Tracked(), p, i);
          return;
        }
        i := i + 1;
      }
      FindFirstIsFirst(Tracked(), p, i);
    }
  }

  /** `FindFirst` is characterised by its contract. */
  lemma FindFirstIsFirst(t: seq<Allocation>, p: u32, i: nat)
    requires i <= |t|
    requires i < |t| ==> t[i].ptr == p
    requires forall k :: 0 <= k < i ==> t[k].ptr != p
    ensures FindFirst(t, p) == i
  {
  }

  /** The compaction loop of `free`: entries after `i` move one place down. */
  method CloseGap(a: array<Allocation>, count: nat, i: nat)
    requires i < count <= a.Length
    modifies a
    ensures a[..count - 1] == old(a[..i]) + old(a[i + 1..count])
  {
    ghost var before := a[..];
    var j := i;
    while j < count - 1
      invariant i <= j <= count - 1
      invariant forall k :: 0 <= k < i ==> a[k] == before[k]
      invariant forall k :: i <= k < j ==> a[k] == before[k + 1]
      invariant forall k :: j < k < a.Length ==> a[k] == before[k]
    {
      a[j] := a[j + 1];
      j := j + 1;
    }
    forall k | 0 <= k < count - 1 ensures a[k] == (before[..i] + before[i + 1..count])[k] {
      if k >= i { assert before[i + 1..count][k - i] == before[k + 1]; }
    }
  }
}
