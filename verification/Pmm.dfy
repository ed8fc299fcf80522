/** The physical frame allocator: a bitmap of used blocks, searched upwards from a hint. */
module Pmm {

  const BLOCK_SIZE: nat := 0x1000

  // ----- bits of a byte -----

  predicate GetBit(b: bv8, k: nat)
    requires k < 8
  {
    (b >> k) & 1 != 0
  }

  function SetBit(b: bv8, k: nat): bv8
    requires k < 8
  {
    b | (1 << k)
  }

  function ClearBit(b: bv8, k: nat): bv8
    requires k < 8
  {
    b & !(1 << k)
  }

  lemma MaskBit(b: bv8, k: nat)
    requires k < 8
    ensures GetBit(b, k) == (b & (1 << k) != 0)
  {
  }

  lemma MasksApart(k: nat, j: nat)
    requires k < 8 && j < 8
    ensures (1 as bv8 << k) & (1 << j) == if k == j then 1 << k else 0
    ensures (1 as bv8 << k) != 0
  {
  }

  lemma SetBitChangesOne(b: bv8, k: nat, j: nat)
    requires k < 8 && j < 8
    ensures GetBit(SetBit(b, k), j) == (j == k || GetBit(b, j))
  {
    MaskBit(b, j);
    MaskBit(SetBit(b, k), j);
    MasksApart(k, j);
  }

  lemma ClearBitChangesOne(b: bv8, k: nat, j: nat)
    requires k < 8 && j < 8
    ensures GetBit(ClearBit(b, k), j) == (j != k && GetBit(b, j))
  {
    MaskBit(b, j);
    MaskBit(ClearBit(b, k), j);
    MasksApart(k, j);
  }

  // ----- the bitmap as a sequence of booleans, true for used -----

  /** The least free block in `[from, len)`, or `len` if there is none. */
  function FirstFree(bits: seq<bool>, from: nat, len: nat): (n: nat)
    requires len <= |bits|
    ensures n <= len && (from <= len ==> from <= n) && (from > len ==> n == len)
    ensures n < len ==> !bits[n]
    ensures forall i :: from <= i < n ==> bits[i]
    decreases len - from
  {
    if from >= len then len else if !bits[from] then from else FirstFree(bits, from + 1, len)
  }

  lemma FirstFreeIs(bits: seq<bool>, from: nat, len: nat, n: nat)
    requires from <= n < len <= |bits| && !bits[n] && forall i :: from <= i < n ==> bits[i]
    ensures FirstFree(bits, from, len) == n
  {
    assert FirstFree(bits, from, len) < len;
  }

  /** Blocks `[s, s + k)` exist and are all free. */
  predicate FreeRun(bits: seq<bool>, s: nat, k: nat) {
    s + k <= |bits| && forall i :: s <= i < s + k ==> !bits[i]
  }

  /** The least start in `[from, len)` of `k` free blocks in a row, or `len` if there is none. */
  function FirstRun(bits: seq<bool>, from: nat, len: nat, k: nat): (n: nat)
    ensures n <= len && (from <= len ==> from <= n) && (from > len ==> n == len)
    ensures n < len ==> FreeRun(bits, n, k)
    ensures forall i :: from <= i < n ==> !FreeRun(bits, i, k)
    decreases len - from
  {
    if from >= len then len else if FreeRun(bits, from, k) then from else FirstRun(bits, from + 1, len, k)
  }

  lemma FirstRunIs(bits: seq<bool>, from: nat, len: nat, k: nat, n: nat)
    requires from <= n < len && FreeRun(bits, n, k) && forall i :: from <= i < n ==> !FreeRun(bits, i, k)
    ensures FirstRun(bits, from, len, k) == n
  {
    assert FirstRun(bits, from, len, k) < len;
  }

  lemma NoRun(bits: seq<bool>, from: nat, len: nat, k: nat)
    requires forall i :: from <= i < len ==> !FreeRun(bits, i, k)
    ensures FirstRun(bits, from, len, k) == len
  {
  }

  /** The bits with `[s, s + k)` set to `v`. */
  function SetRange(bits: seq<bool>, s: nat, k: nat, v: bool): (r: seq<bool>)
    requires s + k <= |bits|
    ensures |r| == |bits|
    ensures forall i :: 0 <= i < |r| ==> r[i] == if s <= i < s + k then v else bits[i]
  {
    if k == 0 then bits else SetRange(bits, s, k - 1, v)[s + k - 1 := v]
  }

  /** Giving back a run just taken restores the bitmap exactly. */
  lemma TakeGiveBack(bits: seq<bool>, s: nat, k: nat)
    requires FreeRun(bits, s, k)
    ensures SetRange(SetRange(bits, s, k, true), s, k, false) == bits
  {
    assert forall i :: 0 <= i < |bits| ==> SetRange(SetRange(bits, s, k, true), s, k, false)[i] == bits[i];
  }

  class FrameAllocator {
    const bitmap: array<bv8>
    const bitmapLen: nat
    var lastFreed: nat

    constructor (bitmap: array<bv8>, bitmapLen: nat)
      requires bitmapLen <= bitmap.Length * 8
      ensures this.bitmap == bitmap && this.bitmapLen == bitmapLen && lastFreed == 0 && Valid()
    {
      this.bitmap, this.bitmapLen, this.lastFreed := bitmap, bitmapLen, 0;
    }

    predicate Valid() {
      bitmapLen <= bitmap.Length * 8
    }

    /** `bitmap_getblockstate`: a block is used if and only if bit `n % 8` of byte `n / 8` is one. */
    predicate Used(n: nat): (r: bool)
      requires n < bitmap.Length * 8
      reads bitmap
      ensures r <==> bitmap[n / 8] & (1 << (n % 8)) != 0
    {
      MaskBit(bitmap[n / 8], n % 8);
      GetBit(bitmap[n / 8], n % 8)
    }

    ghost function BitsUpTo(n: nat): (r: seq<bool>)
      requires n <= bitmap.Length * 8
      reads bitmap
      ensures |r| == n && forall i :: 0 <= i < n ==> r[i] == Used(i)
    {
      if n == 0 then [] else BitsUpTo(n - 1) + [Used(n - 1)]
    }

    /** All bits, the padding of the last byte included. */
    ghost function Bits(): (r: seq<bool>)
      reads bitmap
      ensures |r| == bitmap.Length * 8 && forall i :: 0 <= i < |r| ==> r[i] == Used(i)
    {
      BitsUpTo(bitmap.Length * 8)
    }

    /** `bitmap_setblockstate`. */
    method SetBlockState(n: nat, used: bool)
      requires n < bitmap.Length * 8
      modifies bitmap
      ensures Bits() == old(Bits())[n := used]
    {
      ghost var bits, bytes := Bits(), bitmap[..];
      bitmap[n / 8] := if used then SetBit(bitmap[n / 8], n % 8) else ClearBit(bitmap[n / 8], n % 8);
      forall i | 0 <= i < |bits|
        ensures Bits()[i] == bits[n := used][i]
      {
        assert bits[i] == GetBit(bytes[i / 8], i % 8);
        SetBitChangesOne(bytes[n / 8], n % 8, i % 8);
        ClearBitChangesOne(bytes[n / 8], n % 8, i % 8);
        if i / 8 == n / 8 && i % 8 == n % 8 {
          assert i == n;
        }
      }
    }

    /** `alloc_page`: takes the least free block at or above the hint; 0 if there is none. */
    method AllocPage() returns (page: nat)
      requires Valid()
      modifies bitmap
      ensures
        var n := FirstFree(old(Bits()), lastFreed, bitmapLen);
        if n < bitmapLen then page == n * 0x1000 && Bits() == old(Bits())[n := true]
        else page == 0 && Bits() == old(Bits())
    {
      var n := lastFreed;
      ghost var bits := Bits();
      while n < bitmapLen
        invariant lastFreed <= n && (n <= bitmapLen || n == lastFreed) && Bits() == bits
        invariant forall i :: lastFreed <= i < n ==> bits[i]
      {
        if !Used(n) {
          FirstFreeIs(Bits(), lastFreed, bitmapLen, n);
          SetBlockState(n, true);
          return n * BLOCK_SIZE;
        }
        n := n + 1;
      }
      page := 0;
    }

    /** `free_page`: the freed block becomes the hint. */
    method FreePage(page: nat)
      requires Valid() && page / BLOCK_SIZE < bitmapLen
      modifies this`lastFreed, bitmap
      ensures lastFreed == page / 0x1000 && Bits() == old(Bits())[page / 0x1000 := false]
    {
      lastFreed := page / BLOCK_SIZE;
      SetBlockState(lastFreed, false);
    }

    /** Marks `[s, s + k)`, from the last block down, as `alloc_pages` does. */
    method TakeRun(s: nat, k: nat)
      requires s + k < bitmap.Length * 8
      modifies bitmap
      ensures Bits() == SetRange(old(Bits()), s, k + 1, true)
    {
      var i := k;
      while i > 0
        invariant 0 <= i <= k
        invariant Bits() == SetRange(old(Bits()), s + i + 1, k - i, true)
      {
        SetBlockState(s + i, true);
        i := i - 1;
      }
      SetBlockState(s, true);
    }

    /** Counts free blocks from `s` on, up to the used block that ends them or to `n` before the last. */
    method CountRun(s: nat, n: nat) returns (k: nat, found: bool)
      requires Valid() && s < bitmapLen < bitmap.Length * 8 && Used(bitmapLen)
      ensures k <= n && s + k <= bitmapLen && FreeRun(Bits(), s, k)
      ensures found <==> FreeRun(Bits(), s, n + 1)
      ensures found ==> k == n && s + n < bitmapLen
      ensures !found ==> Used(s + k)
    {
      k := 0;
      while !Used(s + k)
        invariant k <= n && s + k <= bitmapLen && FreeRun(Bits(), s, k)
        decreases bitmapLen - (s + k)
      {
        assert !Bits()[s + k];
        if k == n {
          return k, true;
        }
        k := k + 1;
      }
      assert Bits()[s + k];
      found := false;
    }

    /**
     * `alloc_pages`: takes `n + 1` blocks in a row, the lowest such run at or above the hint, or
     * answers 0. The search reads on until it meets a used block, so the block behind the bitmap
     * must read as used.
     */
    method AllocPages(n: nat) returns (page: nat)
      requires Valid() && bitmapLen < bitmap.Length * 8 && Used(bitmapLen)
      modifies bitmap
      ensures
        var s := FirstRun(old(Bits()), lastFreed, bitmapLen, n + 1);
        if s < bitmapLen then
          s + n < bitmapLen && page == s * 0x1000 && Bits() == SetRange(old(Bits()), s, n + 1, true)
        else page == 0 && Bits() == old(Bits())
    {
      hide FirstRun, SetRange;
      ghost var bits, run := Bits(), n + 1;
      var s := lastFreed;
      while s < bitmapLen
        invariant lastFreed <= s && Bits() == bits
        invariant forall i :: lastFreed <= i < s && i < bitmapLen ==> !FreeRun(bits, i, run)
      {
        var k, found := CountRun(s, n);
        if found {
          FirstRunIs(Bits(), lastFreed, bitmapLen, n + 1, s);
          TakeRun(s, k);
          return s * BLOCK_SIZE;
        }
        assert Bits()[s + k];
        s := s + k;
        s := s + 1;
      }
      NoRun(Bits(), lastFreed, bitmapLen, n + 1);
      page := 0;
    }

    /** `free_pages`: gives back `n + 1` blocks. */
    method FreePages(page: nat, n: nat)
      requires Valid() && page / BLOCK_SIZE + n < bitmapLen
      modifies this`lastFreed, bitmap
      ensures lastFreed == page / 0x1000
      ensures Bits() == SetRange(old(Bits()), page / 0x1000, n + 1, false)
    {
      lastFreed := page / BLOCK_SIZE;
      var i := 0;
      while i <= n
        invariant i <= n + 1 && lastFreed == page / BLOCK_SIZE
        invariant Bits() == SetRange(old(Bits()), page / BLOCK_SIZE, i, false)
      {
        SetBlockState(lastFreed + i, false);
        i := i + 1;
      }
    }
  }

  // ----- runs of the allocator -----

  /** `count` blocks from `start` on, handed out and not yet given back. */
  datatype Holding = Holding(start: nat, count: nat)

  datatype Frames = Frames(bits: seq<bool>, hint: nat, len: nat, live: seq<Holding>)

  /** Single pages are runs of one block; giving back names a live holding. */
  datatype Op = AllocOne | AllocRun(n: nat) | GiveBack(i: nat)

  predicate Overlap(a: Holding, b: Holding) {
    a.start < b.start + b.count && b.start < a.start + a.count
  }

  /** Every live holding consists of used blocks of the bitmap, and no two share a block. */
  predicate Inv(f: Frames) {
    && f.len < |f.bits| && f.bits[f.len]
    && (forall i :: 0 <= i < |f.live| ==> 0 < f.live[i].count && f.live[i].start + f.live[i].count <= f.len)
    && (forall i, n :: 0 <= i < |f.live| && f.live[i].start <= n < f.live[i].start + f.live[i].count ==> f.bits[n])
    && (forall i, j :: 0 <= i < j < |f.live| ==> !Overlap(f.live[i], f.live[j]))
  }

  predicate Enabled(f: Frames, op: Op) {
    op.GiveBack? ==> op.i < |f.live| && 0 < f.live[op.i].count && f.live[op.i].start + f.live[op.i].count <= |f.bits|
  }

  /** What one call does; an allocation that finds nothing changes nothing. */
  function Step(f: Frames, op: Op): Frames
    requires f.len < |f.bits| && Enabled(f, op)
  {
    match op
    case AllocOne =>
      var n := FirstFree(f.bits, f.hint, f.len);
      if n < f.len then f.(bits := f.bits[n := true], live := f.live + [Holding(n, 1)]) else f
    case AllocRun(n) =>
      var s := FirstRun(f.bits, f.hint, f.len, n + 1);
      if s < f.len then f.(bits := SetRange(f.bits, s, n + 1, true), live := f.live + [Holding(s, n + 1)]) else f
    case GiveBack(i) =>
      var h := f.live[i];
      f.(bits := SetRange(f.bits, h.start, h.count, false), hint := h.start, live := f.live[..i] + f.live[i + 1..])
  }

  /** A run that starts below a used block ends below it. */
  lemma RunEndsBelow(bits: seq<bool>, s: nat, k: nat, len: nat)
    requires FreeRun(bits, s, k) && s <= len < |bits| && bits[len]
    ensures s + k <= len
  {
  }

  /** A run of free blocks taken from the bitmap overlaps no live holding. */
  lemma TakeKeeps(f: Frames, s: nat, k: nat)
    requires Inv(f) && 0 < k && FreeRun(f.bits, s, k) && s < f.len
    ensures Inv(f.(bits := SetRange(f.bits, s, k, true), live := f.live + [Holding(s, k)]))
  {
    RunEndsBelow(f.bits, s, k, f.len);
    forall i | 0 <= i < |f.live|
      ensures !Overlap(f.live[i], Holding(s, k))
    {
      var h := f.live[i];
      var n := if h.start < s then s else h.start;
      assert h.start <= n < h.start + h.count ==> f.bits[n];
    }
  }

  lemma GiveBackKeeps(f: Frames, i: nat)
    requires Inv(f) && Enabled(f, GiveBack(i))
    ensures Inv(Step(f, GiveBack(i)))
  {
    var f', h := Step(f, GiveBack(i)), f.live[i];
    forall j | 0 <= j < |f'.live|
      ensures f'.live[j] == f.live[if j < i then j else j + 1] && !Overlap(f'.live[j], h)
    {
    }
  }

  lemma AllocOneKeeps(f: Frames)
    requires Inv(f)
    ensures Inv(Step(f, AllocOne))
  {
    var n := FirstFree(f.bits, f.hint, f.len);
    if n < f.len {
      TakeKeeps(f, n, 1);
      assert SetRange(f.bits, n, 1, true) == f.bits[n := true];
    }
  }

  lemma AllocRunKeeps(f: Frames, n: nat)
    requires Inv(f)
    ensures Inv(Step(f, AllocRun(n)))
  {
    hide FirstRun, SetRange, Inv;
    var s := FirstRun(f.bits, f.hint, f.len, n + 1);
    if s < f.len {
      TakeKeeps(f, s, n + 1);
    }
  }

  lemma StepKeeps(f: Frames, op: Op)
    requires Inv(f) && Enabled(f, op)
    ensures Inv(Step(f, op))
  {
    match op
    case AllocOne =>
      AllocOneKeeps(f);
    case AllocRun(n) =>
      AllocRunKeeps(f, n);
    case GiveBack(i) =>
      GiveBackKeeps(f, i);
  }

  predicate Runnable(f: Frames, ops: seq<Op>)
    decreases |ops|
  {
    ops == [] || (f.len < |f.bits| && Enabled(f, ops[0]) && Runnable(Step(f, ops[0]), ops[1..]))
  }

  function Run(f: Frames, ops: seq<Op>): Frames
    requires Runnable(f, ops)
    decreases |ops|
  {
    if ops == [] then f else Run(Step(f, ops[0]), ops[1..])
  }

  /** Over every run of allocations and releases no block is live twice. */
  lemma {:induction false} RunKeeps(f: Frames, ops: seq<Op>)
    requires Inv(f) && Runnable(f, ops)
    ensures Inv(Run(f, ops))
    decreases |ops|
  {
    if ops != [] {
      StepKeeps(f, ops[0]);
      RunKeeps(Step(f, ops[0]), ops[1..]);
    }
  }

  /** A single allocation misses a free block exactly when every free block lies below the hint. */
  lemma MissesIff(bits: seq<bool>, hint: nat, len: nat)
    requires len <= |bits|
    ensures FirstFree(bits, hint, len) == len <==> forall n :: 0 <= n < len && !bits[n] ==> n < hint
  {
  }

  /**
   * Such a state is reached from two free blocks: taken, given back in the same order and one taken
   * again, block 0 is free and a further call finds nothing.
   */
  lemma FreeBlockMissed()
    ensures
      var start := Two(false, false, 0, []);
      var ops := [AllocOne, AllocOne, GiveBack(0), GiveBack(0), AllocOne];
      && Inv(start) && Runnable(start, ops)
      && var f := Run(start, ops);
         !f.bits[0] && f.len == 2 && Step(f, AllocOne) == f
  {
    hide Step, Inv;
    var ops := [AllocOne, AllocOne, GiveBack(0), GiveBack(0), AllocOne];
    BothTaken();
    BothGivenBack();
    OneTaken();
    OneStep(Two(false, false, 0, []), ops);
    OneStep(Two(true, false, 0, [P0]), ops[1..]);
    OneStep(Two(true, true, 0, [P0, P1]), ops[2..]);
    OneStep(Two(false, true, 0, [P1]), ops[3..]);
    OneStep(Two(false, false, 1, []), ops[4..]);
    assert ops[1..][1..] == ops[2..] && ops[2..][1..] == ops[3..] && ops[3..][1..] == ops[4..];
  }

  const P0 := Holding(0, 1)
  const P1 := Holding(1, 1)

  /** Two blocks and the used bit behind them. */
  function Two(a: bool, b: bool, hint: nat, live: seq<Holding>): Frames {
    Frames([a, b, true], hint, 2, live)
  }

  lemma BothTaken()
    ensures Inv(Two(false, false, 0, []))
    ensures Step(Two(false, false, 0, []), AllocOne) == Two(true, false, 0, [P0])
    ensures Step(Two(true, false, 0, [P0]), AllocOne) == Two(true, true, 0, [P0, P1])
  {
    hide Step, FirstFree;
    TakeFirst(Two(false, false, 0, []), 0);
    TakeFirst(Two(true, false, 0, [P0]), 1);
  }

  lemma BothGivenBack()
    ensures Step(Two(true, true, 0, [P0, P1]), GiveBack(0)) == Two(false, true, 0, [P1])
    ensures Step(Two(false, true, 0, [P1]), GiveBack(0)) == Two(false, false, 1, [])
  {
    hide Step, SetRange;
    GiveFirst(Two(true, true, 0, [P0, P1]));
    GiveFirst(Two(false, true, 0, [P1]));
  }

  lemma OneTaken()
    ensures Step(Two(false, false, 1, []), AllocOne) == Two(false, true, 1, [P1])
    ensures Step(Two(false, true, 1, [P1]), AllocOne) == Two(false, true, 1, [P1])
  {
    hide Step, FirstFree;
    TakeFirst(Two(false, false, 1, []), 1);
    TakeNone(Two(false, true, 1, [P1]));
  }

  lemma TakeFirst(f: Frames, n: nat)
    requires f.hint <= n < f.len < |f.bits| && !f.bits[n] && forall i :: f.hint <= i < n ==> f.bits[i]
    ensures Step(f, AllocOne) == f.(bits := f.bits[n := true], live := f.live + [Holding(n, 1)])
  {
    FirstFreeIs(f.bits, f.hint, f.len, n);
  }

  lemma TakeNone(f: Frames)
    requires f.len < |f.bits| && forall i :: f.hint <= i < f.len ==> f.bits[i]
    ensures Step(f, AllocOne) == f
  {
  }

  lemma GiveFirst(f: Frames)
    requires f.len < |f.bits| && f.live != [] && f.live[0].count == 1 && f.live[0].start < |f.bits|
    ensures Step(f, GiveBack(0)) ==
      f.(bits := f.bits[f.live[0].start := false], hint := f.live[0].start, live := f.live[1..])
  {
    var s := f.live[0].start;
    assert SetRange(f.bits, s, 1, false) == f.bits[s := false];
    assert f.live[..0] + f.live[1..] == f.live[1..];
  }

  lemma OneStep(f: Frames, ops: seq<Op>)
    requires ops != [] && f.len < |f.bits| && Enabled(f, ops[0])
    ensures
      var f' := Step(f, ops[0]);
      Runnable(f', ops[1..]) ==> Runnable(f, ops) && Run(f, ops) == Run(f', ops[1..])
  {
  }
}
