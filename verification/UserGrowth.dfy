/** Blocks that grow down when an address below them faults, one page at a time. */
module UserGrowth {
  import opened UserBlocks

  const GROWS_DOWN: nat := 0x100

  predicate HasGrowsDown(flags: nat) {
    flags / GROWS_DOWN % 2 == 1
  }

  predicate GrowsDown(b: Block) {
    HasGrowsDown(b.flags)
  }

  /** What a fault does: the kernel gives up, or the list has grown by the page at `page`. */
  datatype Fault = Hang | Grown(blocks: seq<Block>, page: nat, prot: nat)

  function Longer(b: Block): Block
    requires PAGE <= b.start
  {
    b.(start := b.start - PAGE, len := b.len + PAGE)
  }

  /** The search of `umm_page_flt_handler` above the end of the previous block. */
  function Grow(prevEnd: nat, bs: seq<Block>, addr: nat): Fault
    decreases |bs|
  {
    if bs == [] then Hang
    else if prevEnd <= addr < bs[0].start then
      if bs[0].start - prevEnd >= 2 * PAGE && GrowsDown(bs[0])
      then Grown([Longer(bs[0])] + bs[1..], bs[0].start - PAGE, bs[0].prot)
      else Hang
    else match Grow(bs[0].End(), bs[1..], addr)
      case Hang => Hang
      case Grown(rest, page, prot) => Grown([bs[0]] + rest, page, prot)
  }

  /** The list starts at or above `floor`. */
  predicate Above(floor: nat, bs: seq<Block>) {
    bs != [] ==> floor <= bs[0].start
  }

  /** Every block that grows down has at least one page of space below it. */
  predicate Guarded(prevEnd: nat, bs: seq<Block>)
    decreases |bs|
  {
    bs == [] || ((GrowsDown(bs[0]) ==> prevEnd + PAGE <= bs[0].start) && Guarded(bs[0].End(), bs[1..]))
  }

  lemma AboveTail(bs: seq<Block>)
    requires Sorted(bs) && bs != []
    ensures Sorted(bs[1..]) && Above(bs[0].End(), bs[1..]) && GoodBlock(bs[0])
  {
    SortedTail(bs);
  }

  /** One page more, mapped with the attributes of the block it was put below; guard pages left alone. */
  ghost predicate Grew(prevEnd: nat, bs: seq<Block>, addr: nat, r: Fault)
    requires r.Grown? && bs != []
  {
    && Sorted(r.blocks) && r.blocks != [] && Above(prevEnd, r.blocks) && Aligned(r.page)
    && prevEnd + PAGE <= r.page && r.page + PAGE <= USER_END && addr < r.page + PAGE
    && AttrAt(bs, r.page) == Unmapped
    && (forall a: nat :: AttrAt(r.blocks, a) ==
          if r.page <= a < r.page + PAGE then AttrAt(r.blocks, r.page) else AttrAt(bs, a))
    && AttrAt(r.blocks, r.page).Attr? && AttrAt(r.blocks, r.page).prot == r.prot
    && (Guarded(prevEnd, bs) ==> Guarded(prevEnd, r.blocks))
    && r.blocks[0].End() == bs[0].End()
  }

  /**
   * A handled fault adds exactly one page, below a block that grows down and with that block's
   * attributes; the list stays sorted and every guard page survives.
   */
  lemma {:induction false} GrowKeeps(prevEnd: nat, bs: seq<Block>, addr: nat)
    requires Sorted(bs) && Above(prevEnd, bs) && Aligned(prevEnd) && Grow(prevEnd, bs, addr).Grown?
    ensures Grew(prevEnd, bs, addr, Grow(prevEnd, bs, addr))
    decreases |bs|
  {
    hide Grew, Sorted, Guarded;
    AboveTail(bs);
    if prevEnd <= addr < bs[0].start {
      GrowFirst(prevEnd, bs, addr);
    } else {
      GrowKeeps(bs[0].End(), bs[1..], addr);
      GrewBehind(prevEnd, bs, addr);
    }
  }

  lemma GrowFirst(prevEnd: nat, bs: seq<Block>, addr: nat)
    requires Sorted(bs) && Above(prevEnd, bs) && Aligned(prevEnd) && Grow(prevEnd, bs, addr).Grown?
    requires prevEnd <= addr < bs[0].start
    ensures Grew(prevEnd, bs, addr, Grow(prevEnd, bs, addr))
  {
    hide Sorted;
    var b, rest := bs[0], bs[1..];
    var c := Longer(b);
    AboveTail(bs);
    SortedCons(c, rest);
    AttrCons(c, rest);
    assert ([c] + rest)[1..] == rest;
    AttrBelow(bs, c.start);
    forall a: nat | c.Holds(a) && !b.Holds(a)
      ensures AttrAt(rest, a) == Unmapped
    {
      AttrBelow(rest, a);
    }
  }

  lemma GrewBehind(prevEnd: nat, bs: seq<Block>, addr: nat)
    requires Sorted(bs) && Above(prevEnd, bs) && Aligned(prevEnd) && Grow(prevEnd, bs, addr).Grown?
    requires !(prevEnd <= addr < bs[0].start) && Grew(bs[0].End(), bs[1..], addr, Grow(bs[0].End(), bs[1..], addr))
    ensures Grew(prevEnd, bs, addr, Grow(prevEnd, bs, addr))
  {
    hide Sorted;
    var b, rest := bs[0], bs[1..];
    AboveTail(bs);
    var r := Grow(b.End(), rest, addr);
    SortedCons(b, r.blocks);
    AttrCons(b, r.blocks);
    assert ([b] + r.blocks)[1..] == r.blocks;
  }

  /** Nothing is mapped below the first block. */
  lemma AttrBelow(bs: seq<Block>, a: nat)
    requires Sorted(bs) && (bs != [] ==> a < bs[0].start)
    ensures AttrAt(bs, a) == Unmapped
  {
    AttrNowhere(bs, a);
    forall i | 0 <= i < |bs|
      ensures !bs[i].Holds(a)
    {
      if i > 0 { assert bs[0].End() <= bs[i].start; }
    }
  }

  function PrevEnd(prevEnd: nat, bs: seq<Block>, i: nat): nat
    requires i <= |bs|
  {
    if i == 0 then prevEnd else bs[i - 1].End()
  }

  function Prefixed(pre: seq<Block>, f: Fault): Fault {
    match f
    case Hang => Hang
    case Grown(rest, page, prot) => Grown(pre + rest, page, prot)
  }

  /** Gaps that do not hold the address are passed over. */
  lemma {:induction false} GrowAt(prevEnd: nat, bs: seq<Block>, addr: nat, i: nat)
    requires i <= |bs| && forall k :: 0 <= k < i ==> !(PrevEnd(prevEnd, bs, k) <= addr < bs[k].start)
    ensures Grow(prevEnd, bs, addr) == Prefixed(bs[..i], Grow(PrevEnd(prevEnd, bs, i), bs[i..], addr))
    decreases i
  {
    if i == 0 {
      assert bs[0..] == bs;
    } else {
      var rest := bs[1..];
      assert !(PrevEnd(prevEnd, bs, 0) <= addr < bs[0].start);
      forall k | 0 <= k < i - 1
        ensures !(PrevEnd(bs[0].End(), rest, k) <= addr < rest[k].start)
      {
        assert !(PrevEnd(prevEnd, bs, k + 1) <= addr < bs[k + 1].start);
      }
      GrowAt(bs[0].End(), rest, addr, i - 1);
      assert rest[i - 1..] == bs[i..] && bs[..i] == [bs[0]] + rest[..i - 1];
      assert PrevEnd(bs[0].End(), rest, i - 1) == PrevEnd(prevEnd, bs, i);
      PrefixedTwice([bs[0]], rest[..i - 1], Grow(PrevEnd(prevEnd, bs, i), bs[i..], addr));
    }
  }

  lemma PrefixedTwice(a: seq<Block>, b: seq<Block>, f: Fault)
    ensures Prefixed(a, Prefixed(b, f)) == Prefixed(a + b, f)
  {
    if f.Grown? {
      assert a + (b + f.blocks) == a + b + f.blocks;
    }
  }

  /** The address lies in the gap below block `i`, the gap has two pages or more, and the block grows down. */
  predicate GrowsAt(prevEnd: nat, bs: seq<Block>, addr: nat, i: nat) {
    && i < |bs| && PrevEnd(prevEnd, bs, i) <= addr < bs[i].start
    && bs[i].start - PrevEnd(prevEnd, bs, i) >= 0x2000 && bs[i].flags / 0x100 % 2 == 1
  }

  /** A fault is served if and only if there is such a block. */
  lemma {:induction false} GrownIff(prevEnd: nat, bs: seq<Block>, addr: nat)
    requires Sorted(bs) && Above(prevEnd, bs)
    ensures Grow(prevEnd, bs, addr).Grown? <==> exists i :: GrowsAt(prevEnd, bs, addr, i)
    decreases |bs|
  {
    if bs != [] {
      AboveTail(bs);
      if prevEnd <= addr < bs[0].start {
        assert Grow(prevEnd, bs, addr).Grown? ==> GrowsAt(prevEnd, bs, addr, 0);
        forall i: nat | 0 < i < |bs|
          ensures !GrowsAt(prevEnd, bs, addr, i)
        {
          assert bs[0].End() <= bs[i - 1].End();
        }
      } else {
        var rest := bs[1..];
        GrownIff(bs[0].End(), rest, addr);
        forall i: nat
          ensures GrowsAt(prevEnd, bs, addr, i + 1) == GrowsAt(bs[0].End(), rest, addr, i)
        {
          assert i < |rest| ==> PrevEnd(prevEnd, bs, i + 1) == PrevEnd(bs[0].End(), rest, i);
        }
        assert !GrowsAt(prevEnd, bs, addr, 0);
        GrownTail(prevEnd, bs, addr);
      }
    }
  }

  lemma GrownTail(prevEnd: nat, bs: seq<Block>, addr: nat)
    requires bs != [] && !GrowsAt(prevEnd, bs, addr, 0)
    requires forall i: nat :: GrowsAt(prevEnd, bs, addr, i + 1) == GrowsAt(bs[0].End(), bs[1..], addr, i)
    ensures (exists i :: GrowsAt(prevEnd, bs, addr, i)) <==> exists i :: GrowsAt(bs[0].End(), bs[1..], addr, i)
  {
    if i: nat :| GrowsAt(prevEnd, bs, addr, i) {
      var k: nat := i - 1;
      assert GrowsAt(prevEnd, bs, addr, k + 1) == GrowsAt(bs[0].End(), bs[1..], addr, k);
    }
  }

  // ----- repeated faults -----

  /** Distance from `addr` up to the first block that starts above it; 0 if there is none. */
  function Gap(bs: seq<Block>, addr: nat): nat {
    if bs == [] then 0 else if addr < bs[0].start then bs[0].start - addr else Gap(bs[1..], addr)
  }

  /** Every handled fault brings the block one page closer. */
  lemma {:induction false} GrowCloser(prevEnd: nat, bs: seq<Block>, addr: nat)
    requires Sorted(bs) && Above(prevEnd, bs) && Aligned(prevEnd) && Grow(prevEnd, bs, addr).Grown?
    requires AttrAt(Grow(prevEnd, bs, addr).blocks, addr) == Unmapped
    ensures Gap(Grow(prevEnd, bs, addr).blocks, addr) + PAGE <= Gap(bs, addr)
    decreases |bs|
  {
    hide Sorted, Guarded;
    var b, rest := bs[0], bs[1..];
    AboveTail(bs);
    if prevEnd <= addr < b.start {
      AttrCons(Longer(b), rest);
    } else {
      GrowKeeps(b.End(), rest, addr);
      AttrCons(b, Grow(b.End(), rest, addr).blocks);
      GrowCloser(b.End(), rest, addr);
      assert ([b] + Grow(b.End(), rest, addr).blocks)[1..] == Grow(b.End(), rest, addr).blocks;
      GrowElsewhere(b.End(), rest, addr);
    }
  }

  /** A handled fault lies at or above the end of the previous block. */
  lemma {:induction false} GrowElsewhere(prevEnd: nat, bs: seq<Block>, addr: nat)
    requires Sorted(bs) && Above(prevEnd, bs) && Grow(prevEnd, bs, addr).Grown?
    ensures prevEnd <= addr
    decreases |bs|
  {
    AboveTail(bs);
    if !(prevEnd <= addr < bs[0].start) {
      GrowElsewhere(bs[0].End(), bs[1..], addr);
    }
  }

  /** Faulting on the same address until it is mapped or the kernel gives up. */
  function FaultUntil(bs: seq<Block>, addr: nat): (r: seq<Block>)
    requires Sorted(bs)
    ensures Sorted(r)
    decreases Gap(bs, addr)
  {
    if AttrAt(bs, addr).Attr? || Grow(0, bs, addr).Hang? then bs
    else
      GrowKeeps(0, bs, addr);
      var next := Grow(0, bs, addr).blocks;
      if AttrAt(next, addr).Attr? then next
      else
        GrowCloser(0, bs, addr);
        FaultUntil(next, addr)
  }

  /** `addr` lies below a block that grows down, and not in the page just above the block before. */
  predicate Reachable(prevEnd: nat, bs: seq<Block>, addr: nat)
    decreases |bs|
  {
    bs != [] &&
    if addr < bs[0].start then prevEnd + PAGE <= addr && GrowsDown(bs[0])
    else Reachable(bs[0].End(), bs[1..], addr)
  }

  /** A fault on an unmapped address is handled exactly when the address is reachable or in the guard's gap. */
  lemma {:induction false} GrowIff(prevEnd: nat, bs: seq<Block>, addr: nat)
    requires Sorted(bs) && Above(prevEnd, bs) && Aligned(prevEnd) && prevEnd <= addr && AttrAt(bs, addr) == Unmapped
    ensures Reachable(prevEnd, bs, addr) ==> Grow(prevEnd, bs, addr).Grown?
    ensures Grow(prevEnd, bs, addr).Grown? ==>
      AttrAt(Grow(prevEnd, bs, addr).blocks, addr) == Unmapped ==>
        Reachable(prevEnd, Grow(prevEnd, bs, addr).blocks, addr) == Reachable(prevEnd, bs, addr)
    ensures Grow(prevEnd, bs, addr).Grown? && AttrAt(Grow(prevEnd, bs, addr).blocks, addr).Attr? ==>
      Reachable(prevEnd, bs, addr)
    decreases |bs|
  {
    if bs != [] {
      var b, rest := bs[0], bs[1..];
      AboveTail(bs);
      if addr < b.start {
        if Grow(prevEnd, bs, addr).Grown? {
          AttrCons(Longer(b), rest);
          assert ([Longer(b)] + rest)[1..] == rest;
          if addr < b.start - PAGE { AttrBelow(rest, addr); }
        }
      } else {
        GrowIff(b.End(), rest, addr);
        if Grow(b.End(), rest, addr).Grown? {
          var r := Grow(b.End(), rest, addr).blocks;
          AttrCons(b, r);
          assert ([b] + r)[1..] == r;
        }
      }
    }
  }

  /**
   * Repeated faults end; the address is mapped then exactly when it was mapped before or it lies below
   * a block that grows down and outside the page kept free above the block before it.
   */
  lemma {:induction false} FaultsMapIff(bs: seq<Block>, addr: nat)
    requires Sorted(bs)
    ensures AttrAt(FaultUntil(bs, addr), addr).Attr? <==> AttrAt(bs, addr).Attr? || Reachable(0, bs, addr)
    decreases Gap(bs, addr)
  {
    if AttrAt(bs, addr) == Unmapped {
      GrowIff(0, bs, addr);
      if Grow(0, bs, addr).Grown? {
        GrowKeeps(0, bs, addr);
        var next := Grow(0, bs, addr).blocks;
        if AttrAt(next, addr) == Unmapped {
          GrowCloser(0, bs, addr);
          FaultsMapIff(next, addr);
        }
      }
    }
  }

  /** The guard pages survive every sequence of faults. */
  function FaultAll(bs: seq<Block>, addrs: seq<nat>): (r: seq<Block>)
    requires Sorted(bs)
    ensures Sorted(r)
    decreases |addrs|
  {
    if addrs == [] then bs
    else if AttrAt(bs, addrs[0]).Attr? || Grow(0, bs, addrs[0]).Hang? then FaultAll(bs, addrs[1..])
    else
      GrowKeeps(0, bs, addrs[0]);
      FaultAll(Grow(0, bs, addrs[0]).blocks, addrs[1..])
  }

  lemma {:induction false} GuardsSurvive(bs: seq<Block>, addrs: seq<nat>)
    requires Sorted(bs) && Guarded(0, bs)
    ensures Guarded(0, FaultAll(bs, addrs))
    decreases |addrs|
  {
    if addrs != [] {
      if AttrAt(bs, addrs[0]).Attr? || Grow(0, bs, addrs[0]).Hang? {
        GuardsSurvive(bs, addrs[1..]);
      } else {
        GrowKeeps(0, bs, addrs[0]);
        GuardsSurvive(Grow(0, bs, addrs[0]).blocks, addrs[1..]);
      }
    }
  }
}
