/**
 * The kernel heap as a layout: an address-ordered list of free blocks, the live blocks, and the bytes
 * lost to both. What allocation, release and resizing keep over every run.
 */
module HeapLayout {
  import opened Bytes

  const HEAP_START: nat := 0xD000_0000
  const HEAP_SIZE: nat := 0x1000_0000
  const HEAP_END: nat := 0xE000_0000
  /** Bytes of the size word in front of every allocation, and of a free block's node. */
  const WORD: nat := 4
  const NODE: nat := 12
  const U32: nat := 0x1_0000_0000

  datatype Blk = Blk(start: nat, size: nat) {
    function End(): nat {
      start + size
    }
  }

  predicate Apart(a: Blk, b: Blk) {
    a.End() <= b.start || b.End() <= a.start
  }

  predicate InHeap(b: Blk) {
    HEAP_START <= b.start && NODE <= b.size && b.End() <= HEAP_END
  }

  function Sum(bs: seq<Blk>): nat {
    if bs == [] then 0 else Sum(bs[..|bs| - 1]) + bs[|bs| - 1].size
  }

  lemma {:induction false} SumConcat(a: seq<Blk>, b: seq<Blk>)
    ensures Sum(a + b) == Sum(a) + Sum(b)
  {
    if b == [] {
      assert a + b == a;
    } else {
      SumConcat(a, b[..|b| - 1]);
      assert (a + b)[..|a + b| - 1] == a + b[..|b| - 1];
    }
  }

  lemma SumAt(bs: seq<Blk>, i: nat)
    requires i < |bs|
    ensures Sum(bs) == Sum(bs[..i]) + bs[i].size + Sum(bs[i + 1..])
  {
    assert bs == bs[..i] + [bs[i]] + bs[i + 1..];
    SumConcat(bs[..i] + [bs[i]], bs[i + 1..]);
    SumConcat(bs[..i], [bs[i]]);
    assert [bs[i]][..0] == [];
  }

  function Put<T>(s: seq<T>, i: nat, x: T): (r: seq<T>)
    requires i <= |s|
    ensures |r| == |s| + 1
    ensures forall k {:trigger r[k]} :: 0 <= k < |r| ==> r[k] == if k < i then s[k] else if k == i then x else s[k - 1]
  {
    s[..i] + [x] + s[i..]
  }

  lemma SumUpdate(bs: seq<Blk>, i: nat, b: Blk)
    requires i < |bs|
    ensures Sum(bs[i := b]) == Sum(bs) - bs[i].size + b.size
  {
    SumAt(bs, i);
    SumAt(bs[i := b], i);
    assert bs[i := b][..i] == bs[..i] && bs[i := b][i + 1..] == bs[i + 1..];
  }

  lemma SumDrop(bs: seq<Blk>, i: nat)
    requires i < |bs|
    ensures Sum(Drop(bs, i)) == Sum(bs) - bs[i].size
  {
    SumAt(bs, i);
    SumConcat(bs[..i], bs[i + 1..]);
  }

  lemma SumPut(bs: seq<Blk>, i: nat, b: Blk)
    requires i <= |bs|
    ensures Sum(Put(bs, i, b)) == Sum(bs) + b.size
  {
    hide Sum;
    SumAt(Put(bs, i, b), i);
    SumConcat(bs[..i], bs[i..]);
    assert Put(bs, i, b)[..i] == bs[..i] && Put(bs, i, b)[i + 1..] == bs[i..];
    assert bs[..i] + bs[i..] == bs;
  }

  lemma SumAppend(bs: seq<Blk>, b: Blk)
    ensures Sum(bs + [b]) == Sum(bs) + b.size
  {
    assert (bs + [b])[..|bs|] == bs;
  }

  datatype Layout = Layout(free: seq<Blk>, live: seq<Blk>, slack: nat)

  /** The base block opens the list; all blocks lie in the heap, the free ones ascending, none overlapping. */
  ghost predicate Placed(l: Layout) {
    && l.free != [] && l.free[0].start == HEAP_START
    && (forall i :: 0 <= i < |l.free| ==> InHeap(l.free[i]))
    && (forall i, j :: 0 <= i < j < |l.free| ==> l.free[i].End() <= l.free[j].start)
    && (forall k :: 0 <= k < |l.live| ==> InHeap(l.live[k]))
    && (forall j, k :: 0 <= j < k < |l.live| ==> Apart(l.live[j], l.live[k]))
    && (forall i, k :: 0 <= i < |l.free| && 0 <= k < |l.live| ==> Apart(l.free[i], l.live[k]))
  }

  /** Placed, and every byte of the heap is free, live or lost. */
  ghost predicate Inv(l: Layout) {
    Placed(l) && Sum(l.free) + Sum(l.live) + l.slack == HEAP_SIZE
  }

  /** `KMM_init`. */
  function Initial(): Layout {
    Layout([Blk(HEAP_START, HEAP_SIZE)], [], 0)
  }

  lemma InitialInv()
    ensures Inv(Initial())
  {
    assert Initial().free[..0] == [];
  }

  // ----- kmalloc -----

  /** Bytes taken for a request, size word included; 32-bit addition wraps. */
  function Need(bytes: nat): (n: nat)
    ensures NODE <= n < U32
  {
    var n := (bytes + WORD) % U32;
    if n < NODE then NODE else n
  }

  /** The block taken holds the request exactly when adding the size word does not wrap. */
  lemma NeedCoversIff(bytes: nat)
    requires bytes < U32
    ensures Need(bytes) >= bytes + WORD <==> bytes + WORD < U32
  {
  }

  /** The test that a free block keeps room for its node, as computed in 32 bits. */
  predicate CarveTest(size: nat, need: nat) {
    size >= (need + NODE) % U32
  }

  /** No request may be so large that the test itself wraps. */
  predicate Testable(bytes: nat) {
    Need(bytes) + NODE < U32
  }

  /** The test speaks the truth about every block of the heap exactly when it does not wrap. */
  lemma CarveTestIff(bytes: nat)
    ensures (forall size: nat :: NODE <= size <= HEAP_SIZE && CarveTest(size, Need(bytes)) ==>
                                   size >= Need(bytes) + NODE)
       <==> Testable(bytes)
  {
    if !Testable(bytes) {
      assert CarveTest(NODE, Need(bytes));
    }
  }

  /** The scan from block `i` to the end of the list. */
  function ScanFrom(free: seq<Blk>, i: nat, need: nat): (r: nat)
    requires i <= |free|
    ensures i <= r <= |free|
    ensures r < |free| ==> free[r].size >= need
    ensures forall k :: i <= k < r ==> free[k].size < need
    decreases |free| - i
  {
    if i == |free| || free[i].size >= need then i else ScanFrom(free, i + 1, need)
  }

  /** First fit starts behind the base block and looks at the base block last; `|free|` means none. */
  function FirstFit(free: seq<Blk>, need: nat): (r: nat)
    requires free != []
    ensures r <= |free|
    ensures r < |free| ==> free[r].size >= need
    ensures r == |free| ==> forall k :: 0 <= k < |free| ==> free[k].size < need
  {
    var r := ScanFrom(free, 1, need);
    if r < |free| then r else if free[0].size >= need then 0 else |free|
  }

  /** Block `r` is chosen exactly if it fits and none that the walk meets before it does. */
  lemma FirstFitMeans(free: seq<Blk>, need: nat, r: nat)
    requires r < |free|
    ensures FirstFit(free, need) == r
       <==> free[r].size >= need && forall k :: 1 <= k < |free| && (r == 0 || k < r) ==> free[k].size < need
  {
  }

  lemma NoFit(free: seq<Blk>, need: nat)
    requires free != [] && forall k :: 0 <= k < |free| ==> free[k].size < need
    ensures FirstFit(free, need) == |free|
  {
  }

  lemma InvPlaced(l: Layout)
    requires Inv(l)
    ensures Placed(l) && l.free != []
  {
  }

  /** Free blocks are told apart by where they start. */
  lemma FreeStart(l: Layout, i: nat, j: nat)
    requires Placed(l) && i < |l.free| && j < |l.free| && l.free[i].start == l.free[j].start
    ensures i == j
  {
    if i != j { FreeApart(l, i, j); }
  }

  /** Whether a request would take the base block whole, which the fixed list head does not survive. */
  predicate TakesBase(l: Layout, need: nat)
    requires l.free != []
  {
    FirstFit(l.free, need) == 0 && l.free[0].size < need + NODE
  }

  /** Taken from the tail of a free block that stays large enough for a node. */
  function Carved(l: Layout, i: nat, need: nat): Layout
    requires i < |l.free| && need <= l.free[i].size
  {
    var b := l.free[i];
    Layout(l.free[i := Blk(b.start, b.size - need)], l.live + [Blk(b.start + (b.size - need), need)], l.slack)
  }

  /** The whole free block; what exceeds the request is lost. */
  function TakenWhole(l: Layout, i: nat, need: nat): Layout
    requires i < |l.free| && need <= l.free[i].size
  {
    var b := l.free[i];
    Layout(Drop(l.free, i), l.live + [Blk(b.start, need)], l.slack + (b.size - need))
  }

  /** `kmalloc`: the layout afterwards; the new block, if any, is the last live one. */
  function Malloc(l: Layout, bytes: nat): Layout
    requires l.free != [] && Testable(bytes)
  {
    var need := Need(bytes);
    var i := FirstFit(l.free, need);
    if i == |l.free| then l
    else if CarveTest(l.free[i].size, need) then Carved(l, i, need)
    else TakenWhole(l, i, need)
  }

  lemma ApartInside(a: Blk, b: Blk, c: Blk)
    requires Apart(a, b) && a.start <= c.start && c.End() <= a.End()
    ensures Apart(c, b) && Apart(b, c)
  {
  }

  /** Replacing free block `i` by a part of itself keeps the free list ascending and apart from live blocks. */
  lemma ShrinkFree(l: Layout, i: nat, c: Blk)
    requires Placed(l) && i < |l.free| && InHeap(c) && (i == 0 ==> c.start == HEAP_START)
    requires l.free[i].start <= c.start && c.End() <= l.free[i].End()
    ensures Placed(l.(free := l.free[i := c]))
  {
    var l' := l.(free := l.free[i := c]);
    forall k | 0 <= k < |l.live|
      ensures Apart(c, l.live[k])
    {
      ApartInside(l.free[i], l.live[k], c);
    }
  }

  /** A part of a free block given up by the list becomes live. */
  lemma AddLive(l: Layout, c: Blk)
    requires Placed(l) && InHeap(c)
    requires forall i :: 0 <= i < |l.free| ==> Apart(l.free[i], c)
    requires forall k :: 0 <= k < |l.live| ==> Apart(l.live[k], c)
    ensures Placed(l.(live := l.live + [c]))
  {
  }

  lemma DropFree(l: Layout, i: nat)
    requires Placed(l) && 0 < i < |l.free|
    ensures Placed(l.(free := Drop(l.free, i)))
  {
  }

  /** Two free blocks are apart. */
  lemma FreeApart(l: Layout, i: nat, j: nat)
    requires Placed(l) && i < |l.free| && j < |l.free| && i != j
    ensures Apart(l.free[i], l.free[j])
  {
    if j < i {
      assert l.free[j].End() <= l.free[i].start;
    }
  }

  lemma CarvedKeeps(l: Layout, i: nat, need: nat)
    requires Inv(l) && i < |l.free| && NODE <= need && need + NODE <= l.free[i].size
    ensures Inv(Carved(l, i, need))
  {
    hide Sum;
    CarvedPlaced(l, i, need);
    var b := l.free[i];
    SumUpdate(l.free, i, Blk(b.start, b.size - need));
    SumAppend(l.live, Blk(b.start + (b.size - need), need));
  }

  lemma CarvedPlaced(l: Layout, i: nat, need: nat)
    requires Placed(l) && i < |l.free| && NODE <= need && need + NODE <= l.free[i].size
    ensures Placed(Carved(l, i, need))
  {
    var b := l.free[i];
    var c, d := Blk(b.start, b.size - need), Blk(b.start + (b.size - need), need);
    var l1 := l.(free := l.free[i := c]);
    ShrinkFree(l, i, c);
    InsideApart(l, i, d);
    hide Placed;
    AddLive(l1, d);
  }

  /** A part of free block `i` is apart from every other block. */
  lemma InsideApart(l: Layout, i: nat, d: Blk)
    requires Placed(l) && i < |l.free| && l.free[i].start <= d.start && d.End() <= l.free[i].End()
    ensures InHeap(l.free[i])
    ensures forall j :: 0 <= j < |l.free| && j != i ==> Apart(l.free[j], d)
    ensures forall k :: 0 <= k < |l.live| ==> Apart(l.live[k], d)
  {
    forall j | 0 <= j < |l.free| && j != i
      ensures Apart(l.free[j], d)
    {
      FreeApart(l, i, j);
    }
    forall k | 0 <= k < |l.live|
      ensures Apart(l.live[k], d)
    {
      ApartInside(l.free[i], l.live[k], d);
    }
  }

  lemma TakenWholeKeeps(l: Layout, i: nat, need: nat)
    requires Inv(l) && 0 < i < |l.free| && NODE <= need <= l.free[i].size
    ensures Inv(TakenWhole(l, i, need))
  {
    hide Sum, Placed;
    TakenWholePlaced(l, i, need);
    SumDrop(l.free, i);
    SumAppend(l.live, Blk(l.free[i].start, need));
  }

  lemma TakenWholePlaced(l: Layout, i: nat, need: nat)
    requires Placed(l) && 0 < i < |l.free| && NODE <= need <= l.free[i].size
    ensures Placed(TakenWhole(l, i, need))
  {
    var d := Blk(l.free[i].start, need);
    DropFree(l, i);
    InsideApart(l, i, d);
    hide Placed;
    AddLive(l.(free := Drop(l.free, i)), d);
  }

  /**
   * Allocation loses less than a node's size, and only when it takes a block whole; it answers nothing
   * exactly if no free block is large enough; it keeps the layout exactly if it does not take the base
   * block whole.
   */
  lemma MallocKeepsIff(l: Layout, bytes: nat)
    requires Inv(l) && Testable(bytes)
    ensures Inv(Malloc(l, bytes)) <==> !TakesBase(l, Need(bytes))
    ensures l.slack <= Malloc(l, bytes).slack < l.slack + NODE
    ensures Malloc(l, bytes) == l <==> forall k :: 0 <= k < |l.free| ==> l.free[k].size < Need(bytes)
    ensures Malloc(l, bytes) == l || exists b: Blk :: b.size == Need(bytes) && Malloc(l, bytes).live == l.live + [b]
  {
    hide Sum, ScanFrom;
    var need := Need(bytes);
    var i := FirstFit(l.free, need);
    if i < |l.free| {
      if CarveTest(l.free[i].size, need) {
        CarvedKeeps(l, i, need);
      } else if i > 0 {
        TakenWholeKeeps(l, i, need);
      } else {
        BaseGone(l, need);
      }
    }
  }

  /**
   * What an allocation does to the blocks. The size taken is the request and its size word, at least 12
   * bytes; it comes off the upper end of the block chosen, which goes whole if it would keep less than 12.
   */
  lemma MallocMeans(l: Layout, bytes: nat)
    requires Inv(l) && Testable(bytes)
    ensures
      var word := (bytes + 4) % 0x1_0000_0000;
      var need := if word < 12 then 12 else word;
      var i, l' := FirstFit(l.free, need), Malloc(l, bytes);
      if i == |l.free| then l' == l
      else
        var f := l.free[i];
        && f.size >= need && |l'.live| == |l.live| + 1 && l'.live[..|l.live|] == l.live
        && l'.live[|l.live|].size == need
        && if f.size >= need + 12 then
             && l'.live[|l.live|].End() == f.End() && l'.slack == l.slack
             && l'.free == l.free[i := Blk(f.start, f.size - need)]
           else
             && l'.live[|l.live|].start == f.start && l'.slack == l.slack + (f.size - need)
             && l'.free == l.free[..i] + l.free[i + 1..]
  {
    hide Sum, ScanFrom, FirstFit;
  }

  /** Asking for all of a fresh heap takes the base block whole, and leaves no list. */
  lemma FreshHeapExhausted()
    ensures Testable(HEAP_SIZE - WORD) && TakesBase(Initial(), Need(HEAP_SIZE - WORD))
    ensures Malloc(Initial(), HEAP_SIZE - WORD).free == [] && !Inv(Malloc(Initial(), HEAP_SIZE - WORD))
  {
  }

  lemma BaseGone(l: Layout, need: nat)
    requires Placed(l) && need <= l.free[0].size
    ensures !Placed(TakenWhole(l, 0, need))
  {
    if |l.free| > 1 {
      assert l.free[0].End() <= l.free[1].start;
    }
  }

  // ----- kfree -----

  /** How many free blocks lie below an address. */
  function Below(free: seq<Blk>, a: nat): (n: nat)
    ensures n <= |free|
    ensures forall k :: 0 <= k < n ==> free[k].start < a
    ensures n < |free| ==> free[n].start >= a
  {
    if free == [] || free[0].start >= a then 0 else 1 + Below(free[1..], a)
  }

  lemma BelowIs(free: seq<Blk>, a: nat, n: nat)
    requires n <= |free| && (forall k :: 0 <= k < n ==> free[k].start < a)
    requires n < |free| ==> free[n].start >= a
    ensures Below(free, a) == n
  {
    hide Below;
  }

  /** Joins free block `i` with the next one, or else with the previous one, if they touch. */
  function Coalesced(free: seq<Blk>, i: nat): (r: seq<Blk>)
    requires i < |free|
  {
    if i + 1 < |free| && free[i].End() == free[i + 1].start then
      Drop(free, i + 1)[i := Blk(free[i].start, free[i].size + free[i + 1].size)]
    else if i > 0 && free[i - 1].End() == free[i].start then
      Drop(free, i)[i - 1 := Blk(free[i - 1].start, free[i - 1].size + free[i].size)]
    else free
  }

  /** `kfree` of live block `k`. */
  function Release(l: Layout, k: nat): Layout
    requires k < |l.live|
  {
    var b := l.live[k];
    var i := Below(l.free, b.start);
    Layout(Coalesced(Put(l.free, i, b), i), Drop(l.live, k), l.slack)
  }

  /** A live block put back in its place among the free ones. */
  lemma PutKeeps(l: Layout, k: nat)
    requires Inv(l) && k < |l.live|
    ensures
      var i := Below(l.free, l.live[k].start);
      0 < i && Inv(Layout(Put(l.free, i, l.live[k]), Drop(l.live, k), l.slack))
  {
    var b := l.live[k];
    var i := Below(l.free, b.start);
    assert Apart(l.free[0], b);
    var l' := Layout(Put(l.free, i, b), Drop(l.live, k), l.slack);
    forall j | 0 <= j < |l.free|
      ensures if j < i then l.free[j].End() <= b.start else b.End() <= l.free[j].start
    {
      assert Apart(l.free[j], b);
      if j > i { assert l.free[i].End() <= l.free[j].start; }
    }
    forall j | 0 <= j < |l'.live|
      ensures Apart(b, l'.live[j])
    {
      var j0 := if j < k then j else j + 1;
      if j0 < k { assert Apart(l.live[j0], l.live[k]); } else { assert Apart(l.live[k], l.live[j0]); }
    }
    PutPlaced(l, k, i);
    SumPut(l.free, i, b);
    SumDrop(l.live, k);
  }

  lemma PutPlaced(l: Layout, k: nat, i: nat)
    requires Placed(l) && k < |l.live| && 0 < i <= |l.free|
    requires forall j :: 0 <= j < |l.free| ==>
      if j < i then l.free[j].End() <= l.live[k].start else l.live[k].End() <= l.free[j].start
    requires forall j :: 0 <= j < |Drop(l.live, k)| ==> Apart(l.live[k], Drop(l.live, k)[j])
    ensures Placed(Layout(Put(l.free, i, l.live[k]), Drop(l.live, k), l.slack))
  {
  }

  /** Joining two touching neighbours of the free list. */
  lemma JoinKeeps(l: Layout, i: nat)
    requires Inv(l) && i + 1 < |l.free| && l.free[i].End() == l.free[i + 1].start
    ensures Inv(l.(free := Drop(l.free, i + 1)[i := Blk(l.free[i].start, l.free[i].size + l.free[i + 1].size)]))
  {
    var c := Blk(l.free[i].start, l.free[i].size + l.free[i + 1].size);
    JoinPlaced(l, i, c);
    SumDrop(l.free, i + 1);
    SumUpdate(Drop(l.free, i + 1), i, c);
  }

  lemma JoinPlaced(l: Layout, i: nat, c: Blk)
    requires Placed(l) && i + 1 < |l.free| && l.free[i].End() == l.free[i + 1].start
    requires c == Blk(l.free[i].start, l.free[i].size + l.free[i + 1].size)
    ensures Placed(l.(free := Drop(l.free, i + 1)[i := c]))
  {
    var free' := Drop(l.free, i + 1)[i := c];
    forall k | 0 <= k < |l.live|
      ensures Apart(c, l.live[k])
    {
      assert Apart(l.free[i], l.live[k]) && Apart(l.free[i + 1], l.live[k]);
    }
  }

  /** Release keeps the layout and gives back exactly the block's bytes. */
  lemma ReleaseKeeps(l: Layout, k: nat)
    requires Inv(l) && k < |l.live|
    ensures Inv(Release(l, k)) && Release(l, k).live == Drop(l.live, k) && Release(l, k).slack == l.slack
    ensures Sum(Release(l, k).free) == Sum(l.free) + l.live[k].size
  {
    hide Sum, Placed, Below;
    var i := Below(l.free, l.live[k].start);
    PutKeeps(l, k);
    var l1 := Layout(Put(l.free, i, l.live[k]), Drop(l.live, k), l.slack);
    CoalescedKeeps(l1, i);
    SumDrop(l.live, k);
  }

  lemma CoalescedKeeps(l: Layout, i: nat)
    requires Inv(l) && 0 < i < |l.free|
    ensures Inv(l.(free := Coalesced(l.free, i)))
  {
    hide Sum, Placed;
    if i + 1 < |l.free| && l.free[i].End() == l.free[i + 1].start {
      JoinKeeps(l, i);
    } else if l.free[i - 1].End() == l.free[i].start {
      JoinKeeps(l, i - 1);
    }
  }
}
