/**
 * The sorted list of a process's memory blocks, as a sequence: insertion, first fit, removal of a
 * page, and growing down. The simple thing it stands for is a set of pages with attributes.
 */
module UserBlocks {

  const PAGE: nat := 0x1000
  const USER_END: nat := 0xC000_0000

  datatype Block = Block(start: nat, len: nat, prot: nat, flags: nat) {
    function End(): nat {
      start + len
    }

    predicate Holds(a: nat) {
      start <= a < End()
    }
  }

  datatype Attr = Unmapped | Attr(prot: nat, flags: nat)

  predicate Aligned(a: nat) {
    a % PAGE == 0
  }

  predicate GoodBlock(b: Block) {
    Aligned(b.start) && Aligned(b.len) && 0 < b.len && b.End() <= USER_END
  }

  /** Blocks are page-aligned, non-empty, inside user memory, ascending and disjoint. */
  predicate Sorted(bs: seq<Block>) {
    && (forall i :: 0 <= i < |bs| ==> GoodBlock(bs[i]))
    && (forall i, j :: 0 <= i < j < |bs| ==> bs[i].End() <= bs[j].start)
  }

  /** The attributes of the block that holds an address. */
  function AttrAt(bs: seq<Block>, a: nat): Attr {
    if bs == [] then Unmapped
    else if bs[0].Holds(a) then Attr(bs[0].prot, bs[0].flags)
    else AttrAt(bs[1..], a)
  }

  lemma {:induction false} AttrOfBlock(bs: seq<Block>, i: nat, a: nat)
    requires Sorted(bs) && i < |bs| && bs[i].Holds(a)
    ensures AttrAt(bs, a) == Attr(bs[i].prot, bs[i].flags)
  {
    if i > 0 {
      SortedTail(bs);
      AttrOfBlock(bs[1..], i - 1, a);
    }
  }

  lemma {:induction false} AttrNowhere(bs: seq<Block>, a: nat)
    ensures AttrAt(bs, a) == Unmapped <==> forall i :: 0 <= i < |bs| ==> !bs[i].Holds(a)
  {
    if bs != [] {
      AttrNowhere(bs[1..], a);
      assert forall i :: 0 < i < |bs| ==> bs[i] == bs[1..][i - 1];
    }
  }

  lemma SortedTail(bs: seq<Block>)
    requires Sorted(bs) && bs != []
    ensures Sorted(bs[1..])
  {
  }

  /** A block in front of a sorted list. */
  lemma SortedCons(b: Block, bs: seq<Block>)
    requires Sorted(bs) && GoodBlock(b) && (bs != [] ==> b.End() <= bs[0].start)
    ensures Sorted([b] + bs)
  {
    var all := [b] + bs;
    forall i, j | 0 <= i < j < |all|
      ensures all[i].End() <= all[j].start
    {
      if i == 0 && j > 1 {
        assert bs[0].End() <= bs[j - 1].start;
      }
    }
  }

  lemma AttrCons(b: Block, bs: seq<Block>)
    ensures forall a: nat :: AttrAt([b] + bs, a) == if b.Holds(a) then Attr(b.prot, b.flags) else AttrAt(bs, a)
  {
    assert ([b] + bs)[1..] == bs;
  }

  // ----- insertion -----

  /** Where `umap_pages` hangs a block that starts above the first one. */
  function After(bs: seq<Block>, b: Block): (r: seq<Block>)
    requires bs != []
    ensures |r| == |bs| + 1 && r[0] == bs[0]
  {
    if |bs| > 1 && bs[1].End() <= b.start then [bs[0]] + After(bs[1..], b) else [bs[0], b] + bs[1..]
  }

  /** The list part of `umap_pages`; a block at the very start of the first one replaces the list. */
  function Insert(bs: seq<Block>, b: Block): seq<Block> {
    if bs != [] && b.start > bs[0].start then After(bs, b)
    else if bs != [] && b.start < bs[0].start then [b] + bs
    else [b]
  }

  predicate Apart(b: Block, c: Block) {
    b.End() <= c.start || c.End() <= b.start
  }

  predicate FitsIn(bs: seq<Block>, b: Block) {
    forall i :: 0 <= i < |bs| ==> Apart(bs[i], b)
  }

  lemma {:induction false} AfterKeeps(bs: seq<Block>, b: Block)
    requires Sorted(bs) && bs != [] && GoodBlock(b) && FitsIn(bs, b) && b.start > bs[0].start
    ensures Sorted(After(bs, b))
    ensures forall a: nat :: AttrAt(After(bs, b), a) == if b.Holds(a) then Attr(b.prot, b.flags) else AttrAt(bs, a)
  {
    assert Apart(bs[0], b);
    SortedTail(bs);
    var rest := bs[1..];
    if |bs| > 1 && bs[1].End() <= b.start {
      assert forall i :: 0 <= i < |rest| ==> rest[i] == bs[i + 1];
      AfterKeeps(rest, b);
      SortedCons(bs[0], After(rest, b));
    } else {
      if rest != [] { assert Apart(bs[1], b); }
      SortedCons(b, rest);
      SortedCons(bs[0], [b] + rest);
      assert [bs[0], b] + rest == [bs[0]] + ([b] + rest);
      assert ([b] + rest)[1..] == rest;
    }
  }

  /** Inserting a block that fits keeps the list sorted and maps exactly the block's range anew. */
  lemma InsertKeeps(bs: seq<Block>, b: Block)
    requires Sorted(bs) && GoodBlock(b) && FitsIn(bs, b)
    ensures Sorted(Insert(bs, b))
    ensures forall a: nat :: AttrAt(Insert(bs, b), a) == if b.Holds(a) then Attr(b.prot, b.flags) else AttrAt(bs, a)
  {
    if bs == [] {
    } else {
      assert Apart(bs[0], b);
      if b.start > bs[0].start {
        AfterKeeps(bs, b);
      } else {
        SortedCons(b, bs);
        assert ([b] + bs)[1..] == bs;
      }
    }
  }

  // ----- first fit -----

  datatype Fit = NoFit | Fit(at: nat)

  /** The gap search from block `bs[0]` on. */
  function FitBehind(bs: seq<Block>, len: nat): Fit
    requires bs != []
  {
    if |bs| > 1 then
      if bs[1].start - bs[0].End() >= len then Fit(bs[0].End()) else FitBehind(bs[1..], len)
    else if USER_END - bs[0].End() >= len then Fit(bs[0].End())
    else NoFit
  }

  /** The search of `ualloc_pages`. */
  function FirstFit(bs: seq<Block>, len: nat): Fit {
    if bs == [] then Fit(0)
    else if bs[0].start >= len then Fit(0)
    else FitBehind(bs, len)
  }

  /** `len` bytes at `at` lie in user memory and touch no block. */
  predicate Room(bs: seq<Block>, at: nat, len: nat) {
    at + len <= USER_END && FitsIn(bs, Block(at, len, 0, 0))
  }

  lemma {:induction false} FitBehindIsLowest(bs: seq<Block>, len: nat)
    requires Sorted(bs) && bs != [] && 0 < len
    ensures FitBehind(bs, len).Fit? ==> Room(bs, FitBehind(bs, len).at, len) && bs[0].End() <= FitBehind(bs, len).at
    ensures forall at: nat :: bs[0].End() <= at && Room(bs, at, len) ==>
      FitBehind(bs, len).Fit? && FitBehind(bs, len).at <= at
  {
    SortedTail(bs);
    var rest := bs[1..];
    assert forall i :: 0 <= i < |rest| ==> rest[i] == bs[i + 1];
    if |bs| > 1 {
      if bs[1].start - bs[0].End() >= len {
        forall i | 0 <= i < |bs|
          ensures Apart(bs[i], Block(bs[0].End(), len, 0, 0))
        {
          if i > 1 { assert bs[1].End() <= bs[i].start; }
        }
      } else {
        FitBehindIsLowest(rest, len);
        forall at: nat | bs[0].End() <= at && Room(bs, at, len)
          ensures bs[1].End() <= at && Room(rest, at, len)
        {
          assert Apart(bs[1], Block(at, len, 0, 0));
          forall i | 0 <= i < |rest|
            ensures Apart(rest[i], Block(at, len, 0, 0))
          {
            assert Apart(bs[i + 1], Block(at, len, 0, 0));
          }
        }
      }
    }
  }

  /**
   * First fit returns the lowest address with room for `len` bytes and fails only when there is none;
   * with no blocks at all it does not look at `len`, so then `len` must fit user memory.
   */
  lemma FirstFitIsLowest(bs: seq<Block>, len: nat)
    requires Sorted(bs) && 0 < len && (bs == [] ==> len <= USER_END)
    ensures FirstFit(bs, len).Fit? ==> Room(bs, FirstFit(bs, len).at, len) && Aligned(FirstFit(bs, len).at)
    ensures forall at: nat :: Room(bs, at, len) ==> FirstFit(bs, len).Fit? && FirstFit(bs, len).at <= at
  {
    if bs != [] {
      FitBehindIsLowest(bs, len);
      FitBehindAligned(bs, len);
      if bs[0].start >= len {
        forall i | 0 <= i < |bs|
          ensures Apart(bs[i], Block(0, len, 0, 0))
        {
          if i > 0 { assert bs[0].End() <= bs[i].start; }
        }
      } else {
        forall at: nat | Room(bs, at, len)
          ensures bs[0].End() <= at
        {
          assert Apart(bs[0], Block(at, len, 0, 0));
        }
      }
    }
  }

  lemma {:induction false} FitBehindAligned(bs: seq<Block>, len: nat)
    requires Sorted(bs) && bs != []
    ensures FitBehind(bs, len).Fit? ==> Aligned(FitBehind(bs, len).at)
  {
    assert GoodBlock(bs[0]);
    if |bs| > 1 {
      SortedTail(bs);
      FitBehindAligned(bs[1..], len);
    }
  }

  /** The answer is the lowest place with room, or rightly none. */
  ghost predicate FitRight(bs: seq<Block>, len: nat) {
    && (FirstFit(bs, len).Fit? ==> Room(bs, FirstFit(bs, len).at, len))
    && (forall at: nat :: Room(bs, at, len) ==> FirstFit(bs, len).Fit? && FirstFit(bs, len).at <= at)
  }

  /** First fit answers rightly on every list exactly if there is a block or the request fits user memory. */
  lemma FirstFitRightIff(bs: seq<Block>, len: nat)
    requires Sorted(bs) && 0 < len
    ensures FitRight(bs, len) <==> bs != [] || len <= USER_END
  {
    if bs != [] || len <= USER_END {
      FirstFitIsLowest(bs, len);
    }
  }

  // ----- removing a page -----

  predicate Interior(b: Block, page: nat) {
    b.start < page && page + PAGE < b.End()
  }

  /** The list part of `umm_unmap_page`. */
  function Unmap(bs: seq<Block>, page: nat): seq<Block> {
    if bs == [] then []
    else
      var b, rest := bs[0], bs[1..];
      if b.start == page then
        if b.len <= PAGE then rest else [b.(start := b.start + PAGE, len := b.len - PAGE)] + rest
      else if Interior(b, page) then
        [b.(len := page - b.start), b.(start := page + PAGE, len := b.End() - (page + PAGE))] + rest
      else if page + PAGE == b.End() && PAGE <= b.len then [b.(len := b.len - PAGE)] + rest
      else [b] + Unmap(rest, page)
  }

  /** The code needs a predecessor to split a block, so it cannot split the first one. */
  predicate Splittable(bs: seq<Block>, page: nat) {
    bs != [] ==> !Interior(bs[0], page)
  }

  /** Unmapping a page of a sorted list removes exactly that page and keeps all other attributes. */
  lemma {:induction false} UnmapKeeps(bs: seq<Block>, page: nat)
    requires Sorted(bs) && Aligned(page)
    ensures Sorted(Unmap(bs, page))
    ensures bs != [] && Unmap(bs, page) != [] ==> bs[0].start <= Unmap(bs, page)[0].start
    ensures forall a: nat :: AttrAt(Unmap(bs, page), a) == if page <= a < page + PAGE then Unmapped else AttrAt(bs, a)
  {
    if bs != [] {
      var b, rest := bs[0], bs[1..];
      assert GoodBlock(b);
      SortedTail(bs);
      if b.Holds(page) {
        UnmapHere(bs, page);
      } else {
        UnmapKeeps(rest, page);
        SortedCons(b, Unmap(rest, page));
        assert ([b] + Unmap(rest, page))[1..] == Unmap(rest, page);
        assert forall a: nat :: page <= a < page + PAGE ==> !b.Holds(a);
      }
    }
  }

  /** Putting `c` in place of the first block changes attributes only inside that block. */
  lemma ReplaceFirst(b: Block, c: Block, rest: seq<Block>)
    requires Sorted([b] + rest) && GoodBlock(c) && b.start <= c.start && c.End() <= b.End()
    ensures Sorted(rest) && Sorted([c] + rest)
    ensures forall a: nat ::
      AttrAt([c] + rest, a) ==
        if c.Holds(a) then Attr(c.prot, c.flags) else if b.Holds(a) then Unmapped else AttrAt([b] + rest, a)
    ensures forall a: nat :: b.Holds(a) ==> AttrAt([b] + rest, a) == Attr(b.prot, b.flags)
  {
    var bs := [b] + rest;
    SortedTail(bs);
    assert bs[1..] == rest && ([c] + rest)[1..] == rest;
    if rest != [] { assert bs[0].End() <= bs[1].start; }
    SortedCons(c, rest);
    BehindFirst(b, rest);
  }

  /** No later block holds an address of the first one. */
  lemma BehindFirst(b: Block, rest: seq<Block>)
    requires Sorted([b] + rest)
    ensures forall a: nat :: b.Holds(a) ==> AttrAt(rest, a) == Unmapped
  {
    forall a: nat | b.Holds(a)
      ensures AttrAt(rest, a) == Unmapped
    {
      AttrNowhere(rest, a);
      forall i | 0 <= i < |rest|
        ensures !rest[i].Holds(a)
      {
        var bs := [b] + rest;
        assert bs[0].End() <= bs[i + 1].start;
      }
    }
  }

  /** The case in which the first block holds the page. */
  lemma UnmapHere(bs: seq<Block>, page: nat)
    requires Sorted(bs) && Aligned(page) && bs != [] && bs[0].Holds(page)
    ensures Sorted(Unmap(bs, page))
    ensures Unmap(bs, page) != [] ==> bs[0].start <= Unmap(bs, page)[0].start
    ensures forall a: nat :: AttrAt(Unmap(bs, page), a) == if page <= a < page + PAGE then Unmapped else AttrAt(bs, a)
  {
    hide Sorted, AttrAt;
    var b, rest := bs[0], bs[1..];
    assert bs == [b] + rest;
    FirstGood(bs);
    if b.start == page {
      if b.len <= PAGE {
        DropFirst(b, rest);
      } else {
        ReplaceFirst(b, b.(start := b.start + PAGE, len := b.len - PAGE), rest);
      }
    } else if Interior(b, page) {
      SplitFirst(b, rest, page);
    } else {
      ReplaceFirst(b, b.(len := b.len - PAGE), rest);
    }
  }

  /** The case in which the page is the whole block. */
  lemma DropFirst(b: Block, rest: seq<Block>)
    requires Sorted([b] + rest)
    ensures Sorted(rest) && (rest != [] ==> b.End() <= rest[0].start)
    ensures forall a: nat :: AttrAt(rest, a) == if b.Holds(a) then Unmapped else AttrAt([b] + rest, a)
  {
    var bs := [b] + rest;
    SortedTail(bs);
    assert bs[1..] == rest;
    if rest != [] { assert bs[0].End() <= bs[1].start; }
    BehindFirst(b, rest);
  }

  lemma FirstGood(bs: seq<Block>)
    requires Sorted(bs) && bs != []
    ensures GoodBlock(bs[0])
  {
  }

  /** The case of a split. */
  lemma SplitFirst(b: Block, rest: seq<Block>, page: nat)
    requires Sorted([b] + rest) && GoodBlock(b) && Aligned(page) && Interior(b, page)
    ensures
      var r := [b.(len := page - b.start), b.(start := page + PAGE, len := b.End() - (page + PAGE))] + rest;
      Sorted(r) && forall a: nat :: AttrAt(r, a) == if page <= a < page + PAGE then Unmapped else AttrAt([b] + rest, a)
  {
    hide Sorted, AttrAt;
    var c, d := b.(len := page - b.start), b.(start := page + PAGE, len := b.End() - (page + PAGE));
    ReplaceFirst(b, d, rest);
    SortedCons(c, [d] + rest);
    assert [c, d] + rest == [c] + ([d] + rest);
    AttrCons(c, [d] + rest);
  }

  /**
   * Only the first page of a range can ask for a split of the first block: if that page does not,
   * none of the following pages does.
   */
  lemma SplittableNext(bs: seq<Block>, page: nat)
    requires Sorted(bs) && Aligned(page)
    ensures Splittable(Unmap(bs, page), page + PAGE)
  {
    hide Unmap;
    var r := Unmap(bs, page);
    UnmapKeeps(bs, page);
    if r != [] {
      assert GoodBlock(r[0]);
      assert AttrAt(r, page) == Unmapped;
      assert !r[0].Holds(page);
    }
  }

  // ----- inserting a block and unmapping its range again -----

  /** `umm_unmap_range` over `[a, end)`, page by page. */
  function UnmapRange(bs: seq<Block>, a: nat, end: nat): seq<Block>
    decreases end - a
  {
    if a >= end then bs else UnmapRange(Unmap(bs, a), a + PAGE, end)
  }

  lemma FirstTwo(bs: seq<Block>, b: Block)
    requires Sorted(bs) && bs != [] && FitsIn(bs, b)
    ensures GoodBlock(bs[0]) && Apart(bs[0], b) && Sorted(bs[1..]) && FitsIn(bs[1..], b)
    ensures |bs| > 1 ==> GoodBlock(bs[1]) && Apart(bs[1], b) && bs[0].End() <= bs[1].start
  {
    assert forall i :: 0 <= i < |bs[1..]| ==> bs[1..][i] == bs[i + 1];
  }

  /** Removing the first page of a block just inserted leaves the list with the shorter block. */
  lemma {:induction false} AfterUnmapFirst(bs: seq<Block>, b: Block)
    requires Sorted(bs) && bs != [] && GoodBlock(b) && FitsIn(bs, b) && b.start > bs[0].start
    ensures Unmap(After(bs, b), b.start) ==
      if b.len == PAGE then bs else After(bs, b.(start := b.start + PAGE, len := b.len - PAGE))
  {
    hide Sorted, FitsIn;
    FirstTwo(bs, b);
    var rest := bs[1..];
    if |bs| > 1 && bs[1].End() <= b.start {
      AfterUnmapFirst(rest, b);
      assert ([bs[0]] + After(rest, b))[1..] == After(rest, b);
    } else {
      assert ([bs[0], b] + rest)[1..] == [b] + rest;
      assert ([b] + rest)[1..] == rest;
    }
  }

  lemma InsertUnmapFirst(bs: seq<Block>, b: Block)
    requires Sorted(bs) && GoodBlock(b) && FitsIn(bs, b)
    ensures Unmap(Insert(bs, b), b.start) ==
      if b.len == PAGE then bs else Insert(bs, b.(start := b.start + PAGE, len := b.len - PAGE))
  {
    if bs != [] {
      assert Apart(bs[0], b) && GoodBlock(bs[0]);
      if b.start > bs[0].start {
        AfterUnmapFirst(bs, b);
      } else {
        assert ([b] + bs)[1..] == bs;
      }
    }
  }

  /** Mapping a fitting range and unmapping it again restores the list exactly. */
  lemma {:induction false} InsertUnmapRestores(bs: seq<Block>, b: Block)
    requires Sorted(bs) && GoodBlock(b) && FitsIn(bs, b)
    ensures UnmapRange(Insert(bs, b), b.start, b.End()) == bs
    decreases b.len
  {
    InsertUnmapFirst(bs, b);
    if b.len > PAGE {
      var c := b.(start := b.start + PAGE, len := b.len - PAGE);
      forall i | 0 <= i < |bs|
        ensures Apart(bs[i], c)
      {
        assert Apart(bs[i], b);
      }
      InsertUnmapRestores(bs, c);
    }
  }
}
