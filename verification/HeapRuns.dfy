/** Resizing in place or by moving, round trips, and whole runs of the kernel heap's operations. */
module HeapRuns {
  import opened Bytes
  import opened HeapLayout

  // ----- krealloc -----

  /** The free block starting at an address; `|free|` if there is none. */
  function At(free: seq<Blk>, a: nat): (r: nat)
    ensures r <= |free|
    ensures r < |free| ==> free[r].start == a
    ensures forall k :: 0 <= k < r ==> free[k].start != a
  {
    if free == [] || free[0].start == a then 0 else 1 + At(free[1..], a)
  }

  lemma AtIs(l: Layout, a: nat, i: nat)
    requires Placed(l) && i < |l.free| && l.free[i].start == a
    ensures At(l.free, a) == i
  {
    FreeStart(l, At(l.free, a), i);
  }

  datatype Path = Keep | Split | Absorb | Move

  /** Which way `krealloc` goes. The size compared with is that of the whole block, its size word included. */
  function PathOf(l: Layout, k: nat, n: nat): Path
    requires k < |l.live|
  {
    var b := l.live[k];
    var j := At(l.free, b.End());
    if n <= b.size then Keep
    else if j == |l.free| || l.free[j].size < n - b.size then Move
    else if l.free[j].size - (n - b.size) >= NODE then Split
    else Absorb
  }

  /** What moving needs: the request does not wrap, a block is found, and not the base block whole. */
  predicate CanMove(l: Layout, n: nat)
    requires l.free != []
  {
    n + WORD + NODE < U32 && FirstFit(l.free, Need(n)) < |l.free| && !TakesBase(l, Need(n))
  }

  predicate CanResize(l: Layout, k: nat, n: nat)
    requires l.free != []
  {
    k < |l.live| && (PathOf(l, k, n) == Move ==> CanMove(l, n))
  }

  /** The front of the next free block joined to live block `k`. */
  function SplitOff(l: Layout, k: nat, n: nat): Layout
    requires k < |l.live| && PathOf(l, k, n) == Split
  {
    var b, j := l.live[k], At(l.free, l.live[k].End());
    var more := n - b.size;
    Layout(l.free[j := Blk(l.free[j].start + more, l.free[j].size - more)], l.live[k := Blk(b.start, n)], l.slack)
  }

  /** The whole next free block joined to live block `k`. */
  function Absorbed(l: Layout, k: nat, n: nat): Layout
    requires k < |l.live| && PathOf(l, k, n) == Absorb
  {
    var b, j := l.live[k], At(l.free, l.live[k].End());
    Layout(Drop(l.free, j), l.live[k := Blk(b.start, b.size + l.free[j].size)], l.slack)
  }

  /** `krealloc` of live block `k`: a moved block becomes the last live one. */
  function Resize(l: Layout, k: nat, n: nat): Layout
    requires l.free != [] && CanResize(l, k, n)
  {
    match PathOf(l, k, n)
    case Keep => l
    case Split => SplitOff(l, k, n)
    case Absorb => Absorbed(l, k, n)
    case Move => Release(Malloc(l, n), k)
  }

  /** Where the resized block ends up among the live ones. */
  function ResizedAt(l: Layout, k: nat, n: nat): nat
    requires k < |l.live|
  {
    if PathOf(l, k, n) == Move then |l.live| - 1 else k
  }

  lemma NextIsNotBase(l: Layout, k: nat)
    requires Placed(l) && k < |l.live|
    ensures At(l.free, l.live[k].End()) > 0
  {
    assert InHeap(l.live[k]);
  }

  /** A block of the live list traded for another one that is apart from everything else. */
  lemma TradeLive(l: Layout, k: nat, c: Blk)
    requires Placed(l) && k < |l.live| && InHeap(c)
    requires forall i :: 0 <= i < |l.free| ==> Apart(l.free[i], c)
    requires forall j :: 0 <= j < |l.live| && j != k ==> Apart(l.live[j], c)
    ensures Placed(l.(live := l.live[k := c]))
  {
  }

  /** What is apart from two touching blocks is apart from both together. */
  lemma ApartBoth(a: Blk, b: Blk, c: Blk, d: Blk)
    requires Apart(a, d) && Apart(b, d) && a.End() == b.start && a.start <= c.start && c.End() <= b.End()
    requires NODE <= a.size && NODE <= b.size && NODE <= d.size
    ensures Apart(c, d) && Apart(d, c)
  {
  }

  ghost predicate OtherThan(free: seq<Blk>, j: nat, b: Blk) {
    exists m :: 0 <= m < |free| && m != j && b == free[m]
  }

  /** Live block `k` grown into the free block `j` right behind it, which is gone or shrunk already. */
  lemma GrowIntoNext(l: Layout, l1: Layout, k: nat, j: nat, c: Blk)
    requires Placed(l) && Placed(l1) && k < |l.live| && l1.live == l.live && 0 < j < |l.free|
    requires l.live[k].End() == l.free[j].start && c.start == l.live[k].start && c.End() <= l.free[j].End()
    requires NODE <= c.size
    requires forall i :: 0 <= i < |l1.free| ==> c.End() <= l1.free[i].start || OtherThan(l.free, j, l1.free[i])
    ensures Placed(l1.(live := l1.live[k := c]))
  {
    var b, f := l.live[k], l.free[j];
    forall i | 0 <= i < |l1.free|
      ensures Apart(l1.free[i], c)
    {
      if !(c.End() <= l1.free[i].start) {
        var m :| 0 <= m < |l.free| && m != j && l1.free[i] == l.free[m];
        FreeApart(l, j, m);
        ApartBoth(b, f, c, l.free[m]);
      }
    }
    forall i | 0 <= i < |l1.live| && i != k
      ensures Apart(l1.live[i], c)
    {
      assert Apart(l.live[i], b) && Apart(f, l.live[i]) by {
        if i < k { assert Apart(l.live[i], l.live[k]); } else { assert Apart(l.live[k], l.live[i]); }
      }
      ApartBoth(b, f, c, l.live[i]);
    }
    TradeLive(l1, k, c);
  }

  lemma SplitKeeps(l: Layout, k: nat, n: nat)
    requires Inv(l) && k < |l.live| && PathOf(l, k, n) == Split
    ensures Inv(SplitOff(l, k, n))
  {
    hide Sum, Placed;
    SplitPlaced(l, k, n);
    var j := At(l.free, l.live[k].End());
    SumUpdate(l.free, j, SplitOff(l, k, n).free[j]);
    SumUpdate(l.live, k, Blk(l.live[k].start, n));
  }

  lemma SplitPlaced(l: Layout, k: nat, n: nat)
    requires Placed(l) && k < |l.live| && PathOf(l, k, n) == Split
    ensures Placed(SplitOff(l, k, n))
  {
    hide At;
    NextIsNotBase(l, k);
    var b, j := l.live[k], At(l.free, l.live[k].End());
    var more := n - b.size;
    var f := Blk(l.free[j].start + more, l.free[j].size - more);
    var l1 := l.(free := l.free[j := f]);
    ShrinkFree(l, j, f);
    OthersSame(l.free, j, f);
    hide Placed;
    GrowIntoNext(l, l1, k, j, Blk(b.start, n));
  }

  lemma OthersSame(free: seq<Blk>, j: nat, f: Blk)
    requires j < |free|
    ensures
      var r := free[j := f];
      forall i :: 0 <= i < |r| ==> r[i] == f || OtherThan(free, j, r[i])
  {
    var r := free[j := f];
    forall i | 0 <= i < |r|
      ensures r[i] == f || OtherThan(free, j, r[i])
    {
      if i != j { assert r[i] == free[i]; }
    }
  }

  lemma AbsorbKeeps(l: Layout, k: nat, n: nat)
    requires Inv(l) && k < |l.live| && PathOf(l, k, n) == Absorb
    ensures Inv(Absorbed(l, k, n))
  {
    hide Sum, Placed, At, Drop;
    InvPlaced(l);
    NextIsNotBase(l, k);
    var b, j := l.live[k], At(l.free, l.live[k].End());
    var c := Blk(b.start, b.size + l.free[j].size);
    DropFree(l, j);
    OthersLeft(l.free, j);
    WideEnough(l, k, c);
    GrowIntoNext(l, l.(free := Drop(l.free, j)), k, j, c);
    SumDrop(l.free, j);
    SumUpdate(l.live, k, c);
  }

  lemma OthersLeft(free: seq<Blk>, j: nat)
    requires j < |free|
    ensures
      var r := Drop(free, j);
      forall i :: 0 <= i < |r| ==> OtherThan(free, j, r[i])
  {
    var r := Drop(free, j);
    forall i | 0 <= i < |r|
      ensures OtherThan(free, j, r[i])
    {
      assert r[i] == free[if i < j then i else i + 1];
    }
  }

  lemma WideEnough(l: Layout, k: nat, c: Blk)
    requires Placed(l) && k < |l.live| && c.size >= l.live[k].size
    ensures NODE <= c.size
  {
    assert InHeap(l.live[k]);
  }

  lemma MallocGrants(l: Layout, n: nat)
    requires Inv(l) && CanMove(l, n)
    ensures Malloc(l, n).live[..|l.live|] == l.live && |Malloc(l, n).live| == |l.live| + 1
    ensures Malloc(l, n).live[|l.live|].size == n + WORD || Malloc(l, n).live[|l.live|].size == NODE > n + WORD
    ensures Inv(Malloc(l, n)) && l.slack <= Malloc(l, n).slack < l.slack + NODE
  {
    hide Sum, Placed, ScanFrom;
    MallocKeepsIff(l, n);
  }

  /**
   * What resizing does to the blocks: nothing if the block is large enough; otherwise the free block
   * right behind it gives up its lower part, or all of it if it would keep less than 12 bytes; without
   * such a block of enough bytes the data moves to a newly allocated one.
   */
  lemma ResizeMeans(l: Layout, k: nat, n: nat)
    requires Inv(l) && CanResize(l, k, n)
    ensures n <= l.live[k].size ==> Resize(l, k, n) == l
    ensures forall j :: 0 <= j < |l.free| && l.free[j].start == l.live[k].End() && n > l.live[k].size ==>
      var b, f, more := l.live[k], l.free[j], n - l.live[k].size;
      if f.size >= more + 12 then
        && Resize(l, k, n).free == l.free[j := Blk(f.start + more, f.size - more)]
        && Resize(l, k, n).live == l.live[k := Blk(b.start, n)] && Resize(l, k, n).slack == l.slack
      else if f.size >= more then
        && Resize(l, k, n).free == l.free[..j] + l.free[j + 1..]
        && Resize(l, k, n).live == l.live[k := Blk(b.start, b.size + f.size)] && Resize(l, k, n).slack == l.slack
      else
        k < |Malloc(l, n).live| && Resize(l, k, n) == Release(Malloc(l, n), k)
    ensures n > l.live[k].size && (forall j :: 0 <= j < |l.free| ==> l.free[j].start != l.live[k].End()) ==>
      k < |Malloc(l, n).live| && Resize(l, k, n) == Release(Malloc(l, n), k)
  {
    hide Sum, Release, Malloc, At;
    if PathOf(l, k, n) == Move {
      MallocGrants(l, n);
    }
    forall j | 0 <= j < |l.free| && l.free[j].start == l.live[k].End()
      ensures At(l.free, l.live[k].End()) == j
    {
      AtIs(l, l.live[k].End(), j);
    }
  }

  /** Resizing keeps the layout, leaves every other live block where it is, and loses less than a node's size. */
  lemma ResizeKeeps(l: Layout, k: nat, n: nat)
    requires Inv(l) && CanResize(l, k, n)
    ensures Inv(Resize(l, k, n)) && |Resize(l, k, n).live| == |l.live|
    ensures Drop(Resize(l, k, n).live, ResizedAt(l, k, n)) == Drop(l.live, k)
    ensures l.slack <= Resize(l, k, n).slack < l.slack + NODE
  {
    hide Sum, Placed, FirstFit, At;
    match PathOf(l, k, n) {
      case Keep =>
      case Split => SplitKeeps(l, k, n);
      case Absorb => AbsorbKeeps(l, k, n);
      case Move =>
        var l1 := Malloc(l, n);
        MallocGrants(l, n);
        ReleaseKeeps(l1, k);
        assert Drop(Drop(l1.live, k), |l.live| - 1) == Drop(l.live, k);
    }
  }

  /**
   * The resized block has room for `n` bytes behind its size word exactly on these paths: kept or
   * absorbed with four bytes to spare, or moved. Splitting always leaves it four bytes short.
   */
  lemma ResizeCoversIff(l: Layout, k: nat, n: nat)
    requires Inv(l) && CanResize(l, k, n)
    ensures ResizedAt(l, k, n) < |Resize(l, k, n).live|
    ensures
      var b, j := l.live[k], At(l.free, l.live[k].End());
      (Resize(l, k, n).live[ResizedAt(l, k, n)].size >= n + WORD) ==
      (|| n + WORD <= b.size
       || PathOf(l, k, n) == Move
       || (PathOf(l, k, n) == Absorb && n + WORD <= b.size + l.free[j].size))
  {
    hide Sum, Placed, FirstFit, At;
    if PathOf(l, k, n) == Move {
      MallocGrants(l, n);
      ReleaseKeeps(Malloc(l, n), k);
    }
  }

  predicate HeapByte(x: int) {
    HEAP_START <= x < HEAP_END
  }

  /** The copy out of a moved block reads only bytes of the heap exactly if the block ends a word before it. */
  lemma CopyStaysIff(b: Blk)
    requires InHeap(b)
    ensures (forall x :: b.start + WORD <= x < b.start + WORD + b.size ==> HeapByte(x)) <==> b.End() + WORD <= HEAP_END
  {
    assert HeapByte(b.End() + WORD - 1) <==> b.End() + WORD <= HEAP_END;
  }

  /** The first block ever allocated does not: it ends with the heap, and growing it always moves it. */
  lemma FirstBlockReadsBeyond(bytes: nat, n: nat)
    requires Testable(bytes) && Need(bytes) + NODE <= HEAP_SIZE
    requires Need(bytes) < n && n + WORD + NODE <= HEAP_SIZE - Need(bytes)
    ensures
      var l := Malloc(Initial(), bytes);
      && l.live == [Blk(HEAP_END - Need(bytes), Need(bytes))] && l.free != []
      && CanResize(l, 0, n) && PathOf(l, 0, n) == Move && !HeapByte(l.live[0].start + WORD + l.live[0].size - 1)
  {
    var l := Malloc(Initial(), bytes);
    assert FirstFit(Initial().free, Need(bytes)) == 0;
    assert At(l.free[1..], HEAP_END) == 0;
    assert FirstFit(l.free, Need(n)) == 0;
  }

  // ----- Round trip, and what coalescing leaves -----

  predicate Touch(free: seq<Blk>, i: int) {
    0 <= i < |free| - 1 && free[i].End() == free[i + 1].start
  }

  /** No two free blocks touch. */
  ghost predicate Tight(free: seq<Blk>) {
    forall i :: !Touch(free, i)
  }

  /**
   * Releasing what was just allocated restores the layout exactly if the chosen block leaves room for a
   * list node or fits exactly, and touches no free block that the released one could be joined to instead.
   */
  lemma AllocReleaseRestoresIff(l: Layout, bytes: nat)
    requires Inv(l) && Testable(bytes) && !TakesBase(l, Need(bytes)) && Malloc(l, bytes) != l
    ensures |Malloc(l, bytes).live| == |l.live| + 1
    ensures
      var i := FirstFit(l.free, Need(bytes));
      (Release(Malloc(l, bytes), |l.live|) == l) ==
      (&& (CarveTest(l.free[i].size, Need(bytes)) || l.free[i].size == Need(bytes))
       && !Touch(l.free, i)
       && (CarveTest(l.free[i].size, Need(bytes)) || !Touch(l.free, i - 1)))
  {
    hide Sum, ScanFrom, Placed, Touch, Release;
    var need := Need(bytes);
    var i := FirstFit(l.free, need);
    InvPlaced(l);
    if CarveTest(l.free[i].size, need) {
      CarveReleased(l, i, need);
    } else if l.free[i].size == need {
      WholeReleased(l, i, need);
    } else {
      ReleaseKeepsSlack(TakenWhole(l, i, need), |l.live|);
    }
  }

  lemma ReleaseKeepsSlack(l: Layout, k: nat)
    requires k < |l.live|
    ensures Release(l, k).slack == l.slack
  {
  }

  lemma CarveReleased(l: Layout, i: nat, need: nat)
    requires Placed(l) && i < |l.free| && NODE <= need && need + NODE <= l.free[i].size
    ensures Release(Carved(l, i, need), |l.live|) == l <==> !Touch(l.free, i)
  {
    hide Below, Sum, Placed;
    var b := l.free[i];
    var l1 := Carved(l, i, need);
    var d := l1.live[|l.live|];
    CarveBelow(l, i, need);
    var free1 := Put(l1.free, i + 1, d);
    assert i + 2 < |free1| ==> free1[i + 2] == l.free[i + 1];
    assert b.End() == d.End() && free1[i] == l1.free[i];
    DropPut(l1.free, i + 1, d, b);
    assert l1.free[i := b] == l.free;
    DropLast(l1.live, l.live);
    if Touch(l.free, i) {
      var c := Blk(d.start, d.size + l.free[i + 1].size);
      DropPut(l1.free, i + 1, d, c);
      assert l1.free[i + 1 := c][i] != l.free[i];
    }
  }

  lemma DropLast<T>(r: seq<T>, s: seq<T>)
    requires |r| == |s| + 1 && r[..|s|] == s
    ensures Drop(r, |s|) == s
  {
  }

  lemma CarveBelow(l: Layout, i: nat, need: nat)
    requires Placed(l) && i < |l.free| && NODE <= need && need + NODE <= l.free[i].size
    ensures Below(Carved(l, i, need).free, Carved(l, i, need).live[|l.live|].start) == i + 1
  {
    hide Below;
    var b := l.free[i];
    var l1 := Carved(l, i, need);
    var d := l1.live[|l.live|];
    forall k | 0 <= k < i + 1
      ensures l1.free[k].start < d.start
    {
      if k < i { assert l.free[k].End() <= b.start; }
    }
    assert i + 1 < |l.free| ==> b.End() <= l.free[i + 1].start;
    BelowIs(l1.free, d.start, i + 1);
  }

  lemma WholeReleased(l: Layout, i: nat, need: nat)
    requires Placed(l) && 0 < i < |l.free| && need == l.free[i].size
    ensures Release(TakenWhole(l, i, need), |l.live|) == l <==> !Touch(l.free, i) && !Touch(l.free, i - 1)
  {
    hide Below, Sum, Placed, Put, Drop;
    var l1 := TakenWhole(l, i, need);
    WholeBelow(l, i);
    assert l1.live[|l.live|] == l.free[i];
    DropLast(l1.live, l.live);
    JoinedShorter(l.free, i);
  }

  /** Joining makes the list one shorter. */
  lemma JoinedShorter(free: seq<Blk>, i: nat)
    requires 0 < i < |free|
    ensures Coalesced(free, i) == free <==> !Touch(free, i) && !Touch(free, i - 1)
  {
  }

  lemma WholeBelow(l: Layout, i: nat)
    requires Placed(l) && 0 < i < |l.free|
    ensures Below(Drop(l.free, i), l.free[i].start) == i && Put(Drop(l.free, i), i, l.free[i]) == l.free
  {
    hide Below;
    var b, free' := l.free[i], Drop(l.free, i);
    forall k | 0 <= k < i
      ensures free'[k].start < b.start
    {
      assert l.free[k].End() <= b.start;
    }
    assert i + 1 < |l.free| ==> b.End() <= l.free[i + 1].start;
    BelowIs(free', b.start, i);
  }

  /** Whether a live block touches the free block before, and the one behind. */
  predicate TouchesPrev(l: Layout, k: nat)
    requires k < |l.live|
  {
    var i := Below(l.free, l.live[k].start);
    i > 0 && l.free[i - 1].End() == l.live[k].start
  }

  predicate TouchesNext(l: Layout, k: nat)
    requires k < |l.live|
  {
    var i := Below(l.free, l.live[k].start);
    i < |l.free| && l.live[k].End() == l.free[i].start
  }

  /** Release joins at most one neighbour, so it leaves no touching free blocks exactly if not both touch. */
  lemma ReleaseTightIff(l: Layout, k: nat)
    requires Inv(l) && k < |l.live| && Tight(l.free)
    ensures Tight(Release(l, k).free) <==> !(TouchesPrev(l, k) && TouchesNext(l, k))
  {
    hide Below, Sum, Placed, Coalesced, Tight;
    PutKeeps(l, k);
    CoalescedTightIff(l.free, Below(l.free, l.live[k].start), l.live[k]);
  }

  lemma CoalescedTightIff(free: seq<Blk>, i: nat, b: Blk)
    requires Tight(free) && 0 < i <= |free|
    ensures Tight(Coalesced(Put(free, i, b), i))
       <==> !(free[i - 1].End() == b.start && i < |free| && b.End() == free[i].start)
  {
    hide Tight;
    var free1 := Put(free, i, b);
    assert free1[i - 1] == free[i - 1] && (i < |free| ==> free1[i + 1] == free[i]);
    if i < |free| && b.End() == free[i].start {
      var c := Blk(b.start, b.size + free[i].size);
      DropPut(free, i, b, c);
      ReplacedTight(free, i, c);
      TightNext(free, i);
    } else if free[i - 1].End() == b.start {
      var c := Blk(free[i - 1].start, free[i - 1].size + b.size);
      DropPut(free, i, b, c);
      ReplacedTight(free, i - 1, c);
      if i > 1 { TightNext(free, i - 2); }
    } else {
      PutTight(free, i, b);
    }
  }

  /** Putting a block in and merging it with a neighbour replaces that neighbour. */
  lemma DropPut(free: seq<Blk>, i: nat, b: Blk, c: Blk)
    requires i <= |free|
    ensures i < |free| ==> Drop(Put(free, i, b), i + 1)[i := c] == free[i := c]
    ensures i > 0 ==> Drop(Put(free, i, b), i)[i - 1 := c] == free[i - 1 := c]
  {
  }

  lemma TightNext(free: seq<Blk>, i: nat)
    requires Tight(free) && i < |free|
    ensures i + 1 < |free| ==> free[i].End() != free[i + 1].start
  {
    assert !Touch(free, i);
  }

  lemma PutTight(free: seq<Blk>, i: nat, b: Blk)
    requires Tight(free) && i <= |free|
    requires i > 0 ==> free[i - 1].End() != b.start
    requires i < |free| ==> b.End() != free[i].start
    ensures Tight(Put(free, i, b))
  {
    var r := Put(free, i, b);
    assert forall m :: m < i - 1 ==> Touch(r, m) == Touch(free, m);
    assert forall m :: m > i ==> Touch(r, m) == Touch(free, m - 1);
  }

  lemma ReplacedTight(free: seq<Blk>, i: nat, c: Blk)
    requires Tight(free) && i < |free|
    ensures Tight(free[i := c]) <==>
              && (i > 0 ==> free[i - 1].End() != c.start)
              && (i + 1 < |free| ==> c.End() != free[i + 1].start)
  {
    var r := free[i := c];
    assert forall m :: m != i && m + 1 != i ==> Touch(r, m) == Touch(free, m);
    assert i > 0 && r[i - 1].End() == c.start ==> Touch(r, i - 1);
    assert i + 1 < |r| && c.End() == r[i + 1].start ==> Touch(r, i);
  }

  // ----- Runs -----

  datatype Op = Alloc(bytes: nat) | Free(k: nat) | Resized(k: nat, n: nat)

  predicate Enabled(l: Layout, op: Op)
    requires l.free != []
  {
    match op
    case Alloc(bytes) => Testable(bytes) && !TakesBase(l, Need(bytes))
    case Free(k) => k < |l.live|
    case Resized(k, n) => CanResize(l, k, n)
  }

  function Apply(l: Layout, op: Op): Layout
    requires l.free != [] && Enabled(l, op)
  {
    match op
    case Alloc(bytes) => Malloc(l, bytes)
    case Free(k) => Release(l, k)
    case Resized(k, n) => Resize(l, k, n)
  }

  /** A run in which each call meets what the code asks of it where it is made. */
  ghost predicate Runs(l: Layout, ops: seq<Op>, r: Layout)
    decreases |ops|
  {
    if ops == [] then r == l
    else l.free != [] && Enabled(l, ops[0]) && Runs(Apply(l, ops[0]), ops[1..], r)
  }

  lemma ApplyKeeps(l: Layout, op: Op)
    requires Inv(l) && Enabled(l, op)
    ensures Inv(Apply(l, op)) && l.slack <= Apply(l, op).slack < l.slack + NODE
  {
    hide Sum, Placed, FirstFit, At, Below;
    match op {
      case Alloc(bytes) => MallocKeepsIff(l, bytes);
      case Free(k) => ReleaseKeeps(l, k);
      case Resized(k, n) => ResizeKeeps(l, k, n);
    }
  }

  /**
   * Over every run from the boot layout, free and live blocks never overlap, their bytes and the lost
   * ones add up to the heap, and each call loses less than a node's size.
   */
  lemma {:induction false} RunKeeps(l: Layout, ops: seq<Op>, r: Layout)
    requires Inv(l) && Runs(l, ops, r)
    ensures Inv(r) && l.slack <= r.slack <= l.slack + (NODE - 1) * |ops|
    decreases |ops|
  {
    hide Sum, Placed, Apply;
    if ops != [] {
      ApplyKeeps(l, ops[0]);
      RunKeeps(Apply(l, ops[0]), ops[1..], r);
    }
  }
}
