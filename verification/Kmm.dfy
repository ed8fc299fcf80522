/** The kernel heap: allocation, release and resizing on the bytes of the heap, proved against its layout. */
module Kmm {
  import opened Bytes
  import opened HeapLayout
  import opened HeapMemory
  import opened HeapRuns

  /** From position `t` of the ring the walk goes on to `t + 1`, or is back where it started. */
  lemma WalkStep(l: Layout, need: nat, t: nat)
    requires Inv(l) && t < |l.free|
    requires forall k :: 1 <= k <= t ==> l.free[k].size < need
    requires l.free[After(l.free, t)].size < need
    ensures
      var i := After(l.free, t);
      if l.free[After(l.free, i)].start == l.free[After(l.free, 0)].start then
        FirstFit(l.free, need) == |l.free|
      else i == t + 1
  {
    hide FirstFit;
    var i := After(l.free, t);
    if l.free[After(l.free, i)].start == l.free[After(l.free, 0)].start {
      FreeStart(l, After(l.free, i), After(l.free, 0));
      NoFit(l.free, need);
    }
  }

  lemma FitAfter(free: seq<Blk>, need: nat, t: nat)
    requires t < |free| && free[After(free, t)].size >= need
    requires forall k :: 1 <= k <= t ==> free[k].size < need
    ensures FirstFit(free, need) == After(free, t)
  {
    FirstFitMeans(free, need, After(free, t));
  }

  /** Which of its three ways an allocation goes. */
  lemma MallocShape(l: Layout, bytes: nat)
    requires Inv(l) && Testable(bytes) && !TakesBase(l, Need(bytes))
    ensures Inv(Malloc(l, bytes))
    ensures
      var need := Need(bytes);
      var i := FirstFit(l.free, need);
      if i == |l.free| then Malloc(l, bytes) == l
      else if CarveTest(l.free[i].size, need) then Malloc(l, bytes) == Carved(l, i, need) != l
      else i > 0 && Malloc(l, bytes) == TakenWhole(l, i, need) != l
  {
    hide Sum, ScanFrom, Placed;
    MallocKeepsIff(l, bytes);
  }

  lemma BaseBelow(l: Layout, k: nat)
    requires Inv(l) && k < |l.live|
    ensures l.free != [] && l.free[0].start == HEAP_START < l.live[k].start
  {
    hide Sum;
    assert Apart(l.free[0], l.live[k]) && InHeap(l.free[0]);
  }

  /** Going up by `next` is going on in the list, and not back to its base. */
  lemma AfterAbove(l: Layout, i: nat)
    requires Inv(l) && i < |l.free|
    ensures l.free[After(l.free, i)].start > l.free[i].start <==> i + 1 < |l.free|
    ensures i + 1 < |l.free| ==> After(l.free, i) == i + 1
  {
    hide Sum;
    assert InHeap(l.free[i]);
    assert i + 1 < |l.free| ==> l.free[i].End() <= l.free[i + 1].start;
  }

  lemma BelowAfter(l: Layout, a: nat, i: nat)
    requires Inv(l) && i < |l.free| && l.free[i].start < a
    requires !(l.free[i].start < l.free[After(l.free, i)].start < a)
    ensures Below(l.free, a) == i + 1
  {
    hide Sum, Below;
    AfterAbove(l, i);
    forall k | 0 <= k < i + 1
      ensures l.free[k].start < a
    {
      if k < i { assert l.free[k].End() <= l.free[i].start; }
    }
    BelowIs(l.free, a, i + 1);
  }

  /** Where a released block goes: between free block `i` and `y`, and what is known of all three. */
  lemma InsertReady(l: Layout, k: nat, i: nat)
    requires Inv(l) && k < |l.live| && i < |l.free| && i + 1 == Below(l.free, l.live[k].start)
    ensures
      var b := l.live[k];
      var free' := Put(l.free, i + 1, b);
      var x, y := l.free[i], l.free[After(l.free, i)];
      && InHeap(x) && InHeap(b) && InHeap(y)
      && free'[i] == x && free'[i + 1] == b && free'[After(free', i + 1)] == y
      && Distant(x, b) && Distant(y, b) && (x == y || Distant(x, y))
      && Placed(Layout(free', Drop(l.live, k), l.slack))
  {
    hide Sum, Below, Placed;
    PutKeeps(l, k);
    InvPlaced(l);
    NodeRoom(l, i);
    NodeRoom(l, After(l.free, i));
    if After(l.free, i) != i { FreeApart(l, i, After(l.free, i)); }
    assert Apart(l.free[i], l.live[k]) && Apart(l.free[After(l.free, i)], l.live[k]);
    assert InHeap(l.live[k]);
  }

  /** What surrounds free block `i`, and what the tests of `coalesce_neighbors` mean. */
  lemma Neighbours(l: Layout, i: nat)
    requires Inv(l) && 0 < i < |l.free|
    ensures
      var next := l.free[After(l.free, i)].start;
      && Before(l.free, i) == i - 1 && next != l.free[i].start && l.free[i - 1].start != l.free[i].start
      && (l.free[i].End() == next <==> i + 1 < |l.free| && l.free[i].End() == l.free[i + 1].start)
  {
    hide Sum;
    FreeApart(l, i - 1, i);
    FreeApart(l, After(l.free, i), i);
    assert InHeap(l.free[i]) && InHeap(l.free[i - 1]) && InHeap(l.free[After(l.free, i)]);
  }

  /** The address `krealloc` answers, as a place in the layout. */
  function Answer(l: Layout, k: nat, n: nat): nat
    requires l.free != [] && CanResize(l, k, n) && ResizedAt(l, k, n) < |Resize(l, k, n).live|
  {
    Resize(l, k, n).live[ResizedAt(l, k, n)].start + WORD
  }

  lemma Answers(l: Layout, k: nat, n: nat)
    requires Inv(l) && CanResize(l, k, n)
    ensures l.free != [] && |Resize(l, k, n).live| == |l.live| && ResizedAt(l, k, n) < |l.live| && Inv(Resize(l, k, n))
    ensures PathOf(l, k, n) != Move ==> Answer(l, k, n) == l.live[k].start + WORD
  {
    hide Sum, Placed, At, FirstFit;
    InvPlaced(l);
    ResizeKeeps(l, k, n);
  }

  lemma MovedAnswer(l: Layout, k: nat, n: nat)
    requires Inv(l) && CanResize(l, k, n) && PathOf(l, k, n) == Move
    ensures
      var l1 := Malloc(l, n);
      && |l1.live| == |l.live| + 1 && l1.live[..|l.live|] == l.live && Inv(l1) && l1 != l
      && l1.live[|l.live|].size >= n + WORD && Release(l1, k).live == Drop(l1.live, k)
  {
    hide Sum, Placed, At, FirstFit;
    MallocGrants(l, n);
    ReleaseKeeps(Malloc(l, n), k);
  }

  /** A free block right behind a live one, large enough to grow into, decides the way. */
  lemma PathHere(l: Layout, k: nat, n: nat, i: nat)
    requires Inv(l) && k < |l.live| && n > l.live[k].size && i < |l.free|
    requires l.free[i].start == l.live[k].End() && l.free[i].size >= n - l.live[k].size
    ensures 0 < i == At(l.free, l.live[k].End())
    ensures PathOf(l, k, n) == if l.free[i].size - (n - l.live[k].size) >= NODE then Split else Absorb
  {
    hide Sum, Placed, At;
    InvPlaced(l);
    AtIs(l, l.live[k].End(), i);
    NextIsNotBase(l, k);
  }

  lemma PathNone(l: Layout, k: nat, n: nat)
    requires k < |l.live| && n > l.live[k].size
    requires forall m :: 0 <= m < |l.free| && l.free[m].start == l.live[k].End() ==> l.free[m].size < n - l.live[k].size
    ensures PathOf(l, k, n) == Move
  {
    hide At;
  }

  /** The walk from the base is back at the base exactly behind the last block. */
  lemma BackAtBase(l: Layout, i: nat)
    requires Inv(l) && i < |l.free|
    ensures l.free[After(l.free, i)].start == HEAP_START <==> i + 1 == |l.free|
    ensures i + 1 < |l.free| ==> After(l.free, i) == i + 1
  {
    hide Sum, Placed;
    InvPlaced(l);
    BaseFirst(l);
    if After(l.free, i) != 0 && l.free[After(l.free, i)].start == HEAP_START { FreeStart(l, After(l.free, i), 0); }
  }

  lemma BaseFirst(l: Layout)
    requires Placed(l)
    ensures l.free != [] && l.free[0].start == HEAP_START
  {
  }

  lemma MovesLarger(l: Layout, k: nat, n: nat)
    requires k < |l.live| && PathOf(l, k, n) == Move
    ensures n > l.live[k].size
  {
  }

  /** The payload of a block starts with the bytes that another block held in an earlier memory. */
  ghost predicate Carried(m: seq<byte>, p: nat, m': seq<byte>, q: nat, n: int) {
    forall y :: q <= y < q + n ==> Byte(m', y) == Byte(m, p + (y - q))
  }

  lemma KeptCarried(m: seq<byte>, m': seq<byte>, bs: seq<Blk>, k: nat)
    requires Kept(m, m', bs) && k < |bs|
    ensures Carried(m, bs[k].start + WORD, m', bs[k].start + WORD, bs[k].size - WORD)
  {
    hide Byte;
  }

  /** Old payload to the fresh block, fresh block to its place after the release. */
  lemma CopyCarried(m0: seq<byte>, m1: seq<byte>, m2: seq<byte>, m3: seq<byte>, l: Layout, l1: Layout, k: nat, n: nat,
                    src: seq<byte>)
    requires k < |l.live| && |l1.live| == |l.live| + 1 && l1.live[..|l.live|] == l.live && InHeap(l.live[k])
    requires Kept(m0, m1, l.live) && |m1| == HEAP_SIZE && l1.live[|l.live|].size >= n + WORD && n > l.live[k].size
    requires |src| == l.live[k].size
    requires forall x :: 0 <= x < |src| - WORD ==> src[x] == Byte(m1, l.live[k].start + WORD + x)
    requires InMem(m1, l1.live[|l.live|].start + WORD, |src|)
    requires m2 == Pasted(m1, l1.live[|l.live|].start + WORD, src)
    requires Kept(m2, m3, Drop(l1.live, k)) && Kept(m1, m2, l.live)
    ensures Carried(m0, l.live[k].start + WORD, m3, l1.live[|l.live|].start + WORD, l.live[k].size - WORD)
    ensures Kept(m0, m3, Drop(l.live, k))
  {
    hide Byte, Pasted;
    var p, q := l.live[k].start + WORD, l1.live[|l.live|].start + WORD;
    DropAt(l1.live, k, |l.live| - 1);
    forall y | q <= y < q + (l.live[k].size - WORD)
      ensures Byte(m3, y) == Byte(m0, p + (y - q))
    {
      assert Drop(l1.live, k)[|l.live| - 1].start + WORD <= y < Drop(l1.live, k)[|l.live| - 1].End();
      assert Byte(m3, y) == Byte(m2, y) == src[y - q] == Byte(m1, p + (y - q));
    }
    var bs := Drop(l.live, k);
    forall j, x | 0 <= j < |bs| && bs[j].start + WORD <= x < bs[j].End()
      ensures Byte(m3, x) == Byte(m0, x)
    {
      DropAt(l.live, k, j);
      DropAt(l1.live, k, j);
      assert Drop(l1.live, k)[j] == bs[j];
    }
  }

  class Heap {
    var mem: seq<byte>
    /** Which blocks are free and live, in the order `HeapLayout` lists them. */
    ghost var layout: Layout

    ghost predicate Valid()
      reads this
    {
      Inv(layout) && Encodes(mem, layout)
    }

    /** `KMM_init`, whatever the heap's memory holds. */
    constructor (mem0: seq<byte>)
      requires |mem0| == HEAP_SIZE
      ensures Valid() && layout == Initial()
    {
      layout := Initial();
      mem := SetWord(SetWord(SetWord(mem0, HEAP_START + 4, HEAP_START), HEAP_START + 8, HEAP_START),
                     HEAP_START, HEAP_SIZE);
      InitialInv();
    }

    function Load(a: int): nat
      requires InMem(mem, a, WORD)
      reads this
    {
      Word(mem, a)
    }

    method Store(a: int, v: nat)
      requires InMem(mem, a, WORD) && v < U32
      modifies this`mem
      ensures mem == SetWord(old(mem), a, v)
    {
      mem := SetWord(mem, a, v);
    }

    /** The words of free block `i` that a walk along the list reads. */
    lemma Ahead(i: nat)
      requires Inv(layout) && Encodes(mem, layout) && i < |layout.free|
      ensures InMem(mem, layout.free[i].start, WORD) && InMem(mem, layout.free[i].start + 4, WORD)
      ensures layout.free[i].start != 0 && layout.free[0].start == HEAP_START
      ensures Word(mem, layout.free[i].start) == layout.free[i].size
      ensures Word(mem, layout.free[i].start + 4) == layout.free[After(layout.free, i)].start
    {
      assert NodeIs(mem, layout.free, i);
    }

    /** What the node of free block `i` holds. */
    lemma Node(i: nat)
      requires Placed(layout) && Encodes(mem, layout) && i < |layout.free|
      ensures |mem| == HEAP_SIZE && InHeap(layout.free[i])
      ensures Word(mem, layout.free[i].start) == layout.free[i].size
      ensures Word(mem, layout.free[i].start + 4) == layout.free[After(layout.free, i)].start
      ensures Word(mem, layout.free[i].start + 8) == layout.free[Before(layout.free, i)].start
    {
      assert NodeIs(mem, layout.free, i);
    }

    // ----- kmalloc -----

    /** `kmalloc`: 0 stands for NULL. */
    method Kmalloc(bytes: nat) returns (p: nat)
      requires Valid() && bytes < U32 && Testable(bytes) && !TakesBase(layout, Need(bytes))
      modifies this
      ensures Valid() && layout == Malloc(old(layout), bytes)
      ensures p == 0 <==> layout == old(layout)
      ensures p != 0 ==> |layout.live| == |old(layout).live| + 1 && p == layout.live[|old(layout).live|].start + WORD
      ensures Kept(old(mem), mem, old(layout).live)
    {
      hide Word, Byte, SetWord, Encodes, Sum, Placed, Kept, ScanFrom, FirstFit, Carved, TakenWhole, Malloc, TakesBase;
      InvPlaced(layout);
      MallocShape(layout, bytes);
      KeptSame(mem, layout.live);
      var need := (bytes + WORD) % U32;
      if need < NODE { need := NODE; }
      var iter, i := Search(need);
      if iter == 0 {
        p := 0;
        return;
      }
      p := Take(iter, need, i);
    }

    /** The block found by the walk, carved from its tail or taken whole. */
    method Take(iter: nat, need: nat, ghost i: nat) returns (p: nat)
      requires Valid() && i < |layout.free| && layout.free[i].start == iter
      requires NODE <= need <= layout.free[i].size && need + NODE < U32
      requires i > 0 || CarveTest(layout.free[i].size, need)
      modifies this
      ensures Encodes(mem, layout)
      ensures layout ==
        if CarveTest(old(layout).free[i].size, need) then Carved(old(layout), i, need)
        else TakenWhole(old(layout), i, need)
      ensures |layout.live| == |old(layout).live| + 1 && p == layout.live[|old(layout).live|].start + WORD && p != 0
      ensures Kept(old(mem), mem, old(layout).live)
    {
      hide Word, Byte, SetWord, Encodes, NodeIs, Placed, Sum, Kept, Carved, TakenWhole;
      Node(i);
      var size := Load(iter);
      if size >= (need + NODE) % U32 {
        p := Carve(iter, size, need, i);
      } else {
        p := TakeWhole(iter, need, i);
      }
    }

    /** The walk of `find_first_fit`: the block it stops at, or 0. */
    method Search(need: nat) returns (iter: nat, ghost i: nat)
      requires Valid() && layout.free != [] && need + NODE < U32
      ensures i == FirstFit(layout.free, need)
      ensures
        var r := FirstFit(layout.free, need);
        iter == if r < |layout.free| then layout.free[r].start else 0
      ensures iter != 0 <==> FirstFit(layout.free, need) < |layout.free|
    {
      hide Word, Byte, Encodes, Inv, Placed, FirstFit, After, Before;
      InvPlaced(layout);
      Ahead(0);
      var stop := Load(HEAP_START + 4);
      iter := stop;
      i := After(layout.free, 0);
      ghost var t: nat := 0;
      while true
        invariant t < |layout.free| && i == After(layout.free, t) && iter == layout.free[i].start
        invariant forall k :: 1 <= k <= t ==> layout.free[k].size < need
        decreases |layout.free| - t
      {
        Ahead(i);
        var size := Load(iter);
        if size >= (need + NODE) % U32 || size >= need {
          FitAfter(layout.free, need, t);
          return;
        }
        WalkStep(layout, need, t);
        iter := Load(iter + 4);
        if iter == stop {
          iter, i := 0, |layout.free|;
          return;
        }
        t := i;
        i := After(layout.free, i);
      }
    }

    /** The tail of free block `i` made live. */
    method Carve(iter: nat, size: nat, need: nat, ghost i: nat) returns (p: nat)
      requires Valid() && i < |layout.free| && layout.free[i] == Blk(iter, size)
      requires NODE <= need && need + NODE <= size
      modifies this
      ensures layout == Carved(old(layout), i, need) && Encodes(mem, layout)
      ensures |layout.live| == |old(layout).live| + 1 && p == layout.live[|old(layout).live|].start + WORD && p != 0
      ensures Kept(old(mem), mem, old(layout).live)
    {
      hide Word, Byte, SetWord, NodeIs, Sum, Placed, Kept, Encodes;
      CarvedEncodes(mem, layout, i, need);
      WholeHeap(mem, layout);
      Store(iter, size - need);
      var ret := iter + (size - need);
      Store(ret, need);
      layout := Carved(layout, i, need);
      p := ret + WORD;
    }

    /** Free block `i` taken out of the list and made live whole. */
    method TakeWhole(iter: nat, need: nat, ghost i: nat) returns (p: nat)
      requires Valid() && 0 < i < |layout.free| && layout.free[i].start == iter && NODE <= need <= layout.free[i].size
      modifies this
      ensures layout == TakenWhole(old(layout), i, need) && Encodes(mem, layout)
      ensures |layout.live| == |old(layout).live| + 1 && p == layout.live[|old(layout).live|].start + WORD && p != 0
      ensures Kept(old(mem), mem, old(layout).live)
    {
      hide Word, Byte, SetWord, NodeIs, Sum, Placed, Kept, Encodes;
      Node(i);
      TakenWholeEncodes(mem, layout, i, need, layout.free[Before(layout.free, i)], layout.free[After(layout.free, i)]);
      Unlink(iter, i);
      Store(iter, need);
      layout := TakenWhole(layout, i, need);
      p := iter + WORD;
    }

    /** The neighbours of a free block's node linked to each other. */
    method Unlink(iter: nat, ghost i: nat)
      requires Placed(layout) && Encodes(mem, layout) && 0 < i < |layout.free| && layout.free[i].start == iter
      modifies this`mem
      ensures InHeap(layout.free[Before(layout.free, i)]) && InHeap(layout.free[After(layout.free, i)])
      ensures |old(mem)| == HEAP_SIZE
      ensures mem == Linked(old(mem), layout.free[Before(layout.free, i)], layout.free[After(layout.free, i)])
    {
      hide Word, Byte, SetWord, NodeIs, Placed, Encodes;
      Node(i);
      Node(Before(layout.free, i));
      Node(After(layout.free, i));
      var prev := Load(iter + 8);
      var next := Load(iter + 4);
      Store(prev + 4, next);
      Store(next + 8, prev);
    }

    // ----- kfree -----

    /** `kfree` of the block whose payload starts at `p`. */
    method Kfree(p: nat, ghost k: nat)
      requires Valid() && k < |layout.live| && p == layout.live[k].start + WORD
      modifies this
      ensures Valid() && layout == Release(old(layout), k)
      ensures Kept(old(mem), mem, Drop(old(layout).live, k))
    {
      hide Word, Byte, SetWord, Encodes, Sum, Placed, Kept, Below, Put, Drop, Coalesced, LinkedIn, After;
      var fblock := p - WORD;
      var iter, i := Predecessor(fblock, k);
      ReleaseKeeps(layout, k);
      PutKeeps(layout, k);
      Insert(iter, fblock, i, k);
      ghost var m1 := mem;
      CoalesceNeighbors(fblock, i + 1);
      KeptTwice(old(mem), m1, mem, Drop(old(layout).live, k));
    }

    /** The walk of `kfree`: the last free block below a live one. */
    method Predecessor(fblock: nat, ghost k: nat) returns (iter: nat, ghost i: nat)
      requires Valid() && k < |layout.live| && fblock == layout.live[k].start
      ensures i + 1 == Below(layout.free, fblock)
      ensures iter == layout.free[Below(layout.free, fblock) - 1].start
    {
      hide Word, Byte, Encodes, Inv, Placed, After, Below;
      InvPlaced(layout);
      Ahead(0);
      BaseBelow(layout, k);
      iter, i := HEAP_START, 0;
      AfterAbove(layout, 0);
      if iter != Load(iter + 4) {
        while Load(iter + 4) < fblock && Load(iter + 4) > iter
          invariant i < |layout.free| && iter == layout.free[i].start && iter < fblock
          invariant InMem(mem, iter + 4, WORD) && Load(iter + 4) == layout.free[After(layout.free, i)].start
          decreases |layout.free| - i
        {
          AfterAbove(layout, i);
          i := i + 1;
          iter := Load(iter + 4);
          Ahead(i);
        }
      }
      BelowAfter(layout, fblock, i);
    }

    /** A live block's node filled in and linked between a free block and the one behind it. */
    method Insert(iter: nat, fblock: nat, ghost i: nat, ghost k: nat)
      requires Valid() && k < |layout.live| && fblock == layout.live[k].start
      requires i + 1 == Below(layout.free, fblock) && i < |layout.free| && iter == layout.free[i].start
      modifies this
      ensures
        var l := old(layout);
        layout == Layout(Put(l.free, i + 1, l.live[k]), Drop(l.live, k), l.slack)
      ensures Inv(layout) && Encodes(mem, layout)
      ensures Kept(old(mem), mem, layout.live)
    {
      hide Word, Byte, SetWord, Encodes, Sum, Placed, Kept, Below, Put, Drop, LinkedIn, After;
      PutKeeps(layout, k);
      WholeHeap(mem, layout);
      InsertReady(layout, k, i);
      ghost var b, y := layout.live[k], layout.free[After(layout.free, i)];
      LinkedInEncodes(mem, layout, k, i + 1);
      InsertOrder(mem, layout.free[i], b, y);
      Ahead(i);
      var next := Load(iter + 4);
      Store(next + 8, fblock);
      Store(iter + 4, fblock);
      Store(fblock + 4, next);
      Store(fblock + 8, iter);
      layout := Layout(Put(layout.free, i + 1, b), Drop(layout.live, k), layout.slack);
    }

    /** `coalesce_neighbors`. */
    method CoalesceNeighbors(block: nat, ghost i: nat)
      requires Valid() && 0 < i < |layout.free| && block == layout.free[i].start
      modifies this
      ensures Valid() && layout == old(layout).(free := Coalesced(old(layout).free, i))
      ensures Kept(old(mem), mem, layout.live)
    {
      hide Word, Byte, SetWord, Encodes, Sum, Placed, Kept, Drop, Linked, After, Before;
      CoalescedKeeps(layout, i);
      KeptSame(mem, layout.live);
      Neighbours(layout, i);
      Node(i);
      Node(i - 1);
      var prev, next := Load(block + 8), Load(block + 4);
      if next == block || prev == block {
        return;
      }
      if block + Load(block) == next {
        MergeNext(block, next, i);
      } else if prev + Load(prev) == block {
        MergePrev(prev, block, next, i);
      }
    }

    /** The next block's node taken out of the list, its bytes given to this one. */
    method MergeNext(block: nat, next: nat, ghost i: nat)
      requires Inv(layout) && Encodes(mem, layout) && i + 1 < |layout.free|
      requires block == layout.free[i].start && next == layout.free[i + 1].start
      modifies this
      ensures Encodes(mem, layout) && Kept(old(mem), mem, layout.live)
      ensures
        var f := old(layout).free;
        layout == old(layout).(free := Drop(f, i + 1)[i := Blk(f[i].start, f[i].size + f[i + 1].size)])
    {
      hide Word, Byte, SetWord, Encodes, Sum, Placed, Kept, Drop, After, Before;
      InvPlaced(layout);
      ghost var a := After(layout.free, i + 1);
      ghost var x, y := layout.free[i], layout.free[a];
      ghost var c := Blk(x.start, x.size + layout.free[i + 1].size);
      JoinFits(layout, i);
      JoinEncodes(mem, layout, i, x, y, c);
      LinkedWords(mem, layout, i, a);
      SetWordsCommute(mem, y.start + 8, x.start, x.start + 4, y.start);
      Ahead(i + 1);
      Ahead(i);
      var nn := Load(next + 4);
      Store(nn + 8, block);
      Store(block + 4, nn);
      Store(block, Load(block) + Load(next));
      layout := layout.(free := Drop(layout.free, i + 1)[i := c]);
    }

    /** The block's own node taken out of the list, its bytes given to the previous one. */
    method MergePrev(prev: nat, block: nat, next: nat, ghost i: nat)
      requires Inv(layout) && Encodes(mem, layout) && 0 < i < |layout.free|
      requires prev == layout.free[i - 1].start && block == layout.free[i].start
      requires next == layout.free[After(layout.free, i)].start
      modifies this
      ensures Encodes(mem, layout) && Kept(old(mem), mem, layout.live)
      ensures
        var f := old(layout).free;
        layout == old(layout).(free := Drop(f, i)[i - 1 := Blk(f[i - 1].start, f[i - 1].size + f[i].size)])
    {
      hide Word, Byte, SetWord, Encodes, Sum, Placed, Kept, Drop, After, Before;
      InvPlaced(layout);
      ghost var a := After(layout.free, i);
      ghost var x, y := layout.free[i - 1], layout.free[a];
      ghost var c := Blk(x.start, x.size + layout.free[i].size);
      JoinFits(layout, i - 1);
      JoinEncodes(mem, layout, i - 1, x, y, c);
      ghost var joined := layout.(free := Drop(layout.free, i)[i - 1 := c]);
      LinkedWords(mem, layout, i - 1, a);
      Ahead(i - 1);
      Ahead(i);
      Store(prev + 4, next);
      Store(next + 8, prev);
      Store(prev, Load(prev) + Load(block));
      layout := joined;
    }

    // ----- krealloc, kexpand, ksize -----

    /** The part of `krealloc` that leaves the block where it is. */
    method GrowInPlace(p: nat, n: nat, ghost k: nat) returns (done: bool)
      requires Valid() && n < U32 && k < |layout.live| && p == layout.live[k].start + WORD && CanResize(layout, k, n)
      modifies this
      ensures done <==> PathOf(old(layout), k, n) != Move
      ensures done ==>
        layout == Resize(old(layout), k, n) && Encodes(mem, layout) && Kept(old(mem), mem, old(layout).live)
      ensures !done ==> layout == old(layout) && mem == old(mem)
    {
      hide Word, Byte, SetWord, Encodes, Inv, Placed, Kept, FirstFit, TakesBase, Malloc, Release, Drop, At, After,
        Before, SplitOff, Absorbed;
      Header(k);
      var size := Load(p - WORD);
      if n <= size {
        KeptSame(mem, layout.live);
        return true;
      }
      InvPlaced(layout);
      Ahead(0);
      var iter := HEAP_START;
      ghost var i: nat := 0;
      while true
        invariant mem == old(mem) && layout == old(layout) && i < |layout.free| && iter == layout.free[i].start
        invariant forall m :: 0 <= m < i && layout.free[m].start == layout.live[k].End() ==>
          layout.free[m].size < n - size
        decreases |layout.free| - i
      {
        Ahead(i);
        if iter == p - WORD + size && Load(iter) >= n - size {
          PathHere(layout, k, n, i);
          GrowInto(p, iter, size, n, i, k);
          return true;
        }
        BackAtBase(layout, i);
        iter := Load(iter + 4);
        if iter == HEAP_START {
          PathNone(layout, k, n);
          return false;
        }
        i := i + 1;
      }
    }

    lemma Header(k: nat)
      requires Inv(layout) && Encodes(mem, layout) && k < |layout.live|
      ensures InHeap(layout.live[k]) && InMem(mem, layout.live[k].start, WORD)
      ensures Word(mem, layout.live[k].start) == layout.live[k].size
    {
    }

    /** Growing into free block `i` right behind: its front joined, or all of it. */
    method GrowInto(p: nat, iter: nat, size: nat, n: nat, ghost i: nat, ghost k: nat)
      requires Valid() && n < U32 && k < |layout.live| && p >= WORD && layout.live[k] == Blk(p - WORD, size)
      requires 0 < i < |layout.free|
      requires layout.free[i].start == iter && i == At(layout.free, layout.live[k].End())
      requires size < n <= size + layout.free[i].size
      requires PathOf(layout, k, n) == if layout.free[i].size - (n - size) >= NODE then Split else Absorb
      modifies this
      ensures Encodes(mem, layout) && Kept(old(mem), mem, old(layout).live)
      ensures layout ==
        if PathOf(old(layout), k, n) == Split then SplitOff(old(layout), k, n) else Absorbed(old(layout), k, n)
    {
      hide Word, Byte, SetWord, Encodes, Sum, Placed, Kept, At, After, Before, Drop, Linked, Copied, NodeMoved, PathOf;
      InvPlaced(layout);
      Node(i);
      Header(k);
      ghost var x, y := layout.free[Before(layout.free, i)], layout.free[After(layout.free, i)];
      var offset := n - size;
      var remainder := Load(iter) - offset;
      if remainder >= NODE {
        ghost var f := layout.free[i];
        SplitEncodes(mem, layout, i, k, f, offset, x, y, Blk(p - WORD, n));
        MoveNode(iter, offset, remainder, f, x, y);
        Store(p - WORD, n);
        layout := SplitOff(layout, k, n);
      } else {
        ghost var c := Blk(p - WORD, size + layout.free[i].size);
        AbsorbEncodes(mem, layout, i, k, x, y, c);
        LinkedWords(mem, layout, Before(layout.free, i), After(layout.free, i));
        Unlink(iter, i);
        Store(p - WORD, size + Load(iter));
        layout := Absorbed(layout, k, n);
      }
    }

    /** A free node copied up by `offset` bytes (`memmove`) and its neighbours' links mended. */
    method MoveNode(iter: nat, offset: nat, remainder: nat, ghost f: Blk, ghost x: Blk, ghost y: Blk)
      requires InMem(mem, f.start, f.size) && NODE + offset <= f.size && f.End() < U32
      requires InMem(mem, x.start, NODE) && InMem(mem, y.start, NODE)
      requires iter == f.start && remainder == f.size - offset && MovedLinks(mem, f, offset, x, y)
      modifies this`mem
      ensures mem == NodeMoved(old(mem), f, offset, x, y)
    {
      hide Word, Byte, SetWord, Copied;
      var moved := iter + offset;
      mem := Copied(mem, moved, iter, NODE);
      Store(moved, remainder);
      Store(Load(moved + 8) + 4, moved);
      Store(Load(moved + 4) + 8, moved);
    }

    /**
     * The part of `krealloc` that moves the block to a fresh one. The copy takes the whole block's size
     * from the payload on, four bytes more than there are; `behind` stands for what lies behind the heap.
     */
    method MoveAway(p: nat, size: nat, n: nat, behind: seq<byte>, ghost k: nat) returns (q: nat)
      requires Valid() && n < U32 && k < |layout.live| && p >= WORD && layout.live[k] == Blk(p - WORD, size)
      requires CanResize(layout, k, n) && PathOf(layout, k, n) == Move && size < n && |behind| == WORD
      modifies this
      ensures Valid() && layout == Release(Malloc(old(layout), n), k)
      ensures |Malloc(old(layout), n).live| == |old(layout).live| + 1
      ensures q == Malloc(old(layout), n).live[|old(layout).live|].start + WORD
      ensures Kept(old(mem), mem, Drop(old(layout).live, k))
      ensures Carried(old(mem), p, mem, q, size - WORD)
    {
      hide Word, Byte, SetWord, Encodes, Sum, Placed, Kept, Carried, FirstFit, TakesBase, Malloc, Release, Drop, PathOf,
        Pasted, Loaded;
      MovedAnswer(layout, k, n);
      ghost var l := layout;
      Header(k);
      q := Kmalloc(n);
      ghost var m1, l1 := mem, layout;
      Header(|l.live|);
      WholeHeap(mem, layout);
      InvPlaced(layout);
      var src := Loaded(mem, p, size, behind);
      CopyEncodes(mem, layout, |l.live|, src);
      mem := Pasted(mem, q, src);
      ghost var m2 := mem;
      DropLast(l1.live, l.live);
      Kfree(p, k);
      CopyCarried(old(mem), m1, m2, mem, l, l1, k, n, src);
    }

    /**
     * `krealloc`; its fallback allocation must succeed. When the block moves, the copy reads four bytes
     * past it; `behind` stands for what lies behind the heap, should the block end there.
     */
    method Krealloc(p: nat, n: nat, behind: seq<byte>, ghost k: nat) returns (q: nat)
      requires Valid() && n < U32 && |behind| == WORD
      requires p == 0 ==> Testable(n) && !TakesBase(layout, Need(n))
      requires p != 0 ==> k < |layout.live| && p == layout.live[k].start + WORD && CanResize(layout, k, n)
      modifies this
      ensures Valid()
      ensures p == 0 ==> layout == Malloc(old(layout), n) && Kept(old(mem), mem, old(layout).live)
      ensures p == 0 ==> (q == 0 <==> layout == old(layout))
      ensures p == 0 && q != 0 ==>
        |layout.live| == |old(layout).live| + 1 && q == layout.live[|old(layout).live|].start + WORD
      ensures p != 0 ==>
        && layout == Resize(old(layout), k, n)
        && |layout.live| == |old(layout).live| && q == Answer(old(layout), k, n)
        && Kept(old(mem), mem, Drop(old(layout).live, k))
        && Carried(old(mem), p, mem, q, old(layout).live[k].size - WORD)
    {
      hide Word, Byte, SetWord, Encodes, Sum, Placed, Kept, Carried, FirstFit, TakesBase, Malloc, Release, Drop, PathOf;
      if p == 0 {
        q := Kmalloc(n);
        return;
      }
      Answers(layout, k, n);
      Header(k);
      var size := Load(p - WORD);
      var done := GrowInPlace(p, n, k);
      if done {
        q := p;
        KeptCarried(old(mem), mem, old(layout).live, k);
        KeptDrop(old(mem), mem, old(layout).live, k);
      } else {
        MovesLarger(layout, k, n);
        MovedAnswer(layout, k, n);
        q := MoveAway(p, size, n, behind, k);
      }
    }

    /** `kexpand`: the new size counts from the whole block's, size word included. */
    method Kexpand(p: nat, increment: nat, behind: seq<byte>, ghost k: nat) returns (q: nat)
      requires Valid() && increment < U32 && |behind| == WORD
      requires p == 0 ==> Testable(increment) && !TakesBase(layout, Need(increment))
      requires p != 0 ==> k < |layout.live| && p == layout.live[k].start + WORD
      requires p != 0 ==> CanResize(layout, k, (layout.live[k].size + increment) % U32)
      modifies this
      ensures Valid()
      ensures p == 0 ==> layout == Malloc(old(layout), increment) && Kept(old(mem), mem, old(layout).live)
      ensures p == 0 ==> (q == 0 <==> layout == old(layout))
      ensures p == 0 && q != 0 ==>
        |layout.live| == |old(layout).live| + 1 && q == layout.live[|old(layout).live|].start + WORD
      ensures p != 0 ==>
        var n := (old(layout).live[k].size + increment) % U32;
        && layout == Resize(old(layout), k, n)
        && |layout.live| == |old(layout).live| && q == Answer(old(layout), k, n)
        && Kept(old(mem), mem, Drop(old(layout).live, k))
        && Carried(old(mem), p, mem, q, old(layout).live[k].size - WORD)
    {
      hide Word, Byte, SetWord, Encodes, Inv, Placed, Kept, Carried, FirstFit, TakesBase, Malloc, Resize, PathOf,
        Answer, Drop;
      if p == 0 {
        q := Kmalloc(increment);
        return;
      }
      Header(k);
      q := Krealloc(p, (Load(p - WORD) + increment) % U32, behind, k);
    }

    /** `ksize`: the whole block's size, its size word included; 0 for NULL. */
    method Ksize(p: nat, ghost k: nat) returns (n: nat)
      requires Valid() && (p != 0 ==> k < |layout.live| && p == layout.live[k].start + WORD)
      ensures n == if p == 0 then 0 else layout.live[k].size
      ensures p != 0 ==>
        && 0xD000_0000 <= p - 4 && p <= 0xD000_0000 + |mem|
        && var a := p - 4 - 0xD000_0000;
           n == mem[a] as int + 0x100 * mem[a + 1] as int + 0x1_0000 * mem[a + 2] as int
                + 0x100_0000 * mem[a + 3] as int
    {
      if p == 0 { return 0; }
      hide Word, Byte, Encodes, Inv;
      Header(k);
      WordBytes(mem, p - WORD);
      n := Load(p - WORD);
    }
  }
}
