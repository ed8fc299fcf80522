/** A process's memory blocks as the linked list the kernel edits, over the page tables. */
module Umm {
  import opened UserBlocks
  import opened UserGrowth
  import opened UserMemory
  import opened Vmm
  import FrameMachine
  import HeapLayout
  import Paging
  import Pmm

  class Node {
    var start: nat
    var len: nat
    var prot: nat
    var flags: nat
    var next: Node?

    constructor (start: nat, len: nat, prot: nat, flags: nat)
      ensures Value() == Block(start, len, prot, flags) && next == null
    {
      this.start, this.len, this.prot, this.flags, this.next := start, len, prot, flags, null;
    }

    function Value(): Block
      reads this
    {
      Block(start, len, prot, flags)
    }
  }

  /** The list positions behind the head, up to which `umap_pages` walks. */
  lemma {:induction false} AfterAt(bs: seq<Block>, b: Block, i: nat)
    requires i < |bs| && (forall k :: 1 <= k <= i ==> bs[k].End() <= b.start)
    requires i + 1 < |bs| ==> bs[i + 1].End() > b.start
    ensures After(bs, b) == bs[..i + 1] + [b] + bs[i + 1..]
  {
    if i > 0 {
      var rest := bs[1..];
      AfterAt(rest, b, i - 1);
      assert bs[..i + 1] + [b] + bs[i + 1..] == [bs[0]] + (rest[..i] + [b] + rest[i..]);
    }
  }

  /** The branch conditions of `umm_unmap_page` on one block. */
  predicate Matches(b: Block, page: nat) {
    b.start == page || Interior(b, page) || (page + PAGE == b.End() && PAGE <= b.len)
  }

  lemma {:induction false} UnmapAt(bs: seq<Block>, page: nat, i: nat)
    requires i <= |bs| && forall k :: 0 <= k < i ==> !Matches(bs[k], page)
    ensures UserBlocks.Unmap(bs, page) == bs[..i] + UserBlocks.Unmap(bs[i..], page)
  {
    if i > 0 {
      UnmapAt(bs[1..], page, i - 1);
      assert bs[..i] == [bs[0]] + bs[1..][..i - 1] && bs[i..] == bs[1..][i - 1..];
    }
  }

  lemma GoodPair(bs: seq<Block>, i: nat)
    requires Sorted(bs) && i < |bs|
    ensures GoodBlock(bs[i])
    ensures i + 1 < |bs| ==> bs[i].End() <= bs[i + 1].start
  {
  }

  ghost predicate AllDistinct(ns: seq<Node>) {
    forall i, j :: 0 <= i < j < |ns| ==> ns[i] != ns[j]
  }

  lemma DistinctFrom(ns: seq<Node>, i: nat)
    requires AllDistinct(ns) && i < |ns|
    ensures forall k :: 0 <= k < |ns| && k != i ==> ns[k] != ns[i]
  {
  }

  lemma DistinctInsert(ns: seq<Node>, i: nat, node: Node)
    requires AllDistinct(ns) && i <= |ns| && node !in ns
    ensures AllDistinct(ns[..i] + [node] + ns[i..])
  {
    var r := ns[..i] + [node] + ns[i..];
    forall a, b | 0 <= a < b < |r|
      ensures r[a] != r[b]
    {
      assert r[a] == if a < i then ns[a] else if a == i then node else ns[a - 1];
      assert r[b] == if b < i then ns[b] else if b == i then node else ns[b - 1];
    }
  }

  /** What node `i` of a list links to. */
  ghost function Behind(ns: seq<Node>, i: nat): Node? {
    if i + 1 < |ns| then ns[i + 1] else null
  }

  class Process {
    const mmu: Mmu
    var blocks: Node?
    /** The nodes of the list, and the blocks they hold. */
    ghost var nodes: seq<Node>
    ghost var list: seq<Block>

    constructor (mmu: Mmu)
      ensures this.mmu == mmu && blocks == null && Linked() && list == []
    {
      this.mmu, this.blocks, this.nodes, this.list := mmu, null, [], [];
    }

    /** The nodes form one list from `blocks` on, and hold the blocks of `list`. */
    ghost predicate Linked()
      reads this, nodes
    {
      && AllDistinct(nodes) && |list| == |nodes|
      && blocks == (if nodes == [] then null else nodes[0])
      && forall i :: 0 <= i < |nodes| ==> NodeAt(i)
    }

    ghost predicate NodeAt(i: nat)
      requires i < |nodes| && |list| == |nodes|
      reads this, nodes
    {
      nodes[i].next == Behind(nodes, i) && nodes[i].Value() == list[i]
    }

    ghost function State(): User
      reads this, mmu, mmu.pmm, mmu.pmm.bitmap
    {
      User(mmu.State(), list)
    }

    // ----- editing the list -----

    /** The walk of `umap_pages` to the block behind which the new one belongs. */
    method FindPlace(vaddr: nat) returns (block: Node, ghost i: nat)
      requires Linked() && blocks != null
      ensures i < |nodes| && block == nodes[i]
      ensures forall k :: 1 <= k <= i ==> list[k].End() <= vaddr
      ensures i + 1 < |nodes| ==> list[i + 1].End() > vaddr
    {
      block := blocks;
      i := 0;
      assert NodeAt(0);
      while block.next != null && block.next.start + block.next.len <= vaddr
        invariant 0 <= i < |nodes| && block == nodes[i] && NodeAt(i)
        invariant forall k :: 1 <= k <= i ==> list[k].End() <= vaddr
        decreases |nodes| - i
      {
        assert NodeAt(i + 1);
        block := block.next;
        i := i + 1;
      }
      assert i + 1 < |nodes| ==> NodeAt(i + 1);
    }

    /** Hangs a node behind node `i`. */
    method LinkBehind(block: Node, node: Node, ghost i: nat)
      requires Linked() && i < |nodes| && block == nodes[i] && node !in nodes
      modifies this`nodes, this`list, block`next, node`next
      ensures Linked() && nodes == old(nodes[..i + 1] + [node] + nodes[i + 1..])
      ensures list == old(list[..i + 1] + [node.Value()] + list[i + 1..])
    {
      hide AllDistinct;
      ghost var ns, bs := nodes, list;
      DistinctFrom(ns, i);
      DistinctInsert(ns, i + 1, node);
      assert forall k :: 0 <= k < |ns| ==> NodeAt(k);
      assert NodeAt(i);
      node.next := block.next;
      block.next := node;
      nodes := nodes[..i + 1] + [node] + nodes[i + 1..];
      list := list[..i + 1] + [node.Value()] + list[i + 1..];
      forall k | 0 <= k < |nodes|
        ensures NodeAt(k)
      {
        if k <= i {
          assert old(NodeAt(k)) && nodes[k] == ns[k] && list[k] == bs[k];
        } else if k > i + 1 {
          assert old(NodeAt(k - 1)) && nodes[k] == ns[k - 1] && list[k] == bs[k - 1];
        }
      }
    }

    /** Hangs a node in front of the list. */
    method LinkFirst(node: Node)
      requires Linked() && node !in nodes
      modifies this`blocks, this`nodes, this`list, node`next
      ensures Linked() && nodes == [node] + old(nodes) && list == [node.Value()] + old(list)
    {
      hide AllDistinct;
      ghost var ns := nodes;
      DistinctInsert(ns, 0, node);
      assert ns[..0] + [node] + ns[0..] == [node] + ns;
      node.next := blocks;
      blocks := node;
      nodes, list := [node] + nodes, [node.Value()] + list;
      forall k | 0 <= k < |nodes|
        ensures NodeAt(k)
      {
        if k > 0 {
          assert old(NodeAt(k - 1)) && nodes[k] == ns[k - 1];
        }
      }
    }

    /** The list part of `umap_pages`. */
    method InsertBlock(b: Block)
      requires Linked()
      modifies this`blocks, this`nodes, this`list, nodes
      ensures Linked() && list == Insert(old(list), b)
      ensures forall n :: n in nodes ==> n in old(nodes) || fresh(n)
    {
      hide AllDistinct;
      var node := new Node(b.start, b.len, b.prot, b.flags);
      assert forall i :: 0 <= i < |nodes| ==> old(NodeAt(i)) ==> NodeAt(i);
      assert nodes != [] ==> NodeAt(0);
      if blocks != null && b.start > blocks.start {
        var block, i := FindPlace(b.start);
        AfterAt(list, b, i);
        LinkBehind(block, node, i);
      } else if blocks != null && b.start < blocks.start {
        LinkFirst(node);
      } else {
        blocks := node;
        nodes, list := [node], [b];
        SingleDistinct(node);
        assert NodeAt(0);
      }
    }

    /** Stores new bounds into node `i`. */
    method SetBounds(node: Node, start: nat, len: nat, ghost i: nat)
      requires Linked() && i < |nodes| && node == nodes[i]
      modifies this`list, node`start, node`len
      ensures Linked() && list == old(list)[i := old(list)[i].(start := start, len := len)]
    {
      hide AllDistinct;
      DistinctFrom(nodes, i);
      assert NodeAt(i);
      node.start, node.len := start, len;
      list := list[i := list[i].(start := start, len := len)];
      forall k | 0 <= k < |nodes|
        ensures NodeAt(k)
      {
        assert old(NodeAt(k));
      }
    }

    /** Takes node `i` out of the list; `prev` is the node before it, if any. */
    method Unlink(prev: Node?, node: Node, ghost i: nat)
      requires Linked() && i < |nodes| && node == nodes[i] && prev == (if i == 0 then null else nodes[i - 1])
      modifies this`blocks, this`nodes, this`list
      modifies if prev == null then {} else {prev}`next
      ensures Linked() && nodes == old(nodes[..i] + nodes[i + 1..]) && list == old(list[..i] + list[i + 1..])
    {
      hide AllDistinct;
      ghost var ns, bs := nodes, list;
      DistinctRemove(ns, i);
      assert NodeAt(i);
      if prev != null {
        DistinctFrom(ns, i - 1);
        prev.next := node.next;
      } else {
        blocks := node.next;
      }
      nodes, list := nodes[..i] + nodes[i + 1..], list[..i] + list[i + 1..];
      forall k | 0 <= k < |nodes|
        ensures NodeAt(k)
      {
        if k < i {
          assert old(NodeAt(k)) && nodes[k] == ns[k] && list[k] == bs[k];
        } else {
          assert old(NodeAt(k + 1)) && nodes[k] == ns[k + 1] && list[k] == bs[k + 1];
        }
      }
    }

    // ----- the operations -----

    ghost predicate Valid(reserved: set<nat>)
      reads this, nodes, mmu, mmu.pmm, mmu.pmm.bitmap
    {
      Linked() && mmu.pmm.Valid() && Joint(State(), reserved)
    }

    /** A fresh frame for the user page at `a`. */
    method MapPage(a: nat, write: bool, ghost reserved: set<nat>)
      requires mmu.Valid(reserved, {}) && CanMap(mmu.State(), a / PAGE)
      modifies mmu`mem, mmu`pd, mmu.pmm.bitmap
      ensures mmu.Valid(reserved, {}) && mmu.State() == MapFresh(old(mmu.State()), a / PAGE, write)
    {
      hide FrameMachine.Inv, FrameMachine.Map, FrameMachine.Room, FrameMachine.Took, Paging.Shape;
      MapFreshKeeps(mmu.State(), reserved, a / PAGE, write);
      MapFreshReady(mmu.State(), reserved, a / PAGE, write);
      var frame := mmu.AllocFrame();
      mmu.MapPage(frame * Pmm.BLOCK_SIZE, a, write, true);
    }

    /** The mapping loop of `umap_pages`. */
    method MapPages(start: nat, end: nat, write: bool, ghost reserved: set<nat>)
      requires mmu.Valid(reserved, {}) && CanMapRange(mmu.State(), start, end, write)
      modifies mmu`mem, mmu`pd, mmu.pmm.bitmap
      ensures mmu.pmm.Valid() && mmu.State() == MapRange(old(mmu.State()), start, end, write)
    {
      hide FrameMachine.Inv, MapFresh, CanMap;
      var a := start;
      while a < end
        invariant mmu.Valid(reserved, {}) && CanMapRange(mmu.State(), a, end, write)
        invariant MapRange(mmu.State(), a, end, write) == MapRange(old(mmu.State()), start, end, write)
      {
        MapPage(a, write, reserved);
        a := a + PAGE;
      }
    }

    /** `umap_pages` over a range that no block touches. */
    method UmapPages(vaddr: nat, len: nat, prot: nat, flags: nat, ghost reserved: set<nat>)
      requires Valid(reserved) && CanUmap(State(), Block(vaddr, len, prot, flags))
      modifies this`blocks, this`nodes, this`list, nodes, mmu`mem, mmu`pd, mmu.pmm.bitmap
      ensures Valid(reserved) && State() == Umap(old(State()), Block(vaddr, len, prot, flags))
      ensures old(Paging.Shape(mmu.Here())) && Paging.Shape(mmu.Here())
      ensures forall p :: 0 <= p < USER_PAGES && vaddr <= p * 0x1000 < vaddr + len ==>
        HasAccess(old(mmu.Here()), mmu.Here(), p, prot)
      ensures forall n :: n in nodes ==> n in old(nodes) || fresh(n)
    {
      hide FrameMachine.Inv, MapRange, CanMapRange, Sorted, HasAccess, Paging.Shape;
      UmapAccess(State(), reserved, Block(vaddr, len, prot, flags));
      ghost var u, b := State(), Block(vaddr, len, prot, flags);
      UmapKeeps(u, reserved, b);
      InsertBlock(Block(vaddr, len, prot, flags));
      assert mmu.State() == u.m;
      MapPages(vaddr, vaddr + len, Writes(prot), reserved);
    }

    /** The search of `ualloc_pages`. */
    method FindFit(len: nat) returns (fit: Fit)
      requires Linked() && Sorted(list)
      ensures fit == FirstFit(list, len)
    {
      if blocks == null {
        return Fit(0);
      }
      assert NodeAt(0);
      if blocks.start >= len {
        return Fit(0);
      }
      var iter := blocks;
      ghost var i := 0;
      assert list[0..] == list;
      while iter.next != null
        invariant 0 <= i < |nodes| && iter == nodes[i] && NodeAt(i)
        invariant FitBehind(list, len) == FitBehind(list[i..], len)
        decreases |nodes| - i
      {
        assert NodeAt(i + 1) && list[i..][1..] == list[i + 1..];
        assert list[i].End() <= list[i + 1].start;
        if iter.next.start - (iter.start + iter.len) >= len {
          return Fit(iter.start + iter.len);
        }
        iter := iter.next;
        i := i + 1;
      }
      assert GoodBlock(list[i]);
      if USER_END - (iter.start + iter.len) >= len {
        fit := Fit(iter.start + iter.len);
      } else {
        fit := NoFit;
      }
    }

    /**
     * `ualloc_pages`: maps a block at the lowest address where it fits; answers 0 both for that
     * address and when nothing fits.
     */
    method UallocPages(len: nat, prot: nat, flags: nat, ghost reserved: set<nat>) returns (at: nat)
      requires Valid(reserved) && UserMemory.Enabled(State(), reserved, MapAnywhere(len, prot, flags))
      modifies this`blocks, this`nodes, this`list, nodes, mmu`mem, mmu`pd, mmu.pmm.bitmap
      ensures Valid(reserved)
      ensures old(Joint(State(), reserved) && UserMemory.Enabled(State(), reserved, MapAnywhere(len, prot, flags)))
      ensures State() == UserMemory.Step(old(State()), reserved, MapAnywhere(len, prot, flags))
      ensures at == match FirstFit(old(list), len) case NoFit => 0 case Fit(a) => a
    {
      hide FrameMachine.Inv, Umap, CanUmap, FirstFit;
      var fit := FindFit(len);
      if fit.NoFit? {
        return 0;
      }
      at := fit.at;
      FitCanUmap(State(), reserved, len, prot, flags);
      UmapPages(at, len, prot, flags, reserved);
    }

    /** The walk of `umm_unmap_page` to the block whose branch applies. */
    method FindMatch(page: nat) returns (prev: Node?, iter: Node?, ghost i: nat)
      requires Linked()
      ensures i <= |nodes| && forall k :: 0 <= k < i ==> !Matches(list[k], page)
      ensures iter == (if i < |nodes| then nodes[i] else null) && prev == (if i == 0 then null else nodes[i - 1])
      ensures i < |nodes| ==> NodeAt(i) && Matches(list[i], page)
    {
      prev, iter := null, blocks;
      i := 0;
      while iter != null
        invariant 0 <= i <= |nodes| && forall k :: 0 <= k < i ==> !Matches(list[k], page)
        invariant iter == (if i < |nodes| then nodes[i] else null)
        invariant prev == (if i == 0 then null else nodes[i - 1])
        decreases |nodes| - i
      {
        assert NodeAt(i);
        if iter.start == page
           || (iter.start < page && page < iter.start + iter.len - PAGE)
           || (page == iter.start + iter.len - PAGE && PAGE <= iter.len) {
          return;
        }
        prev, iter := iter, iter.next;
        i := i + 1;
      }
    }

    /** The list part of `umm_unmap_page` on the block it found. */
    method EditBlock(prev: Node?, iter: Node, page: nat, ghost i: nat)
      requires Linked() && i < |nodes| && iter == nodes[i] && prev == (if i == 0 then null else nodes[i - 1])
      requires Matches(list[i], page) && GoodBlock(list[i]) && (i == 0 ==> !Interior(list[i], page))
      modifies this`blocks, this`nodes, this`list, nodes
      ensures Linked() && list == old(list[..i] + UserBlocks.Unmap(list[i..], page))
      ensures forall n :: n in nodes ==> n in old(nodes) || fresh(n)
    {
      hide AllDistinct;
      ghost var b, bs := list[i], list;
      assert NodeAt(i) && bs[i..][0] == b && bs[i..][1..] == bs[i + 1..];
      if iter.start == page {
        SetBounds(iter, iter.start + PAGE, iter.len - PAGE, i);
        assert NodeAt(i);
        assert list == bs[..i] + [list[i]] + bs[i + 1..];
        if iter.len == 0 {
          Unlink(prev, iter, i);
        }
      } else if page < iter.start + iter.len - PAGE {
        var lower := new Node(iter.start, page - iter.start, iter.prot, iter.flags);
        assert forall k :: 0 <= k < |nodes| ==> old(NodeAt(k)) ==> NodeAt(k);
        SetBounds(iter, page + PAGE, iter.len - (page + PAGE - iter.start), i);
        LinkBehind(prev, lower, i - 1);
      } else {
        SetBounds(iter, iter.start, iter.len - PAGE, i);
      }
    }

    /**
     * `umm_unmap_page`. Splitting needs a predecessor, so the page must not lie strictly inside the
     * first block.
     */
    method UnmapPage(page: nat, ghost reserved: set<nat>)
      requires Valid(reserved) && Aligned(page) && page < USER_END && Splittable(list, page)
      modifies this`blocks, this`nodes, this`list, nodes
      modifies mmu`mem, mmu`pd, mmu.pmm`lastFreed, mmu.pmm.bitmap
      ensures Valid(reserved)
      ensures old(State().m.len <= |State().m.bits| && Paging.Shape(State().m.space))
      ensures State() == UserMemory.UnmapPage(old(State()), page)
      ensures forall n :: n in nodes ==> n in old(nodes) || fresh(n)
    {
      hide FrameMachine.Inv, FrameMachine.Vfree, Sorted, Agree, AllDistinct, Matches, GoodBlock, AttrAt, Paging.Shape;
      ghost var u := State();
      JointShape(u, reserved);
      UnmapPageKeeps(u, reserved, page);
      var prev, iter, i := FindMatch(page);
      UnmapAt(list, page, i);
      if iter == null {
        NoMatchUnmapped(list, page);
        return;
      }
      MatchMapped(list, page, i);
      var split := iter.start < page && page < iter.start + iter.len - PAGE;
      EditBlock(prev, iter, page, i);
      DropPage(page, split, reserved);
    }

    /** The page's frame and entry given up, on a split a second time, to no further effect. */
    method DropPage(page: nat, split: bool, ghost reserved: set<nat>)
      requires mmu.Valid(reserved, {}) && page < USER_END
      modifies mmu`mem, mmu`pd, mmu.pmm`lastFreed, mmu.pmm.bitmap
      ensures mmu.State() == FrameMachine.Vfree(old(mmu.State()), page) && mmu.Valid(reserved, {})
    {
      hide FrameMachine.Inv, FrameMachine.Vfree, Paging.Shape;
      FrameMachine.VfreeTwice(mmu.State(), reserved, page);
      if split {
        mmu.VfreePage(page, reserved);
      }
      mmu.VfreePage(page, reserved);
    }

    /** `umm_unmap_range`. */
    method UnmapRange(vaddr: nat, len: nat, ghost reserved: set<nat>)
      requires Valid(reserved) && Aligned(vaddr) && Aligned(len) && vaddr + len <= USER_END
      requires 0 < len ==> Splittable(list, vaddr)
      modifies this`blocks, this`nodes, this`list, nodes
      modifies mmu`mem, mmu`pd, mmu.pmm`lastFreed, mmu.pmm.bitmap
      ensures Valid(reserved) && old(Joint(State(), reserved))
      ensures State() == UnmapAll(old(State()), reserved, vaddr, vaddr + len)
      ensures forall n :: n in nodes ==> n in old(nodes) || fresh(n)
    {
      hide FrameMachine.Inv, UserMemory.UnmapPage, Sorted, Joint, Splittable;
      var addr := vaddr;
      while addr < vaddr + len
        invariant vaddr <= addr && Aligned(addr) && Valid(reserved)
        invariant addr < vaddr + len ==> Splittable(list, addr)
        invariant UnmapAll(State(), reserved, addr, vaddr + len) == UnmapAll(old(State()), reserved, vaddr, vaddr + len)
        invariant forall n :: n in nodes ==> n in old(nodes) || fresh(n)
      {
        NextSplittable(State(), reserved, addr);
        assert forall k :: 0 <= k < |nodes| ==> nodes[k] in nodes;
        UnmapPage(addr, reserved);
        addr := addr + PAGE;
      }
    }

    /** The search of `umm_page_flt_handler`: the block to grow, if the handler serves the fault. */
    method FindGrowth(addr: nat) returns (node: Node?, ghost i: nat)
      requires Linked() && Sorted(list) && blocks != null
      ensures node == null <==> Grow(0, list, addr).Hang?
      ensures node != null ==>
        i < |nodes| && node == nodes[i] && NodeAt(i) && GoodBlock(list[i]) && PAGE <= list[i].start
      ensures node != null ==>
        Grow(0, list, addr) == Grown(list[i := Longer(list[i])], list[i].start - PAGE, list[i].prot)
    {
      hide Sorted, Grow, AllDistinct, Longer, GoodBlock, HasGrowsDown, Passed, PrevEnd;
      GoodPair(list, 0);
      assert NodeAt(0);
      i := 0;
      NonePassed(list, addr);
      GrowBranches(list, addr, 0);
      if addr < blocks.start {
        if blocks.start >= 0x1000 * 2 && HasGrowsDown(blocks.flags) {
          return blocks, 0;
        }
        return null, 0;
      }
      PassedNext(list, addr, 0);
      var iter := blocks;
      while iter.next != null
        invariant 0 <= i < |nodes| && iter == nodes[i] && NodeAt(i)
        invariant Passed(list, addr, i + 1)
        decreases |nodes| - i
      {
        assert NodeAt(i + 1);
        GoodPair(list, i + 1);
        PassedNext(list, addr, i + 1);
        if iter.start + iter.len <= addr && addr < iter.next.start {
          GrowBranches(list, addr, i + 1);
          if iter.next.start - (iter.start + iter.len) >= 0x1000 * 2 && HasGrowsDown(iter.next.flags) {
            return iter.next, i + 1;
          }
          return null, i;
        }
        iter := iter.next;
        i := i + 1;
      }
      GrowNowhere(list, addr);
      node := null;
    }

    /**
     * `umm_page_flt_handler`: grows the block above the address by a page, or answers `false` where
     * the kernel stops.
     */
    method PageFault(addr: nat, ghost reserved: set<nat>) returns (served: bool)
      requires Valid(reserved) && blocks != null
      requires Grow(0, list, addr).Grown? ==> CanServe(State(), addr)
      modifies this`list, nodes, mmu`mem, mmu`pd, mmu.pmm.bitmap
      ensures Valid(reserved) && served == Grow(0, old(list), addr).Grown?
      ensures served ==> old(CanServe(State(), addr)) && State() == Serve(old(State()), addr)
      ensures !served ==> State() == old(State())
      ensures served ==>
        var page := Grow(0, old(list), addr).page;
        && page < USER_END && old(Paging.Shape(mmu.Here())) && Paging.Shape(mmu.Here()) && AttrAt(list, page).Attr?
        && HasAccess(old(mmu.Here()), mmu.Here(), page / 0x1000, AttrAt(list, page).prot)
    {
      hide FrameMachine.Inv, MapFresh, Sorted, Grow, HasAccess, Paging.Shape, AttrAt;
      ghost var u := State();
      var node, i := FindGrowth(addr);
      if node == null {
        return false;
      }
      ServeKeeps(u, reserved, addr);
      ServeAccess(u, reserved, addr);
      SetBounds(node, node.start - PAGE, node.len + PAGE, i);
      assert NodeAt(i);
      MapPage(node.start, Writes(node.prot), reserved);
      served := true;
    }
  }

  /**
   * User pages end where the higher half begins, at 3 GB; its last table slot is the window, and the
   * kernel heap lies above it.
   */
  lemma MemoryMap()
    ensures USER_END == USER_PAGES * PAGE == 0xC000_0000 && PAGE == Pmm.BLOCK_SIZE == 4096
    ensures forall p: nat :: p < USER_PAGES <==> Paging.Dir(p) < Paging.HH_SLOT
    ensures Paging.WINDOW_PAGE * 0x1000 == 0xC03F_F000
    ensures Paging.Dir(Paging.WINDOW_PAGE) == Paging.HH_SLOT && Paging.Slot(Paging.WINDOW_PAGE) == Paging.WINDOW_SLOT
    ensures HeapLayout.HEAP_START == 0xD000_0000 && HeapLayout.HEAP_END == 0xE000_0000
    ensures forall a :: HeapLayout.HEAP_START <= a < HeapLayout.HEAP_END ==> Paging.Dir(a / PAGE) > Paging.HH_SLOT
  {
  }

  /** The address lies in none of the gaps below the first `i` blocks. */
  predicate Passed(bs: seq<Block>, addr: nat, i: nat) {
    i <= |bs| && forall k :: 0 <= k < i ==> !(PrevEnd(0, bs, k) <= addr < bs[k].start)
  }

  lemma NonePassed(bs: seq<Block>, addr: nat)
    ensures Passed(bs, addr, 0) && PrevEnd(0, bs, 0) == 0
  {
  }

  lemma PassedNext(bs: seq<Block>, addr: nat, i: nat)
    requires Passed(bs, addr, i) && i < |bs|
    ensures PrevEnd(0, bs, i) == if i == 0 then 0 else bs[i - 1].End()
    ensures !(PrevEnd(0, bs, i) <= addr < bs[i].start) ==> Passed(bs, addr, i + 1)
  {
  }

  /** What the handler decides at the gap below block `i`, once all gaps before were passed over. */
  lemma GrowBranches(bs: seq<Block>, addr: nat, i: nat)
    requires i < |bs| && Passed(bs, addr, i)
    ensures PrevEnd(0, bs, i) <= addr < bs[i].start ==>
      Grow(0, bs, addr) ==
        if bs[i].start - PrevEnd(0, bs, i) >= 2 * PAGE && GrowsDown(bs[i])
        then Grown(bs[i := Longer(bs[i])], bs[i].start - PAGE, bs[i].prot) else Hang
  {
    GrowAt(0, bs, addr, i);
    assert bs[i..][0] == bs[i] && bs[i..][1..] == bs[i + 1..];
    if PrevEnd(0, bs, i) <= addr < bs[i].start && bs[i].start >= PAGE {
      assert bs[..i] + ([Longer(bs[i])] + bs[i + 1..]) == bs[i := Longer(bs[i])];
    }
  }

  /** A fault in no gap below a block is not served. */
  lemma GrowNowhere(bs: seq<Block>, addr: nat)
    requires Passed(bs, addr, |bs|)
    ensures Grow(0, bs, addr).Hang?
  {
    GrowAt(0, bs, addr, |bs|);
    assert bs[|bs|..] == [];
  }

  /** Unmapping one page of a range leaves a list on which the next page can be unmapped. */
  lemma NextSplittable(u: User, reserved: set<nat>, a: nat)
    requires Joint(u, reserved) && Aligned(a) && a < USER_END && Splittable(u.blocks, a)
    ensures u.m.len <= |u.m.bits| && Paging.Shape(u.m.space)
    ensures Splittable(UserMemory.UnmapPage(u, a).blocks, a + PAGE)
  {
    if AttrAt(u.blocks, a) == Unmapped {
      UnmapNothing(u.blocks, a);
    }
    SplittableNext(u.blocks, a);
  }

  /** On an unmapped page no branch applies, and the list stays. */
  lemma UnmapNothing(bs: seq<Block>, page: nat)
    requires Sorted(bs) && Aligned(page) && AttrAt(bs, page) == Unmapped
    ensures UserBlocks.Unmap(bs, page) == bs
  {
    hide Matches, GoodBlock;
    AttrNowhere(bs, page);
    forall k | 0 <= k < |bs|
      ensures !Matches(bs[k], page)
    {
      assert GoodBlock(bs[k]) && !bs[k].Holds(page);
      HolderMatches(bs[k], page);
    }
    UnmapAt(bs, page, |bs|);
    assert bs[|bs|..] == [] && bs[..|bs|] == bs;
  }

  lemma NoMatchUnmapped(bs: seq<Block>, page: nat)
    requires Sorted(bs) && Aligned(page) && forall k :: 0 <= k < |bs| ==> !Matches(bs[k], page)
    ensures AttrAt(bs, page) == Unmapped
  {
    hide Matches, GoodBlock;
    AttrNowhere(bs, page);
    forall k | 0 <= k < |bs|
      ensures !bs[k].Holds(page)
    {
      assert GoodBlock(bs[k]) && !Matches(bs[k], page);
      HolderMatches(bs[k], page);
    }
  }

  /** A branch applies exactly to the block that holds the page. */
  lemma HolderMatches(b: Block, page: nat)
    requires GoodBlock(b) && Aligned(page)
    ensures Matches(b, page) <==> b.Holds(page)
  {
  }

  /** The block whose branch applies holds the page. */
  lemma MatchMapped(bs: seq<Block>, page: nat, i: nat)
    requires Sorted(bs) && i < |bs| && Matches(bs[i], page)
    ensures GoodBlock(bs[i]) && AttrAt(bs, page).Attr?
  {
    AttrOfBlock(bs, i, page);
  }

  lemma MapFreshReady(m: FrameMachine.Machine, reserved: set<nat>, p: nat, write: bool)
    requires FrameMachine.Inv(m, reserved, {}) && CanMap(m, p)
    ensures
      var m1 := FrameMachine.Took(m);
      && FrameMachine.Room(m) > 0 && Paging.Shape(m.space) && p != Paging.WINDOW_PAGE && p < Paging.PAGES
      && FrameMachine.Room(m1) >= FrameMachine.TableCost(m.space, p)
      && (Paging.NeedsTable(m.space, p) ==> Paging.NoTable(m.space, FrameMachine.NextFrame(m1)))
      && MapFresh(m, p, write) == FrameMachine.Map(m1, p, FrameMachine.NextFrame(m), write, true)
  {
    FrameMachine.TookUses(m);
    FrameMachine.TookLoose(m, reserved);
    NextIsFree(FrameMachine.Took(m), reserved, {FrameMachine.NextFrame(m)}, p);
  }

  lemma DistinctRemove(ns: seq<Node>, i: nat)
    requires AllDistinct(ns) && i < |ns|
    ensures AllDistinct(ns[..i] + ns[i + 1..])
  {
  }

  lemma SingleDistinct(node: Node)
    ensures AllDistinct([node])
  {
  }
}
