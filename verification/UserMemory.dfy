/**
 * User memory: the block list and the page tables together. Their joint meaning is that the pages
 * covered by blocks are exactly the user pages that translate, with at least the access asked for.
 */
module UserMemory {
  import opened Paging
  import opened Accounts
  import opened FrameMachine
  import opened UserBlocks
  import opened UserGrowth

  const USER_PAGES: nat := 0xC_0000
  const PROT_WRITE: nat := 2

  predicate Writes(prot: nat) {
    prot / PROT_WRITE % 2 == 1
  }

  datatype User = User(m: Machine, blocks: seq<Block>)

  /** Page `p` is open to ring 3, and writable if `prot` says so. */
  ghost predicate Grants(s: Space, p: nat, prot: nat)
    requires Shape(s) && p < PAGES
  {
    && s.pd[Dir(p)].user && s.pd[Dir(p)].writable
    && Pte(s, p).Some? && Pte(s, p).value.user && (Writes(prot) ==> Pte(s, p).value.writable)
  }

  /** All user pages agree, except that those in `[a, end)` are still to be mapped. */
  ghost predicate AgreeBut(s: Space, bs: seq<Block>, a: nat, end: nat)
    requires Shape(s)
  {
    forall p :: 0 <= p < USER_PAGES ==> if a <= p * PAGE < end then Translate(s, p).None? else PageAgrees(s, bs, p)
  }

  ghost predicate Agree(s: Space, bs: seq<Block>)
    requires Shape(s)
  {
    AgreeBut(s, bs, 0, 0)
  }

  /** Page `p` translates exactly when a block covers it, and then grants what the block asks for. */
  ghost predicate PageAgrees(s: Space, bs: seq<Block>, p: nat)
    requires Shape(s) && p < USER_PAGES
  {
    match AttrAt(bs, p * PAGE)
    case Unmapped => Translate(s, p).None?
    case Attr(prot, flags) => Translate(s, p).Some? && Grants(s, p, prot)
  }

  ghost predicate Joint(u: User, reserved: set<nat>) {
    FrameMachine.Inv(u.m, reserved, {}) && Sorted(u.blocks) && Agree(u.m.space, u.blocks)
  }

  // ----- mapping one user page -----

  ghost predicate CanMap(m: Machine, p: nat) {
    m.len <= |m.bits| && Shape(m.space) && p < USER_PAGES && Translate(m.space, p).None?
    && FrameMachine.Room(m) >= 1 + TableCost(m.space, p)
  }

  /** A fresh frame for user page `p`. */
  ghost function MapFresh(m: Machine, p: nat, write: bool): Machine
    requires CanMap(m, p)
  {
    TookUses(m);
    Map(Took(m), p, NextFrame(m), write, true)
  }

  lemma MapFreshKeeps(m: Machine, reserved: set<nat>, p: nat, write: bool)
    requires FrameMachine.Inv(m, reserved, {}) && CanMap(m, p)
    ensures
      var m' := MapFresh(m, p, write);
      && FrameMachine.Inv(m', reserved, {}) && m'.len == m.len && p in Data(m'.space)
      && Data(m'.space) == Data(m.space)[p := NextFrame(m)] && p !in Data(m.space)
      && (forall q :: 0 <= q < PAGES && q != WINDOW_PAGE ==>
            Translate(m'.space, q) == if q == p then Some(NextFrame(m)) else Translate(m.space, q))
  {
    hide Map, Account;
    TookUses(m);
    TookLoose(m, reserved);
    MapKeeps(Took(m), reserved, {NextFrame(m)}, p, NextFrame(m), write, true);
    assert {NextFrame(m)} - {NextFrame(m)} == {};
  }

  /** The directory slots of tables that stay keep their frames. */
  lemma MapFreshSpace(m: Machine, reserved: set<nat>, p: nat, write: bool)
    requires FrameMachine.Inv(m, reserved, {}) && CanMap(m, p)
    ensures exists t ::
      && (NeedsTable(m.space, p) ==> NoTable(m.space, t))
      && MapFresh(m, p, write).space == MapIn(m.space, p, NextFrame(m), write, true, t)
  {
    TookUses(m);
    TookLoose(m, reserved);
    var m1 := Took(m);
    var t := NextFrame(m1);
    if NeedsTable(m.space, p) {
      TookUses(m1);
      AccountShape(m.space, UsedSet(m1.bits, m1.len), reserved, {NextFrame(m)});
      UnusedHoldsNoTable(m.space, UsedSet(m1.bits, m1.len), reserved, {NextFrame(m)}, t);
    }
    assert MapFresh(m, p, write).space == MapIn(m.space, p, NextFrame(m), write, true, t);
  }

  /** The access of a fresh user page is that asked for and that of its slot; no other slot changes. */
  lemma MapFreshAccess(m: Machine, reserved: set<nat>, p: nat, write: bool)
    requires FrameMachine.Inv(m, reserved, {}) && CanMap(m, p)
    ensures Shape(MapFresh(m, p, write).space)
    ensures
      var s', was := MapFresh(m, p, write).space, OldPte(m.space, p);
      OldPte(s', p) == Entry(NextFrame(m), true, was.writable || write, true) && s'.pd[Dir(p)].user
    ensures forall q :: 0 <= q < USER_PAGES && q != p ==>
      OldPte(MapFresh(m, p, write).space, q) == OldPte(m.space, q)
  {
    hide MapFresh, FrameMachine.Inv, MapIn;
    MapFreshSpace(m, reserved, p, write);
    var t :| (NeedsTable(m.space, p) ==> NoTable(m.space, t))
      && MapFresh(m, p, write).space == MapIn(m.space, p, NextFrame(m), write, true, t);
    MapEntry(m.space, p, NextFrame(m), write, true, t);
    MapKeepsSlots(m.space, p, NextFrame(m), write, true, t);
  }

  /** A fresh user page grants what was asked; every page that agreed before still does. */
  lemma MapFreshAgrees(m: Machine, reserved: set<nat>, p: nat, prot: nat, bs: seq<Block>)
    requires FrameMachine.Inv(m, reserved, {}) && CanMap(m, p)
    requires NeedsTable(m.space, p) || (m.space.pd[Dir(p)].user && m.space.pd[Dir(p)].writable)
    ensures Shape(MapFresh(m, p, Writes(prot)).space) && Grants(MapFresh(m, p, Writes(prot)).space, p, prot)
    ensures forall q :: 0 <= q < USER_PAGES && q != p && PageAgrees(m.space, bs, q) ==>
      PageAgrees(MapFresh(m, p, Writes(prot)).space, bs, q)
  {
    hide MapFresh, FrameMachine.Inv;
    MapFreshKeeps(m, reserved, p, Writes(prot));
    MapFreshSpace(m, reserved, p, Writes(prot));
    var t :| (NeedsTable(m.space, p) ==> NoTable(m.space, t))
      && MapFresh(m, p, Writes(prot)).space == MapIn(m.space, p, NextFrame(m), Writes(prot), true, t);
    MapInAgrees(m.space, p, NextFrame(m), prot, t, bs);
  }

  lemma MapInAgrees(s: Space, p: nat, frame: nat, prot: nat, t: nat, bs: seq<Block>)
    requires Shape(s) && p < USER_PAGES && (NeedsTable(s, p) ==> NoTable(s, t))
    requires NeedsTable(s, p) || (s.pd[Dir(p)].user && s.pd[Dir(p)].writable)
    ensures Shape(MapIn(s, p, frame, Writes(prot), true, t))
    ensures Grants(MapIn(s, p, frame, Writes(prot), true, t), p, prot)
    ensures forall q :: 0 <= q < USER_PAGES && q != p && PageAgrees(s, bs, q) ==>
      PageAgrees(MapIn(s, p, frame, Writes(prot), true, t), bs, q)
  {
    hide MapIn, Shape;
    MapRefines(s, p, frame, Writes(prot), true, t);
    MapKeepsEntries(s, p, frame, Writes(prot), true, t);
  }

  /** If a user page's table is there already, a block's page lives in it, so its slot is open to ring 3. */
  lemma UserTableOpen(m: Machine, reserved: set<nat>, bs: seq<Block>, p: nat, a: nat, end: nat)
    requires FrameMachine.Inv(m, reserved, {}) && p < USER_PAGES && AgreeBut(m.space, bs, a, end)
    ensures NeedsTable(m.space, p) || (m.space.pd[Dir(p)].user && m.space.pd[Dir(p)].writable)
  {
    if !NeedsTable(m.space, p) {
      assert Dir(p) in Tabs(m.space);
      var q :| q in Data(m.space) && Dir(q) == Dir(p);
      assert !(a <= q * PAGE < end) && PageAgrees(m.space, bs, q);
    }
  }

  // ----- mapping a range -----

  /** The mapping loop of `umap_pages` over `[a, end)`. */
  ghost function MapRange(m: Machine, a: nat, end: nat, write: bool): Machine
    requires CanMapRange(m, a, end, write)
    decreases end - a
  {
    if a >= end then m else MapRange(MapFresh(m, a / PAGE, write), a + PAGE, end, write)
  }

  /** Every page of the range finds its frames when its turn comes. */
  ghost predicate CanMapRange(m: Machine, a: nat, end: nat, write: bool)
    decreases end - a
  {
    a >= end || (CanMap(m, a / PAGE) && CanMapRange(MapFresh(m, a / PAGE, write), a + PAGE, end, write))
  }

  /** One turn of that loop. */
  lemma MapOneMore(m: Machine, reserved: set<nat>, bs: seq<Block>, a: nat, end: nat, prot: nat)
    requires FrameMachine.Inv(m, reserved, {}) && AgreeBut(m.space, bs, a, end) && CanMap(m, a / PAGE)
    requires Aligned(a) && Aligned(end) && a < end <= USER_END
    requires forall x: nat :: a <= x < end ==> AttrAt(bs, x).Attr? && AttrAt(bs, x).prot == prot
    ensures FrameMachine.Inv(MapFresh(m, a / PAGE, Writes(prot)), reserved, {})
    ensures AgreeBut(MapFresh(m, a / PAGE, Writes(prot)).space, bs, a + PAGE, end)
  {
    hide MapFresh, FrameMachine.Inv, PageAgrees, Shape;
    var p, m' := a / PAGE, MapFresh(m, a / PAGE, Writes(prot));
    UserTableOpen(m, reserved, bs, p, a, end);
    MapFreshKeeps(m, reserved, p, Writes(prot));
    MapFreshAgrees(m, reserved, p, prot, bs);
    assert p * PAGE == a;
    forall q | 0 <= q < USER_PAGES
      ensures if a + PAGE <= q * PAGE < end then Translate(m'.space, q).None? else PageAgrees(m'.space, bs, q)
    {
      if q == p {
        Granted(m'.space, bs, p);
      } else {
        assert a <= q * PAGE < end <==> a + PAGE <= q * PAGE < end;
      }
    }
  }

  lemma Granted(s: Space, bs: seq<Block>, p: nat)
    requires Shape(s) && p < USER_PAGES && Translate(s, p).Some? && AttrAt(bs, p * PAGE).Attr?
    requires Grants(s, p, AttrAt(bs, p * PAGE).prot)
    ensures PageAgrees(s, bs, p)
  {
  }

  lemma {:induction false} MapRangeKeeps(m: Machine, reserved: set<nat>, bs: seq<Block>, a: nat, end: nat, prot: nat)
    requires FrameMachine.Inv(m, reserved, {}) && AgreeBut(m.space, bs, a, end) && CanMapRange(m, a, end, Writes(prot))
    requires Aligned(a) && Aligned(end) && end <= USER_END
    requires forall x: nat :: a <= x < end ==> AttrAt(bs, x).Attr? && AttrAt(bs, x).prot == prot
    ensures FrameMachine.Inv(MapRange(m, a, end, Writes(prot)), reserved, {})
    ensures Agree(MapRange(m, a, end, Writes(prot)).space, bs)
    decreases end - a
  {
    hide FrameMachine.Inv, PageAgrees, MapFresh, CanMap;
    if a < end {
      MapOneMore(m, reserved, bs, a, end, prot);
      MapRangeKeeps(MapFresh(m, a / PAGE, Writes(prot)), reserved, bs, a + PAGE, end, prot);
    } else {
      AgreeEmpty(m, reserved, bs, a, end);
    }
  }

  lemma AgreeEmpty(m: Machine, reserved: set<nat>, bs: seq<Block>, a: nat, end: nat)
    requires FrameMachine.Inv(m, reserved, {}) && AgreeBut(m.space, bs, a, end) && end <= a
    ensures Agree(m.space, bs)
  {
  }

  /**
   * The exact access of a page mapped for `prot`: it is open to ring 3, and writable if and only if
   * `prot` has the write bit or the slot's old entry was writable.
   */
  ghost predicate HasAccess(s: Space, s': Space, p: nat, prot: nat)
    requires Shape(s) && Shape(s') && p < USER_PAGES
  {
    && OldPte(s', p).present && OldPte(s', p).user
    && (OldPte(s', p).writable <==> prot / 2 % 2 == 1 || OldPte(s, p).writable)
  }

  lemma {:induction false} MapRangeAccess(m: Machine, reserved: set<nat>, a: nat, end: nat, prot: nat)
    requires FrameMachine.Inv(m, reserved, {}) && CanMapRange(m, a, end, Writes(prot))
    requires Aligned(a) && Aligned(end) && end <= USER_END
    ensures FrameMachine.Inv(MapRange(m, a, end, Writes(prot)), reserved, {})
    ensures Shape(m.space) && Shape(MapRange(m, a, end, Writes(prot)).space)
    ensures forall p :: 0 <= p < USER_PAGES && a <= p * PAGE < end ==>
      HasAccess(m.space, MapRange(m, a, end, Writes(prot)).space, p, prot)
    ensures forall p :: 0 <= p < USER_PAGES && !(a <= p * PAGE < end) ==>
      OldPte(MapRange(m, a, end, Writes(prot)).space, p) == OldPte(m.space, p)
    decreases end - a
  {
    hide FrameMachine.Inv, MapFresh, CanMap, Shape, OldPte, HasAccess, Writes, MapRange, CanMapRange;
    InvShape(m, reserved);
    MapRangeNext(m, a, end, Writes(prot));
    if a < end {
      FirstAccess(m, reserved, a / PAGE, prot);
      MapRangeAccess(MapFresh(m, a / PAGE, Writes(prot)), reserved, a + PAGE, end, prot);
      AccessStep(m.space, MapFresh(m, a / PAGE, Writes(prot)).space, MapRange(m, a, end, Writes(prot)).space,
                 a, end, prot, NextFrame(m));
    }
  }

  lemma MapRangeNext(m: Machine, a: nat, end: nat, write: bool)
    requires CanMapRange(m, a, end, write)
    ensures a >= end ==> MapRange(m, a, end, write) == m
    ensures a < end ==>
      && CanMap(m, a / PAGE) && CanMapRange(MapFresh(m, a / PAGE, write), a + PAGE, end, write)
      && MapRange(m, a, end, write) == MapRange(MapFresh(m, a / PAGE, write), a + PAGE, end, write)
  {
  }

  lemma FirstAccess(m: Machine, reserved: set<nat>, p: nat, prot: nat)
    requires FrameMachine.Inv(m, reserved, {}) && CanMap(m, p)
    ensures
      var m' := MapFresh(m, p, Writes(prot));
      && FrameMachine.Inv(m', reserved, {}) && Shape(m'.space) && Shape(m.space)
      && OldPte(m'.space, p) == Entry(NextFrame(m), true, OldPte(m.space, p).writable || Writes(prot), true)
      && forall q :: 0 <= q < USER_PAGES && q != p ==> OldPte(m'.space, q) == OldPte(m.space, q)
  {
    hide FrameMachine.Inv, MapFresh, CanMap, Shape, OldPte;
    InvShape(m, reserved);
    MapFreshKeeps(m, reserved, p, Writes(prot));
    MapFreshAccess(m, reserved, p, Writes(prot));
  }

  /** One turn of the loop, then the rest of the range. */
  lemma AccessStep(s: Space, s1: Space, s': Space, a: nat, end: nat, prot: nat, frame: nat)
    requires Shape(s) && Shape(s1) && Shape(s') && Aligned(a) && a < end <= USER_END
    requires OldPte(s1, a / PAGE) == Entry(frame, true, OldPte(s, a / PAGE).writable || Writes(prot), true)
    requires forall q :: 0 <= q < USER_PAGES && q != a / PAGE ==> OldPte(s1, q) == OldPte(s, q)
    requires forall p :: 0 <= p < USER_PAGES && a + PAGE <= p * PAGE < end ==> HasAccess(s1, s', p, prot)
    requires forall p :: 0 <= p < USER_PAGES && !(a + PAGE <= p * PAGE < end) ==> OldPte(s', p) == OldPte(s1, p)
    ensures forall p :: 0 <= p < USER_PAGES && a <= p * PAGE < end ==> HasAccess(s, s', p, prot)
    ensures forall p :: 0 <= p < USER_PAGES && !(a <= p * PAGE < end) ==> OldPte(s', p) == OldPte(s, p)
  {
    hide Shape, OldPte;
    forall p | 0 <= p < USER_PAGES && a <= p * PAGE < end
      ensures HasAccess(s, s', p, prot)
    {
      if p != a / PAGE {
        assert HasAccess(s1, s', p, prot);
      } else {
        assert OldPte(s', p) == OldPte(s1, p);
      }
    }
  }

  // ----- the operations -----

  /** `umap_pages`. */
  ghost function Umap(u: User, b: Block): User
    requires CanUmap(u, b)
  {
    User(MapRange(u.m, b.start, b.End(), Writes(b.prot)), Insert(u.blocks, b))
  }

  ghost predicate CanUmap(u: User, b: Block) {
    GoodBlock(b) && FitsIn(u.blocks, b) && CanMapRange(u.m, b.start, b.End(), Writes(b.prot))
  }

  /** Mapping a fitting block keeps list and page tables in agreement. */
  lemma UmapKeeps(u: User, reserved: set<nat>, b: Block)
    requires Joint(u, reserved) && CanUmap(u, b)
    ensures Joint(Umap(u, b), reserved)
  {
    hide FrameMachine.Inv, MapRange, CanMapRange, Sorted;
    InsertKeeps(u.blocks, b);
    JointShape(u, reserved);
    forall p | 0 <= p < USER_PAGES
      ensures
        if b.start <= p * PAGE < b.End() then Translate(u.m.space, p).None?
        else PageAgrees(u.m.space, Insert(u.blocks, b), p)
    {
      assert PageAgrees(u.m.space, u.blocks, p);
      FreeAttr(u.blocks, b, p * PAGE);
    }
    MapRangeKeeps(u.m, reserved, Insert(u.blocks, b), b.start, b.End(), b.prot);
  }

  /** Every page of a mapped block is writable exactly if the block's `prot` or the page's slot said so. */
  lemma UmapAccess(u: User, reserved: set<nat>, b: Block)
    requires Joint(u, reserved) && CanUmap(u, b)
    ensures Shape(u.m.space) && Shape(Umap(u, b).m.space)
    ensures forall p :: 0 <= p < USER_PAGES && b.start <= p * PAGE < b.End() ==>
      HasAccess(u.m.space, Umap(u, b).m.space, p, b.prot)
  {
    hide *;
    UmapParts(u, reserved, b);
    MapRangeAccess(u.m, reserved, b.start, b.End(), b.prot);
  }

  lemma UmapParts(u: User, reserved: set<nat>, b: Block)
    requires Joint(u, reserved) && CanUmap(u, b)
    ensures FrameMachine.Inv(u.m, reserved, {}) && CanMapRange(u.m, b.start, b.End(), Writes(b.prot))
    ensures Aligned(b.start) && Aligned(b.End()) && b.End() <= USER_END
    ensures Umap(u, b).m == MapRange(u.m, b.start, b.End(), Writes(b.prot))
  {
    hide FrameMachine.Inv, Sorted, Agree, Aligned, GoodBlock, FitsIn, MapRange, CanMapRange, Insert, Writes;
    GoodEnds(b);
  }

  lemma GoodEnds(b: Block)
    requires GoodBlock(b)
    ensures Aligned(b.start) && Aligned(b.End()) && b.End() <= USER_END
  {
  }

  lemma JointShape(u: User, reserved: set<nat>)
    requires Joint(u, reserved)
    ensures Shape(u.m.space) && u.m.len <= |u.m.bits|
  {
  }

  /** Where a fitting block is to go, nothing is mapped. */
  lemma FreeAttr(bs: seq<Block>, b: Block, a: nat)
    requires FitsIn(bs, b)
    ensures b.Holds(a) ==> AttrAt(bs, a) == Unmapped
  {
    AttrNowhere(bs, a);
    forall i | 0 <= i < |bs|
      ensures b.Holds(a) ==> !bs[i].Holds(a)
    {
      assert UserBlocks.Apart(bs[i], b);
    }
  }

  /** `umm_unmap_page` for the page at address `a`. */
  ghost function UnmapPage(u: User, a: nat): User
    requires u.m.len <= |u.m.bits| && Shape(u.m.space) && a / PAGE < USER_PAGES
  {
    if AttrAt(u.blocks, a) == Unmapped then u else User(Vfree(u.m, a), UserBlocks.Unmap(u.blocks, a))
  }

  /** Unmapping a page removes exactly that page from list and tables. */
  lemma UnmapPageKeeps(u: User, reserved: set<nat>, a: nat)
    requires Joint(u, reserved) && Aligned(a) && a < USER_END
    ensures Joint(UnmapPage(u, a), reserved)
    ensures forall x: nat ::
      AttrAt(UnmapPage(u, a).blocks, x) == if a <= x < a + PAGE then Unmapped else AttrAt(u.blocks, x)
  {
    hide FrameMachine.Inv, Sorted, Vfree;
    JointShape(u, reserved);
    var p := a / PAGE;
    UserBlocks.UnmapKeeps(u.blocks, a);
    if AttrAt(u.blocks, a) != Unmapped {
      VfreeKeeps(u.m, reserved, a);
      VfreeEntries(u.m, reserved, a);
      var s, s' := u.m.space, Vfree(u.m, a).space;
      InvShape(Vfree(u.m, a), reserved);
      forall q | 0 <= q < USER_PAGES
        ensures PageAgrees(s', UserBlocks.Unmap(u.blocks, a), q)
      {
        assert PageAgrees(s, u.blocks, q);
        assert a <= q * PAGE < a + PAGE <==> q == p;
      }
    } else {
      PageUniform(u.blocks, a);
    }
  }

  /** Blocks are page-aligned, so an address is mapped exactly when its page is. */
  lemma PageWhole(bs: seq<Block>, addr: nat)
    requires Sorted(bs)
    ensures AttrAt(bs, addr / PAGE * PAGE) == Unmapped <==> AttrAt(bs, addr) == Unmapped
  {
    hide AttrAt, Sorted;
    var page := addr / PAGE * PAGE;
    AttrNowhere(bs, addr);
    AttrNowhere(bs, page);
    forall i | 0 <= i < |bs|
      ensures bs[i].Holds(page) == bs[i].Holds(addr)
    {
      SortedGood(bs, i);
      HoldsPage(bs[i], addr);
    }
  }

  lemma SortedGood(bs: seq<Block>, i: nat)
    requires Sorted(bs) && i < |bs|
    ensures GoodBlock(bs[i])
  {
  }

  lemma HoldsPage(b: Block, addr: nat)
    requires GoodBlock(b)
    ensures b.Holds(addr / PAGE * PAGE) == b.Holds(addr)
  {
  }

  lemma PageUniform(bs: seq<Block>, a: nat)
    requires Sorted(bs) && Aligned(a) && AttrAt(bs, a) == Unmapped
    ensures forall x: nat :: a <= x < a + PAGE ==> AttrAt(bs, x) == Unmapped
  {
    hide AttrAt, Sorted;
    forall x: nat | a <= x < a + PAGE
      ensures AttrAt(bs, x) == Unmapped
    {
      PageWhole(bs, x);
      assert x / PAGE * PAGE == a;
    }
  }

  /** Freeing a page keeps the entries of all other mapped pages. */
  lemma VfreeEntries(m: Machine, reserved: set<nat>, a: nat)
    requires FrameMachine.Inv(m, reserved, {}) && a / PAGE < USER_PAGES
    ensures Shape(Vfree(m, a).space)
    ensures forall q :: 0 <= q < PAGES && q != WINDOW_PAGE && q != a / PAGE && Translate(m.space, q).Some? ==>
      Pte(Vfree(m, a).space, q) == Pte(m.space, q) && Vfree(m, a).space.pd[Dir(q)] == m.space.pd[Dir(q)]
  {
    hide UnmapIn, Account, Looked, Shape;
    var page := a / PAGE;
    InvShape(m, reserved);
    VfreeKeeps(m, reserved, a);
    InvShape(Vfree(m, a), reserved);
    LookupKeeps(m.space, page);
    if Translate(m.space, page).Some? {
      UnmapKeepsEntries(Looked(m.space, page), page);
    }
  }

  /** `umm_unmap_range` over `[a, end)`. */
  ghost function UnmapAll(u: User, reserved: set<nat>, a: nat, end: nat): User
    requires Joint(u, reserved) && Aligned(a) && end <= USER_END
    decreases end - a
  {
    if a >= end then u
    else
      JointShape(u, reserved);
      UnmapPageKeeps(u, reserved, a);
      UnmapAll(UnmapPage(u, a), reserved, a + PAGE, end)
  }

  /** Unmapping a range removes exactly the range; all other pages keep their attributes. */
  lemma {:induction false} UnmapAllKeeps(u: User, reserved: set<nat>, a: nat, end: nat)
    requires Joint(u, reserved) && Aligned(a) && Aligned(end) && end <= USER_END
    ensures Joint(UnmapAll(u, reserved, a, end), reserved)
    ensures forall x: nat ::
      AttrAt(UnmapAll(u, reserved, a, end).blocks, x) == if a <= x < end then Unmapped else AttrAt(u.blocks, x)
    decreases end - a
  {
    hide Joint, UnmapPage;
    if a < end {
      JointShape(u, reserved);
      UnmapPageKeeps(u, reserved, a);
      UnmapAllKeeps(UnmapPage(u, a), reserved, a + PAGE, end);
    }
  }

  /** `umm_page_flt_handler` for a fault that it serves. */
  ghost function Serve(u: User, addr: nat): User
    requires CanServe(u, addr)
  {
    var g := Grow(0, u.blocks, addr);
    User(MapFresh(u.m, g.page / PAGE, Writes(g.prot)), g.blocks)
  }

  ghost predicate CanServe(u: User, addr: nat) {
    var g := Grow(0, u.blocks, addr);
    g.Grown? && CanMap(u.m, g.page / PAGE)
  }

  /** A served fault keeps list and tables in agreement. */
  lemma ServeKeeps(u: User, reserved: set<nat>, addr: nat)
    requires Joint(u, reserved) && CanServe(u, addr)
    ensures Joint(Serve(u, addr), reserved)
  {
    hide FrameMachine.Inv, MapFresh, Grow, Sorted;
    var g := Grow(0, u.blocks, addr);
    var p := g.page / PAGE;
    JointShape(u, reserved);
    GrowKeeps(0, u.blocks, addr);
    forall q | 0 <= q < USER_PAGES
      ensures
        if g.page <= q * PAGE < g.page + PAGE then Translate(u.m.space, q).None?
        else PageAgrees(u.m.space, g.blocks, q)
    {
      assert PageAgrees(u.m.space, u.blocks, q);
    }
    MapOneMore(u.m, reserved, g.blocks, g.page, g.page + PAGE, g.prot);
    AgreeEmpty(MapFresh(u.m, p, Writes(g.prot)), reserved, g.blocks, g.page + PAGE, g.page + PAGE);
  }

  /** The page that a fault adds gets exactly the access of the block it extends, and of its slot. */
  lemma ServeAccess(u: User, reserved: set<nat>, addr: nat)
    requires Joint(u, reserved) && CanServe(u, addr)
    ensures Shape(u.m.space) && Shape(Serve(u, addr).m.space)
    ensures
      var page, u' := Grow(0, u.blocks, addr).page, Serve(u, addr);
      && Aligned(page) && page < USER_END && AttrAt(u'.blocks, page).Attr?
      && HasAccess(u.m.space, u'.m.space, page / PAGE, AttrAt(u'.blocks, page).prot)
  {
    hide FrameMachine.Inv, MapFresh, Grow, Sorted, OldPte;
    JointShape(u, reserved);
    GrowKeeps(0, u.blocks, addr);
    FirstAccess(u.m, reserved, Grow(0, u.blocks, addr).page / PAGE, Grow(0, u.blocks, addr).prot);
  }

  // ----- repeated faults -----

  /** Frames that repeated faults on an address may take: for every page up to the block above, it and a table. */
  function FaultFrames(bs: seq<Block>, addr: nat): nat {
    2 * (Gap(bs, addr) / PAGE + 1)
  }

  lemma MapFreshRoom(m: Machine, reserved: set<nat>, p: nat, write: bool)
    requires FrameMachine.Inv(m, reserved, {}) && CanMap(m, p)
    ensures MapFresh(m, p, write).len <= |MapFresh(m, p, write).bits|
    ensures FrameMachine.Room(MapFresh(m, p, write)) + 2 >= FrameMachine.Room(m)
  {
    hide Map, Account;
    TookUses(m);
    TookLoose(m, reserved);
    MapKeeps(Took(m), reserved, {NextFrame(m)}, p, NextFrame(m), write, true);
  }

  /** A fault that the list can grow for is served when there are two frames. */
  lemma GrownCanServe(u: User, reserved: set<nat>, addr: nat)
    requires Joint(u, reserved) && Grow(0, u.blocks, addr).Grown?
    requires u.m.len <= |u.m.bits| && FrameMachine.Room(u.m) >= 2
    ensures CanServe(u, addr)
  {
    hide FrameMachine.Inv, Grow, Sorted;
    JointShape(u, reserved);
    GrowKeeps(0, u.blocks, addr);
    var g := Grow(0, u.blocks, addr);
    assert PageAgrees(u.m.space, u.blocks, g.page / PAGE);
  }

  /** One fault of a series: it is served, and leaves frames for the rest of the gap. */
  lemma ServeOne(u: User, reserved: set<nat>, addr: nat)
    requires Joint(u, reserved) && u.m.len <= |u.m.bits|
    requires FrameMachine.Room(u.m) >= FaultFrames(u.blocks, addr) && Grow(0, u.blocks, addr).Grown?
    ensures CanServe(u, addr) && Joint(Serve(u, addr), reserved)
    ensures Serve(u, addr).blocks == Grow(0, u.blocks, addr).blocks
    ensures Serve(u, addr).m.len <= |Serve(u, addr).m.bits|
    ensures AttrAt(Serve(u, addr).blocks, addr) == Unmapped ==>
      && Gap(Serve(u, addr).blocks, addr) < Gap(u.blocks, addr)
      && FrameMachine.Room(Serve(u, addr).m) >= FaultFrames(Serve(u, addr).blocks, addr)
  {
    hide FrameMachine.Inv, Grow, Sorted, MapFresh, Gap, FrameMachine.Room, Agree;
    GrownCanServe(u, reserved, addr);
    ServeKeeps(u, reserved, addr);
    var g := Grow(0, u.blocks, addr);
    MapFreshRoom(u.m, reserved, g.page / PAGE, Writes(g.prot));
    if AttrAt(g.blocks, addr) == Unmapped {
      GrowCloser(0, u.blocks, addr);
    }
  }

  /** The process faults on the same address until it is mapped or the kernel gives up. */
  ghost function ServeUntil(u: User, reserved: set<nat>, addr: nat): User
    requires Joint(u, reserved) && u.m.len <= |u.m.bits|
    requires FrameMachine.Room(u.m) >= FaultFrames(u.blocks, addr)
    decreases Gap(u.blocks, addr)
  {
    if AttrAt(u.blocks, addr).Attr? || Grow(0, u.blocks, addr).Hang? then u
    else
      ServeOne(u, reserved, addr);
      if AttrAt(Serve(u, addr).blocks, addr).Attr? then Serve(u, addr) else ServeUntil(Serve(u, addr), reserved, addr)
  }

  /** It follows the list's own series of faults, and keeps list and tables in agreement. */
  lemma {:induction false} ServeUntilKeeps(u: User, reserved: set<nat>, addr: nat)
    requires Joint(u, reserved) && u.m.len <= |u.m.bits|
    requires FrameMachine.Room(u.m) >= FaultFrames(u.blocks, addr)
    ensures Joint(ServeUntil(u, reserved, addr), reserved)
    ensures Sorted(u.blocks) && ServeUntil(u, reserved, addr).blocks == FaultUntil(u.blocks, addr)
    decreases Gap(u.blocks, addr)
  {
    hide Joint, Serve, Grow, Gap, FaultFrames, CanServe, Sorted;
    JointSorted(u, reserved);
    if AttrAt(u.blocks, addr) == Unmapped && Grow(0, u.blocks, addr).Grown? {
      ServeOne(u, reserved, addr);
      if AttrAt(Serve(u, addr).blocks, addr) == Unmapped {
        ServeUntilKeeps(Serve(u, addr), reserved, addr);
      }
    }
  }

  lemma JointSorted(u: User, reserved: set<nat>)
    requires Joint(u, reserved)
    ensures Sorted(u.blocks)
  {
  }

  /** An address is mapped when its page is, and its page is when it translates. */
  lemma JointTranslates(u: User, reserved: set<nat>, addr: nat)
    requires Joint(u, reserved) && addr < USER_END
    ensures Shape(u.m.space)
    ensures Translate(u.m.space, addr / PAGE).Some? <==> AttrAt(u.blocks, addr).Attr?
  {
    hide FrameMachine.Inv, Sorted, Translate, Grants, AttrAt, Shape;
    JointShape(u, reserved);
    PageWhole(u.blocks, addr);
    assert PageAgrees(u.m.space, u.blocks, addr / PAGE);
  }

  /**
   * A process that keeps faulting on a user address, with frames for the gap above it, ends with that
   * page translating exactly if it did before, or lies below a block that grows down and outside its guard.
   */
  lemma ServeUntilMapsIff(u: User, reserved: set<nat>, addr: nat)
    requires Joint(u, reserved) && u.m.len <= |u.m.bits| && addr < USER_END
    requires FrameMachine.Room(u.m) >= FaultFrames(u.blocks, addr)
    ensures
      var u' := ServeUntil(u, reserved, addr);
      && Joint(u', reserved) && Shape(u.m.space) && Shape(u'.m.space)
      && (Translate(u'.m.space, addr / PAGE).Some? <==>
          Translate(u.m.space, addr / PAGE).Some? || Reachable(0, u.blocks, addr))
  {
    hide Joint, Grow, Gap, FaultFrames, Sorted, ServeUntil;
    ServeUntilKeeps(u, reserved, addr);
    FaultsMapIff(u.blocks, addr);
    JointTranslates(u, reserved, addr);
    JointTranslates(ServeUntil(u, reserved, addr), reserved, addr);
  }

  // ----- runs -----

  datatype Op =
    | MapAt(block: Block)
    | MapAnywhere(len: nat, prot: nat, flags: nat)
    | UnmapBytes(at: nat, end: nat)
    | FaultAt(addr: nat)

  /**
   * `umap_pages` at a free range, `ualloc_pages`, `umm_unmap_range` over aligned bounds that does not
   * start inside the first block, and faults that the handler serves; each with frames at hand. That
   * the place `ualloc_pages` chooses is free is not asked for: first fit sees to it.
   */
  ghost predicate Enabled(u: User, reserved: set<nat>, op: Op) {
    match op
    case MapAt(b) => CanUmap(u, b)
    case MapAnywhere(len, prot, flags) =>
      0 < len && Aligned(len) && (u.blocks == [] ==> len <= USER_END)
      && var fit := FirstFit(u.blocks, len);
         (fit.Fit? ==> CanMapRange(u.m, fit.at, fit.at + len, Writes(prot)))
    case UnmapBytes(a, end) => Aligned(a) && Aligned(end) && end <= USER_END && (a < end ==> Splittable(u.blocks, a))
    case FaultAt(addr) => CanServe(u, addr)
  }

  ghost function Step(u: User, reserved: set<nat>, op: Op): User
    requires Joint(u, reserved) && Enabled(u, reserved, op)
  {
    match op
    case MapAt(b) => Umap(u, b)
    case MapAnywhere(len, prot, flags) =>
      (match FirstFit(u.blocks, len)
       case NoFit => u
       case Fit(at) => FitCanUmap(u, reserved, len, prot, flags); Umap(u, Block(at, len, prot, flags)))
    case UnmapBytes(a, end) => UnmapAll(u, reserved, a, end)
    case FaultAt(addr) => Serve(u, addr)
  }

  /** Where first fit puts a request, a block may be mapped once there are frames for it. */
  lemma FitCanUmap(u: User, reserved: set<nat>, len: nat, prot: nat, flags: nat)
    requires Joint(u, reserved) && Enabled(u, reserved, MapAnywhere(len, prot, flags)) && FirstFit(u.blocks, len).Fit?
    ensures CanUmap(u, Block(FirstFit(u.blocks, len).at, len, prot, flags))
  {
    var b := Block(FirstFit(u.blocks, len).at, len, prot, flags);
    FirstFitIsLowest(u.blocks, len);
    forall i | 0 <= i < |u.blocks|
      ensures Apart(u.blocks[i], b)
    {
      assert Apart(u.blocks[i], Block(b.start, len, 0, 0));
    }
  }

  lemma StepKeeps(u: User, reserved: set<nat>, op: Op)
    requires Joint(u, reserved) && Enabled(u, reserved, op)
    ensures Joint(Step(u, reserved, op), reserved)
  {
    hide Joint, Umap, CanUmap, UnmapAll, Serve, CanServe, FirstFit;
    match op {
      case MapAt(b) => UmapKeeps(u, reserved, b);
      case MapAnywhere(len, prot, flags) =>
        if FirstFit(u.blocks, len).Fit? {
          FitCanUmap(u, reserved, len, prot, flags);
          UmapKeeps(u, reserved, Block(FirstFit(u.blocks, len).at, len, prot, flags));
        }
      case UnmapBytes(a, end) => UnmapAllKeeps(u, reserved, a, end);
      case FaultAt(addr) => ServeKeeps(u, reserved, addr);
    }
  }

  ghost predicate Runnable(u: User, reserved: set<nat>, ops: seq<Op>)
    requires Joint(u, reserved)
    decreases |ops|
  {
    ops == [] || (Enabled(u, reserved, ops[0]) &&
      (StepKeeps(u, reserved, ops[0]); Runnable(Step(u, reserved, ops[0]), reserved, ops[1..])))
  }

  ghost function Run(u: User, reserved: set<nat>, ops: seq<Op>): User
    requires Joint(u, reserved) && Runnable(u, reserved, ops)
    decreases |ops|
  {
    if ops == [] then u
    else
      StepKeeps(u, reserved, ops[0]);
      Run(Step(u, reserved, ops[0]), reserved, ops[1..])
  }

  /**
   * Over every run the list stays sorted, aligned and disjoint, its pages are exactly the user pages
   * that translate, with the access asked for, and the books of frames balance.
   */
  lemma {:induction false} RunKeeps(u: User, reserved: set<nat>, ops: seq<Op>)
    requires Joint(u, reserved) && Runnable(u, reserved, ops)
    ensures Joint(Run(u, reserved, ops), reserved)
    decreases |ops|
  {
    hide Joint, Step, Enabled;
    if ops != [] {
      StepKeeps(u, reserved, ops[0]);
      RunKeeps(Step(u, reserved, ops[0]), reserved, ops[1..]);
    }
  }

  // ----- allocating a range and unmapping it again -----

  /** `m` has all that `m0` has: the same pages in the same frames, the same tables in the same frames. */
  ghost predicate Extends(m0: Machine, m: Machine)
    requires Shape(m0.space) && Shape(m.space)
  {
    && (forall q :: q in Data(m0.space) ==> q in Data(m.space) && Data(m.space)[q] == Data(m0.space)[q])
    && (forall i :: i in Tabs(m0.space) ==> i in Tabs(m.space) && Tabs(m.space)[i] == Tabs(m0.space)[i])
    && (forall q :: q in Data(m.space) && q >= USER_PAGES ==> q in Data(m0.space))
  }

  lemma MapFreshExtends(m0: Machine, m: Machine, reserved: set<nat>, p: nat, write: bool)
    requires FrameMachine.Inv(m0, reserved, {}) && FrameMachine.Inv(m, reserved, {}) && Extends(m0, m) && CanMap(m, p)
    ensures Shape(MapFresh(m, p, write).space) && Extends(m0, MapFresh(m, p, write))
  {
    hide MapFresh, Shape, FrameMachine.Inv, Tabs;
    InvShape(m0, reserved);
    MapFreshKeeps(m, reserved, p, write);
    InvShape(MapFresh(m, p, write), reserved);
    MapFreshTabs(m, reserved, p, write);
  }

  lemma MapFreshTabs(m: Machine, reserved: set<nat>, p: nat, write: bool)
    requires FrameMachine.Inv(m, reserved, {}) && CanMap(m, p)
    ensures Shape(MapFresh(m, p, write).space)
    ensures forall i :: i in Tabs(m.space) ==>
      i in Tabs(MapFresh(m, p, write).space) && Tabs(MapFresh(m, p, write).space)[i] == Tabs(m.space)[i]
  {
    hide MapFresh, FrameMachine.Inv, MapIn, Data;
    MapFreshSpace(m, reserved, p, write);
    var t :| (NeedsTable(m.space, p) ==> NoTable(m.space, t))
      && MapFresh(m, p, write).space == MapIn(m.space, p, NextFrame(m), write, true, t);
    MapMaps(m.space, p, NextFrame(m), write, true, t);
    NoTableAbsent(m, p);
  }

  lemma NoTableAbsent(m: Machine, p: nat)
    requires Shape(m.space) && p < PAGES
    ensures NeedsTable(m.space, p) ==> Dir(p) !in Tabs(m.space)
  {
  }

  /** Freeing a page that `m0` does not have keeps all that `m0` has, its tables included. */
  lemma VfreeExtends(m0: Machine, m: Machine, reserved: set<nat>, a: nat)
    requires FrameMachine.Inv(m0, reserved, {}) && FrameMachine.Inv(m, reserved, {}) && Extends(m0, m)
    requires a / PAGE < USER_PAGES && a / PAGE in Data(m.space) && a / PAGE !in Data(m0.space)
    ensures Shape(Vfree(m, a).space) && Extends(m0, Vfree(m, a))
  {
    hide Shape, Vfree, FrameMachine.Inv, Tabs, Data, UsedSet;
    var p := a / PAGE;
    InvShape(m0, reserved);
    InvShape(m, reserved);
    VfreeKeeps(m, reserved, a);
    InvShape(Vfree(m, a), reserved);
    VfreeTabs(m, reserved, a);
    if Dir(p) in Tabs(m0.space) {
      TableHasPage(m0, reserved, Dir(p));
    }
  }

  lemma VfreeTabs(m: Machine, reserved: set<nat>, a: nat)
    requires FrameMachine.Inv(m, reserved, {}) && a / PAGE < USER_PAGES && a / PAGE in Data(m.space)
    ensures Shape(Vfree(m, a).space)
    ensures Tabs(Vfree(m, a).space) ==
      if Last(m.space, a / PAGE) then Tabs(m.space) - {Dir(a / PAGE)} else Tabs(m.space)
  {
    hide Shape, Account, Looked, UnmapIn, Data, Tabs;
    var p := a / PAGE;
    InvShape(m, reserved);
    VfreeKeeps(m, reserved, a);
    InvShape(Vfree(m, a), reserved);
    LookupKeeps(m.space, p);
    assert Account(m.space, UsedSet(m.bits, m.len), reserved, {});
    LookupAccounts(m.space, UsedSet(m.bits, m.len), reserved, {}, p);
    FrameUsable(m, reserved, p);
    UnmapMaps(Looked(m.space, p), p);
  }

  lemma FrameUsable(m: Machine, reserved: set<nat>, p: nat)
    requires FrameMachine.Inv(m, reserved, {}) && p in Data(m.space)
    ensures p < PAGES && Translate(m.space, p) == Some(Data(m.space)[p]) && 0 < Data(m.space)[p] < m.len
  {
    AccountShape(m.space, UsedSet(m.bits, m.len), reserved, {});
  }

  lemma TableHasPage(m: Machine, reserved: set<nat>, i: nat)
    requires FrameMachine.Inv(m, reserved, {}) && i in Tabs(m.space)
    ensures exists q :: q in Data(m.space) && Dir(q) == i
  {
  }

  /** A machine that extends another and has no page more uses exactly the same frames. */
  lemma ExtendsBack(m0: Machine, m: Machine, reserved: set<nat>)
    requires FrameMachine.Inv(m0, reserved, {}) && FrameMachine.Inv(m, reserved, {}) && Extends(m0, m)
    requires Data(m.space) == Data(m0.space)
    ensures UsedSet(m.bits, m.len) == UsedSet(m0.bits, m0.len)
  {
    hide Shape, Data;
    forall i | i in Tabs(m.space)
      ensures i in Tabs(m0.space)
    {
      TableHasPage(m, reserved, i);
      var q :| q in Data(m.space) && Dir(q) == i;
      PageHasTable(m0, q);
    }
    assert Tabs(m.space) == Tabs(m0.space);
  }

  lemma PageHasTable(m: Machine, q: nat)
    requires Shape(m.space) && q in Data(m.space)
    ensures Dir(q) in Tabs(m.space)
  {
  }

  lemma {:induction false} MapRangeExtends(m0: Machine, m: Machine, reserved: set<nat>, a: nat, end: nat, write: bool)
    requires FrameMachine.Inv(m0, reserved, {}) && FrameMachine.Inv(m, reserved, {}) && Extends(m0, m)
    requires CanMapRange(m, a, end, write)
    ensures FrameMachine.Inv(MapRange(m, a, end, write), reserved, {})
    ensures Shape(MapRange(m, a, end, write).space) && Extends(m0, MapRange(m, a, end, write))
    decreases end - a
  {
    hide FrameMachine.Inv, MapFresh, CanMap, Extends;
    InvShape(m, reserved);
    if a < end {
      MapFreshKeeps(m, reserved, a / PAGE, write);
      MapFreshExtends(m0, m, reserved, a / PAGE, write);
      MapRangeExtends(m0, MapFresh(m, a / PAGE, write), reserved, a + PAGE, end, write);
    }
  }

  /** Unmapping a mapped range page by page, none of it known to `m0`. */
  lemma {:induction false} UnmapAllExtends(m0: Machine, u: User, reserved: set<nat>, a: nat, end: nat)
    requires FrameMachine.Inv(m0, reserved, {}) && Joint(u, reserved) && Extends(m0, u.m)
    requires Aligned(a) && Aligned(end) && end <= USER_END
    requires forall x: nat :: a <= x < end ==> AttrAt(u.blocks, x).Attr?
    requires forall p :: p in Data(m0.space) ==> !(a <= p * PAGE < end)
    ensures Shape(UnmapAll(u, reserved, a, end).m.space) && Extends(m0, UnmapAll(u, reserved, a, end).m)
    ensures UnmapAll(u, reserved, a, end).blocks == UnmapRange(u.blocks, a, end)
    decreases end - a
  {
    hide Extends, FrameMachine.Inv, Vfree, Sorted;
    JointShape(u, reserved);
    if a < end {
      var p := a / PAGE;
      assert p * PAGE == a && PageAgrees(u.m.space, u.blocks, p);
      UnmapPageKeeps(u, reserved, a);
      VfreeExtends(m0, u.m, reserved, a);
      UnmapAllExtends(m0, UnmapPage(u, a), reserved, a + PAGE, end);
    }
  }

  /**
   * Mapping a range and unmapping it again gives back the very same block list and the very same set
   * of used frames.
   */
  lemma UmapUnmapRestores(u: User, reserved: set<nat>, b: Block)
    requires Joint(u, reserved) && CanUmap(u, b)
    ensures Joint(Umap(u, b), reserved)
    ensures
      var u' := UnmapAll(Umap(u, b), reserved, b.start, b.End());
      u'.blocks == u.blocks && u'.m.len <= |u'.m.bits| && UsedSet(u'.m.bits, u'.m.len) == UsedSet(u.m.bits, u.m.len)
  {
    hide FrameMachine.Inv, Sorted, MapRange, CanMapRange, UnmapAll, Insert, UnmapRange, Joint, Extends, AttrAt, Agree;
    UmapReady(u, reserved, b);
    UmapKeeps(u, reserved, b);
    UnmapAllExtends(u.m, Umap(u, b), reserved, b.start, b.End());
    InsertUnmapRestores(u.blocks, b);
    UnmapAllKeeps(Umap(u, b), reserved, b.start, b.End());
    JointShape(UnmapAll(Umap(u, b), reserved, b.start, b.End()), reserved);
    SamePages(u, UnmapAll(Umap(u, b), reserved, b.start, b.End()), reserved);
  }

  /** What mapping a fitting block finds and leaves, for unmapping it again. */
  lemma UmapReady(u: User, reserved: set<nat>, b: Block)
    requires Joint(u, reserved) && CanUmap(u, b)
    ensures FrameMachine.Inv(u.m, reserved, {}) && Sorted(u.blocks) && Shape(u.m.space) && Shape(Umap(u, b).m.space)
    ensures Aligned(b.start) && Aligned(b.End()) && b.End() <= USER_END
    ensures Extends(u.m, Umap(u, b).m)
    ensures forall x: nat :: b.start <= x < b.End() ==> AttrAt(Umap(u, b).blocks, x).Attr?
    ensures forall p :: p in Data(u.m.space) ==> !(b.start <= p * PAGE < b.End())
  {
    hide FrameMachine.Inv, Sorted, MapRange, CanMapRange, Insert, Extends, FitsIn, Shape, Data;
    JointShape(u, reserved);
    ExtendsSelf(u.m);
    MapRangeExtends(u.m, u.m, reserved, b.start, b.End(), Writes(b.prot));
    InsertKeeps(u.blocks, b);
    NoPageInBlock(u, reserved, b);
  }

  /** No page of a fitting block translates. */
  lemma NoPageInBlock(u: User, reserved: set<nat>, b: Block)
    requires Joint(u, reserved) && GoodBlock(b) && FitsIn(u.blocks, b)
    ensures Shape(u.m.space)
    ensures forall p :: p in Data(u.m.space) ==> !(b.start <= p * PAGE < b.End())
  {
    hide FrameMachine.Inv, Sorted;
    JointShape(u, reserved);
    forall p | p in Data(u.m.space)
      ensures !(b.start <= p * PAGE < b.End())
    {
      assert p < USER_PAGES ==> PageAgrees(u.m.space, u.blocks, p);
      FreeAttr(u.blocks, b, p * PAGE);
    }
  }

  lemma ExtendsSelf(m: Machine)
    requires Shape(m.space)
    ensures Extends(m, m)
  {
  }

  lemma SamePages(u: User, u': User, reserved: set<nat>)
    requires Joint(u, reserved) && Joint(u', reserved) && u'.blocks == u.blocks && Extends(u.m, u'.m)
    ensures UsedSet(u'.m.bits, u'.m.len) == UsedSet(u.m.bits, u.m.len)
  {
    forall q | q in Data(u'.m.space)
      ensures q in Data(u.m.space)
    {
      if q < USER_PAGES {
        assert PageAgrees(u.m.space, u.blocks, q) && PageAgrees(u'.m.space, u.blocks, q);
      }
    }
    assert Data(u'.m.space) == Data(u.m.space);
    ExtendsBack(u.m, u'.m, reserved);
  }
}
