/** The page-table code itself, stepping through directory, window and frames in place. */
module Vmm {
  import opened Paging
  import opened Accounts
  import opened FrameMachine
  import HeapLayout
  import Pmm

  class Mmu {
    const pmm: Pmm.FrameAllocator
    var pd: Table
    /** Physical frames that hold page tables, by frame number. */
    var mem: map<nat, Table>
    const hh: nat

    constructor (pmm: Pmm.FrameAllocator, pd: Table, mem: map<nat, Table>, hh: nat)
      ensures this.pmm == pmm && this.pd == pd && this.mem == mem && this.hh == hh
    {
      this.pmm, this.pd, this.mem, this.hh := pmm, pd, mem, hh;
    }

    function Here(): Space
      reads this
    {
      Space(pd, mem, hh)
    }

    ghost function State(): (m: Machine)
      reads this, pmm, pmm.bitmap
      ensures m.space == Here()
    {
      Machine(Here(), pmm.Bits(), pmm.lastFreed, pmm.bitmapLen)
    }

    ghost predicate Valid(reserved: set<nat>, loose: set<nat>)
      reads this, pmm, pmm.bitmap
    {
      pmm.Valid() && Inv(State(), reserved, loose)
    }

    // ----- the window -----

    /** Points the window entry of the higher-half table at a frame. */
    method SetWindow(frame: nat)
      requires hh in mem
      modifies `mem
      ensures Here() == Retarget(old(Here()), frame)
    {
      mem := mem[hh := mem[hh][WINDOW_SLOT := mem[hh][WINDOW_SLOT].(frame := frame)]];
    }

    /** Entry `j` of the table that the window shows. */
    function ReadWindow(j: nat): Entry
      requires hh in mem && Window(Here()) in mem && j < ENTRIES
      reads this
    {
      mem[mem[hh][WINDOW_SLOT].frame][j]
    }

    method WriteWindow(j: nat, e: Entry)
      requires hh in mem && Window(Here()) in mem && j < ENTRIES
      modifies `mem
      ensures Here() == Poke(old(Here()), j, e)
    {
      var w := mem[hh][WINDOW_SLOT].frame;
      mem := mem[w := mem[w][j := e]];
    }

    /** Takes the next frame; the caller must know there is one. */
    method AllocFrame() returns (frame: nat)
      requires pmm.Valid() && Room(State()) > 0
      modifies pmm.bitmap
      ensures State() == Took(old(State())) && frame == NextFrame(old(State()))
    {
      CountFreeFinds(pmm.Bits(), pmm.lastFreed, pmm.bitmapLen);
      var page := pmm.AllocPage();
      frame := page / Pmm.BLOCK_SIZE;
    }

    method FreeFrame(frame: nat)
      requires pmm.Valid() && frame < pmm.bitmapLen
      modifies pmm`lastFreed, pmm.bitmap
      ensures State() == Gave(old(State()), frame)
    {
      pmm.FreePage(frame * Pmm.BLOCK_SIZE);
    }

    // ----- the page-table operations -----

    /** `virt_to_phys`, which also leaves the window on the page's table. */
    method VirtToPhys(vaddr: nat) returns (paddr: nat)
      requires Shape(Here()) && vaddr / Pmm.BLOCK_SIZE < PAGES && vaddr / Pmm.BLOCK_SIZE != WINDOW_PAGE
      modifies `mem
      ensures Here() == Looked(old(Here()), vaddr / Pmm.BLOCK_SIZE)
      ensures paddr ==
        match old(Translate(Here(), vaddr / Pmm.BLOCK_SIZE))
        case Some(f) => f * Pmm.BLOCK_SIZE
        case None => 0
    {
      var page := vaddr / Pmm.BLOCK_SIZE;
      var i := Dir(page);
      if !pd[i].present {
        return 0;
      }
      RetargetKeeps(Here(), pd[i].frame);
      assert Pte(Retarget(Here(), pd[i].frame), page) == Pte(Here(), page);
      SetWindow(pd[i].frame);
      var pte := ReadWindow(Slot(page));
      if !pte.present {
        return 0;
      }
      paddr := pte.frame * Pmm.BLOCK_SIZE;
    }

    /** The first half of `vmm_map_page`: the page's table is there and the window shows it. */
    method ShowTable(page: nat, ring3: bool)
      requires pmm.Valid() && Shape(Here()) && page < PAGES && Room(State()) >= TableCost(Here(), page)
      modifies `mem, `pd, pmm.bitmap
      ensures pmm.Valid()
      ensures
        var m := old(State());
        var s := Ready(m.space, page, ring3, NextFrame(m));
        State() == if NeedsTable(m.space, page) then Took(m).(space := s) else m.(space := s)
    {
      hide Shape, CountFree, Pmm.FirstFree;
      ShapeHh(Here(), page);
      var i := Dir(page);
      if ring3 {
        pd := pd[i := pd[i].(user := true)];
      }
      if !pd[i].present {
        AddTable(i);
      } else {
        SetWindow(pd[i].frame);
      }
    }

    /** A fresh empty table put into slot `i` of the directory, and shown by the window. */
    method AddTable(i: nat)
      requires pmm.Valid() && hh in mem && i < ENTRIES && Room(State()) > 0
      modifies `mem, `pd, pmm.bitmap
      ensures
        var m := old(State());
        var r := Retarget(m.space, NextFrame(m));
        State() == Took(m).(space := Space(
          m.space.pd[i := m.space.pd[i].(present := true, writable := true, frame := NextFrame(m))],
          r.mem[NextFrame(m) := EmptyTable()], r.hh))
    {
      hide CountFree, Pmm.FirstFree;
      var table := AllocFrame();
      SetWindow(table);
      mem := mem[mem[hh][WINDOW_SLOT].frame := EmptyTable()];
      pd := pd[i := pd[i].(present := true, writable := true)];
      pd := pd[i := pd[i].(frame := table)];
    }

    /** `vmm_map_page`. */
    method MapPage(paddr: nat, vaddr: nat, write: bool, ring3: bool)
      requires pmm.Valid() && Shape(Here()) && vaddr / Pmm.BLOCK_SIZE < PAGES && vaddr / Pmm.BLOCK_SIZE != WINDOW_PAGE
      requires Room(State()) >= TableCost(Here(), vaddr / Pmm.BLOCK_SIZE)
      requires NeedsTable(Here(), vaddr / Pmm.BLOCK_SIZE) ==> NoTable(Here(), NextFrame(State()))
      modifies `mem, `pd, pmm.bitmap
      ensures State() == Map(old(State()), vaddr / Pmm.BLOCK_SIZE, paddr / Pmm.BLOCK_SIZE, write, ring3)
      ensures Shape(Here())
      ensures
        var page, was := vaddr / Pmm.BLOCK_SIZE, old(OldPte(Here(), vaddr / Pmm.BLOCK_SIZE));
        && Pte(Here(), page) ==
             Some(Entry(paddr / Pmm.BLOCK_SIZE, true, was.writable || write, was.user || ring3))
        && pd[Dir(page)].present && pd[Dir(page)].user == (old(pd)[Dir(page)].user || ring3)
    {
      hide Ready, Shape, NoTable, NextFrame, Took;
      var page := vaddr / Pmm.BLOCK_SIZE;
      MapShape(Here(), page, ring3, NextFrame(State()));
      MapEntry(Here(), page, paddr / Pmm.BLOCK_SIZE, write, ring3, NextFrame(State()));
      ShowTable(page, ring3);
      var pte := ReadWindow(Slot(page));
      pte := pte.(present := true);
      if write {
        pte := pte.(writable := true);
      }
      if ring3 {
        pte := pte.(user := true);
      }
      WriteWindow(Slot(page), pte.(frame := paddr / Pmm.BLOCK_SIZE));
    }

    /** `vmm_unmap_page`: clears the entry and gives back the table if that emptied it. */
    method UnmapPage(vaddr: nat)
      requires pmm.Valid() && Shape(Here()) && vaddr / Pmm.BLOCK_SIZE < PAGES && vaddr / Pmm.BLOCK_SIZE != WINDOW_PAGE
      requires pd[Dir(vaddr / Pmm.BLOCK_SIZE)].present
      requires pd[Dir(vaddr / Pmm.BLOCK_SIZE)].frame < pmm.bitmapLen
      modifies `mem, `pd, pmm`lastFreed, pmm.bitmap
      ensures State() == Unmap(old(State()), vaddr / Pmm.BLOCK_SIZE)
    {
      var page := vaddr / Pmm.BLOCK_SIZE;
      var i := Dir(page);
      ghost var c := ClearIn(Here(), page);
      ClearRefines(Here(), page);
      RetargetKeeps(Here(), pd[i].frame);
      SetWindow(pd[i].frame);
      var pte := ReadWindow(Slot(page));
      WriteWindow(Slot(page), pte.(present := false));
      assert Here() == c;
      var j := 0;
      while j < ENTRIES
        invariant j <= ENTRIES && Here() == c && State() == old(State()).(space := c)
        invariant forall k :: 0 <= k < j ==> !c.mem[Window(c)][k].present
      {
        var e := ReadWindow(j);
        if e.present {
          return;
        }
        j := j + 1;
      }
      FreeFrame(pd[i].frame);
      pd := pd[i := pd[i].(present := false)];
    }

    /** `valloc_page`: a fresh frame at the address, or at the frame's own address for null. */
    method VallocPage(vaddr: nat, ghost reserved: set<nat>) returns (at: nat)
      requires Valid(reserved, {}) && CanAlloc(State(), vaddr)
      modifies `mem, `pd, pmm.bitmap
      ensures State() == Valloc(old(State()), vaddr) && Valid(reserved, {})
      ensures at == if vaddr == 0 then NextFrame(old(State())) * Pmm.BLOCK_SIZE else vaddr
      ensures Translate(Here(), at / 0x1000) == Some(NextFrame(old(State())))
      ensures Pte(Here(), at / 0x1000) ==
        Some(Entry(NextFrame(old(State())), true, true, old(OldPte(Here(), Target(State(), vaddr))).user))
      ensures pd[Dir(at / 0x1000)].user == old(pd)[Dir(at / 0x1000)].user
    {
      hide Inv, Map, Room, Shape, Took, NeedsTable, CanAlloc, Valloc;
      ghost var m := State();
      VallocKeeps(m, reserved, vaddr);
      VallocReady(m, reserved, vaddr);
      var frame := AllocFrame();
      at := if vaddr != 0 then vaddr else frame * Pmm.BLOCK_SIZE;
      MapPage(frame * Pmm.BLOCK_SIZE, at, true, false);
    }

    /** `vfree_page`: a mapped page's frame goes back, then its entry, then its table if emptied. */
    method VfreePage(vaddr: nat, ghost reserved: set<nat>)
      requires Valid(reserved, {}) && vaddr / Pmm.BLOCK_SIZE < PAGES && Dir(vaddr / Pmm.BLOCK_SIZE) != HH_SLOT
      modifies `mem, `pd, pmm`lastFreed, pmm.bitmap
      ensures State() == Vfree(old(State()), vaddr) && Valid(reserved, {})
      ensures Translate(Here(), vaddr / Pmm.BLOCK_SIZE).None?
    {
      hide Inv, Unmap, Shape, Looked, Vfree;
      VfreeReady(State(), reserved, vaddr);
      var paddr := VirtToPhys(vaddr);
      if paddr != 0 {
        FreeFrame(paddr / Pmm.BLOCK_SIZE);
        UnmapPage(vaddr);
      }
    }

    /** The kernel-heap branch of the page-fault handler: afterwards the faulting page translates. */
    method HeapFault(addr: nat, ghost reserved: set<nat>)
      requires Valid(reserved, {}) && HeapLayout.HEAP_START <= addr < HeapLayout.HEAP_END && CanAlloc(State(), addr)
      modifies `mem, `pd, pmm.bitmap
      ensures State() == Step(old(State()), Op.HeapFault(addr)) && Valid(reserved, {})
      ensures Translate(Here(), addr / 0x1000).Some?
      ensures Pte(Here(), addr / 0x1000) ==
        Some(Entry(NextFrame(old(State())), true, true, old(OldPte(Here(), addr / 0x1000)).user))
      ensures pd[Dir(addr / 0x1000)].user == old(pd)[Dir(addr / 0x1000)].user
    {
      var _ := VallocPage(addr, reserved);
    }
  }

  lemma ShapeHh(s: Space, page: nat)
    requires Shape(s) && page < PAGES
    ensures s.hh in s.mem && (s.pd[Dir(page)].present ==> s.pd[Dir(page)].frame in s.mem)
  {
  }

  lemma MapShape(s: Space, page: nat, ring3: bool, t: nat)
    requires Shape(s) && page < PAGES && (NeedsTable(s, page) ==> NoTable(s, t))
    ensures s.hh in s.mem && (s.pd[Dir(page)].present ==> s.pd[Dir(page)].frame in s.mem)
    ensures Window(Ready(s, page, ring3, t)) in Ready(s, page, ring3, t).mem
  {
    TableReady(s, page, ring3, t);
  }

  /** The next frame holds no table, so a new table may be put there. */
  lemma NextIsFree(m: Machine, reserved: set<nat>, loose: set<nat>, page: nat)
    requires Inv(m, reserved, loose) && page < PAGES
    ensures Shape(m.space)
    ensures Room(m) > 0 ==> NoTable(m.space, NextFrame(m))
  {
    AccountShape(m.space, UsedSet(m.bits, m.len), reserved, loose);
    if Room(m) > 0 {
      TookUses(m);
      UnusedHoldsNoTable(m.space, UsedSet(m.bits, m.len), reserved, loose, NextFrame(m));
    }
  }

  /** What an allocation finds once its data frame is taken. */
  lemma VallocReady(m: Machine, reserved: set<nat>, vaddr: nat)
    requires Inv(m, reserved, {}) && CanAlloc(m, vaddr)
    ensures
      var m1, page := Took(m), Target(m, vaddr);
      && Room(m) > 0 && Shape(m.space) && page < PAGES && page != WINDOW_PAGE
      && (vaddr == 0 ==> page == NextFrame(m)) && (vaddr != 0 ==> page == vaddr / Pmm.BLOCK_SIZE)
      && Room(m1) >= TableCost(m.space, page) && (NeedsTable(m.space, page) ==> NoTable(m.space, NextFrame(m1)))
      && Valloc(m, vaddr) == Map(m1, page, NextFrame(m), true, false)
  {
    TookUses(m);
    TookLoose(m, reserved);
    NextIsFree(Took(m), reserved, {NextFrame(m)}, Target(m, vaddr));
  }

  /** What a release finds, and what it makes of it. */
  lemma VfreeReady(m: Machine, reserved: set<nat>, vaddr: nat)
    requires Inv(m, reserved, {}) && vaddr / Pmm.BLOCK_SIZE < PAGES && Dir(vaddr / Pmm.BLOCK_SIZE) != HH_SLOT
    ensures m.len <= |m.bits| && Shape(m.space) && Inv(Vfree(m, vaddr), reserved, {}) && Shape(Vfree(m, vaddr).space)
    ensures
      var page, s := vaddr / Pmm.BLOCK_SIZE, Looked(m.space, vaddr / Pmm.BLOCK_SIZE);
      && page != WINDOW_PAGE && Shape(s) && Translate(Vfree(m, vaddr).space, page).None?
      && match Translate(m.space, page)
         case None => Vfree(m, vaddr) == m.(space := s)
         case Some(f) =>
           && 0 < f < m.len && s.pd[Dir(page)].present && s.pd[Dir(page)].frame < m.len
           && Vfree(m, vaddr) == Unmap(Gave(m.(space := s), f), page)
  {
    hide Inv, Unmap, Looked;
    VfreeKeeps(m, reserved, vaddr);
    FramesInRange(m, reserved, vaddr / Pmm.BLOCK_SIZE);
    LookupKeeps(m.space, vaddr / Pmm.BLOCK_SIZE);
    InvShape(m, reserved);
    InvShape(Vfree(m, vaddr), reserved);
  }

  /** A mapped page's frame and table frame are blocks of the bitmap, and not block 0. */
  lemma FramesInRange(m: Machine, reserved: set<nat>, page: nat)
    requires Inv(m, reserved, {}) && page < PAGES && Dir(page) != HH_SLOT
    ensures Shape(m.space)
    ensures Translate(m.space, page).Some? ==>
      0 < Translate(m.space, page).value < m.len && m.space.pd[Dir(page)].present && m.space.pd[Dir(page)].frame < m.len
  {
    AccountShape(m.space, UsedSet(m.bits, m.len), reserved, {});
    if Translate(m.space, page).Some? {
      assert page in Data(m.space) && Data(m.space)[page] in UsedSet(m.bits, m.len);
      assert Dir(page) in Tabs(m.space) && Tabs(m.space)[Dir(page)] in UsedSet(m.bits, m.len);
    }
  }
}
