/**
 * Two-level page tables as values: the page directory, the physical frames that hold page tables, and
 * the one window entry through which the kernel edits them. The simple thing they stand for is a
 * partial map from virtual page to frame.
 */
module Paging {

  datatype Option<T> = None | Some(value: T)

  /** A directory or table entry: its page-frame field and the attribute bits the code uses. */
  datatype Entry = Entry(frame: nat, present: bool, writable: bool, user: bool)

  type Table = t: seq<Entry> | |t| == ENTRIES witness EmptyTable()

  const ENTRIES: nat := 1024
  const PAGES: nat := 0x10_0000
  /** Directory slot of the static higher-half table, and the page of the editing window in it. */
  const HH_SLOT: nat := 768
  const WINDOW_SLOT: nat := 1023
  const WINDOW_PAGE: nat := 0xC03FF

  function Zeroes(n: nat): (t: seq<Entry>)
    ensures |t| == n && forall i :: 0 <= i < n ==> t[i] == Entry(0, false, false, false)
  {
    if n == 0 then [] else Zeroes(n - 1) + [Entry(0, false, false, false)]
  }

  /** A table after `memset(table, 0, ...)`. */
  function EmptyTable(): (t: seq<Entry>)
    ensures |t| == ENTRIES && forall i :: 0 <= i < ENTRIES ==> t[i] == Entry(0, false, false, false)
  {
    Zeroes(ENTRIES)
  }

  function Dir(page: nat): nat {
    page / ENTRIES
  }

  function Slot(page: nat): (j: nat)
    ensures j < ENTRIES
  {
    page % ENTRIES
  }

  /** An address is its directory slot, its table slot and its offset in the page, from the top down. */
  lemma AddressSplits(vaddr: nat)
    ensures
      var page := vaddr / 0x1000;
      && vaddr == 0x40_0000 * Dir(page) + 0x1000 * Slot(page) + vaddr % 0x1000
      && (vaddr < 0x1_0000_0000 ==> Dir(page) < 1024) && Slot(page) < 1024
  {
  }

  /** The directory, the frames that hold tables, and the frame of the higher-half table. */
  datatype Space = Space(pd: Table, mem: map<nat, Table>, hh: nat)

  /** Present directory slots point at tables in different frames; slot 768 at the higher-half table. */
  ghost predicate Shape(s: Space) {
    && s.hh in s.mem && s.pd[HH_SLOT].present && s.pd[HH_SLOT].frame == s.hh
    && s.mem[s.hh][WINDOW_SLOT].present
    && (forall i :: 0 <= i < ENTRIES && s.pd[i].present ==> s.pd[i].frame in s.mem)
    && (forall i, j :: 0 <= i < j < ENTRIES && s.pd[i].present && s.pd[j].present ==> s.pd[i].frame != s.pd[j].frame)
  }

  /** The entry that the hardware finds for a page, if its table is present. */
  ghost function Pte(s: Space, page: nat): Option<Entry>
    requires Shape(s) && page < PAGES
  {
    var pde := s.pd[Dir(page)];
    if pde.present then Some(s.mem[pde.frame][Slot(page)]) else None
  }

  /** The map that the tables stand for. */
  ghost function Translate(s: Space, page: nat): Option<nat>
    requires Shape(s) && page < PAGES
  {
    match Pte(s, page)
    case Some(e) => if e.present then Some(e.frame) else None
    case None => None
  }

  // ----- the code's updates -----

  /** Points the window at `frame`. */
  function Retarget(s: Space, frame: nat): Space
    requires s.hh in s.mem
  {
    s.(mem := s.mem[s.hh := s.mem[s.hh][WINDOW_SLOT := s.mem[s.hh][WINDOW_SLOT].(frame := frame)]])
  }

  /** The frame that the window shows. */
  function Window(s: Space): nat
    requires s.hh in s.mem
  {
    s.mem[s.hh][WINDOW_SLOT].frame
  }

  /** Stores entry `j` of the table that the window shows. */
  function Poke(s: Space, j: nat, e: Entry): Space
    requires s.hh in s.mem && Window(s) in s.mem && j < ENTRIES
  {
    s.(mem := s.mem[Window(s) := s.mem[Window(s)][j := e]])
  }

  /** The entry that a map stores over `e`: attribute bits are only ever added. */
  function Mapped(e: Entry, frame: nat, write: bool, ring3: bool): Entry {
    Entry(frame, true, e.writable || write, e.user || ring3)
  }

  /** The directory entry once a table is there: fresh in frame `t` if it was absent. */
  function DirMapped(e: Entry, ring3: bool, t: nat): Entry {
    var e' := if ring3 then e.(user := true) else e;
    if e'.present then e' else e'.(present := true, writable := true, frame := t)
  }

  /** The page's table is there, fresh in frame `t` if it was absent, and the window shows it. */
  function Ready(s: Space, page: nat, ring3: bool, t: nat): (s2: Space)
    requires s.hh in s.mem && page < PAGES && (s.pd[Dir(page)].present ==> s.pd[Dir(page)].frame in s.mem)
    ensures s2.hh == s.hh && s2.hh in s2.mem
  {
    var i := Dir(page);
    var s1 :=
      if s.pd[i].present then Retarget(s, s.pd[i].frame)
      else
        var r := Retarget(s, t);
        r.(mem := r.mem[t := EmptyTable()]);
    s1.(pd := s1.pd[i := DirMapped(s1.pd[i], ring3, t)])
  }

  /** `vmm_map_page`; `t` is the frame of the table allocated when the directory slot is absent. */
  function MapIn(s: Space, page: nat, frame: nat, write: bool, ring3: bool, t: nat): Space
    requires s.hh in s.mem && page < PAGES && (s.pd[Dir(page)].present ==> s.pd[Dir(page)].frame in s.mem)
  {
    var s2 := Ready(s, page, ring3, t);
    if Window(s2) in s2.mem then Poke(s2, Slot(page), Mapped(s2.mem[Window(s2)][Slot(page)], frame, write, ring3))
    else s2
  }

  /** `vmm_unmap_page` up to the scan for an empty table. */
  function ClearIn(s: Space, page: nat): Space
    requires s.hh in s.mem && page < PAGES && s.pd[Dir(page)].frame in s.mem
  {
    var s1 := Retarget(s, s.pd[Dir(page)].frame);
    if Window(s1) in s1.mem then Poke(s1, Slot(page), s1.mem[Window(s1)][Slot(page)].(present := false)) else s1
  }

  predicate Empty(t: Table) {
    forall j :: 0 <= j < ENTRIES ==> !t[j].present
  }

  /** The whole of `vmm_unmap_page`: an emptied table leaves the directory. */
  function UnmapIn(s: Space, page: nat): Space
    requires s.hh in s.mem && page < PAGES && s.pd[Dir(page)].frame in s.mem
  {
    var s' := ClearIn(s, page);
    var i := Dir(page);
    if Window(s') in s'.mem && Empty(s'.mem[Window(s')])
    then s'.(pd := s'.pd[i := s'.pd[i].(present := false)])
    else s'
  }

  // ----- what a map and an unmap mean -----

  /** Frame `t` holds no table that the directory uses. */
  ghost predicate NoTable(s: Space, t: nat) {
    forall i :: 0 <= i < ENTRIES && s.pd[i].present ==> s.pd[i].frame != t
  }

  lemma TablesDiffer(s: Space, i: nat, j: nat)
    requires Shape(s) && i < ENTRIES && j < ENTRIES && i != j && s.pd[i].present && s.pd[j].present
    ensures s.pd[i].frame != s.pd[j].frame
  {
    if j < i {
      assert s.pd[j].frame != s.pd[i].frame;
    }
  }

  /** Moving the window changes nothing but the window's own entry. */
  lemma RetargetKeeps(s: Space, frame: nat)
    requires Shape(s)
    ensures Shape(Retarget(s, frame)) && Window(Retarget(s, frame)) == frame
    ensures forall q :: 0 <= q < PAGES && q != WINDOW_PAGE ==> Pte(Retarget(s, frame), q) == Pte(s, q)
  {
    var s' := Retarget(s, frame);
    forall q | 0 <= q < PAGES && q != WINDOW_PAGE
      ensures Pte(s', q) == Pte(s, q)
    {
      if s.pd[Dir(q)].present && s.pd[Dir(q)].frame == s.hh {
        OnlyHhSlot(s, Dir(q));
        assert Slot(q) != WINDOW_SLOT;
      }
    }
  }

  lemma OnlyHhSlot(s: Space, i: nat)
    requires Shape(s) && i < ENTRIES && s.pd[i].present && s.pd[i].frame == s.hh
    ensures i == HH_SLOT
  {
    if i != HH_SLOT {
      TablesDiffer(s, i, HH_SLOT);
    }
  }

  /** A store through the window changes exactly one page's entry. */
  lemma PokeSetsOne(s: Space, page: nat, e: Entry)
    requires Shape(s) && page < PAGES && page != WINDOW_PAGE
    requires s.pd[Dir(page)].present && Window(s) == s.pd[Dir(page)].frame
    ensures Shape(Poke(s, Slot(page), e))
    ensures forall q :: 0 <= q < PAGES ==>
      Pte(Poke(s, Slot(page), e), q) == if q == page then Some(e) else Pte(s, q)
  {
    var s' := Poke(s, Slot(page), e);
    if Dir(page) == HH_SLOT {
      assert Slot(page) != WINDOW_SLOT;
    } else {
      TablesDiffer(s, Dir(page), HH_SLOT);
    }
    forall q | 0 <= q < PAGES
      ensures Pte(s', q) == if q == page then Some(e) else Pte(s, q)
    {
      if Dir(q) == Dir(page) {
        assert q == page <==> Slot(q) == Slot(page);
      } else if s.pd[Dir(q)].present {
        TablesDiffer(s, Dir(q), Dir(page));
      }
    }
  }

  /** The entry over which a map of `page` stores. */
  ghost function OldPte(s: Space, page: nat): Entry
    requires Shape(s) && page < PAGES
  {
    match Pte(s, page)
    case Some(e) => e
    case None => Entry(0, false, false, false)
  }

  /** Whether mapping `page` needs a new table. */
  predicate NeedsTable(s: Space, page: nat)
    requires page < PAGES
  {
    !s.pd[Dir(page)].present
  }

  lemma TableReady(s: Space, page: nat, ring3: bool, t: nat)
    requires Shape(s) && page < PAGES && (NeedsTable(s, page) ==> NoTable(s, t))
    ensures
      var s2 := Ready(s, page, ring3, t);
      && Shape(s2) && s2.pd == s.pd[Dir(page) := DirMapped(s.pd[Dir(page)], ring3, t)]
      && Window(s2) == s2.pd[Dir(page)].frame && Window(s2) in s2.mem
    ensures forall q :: 0 <= q < PAGES && q != WINDOW_PAGE ==>
      Pte(Ready(s, page, ring3, t), q) ==
        if NeedsTable(s, page) && Dir(q) == Dir(page) then Some(Entry(0, false, false, false)) else Pte(s, q)
  {
    var i, s2 := Dir(page), Ready(s, page, ring3, t);
    var frame := if s.pd[i].present then s.pd[i].frame else t;
    RetargetKeeps(s, frame);
    var r := Retarget(s, frame);
    forall q | 0 <= q < PAGES && q != WINDOW_PAGE
      ensures Shape(s2)
      ensures Pte(s2, q) ==
        if NeedsTable(s, page) && Dir(q) == i then Some(Entry(0, false, false, false)) else Pte(s, q)
    {
      assert Pte(r, q) == Pte(s, q);
    }
    assert Shape(s2);
  }

  /**
   * Mapping a page refines the update of a partial map at one point: the page translates to the frame
   * with the requested permissions added to what its slot held, and every other page but the window
   * translates as before.
   */
  lemma MapRefines(s: Space, page: nat, frame: nat, write: bool, ring3: bool, t: nat)
    requires Shape(s) && page < PAGES && page != WINDOW_PAGE && (NeedsTable(s, page) ==> NoTable(s, t))
    ensures Shape(MapIn(s, page, frame, write, ring3, t))
    ensures MapIn(s, page, frame, write, ring3, t).hh == s.hh
    ensures MapIn(s, page, frame, write, ring3, t).pd == s.pd[Dir(page) := DirMapped(s.pd[Dir(page)], ring3, t)]
    ensures Pte(MapIn(s, page, frame, write, ring3, t), page) == Some(Mapped(OldPte(s, page), frame, write, ring3))
    ensures forall q :: 0 <= q < PAGES && q != WINDOW_PAGE ==>
      Translate(MapIn(s, page, frame, write, ring3, t), q) == if q == page then Some(frame) else Translate(s, q)
  {
    TableReady(s, page, ring3, t);
    var s2 := Ready(s, page, ring3, t);
    var s' := MapIn(s, page, frame, write, ring3, t);
    PokeSetsOne(s2, page, Mapped(s2.mem[Window(s2)][Slot(page)], frame, write, ring3));
    assert Pte(s2, page) == Some(s2.mem[Window(s2)][Slot(page)]);
  }

  /**
   * The four fields of the mapped page's entry and of its directory slot, whatever is asked for: the
   * access bits are those asked for and those found there, and no other directory slot changes.
   */
  lemma MapEntry(s: Space, page: nat, frame: nat, write: bool, ring3: bool, t: nat)
    requires Shape(s) && page < PAGES && page != WINDOW_PAGE && (NeedsTable(s, page) ==> NoTable(s, t))
    ensures Shape(MapIn(s, page, frame, write, ring3, t))
    ensures
      var s', was, i := MapIn(s, page, frame, write, ring3, t), OldPte(s, page), Dir(page);
      && Pte(s', page) == Some(Entry(frame, true, was.writable || write, was.user || ring3))
      && s'.pd[i].present && s'.pd[i].user == (s.pd[i].user || ring3)
      && s'.pd[i].frame == (if s.pd[i].present then s.pd[i].frame else t)
      && s'.pd[i].writable == (if s.pd[i].present then s.pd[i].writable else true)
      && (forall j :: 0 <= j < ENTRIES && j != i ==> s'.pd[j] == s.pd[j])
  {
    hide MapIn, Shape, Pte, OldPte;
    MapRefines(s, page, frame, write, ring3, t);
  }

  /** Mapping a page keeps what every other page's slot holds, mapped or not. */
  lemma MapKeepsSlots(s: Space, page: nat, frame: nat, write: bool, ring3: bool, t: nat)
    requires Shape(s) && page < PAGES && page != WINDOW_PAGE && (NeedsTable(s, page) ==> NoTable(s, t))
    ensures Shape(MapIn(s, page, frame, write, ring3, t))
    ensures forall q :: 0 <= q < PAGES && q != WINDOW_PAGE && q != page ==>
      OldPte(MapIn(s, page, frame, write, ring3, t), q) == OldPte(s, q)
  {
    TableReady(s, page, ring3, t);
    var s2 := Ready(s, page, ring3, t);
    PokeSetsOne(s2, page, Mapped(s2.mem[Window(s2)][Slot(page)], frame, write, ring3));
  }

  /** Mapping a page keeps the whole entry of every other mapped page. */
  lemma MapKeepsEntries(s: Space, page: nat, frame: nat, write: bool, ring3: bool, t: nat)
    requires Shape(s) && page < PAGES && page != WINDOW_PAGE && (NeedsTable(s, page) ==> NoTable(s, t))
    ensures Shape(MapIn(s, page, frame, write, ring3, t))
    ensures forall q :: 0 <= q < PAGES && q != WINDOW_PAGE && q != page && Translate(s, q).Some? ==>
      Pte(MapIn(s, page, frame, write, ring3, t), q) == Pte(s, q)
  {
    TableReady(s, page, ring3, t);
    var s2 := Ready(s, page, ring3, t);
    PokeSetsOne(s2, page, Mapped(s2.mem[Window(s2)][Slot(page)], frame, write, ring3));
  }

  /** The store of an unmap. */
  lemma ClearRefines(s: Space, page: nat)
    requires Shape(s) && page < PAGES && page != WINDOW_PAGE && s.pd[Dir(page)].present
    ensures Shape(ClearIn(s, page)) && ClearIn(s, page).pd == s.pd && ClearIn(s, page).hh == s.hh
    ensures Window(ClearIn(s, page)) == s.pd[Dir(page)].frame
    ensures Pte(ClearIn(s, page), page) == Some(OldPte(s, page).(present := false))
    ensures forall q :: 0 <= q < PAGES && q != WINDOW_PAGE && q != page ==> Pte(ClearIn(s, page), q) == Pte(s, q)
  {
    RetargetKeeps(s, s.pd[Dir(page)].frame);
    var s1 := Retarget(s, s.pd[Dir(page)].frame);
    PokeSetsOne(s1, page, s1.mem[Window(s1)][Slot(page)].(present := false));
    assert Pte(s1, page) == Pte(s, page);
    if Dir(page) != HH_SLOT {
      TablesDiffer(s, Dir(page), HH_SLOT);
    }
  }

  /** A table is empty exactly when none of its pages translates. */
  lemma EmptyIff(s: Space, i: nat)
    requires Shape(s) && i < ENTRIES && s.pd[i].present
    ensures Empty(s.mem[s.pd[i].frame]) <==> forall q :: 0 <= q < PAGES && Dir(q) == i ==> Translate(s, q).None?
  {
    if !Empty(s.mem[s.pd[i].frame]) {
      var j :| 0 <= j < ENTRIES && s.mem[s.pd[i].frame][j].present;
      var q := i * ENTRIES + j;
      assert Dir(q) == i && Slot(q) == j;
      assert Translate(s, q).Some?;
    }
  }

  /**
   * Unmapping a page refines removal from the partial map: that page no longer translates, every other
   * page but the window translates as before, and the table leaves the directory exactly when no page
   * of it is left.
   */
  lemma UnmapRefines(s: Space, page: nat)
    requires Shape(s) && page < PAGES && page != WINDOW_PAGE && s.pd[Dir(page)].present
    ensures Shape(UnmapIn(s, page)) && UnmapIn(s, page).hh == s.hh
    ensures forall q :: 0 <= q < PAGES && q != WINDOW_PAGE ==>
      Translate(UnmapIn(s, page), q) == if q == page then None else Translate(s, q)
    ensures forall i :: 0 <= i < ENTRIES && i != Dir(page) ==> UnmapIn(s, page).pd[i] == s.pd[i]
    ensures UnmapIn(s, page).pd[Dir(page)] == s.pd[Dir(page)].(present := UnmapIn(s, page).pd[Dir(page)].present)
    ensures UnmapIn(s, page).pd[Dir(page)].present ==>
      Pte(UnmapIn(s, page), page) == Some(OldPte(s, page).(present := false))
    ensures Dir(page) != HH_SLOT ==>
      (UnmapIn(s, page).pd[Dir(page)].present
       <==> exists q :: 0 <= q < PAGES && q != page && Dir(q) == Dir(page) && Translate(s, q).Some?)
  {
    var i, c := Dir(page), ClearIn(s, page);
    ClearRefines(s, page);
    EmptyIff(c, i);
    forall q | 0 <= q < PAGES && q != WINDOW_PAGE && q != page
      ensures Translate(c, q) == Translate(s, q)
    {
    }
    if i == HH_SLOT {
      assert c.mem[c.hh][WINDOW_SLOT].present;
    }
    if Empty(c.mem[c.pd[i].frame]) {
      assert Shape(UnmapIn(s, page));
    }
  }

  /** Unmapping a page keeps the whole entry of every other mapped page, and its table's slot. */
  lemma UnmapKeepsEntries(s: Space, page: nat)
    requires Shape(s) && page < PAGES && page != WINDOW_PAGE && s.pd[Dir(page)].present
    ensures Shape(UnmapIn(s, page))
    ensures forall q :: 0 <= q < PAGES && q != WINDOW_PAGE && q != page && Translate(s, q).Some? ==>
      Pte(UnmapIn(s, page), q) == Pte(s, q) && UnmapIn(s, page).pd[Dir(q)] == s.pd[Dir(q)]
  {
    UnmapRefines(s, page);
    ClearRefines(s, page);
    var c, s' := ClearIn(s, page), UnmapIn(s, page);
    forall q | 0 <= q < PAGES && q != WINDOW_PAGE && q != page && Translate(s, q).Some?
      ensures Pte(s', q) == Pte(s, q) && s'.pd[Dir(q)] == s.pd[Dir(q)]
    {
      assert Translate(s', q).Some?;
    }
  }

  // ----- virt_to_phys -----

  /** `virt_to_phys`: moves the window to the page's table if it has one. */
  function Looked(s: Space, page: nat): Space
    requires s.hh in s.mem && page < PAGES
  {
    if s.pd[Dir(page)].present then Retarget(s, s.pd[Dir(page)].frame) else s
  }

  /** Looking a page up leaves the map alone, for every page but the window. */
  lemma LookupKeeps(s: Space, page: nat)
    requires Shape(s) && page < PAGES
    ensures Shape(Looked(s, page)) && Looked(s, page).pd == s.pd && Looked(s, page).hh == s.hh
    ensures forall q :: 0 <= q < PAGES && q != WINDOW_PAGE ==> Pte(Looked(s, page), q) == Pte(s, q)
  {
    if s.pd[Dir(page)].present {
      RetargetKeeps(s, s.pd[Dir(page)].frame);
    }
  }

  /** Pointing the window where it points already changes nothing. */
  lemma RetargetSame(s: Space)
    requires s.hh in s.mem
    ensures Retarget(s, Window(s)) == s
  {
    var t := s.mem[s.hh];
    assert t[WINDOW_SLOT := t[WINDOW_SLOT].(frame := t[WINDOW_SLOT].frame)] == t;
  }

  /** Looking a page up twice is looking it up once. */
  lemma LookedTwice(s: Space, page: nat)
    requires Shape(s) && page < PAGES
    ensures Shape(Looked(s, page)) && Looked(Looked(s, page), page) == Looked(s, page)
  {
    LookupKeeps(s, page);
    if s.pd[Dir(page)].present {
      RetargetKeeps(s, s.pd[Dir(page)].frame);
      RetargetSame(Looked(s, page));
    }
  }

  /** After an unmap the window shows the page's table, so a further look-up changes nothing. */
  lemma LookedAfterUnmap(s: Space, page: nat)
    requires Shape(s) && page < PAGES && page != WINDOW_PAGE && Translate(s, page).Some?
    ensures Shape(UnmapIn(s, page)) && Looked(UnmapIn(s, page), page) == UnmapIn(s, page)
  {
    UnmapRefines(s, page);
    ClearRefines(s, page);
    RetargetSame(UnmapIn(s, page));
  }
}
