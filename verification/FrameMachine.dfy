/**
 * The paging code together with the frame allocator, as one deterministic machine: allocating a page,
 * freeing a page and serving a heap fault, and what every run of them keeps.
 */
module FrameMachine {
  import opened Paging
  import opened Accounts
  import opened Pmm
  import HeapLayout

  datatype Machine = Machine(space: Space, bits: seq<bool>, hint: nat, len: nat)

  ghost function UsedSet(bits: seq<bool>, len: nat): set<nat>
    requires len <= |bits|
  {
    set n: nat | n < len && bits[n]
  }

  /** Number of free blocks in `[from, len)`. */
  function CountFree(bits: seq<bool>, from: nat, len: nat): (n: nat)
    requires len <= |bits|
    decreases len - from
  {
    if from >= len then 0 else (if bits[from] then 0 else 1) + CountFree(bits, from + 1, len)
  }

  lemma {:induction false} CountFreeFinds(bits: seq<bool>, from: nat, len: nat)
    requires len <= |bits|
    ensures CountFree(bits, from, len) > 0 <==> FirstFree(bits, from, len) < len
    decreases len - from
  {
    if from < len {
      CountFreeFinds(bits, from + 1, len);
    }
  }

  lemma {:induction false} CountFreeTake(bits: seq<bool>, from: nat, len: nat, n: nat)
    requires from <= n < len <= |bits| && !bits[n]
    ensures CountFree(bits[n := true], from, len) == CountFree(bits, from, len) - 1
    decreases len - from
  {
    if from < n {
      CountFreeTake(bits, from + 1, len, n);
    } else {
      CountFreeBeyond(bits, from + 1, len, n);
    }
  }

  lemma {:induction false} CountFreeBeyond(bits: seq<bool>, from: nat, len: nat, n: nat)
    requires n < from && n < len <= |bits|
    ensures CountFree(bits[n := true], from, len) == CountFree(bits, from, len)
    decreases len - from
  {
    if from < len {
      CountFreeBeyond(bits, from + 1, len, n);
    }
  }

  /** Free blocks that the allocator can still find. */
  function Room(m: Machine): nat
    requires m.len <= |m.bits|
  {
    CountFree(m.bits, m.hint, m.len)
  }

  /** Takes the next frame. */
  function Took(m: Machine): (r: Machine)
    requires m.len <= |m.bits| && Room(m) > 0
    ensures r.len == m.len <= |r.bits| && r.hint == m.hint && r.space == m.space
  {
    CountFreeFinds(m.bits, m.hint, m.len);
    m.(bits := m.bits[FirstFree(m.bits, m.hint, m.len) := true])
  }

  function NextFrame(m: Machine): nat
    requires m.len <= |m.bits|
  {
    FirstFree(m.bits, m.hint, m.len)
  }

  function Gave(m: Machine, f: nat): Machine
    requires f < m.len <= |m.bits|
  {
    m.(bits := m.bits[f := false], hint := f)
  }

  lemma TookUses(m: Machine)
    requires m.len <= |m.bits| && Room(m) > 0
    ensures NextFrame(m) < m.len && NextFrame(m) !in UsedSet(m.bits, m.len)
    ensures UsedSet(Took(m).bits, m.len) == UsedSet(m.bits, m.len) + {NextFrame(m)}
    ensures Room(Took(m)) == Room(m) - 1
  {
    CountFreeFinds(m.bits, m.hint, m.len);
    CountFreeTake(m.bits, m.hint, m.len, NextFrame(m));
  }

  lemma GaveFrees(m: Machine, f: nat)
    requires f < m.len <= |m.bits|
    ensures UsedSet(Gave(m, f).bits, m.len) == UsedSet(m.bits, m.len) - {f}
  {
  }

  /** The books balance, with `loose` frames allocated but not yet mapped. */
  ghost predicate Inv(m: Machine, reserved: set<nat>, loose: set<nat>) {
    m.len <= |m.bits| && Account(m.space, UsedSet(m.bits, m.len), reserved, loose)
  }

  // ----- vmm_map_page and vmm_unmap_page on the machine -----

  /** Frames that mapping `page` takes for tables. */
  function TableCost(s: Space, page: nat): nat
    requires page < PAGES
  {
    if NeedsTable(s, page) then 1 else 0
  }

  function Map(m: Machine, page: nat, frame: nat, write: bool, ring3: bool): Machine
    requires m.len <= |m.bits| && page < PAGES && m.space.hh in m.space.mem
    requires m.space.pd[Dir(page)].present ==> m.space.pd[Dir(page)].frame in m.space.mem
    requires Room(m) >= TableCost(m.space, page)
  {
    var s := MapIn(m.space, page, frame, write, ring3, NextFrame(m));
    if NeedsTable(m.space, page) then Took(m).(space := s) else m.(space := s)
  }

  lemma MapKeeps(m: Machine, reserved: set<nat>, loose: set<nat>, page: nat, frame: nat, write: bool, ring3: bool)
    requires Inv(m, reserved, loose) && frame in loose && page < PAGES && Dir(page) != HH_SLOT
    requires Translate(m.space, page).None? && Room(m) >= TableCost(m.space, page)
    ensures
      var m' := Map(m, page, frame, write, ring3);
      && Inv(m', reserved, loose - {frame}) && m'.len == m.len && m'.hint == m.hint
      && Room(m') == Room(m) - TableCost(m.space, page)
      && Data(m'.space) == Data(m.space)[page := frame]
      && Tabs(m'.space).Keys == Tabs(m.space).Keys + {Dir(page)}
      && (forall q :: 0 <= q < PAGES && q != WINDOW_PAGE ==>
            Translate(m'.space, q) == if q == page then Some(frame) else Translate(m.space, q))
    ensures
      var s', was := Map(m, page, frame, write, ring3).space, OldPte(m.space, page);
      && Pte(s', page) == Some(Entry(frame, true, was.writable || write, was.user || ring3))
      && s'.pd[Dir(page)].user == (m.space.pd[Dir(page)].user || ring3)
  {
    hide MapIn, Account;
    var used := UsedSet(m.bits, m.len);
    assert Account(m.space, used, reserved, loose);
    AccountShape(m.space, used, reserved, loose);
    if NeedsTable(m.space, page) {
      TookUses(m);
      UnusedHoldsNoTable(m.space, used, reserved, loose, NextFrame(m));
    }
    MapAccounts(m.space, used, reserved, loose, page, frame, write, ring3, NextFrame(m));
    MapRefines(m.space, page, frame, write, ring3, NextFrame(m));
    MapEntry(m.space, page, frame, write, ring3, NextFrame(m));
    MapMaps(m.space, page, frame, write, ring3, NextFrame(m));
  }

  lemma AccountShape(s: Space, used: set<nat>, reserved: set<nat>, loose: set<nat>)
    requires Account(s, used, reserved, loose)
    ensures Shape(s) && 0 in reserved && s.hh in reserved && reserved <= used
    ensures forall q :: q in Data(s) ==> Data(s)[q] in used && Data(s)[q] !in reserved
    ensures forall i :: i in Tabs(s) ==> Tabs(s)[i] in used
  {
    forall q | q in Data(s)
      ensures Data(s)[q] in used && Data(s)[q] !in reserved
    {
      assert Data(s)[q] in Data(s).Values;
    }
    forall i | i in Tabs(s)
      ensures Tabs(s)[i] in used
    {
      assert Tabs(s)[i] in Tabs(s).Values;
    }
  }

  /** `vmm_unmap_page`: an emptied table's frame is given back. */
  function Unmap(m: Machine, page: nat): Machine
    requires m.len <= |m.bits| && page < PAGES && m.space.hh in m.space.mem
    requires m.space.pd[Dir(page)].frame in m.space.mem
  {
    var s, i := UnmapIn(m.space, page), Dir(page);
    if m.space.pd[i].present && !s.pd[i].present && m.space.pd[i].frame < m.len
    then Gave(m, m.space.pd[i].frame).(space := s)
    else m.(space := s)
  }

  // ----- the three operations -----

  /** The page that `valloc_page` maps: the new frame's own page for a null address. */
  function Target(m: Machine, vaddr: nat): nat
    requires m.len <= |m.bits|
  {
    if vaddr == 0 then NextFrame(m) else vaddr / BLOCK_SIZE
  }

  ghost predicate CanAlloc(m: Machine, vaddr: nat) {
    && m.len <= |m.bits| && Shape(m.space)
    && Target(m, vaddr) < PAGES && Dir(Target(m, vaddr)) != HH_SLOT
    && Translate(m.space, Target(m, vaddr)).None?
    && Room(m) >= 1 + TableCost(m.space, Target(m, vaddr))
  }

  /** `valloc_page`. */
  ghost function Valloc(m: Machine, vaddr: nat): Machine
    requires CanAlloc(m, vaddr)
  {
    TookUses(m);
    Map(Took(m), Target(m, vaddr), NextFrame(m), true, false)
  }

  /** `vfree_page`. */
  ghost function Vfree(m: Machine, vaddr: nat): Machine
    requires m.len <= |m.bits| && Shape(m.space) && vaddr / BLOCK_SIZE < PAGES
  {
    var page := vaddr / BLOCK_SIZE;
    LookupKeeps(m.space, page);
    var m1 := m.(space := Looked(m.space, page));
    match Translate(m.space, page)
    case Some(f) => if f != 0 && f < m.len then Unmap(Gave(m1, f), page) else m1
    case None => m1
  }

  lemma VallocKeeps(m: Machine, reserved: set<nat>, vaddr: nat)
    requires Inv(m, reserved, {}) && CanAlloc(m, vaddr)
    ensures
      var m', page := Valloc(m, vaddr), Target(m, vaddr);
      && Inv(m', reserved, {}) && m'.len == m.len && m'.hint == m.hint
      && Data(m'.space) == Data(m.space)[page := NextFrame(m)]
      && Tabs(m'.space).Keys == Tabs(m.space).Keys + {Dir(page)}
      && (forall q :: 0 <= q < PAGES && q != WINDOW_PAGE ==>
            Translate(m'.space, q) == if q == page then Some(NextFrame(m)) else Translate(m.space, q))
      && Pte(m'.space, page) == Some(Entry(NextFrame(m), true, true, OldPte(m.space, page).user))
      && m'.space.pd[Dir(page)].user == m.space.pd[Dir(page)].user
  {
    hide Map, Account;
    TookUses(m);
    TookLoose(m, reserved);
    MapKeeps(Took(m), reserved, {NextFrame(m)}, Target(m, vaddr), NextFrame(m), true, false);
    assert {NextFrame(m)} - {NextFrame(m)} == {};
  }

  lemma TookLoose(m: Machine, reserved: set<nat>)
    requires Inv(m, reserved, {}) && Room(m) > 0
    ensures Inv(Took(m), reserved, {NextFrame(m)})
  {
    TookUses(m);
  }

  /** The part of `vfree_page` behind the look-up, for a mapped page. */
  lemma ReleaseKeeps(m: Machine, reserved: set<nat>, page: nat)
    requires Inv(m, reserved, {}) && page in Data(m.space)
    ensures Shape(m.space) && 0 < Data(m.space)[page] < m.len && m.space.pd[Dir(page)].frame in m.space.mem
    ensures
      var m', used := Unmap(Gave(m, Data(m.space)[page]), page), UsedSet(m.bits, m.len) - {Data(m.space)[page]};
      && Inv(m', reserved, {}) && m'.len == m.len
      && Data(m'.space) == Data(m.space) - {page}
      && (forall q :: 0 <= q < PAGES && q != WINDOW_PAGE ==>
            Translate(m'.space, q) == if q == page then None else Translate(m.space, q))
      && UsedSet(m'.bits, m'.len) == if Last(m.space, page) then used - {m.space.pd[Dir(page)].frame} else used
  {
    hide UnmapIn, Account;
    var used := UsedSet(m.bits, m.len);
    AccountShape(m.space, used, reserved, {});
    var f := Data(m.space)[page];
    assert f in used;
    UnmapAccounts(m.space, used, reserved, {}, page);
    UnmapRefines(m.space, page);
    UnmapMaps(m.space, page);
    GaveFrees(m, f);
    if Last(m.space, page) {
      assert Tabs(m.space)[Dir(page)] in used;
      GaveFrees(Gave(m, f), m.space.pd[Dir(page)].frame);
    }
  }

  /** Freeing a page removes it from the map and gives back its frame and, if emptied, its table. */
  lemma VfreeKeeps(m: Machine, reserved: set<nat>, vaddr: nat)
    requires Inv(m, reserved, {}) && vaddr / BLOCK_SIZE < PAGES && Dir(vaddr / BLOCK_SIZE) != HH_SLOT
    ensures
      var m', page := Vfree(m, vaddr), vaddr / BLOCK_SIZE;
      && Inv(m', reserved, {}) && m'.len == m.len
      && Data(m'.space) == Data(m.space) - {page}
      && (forall q :: 0 <= q < PAGES && q != WINDOW_PAGE ==>
            Translate(m'.space, q) == if q == page then None else Translate(m.space, q))
      && UsedSet(m'.bits, m'.len) ==
           if page !in Data(m.space) then UsedSet(m.bits, m.len)
           else if Last(m.space, page) then
             UsedSet(m.bits, m.len) - {Data(m.space)[page]} - {m.space.pd[Dir(page)].frame}
           else UsedSet(m.bits, m.len) - {Data(m.space)[page]}
  {
    hide Unmap, Account, Looked, UsedSet;
    var page, used := vaddr / BLOCK_SIZE, UsedSet(m.bits, m.len);
    AccountShape(m.space, used, reserved, {});
    LookupKeeps(m.space, page);
    LookupAccounts(m.space, used, reserved, {}, page);
    if page in Data(m.space) {
      var m1 := m.(space := Looked(m.space, page));
      assert Last(m1.space, page) == Last(m.space, page);
      ReleaseKeeps(m1, reserved, page);
    }
  }

  /** Freeing a page a second time changes nothing. */
  lemma VfreeTwice(m: Machine, reserved: set<nat>, vaddr: nat)
    requires Inv(m, reserved, {}) && vaddr / BLOCK_SIZE < PAGES && Dir(vaddr / BLOCK_SIZE) != HH_SLOT
    ensures Inv(Vfree(m, vaddr), reserved, {}) && Vfree(Vfree(m, vaddr), vaddr) == Vfree(m, vaddr)
  {
    hide Account, UnmapIn, Looked;
    var page := vaddr / BLOCK_SIZE;
    VfreeKeeps(m, reserved, vaddr);
    InvShape(m, reserved);
    InvShape(Vfree(m, vaddr), reserved);
    LookupKeeps(m.space, page);
    LookedTwice(m.space, page);
    if Translate(m.space, page).Some? {
      LookedAfterUnmap(Looked(m.space, page), page);
    }
  }

  // ----- allocating and freeing again -----

  /** After an allocation the page is alone in its table exactly when the table is new. */
  lemma AloneIffNew(m: Machine, reserved: set<nat>, vaddr: nat)
    requires Inv(m, reserved, {}) && CanAlloc(m, vaddr)
    ensures Inv(Valloc(m, vaddr), reserved, {}) && Target(m, vaddr) in Data(Valloc(m, vaddr).space)
    ensures Last(Valloc(m, vaddr).space, Target(m, vaddr)) <==> NeedsTable(m.space, Target(m, vaddr))
  {
    hide Valloc, Inv, Shape;
    VallocKeeps(m, reserved, vaddr);
    InvShape(m, reserved);
    InvShape(Valloc(m, vaddr), reserved);
    var page, s, s' := Target(m, vaddr), m.space, Valloc(m, vaddr).space;
    if !NeedsTable(s, page) {
      TableInUse(m, reserved, Dir(page));
      var q :| q in Data(s) && Dir(q) == Dir(page);
      assert q in Data(s') && q != page;
    } else {
      forall q | q in Data(s') && q != page
        ensures Dir(q) != Dir(page)
      {
        DataHasTable(m, reserved, q);
      }
    }
  }

  lemma TableInUse(m: Machine, reserved: set<nat>, i: nat)
    requires Inv(m, reserved, {}) && i < ENTRIES && i != HH_SLOT && m.space.pd[i].present
    ensures Shape(m.space) && exists q :: q in Data(m.space) && Dir(q) == i
  {
    assert i in Tabs(m.space);
  }

  lemma DataHasTable(m: Machine, reserved: set<nat>, q: nat)
    requires Inv(m, reserved, {})
    ensures Shape(m.space)
    ensures q in Data(m.space) ==> q < PAGES && m.space.pd[Dir(q)].present
  {
  }

  lemma VallocBits(m: Machine, vaddr: nat)
    requires CanAlloc(m, vaddr)
    ensures
      var m1, page := Took(m), Target(m, vaddr);
      Room(m1) == Room(m) - 1 && NextFrame(m) < m.len && !m.bits[NextFrame(m)] &&
      if NeedsTable(m.space, page) then
        NextFrame(m1) < m.len && !m1.bits[NextFrame(m1)]
        && Valloc(m, vaddr).bits == m.bits[NextFrame(m) := true][NextFrame(m1) := true]
        && Valloc(m, vaddr).space.pd[Dir(page)].frame == NextFrame(m1)
      else Valloc(m, vaddr).bits == m.bits[NextFrame(m) := true]
  {
    TookUses(m);
    if NeedsTable(m.space, Target(m, vaddr)) {
      TookUses(Took(m));
    }
  }

  /** What freeing does to the bitmap, bit by bit. */
  lemma VfreeBits(m: Machine, reserved: set<nat>, vaddr: nat)
    requires Inv(m, reserved, {}) && vaddr / BLOCK_SIZE in Data(m.space)
    ensures
      var page := vaddr / BLOCK_SIZE;
      var f, t := Data(m.space)[page], m.space.pd[Dir(page)].frame;
      f < m.len && t < m.len &&
      Vfree(m, vaddr).bits == if Last(m.space, page) then m.bits[f := false][t := false] else m.bits[f := false]
  {
    hide UnmapIn, Account, Looked;
    var page, used := vaddr / BLOCK_SIZE, UsedSet(m.bits, m.len);
    assert Account(m.space, used, reserved, {});
    AccountShape(m.space, used, reserved, {});
    LookupKeeps(m.space, page);
    LookupAccounts(m.space, used, reserved, {}, page);
    var s1 := Looked(m.space, page);
    assert Data(m.space)[page] in used;
    UnmapAccounts(s1, used, reserved, {}, page);
    UnmapMaps(s1, page);
    assert Last(s1, page) == Last(m.space, page);
    assert Tabs(m.space)[Dir(page)] in used;
  }

  /**
   * Allocating a page and freeing the address answered, or any other one in that page, restores the
   * bitmap and every translation exactly.
   */
  lemma AllocFreeRestores(m: Machine, reserved: set<nat>, vaddr: nat, at: nat)
    requires Inv(m, reserved, {}) && CanAlloc(m, vaddr) && at / BLOCK_SIZE == Target(m, vaddr)
    ensures Shape(Valloc(m, vaddr).space) && Valloc(m, vaddr).len <= |Valloc(m, vaddr).bits|
    ensures
      var m' := Vfree(Valloc(m, vaddr), at);
      && m'.bits == m.bits && Shape(m'.space)
      && forall q :: 0 <= q < PAGES && q != WINDOW_PAGE ==> Translate(m'.space, q) == Translate(m.space, q)
  {
    hide Valloc, Vfree, Inv, Shape;
    var m1 := Valloc(m, vaddr);
    InvShape(m, reserved);
    VallocKeeps(m, reserved, vaddr);
    VfreeKeeps(m1, reserved, at);
    InvShape(m1, reserved);
    InvShape(Vfree(m1, at), reserved);
    AllocFreeBits(m, reserved, vaddr, at);
  }

  lemma AllocFreeBits(m: Machine, reserved: set<nat>, vaddr: nat, at: nat)
    requires Inv(m, reserved, {}) && CanAlloc(m, vaddr) && at / BLOCK_SIZE == Target(m, vaddr)
    ensures Shape(Valloc(m, vaddr).space) && Valloc(m, vaddr).len <= |Valloc(m, vaddr).bits|
    ensures Vfree(Valloc(m, vaddr), at).bits == m.bits
  {
    hide Valloc, Vfree, Inv, Shape, Last, Translate;
    var m1 := Valloc(m, vaddr);
    VallocKeeps(m, reserved, vaddr);
    AloneIffNew(m, reserved, vaddr);
    VallocBits(m, vaddr);
    InvShape(m1, reserved);
    VfreeBits(m1, reserved, at);
  }

  lemma InvShape(m: Machine, reserved: set<nat>)
    requires Inv(m, reserved, {})
    ensures Shape(m.space) && m.len <= |m.bits|
  {
  }

  // ----- runs -----


  datatype Op = Alloc(vaddr: nat) | Free(vaddr: nat) | HeapFault(addr: nat)

  /** Allocations on unmapped pages with frames at hand, outside the static higher-half table. */
  ghost predicate Enabled(m: Machine, op: Op) {
    match op
    case Alloc(v) => CanAlloc(m, v)
    case Free(v) => m.len <= |m.bits| && Shape(m.space) && v / BLOCK_SIZE < PAGES && Dir(v / BLOCK_SIZE) != HH_SLOT
    case HeapFault(a) => HeapLayout.HEAP_START <= a < HeapLayout.HEAP_END && CanAlloc(m, a)
  }

  ghost function Step(m: Machine, op: Op): Machine
    requires Enabled(m, op)
  {
    match op
    case Alloc(v) => Valloc(m, v)
    case Free(v) => Vfree(m, v)
    case HeapFault(a) => Valloc(m, a)
  }

  ghost predicate Runnable(m: Machine, ops: seq<Op>)
    decreases |ops|
  {
    ops == [] || (Enabled(m, ops[0]) && Runnable(Step(m, ops[0]), ops[1..]))
  }

  ghost function Run(m: Machine, ops: seq<Op>): Machine
    requires Runnable(m, ops)
    decreases |ops|
  {
    if ops == [] then m else Run(Step(m, ops[0]), ops[1..])
  }

  /**
   * Over every run the books balance: no frame is referenced twice, every referenced frame is marked
   * used, no used frame is lost, and no present directory slot points at an empty table.
   */
  lemma {:induction false} RunKeeps(m: Machine, reserved: set<nat>, ops: seq<Op>)
    requires Inv(m, reserved, {}) && Runnable(m, ops)
    ensures Inv(Run(m, ops), reserved, {})
    decreases |ops|
  {
    hide Inv, Valloc, Vfree, CanAlloc;
    if ops != [] {
      match ops[0] {
        case Alloc(v) => VallocKeeps(m, reserved, v);
        case Free(v) => VfreeKeeps(m, reserved, v);
        case HeapFault(a) => VallocKeeps(m, reserved, a);
      }
      RunKeeps(Step(m, ops[0]), reserved, ops[1..]);
    }
  }

  /** What the invariant promises of any two present entries and of the bitmap. */
  lemma NoFrameShared(m: Machine, reserved: set<nat>, p: nat, q: nat)
    requires Inv(m, reserved, {}) && p < PAGES && q < PAGES && p != q
    requires Dir(p) != HH_SLOT && Dir(q) != HH_SLOT && Translate(m.space, p).Some? && Translate(m.space, q).Some?
    ensures Translate(m.space, p) != Translate(m.space, q)
    ensures Translate(m.space, p).value < m.len && m.bits[Translate(m.space, p).value]
    ensures forall i :: 0 <= i < ENTRIES && i != HH_SLOT && m.space.pd[i].present ==>
      m.space.pd[i].frame != Translate(m.space, p).value && m.space.pd[i].frame < m.len && m.bits[m.space.pd[i].frame]
  {
    AccountShape(m.space, UsedSet(m.bits, m.len), reserved, {});
    assert p in Data(m.space) && q in Data(m.space);
    assert Data(m.space)[p] in Data(m.space).Values;
    forall i | 0 <= i < ENTRIES && i != HH_SLOT && m.space.pd[i].present
      ensures m.space.pd[i].frame != Translate(m.space, p).value
      ensures m.space.pd[i].frame < m.len && m.bits[m.space.pd[i].frame]
    {
      assert Tabs(m.space)[i] in Tabs(m.space).Values;
    }
  }
}
