/**
 * Who owns which frame: every used frame of the bitmap is reserved for the kernel, or referenced by
 * exactly one present entry, or just allocated and not yet referenced.
 */
module Accounts {
  import opened Paging

  ghost predicate Injective(m: map<nat, nat>) {
    forall a, b :: a in m && b in m && a != b ==> m[a] != m[b]
  }

  lemma ValuesAdd(m: map<nat, nat>, k: nat, v: nat)
    requires k !in m
    ensures m[k := v].Values == m.Values + {v}
  {
    var m' := m[k := v];
    assert m'[k] == v;
    forall x | x in m.Values
      ensures x in m'.Values
    {
      var a :| a in m && m[a] == x;
      assert m'[a] == x;
    }
  }

  lemma ValuesDrop(m: map<nat, nat>, k: nat)
    requires k in m && Injective(m)
    ensures (m - {k}).Values == m.Values - {m[k]} && Injective(m - {k})
  {
    var m' := m - {k};
    forall x | x in m.Values && x != m[k]
      ensures x in m'.Values
    {
      var a :| a in m && m[a] == x;
      assert m'[a] == x;
    }
  }

  /** Data frames: what the pages outside the static higher-half table translate to. */
  ghost function Data(s: Space): map<nat, nat>
    requires Shape(s)
  {
    map q: nat | q < PAGES && Dir(q) != HH_SLOT && Translate(s, q).Some? :: Translate(s, q).value
  }

  /** Table frames of the present directory slots, the static one left out. */
  ghost function Tabs(s: Space): map<nat, nat>
    requires Shape(s)
  {
    map i: nat | i < ENTRIES && i != HH_SLOT && s.pd[i].present :: s.pd[i].frame
  }

  ghost predicate NoEmptyTable(s: Space)
    requires Shape(s)
  {
    forall i :: i in Tabs(s) ==> exists q :: q in Data(s) && Dir(q) == i
  }

  /** The frames' books balance. */
  ghost predicate Balanced(used: set<nat>, reserved: set<nat>, loose: set<nat>, data: map<nat, nat>,
                           tabs: map<nat, nat>)
  {
    && Injective(data) && Injective(tabs)
    && reserved !! loose !! data.Values !! tabs.Values
    && used == reserved + loose + data.Values + tabs.Values
  }

  ghost predicate Account(s: Space, used: set<nat>, reserved: set<nat>, loose: set<nat>) {
    && Shape(s) && s.hh in reserved && 0 in reserved
    && NoEmptyTable(s)
    && Balanced(used, reserved, loose, Data(s), Tabs(s))
  }

  lemma BalancedMap(used: set<nat>, reserved: set<nat>, loose: set<nat>, data: map<nat, nat>, tabs: map<nat, nat>,
                    q: nat, f: nat)
    requires Balanced(used, reserved, loose, data, tabs) && q !in data && f in loose
    ensures Balanced(used, reserved, loose - {f}, data[q := f], tabs)
  {
    ValuesAdd(data, q, f);
    forall a | a in data
      ensures data[a] != f
    {
      assert data[a] in data.Values;
    }
  }

  lemma BalancedTable(used: set<nat>, reserved: set<nat>, loose: set<nat>, data: map<nat, nat>, tabs: map<nat, nat>,
                      i: nat, t: nat)
    requires Balanced(used, reserved, loose, data, tabs) && i !in tabs && t !in used
    ensures Balanced(used + {t}, reserved, loose, data, tabs[i := t])
  {
    ValuesAdd(tabs, i, t);
    forall a | a in tabs
      ensures tabs[a] != t
    {
      assert tabs[a] in tabs.Values;
    }
  }

  lemma BalancedUnmap(used: set<nat>, reserved: set<nat>, loose: set<nat>, data: map<nat, nat>, tabs: map<nat, nat>,
                      q: nat)
    requires Balanced(used, reserved, loose, data, tabs) && q in data
    ensures Balanced(used - {data[q]}, reserved, loose, data - {q}, tabs)
  {
    ValuesDrop(data, q);
    assert data[q] in data.Values;
  }

  lemma BalancedDropTable(used: set<nat>, reserved: set<nat>, loose: set<nat>, data: map<nat, nat>, tabs: map<nat, nat>,
                          i: nat)
    requires Balanced(used, reserved, loose, data, tabs) && i in tabs
    ensures Balanced(used - {tabs[i]}, reserved, loose, data, tabs - {i})
  {
    ValuesDrop(tabs, i);
    assert tabs[i] in tabs.Values;
  }

  // ----- mapping and unmapping in the books -----

  /** A frame that is not in use holds no table. */
  lemma UnusedHoldsNoTable(s: Space, used: set<nat>, reserved: set<nat>, loose: set<nat>, t: nat)
    requires Account(s, used, reserved, loose) && t !in used
    ensures NoTable(s, t)
  {
    forall i | 0 <= i < ENTRIES && s.pd[i].present
      ensures s.pd[i].frame != t
    {
      if i != HH_SLOT {
        assert Tabs(s)[i] in Tabs(s).Values;
      }
    }
  }

  lemma MapMaps(s: Space, page: nat, frame: nat, write: bool, ring3: bool, t: nat)
    requires Shape(s) && page < PAGES && Dir(page) != HH_SLOT && (NeedsTable(s, page) ==> NoTable(s, t))
    ensures Shape(MapIn(s, page, frame, write, ring3, t))
    ensures Data(MapIn(s, page, frame, write, ring3, t)) == Data(s)[page := frame]
    ensures Tabs(MapIn(s, page, frame, write, ring3, t)) ==
      if NeedsTable(s, page) then Tabs(s)[Dir(page) := t] else Tabs(s)
  {
    hide MapIn;
    MapRefines(s, page, frame, write, ring3, t);
  }

  /** Mapping a page to a loose frame keeps the books; a new table must come from an unused frame. */
  lemma MapAccounts(s: Space, used: set<nat>, reserved: set<nat>, loose: set<nat>,
                    page: nat, frame: nat, write: bool, ring3: bool, t: nat)
    requires Account(s, used, reserved, loose) && frame in loose
    requires page < PAGES && Dir(page) != HH_SLOT && Translate(s, page).None?
    requires NeedsTable(s, page) ==> t !in used
    ensures Account(MapIn(s, page, frame, write, ring3, t),
                    if NeedsTable(s, page) then used + {t} else used, reserved, loose - {frame})
  {
    hide MapIn, Balanced;
    var s' := MapIn(s, page, frame, write, ring3, t);
    if NeedsTable(s, page) {
      UnusedHoldsNoTable(s, used, reserved, loose, t);
    }
    MapRefines(s, page, frame, write, ring3, t);
    MapMaps(s, page, frame, write, ring3, t);
    assert page !in Data(s);
    BalancedMap(used, reserved, loose, Data(s), Tabs(s), page, frame);
    if NeedsTable(s, page) {
      BalancedTable(used, reserved, loose - {frame}, Data(s'), Tabs(s), Dir(page), t);
    }
    forall i | i in Tabs(s')
      ensures exists q :: q in Data(s') && Dir(q) == i
    {
      if i == Dir(page) {
        assert page in Data(s');
      } else {
        assert i in Tabs(s);
        var q :| q in Data(s) && Dir(q) == i;
        assert q in Data(s');
      }
    }
  }

  /** Whether unmapping `page` empties its table. */
  ghost predicate Last(s: Space, page: nat)
    requires Shape(s) && page < PAGES
  {
    forall q :: q in Data(s) && q != page ==> Dir(q) != Dir(page)
  }

  lemma UnmapData(s: Space, page: nat)
    requires Shape(s) && page in Data(s)
    ensures Shape(UnmapIn(s, page)) && Data(UnmapIn(s, page)) == Data(s) - {page}
  {
    hide UnmapIn, Shape;
    UnmapRefines(s, page);
  }

  lemma UnmapTabs(s: Space, page: nat)
    requires Shape(s) && page in Data(s)
    ensures Shape(UnmapIn(s, page))
    ensures UnmapIn(s, page).pd[Dir(page)].present <==> !Last(s, page)
    ensures Tabs(UnmapIn(s, page)) == if Last(s, page) then Tabs(s) - {Dir(page)} else Tabs(s)
  {
    hide UnmapIn, Shape, Tabs;
    UnmapRefines(s, page);
    if exists q :: 0 <= q < PAGES && q != page && Dir(q) == Dir(page) && Translate(s, q).Some? {
      var q :| 0 <= q < PAGES && q != page && Dir(q) == Dir(page) && Translate(s, q).Some?;
      assert q in Data(s);
    }
    PresentHere(s, page);
    TabsWithout(s, UnmapIn(s, page), Dir(page));
  }

  lemma TabsWithout(s: Space, s': Space, i: nat)
    requires Shape(s) && Shape(s') && i < ENTRIES && s.pd[i].present && s'.pd[i].frame == s.pd[i].frame
    requires i != HH_SLOT && forall j :: 0 <= j < ENTRIES && j != i ==> s'.pd[j] == s.pd[j]
    ensures Tabs(s') == if s'.pd[i].present then Tabs(s) else Tabs(s) - {i}
  {
    hide Shape;
  }

  lemma PresentHere(s: Space, page: nat)
    requires Shape(s) && page in Data(s)
    ensures s.pd[Dir(page)].present && s.hh in s.mem && s.pd[Dir(page)].frame in s.mem
    ensures Dir(page) != HH_SLOT
  {
  }

  lemma UnmapMaps(s: Space, page: nat)
    requires Shape(s) && page in Data(s)
    ensures Shape(UnmapIn(s, page)) && Data(UnmapIn(s, page)) == Data(s) - {page}
    ensures UnmapIn(s, page).pd[Dir(page)].present <==> !Last(s, page)
    ensures Tabs(UnmapIn(s, page)) == if Last(s, page) then Tabs(s) - {Dir(page)} else Tabs(s)
  {
    hide UnmapIn, Shape;
    UnmapData(s, page);
    UnmapTabs(s, page);
  }

  /** Unmapping a page keeps the books once its frame, and its table if emptied, are given back. */
  lemma UnmapAccounts(s: Space, used: set<nat>, reserved: set<nat>, loose: set<nat>, page: nat)
    requires Account(s, used, reserved, loose) && page in Data(s)
    ensures Dir(page) in Tabs(s)
    ensures Account(UnmapIn(s, page),
                    if Last(s, page) then used - {Data(s)[page]} - {Tabs(s)[Dir(page)]} else used - {Data(s)[page]},
                    reserved, loose)
  {
    hide UnmapIn, Balanced;
    var s', used' := UnmapIn(s, page), used - {Data(s)[page]};
    UnmapRefines(s, page);
    UnmapMaps(s, page);
    BalancedUnmap(used, reserved, loose, Data(s), Tabs(s), page);
    if Last(s, page) {
      BalancedDropTable(used', reserved, loose, Data(s'), Tabs(s), Dir(page));
    }
    forall i | i in Tabs(s')
      ensures exists q :: q in Data(s') && Dir(q) == i
    {
      var q :| q in Data(s) && Dir(q) == i && (i == Dir(page) ==> q != page);
      assert q in Data(s');
    }
  }

  /** Moving the window keeps the books. */
  lemma LookupAccounts(s: Space, used: set<nat>, reserved: set<nat>, loose: set<nat>, page: nat)
    requires Account(s, used, reserved, loose) && page < PAGES
    ensures Account(Looked(s, page), used, reserved, loose)
    ensures Data(Looked(s, page)) == Data(s) && Tabs(Looked(s, page)) == Tabs(s)
  {
    hide Looked;
    LookupKeeps(s, page);
    assert Data(Looked(s, page)) == Data(s);
    assert Tabs(Looked(s, page)) == Tabs(s);
  }
}
