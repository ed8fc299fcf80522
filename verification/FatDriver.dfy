/**
 * The driver's operations on a mounted FAT12 or FAT16 volume, over the storage layer: entries,
 * chains and files. Each is proved against the abstract table, chains and file contents.
 */
module FatDriver {
  import opened Bytes
  import opened FatTable
  import opened FatChain
  import opened FatEntries
  import opened FatFiles
  import opened FatImages
  import Sal

  /** The end mark the driver stores, 0xFFFFFFFF, cut to the width of an entry. */
  function Mark(k: SmallFat): (m: nat)
    ensures EocMin(k) <= m && m == if k.Fat12? then 0xFFF else 0xFFFF
  {
    0xFFFF_FFFF % Cap(k)
  }

  class Driver {
    const v: Volume
    const storage: Sal.Storage
    /** The chains that live on the volume: one for every file or directory. */
    ghost var chains: seq<seq<nat>>

    constructor (v: Volume, storage: Sal.Storage, ghost chains: seq<seq<nat>>)
      requires storage.Valid() && storage.device.sectorSize == v.sectorSize
      requires WellFormed(v, |storage.Disk()|)
      requires Readable(v, storage.Disk()) && Inv(Fs(TableOf(v, storage.Disk()), chains), EocMin(v.tables.kind))
      ensures Valid() && this.v == v && this.storage == storage && this.chains == chains
    {
      this.v, this.storage, this.chains := v, storage, chains;
    }

    ghost predicate Valid()
      reads this, storage.device
    {
      && storage.Valid() && storage.device.sectorSize == v.sectorSize
      && WellFormed(v, |Disk()|)
      && Readable(v, Disk())
      && Inv(State(), EocMin(v.tables.kind))
    }

    function Disk(): (d: seq<byte>)
      reads storage.device
    {
      storage.Disk()
    }

    /** The volume as the abstract file system sees it. */
    ghost function State(): Fs
      reads this, storage.device
      requires Readable(v, Disk())
    {
      Fs(TableOf(v, Disk()), chains)
    }

    lemma LaidOut()
      requires Valid()
      ensures Mounted() && Attached() && 0 < v.tables.numFat && v.entries <= EocMin(v.tables.kind)
    {
    }

    /** Storage validity and layout alone: what holds in the middle of a chain update. */
    ghost predicate Mounted()
      reads storage.device
    {
      && storage.Valid() && storage.device.sectorSize == v.sectorSize
      && WellFormed(v, |Disk()|) && Readable(v, Disk())
    }

    /** What reading or storing a single entry takes of the device. */
    ghost predicate Attached()
      reads storage.device
    {
      storage.Valid() && storage.device.sectorSize == v.sectorSize
    }

    /** The byte that a straddling read delivers in place of its second one. */
    ghost function Stale(): byte
      requires storage.readTemp.Length == Sal.TEMP_SIZE
      reads storage.readTemp
    {
      StaleIn(storage.readTemp[..], v.sectorSize)
    }

    /** The place of an entry in copy `i` of the table. */
    function EntryPos(i: nat, c: nat): nat {
      CopyBase(v.tables, i) + EntryOff(v.tables.kind, c)
    }

    /** An entry's two bytes are on the disk, and an access to them stays inside the bounce buffer. */
    ghost predicate EntryReachable(i: nat, c: nat)
      requires Attached()
      reads storage.device
    {
      EntryPos(i, c) + 2 <= |Disk()| && EntrySafe(i, c)
    }

    predicate EntrySafe(i: nat, c: nat)
      requires 0 < v.sectorSize
    {
      Sal.BufferSafe(v.sectorSize, EntryPos(i, c) % v.sectorSize, 2)
    }

    // ----- entries -----

    /** `FAT_get_entry`. */
    method GetEntry(i: nat, c: nat) returns (e: nat)
      requires Attached() && EntryReachable(i, c)
      modifies storage.readTemp
      ensures Attached() && Stale() == old(Stale())
      ensures e == SeenEntry(v.tables.kind, Disk(), v.sectorSize, EntryPos(i, c), c, Stale())
      ensures EntryPos(i, c) == PlaceOf(i, c)
      ensures EntryExact(v, i, c) ==>
        var lo, hi := Disk()[EntryPos(i, c)] as int, Disk()[EntryPos(i, c) + 1] as int;
        e == if v.tables.kind.Fat16? then lo + 256 * hi
             else if c % 2 == 0 then lo + 256 * (hi % 16)
             else lo / 16 + 16 * hi
    {
      PlaceIs(i, c);
      DecodeBytes(v.tables.kind, c, Disk()[EntryPos(i, c)], Disk()[EntryPos(i, c) + 1]);
      var entry := ReadWord(EntryPos(i, c));
      if v.tables.kind.Fat12? {
        e := if c % 2 == 1 then entry / 16 else entry % 0x1000;
      } else {
        e := entry;
      }
    }

    /** Where the format puts an entry. */
    function PlaceOf(i: nat, c: nat): nat {
      v.tables.fatStart + i * v.tables.fatBytes + if v.tables.kind.Fat16? then 2 * c else 3 * c / 2
    }

    lemma PlaceIs(i: nat, c: nat)
      ensures EntryPos(i, c) == PlaceOf(i, c)
    {
      TimesIsProduct(i, v.tables.fatBytes);
    }

    lemma EntryOnDisk(i: nat, c: nat)
      requires Mounted() && i < v.tables.numFat && c < v.entries
      ensures EntryPos(i, c) + 2 <= TablesEnd(v.tables) <= |Disk()|
      ensures EntryExact(v, i, c) && Attached() && EntryReachable(i, c)
    {
      CopyInTables(v.tables, i);
      InsideAll(v, |Disk()|, c);
    }

    /** The entry of one of the volume's clusters: an element of the table. */
    method GetNext(c: nat) returns (e: nat)
      requires Mounted() && c < v.entries
      modifies storage.readTemp
      ensures Mounted() && Stale() == old(Stale()) && e == TableOf(v, Disk())[c]
    {
      EntryOnDisk(0, c);
      SeenInTable(v, Disk(), Stale(), c);
      e := GetEntry(0, c);
    }

    method ReadWord(offset: nat) returns (w: nat)
      requires Attached() && offset + 2 <= |Disk()| && Sal.BufferSafe(v.sectorSize, offset % v.sectorSize, 2)
      modifies storage.readTemp
      ensures Attached() && Stale() == old(Stale())
      ensures w == SeenWord(Disk(), v.sectorSize, offset, Stale())
    {
      hide Sal.Fetched, SeenWord;
      ghost var temp := storage.readTemp[..];
      SeenIs(Disk(), v.sectorSize, offset, temp);
      var got := storage.Read(offset, [0, 0]);
      StaleSame(temp, storage.readTemp[..], v.sectorSize);
      w := got[0] as int + 256 * (got[1] as int);
    }

    method WriteWord(offset: nat, w: nat)
      requires Attached() && offset + 2 <= |Disk()| && w < 0x10000
      requires Sal.BufferSafe(v.sectorSize, offset % v.sectorSize, 2)
      modifies storage.device, storage.writeTemp
      ensures Attached()
      ensures Disk() == Splice(old(Disk()), offset,
        Sal.Landed(old(Disk()), v.sectorSize, offset % v.sectorSize, offset, WordBytes(w)))
    {
      storage.Write(offset, WordBytes(w));
    }

    /** `FAT_set_entry`: FAT12 reads first, to keep the nibble of the neighbouring entry. */
    method SetEntry(i: nat, c: nat, data: nat)
      requires Attached() && EntryReachable(i, c)
      modifies storage.device, storage.readTemp, storage.writeTemp
      ensures Attached() && Stale() == old(Stale())
      ensures Disk() == StoredEntry(v.tables.kind, old(Disk()), v.sectorSize, EntryPos(i, c), c, Stale(), data)
      ensures EntryPos(i, c) == PlaceOf(i, c)
      ensures EntryExact(v, i, c) ==>
        var k, d, d', p := v.tables.kind, old(Disk()), Disk(), EntryPos(i, c);
        && (forall j :: 0 <= j < |d| && j != p && j != p + 1 ==> d'[j] == d[j])
        && d'[p] == (if k.Fat12? && c % 2 == 1 then d[p] % 16 + 16 * (data % 16) else data % 256)
        && d'[p + 1] ==
             if k.Fat16? then data / 256 % 256
             else if c % 2 == 0 then data / 256 % 16 + 16 * (d[p + 1] / 16)
             else data / 16 % 256
    {
      hide SeenWord, StoredEntry, EntryExact, Sal.Landed, Splice;
      PlaceIs(i, c);
      StoredIs(i, c, data);
      if EntryExact(v, i, c) {
        ExactBytes(i, c, data);
      }
      var w := data % 0x10000;
      if v.tables.kind.Fat12? {
        var entry := ReadWord(EntryPos(i, c));
        if c % 2 == 1 {
          w := (data * 16 + entry % 16) % 0x10000;
        } else {
          w := data % 0x1000 + entry / 0x1000 * 0x1000;
        }
      }
      WriteWord(EntryPos(i, c), w);
    }

    lemma StoredIs(i: nat, c: nat, data: nat)
      requires Attached() && EntryReachable(i, c)
      ensures
        var p, ss, d := EntryPos(i, c), v.sectorSize, Disk();
        var w := Patch(v.tables.kind, c, SeenWord(d, ss, p, Stale()), data);
        StoredEntry(v.tables.kind, d, ss, p, c, Stale(), data)
        == Splice(d, p, Sal.Landed(d, ss, p % ss, p, WordBytes(w)))
    {
    }

    lemma ExactBytes(i: nat, c: nat, data: nat)
      requires Attached() && EntryReachable(i, c) && EntryExact(v, i, c)
      ensures
        var k, d, p := v.tables.kind, Disk(), EntryPos(i, c);
        var d' := StoredEntry(k, d, v.sectorSize, p, c, Stale(), data);
        && (forall j :: 0 <= j < |d| && j != p && j != p + 1 ==> d'[j] == d[j])
        && d'[p] == (if k.Fat12? && c % 2 == 1 then d[p] % 16 + 16 * (data % 16) else data % 256)
        && d'[p + 1] ==
             if k.Fat16? then data / 256 % 256
             else if c % 2 == 0 then data / 256 % 16 + 16 * (d[p + 1] / 16)
             else data / 16 % 256
    {
      hide StoredEntry, Put;
      ExactStored(v.tables.kind, Disk(), v.sectorSize, CopyBase(v.tables, i), c, Stale(), data);
      StoreBytes(v.tables.kind, Disk(), CopyBase(v.tables, i), c, data);
    }

    /** `FAT_set_entries`: every copy of the table gets the entry. */
    method SetEntries(c: nat, data: nat)
      requires Attached() && EntriesReachable(c)
      modifies storage.device, storage.readTemp, storage.writeTemp
      ensures Attached() && Stale() == old(Stale())
      ensures Disk() == StoredCopies(v, old(Disk()), v.tables.numFat, c, Stale(), data)
    {
      hide StoredEntry, EntryOff, EntrySafe, StaleIn;
      ghost var disk, stale := Disk(), Stale();
      var i := 0;
      while i < v.tables.numFat
        invariant i <= v.tables.numFat && Attached() && Stale() == stale && |Disk()| == |disk|
        invariant i > 0 ==> EntryPos(i - 1, c) + 2 <= |disk|
        invariant Disk() == StoredCopies(v, disk, i, c, stale, data)
      {
        SlotOnDisk(i, c);
        SetEntry(i, c, data);
        i := i + 1;
      }
    }

    lemma SlotOnDisk(i: nat, c: nat)
      requires i < v.tables.numFat
      ensures EntryPos(i, c) <= EntryPos(v.tables.numFat - 1, c)
    {
      if i < v.tables.numFat - 1 {
        TimesMono(i, v.tables.numFat - 1, v.tables.fatBytes);
      }
    }

    /** The stores for entry `c` stay on the disk and inside the bounce buffer. */
    ghost predicate EntriesReachable(c: nat)
      requires Attached()
      reads storage.device
    {
      && (0 < v.tables.numFat ==> EntryPos(v.tables.numFat - 1, c) + 2 <= |Disk()|)
      && forall i :: 0 <= i < v.tables.numFat ==> EntrySafe(i, c)
    }

    /** The stores for entry `c` stay on the disk and inside single sectors. */
    ghost predicate EntriesWritable(c: nat)
      requires 0 < v.sectorSize && 0 < v.tables.numFat
      reads storage.device
    {
      && TablesEnd(v.tables) <= |Disk()|
      && EntryPos(v.tables.numFat - 1, c) + 2 <= |Disk()|
      && forall i :: 0 <= i < v.tables.numFat ==> EntryExact(v, i, c)
    }

    /** Then they are the packed stores of the table. */
    method SetExactEntries(c: nat, data: nat)
      requires Attached() && 0 < v.tables.numFat && EntriesWritable(c)
      modifies storage.device, storage.readTemp, storage.writeTemp
      ensures Attached() && Disk() == SetCopies(v.tables, old(Disk()), v.tables.numFat, c, data)
    {
      hide StoredCopies, SetCopies;
      forall i | 0 <= i < v.tables.numFat
        ensures EntrySafe(i, c)
      {
        assert EntryExact(v, i, c);
      }
      ExactCopies(v, Disk(), v.tables.numFat, c, Stale(), data);
      SetEntries(c, data);
    }

    /** Sets a cluster's entry: the table changes at `c`, and no byte outside the tables changes. */
    method SetCluster(c: nat, data: nat)
      requires Mounted() && c < v.entries
      modifies storage.device, storage.readTemp, storage.writeTemp
      ensures Mounted() && TablesOnly(v.tables, old(Disk()), Disk())
      ensures TableOf(v, Disk()) == old(TableOf(v, Disk()))[c := data % Cap(v.tables.kind)]
    {
      EntryOnDisk(v.tables.numFat - 1, c);
      forall i | 0 <= i < v.tables.numFat
        ensures EntryExact(v, i, c)
      {
        EntryOnDisk(i, c);
      }
      SetEntriesEffect(v, Disk(), c, data);
      SetExactEntries(c, data);
    }

    // ----- chains -----

    /** `FindFreeCluster`: the least slot within the scan's bound that reads 0, whatever the table holds. */
    method FindFreeCluster() returns (f: nat)
      requires Attached() && ScanReads(v, Disk(), Stale(), 2)
      modifies storage.readTemp
      ensures Attached() && Stale() == old(Stale()) && f == ScanFree(v, Disk(), Stale(), 2)
    {
      var i := 2;
      while i < v.scanBound
        invariant 2 <= i && Attached() && Stale() == old(Stale()) && ScanReads(v, Disk(), Stale(), i)
        invariant ScanFree(v, Disk(), Stale(), 2) == ScanFree(v, Disk(), Stale(), i)
      {
        var entry := GetEntry(0, i);
        if entry == 0 {
          return i;
        }
        i := i + 1;
      }
      f := 0;
    }

    /** The walk of `FAT_allocate_cluster` to the last cluster of a chain. */
    method LastCluster(head: nat, ghost cs: seq<nat>) returns (cluster: nat)
      requires Mounted() && IsChain(TableOf(v, Disk()), EocMin(v.tables.kind), cs) && head == cs[0]
      modifies storage.readTemp
      ensures Mounted() && Stale() == old(Stale()) && cluster == LastOf(cs)
    {
      ghost var table := TableOf(v, Disk());
      cluster := head;
      var next := GetNext(cluster);
      ghost var k := 0;
      while !IsEoc(v.tables.kind, next)
        invariant Mounted() && Stale() == old(Stale()) && TableOf(v, Disk()) == table
        invariant 0 <= k < |cs| && cluster == cs[k] && next == table[cluster]
        decreases |cs| - k
      {
        ChainNext(table, EocMin(v.tables.kind), cs, k);
        cluster := next;
        k := k + 1;
        next := GetNext(next);
      }
      ChainNext(table, EocMin(v.tables.kind), cs, k);
    }

    lemma EntryHoldsCluster(c: nat)
      requires Mounted() && c < v.entries
      ensures c % Cap(v.tables.kind) == c
    {
      DivModUnique(c, Cap(v.tables.kind), 0, c);
    }

    /** The two stores that hang the free cluster `f` behind the cluster `last`. */
    method LinkCluster(last: nat, f: nat)
      requires Mounted() && last < v.entries && f < v.entries
      modifies storage.device, storage.readTemp, storage.writeTemp
      ensures Mounted() && TablesOnly(v.tables, old(Disk()), Disk())
      ensures TableOf(v, Disk()) == Linked(old(TableOf(v, Disk())), last, f, Mark(v.tables.kind))
    {
      hide WellFormed, TableOf, EntryExact;
      EntryHoldsCluster(f);
      SetCluster(last, f);
      SetCluster(f, 0xFFFF_FFFF);
    }

    /**
     * `FAT_allocate_cluster`: the chain grows by exactly the least free cluster. It does not check the
     * search: on a full volume where that answers 0, it links the chain's last cluster to 0.
     */
    method AllocateCluster(head: nat, ghost i: nat)
      requires Valid() && i < |chains| && chains[i] != [] && head == chains[i][0]
      requires FindFree(TableOf(v, Disk()), 2) != 0 || ScanMisses(v, Disk(), Stale())
      modifies this`chains, storage.device, storage.readTemp, storage.writeTemp
      ensures Mounted() && TablesOnly(v.tables, old(Disk()), Disk())
      ensures LastOf(old(chains[i])) < v.entries
      ensures TableOf(v, Disk()) == Linked(old(TableOf(v, Disk())), LastOf(old(chains[i])),
        FindFree(old(TableOf(v, Disk())), 2), Mark(v.tables.kind))
      ensures FindFree(old(TableOf(v, Disk())), 2) == 0 ==> chains == old(chains)
      ensures FindFree(old(TableOf(v, Disk())), 2) != 0 ==>
        && Valid() && Enabled(old(State()), Extend(i))
        && State() == Step(old(State()), Extend(i), Mark(v.tables.kind))
    {
      hide IsChain, WellFormed, TableOf, EntryExact, TablesOnly, ScanReads, Inv, ScanMisses, FindFree;
      LaidOut();
      InvChain(State(), EocMin(v.tables.kind), i);
      ghost var cs, found := chains[i], FindFree(TableOf(v, Disk()), 2);
      if found != 0 {
        ExtendKeeps(State(), EocMin(v.tables.kind), Mark(v.tables.kind), i);
      }
      var cluster := LastCluster(head, cs);
      ScanAnswers(v, Disk(), Stale());
      var free := FindFreeCluster();
      LinkCluster(cluster, free);
      if found != 0 {
        chains := chains[i := cs + [free]];
      }
    }

    /** The first cluster of a new file, as `FAT_create` takes and marks it. */
    method CreateChain() returns (head: nat)
      requires Valid() && FindFree(TableOf(v, Disk()), 2) != 0
      modifies this`chains, storage.device, storage.readTemp, storage.writeTemp
      ensures Valid() && TablesOnly(v.tables, old(Disk()), Disk())
      ensures Enabled(old(State()), Create) && State() == Step(old(State()), Create, Mark(v.tables.kind))
      ensures head == FindFree(old(TableOf(v, Disk())), 2)
      ensures Files() == old(Files()) + [old(Cluster(v, Disk(), FindFree(TableOf(v, Disk()), 2)))]
    {
      hide IsChain, WellFormed, TableOf, EntryExact, Inv, ScanReads, Images, AllInVolume, Mirrored, OutsideKept;
      LaidOut();
      InvAllInVolume(v, Disk(), chains);
      ScanAnswers(v, Disk(), Stale());
      head := FindFreeCluster();
      CreateKeeps(State(), EocMin(v.tables.kind), Mark(v.tables.kind));
      SetCluster(head, 0xFFFF_FFFF);
      ImagesCreate(v, old(Disk()), Disk(), chains, head);
      chains := chains + [[head]];
    }

    /** One turn of that loop: reads the next cluster, then zeroes this one. */
    method TakeCluster(c: nat) returns (next: nat)
      requires Mounted() && c < v.entries
      modifies storage.device, storage.readTemp, storage.writeTemp
      ensures Mounted() && TablesOnly(v.tables, old(Disk()), Disk())
      ensures next == old(TableOf(v, Disk()))[c]
      ensures TableOf(v, Disk()) == old(TableOf(v, Disk()))[c := 0]
    {
      next := GetNext(c);
      SetCluster(c, 0);
    }

    /** The loop of `FAT_free_cluster_chain`: zeroes the clusters of a chain, and meets its end marker. */
    method ZeroChain(head: nat, ghost cs: seq<nat>) returns (marker: nat)
      requires Mounted() && IsChain(TableOf(v, Disk()), EocMin(v.tables.kind), cs) && head == cs[0]
      modifies storage.device, storage.readTemp, storage.writeTemp
      ensures Mounted() && TablesOnly(v.tables, old(Disk()), Disk())
      ensures marker == old(TableOf(v, Disk()))[cs[|cs| - 1]]
      ensures TableOf(v, Disk()) == Zeroed(old(TableOf(v, Disk())), cs)
    {
      ghost var table := TableOf(v, Disk());
      marker := head;
      ghost var k := 0;
      while !IsEoc(v.tables.kind, marker)
        invariant Mounted() && TablesOnly(v.tables, old(Disk()), Disk())
        invariant 0 <= k <= |cs| && marker == if k < |cs| then cs[k] else table[cs[|cs| - 1]]
        invariant TableOf(v, Disk()) == Zeroed(table, cs[..k])
        decreases |cs| - k
      {
        ZeroedNext(table, cs, k);
        assert table[cs[k]] == if k + 1 < |cs| then cs[k + 1] else table[cs[|cs| - 1]];
        marker := TakeCluster(marker);
        k := k + 1;
      }
      assert cs[..k] == cs;
    }

    /**
     * `FAT_free_cluster_chain`: zeroes every cluster of the chain, then the slot numbered by the end
     * marker it met. The result is right when that slot lies inside the copies of the table; without
     * it the disk `mid`, on which the chain is freed, still gets that store.
     */
    method FreeChain(head: nat, ghost i: nat) returns (ghost mid: seq<byte>)
      requires Valid() && i < |chains| && chains[i] != [] && head == chains[i][0]
      requires EntriesWritable(MarkerOf(i))
      modifies this`chains, storage.device, storage.readTemp, storage.writeTemp
      ensures Enabled(old(State()), Remove(i)) && Mounted() && chains == Drop(old(chains), i)
      ensures |mid| == |Disk()| && Readable(v, mid) && TablesOnly(v.tables, old(Disk()), mid)
      ensures TableOf(v, mid) == Step(old(State()), Remove(i), Mark(v.tables.kind)).table
      ensures MarkerFits(v.tables, |mid|, old(MarkerOf(i)))
      ensures Disk() == SetCopies(v.tables, mid, v.tables.numFat, old(MarkerOf(i)), 0)
      ensures Inside(v.tables, old(MarkerOf(i))) ==>
        && Valid() && TablesOnly(v.tables, old(Disk()), Disk())
        && State() == Step(old(State()), Remove(i), Mark(v.tables.kind))
        && Files() == Drop(old(Files()), i)
    {
      hide IsChain, WellFormed, TablesOnly, SetCopies, Inv, TableOf, EntryExact, Zeroed, Drop, AllInVolume, Images,
        EntryOff, StaleIn, EocMin, Cap;
      InvChain(State(), EocMin(v.tables.kind), i);
      LaidOut();
      RemoveKeeps(State(), EocMin(v.tables.kind), Mark(v.tables.kind), i);
      var marker := ZeroChain(head, chains[i]);
      mid := Disk();
      if Inside(v.tables, marker) {
        MarkerStored(v, old(Disk()), mid, marker);
        ImagesFreed(v, old(Disk()), SetCopies(v.tables, mid, v.tables.numFat, marker, 0), chains, i);
      }
      SetExactEntries(marker, 0);
      chains := Drop(chains, i);
    }

    // ----- bytes of files -----

    /** The contents of every file on the volume. */
    ghost function Files(): (r: seq<seq<byte>>)
      requires Valid()
      reads this, storage.device
      ensures |r| == |chains|
      ensures forall k :: 0 <= k < |r| ==> |r[k]| == Times(|chains[k]|, v.bpc)
    {
      InvAllInVolume(v, Disk(), chains);
      Images(v, Disk(), chains)
    }

    ghost function Free(): nat
      requires Valid()
      reads this, storage.device
    {
      FreeCount(TableOf(v, Disk()), 2)
    }

    /**
     * `FAT_absolute_offset`: where the walk of the table ends, whatever the table holds, as long as the
     * entries met can be read. Its measure is the offset alone. Clusters 0 and 1 name the fixed root
     * directory, which the driver takes to span one entry for each byte of a sector.
     */
    method AbsoluteOffset(head: nat, offset: nat) returns (pos: nat, last: nat)
      requires Attached() && 0 < v.bpc && (head >= 2 ==> WalkReads(v, Disk(), Stale(), head, offset))
      modifies storage.readTemp
      ensures Attached() && Stale() == old(Stale())
      ensures head < 2 ==> pos == if offset > v.sectorSize * 32 then 0 else TablesEnd(v.tables) + offset
      ensures head >= 2 ==> Place(pos, last) == Walk(v, Disk(), Stale(), head, offset)
    {
      if head < 2 {
        return if offset > v.sectorSize * 32 then 0 else TablesEnd(v.tables) + offset, head;
      }
      var cluster := head;
      var left: nat := offset;
      while left >= v.bpc
        invariant Attached() && Stale() == old(Stale()) && WalkReads(v, Disk(), Stale(), cluster, left)
        invariant Walk(v, Disk(), Stale(), cluster, left) == Walk(v, Disk(), Stale(), head, offset)
        decreases left
      {
        var entry := GetEntry(0, cluster);
        if IsEoc(v.tables.kind, entry) {
          return 0, cluster;
        }
        cluster, left := entry, left - v.bpc;
      }
      pos, last := ClusterOff(v, cluster) + left, cluster;
    }

    /** Stores a piece that stays inside one cluster of file `i`, at offset `off` of the file. */
    method StorePiece(pos: nat, data: seq<byte>, ghost i: nat, ghost off: nat)
      requires Valid() && i < |chains| && off < Times(|chains[i]|, v.bpc) && InVolume(v, chains[i])
      requires Sal.Rest(v.bpc, off) + |data| <= v.bpc && pos == ChainPos(v, chains[i], off)
      requires Sal.BufferSafe(v.sectorSize, off % v.sectorSize, |data|)
      modifies storage.device, storage.writeTemp
      ensures Valid() && pos + |data| <= old(|Disk()|) == |Disk()| && off + |data| <= Times(|chains[i]|, v.bpc)
      ensures TableOf(v, Disk()) == old(TableOf(v, Disk())) && Free() == old(Free())
      ensures MetaKept(v, old(Disk()), Disk())
      ensures Files() == old(Files())[i := Splice(old(Files()[i]), off,
        Sal.Landed(old(Disk()), v.sectorSize, off % v.sectorSize, pos, data))]
    {
      PieceOnDisk(v, |Disk()|, chains[i], off, |data|);
      PieceInFile(v, |chains[i]|, off, |data|);
      ChainPosAligned(v, chains[i], off);
      InvAllInVolume(v, Disk(), chains);
      ghost var landed := Sal.Landed(Disk(), v.sectorSize, off % v.sectorSize, pos, data);
      ImagesWrite(v, Disk(), chains, i, off, landed);
      TableAfterWrite(v, Disk(), pos, landed);
      DataKeepsMeta(v, Disk(), pos, landed);
      storage.Write(pos, data);
    }

    /** A piece that the storage layer transfers faithfully ends up in the file as it is. */
    method StoreExact(pos: nat, data: seq<byte>, ghost i: nat, ghost off: nat)
      requires Valid() && i < |chains| && off < Times(|chains[i]|, v.bpc) && InVolume(v, chains[i])
      requires Sal.Rest(v.bpc, off) + |data| <= v.bpc && pos == ChainPos(v, chains[i], off)
      requires Sal.Exact(v.sectorSize, off % v.sectorSize, |data|)
      modifies storage.device, storage.writeTemp
      ensures Valid() && Free() == old(Free()) && off + |data| <= Times(|chains[i]|, v.bpc)
      ensures |Disk()| == old(|Disk()|)
      ensures MetaKept(v, old(Disk()), Disk())
      ensures Files() == old(Files())[i := Splice(old(Files()[i]), off, data)]
    {
      PieceOnDisk(v, |Disk()|, chains[i], off, |data|);
      Sal.LandedWhole(Disk(), v.sectorSize, off % v.sectorSize, pos, data);
      StorePiece(pos, data, i, off);
    }

    /** Reads a piece that stays inside one cluster of file `i` into a buffer that held `was`. */
    method FetchPiece(pos: nat, was: seq<byte>, ghost i: nat, ghost off: nat) returns (got: seq<byte>)
      requires Valid() && i < |chains| && off < Times(|chains[i]|, v.bpc) && InVolume(v, chains[i])
      requires Sal.Rest(v.bpc, off) + |was| <= v.bpc && pos == ChainPos(v, chains[i], off)
      requires Sal.BufferSafe(v.sectorSize, off % v.sectorSize, |was|)
      modifies storage.readTemp
      ensures Valid() && |got| == |was| && off + |was| <= Times(|chains[i]|, v.bpc)
      ensures Sal.Exact(v.sectorSize, off % v.sectorSize, |was|) ==> got == Files()[i][off..off + |was|]
    {
      hide WellFormed, Inv, TableOf, Files, ChainPos, Sal.Exact, Sal.Fetched, Sal.Rest, Sal.Storage.Disk;
      PieceIs(i, off, |was|);
      if Sal.Exact(v.sectorSize, off % v.sectorSize, |was|) {
        Sal.ReadFaithful(Disk(), v.sectorSize, off % v.sectorSize, pos, |was|);
      }
      got := storage.Read(pos, was);
    }

    /** Where a piece of file `i` lies on the disk. */
    lemma PieceIs(i: nat, off: nat, n: nat)
      requires Valid() && i < |chains| && off < Times(|chains[i]|, v.bpc) && InVolume(v, chains[i])
      requires Sal.Rest(v.bpc, off) + n <= v.bpc
      ensures
        var pos := ChainPos(v, chains[i], off);
        && pos + n <= |Disk()| && off + n <= Times(|chains[i]|, v.bpc) && pos % v.sectorSize == off % v.sectorSize
        && Disk()[pos..pos + n] == Files()[i][off..off + n]
    {
      hide Content, Inv, EntryExact;
      PieceOnDisk(v, |Disk()|, chains[i], off, n);
      PieceInFile(v, |chains[i]|, off, n);
      ChainPosAligned(v, chains[i], off);
      ReadPiece(v, Disk(), chains[i], off, n);
    }

    /** `FAT_allocate_cluster` as a file sees it: its contents gain one cluster at the end. */
    method Grow(head: nat, ghost i: nat) returns (ghost added: seq<byte>)
      requires Valid() && i < |chains| && chains[i] != [] && head == chains[i][0] && Free() > 0
      modifies this`chains, storage.device, storage.readTemp, storage.writeTemp
      ensures Valid() && TablesOnly(v.tables, old(Disk()), Disk()) && Free() == old(Free()) - 1
      ensures |chains| == old(|chains|) && chains[i] != [] && chains[i][0] == head
      ensures |chains[i]| == old(|chains[i]|) + 1 && chains == old(chains)[i := chains[i]]
      ensures MetaKept(v, old(Disk()), Disk())
      ensures |added| == v.bpc && Files() == old(Files())[i := old(Files()[i]) + added]
    {
      FreeCountFinds(TableOf(v, Disk()));
      InvAllInVolume(v, Disk(), chains);
      ghost var table, cs, f := TableOf(v, Disk()), chains[i], FindFree(TableOf(v, Disk()), 2);
      GrowCounts(State(), EocMin(v.tables.kind), i, Mark(v.tables.kind));
      added := Cluster(v, Disk(), f);
      AllocateCluster(head, i);
      ImagesGrow(v, old(Disk()), Disk(), old(chains), i, f);
    }

    /** The end marker that chain `i` ends with. */
    ghost function MarkerOf(i: nat): nat
      requires Valid() && i < |chains|
      reads this, storage.device
    {
      assert IsChain(TableOf(v, Disk()), EocMin(v.tables.kind), chains[i]);
      TableOf(v, Disk())[chains[i][|chains[i]| - 1]]
    }
  }

  /** Once its clusters are zeroed, the store to the marker's slot ends the removal of a chain. */
  lemma MarkerStored(v: Volume, d: seq<byte>, mid: seq<byte>, marker: nat)
    requires WellFormed(v, |d|) && TablesOnly(v.tables, d, mid) && v.entries <= marker && Inside(v.tables, marker)
    ensures CopyBase(v.tables, v.tables.numFat - 1) + EntryOff(v.tables.kind, marker) + 2 <= |d|
    ensures TablesEnd(v.tables) <= |d| && Readable(v, mid)
    ensures
      var d' := SetCopies(v.tables, mid, v.tables.numFat, marker, 0);
      TablesOnly(v.tables, d, d') && TableOf(v, d') == TableOf(v, mid)
  {
    hide Mirrored, OutsideKept, TableOf, SetCopies, EntryExact;
    MarkerEffect(v, mid, marker);
    TablesTrans(v.tables, d, mid, SetCopies(v.tables, mid, v.tables.numFat, marker, 0));
  }

  /** Every other file keeps its bytes when one is removed. */
  lemma ImagesFreed(v: Volume, d: seq<byte>, d': seq<byte>, chains: seq<seq<nat>>, i: nat)
    requires WellFormed(v, |d|) && Readable(v, d) && Inv(Fs(TableOf(v, d), chains), EocMin(v.tables.kind))
    requires TablesOnly(v.tables, d, d') && i < |chains|
    ensures AllInVolume(v, chains) && AllInVolume(v, Drop(chains, i))
    ensures Images(v, d', Drop(chains, i)) == Drop(Images(v, d, chains), i)
  {
    hide WellFormed, Mirrored, OutsideKept, Inv, TableOf, Images, Drop, AllInVolume;
    InvAllInVolume(v, d, chains);
    ImagesDrop(v, d, d', chains, i);
  }

  lemma GrowCounts(fs: Fs, eoc: nat, i: nat, mark: nat)
    requires Inv(fs, eoc) && Enabled(fs, Extend(i)) && 0 < eoc <= mark
    ensures FreeCount(Step(fs, Extend(i), mark).table, 2) == FreeCount(fs.table, 2) - 1
  {
    var cs, f := fs.chains[i], FindFree(fs.table, 2);
    assert IsChain(fs.table, eoc, cs);
    FreeCountLinked(fs.table, cs[|cs| - 1], f, mark);
  }

  /** Zeroing one more cluster of a chain. */
  lemma {:induction false} ZeroedSnoc(table: seq<nat>, cs: seq<nat>, c: nat)
    requires c < |table| && forall i :: 0 <= i < |cs| ==> cs[i] < |table|
    ensures Zeroed(table, cs + [c]) == Zeroed(table, cs)[c := 0]
    decreases |cs|
  {
    if cs == [] {
      assert [c][1..] == [];
    } else {
      assert (cs + [c])[1..] == cs[1..] + [c];
      ZeroedSnoc(table[cs[0] := 0], cs[1..], c);
    }
  }

  lemma NotYetZeroed(table: seq<nat>, cs: seq<nat>, c: nat)
    requires c < |table| && c !in cs && forall i :: 0 <= i < |cs| ==> cs[i] < |table|
    ensures Zeroed(table, cs)[c] == table[c]
  {
    ZeroedAt(table, cs);
  }

  lemma TakeSnoc<T>(s: seq<T>, k: nat)
    requires k < |s|
    ensures s[..k + 1] == s[..k] + [s[k]]
  {
  }

  lemma NotBefore(cs: seq<nat>, k: nat)
    requires k < |cs| && Distinct(cs)
    ensures cs[k] !in cs[..k]
  {
  }

  /** Until its turn comes, a cluster's entry still holds the next cluster. */
  lemma ZeroedNext(table: seq<nat>, cs: seq<nat>, k: nat)
    requires k < |cs| && Distinct(cs) && forall i :: 0 <= i < |cs| ==> cs[i] < |table|
    ensures Zeroed(table, cs[..k])[cs[k]] == table[cs[k]]
    ensures Zeroed(table, cs[..k + 1]) == Zeroed(table, cs[..k])[cs[k] := 0]
  {
    hide Zeroed, Distinct;
    NotBefore(cs, k);
    NotYetZeroed(table, cs[..k], cs[k]);
    TakeSnoc(cs, k);
    ZeroedSnoc(table, cs[..k], cs[k]);
  }
}
