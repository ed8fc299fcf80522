/**
 * What a disk means: the table of a volume as an array of values, a chain of clusters as one byte
 * sequence, and the disk position of a byte of a file.
 */
module FatFiles {
  import opened Bytes
  import opened FatTable
  import opened FatChain
  import opened FatEntries
  import Sal

  /** Where things are on a mounted volume. Cluster numbers run from 2 to `entries - 1`. */
  datatype Volume = Volume(tables: Tables, sectorSize: nat, dataStart: nat, bpc: nat, entries: nat, scanBound: nat)

  /** Two-byte accesses to an entry stay inside one sector. */
  predicate EntryExact(v: Volume, i: nat, c: nat)
    requires 0 < v.sectorSize
  {
    Sal.Exact(v.sectorSize, (CopyBase(v.tables, i) + EntryOff(v.tables.kind, c)) % v.sectorSize, 2)
  }

  ghost predicate WellFormed(v: Volume, size: nat) {
    && 0 < v.sectorSize <= Sal.TEMP_SIZE && 0 < v.bpc && 0 < v.tables.numFat
    && v.dataStart % v.sectorSize == 0 && v.bpc % v.sectorSize == 0
    && 2 <= v.entries <= EocMin(v.tables.kind) && v.entries <= v.scanBound
    && Inside(v.tables, v.entries - 1)
    && TablesEnd(v.tables) <= v.dataStart
    && v.dataStart + Times(v.entries - 2, v.bpc) <= size
    && forall i, c :: 0 <= i < v.tables.numFat && 0 <= c < v.entries ==> EntryExact(v, i, c)
  }

  lemma InsideAll(v: Volume, size: nat, c: nat)
    requires WellFormed(v, size) && c < v.entries
    ensures Inside(v.tables, c)
  {
  }

  // ----- the table -----

  function Entry(v: Volume, d: seq<byte>, c: nat): nat
    requires CopyBase(v.tables, 0) + EntryOff(v.tables.kind, c) + 2 <= |d|
  {
    Get(v.tables.kind, d, CopyBase(v.tables, 0), c)
  }

  /** The first `n` values of the first copy of the table. */
  function TablePrefix(v: Volume, d: seq<byte>, n: nat): (t: seq<nat>)
    requires n > 0 ==> CopyBase(v.tables, 0) + EntryOff(v.tables.kind, n - 1) + 2 <= |d|
    ensures |t| == n
    ensures forall c :: 0 <= c < n ==> t[c] == Entry(v, d, c)
  {
    if n == 0 then [] else TablePrefix(v, d, n - 1) + [Entry(v, d, n - 1)]
  }

  /** The first copy's entries are on the disk. */
  predicate Readable(v: Volume, d: seq<byte>) {
    v.entries > 0 && CopyBase(v.tables, 0) + EntryOff(v.tables.kind, v.entries - 1) + 2 <= |d|
  }

  function TableOf(v: Volume, d: seq<byte>): (t: seq<nat>)
    requires Readable(v, d)
    ensures |t| == v.entries
    ensures forall c :: 0 <= c < |t| ==> t[c] == Entry(v, d, c)
  {
    TablePrefix(v, d, v.entries)
  }

  lemma TableOnDisk(v: Volume, d: seq<byte>)
    requires WellFormed(v, |d|)
    ensures Readable(v, d) && TablesEnd(v.tables) <= |d|
  {
    CopyInTables(v.tables, 0);
  }

  /** The table depends only on the bytes in front of the data region. */
  lemma TableFrame(v: Volume, d: seq<byte>, d': seq<byte>)
    requires WellFormed(v, |d|) && |d'| == |d|
    requires forall i :: 0 <= i < v.dataStart ==> d'[i] == d[i]
    ensures Readable(v, d)
    ensures TableOf(v, d') == TableOf(v, d)
  {
    TableOnDisk(v, d);
    forall c | 0 <= c < v.entries
      ensures TableOf(v, d')[c] == TableOf(v, d)[c]
    {
      InsideAll(v, |d|, c);
      GetSameBytes(v.tables.kind, d, d', CopyBase(v.tables, 0), c);
    }
  }

  /** Setting the entry of `c` in every copy updates the table at `c` and no byte outside the tables. */
  lemma SetEntriesEffect(v: Volume, d: seq<byte>, c: nat, x: nat)
    requires WellFormed(v, |d|) && c < v.entries
    ensures CopyBase(v.tables, v.tables.numFat - 1) + EntryOff(v.tables.kind, c) + 2 <= |d|
    ensures Readable(v, d)
    ensures TablesEnd(v.tables) <= |d|
    ensures
      var d' := SetCopies(v.tables, d, v.tables.numFat, c, x);
      TableOf(v, d') == TableOf(v, d)[c := x % Cap(v.tables.kind)] && TablesOnly(v.tables, d, d')
  {
    TableOnDisk(v, d);
    InsideAll(v, |d|, c);
    var d' := SetCopies(v.tables, d, v.tables.numFat, c, x);
    SetCopiesFrame(v.tables, d, v.tables.numFat, c, x);
    if Mirrored(v.tables, d) {
      SetCopiesKeepsMirror(v.tables, d, c, x);
    }
    hide Mirrored;
    forall k | 0 <= k < v.entries
      ensures TableOf(v, d')[k] == TableOf(v, d)[c := x % Cap(v.tables.kind)][k]
    {
      InsideAll(v, |d|, k);
      SetCopiesEntry(v.tables, d, v.tables.numFat, c, x, 0, k);
    }
  }

  /** Zeroing the end marker's slot leaves the whole table alone when the slot lies inside the copies. */
  lemma MarkerEffect(v: Volume, d: seq<byte>, marker: nat)
    requires WellFormed(v, |d|) && v.entries <= marker && Inside(v.tables, marker)
    ensures CopyBase(v.tables, v.tables.numFat - 1) + EntryOff(v.tables.kind, marker) + 2 <= |d|
    ensures Readable(v, d)
    ensures TablesEnd(v.tables) <= |d|
    ensures
      var d' := SetCopies(v.tables, d, v.tables.numFat, marker, 0);
      TableOf(v, d') == TableOf(v, d) && TablesOnly(v.tables, d, d')
  {
    TableOnDisk(v, d);
    var d' := SetCopies(v.tables, d, v.tables.numFat, marker, 0);
    SetCopiesFrame(v.tables, d, v.tables.numFat, marker, 0);
    if Mirrored(v.tables, d) {
      SetCopiesKeepsMirror(v.tables, d, marker, 0);
    }
    hide Mirrored;
    forall k | 0 <= k < v.entries
      ensures TableOf(v, d')[k] == TableOf(v, d)[k]
    {
      InsideAll(v, |d|, k);
      SetCopiesEntry(v.tables, d, v.tables.numFat, marker, 0, 0, k);
    }
  }

  /** The disk after `FAT_set_entries` over the first `n` copies, straddled entries included. */
  function StoredCopies(v: Volume, d: seq<byte>, n: nat, c: nat, stale: byte, x: nat): (r: seq<byte>)
    requires 0 < v.sectorSize && (n > 0 ==> CopyBase(v.tables, n - 1) + EntryOff(v.tables.kind, c) + 2 <= |d|)
    ensures |r| == |d|
  {
    if n == 0 then d else
      PriorCopy(v.tables, n - 1);
      var pos := CopyBase(v.tables, n - 1) + EntryOff(v.tables.kind, c);
      StoredEntry(v.tables.kind, StoredCopies(v, d, n - 1, c, stale, x), v.sectorSize, pos, c, stale, x)
  }

  lemma PriorCopy(t: Tables, i: nat)
    ensures i > 0 ==> CopyBase(t, i - 1) <= CopyBase(t, i)
  {
  }

  /** Where none of them straddles, they are the packed stores. */
  lemma {:induction false} ExactCopies(v: Volume, d: seq<byte>, n: nat, c: nat, stale: byte, x: nat)
    requires 0 < v.sectorSize && n <= v.tables.numFat && TablesEnd(v.tables) <= |d|
    requires n > 0 ==> CopyBase(v.tables, n - 1) + EntryOff(v.tables.kind, c) + 2 <= |d|
    requires forall i :: 0 <= i < n ==> EntryExact(v, i, c)
    ensures StoredCopies(v, d, n, c, stale, x) == SetCopies(v.tables, d, n, c, x)
  {
    hide StoredEntry, Put;
    if n > 0 {
      PriorCopy(v.tables, n - 1);
      ExactCopies(v, d, n - 1, c, stale, x);
      assert EntryExact(v, n - 1, c);
      var before := SetCopies(v.tables, d, n - 1, c, x);
      ExactStored(v.tables.kind, before, v.sectorSize, CopyBase(v.tables, n - 1), c, stale, x);
    }
  }

  // ----- clusters and contents -----

  function ClusterPos(v: Volume, c: nat): (p: nat)
    requires 2 <= c
    ensures v.dataStart <= p
  {
    v.dataStart + Times(c - 2, v.bpc)
  }

  predicate InVolume(v: Volume, cs: seq<nat>) {
    forall i :: 0 <= i < |cs| ==> 2 <= cs[i] < v.entries
  }

  lemma ClusterOnDisk(v: Volume, size: nat, c: nat)
    requires WellFormed(v, size) && 2 <= c < v.entries
    ensures ClusterPos(v, c) + v.bpc <= size
  {
    TimesMono(c - 2, v.entries - 2, v.bpc);
  }

  lemma ClustersDisjoint(v: Volume, a: nat, b: nat)
    requires 2 <= a && 2 <= b && a != b
    ensures ClusterPos(v, a) + v.bpc <= ClusterPos(v, b) || ClusterPos(v, b) + v.bpc <= ClusterPos(v, a)
  {
    if a < b {
      TimesMono(a - 2, b - 2, v.bpc);
    } else {
      TimesMono(b - 2, a - 2, v.bpc);
    }
  }

  /** The bytes of one cluster. */
  ghost function Cluster(v: Volume, d: seq<byte>, c: nat): (b: seq<byte>)
    requires WellFormed(v, |d|) && 2 <= c < v.entries
    ensures |b| == v.bpc
  {
    ClusterOnDisk(v, |d|, c);
    d[ClusterPos(v, c)..ClusterPos(v, c) + v.bpc]
  }

  /** The clusters of a chain, one after the other: the byte sequence that the chain stores. */
  ghost function Content(v: Volume, d: seq<byte>, cs: seq<nat>): (b: seq<byte>)
    requires WellFormed(v, |d|) && InVolume(v, cs)
    ensures |b| == Times(|cs|, v.bpc)
    decreases |cs|
  {
    if cs == [] then [] else
      TimesFront(|cs|, v.bpc);
      Cluster(v, d, cs[0]) + Content(v, d, cs[1..])
  }

  lemma TimesFront(n: nat, m: nat)
    requires 0 < n
    ensures Times(n, m) == m + Times(n - 1, m)
  {
  }

  /** Disk position of byte `off` of the file stored in chain `cs`. */
  function ChainPos(v: Volume, cs: seq<nat>, off: nat): (p: nat)
    requires InVolume(v, cs) && 0 < v.bpc && off < Times(|cs|, v.bpc)
    decreases |cs|
  {
    if off < v.bpc then ClusterPos(v, cs[0]) + off
    else ChainPos(v, cs[1..], off - v.bpc)
  }

  // ----- following the table, whatever it holds -----

  /** The disk position of a cluster; numbers 0 and 1 stand for the root directory. */
  function ClusterOff(v: Volume, c: nat): nat {
    if c > 1 then ClusterPos(v, c) else TablesEnd(v.tables)
  }

  /** A position found, or 0 and the last cluster of a chain that is too short. */
  datatype Place = Place(pos: nat, last: nat)

  /** The entry of a cluster can be read: it lies on the disk, and the read stays inside the bounce buffer. */
  predicate EntryReads(v: Volume, d: seq<byte>, c: nat)
    requires 0 < v.sectorSize
  {
    var pos := CopyBase(v.tables, 0) + EntryOff(v.tables.kind, c);
    pos + 2 <= |d| && Sal.BufferSafe(v.sectorSize, pos % v.sectorSize, 2)
  }

  /** What `FAT_get_entry` answers for a cluster, in the first copy. */
  function EntrySeen(v: Volume, d: seq<byte>, stale: byte, c: nat): nat
    requires 0 < v.sectorSize && EntryReads(v, d, c)
  {
    SeenEntry(v.tables.kind, d, v.sectorSize, CopyBase(v.tables, 0) + EntryOff(v.tables.kind, c), c, stale)
  }

  /** For the clusters of a well-formed volume that is the element of the table. */
  lemma SeenInTable(v: Volume, d: seq<byte>, stale: byte, c: nat)
    requires WellFormed(v, |d|) && Readable(v, d) && c < v.entries
    ensures EntryReads(v, d, c) && EntrySeen(v, d, stale, c) == TableOf(v, d)[c]
  {
    InsideAll(v, |d|, c);
    CopyInTables(v.tables, 0);
    assert EntryExact(v, 0, c);
    ExactSeen(d, v.sectorSize, CopyBase(v.tables, 0) + EntryOff(v.tables.kind, c), stale);
  }

  /** The entries met on the way from cluster `c` can be read. */
  ghost predicate WalkReads(v: Volume, d: seq<byte>, stale: byte, c: nat, left: nat)
    requires 0 < v.sectorSize && 0 < v.bpc
    decreases left
  {
    left >= v.bpc ==>
      && EntryReads(v, d, c)
      && (!IsEoc(v.tables.kind, EntrySeen(v, d, stale, c)) ==>
            WalkReads(v, d, stale, EntrySeen(v, d, stale, c), left - v.bpc))
  }

  /** The walk of `FAT_absolute_offset`. */
  ghost function Walk(v: Volume, d: seq<byte>, stale: byte, c: nat, left: nat): Place
    requires 0 < v.sectorSize && 0 < v.bpc && WalkReads(v, d, stale, c, left)
    decreases left
  {
    if left < v.bpc then Place(ClusterOff(v, c) + left, c)
    else
      var entry := EntrySeen(v, d, stale, c);
      if IsEoc(v.tables.kind, entry) then Place(0, c) else Walk(v, d, stale, entry, left - v.bpc)
  }

  /**
   * On a disk that has the entry of every number below the end markers, and whose sectors leave a byte
   * of the bounce buffer, the walk needs nothing of the table: it may loop or leave the volume, and its
   * entries may straddle sectors.
   */
  lemma {:induction false} AnyTableWalks(v: Volume, d: seq<byte>, stale: byte, c: nat, left: nat)
    requires 0 < v.sectorSize != Sal.TEMP_SIZE && 0 < v.bpc && c < EocMin(v.tables.kind)
    requires CopyBase(v.tables, 0) + EntryOff(v.tables.kind, EocMin(v.tables.kind) - 1) + 2 <= |d|
    ensures WalkReads(v, d, stale, c, left)
    decreases left
  {
    if left >= v.bpc {
      assert EntryReads(v, d, c);
      if !IsEoc(v.tables.kind, EntrySeen(v, d, stale, c)) {
        AnyTableWalks(v, d, stale, EntrySeen(v, d, stale, c), left - v.bpc);
      }
    }
  }

  /** The entry of `a` can be read, is no end mark and names `b`. */
  predicate LeadsTo(v: Volume, d: seq<byte>, stale: byte, a: nat, b: nat)
    requires 0 < v.sectorSize
  {
    EntryReads(v, d, a) && EntrySeen(v, d, stale, a) == b && !IsEoc(v.tables.kind, b)
  }

  predicate EndsAt(v: Volume, d: seq<byte>, stale: byte, a: nat)
    requires 0 < v.sectorSize
  {
    EntryReads(v, d, a) && IsEoc(v.tables.kind, EntrySeen(v, d, stale, a))
  }

  /** Each number leads to the next. */
  ghost predicate Follows(v: Volume, d: seq<byte>, stale: byte, cs: seq<nat>)
    requires 0 < v.sectorSize
  {
    cs != [] && forall i :: 0 < i < |cs| ==> LeadsTo(v, d, stale, cs[i - 1], cs[i])
  }

  /**
   * On any table the walk follows one entry for each whole cluster of the offset and adds the rest, and
   * it gives up with 0 and the last number if it meets an end mark before that.
   */
  lemma {:induction false} WalkFollows(v: Volume, d: seq<byte>, stale: byte, cs: seq<nat>, left: nat)
    requires 0 < v.sectorSize && 0 < v.bpc && Follows(v, d, stale, cs) && WalkReads(v, d, stale, cs[0], left)
    ensures left / v.bpc == |cs| - 1 ==>
      Walk(v, d, stale, cs[0], left) == Place(ClusterOff(v, cs[|cs| - 1]) + left % v.bpc, cs[|cs| - 1])
    ensures left / v.bpc >= |cs| && EndsAt(v, d, stale, cs[|cs| - 1]) ==>
      Walk(v, d, stale, cs[0], left) == Place(0, cs[|cs| - 1])
    decreases |cs|
  {
    hide EntryReads, EntrySeen, IsEoc, ClusterOff;
    if left < v.bpc {
      DivModUnique(left, v.bpc, 0, left);
    } else {
      ModStep(left - v.bpc, v.bpc);
      DivNonNeg(left - v.bpc, v.bpc);
      if |cs| > 1 {
        assert LeadsTo(v, d, stale, cs[1 - 1], cs[1]);
        FollowsTail(v, d, stale, cs);
        WalkFollows(v, d, stale, cs[1..], left - v.bpc);
      }
    }
  }

  lemma DivNonNeg(x: nat, d: nat)
    requires 0 < d
    ensures x / d >= 0
  {
  }

  lemma FollowsTail(v: Volume, d: seq<byte>, stale: byte, cs: seq<nat>)
    requires 0 < v.sectorSize && Follows(v, d, stale, cs) && |cs| > 1
    ensures Follows(v, d, stale, cs[1..])
  {
    hide LeadsTo;
    var t := cs[1..];
    forall i | 0 < i < |t|
      ensures LeadsTo(v, d, stale, t[i - 1], t[i])
    {
      assert LeadsTo(v, d, stale, cs[i + 1 - 1], cs[i + 1]);
    }
  }

  lemma ChainInVolume(v: Volume, d: seq<byte>, cs: seq<nat>)
    requires WellFormed(v, |d|) && Readable(v, d) && IsChain(TableOf(v, d), EocMin(v.tables.kind), cs)
    ensures InVolume(v, cs) && cs != [] && 2 <= cs[0] < v.entries
  {
  }

  /** On a chain the walk finds the position of a byte, or the chain's last cluster if it is too short. */
  lemma {:induction false} ChainWalks(v: Volume, d: seq<byte>, stale: byte, cs: seq<nat>, off: nat)
    requires WellFormed(v, |d|) && Readable(v, d) && IsChain(TableOf(v, d), EocMin(v.tables.kind), cs)
    ensures InVolume(v, cs) && WalkReads(v, d, stale, cs[0], off)
    ensures off < Times(|cs|, v.bpc) ==> Walk(v, d, stale, cs[0], off).pos == ChainPos(v, cs, off)
    ensures off >= Times(|cs|, v.bpc) ==> Walk(v, d, stale, cs[0], off) == Place(0, cs[|cs| - 1])
    decreases |cs|
  {
    hide WellFormed, EntryReads, EntrySeen, TableOf, Readable, IsChain, InVolume, ClusterPos, EocMin;
    Bounds(v, |d|);
    ChainInVolume(v, d, cs);
    TimesFront(|cs|, v.bpc);
    ChainNext(TableOf(v, d), EocMin(v.tables.kind), cs, 0);
    SeenInTable(v, d, stale, cs[0]);
    if off >= v.bpc && |cs| > 1 {
      TailIsChain(TableOf(v, d), EocMin(v.tables.kind), cs);
      ChainWalks(v, d, stale, cs[1..], off - v.bpc);
    }
  }

  // ----- scanning the table for a free cluster -----

  /** The entries met by the scan of `FindFreeCluster` from `i` on can be read. */
  ghost predicate ScanReads(v: Volume, d: seq<byte>, stale: byte, i: nat)
    requires 0 < v.sectorSize
    decreases v.scanBound - i
  {
    i < v.scanBound ==>
      EntryReads(v, d, i) && (EntrySeen(v, d, stale, i) != 0 ==> ScanReads(v, d, stale, i + 1))
  }

  /** A slot that the scan takes for a free cluster, be it one of the volume or not. */
  predicate SlotFree(v: Volume, d: seq<byte>, stale: byte, i: nat)
    requires 0 < v.sectorSize
  {
    EntryReads(v, d, i) && EntrySeen(v, d, stale, i) == 0
  }

  /** The scan's answer: the least slot within the bound that reads 0, or 0. */
  ghost function ScanFree(v: Volume, d: seq<byte>, stale: byte, i: nat): (f: nat)
    requires 0 < v.sectorSize && 0 < i && ScanReads(v, d, stale, i)
    ensures f == 0 || (i <= f < v.scanBound && SlotFree(v, d, stale, f))
    ensures forall j :: i <= j < (if f == 0 then v.scanBound else f) ==> !SlotFree(v, d, stale, j)
    decreases v.scanBound - i
  {
    if i >= v.scanBound then 0 else if EntrySeen(v, d, stale, i) == 0 then i else ScanFree(v, d, stale, i + 1)
  }

  /** The scan ends without an answer. */
  ghost predicate ScanMisses(v: Volume, d: seq<byte>, stale: byte) {
    0 < v.sectorSize && ScanReads(v, d, stale, 2) && ScanFree(v, d, stale, 2) == 0
  }

  /** While there is a free cluster, the scan finds the least one. */
  lemma {:induction false} ScanFinds(v: Volume, d: seq<byte>, stale: byte, i: nat)
    requires WellFormed(v, |d|) && Readable(v, d) && 0 < i && FindFree(TableOf(v, d), i) != 0
    ensures ScanReads(v, d, stale, i) && ScanFree(v, d, stale, i) == FindFree(TableOf(v, d), i)
    decreases v.entries - i
  {
    SeenInTable(v, d, stale, i);
    if TableOf(v, d)[i] != 0 {
      ScanFinds(v, d, stale, i + 1);
    }
  }

  /** Wherever it finds a free cluster or finds nothing, the scan computes the search of the table. */
  lemma ScanAnswers(v: Volume, d: seq<byte>, stale: byte)
    requires WellFormed(v, |d|) && Readable(v, d) && (FindFree(TableOf(v, d), 2) != 0 || ScanMisses(v, d, stale))
    ensures 0 < v.sectorSize && ScanReads(v, d, stale, 2)
    ensures ScanFree(v, d, stale, 2) == FindFree(TableOf(v, d), 2)
  {
    hide WellFormed;
    Bounds(v, |d|);
    if FindFree(TableOf(v, d), 2) != 0 {
      ScanFinds(v, d, stale, 2);
    }
  }

  /**
   * On a full volume the scan rightly answers 0 if and only if no slot between the volume's entries and
   * the scan's bound reads 0; otherwise it answers a cluster that does not exist.
   */
  lemma FullScanIff(v: Volume, d: seq<byte>, stale: byte)
    requires WellFormed(v, |d|) && Readable(v, d) && FindFree(TableOf(v, d), 2) == 0 && ScanReads(v, d, stale, 2)
    ensures ScanFree(v, d, stale, 2) == 0 <==> forall i :: v.entries <= i < v.scanBound ==> !SlotFree(v, d, stale, i)
    ensures ScanFree(v, d, stale, 2) != 0 ==> ScanFree(v, d, stale, 2) >= v.entries
    ensures v.entries < v.scanBound && SlotFree(v, d, stale, v.entries) ==> ScanFree(v, d, stale, 2) == v.entries
  {
    hide WellFormed, EntryReads, EntrySeen, TableOf;
    Bounds(v, |d|);
    forall i | 2 <= i < v.entries
      ensures !SlotFree(v, d, stale, i)
    {
      SeenInTable(v, d, stale, i);
      assert TableOf(v, d)[i] != 0;
    }
  }

  lemma Bounds(v: Volume, size: nat)
    requires WellFormed(v, size)
    ensures 0 < v.sectorSize <= 4096 && 0 < v.bpc && 2 <= v.entries <= v.scanBound && v.entries <= EocMin(v.tables.kind)
  {
  }

  /** The position lies in cluster `off / bpc` of the chain, at `off % bpc`. */
  lemma {:induction false} ChainPosIs(v: Volume, cs: seq<nat>, off: nat)
    requires InVolume(v, cs) && 0 < v.bpc && off < Times(|cs|, v.bpc)
    ensures 0 <= off / v.bpc < |cs|
    ensures ChainPos(v, cs, off) == ClusterPos(v, cs[off / v.bpc]) + off % v.bpc
    decreases |cs|
  {
    if off < v.bpc {
      DivModUnique(off, v.bpc, 0, off);
    } else {
      ChainPosIs(v, cs[1..], off - v.bpc);
      ModStep(off - v.bpc, v.bpc);
    }
  }

  /** The same without division: byte `r` of cluster `k` of the chain. */
  lemma {:induction false} Locate(v: Volume, cs: seq<nat>, off: nat) returns (k: nat, r: nat)
    requires InVolume(v, cs) && 0 < v.bpc && off < Times(|cs|, v.bpc)
    ensures k < |cs| && r < v.bpc && off == Times(k, v.bpc) + r
    ensures ChainPos(v, cs, off) == ClusterPos(v, cs[k]) + r
    decreases |cs|
  {
    if off < v.bpc {
      k, r := 0, off;
    } else {
      TimesFront(|cs|, v.bpc);
      k, r := Locate(v, cs[1..], off - v.bpc);
      TimesFront(k + 1, v.bpc);
      k := k + 1;
    }
  }

  lemma {:induction false} RestIsMod(d: nat, x: nat)
    requires 0 < d
    ensures Sal.Rest(d, x) == x % d
    decreases x
  {
    if x < d {
      DivModUnique(x, d, 0, x);
    } else {
      RestIsMod(d, x - d);
      ModStep(x - d, d);
    }
  }

  lemma ModOfSum(x: nat, m: nat, d: nat)
    requires 0 < d && m % d == 0
    ensures (x + m) % d == x % d
  {
    var q := m / d;
    assert x + m == (x / d + q) * d + x % d by { assert (x / d + q) * d == x / d * d + q * d; }
    DivModUnique(x + m, d, x / d + q, x % d);
  }

  /** A position has the sector alignment of its file offset. */
  lemma {:induction false} ChainPosAligned(v: Volume, cs: seq<nat>, off: nat)
    requires InVolume(v, cs) && 0 < v.sectorSize && 0 < v.bpc && off < Times(|cs|, v.bpc)
    requires v.dataStart % v.sectorSize == 0 && v.bpc % v.sectorSize == 0
    ensures ChainPos(v, cs, off) % v.sectorSize == off % v.sectorSize
    decreases |cs|
  {
    if off < v.bpc {
      TimesAligned(cs[0] - 2, v.bpc, v.sectorSize);
      ModOfSum(off, v.dataStart, v.sectorSize);
      ModOfSum(off + v.dataStart, Times(cs[0] - 2, v.bpc), v.sectorSize);
    } else {
      ChainPosAligned(v, cs[1..], off - v.bpc);
      ModOfSum(off - v.bpc, v.bpc, v.sectorSize);
    }
  }

  lemma {:induction false} TimesAligned(n: nat, m: nat, d: nat)
    requires 0 < d && m % d == 0
    ensures Times(n, m) % d == 0
  {
    if n == 0 {
      DivModUnique(0, d, 0, 0);
    } else {
      TimesAligned(n - 1, m, d);
      ModOfSum(Times(n - 1, m), m, d);
    }
  }

  /** A piece that stays inside one cluster of the chain is on the disk, and inside that cluster. */
  lemma {:induction false} PieceInCluster(v: Volume, size: nat, cs: seq<nat>, off: nat, n: nat) returns (k: nat)
    requires WellFormed(v, size) && InVolume(v, cs) && off < Times(|cs|, v.bpc)
    requires Sal.Rest(v.bpc, off) + n <= v.bpc
    ensures k < |cs|
    ensures ClusterPos(v, cs[k]) <= ChainPos(v, cs, off)
    ensures ChainPos(v, cs, off) + n <= ClusterPos(v, cs[k]) + v.bpc <= size
    decreases |cs|
  {
    if off < v.bpc {
      k := 0;
      ClusterOnDisk(v, size, cs[0]);
    } else {
      k := PieceInCluster(v, size, cs[1..], off - v.bpc, n);
      k := k + 1;
    }
  }

  lemma PieceOnDisk(v: Volume, size: nat, cs: seq<nat>, off: nat, n: nat)
    requires WellFormed(v, size) && InVolume(v, cs) && off < Times(|cs|, v.bpc)
    requires Sal.Rest(v.bpc, off) + n <= v.bpc
    ensures v.dataStart <= ChainPos(v, cs, off) && ChainPos(v, cs, off) + n <= size
  {
    var _ := PieceInCluster(v, size, cs, off, n);
  }

  lemma {:induction false} PieceInFile(v: Volume, len: nat, off: nat, n: nat)
    requires 0 < v.bpc && off < Times(len, v.bpc) && Sal.Rest(v.bpc, off) + n <= v.bpc
    ensures off + n <= Times(len, v.bpc)
    decreases len
  {
    TimesFront(len, v.bpc);
    if off >= v.bpc {
      PieceInFile(v, len - 1, off - v.bpc, n);
    }
  }

  lemma ReadPieceHead(v: Volume, d: seq<byte>, c: nat, tail: seq<byte>, off: nat, n: nat)
    requires WellFormed(v, |d|) && 2 <= c < v.entries && off + n <= v.bpc && ClusterPos(v, c) + v.bpc <= |d|
    ensures d[ClusterPos(v, c) + off..ClusterPos(v, c) + off + n] == (Cluster(v, d, c) + tail)[off..off + n]
  {
    SliceOfHead(Cluster(v, d, c), tail, off, n);
    SliceOfSlice(d, ClusterPos(v, c), v.bpc, off, n);
  }

  /** Reading such a piece from the disk is reading it from the file. */
  lemma {:induction false} ReadPiece(v: Volume, d: seq<byte>, cs: seq<nat>, off: nat, n: nat)
    requires WellFormed(v, |d|) && InVolume(v, cs) && off < Times(|cs|, v.bpc)
    requires Sal.Rest(v.bpc, off) + n <= v.bpc
    ensures ChainPos(v, cs, off) + n <= |d| && off + n <= Times(|cs|, v.bpc)
    ensures d[ChainPos(v, cs, off)..ChainPos(v, cs, off) + n] == Content(v, d, cs)[off..off + n]
    decreases |cs|
  {
    hide WellFormed, Cluster, ClusterPos;
    TimesFront(|cs|, v.bpc);
    PieceInFile(v, |cs|, off, n);
    if off < v.bpc {
      ClusterOnDisk(v, |d|, cs[0]);
      ReadPieceHead(v, d, cs[0], Content(v, d, cs[1..]), off, n);
    } else {
      ReadPiece(v, d, cs[1..], off - v.bpc, n);
      SliceOfTail(Cluster(v, d, cs[0]), Content(v, d, cs[1..]), off, n);
    }
  }

  lemma SliceOfSlice<T>(s: seq<T>, p: nat, m: nat, off: nat, n: nat)
    requires off + n <= m && p + m <= |s|
    ensures s[p..p + m][off..off + n] == s[p + off..p + off + n]
  {
    var a, b := s[p..p + m][off..off + n], s[p + off..p + off + n];
    assert forall i :: 0 <= i < n ==> a[i] == s[p + off + i] == b[i];
  }

  lemma SliceOfHead<T>(a: seq<T>, b: seq<T>, off: nat, n: nat)
    requires off + n <= |a|
    ensures (a + b)[off..off + n] == a[off..off + n]
  {
  }

  lemma SliceOfTail<T>(a: seq<T>, b: seq<T>, off: nat, n: nat)
    requires |a| <= off && off + n <= |a| + |b|
    ensures (a + b)[off..off + n] == b[off - |a|..off - |a| + n]
  {
  }

  /** Writing over a place outside a cluster keeps the cluster. */
  lemma ClusterFrame(v: Volume, d: seq<byte>, p: nat, x: seq<byte>, c: nat)
    requires WellFormed(v, |d|) && 2 <= c < v.entries && p + |x| <= |d|
    requires p + |x| <= ClusterPos(v, c) || ClusterPos(v, c) + v.bpc <= p
    ensures Cluster(v, Splice(d, p, x), c) == Cluster(v, d, c)
  {
    ClusterOnDisk(v, |d|, c);
    SpliceIndex(d, p, x);
  }

  /** Writing inside one cluster keeps every chain that does not use it. */
  lemma {:induction false} ContentFrame(v: Volume, d: seq<byte>, p: nat, x: seq<byte>, c: nat, cs: seq<nat>)
    requires WellFormed(v, |d|) && InVolume(v, cs) && 2 <= c < v.entries && p + |x| <= |d|
    requires ClusterPos(v, c) <= p && p + |x| <= ClusterPos(v, c) + v.bpc
    requires c !in cs
    ensures Content(v, Splice(d, p, x), cs) == Content(v, d, cs)
    decreases |cs|
  {
    if cs != [] {
      assert cs[0] in cs;
      ClustersDisjoint(v, c, cs[0]);
      ClusterFrame(v, d, p, x, cs[0]);
      ContentFrame(v, d, p, x, c, cs[1..]);
    }
  }

  /** Writing a piece inside one cluster of a chain is a slice update of the chain's contents. */
  lemma {:induction false} WritePiece(v: Volume, d: seq<byte>, cs: seq<nat>, off: nat, x: seq<byte>)
    requires WellFormed(v, |d|) && InVolume(v, cs) && Distinct(cs) && off < Times(|cs|, v.bpc)
    requires Sal.Rest(v.bpc, off) + |x| <= v.bpc
    ensures ChainPos(v, cs, off) + |x| <= |d| && off + |x| <= Times(|cs|, v.bpc)
    ensures Content(v, Splice(d, ChainPos(v, cs, off), x), cs) == Splice(Content(v, d, cs), off, x)
    decreases |cs|
  {
    hide Cluster, Splice, WellFormed, ClusterPos, Distinct;
    var p := ChainPos(v, cs, off);
    TimesFront(|cs|, v.bpc);
    DistinctTail(cs);
    ClusterOnDisk(v, |d|, cs[0]);
    if off < v.bpc {
      ContentFrame(v, d, p, x, cs[0], cs[1..]);
      SpliceInHead(v, d, cs[0], off, x);
      SpliceHead(Cluster(v, d, cs[0]), Content(v, d, cs[1..]), off, x);
    } else {
      ReadPiece(v, d, cs[1..], off - v.bpc, |x|);
      WritePiece(v, d, cs[1..], off - v.bpc, x);
      var k := PieceInCluster(v, |d|, cs[1..], off - v.bpc, |x|);
      ClustersDisjoint(v, cs[0], cs[1..][k]);
      ClusterFrame(v, d, p, x, cs[0]);
      SpliceTail(Cluster(v, d, cs[0]), Content(v, d, cs[1..]), off, x);
    }
  }

  lemma DistinctTail(cs: seq<nat>)
    requires Distinct(cs) && cs != []
    ensures Distinct(cs[1..]) && cs[0] !in cs[1..]
  {
  }

  lemma SpliceInHead(v: Volume, d: seq<byte>, c: nat, off: nat, x: seq<byte>)
    requires WellFormed(v, |d|) && 2 <= c < v.entries && off + |x| <= v.bpc
    ensures ClusterPos(v, c) + v.bpc <= |d|
    ensures Cluster(v, Splice(d, ClusterPos(v, c) + off, x), c) == Splice(Cluster(v, d, c), off, x)
  {
    ClusterOnDisk(v, |d|, c);
    SpliceIndex(d, ClusterPos(v, c) + off, x);
    SpliceIndex(Cluster(v, d, c), off, x);
  }

  lemma SpliceHead<T>(a: seq<T>, b: seq<T>, off: nat, x: seq<T>)
    requires off + |x| <= |a|
    ensures Splice(a + b, off, x) == Splice(a, off, x) + b
  {
    SpliceIndex(a + b, off, x);
    SpliceIndex(a, off, x);
  }

  lemma SpliceTail<T>(a: seq<T>, b: seq<T>, off: nat, x: seq<T>)
    requires |a| <= off && off + |x| <= |a| + |b|
    ensures Splice(a + b, off, x) == a + Splice(b, off - |a|, x)
  {
    SpliceIndex(a + b, off, x);
    SpliceIndex(b, off - |a|, x);
  }

  /** Contents depend only on the data region. */
  lemma {:induction false} ContentSame(v: Volume, d: seq<byte>, d': seq<byte>, cs: seq<nat>)
    requires WellFormed(v, |d|) && |d'| == |d| && InVolume(v, cs)
    requires forall i :: v.dataStart <= i < |d| ==> d'[i] == d[i]
    ensures Content(v, d', cs) == Content(v, d, cs)
    decreases |cs|
  {
    if cs != [] {
      ClusterOnDisk(v, |d|, cs[0]);
      assert Cluster(v, d', cs[0]) == Cluster(v, d, cs[0]);
      ContentSame(v, d, d', cs[1..]);
    }
  }

  /** Appending a cluster to a chain appends its bytes. */
  lemma {:induction false} ContentAppend(v: Volume, d: seq<byte>, cs: seq<nat>, c: nat)
    requires WellFormed(v, |d|) && InVolume(v, cs) && 2 <= c < v.entries
    ensures InVolume(v, cs + [c])
    ensures Content(v, d, cs + [c]) == Content(v, d, cs) + Cluster(v, d, c)
    decreases |cs|
  {
    hide WellFormed, Cluster;
    if cs == [] {
      assert [c][1..] == [];
      assert Content(v, d, [c]) == Cluster(v, d, c) + [];
    } else {
      ContentAppend(v, d, cs[1..], c);
      assert (cs + [c])[1..] == cs[1..] + [c];
    }
  }

  // ----- no two bytes of files share a place -----

  lemma InvInVolume(v: Volume, d: seq<byte>, chains: seq<seq<nat>>, i: nat)
    requires WellFormed(v, |d|) && i < |chains|
    requires Readable(v, d)
    requires Inv(Fs(TableOf(v, d), chains), EocMin(v.tables.kind))
    ensures InVolume(v, chains[i]) && Distinct(chains[i]) && chains[i] != []
  {
    assert IsChain(TableOf(v, d), EocMin(v.tables.kind), chains[i]);
  }

  /** Different (file, offset) pairs are stored at different places. */
  lemma PositionsInjective(v: Volume, d: seq<byte>, chains: seq<seq<nat>>, i: nat, off: nat, j: nat, off': nat)
    requires WellFormed(v, |d|) && i < |chains| && j < |chains|
    requires Readable(v, d)
    requires Inv(Fs(TableOf(v, d), chains), EocMin(v.tables.kind))
    requires off < Times(|chains[i]|, v.bpc) && off' < Times(|chains[j]|, v.bpc)
    ensures InVolume(v, chains[i]) && InVolume(v, chains[j])
    ensures ChainPos(v, chains[i], off) == ChainPos(v, chains[j], off') ==> i == j && off == off'
  {
    InvInVolume(v, d, chains, i);
    InvInVolume(v, d, chains, j);
    var a, r := Locate(v, chains[i], off);
    var b, r' := Locate(v, chains[j], off');
    if i != j {
      PairApart(Fs(TableOf(v, d), chains), EocMin(v.tables.kind), i, j);
      assert chains[i][a] in chains[i] && chains[j][b] in chains[j];
      ClustersDisjoint(v, chains[i][a], chains[j][b]);
    } else if a != b {
      assert chains[i][a] != chains[i][b];
      ClustersDisjoint(v, chains[i][a], chains[i][b]);
    }
  }
}
