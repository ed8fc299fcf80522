/**
 * The files of a volume as byte sequences, all at once, and how stores and chain growth change them.
 * Also the arithmetic of an append: which bytes arrive and how many clusters it takes.
 */
module FatImages {
  import opened Bytes
  import opened FatTable
  import opened FatChain
  import opened FatFiles
  import Sal

  predicate AllInVolume(v: Volume, chains: seq<seq<nat>>) {
    forall k :: 0 <= k < |chains| ==> InVolume(v, chains[k])
  }

  /** The contents of every chain. */
  ghost function Images(v: Volume, d: seq<byte>, chains: seq<seq<nat>>): (r: seq<seq<byte>>)
    requires WellFormed(v, |d|) && AllInVolume(v, chains)
    ensures |r| == |chains| && forall k :: 0 <= k < |chains| ==> r[k] == Content(v, d, chains[k])
  {
    if chains == [] then [] else
      Images(v, d, chains[..|chains| - 1]) + [Content(v, d, chains[|chains| - 1])]
  }

  lemma InvAllInVolume(v: Volume, d: seq<byte>, chains: seq<seq<nat>>)
    requires WellFormed(v, |d|) && Readable(v, d)
    requires Inv(Fs(TableOf(v, d), chains), EocMin(v.tables.kind))
    ensures AllInVolume(v, chains)
  {
    forall k | 0 <= k < |chains|
      ensures InVolume(v, chains[k])
    {
      InvInVolume(v, d, chains, k);
    }
  }

  lemma InvDistinct(fs: Fs, eoc: nat, i: nat)
    requires Inv(fs, eoc) && i < |fs.chains|
    ensures Distinct(fs.chains[i])
  {
    InvChain(fs, eoc, i);
  }

  /** A store inside one cluster of one file updates that file at that offset, and no other file. */
  lemma ImagesWrite(v: Volume, d: seq<byte>, chains: seq<seq<nat>>, i: nat, off: nat, x: seq<byte>)
    requires WellFormed(v, |d|) && Readable(v, d) && i < |chains| && AllInVolume(v, chains)
    requires Inv(Fs(TableOf(v, d), chains), EocMin(v.tables.kind))
    requires off < Times(|chains[i]|, v.bpc) && Sal.Rest(v.bpc, off) + |x| <= v.bpc
    ensures ChainPos(v, chains[i], off) + |x| <= |d| && off + |x| <= Times(|chains[i]|, v.bpc)
    ensures
      var d' := Splice(d, ChainPos(v, chains[i], off), x);
      Images(v, d', chains) == Images(v, d, chains)[i := Splice(Images(v, d, chains)[i], off, x)]
  {
    hide Inv, WellFormed, Content, ChainPos, Splice, Distinct;
    InvInVolume(v, d, chains, i);
    InvDistinct(Fs(TableOf(v, d), chains), EocMin(v.tables.kind), i);
    WritePiece(v, d, chains[i], off, x);
    var p := ChainPos(v, chains[i], off);
    var d' := Splice(d, p, x);
    var c := PieceInCluster(v, |d|, chains[i], off, |x|);
    forall k | 0 <= k < |chains| && k != i
      ensures Content(v, d', chains[k]) == Content(v, d, chains[k])
    {
      PairApart(Fs(TableOf(v, d), chains), EocMin(v.tables.kind), i, k);
      assert chains[i][c] in chains[i];
      ContentFrame(v, d, p, x, chains[i][c], chains[k]);
    }
  }

  /** A store into the data region leaves the table alone. */
  lemma TableAfterWrite(v: Volume, d: seq<byte>, p: nat, x: seq<byte>)
    requires WellFormed(v, |d|) && Readable(v, d) && v.dataStart <= p && p + |x| <= |d|
    ensures TableOf(v, Splice(d, p, x)) == TableOf(v, d)
    ensures forall k :: 0 <= k < v.dataStart ==> Splice(d, p, x)[k] == d[k]
  {
    SpliceIndex(d, p, x);
    TableFrame(v, d, Splice(d, p, x));
  }

  /** Table updates leave every file alone; a new last cluster adds its bytes to its file. */
  lemma ImagesGrow(v: Volume, d: seq<byte>, d': seq<byte>, chains: seq<seq<nat>>, i: nat, f: nat)
    requires WellFormed(v, |d|) && |d'| == |d| && AllInVolume(v, chains) && i < |chains| && 2 <= f < v.entries
    requires OutsideKept(v.tables, d, d')
    ensures AllInVolume(v, chains[i := chains[i] + [f]])
    ensures Images(v, d', chains[i := chains[i] + [f]])
         == Images(v, d, chains)[i := Images(v, d, chains)[i] + Cluster(v, d, f)]
  {
    var chains' := chains[i := chains[i] + [f]];
    ContentAppend(v, d, chains[i], f);
    forall k | 0 <= k < |chains'|
      ensures InVolume(v, chains'[k]) && Content(v, d', chains'[k]) == Content(v, d, chains'[k])
    {
      ContentSame(v, d, d', chains'[k]);
    }
  }

  /** Table updates and a dropped chain leave every other file alone. */
  lemma ImagesDrop(v: Volume, d: seq<byte>, d': seq<byte>, chains: seq<seq<nat>>, i: nat)
    requires WellFormed(v, |d|) && |d'| == |d| && AllInVolume(v, chains) && i < |chains|
    requires OutsideKept(v.tables, d, d')
    ensures AllInVolume(v, Drop(chains, i))
    ensures Images(v, d', Drop(chains, i)) == Drop(Images(v, d, chains), i)
  {
    hide WellFormed, OutsideKept, Content, Images, Drop;
    var rest := Drop(chains, i);
    forall k | 0 <= k < |rest|
      ensures InVolume(v, rest[k]) && Content(v, d', rest[k]) == Content(v, d, rest[k])
    {
      assert rest[k] == chains[if k < i then k else k + 1];
      DataSame(v, d, d', rest[k]);
    }
  }

  /** A new chain of one cluster adds a file that holds what the cluster held. */
  lemma ImagesCreate(v: Volume, d: seq<byte>, d': seq<byte>, chains: seq<seq<nat>>, f: nat)
    requires WellFormed(v, |d|) && |d'| == |d| && AllInVolume(v, chains) && 2 <= f < v.entries
    requires OutsideKept(v.tables, d, d')
    ensures AllInVolume(v, chains + [[f]])
    ensures Images(v, d', chains + [[f]]) == Images(v, d, chains) + [Cluster(v, d, f)]
  {
    hide WellFormed, Cluster, OutsideKept;
    NewContent(v, d, f);
    var chains' := chains + [[f]];
    forall k | 0 <= k < |chains'|
      ensures InVolume(v, chains'[k]) && Content(v, d', chains'[k]) == Content(v, d, chains'[k])
    {
      DataSame(v, d, d', chains'[k]);
    }
  }

  lemma NewContent(v: Volume, d: seq<byte>, f: nat)
    requires WellFormed(v, |d|) && 2 <= f < v.entries
    ensures InVolume(v, [f]) && Content(v, d, [f]) == Cluster(v, d, f)
  {
    hide WellFormed, Cluster;
    ContentAppend(v, d, [], f);
  }

  lemma DataSame(v: Volume, d: seq<byte>, d': seq<byte>, cs: seq<nat>)
    requires WellFormed(v, |d|) && |d'| == |d| && InVolume(v, cs) && OutsideKept(v.tables, d, d')
    ensures Content(v, d', cs) == Content(v, d, cs)
  {
    ContentSame(v, d, d', cs);
  }

  /**
   * The reserved area and the root directory, which no file operation may touch, are kept, and copies
   * of the table that were equal still are.
   */
  ghost predicate MetaKept(v: Volume, d: seq<byte>, d': seq<byte>) {
    |d'| == |d| && (Mirrored(v.tables, d) ==> Mirrored(v.tables, d')) &&
    forall i :: 0 <= i < |d| && i < v.dataStart && (i < v.tables.fatStart || TablesEnd(v.tables) <= i) ==>
      d'[i] == d[i]
  }

  lemma MetaTrans(v: Volume, d: seq<byte>, d': seq<byte>, d'': seq<byte>)
    requires MetaKept(v, d, d') && MetaKept(v, d', d'')
    ensures MetaKept(v, d, d'')
  {
  }

  /** A store into the data region keeps them. */
  lemma DataKeepsMeta(v: Volume, d: seq<byte>, p: nat, x: seq<byte>)
    requires WellFormed(v, |d|) && v.dataStart <= p && p + |x| <= |d|
    ensures MetaKept(v, d, Splice(d, p, x))
  {
    SpliceIndex(d, p, x);
    var d' := Splice(d, p, x);
    if Mirrored(v.tables, d) {
      forall i, k | 0 <= i < v.tables.numFat && 0 <= k < v.tables.fatBytes
        ensures CopyByte(v.tables, d', i, k) == CopyByte(v.tables, d', 0, k)
      {
        CopyInTables(v.tables, i);
        CopyInTables(v.tables, 0);
        assert CopyByte(v.tables, d, i, k) == CopyByte(v.tables, d, 0, k);
      }
    }
  }

  // ----- counting free clusters -----

  function FreeCount(table: seq<nat>, from: nat): (n: nat)
    ensures n > 0 <==> from < |table| && exists c :: from <= c < |table| && table[c] == 0
    decreases |table| - from
  {
    if from >= |table| then 0
    else (if table[from] == 0 then 1 else 0) + FreeCount(table, from + 1)
  }

  lemma FreeCountFinds(table: seq<nat>)
    ensures FreeCount(table, 2) > 0 ==> FindFree(table, 2) != 0
  {
  }

  lemma {:induction false} FreeCountUpdate(table: seq<nat>, from: nat, c: nat, x: nat)
    requires c < |table|
    ensures FreeCount(table[c := x], from) ==
      FreeCount(table, from) + (if from <= c && x == 0 then 1 else 0) - (if from <= c && table[c] == 0 then 1 else 0)
    decreases |table| - from
  {
    if from < |table| {
      FreeCountUpdate(table, from + 1, c, x);
    }
  }

  lemma FreeCountLinked(table: seq<nat>, last: nat, f: nat, mark: nat)
    requires last < |table| && 2 <= f < |table| && last != f && table[f] == 0 && table[last] != 0 && mark != 0
    ensures FreeCount(Linked(table, last, f, mark), 2) == FreeCount(table, 2) - 1
  {
    FreeCountUpdate(table, 2, last, f);
    FreeCountUpdate(table[last := f], 2, f, mark);
  }

  // ----- the arithmetic of an append -----

  /** How many times `d` fits into `x`. */
  function Quot(d: nat, x: nat): (q: nat)
    requires 0 < d
  {
    if x < d then 0 else 1 + Quot(d, x - d)
  }

  lemma {:induction false} QuotIsDiv(d: nat, x: nat)
    requires 0 < d
    ensures Quot(d, x) == x / d
    decreases x
  {
    if x < d {
      DivModUnique(x, d, 0, x);
    } else {
      QuotIsDiv(d, x - d);
      ModStep(x - d, d);
    }
  }

  /** Bytes of a transfer of `len` bytes that complete the cluster in which `pos` lies. */
  function HeadPart(bpc: nat, pos: nat, len: nat): (n: nat)
    requires 0 < bpc
    ensures n <= len && Sal.Rest(bpc, pos) + n <= bpc
  {
    var r := Sal.Rest(bpc, pos);
    if r == 0 then 0 else if bpc - r >= len then len else bpc - r
  }

  /** Whether the head of an append reaches the disk whole; a caller can compute this beforehand. */
  predicate HeadExact(v: Volume, size: nat, len: nat)
    requires 0 < v.bpc && 0 < v.sectorSize
  {
    Sal.Exact(v.sectorSize, size % v.sectorSize, HeadPart(v.bpc, size, len))
  }

  /** The head's bounced copy stays inside the bounce buffer; true of every sector size up to 2048. */
  predicate HeadSafe(v: Volume, size: nat, len: nat)
    requires 0 < v.bpc && 0 < v.sectorSize
  {
    Sal.BufferSafe(v.sectorSize, size % v.sectorSize, HeadPart(v.bpc, size, len))
  }

  /** With one sector for each cluster every head is exact. */
  lemma OneSectorClustersExact(v: Volume, size: nat, len: nat)
    requires 0 < v.sectorSize == v.bpc <= Sal.TEMP_SIZE
    ensures HeadExact(v, size, len) && HeadSafe(v, size, len)
  {
    RestIsMod(v.bpc, size);
  }

  /** With sectors up to 2048 bytes no head overruns the bounce buffer. */
  lemma SmallSectorsHeadSafe(v: Volume, size: nat, len: nat)
    requires 0 < v.bpc && 0 < v.sectorSize <= 2048
    ensures HeadSafe(v, size, len)
  {
    Sal.SmallSectorsAreSafe(v.sectorSize, size % v.sectorSize, HeadPart(v.bpc, size, len));
  }

  /** What an append of `data` at `size` really adds to the file: the head may lose bytes. */
  ghost function Arrives(v: Volume, d: seq<byte>, cs: seq<nat>, size: nat, data: seq<byte>): (r: seq<byte>)
    requires WellFormed(v, |d|) && InVolume(v, cs) && size <= Times(|cs|, v.bpc)
    ensures |r| == |data|
  {
    var n := HeadPart(v.bpc, size, |data|);
    if Sal.Rest(v.bpc, size) == 0 then data
    else
      RestZeroAtEnd(v.bpc, |cs|);
      PieceOnDisk(v, |d|, cs, size, n);
      Sal.Landed(d, v.sectorSize, size % v.sectorSize, ChainPos(v, cs, size), data[..n]) + data[n..]
  }

  lemma {:induction false} RestZeroAtEnd(bpc: nat, n: nat)
    requires 0 < bpc
    ensures Sal.Rest(bpc, Times(n, bpc)) == 0
  {
    if n > 0 {
      RestZeroAtEnd(bpc, n - 1);
    }
  }

  lemma ArrivesWhole(v: Volume, d: seq<byte>, cs: seq<nat>, size: nat, data: seq<byte>)
    requires WellFormed(v, |d|) && InVolume(v, cs) && size <= Times(|cs|, v.bpc)
    requires HeadExact(v, size, |data|)
    ensures Arrives(v, d, cs, size, data) == data
  {
    hide EntryExact, ChainPos, Sal.Landed, Sal.Exact;
    var n := HeadPart(v.bpc, size, |data|);
    if Sal.Rest(v.bpc, size) != 0 {
      RestZeroAtEnd(v.bpc, |cs|);
      PieceOnDisk(v, |d|, cs, size, n);
      Sal.LandedWhole(d, v.sectorSize, size % v.sectorSize, ChainPos(v, cs, size), data[..n]);
      assert data[..n] + data[n..] == data;
    }
  }

  lemma HeadLoses(v: Volume, d: seq<byte>, cs: seq<nat>, size: nat, len: nat) returns (data: seq<byte>)
    requires WellFormed(v, |d|) && InVolume(v, cs) && size <= Times(|cs|, v.bpc)
    requires !HeadExact(v, size, len)
    ensures |data| == len && Arrives(v, d, cs, size, data) != data
  {
    var n, o := HeadPart(v.bpc, size, len), size % v.sectorSize;
    RestZeroAtEnd(v.bpc, |cs|);
    PieceOnDisk(v, |d|, cs, size, n);
    var p := ChainPos(v, cs, size);
    Sal.WriteFaithfulIff(d, v.sectorSize, o, p, n);
    var head: seq<byte> :| |head| == n && Sal.Landed(d, v.sectorSize, o, p, head) != head;
    data := head + Zeros(len - n);
    assert data[..n] == head;
    assert Arrives(v, d, cs, size, data)[..n] == Sal.Landed(d, v.sectorSize, o, p, head);
  }

  /** The data arrives whole, whatever it is, exactly when the head is exact. */
  lemma ArrivesWholeIff(v: Volume, d: seq<byte>, cs: seq<nat>, size: nat, len: nat)
    requires WellFormed(v, |d|) && InVolume(v, cs) && size <= Times(|cs|, v.bpc)
    ensures HeadExact(v, size, len) <==>
      forall data: seq<byte> :: |data| == len ==> Arrives(v, d, cs, size, data) == data
  {
    if HeadExact(v, size, len) {
      forall data: seq<byte> | |data| == len
        ensures Arrives(v, d, cs, size, data) == data
      {
        ArrivesWhole(v, d, cs, size, data);
      }
    } else {
      var data := HeadLoses(v, d, cs, size, len);
    }
  }

  /** The bytes of an append that do not arrive: behind the end of the sector in which its short head starts. */
  predicate Loses(v: Volume, size: nat, len: nat, k: nat)
    requires 0 < v.bpc && 0 < v.sectorSize
  {
    var head := if v.bpc - size % v.bpc < len then v.bpc - size % v.bpc else len;
    && size % v.bpc != 0 && size % v.sectorSize != 0 && head < v.sectorSize
    && v.sectorSize - size % v.sectorSize <= k < head
  }

  /** Each byte of an append is the data's, or, if it is lost, what the file's cluster held there. */
  lemma ArrivesByte(v: Volume, d: seq<byte>, cs: seq<nat>, size: nat, data: seq<byte>, k: nat)
    requires WellFormed(v, |d|) && InVolume(v, cs) && size <= Times(|cs|, v.bpc) && k < |data|
    ensures Loses(v, size, |data|, k) ==> size + k < Times(|cs|, v.bpc)
    ensures Arrives(v, d, cs, size, data)[k] ==
      if Loses(v, size, |data|, k) then Content(v, d, cs)[size + k] else data[k]
  {
    hide WellFormed, ChainPos, Content, InVolume, Sal.Landed, Sal.Rest;
    Bounds(v, |d|);
    RestIsMod(v.bpc, size);
    var n := HeadPart(v.bpc, size, |data|);
    if Sal.Rest(v.bpc, size) != 0 && k < n {
      HeadByte(v, d, cs, size, data[..n], k);
      ArrivesFirst(v, d, cs, size, data, k);
    }
  }

  lemma ArrivesFirst(v: Volume, d: seq<byte>, cs: seq<nat>, size: nat, data: seq<byte>, k: nat)
    requires WellFormed(v, |d|) && InVolume(v, cs) && size < Times(|cs|, v.bpc)
    requires Sal.Rest(v.bpc, size) != 0 && k < HeadPart(v.bpc, size, |data|)
    ensures
      var head := data[..HeadPart(v.bpc, size, |data|)];
      && ChainPos(v, cs, size) + |head| <= |d|
      && Arrives(v, d, cs, size, data)[k]
         == Sal.Landed(d, v.sectorSize, size % v.sectorSize, ChainPos(v, cs, size), head)[k]
  {
    hide ChainPos, Content, InVolume, Sal.Landed, Sal.Rest, EntryExact;
    PieceOnDisk(v, |d|, cs, size, HeadPart(v.bpc, size, |data|));
  }

  lemma HeadByte(v: Volume, d: seq<byte>, cs: seq<nat>, size: nat, head: seq<byte>, k: nat)
    requires WellFormed(v, |d|) && InVolume(v, cs) && size <= Times(|cs|, v.bpc) && k < |head|
    requires Sal.Rest(v.bpc, size) != 0 && Sal.Rest(v.bpc, size) + |head| <= v.bpc
    ensures size + |head| <= Times(|cs|, v.bpc) && size < Times(|cs|, v.bpc)
    ensures ChainPos(v, cs, size) + |head| <= |d|
    ensures Sal.Landed(d, v.sectorSize, size % v.sectorSize, ChainPos(v, cs, size), head)[k] ==
      if size % v.sectorSize == 0 || |head| >= v.sectorSize || size % v.sectorSize + k < v.sectorSize then head[k]
      else Content(v, d, cs)[size + k]
  {
    hide WellFormed, ChainPos, Content, InVolume, Sal.Landed, Sal.Rest;
    Bounds(v, |d|);
    RestZeroAtEnd(v.bpc, |cs|);
    ReadPiece(v, d, cs, size, |head|);
    Sal.LandedByte(d, v.sectorSize, size % v.sectorSize, ChainPos(v, cs, size), head, k);
    SliceElements(d, ChainPos(v, cs, size), Content(v, d, cs), size, |head|, k);
  }

  lemma SliceElements<T>(s: seq<T>, a: nat, t: seq<T>, b: nat, n: nat, k: nat)
    requires a + n <= |s| && b + n <= |t| && s[a..a + n] == t[b..b + n] && k < n
    ensures s[a + k] == t[b + k]
  {
    assert s[a..a + n][k] == t[b..b + n][k];
  }

  function Zeros(n: nat): (r: seq<byte>)
    ensures |r| == n
  {
    if n == 0 then [] else Zeros(n - 1) + [0]
  }

  /** Clusters that an append of `len` bytes at `size` takes from the volume. */
  function Grows(bpc: nat, size: nat, len: nat): (n: nat)
    requires 0 < bpc
  {
    var w := HeadPart(bpc, size, len);
    FirstGrow(bpc, size) + Quot(bpc, len - w) + TailGrow(bpc, size + w, len - w)
  }

  /** A non-empty file that fills its last cluster grows before anything is written. */
  function FirstGrow(bpc: nat, size: nat): (n: nat)
    requires 0 < bpc
  {
    if size > 0 && Sal.Rest(bpc, size) == 0 then 1 else 0
  }

  /** After the head, at `size`: whether the last partial cluster of `len` bytes needs a new cluster. */
  function TailGrow(bpc: nat, size: nat, len: nat): (n: nat)
    requires 0 < bpc
  {
    if Sal.Rest(bpc, len) > 0 && (size > 0 || len >= bpc) then 1 else 0
  }

  /** Unless the head takes all the data, it ends on a cluster boundary. */
  lemma HeadCompletes(bpc: nat, size: nat, len: nat)
    requires 0 < bpc && HeadPart(bpc, size, len) < len
    ensures Sal.Rest(bpc, size + HeadPart(bpc, size, len)) == 0
  {
    RestCompletes(bpc, size);
  }

  lemma {:induction false} RestCompletes(bpc: nat, size: nat)
    requires 0 < bpc
    ensures Sal.Rest(bpc, size + (bpc - Sal.Rest(bpc, size))) == 0
    decreases size
  {
    if size >= bpc {
      RestCompletes(bpc, size - bpc);
    }
  }

  /** The tail grows the chain exactly when bytes remain and the file is not empty by then. */
  lemma TailGrowIs(bpc: nat, size: nat, len: nat)
    requires 0 < bpc
    ensures TailGrow(bpc, size, len) ==
      if Sal.Rest(bpc, len) > 0 && size + (len - Sal.Rest(bpc, len)) > 0 then 1 else 0
  {
  }

  lemma {:induction false} QuotMono(d: nat, x: nat, y: nat)
    requires 0 < d && x <= y
    ensures Quot(d, x) <= Quot(d, y)
    decreases y
  {
    if x >= d {
      QuotMono(d, x - d, y - d);
    }
  }

  /** The least number of clusters that holds a file of `size` bytes; a file has at least one. */
  function Holding(bpc: nat, size: nat): (n: nat)
    requires 0 < bpc
    ensures 0 < n && size <= n * bpc && (1 < n ==> (n - 1) * bpc < size)
  {
    var n := if size == 0 then 1 else (size - 1) / bpc + 1;
    HoldingIs(bpc, size, n);
    n
  }

  lemma HoldingIs(bpc: nat, size: nat, n: nat)
    requires 0 < bpc && n == if size == 0 then 1 else (size - 1) / bpc + 1
    ensures 0 < n && size <= n * bpc && (1 < n ==> (n - 1) * bpc < size)
  {
    if size > 0 {
      var q := (size - 1) / bpc;
      assert size - 1 == q * bpc + (size - 1) % bpc;
      assert (q + 1) * bpc == q * bpc + bpc;
    }
  }

  /**
   * The exact count of an append: the clusters that the longer file needs beyond those the file needed,
   * and one spare if and only if the file ended with a cluster, or was empty and gets a whole one.
   */
  lemma GrowsExact(bpc: nat, size: nat, len: nat)
    requires 0 < bpc
    ensures Holding(bpc, size) + Grows(bpc, size, len)
         == Holding(bpc, size + len) + if size % bpc == 0 && (size > 0 || len >= bpc) then 1 else 0
  {
    hide Holding, Quot, Sal.Rest, HeadPart, Grows;
    RestIsMod(bpc, size);
    HoldingByRest(bpc, size);
    HoldingByRest(bpc, size + len);
    if Sal.Rest(bpc, size) == 0 {
      GrowsAligned(bpc, size, len);
    } else if Sal.Rest(bpc, size) + len <= bpc {
      GrowsInside(bpc, size, len);
    } else {
      GrowsAcross(bpc, size, len);
    }
  }

  lemma GrowsAligned(bpc: nat, size: nat, len: nat)
    requires 0 < bpc && Sal.Rest(bpc, size) == 0
    ensures Quot(bpc, size + len) == Quot(bpc, size) + Quot(bpc, len)
    ensures Sal.Rest(bpc, size + len) == Sal.Rest(bpc, len)
    ensures Grows(bpc, size, len) ==
      (if size > 0 then 1 else 0) + Quot(bpc, len) + TailGrow(bpc, size, len)
    ensures len < bpc ==> Quot(bpc, len) == 0 && Sal.Rest(bpc, len) == len
    ensures size > 0 ==> Quot(bpc, size) > 0
    ensures size == 0 ==> Quot(bpc, size) == 0
    ensures len >= bpc ==> Quot(bpc, len) > 0
  {
    QuotSum(bpc, size, len);
  }

  lemma GrowsInside(bpc: nat, size: nat, len: nat)
    requires 0 < bpc && Sal.Rest(bpc, size) != 0 && Sal.Rest(bpc, size) + len <= bpc
    ensures Grows(bpc, size, len) == 0
    ensures Quot(bpc, size + len) + (if Sal.Rest(bpc, size + len) == 0 then 0 else 1) == Quot(bpc, size) + 1
  {
    WholeAnd(bpc, size, len);
  }

  lemma GrowsAcross(bpc: nat, size: nat, len: nat)
    requires 0 < bpc && Sal.Rest(bpc, size) != 0 && Sal.Rest(bpc, size) + len > bpc
    ensures Quot(bpc, size + len) + (if Sal.Rest(bpc, size + len) == 0 then 0 else 1)
         == Quot(bpc, size) + 1 + Grows(bpc, size, len)
  {
    hide Quot, Sal.Rest;
    var w := bpc - Sal.Rest(bpc, size);
    WholeAnd(bpc, size, w);
    QuotSum(bpc, size + w, len - w);
  }

  /** Clusters needed, by whole clusters and the bytes that are left. */
  lemma HoldingByRest(bpc: nat, size: nat)
    requires 0 < bpc
    ensures Holding(bpc, size) ==
      if size == 0 then 1 else Quot(bpc, size) + if Sal.Rest(bpc, size) == 0 then 0 else 1
  {
    hide Quot, Sal.Rest;
    QuotIsDiv(bpc, size);
    RestIsMod(bpc, size);
    if size > 0 {
      DivBefore(size, bpc);
    } else {
      DivModUnique(0, bpc, 0, 0);
    }
  }

  lemma DivBefore(x: nat, d: nat)
    requires 0 < x && 0 < d
    ensures (x - 1) / d == x / d - if x % d == 0 then 1 else 0
  {
    var q, r := x / d, x % d;
    assert x == q * d + r;
    if r > 0 {
      DivModUnique(x - 1, d, q, r - 1);
    } else {
      assert q * d == (q - 1) * d + d;
      DivModUnique(x - 1, d, q - 1, d - 1);
    }
  }

  /** Behind whole clusters, counts and rests add up. */
  lemma {:induction false} QuotSum(d: nat, x: nat, y: nat)
    requires 0 < d && Sal.Rest(d, x) == 0
    ensures Quot(d, x + y) == Quot(d, x) + Quot(d, y) && Sal.Rest(d, x + y) == Sal.Rest(d, y)
    decreases x
  {
    if x >= d {
      QuotSum(d, x - d, y);
    }
  }

  /** Bytes that stay inside the last cluster of `x` bytes, or complete it. */
  lemma {:induction false} WholeAnd(d: nat, x: nat, y: nat)
    requires 0 < d
    ensures Sal.Rest(d, x) + y < d ==>
      Quot(d, x + y) == Quot(d, x) && Sal.Rest(d, x + y) == Sal.Rest(d, x) + y
    ensures Sal.Rest(d, x) + y == d ==> Quot(d, x + y) == Quot(d, x) + 1 && Sal.Rest(d, x + y) == 0
    decreases x
  {
    if x >= d {
      WholeAnd(d, x - d, y);
    }
  }

  /** No append takes more than two clusters beyond the whole clusters it writes. */
  lemma GrowsBound(bpc: nat, size: nat, len: nat)
    requires 0 < bpc
    ensures Grows(bpc, size, len) <= len / bpc + 2
  {
    QuotMono(bpc, len - HeadPart(bpc, size, len), len);
    QuotIsDiv(bpc, len);
  }
}
