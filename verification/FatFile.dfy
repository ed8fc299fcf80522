/** Open files: appending, reading and seeking. A file is a byte sequence. */
module FatFile {
  import opened Bytes
  import opened FatTable
  import opened FatChain
  import opened FatFiles
  import opened FatImages
  import opened FatDriver
  import Sal

  lemma AppendPrefix<T>(f: seq<T>, ext: seq<T>, size: nat, x: seq<T>)
    requires size <= |f| && size + |x| <= |f| + |ext|
    ensures Splice(f + ext, size, x)[..size + |x|] == f[..size] + x
  {
    SpliceSlices(f + ext, size, x);
  }

  /** Storing one aligned piece, cluster by cluster or as the last partial cluster, lands whole. */
  lemma AlignedExact(v: Volume, size: nat, off: nat, n: nat)
    requires WellFormed(v, size) && Sal.Rest(v.bpc, off) == 0
    ensures off % v.sectorSize == 0
    ensures Sal.Exact(v.sectorSize, 0, n) && Sal.BufferSafe(v.sectorSize, 0, n)
  {
    RestZeroMod(v.bpc, off, v.sectorSize);
  }

  lemma {:induction false} RestZeroMod(m: nat, x: nat, d: nat)
    requires 0 < m && 0 < d && m % d == 0 && Sal.Rest(m, x) == 0
    ensures x % d == 0
    decreases x
  {
    if x < m {
      DivModUnique(0, d, 0, 0);
    } else {
      RestZeroMod(m, x - m, d);
      ModOfSum(x - m, m, d);
    }
  }

  class File {
    const driver: Driver
    const startingClus: nat
    var size: nat
    var position: nat
    const readable: bool
    const writable: bool

    constructor (driver: Driver, startingClus: nat, size: nat, readable: bool, writable: bool)
      ensures this.driver == driver && this.startingClus == startingClus
      ensures this.size == size && this.position == 0 && this.readable == readable && this.writable == writable
    {
      this.driver, this.startingClus, this.size, this.position := driver, startingClus, size, 0;
      this.readable, this.writable := readable, writable;
    }

    /** The file is chain `i` of a valid volume, and the chain is long enough for its size. */
    ghost predicate Valid(i: nat)
      reads this, driver, driver.storage.device
      ensures Valid(i) ==> driver.Valid() && i < |driver.chains| && 0 < driver.v.bpc
      ensures Valid(i) ==> size <= Times(|driver.chains[i]|, driver.v.bpc)
    {
      && driver.Valid() && i < |driver.chains| && driver.chains[i] != [] && driver.chains[i][0] == startingClus
      && size <= Times(|driver.chains[i]|, driver.v.bpc)
    }

    /** The bytes of the file. */
    ghost function Bytes(i: nat): seq<byte>
      requires Valid(i)
      reads this, driver, driver.storage.device
    {
      driver.Files()[i][..size]
    }

    /** Stores `piece` at the cluster-aligned end of the file, inside the clusters it already has. */
    method StoreAligned(piece: seq<byte>, ghost i: nat)
      requires Valid(i) && Sal.Rest(driver.v.bpc, size) == 0 && 0 < |piece| <= driver.v.bpc
      requires size < Times(|driver.chains[i]|, driver.v.bpc)
      modifies driver.storage.device, driver.storage.readTemp, driver.storage.writeTemp
      ensures Valid(i) && driver.Free() == old(driver.Free())
      ensures size + |piece| <= Times(|driver.chains[i]|, driver.v.bpc)
      ensures driver.Files()[i][..size + |piece|] == old(Bytes(i)) + piece
      ensures driver.Files() == old(driver.Files())[i := driver.Files()[i]]
      ensures MetaKept(driver.v, old(driver.Disk()), driver.Disk())
    {
      hide Driver.Valid, Driver.Files, Driver.Free;
      ghost var was := driver.Files()[i];
      driver.LaidOut();
      AlignedExact(driver.v, |driver.Disk()|, size, |piece|);
      PieceInFile(driver.v, |driver.chains[i]|, size, |piece|);
      AppendPrefix(was, [], size, piece);
      assert was + [] == was;
      var off := Place(size, i);
      driver.StoreExact(off, piece, i, size);
    }

    /** The disk position of byte `off` of the file. */
    method Place(off: nat, ghost i: nat) returns (pos: nat)
      requires Valid(i)
      modifies driver.storage.readTemp
      ensures Valid(i) && InVolume(driver.v, driver.chains[i])
      ensures off < Times(|driver.chains[i]|, driver.v.bpc) ==> pos == ChainPos(driver.v, driver.chains[i], off)
    {
      assert IsChain(TableOf(driver.v, driver.Disk()), EocMin(driver.v.tables.kind), driver.chains[i]);
      ChainWalks(driver.v, driver.Disk(), driver.Stale(), driver.chains[i], off);
      var last;
      pos, last := driver.AbsoluteOffset(startingClus, off);
    }

    /** `FAT_allocate_cluster` on this file: room for one more cluster, the same bytes. */
    method MakeRoom(ghost i: nat)
      requires Valid(i) && driver.Free() > 0
      modifies driver`chains, driver.storage.device, driver.storage.readTemp, driver.storage.writeTemp
      ensures Valid(i) && driver.Free() == old(driver.Free()) - 1 && |driver.chains| == old(|driver.chains|)
      ensures |driver.chains[i]| == old(|driver.chains[i]|) + 1
      ensures size < Times(|driver.chains[i]|, driver.v.bpc)
      ensures Bytes(i) == old(Bytes(i))
      ensures driver.chains == old(driver.chains)[i := driver.chains[i]]
      ensures driver.Files() == old(driver.Files())[i := driver.Files()[i]]
      ensures MetaKept(driver.v, old(driver.Disk()), driver.Disk())
    {
      hide Driver.Valid, Driver.Files, Driver.Free;
      var ext := driver.Grow(startingClus, i);
      TimesFront(|driver.chains[i]|, driver.v.bpc);
    }

    /** Appends an aligned piece that fits the clusters the file has. */
    method Push(piece: seq<byte>, ghost i: nat)
      requires Valid(i) && Sal.Rest(driver.v.bpc, size) == 0 && 0 < |piece| <= driver.v.bpc
      requires size < Times(|driver.chains[i]|, driver.v.bpc)
      modifies this`size, driver.storage.device, driver.storage.readTemp, driver.storage.writeTemp
      ensures Valid(i) && size == old(size) + |piece| && driver.Free() == old(driver.Free())
      ensures Bytes(i) == old(Bytes(i)) + piece
      ensures driver.Files() == old(driver.Files())[i := driver.Files()[i]]
      ensures MetaKept(driver.v, old(driver.Disk()), driver.Disk())
    {
      hide Driver.Valid, Driver.Files, Driver.Free;
      StoreAligned(piece, i);
      size := size + |piece|;
    }

    /** One turn of the whole-cluster loop of `FAT_write`. */
    method PushCluster(piece: seq<byte>, ghost i: nat)
      requires Valid(i) && Sal.Rest(driver.v.bpc, size) == 0 && |piece| == driver.v.bpc && driver.Free() > 0
      modifies this`size, driver`chains, driver.storage.device, driver.storage.readTemp, driver.storage.writeTemp
      ensures Valid(i) && size == old(size) + |piece| && Sal.Rest(driver.v.bpc, size) == 0
      ensures driver.Free() == old(driver.Free()) - 1 && |driver.chains[i]| == old(|driver.chains[i]|) + 1
      ensures Bytes(i) == old(Bytes(i)) + piece
      ensures driver.chains == old(driver.chains)[i := driver.chains[i]]
      ensures driver.Files() == old(driver.Files())[i := driver.Files()[i]]
      ensures MetaKept(driver.v, old(driver.Disk()), driver.Disk())
    {
      hide *;
      ghost var d := driver.Disk();
      MakeRoom(i);
      ghost var d' := driver.Disk();
      RestStep(driver.v.bpc, size);
      Push(piece, i);
      MetaTrans(driver.v, d, d', driver.Disk());
    }

    /** The whole-cluster loop of `FAT_write`, from `start` on. */
    method WriteWhole(data: seq<byte>, start: nat, ghost i: nat) returns (written: nat)
      requires Valid(i) && start <= |data| && (start < |data| ==> Sal.Rest(driver.v.bpc, size) == 0)
      requires driver.Free() >= Quot(driver.v.bpc, |data| - start)
      modifies this`size, driver`chains, driver.storage.device, driver.storage.readTemp, driver.storage.writeTemp
      ensures Valid(i) && start <= written <= |data| && size == old(size) + (written - start)
      ensures |data| - written == Sal.Rest(driver.v.bpc, |data| - start)
      ensures written < |data| ==> Sal.Rest(driver.v.bpc, size) == 0
      ensures |driver.chains[i]| == old(|driver.chains[i]|) + Quot(driver.v.bpc, |data| - start)
      ensures driver.Free() == old(driver.Free()) - Quot(driver.v.bpc, |data| - start)
      ensures Bytes(i) == old(Bytes(i)) + data[start..written]
      ensures driver.chains == old(driver.chains)[i := driver.chains[i]]
      ensures driver.Files() == old(driver.Files())[i := driver.Files()[i]]
      ensures MetaKept(driver.v, old(driver.Disk()), driver.Disk())
      ensures start == |data| ==> size == old(size)
    {
      hide *;
      var bpc := driver.v.bpc;
      written := start;
      ghost var files, bytes, free, n, d := driver.Files(), Bytes(i), driver.Free(), |driver.chains[i]|, driver.Disk();
      ghost var chains := driver.chains;
      MetaSame(driver.v, d);
      while |data| - written >= bpc
        invariant Valid(i) && start <= written <= |data| && size == old(size) + (written - start)
        invariant Sal.Rest(bpc, |data| - written) == Sal.Rest(bpc, |data| - start)
        invariant written < |data| ==> Sal.Rest(bpc, size) == 0
        invariant |driver.chains[i]| + Quot(bpc, |data| - written) == n + Quot(bpc, |data| - start)
        invariant driver.Free() - Quot(bpc, |data| - written) == free - Quot(bpc, |data| - start)
        invariant Bytes(i) == bytes + data[start..written]
        invariant driver.chains == chains[i := driver.chains[i]]
        invariant driver.Files() == files[i := driver.Files()[i]]
        invariant MetaKept(driver.v, d, driver.Disk())
      {
        PartStep(bpc, |data| - written);
        ghost var d' := driver.Disk();
        PushCluster(data[written..written + bpc], i);
        MetaTrans(driver.v, d, d', driver.Disk());
        assert bytes + data[start..written] + data[written..written + bpc] == bytes + data[start..written + bpc];
        written := written + bpc;
      }
      PartStep(bpc, |data| - written);
    }

    /** The first phase of `FAT_write`: completes the last cluster, at the disk position `off`. */
    method WriteHead(data: seq<byte>, off: nat, ghost i: nat) returns (written: nat)
      requires Valid(i) && HeadSafe(driver.v, size, |data|) && InVolume(driver.v, driver.chains[i])
      requires Sal.Rest(driver.v.bpc, size) != 0 && size < Times(|driver.chains[i]|, driver.v.bpc) ==>
        off == ChainPos(driver.v, driver.chains[i], size)
      modifies this`size, driver.storage.device, driver.storage.writeTemp
      ensures Valid(i) && written == HeadPart(driver.v.bpc, old(size), |data|) && size == old(size) + written
      ensures driver.Free() == old(driver.Free())
      ensures old(WellFormed(driver.v, |driver.Disk()|))
      ensures Bytes(i) == old(Bytes(i)) + old(Arrives(driver.v, driver.Disk(), driver.chains[i], size, data))[..written]
      ensures driver.Files() == old(driver.Files())[i := driver.Files()[i]]
      ensures MetaKept(driver.v, old(driver.Disk()), driver.Disk())
    {
      hide Driver.Valid, Driver.Files, Driver.Free, WellFormed, Arrives, ChainPos, Splice, Sal.Landed,
        MetaKept, InVolume;
      driver.LaidOut();
      MetaSame(driver.v, driver.Disk());
      written := HeadPart(driver.v.bpc, size, |data|);
      ghost var v, cs, d, was := driver.v, driver.chains[i], driver.Disk(), driver.Files()[i];
      RestIsMod(v.bpc, size);
      RestZeroAtEnd(v.bpc, |cs|);
      if size % driver.v.bpc != 0 {
        PieceOnDisk(v, |d|, cs, size, written);
        PieceInFile(v, |cs|, size, written);
        ghost var landed := Sal.Landed(d, v.sectorSize, size % v.sectorSize, off, data[..written]);
        ArrivesHead(v, d, cs, size, data);
        AppendPrefix(was, [], size, landed);
        assert was + [] == was;
        driver.StorePiece(off, data[..written], i, size);
        size := size + written;
      }
    }

    /** The last phase of `FAT_write`: the partial cluster at the end. */
    method WriteTail(data: seq<byte>, ghost i: nat)
      requires Valid(i) && |data| < driver.v.bpc && (data != [] ==> Sal.Rest(driver.v.bpc, size) == 0)
      requires driver.Free() >= if data != [] && size > 0 then 1 else 0
      modifies this`size, driver`chains, driver.storage.device, driver.storage.readTemp, driver.storage.writeTemp
      ensures Valid(i) && size == old(size) + |data|
      ensures driver.Free() == old(driver.Free()) - if data != [] && old(size) > 0 then 1 else 0
      ensures |driver.chains[i]| == old(|driver.chains[i]|) + if data != [] && old(size) > 0 then 1 else 0
      ensures Bytes(i) == old(Bytes(i)) + data
      ensures driver.chains == old(driver.chains)[i := driver.chains[i]]
      ensures driver.Files() == old(driver.Files())[i := driver.Files()[i]]
      ensures MetaKept(driver.v, old(driver.Disk()), driver.Disk())
    {
      hide *;
      ghost var d := driver.Disk();
      MetaSame(driver.v, d);
      NonEmptyChain(i);
      if |data| != 0 {
        if size != 0 {
          MakeRoom(i);
        }
        ghost var d' := driver.Disk();
        Push(data, i);
        MetaTrans(driver.v, d, d', driver.Disk());
      }
      assert old(Bytes(i)) + [] == old(Bytes(i));
    }

    lemma NonEmptyChain(i: nat)
      requires Valid(i)
      ensures size == 0 ==> size < Times(|driver.chains[i]|, driver.v.bpc)
      ensures |driver.chains[i]| > 0 && InVolume(driver.v, driver.chains[i]) && driver.Mounted()
      ensures driver.Files()[i] == driver.Files()[i] && |Bytes(i)| == size
    {
      TimesFront(|driver.chains[i]|, driver.v.bpc);
      InvInVolume(driver.v, driver.Disk(), driver.chains, i);
    }

    /** The growth in front of `FAT_write`: a non-empty file that fills its last cluster gets another. */
    method GrowFirst(ghost i: nat)
      requires Valid(i) && driver.Free() >= FirstGrow(driver.v.bpc, size)
      modifies driver`chains, driver.storage.device, driver.storage.readTemp, driver.storage.writeTemp
      ensures Valid(i) && driver.Free() == old(driver.Free()) - FirstGrow(driver.v.bpc, size)
      ensures |driver.chains[i]| == old(|driver.chains[i]|) + FirstGrow(driver.v.bpc, size)
      ensures FirstGrow(driver.v.bpc, size) == 0 ==>
        driver.chains == old(driver.chains) && driver.Disk() == old(driver.Disk())
      ensures Bytes(i) == old(Bytes(i))
      ensures driver.chains == old(driver.chains)[i := driver.chains[i]]
      ensures driver.Files() == old(driver.Files())[i := driver.Files()[i]]
      ensures MetaKept(driver.v, old(driver.Disk()), driver.Disk())
    {
      hide Driver.Valid, Driver.Files, Driver.Free, Valid;
      MetaSame(driver.v, driver.Disk());
      RestIsMod(driver.v.bpc, size);
      if size != 0 && size % driver.v.bpc == 0 {
        MakeRoom(i);
      }
    }

    /** The second and third phase of `FAT_write`: everything behind the head. */
    method WriteRest(data: seq<byte>, start: nat, ghost i: nat)
      requires Valid(i) && start <= |data| && (start < |data| ==> Sal.Rest(driver.v.bpc, size) == 0)
      requires driver.Free() >= Quot(driver.v.bpc, |data| - start) + TailGrow(driver.v.bpc, size, |data| - start)
      modifies this`size, driver`chains, driver.storage.device, driver.storage.readTemp, driver.storage.writeTemp
      ensures Valid(i) && size == old(size) + (|data| - start)
      ensures
        var more := Quot(driver.v.bpc, |data| - start) + TailGrow(driver.v.bpc, old(size), |data| - start);
        |driver.chains[i]| == old(|driver.chains[i]|) + more && driver.Free() == old(driver.Free()) - more
      ensures Bytes(i) == old(Bytes(i)) + data[start..]
      ensures driver.chains == old(driver.chains)[i := driver.chains[i]]
      ensures driver.Files() == old(driver.Files())[i := driver.Files()[i]]
      ensures MetaKept(driver.v, old(driver.Disk()), driver.Disk())
    {
      hide *;
      NonEmptyChain(i);
      ghost var bytes, d := Bytes(i), driver.Disk();
      TailGrowIs(driver.v.bpc, size, |data| - start);
      var n := WriteWhole(data, start, i);
      ghost var d' := driver.Disk();
      WriteTail(data[n..], i);
      MetaTrans(driver.v, d, d', driver.Disk());
      assert bytes + data[start..n] + data[n..] == bytes + data[start..] by {
        assert data[start..n] + data[n..] == data[start..];
      }
    }

    /** The phases of `FAT_write` on a file opened for writing. */
    method Append(data: seq<byte>, ghost i: nat) returns (n: nat)
      requires Valid(i) && HeadSafe(driver.v, size, |data|)
      requires driver.Free() >= Grows(driver.v.bpc, size, |data|)
      modifies this`size, driver`chains, driver.storage.device, driver.storage.readTemp, driver.storage.writeTemp
      ensures Valid(i) && n == |data| && size == old(size) + n
      ensures old(WellFormed(driver.v, |driver.Disk()|) && InVolume(driver.v, driver.chains[i]))
      ensures Bytes(i) == old(Bytes(i)) + old(Arrives(driver.v, driver.Disk(), driver.chains[i], size, data))
      ensures driver.Free() == old(driver.Free()) - Grows(driver.v.bpc, old(size), |data|)
      ensures |driver.chains[i]| == old(|driver.chains[i]|) + Grows(driver.v.bpc, old(size), |data|)
      ensures driver.chains == old(driver.chains)[i := driver.chains[i]]
      ensures driver.Files() == old(driver.Files())[i := driver.Files()[i]]
      ensures MetaKept(driver.v, old(driver.Disk()), driver.Disk())
    {
      hide *;
      NonEmptyChain(i);
      ghost var v, d, s, bytes := driver.v, driver.Disk(), size, Bytes(i);
      ghost var w, a := HeadPart(v.bpc, s, |data|), Arrives(v, d, driver.chains[i], s, data);
      WriteFacts(v, d, driver.chains[i], s, data);
      var off := Place(size, i);
      GrowFirst(i);
      ghost var d1 := driver.Disk();
      NonEmptyChain(i);
      WriteFacts(v, d1, driver.chains[i], s, data);
      n := WriteHead(data, off, i);
      ghost var d2 := driver.Disk();
      MetaTrans(v, d, d1, d2);
      assert Bytes(i) == bytes + a[..w];
      WriteRest(data, n, i);
      MetaTrans(v, d, d2, driver.Disk());
      assert bytes + a[..w] + data[w..] == bytes + (a[..w] + data[w..]);
      n := |data|;
    }

    /**
     * `FAT_write`. The file's bytes are its old bytes followed by the data as it arrives; its chain
     * grows by exactly `Grows`; every other file and all metadata stay as they were.
     */
    method Write(data: seq<byte>, ghost i: nat) returns (n: nat)
      requires Valid(i) && HeadSafe(driver.v, size, |data|)
      requires writable ==> driver.Free() >= Grows(driver.v.bpc, size, |data|)
      modifies this`size, driver`chains, driver.storage.device, driver.storage.readTemp, driver.storage.writeTemp
      ensures Valid(i)
      ensures !writable ==> n == 0 && size == old(size)
      ensures !writable ==> driver.chains == old(driver.chains) && driver.Disk() == old(driver.Disk())
      ensures writable ==> n == |data| && size == old(size) + n
      ensures old(WellFormed(driver.v, |driver.Disk()|) && InVolume(driver.v, driver.chains[i]))
      ensures writable ==>
        Bytes(i) == old(Bytes(i)) + old(Arrives(driver.v, driver.Disk(), driver.chains[i], size, data))
      ensures writable && old(HeadExact(driver.v, size, |data|)) ==> Bytes(i) == old(Bytes(i)) + data
      ensures writable ==>
        |driver.chains[i]| == old(|driver.chains[i]|) + Grows(driver.v.bpc, old(size), |data|)
      ensures writable ==>
        var bpc := driver.v.bpc;
        var spare := if old(size) % bpc == 0 && (old(size) > 0 || |data| >= bpc) then 1 else 0;
        |driver.chains[i]| - Holding(bpc, size) == old(|driver.chains[i]|) - Holding(bpc, old(size)) + spare
      ensures driver.Free() == old(driver.Free()) - if writable then Grows(driver.v.bpc, old(size), |data|) else 0
      ensures driver.chains == old(driver.chains)[i := driver.chains[i]]
      ensures driver.Files() == old(driver.Files())[i := driver.Files()[i]]
      ensures MetaKept(driver.v, old(driver.Disk()), driver.Disk())
    {
      hide *;
      NonEmptyChain(i);
      MetaSame(driver.v, driver.Disk());
      WriteFacts(driver.v, driver.Disk(), driver.chains[i], size, data);
      GrowsExact(driver.v.bpc, size, |data|);
      n := 0;
      if writable {
        n := Append(data, i);
      }
    }

    /** Two open files written one after the other: each gets its own data and keeps its own bytes. */
    method WriteBoth(x: seq<byte>, other: File, y: seq<byte>, ghost i: nat, ghost j: nat)
      requires Valid(i) && other.driver == driver && other.Valid(j) && other != this && i != j
      requires writable && other.writable
      requires HeadSafe(driver.v, size, |x|) && HeadExact(driver.v, size, |x|)
      requires HeadSafe(driver.v, other.size, |y|) && HeadExact(driver.v, other.size, |y|)
      requires driver.Free() >= Grows(driver.v.bpc, size, |x|) + Grows(driver.v.bpc, other.size, |y|)
      modifies this`size, other`size, driver`chains
      modifies driver.storage.device, driver.storage.readTemp, driver.storage.writeTemp
      ensures Valid(i) && Bytes(i) == old(Bytes(i)) + x
      ensures other.Valid(j) && other.Bytes(j) == old(other.Bytes(j)) + y
      ensures driver.Files() == old(driver.Files())[i := driver.Files()[i]][j := driver.Files()[j]]
    {
      hide Driver.Valid, Driver.Files, Driver.Free, HeadExact, HeadSafe, Grows, WellFormed, MetaKept, Arrives;
      var _ := Write(x, i);
      assert driver.chains[j] == old(driver.chains[j]) && driver.Files()[j] == old(driver.Files()[j]);
      ghost var chain, file := driver.chains[i], driver.Files()[i];
      var _ := other.Write(y, j);
      assert driver.chains[i] == chain && driver.Files()[i] == file;
    }

    // ----- reading -----

    /** The bytes stored in the file's clusters; its first `size` bytes are the file. */
    ghost function Stored(i: nat): (r: seq<byte>)
      requires Valid(i)
      reads this, driver, driver.storage.device
      ensures |r| == Times(|driver.chains[i]|, driver.v.bpc)
    {
      driver.Files()[i]
    }

    /** Reads one piece that stays inside a cluster and advances the position. */
    method ReadPart(was: seq<byte>, ghost i: nat) returns (got: seq<byte>)
      requires Valid(i) && position + |was| <= Times(|driver.chains[i]|, driver.v.bpc)
      requires position < Times(|driver.chains[i]|, driver.v.bpc)
      requires Sal.Rest(driver.v.bpc, position) + |was| <= driver.v.bpc
      requires Sal.BufferSafe(driver.v.sectorSize, position % driver.v.sectorSize, |was|)
      modifies this`position, driver.storage.readTemp
      ensures Valid(i) && |got| == |was| && position == old(position) + |was| <= |Stored(i)|
      ensures Stored(i) == old(Stored(i))
      ensures Sal.Exact(driver.v.sectorSize, old(position) % driver.v.sectorSize, |was|) ==>
        got == Stored(i)[old(position)..position]
    {
      hide Driver.Valid, Driver.Files, Driver.Free;
      var off := Place(position, i);
      got := driver.FetchPiece(off, was, i, position);
      position := position + |was|;
    }

    /** The first phase of `FAT_read`: up to the next cluster boundary. */
    method ReadHead(buff: seq<byte>, ghost i: nat) returns (got: seq<byte>)
      requires Valid(i) && position + |buff| <= Times(|driver.chains[i]|, driver.v.bpc)
      requires HeadSafe(driver.v, position, |buff|)
      modifies this`position, driver.storage.readTemp
      ensures Valid(i) && |got| == HeadPart(driver.v.bpc, old(position), |buff|)
      ensures position == old(position) + |got| <= |Stored(i)| && Stored(i) == old(Stored(i))
      ensures HeadExact(driver.v, old(position), |buff|) ==> got == Stored(i)[old(position)..position]
    {
      hide Driver.Valid, Driver.Files, Driver.Free, Valid;
      driver.LaidOut();
      RestIsMod(driver.v.bpc, position);
      RestZeroAtEnd(driver.v.bpc, |driver.chains[i]|);
      got := [];
      if position % driver.v.bpc != 0 {
        got := ReadPart(buff[..HeadPart(driver.v.bpc, position, |buff|)], i);
      }
    }

    /** One turn of the whole-cluster loop of `FAT_read`. */
    method ReadCluster(was: seq<byte>, ghost i: nat) returns (got: seq<byte>)
      requires Valid(i) && position + |was| <= Times(|driver.chains[i]|, driver.v.bpc)
      requires Sal.Rest(driver.v.bpc, position) == 0 && |was| == driver.v.bpc
      modifies this`position, driver.storage.readTemp
      ensures Valid(i) && |got| == |was| && position == old(position) + |was| <= |Stored(i)|
      ensures Stored(i) == old(Stored(i))
      ensures got == Stored(i)[old(position)..position]
    {
      TailSafe(i, |was|);
      got := ReadPart(was, i);
    }

    /**
     * The whole-cluster loop of `FAT_read`. It gives up (`done`) once more bytes were read than the
     * file is long, counting the `start` bytes read before.
     */
    method ReadWhole(buff: seq<byte>, start: nat, ghost i: nat) returns (got: seq<byte>, done: bool)
      requires Valid(i) && start <= |buff|
      requires position + (|buff| - start) <= Times(|driver.chains[i]|, driver.v.bpc)
      requires start < |buff| ==> Sal.Rest(driver.v.bpc, position) == 0
      modifies this`position, driver.storage.readTemp
      ensures Valid(i) && start + |got| <= |buff| && position == old(position) + |got| <= |Stored(i)|
      ensures Stored(i) == old(Stored(i))
      ensures if done then start + |got| > size else |buff| - (start + |got|) == Sal.Rest(driver.v.bpc, |buff| - start)
      ensures start + |got| < |buff| ==> Sal.Rest(driver.v.bpc, position) == 0
      ensures start <= size ==> start + |got| <= size + if done then driver.v.bpc else 0
      ensures done ==> driver.v.bpc <= |got| && Sal.Rest(driver.v.bpc, position - driver.v.bpc) == 0
      ensures got == Stored(i)[old(position)..position]
    {
      hide *;
      var bpc := driver.v.bpc;
      got, done := [], false;
      assert Stored(i)[position..position] == [];
      while |buff| - (start + |got|) >= bpc
        invariant Valid(i) && start + |got| <= |buff| && position == old(position) + |got| <= |Stored(i)|
        invariant Sal.Rest(bpc, |buff| - (start + |got|)) == Sal.Rest(bpc, |buff| - start)
        invariant start + |got| < |buff| ==> Sal.Rest(bpc, position) == 0
        invariant start <= size ==> start + |got| <= size
        invariant got == Stored(i)[old(position)..position] && Stored(i) == old(Stored(i))
        decreases |buff| - |got|
      {
        PartStep(bpc, |buff| - (start + |got|));
        RestStep(bpc, position);
        var piece := ReadCluster(buff[start + |got|..start + |got| + bpc], i);
        JoinRuns(Stored(i), old(position), position - bpc, position);
        got := got + piece;
        if start + |got| > size {
          return got, true;
        }
      }
      PartStep(bpc, |buff| - (start + |got|));
    }

    /** The phases of `FAT_read` on a file opened for reading. */
    method Fetch(buff: seq<byte>, ghost i: nat) returns (got: seq<byte>)
      requires Valid(i) && position + |buff| <= Times(|driver.chains[i]|, driver.v.bpc)
      requires HeadSafe(driver.v, position, |buff|)
      modifies this`position, driver.storage.readTemp
      ensures Valid(i) && |got| <= |buff| && position == old(position) + |got| <= |Stored(i)|
      ensures |got| == |buff| || |got| > size
      ensures Stops(driver.v.bpc, old(position), |buff|, size, |got|)
      ensures HeadExact(driver.v, old(position), |buff|) ==> got == Stored(i)[old(position)..position]
    {
      hide *;
      ghost var start := position;
      StopFacts(driver.v.bpc, start, |buff|, size);
      ReadFacts(driver.v.bpc, position, |buff|);
      got := ReadHead(buff, i);
      if |got| > size {
        return;
      }
      var whole, done := ReadWhole(buff, |got|, i);
      JoinRuns(Stored(i), start, start + |got|, position);
      got := got + whole;
      if done {
        StopsBehind(driver.v.bpc, start, |buff|, size, |got| - driver.v.bpc, |got|);
        return;
      }
      ghost var middle := position;
      if |got| < |buff| {
        StopsBehind(driver.v.bpc, start, |buff|, size, |got|, |buff|);
      }
      if |buff| - |got| != 0 {
        TailSafe(i, |buff| - |got|);
        var tail := ReadPart(buff[|got|..], i);
        JoinRuns(Stored(i), start, middle, position);
        got := got + tail;
        if |got| > size {
          return;
        }
      }
    }

    /** A partial cluster at an aligned position is read faithfully. */
    lemma TailSafe(i: nat, n: nat)
      requires Valid(i) && Sal.Rest(driver.v.bpc, position) == 0
      ensures position % driver.v.sectorSize == 0
      ensures Sal.BufferSafe(driver.v.sectorSize, 0, n) && Sal.Exact(driver.v.sectorSize, 0, n)
    {
      AlignedExact(driver.v, |driver.Disk()|, position, n);
    }

    /**
     * `FAT_read` into a caller's buffer, for requests inside the file's clusters. Inside the file it
     * returns all the bytes asked for; a longer read stops once the count exceeds the file's size.
     */
    method Read(buff: seq<byte>, ghost i: nat) returns (n: nat, out: seq<byte>)
      requires Valid(i) && position + |buff| <= Times(|driver.chains[i]|, driver.v.bpc)
      requires HeadSafe(driver.v, position, |buff|)
      modifies this`position, driver.storage.readTemp
      ensures Valid(i) && |out| == |buff| && n <= |buff| && position == old(position) + n && out[n..] == buff[n..]
      ensures !readable ==> n == 0
      ensures readable ==> n == |buff| || n > size
      ensures readable && old(position) + |buff| <= size ==> n == |buff|
      ensures readable ==> Stops(driver.v.bpc, old(position), |buff|, size, n)
      ensures readable ==> (position <= size <==> old(position) + |buff| <= size)
      ensures readable && HeadExact(driver.v, old(position), |buff|) && position <= size ==>
        out[..n] == Bytes(i)[old(position)..position]
      ensures position <= |Stored(i)|
      ensures readable && HeadExact(driver.v, old(position), |buff|) ==>
        out[..n] == Stored(i)[old(position)..position]
    {
      hide Driver.Valid, Driver.Files, Driver.Free, HeadExact, HeadSafe;
      n, out := 0, buff;
      if readable {
        var got := Fetch(buff, i);
        n, out := |got|, got + buff[|got|..];
        if position <= size {
          RunOfPrefix(Stored(i), size, old(position), position);
        }
      }
    }

    /** `FAT_file_seek`: the position moves unless the request is the reserved value -1. */
    method Seek(to: int) returns (at: nat)
      requires to == -1 || 0 <= to
      modifies this`position
      ensures at == position == if to == -1 then old(position) else to
    {
      if to != -1 {
        position := to;
      }
      at := position;
    }

    /** Writing data, seeking back to where it went and reading it gives the data back. */
    method WriteSeekRead(data: seq<byte>, buff: seq<byte>, ghost i: nat) returns (out: seq<byte>)
      requires Valid(i) && readable && writable && |buff| == |data|
      requires HeadSafe(driver.v, size, |data|) && HeadExact(driver.v, size, |data|)
      requires driver.Free() >= Grows(driver.v.bpc, size, |data|)
      modifies this`size, this`position, driver`chains
      modifies driver.storage.device, driver.storage.readTemp, driver.storage.writeTemp
      ensures Valid(i) && out == data
    {
      hide Driver.Valid, Driver.Files, Driver.Free, HeadExact, HeadSafe;
      var start := size;
      ghost var bytes := Bytes(i);
      var n := Write(data, i);
      var _ := Seek(start);
      n, out := Read(buff, i);
      assert out[..n] == out;
      assert (bytes + data)[start..start + |data|] == data;
    }
  }

  lemma RunOfPrefix<T>(s: seq<T>, n: nat, a: nat, b: nat)
    requires a <= b <= n <= |s|
    ensures s[..n][a..b] == s[a..b]
  {
  }

  /** The sizes that tie the phases of `FAT_read` together. */
  lemma ReadFacts(bpc: nat, pos: nat, len: nat)
    requires 0 < bpc
    ensures
      var w := HeadPart(bpc, pos, len);
      w <= len && (w < len ==> Sal.Rest(bpc, pos + w) == 0) && Sal.Rest(bpc, len - w) < bpc
  {
    if HeadPart(bpc, pos, len) < len {
      HeadCompletes(bpc, pos, len);
    }
  }

  /** `m` bytes from `pos` on end with a cluster. */
  predicate EndsCluster(bpc: nat, pos: nat, m: nat)
    requires 0 < bpc
    ensures EndsCluster(bpc, pos, m) <==> Sal.Rest(bpc, pos + m) == 0
  {
    RestIsMod(bpc, pos + m);
    (pos + m) % bpc == 0
  }

  /**
   * Where a read ends: at the first cluster boundary behind more bytes than the file is long, or with
   * the whole request.
   */
  ghost predicate Stops(bpc: nat, pos: nat, len: nat, size: nat, n: nat)
    requires 0 < bpc
  {
    && n <= len && (n < len ==> n > size && EndsCluster(bpc, pos, n))
    && forall m :: 0 <= m < n && EndsCluster(bpc, pos, m) ==> m <= size
  }

  /** Reads that end with the head, or before the count exceeds the size. */
  lemma StopFacts(bpc: nat, pos: nat, len: nat, size: nat)
    requires 0 < bpc
    ensures HeadPart(bpc, pos, len) > size ==> Stops(bpc, pos, len, size, HeadPart(bpc, pos, len))
    ensures len <= size ==> Stops(bpc, pos, len, size, len)
  {
    hide EndsCluster, Sal.Rest;
    var w := HeadPart(bpc, pos, len);
    if w < len {
      HeadCompletes(bpc, pos, len);
    }
    forall m: nat | m < w
      ensures !EndsCluster(bpc, pos, m)
    {
      WholeAnd(bpc, pos, m);
    }
  }

  /** Reads that end at most one cluster behind a boundary. */
  lemma StopsBehind(bpc: nat, pos: nat, len: nat, size: nat, last: nat, n: nat)
    requires 0 < bpc && Sal.Rest(bpc, pos + last) == 0 && last <= size && last <= n <= last + bpc && n <= len
    requires n < len ==> n > size && Sal.Rest(bpc, pos + n) == 0
    ensures Stops(bpc, pos, len, size, n)
  {
    hide EndsCluster, Sal.Rest;
    forall m: nat | last < m < n
      ensures !EndsCluster(bpc, pos, m)
    {
      WholeAnd(bpc, pos + last, m - last);
    }
  }

  /** The facts about sizes and arriving bytes that tie the phases of `FAT_write` together. */
  lemma WriteFacts(v: Volume, d: seq<byte>, cs: seq<nat>, size: nat, data: seq<byte>)
    requires WellFormed(v, |d|) && InVolume(v, cs) && size <= Times(|cs|, v.bpc)
    ensures
      var w, a := HeadPart(v.bpc, size, |data|), Arrives(v, d, cs, size, data);
      && 0 < v.bpc && w <= |data| == |a| && a[..w] + data[w..] == a
      && (w < |data| ==> Sal.Rest(v.bpc, size + w) == 0)
      && (HeadExact(v, size, |data|) ==> a == data)
      && (FirstGrow(v.bpc, size) != 0 ==> w == 0 && a == data)
      && (Sal.Rest(v.bpc, size) != 0 ==> FirstGrow(v.bpc, size) == 0 && size < Times(|cs|, v.bpc))
      && Grows(v.bpc, size, |data|)
         == FirstGrow(v.bpc, size) + Quot(v.bpc, |data| - w) + TailGrow(v.bpc, size + w, |data| - w)
  {
    RestZeroAtEnd(v.bpc, |cs|);
    ArrivesRest(v, d, cs, size, data);
    if HeadPart(v.bpc, size, |data|) < |data| {
      HeadCompletes(v.bpc, size, |data|);
    }
    if HeadExact(v, size, |data|) {
      ArrivesWhole(v, d, cs, size, data);
    }
  }

  lemma MetaSame(v: Volume, d: seq<byte>)
    ensures MetaKept(v, d, d)
  {
  }

  lemma ArrivesHead(v: Volume, d: seq<byte>, cs: seq<nat>, size: nat, data: seq<byte>)
    requires WellFormed(v, |d|) && InVolume(v, cs) && size <= Times(|cs|, v.bpc) && Sal.Rest(v.bpc, size) != 0
    ensures size < Times(|cs|, v.bpc)
    ensures
      var n := HeadPart(v.bpc, size, |data|);
      ChainPos(v, cs, size) + n <= |d|
      && Arrives(v, d, cs, size, data)[..n]
         == Sal.Landed(d, v.sectorSize, size % v.sectorSize, ChainPos(v, cs, size), data[..n])
  {
    RestZeroAtEnd(v.bpc, |cs|);
    PieceOnDisk(v, |d|, cs, size, HeadPart(v.bpc, size, |data|));
  }

  /** Beyond the head, the data arrives as it is. */
  lemma ArrivesRest(v: Volume, d: seq<byte>, cs: seq<nat>, size: nat, data: seq<byte>)
    requires WellFormed(v, |d|) && InVolume(v, cs) && size <= Times(|cs|, v.bpc)
    ensures
      var n := HeadPart(v.bpc, size, |data|);
      Arrives(v, d, cs, size, data)[..n] + data[n..] == Arrives(v, d, cs, size, data)
  {
  }

  lemma PartStep(m: nat, x: nat)
    requires 0 < m
    ensures if x < m then Sal.Rest(m, x) == x && Quot(m, x) == 0
            else Sal.Rest(m, x) == Sal.Rest(m, x - m) && Quot(m, x) == Quot(m, x - m) + 1
  {
  }

  lemma RestStep(m: nat, x: nat)
    requires 0 < m
    ensures Sal.Rest(m, x + m) == Sal.Rest(m, x)
  {
  }
}
