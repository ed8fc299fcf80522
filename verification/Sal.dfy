/**
 * The storage abstraction layer: arbitrary byte ranges over a device that only transfers whole
 * sectors. The simple thing it stands for is one flat byte disk.
 */
module Sal {
  import opened Bytes

  /** Size of the two static bounce buffers. */
  const TEMP_SIZE: nat := 4096

  /** The flat disk that a sequence of sectors stands for. */
  function Flat(sectors: seq<seq<byte>>): (d: seq<byte>) {
    if sectors == [] then [] else sectors[0] + Flat(sectors[1..])
  }

  predicate Uniform(sectors: seq<seq<byte>>, ss: nat) {
    forall i :: 0 <= i < |sectors| ==> |sectors[i]| == ss
  }

  lemma {:induction false} FlatLength(sectors: seq<seq<byte>>, ss: nat)
    requires Uniform(sectors, ss)
    ensures |Flat(sectors)| == |sectors| * ss
  {
    if sectors != [] {
      FlatLength(sectors[1..], ss);
      assert |sectors| * ss == ss + (|sectors| - 1) * ss;
    }
  }

  /** Sector `lba` is the slice of the flat disk that starts at `lba * ss`. */
  lemma {:induction false} FlatSector(sectors: seq<seq<byte>>, ss: nat, lba: nat)
    requires Uniform(sectors, ss) && lba < |sectors|
    ensures lba * ss + ss <= |Flat(sectors)|
    ensures Flat(sectors)[lba * ss..lba * ss + ss] == sectors[lba]
  {
    if lba > 0 {
      FlatSector(sectors[1..], ss, lba - 1);
      assert lba * ss == ss + (lba - 1) * ss;
      var rest := Flat(sectors[1..]);
      assert Flat(sectors)[lba * ss..lba * ss + ss] == rest[(lba - 1) * ss..(lba - 1) * ss + ss];
    }
  }

  /** Replacing a sector is a slice update of the flat disk. */
  lemma {:induction false} FlatPut(sectors: seq<seq<byte>>, ss: nat, lba: nat, s: seq<byte>)
    requires Uniform(sectors, ss) && lba < |sectors| && |s| == ss
    ensures lba * ss + ss <= |Flat(sectors)|
    ensures Flat(sectors[lba := s]) == Splice(Flat(sectors), lba * ss, s)
  {
    FlatSector(sectors, ss, lba);
    SpliceIndex(Flat(sectors), lba * ss, s);
    if lba == 0 {
      assert sectors[0 := s][1..] == sectors[1..];
    } else {
      FlatPut(sectors[1..], ss, lba - 1, s);
      assert lba * ss == ss + (lba - 1) * ss;
      assert sectors[lba := s][1..] == sectors[1..][lba - 1 := s];
      SpliceIndex(Flat(sectors[1..]), (lba - 1) * ss, s);
    }
  }

  // ----- which bytes of a request really move -----
  //
  // A request is described by the sector size `ss`, the offset `o` of its first byte inside the
  // first sector, and its length.

  /** The length handled by the first, unaligned step of a request. */
  function HeadLen(ss: nat, o: nat, len: nat): (n: nat)
    requires o < ss
    ensures n <= len
  {
    if o == 0 then 0 else if len < ss then len else ss - o
  }

  /** What is left of `n` bytes once whole sectors have been taken off. */
  function Rest(ss: nat, n: nat): (r: nat)
    requires 0 < ss
    ensures r < ss && r <= n
  {
    if n < ss then n else Rest(ss, n - ss)
  }

  /** Where the whole-sector loop of a request stops. */
  function LoopEnd(ss: nat, o: nat, len: nat): (n: nat)
    requires o < ss
    ensures HeadLen(ss, o, len) <= n <= len && len - n < ss
  {
    len - Rest(ss, len - HeadLen(ss, o, len))
  }

  /** A short unaligned request that runs over the end of its first sector. */
  predicate Straddles(ss: nat, o: nat, len: nat)
    requires o < ss
  {
    o != 0 && len < ss && o + len > ss
  }

  /** Positions below `Lo` are skipped: the sector does not fit the bounce buffer. */
  function Lo(ss: nat, o: nat, len: nat): (n: nat)
    requires o < ss
    ensures n <= len
  {
    if ss > TEMP_SIZE then HeadLen(ss, o, len) else 0
  }

  /** Positions from `Hi` on do not move. */
  function Hi(ss: nat, o: nat, len: nat): (n: nat)
    requires o < ss
    ensures Lo(ss, o, len) <= n <= len
  {
    if ss > TEMP_SIZE then LoopEnd(ss, o, len)
    else if Straddles(ss, o, len) then ss - o
    else len
  }

  /** What a write leaves at `[off, off + |data|)`: `data` where it moved, the old disk elsewhere. */
  function Landed(disk: seq<byte>, ss: nat, o: nat, off: nat, data: seq<byte>): (r: seq<byte>)
    requires o < ss && off + |data| <= |disk|
    ensures |r| == |data|
  {
    disk[off..off + Lo(ss, o, |data|)]
    + data[Lo(ss, o, |data|)..Hi(ss, o, |data|)]
    + disk[off + Hi(ss, o, |data|)..off + |data|]
  }

  /** A straddling request stays inside the bounce buffer; true of every sector size up to 2048. */
  predicate BufferSafe(ss: nat, o: nat, len: nat)
    requires o < ss
  {
    ss <= TEMP_SIZE && Straddles(ss, o, len) ==> o + len <= TEMP_SIZE
  }

  lemma SmallSectorsAreSafe(ss: nat, o: nat, len: nat)
    requires o < ss <= 2048
    ensures BufferSafe(ss, o, len)
  {
  }

  /**
   * What a read leaves in the caller's buffer: disk bytes where they moved; elsewhere left-overs of
   * the bounce buffer (`temp`) or, for oversized sectors, of the caller's own buffer (`was`).
   */
  function Fetched(disk: seq<byte>, ss: nat, o: nat, off: nat, temp: seq<byte>, was: seq<byte>): (r: seq<byte>)
    requires o < ss && off + |was| <= |disk| && |temp| == TEMP_SIZE
    requires BufferSafe(ss, o, |was|)
    ensures |r| == |was|
  {
    var lo, hi := Lo(ss, o, |was|), Hi(ss, o, |was|);
    was[..lo] + disk[off + lo..off + hi]
    + if ss > TEMP_SIZE || hi == |was| then was[hi..] else temp[o + hi..o + |was|]
  }

  /** The requests on which the layer is a faithful flat disk. */
  predicate Exact(ss: nat, o: nat, len: nat)
    requires o < ss
  {
    len == 0 || (if ss <= TEMP_SIZE then !Straddles(ss, o, len) else o == 0 && Rest(ss, len) == 0)
  }

  lemma ExactMovesAll(ss: nat, o: nat, len: nat)
    requires o < ss && 0 < len
    ensures Exact(ss, o, len) <==> Lo(ss, o, len) == 0 && Hi(ss, o, len) == len
  {
  }

  /** A write lands whole for every possible data if and only if the request is exact. */
  lemma WriteFaithfulIff(disk: seq<byte>, ss: nat, o: nat, off: nat, len: nat)
    requires o < ss && off + len <= |disk|
    ensures Exact(ss, o, len) <==>
      forall data: seq<byte> :: |data| == len ==> Landed(disk, ss, o, off, data) == data
  {
    if len > 0 {
      ExactMovesAll(ss, o, len);
      if !Exact(ss, o, len) {
        var data := seq(len, i requires 0 <= i < len => if disk[off + i] == 0 then 1 else 0);
        var k := if Lo(ss, o, len) > 0 then 0 else len - 1;
        assert Landed(disk, ss, o, off, data)[k] == disk[off + k] != data[k];
        assert Landed(disk, ss, o, off, data) != data;
      }
    }
  }

  /** A read returns the disk slice whatever the buffers held before iff the request is exact. */
  lemma ReadFaithfulIff(disk: seq<byte>, ss: nat, o: nat, off: nat, len: nat)
    requires o < ss && off + len <= |disk| && BufferSafe(ss, o, len)
    ensures Exact(ss, o, len) <==>
      forall temp: seq<byte>, was: seq<byte> :: |temp| == TEMP_SIZE && |was| == len ==>
        Fetched(disk, ss, o, off, temp, was) == disk[off..off + len]
  {
    if len > 0 {
      ExactMovesAll(ss, o, len);
      if Exact(ss, o, len) {
        forall temp: seq<byte>, was: seq<byte> | |temp| == TEMP_SIZE && |was| == len
          ensures Fetched(disk, ss, o, off, temp, was) == disk[off..off + len]
        {
        }
      } else {
        var k := if Lo(ss, o, len) > 0 then 0 else len - 1;
        var other: byte := if disk[off + k] == 0 then 1 else 0;
        var temp, was := seq(TEMP_SIZE, i => other), seq(len, i => other);
        assert Fetched(disk, ss, o, off, temp, was)[k] == other;
        assert Fetched(disk, ss, o, off, temp, was) != disk[off..off + len];
      }
    }
  }

  lemma ReadFaithful(disk: seq<byte>, ss: nat, o: nat, off: nat, len: nat)
    requires o < ss && off + len <= |disk| && Exact(ss, o, len)
    ensures BufferSafe(ss, o, len)
    ensures forall temp: seq<byte>, was: seq<byte> :: |temp| == TEMP_SIZE && |was| == len ==>
      Fetched(disk, ss, o, off, temp, was) == disk[off..off + len]
  {
    ReadFaithfulIff(disk, ss, o, off, len);
  }

  // ----- which bytes move, one by one -----

  /**
   * Byte `k` of a request of `len` bytes that starts `o` bytes into a sector is transferred, unless the
   * request is short, unaligned and has passed the end of its sector; and with sectors over 4096 bytes
   * only if the whole sector that holds the byte is asked for.
   */
  predicate Moves(ss: nat, o: nat, len: nat, k: nat)
    requires o < ss
  {
    if ss <= 4096 then o == 0 || len >= ss || o + k < ss
    else o <= (o + k) / ss * ss && (o + k) / ss * ss + ss <= o + len
  }

  lemma MovesIff(ss: nat, o: nat, len: nat, k: nat)
    requires o < ss && k < len
    ensures Moves(ss, o, len, k) <==> Lo(ss, o, len) <= k < Hi(ss, o, len)
  {
    if ss > TEMP_SIZE {
      hide Rest;
      var h, e := HeadLen(ss, o, len), LoopEnd(ss, o, len);
      var a: nat := if o == 0 then 0 else 1;
      if o == 0 || len >= ss {
        var q := RestMultiple(ss, len - h);
        assert (a + q) * ss == a * ss + q * ss;
        SectorOf(ss, o + k, a);
        SectorOf(ss, o + k, a + q);
        SectorOf(ss, o + k, 0);
      } else {
        assert Rest(ss, 0) == 0;
        assert h == e == len;
      }
    }
  }

  lemma {:induction false} RestMultiple(ss: nat, x: nat) returns (q: nat)
    requires 0 < ss
    ensures x - Rest(ss, x) == q * ss
    decreases x
  {
    if x < ss {
      q := 0;
    } else {
      q := RestMultiple(ss, x - ss);
      assert (q + 1) * ss == q * ss + ss;
      q := q + 1;
    }
  }

  /** A sector boundary lies at or below the start of a byte's sector, or at or above its end. */
  lemma SectorOf(ss: nat, x: nat, a: nat)
    requires 0 < ss
    ensures a * ss <= x ==> a * ss <= x / ss * ss <= x
    ensures x < a * ss ==> x / ss * ss + ss <= a * ss
  {
    var q := x / ss;
    assert x == q * ss + x % ss;
    if a <= q {
      MulMono(a, q, ss);
    } else {
      assert (q + 1) * ss == q * ss + ss;
      MulMono(q + 1, a, ss);
    }
  }

  /** Each byte of the disk is the data's if it moves, and stays as it was otherwise. */
  lemma LandedByte(disk: seq<byte>, ss: nat, o: nat, off: nat, data: seq<byte>, k: nat)
    requires o < ss && off + |data| <= |disk| && k < |data|
    ensures Landed(disk, ss, o, off, data)[k] == if Moves(ss, o, |data|, k) then data[k] else disk[off + k]
  {
    hide Moves, Lo, Hi;
    MovesIff(ss, o, |data|, k);
  }

  /** Each byte of the buffer is the disk's if it moves; otherwise it is a stale one, or its own. */
  lemma FetchedByte(disk: seq<byte>, ss: nat, o: nat, off: nat, temp: seq<byte>, was: seq<byte>, k: nat)
    requires o < ss && off + |was| <= |disk| && |temp| == 4096 && BufferSafe(ss, o, |was|) && k < |was|
    ensures !Moves(ss, o, |was|, k) && ss <= 4096 ==> o + k < |temp|
    ensures Fetched(disk, ss, o, off, temp, was)[k] ==
      if Moves(ss, o, |was|, k) then disk[off + k] else if ss <= 4096 then temp[o + k] else was[k]
  {
    MovesIff(ss, o, |was|, k);
    hide Moves;
  }

  /** Reading back what an exact write stored returns its data. */
  lemma ReadBack(disk: seq<byte>, ss: nat, o: nat, off: nat, data: seq<byte>, temp: seq<byte>, was: seq<byte>)
    requires o < ss && off + |data| <= |disk| && |temp| == TEMP_SIZE && |was| == |data|
    requires Exact(ss, o, |data|)
    ensures BufferSafe(ss, o, |data|)
    ensures Fetched(Splice(disk, off, Landed(disk, ss, o, off, data)), ss, o, off, temp, was) == data
  {
    if data != [] {
      ExactMovesAll(ss, o, |data|);
    }
    assert Landed(disk, ss, o, off, data) == data;
    SpliceIndex(disk, off, data);
  }

  // ----- the steps of a request -----

  /** What reaches the disk in one read-modify-write of `data` at `sectorOff`. */
  function Kept(ss: nat, sectorOff: nat, data: seq<byte>): (r: seq<byte>)
    requires sectorOff <= ss
    ensures |r| <= |data|
  {
    if ss > TEMP_SIZE then []
    else if sectorOff + |data| <= ss then data
    else data[..ss - sectorOff]
  }

  /** What one bounced read of `|was|` bytes at `sectorOff` delivers. */
  function Bounced(ss: nat, sectorOff: nat, sector: seq<byte>, temp: seq<byte>, was: seq<byte>): (r: seq<byte>)
    requires |sector| == ss && |temp| == TEMP_SIZE
    requires ss <= TEMP_SIZE ==> sectorOff + |was| <= TEMP_SIZE
    ensures |r| == |was|
  {
    if ss > TEMP_SIZE then was else (sector + temp[ss..])[sectorOff..sectorOff + |was|]
  }

  /** Reading a sector into the bounce buffer, patching it and writing it back patches the disk. */
  lemma ReadModifyWrite(disk: seq<byte>, pos: nat, ss: nat, temp: seq<byte>, sectorOff: nat, data: seq<byte>)
    requires pos + ss <= |disk| && sectorOff < ss <= |temp| <= TEMP_SIZE && sectorOff + |data| <= |temp|
    ensures Splice(disk, pos, Splice(Splice(temp, 0, disk[pos..pos + ss]), sectorOff, data)[..ss])
         == Splice(disk, pos + sectorOff, Kept(ss, sectorOff, data))
  {
    var t1 := Splice(temp, 0, disk[pos..pos + ss]);
    SpliceIndex(temp, 0, disk[pos..pos + ss]);
    SpliceIndex(t1, sectorOff, data);
    SpliceIndex(disk, pos, Splice(t1, sectorOff, data)[..ss]);
    SpliceIndex(disk, pos + sectorOff, Kept(ss, sectorOff, data));
  }

  // The disk after each of the three steps of a write.

  function AfterHead(disk: seq<byte>, ss: nat, o: nat, off: nat, data: seq<byte>): (d: seq<byte>)
    requires o < ss && off + |data| <= |disk|
    ensures |d| == |disk|
  {
    if o == 0 then disk else Splice(disk, off, Kept(ss, o, data[..HeadLen(ss, o, |data|)]))
  }

  function AfterLoop(disk: seq<byte>, ss: nat, o: nat, off: nat, data: seq<byte>): (d: seq<byte>)
    requires o < ss && off + |data| <= |disk|
    ensures |d| == |disk|
  {
    var h, e := HeadLen(ss, o, |data|), LoopEnd(ss, o, |data|);
    Splice(AfterHead(disk, ss, o, off, data), off + h, data[h..e])
  }

  function AfterTail(disk: seq<byte>, ss: nat, o: nat, off: nat, data: seq<byte>): (d: seq<byte>)
    requires o < ss && off + |data| <= |disk|
    ensures |d| == |disk|
  {
    var e := LoopEnd(ss, o, |data|);
    if e == |data| then AfterLoop(disk, ss, o, off, data)
    else Splice(AfterLoop(disk, ss, o, off, data), off + e, Kept(ss, 0, data[e..]))
  }

  lemma WriteStepsOversized(disk: seq<byte>, ss: nat, o: nat, off: nat, data: seq<byte>)
    requires TEMP_SIZE < ss && o < ss && off + |data| <= |disk|
    ensures AfterTail(disk, ss, o, off, data) == Splice(disk, off, Landed(disk, ss, o, off, data))
  {
    var h, e := HeadLen(ss, o, |data|), LoopEnd(ss, o, |data|);
    assert AfterTail(disk, ss, o, off, data) == AfterLoop(disk, ss, o, off, data);
    SplicePadded(disk, off, h, data[h..e], |data|);
  }

  lemma WriteStepsStraddling(disk: seq<byte>, ss: nat, o: nat, off: nat, data: seq<byte>)
    requires ss <= TEMP_SIZE && o < ss && off + |data| <= |disk| && Straddles(ss, o, |data|)
    ensures AfterTail(disk, ss, o, off, data) == Splice(disk, off, Landed(disk, ss, o, off, data))
  {
    assert data[..HeadLen(ss, o, |data|)] == data;
    assert AfterTail(disk, ss, o, off, data) == AfterHead(disk, ss, o, off, data);
    SplicePadded(disk, off, 0, data[..ss - o], |data|);
    assert data[..ss - o] == data[0..ss - o];
  }

  lemma WriteStepsWhole(disk: seq<byte>, ss: nat, o: nat, off: nat, data: seq<byte>)
    requires ss <= TEMP_SIZE && o < ss && off + |data| <= |disk| && !Straddles(ss, o, |data|)
    ensures AfterTail(disk, ss, o, off, data) == Splice(disk, off, Landed(disk, ss, o, off, data))
  {
    hide Splice;
    SpliceNothing(disk, off);
    assert data[0..0] == [];
    var h, e := HeadLen(ss, o, |data|), LoopEnd(ss, o, |data|);
    assert data[..h] == data[0..h] && data[e..] == data[e..|data|] && data[0..|data|] == data;
    assert AfterHead(disk, ss, o, off, data) == Splice(disk, off, data[0..h]);
    ExtendSplice(disk, off, data, 0, h, e);
    ExtendSplice(disk, off, data, 0, e, |data|);
    LandedWhole(disk, ss, o, off, data);
  }

  lemma LandedWhole(disk: seq<byte>, ss: nat, o: nat, off: nat, data: seq<byte>)
    requires o < ss && off + |data| <= |disk| && Exact(ss, o, |data|)
    ensures Landed(disk, ss, o, off, data) == data
  {
    if data != [] {
      ExactMovesAll(ss, o, |data|);
    }
  }

  /** The three steps of a write, taken together, are one slice update. */
  lemma WriteSteps(disk: seq<byte>, ss: nat, o: nat, off: nat, data: seq<byte>)
    requires o < ss && off + |data| <= |disk|
    ensures AfterTail(disk, ss, o, off, data) == Splice(disk, off, Landed(disk, ss, o, off, data))
  {
    if TEMP_SIZE < ss {
      WriteStepsOversized(disk, ss, o, off, data);
    } else if Straddles(ss, o, |data|) {
      WriteStepsStraddling(disk, ss, o, off, data);
    } else {
      WriteStepsWhole(disk, ss, o, off, data);
    }
  }

  /** What the first, unaligned step of a read delivers. */
  function HeadFetched(disk: seq<byte>, ss: nat, o: nat, off: nat, temp: seq<byte>, was: seq<byte>): (r: seq<byte>)
    requires o < ss && o <= off <= |disk| && |temp| == TEMP_SIZE && BufferSafe(ss, o, |was|)
    requires o != 0 ==> off - o + ss <= |disk|
    ensures |r| == HeadLen(ss, o, |was|)
  {
    if o == 0 then [] else Bounced(ss, o, disk[off - o..off - o + ss], temp, was[..HeadLen(ss, o, |was|)])
  }

  /** What the last step of a read delivers; the step starts on a sector boundary. */
  function TailFetched(disk: seq<byte>, ss: nat, o: nat, off: nat, was: seq<byte>): (r: seq<byte>)
    requires o < ss && off + |was| <= |disk|
    ensures |r| == |was| - LoopEnd(ss, o, |was|)
  {
    var e := LoopEnd(ss, o, |was|);
    if ss > TEMP_SIZE then was[e..] else disk[off + e..off + |was|]
  }

  lemma HeadFetchedOversized(disk: seq<byte>, ss: nat, o: nat, off: nat, temp: seq<byte>, was: seq<byte>)
    requires o < ss && TEMP_SIZE < ss && off + |was| <= |disk| && |temp| == TEMP_SIZE && BufferSafe(ss, o, |was|)
    requires o <= off && (o != 0 ==> off - o + ss <= |disk|)
    ensures HeadFetched(disk, ss, o, off, temp, was) == was[..HeadLen(ss, o, |was|)]
  {
  }

  lemma HeadFetchedBytes(disk: seq<byte>, ss: nat, o: nat, off: nat, temp: seq<byte>, was: seq<byte>)
    requires o < ss <= TEMP_SIZE && off + |was| <= |disk| && |temp| == TEMP_SIZE && BufferSafe(ss, o, |was|)
    requires o <= off && (o != 0 ==> off - o + ss <= |disk|)
    ensures HeadFetched(disk, ss, o, off, temp, was) ==
      if Straddles(ss, o, |was|) then disk[off..off + (ss - o)] + temp[ss..o + |was|]
      else disk[off..off + HeadLen(ss, o, |was|)]
  {
    var h := HeadLen(ss, o, |was|);
    if o != 0 {
      var sector := disk[off - o..off - o + ss];
      var head := (sector + temp[ss..])[o..o + h];
      assert HeadFetched(disk, ss, o, off, temp, was) == head;
      if Straddles(ss, o, |was|) {
        assert head == disk[off..off + (ss - o)] + temp[ss..o + |was|];
      } else {
        assert forall i :: 0 <= i < h ==> head[i] == sector[o + i] == disk[off + i];
      }
    }
  }

  /** The three steps of a read, taken together, are one fetch. */
  lemma ReadSteps(disk: seq<byte>, ss: nat, o: nat, off: nat, temp: seq<byte>, was: seq<byte>,
                  head: seq<byte>, whole: seq<byte>, tail: seq<byte>)
    requires o < ss && off + |was| <= |disk| && |temp| == TEMP_SIZE && BufferSafe(ss, o, |was|)
    requires o <= off && (o != 0 ==> off - o + ss <= |disk|)
    requires head == HeadFetched(disk, ss, o, off, temp, was)
    requires whole == disk[off + HeadLen(ss, o, |was|)..off + LoopEnd(ss, o, |was|)]
    requires tail == TailFetched(disk, ss, o, off, was)
    ensures head + whole + tail == Fetched(disk, ss, o, off, temp, was)
  {
    hide HeadFetched, Fetched;
    var h, e := HeadLen(ss, o, |was|), LoopEnd(ss, o, |was|);
    if ss > TEMP_SIZE {
      HeadFetchedOversized(disk, ss, o, off, temp, was);
      FetchedOversized(disk, ss, o, off, temp, was);
      assert head == was[..h];
    } else {
      HeadFetchedBytes(disk, ss, o, off, temp, was);
      if Straddles(ss, o, |was|) {
        assert whole == tail == [];
        FetchedStraddling(disk, ss, o, off, temp, was);
      } else {
        JoinRuns(disk, off, off + h, off + e);
        JoinRuns(disk, off, off + e, off + |was|);
        FetchedWhole(disk, ss, o, off, temp, was);
      }
    }
  }

  lemma FetchedOversized(disk: seq<byte>, ss: nat, o: nat, off: nat, temp: seq<byte>, was: seq<byte>)
    requires o < ss && ss > TEMP_SIZE && off + |was| <= |disk| && |temp| == TEMP_SIZE
    ensures
      var h, e := HeadLen(ss, o, |was|), LoopEnd(ss, o, |was|);
      Fetched(disk, ss, o, off, temp, was) == was[..h] + disk[off + h..off + e] + was[e..]
  {
  }

  lemma FetchedStraddling(disk: seq<byte>, ss: nat, o: nat, off: nat, temp: seq<byte>, was: seq<byte>)
    requires o < ss <= TEMP_SIZE && off + |was| <= |disk| && |temp| == TEMP_SIZE && BufferSafe(ss, o, |was|)
    requires Straddles(ss, o, |was|)
    ensures Fetched(disk, ss, o, off, temp, was) == disk[off..off + (ss - o)] + temp[ss..o + |was|]
  {
    assert was[..0] == [];
  }

  lemma FetchedWhole(disk: seq<byte>, ss: nat, o: nat, off: nat, temp: seq<byte>, was: seq<byte>)
    requires o < ss <= TEMP_SIZE && off + |was| <= |disk| && |temp| == TEMP_SIZE && !Straddles(ss, o, |was|)
    ensures BufferSafe(ss, o, |was|) && Fetched(disk, ss, o, off, temp, was) == disk[off..off + |was|]
  {
    assert was[..0] == was[|was|..] == [];
  }

  // ----- the device and the layer -----

  class Device {
    const sectorSize: nat
    var sectors: seq<seq<byte>>

    constructor (sectorSize: nat, sectors: seq<seq<byte>>)
      requires 0 < sectorSize && Uniform(sectors, sectorSize)
      ensures Valid() && this.sectorSize == sectorSize && this.sectors == sectors
    {
      this.sectorSize, this.sectors := sectorSize, sectors;
    }

    ghost predicate Valid()
      reads this
    {
      0 < sectorSize && Uniform(sectors, sectorSize)
    }

    function Disk(): (d: seq<byte>)
      reads this
    {
      Flat(sectors)
    }

    /** Reads sector `lba`, which starts at the byte `pos` of the flat disk. */
    method ReadSector(lba: nat, ghost pos: nat) returns (sector: seq<byte>)
      requires Valid() && pos == lba * sectorSize && pos + sectorSize <= |Disk()|
      ensures sector == Disk()[pos..pos + sectorSize]
    {
      LbaInRange(lba);
      FlatSector(sectors, sectorSize, lba);
      sector := sectors[lba];
    }

    method WriteSector(data: seq<byte>, lba: nat, ghost pos: nat)
      requires Valid() && pos == lba * sectorSize && pos + sectorSize <= |Disk()| && |data| == sectorSize
      modifies this
      ensures Valid() && Disk() == Splice(old(Disk()), pos, data)
    {
      LbaInRange(lba);
      FlatPut(sectors, sectorSize, lba, data);
      sectors := sectors[lba := data];
    }

    lemma LbaInRange(lba: nat)
      requires Valid() && lba * sectorSize + sectorSize <= |Disk()|
      ensures lba < |sectors|
    {
      FlatLength(sectors, sectorSize);
      if |sectors| <= lba {
        MulMono(|sectors|, lba, sectorSize);
      }
    }

    /** Splits a byte offset into its sector and the offset inside it; the sector is on the disk. */
    method Locate(off: nat) returns (lba: nat, sectorOff: nat, ghost pos: nat)
      requires Valid() && (off < |Disk()| || (off == |Disk()| && off % sectorSize != 0))
      ensures pos == lba * sectorSize && sectorOff == off % sectorSize && pos + sectorOff == off
      ensures sectorOff < sectorSize && pos + sectorSize <= |Disk()|
    {
      FlatLength(sectors, sectorSize);
      SectorInRange(off, sectorSize, |sectors|);
      lba, sectorOff, pos := off / sectorSize, off % sectorSize, off - off % sectorSize;
    }
  }

  lemma SectorInRange(off: nat, ss: nat, n: nat)
    requires 0 < ss && (off < n * ss || (off == n * ss && off % ss != 0))
    ensures 0 <= off / ss && off / ss * ss == off - off % ss && off - off % ss + ss <= n * ss
  {
    var lba := off / ss;
    assert off == lba * ss + off % ss;
    assert (lba + 1) * ss == lba * ss + ss;
    if n <= lba {
      MulMono(n, lba, ss);
      DivModUnique(off, ss, n, 0);
    } else {
      MulMono(lba + 1, n, ss);
    }
  }

  class Storage {
    const device: Device
    const readTemp: array<byte>
    const writeTemp: array<byte>

    constructor (device: Device)
      requires device.Valid()
      ensures Valid() && this.device == device && fresh(readTemp) && fresh(writeTemp)
    {
      this.device := device;
      readTemp, writeTemp := new byte[TEMP_SIZE](_ => 0), new byte[TEMP_SIZE](_ => 0);
    }

    ghost predicate Valid()
      reads device
    {
      device.Valid() && readTemp.Length == writeTemp.Length == TEMP_SIZE && readTemp != writeTemp
    }

    function Disk(): (d: seq<byte>)
      reads device
    {
      device.Disk()
    }

    method WriteUnaligned(data: seq<byte>, sectorOff: nat, lba: nat, ghost pos: nat)
      requires Valid() && sectorOff < device.sectorSize
      requires device.sectorSize <= TEMP_SIZE ==> sectorOff + |data| <= TEMP_SIZE
      requires pos == lba * device.sectorSize && pos + device.sectorSize <= |Disk()|
      modifies device, writeTemp
      ensures Valid()
      ensures Disk() == Splice(old(Disk()), pos + sectorOff, Kept(device.sectorSize, sectorOff, data))
    {
      if TEMP_SIZE < device.sectorSize {
        return;
      }
      var ss := device.sectorSize;
      ghost var temp, disk := writeTemp[..], Disk();
      var sector := device.ReadSector(lba, pos);
      Memcpy(writeTemp, 0, sector);
      Memcpy(writeTemp, sectorOff, data);
      ReadModifyWrite(disk, pos, ss, temp, sectorOff, data);
      device.WriteSector(writeTemp[..ss], lba, pos);
    }

    /** Delivers the new contents of the caller's buffer, which held `was`. */
    method ReadUnaligned(sectorOff: nat, lba: nat, was: seq<byte>, ghost pos: nat) returns (got: seq<byte>)
      requires Valid() && sectorOff < device.sectorSize
      requires device.sectorSize <= TEMP_SIZE ==> sectorOff + |was| <= TEMP_SIZE
      requires pos == lba * device.sectorSize && pos + device.sectorSize <= |Disk()|
      modifies readTemp
      ensures Valid()
      ensures device.sectorSize <= TEMP_SIZE ==> readTemp[device.sectorSize..] == old(readTemp[device.sectorSize..])
      ensures got == Bounced(device.sectorSize, sectorOff, Disk()[pos..pos + device.sectorSize],
                             old(readTemp[..]), was)
    {
      hide Uniform, Flat, Device.Disk, Splice;
      if TEMP_SIZE < device.sectorSize {
        return was;
      }
      ghost var temp := readTemp[..];
      var sector := device.ReadSector(lba, pos);
      SpliceSlices(temp, 0, sector);
      Memcpy(readTemp, 0, sector);
      assert readTemp[..] == sector + temp[|sector|..];
      got := readTemp[sectorOff..sectorOff + |was|];
    }

    /** The whole-sector loop of `SAL_write`. */
    method WriteWholeSectors(offset: nat, data: seq<byte>, start: nat) returns (copied: nat)
      requires Valid() && offset + |data| <= |Disk()| && start <= |data|
      requires start < |data| ==> (offset + start) % device.sectorSize == 0
      modifies device
      ensures Valid() && start <= copied <= |data|
      ensures |data| - copied == Rest(device.sectorSize, |data| - start)
      ensures copied < |data| ==> (offset + copied) % device.sectorSize == 0
      ensures Disk() == Splice(old(Disk()), offset + start, data[start..copied])
    {
      var ss := device.sectorSize;
      copied := start;
      while |data| - copied >= ss
        invariant start <= copied <= |data| && Valid()
        invariant copied < |data| ==> (offset + copied) % ss == 0
        invariant Rest(ss, |data| - copied) == Rest(ss, |data| - start)
        invariant Disk() == Splice(old(Disk()), offset + start, data[start..copied])
      {
        ModStep(offset + copied, ss);
        var lba, _, pos := device.Locate(offset + copied);
        ExtendSplice(old(Disk()), offset + start, data, start, copied, copied + ss);
        device.WriteSector(data[copied..copied + ss], lba, pos);
        copied := copied + ss;
      }
    }

    /** The first step of `SAL_write`. */
    method WriteHead(offset: nat, data: seq<byte>) returns (copied: nat)
      requires Valid() && offset + |data| <= |Disk()|
      requires BufferSafe(device.sectorSize, offset % device.sectorSize, |data|)
      modifies device, writeTemp
      ensures Valid() && copied == HeadLen(device.sectorSize, offset % device.sectorSize, |data|)
      ensures copied < |data| ==> (offset + copied) % device.sectorSize == 0
      ensures Disk() == AfterHead(old(Disk()), device.sectorSize, offset % device.sectorSize, offset, data)
    {
      copied := 0;
      if offset % device.sectorSize != 0 {
        var lba, sectorOff, pos := device.Locate(offset);
        copied := if |data| < device.sectorSize then |data| else device.sectorSize - sectorOff;
        WriteUnaligned(data[..copied], sectorOff, lba, pos);
        AlignUp(offset, device.sectorSize);
      }
    }

    /** The last step of `SAL_write`, from a sector boundary on. */
    method WriteTail(offset: nat, data: seq<byte>)
      requires Valid() && offset + |data| <= |Disk()| && |data| < device.sectorSize
      requires data != [] ==> offset % device.sectorSize == 0
      modifies device, writeTemp
      ensures Valid()
      ensures Disk() ==
        if data == [] then old(Disk()) else Splice(old(Disk()), offset, Kept(device.sectorSize, 0, data))
    {
      if |data| != 0 {
        var lba, sectorOff, pos := device.Locate(offset);
        WriteUnaligned(data, sectorOff, lba, pos);
      }
    }

    /** `SAL_write`: the flat disk changes by exactly the bytes that land. */
    method Write(offset: nat, data: seq<byte>)
      requires Valid() && offset + |data| <= |Disk()|
      requires BufferSafe(device.sectorSize, offset % device.sectorSize, |data|)
      modifies device, writeTemp
      ensures Valid()
      ensures Disk() == Splice(old(Disk()), offset,
        Landed(old(Disk()), device.sectorSize, offset % device.sectorSize, offset, data))
    {
      hide HeadLen, Landed, Device.Disk, Kept;
      WriteSteps(Disk(), device.sectorSize, offset % device.sectorSize, offset, data);
      var copied := WriteHead(offset, data);
      copied := WriteWholeSectors(offset, data, copied);
      WriteTail(offset + copied, data[copied..]);
    }

    /** The whole-sector loop of `SAL_read`. */
    method ReadWholeSectors(len: nat, offset: nat, start: nat) returns (copied: nat, got: seq<byte>)
      requires Valid() && offset + len <= |Disk()| && start <= len
      requires start < len ==> (offset + start) % device.sectorSize == 0
      ensures start <= copied <= len
      ensures len - copied == Rest(device.sectorSize, len - start)
      ensures copied < len ==> (offset + copied) % device.sectorSize == 0
      ensures got == Disk()[offset + start..offset + copied]
    {
      hide Uniform, Flat, Device.Disk;
      var ss := device.sectorSize;
      copied, got := start, [];
      while len - copied >= ss
        invariant start <= copied <= len
        invariant copied < len ==> (offset + copied) % ss == 0
        invariant Rest(ss, len - copied) == Rest(ss, len - start)
        invariant got == Disk()[offset + start..offset + copied]
      {
        ModStep(offset + copied, ss);
        var lba, _, pos := device.Locate(offset + copied);
        var sector := device.ReadSector(lba, pos);
        copied, got := copied + ss, got + sector;
      }
    }

    /** The first step of `SAL_read`. */
    method ReadHead(offset: nat, was: seq<byte>) returns (copied: nat, got: seq<byte>)
      requires Valid() && offset + |was| <= |Disk()|
      requires BufferSafe(device.sectorSize, offset % device.sectorSize, |was|)
      modifies readTemp
      ensures Valid() && copied == HeadLen(device.sectorSize, offset % device.sectorSize, |was|)
      ensures copied < |was| ==> (offset + copied) % device.sectorSize == 0
      ensures offset % device.sectorSize != 0 ==>
        offset % device.sectorSize <= offset
        && offset - offset % device.sectorSize + device.sectorSize <= |Disk()|
      ensures offset % device.sectorSize <= offset
      ensures got == HeadFetched(Disk(), device.sectorSize, offset % device.sectorSize, offset, old(readTemp[..]), was)
      ensures device.sectorSize <= TEMP_SIZE ==> readTemp[device.sectorSize..] == old(readTemp[device.sectorSize..])
    {
      copied, got := 0, [];
      ModAtMost(offset, device.sectorSize);
      if offset % device.sectorSize != 0 {
        var lba, sectorOff, pos := device.Locate(offset);
        copied := if |was| < device.sectorSize then |was| else device.sectorSize - sectorOff;
        got := ReadUnaligned(sectorOff, lba, was[..copied], pos);
        AlignUp(offset, device.sectorSize);
      }
    }

    /** The last step of `SAL_read`, from a sector boundary on. */
    method ReadTail(offset: nat, was: seq<byte>) returns (got: seq<byte>)
      requires Valid() && offset + |was| <= |Disk()| && |was| < device.sectorSize
      requires was != [] ==> offset % device.sectorSize == 0
      modifies readTemp
      ensures Valid()
      ensures got == if device.sectorSize > TEMP_SIZE then was else Disk()[offset..offset + |was|]
      ensures device.sectorSize <= TEMP_SIZE ==> readTemp[device.sectorSize..] == old(readTemp[device.sectorSize..])
    {
      got := [];
      if |was| != 0 {
        var lba, sectorOff, pos := device.Locate(offset);
        TailBounced(Disk(), pos, device.sectorSize, |was|);
        got := ReadUnaligned(sectorOff, lba, was, pos);
      }
    }

    /** `SAL_read`: the caller's buffer, which held `was`, afterwards holds exactly the bytes fetched. */
    method Read(offset: nat, was: seq<byte>) returns (got: seq<byte>)
      requires Valid() && offset + |was| <= |Disk()|
      requires BufferSafe(device.sectorSize, offset % device.sectorSize, |was|)
      modifies readTemp
      ensures Valid()
      ensures got == Fetched(Disk(), device.sectorSize, offset % device.sectorSize, offset, old(readTemp[..]), was)
      ensures device.sectorSize <= TEMP_SIZE ==> readTemp[device.sectorSize..] == old(readTemp[device.sectorSize..])
    {
      hide HeadLen, Fetched, HeadFetched, Device.Disk;
      var copied, head := ReadHead(offset, was);
      var e, whole := ReadWholeSectors(|was|, offset, copied);
      var tail := ReadTail(offset + e, was[e..]);
      ReadSteps(Disk(), device.sectorSize, offset % device.sectorSize, offset, old(readTemp[..]), was,
                head, whole, tail);
      got := head + whole + tail;
    }
  }

  lemma TailBounced(disk: seq<byte>, pos: nat, ss: nat, n: nat)
    requires pos + ss <= |disk| && n < ss
    ensures forall temp: seq<byte>, was: seq<byte> :: |temp| == TEMP_SIZE && |was| == n && ss <= TEMP_SIZE ==>
      Bounced(ss, 0, disk[pos..pos + ss], temp, was) == disk[pos..pos + n]
  {
    forall temp: seq<byte>, was: seq<byte> | |temp| == TEMP_SIZE && |was| == n && ss <= TEMP_SIZE
      ensures Bounced(ss, 0, disk[pos..pos + ss], temp, was) == disk[pos..pos + n]
    {
      assert (disk[pos..pos + ss] + temp[ss..])[0..n] == disk[pos..pos + n];
    }
  }

  lemma ExtendSplice<T>(s: seq<T>, at: nat, t: seq<T>, a: nat, b: nat, c: nat)
    requires a <= b <= c <= |t| && at + (c - a) <= |s|
    ensures Splice(Splice(s, at, t[a..b]), at + (b - a), t[b..c]) == Splice(s, at, t[a..c])
  {
    SpliceTwice(s, at, t[a..b], t[b..c]);
    assert t[a..b] + t[b..c] == t[a..c];
  }

  lemma ModAtMost(x: nat, d: nat)
    requires 0 < d
    ensures x % d <= x
  {
    if x < d {
      DivModUnique(x, d, 0, x);
    }
  }

  lemma AlignUp(off: nat, ss: nat)
    requires 0 < ss && off % ss != 0
    ensures (off + (ss - off % ss)) % ss == 0
  {
    var q := off / ss;
    assert off + (ss - off % ss) == (q + 1) * ss by { assert (q + 1) * ss == q * ss + ss; }
    DivModUnique(off + (ss - off % ss), ss, q + 1, 0);
  }
}
