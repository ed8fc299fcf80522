/** Single table entries as the driver really reads and stores them: two bytes through the storage layer. */
module FatEntries {
  import opened Bytes
  import opened FatTable
  import opened Sal

  /**
   * The word that a read of two bytes into a zeroed word delivers. When they straddle two sectors the
   * second one is `stale`, which the bounce buffer holds behind the sector; sectors too large for the
   * bounce buffer deliver nothing.
   */
  function SeenWord(d: seq<byte>, ss: nat, pos: nat, stale: byte): (w: nat)
    requires 0 < ss && pos + 2 <= |d|
    ensures w < 0x10000
  {
    if ss > TEMP_SIZE then 0
    else d[pos] as nat + 256 * (if Straddles(ss, pos % ss, 2) then stale else d[pos + 1])
  }

  /** The byte behind a sector in the bounce buffer. */
  function StaleIn(temp: seq<byte>, ss: nat): byte
    requires |temp| == TEMP_SIZE
  {
    if ss < TEMP_SIZE then temp[ss] else 0
  }

  lemma StaleSame(temp: seq<byte>, temp': seq<byte>, ss: nat)
    requires |temp| == |temp'| == TEMP_SIZE && (ss <= TEMP_SIZE ==> temp[ss..] == temp'[ss..])
    ensures StaleIn(temp, ss) == StaleIn(temp', ss)
  {
    if ss < TEMP_SIZE {
      assert temp[ss] == temp[ss..][0] && temp'[ss] == temp'[ss..][0];
    }
  }

  lemma SeenIs(d: seq<byte>, ss: nat, pos: nat, temp: seq<byte>)
    requires 0 < ss && pos + 2 <= |d| && |temp| == TEMP_SIZE && BufferSafe(ss, pos % ss, 2)
    ensures
      var got := Fetched(d, ss, pos % ss, pos, temp, [0, 0]);
      got[0] as nat + 256 * got[1] as nat == SeenWord(d, ss, pos, StaleIn(temp, ss))
  {
    var o := pos % ss;
    if ss > TEMP_SIZE {
      assert Rest(ss, 2 - HeadLen(ss, o, 2)) == 2 - HeadLen(ss, o, 2);
      assert Fetched(d, ss, o, pos, temp, [0, 0]) == [0, 0];
    }
  }

  /** `FAT_get_entry` at a place of the disk. */
  function SeenEntry(k: SmallFat, d: seq<byte>, ss: nat, pos: nat, c: nat, stale: byte): (e: nat)
    requires 0 < ss && pos + 2 <= |d|
    ensures e < 0x10000
  {
    Decode(k, c, SeenWord(d, ss, pos, stale))
  }

  /** The disk after `FAT_set_entry` at that place. */
  function StoredEntry(k: SmallFat, d: seq<byte>, ss: nat, pos: nat, c: nat, stale: byte, x: nat): (r: seq<byte>)
    requires 0 < ss && pos + 2 <= |d|
    ensures |r| == |d|
  {
    Splice(d, pos, Landed(d, ss, pos % ss, pos, WordBytes(Patch(k, c, SeenWord(d, ss, pos, stale), x))))
  }

  lemma ExactSeen(d: seq<byte>, ss: nat, pos: nat, stale: byte)
    requires 0 < ss && pos + 2 <= |d| && Exact(ss, pos % ss, 2)
    ensures SeenWord(d, ss, pos, stale) == Word(d, pos)
  {
  }

  /** An exact store is the packed store of the table. */
  lemma ExactStored(k: SmallFat, d: seq<byte>, ss: nat, base: nat, c: nat, stale: byte, x: nat)
    requires 0 < ss && base + EntryOff(k, c) + 2 <= |d| && Exact(ss, (base + EntryOff(k, c)) % ss, 2)
    ensures StoredEntry(k, d, ss, base + EntryOff(k, c), c, stale, x) == Put(k, d, base, c, x)
  {
    var pos := base + EntryOff(k, c);
    var data := WordBytes(Patch(k, c, Word(d, pos), x));
    ExactSeen(d, ss, pos, stale);
    ExactMovesAll(ss, pos % ss, 2);
    assert Landed(d, ss, pos % ss, pos, data) == data;
  }

  /** Getting what was just set returns the value. */
  predicate RoundTrips(k: SmallFat, d: seq<byte>, ss: nat, pos: nat, c: nat, stale: byte, x: nat)
    requires 0 < ss && pos + 2 <= |d|
  {
    SeenEntry(k, StoredEntry(k, d, ss, pos, c, stale, x), ss, pos, c, stale) == x % Cap(k)
  }

  /**
   * On every disk and with every bounce buffer, setting and then getting an entry returns every value
   * exactly if the access is exact: it does not start at the last byte of a sector, nor use sectors
   * over 4096 bytes.
   */
  lemma EntryRoundTripsIff(k: SmallFat, d: seq<byte>, ss: nat, pos: nat, c: nat, stale: byte)
    requires 0 < ss && pos + 2 <= |d|
    ensures Exact(ss, pos % ss, 2) <==> forall x: nat :: RoundTrips(k, d, ss, pos, c, stale, x)
  {
    if Exact(ss, pos % ss, 2) {
      forall x: nat
        ensures RoundTrips(k, d, ss, pos, c, stale, x)
      {
        ExactRoundTrips(k, d, ss, pos, c, stale, x);
      }
    } else {
      InexactFails(k, d, ss, pos, c, stale);
    }
  }

  lemma ExactRoundTrips(k: SmallFat, d: seq<byte>, ss: nat, pos: nat, c: nat, stale: byte, x: nat)
    requires 0 < ss && pos + 2 <= |d| && Exact(ss, pos % ss, 2)
    ensures RoundTrips(k, d, ss, pos, c, stale, x)
  {
    hide Decode, Patch, Splice;
    var w := SeenWord(d, ss, pos, stale);
    var data := WordBytes(Patch(k, c, w, x));
    ExactMovesAll(ss, pos % ss, 2);
    assert Landed(d, ss, pos % ss, pos, data) == data;
    SpliceIndex(d, pos, data);
    ExactSeen(Splice(d, pos, data), ss, pos, stale);
    DecodePatch(k, c, w, x);
  }

  /** A value that does not come back: the part of it that should lie in the stale byte differs from it. */
  function Lost(k: SmallFat, c: nat, ss: nat, stale: byte): nat {
    if ss > TEMP_SIZE then 1
    else if k.Fat12? && c % 2 == 0 then 256 * ((stale + 1) % 16)
    else if k.Fat12? then 16 * ((stale + 1) % 256)
    else 256 * ((stale + 1) % 256)
  }

  lemma InexactFails(k: SmallFat, d: seq<byte>, ss: nat, pos: nat, c: nat, stale: byte)
    requires 0 < ss && pos + 2 <= |d| && !Exact(ss, pos % ss, 2)
    ensures !RoundTrips(k, d, ss, pos, c, stale, Lost(k, c, ss, stale))
  {
    hide Decode, Patch, Splice, Lost, Cap;
    var x := Lost(k, c, ss, stale);
    if ss <= TEMP_SIZE {
      var w := SeenWord(d, ss, pos, stale);
      var data := WordBytes(Patch(k, c, w, x));
      var landed := Landed(d, ss, pos % ss, pos, data);
      assert landed[0] == data[0];
      SpliceIndex(d, pos, landed);
      assert SeenWord(StoredEntry(k, d, ss, pos, c, stale, x), ss, pos, stale) == Patch(k, c, w, x) % 256 + 256 * stale;
      LostHalf(k, c, ss, w, stale);
    } else {
      LostAll(k, c, ss, stale);
    }
  }

  lemma LostAll(k: SmallFat, c: nat, ss: nat, stale: byte)
    requires ss > TEMP_SIZE
    ensures Decode(k, c, 0) != Lost(k, c, ss, stale) % Cap(k)
  {
  }

  /** The word made of a value's low byte and the stale byte does not decode to the value. */
  lemma LostHalf(k: SmallFat, c: nat, ss: nat, w: nat, stale: byte)
    requires ss <= TEMP_SIZE && w < 0x10000
    ensures Decode(k, c, Patch(k, c, w, Lost(k, c, ss, stale)) % 256 + 256 * stale) != Lost(k, c, ss, stale) % Cap(k)
  {
    if k.Fat12? && c % 2 == 0 {
      LowByteEven(w, (stale + 1) % 16);
      ModOfStale(stale);
    } else if k.Fat12? {
      LowByteOdd(w, (stale + 1) % 256);
    }
  }

  lemma LowByteEven(w: nat, h: nat)
    requires w < 0x10000 && h < 16
    ensures (256 * h % 0x1000 + w / 0x1000 * 0x1000) % 256 == 0
  {
    DivModUnique(256 * h + w / 0x1000 * 0x1000, 256, h + w / 0x1000 * 16, 0);
  }

  lemma ModOfStale(stale: byte)
    ensures 256 * stale % 0x1000 == 256 * (stale % 16)
  {
    DivModUnique(256 * stale, 0x1000, stale / 16, 256 * (stale % 16));
  }

  lemma LowByteOdd(w: nat, h: nat)
    requires h < 256
    ensures (16 * h * 16 + w % 16) % 0x10000 % 256 == w % 16
  {
    DivModUnique(256 * h + w % 16, 256, h, w % 16);
  }

  /** On zeroed sectors of 512 bytes, cluster 341 set to the end mark reads back as cluster 15. */
  lemma EndMarkBecomes15(d: seq<byte>)
    requires |d| == 1024 && forall i :: 0 <= i < 1024 ==> d[i] == 0
    ensures EntryOff(Fat12, 341) == 511
    ensures SeenEntry(Fat12, StoredEntry(Fat12, d, 512, 511, 341, 0, 0xFFF), 512, 511, 341, 0) == 0xF
  {
    var data := WordBytes(Patch(Fat12, 341, 0, 0xFFF));
    assert Landed(d, 512, 511, 511, data) == [0xF0, 0];
    SpliceIndex(d, 511, [0xF0, 0]);
  }
}
