/**
 * FAT12 and FAT16 entries packed in bytes, and the mirrored copies of the table.
 * The packed table stands for an array of 12-bit or 16-bit values, one for each cluster number.
 */
module FatTable {
  import opened Bytes

  datatype FatType = FatNull | Fat12 | Fat16 | Fat32

  /** The variants whose entries the driver packs and masks as the format says. */
  type SmallFat = k: FatType | k.Fat12? || k.Fat16? witness Fat16

  /** One more than the largest value an entry holds. */
  function Cap(k: SmallFat): nat {
    if k.Fat12? then 0x1000 else 0x10000
  }

  /** The least end-of-chain marker. */
  function EocMin(k: SmallFat): nat {
    if k.Fat12? then 0xFF8 else 0xFFF8
  }

  predicate IsEoc(k: SmallFat, entry: nat) {
    entry >= EocMin(k)
  }

  /** Byte offset of a cluster's entry inside one copy of the table. */
  function EntryOff(k: SmallFat, c: nat): nat {
    if k.Fat12? then c + c / 2 else c * 2
  }

  function Word(d: seq<byte>, p: nat): (w: nat)
    requires p + 2 <= |d|
    ensures w < 0x10000
  {
    d[p] as int + 256 * (d[p + 1] as int)
  }

  function WordBytes(w: nat): (b: seq<byte>)
    requires w < 0x10000
    ensures |b| == 2
  {
    [w % 256, w / 256]
  }

  /** The entry of cluster `c`, taken from the 16-bit word stored at its offset. */
  function Decode(k: SmallFat, c: nat, w: nat): nat {
    if k.Fat16? then w else if c % 2 == 1 then w / 16 else w % 0x1000
  }

  /**
   * The word to store for value `v`, given the word `w` stored now: FAT12 keeps the nibble that
   * belongs to the neighbouring entry. Only the low 16 bits reach the disk.
   */
  function Patch(k: SmallFat, c: nat, w: nat, v: nat): (r: nat)
    requires w < 0x10000
    ensures r < 0x10000
  {
    if k.Fat16? then v % 0x10000
    else if c % 2 == 1 then (v * 16 + w % 16) % 0x10000
    else v % 0x1000 + w / 0x1000 * 0x1000
  }

  /** Value of cluster `c` in the copy of the table that starts at `base`. */
  function Get(k: SmallFat, d: seq<byte>, base: nat, c: nat): nat
    requires base + EntryOff(k, c) + 2 <= |d|
  {
    Decode(k, c, Word(d, base + EntryOff(k, c)))
  }

  /** The disk after storing `v` for cluster `c` in the copy that starts at `base`. */
  function Put(k: SmallFat, d: seq<byte>, base: nat, c: nat, v: nat): (r: seq<byte>)
    requires base + EntryOff(k, c) + 2 <= |d|
    ensures |r| == |d|
  {
    var p := base + EntryOff(k, c);
    Splice(d, p, WordBytes(Patch(k, c, Word(d, p), v)))
  }

  lemma PutBytes(k: SmallFat, d: seq<byte>, base: nat, c: nat, v: nat)
    requires base + EntryOff(k, c) + 2 <= |d|
    ensures
      var p := base + EntryOff(k, c);
      var w := Patch(k, c, Word(d, p), v);
      Put(k, d, base, c, v)[p] == w % 256 && Put(k, d, base, c, v)[p + 1] == w / 256
      && forall i :: 0 <= i < |d| && i != p && i != p + 1 ==> Put(k, d, base, c, v)[i] == d[i]
  {
    var p := base + EntryOff(k, c);
    SpliceIndex(d, p, WordBytes(Patch(k, c, Word(d, p), v)));
  }

  lemma PutElsewhere(k: SmallFat, d: seq<byte>, base: nat, c: nat, v: nat, pos: nat)
    requires base + EntryOff(k, c) + 2 <= |d| && pos < |d|
    requires pos < base + EntryOff(k, c) || base + EntryOff(k, c) + 2 <= pos
    ensures Put(k, d, base, c, v)[pos] == d[pos]
  {
    PutBytes(k, d, base, c, v);
  }

  /** A stored byte depends only on the bytes at its place and at the entry's place. */
  lemma PutAgree(k: SmallFat, d1: seq<byte>, b1: nat, d2: seq<byte>, b2: nat, c: nat, v: nat, x: nat)
    requires b1 + EntryOff(k, c) + 2 <= |d1| && b2 + EntryOff(k, c) + 2 <= |d2|
    requires b1 + x < |d1| && b2 + x < |d2| && d1[b1 + x] == d2[b2 + x]
    requires d1[b1 + EntryOff(k, c)] == d2[b2 + EntryOff(k, c)]
    requires d1[b1 + EntryOff(k, c) + 1] == d2[b2 + EntryOff(k, c) + 1]
    ensures Put(k, d1, b1, c, v)[b1 + x] == Put(k, d2, b2, c, v)[b2 + x]
  {
    PutBytes(k, d1, b1, c, v);
    PutBytes(k, d2, b2, c, v);
    assert Word(d1, b1 + EntryOff(k, c)) == Word(d2, b2 + EntryOff(k, c));
  }

  /** The word stored for an odd FAT12 entry: the value's twelve bits above the neighbour's nibble. */
  lemma OddWord(w: nat, v: nat)
    ensures (v * 16 + w % 16) % 0x10000 == 16 * (v % 0x1000) + w % 16
  {
    DivModUnique(v * 16 + w % 16, 0x10000, v / 0x1000, 16 * (v % 0x1000) + w % 16);
  }

  lemma DecodePatch(k: SmallFat, c: nat, w: nat, v: nat)
    requires w < 0x10000
    ensures Decode(k, c, Patch(k, c, w, v)) == v % Cap(k)
  {
    if k.Fat12? && c % 2 == 1 {
      OddWord(w, v);
      DivModUnique(16 * (v % 0x1000) + w % 16, 16, v % 0x1000, w % 16);
    } else if k.Fat12? {
      DivModUnique(v % 0x1000 + w / 0x1000 * 0x1000, 0x1000, w / 0x1000, v % 0x1000);
    }
  }

  /** Storing an even FAT12 entry keeps the high nibble of its second byte. */
  lemma EvenKeepsHighNibble(w: nat, v: nat)
    requires w < 0x10000
    ensures (v % 0x1000 + w / 0x1000 * 0x1000) / 256 / 16 == w / 256 / 16
  {
  }

  /** Storing an odd FAT12 entry keeps the low nibble of its first byte. */
  lemma OddKeepsLowNibble(w: nat, v: nat)
    ensures (v * 16 + w % 16) % 0x10000 % 256 % 16 == w % 256 % 16
  {
    OddWord(w, v);
    NibbleOfByte(16 * (v % 0x1000) + w % 16);
    NibbleOfByte(w);
    DivModUnique(16 * (v % 0x1000) + w % 16, 16, v % 0x1000, w % 16);
  }

  lemma NibbleOfByte(x: nat)
    ensures x % 256 % 16 == x % 16
  {
    DivModUnique(x, 16, x / 256 * 16 + x % 256 / 16, x % 256 % 16);
  }

  // ----- the bytes of an entry on the disk -----

  /**
   * A FAT16 entry is two bytes, the low one first. Two FAT12 entries share three bytes: the even one is
   * the first byte and the low nibble of the second, the odd one the high nibble and the third byte.
   */
  lemma EntryBytes(k: SmallFat, d: seq<byte>, base: nat, c: nat)
    requires base + (if k.Fat16? then 2 * c else 3 * c / 2) + 2 <= |d|
    ensures EntryOff(k, c) == if k.Fat16? then 2 * c else 3 * c / 2
    ensures k.Fat16? ==> Get(k, d, base, c) == d[base + 2 * c] as int + 256 * d[base + 2 * c + 1] as int
    ensures k.Fat12? ==>
      var p := base + 3 * c / 2;
      var lo, hi := d[p] as int, d[p + 1] as int;
      Get(k, d, base, c) == if c % 2 == 0 then lo + 256 * (hi % 16) else lo / 16 + 16 * hi
  {
    DecodeBytes(k, c, d[base + EntryOff(k, c)], d[base + EntryOff(k, c) + 1]);
  }

  lemma DecodeBytes(k: SmallFat, c: nat, lo: byte, hi: byte)
    ensures Decode(k, c, lo as int + 256 * hi as int) ==
      if k.Fat16? then lo + 256 * hi else if c % 2 == 0 then lo + 256 * (hi % 16) else lo / 16 + 16 * hi
  {
    if k.Fat12? && c % 2 == 0 {
      DivModUnique(lo + 256 * hi, 0x1000, hi / 16, lo + 256 * (hi % 16));
    } else if k.Fat12? {
      DivModUnique(lo + 256 * hi, 16, lo / 16 + 16 * hi, lo % 16);
    }
  }

  /** Storing an entry stores its value there, keeps a neighbour's nibble, and changes no other byte. */
  lemma StoreBytes(k: SmallFat, d: seq<byte>, base: nat, c: nat, v: nat)
    requires base + (if k.Fat16? then 2 * c else 3 * c / 2) + 2 <= |d|
    ensures base + EntryOff(k, c) + 2 <= |d|
    ensures
      var p, d' := base + (if k.Fat16? then 2 * c else 3 * c / 2), Put(k, d, base, c, v);
      && (forall i :: 0 <= i < |d| && i != p && i != p + 1 ==> d'[i] == d[i])
      && d'[p] == (if k.Fat12? && c % 2 == 1 then d[p] % 16 + 16 * (v % 16) else v % 256)
      && d'[p + 1] ==
           if k.Fat16? then v / 256 % 256
           else if c % 2 == 0 then v / 256 % 16 + 16 * (d[p + 1] / 16)
           else v / 16 % 256
  {
    var p := base + EntryOff(k, c);
    PutBytes(k, d, base, c, v);
    PatchBytes(k, c, d[p], d[p + 1], v);
  }

  lemma PatchBytes(k: SmallFat, c: nat, lo: byte, hi: byte, v: nat)
    ensures
      var w := Patch(k, c, lo as int + 256 * hi as int, v);
      && w % 256 == (if k.Fat12? && c % 2 == 1 then lo % 16 + 16 * (v % 16) else v % 256)
      && w / 256 ==
           if k.Fat16? then v / 256 % 256
           else if c % 2 == 0 then v / 256 % 16 + 16 * (hi / 16)
           else v / 16 % 256
  {
    if k.Fat16? {
      PatchWord(v, 256);
    } else if c % 2 == 0 {
      PatchEven(lo, hi, v);
    } else {
      PatchOdd(lo, hi, v);
    }
  }

  /** The bytes of the low 16 or 12 bits of a value. */
  lemma PatchWord(v: nat, m: nat)
    requires 0 < m
    ensures v % (256 * m) % 256 == v % 256 && v % (256 * m) / 256 == v / 256 % m
  {
    var q := v / 256;
    assert v == 256 * q + v % 256 && q == m * (q / m) + q % m;
    assert v == 256 * m * (q / m) + (256 * (q % m) + v % 256) by {
      assert 256 * (m * (q / m)) == 256 * m * (q / m);
    }
    DivModUnique(v, 256 * m, q / m, 256 * (q % m) + v % 256);
    DivModUnique(256 * (q % m) + v % 256, 256, q % m, v % 256);
  }

  lemma PatchEven(lo: byte, hi: byte, v: nat)
    ensures
      var w := v % 0x1000 + (lo as int + 256 * hi as int) / 0x1000 * 0x1000;
      w % 256 == v % 256 && w / 256 == v / 256 % 16 + 16 * (hi / 16)
  {
    PatchWord(v, 16);
    DivModUnique(lo + 256 * hi, 0x1000, hi / 16, lo + 256 * (hi % 16));
    DivModUnique(v % 0x1000 + hi / 16 * 0x1000, 256, v / 256 % 16 + 16 * (hi / 16), v % 256);
  }

  lemma PatchOdd(lo: byte, hi: byte, v: nat)
    ensures
      var w := (v * 16 + (lo as int + 256 * hi as int) % 16) % 0x10000;
      w % 256 == lo % 16 + 16 * (v % 16) && w / 256 == v / 16 % 256
  {
    DivModUnique(lo + 256 * hi, 16, lo / 16 + 16 * hi, lo % 16);
    PatchWord(v * 16 + lo % 16, 256);
    DivModUnique(v * 16 + lo % 16, 256, v / 16, 16 * (v % 16) + lo % 16);
  }

  /** The end marks are the eight highest values of an entry. */
  lemma EndMarks(k: SmallFat, e: nat)
    requires e < if k.Fat12? then 4096 else 65536
    ensures IsEoc(k, e) <==> (if k.Fat12? then 4096 else 65536) - e <= 8
  {
  }

  /** Reading an entry back returns the value stored, cut to the width of an entry. */
  lemma GetPutSame(k: SmallFat, d: seq<byte>, base: nat, c: nat, v: nat)
    requires base + EntryOff(k, c) + 2 <= |d|
    ensures Get(k, Put(k, d, base, c, v), base, c) == v % Cap(k)
  {
    PutBytes(k, d, base, c, v);
    var p := base + EntryOff(k, c);
    var w := Patch(k, c, Word(d, p), v);
    assert Word(Put(k, d, base, c, v), p) == w;
    DecodePatch(k, c, Word(d, p), v);
  }

  /** Storing one entry leaves every other entry as it was, although FAT12 entries share bytes. */
  lemma GetPutOther(k: SmallFat, d: seq<byte>, base: nat, c: nat, v: nat, other: nat)
    requires base + EntryOff(k, c) + 2 <= |d| && base + EntryOff(k, other) + 2 <= |d|
    requires other != c
    ensures Get(k, Put(k, d, base, c, v), base, other) == Get(k, d, base, other)
  {
    var d' := Put(k, d, base, c, v);
    var p, q := base + EntryOff(k, c), base + EntryOff(k, other);
    if k.Fat12? && other == c + 1 && c % 2 == 0 {
      OddNeighbour(d, base, c, v);
    } else if k.Fat12? && c == other + 1 && c % 2 == 1 {
      EvenNeighbour(d, base, c, v);
    } else {
      if k.Fat12? { Spacing(c, other); }
      PutElsewhere(k, d, base, c, v, q);
      PutElsewhere(k, d, base, c, v, q + 1);
      GetSameBytes(k, d, d', base, other);
    }
  }

  lemma OddNeighbour(d: seq<byte>, base: nat, c: nat, v: nat)
    requires c % 2 == 0 && base + EntryOff(Fat12, c + 1) + 2 <= |d|
    ensures Get(Fat12, Put(Fat12, d, base, c, v), base, c + 1) == Get(Fat12, d, base, c + 1)
  {
    hide Put;
    var d' := Put(Fat12, d, base, c, v);
    var p := base + EntryOff(Fat12, c);
    assert base + EntryOff(Fat12, c + 1) == p + 1;
    PutBytes(Fat12, d, base, c, v);
    EvenKeepsHighNibble(Word(d, p), v);
    NibbleOfOdd(d, p + 1);
    NibbleOfOdd(d', p + 1);
  }

  lemma EvenNeighbour(d: seq<byte>, base: nat, c: nat, v: nat)
    requires c % 2 == 1 && base + EntryOff(Fat12, c) + 2 <= |d|
    ensures Get(Fat12, Put(Fat12, d, base, c, v), base, c - 1) == Get(Fat12, d, base, c - 1)
  {
    hide Put, Word;
    var d' := Put(Fat12, d, base, c, v);
    var p := base + EntryOff(Fat12, c);
    assert base + EntryOff(Fat12, c - 1) == p - 1;
    SharedByte(d, base, c, v);
    NibbleOfEven(d, p - 1);
    NibbleOfEven(d', p - 1);
  }

  /** An odd FAT12 entry's store keeps the byte before it, and the low nibble of the byte it shares. */
  lemma SharedByte(d: seq<byte>, base: nat, c: nat, v: nat)
    requires c % 2 == 1 && base + EntryOff(Fat12, c) + 2 <= |d|
    ensures
      var d', p := Put(Fat12, d, base, c, v), base + EntryOff(Fat12, c);
      d'[p - 1] == d[p - 1] && d'[p] as int % 16 == d[p] as int % 16
  {
    hide Put;
    var p := base + EntryOff(Fat12, c);
    PutBytes(Fat12, d, base, c, v);
    OddKeepsLowNibble(Word(d, p), v);
    assert d[p] as int == Word(d, p) % 256;
  }

  lemma NibbleOfOdd(d: seq<byte>, q: nat)
    requires q + 2 <= |d|
    ensures Word(d, q) / 16 == d[q] as int / 16 + 16 * (d[q + 1] as int)
  {
  }

  lemma NibbleOfEven(d: seq<byte>, q: nat)
    requires q + 2 <= |d|
    ensures Word(d, q) % 0x1000 == d[q] as int + 256 * (d[q + 1] as int % 16)
  {
  }

  /** Two FAT12 entries that do not share a byte are at least two bytes apart. */
  lemma Spacing(a: nat, b: nat)
    requires a != b && !(b == a + 1 && a % 2 == 0) && !(a == b + 1 && a % 2 == 1)
    ensures a + a / 2 + 2 <= b + b / 2 || b + b / 2 + 2 <= a + a / 2
  {
  }

  // ----- mirrored copies -----

  /** Where the volume keeps its tables: `numFat` copies of `fatBytes` bytes from `fatStart` on. */
  datatype Tables = Tables(kind: SmallFat, fatStart: nat, fatBytes: nat, numFat: nat)

  /** `n` times `m`, added up. */
  function Times(n: nat, m: nat): (r: nat) {
    if n == 0 then 0 else Times(n - 1, m) + m
  }

  lemma {:induction false} TimesIsProduct(n: nat, m: nat)
    ensures Times(n, m) == n * m
  {
    if n > 0 {
      TimesIsProduct(n - 1, m);
      assert n * m == (n - 1) * m + m;
    }
  }

  lemma {:induction false} TimesMono(a: nat, b: nat, m: nat)
    requires a < b
    ensures Times(a, m) + m <= Times(b, m)
    decreases b
  {
    if a < b - 1 {
      TimesMono(a, b - 1, m);
    }
  }

  function CopyBase(t: Tables, i: nat): (p: nat)
    ensures t.fatStart <= p
  {
    t.fatStart + Times(i, t.fatBytes)
  }

  function TablesEnd(t: Tables): (p: nat)
    ensures t.fatStart <= p
  {
    CopyBase(t, t.numFat)
  }

  lemma CopyInTables(t: Tables, i: nat)
    requires i < t.numFat
    ensures CopyBase(t, i) + t.fatBytes <= TablesEnd(t)
  {
    TimesMono(i, t.numFat, t.fatBytes);
  }

  /** An entry that lies inside each copy. */
  predicate Inside(t: Tables, c: nat) {
    EntryOff(t.kind, c) + 2 <= t.fatBytes
  }

  /** `FAT_set_entries` over the first `n` copies. */
  function SetCopies(t: Tables, d: seq<byte>, n: nat, c: nat, v: nat): (r: seq<byte>)
    requires n <= t.numFat && TablesEnd(t) <= |d|
    requires n > 0 ==> CopyBase(t, n - 1) + EntryOff(t.kind, c) + 2 <= |d|
    ensures |r| == |d|
  {
    if n == 0 then d
    else
      Put(t.kind, SetCopies(t, d, n - 1, c, v), CopyBase(t, n - 1), c, v)
  }

  /** Setting an entry that lies inside the copies touches no byte outside the tables. */
  lemma {:induction false} SetCopiesFrame(t: Tables, d: seq<byte>, n: nat, c: nat, v: nat)
    requires n <= t.numFat && TablesEnd(t) <= |d| && Inside(t, c)
    ensures n > 0 ==> CopyBase(t, n - 1) + EntryOff(t.kind, c) + 2 <= |d|
    ensures forall i :: 0 <= i < |d| && (i < t.fatStart || CopyBase(t, n) <= i) ==>
      SetCopies(t, d, n, c, v)[i] == d[i]
  {
    if n > 0 {
      CopyInTables(t, n - 1);
      SetCopiesFrame(t, d, n - 1, c, v);
      PutBytes(t.kind, SetCopies(t, d, n - 1, c, v), CopyBase(t, n - 1), c, v);
    }
  }

  /** An entry depends only on the two bytes at its place. */
  lemma GetSameBytes(k: SmallFat, d: seq<byte>, d': seq<byte>, base: nat, c: nat)
    requires base + EntryOff(k, c) + 2 <= |d| == |d'|
    requires d[base + EntryOff(k, c)] == d'[base + EntryOff(k, c)]
    requires d[base + EntryOff(k, c) + 1] == d'[base + EntryOff(k, c) + 1]
    ensures Get(k, d, base, c) == Get(k, d', base, c)
  {
  }

  /** Setting an entry in the first `n` copies sets it there and changes no other entry of any copy. */
  lemma {:induction false} SetCopiesEntry(t: Tables, d: seq<byte>, n: nat, c: nat, v: nat, i: nat, other: nat)
    requires n <= t.numFat && TablesEnd(t) <= |d| && Inside(t, c) && Inside(t, other) && i < t.numFat
    ensures n > 0 ==> CopyBase(t, n - 1) + EntryOff(t.kind, c) + 2 <= |d|
    ensures CopyBase(t, i) + EntryOff(t.kind, other) + 2 <= |d|
    ensures Get(t.kind, SetCopies(t, d, n, c, v), CopyBase(t, i), other) ==
      if other == c && i < n then v % Cap(t.kind) else Get(t.kind, d, CopyBase(t, i), other)
  {
    hide Put, Get, Cap;
    CopyInTables(t, i);
    if n > 0 {
      CopyInTables(t, n - 1);
      SetCopiesEntry(t, d, n - 1, c, v, i, other);
      var before := SetCopies(t, d, n - 1, c, v);
      if i == n - 1 {
        if other == c {
          GetPutSame(t.kind, before, CopyBase(t, i), c, v);
        } else {
          GetPutOther(t.kind, before, CopyBase(t, i), c, v, other);
        }
      } else {
        if i < n - 1 { TimesMono(i, n - 1, t.fatBytes); } else { TimesMono(n - 1, i, t.fatBytes); }
        PutElsewhere(t.kind, before, CopyBase(t, n - 1), c, v, CopyBase(t, i) + EntryOff(t.kind, other));
        PutElsewhere(t.kind, before, CopyBase(t, n - 1), c, v, CopyBase(t, i) + EntryOff(t.kind, other) + 1);
        GetSameBytes(t.kind, before, SetCopies(t, d, n, c, v), CopyBase(t, i), other);
      }
    }
  }

  /** All copies hold the same bytes. */
  ghost predicate Mirrored(t: Tables, d: seq<byte>) {
    TablesEnd(t) <= |d| &&
    forall i, x :: 0 <= i < t.numFat && 0 <= x < t.fatBytes ==>
      CopyByte(t, d, i, x) == CopyByte(t, d, 0, x)
  }

  function CopyByte(t: Tables, d: seq<byte>, i: nat, x: nat): byte
    requires TablesEnd(t) <= |d| && i < t.numFat && x < t.fatBytes
  {
    CopyInTables(t, i);
    d[CopyBase(t, i) + x]
  }

  /** A byte of copy `i` once the first `n` copies, `i` among them, were set. */
  lemma {:induction false} SetCopiesByte(t: Tables, d: seq<byte>, n: nat, c: nat, v: nat, i: nat, x: nat)
    requires i < n <= t.numFat && TablesEnd(t) <= |d| && Inside(t, c) && x < t.fatBytes
    ensures CopyBase(t, n - 1) + EntryOff(t.kind, c) + 2 <= |d|
    ensures CopyBase(t, i) + EntryOff(t.kind, c) + 2 <= |d|
    ensures CopyByte(t, SetCopies(t, d, n, c, v), i, x) == CopyByte(t, Put(t.kind, d, CopyBase(t, i), c, v), i, x)
  {
    hide Put, EntryOff;
    CopyInTables(t, i);
    CopyInTables(t, n - 1);
    SetCopiesFrame(t, d, n - 1, c, v);
    var before := SetCopies(t, d, n - 1, c, v);
    if i == n - 1 {
      PutAgree(t.kind, before, CopyBase(t, i), d, CopyBase(t, i), c, v, x);
    } else {
      SetCopiesByte(t, d, n - 1, c, v, i, x);
      TimesMono(i, n - 1, t.fatBytes);
      PutElsewhere(t.kind, before, CopyBase(t, n - 1), c, v, CopyBase(t, i) + x);
    }
  }

  /** Setting an entry in all copies keeps mirrored tables mirrored. */
  lemma SetCopiesKeepsMirror(t: Tables, d: seq<byte>, c: nat, v: nat)
    requires TablesEnd(t) <= |d| && Inside(t, c) && Mirrored(t, d)
    ensures t.numFat > 0 ==> CopyBase(t, t.numFat - 1) + EntryOff(t.kind, c) + 2 <= |d|
    ensures Mirrored(t, SetCopies(t, d, t.numFat, c, v))
  {
    if t.numFat > 0 {
      CopyInTables(t, t.numFat - 1);
      CopyInTables(t, 0);
      forall i, x | 0 <= i < t.numFat && 0 <= x < t.fatBytes
        ensures CopyByte(t, SetCopies(t, d, t.numFat, c, v), i, x)
             == CopyByte(t, SetCopies(t, d, t.numFat, c, v), 0, x)
      {
        SetCopiesByte(t, d, t.numFat, c, v, i, x);
        SetCopiesByte(t, d, t.numFat, c, v, 0, x);
        PutMirrored(t, d, c, v, i, x);
      }
    }
  }

  lemma PutMirrored(t: Tables, d: seq<byte>, c: nat, v: nat, i: nat, x: nat)
    requires TablesEnd(t) <= |d| && Inside(t, c) && Mirrored(t, d) && i < t.numFat && x < t.fatBytes
    ensures CopyBase(t, i) + EntryOff(t.kind, c) + 2 <= |d| && CopyBase(t, 0) + EntryOff(t.kind, c) + 2 <= |d|
    ensures CopyByte(t, Put(t.kind, d, CopyBase(t, i), c, v), i, x)
         == CopyByte(t, Put(t.kind, d, CopyBase(t, 0), c, v), 0, x)
  {
    CopyInTables(t, i);
    CopyInTables(t, 0);
    var o := EntryOff(t.kind, c);
    assert CopyByte(t, d, i, o) == CopyByte(t, d, 0, o);
    assert CopyByte(t, d, i, o + 1) == CopyByte(t, d, 0, o + 1);
    assert CopyByte(t, d, i, x) == CopyByte(t, d, 0, x);
    PutAgree(t.kind, d, CopyBase(t, i), d, CopyBase(t, 0), c, v, x);
  }

  // ----- the store to the end marker's own slot -----

  /**
   * Freeing a chain ends by zeroing the slot numbered by the end marker. This keeps every other entry
   * of every copy and every byte outside the tables, whatever the disk holds, if and only if each copy
   * is long enough to have that slot.
   */
  lemma MarkerStoreHarmlessIff(t: Tables, size: nat, marker: nat)
    requires MarkerFits(t, size, marker)
    ensures Inside(t, marker) <==> forall d: seq<byte> :: |d| == size ==> MarkerStoreHarmless(t, d, marker)
  {
    if Inside(t, marker) {
      forall d: seq<byte> | |d| == size
        ensures MarkerStoreHarmless(t, d, marker)
      {
        SetCopiesFrame(t, d, t.numFat, marker, 0);
        forall i, c | 0 <= i < t.numFat && 0 <= c && Inside(t, c) && c != marker
          ensures CopyEntry(t, SetCopies(t, d, t.numFat, marker, 0), i, c) == CopyEntry(t, d, i, c)
        {
          SetCopiesEntry(t, d, t.numFat, marker, 0, i, c);
        }
      }
    } else {
      var d := AllOnes(size);
      MarkerStoreHarms(t, d, marker);
    }
  }

  function AllOnes(n: nat): (d: seq<byte>)
    ensures |d| == n && forall i :: 0 <= i < n ==> d[i] == 255
  {
    if n == 0 then [] else AllOnes(n - 1) + [255]
  }

  /** The stores to the marker's slots stay on a disk of `size` bytes. */
  predicate MarkerFits(t: Tables, size: nat, marker: nat) {
    0 < t.numFat && TablesEnd(t) <= size
    && CopyBase(t, t.numFat - 1) + EntryOff(t.kind, marker) + 2 <= size
  }

  ghost predicate MarkerStoreHarmless(t: Tables, d: seq<byte>, marker: nat)
    requires MarkerFits(t, |d|, marker)
  {
    var d' := SetCopies(t, d, t.numFat, marker, 0);
    && OutsideKept(t, d, d')
    && forall i, c :: 0 <= i < t.numFat && 0 <= c && Inside(t, c) && c != marker ==>
         CopyEntry(t, d', i, c) == CopyEntry(t, d, i, c)
  }

  /** The entry of a cluster in one of the copies. */
  function CopyEntry(t: Tables, d: seq<byte>, i: nat, c: nat): nat
    requires TablesEnd(t) <= |d| && i < t.numFat && Inside(t, c)
  {
    CopyInTables(t, i);
    Get(t.kind, d, CopyBase(t, i), c)
  }

  /** On a 1.44 MB floppy, with nine sectors for each of two copies, it destroys bytes behind the tables. */
  lemma FloppyMarkerHarms()
    ensures
      var t := Tables(Fat12, 512, 4608, 2);
      !Inside(t, 0xFFF) && exists d: seq<byte> :: |d| == 1474560 && !MarkerStoreHarmless(t, d, 0xFFF)
  {
    var t := Tables(Fat12, 512, 4608, 2);
    assert Times(0, 4608) == 0 && Times(1, 4608) == 4608 && Times(2, 4608) == 9216;
    MarkerStoreHarmlessIff(t, 1474560, 0xFFF);
  }

  lemma MarkerStoreHarms(t: Tables, d: seq<byte>, marker: nat)
    requires MarkerFits(t, |d|, marker) && !Inside(t, marker)
    requires forall i :: 0 <= i < |d| ==> d[i] == 255
    ensures !MarkerStoreHarmless(t, d, marker)
  {
    var p := CopyBase(t, t.numFat - 1) + EntryOff(t.kind, marker);
    var before := SetCopies(t, d, t.numFat - 1, marker, 0);
    PutBytes(t.kind, before, CopyBase(t, t.numFat - 1), marker, 0);
    PatchZero(t.kind, marker, Word(before, p));
    assert SetCopies(t, d, t.numFat, marker, 0)[p + 1] != 255 == d[p + 1];
    assert TablesEnd(t) == CopyBase(t, t.numFat - 1) + t.fatBytes <= p + 1;
  }

  lemma PatchZero(k: SmallFat, c: nat, w: nat)
    requires w < 0x10000
    ensures Patch(k, c, w, 0) / 256 != 255
  {
  }

  /** No byte outside the tables differs. */
  ghost predicate OutsideKept(t: Tables, d: seq<byte>, d': seq<byte>) {
    |d| == |d'| && forall i :: 0 <= i < |d| && (i < t.fatStart || TablesEnd(t) <= i) ==> d'[i] == d[i]
  }

  /** Only the tables differ, and copies that were equal still are. */
  ghost predicate TablesOnly(t: Tables, d: seq<byte>, d': seq<byte>) {
    |d| == |d'| && OutsideKept(t, d, d') && (Mirrored(t, d) ==> Mirrored(t, d'))
  }

  lemma TablesTrans(t: Tables, d: seq<byte>, d': seq<byte>, d'': seq<byte>)
    requires TablesOnly(t, d, d') && TablesOnly(t, d', d'')
    ensures TablesOnly(t, d, d'')
  {
  }
}
