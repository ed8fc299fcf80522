/**
 * How the heap's layout lies in memory: a size word in front of every live block, and in every free
 * block a node of size, next and prev words that closes the free list to a ring in both directions.
 */
module HeapMemory {
  import opened Bytes
  import opened HeapLayout

  // ----- Bytes and little-endian words -----

  /** The byte at an address; nothing is stored outside the heap. */
  function Byte(m: seq<byte>, x: int): byte {
    if HEAP_START <= x < HEAP_START + |m| then m[x - HEAP_START] else 0
  }

  function Word(m: seq<byte>, a: int): (w: nat)
    ensures w < U32
  {
    Byte(m, a) + 0x100 * Byte(m, a + 1) + 0x1_0000 * Byte(m, a + 2) + 0x100_0000 * Byte(m, a + 3)
  }

  /** A word is four bytes, the lowest first. */
  lemma WordBytes(m: seq<byte>, a: int)
    requires InMem(m, a, WORD)
    ensures
      var i := a - 0xD000_0000;
      0 <= i && i + 4 <= |m| && Word(m, a) ==
        m[i] as int + 0x100 * m[i + 1] as int + 0x1_0000 * m[i + 2] as int + 0x100_0000 * m[i + 3] as int
  {
  }

  predicate InMem(m: seq<byte>, a: int, n: nat) {
    HEAP_START <= a && a + n <= HEAP_START + |m|
  }

  function SetByte(m: seq<byte>, a: int, v: byte): (r: seq<byte>)
    requires InMem(m, a, 1)
    ensures |r| == |m| && Byte(r, a) == v
    ensures forall x :: x != a ==> Byte(r, x) == Byte(m, x)
  {
    m[a - HEAP_START := v]
  }

  /** Storing a word and loading it again; nothing else changes. */
  function SetWord(m: seq<byte>, a: int, v: nat): (r: seq<byte>)
    requires InMem(m, a, WORD) && v < U32
    ensures |r| == |m| && Word(r, a) == v
    ensures forall x :: !(a <= x < a + WORD) ==> Byte(r, x) == Byte(m, x)
    ensures forall b {:trigger Word(r, b)} :: b + WORD <= a || a + WORD <= b ==> Word(r, b) == Word(m, b)
  {
    hide SetByte, Byte;
    Digits(v);
    SetByte(SetByte(SetByte(SetByte(m, a, v % 0x100), a + 1, v / 0x100 % 0x100),
                    a + 2, v / 0x1_0000 % 0x100), a + 3, v / 0x100_0000)
  }

  lemma Digits(v: nat)
    requires v < U32
    ensures 0 <= v / 0x100_0000 < 0x100
    ensures v % 0x100 + 0x100 * (v / 0x100 % 0x100) + 0x1_0000 * (v / 0x1_0000 % 0x100) + 0x100_0000 * (v / 0x100_0000)
         == v
  {
    assert v / 0x1_0000 == v / 0x100 / 0x100 && v / 0x100_0000 == v / 0x1_0000 / 0x100;
  }

  lemma WordSame(m: seq<byte>, m': seq<byte>, a: int)
    requires forall x :: a <= x < a + WORD ==> Byte(m', x) == Byte(m, x)
    ensures Word(m', a) == Word(m, a)
  {
    assert Byte(m', a + 1) == Byte(m, a + 1) && Byte(m', a + 3) == Byte(m, a + 3);
  }

  /** Bytes stored from an address on. */
  function Pasted(m: seq<byte>, to: int, src: seq<byte>): (r: seq<byte>)
    requires InMem(m, to, |src|)
    ensures |r| == |m|
    ensures forall x {:trigger Byte(r, x)} :: Byte(r, x) == if to <= x < to + |src| then src[x - to] else Byte(m, x)
  {
    m[..to - HEAP_START] + src + m[to - HEAP_START + |src|..]
  }

  /** `memmove` within the heap. */
  function Copied(m: seq<byte>, to: int, from: int, n: nat): (r: seq<byte>)
    requires InMem(m, to, n) && InMem(m, from, n)
    ensures |r| == |m|
    ensures forall x {:trigger Byte(r, x)} ::
      Byte(r, x) == if to <= x < to + n then Byte(m, from + (x - to)) else Byte(m, x)
  {
    Pasted(m, to, m[from - HEAP_START..from - HEAP_START + n])
  }

  /** The `n` bytes from `from` on as a load finds them; `behind` stands for what lies behind the heap. */
  function Loaded(m: seq<byte>, from: int, n: nat, behind: seq<byte>): (r: seq<byte>)
    requires HEAP_START <= from <= HEAP_START + |m| && from + n <= HEAP_START + |m| + |behind|
    ensures |r| == n
    ensures forall k :: 0 <= k < n && from + k < HEAP_START + |m| ==> r[k] == Byte(m, from + k)
  {
    (m + behind)[from - HEAP_START..from - HEAP_START + n]
  }

  lemma SetWordsCommute(m: seq<byte>, a: int, v: nat, b: int, w: nat)
    requires InMem(m, a, WORD) && InMem(m, b, WORD) && v < U32 && w < U32
    requires a + WORD <= b || b + WORD <= a
    ensures SetWord(SetWord(m, a, v), b, w) == SetWord(SetWord(m, b, w), a, v)
  {
  }

  // ----- The layout in memory -----

  function After<T>(s: seq<T>, i: nat): (r: nat)
    requires i < |s|
    ensures r < |s|
  {
    if i + 1 < |s| then i + 1 else 0
  }

  function Before<T>(s: seq<T>, i: nat): (r: nat)
    requires i < |s|
    ensures r < |s| && After(s, r) == i
  {
    if i > 0 then i - 1 else |s| - 1
  }

  predicate NodeIs(m: seq<byte>, free: seq<Blk>, i: nat)
    requires i < |free|
  {
    && Word(m, free[i].start) == free[i].size
    && Word(m, free[i].start + 4) == free[After(free, i)].start
    && Word(m, free[i].start + 8) == free[Before(free, i)].start
  }

  /** The node of a free block holds its size, the next block's address and the one before it, in this order. */
  lemma NodeHolds(m: seq<byte>, free: seq<Blk>, i: nat)
    requires i < |free| && NodeIs(m, free, i)
    ensures
      var next := if i + 1 < |free| then i + 1 else 0;
      var prev := if i > 0 then i - 1 else |free| - 1;
      && Word(m, free[i].start) == free[i].size
      && Word(m, free[i].start + 4) == free[next].start && Word(m, free[i].start + 8) == free[prev].start
  {
  }

  ghost predicate Encodes(m: seq<byte>, l: Layout) {
    && |m| == HEAP_SIZE
    && (forall i :: 0 <= i < |l.free| ==> NodeIs(m, l.free, i))
    && (forall k :: 0 <= k < |l.live| ==> Word(m, l.live[k].start) == l.live[k].size)
  }

  /** The bytes behind the size words of some blocks are the same in both memories. */
  ghost predicate Kept(m: seq<byte>, m': seq<byte>, bs: seq<Blk>) {
    |m| == |m'| &&
    forall k, x :: 0 <= k < |bs| && bs[k].start + WORD <= x < bs[k].End() ==> Byte(m', x) == Byte(m, x)
  }

  lemma KeptSet(m: seq<byte>, a: int, v: nat, bs: seq<Blk>)
    requires InMem(m, a, WORD) && v < U32
    requires forall k :: 0 <= k < |bs| ==> a <= bs[k].start || bs[k].End() <= a
    ensures Kept(m, SetWord(m, a, v), bs)
  {
    hide Byte, SetWord, Word;
  }

  /** Room for a whole node in each free block, all nodes apart from each other and from live blocks. */
  lemma NodeRoom(l: Layout, i: nat)
    requires Placed(l) && i < |l.free|
    ensures InHeap(l.free[i])
    ensures forall j :: 0 <= j < |l.free| && j != i ==> Apart(l.free[j], l.free[i]) && InHeap(l.free[j])
    ensures forall k :: 0 <= k < |l.live| ==> Apart(l.free[i], l.live[k]) && InHeap(l.live[k])
  {
    forall j | 0 <= j < |l.free| && j != i
      ensures Apart(l.free[j], l.free[i])
    {
      FreeApart(l, j, i);
    }
  }

  /** A word stored in the node of free block `i` leaves all other nodes, size words and payloads alone. */
  lemma NodeWrite(m: seq<byte>, l: Layout, i: nat, off: nat, v: nat)
    requires Placed(l) && |m| == HEAP_SIZE && i < |l.free| && off in {0, 4, 8} && v < U32
    ensures InMem(m, l.free[i].start + off, WORD)
    ensures
      var m' := SetWord(m, l.free[i].start + off, v);
      && (forall j :: 0 <= j < |l.free| ==>
            && ((j == i && off == 0) || Word(m', l.free[j].start) == Word(m, l.free[j].start))
            && ((j == i && off == 4) || Word(m', l.free[j].start + 4) == Word(m, l.free[j].start + 4))
            && ((j == i && off == 8) || Word(m', l.free[j].start + 8) == Word(m, l.free[j].start + 8)))
      && (forall k :: 0 <= k < |l.live| ==> Word(m', l.live[k].start) == Word(m, l.live[k].start))
      && Kept(m, m', l.live)
  {
    hide Word, SetWord, Placed, Kept;
    NodeRoom(l, i);
    KeptSet(m, l.free[i].start + off, v, l.live);
  }

  /** The size word of a free block rewritten. */
  lemma SizeSet(m: seq<byte>, l: Layout, i: nat, c: Blk)
    requires Placed(l) && Encodes(m, l) && i < |l.free| && c.start == l.free[i].start && c.size < U32
    ensures InMem(m, c.start, WORD)
    ensures
      var m' := SetWord(m, c.start, c.size);
      Encodes(m', l.(free := l.free[i := c])) && Kept(m, m', l.live)
  {
    hide Word, SetWord, Placed, Kept;
    NodeWrite(m, l, i, 0, c.size);
    var free' := l.free[i := c];
    var m' := SetWord(m, c.start, c.size);
    forall j | 0 <= j < |free'|
      ensures NodeIs(m', free', j)
    {
      assert NodeIs(m, l.free, j);
    }
  }

  /** Dropping an element of a ring links its neighbours to each other and leaves all other links. */
  lemma RingDrop<T>(s: seq<T>, i: nat, j: nat)
    requires 0 < i < |s| && j < |s| - 1
    ensures
      var r, j0 := Drop(s, i), if j < i then j else j + 1;
      && j0 != i && r[j] == s[j0]
      && r[After(r, j)] == (if j0 == Before(s, i) then s[After(s, i)] else s[After(s, j0)])
      && r[Before(r, j)] == (if j0 == After(s, i) then s[Before(s, i)] else s[Before(s, j0)])
  {
  }

  /** Free block `x` made to link forward to `y`, and `y` back to `x`. */
  function Linked(m: seq<byte>, x: Blk, y: Blk): (r: seq<byte>)
    requires InMem(m, x.start, NODE) && InMem(m, y.start, NODE) && x.start < U32 && y.start < U32
    ensures |r| == |m|
  {
    SetWord(SetWord(m, x.start + 4, y.start), y.start + 8, x.start)
  }

  lemma LinkedWords(m: seq<byte>, l: Layout, x: nat, y: nat)
    requires Placed(l) && |m| == HEAP_SIZE && x < |l.free| && y < |l.free|
    ensures InHeap(l.free[x]) && InHeap(l.free[y])
    ensures
      var m' := Linked(m, l.free[x], l.free[y]);
      && |m'| == |m|
      && (forall j :: 0 <= j < |l.free| ==>
            && Word(m', l.free[j].start) == Word(m, l.free[j].start)
            && Word(m', l.free[j].start + 4) == (if j == x then l.free[y].start else Word(m, l.free[j].start + 4))
            && Word(m', l.free[j].start + 8) == (if j == y then l.free[x].start else Word(m, l.free[j].start + 8)))
      && (forall k :: 0 <= k < |l.live| ==> Word(m', l.live[k].start) == Word(m, l.live[k].start))
      && Kept(m, m', l.live)
  {
    hide Word, Byte, SetWord, Placed, Kept;
    NodeRoom(l, x);
    NodeRoom(l, y);
    var m1 := SetWord(m, l.free[x].start + 4, l.free[y].start);
    NodeWrite(m, l, x, 4, l.free[y].start);
    NodeWrite(m1, l, y, 8, l.free[x].start);
    KeptTwice(m, m1, Linked(m, l.free[x], l.free[y]), l.live);
  }

  /** The links around free block `i` led past it. */
  lemma Unlinked(m: seq<byte>, l: Layout, i: nat, x: Blk, y: Blk)
    requires Placed(l) && Encodes(m, l) && 0 < i < |l.free|
    requires x == l.free[Before(l.free, i)] && y == l.free[After(l.free, i)]
    ensures InHeap(x) && InHeap(y) && |m| == HEAP_SIZE
    ensures Encodes(Linked(m, x, y), Without(l, i)) && Kept(m, Linked(m, x, y), l.live)
  {
    hide Word, Linked, Placed, Kept, After, Before, Drop;
    LinkedWords(m, l, Before(l.free, i), After(l.free, i));
    var m' := Linked(m, x, y);
    var free' := Drop(l.free, i);
    forall j | 0 <= j < |free'|
      ensures NodeIs(m', free', j)
    {
      RingDrop(l.free, i, j);
      assert NodeIs(m, l.free, if j < i then j else j + 1);
    }
  }

  /** The layout without free block `i`, whose bytes are given to nobody yet. */
  function Without(l: Layout, i: nat): Layout
    requires i < |l.free|
  {
    Layout(Drop(l.free, i), l.live, l.slack)
  }

  lemma KeptTwice(m: seq<byte>, m1: seq<byte>, m2: seq<byte>, bs: seq<Blk>)
    requires Kept(m, m1, bs) && Kept(m1, m2, bs)
    ensures Kept(m, m2, bs)
  {
  }

  lemma KeptSame(m: seq<byte>, bs: seq<Blk>)
    ensures Kept(m, m, bs)
  {
  }

  lemma WholeHeap(m: seq<byte>, l: Layout)
    requires Encodes(m, l)
    ensures |m| == HEAP_SIZE
  {
  }

  lemma KeptDrop(m: seq<byte>, m': seq<byte>, bs: seq<Blk>, k: nat)
    requires Kept(m, m', bs) && k < |bs|
    ensures Kept(m, m', Drop(bs, k))
  {
    hide Byte;
    forall j, x | 0 <= j < |bs| - 1 && Drop(bs, k)[j].start + WORD <= x < Drop(bs, k)[j].End()
      ensures Byte(m', x) == Byte(m, x)
    {
      assert Drop(bs, k)[j] == bs[if j < k then j else j + 1];
    }
  }

  /** Putting an element into a ring links it between its neighbours and leaves all other links. */
  lemma RingPut<T>(s: seq<T>, i: nat, b: T, j: nat)
    requires 0 < i <= |s| && j <= |s|
    ensures
      var r := Put(s, i, b);
      && r[i] == b && r[Before(r, i)] == s[i - 1] && r[After(r, i)] == s[if i < |s| then i else 0]
      && (j != i ==>
            var j0 := if j < i then j else j - 1;
            && r[j] == s[j0]
            && r[After(r, j)] == (if j == Before(r, i) then b else s[After(s, j0)])
            && r[Before(r, j)] == (if j == After(r, i) then b else s[Before(s, j0)]))
  {
  }

  /** The free list with block `b` linked in between its neighbours `x` and `y`. */
  function LinkedIn(m: seq<byte>, x: Blk, b: Blk, y: Blk): seq<byte>
    requires InMem(m, x.start, NODE) && InMem(m, b.start, NODE) && InMem(m, y.start, NODE)
    requires x.start < U32 && b.start < U32 && y.start < U32
  {
    Linked(Linked(m, x, b), b, y)
  }

  /** The nodes of two blocks do not overlap. */
  predicate Distant(a: Blk, b: Blk) {
    a.start + NODE <= b.start || b.start + NODE <= a.start
  }

  /** The four stores in the order the code makes them. */
  lemma InsertOrder(m: seq<byte>, x: Blk, b: Blk, y: Blk)
    requires InMem(m, x.start, NODE) && InMem(m, b.start, NODE) && InMem(m, y.start, NODE)
    requires x.start < U32 && b.start < U32 && y.start < U32
    requires Distant(x, b) && Distant(y, b) && (x == y || Distant(x, y))
    ensures
      SetWord(SetWord(SetWord(SetWord(m, y.start + 8, b.start), x.start + 4, b.start), b.start + 4, y.start),
              b.start + 8, x.start) == LinkedIn(m, x, b, y)
  {
    hide SetWord, Word, Byte;
    SetWordsCommute(m, y.start + 8, b.start, x.start + 4, b.start);
    var m1 := SetWord(m, x.start + 4, b.start);
    SetWordsCommute(m1, y.start + 8, b.start, b.start + 4, y.start);
    SetWordsCommute(SetWord(m1, b.start + 4, y.start), y.start + 8, b.start, b.start + 8, x.start);
    SetWordsCommute(m1, b.start + 4, y.start, b.start + 8, x.start);
  }

  /** Live block `k` handed back to the list at place `i`; its size word stays as it is. */
  lemma LinkedInEncodes(m: seq<byte>, l: Layout, k: nat, i: nat)
    requires Encodes(m, l) && k < |l.live| && 0 < i <= |l.free|
    requires Placed(Layout(Put(l.free, i, l.live[k]), Drop(l.live, k), l.slack))
    ensures
      var l' := Layout(Put(l.free, i, l.live[k]), Drop(l.live, k), l.slack);
      var x, b, y := l'.free[i - 1], l'.free[i], l'.free[After(l'.free, i)];
      && InHeap(x) && InHeap(b) && InHeap(y)
      && Encodes(LinkedIn(m, x, b, y), l') && Kept(m, LinkedIn(m, x, b, y), l'.live)
  {
    hide Word, Linked, Placed, Kept, After, Before, Drop, Put;
    var l' := Layout(Put(l.free, i, l.live[k]), Drop(l.live, k), l.slack);
    RingPut(l.free, i, l.live[k], i);
    var y := After(l'.free, i);
    LinkedWords(m, l', i - 1, i);
    var m1 := Linked(m, l'.free[i - 1], l'.free[i]);
    LinkedWords(m1, l', i, y);
    var m' := Linked(m1, l'.free[i], l'.free[y]);
    BeforePut(l.free, i, l.live[k]);
    forall j | 0 <= j < |l'.free|
      ensures NodeIs(m', l'.free, j)
    {
      RingPut(l.free, i, l.live[k], j);
      if j != i {
        assert NodeIs(m, l.free, if j < i then j else j - 1);
      }
    }
    KeptTwice(m, m1, m', l'.live);
    forall j | 0 <= j < |l'.live|
      ensures Word(m', l'.live[j].start) == l'.live[j].size
    {
      DropAt(l.live, k, j);
    }
  }

  lemma DropAt<T>(s: seq<T>, i: nat, j: nat)
    requires i < |s| && j < |s| - 1
    ensures Drop(s, i)[j] == s[if j < i then j else j + 1]
  {
  }

  lemma BeforePut<T>(s: seq<T>, i: nat, b: T)
    requires 0 < i <= |s|
    ensures Before(Put(s, i, b), i) == i - 1 && After(Put(s, i, b), i) != i
  {
  }

  // ----- Size words of live blocks -----

  /** A word stored in front of a block that lies apart from everything else. */
  lemma HeaderWrite(m: seq<byte>, l: Layout, d: Blk, v: nat)
    requires Placed(l) && |m| == HEAP_SIZE && InHeap(d) && v < U32
    requires forall i :: 0 <= i < |l.free| ==> Apart(l.free[i], d)
    requires forall k :: 0 <= k < |l.live| ==> Apart(l.live[k], d) || l.live[k] == d
    ensures
      var m' := SetWord(m, d.start, v);
      && (forall i :: 0 <= i < |l.free| && NodeIs(m, l.free, i) ==> NodeIs(m', l.free, i))
      && (forall k :: 0 <= k < |l.live| && l.live[k] != d ==> Word(m', l.live[k].start) == Word(m, l.live[k].start))
      && Kept(m, m', l.live)
  {
    hide Word, SetWord, Kept;
    forall i | 0 <= i < |l.free|
      ensures InHeap(l.free[i])
    {
    }
    hide Placed;
    KeptSet(m, d.start, v, l.live);
  }

  lemma LiveAdded(m: seq<byte>, l: Layout, d: Blk)
    requires Placed(l) && Encodes(m, l) && InHeap(d)
    requires forall i :: 0 <= i < |l.free| ==> Apart(l.free[i], d)
    requires forall k :: 0 <= k < |l.live| ==> Apart(l.live[k], d)
    ensures
      var m' := SetWord(m, d.start, d.size);
      Encodes(m', l.(live := l.live + [d])) && Kept(m, m', l.live)
  {
    hide Word, SetWord, Kept, Placed, NodeIs;
    HeaderWrite(m, l, d, d.size);
    NotLive(l, d);
  }

  lemma NotLive(l: Layout, d: Blk)
    requires Placed(l) && InHeap(d)
    requires forall k :: 0 <= k < |l.live| ==> Apart(l.live[k], d)
    ensures forall k :: 0 <= k < |l.live| ==> l.live[k] != d
  {
  }

  lemma LiveResized(m: seq<byte>, l: Layout, k: nat, c: Blk)
    requires Placed(l) && Encodes(m, l) && k < |l.live| && c.start == l.live[k].start && c.size < U32
    ensures InHeap(l.live[k])
    ensures
      var m' := SetWord(m, c.start, c.size);
      Encodes(m', l.(live := l.live[k := c])) && Kept(m, m', l.live)
  {
    var d := l.live[k];
    forall j | 0 <= j < |l.live| && j != k
      ensures Apart(l.live[j], d) && l.live[j] != d
    {
      assert InHeap(l.live[j]);
      if j < k { assert Apart(l.live[j], l.live[k]); } else { assert Apart(l.live[k], l.live[j]); }
    }
    assert forall i :: 0 <= i < |l.free| ==> Apart(l.free[i], d);
    hide Word, SetWord, Kept, Placed, NodeIs;
    HeaderWrite(m, l, d, c.size);
  }

  // ----- What kmalloc stores -----

  lemma CarvedEncodes(m: seq<byte>, l: Layout, i: nat, need: nat)
    requires Placed(l) && Encodes(m, l) && i < |l.free| && NODE <= need && need + NODE <= l.free[i].size
    ensures InHeap(l.free[i])
    ensures
      var b := l.free[i];
      var m' := SetWord(SetWord(m, b.start, b.size - need), b.start + (b.size - need), need);
      Encodes(m', Carved(l, i, need)) && Kept(m, m', l.live)
  {
    hide Word, Byte, SetWord, Kept, NodeIs, Placed;
    var b := l.free[i];
    var c, d := Blk(b.start, b.size - need), Blk(b.start + (b.size - need), need);
    CarvedApart(l, i, need);
    SizeSet(m, l, i, c);
    var m1 := SetWord(m, b.start, c.size);
    LiveAdded(m1, l.(free := l.free[i := c]), d);
    KeptTwice(m, m1, SetWord(m1, d.start, need), l.live);
  }

  lemma CarvedApart(l: Layout, i: nat, need: nat)
    requires Placed(l) && i < |l.free| && NODE <= need && need + NODE <= l.free[i].size
    ensures
      var b := l.free[i];
      var c, d := Blk(b.start, b.size - need), Blk(b.start + (b.size - need), need);
      var free' := l.free[i := c];
      && InHeap(b) && Placed(l.(free := free'))
      && (forall j :: 0 <= j < |free'| ==> Apart(free'[j], d))
      && (forall k :: 0 <= k < |l.live| ==> Apart(l.live[k], d))
  {
    var b := l.free[i];
    ShrinkFree(l, i, Blk(b.start, b.size - need));
    InsideApart(l, i, Blk(b.start + (b.size - need), need));
  }

  lemma TakenWholeEncodes(m: seq<byte>, l: Layout, i: nat, need: nat, x: Blk, y: Blk)
    requires Placed(l) && Encodes(m, l) && 0 < i < |l.free| && NODE <= need <= l.free[i].size
    requires x == l.free[Before(l.free, i)] && y == l.free[After(l.free, i)]
    ensures InHeap(l.free[i]) && InHeap(x) && InHeap(y) && |m| == HEAP_SIZE
    ensures Encodes(SetWord(Linked(m, x, y), l.free[i].start, need), TakenWhole(l, i, need))
    ensures Kept(m, SetWord(Linked(m, x, y), l.free[i].start, need), l.live)
  {
    hide Word, Byte, SetWord, Linked, Kept, NodeIs, Placed, Before, After, Drop;
    var d := Blk(l.free[i].start, need);
    TakenApart(l, i, d);
    Unlinked(m, l, i, x, y);
    var m1 := Linked(m, x, y);
    LiveAdded(m1, Without(l, i), d);
    KeptTwice(m, m1, SetWord(m1, d.start, need), l.live);
  }

  lemma TakenApart(l: Layout, i: nat, d: Blk)
    requires Placed(l) && 0 < i < |l.free| && d.start == l.free[i].start && NODE <= d.size <= l.free[i].size
    ensures
      var free' := Drop(l.free, i);
      && InHeap(l.free[i]) && Placed(Without(l, i))
      && (forall j :: 0 <= j < |free'| ==> Apart(free'[j], d))
      && (forall k :: 0 <= k < |l.live| ==> Apart(l.live[k], d))
  {
    DropFree(l, i);
    InsideApart(l, i, d);
    hide Placed;
    var free' := Drop(l.free, i);
    forall j | 0 <= j < |free'|
      ensures Apart(free'[j], d)
    {
      DropAt(l.free, i, j);
    }
  }

  // ----- What krealloc stores -----

  /** The node of free block `j` moved up by `more` bytes, and its neighbours' links with it. */
  function NodeMoved(m: seq<byte>, f: Blk, more: nat, x: Blk, y: Blk): (r: seq<byte>)
    requires InMem(m, f.start, f.size) && NODE + more <= f.size && f.End() < U32
    requires InMem(m, x.start, NODE) && InMem(m, y.start, NODE)
    ensures |r| == |m|
  {
    Relinked(Copied(m, f.start + more, f.start, NODE), Blk(f.start + more, f.size - more), x, y)
  }

  /** A node given its size, and its neighbours made to link to it. */
  function Relinked(m: seq<byte>, f: Blk, x: Blk, y: Blk): (r: seq<byte>)
    requires InMem(m, f.start, NODE) && InMem(m, x.start, NODE) && InMem(m, y.start, NODE) && f.End() < U32
    ensures |r| == |m|
  {
    SetWord(SetWord(SetWord(m, f.start, f.size), x.start + 4, f.start), y.start + 8, f.start)
  }

  lemma NodeCopied(m: seq<byte>, l: Layout, j: nat, more: nat)
    requires Placed(l) && |m| == HEAP_SIZE && j < |l.free| && NODE + more <= l.free[j].size
    ensures InHeap(l.free[j])
    ensures
      var f := l.free[j];
      var m' := Copied(m, f.start + more, f.start, NODE);
      && (forall x :: f.start + more <= x < f.start + more + NODE ==> Byte(m', x) == Byte(m, x - more))
      && (forall i :: 0 <= i < |l.free| && i != j ==>
            && Word(m', l.free[i].start) == Word(m, l.free[i].start)
            && Word(m', l.free[i].start + 4) == Word(m, l.free[i].start + 4)
            && Word(m', l.free[i].start + 8) == Word(m, l.free[i].start + 8))
      && (forall k :: 0 <= k < |l.live| ==> Word(m', l.live[k].start) == Word(m, l.live[k].start))
      && Kept(m, m', l.live)
  {
    hide Word, Byte, Placed;
    var f := l.free[j];
    NodeRoom(l, j);
    var m' := Copied(m, f.start + more, f.start, NODE);
    forall i | 0 <= i < |l.free| && i != j
      ensures
        && Word(m', l.free[i].start) == Word(m, l.free[i].start)
        && Word(m', l.free[i].start + 4) == Word(m, l.free[i].start + 4)
        && Word(m', l.free[i].start + 8) == Word(m, l.free[i].start + 8)
    {
      assert Apart(l.free[i], f);
      WordSame(m, m', l.free[i].start);
      WordSame(m, m', l.free[i].start + 4);
      WordSame(m, m', l.free[i].start + 8);
    }
    forall k | 0 <= k < |l.live|
      ensures Word(m', l.live[k].start) == Word(m, l.live[k].start)
    {
      assert Apart(f, l.live[k]);
      WordSame(m, m', l.live[k].start);
    }
  }

  lemma WordShift(m: seq<byte>, m': seq<byte>, a: int, more: nat)
    requires forall x :: a + more <= x < a + more + WORD ==> Byte(m', x) == Byte(m, x - more)
    ensures Word(m', a + more) == Word(m, a)
  {
    hide Byte;
    assert Byte(m', a + more + 1) == Byte(m, a + 1) && Byte(m', a + more + 2) == Byte(m, a + 2);
    assert Byte(m', a + more + 3) == Byte(m, a + 3) && Byte(m', a + more) == Byte(m, a);
  }

  /** The three stores that make a copied node good, in terms of the words they find. */
  lemma RelinkedWords(m: seq<byte>, l: Layout, j: nat, x: nat, y: nat)
    requires Placed(l) && |m| == HEAP_SIZE && j < |l.free| && x < |l.free| && y < |l.free|
    ensures InHeap(l.free[x]) && InHeap(l.free[y]) && InHeap(l.free[j])
    ensures
      var a := l.free[j].start;
      var m' := Relinked(m, l.free[j], l.free[x], l.free[y]);
      && |m'| == |m|
      && (forall i :: 0 <= i < |l.free| ==>
            && Word(m', l.free[i].start) == (if i == j then l.free[j].size else Word(m, l.free[i].start))
            && Word(m', l.free[i].start + 4) == (if i == x then a else Word(m, l.free[i].start + 4))
            && Word(m', l.free[i].start + 8) == (if i == y then a else Word(m, l.free[i].start + 8)))
      && (forall k :: 0 <= k < |l.live| ==> Word(m', l.live[k].start) == Word(m, l.live[k].start))
      && Kept(m, m', l.live)
  {
    hide Word, Byte, SetWord, Placed, Kept;
    NodeRoom(l, x);
    NodeRoom(l, y);
    NodeRoom(l, j);
    var a := l.free[j].start;
    var m1 := SetWord(m, a, l.free[j].size);
    var m2 := SetWord(m1, l.free[x].start + 4, a);
    NodeWrite(m, l, j, 0, l.free[j].size);
    NodeWrite(m1, l, x, 4, a);
    NodeWrite(m2, l, y, 8, a);
    KeptTwice(m, m1, m2, l.live);
    KeptTwice(m, m2, SetWord(m2, l.free[y].start + 8, a), l.live);
  }

  lemma NodeMovedEncodes(m: seq<byte>, l: Layout, j: nat, f: Blk, more: nat, x: Blk, y: Blk)
    requires Placed(l) && Encodes(m, l) && 0 < j < |l.free| && f == l.free[j] && NODE + more <= f.size
    requires x == l.free[Before(l.free, j)] && y == l.free[After(l.free, j)]
    ensures InHeap(f) && InHeap(x) && InHeap(y) && |m| == HEAP_SIZE
    ensures Placed(WithMoved(l, j, more)) && Encodes(NodeMoved(m, f, more, x, y), WithMoved(l, j, more))
    ensures Kept(m, NodeMoved(m, f, more, x, y), l.live)
  {
    hide Word, Byte, SetWord, Relinked, Copied, Placed, Kept, Before, After;
    NodeCopied(m, l, j, more);
    ShrinkFree(l, j, Blk(f.start + more, f.size - more));
    var l' := WithMoved(l, j, more);
    var m1 := Copied(m, f.start + more, f.start, NODE);
    RelinkedWords(m1, l', j, Before(l.free, j), After(l.free, j));
    WordShift(m, m1, f.start + 4, more);
    WordShift(m, m1, f.start + 8, more);
    var m' := NodeMoved(m, f, more, x, y);
    RingPatch(l.free, j, l'.free[j], j);
    forall i | 0 <= i < |l'.free|
      ensures NodeIs(m', l'.free, i)
    {
      RingPatch(l.free, j, l'.free[j], i);
      assert NodeIs(m, l.free, i);
    }
    KeptTwice(m, m1, m', l.live);
  }

  /** What the links of a ring lead to once element `j` is replaced. */
  lemma RingPatch<T>(s: seq<T>, j: nat, c: T, i: nat)
    requires 0 < j < |s| && i < |s|
    ensures
      var r := s[j := c];
      && r[After(r, i)] == (if i == Before(s, j) then c else s[After(s, i)])
      && r[Before(r, i)] == (if i == After(s, j) then c else s[Before(s, i)])
      && Before(s, j) != j && After(s, j) != j
  {
  }

  /** The layout with free block `j` starting `more` bytes later. */
  function WithMoved(l: Layout, j: nat, more: nat): Layout
    requires j < |l.free| && more <= l.free[j].size
  {
    Layout(l.free[j := Blk(l.free[j].start + more, l.free[j].size - more)], l.live, l.slack)
  }

  /** The links that the moved node brings along, where the code reads them. */
  ghost predicate MovedLinks(m: seq<byte>, f: Blk, more: nat, x: Blk, y: Blk)
    requires InMem(m, f.start, f.size) && NODE + more <= f.size && f.End() < U32 && InMem(m, x.start, NODE)
  {
    var m1 := SetWord(Copied(m, f.start + more, f.start, NODE), f.start + more, f.size - more);
    && Word(m1, f.start + more + 8) == x.start
    && Word(SetWord(m1, x.start + 4, f.start + more), f.start + more + 4) == y.start
  }

  lemma MovedReads(m: seq<byte>, l: Layout, j: nat, f: Blk, more: nat, x: Blk, y: Blk)
    requires Placed(l) && Encodes(m, l) && 0 < j < |l.free| && f == l.free[j] && NODE + more <= f.size
    requires x == l.free[Before(l.free, j)] && y == l.free[After(l.free, j)]
    ensures InHeap(f) && InHeap(x) && |m| == HEAP_SIZE && MovedLinks(m, f, more, x, y)
  {
    hide Word, Byte, SetWord, Copied, Kept;
    assert NodeIs(m, l.free, j);
    FreeApart(l, Before(l.free, j), j);
    var m1 := Copied(m, f.start + more, f.start, NODE);
    WordShift(m, m1, f.start + 4, more);
    WordShift(m, m1, f.start + 8, more);
  }

  lemma SplitEncodes(m: seq<byte>, l: Layout, j: nat, k: nat, f: Blk, more: nat, x: Blk, y: Blk, c: Blk)
    requires Placed(l) && Encodes(m, l) && 0 < j < |l.free| && f == l.free[j] && NODE + more <= f.size
    requires x == l.free[Before(l.free, j)] && y == l.free[After(l.free, j)]
    requires k < |l.live| && c.start == l.live[k].start && c.size < U32
    ensures InHeap(f) && InHeap(x) && InHeap(y) && InHeap(l.live[k]) && |m| == HEAP_SIZE
    ensures MovedLinks(m, f, more, x, y)
    ensures Encodes(SetWord(NodeMoved(m, f, more, x, y), c.start, c.size),
                    WithMoved(l, j, more).(live := l.live[k := c]))
    ensures Kept(m, SetWord(NodeMoved(m, f, more, x, y), c.start, c.size), l.live)
  {
    hide Encodes, Word, Byte, SetWord, Placed, Kept, NodeIs, NodeMoved, MovedLinks, Before, After;
    MovedReads(m, l, j, f, more, x, y);
    NodeMovedEncodes(m, l, j, f, more, x, y);
    var m1 := NodeMoved(m, f, more, x, y);
    LiveResized(m1, WithMoved(l, j, more), k, c);
    KeptTwice(m, m1, SetWord(m1, c.start, c.size), l.live);
  }

  lemma AbsorbEncodes(m: seq<byte>, l: Layout, j: nat, k: nat, x: Blk, y: Blk, c: Blk)
    requires Placed(l) && Encodes(m, l) && 0 < j < |l.free| && k < |l.live|
    requires x == l.free[Before(l.free, j)] && y == l.free[After(l.free, j)]
    requires c.start == l.live[k].start && c.size < U32
    ensures InHeap(x) && InHeap(y) && InHeap(l.live[k]) && |m| == HEAP_SIZE
    ensures Encodes(SetWord(Linked(m, x, y), c.start, c.size), Layout(Drop(l.free, j), l.live[k := c], l.slack))
    ensures Kept(m, SetWord(Linked(m, x, y), c.start, c.size), l.live)
  {
    DropFree(l, j);
    hide Word, Byte, SetWord, Placed, Kept, NodeIs, Linked, Before, After, Drop, Encodes;
    Unlinked(m, l, j, x, y);
    var m1 := Linked(m, x, y);
    LiveResized(m1, Without(l, j), k, c);
    KeptTwice(m, m1, SetWord(m1, c.start, c.size), l.live);
  }

  lemma JoinFits(l: Layout, i: nat)
    requires Placed(l) && i + 1 < |l.free|
    ensures l.free[i].size + l.free[i + 1].size < U32
  {
    assert InHeap(l.free[i]) && InHeap(l.free[i + 1]);
  }

  /** Free block `i + 1` led past, and the size word of the block before it rewritten. */
  lemma JoinEncodes(m: seq<byte>, l: Layout, i: nat, x: Blk, y: Blk, c: Blk)
    requires Placed(l) && Encodes(m, l) && i + 1 < |l.free|
    requires x == l.free[i] && y == l.free[After(l.free, i + 1)] && c.start == x.start && c.size < U32
    ensures InHeap(x) && InHeap(y) && |m| == HEAP_SIZE
    ensures Kept(m, SetWord(Linked(m, x, y), c.start, c.size), l.live)
    ensures Encodes(SetWord(Linked(m, x, y), c.start, c.size), Layout(Drop(l.free, i + 1)[i := c], l.live, l.slack))
  {
    DropFree(l, i + 1);
    assert Before(l.free, i + 1) == i && Drop(l.free, i + 1)[i] == l.free[i];
    hide Encodes, Word, Byte, SetWord, Placed, Kept, NodeIs, Linked, After, Before, Drop;
    Unlinked(m, l, i + 1, x, y);
    var m1 := Linked(m, x, y);
    SizeSet(m1, Without(l, i + 1), i, c);
    KeptTwice(m, m1, SetWord(m1, c.start, c.size), l.live);
  }

  /** Bytes copied into the payload of live block `t`. */
  lemma CopyEncodes(m: seq<byte>, l: Layout, t: nat, src: seq<byte>)
    requires Placed(l) && Encodes(m, l) && t < |l.live| && WORD + |src| <= l.live[t].size
    ensures InHeap(l.live[t]) && |m| == HEAP_SIZE
    ensures
      var m' := Pasted(m, l.live[t].start + WORD, src);
      Encodes(m', l) && Kept(m, m', Drop(l.live, t))
  {
    hide Word, Byte;
    var d := l.live[t];
    var m' := Pasted(m, d.start + WORD, src);
    forall i | 0 <= i < |l.free|
      ensures NodeIs(m', l.free, i)
    {
      assert Apart(l.free[i], d) && InHeap(l.free[i]) && NodeIs(m, l.free, i);
      WordSame(m, m', l.free[i].start);
      WordSame(m, m', l.free[i].start + 4);
      WordSame(m, m', l.free[i].start + 8);
    }
    forall k | 0 <= k < |l.live|
      ensures Word(m', l.live[k].start) == l.live[k].size
    {
      LiveApart(l, k, t);
      WordSame(m, m', l.live[k].start);
    }
    forall k, x | 0 <= k < |l.live| - 1 && Drop(l.live, t)[k].start + WORD <= x < Drop(l.live, t)[k].End()
      ensures Byte(m', x) == Byte(m, x)
    {
      DropAt(l.live, t, k);
      LiveApart(l, if k < t then k else k + 1, t);
    }
  }

  lemma LiveApart(l: Layout, k: nat, t: nat)
    requires Placed(l) && k < |l.live| && t < |l.live|
    ensures InHeap(l.live[k]) && (k == t || Apart(l.live[k], l.live[t]))
  {
    if t < k { assert Apart(l.live[t], l.live[k]); }
  }
}
