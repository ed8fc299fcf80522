/**
 * Cluster chains over an abstract table indexed by cluster number: what creating a file, extending
 * a chain and freeing a chain keep over every run.
 */
module FatChain {
  import opened Bytes

  /** The least `i` in `[from, |table|)` whose entry is zero, or 0 if there is none. */
  function FindFree(table: seq<nat>, from: nat): (f: nat)
    ensures f == 0 || (from <= f < |table| && table[f] == 0)
    ensures f != 0 ==> forall i :: from <= i < f ==> table[i] != 0
    ensures f == 0 && from > 0 ==> forall i :: from <= i < |table| ==> table[i] != 0
    decreases |table| - from
  {
    if from >= |table| then 0 else if table[from] == 0 then from else FindFree(table, from + 1)
  }

  predicate Distinct(cs: seq<nat>) {
    forall i, j :: 0 <= i < j < |cs| ==> cs[i] != cs[j]
  }

  predicate Apart(a: seq<nat>, b: seq<nat>) {
    forall c :: c in a ==> c !in b
  }

  /** `cs` is the whole chain of clusters that starts at `cs[0]`: linked, acyclic, end-marked. */
  predicate IsChain(table: seq<nat>, eoc: nat, cs: seq<nat>) {
    && cs != [] && Distinct(cs)
    && (forall i :: 0 <= i < |cs| ==> 2 <= cs[i] < |table|)
    && (forall i :: 0 <= i < |cs| - 1 ==> table[cs[i]] == cs[i + 1])
    && table[cs[|cs| - 1]] >= eoc
  }

  /** The table with the chains that live in it, one for each file or directory. */
  datatype Fs = Fs(table: seq<nat>, chains: seq<seq<nat>>)

  ghost predicate InSome(chains: seq<seq<nat>>, c: nat) {
    exists i :: 0 <= i < |chains| && c in chains[i]
  }

  /** Chains are well-formed and pairwise disjoint, and the clusters in use are exactly their union. */
  ghost predicate Inv(fs: Fs, eoc: nat) {
    && |fs.table| <= eoc
    && (forall i :: 0 <= i < |fs.chains| ==> IsChain(fs.table, eoc, fs.chains[i]))
    && (forall i, j :: 0 <= i < j < |fs.chains| ==> Apart(fs.chains[i], fs.chains[j]))
    && (forall c :: 2 <= c < |fs.table| ==> (fs.table[c] != 0 <==> InSome(fs.chains, c)))
  }

  /** A chain is determined by its head. */
  lemma {:induction false} ChainUnique(table: seq<nat>, eoc: nat, a: seq<nat>, b: seq<nat>)
    requires |table| <= eoc && IsChain(table, eoc, a) && IsChain(table, eoc, b) && a[0] == b[0]
    ensures a == b
  {
    assert |a| > 1 ==> table[a[0]] == a[1] < eoc;
    assert |b| > 1 ==> table[b[0]] == b[1] < eoc;
    if |a| > 1 && |b| > 1 {
      TailIsChain(table, eoc, a);
      TailIsChain(table, eoc, b);
      ChainUnique(table, eoc, a[1..], b[1..]);
      assert a == [a[0]] + a[1..] && b == [b[0]] + b[1..];
    }
  }

  lemma ChainNext(table: seq<nat>, eoc: nat, cs: seq<nat>, k: nat)
    requires |table| <= eoc && IsChain(table, eoc, cs) && k < |cs|
    ensures if k + 1 < |cs| then table[cs[k]] == cs[k + 1] < |table| else table[cs[k]] >= eoc
  {
  }

  lemma TailIsChain(table: seq<nat>, eoc: nat, cs: seq<nat>)
    requires IsChain(table, eoc, cs) && |cs| > 1
    ensures IsChain(table, eoc, cs[1..])
  {
    var t := cs[1..];
    assert forall i :: 0 <= i < |t| ==> t[i] == cs[i + 1];
    assert t[|t| - 1] == cs[|cs| - 1];
  }

  /** A chain is unaffected by stores to clusters outside it. */
  lemma ChainFrame(table: seq<nat>, table': seq<nat>, eoc: nat, cs: seq<nat>)
    requires IsChain(table, eoc, cs) && |table'| == |table|
    requires forall c :: c in cs && c < |table| ==> table'[c] == table[c]
    ensures IsChain(table', eoc, cs)
  {
    assert forall i :: 0 <= i < |cs| ==> cs[i] in cs;
  }

  lemma PairApart(fs: Fs, eoc: nat, j: nat, k: nat)
    requires Inv(fs, eoc) && j < |fs.chains| && k < |fs.chains| && j != k
    ensures Apart(fs.chains[j], fs.chains[k])
  {
    if k < j {
      assert Apart(fs.chains[k], fs.chains[j]);
    }
  }

  // ----- the three operations on the table -----

  function Linked(table: seq<nat>, last: nat, f: nat, mark: nat): (r: seq<nat>)
    requires last < |table| && f < |table|
    ensures |r| == |table|
  {
    table[last := f][f := mark]
  }

  function Zeroed(table: seq<nat>, cs: seq<nat>): (r: seq<nat>)
    requires forall i :: 0 <= i < |cs| ==> cs[i] < |table|
    ensures |r| == |table|
    decreases |cs|
  {
    if cs == [] then table else Zeroed(table[cs[0] := 0], cs[1..])
  }

  lemma {:induction false} ZeroedAt(table: seq<nat>, cs: seq<nat>)
    requires forall i :: 0 <= i < |cs| ==> cs[i] < |table|
    ensures forall c :: 0 <= c < |table| ==> Zeroed(table, cs)[c] == if c in cs then 0 else table[c]
    decreases |cs|
  {
    if cs != [] {
      ZeroedAt(table[cs[0] := 0], cs[1..]);
      assert cs == [cs[0]] + cs[1..];
    }
  }

  datatype Op = Create | Extend(file: nat) | Remove(file: nat)

  /** A free cluster exists when one is needed, and the file named exists. */
  predicate Enabled(fs: Fs, op: Op) {
    match op
    case Create => FindFree(fs.table, 2) != 0
    case Extend(i) => i < |fs.chains| && fs.chains[i] != [] && FindFree(fs.table, 2) != 0
      && fs.chains[i][|fs.chains[i]| - 1] < |fs.table|
    case Remove(i) => i < |fs.chains| && forall k :: 0 <= k < |fs.chains[i]| ==> fs.chains[i][k] < |fs.table|
  }

  function Step(fs: Fs, op: Op, mark: nat): Fs
    requires Enabled(fs, op)
  {
    var f := FindFree(fs.table, 2);
    match op
    case Create => Fs(fs.table[f := mark], fs.chains + [[f]])
    case Extend(i) =>
      var cs := fs.chains[i];
      Fs(Linked(fs.table, cs[|cs| - 1], f, mark), fs.chains[i := cs + [f]])
    case Remove(i) => Fs(Zeroed(fs.table, fs.chains[i]), Drop(fs.chains, i))
  }

  /** A free cluster belongs to no chain. */
  lemma FreeIsUnowned(fs: Fs, eoc: nat, f: nat)
    requires Inv(fs, eoc) && 2 <= f < |fs.table| && fs.table[f] == 0
    ensures forall i :: 0 <= i < |fs.chains| ==> f !in fs.chains[i]
  {
    assert !InSome(fs.chains, f);
  }

  lemma CreateKeeps(fs: Fs, eoc: nat, mark: nat)
    requires Inv(fs, eoc) && Enabled(fs, Create) && 0 < eoc <= mark
    ensures Inv(Step(fs, Create, mark), eoc)
  {
    hide IsChain;
    var f, fs' := FindFree(fs.table, 2), Step(fs, Create, mark);
    FreeIsUnowned(fs, eoc, f);
    SingletonIsChain(fs'.table, eoc, f);
    forall i | 0 <= i < |fs'.chains|
      ensures IsChain(fs'.table, eoc, fs'.chains[i])
    {
      if i < |fs.chains| {
        ChainFrame(fs.table, fs'.table, eoc, fs.chains[i]);
      }
    }
    forall c | 2 <= c < |fs'.table|
      ensures fs'.table[c] != 0 <==> InSome(fs'.chains, c)
    {
      InSomeAppend(fs.chains, [f], c);
    }
  }

  lemma InSomeAppend(chains: seq<seq<nat>>, cs: seq<nat>, c: nat)
    ensures InSome(chains + [cs], c) <==> InSome(chains, c) || c in cs
  {
    var all := chains + [cs];
    if InSome(chains, c) {
      var i :| 0 <= i < |chains| && c in chains[i];
      assert c in all[i];
    }
    if c in cs {
      assert c in all[|chains|];
    }
  }

  lemma SingletonIsChain(table: seq<nat>, eoc: nat, f: nat)
    requires 2 <= f < |table| && eoc <= table[f]
    ensures IsChain(table, eoc, [f])
  {
  }

  lemma ExtendedIsChain(table: seq<nat>, eoc: nat, cs: seq<nat>, f: nat, mark: nat)
    requires IsChain(table, eoc, cs) && 2 <= f < |table| && f !in cs && eoc <= mark
    ensures IsChain(Linked(table, cs[|cs| - 1], f, mark), eoc, cs + [f])
  {
    var cs', t' := cs + [f], Linked(table, cs[|cs| - 1], f, mark);
    forall i | 0 <= i < |cs'| - 1
      ensures t'[cs'[i]] == cs'[i + 1]
    {
      assert cs[i] in cs;
      if i < |cs| - 1 {
        assert cs[i] != cs[|cs| - 1];
      }
    }
  }

  lemma ExtendKeeps(fs: Fs, eoc: nat, mark: nat, i: nat)
    requires Inv(fs, eoc) && Enabled(fs, Extend(i)) && 0 < eoc <= mark
    ensures Inv(Step(fs, Extend(i), mark), eoc)
  {
    hide IsChain;
    var f, fs', cs := FindFree(fs.table, 2), Step(fs, Extend(i), mark), fs.chains[i];
    var last := cs[|cs| - 1];
    FreeIsUnowned(fs, eoc, f);
    assert last in cs;
    forall k | 0 <= k < |fs'.chains|
      ensures IsChain(fs'.table, eoc, fs'.chains[k])
      ensures k != i ==> fs'.chains[k] == fs.chains[k] && Apart(fs.chains[k], cs) && Apart(cs, fs.chains[k])
    {
      if k == i {
        ExtendedIsChain(fs.table, eoc, cs, f, mark);
      } else {
        PairApart(fs, eoc, k, i);
        PairApart(fs, eoc, i, k);
        ChainFrame(fs.table, fs'.table, eoc, fs.chains[k]);
      }
    }
    forall c | 2 <= c < |fs'.table|
      ensures fs'.table[c] != 0 <==> InSome(fs'.chains, c)
    {
      InSomeUpdate(fs.chains, i, f, c);
      if c == last { assert InSome(fs.chains, c); }
    }
  }

  /**
   * Extending a chain keeps its last cluster in use if and only if there was a free cluster. On a full
   * volume the link stored is the failure value 0, and the next search hands that cluster out again.
   */
  lemma ExtendKeepsLastIff(fs: Fs, eoc: nat, mark: nat, i: nat)
    requires Inv(fs, eoc) && i < |fs.chains| && 0 < mark
    ensures fs.chains[i] != [] && 2 <= LastOf(fs.chains[i]) < |fs.table|
    ensures
      var last, f := LastOf(fs.chains[i]), FindFree(fs.table, 2);
      var table := Linked(fs.table, last, f, mark);
      (table[last] != 0 <==> f != 0) && (f == 0 ==> FindFree(table, 2) == last)
  {
    InvLast(fs, eoc, i);
    hide Inv, FindFree;
    if FindFree(fs.table, 2) == 0 {
      LinkedOnFull(fs.table, LastOf(fs.chains[i]), mark);
    }
  }

  lemma LinkedOnFull(table: seq<nat>, last: nat, mark: nat)
    requires 2 <= last < |table| && FindFree(table, 2) == 0
    ensures FindFree(Linked(table, last, 0, mark), 2) == last
  {
    hide FindFree;
    assert Linked(table, last, 0, mark)[last] == 0;
  }

  function LastOf(cs: seq<nat>): nat
    requires cs != []
  {
    cs[|cs| - 1]
  }

  lemma InvLast(fs: Fs, eoc: nat, i: nat)
    requires Inv(fs, eoc) && i < |fs.chains|
    ensures fs.chains[i] != [] && 2 <= LastOf(fs.chains[i]) < |fs.table| && fs.table[LastOf(fs.chains[i])] != 0
  {
    InvChain(fs, eoc, i);
  }

  lemma InSomeUpdate(chains: seq<seq<nat>>, i: nat, f: nat, c: nat)
    requires i < |chains|
    ensures InSome(chains[i := chains[i] + [f]], c) <==> InSome(chains, c) || c == f
  {
    var all := chains[i := chains[i] + [f]];
    if InSome(chains, c) {
      var k :| 0 <= k < |chains| && c in chains[k];
      assert c in all[k];
    }
    if c == f {
      assert c in all[i];
    }
    if InSome(all, c) {
      var k :| 0 <= k < |all| && c in all[k];
      assert c in chains[k] || c == f;
    }
  }

  /** What the invariant says of one chain. */
  lemma InvChain(fs: Fs, eoc: nat, i: nat)
    requires Inv(fs, eoc) && i < |fs.chains|
    ensures IsChain(fs.table, eoc, fs.chains[i]) && Enabled(fs, Remove(i))
    ensures fs.table[fs.chains[i][|fs.chains[i]| - 1]] >= eoc
  {
  }

  lemma RemoveKeeps(fs: Fs, eoc: nat, mark: nat, i: nat)
    requires Inv(fs, eoc) && Enabled(fs, Remove(i))
    ensures Inv(Step(fs, Remove(i), mark), eoc)
  {
    hide IsChain;
    var fs', cs := Step(fs, Remove(i), mark), fs.chains[i];
    ZeroedAt(fs.table, cs);
    forall k | 0 <= k < |fs'.chains|
      ensures IsChain(fs'.table, eoc, fs'.chains[k])
    {
      var k0 := if k < i then k else k + 1;
      PairApart(fs, eoc, k0, i);
      ChainFrame(fs.table, fs'.table, eoc, fs.chains[k0]);
    }
    forall j, k | 0 <= j < k < |fs'.chains|
      ensures Apart(fs'.chains[j], fs'.chains[k])
    {
      PairApart(fs, eoc, if j < i then j else j + 1, if k < i then k else k + 1);
    }
    forall c | 2 <= c < |fs'.table|
      ensures fs'.table[c] != 0 <==> InSome(fs'.chains, c)
    {
      InSomeRemove(fs, eoc, i, c);
    }
  }

  lemma InSomeRemove(fs: Fs, eoc: nat, i: nat, c: nat)
    requires Inv(fs, eoc) && i < |fs.chains|
    ensures InSome(Drop(fs.chains, i), c) <==> InSome(fs.chains, c) && c !in fs.chains[i]
  {
    hide Inv;
    var rest := Drop(fs.chains, i);
    if InSome(fs.chains, c) && c !in fs.chains[i] {
      var k :| 0 <= k < |fs.chains| && c in fs.chains[k];
      var k' := if k < i then k else k - 1;
      assert rest[k'] == fs.chains[k];
    }
    if InSome(rest, c) {
      var k :| 0 <= k < |rest| && c in rest[k];
      var k0 := if k < i then k else k + 1;
      assert rest[k] == fs.chains[k0];
      PairApart(fs, eoc, k0, i);
    }
  }

  lemma StepKeeps(fs: Fs, eoc: nat, op: Op, mark: nat)
    requires Inv(fs, eoc) && Enabled(fs, op) && 0 < eoc <= mark
    ensures Inv(Step(fs, op, mark), eoc)
  {
    match op
    case Create => CreateKeeps(fs, eoc, mark);
    case Extend(i) => ExtendKeeps(fs, eoc, mark, i);
    case Remove(i) => RemoveKeeps(fs, eoc, mark, i);
  }

  /** Every operation of the run finds what it needs when its turn comes. */
  predicate Runnable(fs: Fs, ops: seq<Op>, mark: nat)
    decreases |ops|
  {
    ops == [] || (Enabled(fs, ops[0]) && Runnable(Step(fs, ops[0], mark), ops[1..], mark))
  }

  function Run(fs: Fs, ops: seq<Op>, mark: nat): Fs
    requires Runnable(fs, ops, mark)
    decreases |ops|
  {
    if ops == [] then fs else Run(Step(fs, ops[0], mark), ops[1..], mark)
  }

  /** Over every run of the three operations the chains stay well-formed, disjoint and exhaustive. */
  lemma {:induction false} RunKeeps(fs: Fs, eoc: nat, ops: seq<Op>, mark: nat)
    requires Inv(fs, eoc) && Runnable(fs, ops, mark) && 0 < eoc <= mark
    ensures Inv(Run(fs, ops, mark), eoc)
    decreases |ops|
  {
    if ops != [] {
      StepKeeps(fs, eoc, ops[0], mark);
      RunKeeps(Step(fs, ops[0], mark), eoc, ops[1..], mark);
    }
  }

  /** Creating a file and removing it again gives back the very same table. */
  lemma CreateRemove(fs: Fs, eoc: nat, mark: nat)
    requires Inv(fs, eoc) && Enabled(fs, Create) && 0 < eoc <= mark
    ensures
      var fs' := Step(fs, Create, mark);
      Enabled(fs', Remove(|fs.chains|)) && Step(fs', Remove(|fs.chains|), mark) == fs
  {
    var f, fs' := FindFree(fs.table, 2), Step(fs, Create, mark);
    assert fs'.chains[|fs.chains|] == [f];
    ZeroedAt(fs'.table, [f]);
    assert Zeroed(fs'.table, [f]) == fs.table;
    assert Drop(fs'.chains, |fs.chains|) == fs.chains;
  }
}
