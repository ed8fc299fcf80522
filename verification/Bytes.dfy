/** Bytes, slice updates and the few division facts that the storage and paging modules share. */
module Bytes {

  type byte = x: int | 0 <= x < 256

  /** The sequence `s` with `t` stored over positions `[at, at + |t|)`, one element after the other. */
  function Splice<T>(s: seq<T>, at: nat, t: seq<T>): (r: seq<T>)
    requires at + |t| <= |s|
    ensures |r| == |s|
    decreases |t|
  {
    if t == [] then s else Splice(s[at := t[0]], at + 1, t[1..])
  }

  lemma {:induction false} SpliceIndex<T>(s: seq<T>, at: nat, t: seq<T>)
    requires at + |t| <= |s|
    ensures forall i :: 0 <= i < |s| ==>
      Splice(s, at, t)[i] == if at <= i < at + |t| then t[i - at] else s[i]
    decreases |t|
  {
    if t != [] {
      SpliceIndex(s[at := t[0]], at + 1, t[1..]);
    }
  }

  lemma SpliceNothing<T>(s: seq<T>, at: nat)
    requires at <= |s|
    ensures Splice(s, at, []) == s
  {
  }

  lemma SpliceSlices<T>(s: seq<T>, at: nat, t: seq<T>)
    requires at + |t| <= |s|
    ensures Splice(s, at, t) == s[..at] + t + s[at + |t|..]
  {
    SpliceIndex(s, at, t);
  }

  lemma SpliceTwice<T>(s: seq<T>, at: nat, t: seq<T>, u: seq<T>)
    requires at + |t| + |u| <= |s|
    ensures Splice(Splice(s, at, t), at + |t|, u) == Splice(s, at, t + u)
  {
    hide Splice;
    SpliceIndex(s, at, t);
    SpliceIndex(Splice(s, at, t), at + |t|, u);
    SpliceIndex(s, at, t + u);
  }

  /** Storing back what a place already holds, around `t`, is storing `t`. */
  lemma SplicePadded<T>(s: seq<T>, at: nat, a: nat, t: seq<T>, n: nat)
    requires a + |t| <= n && at + n <= |s|
    ensures Splice(s, at, s[at..at + a] + t + s[at + a + |t|..at + n]) == Splice(s, at + a, t)
  {
    hide Splice;
    var u := s[at..at + a] + t + s[at + a + |t|..at + n];
    SpliceIndex(s, at, u);
    SpliceIndex(s, at + a, t);
  }

  /** The sequence without its element `i`. */
  function Drop<T>(s: seq<T>, i: nat): (r: seq<T>)
    requires i < |s|
    ensures |r| == |s| - 1
    ensures forall k {:trigger r[k]} :: 0 <= k < |r| ==> r[k] == if k < i then s[k] else s[k + 1]
  {
    s[..i] + s[i + 1..]
  }

  lemma JoinRuns<T>(s: seq<T>, a: nat, b: nat, c: nat)
    requires a <= b <= c <= |s|
    ensures s[a..b] + s[b..c] == s[a..c]
  {
  }

  /** `memcpy`, taken by its meaning. */
  method Memcpy<T>(dst: array<T>, at: nat, src: seq<T>)
    requires at + |src| <= dst.Length
    modifies dst
    ensures dst[..] == Splice(old(dst[..]), at, src)
  {
    forall i | 0 <= i < |src| {
      dst[at + i] := src[i];
    }
    SpliceIndex(old(dst[..]), at, src);
  }

  lemma DivModUnique(x: int, d: int, q: int, r: int)
    requires 0 < d && 0 <= r < d && x == q * d + r
    ensures x / d == q && x % d == r
  {
    var q', r' := x / d, x % d;
    assert x == q' * d + r';
    assert (q + 1) * d == q * d + d && (q' + 1) * d == q' * d + d;
    if q < q' {
      MulMono(q + 1, q', d);
    } else if q' < q {
      MulMono(q' + 1, q, d);
    }
  }

  lemma MulMono(a: int, b: int, d: int)
    requires 0 <= d && a <= b
    ensures a * d <= b * d
  {
  }

  lemma ModStep(x: int, d: int)
    requires 0 < d
    ensures (x + d) % d == x % d && (x + d) / d == x / d + 1
  {
    assert (x / d + 1) * d == x / d * d + d;
    DivModUnique(x + d, d, x / d + 1, x % d);
  }
}
