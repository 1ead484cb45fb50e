/** Integer algebra behind the two inner-product compressions: the lengths they halve,
    the linear combination a round folds two halves into, and how integer dot products
    split at an index and expand over such combinations. Everything here is unreduced; the compressions read it
    modulo n. */
module Folding {
  import opened Field
  import opened Vectors

  predicate PowerOfTwo(m: nat)
    decreases m
  {
    m == 1 || (m >= 2 && m % 2 == 0 && PowerOfTwo(m / 2))
  }

  /** The lengths the prover handles: every halving is exact down to one entry. An odd
      length above one leaves the halves of different lengths, which both compressions
      reject (a nil cross term, or an index past the end). */
  predicate Halvable(m: nat)
  {
    m == 0 || PowerOfTwo(m)
  }

  /** The number of halvings from m down to 1. */
  function Log2(m: nat): (k: nat)
    requires PowerOfTwo(m)
    ensures Pow2(k) == m
    decreases m
  {
    if m == 1 then 0 else 1 + Log2(m / 2)
  }

  /** The integer vector c p + q. */
  function Lin(p: seq<int>, c: int, q: seq<int>): (r: seq<int>)
    requires |p| == |q|
    ensures |r| == |p| && forall i :: 0 <= i < |p| ==> r[i] == c * p[i] + q[i]
  {
    seq(|p|, i requires 0 <= i < |p| => c * p[i] + q[i])
  }

  /** An entry of a fold is the entry x p + q reduced. */
  lemma {:induction false} FoldEntry(p: Scalar, q: Scalar, x: Scalar)
    ensures AddInP(MulInP(p, x), q) == (x * p + q) % N
  {
    var m := MulInP(p, x);
    MulInPOfReduced(p, x, x);
    assert p * x == x * p;
    assert AddInP(m, q) == (m + q) % N;
    ModAddLeft(x * p, q);
  }

  /** A sum splits at any index into the sums of the two parts. */
  lemma {:induction false} SumSplit(u: seq<int>, h: nat)
    requires h <= |u|
    ensures Sum(u) == Sum(u[..h]) + Sum(u[h..])
    decreases |u|
  {
    if |u| == h {
      assert u[..h] == u && u[h..] == [];
    } else {
      var k := |u| - 1;
      SumSplit(u[..k], h);
      assert u[..k][..h] == u[..h];
      assert u[..k][h..] == u[h..][..k - h];
    }
  }

  /** Peeling the last term off a dot product of two vectors of one length. */
  lemma {:induction false} DotLast(a: seq<int>, b: seq<int>)
    requires 0 < |a| == |b|
    ensures Dot(a, b) == Dot(a[..|a| - 1], b[..|b| - 1]) + a[|a| - 1] * b[|b| - 1]
  {
    assert Products(a, b)[..|a| - 1] == Products(a[..|a| - 1], b[..|b| - 1]);
  }

  /** A dot product splits at any index into the dot products of the halves. */
  lemma {:induction false} DotSplit(a: seq<int>, b: seq<int>, h: nat)
    requires |a| == |b| && h <= |a|
    ensures Dot(a, b) == Dot(a[..h], b[..h]) + Dot(a[h..], b[h..])
  {
    SumSplit(Products(a, b), h);
    assert Products(a, b)[..h] == Products(a[..h], b[..h]);
    assert Products(a, b)[h..] == Products(a[h..], b[h..]);
  }

  /** The one-entry expansion of (x p + q)(y r + s). */
  lemma {:induction false} EntryExpand(p: int, q: int, r: int, s: int, x: int, y: int)
    ensures (x * p + q) * (y * r + s) == (x * y) * (p * r) + x * (p * s) + y * (q * r) + q * s
  {
    assert (x * p + q) * (y * r + s) == (x * p) * (y * r) + (x * p) * s + q * (y * r) + q * s;
    assert (x * p) * (y * r) == (x * y) * (p * r);
    assert (x * p) * s == x * (p * s);
    assert q * (y * r) == y * (q * r);
  }

  /** A pointwise identity u = x v1 + y v2 + z v3 + v4 lifts to the sums. */
  lemma {:induction false} SumFour(u: seq<int>, v1: seq<int>, v2: seq<int>, v3: seq<int>, v4: seq<int>, x: int, y: int, z: int)
    requires |u| == |v1| == |v2| == |v3| == |v4|
    requires forall i :: 0 <= i < |u| ==> u[i] == x * v1[i] + y * v2[i] + z * v3[i] + v4[i]
    ensures Sum(u) == x * Sum(v1) + y * Sum(v2) + z * Sum(v3) + Sum(v4)
  {
    if |u| > 0 {
      var k := |u| - 1;
      SumFour(u[..k], v1[..k], v2[..k], v3[..k], v4[..k], x, y, z);
      assert x * (Sum(v1[..k]) + v1[k]) == x * Sum(v1[..k]) + x * v1[k];
      assert y * (Sum(v2[..k]) + v2[k]) == y * Sum(v2[..k]) + y * v2[k];
      assert z * (Sum(v3[..k]) + v3[k]) == z * Sum(v3[..k]) + z * v3[k];
    }
  }

  /** The dot product of two folded vectors expands into the four dot products of their
      halves: (x p + q)·(y r + s) = x y (p·r) + x (p·s) + y (q·r) + q·s, with the four
      dot products named dpr, dps, dqr and dqs. */
  lemma {:induction false} DotLin(p: seq<int>, q: seq<int>, r: seq<int>, s: seq<int>, x: int, y: int, dpr: int, dps: int, dqr: int, dqs: int)
    requires |p| == |q| == |r| == |s|
    requires dpr == Dot(p, r) && dps == Dot(p, s) && dqr == Dot(q, r) && dqs == Dot(q, s)
    ensures Dot(Lin(p, x, q), Lin(r, y, s)) == (x * y) * dpr + x * dps + y * dqr + dqs
  {
    var u := Products(Lin(p, x, q), Lin(r, y, s));
    forall i | 0 <= i < |p|
      ensures u[i] == (x * y) * Products(p, r)[i] + x * Products(p, s)[i] + y * Products(q, r)[i] + Products(q, s)[i]
    {
      EntryExpand(p[i], q[i], r[i], s[i], x, y);
    }
    SumFour(u, Products(p, r), Products(p, s), Products(q, r), Products(q, s), x * y, x, y);
  }

  /** Dot products of vectors congruent entry by entry modulo n are congruent. */
  lemma {:induction false} DotCongruent(u: seq<int>, w: seq<int>, u': seq<int>, w': seq<int>)
    requires |u| == |u'| && |u| <= |w| && |u'| <= |w'|
    requires forall i :: 0 <= i < |u| ==> u[i] % N == u'[i] % N && w[i] % N == w'[i] % N
    ensures Dot(u, w) % N == Dot(u', w') % N
  {
    forall i | 0 <= i < |u| ensures Products(u, w)[i] % N == Products(u', w')[i] % N {
      ModMul(u[i], w[i]);
      ModMul(u'[i], w'[i]);
    }
    SumCongruent(Products(u, w), Products(u', w'));
  }
}
