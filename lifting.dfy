/** Reading vectors of scalars as integer vectors: each lemma says that the loaded entries
    of a vector operation's result are congruent modulo n to the entries of an unreduced
    integer vector, so that inner products become integer dot products (Vectors.Dot). */
module Lifting {
  import opened Field
  import opened Vectors
  import opened Commitments

  /** A vector and its loaded entries agree modulo n. */
  lemma LoadsLifted(s: seq<int>, ls: seq<int>)
    requires ls == Loads(s)
    ensures |s| == |ls| && forall i :: 0 <= i < |s| ==> Load(s[i]) == ls[i] % N
  {
  }

  /** The entries of s ∘ y as the integers Load(s[i]) y[i]. */
  lemma HadamardLifted(s: seq<int>, yN: seq<Scalar>, ls: seq<int>, a: seq<int>, h: seq<Scalar>)
    requires |s| <= |yN| && ls == Loads(s) && a == Products(ls, yN) && h == Hadamard(s, yN)
    ensures |h| == |a| && forall i :: 0 <= i < |h| ==> Load(h[i]) == a[i] % N
  {
    forall i | 0 <= i < |h|
      ensures Load(h[i]) == a[i] % N
    {
      var l, y := ls[i], yN[i];
      assert h[i] == (l * y) % N;
    }
  }

  /** The entries of u ∘ y for a vector u congruent to the integer vector c. */
  lemma HadamardOfLifted(u: seq<Scalar>, yN: seq<Scalar>, c: seq<int>, a: seq<int>, h: seq<Scalar>)
    requires |u| == |c| <= |yN| && forall i :: 0 <= i < |u| ==> Load(u[i]) == c[i] % N
    requires a == Products(c, yN) && h == Hadamard(u, yN)
    ensures |h| == |a| && forall i :: 0 <= i < |h| ==> Load(h[i]) == a[i] % N
  {
    forall i | 0 <= i < |h|
      ensures Load(h[i]) == a[i] % N
    {
      var l, y := c[i], yN[i];
      assert h[i] == ((l % N) * y) % N;
      ModMulLeft(l, y);
    }
  }

  /** The entries of b + z 1 (or z 1 + b when `swapped`) as the integers Load(b[i]) + z. */
  lemma ShiftLifted(b: seq<int>, z1N: seq<int>, z: Scalar, lb: seq<int>, a: seq<int>, v: seq<Scalar>, swapped: bool)
    requires z1N == Constant(|b|, z) && lb == Loads(b) && a == Shifted(lb, z)
    requires v == if swapped then VecAdd(z1N, b) else VecAdd(b, z1N)
    ensures |v| == |a| && forall i :: 0 <= i < |v| ==> Load(v[i]) == a[i] % N
  {
    forall i | 0 <= i < |v|
      ensures Load(v[i]) == a[i] % N
    {
      var l := lb[i];
      assert v[i] == (l + z) % N;
    }
  }

  /** The entries of b - z 1 as the integers Load(b[i]) - z. */
  lemma SubLifted(b: seq<int>, z1N: seq<int>, z: Scalar, lb: seq<int>, a: seq<int>, v: seq<Scalar>)
    requires z1N == Constant(|b|, z) && lb == Loads(b) && a == Shifted(lb, -(z as int))
    requires v == VecSub(b, z1N)
    ensures |v| == |a| && forall i :: 0 <= i < |v| ==> Load(v[i]) == a[i] % N
  {
    forall i | 0 <= i < |v|
      ensures Load(v[i]) == a[i] % N
    {
      SubEntry(b[i], z, lb[i], v[i]);
    }
  }

  /** One entry of b - z 1. */
  lemma SubEntry(b: int, z: Scalar, lb: int, e: Scalar)
    requires lb == Load(b) && e == AddInP(b, NegZp(z))
    ensures e == (lb - z) % N
  {
    AddInPOfReduced(lb, NegZp(z), lb, -(z as int));
  }

  /** The entries of c v as the integers c v[i]. */
  lemma ScaleLifted(v: seq<Scalar>, c: Scalar, w: seq<int>, h: seq<Scalar>)
    requires w == Scaled(v, c) && h == Scale(v, c)
    ensures |h| == |w| && forall i :: 0 <= i < |h| ==> Load(h[i]) == w[i] % N
  {
    forall i | 0 <= i < |h|
      ensures Load(h[i]) == w[i] % N
    {
      var e := v[i];
      assert h[i] == (e * c) % N;
      assert e * c == c * e;
    }
  }

  /** The entries of u + v for vectors congruent to the integer vectors c and d. */
  lemma VecAddLifted(u: seq<Scalar>, v: seq<Scalar>, c: seq<int>, d: seq<int>, p: seq<int>, h: seq<Scalar>)
    requires |u| == |v| == |c| == |d|
    requires forall i :: 0 <= i < |u| ==> Load(u[i]) == c[i] % N && Load(v[i]) == d[i] % N
    requires p == Plus(c, d) && h == VecAdd(u, v)
    ensures |h| == |p| && forall i :: 0 <= i < |h| ==> Load(h[i]) == p[i] % N
  {
    forall i | 0 <= i < |h|
      ensures Load(h[i]) == p[i] % N
    {
      AddInPOfReduced(u[i], v[i], c[i], d[i]);
    }
  }
}
