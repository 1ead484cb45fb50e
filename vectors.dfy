/** Vector arithmetic over the scalars (utils/Big_Vector_Operate.go): every operation
    walks the indices of its first argument, so a longer second argument is ignored and
    a shorter one is a caller error. Each operation is a specification function plus the
    loop that builds the result by appending, proved equal to it. */
module Vectors {
  import opened Field

  // ---------------------------------------------------------------------------------
  // specification functions
  // ---------------------------------------------------------------------------------

  function InnerProduct(a: seq<int>, b: seq<int>): Scalar
    requires |a| <= |b|
    decreases |a|
  {
    if |a| == 0 then 0
    else AddInP(InnerProduct(a[..|a| - 1], b), MulInP(a[|a| - 1], b[|a| - 1]))
  }

  function Hadamard(a: seq<int>, b: seq<int>): seq<Scalar>
    requires |a| <= |b|
  {
    seq(|a|, i requires 0 <= i < |a| => MulInP(a[i], b[i]))
  }

  function Scale(v: seq<int>, c: int): seq<Scalar>
  {
    seq(|v|, i requires 0 <= i < |v| => MulInP(v[i], c))
  }

  function VecAdd(a: seq<int>, b: seq<int>): seq<Scalar>
    requires |a| <= |b|
  {
    seq(|a|, i requires 0 <= i < |a| => AddInP(a[i], b[i]))
  }

  function VecSub(a: seq<int>, b: seq<int>): seq<Scalar>
    requires |a| <= |b|
  {
    seq(|a|, i requires 0 <= i < |a| => AddInP(a[i], NegZp(b[i])))
  }

  function VecNeg(a: seq<int>): seq<Scalar>
  {
    seq(|a|, i requires 0 <= i < |a| => NegZp(a[i]))
  }

  function VecInv(a: seq<int>): seq<Scalar>
  {
    seq(|a|, i requires 0 <= i < |a| => InverseZp(a[i]))
  }

  /** The constant vector: c repeated n times. */
  function Constant(n: nat, c: int): seq<int>
  {
    seq(n, i requires 0 <= i < n => c)
  }

  // ---------------------------------------------------------------------------------
  // the loops of utils/Big_Vector_Operate.go
  // ---------------------------------------------------------------------------------

  /** Cal_IP_Vec: accumulates the products of corresponding entries. */
  method CalIPVec(a: seq<int>, b: seq<int>) returns (result: Scalar)
    requires |a| <= |b|
    ensures result == InnerProduct(a, b)
    ensures |a| == 0 ==> result == 0
  {
    result := 0;
    for key := 0 to |a|
      invariant result == InnerProduct(a[..key], b)
    {
      assert a[..key + 1][..key] == a[..key];
      result := AddInP(result, MulInP(a[key], b[key]));
    }
    assert a[..|a|] == a;
  }

  /** Cal_HP_Vec */
  method CalHPVec(a: seq<int>, b: seq<int>) returns (result: seq<Scalar>)
    requires |a| <= |b|
    ensures |result| == |a|
    ensures forall i :: 0 <= i < |a| ==> result[i] == MulInP(a[i], b[i])
    ensures result == Hadamard(a, b)
  {
    result := [];
    for i := 0 to |a|
      invariant result == Hadamard(a[..i], b)
    {
      result := result + [MulInP(a[i], b[i])];
    }
    assert a[..|a|] == a;
  }

  /** Cal_Sca_Vec */
  method CalScaVec(v: seq<int>, c: int) returns (result: seq<Scalar>)
    ensures |result| == |v|
    ensures forall i :: 0 <= i < |v| ==> result[i] == MulInP(v[i], c)
    ensures result == Scale(v, c)
  {
    result := [];
    for i := 0 to |v|
      invariant result == Scale(v[..i], c)
    {
      result := result + [MulInP(v[i], c)];
    }
    assert v[..|v|] == v;
  }

  /** Cal_Add_Vec */
  method CalAddVec(a: seq<int>, b: seq<int>) returns (result: seq<Scalar>)
    requires |a| <= |b|
    ensures |result| == |a|
    ensures forall i :: 0 <= i < |a| ==> result[i] == AddInP(a[i], b[i])
    ensures result == VecAdd(a, b)
  {
    result := [];
    for i := 0 to |a|
      invariant result == VecAdd(a[..i], b)
    {
      result := result + [AddInP(a[i], b[i])];
    }
    assert a[..|a|] == a;
  }

  /** Cal_Sub_Vec: adds the negation of each entry of b. */
  method CalSubVec(a: seq<int>, b: seq<int>) returns (result: seq<Scalar>)
    requires |a| <= |b|
    ensures |result| == |a|
    ensures forall i :: 0 <= i < |a| ==> result[i] == SubInP(a[i], b[i])
    ensures result == VecSub(a, b)
  {
    result := [];
    for i := 0 to |a|
      invariant result == VecSub(a[..i], b)
    {
      result := result + [AddInP(a[i], NegZp(b[i]))];
    }
    assert a[..|a|] == a;
  }

  /** Cal_Neg_Vec */
  method CalNegVec(a: seq<int>) returns (result: seq<Scalar>)
    ensures |result| == |a|
    ensures forall i :: 0 <= i < |a| ==> result[i] == NegZp(a[i])
    ensures result == VecNeg(a)
  {
    result := [];
    for i := 0 to |a|
      invariant result == VecNeg(a[..i])
    {
      result := result + [NegZp(a[i])];
    }
    assert a[..|a|] == a;
  }

  /** Cal_Inv_Vec */
  method CalInvVec(a: seq<int>) returns (result: seq<Scalar>)
    ensures |result| == |a|
    ensures forall i :: 0 <= i < |a| ==> result[i] == InverseZp(a[i])
    ensures result == VecInv(a)
  {
    result := [];
    for i := 0 to |a|
      invariant result == VecInv(a[..i])
    {
      result := result + [InverseZp(a[i])];
    }
    assert a[..|a|] == a;
  }

  // ---------------------------------------------------------------------------------
  // algebraic properties
  // ---------------------------------------------------------------------------------

  /** Subtracting a vector from itself gives the zero vector. */
  lemma SubSelfIsZero(a: seq<int>)
    ensures VecSub(a, a) == Constant(|a|, 0)
  {
    forall i | 0 <= i < |a| ensures VecSub(a, a)[i] == 0 {
      ModAdd(Load(a[i]), NegZp(a[i]));
    }
  }

  /** Adding the negation of a vector gives the zero vector. */
  lemma AddNegIsZero(a: seq<int>)
    ensures VecAdd(a, VecNeg(a)) == Constant(|a|, 0)
  {
    forall i | 0 <= i < |a| ensures VecAdd(a, VecNeg(a))[i] == 0 {
      ModAdd(Load(a[i]), NegZp(a[i]));
    }
  }

  /** The Hadamard product with the inverse vector is the all-ones vector when every
      entry has an inverse. */
  lemma HadamardInverseIsOne(a: seq<int>)
    requires forall i :: 0 <= i < |a| ==> Invertible(Load(a[i]))
    ensures Hadamard(a, VecInv(a)) == Constant(|a|, 1)
  {
    forall i | 0 <= i < |a| ensures Hadamard(a, VecInv(a))[i] == 1 {
      InverseZpCorrect(a[i]);
    }
  }

  // ---------------------------------------------------------------------------------
  // integer sums: the inner product is a sum of products read modulo n
  // ---------------------------------------------------------------------------------

  function Sum(s: seq<int>): int
    decreases |s|
  {
    if |s| == 0 then 0 else Sum(s[..|s| - 1]) + s[|s| - 1]
  }

  function Products(a: seq<int>, b: seq<int>): seq<int>
    requires |a| <= |b|
  {
    seq(|a|, i requires 0 <= i < |a| => a[i] * b[i])
  }

  /** The entrywise sum of two integer vectors. */
  function Plus(u: seq<int>, v: seq<int>): (r: seq<int>)
    requires |u| == |v|
    ensures |r| == |u| && forall i :: 0 <= i < |u| ==> r[i] == u[i] + v[i]
  {
    seq(|u|, i requires 0 <= i < |u| => u[i] + v[i])
  }

  /** The vector l + z 1. */
  function Shifted(l: seq<int>, z: int): (r: seq<int>)
    ensures |r| == |l| && forall i :: 0 <= i < |l| ==> r[i] == l[i] + z
  {
    seq(|l|, i requires 0 <= i < |l| => l[i] + z)
  }

  /** The integer vector c·u, unreduced. */
  function Scaled(u: seq<int>, c: int): (w: seq<int>)
    ensures |w| == |u|
  {
    seq(|u|, i requires 0 <= i < |u| => c * u[i])
  }

  /** The integer dot product of the first |a| entries. */
  function Dot(a: seq<int>, b: seq<int>): int
    requires |a| <= |b|
  {
    Sum(Products(a, b))
  }

  /** Peeling the last term off a dot product. */
  lemma DotSnoc(a: seq<int>, b: seq<int>)
    requires 0 < |a| <= |b|
    ensures Dot(a, b) == Dot(a[..|a| - 1], b) + a[|a| - 1] * b[|a| - 1]
  {
    assert Products(a, b)[..|a| - 1] == Products(a[..|a| - 1], b);
  }

  /** Sums are linear: a pointwise identity u = v + x w lifts to the sums. */
  lemma {:induction false} SumLinear(u: seq<int>, v: seq<int>, w: seq<int>, x: int)
    requires |u| == |v| == |w|
    requires forall i :: 0 <= i < |u| ==> u[i] == v[i] + x * w[i]
    ensures Sum(u) == Sum(v) + x * Sum(w)
  {
    if |u| > 0 {
      var k := |u| - 1;
      SumLinear(u[..k], v[..k], w[..k], x);
      assert x * (Sum(w[..k]) + w[k]) == x * Sum(w[..k]) + x * w[k];
    }
  }

  /** A pointwise sum lifts to the sums. */
  lemma {:induction false} SumAdd(u: seq<int>, v: seq<int>, w: seq<int>)
    requires |u| == |v| == |w|
    requires forall i :: 0 <= i < |u| ==> u[i] == v[i] + w[i]
    ensures Sum(u) == Sum(v) + Sum(w)
  {
    if |u| > 0 {
      var k := |u| - 1;
      SumAdd(u[..k], v[..k], w[..k]);
    }
  }

  /** Entries that agree modulo n give sums that agree modulo n. */
  lemma {:induction false} SumCongruent(u: seq<int>, v: seq<int>)
    requires |u| == |v|
    requires forall i :: 0 <= i < |u| ==> u[i] % N == v[i] % N
    ensures Sum(u) % N == Sum(v) % N
  {
    if |u| > 0 {
      var k := |u| - 1;
      SumCongruent(u[..k], v[..k]);
      ModAdd(Sum(u[..k]), u[k]);
      ModAdd(Sum(v[..k]), v[k]);
    }
  }

  /** The sum of a constant vector. */
  lemma {:induction false} SumConstant(n: nat, c: int)
    ensures Sum(seq(n, i requires 0 <= i < n => c)) == n * c
  {
    if n > 0 {
      var s := seq(n, i requires 0 <= i < n => c);
      assert s[..n - 1] == seq(n - 1, i requires 0 <= i < n - 1 => c);
      SumConstant(n - 1, c);
    }
  }

  /** Cal_IP_Vec on reduced scalars is the integer dot product reduced modulo n. */
  lemma {:induction false} InnerProductIsDot(a: seq<Scalar>, b: seq<Scalar>)
    requires |a| <= |b|
    ensures InnerProduct(a, b) == Dot(a, b) % N
  {
    if |a| > 0 {
      var k := |a| - 1;
      var d: int, m: int := Dot(a[..k], b), a[k] as int * b[k];
      InnerProductIsDot(a[..k], b);
      assert Products(a, b)[..k] == Products(a[..k], b);
      assert Dot(a, b) == d + m;
      assert MulInP(a[k], b[k]) == m % N;
      assert InnerProduct(a, b) == (d % N + m % N) % N;
      ModAdd(d, m);
    }
  }

  /** The inner product modulo n of vectors that are congruent entry by entry to
      integer vectors c and d. */
  lemma InnerProductCongruent(a: seq<Scalar>, b: seq<Scalar>, c: seq<int>, d: seq<int>)
    requires |a| == |c| && |a| <= |b| && |c| <= |d|
    requires forall i :: 0 <= i < |a| ==> a[i] == c[i] % N && b[i] == d[i] % N
    ensures InnerProduct(a, b) == Dot(c, d) % N
  {
    InnerProductIsDot(a, b);
    forall i | 0 <= i < |a| ensures Products(a, b)[i] % N == Products(c, d)[i] % N {
      ModMul(c[i], d[i]);
    }
    SumCongruent(Products(a, b), Products(c, d));
  }

  /** The inner product of any two vectors whose loaded entries are congruent to integer
      vectors c and d is their integer dot product reduced modulo n. */
  lemma InnerProductLifted(a: seq<int>, b: seq<int>, c: seq<int>, d: seq<int>)
    requires |a| == |c| && |a| <= |b| && |c| <= |d|
    requires forall i :: 0 <= i < |a| ==> Load(a[i]) == c[i] % N && Load(b[i]) == d[i] % N
    ensures InnerProduct(a, b) == Dot(c, d) % N
  {
    InnerProductLiftedOf(a, b, c, d, InnerProduct(a, b), Dot(c, d));
  }

  lemma {:induction false} InnerProductLiftedOf(a: seq<int>, b: seq<int>, c: seq<int>, d: seq<int>, p: Scalar, t: int)
    requires |a| == |c| && |a| <= |b| && |c| <= |d|
    requires forall i :: 0 <= i < |a| ==> Load(a[i]) == c[i] % N && Load(b[i]) == d[i] % N
    requires p == InnerProduct(a, b) && t == Dot(c, d)
    ensures p == t % N
  {
    if |a| > 0 {
      var k := |a| - 1;
      var p', t' := InnerProduct(a[..k], b), Dot(c[..k], d);
      InnerProductLiftedOf(a[..k], b, c[..k], d, p', t');
      var m := c[k] * d[k];
      assert t == t' + m by {
        DotSnoc(c, d);
      }
      var f := MulInP(a[k], b[k]);
      assert f == m % N by {
        ModMul(c[k], d[k]);
      }
      AddInPOfReduced(p', f, t', m);
    }
  }

  /** Scaling the left argument of an integer dot product scales the product. */
  lemma DotScaleLeft(a: seq<int>, ca: seq<int>, b: seq<int>, c: int)
    requires |a| == |ca| <= |b|
    requires forall i :: 0 <= i < |a| ==> ca[i] == a[i] * c
    ensures Dot(ca, b) == c * Dot(a, b)
  {
    var z: seq<int> := seq(|a|, i requires 0 <= i < |a| => 0);
    forall i | 0 <= i < |a| ensures Products(ca, b)[i] == z[i] + c * Products(a, b)[i] {
      assert (a[i] * c) * b[i] == c * (a[i] * b[i]);
    }
    SumLinear(Products(ca, b), z, Products(a, b), c);
    SumConstant(|a|, 0);
  }

  /** Adding left arguments of integer dot products adds the products. */
  lemma DotAddLeft(a: seq<int>, a': seq<int>, s: seq<int>, b: seq<int>)
    requires |a| == |a'| == |s| <= |b|
    requires forall i :: 0 <= i < |a| ==> s[i] == a[i] + a'[i]
    ensures Dot(s, b) == Dot(a, b) + Dot(a', b)
  {
    forall i | 0 <= i < |a| ensures Products(s, b)[i] == Products(a, b)[i] + Products(a', b)[i] {
      assert (a[i] + a'[i]) * b[i] == a[i] * b[i] + a'[i] * b[i];
    }
    SumAdd(Products(s, b), Products(a, b), Products(a', b));
  }

  /** Bilinearity, scalar part: IP(Sca(a, c), b) = c IP(a, b). */
  lemma InnerProductScale(a: seq<Scalar>, b: seq<Scalar>, c: Scalar)
    requires |a| <= |b|
    ensures InnerProduct(Scale(a, c), b) == MulInP(c, InnerProduct(a, b))
  {
    var ca: seq<int> := seq(|a|, i requires 0 <= i < |a| => a[i] as int * c);
    InnerProductCongruent(Scale(a, c), b, ca, b);
    DotScaleLeft(a, ca, b, c);
    InnerProductIsDot(a, b);
    MulInPOfReduced(c, InnerProduct(a, b), Dot(a, b));
  }

  /** Bilinearity, additive part: IP(Add(a, a'), b) = IP(a, b) + IP(a', b). */
  lemma InnerProductAdd(a: seq<Scalar>, a': seq<Scalar>, b: seq<Scalar>)
    requires |a| == |a'| <= |b|
    ensures InnerProduct(VecAdd(a, a'), b) == AddInP(InnerProduct(a, b), InnerProduct(a', b))
  {
    var d, d' := Dot(a, b), Dot(a', b);
    InnerProductAddDot(a, a', b, d, d');
    AddInnerProducts(a, a', b, d, d');
  }

  /* The two halves below take the integer dot products as parameters: a goal that
     mentions both an inner product and a dot product makes the solver unfold both
     definitions against each other. */

  /** The inner product of a sum is the sum of the integer dot products, reduced. */
  lemma InnerProductAddDot(a: seq<Scalar>, a': seq<Scalar>, b: seq<Scalar>, d: int, d': int)
    requires |a| == |a'| <= |b|
    requires d == Dot(a, b) && d' == Dot(a', b)
    ensures InnerProduct(VecAdd(a, a'), b) == (d + d') % N
  {
    var s: seq<int> := seq(|a|, i requires 0 <= i < |a| => a[i] as int + a'[i]);
    DotAddLeft(a, a', s, b);
    VecAddCongruent(a, a', s, b, d + d');
  }

  /** The sum of two inner products is the sum of the integer dot products, reduced. */
  lemma AddInnerProducts(a: seq<Scalar>, a': seq<Scalar>, b: seq<Scalar>, d: int, d': int)
    requires |a| <= |b| && |a'| <= |b|
    requires d == Dot(a, b) && d' == Dot(a', b)
    ensures AddInP(InnerProduct(a, b), InnerProduct(a', b)) == (d + d') % N
  {
    InnerProductIsDot(a, b);
    InnerProductIsDot(a', b);
    AddInPOfReduced(InnerProduct(a, b), InnerProduct(a', b), d, d');
  }

  lemma VecAddCongruent(a: seq<Scalar>, a': seq<Scalar>, s: seq<int>, b: seq<Scalar>, t: int)
    requires |a| == |a'| == |s| <= |b|
    requires forall i :: 0 <= i < |a| ==> s[i] == a[i] as int + a'[i]
    requires t == Dot(s, b)
    ensures InnerProduct(VecAdd(a, a'), b) == t % N
  {
    VecAddEntries(a, a', s);
    InnerProductCongruent(VecAdd(a, a'), b, s, b);
  }

  lemma VecAddEntries(a: seq<Scalar>, a': seq<Scalar>, s: seq<int>)
    requires |a| == |a'| == |s|
    requires forall i :: 0 <= i < |a| ==> s[i] == a[i] as int + a'[i]
    ensures forall i :: 0 <= i < |a| ==> VecAdd(a, a')[i] == s[i] % N
  {
    forall i | 0 <= i < |a| ensures VecAdd(a, a')[i] == s[i] % N {
      assert VecAdd(a, a')[i] == AddInP(a[i], a'[i]);
    }
  }
}
