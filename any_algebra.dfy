/** The scalar responses of the any-out-of-many prover (any_proofs/prover.go) as functions
    of its secrets and challenges, and the identity that makes the verifier's inner-product
    check work: <eta, zeta> = t_0 + t_1 x + t_2 x^2 modulo n. */
module AnyAlgebra {
  import opened Field
  import opened Vectors
  import opened Commitments
  import opened Setup
  import opened Polynomial
  import opened Lifting

  /** The shapes the prover's vectors have: b_0, b_1, s_0, s_1 and z 1^N of length N, and
      the exponent vector y^N at least as long. */
  predicate Shaped(b0: seq<int>, b1: seq<int>, s0: seq<int>, s1: seq<int>, z1N: seq<int>, yN: seq<int>)
  {
    |b0| == |b1| == |s0| == |s1| == |z1N| <= |yN|
  }

  /** calculateRx: zeta = z 1^N + b_0 + s_0 x. */
  function Zeta(z1N: seq<int>, b0: seq<int>, s0: seq<int>, x: int): seq<Scalar>
    requires |z1N| <= |b0| && |z1N| <= |s0|
  {
    VecAdd(VecAdd(z1N, b0), Scale(s0, x))
  }

  /** calculateLx: eta = b_1 ∘ y^N + z 1^N ∘ y^N + (s_1 x) ∘ y^N. */
  function Eta(b1: seq<int>, z1N: seq<int>, s1: seq<int>, yN: seq<int>, x: int): seq<Scalar>
    requires |b1| <= |z1N| <= |yN| && |b1| <= |s1| <= |yN| && |b1| <= |yN|
  {
    VecAdd(VecAdd(Hadamard(b1, yN), Hadamard(z1N, yN)), Hadamard(Scale(s1, x), yN))
  }

  /** calculateT: t_1 = <s_0 ∘ y^N, z 1^N + b_1> + <b_0 + z 1^N, s_1 ∘ y^N>. */
  function T1(b0: seq<int>, b1: seq<int>, s0: seq<int>, s1: seq<int>, z1N: seq<int>, yN: seq<int>): Scalar
    requires Shaped(b0, b1, s0, s1, z1N, yN)
  {
    AddInP(InnerProduct(Hadamard(s0, yN), VecAdd(z1N, b1)), InnerProduct(VecAdd(b0, z1N), Hadamard(s1, yN)))
  }

  /** calculateT: t_2 = <s_0 ∘ y^N, s_1>. */
  function T2(s0: seq<int>, s1: seq<int>, yN: seq<int>): Scalar
    requires |s0| <= |s1| && |s0| <= |yN|
  {
    InnerProduct(Hadamard(s0, yN), s1)
  }

  /** The constant coefficient, which the prover never computes:
      t_0 = <b_0 + z 1^N, (b_1 + z 1^N) ∘ y^N>. */
  function T0(b0: seq<int>, b1: seq<int>, z1N: seq<int>, yN: seq<int>): Scalar
    requires |b0| == |b1| == |z1N| <= |yN|
  {
    InnerProduct(VecAdd(b0, z1N), Hadamard(VecAdd(b1, z1N), yN))
  }

  /** The response identity: the inner product the prover sends is the quadratic in x with
      coefficients t_0, t_1, t_2, whatever the secrets are. The vectors and inner products
      are named by the caller. */
  lemma ResponseIdentity(b0: seq<int>, b1: seq<int>, s0: seq<int>, s1: seq<int>, yN: seq<Scalar>, z: Scalar, x: Scalar,
                         z1N: seq<int>, eta: seq<Scalar>, zeta: seq<Scalar>, ip: Scalar, t0: Scalar, t1: Scalar, t2: Scalar)
    requires |b0| == |b1| == |s0| == |s1| <= |yN| && z1N == Constant(|b0|, z)
    requires eta == Eta(b1, z1N, s1, yN, x) && zeta == Zeta(z1N, b0, s0, x) && ip == InnerProduct(eta, zeta)
    requires t0 == T0(b0, b1, z1N, yN) && t1 == T1(b0, b1, s0, s1, z1N, yN) && t2 == T2(s0, s1, yN)
    ensures ip == (t0 + x * t1 + x * x * t2) % N
  {
    var lb0, lb1, ls0, ls1 := Loads(b0), Loads(b1), Loads(s0), Loads(s1);
    // the integer vectors whose dot products are t_0, t_1 and t_2 before reduction
    var a0, d0, a1 := Shifted(lb0, z), Products(Shifted(lb1, z), yN), Products(ls0, yN);
    var d1, d2 := Shifted(lb1, z), Products(ls1, yN);
    var c0, c1, c2 := Dot(a0, d0), Dot(a1, d1) + Dot(a0, d2), Dot(a1, ls1);
    var q := c0 + x * c1 + x * x * c2;
    Coefficients(b0, b1, s0, s1, yN, z, lb0, lb1, ls0, ls1, t0, t1, t2, c0, c1, c2);
    Responses(b0, b1, s0, s1, yN, z, x, lb0, lb1, ls0, ls1, eta, zeta, ip, c0, c1, c2, q);
    QuadraticResidue(ip, t0, t1, t2, x, c0, c1, c2, q);
  }

  /** t_0, t_1 and t_2 as reduced integer dot products. */
  lemma Coefficients(b0: seq<int>, b1: seq<int>, s0: seq<int>, s1: seq<int>, yN: seq<Scalar>, z: Scalar,
                     lb0: seq<int>, lb1: seq<int>, ls0: seq<int>, ls1: seq<int>, t0: Scalar, t1: Scalar, t2: Scalar,
                     c0: int, c1: int, c2: int)
    requires |b0| == |b1| == |s0| == |s1| <= |yN|
    requires lb0 == Loads(b0) && lb1 == Loads(b1) && ls0 == Loads(s0) && ls1 == Loads(s1)
    requires t0 == T0(b0, b1, Constant(|b0|, z), yN) && t1 == T1(b0, b1, s0, s1, Constant(|b0|, z), yN)
    requires t2 == T2(s0, s1, yN)
    requires c0 == Dot(Shifted(lb0, z), Products(Shifted(lb1, z), yN))
    requires c1 == Dot(Products(ls0, yN), Shifted(lb1, z)) + Dot(Shifted(lb0, z), Products(ls1, yN))
    requires c2 == Dot(Products(ls0, yN), ls1)
    ensures t0 == c0 % N && t1 == c1 % N && t2 == c2 % N
  {
    var a0, d0 := LiftT0(b0, b1, yN, z, lb0, lb1, t0);
    var a1, d1, d2 := LiftT1(b0, b1, s0, s1, yN, z, lb0, lb1, ls0, ls1, a0, t1);
    LiftT2(s0, s1, yN, ls0, ls1, a1, t2);
  }

  /** The inner product of the responses as the reduced integer quadratic q. */
  lemma Responses(b0: seq<int>, b1: seq<int>, s0: seq<int>, s1: seq<int>, yN: seq<Scalar>, z: Scalar, x: Scalar,
                  lb0: seq<int>, lb1: seq<int>, ls0: seq<int>, ls1: seq<int>,
                  eta: seq<Scalar>, zeta: seq<Scalar>, ip: Scalar, c0: int, c1: int, c2: int, q: int)
    requires |b0| == |b1| == |s0| == |s1| <= |yN|
    requires lb0 == Loads(b0) && lb1 == Loads(b1) && ls0 == Loads(s0) && ls1 == Loads(s1)
    requires eta == Eta(b1, Constant(|b0|, z), s1, yN, x) && zeta == Zeta(Constant(|b0|, z), b0, s0, x)
    requires ip == InnerProduct(eta, zeta)
    requires c0 == Dot(Shifted(lb0, z), Products(Shifted(lb1, z), yN))
    requires c1 == Dot(Products(ls0, yN), Shifted(lb1, z)) + Dot(Shifted(lb0, z), Products(ls1, yN))
    requires c2 == Dot(Products(ls0, yN), ls1)
    requires q == c0 + x * c1 + x * x * c2
    ensures ip == q % N
  {
    var le, lz := LiftResponses(b0, b1, s0, s1, yN, z, x, lb0, lb1, ls0, ls1, eta, zeta, ip);
    ExpandDot(lb0, lb1, ls0, ls1, yN, z, x, le, lz, c0, c1, c2, q);
  }

  /** t_0 read as the integer dot product of a_0 = b_0 + z and d_0 = (b_1 + z) y^N. */
  lemma LiftT0(b0: seq<int>, b1: seq<int>, yN: seq<Scalar>, z: Scalar, lb0: seq<int>, lb1: seq<int>, t0: Scalar)
    returns (a0: seq<int>, d0: seq<int>)
    requires |b0| == |b1| <= |yN| && lb0 == Loads(b0) && lb1 == Loads(b1)
    requires t0 == T0(b0, b1, Constant(|b0|, z), yN)
    ensures a0 == Shifted(lb0, z) && d0 == Products(Shifted(lb1, z), yN)
    ensures t0 == Dot(a0, d0) % N
  {
    var n := |b0|;
    a0 := Shifted(lb0, z);
    d0 := Products(Shifted(lb1, z), yN);
    var z1N := Constant(n, z);
    var left, right := VecAdd(b0, z1N), Hadamard(VecAdd(b1, z1N), yN);
    T0Entries(b0, b1, yN, z, lb0, lb1, a0, d0, left, right);
    InnerProductLifted(left, right, a0, d0);
  }

  /** The entries of b_0 + z and (b_1 + z) ∘ y^N as integers. */
  lemma T0Entries(b0: seq<int>, b1: seq<int>, yN: seq<Scalar>, z: Scalar, lb0: seq<int>, lb1: seq<int>,
                  a0: seq<int>, d0: seq<int>, left: seq<Scalar>, right: seq<Scalar>)
    requires |b0| == |b1| <= |yN| && lb0 == Loads(b0) && lb1 == Loads(b1)
    requires a0 == Shifted(lb0, z) && d0 == Products(Shifted(lb1, z), yN)
    requires left == VecAdd(b0, Constant(|b0|, z)) && right == Hadamard(VecAdd(b1, Constant(|b0|, z)), yN)
    ensures forall i :: 0 <= i < |b0| ==> Load(left[i]) == a0[i] % N && Load(right[i]) == d0[i] % N
  {
    forall i | 0 <= i < |b0|
      ensures Load(left[i]) == a0[i] % N && Load(right[i]) == d0[i] % N
    {
      var w, y := AddInP(b1[i], z), yN[i];
      assert w == (lb1[i] + z) % N;
      assert right[i] == (w * y) % N;
      ModMulLeft(lb1[i] + z, y);
    }
  }

  /** t_1 read as the integer dot products <a_1, d_1> + <a_0, d_2> with a_1 = s_0 y^N,
      d_1 = z + b_1 and d_2 = s_1 y^N. */
  lemma LiftT1(b0: seq<int>, b1: seq<int>, s0: seq<int>, s1: seq<int>, yN: seq<Scalar>, z: Scalar,
               lb0: seq<int>, lb1: seq<int>, ls0: seq<int>, ls1: seq<int>, a0: seq<int>, t1: Scalar)
    returns (a1: seq<int>, d1: seq<int>, d2: seq<int>)
    requires |b0| == |b1| == |s0| == |s1| <= |yN|
    requires lb0 == Loads(b0) && lb1 == Loads(b1) && ls0 == Loads(s0) && ls1 == Loads(s1)
    requires a0 == Shifted(lb0, z)
    requires t1 == T1(b0, b1, s0, s1, Constant(|b0|, z), yN)
    ensures a1 == Products(ls0, yN) && d1 == Shifted(lb1, z) && d2 == Products(ls1, yN)
    ensures t1 == (Dot(a1, d1) + Dot(a0, d2)) % N
  {
    var z1N := Constant(|b0|, z);
    a1, d1, d2 := Products(ls0, yN), Shifted(lb1, z), Products(ls1, yN);
    var u := InnerProduct(Hadamard(s0, yN), VecAdd(z1N, b1));
    var v := InnerProduct(VecAdd(b0, z1N), Hadamard(s1, yN));
    var e1, e2 := Dot(a1, d1), Dot(a0, d2);
    LiftProduct(s0, yN, z1N, b1, ls0, lb1, z, a1, d1, u, e1);
    LiftSum(b0, z1N, s1, yN, lb0, ls1, z, a0, d2, v, e2);
    AddInPOfReduced(u, v, e1, e2);
  }

  /** <s_0 ∘ y^N, z 1^N + b_1> read as an integer dot product. */
  lemma LiftProduct(s0: seq<int>, yN: seq<Scalar>, z1N: seq<int>, b1: seq<int>, ls0: seq<int>, lb1: seq<int>,
                    z: Scalar, a1: seq<int>, d1: seq<int>, u: Scalar, e1: int)
    requires |s0| == |b1| <= |yN| && z1N == Constant(|s0|, z) && ls0 == Loads(s0) && lb1 == Loads(b1)
    requires a1 == Products(ls0, yN) && d1 == Shifted(lb1, z)
    requires u == InnerProduct(Hadamard(s0, yN), VecAdd(z1N, b1)) && e1 == Dot(a1, d1)
    ensures u == e1 % N
  {
    var left, right := Hadamard(s0, yN), VecAdd(z1N, b1);
    HadamardLifted(s0, yN, ls0, a1, left);
    ShiftLifted(b1, z1N, z, lb1, d1, right, true);
    InnerProductLifted(left, right, a1, d1);
  }

  /** <b_0 + z 1^N, s_1 ∘ y^N> read as an integer dot product. */
  lemma LiftSum(b0: seq<int>, z1N: seq<int>, s1: seq<int>, yN: seq<Scalar>, lb0: seq<int>, ls1: seq<int>,
                z: Scalar, a0: seq<int>, d2: seq<int>, v: Scalar, e2: int)
    requires |b0| == |s1| <= |yN| && z1N == Constant(|b0|, z) && lb0 == Loads(b0) && ls1 == Loads(s1)
    requires a0 == Shifted(lb0, z) && d2 == Products(ls1, yN)
    requires v == InnerProduct(VecAdd(b0, z1N), Hadamard(s1, yN)) && e2 == Dot(a0, d2)
    ensures v == e2 % N
  {
    var left, right := VecAdd(b0, z1N), Hadamard(s1, yN);
    ShiftLifted(b0, z1N, z, lb0, a0, left, false);
    HadamardLifted(s1, yN, ls1, d2, right);
    InnerProductLifted(left, right, a0, d2);
  }

  /** t_2 read as the integer dot product <a_1, s_1>. */
  lemma LiftT2(s0: seq<int>, s1: seq<int>, yN: seq<Scalar>, ls0: seq<int>, ls1: seq<int>, a1: seq<int>, t2: Scalar)
    requires |s0| == |s1| <= |yN| && ls0 == Loads(s0) && ls1 == Loads(s1)
    requires a1 == Products(ls0, yN)
    requires t2 == T2(s0, s1, yN)
    ensures t2 == Dot(a1, ls1) % N
  {
    var left := Hadamard(s0, yN);
    HadamardLifted(s0, yN, ls0, a1, left);
    LoadsLifted(s1, ls1);
    InnerProductLifted(left, s1, a1, ls1);
  }

  /** The responses read as integers: eta and zeta entry by entry, and their inner product
      as the reduced integer dot product. */
  lemma LiftResponses(b0: seq<int>, b1: seq<int>, s0: seq<int>, s1: seq<int>, yN: seq<Scalar>, z: Scalar, x: Scalar,
                      lb0: seq<int>, lb1: seq<int>, ls0: seq<int>, ls1: seq<int>,
                      eta: seq<Scalar>, zeta: seq<Scalar>, ip: Scalar)
    returns (le: seq<int>, lz: seq<int>)
    requires |b0| == |b1| == |s0| == |s1| <= |yN|
    requires lb0 == Loads(b0) && lb1 == Loads(b1) && ls0 == Loads(s0) && ls1 == Loads(s1)
    requires eta == Eta(b1, Constant(|b0|, z), s1, yN, x) && zeta == Zeta(Constant(|b0|, z), b0, s0, x)
    requires ip == InnerProduct(eta, zeta)
    ensures |le| == |lz| == |b0|
    ensures forall i :: 0 <= i < |b0| ==> le[i] == yN[i] * (lb1[i] + z) + x * (yN[i] * ls1[i])
    ensures forall i :: 0 <= i < |b0| ==> lz[i] == (z + lb0[i]) + x * ls0[i]
    ensures ip == Dot(le, lz) % N
  {
    lz := ZetaLift(b0, s0, z, x, zeta, ls0, lb0);
    le := EtaLift(b1, s1, yN, z, x, eta, lb1, ls1);
    InnerProductLifted(eta, zeta, le, lz);
  }

  /** zeta, entry by entry, as the integers (z + b_0[i]) + x s_0[i]. */
  lemma ZetaLift(b0: seq<int>, s0: seq<int>, z: Scalar, x: Scalar, zeta: seq<Scalar>,
                 ls0: seq<int>, lb0: seq<int>) returns (lz: seq<int>)
    requires |b0| == |s0| && zeta == Zeta(Constant(|b0|, z), b0, s0, x)
    requires lb0 == Loads(b0) && ls0 == Loads(s0)
    ensures |lz| == |b0| && forall i :: 0 <= i < |lz| ==> lz[i] == (z + lb0[i]) + x * ls0[i]
    ensures |zeta| == |lz| && forall i :: 0 <= i < |lz| ==> Load(zeta[i]) == lz[i] % N
  {
    var n := |b0|;
    lz := seq(n, i requires 0 <= i < n => (z + lb0[i]) + x * ls0[i]);
    forall i | 0 <= i < |lz|
      ensures Load(zeta[i]) == lz[i] % N
    {
      var e, l, bi, si, lbi, lsi := zeta[i], lz[i], b0[i], s0[i], lb0[i], ls0[i];
      assert e == AddInP(AddInP(z, bi), MulInP(si, x));
      assert l == (z + lbi) + x * lsi;
      ZetaEntry(z, bi, si, x, lbi, lsi, e, l);
    }
  }

  /** eta, entry by entry, as the integers y^i (b_1[i] + z) + x (y^i s_1[i]). */
  lemma EtaLift(b1: seq<int>, s1: seq<int>, yN: seq<Scalar>, z: Scalar, x: Scalar, eta: seq<Scalar>,
                lb1: seq<int>, ls1: seq<int>) returns (le: seq<int>)
    requires |b1| == |s1| <= |yN| && eta == Eta(b1, Constant(|b1|, z), s1, yN, x)
    requires lb1 == Loads(b1) && ls1 == Loads(s1)
    ensures |le| == |b1| && forall i :: 0 <= i < |le| ==> le[i] == yN[i] * (lb1[i] + z) + x * (yN[i] * ls1[i])
    ensures |eta| == |le| && forall i :: 0 <= i < |le| ==> Load(eta[i]) == le[i] % N
  {
    var n := |b1|;
    le := seq(n, i requires 0 <= i < n => yN[i] * (lb1[i] + z) + x * (yN[i] * ls1[i]));
    forall i | 0 <= i < |le|
      ensures Load(eta[i]) == le[i] % N
    {
      var e, l, bi, si, yi, lbi, lsi := eta[i], le[i], b1[i], s1[i], yN[i], lb1[i], ls1[i];
      assert e == AddInP(AddInP(MulInP(bi, yi), MulInP(z, yi)), MulInP(MulInP(si, x), yi));
      assert l == yi * (lbi + z) + x * (yi * lsi);
      EtaEntry(bi, z, si, yi, x, lbi, lsi, e, l);
    }
  }

  /** The integer dot product of the lifted responses is the quadratic with coefficients
      <a_0, d_0>, <a_1, d_1> + <a_0, d_2> and <a_1, s_1>. */
  lemma ExpandDot(lb0: seq<int>, lb1: seq<int>, ls0: seq<int>, ls1: seq<int>, yN: seq<Scalar>, z: int, x: int,
                  le: seq<int>, lz: seq<int>, c0: int, c1: int, c2: int, q: int)
    requires |lb0| == |lb1| == |ls0| == |ls1| == |le| == |lz| <= |yN|
    requires forall i :: 0 <= i < |lb0| ==> le[i] == yN[i] * (lb1[i] + z) + x * (yN[i] * ls1[i])
    requires forall i :: 0 <= i < |lb0| ==> lz[i] == (z + lb0[i]) + x * ls0[i]
    requires c0 == Dot(Shifted(lb0, z), Products(Shifted(lb1, z), yN))
    requires c1 == Dot(Products(ls0, yN), Shifted(lb1, z)) + Dot(Shifted(lb0, z), Products(ls1, yN))
    requires c2 == Dot(Products(ls0, yN), ls1)
    requires q == c0 + x * c1 + x * x * c2
    ensures Dot(le, lz) == q
  {
    var a0, d0, a1 := Shifted(lb0, z), Products(Shifted(lb1, z), yN), Products(ls0, yN);
    var d1, d2 := Shifted(lb1, z), Products(ls1, yN);
    var p0, p1, p2 := Products(a0, d0), Plus(Products(a1, d1), Products(a0, d2)), Products(a1, ls1);
    SumAdd(p1, Products(a1, d1), Products(a0, d2));
    var u := Products(le, lz);
    ExpandEntries(lb0, lb1, ls0, ls1, yN, z, x, le, lz, u, p0, p1, p2);
    QuadraticSum(u, p0, p1, p2, x);
  }

  /** Each product of a lifted eta entry and a lifted zeta entry, expanded in powers of x. */
  lemma ExpandEntries(lb0: seq<int>, lb1: seq<int>, ls0: seq<int>, ls1: seq<int>, yN: seq<Scalar>, z: int, x: int,
                      le: seq<int>, lz: seq<int>, u: seq<int>, p0: seq<int>, p1: seq<int>, p2: seq<int>)
    requires |lb0| == |lb1| == |ls0| == |ls1| == |le| == |lz| <= |yN|
    requires forall i :: 0 <= i < |lb0| ==> le[i] == yN[i] * (lb1[i] + z) + x * (yN[i] * ls1[i])
    requires forall i :: 0 <= i < |lb0| ==> lz[i] == (z + lb0[i]) + x * ls0[i]
    requires u == Products(le, lz)
    requires p0 == Products(Shifted(lb0, z), Products(Shifted(lb1, z), yN))
    requires p1 == Plus(Products(Products(ls0, yN), Shifted(lb1, z)), Products(Shifted(lb0, z), Products(ls1, yN)))
    requires p2 == Products(Products(ls0, yN), ls1)
    ensures |u| == |p0| == |p1| == |p2| && forall i :: 0 <= i < |u| ==> u[i] == p0[i] + x * p1[i] + x * x * p2[i]
  {
    forall i | 0 <= i < |u|
      ensures u[i] == p0[i] + x * p1[i] + x * x * p2[i]
    {
      var e, f := le[i], lz[i];
      assert u[i] == e * f;
      var b0, b1, s0, s1, y := lb0[i], lb1[i], ls0[i], ls1[i], yN[i];
      assert p0[i] == (b0 + z) * ((b1 + z) * y);
      assert p1[i] == (s0 * y) * (b1 + z) + (b0 + z) * (s1 * y);
      assert p2[i] == (s0 * y) * s1;
      Expand(b0, b1, s0, s1, y, z, x, e, f, p0[i], p1[i], p2[i]);
    }
  }

  /** One entry of zeta, read as an integer. */
  lemma ZetaEntry(z: Scalar, b: int, s: int, x: Scalar, lb: int, ls: int, e: Scalar, l: int)
    requires lb == Load(b) && ls == Load(s)
    requires e == AddInP(AddInP(z, b), MulInP(s, x)) && l == (z + lb) + x * ls
    ensures e == l % N
  {
    var u, v := AddInP(z, b), MulInP(s, x);
    assert u == (z + lb) % N;
    assert v == (ls * x) % N;
    AddInPOfReduced(u, v, z + lb, ls * x);
    assert ls * x == x * ls;
  }

  /** One entry of eta, read as an integer. */
  lemma EtaEntry(b: int, z: Scalar, s: int, y: Scalar, x: Scalar, lb: int, ls: int, e: Scalar, l: int)
    requires lb == Load(b) && ls == Load(s)
    requires e == AddInP(AddInP(MulInP(b, y), MulInP(z, y)), MulInP(MulInP(s, x), y))
    requires l == y * (lb + z) + x * (y * ls)
    ensures e == l % N
  {
    var u1, u2 := MulInP(b, y), MulInP(z, y);
    assert u1 == (lb * y) % N;
    assert u2 == (z * y) % N;
    var w := AddInP(u1, u2);
    AddInPOfReduced(u1, u2, lb * y, z * y);
    var m := MulInP(s, x);
    assert m == (ls * x) % N;
    var v := MulInP(m, y);
    assert v == (m * y) % N;
    assert v == ((ls * x) * y) % N by {
      ModMulLeft(ls * x, y);
    }
    AddInPOfReduced(w, v, lb * y + z * y, (ls * x) * y);
    EtaRegroup(lb, ls, y, z, x);
  }

  lemma EtaRegroup(b: int, s: int, y: int, z: int, x: int)
    ensures b * y + z * y + (s * x) * y == y * (b + z) + x * (y * s)
  {
  }

  /** The product of one eta entry and one zeta entry, expanded in powers of x. */
  lemma Expand(b0: int, b1: int, s0: int, s1: int, y: int, z: int, x: int,
                e: int, f: int, q0: int, q1: int, q2: int)
    requires e == y * (b1 + z) + x * (y * s1) && f == (z + b0) + x * s0
    requires q0 == (b0 + z) * ((b1 + z) * y)
    requires q1 == (s0 * y) * (b1 + z) + (b0 + z) * (s1 * y)
    requires q2 == (s0 * y) * s1
    ensures e * f == q0 + x * q1 + x * x * q2
  {
  }
}
