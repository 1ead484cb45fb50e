/** The scalar responses of the range prover (range_proofs/prover.go) as functions of its
    bits, blinding vectors and challenges. The responses are degree-one polynomials in x,
    so <zeta, eta> is a quadratic t_0 + t_1 x + t_2 x^2: the t_2 that calculateT computes
    is its x^2 coefficient, but the t_1 it computes is not its x coefficient (its third
    term adds z 1^d to b_0 where zeta subtracts it). */
module RangeAlgebra {
  import opened Field
  import opened Vectors
  import opened Commitments
  import opened Polynomial
  import opened Lifting

  /** The shapes the prover's vectors have: b_0, b_1, s_0, s_1 and z 1^d of length d, and
      y^d and 2^d at least as long (they are [1] when d is 0). */
  predicate Shaped(b0: seq<int>, b1: seq<int>, s0: seq<int>, s1: seq<int>, z1N: seq<int>, yN: seq<int>,
                   v2N: seq<int>)
  {
    |b0| == |b1| == |s0| == |s1| == |z1N| <= |yN| && |b0| <= |v2N|
  }

  /** calculateLx: zeta = b_0 - z 1^d + s_0 x. */
  function Zeta(b0: seq<int>, z1N: seq<int>, s0: seq<int>, x: int): seq<Scalar>
    requires |b0| <= |z1N| && |b0| <= |s0|
  {
    VecAdd(VecSub(b0, z1N), Scale(s0, x))
  }

  /** calculateRx: eta = b_1 ∘ y^d + z 1^d ∘ y^d + (s_1 x) ∘ y^d + z^2 2^d. */
  function Eta(b1: seq<int>, z1N: seq<int>, s1: seq<int>, yN: seq<int>, v2N: seq<int>, z2: int, x: int)
    : seq<Scalar>
    requires |b1| <= |z1N| <= |yN| && |b1| <= |s1| <= |yN| && |b1| <= |v2N|
  {
    VecAdd(VecAdd(VecAdd(Hadamard(b1, yN), Hadamard(z1N, yN)), Hadamard(Scale(s1, x), yN)), Scale(v2N, z2))
  }

  /** calculateT: t11 = <s_0 ∘ y^d, b_1 + z 1^d>. */
  function T11(s0: seq<int>, b1: seq<int>, z1N: seq<int>, yN: seq<int>): Scalar
    requires |s0| <= |yN| && |s0| <= |b1| <= |z1N|
  {
    InnerProduct(Hadamard(s0, yN), VecAdd(b1, z1N))
  }

  /** calculateT: t12 = <s_0, z^2 2^d>. */
  function T12(s0: seq<int>, v2N: seq<int>, z2: int): Scalar
    requires |s0| <= |v2N|
  {
    InnerProduct(s0, Scale(v2N, z2))
  }

  /** calculateT as written: t13 = <b_0 + z 1^d, s_1 ∘ y^d>. */
  function T13AsWritten(b0: seq<int>, s1: seq<int>, z1N: seq<int>, yN: seq<int>): Scalar
    requires |b0| <= |z1N| && |b0| <= |s1| <= |yN|
  {
    InnerProduct(VecAdd(b0, z1N), Hadamard(s1, yN))
  }

  /** The third term with b_0 - z 1^d, as in zeta: <b_0 - z 1^d, s_1 ∘ y^d>. */
  function T13(b0: seq<int>, s1: seq<int>, z1N: seq<int>, yN: seq<int>): Scalar
    requires |b0| <= |z1N| && |b0| <= |s1| <= |yN|
  {
    InnerProduct(VecSub(b0, z1N), Hadamard(s1, yN))
  }

  /** calculateT: the value t11 + t12 that t_1 holds before t13 is added. */
  function T1Head(s0: seq<int>, b1: seq<int>, z1N: seq<int>, yN: seq<int>, v2N: seq<int>, z2: int): Scalar
    requires |s0| <= |yN| && |s0| <= |b1| <= |z1N| && |s0| <= |v2N|
  {
    AddInP(T11(s0, b1, z1N, yN), T12(s0, v2N, z2))
  }

  /** calculateT as written: t_1 = (t11 + t12) + t13. */
  function T1AsWritten(b0: seq<int>, b1: seq<int>, s0: seq<int>, s1: seq<int>, z1N: seq<int>, yN: seq<int>,
                       v2N: seq<int>, z2: int): Scalar
    requires Shaped(b0, b1, s0, s1, z1N, yN, v2N)
  {
    AddInP(T1Head(s0, b1, z1N, yN, v2N, z2), T13AsWritten(b0, s1, z1N, yN))
  }

  /** The x coefficient of <zeta, eta>: the t_1 of calculateT with b_0 - z 1^d in its third
      term, as in zeta. */
  function T1(b0: seq<int>, b1: seq<int>, s0: seq<int>, s1: seq<int>, z1N: seq<int>, yN: seq<int>,
              v2N: seq<int>, z2: int): Scalar
    requires Shaped(b0, b1, s0, s1, z1N, yN, v2N)
  {
    AddInP(T1Head(s0, b1, z1N, yN, v2N, z2), T13(b0, s1, z1N, yN))
  }

  /** calculateT: t_2 = <s_0 ∘ y^d, s_1>. */
  function T2(s0: seq<int>, s1: seq<int>, yN: seq<int>): Scalar
    requires |s0| <= |s1| && |s0| <= |yN|
  {
    InnerProduct(Hadamard(s0, yN), s1)
  }

  /** The constant coefficient, which the prover never computes:
      t_0 = <b_0 - z 1^d, (b_1 + z 1^d) ∘ y^d + z^2 2^d>. */
  function T0(b0: seq<int>, b1: seq<int>, z1N: seq<int>, yN: seq<int>, v2N: seq<int>, z2: int): Scalar
    requires |b0| == |b1| == |z1N| <= |yN| && |b0| <= |v2N|
  {
    InnerProduct(VecSub(b0, z1N), VecAdd(Hadamard(VecAdd(b1, z1N), yN), Scale(v2N, z2)))
  }

  // ---------------------------------------------------------------------------------
  // the response identity
  // ---------------------------------------------------------------------------------

  /** The inner product the prover sends is t_0 + t_1 x + t_2 x^2 for the corrected t_1,
      whatever the bits, the blinding vectors and the challenges are. */
  lemma ResponseIdentity(b0: seq<int>, b1: seq<int>, s0: seq<int>, s1: seq<int>, yN: seq<Scalar>,
                         v2N: seq<Scalar>, z: Scalar, z2: Scalar, x: Scalar, z1N: seq<int>,
                         zeta: seq<Scalar>, eta: seq<Scalar>, ip: Scalar, t0: Scalar, t1: Scalar, t2: Scalar)
    requires |b0| == |b1| == |s0| == |s1| == |yN| == |v2N| && z1N == Constant(|b0|, z)
    requires zeta == Zeta(b0, z1N, s0, x) && eta == Eta(b1, z1N, s1, yN, v2N, z2, x)
    requires ip == InnerProduct(zeta, eta)
    requires t0 == T0(b0, b1, z1N, yN, v2N, z2) && t1 == T1(b0, b1, s0, s1, z1N, yN, v2N, z2)
    requires t2 == T2(s0, s1, yN)
    ensures ip == (t0 + x * t1 + x * x * t2) % N
  {
    var c0, c1, c2, q := ResponseQuadratic(b0, b1, s0, s1, yN, v2N, z, z2, x, zeta, eta, ip, t0, t1, t2);
    QuadraticResidue(ip, t0, t1, t2, x, c0, c1, c2, q);
  }

  /** The integer coefficients of <zeta, eta>, congruent to t_0, t_1 and t_2. */
  lemma ResponseQuadratic(b0: seq<int>, b1: seq<int>, s0: seq<int>, s1: seq<int>, yN: seq<Scalar>,
                          v2N: seq<Scalar>, z: Scalar, z2: Scalar, x: Scalar,
                          zeta: seq<Scalar>, eta: seq<Scalar>, ip: Scalar, t0: Scalar, t1: Scalar, t2: Scalar)
    returns (c0: int, c1: int, c2: int, q: int)
    requires |b0| == |b1| == |s0| == |s1| == |yN| == |v2N|
    requires zeta == Zeta(b0, Constant(|b0|, z), s0, x) && eta == Eta(b1, Constant(|b0|, z), s1, yN, v2N, z2, x)
    requires ip == InnerProduct(zeta, eta)
    requires t0 == T0(b0, b1, Constant(|b0|, z), yN, v2N, z2)
    requires t1 == T1(b0, b1, s0, s1, Constant(|b0|, z), yN, v2N, z2) && t2 == T2(s0, s1, yN)
    ensures q == c0 + x * c1 + x * x * c2 && ip == q % N
    ensures t0 == c0 % N && t1 == c1 % N && t2 == c2 % N
  {
    var lb0, lb1, ls0, ls1 := Loads(b0), Loads(b1), Loads(s0), Loads(s1);
    var l0, r1 := Shifted(lb0, -(z as int)), Products(ls1, yN);
    var r0 := Plus(Products(Shifted(lb1, z), yN), Scaled(v2N, z2));
    c0, c1, c2 := Dot(l0, r0), Dot(l0, r1) + Dot(ls0, r0), Dot(ls0, r1);
    q := c0 + x * c1 + x * x * c2;
    ResponseLinear(b0, b1, s0, s1, yN, v2N, z, z2, x, zeta, eta, ip, lb0, lb1, ls0, ls1, l0, r0, r1, c0, c1, c2, q);
    ResponseCoefficients(b0, b1, s0, s1, yN, v2N, z, z2, lb0, lb1, ls0, ls1, l0, r0, r1, c0, c1, c2, t0, t1, t2);
  }

  /** <zeta, eta> as the integer quadratic <l_0 + x l_1, r_0 + x r_1> reduced modulo n. */
  lemma ResponseLinear(b0: seq<int>, b1: seq<int>, s0: seq<int>, s1: seq<int>, yN: seq<Scalar>,
                       v2N: seq<Scalar>, z: Scalar, z2: Scalar, x: Scalar,
                       zeta: seq<Scalar>, eta: seq<Scalar>, ip: Scalar,
                       lb0: seq<int>, lb1: seq<int>, ls0: seq<int>, ls1: seq<int>,
                       l0: seq<int>, r0: seq<int>, r1: seq<int>, c0: int, c1: int, c2: int, q: int)
    requires |b0| == |b1| == |s0| == |s1| == |yN| == |v2N|
    requires zeta == Zeta(b0, Constant(|b0|, z), s0, x) && eta == Eta(b1, Constant(|b0|, z), s1, yN, v2N, z2, x)
    requires ip == InnerProduct(zeta, eta)
    requires lb0 == Loads(b0) && lb1 == Loads(b1) && ls0 == Loads(s0) && ls1 == Loads(s1)
    requires l0 == Shifted(lb0, -(z as int)) && r1 == Products(ls1, yN)
    requires r0 == Plus(Products(Shifted(lb1, z), yN), Scaled(v2N, z2))
    requires c0 == Dot(l0, r0) && c1 == Dot(l0, r1) + Dot(ls0, r0) && c2 == Dot(ls0, r1)
    requires q == c0 + x * c1 + x * x * c2
    ensures ip == q % N
  {
    ZetaLifted(b0, s0, z, x, zeta, lb0, ls0, l0);
    EtaLifted(b1, s1, yN, v2N, z, z2, x, eta, lb1, ls1, r0, r1);
    LinearResponses(zeta, eta, l0, ls0, r0, r1, x, ip, c0, c1, c2, q);
  }

  /** t_0, the corrected t_1 and t_2 are the coefficients of that quadratic modulo n. */
  lemma ResponseCoefficients(b0: seq<int>, b1: seq<int>, s0: seq<int>, s1: seq<int>, yN: seq<Scalar>,
                             v2N: seq<Scalar>, z: Scalar, z2: Scalar,
                             lb0: seq<int>, lb1: seq<int>, ls0: seq<int>, ls1: seq<int>,
                             l0: seq<int>, r0: seq<int>, r1: seq<int>, c0: int, c1: int, c2: int,
                             t0: Scalar, t1: Scalar, t2: Scalar)
    requires |b0| == |b1| == |s0| == |s1| == |yN| == |v2N|
    requires lb0 == Loads(b0) && lb1 == Loads(b1) && ls0 == Loads(s0) && ls1 == Loads(s1)
    requires l0 == Shifted(lb0, -(z as int)) && r1 == Products(ls1, yN)
    requires r0 == Plus(Products(Shifted(lb1, z), yN), Scaled(v2N, z2))
    requires c0 == Dot(l0, r0) && c1 == Dot(l0, r1) + Dot(ls0, r0) && c2 == Dot(ls0, r1)
    requires t0 == T0(b0, b1, Constant(|b0|, z), yN, v2N, z2)
    requires t1 == T1(b0, b1, s0, s1, Constant(|b0|, z), yN, v2N, z2) && t2 == T2(s0, s1, yN)
    ensures t0 == c0 % N
    ensures t1 == c1 % N
    ensures t2 == c2 % N
  {
    T0Lifted(b0, b1, yN, v2N, z, z2, lb0, lb1, l0, r0, t0);
    T1Lifted(b0, b1, s0, s1, yN, v2N, z, z2, lb0, lb1, ls0, ls1, l0, r0, r1, c1, t1);
    T2Lifted(s0, s1, yN, ls0, ls1, r1, t2);
  }

  /** zeta entry by entry: (Load(b_0[i]) - z) + x Load(s_0[i]). */
  lemma ZetaLifted(b0: seq<int>, s0: seq<int>, z: Scalar, x: Scalar, zeta: seq<Scalar>,
                   lb0: seq<int>, ls0: seq<int>, l0: seq<int>)
    requires |b0| == |s0| && zeta == Zeta(b0, Constant(|b0|, z), s0, x)
    requires lb0 == Loads(b0) && ls0 == Loads(s0) && l0 == Shifted(lb0, -(z as int))
    ensures |zeta| == |b0| && forall i :: 0 <= i < |zeta| ==> zeta[i] == (l0[i] + x * ls0[i]) % N
  {
    forall i | 0 <= i < |zeta| ensures zeta[i] == (l0[i] + x * ls0[i]) % N {
      ZetaEntry(b0[i], s0[i], z, x, lb0[i], ls0[i], zeta[i]);
    }
  }

  /** One entry of zeta. */
  lemma ZetaEntry(b: int, s: int, z: Scalar, x: Scalar, lb: int, ls: int, e: Scalar)
    requires lb == Load(b) && ls == Load(s) && e == AddInP(AddInP(b, NegZp(z)), MulInP(s, x))
    ensures e == ((lb - z) + x * ls) % N
  {
    var u, v := AddInP(b, NegZp(z)), MulInP(s, x);
    SubEntry(b, z, lb, u);
    assert v == (x * ls) % N by {
      assert ls * x == x * ls;
    }
    AddInPOfReduced(u, v, lb - z, x * ls);
  }

  /** eta entry by entry: ((Load(b_1[i]) + z) y^i + z^2 2^i) + x (Load(s_1[i]) y^i). */
  lemma EtaLifted(b1: seq<int>, s1: seq<int>, yN: seq<Scalar>, v2N: seq<Scalar>, z: Scalar, z2: Scalar, x: Scalar,
                  eta: seq<Scalar>, lb1: seq<int>, ls1: seq<int>, r0: seq<int>, r1: seq<int>)
    requires |b1| == |s1| == |yN| == |v2N| && eta == Eta(b1, Constant(|b1|, z), s1, yN, v2N, z2, x)
    requires lb1 == Loads(b1) && ls1 == Loads(s1)
    requires r0 == Plus(Products(Shifted(lb1, z), yN), Scaled(v2N, z2)) && r1 == Products(ls1, yN)
    ensures |eta| == |b1| && forall i :: 0 <= i < |eta| ==> eta[i] == (r0[i] + x * r1[i]) % N
  {
    forall i | 0 <= i < |eta| ensures eta[i] == (r0[i] + x * r1[i]) % N {
      EtaEntry(b1[i], s1[i], yN[i], v2N[i], z, z2, x, lb1[i], ls1[i], eta[i]);
    }
  }

  /** One entry of eta. */
  lemma EtaEntry(b: int, s: int, y: Scalar, v: Scalar, z: Scalar, z2: Scalar, x: Scalar, lb: int, ls: int,
                 e: Scalar)
    requires lb == Load(b) && ls == Load(s)
    requires e == AddInP(AddInP(AddInP(MulInP(b, y), MulInP(z, y)), MulInP(MulInP(s, x), y)), MulInP(v, z2))
    ensures e == (((lb + z) * y + z2 * v) + x * (ls * y)) % N
  {
    var u1, u2 := MulInP(b, y), MulInP(z, y);
    assert u1 == (lb * y) % N;
    var w := AddInP(u1, u2);
    AddInPOfReduced(u1, u2, lb * y, z * y);
    var m := MulInP(s, x);
    assert m == (ls * x) % N;
    var u3 := MulInP(m, y);
    assert u3 == ((ls * x) * y) % N by {
      ModMulLeft(ls * x, y);
    }
    var w' := AddInP(w, u3);
    AddInPOfReduced(w, u3, lb * y + z * y, (ls * x) * y);
    var u4 := MulInP(v, z2);
    assert u4 == (v * z2) % N;
    AddInPOfReduced(w', u4, lb * y + z * y + (ls * x) * y, v * z2);
    EtaRegroup(lb, ls, y, v, z, z2, x);
  }

  lemma EtaRegroup(lb: int, ls: int, y: int, v: int, z: int, z2: int, x: int)
    ensures lb * y + z * y + (ls * x) * y + v * z2 == ((lb + z) * y + z2 * v) + x * (ls * y)
  {
  }

  /** t_0 as the integer dot product <l_0, r_0>. */
  lemma T0Lifted(b0: seq<int>, b1: seq<int>, yN: seq<Scalar>, v2N: seq<Scalar>, z: Scalar, z2: Scalar,
                 lb0: seq<int>, lb1: seq<int>, l0: seq<int>, r0: seq<int>, t0: Scalar)
    requires |b0| == |b1| == |yN| == |v2N| && lb0 == Loads(b0) && lb1 == Loads(b1)
    requires l0 == Shifted(lb0, -(z as int)) && r0 == Plus(Products(Shifted(lb1, z), yN), Scaled(v2N, z2))
    requires t0 == T0(b0, b1, Constant(|b0|, z), yN, v2N, z2)
    ensures t0 == Dot(l0, r0) % N
  {
    var z1N := Constant(|b0|, z);
    var left, inner, sc := VecSub(b0, z1N), VecAdd(b1, z1N), Scale(v2N, z2);
    var d1, w := Shifted(lb1, z), Scaled(v2N, z2);
    var p1, prod := Products(d1, yN), Hadamard(inner, yN);
    var right := VecAdd(prod, sc);
    SubLifted(b0, z1N, z, lb0, l0, left);
    ShiftLifted(b1, z1N, z, lb1, d1, inner, false);
    HadamardOfLifted(inner, yN, d1, p1, prod);
    ScaleLifted(v2N, z2, w, sc);
    VecAddLifted(prod, sc, p1, w, r0, right);
    InnerProductLifted(left, right, l0, r0);
  }

  /** t_2 as the integer dot product <Load(s_0), r_1>. */
  lemma T2Lifted(s0: seq<int>, s1: seq<int>, yN: seq<Scalar>, ls0: seq<int>, ls1: seq<int>, r1: seq<int>,
                 t2: Scalar)
    requires |s0| == |s1| <= |yN| && ls0 == Loads(s0) && ls1 == Loads(s1) && r1 == Products(ls1, yN)
    requires t2 == T2(s0, s1, yN)
    ensures t2 == Dot(ls0, r1) % N
  {
    var left, a := Hadamard(s0, yN), Products(ls0, yN);
    HadamardLifted(s0, yN, ls0, a, left);
    LoadsLifted(s1, ls1);
    InnerProductLifted(left, s1, a, ls1);
    DotRegroup(ls0, ls1, yN, a, r1);
  }

  /** Σ (a_i y_i) b_i = Σ a_i (b_i y_i). */
  lemma DotRegroup(a: seq<int>, b: seq<int>, y: seq<int>, ya: seq<int>, yb: seq<int>)
    requires |a| == |b| <= |y| && ya == Products(a, y) && yb == Products(b, y)
    ensures Dot(ya, b) == Dot(a, yb)
  {
    forall i | 0 <= i < |a| ensures Products(ya, b)[i] == Products(a, yb)[i] {
      assert (a[i] * y[i]) * b[i] == a[i] * (b[i] * y[i]);
    }
    assert Products(ya, b) == Products(a, yb);
  }

  /** The corrected t_1 as the integer x coefficient <l_0, r_1> + <Load(s_0), r_0>. */
  lemma T1Lifted(b0: seq<int>, b1: seq<int>, s0: seq<int>, s1: seq<int>, yN: seq<Scalar>, v2N: seq<Scalar>,
                 z: Scalar, z2: Scalar, lb0: seq<int>, lb1: seq<int>, ls0: seq<int>, ls1: seq<int>,
                 l0: seq<int>, r0: seq<int>, r1: seq<int>, c1: int, t1: Scalar)
    requires |b0| == |b1| == |s0| == |s1| == |yN| == |v2N|
    requires lb0 == Loads(b0) && lb1 == Loads(b1) && ls0 == Loads(s0) && ls1 == Loads(s1)
    requires l0 == Shifted(lb0, -(z as int)) && r0 == Plus(Products(Shifted(lb1, z), yN), Scaled(v2N, z2))
    requires r1 == Products(ls1, yN)
    requires c1 == Dot(l0, r1) + Dot(ls0, r0)
    requires t1 == T1(b0, b1, s0, s1, Constant(|b0|, z), yN, v2N, z2)
    ensures t1 == c1 % N
  {
    var e3, e12 := Dot(l0, r1), Dot(ls0, r0);
    var z1N := Constant(|b0|, z);
    var u1, u2, u3 := T11(s0, b1, z1N, yN), T12(s0, v2N, z2), T13(b0, s1, z1N, yN);
    var a1, d1, w := Products(ls0, yN), Shifted(lb1, z), Scaled(v2N, z2);
    var e1, e2 := Dot(a1, d1), Dot(ls0, w);
    FirstTerm(s0, b1, yN, z, ls0, lb1, a1, d1, u1, e1);
    SecondTerm(s0, v2N, z2, ls0, w, u2, e2);
    ThirdTerm(b0, s1, yN, z, lb0, ls1, l0, r1, u3, e3);
    SplitR0(ls0, lb1, yN, v2N, z, z2, a1, d1, w, r0);
    SumOfThree(u1, u2, u3, e1, e2, e3, e12, c1, t1);
  }

  /** Adding three inner products known modulo n. */
  lemma SumOfThree(u1: Scalar, u2: Scalar, u3: Scalar, e1: int, e2: int, e3: int, e12: int, c: int, t: Scalar)
    requires u1 == e1 % N && u2 == e2 % N && u3 == e3 % N && t == AddInP(AddInP(u1, u2), u3)
    requires e12 == e1 + e2 && c == e3 + e12
    ensures t == c % N
  {
    var first := AddInP(u1, u2);
    AddInPOfReduced(u1, u2, e1, e2);
    AddInPOfReduced(first, u3, e12, e3);
  }

  /** <s_0 ∘ y^d, b_1 + z 1^d> as <Load(s_0) y^d, Load(b_1) + z>. */
  lemma FirstTerm(s0: seq<int>, b1: seq<int>, yN: seq<Scalar>, z: Scalar, ls0: seq<int>, lb1: seq<int>,
                  a1: seq<int>, d1: seq<int>, u1: Scalar, e1: int)
    requires |s0| == |b1| <= |yN| && ls0 == Loads(s0) && lb1 == Loads(b1)
    requires a1 == Products(ls0, yN) && d1 == Shifted(lb1, z)
    requires u1 == T11(s0, b1, Constant(|s0|, z), yN) && e1 == Dot(a1, d1)
    ensures u1 == e1 % N
  {
    var left, right := Hadamard(s0, yN), VecAdd(b1, Constant(|s0|, z));
    HadamardLifted(s0, yN, ls0, a1, left);
    ShiftLifted(b1, Constant(|s0|, z), z, lb1, d1, right, false);
    InnerProductLifted(left, right, a1, d1);
  }

  /** <s_0, z^2 2^d> as <Load(s_0), z^2 2^d>. */
  lemma SecondTerm(s0: seq<int>, v2N: seq<Scalar>, z2: Scalar, ls0: seq<int>, w: seq<int>, u2: Scalar, e2: int)
    requires |s0| <= |v2N| && ls0 == Loads(s0) && w == Scaled(v2N, z2)
    requires u2 == T12(s0, v2N, z2) && e2 == Dot(ls0, w)
    ensures u2 == e2 % N
  {
    var right := Scale(v2N, z2);
    LoadsLifted(s0, ls0);
    ScaleLifted(v2N, z2, w, right);
    InnerProductLifted(s0, right, ls0, w);
  }

  /** <b_0 - z 1^d, s_1 ∘ y^d> as <l_0, r_1>. */
  lemma ThirdTerm(b0: seq<int>, s1: seq<int>, yN: seq<Scalar>, z: Scalar, lb0: seq<int>, ls1: seq<int>,
                  l0: seq<int>, r1: seq<int>, u3: Scalar, e3: int)
    requires |b0| == |s1| <= |yN| && lb0 == Loads(b0) && ls1 == Loads(s1)
    requires l0 == Shifted(lb0, -(z as int)) && r1 == Products(ls1, yN)
    requires u3 == T13(b0, s1, Constant(|b0|, z), yN) && e3 == Dot(l0, r1)
    ensures u3 == e3 % N
  {
    var left, right := VecSub(b0, Constant(|b0|, z)), Hadamard(s1, yN);
    SubLifted(b0, Constant(|b0|, z), z, lb0, l0, left);
    HadamardLifted(s1, yN, ls1, r1, right);
    InnerProductLifted(left, right, l0, r1);
  }

  /** <Load(s_0), r_0> splits into the first two terms of t_1. */
  lemma SplitR0(ls0: seq<int>, lb1: seq<int>, yN: seq<Scalar>, v2N: seq<Scalar>, z: Scalar, z2: Scalar,
                a1: seq<int>, d1: seq<int>, w: seq<int>, r0: seq<int>)
    requires |ls0| == |lb1| == |yN| == |v2N|
    requires a1 == Products(ls0, yN) && d1 == Shifted(lb1, z) && w == Scaled(v2N, z2)
    requires r0 == Plus(Products(d1, yN), w)
    ensures Dot(ls0, r0) == Dot(a1, d1) + Dot(ls0, w)
  {
    var u, p, q := Products(ls0, r0), Products(a1, d1), Products(ls0, w);
    forall i | 0 <= i < |ls0| ensures u[i] == p[i] + q[i] {
      var s, d, y, c := ls0[i], d1[i], yN[i], w[i];
      assert r0[i] == d * y + c;
      assert s * (d * y + c) == (s * y) * d + s * c;
    }
    SumAdd(u, p, q);
  }

  // ---------------------------------------------------------------------------------
  // the t_1 discrepancy
  // ---------------------------------------------------------------------------------

  /** The t_1 calculateT computes exceeds the x coefficient of <zeta, eta> by
      2 z <s_1, y^d>. */
  lemma T1Excess(b0: seq<int>, b1: seq<int>, s0: seq<int>, s1: seq<int>, yN: seq<Scalar>, v2N: seq<Scalar>,
                 z: Scalar, z2: Scalar, z1N: seq<int>, t1w: Scalar, t1: Scalar)
    requires |b0| == |b1| == |s0| == |s1| == |yN| == |v2N| && z1N == Constant(|b0|, z)
    requires t1w == T1AsWritten(b0, b1, s0, s1, z1N, yN, v2N, z2) && t1 == T1(b0, b1, s0, s1, z1N, yN, v2N, z2)
    ensures t1w == (t1 + 2 * z * Dot(Loads(s1), yN)) % N
  {
    var first := T1Head(s0, b1, z1N, yN, v2N, z2);
    var u3, w3 := T13(b0, s1, z1N, yN), T13AsWritten(b0, s1, z1N, yN);
    ExcessOf(b0, s1, yN, z, z1N, first, u3, w3, t1w, t1);
  }

  /** T1Excess once t_1 and its as-written value are split into t11 + t12 and the third term. */
  lemma ExcessOf(b0: seq<int>, s1: seq<int>, yN: seq<Scalar>, z: Scalar, z1N: seq<int>, first: Scalar,
                 u3: Scalar, w3: Scalar, t1w: Scalar, t1: Scalar)
    requires |b0| == |s1| == |yN| && z1N == Constant(|b0|, z)
    requires u3 == T13(b0, s1, z1N, yN) && w3 == T13AsWritten(b0, s1, z1N, yN)
    requires t1w == AddInP(first, w3) && t1 == AddInP(first, u3)
    ensures t1w == (t1 + 2 * z * Dot(Loads(s1), yN)) % N
  {
    var e3 := Dot(Shifted(Loads(b0), -(z as int)), Products(Loads(s1), yN));
    ThirdTermsApart(b0, s1, yN, z, z1N, u3, w3, Dot(Loads(s1), yN), 2 * z * Dot(Loads(s1), yN), e3);
    ExcessResidue(first, u3, w3, e3, 2 * z * Dot(Loads(s1), yN), t1w, t1);
  }

  /** The third terms of the two t_1 read as integers e_3 and e_3 + 2 z <s_1, y^d>. */
  lemma ThirdTermsApart(b0: seq<int>, s1: seq<int>, yN: seq<Scalar>, z: Scalar, z1N: seq<int>, u3: Scalar,
                        w3: Scalar, d: int, ex: int, e3: int)
    requires |b0| == |s1| <= |yN| && z1N == Constant(|b0|, z)
    requires u3 == T13(b0, s1, z1N, yN) && w3 == T13AsWritten(b0, s1, z1N, yN) && d == Dot(Loads(s1), yN)
    requires ex == 2 * z * d && e3 == Dot(Shifted(Loads(b0), -(z as int)), Products(Loads(s1), yN))
    ensures u3 == e3 % N && w3 == (e3 + ex) % N
  {
    var lb0, ls1 := Loads(b0), Loads(s1);
    var l0, a, r1 := Shifted(lb0, -(z as int)), Shifted(lb0, z), Products(ls1, yN);
    var e := Dot(a, r1);
    ThirdTerm(b0, s1, yN, z, lb0, ls1, l0, r1, u3, e3);
    ThirdTermAsWritten(b0, s1, yN, z, lb0, ls1, a, r1, w3, e);
    ShiftExcess(lb0, r1, z, a, l0, d, e, e3, ex);
  }

  /** <b_0 + z 1^d, s_1 ∘ y^d> as <Load(b_0) + z, r_1>. */
  lemma ThirdTermAsWritten(b0: seq<int>, s1: seq<int>, yN: seq<Scalar>, z: Scalar, lb0: seq<int>, ls1: seq<int>,
                           a: seq<int>, r1: seq<int>, w3: Scalar, e: int)
    requires |b0| == |s1| <= |yN| && lb0 == Loads(b0) && ls1 == Loads(s1) && r1 == Products(ls1, yN)
    requires a == Shifted(lb0, z) && w3 == T13AsWritten(b0, s1, Constant(|b0|, z), yN)
    requires e == Dot(a, r1)
    ensures w3 == e % N
  {
    var left, right := VecAdd(b0, Constant(|b0|, z)), Hadamard(s1, yN);
    ShiftLifted(b0, Constant(|b0|, z), z, lb0, a, left, false);
    HadamardLifted(s1, yN, ls1, r1, right);
    InnerProductLifted(left, right, a, r1);
  }

  /** Adding z instead of subtracting it adds 2 z Σ r to the dot product. */
  lemma ShiftExcess(l: seq<int>, r: seq<int>, z: int, a: seq<int>, l0: seq<int>, d: int, e: int, e3: int, ex: int)
    requires |l| == |r| && d == Sum(r) && a == Shifted(l, z) && l0 == Shifted(l, -z)
    requires e == Dot(a, r) && e3 == Dot(l0, r) && ex == 2 * z * d
    ensures e == e3 + ex
  {
    var u, v := Products(a, r), Products(l0, r);
    forall i | 0 <= i < |l| ensures u[i] == v[i] + (2 * z) * r[i] {
      var k, b := l[i], r[i];
      assert (k + z) * b == (k + -z) * b + (2 * z) * b;
    }
    SumLinear(u, v, r, 2 * z);
  }

  /** Two sums that share a first summand and differ by an excess in the second. */
  lemma ExcessResidue(first: Scalar, u: Scalar, w: Scalar, e: int, excess: int, sw: Scalar, su: Scalar)
    requires u == e % N && w == (e + excess) % N && sw == AddInP(first, w) && su == AddInP(first, u)
    ensures sw == (su + excess) % N
  {
    AddInPOfReduced(first, w, first, e + excess);
    AddInPOfReduced(first, u, first, e);
    ModAddLeft(first + e, excess);
    assert first + (e + excess) == (first + e) + excess;
  }


  /** One bit (d = 1, value 1), s_0 = 0, s_1 = 1 and every challenge 1: the responses give
      <zeta, eta> = 0, while t_0 + x t_1 + x^2 t_2 with the t_1 of calculateT is 2, so the
      check g^<zeta, eta> h^tau_x = V^(z^2) g^delta T_1^x T_2^(x^2) fails for an honest prover. */
  lemma T1Counterexample()
    ensures InnerProduct(Zeta([1], [1], [0], 1), Eta([0], [1], [1], [1], [1], 1, 1)) == 0
    ensures T0([1], [0], [1], [1], [1], 1) == 0 && T2([0], [1], [1]) == 0
    ensures T1AsWritten([1], [0], [0], [1], [1], [1], [1], 1) == 2
    ensures T1([1], [0], [0], [1], [1], [1], [1], 1) == 0
  {
    CounterexampleResponses();
    CounterexampleEnds();
    CounterexampleT1AsWritten();
    CounterexampleT1();
  }

  lemma CounterexampleResponses()
    ensures InnerProduct(Zeta([1], [1], [0], 1), Eta([0], [1], [1], [1], [1], 1, 1)) == 0
  {
  }

  lemma CounterexampleEnds()
    ensures T0([1], [0], [1], [1], [1], 1) == 0 && T2([0], [1], [1]) == 0
  {
  }

  lemma CounterexampleT1AsWritten()
    ensures T1AsWritten([1], [0], [0], [1], [1], [1], [1], 1) == 2
  {
    var one: seq<int> := [1];
    assert Constant(1, 1) == one;
    assert Loads(one) == one;
    assert Dot(one, one) == 1;
    CounterexampleT1();
    T1Excess(one, [0], [0], one, [1], [1], 1, 1, one, T1AsWritten(one, [0], [0], one, one, [1], [1], 1),
             T1(one, [0], [0], one, one, [1], [1], 1));
  }

  lemma CounterexampleT1()
    ensures T1([1], [0], [0], [1], [1], [1], [1], 1) == 0
  {
  }
}
