/** The any-out-of-many verifier (any_proofs/verifier.go): it copies the transcript into
    its fields, rebuilds y^N, z 1^N, 2^N and 1^N from the transmitted challenges, and folds
    the transcript into a single right-hand-side point. It returns that point and
    decides nothing; comparing it with a left-hand side is the caller's business. */
module AnyVerifier {
  import opened Field
  import opened Group
  import opened Vectors
  import opened Commitments
  import opened Setup
  import AnyAlgebra
  import AnyProver

  // ---------------------------------------------------------------------------------
  // point sums
  // ---------------------------------------------------------------------------------

  /** Adding two points known through their logarithms modulo n. */
  lemma AddLogs(p: Point, q: Point, d: int, e: int)
    requires p.log == d % N && q.log == e % N
    ensures PointAdd(p, q).log == (d + e) % N
  {
    ModAdd(d, e);
  }

  /** Multiplying a point known through its logarithm modulo n by a scalar. */
  lemma CommitLog(p: Point, d: int, s: Scalar)
    requires p.log == d % N
    ensures Commit(p, s).log == (d * s) % N
  {
    ModMulLeft(d, s);
  }

  /** A multiple by Neg_Zp(s) is the point's multiple by -s. */
  lemma NegLog(g: int, s: Scalar)
    ensures (g * NegZp(s)) % N == (-(g * s)) % N
  {
    var r := NegZp(s);
    assert r == (N - s) % N;
    assert g * r == r * g;
    ModMulLeft(N - s, g);
    assert (N - s) * g == (-(g * s)) + g * N;
    ModMultiple(g, -(g * s));
  }

  /** A multiple of x^2 taken through Mul_In_P is the multiple of the integer x^2. */
  lemma MulSquare(h: int, x: Scalar)
    ensures (h * MulInP(x, x)) % N == (h * (x * x)) % N
  {
    var x2 := MulInP(x, x);
    assert x2 == (x * x) % N;
    assert h * x2 == x2 * h;
    ModMulLeft(x * x, h);
    assert (x * x) * h == h * (x * x);
  }

  /** Commit(p, Neg_Zp(s)) has logarithm -p s. */
  lemma NegCommitLog(p: Point, s: Scalar)
    ensures Commit(p, NegZp(s)).log == (-(p.log * s)) % N
  {
    NegLog(p.log, s);
  }


  /** The sum of the points of v, from the point at infinity. */
  function PointSum(v: seq<Point>): Point
    decreases |v|
  {
    if |v| == 0 then Identity else PointAdd(PointSum(v[..|v| - 1]), v[|v| - 1])
  }

  /** A point sum is the point whose logarithm is the sum of the logarithms. */
  lemma {:induction false} PointSumIsSum(v: seq<Point>)
    ensures PointSum(v).log == Sum(Logs(v)) % N
  {
    if |v| > 0 {
      var k := |v| - 1;
      PointSumIsSum(v[..k]);
      assert Logs(v[..k]) == Logs(v)[..k];
      assert v[k].log == (v[k].log as int) % N;
      AddLogs(PointSum(v[..k]), v[k], Sum(Logs(v[..k])), v[k].log);
    }
  }

  /** Extending a prefix by one point adds that point's logarithm to the sum of logarithms. */
  lemma SumLogsStep(v: seq<Point>, i: nat)
    requires i < |v|
    ensures Sum(Logs(v[..i + 1])) == Sum(Logs(v[..i])) + v[i].log
  {
    assert v[..i + 1][..i] == v[..i];
    assert Logs(v[..i + 1])[..i] == Logs(v[..i]);
  }

  /** The loop of Validate that forms Sum_gh = Σ_i (G_i + H_i), one G and one H at a time. */
  method SumGH(g: seq<Point>, h: seq<Point>) returns (sum: Point)
    requires |g| <= |h|
    ensures sum.log == (Sum(Logs(g)) + Sum(Logs(h[..|g|]))) % N
  {
    sum := Identity;
    for i := 0 to |g|
      invariant sum.log == (Sum(Logs(g[..i])) + Sum(Logs(h[..i]))) % N
    {
      var sg, sh := Sum(Logs(g[..i])), Sum(Logs(h[..i]));
      SumLogsStep(g, i);
      SumLogsStep(h, i);
      AddLogs(sum, g[i], sg + sh, g[i].log);
      sum := PointAdd(sum, g[i]);
      AddLogs(sum, h[i], sg + sh + g[i].log, h[i].log);
      sum := PointAdd(sum, h[i]);
      assert sg + sh + g[i].log + h[i].log == Sum(Logs(g[..i + 1])) + Sum(Logs(h[..i + 1]));
    }
    assert g[..|g|] == g;
    assert Logs(g[..|g|]) == Logs(g);
  }

  /** The loop of Validate that adds up the points of Pub_Key_yN. */
  method SumPoints(v: seq<Point>) returns (sum: Point)
    ensures sum == PointSum(v)
    ensures sum.log == Sum(Logs(v)) % N
  {
    sum := Identity;
    for i := 0 to |v|
      invariant sum == PointSum(v[..i])
    {
      assert v[..i + 1][..i] == v[..i];
      sum := PointAdd(sum, v[i]);
    }
    assert v[..|v|] == v;
    PointSumIsSum(v);
  }

  /** Σ_i (y^i·P_i) has logarithm <y^N, log P>. */
  lemma ScaledKeysSum(keys: seq<Point>, yN: seq<Scalar>, scaled: seq<Point>)
    requires |yN| <= |keys| && |scaled| == |yN|
    requires forall i :: 0 <= i < |yN| ==> scaled[i] == Commit(keys[i], yN[i])
    ensures Sum(Logs(scaled)) % N == Dot(yN, Logs(keys)) % N
  {
    var u, w := Logs(scaled), Products(yN, Logs(keys));
    forall i | 0 <= i < |u| ensures u[i] % N == w[i] % N {
      ScaledKeyLog(keys[i], yN[i], scaled[i]);
    }
    SumCongruent(u, w);
  }

  /** One entry of Pub_Key_yN: y^i·P_i has logarithm y^i log P_i. */
  lemma ScaledKeyLog(key: Point, y: Scalar, scaled: Point)
    requires scaled == Commit(key, y)
    ensures (scaled.log as int) % N == (y * key.log) % N
  {
    assert key.log * y == y * key.log;
  }

  /** Sums of congruent summands are congruent. */
  lemma AddCongruent(a: int, b: int, c: int, e: int)
    requires a % N == c % N && b % N == e % N
    ensures (a + b) % N == (c + e) % N
  {
    ModAdd(a, b);
    ModAdd(c, e);
  }

  // ---------------------------------------------------------------------------------
  // delta
  // ---------------------------------------------------------------------------------

  /** Validate's delta = <z 1^N ∘ y^N, z 1^N + 1^N>, computed on the verifier's vectors. */
  function Delta(z1N: seq<int>, v1N: seq<int>, yN: seq<int>): Scalar
    requires |z1N| <= |v1N| && |z1N| <= |yN|
  {
    InnerProduct(Hadamard(z1N, yN), VecAdd(z1N, v1N))
  }

  /** On the vectors ParseZKP builds, delta = (z + z^2) Σ_{i < N} y^i modulo n. */
  lemma DeltaValue(y: Scalar, z: Scalar, n: int)
    ensures Delta(ScalarVector(z, n), ScalarVector(1, n), ExpVector(y, n))
         == ((z + z * z) * Sum(ExpVector(y, n)[..Max0(n)])) % N
  {
    var m := Max0(n);
    var z1N, v1N, yN := ScalarVector(z, n), ScalarVector(1, n), ExpVector(y, n);
    var hp, sum := Hadamard(z1N, yN), VecAdd(z1N, v1N);
    var ys := yN[..m];
    var c := z + z * z;
    var w := Scaled(ys, c);
    var terms := Products(hp, sum);
    forall i | 0 <= i < m ensures terms[i] % N == w[i] % N {
      DeltaTerm(z, ys[i], hp[i], sum[i]);
    }
    calc {
      Delta(z1N, v1N, yN);
      InnerProduct(hp, sum);
      { InnerProductIsDot(hp, sum); }
      Sum(terms) % N;
      { SumCongruent(terms, w); }
      Sum(w) % N;
      { ScaleSum(ys, c); }
      (c * Sum(ys)) % N;
    }
  }

  /** One term of delta: (z y mod n)((z + 1) mod n) = (z + z^2) y modulo n. */
  lemma DeltaTerm(z: Scalar, y: Scalar, h: Scalar, s: Scalar)
    requires h == MulInP(z, y) && s == AddInP(z, 1)
    ensures (h * s) % N == ((z + z * z) * y) % N
  {
    assert h == (z * y) % N;
    assert s == (z + 1) % N;
    ModMul(z * y, z + 1);
    DeltaProduct(z, y);
  }

  lemma DeltaProduct(z: int, y: int)
    ensures (z * y) * (z + 1) == (z + z * z) * y
  {
    calc {
      (z * y) * (z + 1);
      z * y * z + z * y;
      (z * z) * y + z * y;
    }
  }

  /** Σ c·u_i = c·Σ u_i. */
  lemma ScaleSum(u: seq<int>, c: int)
    ensures Sum(Scaled(u, c)) == c * Sum(u)
  {
    var zero: seq<int> := seq(|u|, i requires 0 <= i < |u| => 0);
    SumLinear(Scaled(u, c), zero, u, c);
    SumConstant(|u|, 0);
  }

  /** One term of t_0 for a bit b and its complement c: (b + z)((c + z) y) = (z + z^2) y
      modulo n. */
  lemma T0Term(b: int, c: Scalar, z: Scalar, y: Scalar, l: Scalar, r: Scalar)
    requires (b == 0 || b == 1) && b + c == 1
    requires l == AddInP(b, z) && r == MulInP(AddInP(c, z), y)
    ensures (l * r) % N == ((z + z * z) * y) % N
  {
    assert l == (b + z) % N;
    var cz := AddInP(c, z);
    assert cz == (c + z) % N;
    assert r == (cz * y) % N;
    ModMulLeft(c + z, y);
    ModMul(b + z, (c + z) * y);
    BitProduct(b, c, z, y);
  }

  /** (b + z)((c + z) y) = (z + z^2) y when {b, c} = {0, 1}. */
  lemma BitProduct(b: int, c: int, z: int, y: int)
    requires (b == 0 && c == 1) || (b == 1 && c == 0)
    ensures (b + z) * ((c + z) * y) == (z + z * z) * y
  {
    if b == 0 {
      assert (b + z) * ((c + z) * y) == z * ((1 + z) * y);
    } else {
      assert (b + z) * ((c + z) * y) == (1 + z) * (z * y);
    }
  }

  /** For a bit selector b_0 and its complement b_1, the prover's constant coefficient
      t_0 = <b_0 + z 1^N, (b_1 + z 1^N) ∘ y^N> is the verifier's delta. */
  lemma DeltaIsT0(b0: seq<int>, y: Scalar, z: Scalar, n: int)
    requires |b0| == n && IsBits(b0)
    ensures AnyAlgebra.T0(b0, Complement(b0), Constant(n, z), ExpVector(y, n))
         == Delta(ScalarVector(z, n), ScalarVector(1, n), ExpVector(y, n))
  {
    var b1, z1N, yN := Complement(b0), Constant(n, z), ExpVector(y, n);
    ComplementOfBits(b0);
    var l, r := VecAdd(b0, z1N), Hadamard(VecAdd(b1, z1N), yN);
    var ys, c := yN[..n], z + z * z;
    var w := Scaled(ys, c);
    forall i | 0 <= i < n ensures Products(l, r)[i] % N == w[i] % N {
      T0Term(b0[i], b1[i], z, ys[i], l[i], r[i]);
    }
    var t0 := AnyAlgebra.T0(b0, b1, z1N, yN);
    assert t0 == InnerProduct(l, r);
    CongruentProducts(l, r, w, t0);
    ScaleSum(ys, c);
    DeltaValue(y, z, n);
  }

  /** An inner product whose entrywise products are congruent to w is Σ w mod n. */
  lemma CongruentProducts(l: seq<Scalar>, r: seq<Scalar>, w: seq<int>, t: Scalar)
    requires |l| <= |r| && |w| == |l| && t == InnerProduct(l, r)
    requires forall i :: 0 <= i < |l| ==> Products(l, r)[i] % N == w[i] % N
    ensures t == Sum(w) % N
  {
    InnerProductIsDot(l, r);
    SumCongruent(Products(l, r), w);
  }

  /** Σ_i a_i z = z Σ_i a_i. */
  lemma DotConstant(a: seq<int>, n: nat, z: int)
    requires |a| <= n
    ensures Dot(a, Constant(n, z)) == z * Sum(a)
  {
    forall i | 0 <= i < |a| ensures Products(a, Constant(n, z))[i] == Scaled(a, z)[i] {
      assert a[i] * z == z * a[i];
    }
    assert Products(a, Constant(n, z)) == Scaled(a, z);
    ScaleSum(a, z);
  }

  /** A vector commitment of z 1^N is z times the sum of the generators. */
  lemma MultiExpConstant(g: seq<Point>, n: nat, z: Scalar)
    requires |g| <= n
    ensures MultiExp(g, Constant(n, z)).log == (z * Sum(Logs(g))) % N
  {
    var zs := Constant(n, z);
    MultiExpIsDot(g, zs);
    assert Loads(zs) == zs;
    DotConstant(Logs(g), n, z);
  }

  /** z·Σ_i (G_i + H_i) is the Pedersen vector commitment of z 1^N under G and H. */
  lemma SumGHIsPedersen(g: seq<Point>, h: seq<Point>, sum: Point, z: Scalar, zs: seq<int>)
    requires |g| <= |h| && zs == Constant(|g|, z)
    requires sum.log == (Sum(Logs(g)) + Sum(Logs(h[..|g|]))) % N
    ensures Commit(sum, z) == PedersenMultiExp(g, h, zs, zs)
  {
    var n := |g|;
    var sg, sh := Sum(Logs(g)), Sum(Logs(h[..n]));
    CommitLog(sum, sg + sh, z);
    assert (sg + sh) * z == z * sg + z * sh;
    var mg, mh := MultiExp(g, zs), MultiExp(h[..n], zs);
    MultiExpConstant(g, n, z);
    MultiExpConstant(h[..n], n, z);
    AddLogs(mg, mh, z * sg, z * sh);
    PedersenMultiExpSplit(g, h, zs, zs);
  }

  // ---------------------------------------------------------------------------------
  // completeness of steps (1) and (4)
  // ---------------------------------------------------------------------------------

  /** For T_1 = t_1 V + tau_1 U and T_2 = t_2 V + tau_2 U, an inner product ip = t(x) with
      constant coefficient delta and tau_x = tau_1 x + tau_2 x^2, the terms of steps (1) and
      (4) add up to ip·V: delta·V + x·T_1 + x^2·T_2 - tau_x·U = ip·V. */
  lemma PolynomialStep(genV: Point, genU: Point, delta: Scalar, t1: Scalar, t2: Scalar, tau1: int, tau2: int,
                       x: Scalar, com1: Point, com2: Point, ip: Scalar, tauX: Scalar)
    requires com1 == PedersenCommit(genV, genU, t1, tau1) && com2 == PedersenCommit(genV, genU, t2, tau2)
    requires ip == AnyProver.PolyAt(delta, t1, t2, x) && tauX == AnyProver.TauAt(tau1, tau2, x)
    ensures PointAdd(PointAdd(Commit(genV, delta), PedersenCommit(com1, com2, x, MulInP(x, x))),
                     Commit(genU, NegZp(tauX)))
         == Commit(genV, ip)
  {
    var v, u: int := genV.log, genU.log;
    var cd, pc, cn := Commit(genV, delta), PedersenCommit(com1, com2, x, MulInP(x, x)), Commit(genU, NegZp(tauX));
    MulSquare(com2.log, x);
    AddCongruent(com1.log * x, com2.log * MulInP(x, x), com1.log * x, com2.log * (x * x));
    NegCommitLog(genU, tauX);
    var r1, r2 := Load(tau1), Load(tau2);
    var c1, c2 := v * t1 + u * r1, v * t2 + u * r2;
    CommittedTerms(com1.log, com2.log, c1, c2, x);
    AddLogs(cd, pc, v * delta, c1 * x + c2 * (x * x));
    AddLogs(PointAdd(cd, pc), cn, v * delta + (c1 * x + c2 * (x * x)), -(u * tauX));
    PolynomialExponent(v, u, delta, t1, t2, r1, r2, x, ip, tauX);
  }

  /** Completeness of steps (1) and (4): on the transcript of an honest prover, the
      verifier's delta·V + x·T1 + x^2·T2 - tau_x·U is t(x)·V, the commitment to the
      prover's inner product with no blinding left. */
  lemma HonestPolynomialStep(p: AnyProver.Prover, env: Env, alphaDraw: int, betaDraw: int,
                             tau1Draw: int, tau2Draw: int, rsDraw: int,
                             a: Point, b: Point, y: Scalar, z: Scalar, yN: seq<Scalar>, z1N: seq<int>,
                             t1: Scalar, t2: Scalar, c1: Point, c2: Point, e: Point, x: Scalar,
                             eta: seq<Scalar>, zeta: seq<Scalar>, ip: Scalar, mu: Scalar, tauX: Scalar, fs: Scalar)
    requires p.Valid() && |p.pubVecKey| == p.n
    requires p.Committed(env, alphaDraw, betaDraw, tau1Draw, tau2Draw, rsDraw, a, b, y, z, yN, z1N, t1, t2, c1, c2, e, x)
    requires p.Responded(alphaDraw, betaDraw, tau1Draw, tau2Draw, rsDraw, y, z, x, eta, zeta, ip, mu, tauX, fs)
    ensures PointAdd(PointAdd(Commit(p.genV, Delta(ScalarVector(z, p.n), ScalarVector(1, p.n), ExpVector(y, p.n))),
                              PedersenCommit(c1, c2, x, MulInP(x, x))),
                     Commit(p.genU, NegZp(tauX)))
         == Commit(p.genV, ip)
  {
    p.RespondedQuadratic(alphaDraw, betaDraw, tau1Draw, tau2Draw, rsDraw, y, z, x, eta, zeta, ip, mu, tauX, fs);
    DeltaIsT0(p.b0, y, z, p.n);
    var delta := Delta(ScalarVector(z, p.n), ScalarVector(1, p.n), ExpVector(y, p.n));
    assert ip == AnyProver.PolyAt(delta, t1, t2, x);
    PolynomialStep(p.genV, p.genU, delta, t1, t2, tau1Draw, tau2Draw, x, c1, c2, ip, tauX);
  }

  /** The logarithms of x·T_1 + x^2·T_2 taken from T_1, T_2 modulo n, or from their
      unreduced values. */
  lemma CommittedTerms(l1: Scalar, l2: Scalar, c1: int, c2: int, x: Scalar)
    requires l1 == c1 % N && l2 == c2 % N
    ensures (l1 * x + l2 * (x * x)) % N == (c1 * x + c2 * (x * x)) % N
  {
    ModMulLeft(c1, x);
    ModMulLeft(c2, x * x);
    AddCongruent(l1 * x, l2 * (x * x), c1 * x, c2 * (x * x));
  }

  /** The exponent identity behind PolynomialStep. */
  lemma PolynomialExponent(v: int, u: int, delta: int, t1: int, t2: int, r1: int, r2: int, x: Scalar,
                           ip: Scalar, tauX: Scalar)
    requires ip == (delta + x * t1 + x * x * t2) % N && tauX == (r1 * x + r2 * (x * x)) % N
    ensures (v * delta + ((v * t1 + u * r1) * x + (v * t2 + u * r2) * (x * x)) + -(u * tauX)) % N == (v * ip) % N
  {
    var p := delta + x * t1 + x * x * t2;
    var q := r1 * x + r2 * (x * x);
    assert (v * delta + ((v * t1 + u * r1) * x + (v * t2 + u * r2) * (x * x))) == v * p + u * q;
    assert (v * ip) % N == (v * p) % N by {
      assert v * ip == ip * v;
      ModMulLeft(p, v);
      assert p * v == v * p;
    }
    assert (-(u * tauX)) % N == (-(u * q)) % N by {
      ModMulLeft(q, u);
      assert q * u == u * q && tauX * u == u * tauX;
      NegCongruent(u * tauX, u * q);
    }
    AddCongruent(v * p + u * q, -(u * tauX), v * p + u * q, -(u * q));
  }

  /** Negation respects congruence modulo n. */
  lemma NegCongruent(a: int, b: int)
    requires a % N == b % N
    ensures (-a) % N == (-b) % N
  {
    var r := a % N;
    ModMultiple(-(a / N), -r);
    ModMultiple(-(b / N), -r);
    assert -a == -(a / N) * N + -r;
    assert -b == -(b / N) * N + -r;
  }

  // ---------------------------------------------------------------------------------
  // the right-hand side
  // ---------------------------------------------------------------------------------

  /** The logarithm of the point Validate returns, read off the protocol:
      delta·V + x·T_1 + x^2·T_2 + A + x·B + z·Σ_i (G_i + H_i) - mu·U + f_s·Pck + x·E
      + z·Σ_i y^i·P_i - tau_x·U, over the first |G| generators H and the first |y^N| keys. */
  function RhsLog(genV: Point, genU: Point, publicCk: Point, g: seq<Point>, h: seq<Point>, keys: seq<Point>,
                  yN: seq<Scalar>, a: Point, b: Point, com1: Point, com2: Point, e: Point,
                  delta: Scalar, x: Scalar, z: Scalar, mu: Scalar, tauX: Scalar, fs: Scalar): int
    requires |g| <= |h| && |yN| <= |keys|
  {
    genV.log * delta + (com1.log * x + com2.log * (x * x))
    + (a.log + b.log * x) + (Sum(Logs(g)) + Sum(Logs(h[..|g|]))) * z + -(genU.log * mu)
    + (publicCk.log * fs + e.log * x) + Dot(yN, Logs(keys)) * z + -(genU.log * tauX)
  }

  /** The body of Validate after Pub_Key_yN = (y^i·P_i)_i: steps (1) to (4) added up. */
  method Fold(genV: Point, genU: Point, publicCk: Point, g: seq<Point>, h: seq<Point>, keys: seq<Point>,
              pubKeyYN: seq<Point>, yN: seq<Scalar>, z1N: seq<int>, v1N: seq<int>,
              a: Point, b: Point, com1: Point, com2: Point, e: Point,
              x: Scalar, z: Scalar, mu: Scalar, tauX: Scalar, fs: Scalar)
    returns (rhs: Point)
    requires |g| <= |h| && |yN| <= |keys| && |z1N| <= |v1N| && |z1N| <= |yN|
    requires |pubKeyYN| == |yN| && forall i :: 0 <= i < |yN| ==> pubKeyYN[i] == Commit(keys[i], yN[i])
    ensures rhs.log == RhsLog(genV, genU, publicCk, g, h, keys, yN, a, b, com1, com2, e,
                              Delta(z1N, v1N, yN), x, z, mu, tauX, fs) % N
  {
    var delta := Delta(z1N, v1N, yN);
    var d := genV.log * delta + (com1.log * x + com2.log * (x * x));
    rhs := StepOne(genV, com1, com2, z1N, v1N, yN, x);
    rhs := StepTwo(rhs, d, genU, g, h, a, b, x, z, mu);
    d := d + (a.log + b.log * x) + (Sum(Logs(g)) + Sum(Logs(h[..|g|]))) * z + -(genU.log * mu);
    rhs := StepThree(rhs, d, publicCk, keys, pubKeyYN, yN, e, x, z, fs);
    d := d + (publicCk.log * fs + e.log * x) + Dot(yN, Logs(keys)) * z;
    rhs := StepFour(rhs, d, genU, tauX);
  }

  /** Step (1) of Validate: delta = <z 1^N ∘ y^N, z 1^N + 1^N> and
      RHS = delta·V + x·T_1 + x^2·T_2. */
  method StepOne(genV: Point, com1: Point, com2: Point, z1N: seq<int>, v1N: seq<int>, yN: seq<Scalar>, x: Scalar)
    returns (rhs: Point)
    requires |z1N| <= |v1N| && |z1N| <= |yN|
    ensures rhs.log == (genV.log * Delta(z1N, v1N, yN) + (com1.log * x + com2.log * (x * x))) % N
  {
    var z1N1N := CalAddVec(z1N, v1N);
    var z1NYN := CalHPVec(z1N, yN);
    var delta := CalIPVec(z1NYN, z1N1N);
    var x2 := MulInP(x, x);
    var vDelta := Commit(genV, delta);
    var t1T2 := PedersenCommit(com1, com2, x, x2);
    MulSquare(com2.log, x);
    AddCongruent(com1.log * x, com2.log * MulInP(x, x), com1.log * x, com2.log * (x * x));
    AddLogs(vDelta, t1T2, genV.log * delta, com1.log * x + com2.log * (x * x));
    rhs := PointAdd(vDelta, t1T2);
  }

  /** Step (2) of Validate: adds A + x·B, z·Σ_i (G_i + H_i) and -mu·U. */
  method StepTwo(rhs0: Point, d: int, genU: Point, g: seq<Point>, h: seq<Point>, a: Point, b: Point,
                 x: Scalar, z: Scalar, mu: Scalar)
    returns (rhs: Point)
    requires |g| <= |h| && rhs0.log == d % N
    ensures rhs.log == (d + (a.log + b.log * x) + (Sum(Logs(g)) + Sum(Logs(h[..|g|]))) * z + -(genU.log * mu)) % N
  {
    var aBx := PedersenCommit(a, b, 1, x);
    assert aBx.log == (a.log + b.log * x) % N by {
      assert Load(1) == 1 && Load(x) == x;
      assert a.log * 1 == a.log;
    }
    var sumGH := SumGH(g, h);
    var sg := Sum(Logs(g)) + Sum(Logs(h[..|g|]));
    var gZ1NHZ1N := Commit(sumGH, z);
    CommitLog(sumGH, sg, z);
    var comMu := Commit(genU, NegZp(mu));
    NegCommitLog(genU, mu);
    var d1, d2 := a.log + b.log * x, sg * z;
    AddLogs(rhs0, aBx, d, d1);
    rhs := PointAdd(rhs0, aBx);
    AddLogs(rhs, gZ1NHZ1N, d + d1, d2);
    rhs := PointAdd(rhs, gZ1NHZ1N);
    AddLogs(rhs, comMu, d + d1 + d2, -(genU.log * mu));
    rhs := PointAdd(rhs, comMu);
  }

  /** Step (3) of Validate: adds f_s·Pck + x·E and z·Σ_i Pub_Key_yN_i. */
  method StepThree(rhs0: Point, d: int, publicCk: Point, keys: seq<Point>, pubKeyYN: seq<Point>, yN: seq<Scalar>,
                   e: Point, x: Scalar, z: Scalar, fs: Scalar)
    returns (rhs: Point)
    requires |yN| <= |keys| && rhs0.log == d % N
    requires |pubKeyYN| == |yN| && forall i :: 0 <= i < |yN| ==> pubKeyYN[i] == Commit(keys[i], yN[i])
    ensures rhs.log == (d + (publicCk.log * fs + e.log * x) + Dot(yN, Logs(keys)) * z) % N
  {
    var comSk := PedersenCommit(publicCk, e, fs, x);
    var sumKeys := SumPoints(pubKeyYN);
    ScaledKeysSum(keys, yN, pubKeyYN);
    var sp := Dot(yN, Logs(keys));
    var pubKeyZYN := Commit(sumKeys, z);
    CommitLog(sumKeys, sp, z);
    var d1 := publicCk.log * fs + e.log * x;
    AddLogs(rhs0, comSk, d, d1);
    rhs := PointAdd(rhs0, comSk);
    AddLogs(rhs, pubKeyZYN, d + d1, sp * z);
    rhs := PointAdd(rhs, pubKeyZYN);
  }

  /** Step (4) of Validate: adds -tau_x·U. */
  method StepFour(rhs0: Point, d: int, genU: Point, tauX: Scalar) returns (rhs: Point)
    requires rhs0.log == d % N
    ensures rhs.log == (d + -(genU.log * tauX)) % N
  {
    var comTaux := Commit(genU, NegZp(tauX));
    NegCommitLog(genU, tauX);
    AddLogs(rhs0, comTaux, d, -(genU.log * tauX));
    rhs := PointAdd(rhs0, comTaux);
  }

  // ---------------------------------------------------------------------------------
  // the verifier object
  // ---------------------------------------------------------------------------------

  /** A transcript with every point at infinity and every scalar 0, the value the
      verifier holds before one is handed to it. */
  const EmptyTranscript: AnyProver.Transcript :=
    AnyProver.Transcript(Identity, Identity, Identity, Identity, Identity, 0, 0, 0, [], [], 0, 0, 0, 0)

  class Verifier {
    // public parameters
    const publicCk: Point
    const genU: Point
    const genV: Point
    const genVecG: seq<Point>
    const genVecH: seq<Point>
    const n: int
    // the ring, set by the caller, and the keys scaled by y^N
    var pubVecKey: seq<Point>
    var pubKeyYN: seq<Point>
    // the proof, set by the caller
    var trans: AnyProver.Transcript
    // the values ParseZKP copies out of the proof
    var A: Point
    var B: Point
    var T1: Point
    var T2: Point
    var E: Point
    var y: Scalar
    var z: Scalar
    var x: Scalar
    var ip: Scalar
    var tauX: Scalar
    var mu: Scalar
    var fs: Scalar
    // the vectors rebuilt from the challenges
    var yN: seq<Scalar>
    var y2N: seq<Scalar>
    var z1N: seq<int>
    var v1N: seq<int>

    /** New: keeps the commitment key, U, V, the generator vectors and N; the generator G
        and k are not kept. Everything else starts empty or zero. */
    constructor (publicCk: Point, g: Point, u: Point, v: Point, gVector: seq<Point>, hVector: seq<Point>,
                 k: int, n: int)
      ensures this.publicCk == publicCk && genU == u && genV == v
      ensures genVecG == gVector && genVecH == hVector && this.n == n
      ensures pubVecKey == [] && pubKeyYN == [] && trans == EmptyTranscript
    {
      this.publicCk := publicCk;
      genU := u;
      genV := v;
      genVecH := hVector;
      genVecG := gVector;
      this.n := n;
      pubVecKey := [];
      pubKeyYN := [];
      trans := EmptyTranscript;
      A, B, T1, T2, E := Identity, Identity, Identity, Identity, Identity;
      y, z, x, ip, tauX, mu, fs := 0, 0, 0, 0, 0, 0, 0;
      yN, y2N, z1N, v1N := [], [], [], [];
    }

    /** ParseZKP: copies the proof into the fields, takes the challenges y, z, x as sent
        (they are not recomputed from the commitments), builds y^N, z 1^N, 2^N and 1^N,
        and returns what Validate returns. */
    method ParseZKP() returns (rhs: Point)
      requires |genVecG| <= |genVecH| && (if n > 1 then n else 1) <= |pubVecKey|
      modifies this
      ensures A == trans.A && B == trans.B && T1 == trans.T1 && T2 == trans.T2 && E == trans.E
      ensures tauX == trans.tauX && mu == trans.mu && ip == trans.ip && fs == trans.fs
      ensures x == trans.x && y == trans.y && z == trans.z
      ensures yN == ExpVector(y, n) && z1N == ScalarVector(z, n)
      ensures y2N == ExpVector(2, n) && v1N == ScalarVector(1, n)
      ensures pubVecKey == old(pubVecKey) && trans == old(trans)
      ensures |pubKeyYN| == |yN| && forall i :: 0 <= i < |yN| ==> pubKeyYN[i] == Commit(pubVecKey[i], yN[i])
      ensures rhs.log == RhsLog(genV, genU, publicCk, genVecG, genVecH, pubVecKey, yN, A, B, T1, T2, E,
                                Delta(z1N, v1N, yN), x, z, mu, tauX, fs) % N
    {
      Copy();
      rhs := Validate();
    }

    /** The field assignments of ParseZKP before it calls Validate. */
    method Copy()
      modifies this`A, this`B, this`T1, this`T2, this`E, this`tauX, this`mu, this`ip, this`fs,
               this`x, this`y, this`z, this`yN, this`z1N, this`y2N, this`v1N
      ensures A == trans.A && B == trans.B && T1 == trans.T1 && T2 == trans.T2 && E == trans.E
      ensures tauX == trans.tauX && mu == trans.mu && ip == trans.ip && fs == trans.fs
      ensures x == trans.x && y == trans.y && z == trans.z
      ensures yN == ExpVector(y, n) && z1N == ScalarVector(z, n)
      ensures y2N == ExpVector(2, n) && v1N == ScalarVector(1, n)
      ensures |yN| == (if n > 1 then n else 1) && |z1N| == |v1N| == Max0(n)
    {
      CopyCommitments();
      CopyScalars();
      BuildVectors();
    }

    /** The field copies at the head of ParseZKP: the commitments. */
    method CopyCommitments()
      modifies this`A, this`B, this`T1, this`T2, this`E
      ensures A == trans.A && B == trans.B && T1 == trans.T1 && T2 == trans.T2 && E == trans.E
    {
      A, B, T1, T2, E := trans.A, trans.B, trans.T1, trans.T2, trans.E;
    }

    /** The field copies at the head of ParseZKP: the responses and the challenges. */
    method CopyScalars()
      modifies this`tauX, this`mu, this`ip, this`fs, this`x, this`y, this`z
      ensures tauX == trans.tauX && mu == trans.mu && ip == trans.ip && fs == trans.fs
      ensures x == trans.x && y == trans.y && z == trans.z
    {
      tauX, mu, ip, fs := trans.tauX, trans.mu, trans.ip, trans.fs;
      x, y, z := trans.x, trans.y, trans.z;
    }

    /** y^N, z 1^N, 2^N and 1^N from the copied challenges. */
    method BuildVectors()
      modifies this`yN, this`z1N, this`y2N, this`v1N
      ensures yN == ExpVector(y, n) && z1N == ScalarVector(z, n)
      ensures y2N == ExpVector(2, n) && v1N == ScalarVector(1, n)
      ensures |yN| == (if n > 1 then n else 1) && |z1N| == |v1N| == Max0(n)
    {
      yN := GenerateExpScalarVector(y, n);
      z1N := GenerateScalarVector(z, n);
      y2N := GenerateExpScalarVector(2, n);
      v1N := GenerateScalarVector(1, n);
    }

    /** Validate: Pub_Key_yN = (y^i·P_i)_i, then the right-hand side of steps (1) to (4). */
    method Validate() returns (rhs: Point)
      requires |genVecG| <= |genVecH| && |yN| <= |pubVecKey| && |z1N| <= |v1N| && |z1N| <= |yN|
      modifies this`pubKeyYN
      ensures |pubKeyYN| == |yN| && forall i :: 0 <= i < |yN| ==> pubKeyYN[i] == Commit(pubVecKey[i], yN[i])
      ensures rhs.log == RhsLog(genV, genU, publicCk, genVecG, genVecH, pubVecKey, yN, A, B, T1, T2, E,
                                Delta(z1N, v1N, yN), x, z, mu, tauX, fs) % N
    {
      pubKeyYN := GeneratePointVectorWithY(pubVecKey, yN);
      rhs := Fold(genV, genU, publicCk, genVecG, genVecH, pubVecKey, pubKeyYN, yN, z1N, v1N,
                  A, B, T1, T2, E, x, z, mu, tauX, fs);
    }
  }
}
