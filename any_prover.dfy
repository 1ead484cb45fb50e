/** The any-out-of-many prover (any_proofs/prover.go): an object that fills in its fields
    in the fixed order of GenerateRsp — commitments A, B; challenges y, z; commitments
    T1, T2, E; challenge x; then the responses zeta, eta, ip, mu, tau_x, f_s. Every random
    draw is a parameter of the step that makes it. */
module AnyProver {
  import opened Field
  import opened Group
  import opened Vectors
  import opened Commitments
  import opened Setup
  import AnyAlgebra

  /** The proof the prover hands to the verifier. */
  datatype Transcript = Transcript(
    A: Point, B: Point, T1: Point, T2: Point, E: Point,
    tauX: Scalar, mu: Scalar, ip: Scalar, zeta: seq<Scalar>, eta: seq<Scalar>,
    fs: Scalar, x: Scalar, y: Scalar, z: Scalar)

  /** Generate_X of this package takes the three commitments T1, T2 and E and hashes their
      sum, as the two-argument version of the setup files hashes T1 + T2. */
  function ChallengeX(env: Env, t1: Point, t2: Point, e: Point): Scalar
  {
    HashPoint(env, PointAdd(PointAdd(t1, t2), e))
  }

  /** Σ_{i < m, b_0[i] = 1} y^i · key_j modulo nothing: the sum calculateFs reduces, where
      key_j is the secret key of the j-th one of b_0. */
  function SelectedPowers(b0: seq<int>, keys: seq<int>, y: int, m: nat): int
    requires m <= |b0| && Count(b0, 1) <= |keys|
    decreases m
  {
    if m == 0 then 0
    else
      var i := m - 1;
      var prev := SelectedPowers(b0, keys, y, i);
      if b0[i] == 1 then
        assert b0[..m][..i] == b0[..i];
        CountPrefix(b0, m, 1);
        prev + PowMod(y, i) * Load(keys[Count(b0[..i], 1)])
      else prev
  }

  /** tau_x = tau_1 x + tau_2 x^2 modulo n. */
  function TauAt(tau1: int, tau2: int, x: int): Scalar
  {
    (Load(tau1) * x + Load(tau2) * (x * x)) % N
  }

  /** mu = alpha + beta x modulo n. */
  function MuAt(alpha: int, beta: int, x: int): Scalar
  {
    (Load(alpha) + Load(beta) * x) % N
  }

  /** f_s = r_s x + Σ_{i : b_0[i] = 1} y^i · key_j modulo n. */
  function FsAt(rs: int, x: int, b0: seq<int>, keys: seq<int>, y: int): Scalar
    requires Count(b0, 1) <= |keys|
  {
    (MulInP(rs, x) + SelectedPowers(b0, keys, y, |b0|)) % N
  }

  /** The quadratic t(x) = t_0 + t_1 x + t_2 x^2 modulo n. */
  function PolyAt(t0: int, t1: int, t2: int, x: int): Scalar
  {
    (t0 + x * t1 + x * x * t2) % N
  }

  /** For the vectors the prover builds on y^N and z 1^N, <eta, zeta> is t(x) with the
      coefficients t_0, t_1, t_2 of calculateT. */
  lemma InnerProductAt(b0: seq<int>, b1: seq<int>, s0: seq<int>, s1: seq<int>, n: nat, y: Scalar, z: Scalar, x: Scalar,
                       eta: seq<Scalar>, zeta: seq<Scalar>, ip: Scalar)
    requires |b0| == n && |b1| == n && |s0| == n && |s1| == n
    requires eta == AnyAlgebra.Eta(b1, Constant(n, z), s1, ExpVector(y, n), x)
    requires zeta == AnyAlgebra.Zeta(Constant(n, z), b0, s0, x)
    requires ip == InnerProduct(eta, zeta)
    ensures ip == PolyAt(AnyAlgebra.T0(b0, b1, Constant(n, z), ExpVector(y, n)),
                         AnyAlgebra.T1(b0, b1, s0, s1, Constant(n, z), ExpVector(y, n)),
                         AnyAlgebra.T2(s0, s1, ExpVector(y, n)), x)
  {
    var yN := ExpVector(y, n);
    var t0, t1, t2 := AnyAlgebra.T0(b0, b1, Constant(n, z), yN), AnyAlgebra.T1(b0, b1, s0, s1, Constant(n, z), yN),
                      AnyAlgebra.T2(s0, s1, yN);
    AnyAlgebra.ResponseIdentity(b0, b1, s0, s1, yN, z, x, Constant(n, z), eta, zeta, ip, t0, t1, t2);
    PolyAtOf(ip, t0, t1, t2, x);
  }

  lemma PolyAtOf(ip: int, t0: int, t1: int, t2: int, x: int)
    requires ip == (t0 + x * t1 + x * x * t2) % N
    ensures ip == PolyAt(t0, t1, t2, x)
  {
  }

  /** The arithmetic of calculateT: y^N, z 1^N, t_1 = <s_0 ∘ y^N, z 1^N + b_1> +
      <b_0 + z 1^N, s_1 ∘ y^N> and t_2 = <s_0 ∘ y^N, s_1>. */
  method Coefficients(b0: seq<int>, b1: seq<Scalar>, s0: seq<int>, s1: seq<int>, y: Scalar, z: Scalar, n: int)
    returns (yN: seq<Scalar>, z1N: seq<int>, t1: Scalar, t2: Scalar)
    requires 1 <= n && |b0| == n && |b1| == n && |s0| == n && |s1| == n
    ensures yN == ExpVector(y, n) && z1N == ScalarVector(z, n)
    ensures |yN| == n && |z1N| == n && z1N == Constant(n, z)
    ensures t1 == AnyAlgebra.T1(b0, b1, s0, s1, z1N, yN) && t2 == AnyAlgebra.T2(s0, s1, yN)
  {
    yN := GenerateExpScalarVector(y, n);
    z1N := GenerateScalarVector(z, n);
    var s0YN := CalHPVec(s0, yN);
    var z1NB1 := CalAddVec(z1N, b1);
    var b0Z1N := CalAddVec(b0, z1N);
    var s1YN := CalHPVec(s1, yN);
    var left := CalIPVec(s0YN, z1NB1);
    var right := CalIPVec(b0Z1N, s1YN);
    t1 := AddInP(left, right);
    t2 := CalIPVec(s0YN, s1);
  }

  /** calculateT: the coefficients of Coefficients committed to with the blindings tau_1
      and tau_2 in T_1 = t_1 V + tau_1 U and T_2 = t_2 V + tau_2 U. */
  method CommitCoefficients(genV: Point, genU: Point, b0: seq<int>, b1: seq<Scalar>, s0: seq<int>, s1: seq<int>,
                            y: Scalar, z: Scalar, n: int, tau1Draw: int, tau2Draw: int)
    returns (yN: seq<Scalar>, z1N: seq<int>, t1: Scalar, t2: Scalar, com1: Point, com2: Point)
    requires 1 <= n && |b0| == n && |b1| == n && |s0| == n && |s1| == n
    ensures yN == ExpVector(y, n) && z1N == ScalarVector(z, n)
    ensures |yN| == n && |z1N| == n && z1N == Constant(n, z)
    ensures t1 == AnyAlgebra.T1(b0, b1, s0, s1, z1N, yN)
    ensures t2 == AnyAlgebra.T2(s0, s1, yN)
    ensures com1 == PedersenCommit(genV, genU, t1, tau1Draw)
    ensures com2 == PedersenCommit(genV, genU, t2, tau2Draw)
  {
    yN, z1N, t1, t2 := Coefficients(b0, b1, s0, s1, y, z, n);
    com1 := PedersenCommit(genV, genU, t1, tau1Draw);
    com2 := PedersenCommit(genV, genU, t2, tau2Draw);
  }

  /** The loop of calculateFs: starting from r_s x, add y^i · key_j for every i with
      b_0[i] = 1, where j counts the ones of b_0 before i; yi and index keep y^i and j. */
  method SecretSum(b0: seq<int>, secVecKey: seq<int>, y: Scalar, start: Scalar, n: int) returns (fs: Scalar)
    requires 0 <= n == |b0| && Count(b0, 1) <= |secVecKey|
    ensures fs == (start + SelectedPowers(b0, secVecKey, y, n)) % N
  {
    fs := start;
    var yi: Scalar := 1;
    var index := 0;
    var yiSi: Scalar;
    assert b0[..0] == [];
    for i := 0 to n
      invariant yi == PowMod(y, i)
      invariant index == Count(b0[..i], 1) && index <= Count(b0, 1)
      invariant fs == (start + SelectedPowers(b0, secVecKey, y, i)) % N
    {
      assert b0[..i + 1][..i] == b0[..i];
      CountPrefix(b0, i + 1, 1);
      CountPrefix(b0, n, 1);
      var prev := SelectedPowers(b0, secVecKey, y, i);
      if b0[i] == 1 {
        yiSi := MulInP(yi, secVecKey[index]);
        index := index + 1;
        assert yiSi == (yi * Load(secVecKey[Count(b0[..i], 1)])) % N by {
          assert yi % N == yi;
          ModMulLeft(yi, Load(secVecKey[Count(b0[..i], 1)]));
        }
        AccumulateFs(fs, yiSi, start + prev, yi * Load(secVecKey[Count(b0[..i], 1)]));
      } else {
        yiSi := 0;
        AccumulateFs(fs, yiSi, start + prev, 0);
      }
      fs := AddInP(fs, yiSi);
      yi := MulInP(yi, y);
    }
  }

  /** The arithmetic of calculateAB: A = <b_0, G> + <b_1, H> + alpha·u and
      B = <s_0, G> + <s_1, H> + beta·u. */
  method CommitAB(genVecG: seq<Point>, genVecH: seq<Point>, genU: Point, b0: seq<int>, b1: seq<int>,
                  s0: seq<int>, s1: seq<int>, alphaDraw: int, betaDraw: int)
    returns (a: Point, b: Point)
    requires 1 <= |genVecG| == |genVecH| == |b0| == |b1| == |s0| == |s1|
    ensures a == PointAdd(PedersenMultiExp(genVecG, genVecH, b0, b1), Commit(genU, alphaDraw))
    ensures b == PointAdd(PedersenMultiExp(genVecG, genVecH, s0, s1), Commit(genU, betaDraw))
  {
    var gB0HB1 := PedersenCommitVector(genVecG, genVecH, b0, b1);
    var uAlpha := Commit(genU, alphaDraw);
    var gS0HS1 := PedersenCommitVector(genVecG, genVecH, s0, s1);
    var uBeta := Commit(genU, betaDraw);
    a, b := PointAdd(gB0HB1, uAlpha), PointAdd(gS0HS1, uBeta);
  }

  /** The arithmetic of calculateE: E = <y^N ∘ s_0, P> - r_s·ck. */
  method CommitKeys(pubVecKey: seq<Point>, yN: seq<int>, s0: seq<int>, publicCk: Point, rsDraw: int)
    returns (e: Point)
    requires 1 <= |pubVecKey| == |yN| == |s0|
    ensures e == PointAdd(MultiExp(pubVecKey, Hadamard(yN, s0)), Commit(publicCk, NegZp(rsDraw)))
  {
    var yNS0 := CalHPVec(yN, s0);
    var pYNS0 := CommitVector(pubVecKey, yNS0);
    var comRs := Commit(publicCk, NegZp(rsDraw));
    e := PointAdd(pYNS0, comRs);
  }

  /** The arithmetic of calculateRx: zeta = z 1^N + b_0 + s_0 x, on a fresh z 1^N. */
  method ResponseZeta(b0: seq<int>, s0: seq<int>, z: Scalar, x: Scalar, n: int) returns (zeta: seq<Scalar>)
    requires 1 <= n && |b0| == n && |s0| == n
    ensures zeta == AnyAlgebra.Zeta(Constant(n, z), b0, s0, x) && |zeta| == n
  {
    var z1 := GenerateScalarVector(z, n);
    var z1B0 := CalAddVec(z1, b0);
    var s0X := CalScaVec(s0, x);
    zeta := CalAddVec(z1B0, s0X);
  }

  /** The arithmetic of calculateLx: eta = b_1 ∘ y^N + z 1^N ∘ y^N + (s_1 x) ∘ y^N. */
  method ResponseEta(b1: seq<int>, z1N: seq<int>, s1: seq<int>, yN: seq<int>, x: Scalar, n: int)
    returns (eta: seq<Scalar>)
    requires |b1| == n && |z1N| == n && |s1| == n && |yN| == n
    ensures eta == AnyAlgebra.Eta(b1, z1N, s1, yN, x) && |eta| == n
  {
    var b1YN := CalHPVec(b1, yN);
    var z1NYN := CalHPVec(z1N, yN);
    var s1X := CalScaVec(s1, x);
    var s1XYN := CalHPVec(s1X, yN);
    var sum := CalAddVec(b1YN, z1NYN);
    eta := CalAddVec(sum, s1XYN);
  }

  /** The arithmetic of calculateTaux: tau_x = tau_1 x + tau_2 x^2 modulo n. */
  method BlindTau(tau1: int, tau2: int, x: Scalar) returns (tauX: Scalar)
    ensures tauX == TauAt(tau1, tau2, x)
  {
    var tau1X := MulInP(tau1, x);
    var tau2X2 := MulInP(tau2, MulInP(x, x));
    tauX := AddInP(tau1X, tau2X2);
    BlindingValue(tau1, tau2, x, x * x, tau1X, MulInP(x, x), tau2X2, tauX);
  }

  /** The arithmetic of calculateFs: f_s from the loop of SecretSum started at r_s x. */
  method BlindFs(b0: seq<int>, keys: seq<int>, y: Scalar, rs: int, x: Scalar) returns (fs: Scalar)
    requires Count(b0, 1) <= |keys|
    ensures fs == FsAt(rs, x, b0, keys, y)
  {
    fs := SecretSum(b0, keys, y, MulInP(rs, x), |b0|);
  }

  /** The arithmetic of calculateMu: mu = alpha + beta x modulo n. */
  method BlindMu(alpha: int, beta: int, x: Scalar) returns (mu: Scalar)
    ensures mu == MuAt(alpha, beta, x)
  {
    var betaX := MulInP(beta, x);
    mu := AddInP(alpha, betaX);
    MuValue(alpha, beta, x, betaX, mu);
  }

  class Prover {
    // public parameters
    const publicCk: Point
    const genU: Point
    const genV: Point
    const genVecG: seq<Point>
    const genVecH: seq<Point>
    const k: int
    const n: int
    // the prover's secrets and the ring they are hidden in
    const secVecKey: seq<int>
    const b0: seq<int>
    const b1: seq<Scalar>
    const s0: seq<int>
    const s1: seq<int>
    const pubVecKey: seq<Point>

    // commitments
    var A: Point
    var B: Point
    var T1: Point
    var T2: Point
    var E: Point
    // blinding values
    var alpha: int
    var beta: int
    var rs: int
    var tau1: int
    var tau2: int
    var t1: Scalar
    var t2: Scalar
    // challenges and the vectors built from them
    var y: Scalar
    var z: Scalar
    var x: Scalar
    var yN: seq<Scalar>
    var z1N: seq<int>
    // responses
    var zeta: seq<Scalar>
    var eta: seq<Scalar>
    var ip: Scalar
    var tauX: Scalar
    var mu: Scalar
    var fs: Scalar

    /** The shapes New establishes and every step relies on. */
    predicate Valid()
    {
      1 <= n && 0 <= k <= n
      && |genVecG| == n && |genVecH| == n
      && |secVecKey| == k
      && |b0| == n && IsBits(b0) && Count(b0, 1) == k
      && b1 == Complement(b0)
      && |s0| == n && |s1| == n
    }

    /** New together with generateKey. The drawn values come in as parameters: the k
        secret keys, the selector b_0 that Generate_b_0 draws (its draw is
        RingSetup.GenerateB0, which yields exactly such a vector), the blinding vectors
        s_0 and s_1 and the N - k decoy keys of Generate_Multi_Public_Key. */
    constructor (publicCk: Point, genU: Point, genV: Point, genVecG: seq<Point>, genVecH: seq<Point>,
                 k: int, n: int, secVecKey: seq<int>, b0: seq<int>, s0: seq<int>, s1: seq<int>,
                 fakeKeys: seq<int>)
      requires 1 <= n && 0 <= k <= n && |genVecG| == n && |genVecH| == n
      requires |secVecKey| == k && |b0| == n && IsBits(b0) && Count(b0, 1) == k
      requires |s0| == n && |s1| == n && |fakeKeys| == n - k
      ensures Valid()
      ensures this.publicCk == publicCk && this.genU == genU && this.genV == genV
      ensures this.genVecG == genVecG && this.genVecH == genVecH && this.k == k && this.n == n
      ensures this.secVecKey == secVecKey && this.b0 == b0 && this.s0 == s0 && this.s1 == s1
      ensures this.b1 == Complement(b0)
      ensures Count(b0, 0) <= |fakeKeys| && pubVecKey == CommitAll(publicCk, Selected(b0, secVecKey, fakeKeys))
      ensures |pubVecKey| == n
    {
      this.publicCk := publicCk;
      this.genU := genU;
      this.genV := genV;
      this.genVecG := genVecG;
      this.genVecH := genVecH;
      this.k := k;
      this.n := n;
      this.secVecKey := secVecKey;
      this.b0 := b0;
      var complement := GenerateB1(b0);
      this.b1 := complement;
      this.s0 := s0;
      this.s1 := s1;
      CountBits(b0);
      assert b0[..n] == b0;
      var keys := CommitBySelector(n, b0, publicCk, secVecKey, fakeKeys);
      this.pubVecKey := keys;
    }

    /** calculateAB: the commitments A and B to the selector and to the blinding vectors. */
    method CalculateAB(alphaDraw: nat, betaDraw: nat)
      requires Valid()
      modifies this`alpha, this`beta, this`A, this`B
      ensures alpha == alphaDraw && beta == betaDraw
      ensures A == PointAdd(PedersenMultiExp(genVecG, genVecH, b0, b1), Commit(genU, alphaDraw))
      ensures B == PointAdd(PedersenMultiExp(genVecG, genVecH, s0, s1), Commit(genU, betaDraw))
    {
      var a, b := CommitAB(genVecG, genVecH, genU, b0, b1, s0, s1, alphaDraw, betaDraw);
      alpha, A, beta, B := alphaDraw, a, betaDraw, b;
    }

    /** calculateT: the challenge vectors y^N and z 1^N, then t_1, t_2 and their
        commitments T1 = t_1·v + tau_1·u and T2 = t_2·v + tau_2·u. */
    method CalculateT(tau1Draw: nat, tau2Draw: nat)
      requires Valid()
      modifies this`yN, this`z1N, this`t1, this`t2, this`tau1, this`tau2, this`T1, this`T2
      ensures yN == ExpVector(old(y), n) && z1N == ScalarVector(old(z), n)
      ensures |yN| == n && |z1N| == n && z1N == Constant(n, old(z))
      ensures t1 == AnyAlgebra.T1(b0, b1, s0, s1, z1N, yN)
      ensures t2 == AnyAlgebra.T2(s0, s1, yN)
      ensures tau1 == tau1Draw && tau2 == tau2Draw
      ensures T1 == PedersenCommit(genV, genU, t1, tau1Draw)
      ensures T2 == PedersenCommit(genV, genU, t2, tau2Draw)
    {
      var expY, constZ, first, second, com1, com2 :=
        CommitCoefficients(genV, genU, b0, b1, s0, s1, y, z, n, tau1Draw, tau2Draw);
      StoreT(expY, constZ, first, second, tau1Draw, tau2Draw);
      T1, T2 := com1, com2;
    }

    /** calculateE: the commitment E over the ring of public keys P. */
    method CalculateE(rsDraw: nat)
      requires Valid() && |yN| == n && |pubVecKey| == n
      modifies this`rs, this`E
      ensures rs == rsDraw
      ensures E == PointAdd(MultiExp(pubVecKey, Hadamard(yN, s0)), Commit(publicCk, NegZp(rsDraw)))
    {
      var e := CommitKeys(pubVecKey, yN, s0, publicCk, rsDraw);
      rs, E := rsDraw, e;
    }

    /** calculateRx: the response zeta. */
    method CalculateRx()
      requires Valid()
      modifies this`zeta
      ensures zeta == AnyAlgebra.Zeta(Constant(n, z), b0, s0, x)
      ensures |zeta| == n
    {
      zeta := ResponseZeta(b0, s0, z, x, n);
    }

    /** calculateLx: the response eta. */
    method CalculateLx()
      requires Valid() && |yN| == n && |z1N| == n
      modifies this`eta
      ensures eta == AnyAlgebra.Eta(b1, z1N, s1, yN, x)
      ensures |eta| == n
    {
      eta := ResponseEta(b1, z1N, s1, yN, x, n);
    }

    /** calculateIP: ip = <eta, zeta>. */
    method CalculateIP()
      requires |eta| <= |zeta|
      modifies this`ip
      ensures ip == InnerProduct(eta, zeta)
    {
      ip := CalIPVec(eta, zeta);
    }

    /** calculateTaux: the blinding tau_x of t(x). */
    method CalculateTaux()
      modifies this`tauX
      ensures tauX == TauAt(tau1, tau2, x)
    {
      tauX := BlindTau(tau1, tau2, x);
    }

    /** calculateMu: the blinding mu of A + x B. */
    method CalculateMu()
      modifies this`mu
      ensures mu == MuAt(alpha, beta, x)
    {
      mu := BlindMu(alpha, beta, x);
    }

    /** calculateFs: f_s = r_s x + Σ_{i : b_0[i] = 1} y^i · key_j (the loop is SecretSum);
        it then recomputes mu as calculateMu does, so mu keeps its value. */
    method CalculateFs()
      requires Valid()
      modifies this`fs, this`mu
      ensures fs == FsAt(rs, x, b0, secVecKey, y)
      ensures mu == MuAt(alpha, beta, x)
    {
      var sum := BlindFs(b0, secVecKey, y, rs, x);
      var again := BlindMu(alpha, beta, x);
      fs, mu := sum, again;
    }

    /** What the commitment half of GenerateRsp yields from the draws alpha, beta, tau_1,
        tau_2 and r_s: A and B commit to b_0, b_1 and to s_0, s_1; y and z hash A and B;
        t_1 and t_2 are the coefficients of calculateT on y^N and z 1^N, committed to in T1
        and T2; E commits to the keys picked by y^N ∘ s_0; and x hashes T1, T2 and E. */
    predicate Committed(env: Env, alphaDraw: int, betaDraw: int, tau1Draw: int, tau2Draw: int, rsDraw: int,
                        a: Point, b: Point, y: Scalar, z: Scalar, yN: seq<Scalar>, z1N: seq<int>,
                        t1: Scalar, t2: Scalar, c1: Point, c2: Point, e: Point, x: Scalar)
      requires Valid() && |pubVecKey| == n
    {
      && a == PointAdd(PedersenMultiExp(genVecG, genVecH, b0, b1), Commit(genU, alphaDraw))
      && b == PointAdd(PedersenMultiExp(genVecG, genVecH, s0, s1), Commit(genU, betaDraw))
      && (y, z) == GenerateYZ(env, a, b)
      && yN == ExpVector(y, n) && z1N == Constant(n, z)
      && t1 == AnyAlgebra.T1(b0, b1, s0, s1, z1N, yN) && t2 == AnyAlgebra.T2(s0, s1, yN)
      && c1 == PedersenCommit(genV, genU, t1, tau1Draw) && c2 == PedersenCommit(genV, genU, t2, tau2Draw)
      && e == PointAdd(MultiExp(pubVecKey, Hadamard(yN, s0)), Commit(publicCk, NegZp(rsDraw)))
      && x == ChallengeX(env, c1, c2, e)
    }

    /** What the response half of GenerateRsp yields for the challenges y, z, x: the
        vectors eta and zeta, their inner product, and the blindings mu, tau_x and f_s. */
    predicate Responded(alphaDraw: int, betaDraw: int, tau1Draw: int, tau2Draw: int, rsDraw: int,
                        y: Scalar, z: Scalar, x: Scalar, eta: seq<Scalar>, zeta: seq<Scalar>,
                        ip: Scalar, mu: Scalar, tauX: Scalar, fs: Scalar)
      requires Valid()
    {
      && eta == AnyAlgebra.Eta(b1, Constant(n, z), s1, ExpVector(y, n), x)
      && zeta == AnyAlgebra.Zeta(Constant(n, z), b0, s0, x)
      && ip == InnerProduct(eta, zeta)
      && mu == MuAt(alphaDraw, betaDraw, x)
      && tauX == TauAt(tau1Draw, tau2Draw, x)
      && fs == FsAt(rsDraw, x, b0, secVecKey, y)
    }

    /** The inner product of honest responses is t(x) = t_0 + t_1 x + t_2 x^2 for the
        coefficients that T1 and T2 commit to. */
    lemma RespondedQuadratic(alphaDraw: int, betaDraw: int, tau1Draw: int, tau2Draw: int, rsDraw: int,
                             y: Scalar, z: Scalar, x: Scalar, eta: seq<Scalar>, zeta: seq<Scalar>,
                             ip: Scalar, mu: Scalar, tauX: Scalar, fs: Scalar)
      requires Valid() && Responded(alphaDraw, betaDraw, tau1Draw, tau2Draw, rsDraw, y, z, x, eta, zeta, ip, mu, tauX, fs)
      ensures ip == PolyAt(AnyAlgebra.T0(b0, b1, Constant(n, z), ExpVector(y, n)),
                           AnyAlgebra.T1(b0, b1, s0, s1, Constant(n, z), ExpVector(y, n)),
                           AnyAlgebra.T2(s0, s1, ExpVector(y, n)), x)
    {
      InnerProductAt(b0, b1, s0, s1, n, y, z, x, eta, zeta, ip);
    }

    /** GenerateRsp lines 79-100 on values: calculateAB, Generate_YZ, calculateT, calculateE
        and Generate_X. */
    method CommitPhase(env: Env, alphaDraw: nat, betaDraw: nat, tau1Draw: nat, tau2Draw: nat, rsDraw: nat)
      returns (a: Point, b: Point, chY: Scalar, chZ: Scalar, expY: seq<Scalar>, constZ: seq<int>,
               first: Scalar, second: Scalar, com1: Point, com2: Point, e: Point, chX: Scalar)
      requires Valid() && |pubVecKey| == n
      ensures Committed(env, alphaDraw, betaDraw, tau1Draw, tau2Draw, rsDraw,
                        a, b, chY, chZ, expY, constZ, first, second, com1, com2, e, chX)
    {
      a, b := CommitAB(genVecG, genVecH, genU, b0, b1, s0, s1, alphaDraw, betaDraw);
      var challenges := GenerateYZ(env, a, b);
      chY, chZ := challenges.0, challenges.1;
      expY, constZ, first, second, com1, com2 :=
        CommitCoefficients(genV, genU, b0, b1, s0, s1, chY, chZ, n, tau1Draw, tau2Draw);
      e := CommitKeys(pubVecKey, expY, s0, publicCk, rsDraw);
      chX := ChallengeX(env, com1, com2, e);
    }

    /** GenerateRsp lines 102-107 on values: calculateLx, calculateRx, calculateIP,
        calculateMu, calculateTaux and calculateFs. */
    method ResponsePhase(alphaDraw: nat, betaDraw: nat, tau1Draw: nat, tau2Draw: nat, rsDraw: nat,
                         chY: Scalar, chZ: Scalar, chX: Scalar, expY: seq<Scalar>, constZ: seq<int>)
      returns (l: seq<Scalar>, r: seq<Scalar>, product: Scalar, m: Scalar, blinding: Scalar, f: Scalar)
      requires Valid() && expY == ExpVector(chY, n) && constZ == Constant(n, chZ)
      ensures Responded(alphaDraw, betaDraw, tau1Draw, tau2Draw, rsDraw, chY, chZ, chX, l, r, product, m, blinding, f)
    {
      l := ResponseEta(b1, constZ, s1, expY, chX, n);
      r := ResponseZeta(b0, s0, chZ, chX, n);
      product := CalIPVec(l, r);
      m := BlindMu(alphaDraw, betaDraw, chX);
      blinding := BlindTau(tau1Draw, tau2Draw, chX);
      f := BlindFs(b0, secVecKey, chY, rsDraw, chX);
    }

    /** Writes the commitments A, B and the challenges y, z of one run into the prover's fields. */
    method StoreAB(alpha': int, beta': int, A': Point, B': Point, y': Scalar, z': Scalar)
      modifies this`alpha, this`beta, this`A, this`B, this`y, this`z
      ensures alpha == alpha' && beta == beta' && A == A' && B == B' && y == y' && z == z'
    {
      alpha, beta, A, B, y, z := alpha', beta', A', B', y', z';
    }

    /** Writes the values of calculateT into the fields. */
    method StoreT(yN': seq<Scalar>, z1N': seq<int>, t1': Scalar, t2': Scalar, tau1': int, tau2': int)
      modifies this`yN, this`z1N, this`t1, this`t2, this`tau1, this`tau2
      ensures yN == yN' && z1N == z1N' && t1 == t1' && t2 == t2' && tau1 == tau1' && tau2 == tau2'
    {
      yN, z1N, t1, t2, tau1, tau2 := yN', z1N', t1', t2', tau1', tau2';
    }

    /** Writes the commitments T_1, T_2, E and the challenge x into the fields. */
    method StoreE(T1': Point, T2': Point, rs': int, E': Point, x': Scalar)
      modifies this`T1, this`T2, this`rs, this`E, this`x
      ensures T1 == T1' && T2 == T2' && rs == rs' && E == E' && x == x'
    {
      T1, T2, rs, E, x := T1', T2', rs', E', x';
    }

    /** Writes the responses into the fields. */
    method StoreResponse(eta': seq<Scalar>, zeta': seq<Scalar>, ip': Scalar, mu': Scalar, tauX': Scalar, fs': Scalar)
      modifies this`eta, this`zeta, this`ip, this`mu, this`tauX, this`fs
      ensures eta == eta' && zeta == zeta' && ip == ip' && mu == mu' && tauX == tauX' && fs == fs'
    {
      eta, zeta, ip, mu, tauX, fs := eta', zeta', ip', mu', tauX', fs';
    }

    /** Writes the values of one run into the prover's fields. */
    method Store(alpha': int, beta': int, A': Point, B': Point, y': Scalar, z': Scalar, yN': seq<Scalar>,
                 z1N': seq<int>, t1': Scalar, t2': Scalar, tau1': int, tau2': int, T1': Point, T2': Point,
                 rs': int, E': Point, x': Scalar, eta': seq<Scalar>, zeta': seq<Scalar>, ip': Scalar,
                 mu': Scalar, tauX': Scalar, fs': Scalar)
      modifies this
      ensures alpha == alpha' && beta == beta' && A == A' && B == B' && y == y' && z == z'
      ensures yN == yN' && z1N == z1N' && t1 == t1' && t2 == t2' && tau1 == tau1' && tau2 == tau2'
      ensures T1 == T1' && T2 == T2' && rs == rs' && E == E' && x == x'
      ensures eta == eta' && zeta == zeta' && ip == ip' && mu == mu' && tauX == tauX' && fs == fs'
    {
      StoreAB(alpha', beta', A', B', y', z');
      StoreT(yN', z1N', t1', t2', tau1', tau2');
      StoreE(T1', T2', rs', E', x');
      StoreResponse(eta', zeta', ip', mu', tauX', fs');
    }

    /** GenerateRsp: the whole proof from the random draws of each step, in the order of
        the steps above; it leaves the prover holding what it sent. */
    method GenerateRsp(env: Env, alphaDraw: nat, betaDraw: nat, tau1Draw: nat, tau2Draw: nat, rsDraw: nat)
      returns (publicKeys: seq<Point>, tr: Transcript)
      requires Valid() && |pubVecKey| == n
      modifies this
      ensures publicKeys == pubVecKey
      ensures tr == Transcript(A, B, T1, T2, E, tauX, mu, ip, zeta, eta, fs, x, y, z)
      ensures alpha == alphaDraw && beta == betaDraw && tau1 == tau1Draw && tau2 == tau2Draw && rs == rsDraw
      ensures Committed(env, alphaDraw, betaDraw, tau1Draw, tau2Draw, rsDraw, A, B, y, z, yN, z1N, t1, t2, T1, T2, E, x)
      ensures Responded(alphaDraw, betaDraw, tau1Draw, tau2Draw, rsDraw, y, z, x, eta, zeta, ip, mu, tauX, fs)
    {
      var a, b, chY, chZ, expY, constZ, first, second, com1, com2, e, chX :=
        CommitPhase(env, alphaDraw, betaDraw, tau1Draw, tau2Draw, rsDraw);
      var l, r, product, m, blinding, f :=
        ResponsePhase(alphaDraw, betaDraw, tau1Draw, tau2Draw, rsDraw, chY, chZ, chX, expY, constZ);
      Store(alphaDraw, betaDraw, a, b, chY, chZ, expY, constZ, first, second, tau1Draw, tau2Draw,
            com1, com2, rsDraw, e, chX, l, r, product, m, blinding, f);
      tr := Transcript(a, b, com1, com2, e, blinding, m, product, r, l, f, chX, chY, chZ);
      publicKeys := pubVecKey;
    }
  }

  /** One step of the f_s accumulation: adding a term known modulo n to a sum known
      modulo n. */
  lemma AccumulateFs(fs: Scalar, term: Scalar, sum: int, value: int)
    requires fs == sum % N && term == value % N
    ensures AddInP(fs, term) == (sum + value) % N
  {
    AddInPOfReduced(fs, term, sum, value);
  }

  /** tau_x = tau_1 x + tau_2 x^2 modulo n, whatever the draws are. */
  lemma BlindingValue(tau1: int, tau2: int, x: Scalar, xx: int, tau1X: Scalar, x2: Scalar, tau2X2: Scalar, tauX: Scalar)
    requires xx == x * x && x2 == MulInP(x, x)
    requires tau1X == MulInP(tau1, x) && tau2X2 == MulInP(tau2, x2) && tauX == AddInP(tau1X, tau2X2)
    ensures tauX == (Load(tau1) * x + Load(tau2) * xx) % N
  {
    assert x2 == xx % N;
    MulInPOfReduced(Load(tau2), x2, xx);
    MulInPOfReduced(Load(tau1), x, x);
    AddInPOfReduced(tau1X, tau2X2, Load(tau1) * x, Load(tau2) * xx);
  }

  /** mu = alpha + beta x modulo n, whatever the draws are. */
  lemma MuValue(alpha: int, beta: int, x: Scalar, betaX: Scalar, mu: Scalar)
    requires betaX == MulInP(beta, x) && mu == AddInP(alpha, betaX)
    ensures mu == (Load(alpha) + Load(beta) * x) % N
  {
    var la, lb := Load(alpha), Load(beta);
    assert betaX == (lb * x) % N;
    assert mu == (la + betaX) % N;
    AddReduced(la, lb * x);
  }
}
