/** The range prover (range_proofs/prover.go): an object that proves a committed value
    has d bits. GenerateRsp fills in its fields in a fixed order: commitments A, B;
    challenges y, z; commitments T1, T2; challenge x; then the responses zeta, eta, ip,
    mu and tau_x. Every random draw is a parameter of the step that makes it.
    calculateAB and the mu of calculateMu are those of the any-out-of-many prover and are
    taken from module AnyProver. */
module RangeProver {
  import opened Field
  import opened Group
  import opened Vectors
  import opened Commitments
  import opened Setup
  import opened RangeSetup
  import RangeAlgebra
  import AnyProver

  /** The proof the prover hands to the verifier. L and R stay empty: nothing in the
      prover assigns them. */
  datatype Transcript = Transcript(
    A: Point, B: Point, T1: Point, T2: Point, tauX: Scalar, mu: Scalar,
    eta: seq<Scalar>, zeta: seq<Scalar>, ip: Scalar, L: seq<Point>, R: seq<Point>,
    x: Scalar, y: Scalar, z: Scalar)

  /** tau_x = tau_1 x + tau_2 x^2 + z^2 gamma modulo n: the blinding of t(x) in T1, T2
      and the public coin. */
  function TauXAt(tau1: int, tau2: int, x: Scalar, z: Scalar, gamma: int): Scalar
  {
    (Load(tau1) * x + Load(tau2) * (x * x) + z * (z * Load(gamma))) % N
  }

  /** The arithmetic of calculateT as written: y^d, 2^d, z 1^d, z^2,
      t_1 = <s_0 ∘ y^d, b_1 + z 1^d> + <s_0, z^2 2^d> + <b_0 + z 1^d, s_1 ∘ y^d> and
      t_2 = <s_0 ∘ y^d, s_1>. The third term adds z 1^d to b_0, so t_1 is not the x
      coefficient of <zeta, eta> (RangeAlgebra.T1Excess). */
  method Coefficients(b0: seq<int>, b1: seq<Scalar>, s0: seq<int>, s1: seq<int>, y: Scalar, z: Scalar, d: int)
    returns (yN: seq<Scalar>, vec2N: seq<Scalar>, z1N: seq<int>, z2: Scalar, t1: Scalar, t2: Scalar)
    requires 1 <= d && |b0| == d && |b1| == d && |s0| == d && |s1| == d
    ensures yN == ExpVector(y, d) && vec2N == ExpVector(2, d) && z1N == ScalarVector(z, d)
    ensures |yN| == d && |vec2N| == d && |z1N| == d && z1N == Constant(d, z) && z2 == MulInP(z, z)
    ensures t1 == RangeAlgebra.T1AsWritten(b0, b1, s0, s1, z1N, yN, vec2N, z2)
    ensures t2 == RangeAlgebra.T2(s0, s1, yN)
  {
    yN := GenerateExpScalarVector(y, d);
    vec2N := GenerateExpScalarVector(2, d);
    z1N := GenerateScalarVector(z, d);
    z2 := MulInP(z, z);
    var s0YN := CalHPVec(s0, yN);
    var b1Z1N := CalAddVec(b1, z1N);
    var t11 := CalIPVec(s0YN, b1Z1N);
    var z2V2N := CalScaVec(vec2N, z2);
    var t12 := CalIPVec(s0, z2V2N);
    var b0Z1N := CalAddVec(b0, z1N);
    var s1YN := CalHPVec(s1, yN);
    var t13 := CalIPVec(b0Z1N, s1YN);
    t1 := AddInP(t11, t12);
    t1 := AddInP(t1, t13);
    t2 := CalIPVec(s0YN, s1);
  }

  /** The arithmetic of calculateLx: zeta = b_0 - z 1^d + s_0 x, on a fresh z 1^d. */
  method ResponseZeta(b0: seq<int>, s0: seq<int>, z: Scalar, x: Scalar, d: int) returns (zeta: seq<Scalar>)
    requires 1 <= d && |b0| == d && |s0| == d
    ensures zeta == RangeAlgebra.Zeta(b0, Constant(d, z), s0, x) && |zeta| == d
  {
    var z1N := GenerateScalarVector(z, d);
    var b0Z1N := CalSubVec(b0, z1N);
    var s0X := CalScaVec(s0, x);
    zeta := CalAddVec(b0Z1N, s0X);
  }

  /** The arithmetic of calculateRx: eta = b_1 ∘ y^d + z 1^d ∘ y^d + (s_1 x) ∘ y^d + z^2 2^d. */
  method ResponseEta(b1: seq<int>, z1N: seq<int>, s1: seq<int>, yN: seq<int>, vec2N: seq<int>, z: Scalar, x: Scalar,
                     d: int)
    returns (eta: seq<Scalar>)
    requires |b1| == d && |z1N| == d && |s1| == d && |yN| == d && |vec2N| == d
    ensures eta == RangeAlgebra.Eta(b1, z1N, s1, yN, vec2N, MulInP(z, z), x) && |eta| == d
  {
    var b1YN := CalHPVec(b1, yN);
    var z1NYN := CalHPVec(z1N, yN);
    var s1X := CalScaVec(s1, x);
    var s1XYN := CalHPVec(s1X, yN);
    var sum := CalAddVec(b1YN, z1NYN);
    var sum' := CalAddVec(sum, s1XYN);
    var z2 := MulInP(z, z);
    var z2V2N := CalScaVec(vec2N, z2);
    eta := CalAddVec(sum', z2V2N);
  }

  /** The arithmetic of calculateTaux: z^2 gamma, then tau_1 x + tau_2 x^2, then their sum. */
  method BlindTauX(tau1: int, tau2: int, x: Scalar, z: Scalar, gamma: int) returns (tauX: Scalar)
    ensures tauX == TauXAt(tau1, tau2, x, z, gamma)
  {
    var zGamma := MulInP(z, gamma);
    var z2Gamma := MulInP(z, zGamma);
    var tau1X := MulInP(tau1, x);
    var tau2X2 := MulInP(tau2, MulInP(x, x));
    tauX := AddInP(tau1X, tau2X2);
    AnyProver.BlindingValue(tau1, tau2, x, x * x, tau1X, MulInP(x, x), tau2X2, tauX);
    var sum := tauX;
    tauX := AddInP(tauX, z2Gamma);
    GammaTerm(z, gamma, zGamma, z2Gamma);
    AddInPOfReduced(sum, z2Gamma, Load(tau1) * x + Load(tau2) * (x * x), z * (z * Load(gamma)));
  }

  /** z·(z·gamma) through two Mul_In_P is z^2 gamma modulo n. */
  lemma GammaTerm(z: Scalar, gamma: int, zGamma: Scalar, z2Gamma: Scalar)
    requires zGamma == MulInP(z, gamma) && z2Gamma == MulInP(z, zGamma)
    ensures z2Gamma == (z * (z * Load(gamma))) % N
  {
    assert zGamma == (z * Load(gamma)) % N;
    MulInPOfReduced(z, zGamma, z * Load(gamma));
  }

  class Prover {
    // public parameters
    const genG: Point
    const genH: Point
    const genVecG: seq<Point>
    const genVecH: seq<Point>
    const D: int
    // the bits of the value, the blinding vectors and the coin that commits to the value
    const b0: seq<int>
    const b1: seq<Scalar>
    const s0: seq<int>
    const s1: seq<int>
    const gamma: int
    const pubCoin: Point

    // commitments
    var A: Point
    var B: Point
    var T1: Point
    var T2: Point
    // blinding values
    var alpha: int
    var beta: int
    var tau1: int
    var tau2: int
    var t1: Scalar
    var t2: Scalar
    // challenges and the vectors built from them
    var y: Scalar
    var z: Scalar
    var x: Scalar
    var yN: seq<Scalar>
    var z1N: seq<int>
    var vec2N: seq<Scalar>
    // responses
    var zeta: seq<Scalar>
    var eta: seq<Scalar>
    var ip: Scalar
    var tauX: Scalar
    var mu: Scalar

    /** The shapes New establishes and every step relies on. */
    predicate Valid()
    {
      1 <= D && |genVecG| == D && |genVecH| == D
      && |b0| == D && IsBits(b0) && b1 == Complement(b0)
      && |s0| == D && |s1| == D
    }

    /** New together with generateCoin. The drawn values come in as parameters: the coin
        flips of Generate_b_0, the blinding vectors s_0 and s_1 and the blind gamma of the
        public coin. New also draws a secret value that nothing reads; that draw is not
        modelled, but it demands d >= 1, as every Generate_Random_Zp(d) does. */
    constructor (genG: Point, genH: Point, genVecG: seq<Point>, genVecH: seq<Point>, d: int,
                 coins: seq<bool>, s0: seq<int>, s1: seq<int>, gamma: int)
      requires 1 <= d && |genVecG| == d && |genVecH| == d
      requires |coins| >= d && |s0| == d && |s1| == d
      ensures Valid()
      ensures this.genG == genG && this.genH == genH && this.genVecG == genVecG && this.genVecH == genVecH
      ensures D == d && this.s0 == s0 && this.s1 == s1 && this.gamma == gamma
      ensures forall j :: 0 <= j < d ==> b0[j] == if coins[j] then 1 else 0
      ensures b1 == Complement(b0) && forall i :: 0 <= i < d ==> b0[i] + b1[i] == 1 && b0[i] * b1[i] == 0
      ensures pubCoin == PedersenCommit(genG, genH, InnerProduct(b0, ExpVector(2, d)), gamma)
      ensures d <= 255 ==> pubCoin == PedersenCommit(genG, genH, BinaryValue(b0), gamma)
                           && 0 <= BinaryValue(b0) < Pow2(d)
    {
      this.genG := genG;
      this.genH := genH;
      this.genVecG := genVecG;
      this.genVecH := genVecH;
      D := d;
      var bits := GenerateB0(d, coins);
      b0 := bits;
      var complement := GenerateB1(bits);
      b1 := complement;
      this.s0 := s0;
      this.s1 := s1;
      this.gamma := gamma;
      var coin := GeneratePublicCoin(genG, genH, d, bits, gamma);
      pubCoin := coin;
    }

    /** calculateAB: the commitments A and B to the bits and to the blinding vectors. */
    method CalculateAB(alphaDraw: nat, betaDraw: nat)
      requires Valid()
      modifies this`alpha, this`beta, this`A, this`B
      ensures alpha == alphaDraw && beta == betaDraw
      ensures A == PointAdd(PedersenMultiExp(genVecG, genVecH, b0, b1), Commit(genH, alphaDraw))
      ensures B == PointAdd(PedersenMultiExp(genVecG, genVecH, s0, s1), Commit(genH, betaDraw))
    {
      var a, b := AnyProver.CommitAB(genVecG, genVecH, genH, b0, b1, s0, s1, alphaDraw, betaDraw);
      alpha, A, beta, B := alphaDraw, a, betaDraw, b;
    }

    /** calculateT: y^d, 2^d and z 1^d, then t_1, t_2 and their commitments
        T1 = t_1·g + tau_1·h and T2 = t_2·g + tau_2·h. */
    method CalculateT(tau1Draw: nat, tau2Draw: nat)
      requires Valid()
      modifies this`yN, this`vec2N, this`z1N, this`t1, this`t2, this`tau1, this`tau2, this`T1, this`T2
      ensures yN == ExpVector(y, D) && vec2N == ExpVector(2, D) && z1N == ScalarVector(z, D)
      ensures |yN| == D && |vec2N| == D && z1N == Constant(D, z)
      ensures t1 == RangeAlgebra.T1AsWritten(b0, b1, s0, s1, z1N, yN, vec2N, MulInP(z, z))
      ensures t2 == RangeAlgebra.T2(s0, s1, yN)
      ensures tau1 == tau1Draw && tau2 == tau2Draw
      ensures T1 == PedersenCommit(genG, genH, t1, tau1Draw) && T2 == PedersenCommit(genG, genH, t2, tau2Draw)
    {
      var expY, exp2, constZ, z2, first, second := Coefficients(b0, b1, s0, s1, y, z, D);
      var com1 := PedersenCommit(genG, genH, first, tau1Draw);
      var com2 := PedersenCommit(genG, genH, second, tau2Draw);
      StoreT(expY, exp2, constZ, first, second, tau1Draw, tau2Draw, com1, com2);
    }

    /** calculateLx: the response zeta. */
    method CalculateLx()
      requires Valid()
      modifies this`zeta
      ensures zeta == RangeAlgebra.Zeta(b0, Constant(D, z), s0, x) && |zeta| == D
    {
      zeta := ResponseZeta(b0, s0, z, x, D);
    }

    /** calculateRx: the response eta, on the y^d, z 1^d and 2^d of calculateT. */
    method CalculateRx()
      requires Valid() && |yN| == D && |z1N| == D && |vec2N| == D
      modifies this`eta
      ensures eta == RangeAlgebra.Eta(b1, z1N, s1, yN, vec2N, MulInP(z, z), x) && |eta| == D
    {
      eta := ResponseEta(b1, z1N, s1, yN, vec2N, z, x, D);
    }

    /** calculateIP: ip = <zeta, eta>. */
    method CalculateIP()
      requires |zeta| <= |eta|
      modifies this`ip
      ensures ip == InnerProduct(zeta, eta)
    {
      ip := CalIPVec(zeta, eta);
    }

    /** calculateTaux: the blinding tau_x of t(x). */
    method CalculateTaux()
      modifies this`tauX
      ensures tauX == TauXAt(tau1, tau2, x, z, gamma)
    {
      tauX := BlindTauX(tau1, tau2, x, z, gamma);
    }

    /** calculateMu: the blinding mu = alpha + beta x of A + x B. */
    method CalculateMu()
      modifies this`mu
      ensures mu == AnyProver.MuAt(alpha, beta, x)
    {
      mu := AnyProver.BlindMu(alpha, beta, x);
    }

    /** What the commitment half of GenerateRsp yields from the draws alpha, beta, tau_1
        and tau_2: A and B commit to b_0, b_1 and to s_0, s_1; y and z hash A and B; t_1
        and t_2 are the coefficients of calculateT on y^d, 2^d and z 1^d, committed to in
        T1 and T2; and x hashes T1 and T2. */
    predicate Committed(env: Env, alphaDraw: int, betaDraw: int, tau1Draw: int, tau2Draw: int,
                        a: Point, b: Point, y: Scalar, z: Scalar, yN: seq<Scalar>, vec2N: seq<Scalar>,
                        z1N: seq<int>, t1: Scalar, t2: Scalar, c1: Point, c2: Point, x: Scalar)
      requires Valid()
    {
      && a == PointAdd(PedersenMultiExp(genVecG, genVecH, b0, b1), Commit(genH, alphaDraw))
      && b == PointAdd(PedersenMultiExp(genVecG, genVecH, s0, s1), Commit(genH, betaDraw))
      && (y, z) == GenerateYZ(env, a, b)
      && yN == ExpVector(y, D) && vec2N == ExpVector(2, D) && z1N == Constant(D, z)
      && t1 == RangeAlgebra.T1AsWritten(b0, b1, s0, s1, z1N, yN, vec2N, MulInP(z, z))
      && t2 == RangeAlgebra.T2(s0, s1, yN)
      && c1 == PedersenCommit(genG, genH, t1, tau1Draw) && c2 == PedersenCommit(genG, genH, t2, tau2Draw)
      && x == GenerateX(env, c1, c2)
    }

    /** What the response half of GenerateRsp yields for the challenges y, z, x: the
        vectors zeta and eta, their inner product, and the blindings mu and tau_x. */
    predicate Responded(alphaDraw: int, betaDraw: int, tau1Draw: int, tau2Draw: int,
                        y: Scalar, z: Scalar, x: Scalar, zeta: seq<Scalar>, eta: seq<Scalar>,
                        ip: Scalar, mu: Scalar, tauX: Scalar)
      requires Valid()
    {
      && zeta == RangeAlgebra.Zeta(b0, Constant(D, z), s0, x)
      && eta == RangeAlgebra.Eta(b1, Constant(D, z), s1, ExpVector(y, D), ExpVector(2, D), MulInP(z, z), x)
      && ip == InnerProduct(zeta, eta)
      && mu == AnyProver.MuAt(alphaDraw, betaDraw, x)
      && tauX == TauXAt(tau1Draw, tau2Draw, x, z, gamma)
    }

    /** The inner product of honest responses is t(x) = t_0 + t_1 x + t_2 x^2 for the
        intended t_1 (with b_0 - z 1^d), not for the t_1 that T1 commits to
        (CommittedExcess). */
    lemma RespondedQuadratic(alphaDraw: int, betaDraw: int, tau1Draw: int, tau2Draw: int,
                             y: Scalar, z: Scalar, x: Scalar, zeta: seq<Scalar>, eta: seq<Scalar>,
                             ip: Scalar, mu: Scalar, tauX: Scalar)
      requires Valid() && Responded(alphaDraw, betaDraw, tau1Draw, tau2Draw, y, z, x, zeta, eta, ip, mu, tauX)
      ensures ip == AnyProver.PolyAt(
        RangeAlgebra.T0(b0, b1, Constant(D, z), ExpVector(y, D), ExpVector(2, D), MulInP(z, z)),
        RangeAlgebra.T1(b0, b1, s0, s1, Constant(D, z), ExpVector(y, D), ExpVector(2, D), MulInP(z, z)),
        RangeAlgebra.T2(s0, s1, ExpVector(y, D)), x)
    {
      var yN, v2N, z1N, z2 := ExpVector(y, D), ExpVector(2, D), Constant(D, z), MulInP(z, z);
      var t0 := RangeAlgebra.T0(b0, b1, z1N, yN, v2N, z2);
      var t1 := RangeAlgebra.T1(b0, b1, s0, s1, z1N, yN, v2N, z2);
      var t2 := RangeAlgebra.T2(s0, s1, yN);
      RangeAlgebra.ResponseIdentity(b0, b1, s0, s1, yN, v2N, z, z2, x, z1N, zeta, eta, ip, t0, t1, t2);
      AnyProver.PolyAtOf(ip, t0, t1, t2, x);
    }

    /** The t_1 that calculateT computes on y^d, 2^d and z 1^d exceeds the x coefficient of
        <zeta, eta> by 2 z <s_1, y^d> modulo n. */
    lemma CommittedExcess(y: Scalar, z: Scalar, yN: seq<Scalar>, vec2N: seq<Scalar>, z1N: seq<int>, t1: Scalar)
      requires Valid() && |yN| == D && |vec2N| == D && z1N == Constant(D, z)
      requires t1 == RangeAlgebra.T1AsWritten(b0, b1, s0, s1, z1N, yN, vec2N, MulInP(z, z))
      ensures t1 == (RangeAlgebra.T1(b0, b1, s0, s1, z1N, yN, vec2N, MulInP(z, z))
                     + 2 * z * Dot(Loads(s1), yN)) % N
    {
      RangeAlgebra.T1Excess(b0, b1, s0, s1, yN, vec2N, z, MulInP(z, z), z1N, t1,
                            RangeAlgebra.T1(b0, b1, s0, s1, z1N, yN, vec2N, MulInP(z, z)));
    }

    /** GenerateRsp lines 75-84 on values: calculateAB, Generate_YZ, calculateT and
        Generate_X. */
    method CommitPhase(env: Env, alphaDraw: nat, betaDraw: nat, tau1Draw: nat, tau2Draw: nat)
      returns (a: Point, b: Point, chY: Scalar, chZ: Scalar, expY: seq<Scalar>, exp2: seq<Scalar>,
               constZ: seq<int>, first: Scalar, second: Scalar, com1: Point, com2: Point, chX: Scalar)
      requires Valid()
      ensures Committed(env, alphaDraw, betaDraw, tau1Draw, tau2Draw,
                        a, b, chY, chZ, expY, exp2, constZ, first, second, com1, com2, chX)
    {
      a, b := AnyProver.CommitAB(genVecG, genVecH, genH, b0, b1, s0, s1, alphaDraw, betaDraw);
      var challenges := GenerateYZ(env, a, b);
      chY, chZ := challenges.0, challenges.1;
      var z2;
      expY, exp2, constZ, z2, first, second := Coefficients(b0, b1, s0, s1, chY, chZ, D);
      com1 := PedersenCommit(genG, genH, first, tau1Draw);
      com2 := PedersenCommit(genG, genH, second, tau2Draw);
      chX := GenerateX(env, com1, com2);
    }

    /** GenerateRsp lines 86-90 on values: calculateLx, calculateRx, calculateIP,
        calculateMu and calculateTaux. */
    method ResponsePhase(alphaDraw: nat, betaDraw: nat, tau1Draw: nat, tau2Draw: nat,
                         chY: Scalar, chZ: Scalar, chX: Scalar, expY: seq<Scalar>, exp2: seq<Scalar>,
                         constZ: seq<int>)
      returns (l: seq<Scalar>, r: seq<Scalar>, product: Scalar, m: Scalar, blinding: Scalar)
      requires Valid() && expY == ExpVector(chY, D) && exp2 == ExpVector(2, D) && constZ == Constant(D, chZ)
      ensures Responded(alphaDraw, betaDraw, tau1Draw, tau2Draw, chY, chZ, chX, l, r, product, m, blinding)
    {
      l := ResponseZeta(b0, s0, chZ, chX, D);
      r := ResponseEta(b1, constZ, s1, expY, exp2, chZ, chX, D);
      product := CalIPVec(l, r);
      m := AnyProver.BlindMu(alphaDraw, betaDraw, chX);
      blinding := BlindTauX(tau1Draw, tau2Draw, chX, chZ, gamma);
    }

    /** Writes the commitments A, B and the challenges y, z of one run into the fields. */
    method StoreAB(alpha': int, beta': int, A': Point, B': Point, y': Scalar, z': Scalar)
      modifies this`alpha, this`beta, this`A, this`B, this`y, this`z
      ensures alpha == alpha' && beta == beta' && A == A' && B == B' && y == y' && z == z'
    {
      alpha, beta, A, B, y, z := alpha', beta', A', B', y', z';
    }

    /** Writes the values of calculateT into the fields. */
    method StoreT(yN': seq<Scalar>, vec2N': seq<Scalar>, z1N': seq<int>, t1': Scalar, t2': Scalar,
                  tau1': int, tau2': int, T1': Point, T2': Point)
      modifies this`yN, this`vec2N, this`z1N, this`t1, this`t2, this`tau1, this`tau2, this`T1, this`T2
      ensures yN == yN' && vec2N == vec2N' && z1N == z1N' && t1 == t1' && t2 == t2'
      ensures tau1 == tau1' && tau2 == tau2' && T1 == T1' && T2 == T2'
    {
      yN, vec2N, z1N, t1, t2, tau1, tau2, T1, T2 := yN', vec2N', z1N', t1', t2', tau1', tau2', T1', T2';
    }

    /** Writes the challenge x and the responses into the fields. */
    method StoreResponse(x': Scalar, zeta': seq<Scalar>, eta': seq<Scalar>, ip': Scalar, mu': Scalar, tauX': Scalar)
      modifies this`x, this`zeta, this`eta, this`ip, this`mu, this`tauX
      ensures x == x' && zeta == zeta' && eta == eta' && ip == ip' && mu == mu' && tauX == tauX'
    {
      x, zeta, eta, ip, mu, tauX := x', zeta', eta', ip', mu', tauX';
    }

    /** Writes the values of one run into the prover's fields. */
    method Store(alpha': int, beta': int, A': Point, B': Point, y': Scalar, z': Scalar,
                 yN': seq<Scalar>, vec2N': seq<Scalar>, z1N': seq<int>, t1': Scalar, t2': Scalar,
                 tau1': int, tau2': int, T1': Point, T2': Point, x': Scalar,
                 zeta': seq<Scalar>, eta': seq<Scalar>, ip': Scalar, mu': Scalar, tauX': Scalar)
      modifies this
      ensures alpha == alpha' && beta == beta' && A == A' && B == B' && y == y' && z == z'
      ensures yN == yN' && vec2N == vec2N' && z1N == z1N' && t1 == t1' && t2 == t2'
      ensures tau1 == tau1' && tau2 == tau2' && T1 == T1' && T2 == T2'
      ensures x == x' && zeta == zeta' && eta == eta' && ip == ip' && mu == mu' && tauX == tauX'
    {
      StoreAB(alpha', beta', A', B', y', z');
      StoreT(yN', vec2N', z1N', t1', t2', tau1', tau2', T1', T2');
      StoreResponse(x', zeta', eta', ip', mu', tauX');
    }

    /** GenerateRsp: the whole proof from the random draws of each step, in the order of
        the steps above; it returns the public coin and leaves the prover holding what it
        sent. */
    method GenerateRsp(env: Env, alphaDraw: nat, betaDraw: nat, tau1Draw: nat, tau2Draw: nat)
      returns (coin: Point, tr: Transcript)
      requires Valid()
      modifies this
      ensures coin == pubCoin
      ensures tr == Transcript(A, B, T1, T2, tauX, mu, eta, zeta, ip, [], [], x, y, z)
      ensures alpha == alphaDraw && beta == betaDraw && tau1 == tau1Draw && tau2 == tau2Draw
      ensures Committed(env, alphaDraw, betaDraw, tau1Draw, tau2Draw, A, B, y, z, yN, vec2N, z1N, t1, t2, T1, T2, x)
      ensures Responded(alphaDraw, betaDraw, tau1Draw, tau2Draw, y, z, x, zeta, eta, ip, mu, tauX)
    {
      var a, b, chY, chZ, expY, exp2, constZ, first, second, com1, com2, chX :=
        CommitPhase(env, alphaDraw, betaDraw, tau1Draw, tau2Draw);
      var l, r, product, m, blinding :=
        ResponsePhase(alphaDraw, betaDraw, tau1Draw, tau2Draw, chY, chZ, chX, expY, exp2, constZ);
      Store(alphaDraw, betaDraw, a, b, chY, chZ, expY, exp2, constZ, first, second, tau1Draw, tau2Draw,
            com1, com2, chX, l, r, product, m, blinding);
      tr := Transcript(a, b, com1, com2, blinding, m, r, l, product, [], [], chX, chY, chZ);
      coin := pubCoin;
    }
  }
}
