/** The range verifier (range_proofs/verifier.go): it copies the transcript into its
    fields, rebuilds y^d, 2^d and z 1^d from the transmitted challenges and folds the
    transcript into one right-hand-side point, which it returns without comparing it
    with anything. Validate replaces y^d by the constant vector y 1^d before it uses it,
    so delta and the weights of the H generators are built on y 1^d. */
module RangeVerifier {
  import opened Field
  import opened Group
  import opened Vectors
  import opened Commitments
  import opened Setup
  import AnyVerifier
  import RangeProver

  // ---------------------------------------------------------------------------------
  // delta
  // ---------------------------------------------------------------------------------

  /** Validate's delta = (z - z^2)·<1^d, y 1^d> - z^3·<1^d, 2^d>, on the vector 2^d the
      verifier holds. */
  function Delta(y: Scalar, z: Scalar, v2N: seq<Scalar>, d: int): Scalar
    requires Max0(d) <= |v2N|
  {
    var z2 := MulInP(z, z);
    var v1N := ScalarVector(1, d);
    SubInP(MulInP(SubInP(z, z2), InnerProduct(v1N, ScalarVector(y, d))),
           MulInP(MulInP(z, z2), InnerProduct(v1N, v2N)))
  }

  /** On the constant vector y 1^d, delta = (z - z^2)·d·y - z^3·Σ_{i < d} v_i modulo n for the
      vector v in place of 2^d, where the Bulletproofs range argument has
      (z - z^2)·Σ_{i < d} y^i in the first term. */
  lemma DeltaValue(y: Scalar, z: Scalar, v2N: seq<Scalar>, d: int)
    requires Max0(d) <= |v2N|
    ensures Delta(y, z, v2N, d)
         == ((z - z * z) * (Max0(d) * y) - (z * (z * z)) * Sum(v2N[..Max0(d)])) % N
  {
    var m, v1N := Max0(d), ScalarVector(1, d);
    var ip1, ip2 := InnerProduct(v1N, ScalarVector(y, d)), InnerProduct(v1N, v2N);
    OnesDotConstant(y, d);
    OnesDotPrefix(v2N, d);
    var z2 := MulInP(z, z);
    DeltaFactors(z);
    DeltaOf(SubInP(z, z2), ip1, MulInP(z, z2), ip2, z - z * z, m * y, z * (z * z), Sum(v2N[..m]));
  }

  /** The delta of the Bulletproofs range argument, built on the vector y^d that ParseZKP
      holds before Validate overwrites it. */
  function DeltaIntended(y: Scalar, z: Scalar, v2N: seq<Scalar>, d: int): Scalar
    requires Max0(d) <= |v2N|
  {
    var z2 := MulInP(z, z);
    var v1N := ScalarVector(1, d);
    SubInP(MulInP(SubInP(z, z2), InnerProduct(v1N, ExpVector(y, d))),
           MulInP(MulInP(z, z2), InnerProduct(v1N, v2N)))
  }

  /** On y^d, delta(y, z) = (z - z^2)·Σ_{i < d} y^i - z^3·Σ_{i < d} v_i modulo n for the
      vector v in place of 2^d. */
  lemma DeltaIntendedValue(y: Scalar, z: Scalar, v2N: seq<Scalar>, d: int)
    requires Max0(d) <= |v2N|
    ensures DeltaIntended(y, z, v2N, d)
         == ((z - z * z) * Sum(ExpVector(y, d)[..Max0(d)]) - (z * (z * z)) * Sum(v2N[..Max0(d)])) % N
  {
    var m, v1N, yN := Max0(d), ScalarVector(1, d), ExpVector(y, d);
    var ip1, ip2 := InnerProduct(v1N, yN), InnerProduct(v1N, v2N);
    OnesDotPrefix(yN, d);
    OnesDotPrefix(v2N, d);
    var z2 := MulInP(z, z);
    DeltaFactors(z);
    assert DeltaIntended(y, z, v2N, d) == SubInP(MulInP(SubInP(z, z2), ip1), MulInP(MulInP(z, z2), ip2));
    DeltaOf(SubInP(z, z2), ip1, MulInP(z, z2), ip2, z - z * z, Sum(yN[..m]), z * (z * z), Sum(v2N[..m]));
  }

  /** <1^d, y 1^d> = d·y modulo n. */
  lemma OnesDotConstant(y: Scalar, d: int)
    ensures InnerProduct(ScalarVector(1, d), ScalarVector(y, d)) == (Max0(d) * y) % N
  {
    var m, v1N, yN := Max0(d), ScalarVector(1, d), ScalarVector(y, d);
    InnerProductIsDot(v1N, yN);
    assert Products(v1N, yN) == seq(m, i requires 0 <= i < m => y);
    SumConstant(m, y);
  }

  /** <1^d, v> is the sum of the first d entries of v, modulo n. */
  lemma OnesDotPrefix(v: seq<Scalar>, d: int)
    requires Max0(d) <= |v|
    ensures InnerProduct(ScalarVector(1, d), v) == Sum(v[..Max0(d)]) % N
  {
    var m, v1N := Max0(d), ScalarVector(1, d);
    InnerProductIsDot(v1N, v);
    var p := Products(v1N, v);
    forall i | 0 <= i < m ensures p[i] == v[i] {
      assert v1N[i] == 1;
    }
    assert p == v[..m];
  }

  /** With d = 2 and y = z = 2, Validate's delta is n - 32, while delta(y, z) is n - 30. */
  lemma DeltaOverwriteDiffers(y: Scalar, z: Scalar, d: int)
    requires y == 2 && z == 2 && d == 2
    ensures Delta(y, z, ExpVector(2, d), d) == N - 32
    ensures DeltaIntended(y, z, ExpVector(2, d), d) == N - 30
  {
    var v := ExpVector(2, d);
    var s := Sum(v[..Max0(d)]);
    assert s == 3 by {
      TwoPowersSum(d);
      assert Pow2(d) == 4;
    }
    var yy, first, cube := Max0(d) * y, z - z * z, z * (z * z);
    assert yy == 4 && first == -2 && cube == 8;
    var written, intended := first * yy - cube * s, first * s - cube * s;
    assert written == -32 && intended == -30;
    DeltaValue(y, z, v, d);
    assert Delta(y, z, v, d) == written % N;
    DeltaIntendedValue(y, z, v, d);
    assert DeltaIntended(y, z, v, d) == intended % N;
  }


  /** The factors z - z^2 and z^3 of delta, taken through Sub_In_P and Mul_In_P, are the
      integers reduced modulo n. */
  lemma DeltaFactors(z: Scalar)
    ensures SubInP(z, MulInP(z, z)) == (z - z * z) % N
    ensures MulInP(z, MulInP(z, z)) == (z * (z * z)) % N
  {
    var z2 := MulInP(z, z);
    assert z2 == (z * z) % N;
    ModMultiple(-((z * z) / N), z - z2);
    MulInPOfReduced(z, z2, z * z);
  }

  /** The arithmetic of delta: a·p - b·q modulo n from the reduced factors. */
  lemma DeltaOf(zz2: Scalar, ip1: Scalar, z3: Scalar, ip2: Scalar, a: int, p: int, b: int, q: int)
    requires zz2 == a % N && ip1 == p % N && z3 == b % N && ip2 == q % N
    ensures SubInP(MulInP(zz2, ip1), MulInP(z3, ip2)) == (a * p - b * q) % N
  {
    MulOfReduced(zz2, ip1, a, p, MulInP(zz2, ip1));
    MulOfReduced(z3, ip2, b, q, MulInP(z3, ip2));
    SubOfReduced(MulInP(zz2, ip1), MulInP(z3, ip2), a * p, b * q, SubInP(MulInP(zz2, ip1), MulInP(z3, ip2)));
  }

  /** Σ_{i < d} 2^i = 2^d - 1, for the d <= 255 at which the powers are not reduced. */
  lemma {:induction false} TwoPowersSum(d: nat)
    requires d <= 255
    ensures Sum(ExpVector(2, d)[..d]) == Pow2(d) - 1
  {
    if d > 0 {
      TwoPowersSum(d - 1);
      var v, w := ExpVector(2, d)[..d], ExpVector(2, d - 1)[..d - 1];
      assert v[..d - 1] == w by {
        forall i | 0 <= i < d - 1 ensures v[i] == w[i] {
          assert v[i] == PowMod(2, i) == w[i];
        }
      }
      PowModTwo(d - 1);
      assert Pow2(d) == 2 * Pow2(d - 1);
    }
  }

  // ---------------------------------------------------------------------------------
  // the right-hand side
  // ---------------------------------------------------------------------------------

  /** Inv_Vec_H: H_i scaled by (y^-1)^i, for the first d generators. */
  function InverseH(h: seq<Point>, y: Scalar, d: int): seq<Point>
    requires 1 <= d <= |h|
  {
    var inv := ExpVector(InverseZp(y), d);
    seq(d, i requires 0 <= i < d => Commit(h[i], inv[i]))
  }

  /** (y^-1)^i·y^i = 1 modulo n when y is invertible. */
  lemma {:induction false} PowInverse(y: Scalar, i: nat)
    requires Invertible(y)
    ensures (PowMod(InverseZp(y), i) * PowMod(y, i)) % N == 1
  {
    if i > 0 {
      PowInverse(y, i - 1);
      var u := InverseZp(y);
      InverseZpCorrect(y);
      assert Load(u) == u && Load(y) == y;
      PowInverseStep(PowMod(u, i - 1), PowMod(y, i - 1), u, y);
    }
  }

  /** One step of PowInverse: a product of two inverse pairs is an inverse pair. */
  lemma PowInverseStep(a: int, b: int, u: int, y: int)
    requires (a * b) % N == 1 && (u * y) % N == 1
    ensures (((a * u) % N) * ((b * y) % N)) % N == 1
  {
    ModMul(a * u, b * y);
    assert (a * u) * (b * y) == (a * b) * (u * y);
    ModMul(a * b, u * y);
  }

  /** Scaling the i-th entry of Inv_Vec_H by y^i gives back H_i when y is invertible. */
  lemma InverseHScales(h: seq<Point>, y: Scalar, d: int, i: int)
    requires 1 <= d <= |h| && 0 <= i < d && Invertible(y)
    ensures Commit(InverseH(h, y, d)[i], PowMod(y, i)) == h[i]
  {
    var u, v := PowMod(InverseZp(y), i), PowMod(y, i);
    assert InverseH(h, y, d)[i] == Commit(h[i], u);
    PowInverse(y, i);
    MulCancel(h[i].log, u, v);
  }

  /** The scalars of the H part of step (2): z·y 1^d + z^2·2^d. */
  function Weights(y: Scalar, z: Scalar, v2N: seq<Scalar>, d: int): seq<Scalar>
    requires Max0(d) <= |v2N|
  {
    VecAdd(Scale(ScalarVector(y, d), z), Scale(v2N, MulInP(z, z)))
  }

  /** The logarithm of the point Validate returns:
      z^2·V + delta·g + x·T1 + x^2·T2 - tau_x·h + A + x·B - z·Σ_i G_i
      + Σ_i (z y + z^2 2^i)·Inv_Vec_H_i + mu·h. */
  function RhsLog(genG: Point, genH: Point, pubCoin: Point, g: seq<Point>, h: seq<Point>,
                  a: Point, b: Point, com1: Point, com2: Point, v2N: seq<Scalar>,
                  y: Scalar, z: Scalar, x: Scalar, tauX: Scalar, mu: Scalar, d: int): int
    requires 1 <= d <= |h| && d <= |v2N|
  {
    StepOneLog(genG, genH, pubCoin, com1, com2, v2N, y, z, x, tauX, d)
    + StepTwoLog(genH, g, h, a, b, v2N, y, z, x, mu, d)
  }

  /** Step (1): z^2·V + delta·g + x·T1 + x^2·T2 - tau_x·h. */
  function StepOneLog(genG: Point, genH: Point, pubCoin: Point, com1: Point, com2: Point, v2N: seq<Scalar>,
                      y: Scalar, z: Scalar, x: Scalar, tauX: Scalar, d: int): int
    requires Max0(d) <= |v2N|
  {
    pubCoin.log * MulInP(z, z) + genG.log * Delta(y, z, v2N, d) + com1.log * x + com2.log * (x * x)
    - genH.log * tauX
  }

  /** Step (2): A + x·B - z·Σ_i G_i + Σ_i (z y + z^2 2^i)·Inv_Vec_H_i + mu·h. */
  function StepTwoLog(genH: Point, g: seq<Point>, h: seq<Point>, a: Point, b: Point, v2N: seq<Scalar>,
                      y: Scalar, z: Scalar, x: Scalar, mu: Scalar, d: int): int
    requires 1 <= d <= |h| && d <= |v2N|
  {
    (a.log + b.log * x) + -(Sum(Logs(g)) * z) + Dot(Logs(InverseH(h, y, d)), Weights(y, z, v2N, d))
    + genH.log * mu
  }

  /** The scalar part of step (1): z^2, y 1^d (which Validate stores over y^d) and delta. */
  method ComputeDelta(y: Scalar, z: Scalar, v2N: seq<Scalar>, d: int) returns (yN: seq<int>, z2: Scalar, delta: Scalar)
    requires Max0(d) <= |v2N|
    ensures yN == ScalarVector(y, d) && z2 == MulInP(z, z) && delta == Delta(y, z, v2N, d)
  {
    z2 := MulInP(z, z);
    var v1N := GenerateScalarVector(1, d);
    yN := GenerateScalarVector(y, d);
    var zZ2 := SubInP(z, z2);
    var v1NYN := CalIPVec(v1N, yN);
    var delta1 := MulInP(zZ2, v1NYN);
    var z3 := MulInP(z, z2);
    var v1N2N := CalIPVec(v1N, v2N);
    var delta2 := MulInP(z3, v1N2N);
    delta := SubInP(delta1, delta2);
  }

  /** The exponent of s·P before its reduction modulo n. */
  function Exponent(p: Point, s: int): int
  {
    p.log * s
  }

  /** Step (1) of Validate: z^2·V + delta·g + x·T1 + x^2·T2 - tau_x·h. */
  method StepOne(genG: Point, genH: Point, pubCoin: Point, com1: Point, com2: Point,
                 z2: Scalar, delta: Scalar, x: Scalar, tauX: Scalar)
    returns (rhs: Point)
    ensures rhs.log == (Exponent(pubCoin, z2) + Exponent(genG, delta) + Exponent(com1, x)
                        + Exponent(com2, x * x) - Exponent(genH, tauX)) % N
  {
    var genVZ2 := Commit(pubCoin, z2);
    var genGDelta := Commit(genG, delta);
    var x2 := MulInP(x, x);
    var t1T2 := PedersenCommit(com1, com2, x, x2);
    AnyVerifier.MulSquare(com2.log, x);
    AnyVerifier.AddCongruent(com1.log * x, com2.log * x2, com1.log * x, com2.log * (x * x));
    var d0, d1 := pubCoin.log * z2, genG.log * delta;
    AnyVerifier.AddLogs(genVZ2, genGDelta, d0, d1);
    rhs := PointAdd(genVZ2, genGDelta);
    var d2 := com1.log * x + com2.log * (x * x);
    AnyVerifier.AddLogs(rhs, t1T2, d0 + d1, d2);
    rhs := PointAdd(rhs, t1T2);
    var negTaux := NegZp(tauX);
    var genHTaux := Commit(genH, negTaux);
    AnyVerifier.NegCommitLog(genH, tauX);
    AnyVerifier.AddLogs(rhs, genHTaux, d0 + d1 + d2, -(genH.log * tauX));
    rhs := PointAdd(rhs, genHTaux);
    ModEqual(d0 + d1 + d2 + -(genH.log * tauX),
             pubCoin.log * z2 + genG.log * delta + com1.log * x + com2.log * (x * x) - genH.log * tauX);
  }

  /** -z·Σ_i G_i, from the constant vector of -z. */
  method NegZTerm(g: seq<Point>, z: Scalar, d: int) returns (gNegZ1N: Point)
    requires 1 <= |g| <= d
    ensures gNegZ1N.log == (-(Sum(Logs(g)) * z)) % N
  {
    var negZ1N := GenerateScalarVector(NegZp(z), d);
    gNegZ1N := CommitVector(g, negZ1N);
    AnyVerifier.MultiExpConstant(g, d, NegZp(z));
    AnyVerifier.NegLog(Sum(Logs(g)), z);
    assert NegZp(z) * Sum(Logs(g)) == Sum(Logs(g)) * NegZp(z);
  }

  /** Inv_Vec_H from the powers of the inverse of y. */
  method InverseVectorH(h: seq<Point>, y: Scalar, d: int) returns (invVecH: seq<Point>)
    requires 1 <= d <= |h|
    ensures invVecH == InverseH(h, y, d)
  {
    var invYN := GenerateExpScalarVector(InverseZp(y), d);
    invVecH := GeneratePointVectorWithY(h, invYN);
  }

  /** Σ_i w_i·Inv_Vec_H_i for the weights w = z·yN + z^2·2^d. */
  method WeightedH(invVecH: seq<Point>, yN: seq<int>, v2N: seq<Scalar>, y: Scalar, z: Scalar,
                   z2: Scalar, d: int)
    returns (genHZY: Point)
    requires 1 <= d == |invVecH| <= |v2N| && yN == ScalarVector(y, d) && z2 == MulInP(z, z)
    ensures genHZY.log == Dot(Logs(invVecH), Weights(y, z, v2N, d)) % N
  {
    var zYN := CalScaVec(yN, z);
    var z22N := CalScaVec(v2N, z2);
    var w := CalAddVec(zYN, z22N);
    genHZY := CommitVector(invVecH, w);
    MultiExpIsDot(invVecH, w);
    assert Loads(w) == w;
  }

  /** Step (2) of Validate: adds A + x·B, -z·Σ_i G_i, Σ_i w_i·Inv_Vec_H_i and mu·h. */
  method StepTwo(rhs0: Point, e: int, genH: Point, a: Point, b: Point, gNegZ1N: Point, genHZY: Point,
                 sg: int, dh: int, x: Scalar, z: Scalar, mu: Scalar)
    returns (rhs: Point)
    requires rhs0.log == e % N && gNegZ1N.log == (-(sg * z)) % N && genHZY.log == dh % N
    ensures rhs.log == (e + ((a.log + b.log * x) + -(sg * z) + dh + genH.log * mu)) % N
  {
    var aBx := PedersenCommit(a, b, 1, x);
    assert aBx.log == (a.log + b.log * x) % N by {
      assert Load(1) == 1 && Load(x) == x;
      assert a.log * 1 == a.log;
    }
    var d1 := a.log + b.log * x;
    AnyVerifier.AddLogs(rhs0, aBx, e, d1);
    rhs := PointAdd(rhs0, aBx);
    AnyVerifier.AddLogs(rhs, gNegZ1N, e + d1, -(sg * z));
    rhs := PointAdd(rhs, gNegZ1N);
    AnyVerifier.AddLogs(rhs, genHZY, e + d1 + -(sg * z), dh);
    rhs := PointAdd(rhs, genHZY);
    var comMu := Commit(genH, mu);
    AnyVerifier.AddLogs(rhs, comMu, e + d1 + -(sg * z) + dh, genH.log * mu);
    rhs := PointAdd(rhs, comMu);
  }

  /** Step (1) of Validate with its scalars: y 1^d, z^2, delta and the partial sum. */
  method FoldOne(genG: Point, genH: Point, pubCoin: Point, com1: Point, com2: Point, v2N: seq<Scalar>,
                 y: Scalar, z: Scalar, x: Scalar, tauX: Scalar, d: int)
    returns (yN: seq<int>, z2: Scalar, rhs: Point)
    requires Max0(d) <= |v2N|
    ensures yN == ScalarVector(y, d) && z2 == MulInP(z, z)
    ensures rhs.log == StepOneLog(genG, genH, pubCoin, com1, com2, v2N, y, z, x, tauX, d) % N
  {
    var delta;
    yN, z2, delta := ComputeDelta(y, z, v2N, d);
    rhs := StepOne(genG, genH, pubCoin, com1, com2, z2, delta, x, tauX);
  }

  /** The computation of Validate on the verifier's values: y 1^d and the right-hand side. */
  method Fold(genG: Point, genH: Point, pubCoin: Point, g: seq<Point>, h: seq<Point>,
              a: Point, b: Point, com1: Point, com2: Point, v2N: seq<Scalar>,
              y: Scalar, z: Scalar, x: Scalar, tauX: Scalar, mu: Scalar, d: int)
    returns (yN: seq<int>, rhs: Point)
    requires 1 <= |g| <= d <= |h| && d <= |v2N|
    ensures yN == ScalarVector(y, d)
    ensures rhs.log == RhsLog(genG, genH, pubCoin, g, h, a, b, com1, com2, v2N, y, z, x, tauX, mu, d) % N
  {
    var z2;
    yN, z2, rhs := FoldOne(genG, genH, pubCoin, com1, com2, v2N, y, z, x, tauX, d);
    var invVecH := InverseVectorH(h, y, d);
    var gNegZ1N := NegZTerm(g, z, d);
    var genHZY := WeightedH(invVecH, yN, v2N, y, z, z2, d);
    var e := StepOneLog(genG, genH, pubCoin, com1, com2, v2N, y, z, x, tauX, d);
    var sg, dh := Sum(Logs(g)), Dot(Logs(invVecH), Weights(y, z, v2N, d));
    var t := StepTwoLog(genH, g, h, a, b, v2N, y, z, x, mu, d);
    assert t == (a.log + b.log * x) + -(sg * z) + dh + genH.log * mu;
    rhs := StepTwo(rhs, e, genH, a, b, gNegZ1N, genHZY, sg, dh, x, z, mu);
    assert rhs.log == (e + t) % N;
    assert RhsLog(genG, genH, pubCoin, g, h, a, b, com1, com2, v2N, y, z, x, tauX, mu, d) == e + t;
  }

  // ---------------------------------------------------------------------------------
  // the verifier object
  // ---------------------------------------------------------------------------------

  /** A transcript with every point at infinity and every scalar 0, the value the
      verifier holds before one is handed to it. */
  const EmptyTranscript: RangeProver.Transcript :=
    RangeProver.Transcript(Identity, Identity, Identity, Identity, 0, 0, [], [], 0, [], [], 0, 0, 0)

  class Verifier {
    // public parameters
    const genG: Point
    const genH: Point
    const genVecG: seq<Point>
    const genVecH: seq<Point>
    const d: int
    // the public coin and the proof, both set by the caller
    var pubCoin: Point
    var trans: RangeProver.Transcript
    // the values ParseZKP copies out of the proof
    var A: Point
    var B: Point
    var T1: Point
    var T2: Point
    var tauX: Scalar
    var mu: Scalar
    var ip: Scalar
    var x: Scalar
    var y: Scalar
    var z: Scalar
    // the vectors rebuilt from the challenges
    var yN: seq<int>
    var z1N: seq<int>
    var vec2N: seq<Scalar>

    /** New: keeps the generators and the width d. Everything else starts empty or zero. */
    constructor (g: Point, h: Point, gVector: seq<Point>, hVector: seq<Point>, d: int)
      ensures genG == g && genH == h && genVecG == gVector && genVecH == hVector && this.d == d
      ensures pubCoin == Identity && trans == EmptyTranscript
    {
      genG, genH, genVecG, genVecH, this.d := g, h, gVector, hVector, d;
      pubCoin, trans := Identity, EmptyTranscript;
      A, B, T1, T2 := Identity, Identity, Identity, Identity;
      tauX, mu, ip, x, y, z := 0, 0, 0, 0, 0, 0;
      yN, z1N, vec2N := [], [], [];
    }

    /** ParseZKP: copies the proof into the fields, takes the challenges as sent, builds
        y^d, 2^d and z 1^d, and returns what Validate returns; by then yN holds y 1^d. */
    method ParseZKP() returns (rhs: Point)
      requires 1 <= |genVecG| <= d <= |genVecH|
      modifies this
      ensures A == trans.A && B == trans.B && T1 == trans.T1 && T2 == trans.T2
      ensures tauX == trans.tauX && mu == trans.mu && ip == trans.ip
      ensures x == trans.x && y == trans.y && z == trans.z
      ensures vec2N == ExpVector(2, d) && z1N == ScalarVector(z, d) && yN == ScalarVector(y, d)
      ensures pubCoin == old(pubCoin) && trans == old(trans)
      ensures rhs.log == RhsLog(genG, genH, pubCoin, genVecG, genVecH, A, B, T1, T2, vec2N,
                                y, z, x, tauX, mu, d) % N
    {
      Copy();
      rhs := Validate();
    }

    /** The field assignments of ParseZKP before it calls Validate. */
    method Copy()
      modifies this`A, this`B, this`T1, this`T2, this`tauX, this`mu, this`ip, this`x, this`y, this`z,
               this`yN, this`z1N, this`vec2N
      ensures A == trans.A && B == trans.B && T1 == trans.T1 && T2 == trans.T2
      ensures tauX == trans.tauX && mu == trans.mu && ip == trans.ip
      ensures x == trans.x && y == trans.y && z == trans.z
      ensures yN == ExpVector(y, d) && vec2N == ExpVector(2, d) && z1N == ScalarVector(z, d)
    {
      CopyCommitments();
      CopyScalars();
      BuildVectors();
    }

    /** The commitments of the proof. */
    method CopyCommitments()
      modifies this`A, this`B, this`T1, this`T2
      ensures A == trans.A && B == trans.B && T1 == trans.T1 && T2 == trans.T2
    {
      A, B, T1, T2 := trans.A, trans.B, trans.T1, trans.T2;
    }

    /** The responses and the challenges of the proof. */
    method CopyScalars()
      modifies this`tauX, this`mu, this`ip, this`x, this`y, this`z
      ensures tauX == trans.tauX && mu == trans.mu && ip == trans.ip
      ensures x == trans.x && y == trans.y && z == trans.z
    {
      tauX, mu, ip := trans.tauX, trans.mu, trans.ip;
      x, y, z := trans.x, trans.y, trans.z;
    }

    /** y^d, 2^d and z 1^d from the copied challenges. */
    method BuildVectors()
      modifies this`yN, this`z1N, this`vec2N
      ensures yN == ExpVector(y, d) && vec2N == ExpVector(2, d) && z1N == ScalarVector(z, d)
    {
      var expY := GenerateExpScalarVector(y, d);
      yN := expY;
      vec2N := GenerateExpScalarVector(2, d);
      z1N := GenerateScalarVector(z, d);
    }

    /** Validate: overwrites yN with y 1^d, then adds up steps (1) and (2). */
    method Validate() returns (rhs: Point)
      requires 1 <= |genVecG| <= d <= |genVecH| && d <= |vec2N|
      modifies this`yN
      ensures yN == ScalarVector(y, d)
      ensures rhs.log == RhsLog(genG, genH, pubCoin, genVecG, genVecH, A, B, T1, T2, vec2N,
                                y, z, x, tauX, mu, d) % N
    {
      var constY, r := Fold(genG, genH, pubCoin, genVecG, genVecH, A, B, T1, T2, vec2N, y, z, x, tauX, mu, d);
      yN, rhs := constY, r;
    }
  }
}
