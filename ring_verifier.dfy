/** The interactive verifier of the any-out-of-many ring proof
    (Any-out-of-Many-Proofs/verifier.go). Unlike the verifier of any_proofs, it draws its
    own challenges y, z and x, and it decides: ParseZKP accepts exactly when the four
    equations checkT, checkAB, checkSk and checkIP all hold. Each check compares two
    points coordinate by coordinate, so on a curve whose coordinates tell points apart a
    check passes exactly when its equation holds between the logarithms.

    The proof it reads carries tau_x, mu, eta, zeta, ip and f_s, the responses of the
    prover in any_proofs/prover.go; the prover of this package sends other fields. */
module RingVerifier {
  import opened Field
  import opened Group
  import opened Vectors
  import opened Commitments
  import opened Setup
  import opened Results
  import CheckedVectors
  import CurveCommitments
  import AnyVerifier
  import AnyProver
  import AnyAlgebra

  /** The responses the verifier copies out of the proof. */
  datatype Proof = Proof(tauX: int, mu: int, eta: seq<int>, zeta: seq<int>, ip: int, fs: int)

  // ---------------------------------------------------------------------------------
  // the four equations, between logarithms
  // ---------------------------------------------------------------------------------

  /** The delta of checkT, with the errors of the checked vector operations: a failed
      Cal_Add_Vec or Cal_HP_Vec leaves a nil vector, and a failed Cal_IP_Vec leaves delta
      nil, which the commitment then dereferences. */
  function DeltaOf(z1N: seq<int>, v1N: seq<int>, yN: seq<int>): Option<Scalar>
  {
    var sum := if |z1N| == |v1N| then VecAdd(z1N, v1N) else [];
    var hp := if |z1N| == |yN| then Hadamard(z1N, yN) else [];
    if |hp| == |sum| then Some(InnerProduct(hp, sum)) else None
  }

  /** checkT: ip·V + tau_x·U = delta·V + x·T1 + x^2·T2. */
  predicate TEquation(genV: Point, genU: Point, t1: Point, t2: Point, delta: int, x: int, ip: int, tauX: int)
  {
    (genV.log * Load(ip) + genU.log * Load(tauX)) % N
      == (genV.log * Load(delta) + t1.log * Load(x) + t2.log * (Load(x) * Load(x))) % N
  }

  /** checkAB: Σ_i (zeta_i y_i^{-1})·G_i + Σ_i eta_i·H_i + mu·U = A + x·B + Σ_i (z·G_i + z·H_i),
      over the |G| generators, with y_i^{-1} the Inverse_Zp of the i-th entry of y^N. */
  predicate ABEquation(g: seq<Point>, h: seq<Point>, genU: Point, a: Point, b: Point, yN: seq<int>, z1N: seq<int>,
                       x: int, zeta: seq<int>, eta: seq<int>, mu: int)
    requires |g| <= |h| && |g| <= |zeta| == |yN| && |g| <= |eta| && |g| <= |z1N|
  {
    (Dot(Logs(g), Loads(Hadamard(zeta, VecInv(yN)))) + Dot(Logs(h[..|g|]), Loads(eta)) + genU.log * Load(mu)) % N
      == (a.log + b.log * Load(x) + Dot(Logs(g), Loads(z1N)) + Dot(Logs(h[..|g|]), Loads(z1N))) % N
  }

  /** checkSk: Σ_i zeta_i·P_i = f_s·Pck + x·E + Σ_i (z y_i)·P_i, over the ring P. */
  predicate SkEquation(keys: seq<Point>, publicCk: Point, e: Point, yN: seq<int>, z: int, x: int,
                       zeta: seq<int>, fs: int)
    requires |keys| <= |zeta| && |keys| <= |yN|
  {
    Dot(Logs(keys), Loads(zeta)) % N
      == (publicCk.log * Load(fs) + e.log * Load(x) + Dot(Logs(keys), Loads(Scale(yN, z)))) % N
  }

  /** checkIP: ip = Σ_i zeta_i eta_i modulo n, compared with ip as sent, unreduced. */
  predicate IPEquation(zeta: seq<int>, eta: seq<int>, ip: int)
    requires |zeta| <= |eta|
  {
    ip == Dot(Loads(zeta), Loads(eta)) % N
  }

  // ---------------------------------------------------------------------------------
  // reading the checks' points as logarithms
  // ---------------------------------------------------------------------------------

  /** Two points are equal exactly when their logarithms are. */
  lemma PointsEqual(p: Point, q: Point, d: int, e: int)
    requires p.log == d % N && q.log == e % N
    ensures p == q <==> d % N == e % N
  {
  }

  /** The right-hand side of checkT: delta·V + x·T1 + Mul_In_P(x, x)·T2. */
  lemma TRightLog(genV: Point, t1: Point, t2: Point, delta: Scalar, x: int)
    ensures PointAdd(CurveCommitments.Commit(genV, delta), CurveCommitments.PedersenCommit(t1, t2, x, MulInP(x, x))).log
         == (genV.log * Load(delta) + t1.log * Load(x) + t2.log * (Load(x) * Load(x))) % N
  {
    var lx := Load(x);
    var x2 := MulInP(x, x);
    assert Load(x2) == (lx * lx) % N;
    assert (t2.log * Load(x2)) % N == (t2.log * (lx * lx)) % N by {
      assert t2.log * Load(x2) == Load(x2) * t2.log;
      ModMulLeft(lx * lx, t2.log);
      assert (lx * lx) * t2.log == t2.log * (lx * lx);
    }
    var u, v, w := genV.log * Load(delta), t1.log * lx, t2.log * Load(x2);
    ModAdd(v, w);
    ModAdd(v, t2.log * (lx * lx));
    ModAdd(u, v + w);
    ModAdd(u, v + t2.log * (lx * lx));
  }

  /** The two sides of checkT are equal exactly when TEquation holds. */
  lemma TLogs(genV: Point, genU: Point, t1: Point, t2: Point, delta: Scalar, x: int, ip: int, tauX: int,
              lhs: Point, rhs: Point)
    requires lhs == CurveCommitments.PedersenCommit(genV, genU, ip, tauX)
    requires rhs == PointAdd(CurveCommitments.Commit(genV, delta), CurveCommitments.PedersenCommit(t1, t2, x, MulInP(x, x)))
    ensures lhs == rhs <==> TEquation(genV, genU, t1, t2, delta, x, ip, tauX)
  {
    TRightLog(genV, t1, t2, delta, x);
    PointsEqual(lhs, rhs, genV.log * Load(ip) + genU.log * Load(tauX),
                genV.log * Load(delta) + t1.log * Load(x) + t2.log * (Load(x) * Load(x)));
  }

  /** A Pedersen vector commitment read as dot products of the logarithms with the
      loaded scalars, named d and e so that no goal unfolds both recursive definitions. */
  lemma PedersenVectorLog(g: seq<Point>, h: seq<Point>, s: seq<int>, r: seq<int>, com: Point, d: int, e: int)
    requires |g| <= |h| && |g| <= |s| && |g| <= |r|
    requires com == PointAdd(MultiExp(g, s), MultiExp(h[..|g|], r))
    requires d == Dot(Logs(g), Loads(s)) && e == Dot(Logs(h[..|g|]), Loads(r))
    ensures com.log == (d + e) % N
  {
    var p, q := MultiExp(g, s), MultiExp(h[..|g|], r);
    MultiExpIsDotOf(g, s, p, d);
    MultiExpIsDotOf(h[..|g|], r, q, e);
    AnyVerifier.AddLogs(p, q, d, e);
  }

  /** The dot product is symmetric. */
  lemma DotSymmetric(a: seq<int>, b: seq<int>)
    requires |a| == |b|
    ensures Dot(a, b) == Dot(b, a)
  {
    assert Products(a, b) == Products(b, a) by {
      forall i | 0 <= i < |a| ensures Products(a, b)[i] == Products(b, a)[i] {
        assert a[i] * b[i] == b[i] * a[i];
      }
    }
  }

  /** Cal_IP_Vec on any two vectors is the dot product of their loaded entries, reduced. */
  lemma InnerProductOfLoads(a: seq<int>, b: seq<int>)
    requires |a| <= |b|
    ensures InnerProduct(a, b) == Dot(Loads(a), Loads(b)) % N
  {
    var la, lb := Loads(a), Loads(b);
    forall i | 0 <= i < |a| ensures Load(a[i]) == la[i] % N && Load(b[i]) == lb[i] % N {
    }
    InnerProductLifted(a, b, la, lb);
  }

  /** Cal_IP_Vec is symmetric on vectors of one length. */
  lemma InnerProductSymmetric(a: seq<int>, b: seq<int>)
    requires |a| == |b|
    ensures InnerProduct(a, b) == InnerProduct(b, a)
  {
    InnerProductOfLoads(a, b);
    InnerProductOfLoads(b, a);
    DotSymmetric(Loads(a), Loads(b));
  }

  // ---------------------------------------------------------------------------------
  // delta on the vectors GetYZ builds
  // ---------------------------------------------------------------------------------

  /** On the vectors GetYZ builds, no vector operation of checkT fails, delta is the
      delta of any_proofs' Validate, and it equals (z + z^2) Σ_{i < N} y^i modulo n. */
  lemma DeltaOfBuilt(y: Scalar, z: Scalar, n: int)
    ensures DeltaOf(ScalarVector(z, n), ScalarVector(1, n), ExpVector(y, n))
         == Some(AnyVerifier.Delta(ScalarVector(z, n), ScalarVector(1, n), ExpVector(y, n)))
    ensures DeltaOf(ScalarVector(z, n), ScalarVector(1, n), ExpVector(y, n))
         == Some(((z + z * z) * Sum(ExpVector(y, n)[..Max0(n)])) % N)
  {
    var z1N, v1N, yN := ScalarVector(z, n), ScalarVector(1, n), ExpVector(y, n);
    if n <= 0 {
      assert z1N == [] && v1N == [] && |yN| == 1;
      assert Hadamard(z1N, yN) == [] && VecAdd(z1N, v1N) == [];
    }
    AnyVerifier.DeltaValue(y, z, n);
  }

  // ---------------------------------------------------------------------------------
  // completeness against the any-out-of-many prover
  // ---------------------------------------------------------------------------------

  /** checkT holds on the transcript of an honest prover of any_proofs/prover.go, for the
      delta this verifier computes from the y and z the prover answered. */
  lemma HonestT(p: AnyProver.Prover, env: Env, alphaDraw: int, betaDraw: int,
                tau1Draw: int, tau2Draw: int, rsDraw: int,
                a: Point, b: Point, y: Scalar, z: Scalar, yN: seq<Scalar>, z1N: seq<int>,
                t1: Scalar, t2: Scalar, c1: Point, c2: Point, e: Point, x: Scalar,
                eta: seq<Scalar>, zeta: seq<Scalar>, ip: Scalar, mu: Scalar, tauX: Scalar, fs: Scalar)
    requires p.Valid() && |p.pubVecKey| == p.n
    requires p.Committed(env, alphaDraw, betaDraw, tau1Draw, tau2Draw, rsDraw, a, b, y, z, yN, z1N, t1, t2, c1, c2, e, x)
    requires p.Responded(alphaDraw, betaDraw, tau1Draw, tau2Draw, rsDraw, y, z, x, eta, zeta, ip, mu, tauX, fs)
    ensures DeltaOf(ScalarVector(z, p.n), ScalarVector(1, p.n), ExpVector(y, p.n)).Some?
    ensures TEquation(p.genV, p.genU, c1, c2, DeltaOf(ScalarVector(z, p.n), ScalarVector(1, p.n), ExpVector(y, p.n)).value,
                      x, ip, tauX)
  {
    DeltaOfBuilt(y, z, p.n);
    AnyVerifier.HonestPolynomialStep(p, env, alphaDraw, betaDraw, tau1Draw, tau2Draw, rsDraw, a, b, y, z, yN, z1N,
                                     t1, t2, c1, c2, e, x, eta, zeta, ip, mu, tauX, fs);
    TFromBlinded(p.genV, p.genU, c1, c2, AnyVerifier.Delta(ScalarVector(z, p.n), ScalarVector(1, p.n), ExpVector(y, p.n)),
                 x, ip, tauX);
  }

  /** The blinded form of checkT that the honest prover's polynomial satisfies, with
      tauX subtracted on the left, gives checkT itself. */
  lemma TFromBlinded(genV: Point, genU: Point, c1: Point, c2: Point, delta: Scalar, x: Scalar, ip: Scalar, tauX: Scalar)
    requires PointAdd(PointAdd(Commit(genV, delta), PedersenCommit(c1, c2, x, MulInP(x, x))), Commit(genU, NegZp(tauX)))
          == Commit(genV, ip)
    ensures TEquation(genV, genU, c1, c2, delta, x, ip, tauX)
  {
    var left := PointAdd(Commit(genV, delta), PedersenCommit(c1, c2, x, MulInP(x, x)));
    TRightLog(genV, c1, c2, delta, x);
    var r := genV.log * delta + c1.log * x + c2.log * (x * x);
    assert left.log == r % N;
    AnyVerifier.NegCommitLog(genU, tauX);
    AnyVerifier.AddLogs(left, Commit(genU, NegZp(tauX)), r, -(genU.log * tauX));
    assert (r + -(genU.log * tauX)) % N == (genV.log * ip) % N;
    RestoreBlinding(r, genV.log * ip, genU.log * tauX);
  }

  /** From r - u = v modulo n, r = v + u modulo n. */
  lemma RestoreBlinding(r: int, v: int, u: int)
    requires (r + -u) % N == v % N
    ensures (v + u) % N == r % N
  {
    ModAddLeft(r + -u, u);
    ModAddLeft(v, u);
  }

  /** checkIP holds on the responses of an honest prover of any_proofs/prover.go, which
      sends ip = <eta, zeta>. */
  lemma HonestIP(p: AnyProver.Prover, alphaDraw: int, betaDraw: int, tau1Draw: int, tau2Draw: int, rsDraw: int,
                 y: Scalar, z: Scalar, x: Scalar, eta: seq<Scalar>, zeta: seq<Scalar>,
                 ip: Scalar, mu: Scalar, tauX: Scalar, fs: Scalar)
    requires p.Valid() && p.Responded(alphaDraw, betaDraw, tau1Draw, tau2Draw, rsDraw, y, z, x, eta, zeta, ip, mu, tauX, fs)
    ensures |zeta| == |eta| && IPEquation(zeta, eta, ip)
  {
    assert |zeta| == p.n == |eta|;
    InnerProductSymmetric(eta, zeta);
    InnerProductOfLoads(zeta, eta);
  }

  // ---------------------------------------------------------------------------------
  // the verifier object
  // ---------------------------------------------------------------------------------

  /** A proof with every scalar 0 and empty vectors, the value the verifier holds before
      one is handed to it. */
  const EmptyProof: Proof := Proof(0, 0, [], [], 0, 0)

  class Verifier {
    // public parameters
    const publicCk: Point
    const genU: Point
    const genV: Point
    const genVecG: seq<Point>
    const genVecH: seq<Point>
    const n: int
    const curve: Env
    // the ring and the commitments, set by the caller
    var pubVecKey: seq<Point>
    var A: Point
    var B: Point
    var T1: Point
    var T2: Point
    var E: Point
    // the challenges
    var y: int
    var z: int
    var x: int
    // the responses ParseZKP copies out of the proof
    var eta: seq<int>
    var zeta: seq<int>
    var ip: int
    var tauX: int
    var mu: int
    var fs: int
    // the vectors built from y and z
    var yN: seq<Scalar>
    var y2N: seq<Scalar>
    var z1N: seq<int>
    var v1N: seq<int>
    // the proof, set by the caller
    var proverZKP: Proof

    /** New: keeps the commitment key, U, V, the first N generators of each vector, N and
        the curve; the generator G and k are not kept. */
    constructor (publicCk: Point, g: Point, u: Point, v: Point, gVector: seq<Point>, hVector: seq<Point>,
                 k: int, n: int, curve: Env)
      requires 0 <= n <= |gVector| && n <= |hVector|
      ensures this.publicCk == publicCk && genU == u && genV == v && this.n == n && this.curve == curve
      ensures genVecG == gVector[..n] && genVecH == hVector[..n] && |genVecG| == |genVecH| == n
      ensures pubVecKey == [] && proverZKP == EmptyProof
    {
      this.publicCk := publicCk;
      genU := u;
      genV := v;
      genVecH := hVector[..n];
      genVecG := gVector[..n];
      this.n := n;
      this.curve := curve;
      pubVecKey := [];
      A, B, T1, T2, E := Identity, Identity, Identity, Identity, Identity;
      y, z, x := 0, 0, 0;
      eta, zeta := [], [];
      ip, tauX, mu, fs := 0, 0, 0, 0;
      yN, y2N, z1N, v1N := [], [], [], [];
      proverZKP := EmptyProof;
    }

    /** GetYZ: the challenges y and z, drawn by Generate_Random_Zp, and y^N, 2^N, z 1^N and
        1^N built from them. */
    method GetYZ(yDraw: nat, zDraw: nat) returns (y': int, z': int)
      modifies this`y, this`z, this`yN, this`y2N, this`z1N, this`v1N
      ensures y == yDraw && z == zDraw && y' == y && z' == z
      ensures yN == ExpVector(y, n) && y2N == ExpVector(2, n)
      ensures z1N == ScalarVector(z, n) && v1N == ScalarVector(1, n)
    {
      y := yDraw;
      z := zDraw;
      yN := GenerateExpScalarVector(y, n);
      y2N := GenerateExpScalarVector(2, n);
      z1N := GenerateScalarVector(z, n);
      v1N := GenerateScalarVector(1, n);
      y', z' := y, z;
    }

    /** GetX: the challenge x, drawn by Generate_Random_Zp. */
    method GetX(xDraw: nat) returns (x': int)
      modifies this`x
      ensures x == xDraw && x' == x
    {
      x := xDraw;
      x' := x;
    }

    /** checkT, on the delta the checked vector operations produce. */
    method CheckT() returns (ok: bool)
      requires DeltaOf(z1N, v1N, yN).Some?
      ensures TEquation(genV, genU, T1, T2, DeltaOf(z1N, v1N, yN).value, x, ip, tauX) ==> ok
      ensures Injective(curve) ==> (ok ==> TEquation(genV, genU, T1, T2, DeltaOf(z1N, v1N, yN).value, x, ip, tauX))
    {
      var sumR := CheckedVectors.CalAddVec(z1N, v1N);
      var hpR := CheckedVectors.CalHPVec(z1N, yN);
      var z1N1N := if sumR.Success? then sumR.value else [];
      var z1NYN := if hpR.Success? then hpR.value else [];
      var deltaR := CheckedVectors.CalIPVec(z1NYN, z1N1N);
      var delta := deltaR.value;
      var lhs := CurveCommitments.PedersenCommit(genV, genU, ip, tauX);
      var x2 := MulInP(x, x);
      var vDelta := CurveCommitments.Commit(genV, delta);
      var t1T2 := CurveCommitments.PedersenCommit(T1, T2, x, x2);
      var rhs := PointAdd(vDelta, t1T2);
      TLogs(genV, genU, T1, T2, delta, x, ip, tauX, lhs, rhs);
      ok := CurveCommitments.CommitIsEqual(curve, lhs, rhs);
    }

    /** checkAB. */
    method CheckAB() returns (ok: bool)
      requires 1 <= |genVecG| <= |genVecH| && |zeta| == |yN| && |genVecG| <= |zeta|
      requires |genVecG| <= |eta| && |genVecG| <= |z1N|
      ensures ABEquation(genVecG, genVecH, genU, A, B, yN, z1N, x, zeta, eta, mu) ==> ok
      ensures Injective(curve) ==> (ok ==> ABEquation(genVecG, genVecH, genU, A, B, yN, z1N, x, zeta, eta, mu))
    {
      var invYN := CheckedVectors.CalInvVec(yN);
      var hpR := CheckedVectors.CalHPVec(zeta, invYN);
      var zetaNoY := hpR.value;
      var gZetaHEta := CurveCommitments.PedersenCommitVector(genVecG, genVecH, zetaNoY, eta);
      var uMu := CurveCommitments.Commit(genU, mu);
      var lhs := PointAdd(gZetaHEta, uMu);
      var aBx := CurveCommitments.PedersenCommit(A, B, 1, x);
      var gZ1NHZ1N := CurveCommitments.PedersenCommitVector(genVecG, genVecH, z1N, z1N);
      var rhs := PointAdd(aBx, gZ1NHZ1N);
      var hG := genVecH[..|genVecG|];
      var dG, dH := Dot(Logs(genVecG), Loads(zetaNoY)), Dot(Logs(hG), Loads(eta));
      var zG, zH := Dot(Logs(genVecG), Loads(z1N)), Dot(Logs(hG), Loads(z1N));
      PedersenVectorLog(genVecG, genVecH, zetaNoY, eta, gZetaHEta, dG, dH);
      PedersenVectorLog(genVecG, genVecH, z1N, z1N, gZ1NHZ1N, zG, zH);
      ABLogs(genVecG, genVecH, genU, A, B, yN, z1N, x, zeta, eta, mu, zetaNoY,
             gZetaHEta, uMu, lhs, aBx, gZ1NHZ1N, rhs, dG, dH, zG, zH);
      ok := CurveCommitments.CommitIsEqual(curve, lhs, rhs);
    }

    /** checkSk. */
    method CheckSk() returns (ok: bool)
      requires 1 <= |pubVecKey| <= |zeta| && |pubVecKey| <= |yN|
      ensures SkEquation(pubVecKey, publicCk, E, yN, z, x, zeta, fs) ==> ok
      ensures Injective(curve) ==> (ok ==> SkEquation(pubVecKey, publicCk, E, yN, z, x, zeta, fs))
    {
      var lhs := CurveCommitments.CommitVector(pubVecKey, zeta);
      var comSk := CurveCommitments.PedersenCommit(publicCk, E, fs, x);
      var zYN := CheckedVectors.CalScaVec(yN, z);
      var pZYN := CurveCommitments.CommitVector(pubVecKey, zYN);
      var rhs := PointAdd(comSk, pZYN);
      var dZeta, dZYN := Dot(Logs(pubVecKey), Loads(zeta)), Dot(Logs(pubVecKey), Loads(zYN));
      MultiExpIsDotOf(pubVecKey, zeta, lhs, dZeta);
      MultiExpIsDotOf(pubVecKey, zYN, pZYN, dZYN);
      SkLogs(pubVecKey, publicCk, E, yN, z, x, zeta, fs, zYN, lhs, comSk, pZYN, rhs, dZeta, dZYN);
      ok := CurveCommitments.CommitIsEqual(curve, lhs, rhs);
    }

    /** checkIP. */
    method CheckIP() returns (ok: bool)
      requires |zeta| == |eta|
      ensures ok <==> IPEquation(zeta, eta, ip)
    {
      var res := CheckedVectors.CalIPVec(zeta, eta);
      InnerProductOfLoads(zeta, eta);
      ok := ip == res.value;
    }

    /** ParseZKP: copies the responses out of the proof and runs the four checks, all of
        them, whatever the earlier ones returned. The source prints the verdict; here it
        is returned. */
    method ParseZKP() returns (accepted: bool)
      requires DeltaOf(z1N, v1N, yN).Some?
      requires 1 <= |genVecG| <= |genVecH| && |proverZKP.zeta| == |yN| && |genVecG| <= |proverZKP.zeta|
      requires |genVecG| <= |proverZKP.eta| && |genVecG| <= |z1N|
      requires 1 <= |pubVecKey| <= |proverZKP.zeta| && |pubVecKey| <= |yN|
      requires |proverZKP.zeta| == |proverZKP.eta|
      modifies this`tauX, this`mu, this`eta, this`zeta, this`ip, this`fs
      ensures tauX == proverZKP.tauX && mu == proverZKP.mu && eta == proverZKP.eta
      ensures zeta == proverZKP.zeta && ip == proverZKP.ip && fs == proverZKP.fs
      ensures Accepts(DeltaOf(z1N, v1N, yN).value) ==> accepted
      ensures Injective(curve) ==> (accepted ==> Accepts(DeltaOf(z1N, v1N, yN).value))
    {
      tauX := proverZKP.tauX;
      mu := proverZKP.mu;
      eta := proverZKP.eta;
      zeta := proverZKP.zeta;
      ip := proverZKP.ip;
      fs := proverZKP.fs;
      accepted := RunChecks();
    }

    /** The four checks ParseZKP runs on the responses it copied, all of them, whatever
        the earlier ones returned. */
    method RunChecks() returns (accepted: bool)
      requires DeltaOf(z1N, v1N, yN).Some?
      requires 1 <= |genVecG| <= |genVecH| && |zeta| == |yN| && |genVecG| <= |zeta|
      requires |genVecG| <= |eta| && |genVecG| <= |z1N|
      requires 1 <= |pubVecKey| <= |zeta| && |pubVecKey| <= |yN| && |zeta| == |eta|
      ensures Accepts(DeltaOf(z1N, v1N, yN).value) ==> accepted
      ensures Injective(curve) ==> (accepted ==> Accepts(DeltaOf(z1N, v1N, yN).value))
    {
      var bit1 := CheckT();
      var bit2 := CheckAB();
      var bit3 := CheckSk();
      var bit4 := CheckIP();
      accepted := bit1 && bit2 && bit3 && bit4;
    }

    /** The four equations of ParseZKP on the verifier's state, for a given delta. */
    predicate Accepts(delta: Scalar)
      reads this
      requires 1 <= |genVecG| <= |genVecH| && |zeta| == |yN| && |genVecG| <= |zeta|
      requires |genVecG| <= |eta| && |genVecG| <= |z1N|
      requires |pubVecKey| <= |zeta| && |pubVecKey| <= |yN| && |zeta| == |eta|
    {
      && TEquation(genV, genU, T1, T2, delta, x, ip, tauX)
      && ABEquation(genVecG, genVecH, genU, A, B, yN, z1N, x, zeta, eta, mu)
      && SkEquation(pubVecKey, publicCk, E, yN, z, x, zeta, fs)
      && IPEquation(zeta, eta, ip)
    }
  }

  /** The points of checkAB as logarithms: with the four vector commitments known through
      their dot products dG, dH (of zeta ∘ y^{-N} and eta) and zG, zH (of z 1^N), the two
      sides are equal exactly when the exponents agree. */
  lemma ABLogs(g: seq<Point>, h: seq<Point>, genU: Point, a: Point, b: Point, yN: seq<int>, z1N: seq<int>,
               x: int, zeta: seq<int>, eta: seq<int>, mu: int, zetaNoY: seq<int>,
               gZetaHEta: Point, uMu: Point, lhs: Point, aBx: Point, gz: Point, rhs: Point,
               dG: int, dH: int, zG: int, zH: int)
    requires |g| <= |h| && |g| <= |zeta| == |yN| && |g| <= |eta| && |g| <= |z1N|
    requires zetaNoY == Hadamard(zeta, VecInv(yN))
    requires dG == Dot(Logs(g), Loads(zetaNoY)) && dH == Dot(Logs(h[..|g|]), Loads(eta))
    requires zG == Dot(Logs(g), Loads(z1N)) && zH == Dot(Logs(h[..|g|]), Loads(z1N))
    requires gZetaHEta.log == (dG + dH) % N && gz.log == (zG + zH) % N
    requires uMu == Commit(genU, mu) && lhs == PointAdd(gZetaHEta, uMu)
    requires aBx == PedersenCommit(a, b, 1, x) && rhs == PointAdd(aBx, gz)
    ensures lhs == rhs <==> ABEquation(g, h, genU, a, b, yN, z1N, x, zeta, eta, mu)
  {
    ABPoints(genU, a, b, x, mu, gZetaHEta, uMu, lhs, aBx, gz, rhs, dG, dH, zG, zH);
  }

  /** The same sides with the dot products left as numbers. */
  lemma ABPoints(genU: Point, a: Point, b: Point, x: int, mu: int, gZetaHEta: Point, uMu: Point, lhs: Point,
                 aBx: Point, gz: Point, rhs: Point, dG: int, dH: int, zG: int, zH: int)
    requires gZetaHEta.log == (dG + dH) % N && gz.log == (zG + zH) % N
    requires uMu == Commit(genU, mu) && lhs == PointAdd(gZetaHEta, uMu)
    requires aBx == PedersenCommit(a, b, 1, x) && rhs == PointAdd(aBx, gz)
    ensures lhs == rhs <==> ((dG + dH + genU.log * Load(mu)) % N == (a.log + b.log * Load(x) + zG + zH) % N)
  {
    var du := genU.log * Load(mu);
    AnyVerifier.AddLogs(gZetaHEta, uMu, dG + dH, du);
    assert aBx.log == (a.log + b.log * Load(x)) % N by {
      assert Load(1) == 1;
    }
    AnyVerifier.AddLogs(aBx, gz, a.log + b.log * Load(x), zG + zH);
    PointsEqual(lhs, rhs, dG + dH + du, a.log + b.log * Load(x) + (zG + zH));
  }

  /** The points of checkSk as logarithms: with the two vector commitments known through
      their dot products dZeta (of zeta) and dZYN (of z y^N), the two sides are equal
      exactly when the exponents agree. */
  lemma SkLogs(keys: seq<Point>, publicCk: Point, e: Point, yN: seq<int>, z: int, x: int, zeta: seq<int>, fs: int,
               zYN: seq<int>, lhs: Point, comSk: Point, pZYN: Point, rhs: Point, dZeta: int, dZYN: int)
    requires |keys| <= |zeta| && |keys| <= |yN| && zYN == Scale(yN, z)
    requires dZeta == Dot(Logs(keys), Loads(zeta)) && dZYN == Dot(Logs(keys), Loads(zYN))
    requires lhs.log == dZeta % N && pZYN.log == dZYN % N
    requires comSk == PedersenCommit(publicCk, e, fs, x) && rhs == PointAdd(comSk, pZYN)
    ensures lhs == rhs <==> SkEquation(keys, publicCk, e, yN, z, x, zeta, fs)
  {
    SkPoints(publicCk, e, fs, x, lhs, comSk, pZYN, rhs, dZeta, dZYN);
  }

  /** The same sides with the dot products left as numbers. */
  lemma SkPoints(publicCk: Point, e: Point, fs: int, x: int, lhs: Point, comSk: Point, pZYN: Point, rhs: Point,
                 dZeta: int, dZYN: int)
    requires lhs.log == dZeta % N && pZYN.log == dZYN % N
    requires comSk == PedersenCommit(publicCk, e, fs, x) && rhs == PointAdd(comSk, pZYN)
    ensures lhs == rhs <==> (dZeta % N == (publicCk.log * Load(fs) + e.log * Load(x) + dZYN) % N)
  {
    AnyVerifier.AddLogs(comSk, pZYN, publicCk.log * Load(fs) + e.log * Load(x), dZYN);
    PointsEqual(lhs, rhs, dZeta, publicCk.log * Load(fs) + e.log * Load(x) + dZYN);
  }
}
