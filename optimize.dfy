/** The group-level inner-product argument of optimize.go. The prover holds vectors a and
    b, generator vectors G and H and a generator V for inner products. Each round records
    the cross commitments
      L = <a_L, G_R> + <b_R, H_L> + <a_L, b_R> V  and  R = <a_R, G_L> + <b_L, H_R> + <a_R, b_L> V,
    draws x from the hash of L + R, and folds a to x a_L + a_R, b to x^-1 b_L + b_R, G to
    x^-1 G_L + G_R and H to x H_L + H_R. Folding keeps the commitment
    P = <a, G> + <b, H> + <a, b> V in step with the verifier's T <- x L + T + x^-1 R.

    The verifier of the source replays T, weighs two constant vectors by Hadamard masks
    built from the challenges and computes the commitment to the final vectors, but never
    compares it with T and returns nothing; here it returns both points. */
module Optimize {
  import opened Field
  import opened Group
  import opened Vectors
  import opened Commitments
  import opened Folding
  import Setup

  // ---------------------------------------------------------------------------------
  // the prover's state and one round
  // ---------------------------------------------------------------------------------

  /** The vectors the prover's loop reassigns. */
  datatype Fold = Fold(a: seq<Scalar>, b: seq<Scalar>, G: seq<Point>, H: seq<Point>)

  /** The states opt_prove runs on without an index past the end: b, G and H at least as
      long as a, and a halving exactly down to one entry (an odd length above one makes
      the commitment of L read H_L past its end). */
  predicate Shaped(s: Fold)
  {
    |s.a| <= |s.b| && |s.a| <= |s.G| && |s.a| <= |s.H| && Halvable(|s.a|)
  }

  /** The challenge of a round: the hash of the bytes of L + R. */
  function Challenge(env: Env, l: Point, r: Point): Scalar
  {
    HashPoint(env, PointAdd(l, r))
  }

  /** A Pedersen vector commitment of s and r to g and h, plus <s, r> V. */
  function Cross(g: seq<Point>, h: seq<Point>, s: seq<Scalar>, r: seq<Scalar>, v: Point): Point
    requires |g| <= |h| && |g| <= |s| && |g| <= |r| && |s| <= |r|
  {
    PointAdd(PedersenMultiExp(g, h, s, r), Commit(v, InnerProduct(s, r)))
  }

  /** L = <a_L, G_R> + <b_R, H_L> + <a_L, b_R> V. */
  function CrossL(s: Fold, v: Point): Point
    requires Shaped(s) && |s.a| >= 2
  {
    var l, h := |s.a|, |s.a| / 2;
    Cross(s.G[h..l], s.H[..h], s.a[..h], s.b[h..l], v)
  }

  /** R = <a_R, G_L> + <b_L, H_R> + <a_R, b_L> V. */
  function CrossR(s: Fold, v: Point): Point
    requires Shaped(s) && |s.a| >= 2
  {
    var l, h := |s.a|, |s.a| / 2;
    Cross(s.G[..h], s.H[h..l], s.a[h..l], s.b[..h], v)
  }

  /** The fold with challenge x: a' = x a_L + a_R, b' = x^-1 b_L + b_R,
      G' = x^-1 G_L + G_R and H' = x H_L + H_R. */
  function Halve(s: Fold, x: Scalar): (r: Fold)
    requires Shaped(s) && |s.a| >= 2
    ensures Shaped(r)
    ensures |r.a| == |r.b| == |r.G| == |r.H| == |s.a| / 2
  {
    var l, h, xi := |s.a|, |s.a| / 2, InverseZp(x);
    Fold(VecAdd(Scale(s.a[..h], x), s.a[h..l]), VecAdd(Scale(s.b[..h], xi), s.b[h..l]),
         PointVecAdd(PointScale(s.G[..h], xi), s.G[h..l]), PointVecAdd(PointScale(s.H[..h], x), s.H[h..l]))
  }

  /** The commitment the rounds preserve: <a, G> + <b, H> + <a, b> V over the first |a|
      entries. */
  function PCom(s: Fold, v: Point): Point
    requires |s.a| <= |s.b| && |s.a| <= |s.G| && |s.a| <= |s.H|
  {
    var l := |s.a|;
    Cross(s.G[..l], s.H[..l], s.a, s.b[..l], v)
  }

  // ---------------------------------------------------------------------------------
  // prover
  // ---------------------------------------------------------------------------------

  /** The cross commitments of every round and the state the last round leaves. */
  datatype Transcript = Transcript(L: seq<Point>, R: seq<Point>, last: Fold)

  /** The rounds of opt_prove from state s. */
  function ProveRounds(env: Env, s: Fold, v: Point): (t: Transcript)
    requires Shaped(s)
    ensures |t.L| == |t.R| && Shaped(t.last) && |t.last.a| <= 1
    decreases |s.a|
  {
    if |s.a| <= 1 then Transcript([], [], s)
    else
      var l, r := CrossL(s, v), CrossR(s, v);
      var rest := ProveRounds(env, Halve(s, Challenge(env, l, r)), v);
      Transcript([l] + rest.L, [r] + rest.R, rest.last)
  }

  /** The transcript after cross commitments L and R were already recorded. */
  function Extend(L: seq<Point>, R: seq<Point>, t: Transcript): Transcript
  {
    Transcript(L + t.L, R + t.R, t.last)
  }

  lemma {:induction false} ExtendNothing(t: Transcript)
    ensures Extend([], [], t) == t
  {
    assert [] + t.L == t.L && [] + t.R == t.R;
  }

  lemma {:induction false} ExtendRound(L: seq<Point>, R: seq<Point>, l: Point, r: Point, rest: Transcript)
    ensures Extend(L, R, Transcript([l] + rest.L, [r] + rest.R, rest.last)) == Extend(L + [l], R + [r], rest)
  {
    assert L + ([l] + rest.L) == (L + [l]) + rest.L;
    assert R + ([r] + rest.R) == (R + [r]) + rest.R;
  }

  /** Lines 37-46 of a round: the two cross commitments. */
  method CrossTerms(s: Fold, v: Point) returns (l: Point, r: Point)
    requires Shaped(s) && |s.a| >= 2
    ensures l == CrossL(s, v) && r == CrossR(s, v)
  {
    var n, h := |s.a|, |s.a| / 2;
    var aL, aR, bL, bR := s.a[..h], s.a[h..n], s.b[..h], s.b[h..n];
    var gL, gR, hL, hR := s.G[..h], s.G[h..n], s.H[..h], s.H[h..n];
    var temp := CalIPVec(aL, bR);
    var gH := PedersenCommitVector(gR, hL, aL, bR);
    var vIp := Commit(v, temp);
    l := PointAdd(gH, vIp);
    temp := CalIPVec(aR, bL);
    gH := PedersenCommitVector(gL, hR, aR, bL);
    vIp := Commit(v, temp);
    r := PointAdd(gH, vIp);
  }

  /** Lines 56-61 of a round: the four folds, with invX the inverse of x. */
  method HalveVectors(s: Fold, x: Scalar, invX: Scalar)
    returns (a: seq<Scalar>, b: seq<Scalar>, G: seq<Point>, H: seq<Point>)
    requires Shaped(s) && |s.a| >= 2 && invX == InverseZp(x)
    ensures Fold(a, b, G, H) == Halve(s, x)
  {
    var n, h := |s.a|, |s.a| / 2;
    var sa := CalScaVec(s.a[..h], x);
    a := CalAddVec(sa, s.a[h..n]);
    var sb := CalScaVec(s.b[..h], invX);
    b := CalAddVec(sb, s.b[h..n]);
    var sG := CalPointScaVec(s.G[..h], invX);
    G := CalPointAddVec(sG, s.G[h..n]);
    var sH := CalPointScaVec(s.H[..h], x);
    H := CalPointAddVec(sH, s.H[h..n]);
  }

  /** opt_prove: returns L, R and the final a and b. */
  method OptProve(env: Env, a0: seq<Scalar>, b0: seq<Scalar>, G0: seq<Point>, H0: seq<Point>, gv: Point)
    returns (L: seq<Point>, R: seq<Point>, a: seq<Scalar>, b: seq<Scalar>)
    requires Shaped(Fold(a0, b0, G0, H0))
    ensures var t := ProveRounds(env, Fold(a0, b0, G0, H0), gv);
      L == t.L && R == t.R && a == t.last.a && b == t.last.b
  {
    L, R := [], [];
    a, b := a0, b0;
    var G, H := G0, H0;
    var l := |a|;
    var counter := 0;
    ExtendNothing(ProveRounds(env, Fold(a, b, G, H), gv));
    while l > 1
      invariant l == |a| && Shaped(Fold(a, b, G, H)) && counter == |L| == |R|
      invariant ProveRounds(env, Fold(a0, b0, G0, H0), gv) == Extend(L, R, ProveRounds(env, Fold(a, b, G, H), gv))
      decreases l
    {
      var s := Fold(a, b, G, H);
      var lp, rp := CrossTerms(s, gv);
      L, R := L + [lp], R + [rp];
      var gTemp := PointAdd(L[counter], R[counter]);
      var x := HashPoint(env, gTemp);
      var invX := InverseZp(x);
      counter := counter + 1;
      a, b, G, H := HalveVectors(s, x, invX);
      ExtendRound(L[..counter - 1], R[..counter - 1], lp, rp, ProveRounds(env, Fold(a, b, G, H), gv));
      assert L[..counter - 1] + [lp] == L && R[..counter - 1] + [rp] == R;
      l := |a|;
    }
    assert L + [] == L && R + [] == R;
  }

  /** One cross commitment per halving, ending in vectors of length one (a state of
      length at most one is returned as it is). */
  lemma {:induction false} ProveShape(env: Env, s: Fold, v: Point)
    requires Shaped(s)
    ensures var t := ProveRounds(env, s, v);
      (|s.a| <= 1 ==> t.L == [] && t.last == s) &&
      (|s.a| >= 1 ==> |t.L| == |t.R| == Log2(|s.a|) && |t.last.a| == 1) &&
      (|s.a| >= 2 ==> |t.last.b| == |t.last.G| == |t.last.H| == 1)
    decreases |s.a|
  {
    if |s.a| >= 2 {
      var h := Halve(s, Challenge(env, CrossL(s, v), CrossR(s, v)));
      ProveShape(env, h, v);
    }
  }

  // ---------------------------------------------------------------------------------
  // the commitment invariant
  // ---------------------------------------------------------------------------------

  /** The logarithms of loaded scalars are the scalars. */
  lemma {:induction false} LoadsOfScalars(s: seq<Scalar>)
    ensures Loads(s) == s
  {
  }

  /** The integer value of a commitment <g, a> + <h, b> + w <a, b> to a and b under
      generators of logarithms g and h and an inner-product generator of logarithm w. */
  function Value(g: seq<int>, h: seq<int>, a: seq<int>, b: seq<int>, w: int): int
    requires |g| == |h| == |a| == |b|
  {
    Dot(g, a) + Dot(h, b) + w * Dot(a, b)
  }

  /** The logarithm of a Pedersen vector commitment: the integer dot products with the
      generators' logarithms, reduced. */
  lemma {:induction false} PedersenValue(g: seq<Point>, h: seq<Point>, s: seq<Scalar>, r: seq<Scalar>)
    requires |g| == |h| == |s| == |r|
    ensures PedersenMultiExp(g, h, s, r).log == (Dot(Logs(g), s) + Dot(Logs(h), r)) % N
  {
    PedersenMultiExpSplit(g, h, s, r);
    assert h[..|g|] == h;
    MultiExpIsDot(g, s);
    LoadsOfScalars(s);
    MultiExpIsDot(h, r);
    LoadsOfScalars(r);
    ModAdd(Dot(Logs(g), s), Dot(Logs(h), r));
  }

  /** The logarithm of a cross commitment is its integer value, reduced. */
  lemma {:induction false} CrossValue(g: seq<Point>, h: seq<Point>, s: seq<Scalar>, r: seq<Scalar>, v: Point)
    requires |g| == |h| == |s| == |r|
    ensures Cross(g, h, s, r, v).log == Value(Logs(g), Logs(h), s, r, v.log) % N
  {
    var d, d3 := Dot(Logs(g), s) + Dot(Logs(h), r), Dot(s, r);
    PedersenValue(g, h, s, r);
    CommitValue(v, InnerProduct(s, r), s, r, d3);
    ModAdd(d, v.log * d3);
  }

  /** The commitment to an inner product: <s, r> V has logarithm v <s, r> reduced. */
  lemma {:induction false} CommitValue(v: Point, ip: Scalar, s: seq<Scalar>, r: seq<Scalar>, d: int)
    requires |s| <= |r| && ip == InnerProduct(s, r) && d == Dot(s, r)
    ensures Commit(v, ip).log == (v.log * d) % N
  {
    InnerProductIsDot(s, r);
    assert Commit(v, ip).log == (v.log * ip) % N;
    MulInPOfReduced(v.log, ip, d);
  }

  /** Three residues add up to the residue of the sum. */
  lemma {:induction false} SumOfThree(d1: int, d2: int, d3: int)
    ensures ((d1 % N + d2 % N) % N + d3 % N) % N == (d1 + d2 + d3) % N
  {
    ModAdd(d1, d2);
    ModAdd(d1 + d2, d3);
  }

  /** A folded point vector: its logarithms are c g_L + g_R reduced. */
  lemma {:induction false} FoldedLogs(gL: seq<Point>, gR: seq<Point>, c: Scalar)
    requires |gL| == |gR|
    ensures forall i :: 0 <= i < |gL| ==>
      Logs(PointVecAdd(PointScale(gL, c), gR))[i] == Lin(Logs(gL), c, Logs(gR))[i] % N
  {
    forall i | 0 <= i < |gL| ensures Logs(PointVecAdd(PointScale(gL, c), gR))[i] == Lin(Logs(gL), c, Logs(gR))[i] % N {
      var p: int := gL[i].log;
      assert PointScale(gL, c)[i].log == (p * c) % N;
      assert p * c == c * p;
      ModAddLeft(c * p, gR[i].log);
    }
  }

  /** A folded scalar vector: its entries are c u_L + u_R reduced. */
  lemma {:induction false} FoldedScalars(uL: seq<Scalar>, uR: seq<Scalar>, c: Scalar)
    requires |uL| == |uR|
    ensures forall i :: 0 <= i < |uL| ==> VecAdd(Scale(uL, c), uR)[i] == Lin(uL, c, uR)[i] % N
  {
    forall i | 0 <= i < |uL| ensures VecAdd(Scale(uL, c), uR)[i] == Lin(uL, c, uR)[i] % N {
      FoldEntry(uL[i], uR[i], c);
    }
  }

  /** The four halves of a state, as integer vectors. */
  datatype Halves = Halves(gL: seq<int>, gR: seq<int>, hL: seq<int>, hR: seq<int>,
                           aL: seq<int>, aR: seq<int>, bL: seq<int>, bR: seq<int>)

  /** All eight halves have one length. */
  predicate Even(q: Halves)
  {
    |q.gL| == |q.gR| == |q.hL| == |q.hR| == |q.aL| == |q.aR| == |q.bL| == |q.bR|
  }

  function HalvesOf(s: Fold): (q: Halves)
    requires Shaped(s) && |s.a| >= 2
    ensures Even(q) && |q.gL| == |s.a| / 2
  {
    var l, h := |s.a|, |s.a| / 2;
    Halves(Logs(s.G[..h]), Logs(s.G[h..l]), Logs(s.H[..h]), Logs(s.H[h..l]),
           s.a[..h], s.a[h..l], s.b[..h], s.b[h..l])
  }

  /** The logarithms of the two halves of a prefix are the halves of its logarithms. */
  lemma {:induction false} LogsSlices(g: seq<Point>, l: nat, h: nat)
    requires h <= l <= |g|
    ensures Logs(g[..l])[..h] == Logs(g[..h]) && Logs(g[..l])[h..] == Logs(g[h..l])
  {
  }

  /** A value splits at any index into the values of the two parts. */
  lemma {:induction false} ValueSplit(g: seq<int>, h: seq<int>, a: seq<int>, b: seq<int>, w: int, k: nat)
    requires |g| == |h| == |a| == |b| && k <= |a|
    ensures Value(g, h, a, b, w) == Value(g[..k], h[..k], a[..k], b[..k], w) + Value(g[k..], h[k..], a[k..], b[k..], w)
  {
    DotSplit(g, a, k);
    DotSplit(h, b, k);
    DotSplit(a, b, k);
    var l, r := Dot(a[..k], b[..k]), Dot(a[k..], b[k..]);
    assert w * (l + r) == w * l + w * r;
  }

  /** Two integer vectors of one length, congruent entry by entry modulo n. */
  predicate Congruent(u: seq<int>, p: seq<int>)
  {
    |u| == |p| && forall i :: 0 <= i < |u| ==> u[i] % N == p[i] % N
  }


  /** A vector whose entries are those of p reduced is congruent to p. */
  lemma ReducedCongruent(u: seq<int>, p: seq<int>)
    requires |u| == |p| && forall i :: 0 <= i < |u| ==> u[i] == p[i] % N
    ensures Congruent(u, p)
  {
  }

  /** Sums of three terms with congruent terms are congruent. */
  lemma {:induction false} CongruentThree(d1: int, d2: int, d3: int, e1: int, e2: int, e3: int, v: int)
    requires d1 % N == e1 % N && d2 % N == e2 % N && d3 % N == e3 % N
    ensures (d1 + d2 + v * d3) % N == (e1 + e2 + v * e3) % N
  {
    ModMul(v, d3);
    ModMul(v, e3);
    SumOfThree(d1, d2, v * d3);
    SumOfThree(e1, e2, v * e3);
  }

  /** The value of a fold: folding a and H by x and b and G by y gives x y times the
      left-left value, plus the right-right value, plus x and y times the two
      opposite-side values. */
  lemma {:induction false} ValueFold(q: Halves, x: int, y: int, w: int)
    requires Even(q)
    ensures Value(Lin(q.gL, y, q.gR), Lin(q.hL, x, q.hR), Lin(q.aL, x, q.aR), Lin(q.bL, y, q.bR), w) ==
      (x * y) * Value(q.gL, q.hL, q.aL, q.bL, w) + Value(q.gR, q.hR, q.aR, q.bR, w) +
      x * Value(q.gR, q.hL, q.aL, q.bR, w) + y * Value(q.gL, q.hR, q.aR, q.bL, w)
  {
    var gaLL, gaLR, gaRL, gaRR := Dot(q.gL, q.aL), Dot(q.gL, q.aR), Dot(q.gR, q.aL), Dot(q.gR, q.aR);
    var hbLL, hbLR, hbRL, hbRR := Dot(q.hL, q.bL), Dot(q.hL, q.bR), Dot(q.hR, q.bL), Dot(q.hR, q.bR);
    var abLL, abLR, abRL, abRR := Dot(q.aL, q.bL), Dot(q.aL, q.bR), Dot(q.aR, q.bL), Dot(q.aR, q.bR);
    DotLin(q.gL, q.gR, q.aL, q.aR, y, x, gaLL, gaLR, gaRL, gaRR);
    DotLin(q.hL, q.hR, q.bL, q.bR, x, y, hbLL, hbLR, hbRL, hbRR);
    DotLin(q.aL, q.aR, q.bL, q.bR, x, y, abLL, abLR, abRL, abRR);
    FoldIdentity(gaLL, gaLR, gaRL, gaRR, hbLL, hbLR, hbRL, hbRR, abLL, abLR, abRL, abRR, x, y, w);
  }

  /** The integer identity behind ValueFold, over the twelve dot products of the halves. */
  lemma {:induction false} FoldIdentity(gaLL: int, gaLR: int, gaRL: int, gaRR: int,
                                        hbLL: int, hbLR: int, hbRL: int, hbRR: int,
                                        abLL: int, abLR: int, abRL: int, abRR: int, x: int, y: int, w: int)
    ensures ((y * x) * gaLL + y * gaLR + x * gaRL + gaRR) +
            ((x * y) * hbLL + x * hbLR + y * hbRL + hbRR) +
            w * ((x * y) * abLL + x * abLR + y * abRL + abRR) ==
            (x * y) * (gaLL + hbLL + w * abLL) + (gaRR + hbRR + w * abRR) +
            x * (gaRL + hbLR + w * abLR) + y * (gaLR + hbRL + w * abRL)
  {
    var k := x * y;
    assert y * x == k;
    assert w * (k * abLL + x * abLR + y * abRL + abRR) ==
      k * (w * abLL) + x * (w * abLR) + y * (w * abRL) + w * abRR;
    assert k * (gaLL + hbLL + w * abLL) == k * gaLL + k * hbLL + k * (w * abLL);
    assert x * (gaRL + hbLR + w * abLR) == x * gaRL + x * hbLR + x * (w * abLR);
    assert y * (gaLR + hbRL + w * abRL) == y * gaLR + y * hbRL + y * (w * abRL);
  }

  /** The logarithm of the commitment of a state is its integer value, reduced. */
  lemma {:induction false} PComValue(s: Fold, v: Point)
    requires |s.a| <= |s.b| && |s.a| <= |s.G| && |s.a| <= |s.H|
    ensures var l := |s.a|;
      PCom(s, v).log == Value(Logs(s.G[..l]), Logs(s.H[..l]), s.a, s.b[..l], v.log) % N
  {
    var l := |s.a|;
    CrossValue(s.G[..l], s.H[..l], s.a, s.b[..l], v);
  }

  /** The halves of a state are the halves of its length-|a| prefixes. */
  lemma {:induction false} PrefixHalves(s: Fold)
    requires Shaped(s) && |s.a| >= 2
    ensures var l, h, q := |s.a|, |s.a| / 2, HalvesOf(s);
      q.gL == Logs(s.G[..l])[..h] && q.gR == Logs(s.G[..l])[h..] &&
      q.hL == Logs(s.H[..l])[..h] && q.hR == Logs(s.H[..l])[h..] &&
      q.aL == s.a[..h] && q.aR == s.a[h..] &&
      q.bL == s.b[..l][..h] && q.bR == s.b[..l][h..]
  {
    var l, h := |s.a|, |s.a| / 2;
    LogsSlices(s.G, l, h);
    LogsSlices(s.H, l, h);
    assert s.a[h..] == s.a[h..l];
    assert s.b[..l][..h] == s.b[..h] && s.b[..l][h..] == s.b[h..l];
  }

  /** The value of a state is the sum of the values of its two halves. */
  lemma {:induction false} ValueOfHalves(s: Fold, w: int)
    requires Shaped(s) && |s.a| >= 2
    ensures var l, q := |s.a|, HalvesOf(s);
      Value(Logs(s.G[..l]), Logs(s.H[..l]), s.a, s.b[..l], w) ==
      Value(q.gL, q.hL, q.aL, q.bL, w) + Value(q.gR, q.hR, q.aR, q.bR, w)
  {
    var l := |s.a|;
    PrefixHalves(s);
    ValueSplit(Logs(s.G[..l]), Logs(s.H[..l]), s.a, s.b[..l], w, l / 2);
  }

  /** The commitment of a state: the sum of the values of its two halves. */
  lemma {:induction false} PComOfHalves(s: Fold, v: Point)
    requires Shaped(s) && |s.a| >= 2
    ensures var q := HalvesOf(s);
      PCom(s, v).log == Joined(Value(q.gL, q.hL, q.aL, q.bL, v.log), Value(q.gR, q.hR, q.aR, q.bR, v.log))
  {
    PComValue(s, v);
    ValueOfHalves(s, v.log);
  }

  /** The cross commitments: the values of the opposite-side halves. */
  lemma {:induction false} CrossOfHalves(s: Fold, v: Point)
    requires Shaped(s) && |s.a| >= 2
    ensures var q := HalvesOf(s);
      CrossL(s, v).log == Value(q.gR, q.hL, q.aL, q.bR, v.log) % N &&
      CrossR(s, v).log == Value(q.gL, q.hR, q.aR, q.bL, v.log) % N
  {
    var l, h := |s.a|, |s.a| / 2;
    CrossValue(s.G[h..l], s.H[..h], s.a[..h], s.b[h..l], v);
    CrossValue(s.G[..h], s.H[h..l], s.a[h..l], s.b[..h], v);
  }

  /** The commitment of the fold is the value of the folded vectors, reduced. */
  lemma {:induction false} HalveValue(s: Fold, x: Scalar, v: Point)
    requires Shaped(s) && |s.a| >= 2
    ensures var f := Halve(s, x);
      PCom(f, v).log == Value(Logs(f.G), Logs(f.H), f.a, f.b, v.log) % N
  {
    var h, f := |s.a| / 2, Halve(s, x);
    assert f.G[..h] == f.G && f.H[..h] == f.H && f.b[..h] == f.b;
    CrossValue(f.G, f.H, f.a, f.b, v);
  }

  /** Vectors congruent entry by entry to the folds of the halves of q (a and H by x, b
      and G by y) have, modulo n, x y times the left-left value, plus the right-right
      value, plus x and y times the two opposite-side values. */
  lemma {:induction false} FoldCommit(g: seq<int>, h: seq<int>, a: seq<int>, b: seq<int>, q: Halves, x: int, y: int, w: int)
    requires Even(q)
    requires Congruent(g, Lin(q.gL, y, q.gR)) && Congruent(h, Lin(q.hL, x, q.hR))
    requires Congruent(a, Lin(q.aL, x, q.aR)) && Congruent(b, Lin(q.bL, y, q.bR))
    ensures Value(g, h, a, b, w) % N ==
      Combined(x, y, Value(q.gL, q.hL, q.aL, q.bL, w), Value(q.gR, q.hR, q.aR, q.bR, w),
               Value(q.gR, q.hL, q.aL, q.bR, w), Value(q.gL, q.hR, q.aR, q.bL, w))
  {
    var g', h', a', b' := Lin(q.gL, y, q.gR), Lin(q.hL, x, q.hR), Lin(q.aL, x, q.aR), Lin(q.bL, y, q.bR);
    DotCongruent(g, a, g', a');
    DotCongruent(h, b, h', b');
    DotCongruent(a, b, a', b');
    CongruentThree(Dot(g, a), Dot(h, b), Dot(a, b), Dot(g', a'), Dot(h', b'), Dot(a', b'), w);
    ValueFold(q, x, y, w);
  }

  /** The folded vectors are congruent to the integer folds of the halves. */
  lemma {:induction false} FoldedHalves(s: Fold, x: Scalar)
    requires Shaped(s) && |s.a| >= 2
    ensures var f, q, xi := Halve(s, x), HalvesOf(s), InverseZp(x);
      Congruent(Logs(f.G), Lin(q.gL, xi, q.gR)) && Congruent(Logs(f.H), Lin(q.hL, x, q.hR)) &&
      Congruent(f.a, Lin(q.aL, x, q.aR)) && Congruent(f.b, Lin(q.bL, xi, q.bR))
  {
    FoldedG(s, x);
    FoldedH(s, x);
    FoldedA(s, x);
    FoldedB(s, x);
  }

  /** The value of the folded vectors, as a combination of the values of the halves. */
  lemma {:induction false} FoldedValue(s: Fold, x: Scalar, v: Point)
    requires Shaped(s) && |s.a| >= 2
    ensures var q, xi, w, f := HalvesOf(s), InverseZp(x), v.log, Halve(s, x);
      Value(Logs(f.G), Logs(f.H), f.a, f.b, w) % N ==
        Combined(x, xi, Value(q.gL, q.hL, q.aL, q.bL, w), Value(q.gR, q.hR, q.aR, q.bR, w),
                 Value(q.gR, q.hL, q.aL, q.bR, w), Value(q.gL, q.hR, q.aR, q.bL, w))
  {
    var f := Halve(s, x);
    FoldedHalves(s, x);
    FoldCommit(Logs(f.G), Logs(f.H), f.a, f.b, HalvesOf(s), x, InverseZp(x), v.log);
  }

  /** The commitment of the fold, as a combination of the values of the halves. */
  lemma {:induction false} PComOfHalve(s: Fold, x: Scalar, v: Point)
    requires Shaped(s) && |s.a| >= 2
    ensures var q, xi, w := HalvesOf(s), InverseZp(x), v.log;
      PCom(Halve(s, x), v).log ==
        Combined(x, xi, Value(q.gL, q.hL, q.aL, q.bL, w), Value(q.gR, q.hR, q.aR, q.bR, w),
                 Value(q.gR, q.hL, q.aL, q.bR, w), Value(q.gL, q.hR, q.aR, q.bL, w))
  {
    HalveValue(s, x, v);
    FoldedValue(s, x, v);
  }

  /** The folded G: logarithms x^-1 g_L + g_R modulo n. */
  lemma {:induction false} FoldedG(s: Fold, x: Scalar)
    requires Shaped(s) && |s.a| >= 2
    ensures var f, q := Halve(s, x), HalvesOf(s);
      Congruent(Logs(f.G), Lin(q.gL, InverseZp(x), q.gR))
  {
    var h := |s.a| / 2;
    FoldedLogs(s.G[..h], s.G[h..|s.a|], InverseZp(x));
    ReducedCongruent(Logs(Halve(s, x).G), Lin(Logs(s.G[..h]), InverseZp(x), Logs(s.G[h..|s.a|])));
  }

  /** The folded H: logarithms x h_L + h_R modulo n. */
  lemma {:induction false} FoldedH(s: Fold, x: Scalar)
    requires Shaped(s) && |s.a| >= 2
    ensures var f, q := Halve(s, x), HalvesOf(s);
      Congruent(Logs(f.H), Lin(q.hL, x, q.hR))
  {
    var h := |s.a| / 2;
    FoldedLogs(s.H[..h], s.H[h..|s.a|], x);
    ReducedCongruent(Logs(Halve(s, x).H), Lin(Logs(s.H[..h]), x, Logs(s.H[h..|s.a|])));
  }

  /** The folded a: x a_L + a_R modulo n. */
  lemma {:induction false} FoldedA(s: Fold, x: Scalar)
    requires Shaped(s) && |s.a| >= 2
    ensures var f, q := Halve(s, x), HalvesOf(s);
      Congruent(f.a, Lin(q.aL, x, q.aR))
  {
    var h := |s.a| / 2;
    FoldedScalars(s.a[..h], s.a[h..|s.a|], x);
    ReducedCongruent(Halve(s, x).a, Lin(s.a[..h], x, s.a[h..|s.a|]));
  }

  /** The folded b: x^-1 b_L + b_R modulo n. */
  lemma {:induction false} FoldedB(s: Fold, x: Scalar)
    requires Shaped(s) && |s.a| >= 2
    ensures var f, q := Halve(s, x), HalvesOf(s);
      Congruent(f.b, Lin(q.bL, InverseZp(x), q.bR))
  {
    var h := |s.a| / 2;
    FoldedScalars(s.b[..h], s.b[h..|s.a|], InverseZp(x));
    ReducedCongruent(Halve(s, x).b, Lin(s.b[..h], InverseZp(x), s.b[h..|s.a|]));
  }

  /** The logarithm k A + B + x L + y R of the folded commitment, reduced. */
  function Combined(x: int, y: int, A: int, B: int, L: int, R: int): int
  {
    ((x * y) * A + B + x * L + y * R) % N
  }

  /** The logarithm A + B of the commitment before the round, reduced. */
  function Joined(A: int, B: int): int
  {
    (A + B) % N
  }

  /** The last step of the invariant, on logarithms alone: with k = x y congruent to 1,
      the point of logarithm k A + B + x L + y R is x l + p + y r for the points l, p
      and r of logarithms L, A + B and R. */
  lemma {:induction false} RoundStep(x: Scalar, y: Scalar, k: int, A: int, B: int, L: int, R: int)
    requires k == x * y && k % N == 1
    ensures Pt(Combined(x, y, A, B, L, R)) ==
      PointAdd(PointAdd(ScalarMult(Pt(L % N), x), Pt(Joined(A, B))), ScalarMult(Pt(R % N), y))
  {
    UnitFactor(k, A, B + x * L + y * R);
    ModEqual(k * A + (B + x * L + y * R), k * A + B + x * L + y * R);
    ModEqual(A + (B + x * L + y * R), x * L + (A + B) + y * R);
    UpdateValue(Pt(L % N), Pt(Joined(A, B)), Pt(R % N), x, y, L, A + B, R);
  }

  /** A factor congruent to 1 drops out modulo n. */
  lemma {:induction false} UnitFactor(k: int, a: int, b: int)
    requires k % N == 1
    ensures (k * a + b) % N == (a + b) % N
  {
    var q := k / N;
    assert k == q * N + 1;
    assert k * a + b == (q * a) * N + (a + b) by {
      assert k * a == (q * N + 1) * a == (q * a) * N + a;
    }
    ModMultiple(q * a, a + b);
  }

  /** The right-hand side x L + P + x^-1 R, as residues. */
  lemma {:induction false} UpdateValue(l: Point, p: Point, r: Point, x: Scalar, xi: Scalar, dl: int, dp: int, dr: int)
    requires l.log == dl % N && p.log == dp % N && r.log == dr % N
    ensures PointAdd(PointAdd(ScalarMult(l, x), p), ScalarMult(r, xi)).log == (x * dl + dp + xi * dr) % N
  {
    assert ScalarMult(l, x).log == (l.log * x) % N;
    assert ScalarMult(r, xi).log == (r.log * xi) % N;
    MulInPOfReduced(x, l.log, dl);
    assert l.log * x == x * l.log;
    MulInPOfReduced(xi, r.log, dr);
    assert r.log * xi == xi * r.log;
    SumOfThree(x * dl, dp, xi * dr);
  }

  /** The logarithms of the four commitments of a round, in the values of the halves. */
  lemma {:induction false} RoundLogs(s: Fold, x: Scalar, v: Point)
    requires Shaped(s) && |s.a| >= 2
    ensures var q, xi, w := HalvesOf(s), InverseZp(x), v.log;
      PCom(Halve(s, x), v).log ==
        Combined(x, xi, Value(q.gL, q.hL, q.aL, q.bL, w), Value(q.gR, q.hR, q.aR, q.bR, w),
                 Value(q.gR, q.hL, q.aL, q.bR, w), Value(q.gL, q.hR, q.aR, q.bL, w)) &&
      PCom(s, v).log == Joined(Value(q.gL, q.hL, q.aL, q.bL, w), Value(q.gR, q.hR, q.aR, q.bR, w)) &&
      CrossL(s, v).log == Value(q.gR, q.hL, q.aL, q.bR, w) % N &&
      CrossR(s, v).log == Value(q.gL, q.hR, q.aR, q.bL, w) % N
  {
    PComOfHalve(s, x, v);
    PComOfHalves(s, v);
    CrossOfHalves(s, v);
  }

  /** A challenge times its inverse is 1 modulo n. */
  lemma {:induction false} InverseProduct(x: Scalar)
    requires Invertible(x)
    ensures (x * InverseZp(x)) % N == 1
  {
    InverseZpCorrect(x);
    assert Load(x) == x && Load(InverseZp(x)) == InverseZp(x);
  }

  /** The commitment invariant of a round: with x^-1 an inverse of x, the commitment of
      the folded state is x L + P + x^-1 R. */
  lemma {:induction false} RoundInvariant(s: Fold, x: Scalar, v: Point)
    requires Shaped(s) && |s.a| >= 2 && Invertible(x)
    ensures PCom(Halve(s, x), v) ==
      PointAdd(PointAdd(ScalarMult(CrossL(s, v), x), PCom(s, v)), ScalarMult(CrossR(s, v), InverseZp(x)))
  {
    InverseProduct(x);
    RoundLogs(s, x, v);
    var q := HalvesOf(s);
    RoundStep(x, InverseZp(x), x * InverseZp(x),
              Value(q.gL, q.hL, q.aL, q.bL, v.log), Value(q.gR, q.hR, q.aR, q.bR, v.log),
              Value(q.gR, q.hL, q.aL, q.bR, v.log), Value(q.gL, q.hR, q.aR, q.bL, v.log));
  }

  // ---------------------------------------------------------------------------------
  // verifier
  // ---------------------------------------------------------------------------------

  /** The verifier's T after the rounds of L and R: T <- x L + T + x^-1 R. */
  function Replay(env: Env, L: seq<Point>, R: seq<Point>, T: Point): Point
    requires |L| <= |R|
    decreases |L|
  {
    if |L| == 0 then T
    else
      var x := Challenge(env, L[0], R[0]);
      Replay(env, L[1..], R[1..], PointAdd(PointAdd(ScalarMult(L[0], x), T), ScalarMult(R[0], InverseZp(x))))
  }

  /** Every challenge of the transcript has an inverse. */
  predicate Invertibles(env: Env, L: seq<Point>, R: seq<Point>)
    requires |L| <= |R|
  {
    forall i :: 0 <= i < |L| ==> Invertible(Challenge(env, L[i], R[i]))
  }

  /** Replaying an honest transcript from the commitment of the first state reaches the
      commitment of the last, when every challenge has an inverse. */
  lemma {:induction false} ReplayCommitment(env: Env, s: Fold, v: Point)
    requires Shaped(s)
    requires var t := ProveRounds(env, s, v); Invertibles(env, t.L, t.R)
    ensures var t := ProveRounds(env, s, v); Replay(env, t.L, t.R, PCom(s, v)) == PCom(t.last, v)
    decreases |s.a|
  {
    if |s.a| >= 2 {
      var t := ProveRounds(env, s, v);
      var l, r := CrossL(s, v), CrossR(s, v);
      var x := Challenge(env, l, r);
      var f := Halve(s, x);
      var rest := ProveRounds(env, f, v);
      assert t.L[1..] == rest.L && t.R[1..] == rest.R;
      assert Invertible(x) by {
        assert t.L[0] == l && t.R[0] == r;
      }
      assert Invertibles(env, rest.L, rest.R) by {
        forall i | 0 <= i < |rest.L| ensures Invertible(Challenge(env, rest.L[i], rest.R[i])) {
          assert rest.L[i] == t.L[i + 1] && rest.R[i] == t.R[i + 1];
        }
      }
      RoundInvariant(s, x, v);
      ReplayCommitment(env, f, v);
    }
  }

  /** The challenges of the transcript, round by round. */
  function Challenges(env: Env, L: seq<Point>, R: seq<Point>): (cs: seq<Scalar>)
    requires |L| <= |R|
    ensures |cs| == |L| && forall i :: 0 <= i < |L| ==> cs[i] == Challenge(env, L[i], R[i])
  {
    seq(|L|, i requires 0 <= i < |L| => Challenge(env, L[i], R[i]))
  }

  /** The inverses of the challenges of the transcript. */
  function InverseChallenges(env: Env, L: seq<Point>, R: seq<Point>): (cs: seq<Scalar>)
    requires |L| <= |R|
    ensures |cs| == |L| && forall i :: 0 <= i < |L| ==> cs[i] == InverseZp(Challenge(env, L[i], R[i]))
  {
    seq(|L|, i requires 0 <= i < |L| => InverseZp(Challenge(env, L[i], R[i])))
  }

  /** The mask loops build count blocks, each c repeated half times and then 1 repeated
      half times. */
  function Mask(c: int, half: nat, count: nat): (r: seq<int>)
    ensures |r| == 2 * half * count
  {
    if count == 0 then [] else Mask(c, half, count - 1) + Constant(half, c) + Constant(half, 1)
  }

  /** The first len entries of the alternating pattern of blocks of length 2 half: c
      where the index falls in the first half of its block, 1 in the second. */
  function Alternating(c: int, half: nat, len: nat): (r: seq<int>)
    requires half >= 1
    ensures |r| == len
  {
    seq(len, i requires 0 <= i < len => if i % (2 * half) < half then c else 1)
  }

  /** The weights the verifier's masks leave on a vector w, from the challenges cs of the
      remaining rounds, the first of which has blocks of length n (the verifier's N):
      each round multiplies the first half of every block by its challenge, and the
      next round has blocks half as long. */
  function Weigh(w: seq<int>, cs: seq<int>, n: nat): (r: seq<int>)
    requires n >= Pow2(|cs|)
    ensures |r| == |w|
    decreases |cs|
  {
    if |cs| == 0 then w
    else Weigh(Hadamard(w, Alternating(cs[0], n / 2, |w|)), cs[1..], n / 2)
  }

  /** The mask loops of lines 97-100 and 104-107: count blocks of
      Generate_Scalar_Vector(c, half) followed by Generate_Scalar_Vector(1, half). */
  method BuildMask(c: Scalar, half: nat, count: nat) returns (temp: seq<int>)
    ensures temp == Mask(c, half, count)
  {
    var vecC := Setup.GenerateScalarVector(c, half);
    var vecOne := Setup.GenerateScalarVector(1, half);
    temp := [];
    for i := 0 to count
      invariant temp == Mask(c, half, i)
    {
      temp := temp + vecC;
      temp := temp + vecOne;
    }
  }

  /** An index shifted by whole blocks keeps its offset in its block. */
  lemma {:induction false} ModShift(j: int, d: int, q: int)
    requires 0 <= j < d
    ensures (d * q + j) % d == j
  {
    var x := d * q + j;
    var k, r := x / d, x % d;
    assert d * (q - k) == r - j;
    MulAwayFromZero(d, q - k);
  }

  lemma {:induction false} MulAwayFromZero(d: int, t: int)
    requires d >= 1
    ensures t >= 1 ==> d * t >= d
    ensures t <= -1 ==> d * t <= -d
  {
    assert d * t == d * (t - 1) + d;
    assert d * t == d * (t + 1) - d;
  }

  lemma {:induction false} DivExact(d: nat, k: nat)
    requires d >= 1
    ensures (d * k) / d == k
  {
    var q, r := (d * k) / d, (d * k) % d;
    assert d * (k - q) == r;
    MulAwayFromZero(d, k - q);
  }

  /** The blocks the loops build are the alternating pattern, entry by entry. */
  lemma {:induction false} MaskAlternates(c: int, half: nat, count: nat)
    requires half >= 1
    ensures Mask(c, half, count) == Alternating(c, half, 2 * half * count)
    decreases count
  {
    if count > 0 {
      var d := 2 * half;
      var front := Mask(c, half, count - 1);
      MaskAlternates(c, half, count - 1);
      assert |front| == d * (count - 1);
      assert 2 * half * count == d * (count - 1) + d;
      var m := Mask(c, half, count);
      forall i | 0 <= i < |m| ensures m[i] == if i % d < half then c else 1 {
        if i >= |front| {
          ModShift(i - |front|, d, count - 1);
        }
      }
    }
  }

  /** A Hadamard product reads only as much of a mask as its first vector is long. */
  lemma {:induction false} HadamardMask(w: seq<int>, c: int, half: nat, count: nat)
    requires half >= 1 && |w| <= 2 * half * count
    ensures Hadamard(w, Mask(c, half, count)) == Hadamard(w, Alternating(c, half, |w|))
  {
    MaskAlternates(c, half, count);
  }

  /** m doubled k times. */
  function Doubled(m: nat, k: nat): nat
  {
    if k == 0 then m else 2 * Doubled(m, k - 1)
  }

  /** Doubling m k times multiplies it by 2^k. */
  lemma {:induction false} DoubledIsProduct(m: nat, k: nat)
    ensures Doubled(m, k) == m * Pow2(k)
  {
    if k > 0 {
      DoubledIsProduct(m, k - 1);
      assert m * (2 * Pow2(k - 1)) == (m * 2) * Pow2(k - 1);
    }
  }

  /** Doubling a nonzero count k times reaches at least 2^k. */
  lemma {:induction false} DoubledAtLeast(m: nat, k: nat)
    requires m >= 1
    ensures Doubled(m, k) >= Pow2(k)
  {
    if k > 0 {
      DoubledAtLeast(m, k - 1);
    }
  }

  /** The lengths before the first round: |G| is m doubled once per round, for an
      m of at least 1. */
  lemma {:induction false} FirstBlocks(g: nat, l: nat) returns (m: nat)
    requires g >= 1 && g % Pow2(l) == 0
    ensures m >= 1 && Doubled(m, l) == g && g >= Pow2(l) && Doubled(g, 0) == g
  {
    m := g / Pow2(l);
    assert g == Pow2(l) * m;
    DoubledIsProduct(m, l);
    DoubledAtLeast(m, l);
  }

  /** Doubling 2 h c times is doubling h c + 1 times. */
  lemma {:induction false} DoubledShift(h: nat, c: nat)
    ensures Doubled(2 * h, c) == Doubled(h, c + 1)
  {
    if c > 0 {
      DoubledShift(h, c - 1);
    }
  }

  /** The lengths of the next round: with |G| = N doubled c times for N = m doubled
      k >= 1 times, N is even, N' = N / 2 is m doubled k - 1 times, and |G| is N'
      doubled c + 1 times. */
  lemma {:induction false} NextBlocks(g: nat, n: nat, c: nat, m: nat, k: nat, n': nat, c': nat, k': nat)
    requires m >= 1 && k >= 1 && n == Doubled(m, k) && g == Doubled(n, c)
    requires n' == n / 2 && c' == c + 1 && k' == k - 1
    ensures n >= 2 && n % 2 == 0 && n' == Doubled(m, k') && g == Doubled(n', c')
  {
    var d := Doubled(m, k');
    DoubledAtLeast(m, k');
    assert n == 2 * d;
    assert n' == d;
    DoubledShift(d, c);
  }

  /** The block counts of a round: the loop bound |G| / N is 2^c, and masks of that many
      blocks of N / 2 entries cover |G|. */
  lemma {:induction false} MaskCover(g: nat, n: nat, c: nat)
    requires n >= 2 && n % 2 == 0 && g == Doubled(n, c)
    ensures g / n == Pow2(c) && g <= 2 * (n / 2) * (g / n)
  {
    var p := Pow2(c);
    DoubledIsProduct(n, c);
    DivExact(n, p);
    assert 2 * (n / 2) == n;
  }

  /** One round of Weigh, from the c-th of the challenges cs. */
  lemma {:induction false} WeighStep(w: seq<int>, cs: seq<int>, c: nat, n: nat, c': nat, n': nat)
    requires c < |cs| && n >= Pow2(|cs[c..]|) && c' == c + 1 && n' == n / 2
    ensures n' >= Pow2(|cs[c'..]|)
    ensures Weigh(w, cs[c..], n) == Weigh(Hadamard(w, Alternating(cs[c], n / 2, |w|)), cs[c'..], n')
  {
    var rest := cs[c..];
    assert rest[0] == cs[c] && rest[1..] == cs[c'..];
  }

  /** One round of Replay, from the c-th cross commitments. */
  lemma {:induction false} ReplayStep(env: Env, L: seq<Point>, R: seq<Point>, c: nat, T: Point, c': nat)
    requires c < |L| <= |R| && c' == c + 1
    ensures var x := Challenge(env, L[c], R[c]);
      Replay(env, L[c..], R[c..], T) ==
      Replay(env, L[c'..], R[c'..], PointAdd(PointAdd(ScalarMult(L[c], x), T), ScalarMult(R[c], InverseZp(x))))
  {
    assert L[c..][0] == L[c] && R[c..][0] == R[c];
    assert L[c..][1..] == L[c'..] && R[c..][1..] == R[c'..];
  }

  /** One round of opt_verify, lines 88-114: the challenge x of L + R, the masks of x^-1
      and x applied to ax and bx, and T <- x L + T + x^-1 R. Blocks of n / 2 entries,
      |G| / n of them for ax and one more for bx, cover the g entries of ax when g is n
      doubled c times for an even n. */
  method VerifyRound(env: Env, l: Point, r: Point, T: Point, ax: seq<int>, bx: seq<int>, n: nat, g: nat, ghost c: nat)
    returns (T': Point, ax': seq<Scalar>, bx': seq<Scalar>)
    requires n >= 2 && n % 2 == 0 && |ax| == |bx| == g && g == Doubled(n, c)
    ensures var x := Challenge(env, l, r);
      T' == PointAdd(PointAdd(ScalarMult(l, x), T), ScalarMult(r, InverseZp(x))) &&
      ax' == Hadamard(ax, Alternating(InverseZp(x), n / 2, g)) &&
      bx' == Hadamard(bx, Alternating(x, n / 2, g))
  {
    var gTemp := PointAdd(l, r);
    var x := HashPoint(env, gTemp);
    var invX := InverseZp(x);
    var half, count := n / 2, g / n;
    MaskCover(g, n, c);
    assert 2 * half * count <= 2 * half * (count + 1);
    HadamardMask(ax, invX, half, count);
    HadamardMask(bx, x, half, count + 1);
    var temp := BuildMask(invX, half, count);
    ax' := CalHPVec(ax, temp);
    temp := BuildMask(x, half, count + 1);
    bx' := CalHPVec(bx, temp);
    var lx := ScalarMult(l, x);
    var lxT := PointAdd(lx, T);
    var rInvX := ScalarMult(r, invX);
    T' := PointAdd(lxT, rInvX);
  }

  /** opt_verify over lines 71-128: replays T and weighs the constant vectors a_0 and b_0
      by the masks of every round, then commits to them with the inner product of a and
      b. The source discards the commitment (the comparison with T at line 130 is
      commented out); here both points are returned. The length of G must halve exactly
      once per round, or the masks run short and the Hadamard products read past them;
      the extra block of the second mask loop is never read. */
  method OptVerify(env: Env, L: seq<Point>, R: seq<Point>, T0: Point, G: seq<Point>, H: seq<Point>,
                   gv: Point, a: seq<Scalar>, b: seq<Scalar>)
    returns (T: Point, lhs: Point)
    requires |L| <= |R| && 1 <= |G| <= |H| && |G| % Pow2(|L|) == 0 && 1 <= |a| <= |b|
    ensures T == Replay(env, L, R, T0)
    ensures |G| >= Pow2(|L|)
    ensures lhs == PointAdd(PedersenMultiExp(G, H, Weigh(Setup.ScalarVector(a[0], |G|), InverseChallenges(env, L, R), |G|),
                                                   Weigh(Setup.ScalarVector(b[0], |G|), Challenges(env, L, R), |G|)),
                            Commit(gv, InnerProduct(a, b)))
  {
    var l := |L|;
    var counter := 0;
    var n := |G|;
    ghost var k := l;
    ghost var m := FirstBlocks(|G|, l);
    var ax := Setup.GenerateScalarVector(a[0], n);
    var bx := Setup.GenerateScalarVector(b[0], n);
    ghost var xs, xis := Challenges(env, L, R), InverseChallenges(env, L, R);
    T := T0;
    while counter < l
      invariant 0 <= counter <= l && k == l - counter && |xis| == |xs| == l
      invariant m >= 1 && n == Doubled(m, k)
      invariant |ax| == |bx| == |G| == Doubled(n, counter) && n >= Pow2(|xis[counter..]|) && n >= Pow2(|xs[counter..]|)
      invariant Replay(env, L[counter..], R[counter..], T) == Replay(env, L, R, T0)
      invariant Weigh(ax, xis[counter..], n) == Weigh(Setup.ScalarVector(a[0], |G|), xis, |G|)
      invariant Weigh(bx, xs[counter..], n) == Weigh(Setup.ScalarVector(b[0], |G|), xs, |G|)
    {
      var next, half := counter + 1, n / 2;
      ghost var k' := k - 1;
      NextBlocks(|G|, n, counter, m, k, half, next, k');
      WeighStep(ax, xis, counter, n, next, half);
      WeighStep(bx, xs, counter, n, next, half);
      ReplayStep(env, L, R, counter, T, next);
      T, ax, bx := VerifyRound(env, L[counter], R[counter], T, ax, bx, n, |G|, counter);
      counter, k := next, k';
      n := half;
    }
    var com1 := PedersenCommitVector(G, H, ax, bx);
    var ip := CalIPVec(a, b);
    var com2 := Commit(gv, ip);
    lhs := PointAdd(com1, com2);
  }
}
