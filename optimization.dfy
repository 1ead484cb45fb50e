/** The scalar inner-product compression of Any-out-of-Many-Proofs/optimization.go. The
    prover halves two vectors a and b round by round: it records the cross terms
    L = <a_L, b_R> and R = <a_R, b_L>, folds a to x a_L + a_R and b to x b_R + b_L, and
    draws the next challenge x from the hash of L R. The verifier starts from t = <a, b>,
    replays t' = x^2 L + x t + R with the same challenges, and accepts when t' is the
    inner product of the two vectors of length one the prover sent.

    The folds only agree with the replay when both sides use the same challenges. In the
    source the prover binds its challenge slice x to the hash only inside the rounds that
    leave more than one entry, so on vectors of length two the single round folds with
    x = 0 while the verifier uses the first hash; `Compress` keeps that as a flag. */
module Optimization {
  import opened Field
  import opened Group
  import opened Vectors
  import CheckedVectors
  import opened Folding
  import opened Results

  // ---------------------------------------------------------------------------------
  // challenges
  // ---------------------------------------------------------------------------------

  /** The first challenge: SHA-256 of the bytes of 114514. */
  function Seed(env: Env): Scalar
  {
    Hash(env, NatBytes(114514))
  }

  /** The challenge after a round with cross terms l and r: the hash of the bytes of l r. */
  function NextChallenge(env: Env, l: Scalar, r: Scalar): Scalar
  {
    Hash(env, NatBytes(MulInP(l, r)))
  }

  // ---------------------------------------------------------------------------------
  // one round
  // ---------------------------------------------------------------------------------

  /** a' = x a_L + a_R. */
  function FoldA(a: seq<Scalar>, x: Scalar): (r: seq<Scalar>)
    ensures |r| == |a| / 2
  {
    VecAdd(Scale(a[..|a| / 2], x), a[|a| / 2..])
  }

  /** b' = x b_R + b_L. */
  function FoldB(b: seq<Scalar>, x: Scalar): (r: seq<Scalar>)
    requires |b| % 2 == 0
    ensures |r| == |b| / 2
  {
    VecAdd(Scale(b[|b| / 2..], x), b[..|b| / 2])
  }

  /** The verifier's update t' = x^2 l + x t + r, in the order of the source's products. */
  function Step(t: Scalar, x: Scalar, l: Scalar, r: Scalar): Scalar
  {
    AddInP(AddInP(MulInP(MulInP(x, x), l), MulInP(t, x)), r)
  }


  /** The integer x^2 l + t x + r that the step reduces. */
  function Quadratic(x: int, t: int, l: int, r: int): int
  {
    (x * x) * l + t * x + r
  }

  /** The entries of a' are the integers x a_L + a_R reduced. */
  lemma {:induction false} FoldAIsLin(a: seq<Scalar>, x: Scalar)
    ensures var h := |a| / 2;
      forall i :: 0 <= i < h ==> FoldA(a, x)[i] == Folding.Lin(a[..h], x, a[h..h + h])[i] % N
  {
    var h := |a| / 2;
    var s := Scale(a[..h], x);
    forall i | 0 <= i < h ensures FoldA(a, x)[i] == Folding.Lin(a[..h], x, a[h..h + h])[i] % N {
      assert s[i] == MulInP(a[i], x);
      assert FoldA(a, x)[i] == AddInP(s[i], a[h + i]);
      FoldEntry(a[i], a[h + i], x);
    }
  }

  /** The entries of b' are the integers x b_R + b_L reduced. */
  lemma {:induction false} FoldBIsLin(b: seq<Scalar>, x: Scalar)
    requires |b| % 2 == 0
    ensures var h := |b| / 2;
      forall i :: 0 <= i < h ==> FoldB(b, x)[i] == Folding.Lin(b[h..], x, b[..h])[i] % N
  {
    var h := |b| / 2;
    var s := Scale(b[h..], x);
    forall i | 0 <= i < h ensures FoldB(b, x)[i] == Folding.Lin(b[h..], x, b[..h])[i] % N {
      assert s[i] == MulInP(b[h + i], x);
      assert FoldB(b, x)[i] == AddInP(s[i], b[i]);
      FoldEntry(b[h + i], b[i], x);
    }
  }

  /** The inner product of the folds is the integer dot product of x a_L + a_R and
      x b_R + b_L, reduced. */
  lemma {:induction false} FoldIsLin(a: seq<Scalar>, b: seq<Scalar>, x: Scalar)
    requires |a| == |b| && |a| % 2 == 0
    ensures var h := |a| / 2;
      InnerProduct(FoldA(a, x), FoldB(b, x)) == Dot(Folding.Lin(a[..h], x, a[h..]), Folding.Lin(b[h..], x, b[..h])) % N
  {
    var h := |a| / 2;
    assert a[h..h + h] == a[h..];
    FoldAIsLin(a, x);
    FoldBIsLin(b, x);
    InnerProductCongruent(FoldA(a, x), FoldB(b, x), Folding.Lin(a[..h], x, a[h..]), Folding.Lin(b[h..], x, b[..h]));
  }

  /** (x p + q)·(x r + s) reduced is the step polynomial of t = p·s + q·r, l = p·r and
      r = q·s. */
  lemma {:induction false} LinQuadratic(p: seq<int>, q: seq<int>, r: seq<int>, s: seq<int>, x: int, dps: int, dqr: int, dpr: int, dqs: int)
    requires |p| == |q| == |r| == |s|
    requires dpr == Dot(p, r) && dps == Dot(p, s) && dqr == Dot(q, r) && dqs == Dot(q, s)
    ensures Dot(Folding.Lin(p, x, q), Folding.Lin(r, x, s)) % N == Quadratic(x, dps + dqr, dpr, dqs) % N
  {
    Folding.DotLin(p, q, r, s, x, x, dpr, dps, dqr, dqs);
    assert (dps + dqr) * x == x * dps + x * dqr;
    ModEqual(Dot(Folding.Lin(p, x, q), Folding.Lin(r, x, s)), Quadratic(x, dps + dqr, dpr, dqs));
  }

  /** The folded inner product in integers, with dLR = a_L·b_R and so on. */
  lemma {:induction false} FoldedDot(a: seq<Scalar>, b: seq<Scalar>, x: Scalar, dLL: int, dRR: int, dLR: int, dRL: int)
    requires |a| == |b| && |a| % 2 == 0
    requires dLL == Dot(a[..|a| / 2], b[..|a| / 2]) && dRR == Dot(a[|a| / 2..], b[|a| / 2..])
    requires dLR == Dot(a[..|a| / 2], b[|a| / 2..]) && dRL == Dot(a[|a| / 2..], b[..|a| / 2])
    ensures InnerProduct(FoldA(a, x), FoldB(b, x)) == Quadratic(x, dLL + dRR, dLR, dRL) % N
  {
    var h := |a| / 2;
    FoldIsLin(a, b, x);
    LinQuadratic(a[..h], a[h..], b[h..], b[..h], x, dLL, dRR, dLR, dRL);
  }

  /** The three inner products the verifier's step reads, as reduced dot products. */
  lemma {:induction false} CrossTerms(a: seq<Scalar>, b: seq<Scalar>, dLL: int, dRR: int, dLR: int, dRL: int)
    requires |a| == |b| && |a| % 2 == 0
    requires dLL == Dot(a[..|a| / 2], b[..|a| / 2]) && dRR == Dot(a[|a| / 2..], b[|a| / 2..])
    requires dLR == Dot(a[..|a| / 2], b[|a| / 2..]) && dRL == Dot(a[|a| / 2..], b[..|a| / 2])
    ensures InnerProduct(a, b) == (dLL + dRR) % N
    ensures InnerProduct(a[..|a| / 2], b[|a| / 2..]) == dLR % N
    ensures InnerProduct(a[|a| / 2..], b[..|a| / 2]) == dRL % N
  {
    SplitInnerProduct(a, b, dLL, dRR);
    InnerProductIsDot(a[..|a| / 2], b[|a| / 2..]);
    InnerProductIsDot(a[|a| / 2..], b[..|a| / 2]);
  }

  /** The verifier's step on inner products known as reduced integers. */
  lemma {:induction false} StepOfHalves(a: seq<Scalar>, b: seq<Scalar>, x: Scalar, dLL: int, dRR: int, dLR: int, dRL: int)
    requires |a| == |b| && |a| % 2 == 0
    requires InnerProduct(a, b) == (dLL + dRR) % N
    requires InnerProduct(a[..|a| / 2], b[|a| / 2..]) == dLR % N
    requires InnerProduct(a[|a| / 2..], b[..|a| / 2]) == dRL % N
    ensures Step(InnerProduct(a, b), x, InnerProduct(a[..|a| / 2], b[|a| / 2..]), InnerProduct(a[|a| / 2..], b[..|a| / 2]))
         == Quadratic(x, dLL + dRR, dLR, dRL) % N
  {
    var t, l, r := InnerProduct(a, b), InnerProduct(a[..|a| / 2], b[|a| / 2..]), InnerProduct(a[|a| / 2..], b[..|a| / 2]);
    var xx := MulInP(x, x);
    MulInPOfReduced(x, x, x);
    MulOfReduced(xx, l, x * x, dLR, MulInP(xx, l));
    MulOfReduced(t, x, dLL + dRR, x, MulInP(t, x));
    var first := AddInP(MulInP(xx, l), MulInP(t, x));
    AddInPOfReduced(MulInP(xx, l), MulInP(t, x), (x * x) * dLR, (dLL + dRR) * x);
    AddInPOfReduced(first, r, (x * x) * dLR + (dLL + dRR) * x, dRL);
  }

  /** The inner product is the sum of the dot products of the two halves, reduced. */
  lemma {:induction false} SplitInnerProduct(a: seq<Scalar>, b: seq<Scalar>, dLL: int, dRR: int)
    requires |a| == |b|
    requires dLL == Dot(a[..|a| / 2], b[..|a| / 2]) && dRR == Dot(a[|a| / 2..], b[|a| / 2..])
    ensures InnerProduct(a, b) == (dLL + dRR) % N
  {
    Folding.DotSplit(a, b, |a| / 2);
    InnerProductIsDot(a, b);
    ModEqual(Dot(a, b), dLL + dRR);
  }

  /** The heart of the protocol: the inner product of the folded vectors is the
      verifier's step applied to the old inner product and the two cross terms. */
  lemma {:induction false} RoundIdentity(a: seq<Scalar>, b: seq<Scalar>, x: Scalar)
    requires |a| == |b| && |a| % 2 == 0
    ensures InnerProduct(FoldA(a, x), FoldB(b, x))
         == Step(InnerProduct(a, b), x, InnerProduct(a[..|a| / 2], b[|a| / 2..]), InnerProduct(a[|a| / 2..], b[..|a| / 2]))
  {
    var h := |a| / 2;
    var dLL, dRR, dLR, dRL := Dot(a[..h], b[..h]), Dot(a[h..], b[h..]), Dot(a[..h], b[h..]), Dot(a[h..], b[..h]);
    CrossTerms(a, b, dLL, dRR, dLR, dRL);
    StepOfHalves(a, b, x, dLL, dRR, dLR, dRL);
    FoldedDot(a, b, x, dLL, dRR, dLR, dRL);
  }

  // ---------------------------------------------------------------------------------
  // prover
  // ---------------------------------------------------------------------------------

  /** The prover's transcript: the cross terms of every round and the final vectors. */
  datatype Compressed = Compressed(L: seq<Scalar>, R: seq<Scalar>, a: seq<Scalar>, b: seq<Scalar>)

  /** The state one round of prove leaves: the folded vectors, the hash and whether x is
      bound to it. */
  datatype Reduced = Reduced(a: seq<Scalar>, b: seq<Scalar>, x32: Scalar, xBound: bool)

  /** One round of prove on vectors of length at least two, with x32 the current hash and
      xBound whether the slice x has been pointed at it. A round that leaves more than one
      entry binds x, folds with the hash and hashes its cross terms; the round that leaves
      one entry folds with x, which is 0 while unbound. */
  function Advance(env: Env, a: seq<Scalar>, b: seq<Scalar>, x32: Scalar, xBound: bool): (s: Reduced)
    requires |a| == |b| && |a| >= 2 && Halvable(|a|)
    ensures |s.a| == |s.b| == |a| / 2 && Halvable(|s.a|)
    ensures |a| > 2 ==> s.xBound && s.x32 == NextChallenge(env, InnerProduct(a[..|a| / 2], b[|a| / 2..]), InnerProduct(a[|a| / 2..], b[..|a| / 2]))
  {
    var h := |a| / 2;
    if |a| > 2 then
      Reduced(FoldA(a, x32), FoldB(b, x32), NextChallenge(env, InnerProduct(a[..h], b[h..]), InnerProduct(a[h..], b[..h])), true)
    else
      var x := if xBound then x32 else 0;
      Reduced(FoldA(a, x), FoldB(b, x), x32, xBound)
  }

  /** The rounds of prove from vectors a and b: the cross terms of each round, then the
      rounds of what it leaves. */
  function Rounds(env: Env, a: seq<Scalar>, b: seq<Scalar>, x32: Scalar, xBound: bool): (c: Compressed)
    requires |a| == |b| && Halvable(|a|)
    ensures |c.L| == |c.R| && |c.a| == |c.b| <= 1
    decreases |a|
  {
    if |a| <= 1 then Compressed([], [], a, b)
    else
      var h := |a| / 2;
      var s := Advance(env, a, b, x32, xBound);
      var rest := Rounds(env, s.a, s.b, s.x32, s.xBound);
      Compressed([InnerProduct(a[..h], b[h..])] + rest.L, [InnerProduct(a[h..], b[..h])] + rest.R, rest.a, rest.b)
  }

  /** The transcript after cross terms L and R were already recorded. */
  function After(L: seq<Scalar>, R: seq<Scalar>, c: Compressed): Compressed
  {
    Compressed(L + c.L, R + c.R, c.a, c.b)
  }

  /** The body of prove's loop: the two cross terms and the state the round leaves. */
  method CompressRound(env: Env, a: seq<Scalar>, b: seq<Scalar>, x32: Scalar, xBound: bool)
    returns (l: Scalar, r: Scalar, s: Reduced)
    requires |a| == |b| && |a| >= 2 && Halvable(|a|)
    ensures l == InnerProduct(a[..|a| / 2], b[|a| / 2..]) && r == InnerProduct(a[|a| / 2..], b[..|a| / 2])
    ensures s == Advance(env, a, b, x32, xBound)
  {
    var h := |a| / 2;
    var aL, aR, bL, bR := a[..h], a[h..], b[..h], b[h..];
    var temp := CheckedVectors.CalIPVec(aL, bR);
    l := temp.value;
    temp := CheckedVectors.CalIPVec(aR, bL);
    r := temp.value;
    var x := if xBound then x32 else 0;
    if |a| > 2 {
      x := x32;
    }
    var sa := CheckedVectors.CalScaVec(aL, x);
    var na := CheckedVectors.CalAddVec(sa, aR);
    var sb := CheckedVectors.CalScaVec(bR, x);
    var nb := CheckedVectors.CalAddVec(sb, bL);
    if |a| > 2 {
      s := Reduced(na.value, nb.value, NextChallenge(env, l, r), true);
    } else {
      s := Reduced(na.value, nb.value, x32, xBound);
    }
  }

  /** Recording one round's cross terms before the rest of the transcript. */
  lemma {:induction false} AfterRound(L: seq<Scalar>, R: seq<Scalar>, l: Scalar, r: Scalar, rest: Compressed)
    ensures After(L, R, Compressed([l] + rest.L, [r] + rest.R, rest.a, rest.b)) == After(L + [l], R + [r], rest)
  {
    assert L + ([l] + rest.L) == (L + [l]) + rest.L;
    assert R + ([r] + rest.R) == (R + [r]) + rest.R;
  }

  /** Nothing recorded leaves a transcript as it is. */
  lemma {:induction false} AfterNothing(c: Compressed)
    ensures After([], [], c) == c
  {
    assert [] + c.L == c.L && [] + c.R == c.R;
  }

  /** The inputs on which prove returns: vectors of one length that halve down to a single
      entry, or an a with at most one entry, for which the loop does not run. */
  predicate ProveReturns(a: seq<Scalar>, b: seq<Scalar>)
  {
    (|a| == |b| && Halvable(|a|)) || |a| <= 1
  }

  /** The loop of prove, from the first hash, with xBound0 saying whether x starts bound
      to it (false in the source). On vectors of different lengths t is nil and the loop
      does not run, since a has at most one entry. */
  method Compress(env: Env, a0: seq<Scalar>, b0: seq<Scalar>, xBound0: bool)
    returns (L: seq<Scalar>, R: seq<Scalar>, t: Option<Scalar>, a: seq<Scalar>, b: seq<Scalar>)
    requires ProveReturns(a0, b0)
    ensures t == (if |a0| == |b0| then Some(InnerProduct(a0, b0)) else None)
    ensures |a0| == |b0| ==> Compressed(L, R, a, b) == Rounds(env, a0, b0, Seed(env), xBound0)
    ensures |a0| != |b0| ==> L == [] && R == [] && a == a0 && b == b0
  {
    L, R := [], [];
    var x32 := Seed(env);
    var xBound := xBound0;
    a, b := a0, b0;
    var l := |a|;
    var ip := CheckedVectors.CalIPVec(a, b);
    t := if ip.Success? then Some(ip.value) else None;
    if |a0| == |b0| {
      AfterNothing(Rounds(env, a0, b0, x32, xBound));
    }
    while l > 1
      invariant l == |a| && ProveReturns(a, b)
      invariant |a0| == |b0| ==> |a| == |b| && Rounds(env, a0, b0, Seed(env), xBound0) == After(L, R, Rounds(env, a, b, x32, xBound))
      invariant |a0| != |b0| ==> L == [] && R == [] && a == a0 && b == b0
      decreases l
    {
      var lt, rt, s := CompressRound(env, a, b, x32, xBound);
      AfterRound(L, R, lt, rt, Rounds(env, s.a, s.b, s.x32, s.xBound));
      L, R := L + [lt], R + [rt];
      a, b, x32, xBound := s.a, s.b, s.x32, s.xBound;
      l := |a|;
    }
    if |a0| == |b0| {
      assert Rounds(env, a, b, x32, xBound) == Compressed([], [], a, b);
      assert L + [] == L && R + [] == R;
    }
  }

  /** prove as written. Vectors of different lengths with more than one entry are left
      out: on them the loop never ends (UnequalLengthsStall). */
  method Prove(env: Env, a: seq<Scalar>, b: seq<Scalar>)
    returns (L: seq<Scalar>, R: seq<Scalar>, t: Option<Scalar>, a': seq<Scalar>, b': seq<Scalar>)
    requires ProveReturns(a, b)
    ensures t == (if |a| == |b| then Some(InnerProduct(a, b)) else None)
    ensures |a| == |b| ==> Compressed(L, R, a', b') == Rounds(env, a, b, Seed(env), false)
    ensures |a| != |b| ==> L == [] && R == [] && a' == a && b' == b
  {
    L, R, t, a', b' := Compress(env, a, b, false);
  }

  /** One pass of prove's loop body on an a of at least two entries. When the lengths
      differ the body only prints its error, so a, b and the hash stay as they were. */
  function Pass(env: Env, s: Reduced): (r: Reduced)
    requires |s.a| >= 2 && (|s.a| == |s.b| ==> Halvable(|s.a|))
    ensures |r.a| == |r.b| ==> Halvable(|r.a|)
  {
    if |s.a| != |s.b| then s else Advance(env, s.a, s.b, s.x32, s.xBound)
  }

  /** The state after k passes of prove's loop, which stops once a has at most one entry. */
  function Passes(env: Env, s: Reduced, k: nat): (r: Reduced)
    requires |s.a| == |s.b| ==> Halvable(|s.a|)
    ensures |r.a| == |r.b| ==> Halvable(|r.a|)
    decreases k
  {
    if k == 0 || |s.a| <= 1 then s else Passes(env, Pass(env, s), k - 1)
  }

  /** On vectors of different lengths whose a has at least two entries, prove's loop never
      ends: after any number of passes the state is unchanged and l = |a| is still above 1. */
  lemma {:induction false} UnequalLengthsStall(env: Env, s: Reduced, k: nat)
    requires |s.a| >= 2 && |s.a| != |s.b|
    ensures Passes(env, s, k) == s && |Passes(env, s, k).a| > 1
  {
    if k > 0 {
      UnequalLengthsStall(env, Pass(env, s), k - 1);
    }
  }

  /** prove with both defects mended: it returns at once, with t nil, when the lengths
      differ, and x is bound to the first hash before the loop, so that every round folds
      with the challenge the verifier replays. */
  method ProveCorrected(env: Env, a: seq<Scalar>, b: seq<Scalar>)
    returns (L: seq<Scalar>, R: seq<Scalar>, t: Option<Scalar>, a': seq<Scalar>, b': seq<Scalar>)
    requires |a| == |b| ==> Halvable(|a|)
    ensures t.Some? <==> |a| == |b|
    ensures |a| != |b| ==> L == [] && R == [] && a' == a && b' == b
    ensures |a| == |b| ==> t.value == InnerProduct(a, b) && Compressed(L, R, a', b') == Rounds(env, a, b, Seed(env), true)
    ensures |a| == |b| ==> |L| >= |R| && |a'| == |b'| && Accepts(env, L, R, t.value, a', b')
  {
    if |a| != |b| {
      return [], [], None, a, b;
    }
    L, R, t, a', b' := Compress(env, a, b, true);
    CorrectedComplete(env, a, b);
  }

  /** The transcript has one cross term per halving and ends in vectors of length one
      (or stays empty on empty vectors). */
  lemma {:induction false} RoundsShape(env: Env, a: seq<Scalar>, b: seq<Scalar>, x32: Scalar, xBound: bool)
    requires |a| == |b| && Halvable(|a|)
    ensures var c := Rounds(env, a, b, x32, xBound);
      |c.L| == |c.R| &&
      (|a| == 0 ==> c.L == [] && c.a == [] && c.b == []) &&
      (|a| > 0 ==> |c.L| == Log2(|a|) && |c.a| == 1 && |c.b| == 1)
    decreases |a|
  {
    if |a| >= 2 {
      var s := Advance(env, a, b, x32, xBound);
      RoundsShape(env, s.a, s.b, s.x32, s.xBound);
    }
  }

  // ---------------------------------------------------------------------------------
  // verifier
  // ---------------------------------------------------------------------------------

  /** The verifier's value of t after replaying the rounds of L and R from challenge x. */
  function Replay(env: Env, L: seq<Scalar>, R: seq<Scalar>, t: Scalar, x: Scalar): Scalar
    requires |L| >= |R|
    decreases |R|
  {
    if |R| == 0 then t
    else Replay(env, L[1..], R[1..], Step(t, x, L[0], R[0]), NextChallenge(env, L[0], R[0]))
  }

  /** What verify prints "Verfication Passes!" for. */
  predicate Accepts(env: Env, L: seq<Scalar>, R: seq<Scalar>, t: Scalar, a: seq<Scalar>, b: seq<Scalar>)
    requires |L| >= |R| && |a| == |b|
  {
    InnerProduct(a, b) == Replay(env, L, R, t, Seed(env))
  }

  /** verify: the verdict it prints, as a boolean. A shorter L or vectors of different
      lengths make the source panic, which the precondition excludes. */
  method Verify(env: Env, L: seq<Scalar>, R: seq<Scalar>, t0: Scalar, a: seq<Scalar>, b: seq<Scalar>)
    returns (passes: bool)
    requires |L| >= |R| && |a| == |b|
    ensures passes <==> InnerProduct(a, b) == Replay(env, L, R, t0, Seed(env))
  {
    var res := CheckedVectors.CalIPVec(a, b);
    var l := |R|;
    var x := Seed(env);
    var t := t0;
    for i := 0 to l
      invariant Replay(env, L, R, t0, Seed(env)) == Replay(env, L[i..], R[i..], t, x)
    {
      assert L[i..][1..] == L[i + 1..] && R[i..][1..] == R[i + 1..];
      var x2 := MulInP(x, x);
      var t1 := MulInP(x2, L[i]);
      var t2 := MulInP(t, x);
      var t12 := AddInP(t1, t2);
      t := AddInP(t12, R[i]);
      if i < l - 1 {
        x := NextChallenge(env, L[i], R[i]);
      }
    }
    passes := res.value == t;
  }

  // ---------------------------------------------------------------------------------
  // completeness
  // ---------------------------------------------------------------------------------

  /** Replaying a transcript of Rounds from its own first challenge reaches the inner
      product of the final vectors, provided the last round folds with the hash. */
  lemma {:induction false} ReplayRounds(env: Env, a: seq<Scalar>, b: seq<Scalar>, x32: Scalar, xBound: bool)
    requires |a| == |b| && Halvable(|a|) && (xBound || |a| != 2)
    ensures var c := Rounds(env, a, b, x32, xBound);
      |c.L| == |c.R| && |c.a| == |c.b| &&
      Replay(env, c.L, c.R, InnerProduct(a, b), x32) == InnerProduct(c.a, c.b)
    decreases |a|
  {
    RoundsShape(env, a, b, x32, xBound);
    if |a| >= 2 {
      var h := |a| / 2;
      var l, r := InnerProduct(a[..h], b[h..]), InnerProduct(a[h..], b[..h]);
      var s := Advance(env, a, b, x32, xBound);
      var rest := Rounds(env, s.a, s.b, s.x32, s.xBound);
      var c := Rounds(env, a, b, x32, xBound);
      RoundIdentity(a, b, x32);
      assert c.L[1..] == rest.L && c.R[1..] == rest.R;
      assert Step(InnerProduct(a, b), x32, l, r) == InnerProduct(s.a, s.b);
      ReplayRounds(env, s.a, s.b, s.x32, s.xBound);
      if |a| == 2 {
        assert rest.R == [];
      }
    }
  }

  /** Honest transcripts of every length but two are accepted. */
  lemma {:induction false} Complete(env: Env, a: seq<Scalar>, b: seq<Scalar>)
    requires |a| == |b| && Halvable(|a|) && |a| != 2
    ensures var c := Rounds(env, a, b, Seed(env), false);
      |c.L| >= |c.R| && |c.a| == |c.b| && Accepts(env, c.L, c.R, InnerProduct(a, b), c.a, c.b)
  {
    ReplayRounds(env, a, b, Seed(env), false);
  }

  /** On vectors of length two the source's prover folds with 0 and its transcript is
      rejected whenever the first hash is not 0: a = b = (0, 1) has <a, b> = 1 but folds to
      (1) and (0). */
  lemma {:induction false} LengthTwoRejected(env: Env)
    requires Seed(env) != 0
    ensures var a: seq<Scalar> := [0, 1];
      var c := Rounds(env, a, a, Seed(env), false);
      |c.L| >= |c.R| && |c.a| == |c.b| && !Accepts(env, c.L, c.R, InnerProduct(a, a), c.a, c.b)
  {
    var s := Seed(env);
    LengthTwoTranscript(env, s);
    InnerProductZeroOne();
    ReplayUnit(env, s);
    InnerProductSingle(1, [0]);
  }

  /** <(0, 1), (0, 1)> = 1. */
  lemma {:induction false} InnerProductZeroOne()
    ensures InnerProduct([0, 1], [0, 1]) == 1
  {
    var a: seq<Scalar> := [0, 1];
    InnerProductSingle(0, a);
    assert a[..|a| - 1] == [0];
    assert InnerProduct(a, a) == AddInP(InnerProduct([0], a), MulInP(1, 1));
  }

  /** One round with zero cross terms from t = 1 replays to the challenge itself. */
  lemma {:induction false} ReplayUnit(env: Env, s: Scalar)
    ensures Replay(env, [0], [0], 1, s) == s
  {
    assert Replay(env, [0], [0], 1, s) == Step(1, s, 0, 0);
    assert MulInP(MulInP(s, s), 0) == 0 && MulInP(1, s) == s;
  }

  /** The transcript the source's prover sends for a = b = (0, 1). */
  lemma {:induction false} LengthTwoTranscript(env: Env, s: Scalar)
    ensures Rounds(env, [0, 1], [0, 1], s, false) == Compressed([0], [0], [1], [0])
  {
    var a: seq<Scalar> := [0, 1];
    assert a[..1] == [0] && a[1..] == [1];
    InnerProductSingle(0, [1]);
    var st := Advance(env, a, a, s, false);
    assert st.a == [1] && st.b == [0] by {
      assert Scale([0], 0) == [0] && Scale([1], 0) == [0];
      assert VecAdd([0], [1]) == [1] && VecAdd([0], [0]) == [0];
    }
  }

  /** The inner product of two one-entry vectors. */
  lemma {:induction false} InnerProductSingle(p: Scalar, q: seq<Scalar>)
    requires |q| >= 1
    ensures InnerProduct([p], q) == MulInP(p, q[0])
  {
    assert [p][..0] == [];
    assert InnerProduct([p], q) == AddInP(InnerProduct([], q), MulInP(p, q[0]));
  }

  /** With x bound from the start, honest transcripts of every length are accepted. */
  lemma {:induction false} CorrectedComplete(env: Env, a: seq<Scalar>, b: seq<Scalar>)
    requires |a| == |b| && Halvable(|a|)
    ensures var c := Rounds(env, a, b, Seed(env), true);
      |c.L| >= |c.R| && |c.a| == |c.b| && Accepts(env, c.L, c.R, InnerProduct(a, b), c.a, c.b)
  {
    ReplayRounds(env, a, b, Seed(env), true);
  }
}
