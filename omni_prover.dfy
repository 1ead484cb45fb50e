/** The omniring prover (omniring/prover.go): New draws the secrets and builds the ring of
    keys and coins; calculateRound1 lays out c_L and c_R and commits to them in A, and to
    the blinding vectors s_L and s_R in B; calculateRound2 turns the constraint vector into
    theta, vec_mu and vec_alpha, commits to t_1 and t_2 in T1 and T2 and computes the
    responses; GenerateRsp pads the responses to a power-of-two length. Every random draw
    is a parameter of the step that makes it, and the constraint vector shared by the
    aliased slices vec_v[0..8] and vec_u4 is a parameter of calculateRound2. */
module OmniProver {
  import opened Field
  import opened Group
  import opened Vectors
  import opened Commitments
  import opened Setup
  import opened OmniSetup
  import OmniAlgebra
  import AnyProver

  /** The proof GenerateRsp hands out; L and R stay empty because the compression call is
      commented out in the source. */
  datatype Transcript = Transcript(
    A: Point, B: Point, T1: Point, T2: Point, tauX: Scalar, mu: Scalar,
    eta: seq<Scalar>, zeta: seq<Scalar>, ip: Scalar, w: Scalar, x: Scalar, y: Scalar, z: Scalar)

  /** The length 2 + n + N + 3k of c_L, c_R, s_L and s_R. */
  function Width(n: nat, bigN: nat, k: nat): nat
  {
    2 + n + bigN + 3 * k
  }

  // ---------------------------------------------------------------------------------
  // generators of calculateRound1
  // ---------------------------------------------------------------------------------

  /** Gen_Vec_Y: every public key plus u times the input coin of its slot. */
  function KeyedCoins(pubKeys: seq<Point>, coins: seq<Point>, u: int): (r: seq<Point>)
    requires |pubKeys| <= |coins|
    ensures |r| == |pubKeys|
  {
    PointVecAdd(pubKeys, PointScale(coins, u))
  }

  /** G_w for a challenge w: w·Gen_G twice (the source takes Gen_G for H_w as well), then
      w·Y_i for the n slots, each added to the matching entry of Gen_Vec_P, then
      Gen_Vec_G. calculateRound1 builds it for w = 0 (G_0, under A) and for W (under B). */
  function Generators(genG: Point, genY: seq<Point>, w: int, n: nat, genVecP: seq<Point>,
                      genVecG: seq<Point>): (r: seq<Point>)
    requires n <= |genY| && 2 + n <= |genVecP|
    ensures |r| == 2 + n + |genVecG|
  {
    PointVecAdd([Commit(genG, w), Commit(genG, w)] + seq(n, i requires 0 <= i < n => Commit(genY[i], w)), genVecP)
    + genVecG
  }

  /** Commitments at 0 are the identity, so G_0 is the first 2 + n entries of Gen_Vec_P
      followed by Gen_Vec_G: A does not depend on the keys or the coins. */
  lemma GeneratorsAtZero(genG: Point, genY: seq<Point>, n: nat, genVecP: seq<Point>, genVecG: seq<Point>)
    requires n <= |genY| && 2 + n <= |genVecP|
    ensures Generators(genG, genY, 0, n, genVecP, genVecG) == genVecP[..2 + n] + genVecG
  {
    var r := Generators(genG, genY, 0, n, genVecP, genVecG);
    forall t | 0 <= t < 2 + n ensures r[t] == genVecP[t] {
      var c := if t < 2 then genG else genY[t - 2];
      assert Commit(c, 0).log == 0;
    }
  }

  /** The loop of calculateRound1 that scales Gen_Vec_Y by w_vec, and the assembly of G_w
      around it. */
  method ComputeGenerators(genG: Point, genY: seq<Point>, w: int, n: nat, genVecP: seq<Point>,
                           genVecG: seq<Point>) returns (gw: seq<Point>)
    requires n <= |genY| && 2 + n <= |genVecP|
    ensures gw == Generators(genG, genY, w, n, genVecP, genVecG)
  {
    var gW := Commit(genG, w);
    var hW := Commit(genG, w);
    var wVec := GenerateConsVec(n, w);
    var genVecYw: seq<Point> := [];
    for i := 0 to |wVec|
      invariant genVecYw == seq(i, j requires 0 <= j < i => Commit(genY[j], w))
    {
      genVecYw := genVecYw + [Commit(genY[i], wVec[i])];
    }
    var temp := [gW, hW] + genVecYw;
    temp := CalPointAddVec(temp, genVecP);
    gw := temp + genVecG;
  }

  // ---------------------------------------------------------------------------------
  // the two leading entries of c_L
  // ---------------------------------------------------------------------------------

  /** c_L_1 = <u·a, v^k> for the secret values a. */
  function ValueEntry(values: seq<int>, u: int, vK: seq<int>): Scalar
    requires |values| <= |vK|
  {
    InnerProduct(Scale(values, u), vK)
  }

  /** c_L_2 = <u·r + sk, v^k> for the secret blinds r and keys sk. */
  function KeyEntry(randoms: seq<int>, keys: seq<int>, u: int, vK: seq<int>): Scalar
    requires |randoms| <= |keys| && |randoms| <= |vK|
  {
    InnerProduct(VecAdd(Scale(randoms, u), keys), vK)
  }

  /** c_L_1 is u times Σ a_i v^i, modulo n. */
  lemma ValueEntryIsSum(values: seq<int>, u: int, vK: seq<Scalar>)
    requires |values| <= |vK|
    ensures ValueEntry(values, u, vK) == (Load(u) * Dot(Loads(values), vK)) % N
  {
    var lv := Loads(values);
    var c := Load(u);
    var scaled := Scaled(lv, c);
    var a := Scale(values, u);
    ScaledEntries(values, u, a, lv, c, scaled);
    LoadedEntries(vK);
    InnerProductLifted(a, vK, scaled, vK);
    DotScaleLeft(lv, scaled, vK, c);
  }

  lemma ScaledEntries(values: seq<int>, u: int, a: seq<Scalar>, lv: seq<int>, c: int, scaled: seq<int>)
    requires a == Scale(values, u) && lv == Loads(values) && c == Load(u) && scaled == Scaled(lv, c)
    ensures |a| == |scaled| && forall i :: 0 <= i < |a| ==> Load(a[i]) == scaled[i] % N
  {
    forall i | 0 <= i < |a| ensures Load(a[i]) == scaled[i] % N {
      ScaledEntry(a[i], lv[i], c, scaled[i]);
    }
  }

  lemma ScaledEntry(e: Scalar, l: int, c: int, d: int)
    requires e == (l * c) % N && d == c * l
    ensures Load(e) == d % N
  {
  }

  lemma LoadedEntries(vK: seq<Scalar>)
    ensures forall i :: 0 <= i < |vK| ==> Load(vK[i]) == vK[i] % N
  {
  }

  /** The first lines of c_L's computation: v^k, then c_L_1 and c_L_2. */
  method LeadingEntries(values: seq<int>, randoms: seq<int>, keys: seq<int>, u: int, v: int, k: nat)
    returns (vK: seq<Scalar>, cL1: Scalar, cL2: Scalar)
    requires |values| == k && |randoms| == k && |keys| == k
    ensures vK == ExpVector(v, k) && |vK| == Max0(k) + (if k == 0 then 1 else 0)
    ensures cL1 == ValueEntry(values, u, vK) && cL2 == KeyEntry(randoms, keys, u, vK)
  {
    vK := GenerateExpScalarVector(v, k);
    var uA := CalScaVec(values, u);
    cL1 := CalIPVec(uA, vK);
    var uR := CalScaVec(randoms, u);
    var uRX := CalAddVec(uR, keys);
    cL2 := CalIPVec(uRX, vK);
  }

  /** The vk_E loop: start from n zeros, and add v^i times the i-th block of b_0 for each
      of the k blocks. */
  method ComputeVkE(b0: seq<int>, vK: seq<int>, n: nat, k: nat) returns (vkE: seq<int>)
    requires k * n <= |b0| && k <= |vK|
    ensures vkE == OmniAlgebra.VkE(b0, vK, n, k)
  {
    vkE := GenerateConsVec(n, 0);
    var counter := 0;
    for i := 0 to k
      invariant counter == i
      invariant vkE == OmniAlgebra.VkE(b0, vK, n, i)
    {
      assert (counter + 1) * n == counter * n + n;
      MulLe(counter + 1, k, n);
      var res := CalScaVec(b0[counter * n..(counter + 1) * n], vK[i]);
      vkE := CalAddVec(vkE, res);
      counter := counter + 1;
    }
  }

  /** The four pieces of c_R: 2 + n zeros, b_0 - 1^N, 2k zeros and the inverted keys. */
  method RightPieces(n: nat, b0: seq<int>, k: nat, keys: seq<int>)
    returns (vecZero: seq<int>, b01: seq<Scalar>, vecZero2: seq<int>, invSecKey: seq<Scalar>)
    ensures vecZero == Constant(2 + n, 0) && b01 == VecSub(b0, Constant(|b0|, 1))
    ensures vecZero2 == Constant(2 * k, 0) && invSecKey == VecInv(keys)
  {
    vecZero := GenerateConsVec(2 + n, 0);
    var vecOne := GenerateConsVec(|b0|, 1);
    b01 := CalSubVec(b0, vecOne);
    vecZero2 := GenerateConsVec(2 * k, 0);
    invSecKey := CalInvVec(keys);
  }

  // ---------------------------------------------------------------------------------
  // the shared constraint vector of calculateRound2
  // ---------------------------------------------------------------------------------

  /** Go's copy(dst[lo:hi], src): the first min(hi - lo, |src|) entries of src overwrite
      dst from lo on, and nothing else changes. */
  function CopyInto(dst: seq<int>, lo: nat, hi: nat, src: seq<int>): (r: seq<int>)
    requires lo <= hi <= |dst|
    ensures |r| == |dst|
  {
    seq(|dst|, i requires 0 <= i < |dst| => if lo <= i < hi && i - lo < |src| then src[i - lo] else dst[i])
  }

  /** Inside the copied window entry i is src's entry i - lo. */
  lemma CopyInside(dst: seq<int>, lo: nat, hi: nat, src: seq<int>, i: nat)
    requires lo <= i < hi <= |dst| && i - lo < |src|
    ensures CopyInto(dst, lo, hi, src)[i] == src[i - lo]
  {
  }

  /** Outside the slice dst[lo:hi], and beyond the end of src, nothing changes. */
  lemma CopyOutside(dst: seq<int>, lo: nat, hi: nat, src: seq<int>, i: nat)
    requires lo <= hi <= |dst| && i < |dst| && (i < lo || hi <= i || lo + |src| <= i)
    ensures CopyInto(dst, lo, hi, src)[i] == dst[i]
  {
  }

  /** vec_yk_1n: y^i repeated n times for each of the k blocks. */
  function Repeated(c: seq<int>, n: nat, k: nat): (r: seq<int>)
    requires k <= |c|
    ensures |r| == k * n
  {
    if k == 0 then [] else
      assert (k - 1) * n + n == k * n;
      Repeated(c, n, k - 1) + Constant(n, c[k - 1])
  }

  /** Entry t of vec_yk_1n is y^(t / n). */
  lemma {:induction false} RepeatedEntry(c: seq<int>, n: nat, k: nat, t: nat)
    requires k <= |c| && t < k * n
    ensures t / n < k && Repeated(c, n, k)[t] == c[t / n]
  {
    assert k != 0;
    assert (k - 1) * n + n == k * n;
    if t < (k - 1) * n {
      RepeatedEntry(c, n, k - 1, t);
    } else {
      DivBlock(t, k - 1, n, t - (k - 1) * n);
    }
  }

  /** vec_vk_yn: y^n scaled by v^i for each of the k blocks. */
  function ScaledBlocks(yn: seq<int>, vk: seq<int>, k: nat): (r: seq<Scalar>)
    requires k <= |vk|
    ensures |r| == k * |yn|
  {
    if k == 0 then [] else
      assert (k - 1) * |yn| + |yn| == k * |yn|;
      ScaledBlocks(yn, vk, k - 1) + Scale(yn, vk[k - 1])
  }

  /** Entry t of vec_vk_yn is y^(t mod n) v^(t / n). */
  lemma {:induction false} ScaledBlocksEntry(yn: seq<int>, vk: seq<int>, k: nat, t: nat)
    requires k <= |vk| && t < k * |yn|
    ensures t / |yn| < k && t % |yn| < |yn|
    ensures ScaledBlocks(yn, vk, k)[t] == MulInP(yn[t % |yn|], vk[t / |yn|])
  {
    var n := |yn|;
    assert k != 0;
    assert (k - 1) * n + n == k * n;
    if t < (k - 1) * n {
      ScaledBlocksEntry(yn, vk, k - 1, t);
    } else {
      DivBlock(t, k - 1, n, t - (k - 1) * n);
    }
  }

  /** Lines 272-281: y^N into vec_v[0], y^k into vec_v[1] and vec_yk_1n into vec_v[3],
      all three into the one zero vector of width 2 + n + N + 3k. */
  function RingWrites(yN: seq<int>, yk: seq<int>, yk1n: seq<int>, n: nat, bigN: nat, k: nat): (s: seq<int>)
    requires 1 <= k && 1 <= bigN
    ensures |s| == Width(n, bigN, k)
  {
    var base := 2 + n + bigN;
    var s1 := CopyInto(Constant(Width(n, bigN, k), 0), 2 + n, 2 + n + bigN - 1, yN);
    var s2 := CopyInto(s1, base + 2 * k, base + 3 * k - 1, yk);
    CopyInto(s2, 2 + n, 2 + n + bigN - 1, yk1n)
  }

  /** Lines 283-290: the 1 and u v^k of vec_v[4], the 1, u v^k and v^k of vec_v[5]. */
  function KeyWrites(s3: seq<int>, uvk: seq<int>, vk: seq<int>, n: nat, bigN: nat, k: nat): (s: seq<int>)
    requires 1 <= k && |s3| == Width(n, bigN, k)
    ensures |s| == |s3|
  {
    var base := 2 + n + bigN;
    var s4 := CopyInto(s3[0 := 1], base, base + k - 1, uvk);
    var s5 := CopyInto(s4[1 := 1], base + k, base + 2 * k - 1, uvk);
    CopyInto(s5, base + 2 * k, base + 3 * k - 1, vk)
  }

  /** Lines 292-302: -y^n and vec_vk_yn into vec_v[6], -1^k into vec_v[7]. */
  function SlotWrites(s5: seq<int>, negYn: seq<int>, vkYn: seq<int>, n: nat, bigN: nat, k: nat): (s: seq<int>)
    requires 1 <= n && 1 <= k && |s5| == Width(n, bigN, k)
    ensures |s| == |s5|
  {
    var base := 2 + n + bigN;
    var s6 := CopyInto(s5, 2, 2 + n - 1, negYn);
    var s7 := CopyInto(s6, 2 + n, 2 + n + bigN, vkYn);
    CopyInto(s7, base, base + k - 1, Constant(k, -1))
  }

  /** The single vector that vec_v[0..8] and vec_u4 all alias after lines 264-308: every
      copy writes into the one zero_vec, so the vector each of them names is what the last
      writes left there; the copy of vec_v[0] into vec_v[8] is a copy onto itself, and the
      copy of u^2 v^k into vec_u4 comes last. */
  function ConstraintVector(y: int, u: int, v: int, n: nat, bigN: nat, k: nat): (s: seq<int>)
    requires 1 <= n && 1 <= k && 1 <= bigN
    ensures |s| == Width(n, bigN, k)
  {
    var vk := ExpVector(v, k);
    var yk := ExpVector(y, k);
    var yn := ExpVector(y, n);
    var s3 := RingWrites(ExpVector(y, bigN), yk, Repeated(yk, n, k), n, bigN, k);
    var s5 := KeyWrites(s3, Scale(vk, u), vk, n, bigN, k);
    var s7 := SlotWrites(s5, VecNeg(yn), ScaledBlocks(yn, vk, k), n, bigN, k);
    CopyInto(s7, 0, Width(n, bigN, k), Scale(vk, MulInP(u, u)))
  }

  /** ConstraintVector, with the stage after lines 292-302 named. */
  lemma ConstraintStages(y: int, u: int, v: int, n: nat, bigN: nat, k: nat, s3: seq<int>, s5: seq<int>, s7: seq<int>)
    requires 1 <= n && 1 <= k && 1 <= bigN
    requires s3 == RingWrites(ExpVector(y, bigN), ExpVector(y, k), Repeated(ExpVector(y, k), n, k), n, bigN, k)
    requires s5 == KeyWrites(s3, Scale(ExpVector(v, k), u), ExpVector(v, k), n, bigN, k)
    requires s7 == SlotWrites(s5, VecNeg(ExpVector(y, n)), ScaledBlocks(ExpVector(y, n), ExpVector(v, k), k), n, bigN, k)
    ensures ConstraintVector(y, u, v, n, bigN, k) == CopyInto(s7, 0, Width(n, bigN, k), Scale(ExpVector(v, k), MulInP(u, u)))
  {
  }

  /** The first k slots hold u^2 v^i, which overwrites the 1s that vec_v[4] and vec_v[5]
      put in slots 0 and 1. */
  lemma ConstraintHead(y: int, u: int, v: int, n: nat, bigN: nat, k: nat, j: nat)
    requires 1 <= n && 1 <= k && 1 <= bigN && j < k
    ensures ConstraintVector(y, u, v, n, bigN, k)[j] == MulInP(PowMod(v, j), MulInP(u, u))
  {
    var vk := ExpVector(v, k);
    var yk := ExpVector(y, k);
    var yn := ExpVector(y, n);
    var s3 := RingWrites(ExpVector(y, bigN), yk, Repeated(yk, n, k), n, bigN, k);
    var s5 := KeyWrites(s3, Scale(vk, u), vk, n, bigN, k);
    var s7 := SlotWrites(s5, VecNeg(yn), ScaledBlocks(yn, vk, k), n, bigN, k);
    ConstraintStages(y, u, v, n, bigN, k, s3, s5, s7);
    CopyInside(s7, 0, Width(n, bigN, k), Scale(vk, MulInP(u, u)), j);
  }

  /** Behind the 2 + n + N slots of the ring come the k - 1 entries -1 of vec_v[7]: the
      slice end is one short of the block, and the -1 is the unreduced value of
      Generate_cons_vec. */
  lemma ConstraintMinusOnes(y: int, u: int, v: int, n: nat, bigN: nat, k: nat, j: nat)
    requires 1 <= n && 1 <= k <= bigN && j < k - 1
    ensures ConstraintVector(y, u, v, n, bigN, k)[2 + n + bigN + j] == -1
  {
    TailAt(y, u, v, n, bigN, k, 2 + n + bigN + j);
  }

  /** Then the k - 1 entries u v^i of vec_v[5]. */
  lemma ConstraintKeyBlock(y: int, u: int, v: int, n: nat, bigN: nat, k: nat, j: nat)
    requires 1 <= n && 1 <= k <= bigN && j < k - 1
    ensures ConstraintVector(y, u, v, n, bigN, k)[2 + n + bigN + k + j] == MulInP(PowMod(v, j), u)
  {
    var vk := ExpVector(v, k);
    var uvk := Scale(vk, u);
    var yk := ExpVector(y, k);
    var yn := ExpVector(y, n);
    var s3 := RingWrites(ExpVector(y, bigN), yk, Repeated(yk, n, k), n, bigN, k);
    var s5 := KeyWrites(s3, uvk, vk, n, bigN, k);
    var s7 := SlotWrites(s5, VecNeg(yn), ScaledBlocks(yn, vk, k), n, bigN, k);
    ConstraintStages(y, u, v, n, bigN, k, s3, s5, s7);
    TailKeySlot(s3, s5, s7, uvk, vk, Scale(vk, MulInP(u, u)), VecNeg(yn), ScaledBlocks(yn, vk, k), n, bigN, k, j);
    assert uvk[j] == MulInP(vk[j], u);
    assert vk[j] == PowMod(v, j);
  }

  /** Then the k - 1 entries v^i of vec_v[5], which overwrite the y^i of vec_v[1]. */
  lemma ConstraintPowerBlock(y: int, u: int, v: int, n: nat, bigN: nat, k: nat, j: nat)
    requires 1 <= n && 1 <= k <= bigN && j < k - 1
    ensures ConstraintVector(y, u, v, n, bigN, k)[2 + n + bigN + 2 * k + j] == PowMod(v, j)
  {
    var vk := ExpVector(v, k);
    var uvk := Scale(vk, u);
    var yk := ExpVector(y, k);
    var yn := ExpVector(y, n);
    var s3 := RingWrites(ExpVector(y, bigN), yk, Repeated(yk, n, k), n, bigN, k);
    var s5 := KeyWrites(s3, uvk, vk, n, bigN, k);
    var s7 := SlotWrites(s5, VecNeg(yn), ScaledBlocks(yn, vk, k), n, bigN, k);
    ConstraintStages(y, u, v, n, bigN, k, s3, s5, s7);
    TailPowerSlot(s3, s5, s7, uvk, vk, Scale(vk, MulInP(u, u)), VecNeg(yn), ScaledBlocks(yn, vk, k), n, bigN, k, j);
    assert vk[j] == PowMod(v, j);
  }

  /** Slot j of the u v^k block, through the last three stages. */
  lemma TailKeySlot(s3: seq<int>, s5: seq<int>, s7: seq<int>, uvk: seq<int>, vk: seq<int>, u2vk: seq<int>,
                    negYn: seq<int>, vkYn: seq<int>, n: nat, bigN: nat, k: nat, j: nat)
    requires 1 <= n && 1 <= k <= bigN && j < k - 1
    requires |s3| == Width(n, bigN, k) && |uvk| == k && |vk| == k && |u2vk| == k
    requires s5 == KeyWrites(s3, uvk, vk, n, bigN, k) && s7 == SlotWrites(s5, negYn, vkYn, n, bigN, k)
    ensures CopyInto(s7, 0, Width(n, bigN, k), u2vk)[2 + n + bigN + k + j] == uvk[j]
  {
    var t := 2 + n + bigN + k + j;
    TailSlot(s3, s5, s7, uvk, vk, u2vk, negYn, vkYn, n, bigN, k, t);
    assert t - (2 + n + bigN + k) == j;
  }

  /** Slot j of the v^k block, through the last three stages. */
  lemma TailPowerSlot(s3: seq<int>, s5: seq<int>, s7: seq<int>, uvk: seq<int>, vk: seq<int>, u2vk: seq<int>,
                      negYn: seq<int>, vkYn: seq<int>, n: nat, bigN: nat, k: nat, j: nat)
    requires 1 <= n && 1 <= k <= bigN && j < k - 1
    requires |s3| == Width(n, bigN, k) && |uvk| == k && |vk| == k && |u2vk| == k
    requires s5 == KeyWrites(s3, uvk, vk, n, bigN, k) && s7 == SlotWrites(s5, negYn, vkYn, n, bigN, k)
    ensures CopyInto(s7, 0, Width(n, bigN, k), u2vk)[2 + n + bigN + 2 * k + j] == vk[j]
  {
    var t := 2 + n + bigN + 2 * k + j;
    TailSlot(s3, s5, s7, uvk, vk, u2vk, negYn, vkYn, n, bigN, k, t);
    assert t - (2 + n + bigN + 2 * k) == j;
  }

  /** Slot t behind the ring, in terms of v^k and u v^k. */
  lemma TailAt(y: int, u: int, v: int, n: nat, bigN: nat, k: nat, t: nat)
    requires 1 <= n && 1 <= k <= bigN && 2 + n + bigN <= t < Width(n, bigN, k)
    ensures |ExpVector(v, k)| == k
    ensures t < 2 + n + bigN + k - 1 ==> ConstraintVector(y, u, v, n, bigN, k)[t] == -1
    ensures 2 + n + bigN + k <= t < 2 + n + bigN + 2 * k - 1 ==>
      ConstraintVector(y, u, v, n, bigN, k)[t] == Scale(ExpVector(v, k), u)[t - (2 + n + bigN + k)]
    ensures 2 + n + bigN + 2 * k <= t < 2 + n + bigN + 3 * k - 1 ==>
      ConstraintVector(y, u, v, n, bigN, k)[t] == ExpVector(v, k)[t - (2 + n + bigN + 2 * k)]
    ensures t == 2 + n + bigN + k - 1 || t == 2 + n + bigN + 2 * k - 1 || t == 2 + n + bigN + 3 * k - 1 ==>
      ConstraintVector(y, u, v, n, bigN, k)[t] ==
      RingWrites(ExpVector(y, bigN), ExpVector(y, k), Repeated(ExpVector(y, k), n, k), n, bigN, k)[t]
  {
    var vk := ExpVector(v, k);
    var uvk := Scale(vk, u);
    var u2vk := Scale(vk, MulInP(u, u));
    var yk := ExpVector(y, k);
    var yn := ExpVector(y, n);
    var negYn := VecNeg(yn);
    var vkYn := ScaledBlocks(yn, vk, k);
    var s3 := RingWrites(ExpVector(y, bigN), yk, Repeated(yk, n, k), n, bigN, k);
    var s5 := KeyWrites(s3, uvk, vk, n, bigN, k);
    var s7 := SlotWrites(s5, negYn, vkYn, n, bigN, k);
    ConstraintStages(y, u, v, n, bigN, k, s3, s5, s7);
    TailSlot(s3, s5, s7, uvk, vk, u2vk, negYn, vkYn, n, bigN, k, t);
  }

  /** One slot behind the ring, through the last three stages. */
  lemma TailSlot(s3: seq<int>, s5: seq<int>, s7: seq<int>, uvk: seq<int>, vk: seq<int>, u2vk: seq<int>,
                 negYn: seq<int>, vkYn: seq<int>, n: nat, bigN: nat, k: nat, t: nat)
    requires 1 <= n && 1 <= k <= bigN && 2 + n + bigN <= t < Width(n, bigN, k)
    requires |s3| == Width(n, bigN, k) && |uvk| == k && |vk| == k && |u2vk| == k
    requires s5 == KeyWrites(s3, uvk, vk, n, bigN, k) && s7 == SlotWrites(s5, negYn, vkYn, n, bigN, k)
    ensures CopyInto(s7, 0, Width(n, bigN, k), u2vk)[t] ==
      if t < 2 + n + bigN + k - 1 then -1
      else if 2 + n + bigN + k <= t < 2 + n + bigN + 2 * k - 1 then uvk[t - (2 + n + bigN + k)]
      else if 2 + n + bigN + 2 * k <= t < 2 + n + bigN + 3 * k - 1 then vk[t - (2 + n + bigN + 2 * k)]
      else s3[t]
  {
    CopyOutside(s7, 0, Width(n, bigN, k), u2vk, t);
    SlotTail(s5, negYn, vkYn, n, bigN, k, t);
    if t >= 2 + n + bigN + k - 1 {
      KeyTail(s3, uvk, vk, n, bigN, k, t);
    }
  }

  /** The last slot of the v^k block and of the u v^k block keep their 0: no copy reaches
      them. */
  lemma ConstraintGaps(y: int, u: int, v: int, n: nat, bigN: nat, k: nat, t: nat)
    requires 1 <= n && 1 <= k <= bigN
    requires t == 2 + n + bigN + 2 * k - 1 || t == 2 + n + bigN + 3 * k - 1
    ensures ConstraintVector(y, u, v, n, bigN, k)[t] == 0
  {
    var yk := ExpVector(y, k);
    TailAt(y, u, v, n, bigN, k, t);
    RingTail(ExpVector(y, bigN), yk, Repeated(yk, n, k), n, bigN, k, t);
  }

  /** Behind the ring, only the -1^k copy of vec_v[7] writes in lines 292-302. */
  lemma SlotTail(s5: seq<int>, negYn: seq<int>, vkYn: seq<int>, n: nat, bigN: nat, k: nat, t: nat)
    requires 1 <= n && 1 <= k && |s5| == Width(n, bigN, k)
    requires 2 + n + bigN <= t < Width(n, bigN, k)
    ensures SlotWrites(s5, negYn, vkYn, n, bigN, k)[t] == if t < 2 + n + bigN + k - 1 then -1 else s5[t]
  {
    var base := 2 + n + bigN;
    var s6 := CopyInto(s5, 2, 2 + n - 1, negYn);
    var s7 := CopyInto(s6, 2 + n, 2 + n + bigN, vkYn);
    CopyOutside(s5, 2, 2 + n - 1, negYn, t);
    CopyOutside(s6, 2 + n, 2 + n + bigN, vkYn, t);
    if t < base + k - 1 {
      CopyInside(s7, base, base + k - 1, Constant(k, -1), t);
    } else {
      CopyOutside(s7, base, base + k - 1, Constant(k, -1), t);
    }
  }

  /** From the last slot of the u v^k block of vec_v[4] on, lines 283-290 leave u v^k and
      v^k of vec_v[5], one short of each block. */
  lemma KeyTail(s3: seq<int>, uvk: seq<int>, vk: seq<int>, n: nat, bigN: nat, k: nat, t: nat)
    requires 1 <= k && |s3| == Width(n, bigN, k) && |uvk| == k && |vk| == k
    requires 2 + n + bigN + k - 1 <= t < Width(n, bigN, k)
    ensures KeyWrites(s3, uvk, vk, n, bigN, k)[t] ==
      if 2 + n + bigN + k <= t < 2 + n + bigN + 2 * k - 1 then uvk[t - (2 + n + bigN + k)]
      else if 2 + n + bigN + 2 * k <= t < 2 + n + bigN + 3 * k - 1 then vk[t - (2 + n + bigN + 2 * k)]
      else s3[t]
  {
    var base := 2 + n + bigN;
    var s4 := CopyInto(s3[0 := 1], base, base + k - 1, uvk);
    var s5 := CopyInto(s4[1 := 1], base + k, base + 2 * k - 1, uvk);
    CopyOutside(s3[0 := 1], base, base + k - 1, uvk, t);
    if base + k <= t < base + 2 * k - 1 {
      CopyInside(s4[1 := 1], base + k, base + 2 * k - 1, uvk, t);
    } else {
      CopyOutside(s4[1 := 1], base + k, base + 2 * k - 1, uvk, t);
    }
    if base + 2 * k <= t < base + 3 * k - 1 {
      CopyInside(s5, base + 2 * k, base + 3 * k - 1, vk, t);
    } else {
      CopyOutside(s5, base + 2 * k, base + 3 * k - 1, vk, t);
    }
  }

  /** Behind the ring, lines 272-281 write only y^k into vec_v[1], one short of its block. */
  lemma RingTail(yN: seq<int>, yk: seq<int>, yk1n: seq<int>, n: nat, bigN: nat, k: nat, t: nat)
    requires 1 <= k && 1 <= bigN && |yk| == k
    requires 2 + n + bigN <= t < Width(n, bigN, k)
    ensures RingWrites(yN, yk, yk1n, n, bigN, k)[t] ==
      if 2 + n + bigN + 2 * k <= t < 2 + n + bigN + 3 * k - 1 then yk[t - (2 + n + bigN + 2 * k)] else 0
  {
    var base := 2 + n + bigN;
    var s0 := Constant(Width(n, bigN, k), 0);
    var s1 := CopyInto(s0, 2 + n, 2 + n + bigN - 1, yN);
    var s2 := CopyInto(s1, base + 2 * k, base + 3 * k - 1, yk);
    CopyOutside(s0, 2 + n, 2 + n + bigN - 1, yN, t);
    if base + 2 * k <= t < base + 3 * k - 1 {
      CopyInside(s1, base + 2 * k, base + 3 * k - 1, yk, t);
    } else {
      CopyOutside(s1, base + 2 * k, base + 3 * k - 1, yk, t);
    }
    CopyOutside(s2, 2 + n, 2 + n + bigN - 1, yk1n, t);
  }

  /** The copies of lines 272-281 of calculateRound2. */
  method WriteRing(yN: seq<int>, yk: seq<int>, yk1n: seq<int>, n: nat, bigN: nat, k: nat) returns (s: seq<int>)
    requires 1 <= k && 1 <= bigN
    ensures s == RingWrites(yN, yk, yk1n, n, bigN, k)
  {
    var base := 2 + n + bigN;
    s := GenerateConsVec(Width(n, bigN, k), 0);
    s := CopyInto(s, 2 + n, 2 + n + bigN - 1, yN);
    s := CopyInto(s, base + 2 * k, base + 3 * k - 1, yk);
    s := CopyInto(s, 2 + n, 2 + n + bigN - 1, yk1n);
  }

  /** The vec_yk_1n loop of line 278. */
  method RepeatBlocks(yk: seq<int>, n: nat, k: nat) returns (yk1n: seq<int>)
    requires k <= |yk|
    ensures yk1n == Repeated(yk, n, k)
  {
    yk1n := [];
    for i := 0 to k
      invariant yk1n == Repeated(yk, n, i)
    {
      var block := GenerateConsVec(n, yk[i]);
      yk1n := yk1n + block;
    }
  }

  /** Lines 283-290 of calculateRound2. */
  method WriteKeys(s3: seq<int>, uvk: seq<int>, vk: seq<int>, n: nat, bigN: nat, k: nat) returns (s: seq<int>)
    requires 1 <= k && |s3| == Width(n, bigN, k)
    ensures s == KeyWrites(s3, uvk, vk, n, bigN, k)
  {
    var base := 2 + n + bigN;
    s := s3[0 := 1];
    s := CopyInto(s, base, base + k - 1, uvk);
    s := s[1 := 1];
    s := CopyInto(s, base + k, base + 2 * k - 1, uvk);
    s := CopyInto(s, base + 2 * k, base + 3 * k - 1, vk);
  }

  /** The two loops of lines 292-302: -y^n, and y^n scaled by each v^i. */
  method SlotVectors(y: int, vk: seq<int>, n: nat, k: nat) returns (negYn: seq<Scalar>, vkYn: seq<Scalar>)
    requires k <= |vk|
    ensures negYn == VecNeg(ExpVector(y, n)) && vkYn == ScaledBlocks(ExpVector(y, n), vk, k)
  {
    var yn := GenerateExpScalarVector(y, n);
    negYn := CalNegVec(yn);
    vkYn := [];
    for i := 0 to k
      invariant vkYn == ScaledBlocks(yn, vk, i)
    {
      var block := CalScaVec(yn, vk[i]);
      vkYn := vkYn + block;
    }
  }

  /** The copies of lines 292-302 of calculateRound2. */
  method WriteSlots(s5: seq<int>, negYn: seq<int>, vkYn: seq<int>, n: nat, bigN: nat, k: nat) returns (s: seq<int>)
    requires 1 <= n && 1 <= k && |s5| == Width(n, bigN, k)
    ensures s == SlotWrites(s5, negYn, vkYn, n, bigN, k)
  {
    var base := 2 + n + bigN;
    s := CopyInto(s5, 2, 2 + n - 1, negYn);
    s := CopyInto(s, 2 + n, 2 + n + bigN, vkYn);
    var neg1k := GenerateConsVec(k, -1);
    s := CopyInto(s, base, base + k - 1, neg1k);
  }

  /** Lines 264-308 of calculateRound2: the copies into the one shared vector, the last
      of them the copy of u^2 v^k into vec_u4. */
  method ComputeConstraintVector(y: int, u: int, v: int, n: nat, bigN: nat, k: nat) returns (s: seq<int>)
    requires 1 <= n && 1 <= k && 1 <= bigN
    ensures s == ConstraintVector(y, u, v, n, bigN, k)
  {
    var yN := GenerateExpScalarVector(y, bigN);
    var yk := GenerateExpScalarVector(y, k);
    var yk1n := RepeatBlocks(yk, n, k);
    var s3 := WriteRing(yN, yk, yk1n, n, bigN, k);
    var vk := GenerateExpScalarVector(v, k);
    var uvk := CalScaVec(vk, u);
    var s5 := WriteKeys(s3, uvk, vk, n, bigN, k);
    var negYn, vkYn := SlotVectors(y, vk, n, k);
    var s7 := WriteSlots(s5, negYn, vkYn, n, bigN, k);
    var u2 := MulInP(u, u);
    var u2vk := CalScaVec(vk, u2);
    s := CopyInto(s7, 0, Width(n, bigN, k), u2vk);
    ConstraintStages(y, u, v, n, bigN, k, s3, s5, s7);
  }

  // ---------------------------------------------------------------------------------
  // the aliased accumulators of calculateRound2
  // ---------------------------------------------------------------------------------

  /** theta = (2 + z)·S for the shared constraint vector S: the loop starts from S itself
      and adds S and z·S. */
  function Theta(s: seq<int>, z: Scalar): seq<Scalar>
  {
    Scale(s, (2 + z) % N)
  }

  /** vec_ksi = (1 + z^2 + ... + z^7)·S. */
  function Ksi(s: seq<int>, z: Scalar): seq<Scalar>
  {
    Scale(s, OmniAlgebra.Coefficient(z, 2, 8))
  }

  /** vec_mu = (1 + z^2 + ... + z^8)·S. */
  function MuVec(s: seq<int>, z: Scalar): seq<Scalar>
  {
    Scale(s, OmniAlgebra.Coefficient(z, 2, 9))
  }

  /** vec_alpha = theta^-1 ∘ (z^4·S - z^8·S). */
  function Alpha(s: seq<int>, z: Scalar): seq<Scalar>
  {
    Hadamard(VecInv(Theta(s, z)), VecSub(Scale(s, PowMod(z, 4)), Scale(s, PowMod(z, 8))))
  }

  /** A pass of an accumulator loop adds p·S to c·S. */
  lemma AccumulateStep(s: seq<int>, c: Scalar, p: Scalar)
    ensures VecAdd(Scale(s, c), Scale(s, p)) == Scale(s, (c + p) % N)
  {
    forall j | 0 <= j < |s| ensures VecAdd(Scale(s, c), Scale(s, p))[j] == Scale(s, (c + p) % N)[j] {
      OmniAlgebra.ScaleStep(s[j], c, p);
    }
  }

  /** The first pass adds p·S to S itself, which acts as 1·S. */
  lemma AccumulateFirst(s: seq<int>, p: Scalar)
    ensures VecAdd(s, Scale(s, p)) == Scale(s, (1 + p) % N)
  {
    forall j | 0 <= j < |s| ensures VecAdd(s, Scale(s, p))[j] == Scale(s, (1 + p) % N)[j] {
      FirstEntry(s[j], p);
    }
  }

  /** One entry of the first pass: s + p·s = (1 + p)·s modulo n. */
  lemma FirstEntry(x: int, p: Scalar)
    ensures AddInP(x, MulInP(x, p)) == MulInP(x, (1 + p) % N)
  {
    var q := (1 + p) % N;
    var l, v, w := Load(x), MulInP(x, p), MulInP(x, q);
    assert Load(l) == l && Load(p) == p && Load(q) == q;
    assert v == (l * p) % N && w == (l * q) % N;
    assert l == (l * 1) % N;
    OmniAlgebra.ScaleStepOf(l, 1, p, l, v, w);
    assert AddInP(x, v) == AddInP(l, v);
  }

  lemma CoefficientStep(z: int, lo: nat, i: nat)
    requires lo <= i
    ensures OmniAlgebra.Coefficient(z, lo, i + 1) == (OmniAlgebra.Coefficient(z, lo, i) + PowMod(z, i)) % N
    ensures i == lo ==> OmniAlgebra.Coefficient(z, lo, i + 1) == (1 + PowMod(z, i)) % N
  {
    ModAddLeft(1 + OmniAlgebra.PowerSum(z, lo, i), PowMod(z, i));
  }

  /** The theta, ksi and mu loops: the accumulator starts as S (the slice every vec_v[i]
      aliases) and adds z^i·S for i from lo to hi - 1, with temp = z^i. */
  method Accumulate(s: seq<int>, z: Scalar, lo: nat, hi: nat, start: Scalar) returns (acc: seq<Scalar>)
    requires lo < hi && start == PowMod(z, lo)
    ensures acc == Scale(s, OmniAlgebra.Coefficient(z, lo, hi))
  {
    var sum: seq<int> := s;
    var temp := start;
    for i := lo to hi
      invariant temp == PowMod(z, i)
      invariant i == lo ==> sum == s
      invariant i > lo ==> sum == Scale(s, OmniAlgebra.Coefficient(z, lo, i))
    {
      var term := CalScaVec(s, temp);
      CoefficientStep(z, lo, i);
      if i == lo {
        AccumulateFirst(s, temp);
      } else {
        AccumulateStep(s, OmniAlgebra.Coefficient(z, lo, i), temp);
      }
      sum := CalAddVec(sum, term);
      temp := MulInP(temp, z);
    }
    acc := sum;
  }

  /** The z^8 and z^4 loops: temp starts at 1 and is multiplied by z m times. */
  method Power(z: Scalar, m: nat) returns (temp: Scalar)
    ensures temp == PowMod(z, m)
  {
    temp := 1;
    for i := 0 to m
      invariant temp == PowMod(z, i)
    {
      temp := MulInP(temp, z);
    }
  }

  /** Lines 310-345 of calculateRound2: theta, ksi and mu from the shared vector S, then
      z^8·S, z^4·S, theta^-1 and vec_alpha. */
  method ConstraintScalars(s: seq<int>, z: Scalar)
    returns (theta: seq<Scalar>, ksi: seq<Scalar>, mu: seq<Scalar>, invTheta: seq<Scalar>, alpha: seq<Scalar>)
    ensures theta == Theta(s, z) && ksi == Ksi(s, z) && mu == MuVec(s, z)
    ensures invTheta == VecInv(theta) && alpha == Alpha(s, z)
    ensures |theta| == |s| && |mu| == |s| && |alpha| == |s| && |invTheta| == |s|
  {
    assert PowMod(z, 0) == 1;
    theta := Accumulate(s, z, 0, 2, 1);
    OmniAlgebra.ThetaCoefficient(z);
    var z2 := MulInP(z, z);
    assert z2 == PowMod(z, 2) by {
      assert PowMod(z, 1) == z;
    }
    ksi := Accumulate(s, z, 2, 8, z2);
    mu := Accumulate(s, z, 2, 9, z2);
    var z8 := Power(z, 8);
    var vv := CalScaVec(s, z8);
    var z4 := Power(z, 4);
    var ww := CalScaVec(s, z4);
    invTheta := CalInvVec(theta);
    var wwVv := CalSubVec(ww, vv);
    alpha := CalHPVec(invTheta, wwVv);
  }

  /** vec_mu is vec_ksi plus z^8·S: the mu loop runs one pass further, over vec_v[8]. */
  lemma MuIsKsiPlusEighth(s: seq<int>, z: Scalar)
    ensures MuVec(s, z) == VecAdd(Ksi(s, z), Scale(s, PowMod(z, 8)))
  {
    OmniAlgebra.MuOverKsi(z);
    AccumulateStep(s, OmniAlgebra.Coefficient(z, 2, 8), PowMod(z, 8));
  }

  /** theta ∘ vec_alpha = z^4·S - z^8·S wherever theta is invertible, and vec_alpha is 0
      wherever theta is 0. */
  lemma AlphaBalances(s: seq<int>, z: Scalar, j: int)
    requires 0 <= j < |s|
    ensures Invertible(Theta(s, z)[j]) ==>
      MulInP(Alpha(s, z)[j], Theta(s, z)[j]) == SubInP(MulInP(s[j], PowMod(z, 4)), MulInP(s[j], PowMod(z, 8)))
    ensures Theta(s, z)[j] == 0 ==> Alpha(s, z)[j] == 0
  {
    var diff := VecSub(Scale(s, PowMod(z, 4)), Scale(s, PowMod(z, 8)));
    OmniAlgebra.AlphaTimesTheta(Theta(s, z), diff, j);
  }

  // ---------------------------------------------------------------------------------
  // the coefficients and responses of calculateRound2
  // ---------------------------------------------------------------------------------

  /** t_1 and t_2 (lines 351-367), with c_L + vec_alpha kept for zeta. */
  method Coefficients(cL: seq<int>, alpha: seq<Scalar>, sL: seq<int>, theta: seq<Scalar>, cR: seq<int>,
                      sR: seq<int>, mu: seq<Scalar>) returns (cLAlpha: seq<Scalar>, t1: Scalar, t2: Scalar)
    requires |cL| == |alpha| == |sL| == |theta| == |cR| == |sR| == |mu|
    ensures cLAlpha == VecAdd(cL, alpha)
    ensures t1 == OmniAlgebra.T1(cL, alpha, sL, theta, cR, sR, mu) && t2 == OmniAlgebra.T2(sL, theta, sR)
  {
    cLAlpha := CalAddVec(cL, alpha);
    var thetaSR := CalHPVec(theta, sR);
    var t1L := CalIPVec(cLAlpha, thetaSR);
    var thetaCR := CalHPVec(theta, cR);
    var thetaCRMu := CalAddVec(thetaCR, mu);
    var t1R := CalIPVec(sL, thetaCRMu);
    t1 := AddInP(t1L, t1R);
    var thetaSR2 := CalHPVec(theta, sR);
    t2 := CalIPVec(sL, thetaSR2);
  }

  /** zeta = (c_L + vec_alpha) + s_L x (lines 379-380). */
  method ResponseZeta(cL: seq<int>, alpha: seq<Scalar>, cLAlpha: seq<Scalar>, sL: seq<int>, x: Scalar)
    returns (zeta: seq<Scalar>)
    requires |cL| == |alpha| == |sL| && cLAlpha == VecAdd(cL, alpha)
    ensures zeta == OmniAlgebra.Zeta(cL, alpha, sL, x) && |zeta| == |cL|
  {
    var sLX := CalScaVec(sL, x);
    zeta := CalAddVec(cLAlpha, sLX);
  }

  /** eta = theta ∘ (c_R + s_R x) + vec_mu (lines 383-386). */
  method ResponseEta(theta: seq<Scalar>, cR: seq<int>, sR: seq<int>, mu: seq<Scalar>, x: Scalar)
    returns (eta: seq<Scalar>)
    requires |theta| == |cR| == |sR| == |mu|
    ensures eta == OmniAlgebra.Eta(theta, cR, sR, mu, x) && |eta| == |theta|
  {
    var sRX := CalScaVec(sR, x);
    var cRSRX := CalAddVec(cR, sRX);
    var thetaCRSRX := CalHPVec(theta, cRSRX);
    eta := CalAddVec(thetaCRSRX, mu);
  }

  /** tau_0 = z^2 <out_Vec_Random, y^m> modulo n, for m output values. */
  function OutBlind(z: Scalar, y: Scalar, outRandom: seq<int>, m: int): Scalar
    requires |outRandom| <= |ExpVector(y, m)|
  {
    (z * z * InnerProduct(outRandom, ExpVector(y, m))) % N
  }

  /** tau_x = tau_0 + tau_1 x + tau_2 x^2 modulo n. */
  function TauAt(tau0: int, tau1: int, tau2: int, x: int): Scalar
  {
    (tau0 + Load(tau1) * x + Load(tau2) * (x * x)) % N
  }

  /** Lines 392-399: tau_x from z^2, y^m, the output blinds and the draws tau_1, tau_2. */
  method BlindTau(z: Scalar, y: Scalar, outRandom: seq<int>, m: int, tau1: int, tau2: int, x: Scalar)
    returns (tauX: Scalar)
    requires |outRandom| <= |ExpVector(y, m)|
    ensures tauX == TauAt(OutBlind(z, y, outRandom, m), tau1, tau2, x)
  {
    var z2 := MulInP(z, z);
    var vecYk2 := GenerateExpScalarVector(y, m);
    var ipOut := CalIPVec(outRandom, vecYk2);
    var tau0 := MulInP(z2, ipOut);
    var x2 := MulInP(x, x);
    var tau1X := MulInP(tau1, x);
    var tau2X2 := MulInP(tau2, x2);
    tauX := AddInP(tau0, tau1X);
    var partial := tauX;
    tauX := AddInP(tauX, tau2X2);
    TauValue(z, ipOut, z2, tau0, tau1, tau2, x, x2, tau1X, tau2X2, partial, tauX);
  }

  lemma TauValue(z: Scalar, ipOut: Scalar, z2: Scalar, tau0: Scalar, tau1: int, tau2: int, x: Scalar, x2: Scalar,
                 tau1X: Scalar, tau2X2: Scalar, partial: Scalar, tauX: Scalar)
    requires z2 == MulInP(z, z) && tau0 == MulInP(z2, ipOut) && x2 == MulInP(x, x)
    requires tau1X == MulInP(tau1, x) && tau2X2 == MulInP(tau2, x2)
    requires partial == AddInP(tau0, tau1X) && tauX == AddInP(partial, tau2X2)
    ensures tau0 == (z * z * ipOut) % N
    ensures tauX == (tau0 + Load(tau1) * x + Load(tau2) * (x * x)) % N
  {
    TauZero(z, ipOut, z2, tau0);
    var a := Load(tau1) * x;
    var b := Load(tau2) * (x * x);
    ReducedTerm(tau1, x, x, tau1X, a);
    ReducedTerm(tau2, x2, x * x, tau2X2, b);
    AddInPOfReduced(tau0, tau1X, tau0, a);
    AddInPOfReduced(partial, tau2X2, tau0 + a, b);
  }

  lemma TauZero(z: Scalar, ipOut: Scalar, z2: Scalar, tau0: Scalar)
    requires z2 == MulInP(z, z) && tau0 == MulInP(z2, ipOut)
    ensures tau0 == (z * z * ipOut) % N
  {
    var zz := z * z;
    assert z2 == zz % N;
    assert tau0 == (z2 * ipOut) % N;
    ModMulLeft(zz, ipOut);
  }

  /** MulInP(t, p) for p = q mod n is Load(t)·q modulo n. */
  lemma ReducedTerm(t: int, p: Scalar, q: int, r: Scalar, e: int)
    requires p == q % N && r == MulInP(t, p) && e == Load(t) * q
    ensures r == e % N
  {
    MulInPOfReduced(Load(t), p, q);
  }

  /** The zero points GenerateRsp pads the generator vectors with: Commit(Gen_F, 0), the
      identity, once per padding slot. */
  method ZeroPoints(genF: Point, m: nat) returns (oneVec: seq<Point>)
    ensures oneVec == seq(m, i => Identity)
  {
    oneVec := [];
    for i := 0 to m
      invariant oneVec == seq(i, j => Identity)
    {
      assert Commit(genF, 0).log == 0;
      oneVec := oneVec + [Commit(genF, 0)];
    }
  }

  // ---------------------------------------------------------------------------------
  // New, generateKey and generateCoin
  // ---------------------------------------------------------------------------------

  /** The output values New simulates: with more than one secret value, the first half
      added entrywise to the second half (the odd one out of an odd k is dropped);
      otherwise the secret values themselves. */
  function OutValues(values: seq<int>): (r: seq<int>)
    ensures |r| == if |values| > 1 then |values| / 2 else |values|
  {
    if |values| > 1 then VecAdd(values[..|values| / 2], values[|values| / 2..]) else values
  }

  /** The output-coin loop of generateCoin: one Pedersen commitment per output value. */
  method OutCoins(genG: Point, genH: Point, values: seq<int>, blinds: seq<int>) returns (coins: seq<Point>)
    requires |values| <= |blinds|
    ensures coins == PedersenAll(genG, genH, values, blinds)
  {
    coins := [];
    for i := 0 to |values|
      invariant coins == PedersenAll(genG, genH, values[..i], blinds)
    {
      assert values[..i + 1] == values[..i] + [values[i]];
      coins := coins + [PedersenCommit(genG, genH, values[i], blinds[i])];
    }
    assert values[..|values|] == values;
  }

  /** A block length n = N / k and k blocks leave room for the n - 1 decoys of the first
      block among the N - k decoy keys. */
  lemma DecoysSuffice(k: int, bigN: int, n: int)
    requires 1 <= k && 1 <= n && k * n <= bigN
    ensures n - 1 <= bigN - k
  {
    assert (n - 1) * (k - 1) >= 0;
  }

  /** Preconditions under which New can draw its ring. */
  predicate RingDraws(k: nat, bigN: nat, secVecKey: seq<int>, samples: seq<nat>, fakeKeys: seq<int>,
                      secVecValue: seq<int>, secVecRandom: seq<int>, outRandom: seq<int>,
                      fakeValues: seq<int>, fakeRandoms: seq<int>)
  {
    1 <= k <= bigN && k <= |samples|
    && |secVecKey| == k && |secVecValue| == k && |secVecRandom| == k
    && |fakeKeys| == bigN - k && |fakeValues| == bigN - k && |fakeRandoms| == bigN - k
    && |outRandom| == (if k > 1 then k / 2 else 1)
  }

  /** The selector of Generate_b_0: one 1 per block of n = N / k slots, at the drawn offset. */
  function Selector(k: nat, bigN: nat, samples: seq<nat>): (b0: seq<int>)
    requires 1 <= k <= bigN && k <= |samples|
    ensures |b0| == bigN && IsBits(b0) && 1 <= bigN / k <= bigN
    ensures forall t :: 0 <= t < |b0| ==> b0[t] == BlockMark(t, k, bigN / k, samples)
    ensures Count(b0, 1) == k && Count(b0, 0) == bigN - k
    ensures Count(b0[..bigN / k], 1) == 1 && Count(b0[..bigN / k], 0) == bigN / k - 1 <= bigN - k
  {
    BlockLength(k, bigN);
    var n := bigN / k;
    var b0 := seq(bigN, t requires 0 <= t < bigN => BlockMark(t, k, n, samples));
    SelectorCounts(b0, k, bigN, n, samples);
    FirstBlockCounts(b0, k, bigN, n, samples);
    DecoysSuffice(k, bigN, n);
    b0
  }

  /** Generate_Multi_Public_Key over the first block of the selector. */
  function PublicKeys(b0: seq<int>, n: nat, genH: Point, secVecKey: seq<int>, fakeKeys: seq<int>): seq<Point>
    requires n <= |b0| && Count(b0[..n], 1) <= |secVecKey| && Count(b0[..n], 0) <= |fakeKeys|
  {
    CommitAll(genH, Selected(b0[..n], secVecKey, fakeKeys))
  }

  /** Generate_Multi_Public_Coin over the whole selector. */
  function InputCoins(b0: seq<int>, genG: Point, genH: Point, secVecKey: seq<int>, secVecRandom: seq<int>,
                      fakeValues: seq<int>, fakeRandoms: seq<int>): seq<Point>
    requires Count(b0, 1) <= |secVecKey| == |secVecRandom| && Count(b0, 0) <= |fakeValues| == |fakeRandoms|
  {
    SelectedLength(b0, secVecKey, fakeValues);
    SelectedLength(b0, secVecRandom, fakeRandoms);
    PedersenAll(genG, genH, Selected(b0, secVecKey, fakeValues), Selected(b0, secVecRandom, fakeRandoms))
  }

  /** What New stores: b_0, b_1, the n public keys, the N input coins, the output values
      and the output coins. */
  function RingSetupOf(k: nat, bigN: nat, genG: Point, genH: Point, secVecKey: seq<int>, samples: seq<nat>,
                       fakeKeys: seq<int>, secVecValue: seq<int>, secVecRandom: seq<int>, outRandom: seq<int>,
                       fakeValues: seq<int>, fakeRandoms: seq<int>): (r: (seq<int>, seq<Scalar>, seq<Point>, seq<Point>, seq<int>, seq<Point>))
    requires RingDraws(k, bigN, secVecKey, samples, fakeKeys, secVecValue, secVecRandom, outRandom, fakeValues, fakeRandoms)
  {
    var b0 := Selector(k, bigN, samples);
    var n := bigN / k;
    var outValue := OutValues(secVecValue);
    (b0, Complement(b0), PublicKeys(b0, n, genH, secVecKey, fakeKeys),
     InputCoins(b0, genG, genH, secVecKey, secVecRandom, fakeValues, fakeRandoms),
     outValue, PedersenAll(genG, genH, outValue, outRandom))
  }

  /** The ring New sets up has one secret slot per block, n key slots holding the first
      block, N coins and one output coin per output value. */
  lemma RingShape(k: nat, bigN: nat, genG: Point, genH: Point, secVecKey: seq<int>, samples: seq<nat>,
                  fakeKeys: seq<int>, secVecValue: seq<int>, secVecRandom: seq<int>, outRandom: seq<int>,
                  fakeValues: seq<int>, fakeRandoms: seq<int>)
    requires RingDraws(k, bigN, secVecKey, samples, fakeKeys, secVecValue, secVecRandom, outRandom, fakeValues, fakeRandoms)
    ensures var (b0, b1, keys, coins, outValue, outCoins) :=
      RingSetupOf(k, bigN, genG, genH, secVecKey, samples, fakeKeys, secVecValue, secVecRandom, outRandom, fakeValues, fakeRandoms);
      Count(b0, 1) == k && b1 == Complement(b0) && |keys| == bigN / k && |coins| == bigN
      && 1 <= |outValue| == |outRandom| == |outCoins|
  {
    var b0 := Selector(k, bigN, samples);
    SelectedOfBits(b0, secVecKey, fakeValues);
    assert IsBits(b0[..bigN / k]);
    SelectedOfBits(b0[..bigN / k], secVecKey, fakeKeys);
  }

  /** New: the selector, its complement, the public keys, the input coins, the output
      values and the output coins, from the draws. */
  method RingSetup(k: nat, bigN: nat, genG: Point, genH: Point, secVecKey: seq<int>, samples: seq<nat>,
                   fakeKeys: seq<int>, secVecValue: seq<int>, secVecRandom: seq<int>, outRandom: seq<int>,
                   fakeValues: seq<int>, fakeRandoms: seq<int>)
    returns (b0: seq<int>, b1: seq<Scalar>, keys: seq<Point>, coins: seq<Point>, outValue: seq<int>, outCoins: seq<Point>)
    requires RingDraws(k, bigN, secVecKey, samples, fakeKeys, secVecValue, secVecRandom, outRandom, fakeValues, fakeRandoms)
    ensures (b0, b1, keys, coins, outValue, outCoins)
         == RingSetupOf(k, bigN, genG, genH, secVecKey, samples, fakeKeys, secVecValue, secVecRandom, outRandom, fakeValues, fakeRandoms)
  {
    var blocks := bigN / k;
    BlockLength(k, bigN);
    b0 := GenerateB0(k, bigN, samples);
    assert b0 == Selector(k, bigN, samples);
    b1 := GenerateB1(b0);
    assert Quo(bigN, k) == blocks;
    keys := GenerateMultiPublicKey(k, bigN, b0, genH, secVecKey, fakeKeys);
    assert b0[..bigN] == b0;
    coins := GenerateMultiPublicCoin(k, bigN, b0, genG, genH, secVecKey, secVecRandom, fakeValues, fakeRandoms);
    if |secVecValue| > 1 {
      outValue := CalAddVec(secVecValue[..|secVecValue| / 2], secVecValue[|secVecValue| / 2..]);
    } else {
      outValue := secVecValue;
    }
    outCoins := OutCoins(genG, genH, outValue, outRandom);
  }

  // ---------------------------------------------------------------------------------
  // calculateRound1 on values
  // ---------------------------------------------------------------------------------

  /** The entries calculateRound1 appends to c_L, for v^k and the secrets. */
  function LeftEntries(values: seq<int>, randoms: seq<int>, keys: seq<int>, b0: seq<int>,
                       u: int, v: int, n: nat, k: nat): seq<int>
    requires |values| == k && |randoms| == k && |keys| == k && k * n <= |b0|
  {
    var vK := ExpVector(v, k);
    OmniAlgebra.LeftLayout(ValueEntry(values, u, vK), KeyEntry(randoms, keys, u, vK),
                           OmniAlgebra.VkE(b0, vK, n, k), b0, values, randoms, keys)
  }

  lemma ExpVectorLength(v: int, k: nat)
    requires 1 <= k
    ensures |ExpVector(v, k)| == k
  {
  }

  /** The layout of c_L and c_R (lines 188-223). */
  method Layouts(values: seq<int>, randoms: seq<int>, keys: seq<int>, b0: seq<int>, u: int, v: int, n: nat, k: nat)
    returns (left: seq<int>, right: seq<int>)
    requires 1 <= k && |values| == k && |randoms| == k && |keys| == k && k * n <= |b0|
    ensures left == LeftEntries(values, randoms, keys, b0, u, v, n, k) && right == OmniAlgebra.RightLayout(n, b0, k, keys)
    ensures |left| == |right| == 2 + n + |b0| + 3 * k
  {
    var vK, cL1, cL2 := LeadingEntries(values, randoms, keys, u, v, k);
    var vkE := ComputeVkE(b0, vK, n, k);
    left := [cL1 as int, cL2 as int] + vkE + b0 + values + randoms + keys;
    var vecZero, b01, vecZero2, invSecKey := RightPieces(n, b0, k, keys);
    right := vecZero + b01 + vecZero2 + invSecKey;
    OmniAlgebra.LayoutConstraints(cL1, cL2, vkE, b0, values, randoms, keys, n, k);
  }

  /** A = r_A·Gen_F + <G_0, c_L> + <H, c_R> (lines 225-227). */
  method CommitA(genF: Point, g0: seq<Point>, genVecH: seq<Point>, cL: seq<int>, cR: seq<int>, rA: int)
    returns (a: Point)
    requires 1 <= |g0| <= |genVecH| && |g0| <= |cL| && |g0| <= |cR|
    ensures a == PointAdd(Commit(genF, rA), PedersenMultiExp(g0, genVecH, cL, cR))
  {
    var fRA := Commit(genF, rA);
    var gLHR := PedersenCommitVector(g0, genVecH, cL, cR);
    a := PointAdd(fRA, gLHR);
  }

  // ---------------------------------------------------------------------------------
  // calculateRound2 on values
  // ---------------------------------------------------------------------------------

  /** What calculateRound1 (lines 164-258) produces. */
  datatype Round1 = Round1(cL: seq<int>, cR: seq<int>, A: Point, w: Scalar, gw: seq<Point>, B: Point, y: Scalar, z: Scalar)

  /** What calculateRound1 needs of the prover's state. */
  predicate Round1Inputs(genVecP: seq<Point>, genVecG: seq<Point>, genVecH: seq<Point>, pubVecKey: seq<Point>,
                         inpVecCoin: seq<Point>, n: nat, k: nat, b0: seq<int>, values: seq<int>, randoms: seq<int>,
                         keys: seq<int>, sL: seq<int>, sR: seq<int>)
  {
    1 <= k && |values| == k && |randoms| == k && |keys| == k && k * n <= |b0|
    && n <= |pubVecKey| <= |inpVecCoin| && 2 + n <= |genVecP| && |genVecG| == |b0| + 3 * k
    && 2 + n + |genVecG| <= |genVecH| && 2 + n + |genVecG| <= |sL| && 2 + n + |genVecG| <= |sR|
  }

  /** calculateRound1 with the draws r_A, s_L, s_R and r_B: Y = Pk ∘ Coin^u, G_0 (G_w with
      w = 0), c_L and c_R, A = r_A·Gen_F + <G_0, c_L> + <Gen_Vec_H, c_R>, w = Hash(A), G_w,
      B = r_B·Gen_F + <G_w, s_L> + <Gen_Vec_H, s_R>, and y, z from A and B. */
  function Round1Of(env: Env, genF: Point, genG: Point, genVecP: seq<Point>, genVecG: seq<Point>,
                    genVecH: seq<Point>, pubVecKey: seq<Point>, inpVecCoin: seq<Point>, u: int, v: int,
                    n: nat, k: nat, b0: seq<int>, values: seq<int>, randoms: seq<int>, keys: seq<int>,
                    rA: int, sL: seq<int>, sR: seq<int>, rB: int): Round1
    requires Round1Inputs(genVecP, genVecG, genVecH, pubVecKey, inpVecCoin, n, k, b0, values, randoms, keys, sL, sR)
  {
    var genY := KeyedCoins(pubVecKey, inpVecCoin, u);
    var cL := LeftEntries(values, randoms, keys, b0, u, v, n, k);
    var cR := OmniAlgebra.RightLayout(n, b0, k, keys);
    var vK := ExpVector(v, k);
    OmniAlgebra.LayoutConstraints(ValueEntry(values, u, vK), KeyEntry(randoms, keys, u, vK),
                                  OmniAlgebra.VkE(b0, vK, n, k), b0, values, randoms, keys, n, k);
    var A := PointAdd(Commit(genF, rA), PedersenMultiExp(Generators(genG, genY, 0, n, genVecP, genVecG), genVecH, cL, cR));
    var w := GenerateW(env, A);
    var gw := Generators(genG, genY, w, n, genVecP, genVecG);
    var B := PointAdd(Commit(genF, rB), PedersenMultiExp(gw, genVecH, sL, sR));
    Round1(cL, cR, A, w, gw, B, GenerateYZ(env, A, B).0, GenerateYZ(env, A, B).1)
  }

  /** The first round commits in A to c_L and c_R against Gen_Vec_P's first 2 + n points and
      Gen_Vec_G, since w = 0 adds nothing to them; c_L and c_R have 2 + n + N + 3k entries,
      c_R is 0 outside the selector and key segments, c_L ∘ c_R is 0 on the selector segment
      and 1 on the key segment for invertible keys. */
  lemma Round1Commitments(env: Env, genF: Point, genG: Point, genVecP: seq<Point>, genVecG: seq<Point>,
                          genVecH: seq<Point>, pubVecKey: seq<Point>, inpVecCoin: seq<Point>, u: int, v: int,
                          n: nat, k: nat, b0: seq<int>, values: seq<int>, randoms: seq<int>, keys: seq<int>,
                          rA: int, sL: seq<int>, sR: seq<int>, rB: int)
    requires Round1Inputs(genVecP, genVecG, genVecH, pubVecKey, inpVecCoin, n, k, b0, values, randoms, keys, sL, sR)
    ensures var r := Round1Of(env, genF, genG, genVecP, genVecG, genVecH, pubVecKey, inpVecCoin, u, v, n, k, b0,
                             values, randoms, keys, rA, sL, sR, rB);
      && |r.cL| == |r.cR| == |r.gw| == 2 + n + |genVecG|
      && r.A == PointAdd(Commit(genF, rA), PedersenMultiExp(genVecP[..2 + n] + genVecG, genVecH, r.cL, r.cR))
      && (forall t :: 0 <= t < 2 + n || 2 + n + |b0| <= t < 2 + n + |b0| + 2 * k ==> r.cR[t] == 0)
      && (IsBits(b0) ==> forall t :: 2 + n <= t < 2 + n + |b0| ==> MulInP(r.cL[t], r.cR[t]) == 0)
      && (forall t :: 2 + n + |b0| + 2 * k <= t < 2 + n + |b0| + 3 * k && Invertible(Load(keys[t - (2 + n + |b0| + 2 * k)])) ==>
            MulInP(r.cL[t], r.cR[t]) == 1)
  {
    var genY := KeyedCoins(pubVecKey, inpVecCoin, u);
    GeneratorsAtZero(genG, genY, n, genVecP, genVecG);
    var vK := ExpVector(v, k);
    OmniAlgebra.LayoutConstraints(ValueEntry(values, u, vK), KeyEntry(randoms, keys, u, vK),
                                  OmniAlgebra.VkE(b0, vK, n, k), b0, values, randoms, keys, n, k);
  }

  /** calculateRound1 on values. */
  method Round1Values(env: Env, genF: Point, genG: Point, genVecP: seq<Point>, genVecG: seq<Point>,
                      genVecH: seq<Point>, pubVecKey: seq<Point>, inpVecCoin: seq<Point>, u: int, v: int,
                      n: nat, k: nat, b0: seq<int>, values: seq<int>, randoms: seq<int>, keys: seq<int>,
                      rA: int, sL: seq<int>, sR: seq<int>, rB: int)
    returns (r: Round1)
    requires Round1Inputs(genVecP, genVecG, genVecH, pubVecKey, inpVecCoin, n, k, b0, values, randoms, keys, sL, sR)
    ensures r == Round1Of(env, genF, genG, genVecP, genVecG, genVecH, pubVecKey, inpVecCoin, u, v, n, k, b0,
                          values, randoms, keys, rA, sL, sR, rB)
  {
    var coinU := PointScale(inpVecCoin, u);
    var genVecY := PointVecAdd(pubVecKey, coinU);
    assert genVecY == KeyedCoins(pubVecKey, inpVecCoin, u);
    var g0 := ComputeGenerators(genG, genVecY, 0, n, genVecP, genVecG);
    var cL, cR := Layouts(values, randoms, keys, b0, u, v, n, k);
    var A := CommitA(genF, g0, genVecH, cL, cR, rA);
    var w := GenerateW(env, A);
    var gw := ComputeGenerators(genG, genVecY, w, n, genVecP, genVecG);
    var B := CommitA(genF, gw, genVecH, sL, sR, rB);
    r := Round1(cL, cR, A, w, gw, B, GenerateYZ(env, A, B).0, GenerateYZ(env, A, B).1);
  }

  /** The responses of calculateRound2 satisfy <eta, zeta> = t_0 + t_1 x + t_2 x^2. */
  lemma HonestResponses(cL: seq<int>, cR: seq<int>, sL: seq<int>, sR: seq<int>, theta: seq<Scalar>,
                        alpha: seq<Scalar>, mu: seq<Scalar>, x: Scalar, zeta: seq<Scalar>, eta: seq<Scalar>,
                        t0: Scalar, t1: Scalar, t2: Scalar)
    requires |cL| == |alpha| == |sL| == |theta| == |cR| == |sR| == |mu|
    requires zeta == OmniAlgebra.Zeta(cL, alpha, sL, x) && eta == OmniAlgebra.Eta(theta, cR, sR, mu, x)
    requires t0 == OmniAlgebra.T0(cL, alpha, theta, cR, mu)
    requires t1 == OmniAlgebra.T1(cL, alpha, sL, theta, cR, sR, mu) && t2 == OmniAlgebra.T2(sL, theta, sR)
    ensures InnerProduct(eta, zeta) == AnyProver.PolyAt(t0, t1, t2, x)
  {
    OmniAlgebra.ResponseIdentity(cL, alpha, sL, theta, cR, sR, mu, x, VecAdd(cL, alpha), Loads(sL),
      VecAdd(Hadamard(theta, cR), mu), Hadamard(theta, sR), zeta, eta, t0, t1, t2);
  }

  /** Lines 351-389 for given theta, vec_alpha and vec_mu: t_1 and t_2, their commitments
      T1 and T2 under the draws tau_1 and tau_2, the challenge x and the responses zeta and
      eta, whose inner product is t_0 + t_1 x + t_2 x^2. */
  method Responses(env: Env, genF: Point, genG: Point, cL: seq<int>, cR: seq<int>, sL: seq<int>, sR: seq<int>,
                   theta: seq<Scalar>, alpha: seq<Scalar>, muVec: seq<Scalar>, tau1: int, tau2: int)
    returns (t1: Scalar, t2: Scalar, T1: Point, T2: Point, x: Scalar, zeta: seq<Scalar>, eta: seq<Scalar>, ip: Scalar)
    requires |cL| == |alpha| == |sL| == |theta| == |cR| == |sR| == |muVec|
    ensures t1 == OmniAlgebra.T1(cL, alpha, sL, theta, cR, sR, muVec) && t2 == OmniAlgebra.T2(sL, theta, sR)
    ensures T1 == PedersenCommit(genG, genF, t1, tau1) && T2 == PedersenCommit(genG, genF, t2, tau2)
    ensures x == GenerateX(env, T1, T2)
    ensures zeta == OmniAlgebra.Zeta(cL, alpha, sL, x) && eta == OmniAlgebra.Eta(theta, cR, sR, muVec, x)
    ensures |zeta| == |cL| && |eta| == |cL|
    ensures ip == InnerProduct(eta, zeta)
    ensures ip == AnyProver.PolyAt(OmniAlgebra.T0(cL, alpha, theta, cR, muVec), t1, t2, x)
  {
    var cLAlpha;
    cLAlpha, t1, t2 := Coefficients(cL, alpha, sL, theta, cR, sR, muVec);
    T1 := PedersenCommit(genG, genF, t1, tau1);
    T2 := PedersenCommit(genG, genF, t2, tau2);
    x := GenerateX(env, T1, T2);
    zeta := ResponseZeta(cL, alpha, cLAlpha, sL, x);
    eta := ResponseEta(theta, cR, sR, muVec, x);
    ip := CalIPVec(eta, zeta);
    HonestResponses(cL, cR, sL, sR, theta, alpha, muVec, x, zeta, eta,
                    OmniAlgebra.T0(cL, alpha, theta, cR, muVec), t1, t2);
  }

  /** What calculateRound2 (lines 260-403) stores. */
  datatype Round2 = Round2(invTheta: seq<Scalar>, T1: Point, T2: Point, x: Scalar, zeta: seq<Scalar>,
                           eta: seq<Scalar>, ip: Scalar, tauX: Scalar, mu: Scalar)

  /** calculateRound2 with the draws tau_1 and tau_2: theta, vec_alpha and vec_mu of the
      constraint vector S, T1 and T2 committing to t_1 and t_2 under Gen_G and Gen_F, x,
      zeta and eta, their inner product, tau_x and mu. */
  function Round2Of(env: Env, genF: Point, genG: Point, s: seq<int>, z: Scalar, y: Scalar,
                    cL: seq<int>, cR: seq<int>, sL: seq<int>, sR: seq<int>, rA: int, rB: int,
                    outRandom: seq<int>, m: int, tau1: int, tau2: int): Round2
    requires |cL| == |s| && |cR| == |s| && |sL| == |s| && |sR| == |s|
    requires |outRandom| <= |ExpVector(y, m)|
  {
    var theta, alpha, mu := Theta(s, z), Alpha(s, z), MuVec(s, z);
    var T1 := PedersenCommit(genG, genF, OmniAlgebra.T1(cL, alpha, sL, theta, cR, sR, mu), tau1);
    var T2 := PedersenCommit(genG, genF, OmniAlgebra.T2(sL, theta, sR), tau2);
    var x := GenerateX(env, T1, T2);
    var zeta := OmniAlgebra.Zeta(cL, alpha, sL, x);
    var eta := OmniAlgebra.Eta(theta, cR, sR, mu, x);
    Round2(VecInv(theta), T1, T2, x, zeta, eta, InnerProduct(eta, zeta),
           TauAt(OutBlind(z, y, outRandom, m), tau1, tau2, x), AnyProver.MuAt(rA, rB, x))
  }

  /** The second round's inner product is t(x) = t_0 + t_1 x + t_2 x^2 for the t_1 and t_2
      that T1 and T2 commit to, and zeta and eta have as many entries as S. */
  lemma Round2Honest(env: Env, genF: Point, genG: Point, s: seq<int>, z: Scalar, y: Scalar,
                     cL: seq<int>, cR: seq<int>, sL: seq<int>, sR: seq<int>, rA: int, rB: int,
                     outRandom: seq<int>, m: int, tau1: int, tau2: int)
    requires |cL| == |s| && |cR| == |s| && |sL| == |s| && |sR| == |s|
    requires |outRandom| <= |ExpVector(y, m)|
    ensures var r := Round2Of(env, genF, genG, s, z, y, cL, cR, sL, sR, rA, rB, outRandom, m, tau1, tau2);
      var theta, alpha, mu := Theta(s, z), Alpha(s, z), MuVec(s, z);
      && |r.zeta| == |s| && |r.eta| == |s| && |r.invTheta| == |s|
      && r.T1 == PedersenCommit(genG, genF, OmniAlgebra.T1(cL, alpha, sL, theta, cR, sR, mu), tau1)
      && r.T2 == PedersenCommit(genG, genF, OmniAlgebra.T2(sL, theta, sR), tau2)
      && r.ip == AnyProver.PolyAt(OmniAlgebra.T0(cL, alpha, theta, cR, mu),
                                  OmniAlgebra.T1(cL, alpha, sL, theta, cR, sR, mu), OmniAlgebra.T2(sL, theta, sR), r.x)
  {
    var r := Round2Of(env, genF, genG, s, z, y, cL, cR, sL, sR, rA, rB, outRandom, m, tau1, tau2);
    var theta, alpha, mu := Theta(s, z), Alpha(s, z), MuVec(s, z);
    HonestResponses(cL, cR, sL, sR, theta, alpha, mu, r.x, r.zeta, r.eta,
                    OmniAlgebra.T0(cL, alpha, theta, cR, mu), OmniAlgebra.T1(cL, alpha, sL, theta, cR, sR, mu),
                    OmniAlgebra.T2(sL, theta, sR));
  }

  /** calculateRound2 on values. */
  method Round2Values(env: Env, genF: Point, genG: Point, s: seq<int>, z: Scalar, y: Scalar,
                      cL: seq<int>, cR: seq<int>, sL: seq<int>, sR: seq<int>, rA: int, rB: int,
                      outRandom: seq<int>, m: int, tau1: int, tau2: int)
    returns (r: Round2)
    requires |cL| == |s| && |cR| == |s| && |sL| == |s| && |sR| == |s|
    requires |outRandom| <= |ExpVector(y, m)|
    ensures r == Round2Of(env, genF, genG, s, z, y, cL, cR, sL, sR, rA, rB, outRandom, m, tau1, tau2)
  {
    var theta, ksi, muVec, invTheta, alpha := ConstraintScalars(s, z);
    var t1, t2, T1, T2, x, zeta, eta, ip := Responses(env, genF, genG, cL, cR, sL, sR, theta, alpha, muVec, tau1, tau2);
    var tauX := BlindTau(z, y, outRandom, m, tau1, tau2, x);
    var mu := AnyProver.BlindMu(rA, rB, x);
    r := Round2(invTheta, T1, T2, x, zeta, eta, ip, tauX, mu);
  }

  // ---------------------------------------------------------------------------------
  // the padding of GenerateRsp
  // ---------------------------------------------------------------------------------

  /** Lines 106-117: the number of zeros that brings m entries to the next power of two. */
  function PadLength(m: nat): (pad: nat)
    ensures m >= 1 ==> m + pad == OmniAlgebra.PaddedLength(m)
  {
    if m == 0 then 0 else OmniAlgebra.PaddedLengthLeast(m); OmniAlgebra.PaddedLength(m) - m
  }

  /** Padding changes no inner product, and it stops at the least power of two at or above m. */
  lemma PaddingSound(a: seq<int>, b: seq<int>)
    requires |a| == |b| >= 1
    ensures InnerProduct(a + Constant(PadLength(|a|), 0), b + Constant(PadLength(|b|), 0)) == InnerProduct(a, b)
    ensures |a| + PadLength(|a|) == Pow2(OmniAlgebra.Log2Ceil(|a|))
  {
    var pad := PadLength(|a|);
    OmniAlgebra.InnerProductPadded(a, b, pad);
  }

  /** The transcript GenerateRsp builds from the two rounds: theta^-1 ∘ eta as Eta, and
      Eta and zeta padded with zeros to the next power of two. */
  function RspOf(r1: Round1, r2: Round2): (proof: Transcript)
    requires |r2.invTheta| <= |r2.eta|
  {
    var pad := PadLength(|r1.cL|);
    Transcript(r1.A, r1.B, r2.T1, r2.T2, r2.tauX, r2.mu, Hadamard(r2.invTheta, r2.eta) + Constant(pad, 0),
               r2.zeta + Constant(pad, 0), r2.ip, r1.w, r2.x, r1.y, r1.z)
  }

  function Round2From(env: Env, genF: Point, genG: Point, u: int, v: int, n: nat, bigN: nat, k: nat, r1: Round1,
                    sL: seq<int>, sR: seq<int>, rA: int, rB: int, outRandom: seq<int>, m: nat, tau1: int, tau2: int): Round2
    requires 1 <= n && 1 <= k && 1 <= bigN && |outRandom| <= m && 1 <= m
    requires |r1.cL| == Width(n, bigN, k) && |r1.cR| == Width(n, bigN, k)
    requires |sL| == Width(n, bigN, k) && |sR| == Width(n, bigN, k)
  {
    ExpVectorLength(r1.y, m);
    Round2Of(env, genF, genG, ConstraintVector(r1.y, u, v, n, bigN, k), r1.z, r1.y, r1.cL, r1.cR,
                          sL, sR, rA, rB, outRandom, m, tau1, tau2)
  }

  /** Round two from the values the prover holds after round one: the constraint vector
      of lines 272-308 and the responses of lines 310-402. */
  method Round2Step(env: Env, genF: Point, genG: Point, u: int, v: int, n: nat, bigN: nat, k: nat, r1: Round1,
                    sL: seq<int>, sR: seq<int>, rA: int, rB: int, outRandom: seq<int>, m: nat, tau1: int, tau2: int)
    returns (r: Round2)
    requires 1 <= n && 1 <= k && 1 <= bigN && |outRandom| <= m && 1 <= m
    requires |r1.cL| == Width(n, bigN, k) && |r1.cR| == Width(n, bigN, k)
    requires |sL| == Width(n, bigN, k) && |sR| == Width(n, bigN, k)
    ensures r == Round2From(env, genF, genG, u, v, n, bigN, k, r1, sL, sR, rA, rB, outRandom, m, tau1, tau2)
  {
    var s := ComputeConstraintVector(r1.y, u, v, n, bigN, k);
    ExpVectorLength(r1.y, m);
    r := Round2Values(env, genF, genG, s, r1.z, r1.y, r1.cL, r1.cR, sL, sR, rA, rB, outRandom, m, tau1, tau2);
  }

  /** The padding of GenerateRsp (lines 106-117) and the transcript it returns (lines 123-137):
      Gen_F's zero multiples padding Gw and Gen_H, zeros padding theta^-1 o eta and zeta. */
  method PaddedRsp(genF: Point, r1: Round1, r2: Round2) returns (proof: Transcript, oneVec: seq<Point>)
    requires |r2.invTheta| <= |r2.eta|
    ensures proof == RspOf(r1, r2) && oneVec == seq(PadLength(|r1.cL|), i => Identity)
  {
    var thetaEta := CalHPVec(r2.invTheta, r2.eta);
    var pad := PadLength(|r1.cL|);
    var zeroVec := GenerateConsVec(pad, 0);
    oneVec := ZeroPoints(genF, pad);
    proof := Transcript(r1.A, r1.B, r2.T1, r2.T2, r2.tauX, r2.mu, thetaEta + zeroVec, r2.zeta + zeroVec, r2.ip,
                        r1.w, r2.x, r1.y, r1.z);
  }

  // ---------------------------------------------------------------------------------
  // the prover
  // ---------------------------------------------------------------------------------

  class Prover {
    // public parameters
    const u: int
    const v: int
    const genF: Point
    const genG: Point
    const genH: Point
    const genVecP: seq<Point>
    const genVecG: seq<Point>
    const k: nat
    const bigN: nat
    const n: nat
    const d: int
    // the secrets, the selector and the ring they are hidden in
    const secVecKey: seq<int>
    const secVecValue: seq<int>
    const secVecRandom: seq<int>
    const outVecValue: seq<int>
    const outVecRandom: seq<int>
    const b0: seq<int>
    const b1: seq<Scalar>
    const pubVecKey: seq<Point>
    const inpVecCoin: seq<Point>
    const outVecCoin: seq<Point>

    // the generator vector GenerateRsp pads
    var genVecH: seq<Point>
    // the draws of r_A, s_L, s_R, r_B, tau_1 and tau_2
    var rA: int
    var sL: seq<int>
    var sR: seq<int>
    var rB: int
    var tau1: int
    var tau2: int
    // c_L, c_R, A, w, Gen_Vec_Gw, B, y and z, as calculateRound1 leaves them
    var round1: Round1
    // vec_inv_theta, T1, T2, x, zeta, eta, ip, tau_x and mu, as calculateRound2 leaves them
    var round2: Round2

    /** The shapes New establishes and every step relies on. */
    predicate Valid()
    {
      1 <= k <= bigN && n == bigN / k && 1 <= n <= bigN && k * n <= bigN
      && |secVecKey| == k && |secVecValue| == k && |secVecRandom| == k
      && |b0| == bigN && IsBits(b0) && Count(b0, 1) == k && b1 == Complement(b0)
      && |pubVecKey| == n && |inpVecCoin| == bigN
      && 1 <= |outVecValue| == |outVecRandom| && |outVecCoin| == |outVecValue|
      && 2 + n <= |genVecP| && |genVecG| == bigN + 3 * k
    }

    /** New, with generateKey and generateCoin; the computation is RingSetup's. */
    constructor (u: int, v: int, genF: Point, genG: Point, genH: Point, genVecP: seq<Point>, genVecG: seq<Point>,
                 genVecH: seq<Point>, k: nat, bigN: nat, d: int, secVecKey: seq<int>, samples: seq<nat>,
                 fakeKeys: seq<int>, secVecValue: seq<int>, secVecRandom: seq<int>, outRandom: seq<int>,
                 fakeValues: seq<int>, fakeRandoms: seq<int>)
      requires 1 <= k <= bigN && k <= |samples|
      requires |secVecKey| == k && |secVecValue| == k && |secVecRandom| == k
      requires |fakeKeys| == bigN - k && |fakeValues| == bigN - k && |fakeRandoms| == bigN - k
      requires |outRandom| == if k > 1 then k / 2 else 1
      requires 2 + bigN / k <= |genVecP| && |genVecG| == bigN + 3 * k
      ensures Valid()
      ensures this.u == u && this.v == v && this.genF == genF && this.genG == genG && this.genH == genH
      ensures this.genVecP == genVecP && this.genVecG == genVecG && this.genVecH == genVecH
      ensures this.k == k && this.bigN == bigN && this.n == bigN / k && this.d == d
      ensures this.secVecKey == secVecKey && this.secVecValue == secVecValue && this.secVecRandom == secVecRandom
      ensures (b0, b1, pubVecKey, inpVecCoin, outVecValue, outVecCoin)
           == RingSetupOf(k, bigN, genG, genH, secVecKey, samples, fakeKeys, secVecValue, secVecRandom, outRandom, fakeValues, fakeRandoms)
      ensures outVecRandom == outRandom && round1.cL == [] && round1.cR == []
    {
      var selector, complement, keys, coins, outValue, outCoins :=
        RingSetup(k, bigN, genG, genH, secVecKey, samples, fakeKeys, secVecValue, secVecRandom, outRandom, fakeValues, fakeRandoms);
      RingShape(k, bigN, genG, genH, secVecKey, samples, fakeKeys, secVecValue, secVecRandom, outRandom, fakeValues, fakeRandoms);
      BlockLength(k, bigN);
      this.u, this.v, this.genF, this.genG, this.genH := u, v, genF, genG, genH;
      this.genVecP, this.genVecG, this.genVecH := genVecP, genVecG, genVecH;
      this.k, this.bigN, this.n, this.d := k, bigN, bigN / k, d;
      this.secVecKey, this.secVecValue, this.secVecRandom := secVecKey, secVecValue, secVecRandom;
      this.b0, this.b1 := selector, complement;
      this.pubVecKey, this.inpVecCoin := keys, coins;
      this.outVecValue, this.outVecRandom, this.outVecCoin := outValue, outRandom, outCoins;
      this.round1 := Round1([], [], Identity, 0, [], Identity, 0, 0);
      this.round2 := Round2([], Identity, Identity, 0, [], [], 0, 0, 0);
    }

    /** The constraint vector S of the current challenges: the slice vec_v[0..8] and
        vec_u4 all share (lines 264-309). */
    function S(): seq<int>
      reads this
      requires Valid()
    {
      ConstraintVector(round1.y, u, v, n, bigN, k)
    }

    method StoreRound1(rA': int, sL': seq<int>, sR': seq<int>, rB': int, r: Round1)
      modifies this`rA, this`sL, this`sR, this`rB, this`round1
      ensures rA == rA' && sL == sL' && sR == sR' && rB == rB' && round1 == r
    {
      rA, sL, sR, rB, round1 := rA', sL', sR', rB', r;
    }

    method StoreRound2(tau1': int, tau2': int, r: Round2)
      modifies this`tau1, this`tau2, this`round2
      ensures tau1 == tau1' && tau2 == tau2' && round2 == r
    {
      tau1, tau2, round2 := tau1', tau2', r;
    }

    /** calculateRound1 (lines 164-258) with the draws r_A, s_L, s_R and r_B. It runs once,
        on the empty c_L and c_R New leaves. */
    method CalculateRound1(env: Env, rADraw: int, sLDraw: seq<int>, sRDraw: seq<int>, rBDraw: int)
      requires Valid() && round1.cL == [] && round1.cR == [] && Width(n, bigN, k) <= |genVecH|
      requires |sLDraw| == Width(n, bigN, k) && |sRDraw| == Width(n, bigN, k)
      modifies this`rA, this`sL, this`sR, this`rB, this`round1
      ensures Round1Inputs(genVecP, genVecG, genVecH, pubVecKey, inpVecCoin, n, k, b0, secVecValue, secVecRandom,
                           secVecKey, sLDraw, sRDraw)
      ensures rA == rADraw && sL == sLDraw && sR == sRDraw && rB == rBDraw
      ensures round1 == Round1Of(env, genF, genG, genVecP, genVecG, genVecH, pubVecKey, inpVecCoin, u, v, n, k,
                                 b0, secVecValue, secVecRandom, secVecKey, rADraw, sLDraw, sRDraw, rBDraw)
    {
      var r := Round1Values(env, genF, genG, genVecP, genVecG, genVecH, pubVecKey, inpVecCoin, u, v, n, k,
                            b0, secVecValue, secVecRandom, secVecKey, rADraw, sLDraw, sRDraw, rBDraw);
      StoreRound1(rADraw, sLDraw, sRDraw, rBDraw, r);
    }

    /** calculateRound2 (lines 260-403) with the draws tau_1 and tau_2. */
    method CalculateRound2(env: Env, tau1Draw: int, tau2Draw: int)
      requires Valid() && |round1.cL| == Width(n, bigN, k) && |round1.cR| == Width(n, bigN, k)
      requires |sL| == Width(n, bigN, k) && |sR| == Width(n, bigN, k)
      modifies this`tau1, this`tau2, this`round2
      ensures tau1 == tau1Draw && tau2 == tau2Draw
      ensures round2 == Round2From(env, genF, genG, u, v, n, bigN, k, old(round1), old(sL), old(sR), old(rA), old(rB),
                                   outVecRandom, |outVecValue|, tau1Draw, tau2Draw)
    {
      var r := Round2Step(env, genF, genG, u, v, n, bigN, k, round1, sL, sR, rA, rB,
                          outVecRandom, |outVecValue|, tau1Draw, tau2Draw);
      StoreRound2(tau1Draw, tau2Draw, r);
    }

    method StorePadding(zeta': seq<Scalar>, gw': seq<Point>, h': seq<Point>)
      modifies this`round1, this`round2, this`genVecH
      ensures round1 == old(round1).(gw := gw') && round2 == old(round2).(zeta := zeta') && genVecH == h'
    {
      round1 := round1.(gw := gw');
      round2 := round2.(zeta := zeta');
      genVecH := h';
    }

    /** GenerateRsp (lines 95-139): both rounds, then theta^-1 ∘ eta, and zeta, theta^-1 ∘ eta,
        G_w and Gen_Vec_H padded to the next power of two with zeros and points at infinity.
        The result is the public keys, the input and output coins, the transcript, G_w and
        Gen_Vec_H. */
    method GenerateRsp(env: Env, rADraw: int, sLDraw: seq<int>, sRDraw: seq<int>, rBDraw: int,
                       tau1Draw: int, tau2Draw: int)
      returns (keys: seq<Point>, inputs: seq<Point>, outputs: seq<Point>, proof: Transcript,
               gw: seq<Point>, h: seq<Point>)
      requires Valid() && round1.cL == [] && round1.cR == [] && Width(n, bigN, k) <= |genVecH|
      requires |sLDraw| == Width(n, bigN, k) && |sRDraw| == Width(n, bigN, k)
      modifies this
      ensures Round1Inputs(genVecP, genVecG, old(genVecH), pubVecKey, inpVecCoin, n, k, b0, secVecValue, secVecRandom,
                           secVecKey, sLDraw, sRDraw)
      ensures keys == pubVecKey && inputs == inpVecCoin && outputs == outVecCoin
      ensures var r1 := Round1Of(env, genF, genG, genVecP, genVecG, old(genVecH), pubVecKey, inpVecCoin, u, v, n, k,
                                 b0, secVecValue, secVecRandom, secVecKey, rADraw, sLDraw, sRDraw, rBDraw);
              |r1.cL| == Width(n, bigN, k) && |r1.cR| == Width(n, bigN, k)
              && proof == RspOf(r1, Round2From(env, genF, genG, u, v, n, bigN, k, r1, sLDraw, sRDraw, rADraw, rBDraw,
                                               outVecRandom, |outVecValue|, tau1Draw, tau2Draw))
              && gw == round1.gw == r1.gw + seq(PadLength(|r1.cL|), i => Identity)
              && h == genVecH == old(genVecH) + seq(PadLength(|r1.cL|), i => Identity)
    {
      var h0 := genVecH;
      CalculateRound1(env, rADraw, sLDraw, sRDraw, rBDraw);
      Round1Commitments(env, genF, genG, genVecP, genVecG, h0, pubVecKey, inpVecCoin, u, v, n, k,
                        b0, secVecValue, secVecRandom, secVecKey, rADraw, sLDraw, sRDraw, rBDraw);
      var r1 := round1;
      assert r1 == Round1Of(env, genF, genG, genVecP, genVecG, h0, pubVecKey, inpVecCoin, u, v, n, k,
                            b0, secVecValue, secVecRandom, secVecKey, rADraw, sLDraw, sRDraw, rBDraw);
      CalculateRound2(env, tau1Draw, tau2Draw);
      var r2 := round2;
      ExpVectorLength(r1.y, |outVecValue|);
      Round2Honest(env, genF, genG, ConstraintVector(r1.y, u, v, n, bigN, k), r1.z, r1.y, r1.cL, r1.cR,
                   sLDraw, sRDraw, rADraw, rBDraw, outVecRandom, |outVecValue|, tau1Draw, tau2Draw);
      var oneVec;
      proof, oneVec := PaddedRsp(genF, r1, r2);
      StorePadding(proof.zeta, r1.gw + oneVec, h0 + oneVec);
      keys, inputs, outputs := pubVecKey, inpVecCoin, outVecCoin;
      gw, h := round1.gw, genVecH;
    }
  }
}
