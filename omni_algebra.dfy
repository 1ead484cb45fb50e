/** The scalar algebra of the omniring prover (omniring/prover.go): the layout of c_L and
    c_R, the vector vk_E, the coefficients the aliased constraint accumulators end up
    with, the responses zeta and eta with their quadratic identity, and the padding to a
    power of two. */
module OmniAlgebra {
  import opened Field
  import opened Vectors
  import opened Setup
  import opened Polynomial
  import opened Commitments
  import OmniSetup

  // ---------------------------------------------------------------------------------
  // vk_E
  // ---------------------------------------------------------------------------------

  /** vk_E after c blocks: Σ_{i < c} v^i·b_0[i n .. (i + 1) n), from the zero vector. */
  function VkE(b0: seq<int>, vK: seq<int>, n: nat, c: nat): (r: seq<int>)
    requires c * n <= |b0| && c <= |vK|
    ensures |r| == n
    decreases c
  {
    if c == 0 then Constant(n, 0)
    else
      assert (c - 1) * n + n == c * n;
      VecAdd(VkE(b0, vK, n, c - 1), Scale(b0[(c - 1) * n .. c * n], vK[c - 1]))
  }

  /** The powers v^i of the blocks i < c whose drawn offset is j. */
  function Picked(samples: seq<nat>, n: nat, vK: seq<int>, j: int, c: nat): int
    requires n > 0 && c <= |samples| && c <= |vK|
    decreases c
  {
    if c == 0 then 0
    else Picked(samples, n, vK, j, c - 1) + (if samples[c - 1] % n == j then vK[c - 1] else 0)
  }

  /** On the selector Generate_b_0 draws (one 1 per block, at the drawn offset), entry j
      of vk_E is the sum of the v^i of the secrets that sit at offset j of their block. */
  lemma {:induction false} VkEPicks(b0: seq<int>, vK: seq<Scalar>, n: nat, k: nat, samples: seq<nat>, c: nat, j: int)
    requires n > 0 && c <= k <= |samples| && k <= |vK| && k * n <= |b0| && 0 <= j < n
    requires forall t :: 0 <= t < |b0| ==> b0[t] == OmniSetup.BlockMark(t, k, n, samples)
    ensures c * n <= |b0|
    ensures VkE(b0, vK, n, c)[j] == Picked(samples, n, vK, j, c) % N
  {
    OmniSetup.MulLe(c, k, n);
    if c > 0 {
      VkEPicks(b0, vK, n, k, samples, c - 1, j);
      var lo := (c - 1) * n;
      assert lo + n == c * n;
      OmniSetup.DivBlock(lo + j, c - 1, n, j);
      VkEPickStep(b0, vK, n, samples, c, j, lo, b0[lo + j]);
    }
  }

  /** Block c - 1 adds v^(c-1) to entry j of vk_E exactly when its drawn offset is j, that
      is, when the block's slot j holds the 1. */
  lemma VkEPickStep(b0: seq<int>, vK: seq<Scalar>, n: nat, samples: seq<nat>, c: nat, j: int, lo: nat, mark: int)
    requires n > 0 && 0 < c <= |samples| && c <= |vK| && c * n <= |b0| && 0 <= j < n
    requires lo == (c - 1) * n && lo + n == c * n && mark == b0[lo + j]
    requires mark == if samples[c - 1] % n == j then 1 else 0
    requires VkE(b0, vK, n, c - 1)[j] == Picked(samples, n, vK, j, c - 1) % N
    ensures VkE(b0, vK, n, c)[j] == Picked(samples, n, vK, j, c) % N
  {
    var block := b0[lo .. lo + n];
    assert block[j] == mark;
    var m: Scalar := if samples[c - 1] % n == j then vK[c - 1] else 0;
    var prev, scaled := VkE(b0, vK, n, c - 1), Scale(block, vK[c - 1]);
    assert VkE(b0, vK, n, c)[j] == AddInP(prev[j], scaled[j]);
    assert scaled[j] == MulInP(mark, vK[c - 1]) == m;
    AddInPOfReduced(prev[j], m, Picked(samples, n, vK, j, c - 1), m);
  }

  // ---------------------------------------------------------------------------------
  // c_L and c_R
  // ---------------------------------------------------------------------------------

  /** The entries calculateRound1 appends to c_L:
      [c_L_1, c_L_2] ++ vk_E ++ b_0 ++ sec_Vec_Value ++ sec_Vec_Random ++ sec_Vec_Key. */
  function LeftLayout(cL1: Scalar, cL2: Scalar, vkE: seq<int>, b0: seq<int>, values: seq<int>,
                      randoms: seq<int>, keys: seq<int>): seq<int>
  {
    [cL1 as int, cL2 as int] + vkE + b0 + values + randoms + keys
  }

  /** The entries calculateRound1 appends to c_R:
      0^(2+n) ++ (b_0 - 1^N) ++ 0^(2k) ++ sec_Vec_Key^-1. */
  function RightLayout(n: nat, b0: seq<int>, k: nat, keys: seq<int>): seq<int>
  {
    Constant(2 + n, 0) + VecSub(b0, Constant(|b0|, 1)) + Constant(2 * k, 0) + VecInv(keys)
  }

  /** The two layouts line up entry by entry: both have 2 + n + N + 3k entries, c_R is 0
      outside the selector and key segments, on the selector segment c_L ∘ c_R is
      b_0 ∘ (b_0 - 1), which is 0 for a bit vector, and on the key segment it is
      sk ∘ sk^-1, which is 1 for every invertible key. */
  lemma LayoutConstraints(cL1: Scalar, cL2: Scalar, vkE: seq<int>, b0: seq<int>, values: seq<int>,
                          randoms: seq<int>, keys: seq<int>, n: nat, k: nat)
    requires |vkE| == n && |values| == k && |randoms| == k && |keys| == k
    ensures |LeftLayout(cL1, cL2, vkE, b0, values, randoms, keys)| == 2 + n + |b0| + 3 * k
    ensures |RightLayout(n, b0, k, keys)| == 2 + n + |b0| + 3 * k
    ensures forall t :: 0 <= t < 2 + n || 2 + n + |b0| <= t < 2 + n + |b0| + 2 * k ==>
      RightLayout(n, b0, k, keys)[t] == 0
    ensures IsBits(b0) ==> forall t :: 2 + n <= t < 2 + n + |b0| ==>
      MulInP(LeftLayout(cL1, cL2, vkE, b0, values, randoms, keys)[t], RightLayout(n, b0, k, keys)[t]) == 0
    ensures forall t :: 2 + n + |b0| + 2 * k <= t < 2 + n + |b0| + 3 * k && Invertible(Load(keys[t - (2 + n + |b0| + 2 * k)])) ==>
      MulInP(LeftLayout(cL1, cL2, vkE, b0, values, randoms, keys)[t], RightLayout(n, b0, k, keys)[t]) == 1
  {
    var cL := LeftLayout(cL1, cL2, vkE, b0, values, randoms, keys);
    var cR := RightLayout(n, b0, k, keys);
    SelectorSegment(cL, cR, cL1, cL2, vkE, b0, values, randoms, keys, n, k);
    var e := 2 + n + |b0| + 2 * k;
    forall t | e <= t < e + k && Invertible(Load(keys[t - e])) ensures MulInP(cL[t], cR[t]) == 1 {
      assert cL[t] == keys[t - e];
      assert cR[t] == InverseZp(keys[t - e]);
      InverseZpCorrect(keys[t - e]);
    }
  }

  /** The selector segment of the layouts. */
  lemma SelectorSegment(cL: seq<int>, cR: seq<int>, cL1: Scalar, cL2: Scalar, vkE: seq<int>, b0: seq<int>,
                        values: seq<int>, randoms: seq<int>, keys: seq<int>, n: nat, k: nat)
    requires |vkE| == n && |values| == k && |randoms| == k && |keys| == k
    requires cL == LeftLayout(cL1, cL2, vkE, b0, values, randoms, keys) && cR == RightLayout(n, b0, k, keys)
    ensures |cL| == |cR| == 2 + n + |b0| + 3 * k
    ensures forall t :: 0 <= t < 2 + n || 2 + n + |b0| <= t < 2 + n + |b0| + 2 * k ==> cR[t] == 0
    ensures IsBits(b0) ==> forall t :: 2 + n <= t < 2 + n + |b0| ==> MulInP(cL[t], cR[t]) == 0
  {
    var s := 2 + n;
    forall t | s <= t < s + |b0| && IsBits(b0) ensures MulInP(cL[t], cR[t]) == 0 {
      assert cL[t] == b0[t - s];
      assert cR[t] == SubInP(b0[t - s], 1);
    }
  }


  // ---------------------------------------------------------------------------------
  // the aliased accumulators
  // ---------------------------------------------------------------------------------

  /** Σ_{lo <= i < hi} z^i, the powers the accumulator loops multiply in. */
  function PowerSum(z: int, lo: nat, hi: nat): int
    decreases hi
  {
    if hi <= lo then 0 else PowerSum(z, lo, hi - 1) + PowMod(z, hi - 1)
  }

  /** The coefficient an accumulator ends with when it starts as the shared vector S itself
      (one copy of S) and adds z^i·S for lo <= i < hi. */
  function Coefficient(z: int, lo: nat, hi: nat): Scalar
  {
    (1 + PowerSum(z, lo, hi)) % N
  }

  /** Adding the scalings of one entry by a and by b scales it by a + b. */
  lemma ScaleStep(s: int, a: Scalar, b: Scalar)
    ensures AddInP(MulInP(s, a), MulInP(s, b)) == MulInP(s, (a + b) % N)
  {
    ScaleStepOf(Load(s), a, b, MulInP(s, a), MulInP(s, b), MulInP(s, (a + b) % N));
  }

  lemma ScaleStepOf(l: Scalar, a: Scalar, b: Scalar, u: Scalar, v: Scalar, w: Scalar)
    requires u == (l * a) % N && v == (l * b) % N && w == (l * ((a + b) % N)) % N
    ensures AddInP(u, v) == w
  {
    AddInPOfReduced(u, v, l * a, l * b);
    MulDistributesOver(l, a, b);
    MulInPOfReduced(l, (a + b) % N, a + b);
  }

  lemma MulDistributesOver(l: int, a: int, b: int)
    ensures l * a + l * b == l * (a + b)
  {
  }

  /** theta = S + 1·S + z·S, that is (2 + z)·S. */
  lemma ThetaCoefficient(z: Scalar)
    ensures Coefficient(z, 0, 2) == (2 + z) % N
  {
    assert PowMod(z, 1) == z;
  }

  /** ksi = S + Σ_{2 <= i < 8} z^i·S and vec_mu = S + Σ_{2 <= i < 9} z^i·S differ by the
      single z^8·S that vec_v[8] adds. */
  lemma MuOverKsi(z: Scalar)
    ensures Coefficient(z, 2, 9) == (Coefficient(z, 2, 8) + PowMod(z, 8)) % N
  {
    ModAddLeft(1 + PowerSum(z, 2, 8), PowMod(z, 8));
  }

  /** vec_alpha = theta^-1 ∘ (ww - vv) undoes theta on every entry it can invert, and is 0
      where theta is 0. */
  lemma AlphaTimesTheta(theta: seq<Scalar>, diff: seq<Scalar>, j: int)
    requires |theta| <= |diff| && 0 <= j < |theta|
    ensures Invertible(theta[j]) ==> MulInP(Hadamard(VecInv(theta), diff)[j], theta[j]) == diff[j]
    ensures theta[j] == 0 ==> Hadamard(VecInv(theta), diff)[j] == 0
  {
    var u := InverseZp(theta[j]);
    assert Hadamard(VecInv(theta), diff)[j] == MulInP(u, diff[j]);
    if Invertible(theta[j]) {
      InverseZpCorrect(theta[j]);
      assert Load(u) == u && Load(theta[j]) == theta[j] && Load(diff[j]) == diff[j];
      assert (u * theta[j]) % N == 1;
      assert (((diff[j] * u) % N) * theta[j]) % N == diff[j] by {
        MulCancel(diff[j], u, theta[j]);
      }
      assert diff[j] as int * u == u * diff[j];
    }
    if theta[j] == 0 {
      InverseOfZero();
    }
  }

  // ---------------------------------------------------------------------------------
  // the responses
  // ---------------------------------------------------------------------------------

  /** zeta = c_L + vec_alpha + s_L x. */
  function Zeta(cL: seq<int>, alpha: seq<int>, sL: seq<int>, x: int): seq<Scalar>
    requires |cL| <= |alpha| && |cL| <= |sL|
  {
    VecAdd(VecAdd(cL, alpha), Scale(sL, x))
  }

  /** eta = theta ∘ (c_R + s_R x) + vec_mu. */
  function Eta(theta: seq<int>, cR: seq<int>, sR: seq<int>, mu: seq<int>, x: int): seq<Scalar>
    requires |theta| <= |cR| <= |sR| && |theta| <= |mu|
  {
    VecAdd(Hadamard(theta, VecAdd(cR, Scale(sR, x))), mu)
  }

  /** t_1 = <c_L + vec_alpha, theta ∘ s_R> + <s_L, theta ∘ c_R + vec_mu>. */
  function T1(cL: seq<int>, alpha: seq<int>, sL: seq<int>, theta: seq<int>, cR: seq<int>, sR: seq<int>,
              mu: seq<int>): Scalar
    requires |cL| == |alpha| == |sL| == |theta| == |cR| == |sR| == |mu|
  {
    AddInP(InnerProduct(VecAdd(cL, alpha), Hadamard(theta, sR)),
           InnerProduct(sL, VecAdd(Hadamard(theta, cR), mu)))
  }

  /** t_2 = <s_L, theta ∘ s_R>. */
  function T2(sL: seq<int>, theta: seq<int>, sR: seq<int>): Scalar
    requires |sL| <= |theta| <= |sR|
  {
    InnerProduct(sL, Hadamard(theta, sR))
  }

  /** The constant coefficient, which the prover never computes:
      t_0 = <c_L + vec_alpha, theta ∘ c_R + vec_mu>. */
  function T0(cL: seq<int>, alpha: seq<int>, theta: seq<int>, cR: seq<int>, mu: seq<int>): Scalar
    requires |cL| == |alpha| == |theta| == |cR| == |mu|
  {
    InnerProduct(VecAdd(cL, alpha), VecAdd(Hadamard(theta, cR), mu))
  }

  /** The response identity: <eta, zeta> = t_0 + t_1 x + t_2 x^2 modulo n, for the t_1 and
      t_2 that calculateRound2 commits to in T1 and T2, whatever theta, vec_alpha and
      vec_mu are; a, s, u and w are the lifted vectors the proof works with. */
  lemma ResponseIdentity(cL: seq<int>, alpha: seq<Scalar>, sL: seq<int>, theta: seq<Scalar>, cR: seq<int>,
                       sR: seq<int>, mu: seq<Scalar>, x: Scalar, a: seq<Scalar>, s: seq<int>, u: seq<Scalar>,
                       w: seq<Scalar>, zeta: seq<Scalar>, eta: seq<Scalar>, t0: Scalar, t1: Scalar, t2: Scalar)
    requires |cL| == |alpha| == |sL| == |theta| == |cR| == |sR| == |mu|
    requires a == VecAdd(cL, alpha) && s == Loads(sL)
    requires u == VecAdd(Hadamard(theta, cR), mu) && w == Hadamard(theta, sR)
    requires zeta == Zeta(cL, alpha, sL, x) && eta == Eta(theta, cR, sR, mu, x)
    requires t0 == T0(cL, alpha, theta, cR, mu) && t1 == T1(cL, alpha, sL, theta, cR, sR, mu)
    requires t2 == T2(sL, theta, sR)
    ensures InnerProduct(eta, zeta) == (t0 + x * t1 + x * x * t2) % N
  {
    ZetaLifted(cL, alpha, sL, x, a, s, zeta);
    EtaLifted(theta, cR, sR, mu, x, u, w, eta);
    Coefficients(cL, alpha, sL, theta, cR, sR, mu, a, s, u, w, t0, t1, t2);
    LiftedIdentity(eta, zeta, u, w, a, s, x, InnerProduct(eta, zeta), t0, t1, t2);
  }

  /** The response identity on the lifted vectors, once the coefficients are known as
      reduced dot products. */
  lemma LiftedIdentity(eta: seq<Scalar>, zeta: seq<Scalar>, u: seq<int>, w: seq<int>, a: seq<int>, s: seq<int>,
                       x: Scalar, ip: Scalar, t0: Scalar, t1: Scalar, t2: Scalar)
    requires |eta| == |zeta| == |u| == |w| == |a| == |s|
    requires forall i :: 0 <= i < |eta| ==> eta[i] == (u[i] + x * w[i]) % N
    requires forall i :: 0 <= i < |zeta| ==> zeta[i] == (a[i] + x * s[i]) % N
    requires ip == InnerProduct(eta, zeta)
    requires t0 == Dot(u, a) % N && t1 == (Dot(u, s) + Dot(w, a)) % N && t2 == Dot(w, s) % N
    ensures ip == (t0 + x * t1 + x * x * t2) % N
  {
    var p0, p1, p2 := Dot(u, a), Dot(u, s) + Dot(w, a), Dot(w, s);
    var q := p0 + x * p1 + x * x * p2;
    LinearResponses(eta, zeta, u, w, a, s, x, ip, p0, p1, p2, q);
    QuadraticResidue(ip, t0, t1, t2, x, p0, p1, p2, q);
  }

  /** zeta entry by entry as the integers a_i + x s_i, for a = c_L + vec_alpha and the
      loaded s_L. */
  lemma ZetaLifted(cL: seq<int>, alpha: seq<Scalar>, sL: seq<int>, x: Scalar, a: seq<Scalar>, s: seq<int>,
                   zeta: seq<Scalar>)
    requires |cL| == |alpha| == |sL| && a == VecAdd(cL, alpha) && s == Loads(sL) && zeta == Zeta(cL, alpha, sL, x)
    ensures |zeta| == |a| == |s| && forall i :: 0 <= i < |zeta| ==> zeta[i] == (a[i] + x * s[i]) % N
  {
    forall i | 0 <= i < |zeta| ensures zeta[i] == (a[i] + x * s[i]) % N {
      assert zeta[i] == AddInP(a[i], MulInP(sL[i], x));
      ZetaEntry(a[i], sL[i], x);
    }
  }

  /** eta entry by entry as the integers u_i + x w_i, for u = theta ∘ c_R + vec_mu and
      w = theta ∘ s_R. */
  lemma EtaLifted(theta: seq<Scalar>, cR: seq<int>, sR: seq<int>, mu: seq<Scalar>, x: Scalar, u: seq<Scalar>,
                  w: seq<Scalar>, eta: seq<Scalar>)
    requires |theta| == |cR| == |sR| == |mu|
    requires u == VecAdd(Hadamard(theta, cR), mu) && w == Hadamard(theta, sR) && eta == Eta(theta, cR, sR, mu, x)
    ensures |eta| == |u| == |w| && forall i :: 0 <= i < |eta| ==> eta[i] == (u[i] + x * w[i]) % N
  {
    forall i | 0 <= i < |eta| ensures eta[i] == (u[i] + x * w[i]) % N {
      assert eta[i] == AddInP(MulInP(theta[i], AddInP(cR[i], MulInP(sR[i], x))), mu[i]);
      assert u[i] == AddInP(MulInP(theta[i], cR[i]), mu[i]) && w[i] == MulInP(theta[i], sR[i]);
      EtaEntry(theta[i], cR[i], sR[i], mu[i], x);
    }
  }

  /** t_0, t_1 and t_2 as reduced integer dot products of the lifted vectors. */
  lemma Coefficients(cL: seq<int>, alpha: seq<Scalar>, sL: seq<int>, theta: seq<Scalar>, cR: seq<int>,
                     sR: seq<int>, mu: seq<Scalar>, a: seq<Scalar>, s: seq<int>, u: seq<Scalar>,
                     w: seq<Scalar>, t0: Scalar, t1: Scalar, t2: Scalar)
    requires |cL| == |alpha| == |sL| == |theta| == |cR| == |sR| == |mu|
    requires a == VecAdd(cL, alpha) && s == Loads(sL)
    requires u == VecAdd(Hadamard(theta, cR), mu) && w == Hadamard(theta, sR)
    requires t0 == T0(cL, alpha, theta, cR, mu) && t1 == T1(cL, alpha, sL, theta, cR, sR, mu)
    requires t2 == T2(sL, theta, sR)
    ensures t0 == Dot(u, a) % N && t1 == (Dot(u, s) + Dot(w, a)) % N && t2 == Dot(w, s) % N
  {
    var i1, i2 := InnerProduct(a, w), InnerProduct(sL, u);
    ReducedProduct(a, u, t0);
    ReducedProduct(a, w, i1);
    LoadedProduct(sL, u, s, i2);
    LoadedProduct(sL, w, s, t2);
    SumOfProducts(t1, i1, i2, Dot(w, a), Dot(u, s));
  }

  /** An inner product of reduced vectors as the dot product taken the other way round. */
  lemma ReducedProduct(a: seq<Scalar>, b: seq<Scalar>, t: Scalar)
    requires |a| == |b| && t == InnerProduct(a, b)
    ensures t == Dot(b, a) % N
  {
    InnerProductIsDot(a, b);
    DotCommutes(a, b);
  }

  /** An inner product with an unreduced left vector as the dot product of the loaded
      vector taken the other way round. */
  lemma LoadedProduct(v: seq<int>, b: seq<Scalar>, lv: seq<int>, t: Scalar)
    requires |v| == |b| && lv == Loads(v) && t == InnerProduct(v, b)
    ensures t == Dot(b, lv) % N
  {
    LoadedInnerProduct(v, b, lv);
    DotCommutes(lv, b);
  }

  lemma SumOfProducts(t1: Scalar, i1: Scalar, i2: Scalar, d1: int, d2: int)
    requires t1 == AddInP(i1, i2) && i1 == d1 % N && i2 == d2 % N
    ensures t1 == (d2 + d1) % N
  {
    AddInPOfReduced(i1, i2, d1, d2);
    assert d1 + d2 == d2 + d1;
  }

  /** An inner product whose left vector is unreduced is the dot product of its loaded
      entries. */
  lemma LoadedInnerProduct(v: seq<int>, b: seq<Scalar>, lv: seq<int>)
    requires |v| <= |b| && lv == Loads(v)
    ensures InnerProduct(v, b) == Dot(lv, b) % N
  {
    InnerProductLifted(v, b, lv, b);
  }

  /** The integer dot product of two vectors of the same length is symmetric. */
  lemma DotCommutes(a: seq<int>, b: seq<int>)
    requires |a| == |b|
    ensures Dot(a, b) == Dot(b, a)
  {
    assert Products(a, b) == Products(b, a) by {
      forall i | 0 <= i < |a| ensures Products(a, b)[i] == Products(b, a)[i] {
        assert a[i] * b[i] == b[i] * a[i];
      }
    }
  }

  /** One entry of zeta: (c + alpha) + s x, reduced, is a + x Load(s) reduced. */
  lemma ZetaEntry(a: Scalar, s: int, x: Scalar)
    ensures AddInP(a, MulInP(s, x)) == (a + x * Load(s)) % N
  {
    var ls := Load(s);
    var v := MulInP(s, x);
    assert v == (ls * x) % N;
    assert a == a % N;
    AddInPOfReduced(a, v, a, ls * x);
    assert ls * x == x * ls;
  }

  /** One entry of eta: theta (c + s x) + m, reduced, is (theta c + m) + x (theta s)
      with both summands reduced. */
  lemma EtaEntry(th: Scalar, c: int, s: int, m: Scalar, x: Scalar)
    ensures AddInP(MulInP(th, AddInP(c, MulInP(s, x))), m)
         == (AddInP(MulInP(th, c), m) + x * MulInP(th, s)) % N
  {
    var lc, ls := Load(c), Load(s);
    var sx := MulInP(s, x);
    var inner, p := AddInP(c, sx), lc + ls * x;
    EntrySum(c, s, x, lc, ls, sx, inner, p);
    var left := MulInP(th, inner);
    MulInPOfReduced(th, inner, p);
    var u1, u2 := MulInP(th, c), MulInP(th, s);
    ReducedTimesLoad(th, c, lc, u1);
    ReducedTimesLoad(th, s, ls, u2);
    var r := AddInP(u1, m);
    AddInPOfReduced(u1, m, th * lc, m);
    EtaEntryOf(th, lc, ls, m, x, p, left, r, u2, AddInP(left, m));
  }

  /** Load(c) + Mul_In_P(s, x), reduced, is Load(c) + Load(s) x reduced. */
  lemma EntrySum(c: int, s: int, x: Scalar, lc: int, ls: int, sx: Scalar, inner: Scalar, p: int)
    requires lc == Load(c) && ls == Load(s) && sx == MulInP(s, x) && inner == AddInP(c, sx) && p == lc + ls * x
    ensures inner == p % N
  {
    var q := ls * x;
    assert Load(x) == x && Load(sx) == sx;
    assert sx == q % N;
    assert inner == (sx + lc) % N;
    ModAddLeft(q, lc);
    assert q + lc == p;
  }

  /** Mul_In_P(th, c) for a reduced th is th·Load(c) reduced. */
  lemma ReducedTimesLoad(th: Scalar, c: int, lc: int, u: Scalar)
    requires lc == Load(c) && u == MulInP(th, c)
    ensures u == (th * lc) % N
  {
  }

  lemma EtaEntryOf(th: Scalar, lc: int, ls: int, m: Scalar, x: Scalar, p: int, left: Scalar, r: Scalar,
                   u2: Scalar, e: Scalar)
    requires p == lc + ls * x && left == (th * p) % N && r == (th * lc + m) % N && u2 == (th * ls) % N
    requires e == AddInP(left, m)
    ensures e == (r + x * u2) % N
  {
    var q, b := x * u2, x * (th * ls);
    assert e == (th * p + m) % N by {
      assert m == m % N;
      AddInPOfReduced(left, m, th * p, m);
    }
    assert th * p + m == (th * lc + m) + b by {
      EtaRegroup(th, lc, ls, m, x, p);
    }
    assert q % N == b % N by {
      MulInPOfReduced(x, u2, th * ls);
      assert Load(x) == x && Load(u2) == u2;
    }
    CongruentSum(e, th * p + m, th * lc + m, b, r, q);
  }

  /** e = (A + B) mod n, r = A mod n and q = B mod n give e = (r + q) mod n. */
  lemma CongruentSum(e: int, w: int, a: int, b: int, r: int, q: int)
    requires e == w % N && w == a + b && r == a % N && q % N == b % N
    ensures e == (r + q) % N
  {
    ModAdd(a, b);
    ModAdd(r, q);
    assert r % N == r;
  }

  lemma EtaRegroup(th: int, lc: int, ls: int, m: int, x: int, p: int)
    requires p == lc + ls * x
    ensures th * p + m == th * lc + m + x * (th * ls)
  {
  }

  // ---------------------------------------------------------------------------------
  // padding
  // ---------------------------------------------------------------------------------

  /** ceil(log2 m) for m >= 1. */
  function Log2Ceil(m: nat): nat
    decreases m
  {
    if m <= 1 then 0 else 1 + Log2Ceil((m + 1) / 2)
  }

  /** The length GenerateRsp pads to: 2^ceil(log2 m), and 0 for an empty c_L. */
  function PaddedLength(m: nat): nat
  {
    if m == 0 then 0 else Pow2(Log2Ceil(m))
  }

  /** The padded length is the least power of two that is at least m. */
  lemma {:induction false} PaddedLengthLeast(m: nat)
    requires m >= 1
    ensures m <= PaddedLength(m)
    ensures Log2Ceil(m) >= 1 ==> Pow2(Log2Ceil(m) - 1) < m
  {
    if m > 1 {
      var h := (m + 1) / 2;
      PaddedLengthLeast(h);
      assert Pow2(Log2Ceil(m)) == 2 * Pow2(Log2Ceil(h));
    }
  }

  /** Appending zeros to both arguments leaves an inner product unchanged. */
  lemma InnerProductPadded(a: seq<int>, b: seq<int>, pad: nat)
    requires |a| == |b|
    ensures InnerProduct(a + Constant(pad, 0), b + Constant(pad, 0)) == InnerProduct(a, b)
  {
    var a', b' := a + Constant(pad, 0), b + Constant(pad, 0);
    assert a'[..|a|] == a && b'[..|b|] == b;
    ZeroTail(a, b, a', b');
  }

  /** Vectors that extend a and b, with zeros past |a| in the first, have the same inner
      product as a and b. */
  lemma {:induction false} ZeroTail(a: seq<int>, b: seq<int>, a': seq<int>, b': seq<int>)
    requires |a| == |b| <= |a'| == |b'| && a'[..|a|] == a && b'[..|b|] == b
    requires forall i :: |a| <= i < |a'| ==> a'[i] == 0
    ensures InnerProduct(a', b') == InnerProduct(a, b)
    decreases |a'|
  {
    if |a'| == |a| {
      assert a' == a && b' == b;
    } else {
      var k := |a'| - 1;
      ZeroTail(a, b, a'[..k], b'[..k]);
      InnerProductPrefix(a'[..k], b'[..k], b');
      assert MulInP(a'[k], b'[k]) == 0;
    }
  }

  /** An inner product reads only the first |a| entries of its second argument. */
  lemma {:induction false} InnerProductPrefix(a: seq<int>, b: seq<int>, b': seq<int>)
    requires |a| <= |b| <= |b'| && b'[..|b|] == b
    ensures InnerProduct(a, b') == InnerProduct(a, b)
  {
    if |a| > 0 {
      InnerProductPrefix(a[..|a| - 1], b, b');
      assert b'[|a| - 1] == b[|a| - 1];
    }
  }
}
