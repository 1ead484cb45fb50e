/** Specifications shared by the three setup files (range_proofs/Range_Setup.go,
    Any-out-of-Many-Proofs/Ring_Sig_Setup.go and omniring/Ring_Sig_Setup.go): selector
    vectors, powers of a challenge, the binary value of a bit vector and the way public
    keys pick a real or a decoy secret per slot. The loops the three files share word for
    word (Generate_b_1, Generate_Exp_Scalar_Vector, Generate_Scalar_Vector,
    Generate_Inverse_H, Generate_neg_z_Vector, Generate_YZ, Generate_X) are written here
    once. */
module Setup {
  import opened Field
  import opened Vectors
  import opened Group
  import opened Commitments

  // ---------------------------------------------------------------------------------
  // counting and selector vectors
  // ---------------------------------------------------------------------------------

  /** max(n, 0): the number of iterations of a loop `for i := 0; i < n; i++`. */
  function Max0(n: int): (m: nat)
    ensures n >= 0 ==> m == n
    ensures n < 0 ==> m == 0
  {
    if n > 0 then n else 0
  }

  /** The number of entries of s equal to v. */
  function Count(s: seq<int>, v: int): nat
    decreases |s|
  {
    if |s| == 0 then 0 else Count(s[..|s| - 1], v) + (if s[|s| - 1] == v then 1 else 0)
  }

  lemma {:induction false} CountBound(s: seq<int>, v: int)
    ensures Count(s, v) <= |s|
  {
    if |s| > 0 {
      CountBound(s[..|s| - 1], v);
    }
  }

  /** A prefix holds no more occurrences than the whole vector. */
  lemma {:induction false} CountPrefix(s: seq<int>, i: nat, v: int)
    requires i <= |s|
    ensures Count(s[..i], v) <= Count(s, v)
  {
    if i < |s| {
      assert s[..|s| - 1][..i] == s[..i];
      CountPrefix(s[..|s| - 1], i, v);
    } else {
      assert s[..i] == s;
    }
  }

  /** Overwriting an entry that differs from v with v adds one occurrence. */
  lemma {:induction false} CountSet(s: seq<int>, i: nat, v: int)
    requires i < |s| && s[i] != v
    ensures Count(s[i := v], v) == Count(s, v) + 1
  {
    var k := |s| - 1;
    if i < k {
      assert s[i := v][..k] == s[..k][i := v];
      CountSet(s[..k], i, v);
    } else {
      assert s[i := v][..k] == s[..k];
    }
  }

  /** Every entry is 0 or 1. */
  predicate IsBits(b: seq<int>)
  {
    forall i :: 0 <= i < |b| ==> b[i] == 0 || b[i] == 1
  }

  /** For a bit vector, the zeros and the ones make up the whole vector. */
  lemma {:induction false} CountBits(b: seq<int>)
    requires IsBits(b)
    ensures Count(b, 0) + Count(b, 1) == |b|
  {
    if |b| > 0 {
      CountBits(b[..|b| - 1]);
    }
  }

  /** Generate_b_1: the complement 1 - b_0[i] modulo n. */
  function Complement(b0: seq<int>): seq<Scalar>
  {
    seq(|b0|, i requires 0 <= i < |b0| => SubInP(1, b0[i]))
  }

  /** On a bit vector the complement is the other bit, so b_0 + b_1 = 1 and b_0 b_1 = 0. */
  lemma ComplementOfBits(b0: seq<int>)
    requires IsBits(b0)
    ensures |Complement(b0)| == |b0|
    ensures IsBits(Complement(b0))
    ensures forall i :: 0 <= i < |b0| ==> b0[i] + Complement(b0)[i] == 1 && b0[i] * Complement(b0)[i] == 0
  {
  }

  // ---------------------------------------------------------------------------------
  // powers of a challenge
  // ---------------------------------------------------------------------------------

  /** Integer powers. */
  function Pow(y: int, i: nat): int
    decreases i
  {
    if i == 0 then 1 else Pow(y, i - 1) * y
  }

  /** y^i computed as the source does, by repeated Mul_In_P from 1. */
  function PowMod(y: int, i: nat): Scalar
    decreases i
  {
    if i == 0 then 1 else MulInP(PowMod(y, i - 1), y)
  }

  /** The repeated product is the power reduced modulo n. */
  lemma {:induction false} PowModIsPow(y: int, i: nat)
    ensures PowMod(y, i) == Pow(Load(y), i) % N
  {
    if i > 0 {
      PowModIsPow(y, i - 1);
      var p := Pow(Load(y), i - 1);
      assert PowMod(y, i) == (PowMod(y, i - 1) * Load(y)) % N;
      ModMulLeft(p, Load(y));
    }
  }

  /** Generate_Exp_Scalar_Vector(y, n): (y^0, ..., y^(n-1)), and [1] when n <= 1. */
  function ExpVector(y: int, n: int): seq<Scalar>
  {
    var m := if n > 1 then n else 1;
    seq(m, i requires 0 <= i < m => PowMod(y, i))
  }

  /** Generate_Scalar_Vector(z, n): z repeated n times, nothing when n <= 0. */
  function ScalarVector(z: int, n: int): seq<int>
  {
    Constant(if n > 0 then n else 0, z)
  }

  // ---------------------------------------------------------------------------------
  // binary value of a bit vector
  // ---------------------------------------------------------------------------------

  /** Σ b_i 2^i as an integer. */
  function BinaryValue(b: seq<int>): int
    decreases |b|
  {
    if |b| == 0 then 0 else BinaryValue(b[..|b| - 1]) + b[|b| - 1] * Pow2(|b| - 1)
  }

  /** A bit vector of length d has a value in [0, 2^d). */
  lemma {:induction false} BinaryValueBound(b: seq<int>)
    requires IsBits(b)
    ensures 0 <= BinaryValue(b) < Pow2(|b|)
  {
    if |b| > 0 {
      BinaryValueBound(b[..|b| - 1]);
    }
  }

  lemma {:induction false} Pow2Monotone(i: nat, j: nat)
    requires i <= j
    ensures Pow2(i) <= Pow2(j)
  {
    if i < j {
      Pow2Monotone(i, j - 1);
    }
  }

  lemma {:induction false} Pow2Add(i: nat, j: nat)
    ensures Pow2(i + j) == Pow2(i) * Pow2(j)
  {
    if j > 0 {
      Pow2Add(i, j - 1);
      assert Pow2(i + j) == 2 * Pow2(i + j - 1);
    }
  }

  lemma Pow2Eight()
    ensures Pow2(8) == 256
  {
  }

  /** 2^256 is the word size and 2^255 < n, so every power of two up to 2^255 is its own
      residue. The exponent is a parameter so that the verifier does not unfold Pow2 on a
      literal 256 times. */
  lemma Pow2Word(k: nat)
    requires k == 8
    ensures Pow2(32 * k) == WORD
    ensures Pow2(32 * k - 1) < N
  {
    assert Pow2(2 * k) == 0x1_0000 by {
      Pow2Eight();
      Pow2Add(k, k);
    }
    assert Pow2(4 * k) == 0x1_0000_0000 by {
      Pow2Add(2 * k, 2 * k);
    }
    assert Pow2(8 * k) == 0x1_0000_0000_0000_0000 by {
      Pow2Add(4 * k, 4 * k);
    }
    assert Pow2(16 * k) == 0x1_0000_0000_0000_0000_0000_0000_0000_0000 by {
      Pow2Add(8 * k, 8 * k);
    }
    assert Pow2(32 * k) == WORD by {
      Pow2Add(16 * k, 16 * k);
    }
    assert Pow2(32 * k) == 2 * Pow2(32 * k - 1);
  }

  /** Every power of two up to 2^255 is below n. */
  lemma Pow2BelowOrder(i: nat)
    requires i <= 255
    ensures Pow2(i) < N
  {
    Pow2Word(8);
    Pow2Monotone(i, 255);
  }

  /** Integer powers of two are the Pow2 values. */
  lemma {:induction false} PowTwo(i: nat)
    ensures Pow(2, i) == Pow2(i)
  {
    if i > 0 {
      PowTwo(i - 1);
    }
  }

  /** The weights of Generate_Public_Coin: 2^i modulo n, exactly 2^i up to i = 255. */
  lemma PowModTwo(i: nat)
    requires i <= 255
    ensures PowMod(2, i) == Pow2(i)
  {
    PowModIsPow(2, i);
    PowTwo(i);
    Pow2BelowOrder(i);
  }

  /** The weighted sum Σ bits_i w_i modulo n is the binary value when the weights are
      the powers of two and the value fits below n. */
  lemma BinaryInnerProduct(bits: seq<int>, w: seq<Scalar>)
    requires IsBits(bits) && |bits| <= |w| && |bits| <= 255
    requires forall i :: 0 <= i < |bits| ==> w[i] == Pow2(i)
    ensures InnerProduct(bits, w) == BinaryValue(bits)
  {
    BinaryInnerProductOf(bits, w, InnerProduct(bits, w), BinaryValue(bits));
  }

  lemma {:induction false} BinaryInnerProductOf(bits: seq<int>, w: seq<Scalar>, p: int, v: int)
    requires IsBits(bits) && |bits| <= |w| && |bits| <= 255
    requires forall i :: 0 <= i < |bits| ==> w[i] == Pow2(i)
    requires p == InnerProduct(bits, w) && v == BinaryValue(bits)
    ensures p == v
  {
    if |bits| > 0 {
      var k := |bits| - 1;
      var p', v' := InnerProduct(bits[..k], w), BinaryValue(bits[..k]);
      assert p' == v' by {
        assert IsBits(bits[..k]);
        BinaryInnerProductOf(bits[..k], w, p', v');
      }
      var b, t := bits[k], Pow2(k);
      assert p == AddInP(p', MulInP(b, t)) by {
        assert w[k] == t;
      }
      assert v == v' + b * t;
      assert v < N by {
        BinaryValueBound(bits);
        Pow2BelowOrder(|bits|);
      }
      BitStep(p', b, t);
    }
  }

  /** Adding one weighted bit below n involves no reduction. */
  lemma BitStep(x: Scalar, b: int, t: nat)
    requires b == 0 || b == 1
    requires x + b * t < N
    ensures AddInP(x, MulInP(b, t)) == x + b * t
  {
    assert 0 <= b * t < N;
    assert MulInP(b, t) == b * t;
  }

  /** The powers of two computed by repeated doubling, up to 2^254. */
  lemma ExpVectorTwo(n: int)
    requires n <= 255
    ensures forall i :: 0 <= i < n ==> ExpVector(2, n)[i] == Pow2(i)
  {
    forall i | 0 <= i < n ensures ExpVector(2, n)[i] == Pow2(i) {
      PowModTwo(i);
    }
  }

  // ---------------------------------------------------------------------------------
  // real or decoy secret per slot
  // ---------------------------------------------------------------------------------

  /** The secrets the key builders commit to: walking the selector, a 0 takes the next
      decoy, a 1 takes the next real secret, and any other entry adds nothing. */
  function Selected(bits: seq<int>, secrets: seq<int>, decoy: seq<int>): seq<int>
    requires Count(bits, 1) <= |secrets| && Count(bits, 0) <= |decoy|
    decreases |bits|
  {
    if |bits| == 0 then []
    else
      var k := |bits| - 1;
      var prefix := Selected(bits[..k], secrets, decoy);
      if bits[k] == 0 then prefix + [decoy[Count(bits[..k], 0)]]
      else if bits[k] == 1 then prefix + [secrets[Count(bits[..k], 1)]]
      else prefix
  }

  /** On a bit vector every slot receives a secret: a slot holding the j-th one takes the
      j-th real secret and a slot holding the j-th zero the j-th decoy. */
  lemma {:induction false} SelectedOfBits(bits: seq<int>, secrets: seq<int>, decoy: seq<int>)
    requires IsBits(bits)
    requires Count(bits, 1) <= |secrets| && Count(bits, 0) <= |decoy|
    ensures |Selected(bits, secrets, decoy)| == |bits|
    ensures forall i :: 0 <= i < |bits| ==>
      if bits[i] == 1 then
        Count(bits[..i], 1) < |secrets| && Selected(bits, secrets, decoy)[i] == secrets[Count(bits[..i], 1)]
      else
        Count(bits[..i], 0) < |decoy| && Selected(bits, secrets, decoy)[i] == decoy[Count(bits[..i], 0)]
  {
    if |bits| > 0 {
      var k := |bits| - 1;
      var prefix := bits[..k];
      assert IsBits(prefix);
      SelectedOfBits(prefix, secrets, decoy);
      var sel := Selected(bits, secrets, decoy);
      var sel' := Selected(prefix, secrets, decoy);
      assert sel[..k] == sel' && |sel| == k + 1;
      forall i | 0 <= i < k
        ensures bits[..i] == prefix[..i] && sel[i] == sel'[i]
      {
      }
      assert bits[..k] == prefix;
    }
  }

  /** Every 0 or 1 entry contributes one secret, whatever the other entries are. */
  lemma {:induction false} SelectedLength(bits: seq<int>, secrets: seq<int>, decoy: seq<int>)
    requires Count(bits, 1) <= |secrets| && Count(bits, 0) <= |decoy|
    ensures |Selected(bits, secrets, decoy)| == Count(bits, 0) + Count(bits, 1)
  {
    if |bits| > 0 {
      SelectedLength(bits[..|bits| - 1], secrets, decoy);
    }
  }

  /** The commitments of a list of secrets under one generator. */
  function CommitAll(g: Point, secrets: seq<int>): seq<Point>
  {
    seq(|secrets|, i requires 0 <= i < |secrets| => Commit(g, secrets[i]))
  }

  /** The Pedersen commitments of paired values and blinds. */
  function PedersenAll(g: Point, h: Point, values: seq<int>, blinds: seq<int>): seq<Point>
    requires |values| <= |blinds|
  {
    seq(|values|, i requires 0 <= i < |values| => PedersenCommit(g, h, values[i], blinds[i]))
  }

  /** Committing one more secret appends its commitment. */
  lemma CommitAllSnoc(g: Point, secrets: seq<int>, s: int)
    ensures CommitAll(g, secrets + [s]) == CommitAll(g, secrets) + [Commit(g, s)]
  {
    assert |CommitAll(g, secrets + [s])| == |secrets| + 1;
  }

  // ---------------------------------------------------------------------------------
  // the loops shared by the three setup files
  // ---------------------------------------------------------------------------------

  /** Generate_b_1: the complement of b_0, entry by entry. */
  method GenerateB1(b0: seq<int>) returns (b1: seq<Scalar>)
    ensures b1 == Complement(b0)
    ensures |b1| == |b0|
    ensures IsBits(b0) ==> IsBits(b1) && forall i :: 0 <= i < |b0| ==> b0[i] + b1[i] == 1 && b0[i] * b1[i] == 0
  {
    b1 := [];
    for i := 0 to |b0|
      invariant b1 == Complement(b0[..i])
    {
      b1 := b1 + [SubInP(1, b0[i])];
    }
    assert b0[..|b0|] == b0;
    if IsBits(b0) {
      ComplementOfBits(b0);
    }
  }

  /** Generate_Exp_Scalar_Vector: starts from 1 and multiplies the last entry by y, so
      entry i is y^i modulo n; the vector is never shorter than [1]. */
  method GenerateExpScalarVector(y: int, n: int) returns (v: seq<Scalar>)
    ensures v == ExpVector(y, n)
    ensures |v| == if n > 1 then n else 1
    ensures v[0] == 1
    ensures forall i :: 0 <= i < |v| ==> v[i] == Pow(Load(y), i) % N
  {
    v := [1];
    var i := 1;
    while i < n
      invariant 1 <= i && (n > 1 ==> i <= n) && (n <= 1 ==> i == 1)
      invariant v == seq(i, j requires 0 <= j < i => PowMod(y, j))
    {
      v := v + [MulInP(v[i - 1], y)];
      i := i + 1;
    }
    forall j | 0 <= j < |v| ensures v[j] == Pow(Load(y), j) % N {
      PowModIsPow(y, j);
    }
  }

  /** Generate_Scalar_Vector (and omniring's Generate_cons_vec, which counts up instead of
      down): n copies of z, unreduced. */
  method GenerateScalarVector(z: int, n: int) returns (v: seq<int>)
    ensures v == ScalarVector(z, n)
    ensures |v| == if n > 0 then n else 0
    ensures forall i :: 0 <= i < |v| ==> v[i] == z
  {
    v := [];
    var i := n;
    while i > 0
      invariant n > 0 ==> 0 <= i <= n && v == Constant(n - i, z)
      invariant n <= 0 ==> v == [] && i == n
    {
      v := v + [z];
      i := i - 1;
    }
  }

  /** Scaling by y undoes scaling by the inverse of y. */
  lemma ScalarMultInverse(p: Point, y: int)
    requires Invertible(Load(y))
    ensures ScalarMult(ScalarMult(p, InverseZp(y)), y) == p
  {
    InverseZpCorrect(y);
    MulCancel(p.log, InverseZp(y), Load(y));
  }

  /** Generate_Inverse_H: every H_i is scaled by the inverse of y itself, because the
      scalars come from the constant vector Generate_Scalar_Vector(y, n) and not from the
      powers of y; an H longer than n indexes past that vector. */
  method GenerateInverseH(h: seq<Point>, y: int, n: int) returns (h1: seq<Point>)
    requires |h| <= n
    ensures h1 == PointScale(h, InverseZp(y))
    ensures |h1| == |h|
    ensures Invertible(Load(y)) ==> forall i :: 0 <= i < |h| ==> ScalarMult(h1[i], y) == h[i]
  {
    var yn := GenerateScalarVector(y, n);
    h1 := [];
    for key := 0 to |h|
      invariant h1 == PointScale(h[..key], InverseZp(y))
    {
      h1 := h1 + [ScalarMult(h[key], InverseZp(yn[key]))];
    }
    assert h[..|h|] == h;
    if Invertible(Load(y)) {
      forall i | 0 <= i < |h| ensures ScalarMult(h1[i], y) == h[i] {
        ScalarMultInverse(h[i], y);
      }
    }
  }

  /** Generate_neg_z_Vector: n copies of -z modulo n. */
  method GenerateNegZVector(z: byte, n: int) returns (zn: seq<Scalar>)
    ensures |zn| == if n > 0 then n else 0
    ensures forall i :: 0 <= i < |zn| ==> zn[i] == NegZp(z) && (z + zn[i]) % N == 0
  {
    zn := [];
    var i := n;
    while i > 0
      invariant n > 0 ==> 0 <= i <= n && |zn| == n - i
      invariant n <= 0 ==> zn == [] && i == n
      invariant forall j :: 0 <= j < |zn| ==> zn[j] == NegByte(z)
    {
      zn := zn + [NegByte(z)];
      i := i - 1;
    }
  }

  /** The loop of both Generate_Multi_Public_Key versions over the first m slots: a 0 slot
      commits the next decoy secret (counter num1), a 1 slot the next real secret (counter
      num2), and any other entry adds no key. */
  method CommitBySelector(m: nat, bit: seq<int>, g: Point, secKeys: seq<int>, fakeKeys: seq<int>)
    returns (publicKey: seq<Point>)
    requires m <= |bit|
    requires Count(bit[..m], 0) <= |fakeKeys| && Count(bit[..m], 1) <= |secKeys|
    ensures publicKey == CommitAll(g, Selected(bit[..m], secKeys, fakeKeys))
    ensures IsBits(bit[..m]) ==> |publicKey| == m
    ensures IsBits(bit[..m]) ==> forall i :: 0 <= i < m ==>
      if bit[i] == 1 then
        Count(bit[..i], 1) < |secKeys| && publicKey[i] == Commit(g, secKeys[Count(bit[..i], 1)])
      else
        Count(bit[..i], 0) < |fakeKeys| && publicKey[i] == Commit(g, fakeKeys[Count(bit[..i], 0)])
  {
    var whole := bit[..m];
    publicKey := [];
    var num1, num2 := 0, 0;
    for i := 0 to m
      invariant num1 == Count(bit[..i], 0) && num2 == Count(bit[..i], 1)
      invariant Count(bit[..i], 0) <= |fakeKeys| && Count(bit[..i], 1) <= |secKeys|
      invariant publicKey == CommitAll(g, Selected(bit[..i], secKeys, fakeKeys))
    {
      var next := bit[..i + 1];
      assert next[..i] == bit[..i] && next[i] == bit[i];
      assert whole[..i + 1] == next;
      CountPrefix(whole, i + 1, 0);
      CountPrefix(whole, i + 1, 1);
      var before := Selected(bit[..i], secKeys, fakeKeys);
      if bit[i] == 0 {
        var secretKey := fakeKeys[num1];
        num1 := num1 + 1;
        publicKey := publicKey + [Commit(g, secretKey)];
        assert Selected(next, secKeys, fakeKeys) == before + [secretKey];
        CommitAllSnoc(g, before, secretKey);
      }
      if bit[i] == 1 {
        var secretKey := secKeys[num2];
        num2 := num2 + 1;
        publicKey := publicKey + [Commit(g, secretKey)];
        assert Selected(next, secKeys, fakeKeys) == before + [secretKey];
        CommitAllSnoc(g, before, secretKey);
      }
    }
    assert bit[..m] == whole;
    if IsBits(whole) {
      SelectedOfBits(whole, secKeys, fakeKeys);
      forall i | 0 <= i < m
        ensures whole[..i] == bit[..i] && whole[i] == bit[i]
      {
      }
    }
  }

  /** Generate_YZ: y hashes A + 1·B and z hashes A + 2·B. */
  function GenerateYZ(env: Env, a: Point, b: Point): (r: (Scalar, Scalar))
    ensures r.0 == HashPoint(env, PointAdd(a, b))
    ensures r.1 == HashPoint(env, PointAdd(a, PointAdd(b, b)))
  {
    assert Load(1) == 1 && Load(2) == 2;
    assert ScalarMult(b, 1) == b by { assert b.log * 1 == b.log; }
    assert ScalarMult(b, 2) == PointAdd(b, b) by { assert b.log * 2 == b.log + b.log; }
    (HashPoint(env, PointAdd(a, ScalarMult(b, 1))), HashPoint(env, PointAdd(a, ScalarMult(b, 2))))
  }

  /** Generate_X: x hashes T1 + T2. */
  function GenerateX(env: Env, t1: Point, t2: Point): (x: Scalar)
    ensures x == HashPoint(env, Pt((t1.log + t2.log) % N))
  {
    HashPoint(env, PointAdd(t1, t2))
  }

  /** The challenge x cannot tell T1 from T2: swapping them gives the same challenge. */
  lemma GenerateXSymmetric(env: Env, t1: Point, t2: Point)
    ensures GenerateX(env, t1, t2) == GenerateX(env, t2, t1)
  {
    PointAddCommutes(t1, t2);
  }
}
