/** Scalar arithmetic of the proofs: integers modulo the order n of the secp256k1 group
    (section 2.4.1 of SEC 2 version 2), as the Go code reaches it through decred's
    ModNScalar, plus the two helpers that work modulo the base-field prime p. */
module Field {

  /** The order n of the secp256k1 group. */
  const N: int := 0xFFFF_FFFF_FFFF_FFFF_FFFF_FFFF_FFFF_FFFE_BAAE_DCE6_AF48_A03B_BFD2_5E8C_D036_4141

  /** The prime p of the secp256k1 base field (curve.P in the Go code). */
  const P: int := 0xFFFF_FFFF_FFFF_FFFF_FFFF_FFFF_FFFF_FFFF_FFFF_FFFF_FFFF_FFFF_FFFF_FFFE_FFFF_FC2F

  /** 2^256, one more than the largest value a 32-byte big-endian string can hold. */
  const WORD: int := 0x1_0000_0000_0000_0000_0000_0000_0000_0000_0000_0000_0000_0000_0000_0000_0000_0000

  /** A reduced scalar, the value of a ModNScalar. */
  type Scalar = x: int | 0 <= x < N

  type byte = x: int | 0 <= x < 256

  /** The first 32 bytes of the minimal big-endian encoding of m: what
      ModNScalar.SetByteSlice keeps of a longer slice. */
  function Truncate32(m: nat): (r: nat)
    ensures r < WORD
    ensures m < WORD ==> r == m
    decreases m
  {
    if m < WORD then m else Truncate32(m / 256)
  }

  /** The scalar that `m.SetByteSlice(a.Bytes())` produces: big.Int.Bytes drops the sign,
      SetByteSlice keeps at most 32 bytes and reduces modulo n. */
  function Load(a: int): (r: Scalar)
    ensures 0 <= a < WORD ==> r == a % N
    ensures 0 <= a < N ==> r == a
  {
    Truncate32(if a < 0 then -a else a) % N
  }

  /** 2^d, with big.Int.Exp's convention that a negative exponent gives 1. */
  function Pow2(d: int): (r: nat)
    ensures r >= 1
    ensures d >= 1 ==> r >= 2
    decreases if d < 0 then 0 else d
  {
    if d <= 0 then 1 else 2 * Pow2(d - 1)
  }

  // ---------------------------------------------------------------------------------
  // modular arithmetic facts used throughout
  // ---------------------------------------------------------------------------------

  lemma ModMultiple(q: int, r: int)
    ensures (q * N + r) % N == r % N
  {
  }

  /** Equal integers have equal residues (stated once, because the solver is slow to see
      it through % on arithmetic terms). */
  lemma ModEqual(u: int, v: int)
    requires u == v
    ensures u % N == v % N
  {
  }

  lemma ModAdd(a: int, b: int)
    ensures (a % N + b % N) % N == (a + b) % N
  {
  }

  lemma ModAddLeft(a: int, b: int)
    ensures ((a % N) + b) % N == (a + b) % N
  {
    ModMultiple(a / N, a % N + b);
    assert a + b == (a / N) * N + (a % N + b);
  }

  lemma ModMulLeft(a: int, b: int)
    ensures ((a % N) * b) % N == (a * b) % N
  {
    var q := a / N;
    assert a == q * N + a % N;
    calc {
      a * b;
      (q * N + a % N) * b;
      (q * b) * N + (a % N) * b;
    }
    ModMultiple(q * b, (a % N) * b);
  }

  lemma ModMul(a: int, b: int)
    ensures ((a % N) * (b % N)) % N == (a * b) % N
  {
    ModMulLeft(a, b % N);
    ModMulLeft(b, a);
    assert (b % N) * a == a * (b % N);
    assert b * a == a * b;
  }

  /** Multiplication modulo n distributes over addition modulo n. */
  lemma MulDistributes(a: int, b: int, c: int)
    ensures (((a + b) % N) * c) % N == ((a * c) % N + (b * c) % N) % N
  {
    ModMulLeft(a + b, c);
    assert (a + b) * c == a * c + b * c;
    ModAdd(a * c, b * c);
  }

  /** Multiplication modulo n by a value known modulo n. */
  lemma MulInPOfReduced(c: Scalar, x: Scalar, d: int)
    requires x == d % N
    ensures MulInP(c, x) == (c * d) % N
  {
    assert c % N == c;
    ModMul(c, d);
  }

  /** Multiplying by u and then by v, each reduced, is the identity when u v is 1
      modulo n. */
  lemma MulCancel(g: Scalar, u: int, v: int)
    requires (u * v) % N == 1
    ensures (((g * u) % N) * v) % N == g
  {
    MulRegroup(g, u, v);
    ModMul(g, u * v);
  }

  /** Reducing an intermediate product does not change the final residue. */
  lemma MulRegroup(g: int, u: int, v: int)
    ensures (((g * u) % N) * v) % N == (g * (u * v)) % N
  {
    ModMulLeft(g * u, v);
    assert (g * u) * v == g * (u * v);
  }

  /** Reducing the second summand first does not change a sum modulo n. */
  lemma AddReduced(a: Scalar, b: int)
    ensures (a + b % N) % N == (a + b) % N
  {
    assert a % N == a;
    ModAdd(a, b);
  }

  /** Addition modulo n of values known modulo n. */
  lemma AddInPOfReduced(x: Scalar, y: Scalar, d: int, e: int)
    requires x == d % N && y == e % N
    ensures AddInP(x, y) == (d + e) % N
  {
    ModAdd(d, e);
  }

  /** A product of reduced values is the reduced product. */
  lemma MulOfReduced(x: Scalar, y: Scalar, a: int, b: int, r: Scalar)
    requires x == a % N && y == b % N && r == MulInP(x, y)
    ensures r == (a * b) % N
  {
    ModMul(a, b);
  }

  /** A difference of reduced values is the reduced difference. */
  lemma SubOfReduced(x: Scalar, y: Scalar, a: int, b: int, r: Scalar)
    requires x == a % N && y == b % N && r == SubInP(x, y)
    ensures r == (a - b) % N
  {
    assert r == (x - y) % N;
    ModMultiple(a / N - b / N, x - y);
    assert a - b == (a / N - b / N) * N + (x - y);
  }

  // ---------------------------------------------------------------------------------
  // Field_Operate.go
  // ---------------------------------------------------------------------------------

  /** Add_In_P: addition modulo n. */
  function AddInP(a: int, b: int): Scalar
  {
    (Load(a) + Load(b)) % N
  }

  /** Mul_In_P: multiplication modulo n. */
  function MulInP(a: int, b: int): Scalar
  {
    (Load(a) * Load(b)) % N
  }

  /** Neg_Zp: ModNScalar.Negate, which maps s to n - s and 0 to 0. */
  function NegZp(a: int): (r: Scalar)
    ensures (Load(a) + r) % N == 0
    ensures Load(a) == 0 ==> r == 0
    ensures 0 <= a < WORD ==> r == (-a) % N
  {
    var l := Load(a);
    assert 0 <= a < WORD ==> (-a) % N == (if l == 0 then 0 else N - l) by {
      if 0 <= a < WORD {
        ModAdd(-a, N);
      }
    }
    if l == 0 then 0 else N - l
  }

  /** Neg_Byte: the negation of a small constant, loaded with SetInt instead of SetByteSlice. */
  function NegByte(z: byte): (r: Scalar)
    ensures r == NegZp(z)
    ensures (z + r) % N == 0
  {
    (N - z) % N
  }

  /** Sub_In_P: adds the negation of b, as the Go code does. */
  function SubInP(a: int, b: int): (r: Scalar)
    ensures 0 <= a < WORD && 0 <= b < WORD ==> r == (a - b) % N
  {
    ModAdd(a, -b);
    (Load(a) + NegZp(b)) % N
  }

  /** Add_In_P on any two values that fit in 32 bytes is their sum modulo n. */
  lemma AddInPValue(a: int, b: int)
    requires 0 <= a < WORD && 0 <= b < WORD
    ensures AddInP(a, b) == (a + b) % N
  {
    ModAdd(a, b);
  }

  /** Mul_In_P on any two values that fit in 32 bytes is their product modulo n. */
  lemma MulInPValue(a: int, b: int)
    requires 0 <= a < WORD && 0 <= b < WORD
    ensures MulInP(a, b) == (a * b) % N
  {
    ModMul(a, b);
  }

  /** Adding Neg_Zp(a) to a gives 0. */
  lemma AddNegZp(a: int)
    ensures AddInP(a, NegZp(a)) == 0
  {
  }

  /** Sub_In_P is Add_In_P of the negation. */
  lemma SubIsAddNeg(a: int, b: int)
    ensures SubInP(a, b) == AddInP(a, NegZp(b))
  {
  }

  /** The extended Euclidean algorithm: r.0 is a common value reachable as an integer
      combination of a and b, with the Bezout coefficients r.1 and r.2. */
  function ExtGcd(a: nat, b: nat): (r: (nat, int, int))
    ensures a * r.1 + b * r.2 == r.0
    decreases b
  {
    if b == 0 then (a, 1, 0)
    else
      var g := ExtGcd(b, a % b);
      BezoutStep(a, b, a / b, a % b, g.1, g.2, g.0);
      (g.0, g.2, g.1 - (a / b) * g.2)
  }

  /** One step of the extended Euclidean algorithm keeps the Bezout identity. */
  lemma BezoutStep(a: int, b: int, q: int, m: int, x: int, y: int, g: int)
    requires a == b * q + m && b * x + m * y == g
    ensures a * y + b * (x - q * y) == g
  {
    assert a * y == (b * q) * y + m * y;
    assert b * (x - q * y) == b * x - (b * q) * y;
  }

  /** A scalar has an inverse modulo n exactly when the extended Euclidean algorithm
      reaches 1; for a prime n this holds for every non-zero scalar. */
  predicate Invertible(s: Scalar)
  {
    ExtGcd(s, N).0 == 1
  }

  /** Inverse_Zp: ModNScalar.InverseNonConst, which runs big.Int.ModInverse; when no
      inverse exists ModInverse leaves its receiver unchanged (so 0 maps to 0). */
  function InverseZp(a: int): (r: Scalar)
  {
    var s := Load(a);
    var e := ExtGcd(s, N);
    if e.0 == 1 then e.1 % N else s
  }

  /** The inverse property, for every scalar that has an inverse. */
  lemma InverseZpCorrect(a: int)
    requires Invertible(Load(a))
    ensures MulInP(a, InverseZp(a)) == 1
    ensures MulInP(InverseZp(a), a) == 1
  {
    var s := Load(a);
    var e := ExtGcd(s, N);
    var t := e.1 % N;
    InverseOfBezout(s, e.1, e.2);
    assert Load(InverseZp(a)) == t;
    assert t * s == s * t;
  }

  /** A Bezout identity s u + n v = 1 makes u modulo n an inverse of s. */
  lemma InverseOfBezout(s: Scalar, u: int, v: int)
    requires s * u + N * v == 1
    ensures (s * (u % N)) % N == 1
  {
    ModMultiple(v, s * u);
    assert (s * u) % N == 1;
    ModMulLeft(u, s);
    assert u * s == s * u;
  }

  /** Zero has no inverse, and Inverse_Zp returns it unchanged. */
  lemma InverseOfZero()
    ensures !Invertible(0)
    ensures InverseZp(0) == 0
  {
    assert ExtGcd(0, N).0 == ExtGcd(N, 0).0 == N;
  }

  /** Is_In_Zp: 1 above the base field, -1 below zero, 0 inside [0, p). */
  function IsInZp(num: int): (r: int)
    ensures r == 1 <==> num >= P
    ensures r == -1 <==> num < 0
    ensures r == 0 <==> 0 <= num < P
  {
    if num >= P then 1 else if num < 0 then -1 else 0
  }

  /** A *big.Int cell: Mod_Zp changes its argument in place. */
  class BigInt {
    var value: int

    constructor (v: int)
      ensures value == v
    {
      value := v;
    }
  }

  /** Mod_Zp: reduces num modulo p - 1 in place (big.Int.Mod is Euclidean) and
      returns the same cell. */
  method ModZp(num: BigInt) returns (r: BigInt)
    modifies num
    ensures r == num
    ensures num.value == old(num.value) % (P - 1)
    ensures 0 <= num.value < P - 1
  {
    num.value := num.value % (P - 1);
    r := num;
  }
}
