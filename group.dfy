/** The secp256k1 group as the proofs use it (utils/ECC_Operate.go). A point is written
    by its discrete logarithm over a fixed generator, so the curve's addition is addition
    of logarithms modulo n and scalar multiplication is multiplication modulo n. The affine
    coordinates of a point and SHA-256 are not computed: they are the uninterpreted
    functions of an environment `Env`. */
module Group {
  import opened Field

  datatype Point = Pt(log: Scalar)

  /** Affine coordinates as *big.Int values; Go writes the identity as (0, 0). */
  datatype Affine = Affine(x: nat, y: nat)

  /** The uninterpreted parts of the system: the coordinates of each point and the
      SHA-256 digest of a byte string (section 6.2 of FIPS 180-4). */
  datatype Env = Env(affine: Point -> Affine, sha256: seq<byte> -> seq<byte>)

  /** The point at infinity. */
  const Identity: Point := Pt(0)

  /** Distinct points have distinct coordinates, as they do on the curve. */
  ghost predicate Injective(env: Env)
  {
    forall p: Point, q: Point :: env.affine(p) == env.affine(q) ==> p == q
  }

  // ---------------------------------------------------------------------------------
  // byte strings
  // ---------------------------------------------------------------------------------

  /** big.Int.Bytes: the minimal big-endian encoding, empty for zero. */
  function NatBytes(m: nat): seq<byte>
    decreases m
  {
    if m == 0 then [] else NatBytes(m / 256) + [m % 256]
  }

  /** big.Int.SetBytes: reads a big-endian byte string. */
  function FromBytes(s: seq<byte>): nat
    decreases |s|
  {
    if |s| == 0 then 0 else FromBytes(s[..|s| - 1]) * 256 + s[|s| - 1]
  }

  /** Reading back the encoding of m gives m. */
  lemma {:induction false} FromNatBytes(m: nat)
    ensures FromBytes(NatBytes(m)) == m
  {
    if m > 0 {
      var s := NatBytes(m);
      assert s[..|s| - 1] == NatBytes(m / 256);
      FromNatBytes(m / 256);
    }
  }

  /** The encoding is minimal: it never starts with a zero byte. */
  lemma {:induction false} NatBytesMinimal(m: nat)
    ensures |NatBytes(m)| == 0 <==> m == 0
    ensures m > 0 ==> NatBytes(m)[0] != 0
  {
    if m >= 256 {
      NatBytesMinimal(m / 256);
    }
  }

  /** Point2Bytes: the X coordinate's bytes followed by the Y coordinate's bytes. */
  function Point2Bytes(c: Affine): seq<byte>
  {
    NatBytes(c.x) + NatBytes(c.y)
  }

  /** The encoding is not fixed-width, so the boundary between X and Y is lost: two
      different coordinate pairs give the same bytes. */
  lemma Point2BytesNotInjective()
    ensures Affine(257, 1) != Affine(1, 257)
    ensures Point2Bytes(Affine(257, 1)) == Point2Bytes(Affine(1, 257)) == [1, 1, 1]
  {
    assert NatBytes(1) == [1] by {
      assert NatBytes(0) == [];
    }
    assert NatBytes(257) == [1, 1];
  }

  /** The Fiat-Shamir challenge `SetBytes(sha256.Sum256(data))`, reduced modulo n as
      every consumer of a challenge loads it. */
  function Hash(env: Env, data: seq<byte>): Scalar
  {
    Load(FromBytes(env.sha256(data)))
  }

  /** The challenge of a point: the hash of its coordinates' bytes. */
  function HashPoint(env: Env, p: Point): Scalar
  {
    Hash(env, Point2Bytes(env.affine(p)))
  }

  // ---------------------------------------------------------------------------------
  // point operations
  // ---------------------------------------------------------------------------------

  /** Cal_Point_Add: Curve.Add. */
  function PointAdd(p: Point, q: Point): Point
  {
    Pt((p.log + q.log) % N)
  }

  /** Cal_Point_Sca and Commit: Curve.ScalarMult(x, y, k.Bytes()) loads k through
      ModNScalar.SetByteSlice. */
  function ScalarMult(p: Point, k: int): Point
  {
    Pt((p.log * Load(k)) % N)
  }

  lemma PointAddCommutes(p: Point, q: Point)
    ensures PointAdd(p, q) == PointAdd(q, p)
  {
  }

  lemma PointAddAssociates(p: Point, q: Point, s: Point)
    ensures PointAdd(PointAdd(p, q), s) == PointAdd(p, PointAdd(q, s))
  {
    var a, b, c: int := p.log, q.log, s.log;
    ModAddLeft(a + b, c);
    ModAddLeft(b + c, a);
    assert (a + (b + c) % N) % N == ((b + c) % N + a) % N;
  }

  lemma PointAddIdentity(p: Point)
    ensures PointAdd(p, Identity) == p && PointAdd(Identity, p) == p
  {
  }

  /** Regrouping a sum of four points. */
  lemma PointAddSwap(x: Point, y: Point, u: Point, v: Point)
    ensures PointAdd(PointAdd(x, y), PointAdd(u, v)) == PointAdd(PointAdd(x, u), PointAdd(y, v))
  {
    var a, b, c, d: int := x.log, y.log, u.log, v.log;
    ModAdd(a + b, c + d);
    ModAdd(a + c, b + d);
    assert (a + b) + (c + d) == (a + c) + (b + d);
  }

  /** Scalar multiplication distributes over point addition. */
  lemma ScalarMultDistributes(p: Point, q: Point, k: int)
    ensures ScalarMult(PointAdd(p, q), k) == PointAdd(ScalarMult(p, k), ScalarMult(q, k))
  {
    MulDistributes(p.log, q.log, Load(k));
  }

  /** Adding two multiples of a point multiplies it by the sum of the scalars. */
  lemma ScalarMultAdd(p: Point, a: Scalar, b: Scalar)
    ensures PointAdd(ScalarMult(p, a), ScalarMult(p, b)) == ScalarMult(p, AddInP(a, b))
  {
    var g: int := p.log;
    assert Load(a) == a && Load(b) == b && Load(AddInP(a, b)) == (a + b) % N;
    MulDistributes(a, b, g);
    assert a * g == g * a && b * g == g * b;
    assert ((a + b) % N) * g == g * ((a + b) % N);
  }

  /** Is_Equal_Point: compares both coordinates. */
  function IsEqualPoint(env: Env, a: Point, b: Point): (r: bool)
    ensures a == b ==> r
    ensures Injective(env) ==> (r <==> a == b)
  {
    env.affine(a).x == env.affine(b).x && env.affine(a).y == env.affine(b).y
  }

  // ---------------------------------------------------------------------------------
  // point vectors
  // ---------------------------------------------------------------------------------

  function PointScale(v: seq<Point>, c: int): seq<Point>
  {
    seq(|v|, i requires 0 <= i < |v| => ScalarMult(v[i], c))
  }

  function PointVecAdd(a: seq<Point>, b: seq<Point>): seq<Point>
    requires |a| <= |b|
  {
    seq(|a|, i requires 0 <= i < |a| => PointAdd(a[i], b[i]))
  }

  /** Cal_Point_Sca_Vec */
  method CalPointScaVec(v: seq<Point>, c: int) returns (result: seq<Point>)
    ensures |result| == |v|
    ensures forall i :: 0 <= i < |v| ==> result[i].log == (v[i].log * Load(c)) % N
    ensures result == PointScale(v, c)
  {
    result := [];
    for i := 0 to |v|
      invariant result == PointScale(v[..i], c)
    {
      result := result + [ScalarMult(v[i], c)];
    }
    assert v[..|v|] == v;
  }

  /** Cal_Point_Add_Vec: walks the first vector; the second must be at least as long. */
  method CalPointAddVec(a: seq<Point>, b: seq<Point>) returns (result: seq<Point>)
    requires |a| <= |b|
    ensures |result| == |a|
    ensures forall i :: 0 <= i < |a| ==> result[i].log == (a[i].log + b[i].log) % N
    ensures result == PointVecAdd(a, b)
  {
    result := [];
    for i := 0 to |a|
      invariant result == PointVecAdd(a[..i], b)
    {
      result := result + [PointAdd(a[i], b[i])];
    }
    assert a[..|a|] == a;
  }

  /** GenerateMultiPoint: counts down from n, appending one fresh point per step. The
      fresh points (public keys of random private keys) are supplied by the caller. */
  method GenerateMultiPoint(n: int, supply: seq<Point>) returns (points: seq<Point>)
    requires |supply| >= n
    ensures |points| == if n > 0 then n else 0
    ensures points == supply[..|points|]
  {
    points := [];
    var i := n;
    while i > 0
      invariant n > 0 ==> 0 <= i <= n && points == supply[..n - i]
      invariant n <= 0 ==> points == [] && i == n
    {
      points := points + [supply[n - i]];
      i := i - 1;
    }
  }
}
