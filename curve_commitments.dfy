/** Pedersen commitments with the curve passed explicitly
    (Any-out-of-Many-Proofs/utils/Pederson_Commit.go). The curve is always secp256k1, so the
    parameter is dropped. The vector commitment has no special case for one generator,
    and random scalars are drawn below 2^130 - 1. */
module CurveCommitments {
  import opened Field
  import opened Group
  import opened Results
  import Commitments

  /** The bit length of Generate_Random_Zp in this package. */
  const RandomBits: int := 130

  /** Commit: secret·G. */
  function Commit(g: Point, secret: int): (com: Point)
    ensures com == Commitments.Commit(g, secret)
    ensures com.log == (g.log * Load(secret)) % N
  {
    ScalarMult(g, secret)
  }

  /** Pedersen_Commit: secret·G + random·H. */
  function PedersenCommit(g: Point, h: Point, secret: int, random: int): (com: Point)
    ensures com == Commitments.PedersenCommit(g, h, secret, random)
    ensures com.log == (g.log * Load(secret) + h.log * Load(random)) % N
  {
    PointAdd(Commit(g, secret), Commit(h, random))
  }

  /** Commit_Vector */
  method CommitVector(g: seq<Point>, secret: seq<int>) returns (com: Point)
    requires 1 <= |g| <= |secret|
    ensures com == Commitments.MultiExp(g, secret)
  {
    com := Commit(g[0], secret[0]);
    assert g[..1][..0] == [];
    for i := 1 to |g|
      invariant com == Commitments.MultiExp(g[..i], secret)
    {
      assert g[..i + 1][..i] == g[..i];
      var commitArray := Commit(g[i], secret[i]);
      com := PointAdd(com, commitArray);
    }
    assert g[..|g|] == g;
  }

  /** Pedersen_Commit_Vector: the loop alone, which gives the same point as the package-wide
      version's special case for a single pair. */
  method PedersenCommitVector(g: seq<Point>, h: seq<Point>, secret: seq<int>, random: seq<int>)
    returns (com: Point)
    requires 1 <= |g| && |g| <= |h| && |g| <= |secret| && |g| <= |random|
    ensures com == Commitments.PedersenMultiExp(g, h, secret, random)
    ensures com == PointAdd(Commitments.MultiExp(g, secret), Commitments.MultiExp(h[..|g|], random))
  {
    com := PedersenCommit(g[0], h[0], secret[0], random[0]);
    assert g[..1][..0] == [];
    PointAddIdentity(com);
    for i := 1 to |g|
      invariant com == Commitments.PedersenMultiExp(g[..i], h, secret, random)
    {
      assert g[..i + 1][..i] == g[..i];
      var commitArray := PedersenCommit(g[i], h[i], secret[i], random[i]);
      com := PointAdd(com, commitArray);
    }
    assert g[..|g|] == g;
    Commitments.PedersenMultiExpSplit(g, h, secret, random);
  }

  /** Commit_Is_Equal */
  function CommitIsEqual(env: Env, com0: Point, com1: Point): (r: bool)
    ensures r == Commitments.CommitIsEqual(env, com0, com1)
    ensures Injective(env) ==> (r <==> com0 == com1)
  {
    env.affine(com0).x == env.affine(com1).x && env.affine(com0).y == env.affine(com1).y
  }

  /** Generate_Random_Zp: a value below 2^130 - 1, or nil when the reader fails. */
  function GenerateRandomZp(reading: Option<nat>): (r: Option<nat>)
    ensures r.Some? <==> reading.Some?
    ensures r.Some? ==> r.value < Pow2(RandomBits) - 1
  {
    Commitments.GenerateRandomZp(RandomBits, reading)
  }

  /** Generate_Random_Zp_Vector(n) */
  method GenerateRandomZpVector(n: int, readings: seq<Option<nat>>) returns (randVector: seq<Option<nat>>)
    requires |readings| >= n
    ensures |randVector| == if n > 0 then n else 0
    ensures forall i :: 0 <= i < |randVector| ==> randVector[i] == GenerateRandomZp(readings[i])
  {
    randVector := [];
    var i := 0;
    while i < n
      invariant 0 <= i && (n > 0 ==> i <= n) && (n <= 0 ==> i == 0)
      invariant |randVector| == i
      invariant forall j :: 0 <= j < i ==> randVector[j] == GenerateRandomZp(readings[j])
    {
      randVector := randVector + [GenerateRandomZp(readings[i])];
      i := i + 1;
    }
  }
}
