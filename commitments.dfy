/** Pedersen commitments over the package-wide curve (utils/Pederson_Commit.go):
    single commitments, vector commitments accumulated in a loop, coordinate equality,
    random scalars and the y-scaled generator vector. */
module Commitments {
  import opened Field
  import opened Group
  import opened Results
  import opened Vectors

  /** Commit: secret·G. */
  function Commit(g: Point, secret: int): (com: Point)
    ensures com.log == (g.log * Load(secret)) % N
  {
    ScalarMult(g, secret)
  }

  /** Pedersen_Commit: secret·G + random·H. */
  function PedersenCommit(g: Point, h: Point, secret: int, random: int): (com: Point)
    ensures com.log == (g.log * Load(secret) + h.log * Load(random)) % N
  {
    ModAdd(g.log * Load(secret), h.log * Load(random));
    PointAdd(Commit(g, secret), Commit(h, random))
  }

  /** The discrete logarithms of a point vector. */
  function Logs(v: seq<Point>): seq<int>
  {
    seq(|v|, i requires 0 <= i < |v| => v[i].log as int)
  }

  /** The scalars the curve sees when it multiplies by each entry. */
  function Loads(s: seq<int>): seq<int>
  {
    seq(|s|, i requires 0 <= i < |s| => Load(s[i]) as int)
  }

  /** Σ_{i < |g|} s_i·g_i, the value of a vector commitment. */
  function MultiExp(g: seq<Point>, s: seq<int>): Point
    requires |g| <= |s|
    decreases |g|
  {
    if |g| == 0 then Identity
    else PointAdd(MultiExp(g[..|g| - 1], s), Commit(g[|g| - 1], s[|g| - 1]))
  }

  /** Σ_{i < |g|} (s_i·g_i + r_i·h_i), the value of a Pedersen vector commitment. */
  function PedersenMultiExp(g: seq<Point>, h: seq<Point>, s: seq<int>, r: seq<int>): Point
    requires |g| <= |h| && |g| <= |s| && |g| <= |r|
    decreases |g|
  {
    if |g| == 0 then Identity
    else
      var k := |g| - 1;
      PointAdd(PedersenMultiExp(g[..k], h, s, r), PedersenCommit(g[k], h[k], s[k], r[k]))
  }

  /** Commit_Vector: starts from the first commitment and adds the others; the source
      indexes the first entry, so it needs at least one generator. */
  method CommitVector(g: seq<Point>, secret: seq<int>) returns (com: Point)
    requires 1 <= |g| <= |secret|
    ensures com == MultiExp(g, secret)
  {
    com := Commit(g[0], secret[0]);
    assert g[..1][..0] == [];
    for i := 1 to |g|
      invariant com == MultiExp(g[..i], secret)
    {
      assert g[..i + 1][..i] == g[..i];
      var commitArray := Commit(g[i], secret[i]);
      com := PointAdd(com, commitArray);
    }
    assert g[..|g|] == g;
  }

  /** Pedersen_Commit_Vector: a single generator pair returns the first Pedersen commitment
      directly; otherwise the commitments of all pairs are added up. */
  method PedersenCommitVector(g: seq<Point>, h: seq<Point>, secret: seq<int>, random: seq<int>)
    returns (com: Point)
    requires 1 <= |g| && |g| <= |h| && |g| <= |secret| && |g| <= |random|
    ensures com == PedersenMultiExp(g, h, secret, random)
    ensures |g| == 1 ==> com == PedersenCommit(g[0], h[0], secret[0], random[0])
  {
    com := PedersenCommit(g[0], h[0], secret[0], random[0]);
    assert g[..1][..0] == [];
    PointAddIdentity(com);
    assert com == PedersenMultiExp(g[..1], h, secret, random);
    if |g| == 1 {
      assert g[..1] == g;
      return;
    }
    for i := 1 to |g|
      invariant com == PedersenMultiExp(g[..i], h, secret, random)
    {
      assert g[..i + 1][..i] == g[..i];
      var commitArray := PedersenCommit(g[i], h[i], secret[i], random[i]);
      com := PointAdd(com, commitArray);
    }
    assert g[..|g|] == g;
  }

  /** A vector commitment is the point whose logarithm is the dot product of the
      generators' logarithms with the loaded scalars. */
  lemma MultiExpIsDot(g: seq<Point>, s: seq<int>)
    requires |g| <= |s|
    ensures MultiExp(g, s).log == Dot(Logs(g), Loads(s)) % N
  {
    MultiExpIsDotOf(g, s, MultiExp(g, s), Dot(Logs(g), Loads(s)));
  }

  /* The induction names the commitment and the dot product, so that no goal mentions
     both recursive definitions at once. */
  lemma {:induction false} MultiExpIsDotOf(g: seq<Point>, s: seq<int>, p: Point, d: int)
    requires |g| <= |s|
    requires p == MultiExp(g, s) && d == Dot(Logs(g), Loads(s))
    ensures p.log == d % N
  {
    if |g| > 0 {
      var k := |g| - 1;
      var p', d' := MultiExp(g[..k], s), Dot(Logs(g[..k]), Loads(s));
      MultiExpIsDotOf(g[..k], s, p', d');
      var m: int := g[k].log as int * Load(s[k]);
      assert d == d' + m by {
        assert Logs(g[..k]) == Logs(g)[..k];
        DotSnoc(Logs(g), Loads(s));
      }
      AddInPOfReduced(p'.log, Commit(g[k], s[k]).log, d', m);
    }
  }

  /** A Pedersen vector commitment is the sum of the two vector commitments. */
  lemma {:induction false} PedersenMultiExpSplit(g: seq<Point>, h: seq<Point>, s: seq<int>, r: seq<int>)
    requires |g| <= |h| && |g| <= |s| && |g| <= |r|
    ensures PedersenMultiExp(g, h, s, r) == PointAdd(MultiExp(g, s), MultiExp(h[..|g|], r))
  {
    if |g| == 0 {
      PointAddIdentity(Identity);
    } else {
      var k := |g| - 1;
      PedersenMultiExpSplit(g[..k], h, s, r);
      assert h[..|g|][..k] == h[..k];
      PointAddSwap(MultiExp(g[..k], s), MultiExp(h[..k], r), Commit(g[k], s[k]), Commit(h[k], r[k]));
    }
  }

  /** Commit_Is_Equal: compares both coordinates. */
  function CommitIsEqual(env: Env, com0: Point, com1: Point): (r: bool)
    ensures com0 == com1 ==> r
    ensures Injective(env) ==> (r <==> com0 == com1)
  {
    env.affine(com0).x == env.affine(com1).x && env.affine(com0).y == env.affine(com1).y
  }

  /** Generate_Random_Zp(d): a value below 2^d - 1 from the system's random reader, or
      nil when the reader fails. The reader's output is a parameter; rand.Int panics when
      2^d - 1 is not positive, so d must be at least 1. */
  function GenerateRandomZp(d: int, reading: Option<nat>): (r: Option<nat>)
    requires d >= 1
    ensures r.Some? <==> reading.Some?
    ensures r.Some? ==> r.value < Pow2(d) - 1
  {
    match reading
    case None => None
    case Some(v) => Some(v % (Pow2(d) - 1))
  }

  /** Generate_Random_Zp_Vector(n, d): n draws, one reader output each. */
  method GenerateRandomZpVector(n: int, d: int, readings: seq<Option<nat>>)
    returns (randVector: seq<Option<nat>>)
    requires n > 0 ==> d >= 1 && |readings| >= n
    ensures |randVector| == if n > 0 then n else 0
    ensures forall i :: 0 <= i < |randVector| ==> randVector[i] == GenerateRandomZp(d, readings[i])
    ensures forall i :: 0 <= i < |randVector| ==> randVector[i].Some? ==> randVector[i].value < Pow2(d) - 1
  {
    randVector := [];
    var i := 0;
    while i < n
      invariant 0 <= i && (n > 0 ==> i <= n) && (n <= 0 ==> i == 0)
      invariant |randVector| == i
      invariant forall j :: 0 <= j < i ==> randVector[j] == GenerateRandomZp(d, readings[j])
    {
      randVector := randVector + [GenerateRandomZp(d, readings[i])];
      i := i + 1;
    }
  }

  /** Generate_Point_Vector_with_y: yN_i·vec_i for every entry of yN. */
  method GeneratePointVectorWithY(vec: seq<Point>, yN: seq<int>) returns (res: seq<Point>)
    requires |yN| <= |vec|
    ensures |res| == |yN|
    ensures forall i :: 0 <= i < |yN| ==> res[i] == Commit(vec[i], yN[i])
    ensures forall i :: 0 <= i < |yN| ==> res[i].log == (vec[i].log * Load(yN[i])) % N
  {
    res := [];
    for i := 0 to |yN|
      invariant |res| == i
      invariant forall j :: 0 <= j < i ==> res[j] == Commit(vec[j], yN[j])
    {
      res := res + [Commit(vec[i], yN[i])];
    }
  }
}
