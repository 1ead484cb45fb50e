/** Setup of the range proof (range_proofs/Range_Setup.go): the bits of the committed
    value and the public coin that commits to it. The remaining helpers of that file are
    the shared ones of module Setup. */
module RangeSetup {
  import opened Field
  import opened Vectors
  import opened Group
  import opened Commitments
  import opened Setup

  /** Generate_b_0: d pseudo-random bits, one per iteration. The time-seeded generator is
      replaced by the coin flips it would produce. */
  method GenerateB0(d: int, coins: seq<bool>) returns (b0: seq<int>)
    requires |coins| >= d
    ensures |b0| == if d > 0 then d else 0
    ensures IsBits(b0)
    ensures forall j :: 0 <= j < |b0| ==> b0[j] == if coins[j] then 1 else 0
  {
    b0 := [];
    var j := 0;
    while j < d
      invariant d > 0 ==> 0 <= j <= d
      invariant d <= 0 ==> j == 0
      invariant |b0| == j
      invariant forall i :: 0 <= i < j ==> b0[i] == if coins[i] then 1 else 0
    {
      var data := if coins[j] then 1 else 0;
      b0 := b0 + [data];
      j := j + 1;
    }
  }

  /** Generate_Public_Coin: accumulates Σ bit_i 2^i modulo n, doubling the weight each
      step, and commits to it with blind gamma. For a bit vector of at most 255 entries the
      committed value is the binary value itself, below 2^|bit|. The argument d is unused,
      as in the source. */
  method GeneratePublicCoin(g: Point, h: Point, d: int, bit: seq<int>, gamma: int) returns (coin: Point)
    ensures coin == PedersenCommit(g, h, InnerProduct(bit, ExpVector(2, |bit|)), gamma)
    ensures IsBits(bit) && |bit| <= 255 ==>
      coin == PedersenCommit(g, h, BinaryValue(bit), gamma) && 0 <= BinaryValue(bit) < Pow2(|bit|)
  {
    ghost var w := ExpVector(2, |bit|);
    var weight: Scalar := 1;
    var value: Scalar := 0;
    for i := 0 to |bit|
      invariant value == InnerProduct(bit[..i], w)
      invariant weight == PowMod(2, i)
    {
      assert bit[..i + 1][..i] == bit[..i];
      value := AddInP(value, MulInP(bit[i], weight));
      weight := MulInP(weight, 2);
    }
    assert bit[..|bit|] == bit;
    coin := PedersenCommit(g, h, value, gamma);
    if IsBits(bit) && |bit| <= 255 {
      CoinValue(bit);
    }
  }

  /** For a bit vector of at most 255 entries, <bit, 2^|bit|> is its binary value. */
  lemma CoinValue(bit: seq<int>)
    requires IsBits(bit) && |bit| <= 255
    ensures InnerProduct(bit, ExpVector(2, |bit|)) == BinaryValue(bit) && 0 <= BinaryValue(bit) < Pow2(|bit|)
  {
    ExpVectorTwo(|bit|);
    BinaryInnerProduct(bit, ExpVector(2, |bit|));
    BinaryValueBound(bit);
  }
}
