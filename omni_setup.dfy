/** The setup steps of the omniring proof that differ from the other packages
    (omniring/Ring_Sig_Setup.go): the block-wise selector b_0, the constant vector, the
    ring of public keys over the first block, the public coins and the challenge W.
    Generate_b_1, the exponent, constant and negated vectors, Generate_Inverse_H,
    Generate_YZ and Generate_X are the shared versions in module Setup. */
module OmniSetup {
  import opened Field
  import opened Vectors
  import opened Group
  import opened Commitments
  import opened Setup

  /** The bit length of the random scalars this package draws (the constant q). */
  const Q: int := 256

  /** Go's `/` on int, which truncates toward zero. */
  function Quo(a: int, b: int): (q: int)
    requires b != 0
    ensures a >= 0 && b > 0 ==> q == a / b
  {
    if a >= 0 && b > 0 then a / b
    else if a < 0 && b < 0 then (-a) / (-b)
    else if a >= 0 then -(a / (-b))
    else -((-a) / b)
  }

  lemma MulLe(a: int, b: int, n: int)
    requires n >= 0 && a <= b
    ensures a * n <= b * n
  {
    assert b * n - a * n == (b - a) * n;
  }

  /** MulLe as an implication, for a premise that may not hold where it is used. */
  lemma MulMonotone(a: int, b: int, n: int)
    ensures n >= 0 && a <= b ==> a * n <= b * n
  {
    if n >= 0 && a <= b {
      MulLe(a, b, n);
    }
  }

  /** For a < b, the multiples a·n and b·n lie at least n apart. */
  lemma MulGap(a: int, b: int, n: int)
    ensures n >= 0 && a < b ==> a * n + n <= b * n
  {
    if n >= 0 && a < b {
      assert (a + 1) * n == a * n + n;
      MulLe(a + 1, b, n);
    }
  }

  /** The entry Generate_b_0 leaves at slot t after its first c draws, with blocks of
      length n: slot t is offset t % n of block t / n, and it is 1 exactly when that
      block is one of the first c and the offset is the block's draw modulo n. */
  function BlockMark(t: nat, c: nat, n: int, samples: seq<nat>): int
    requires n > 0 && c <= |samples|
  {
    if t / n < c && t % n == samples[t / n] % n then 1 else 0
  }

  /** The slot c·n + r lies in block c at offset r. */
  lemma DivBlock(t: int, c: int, n: int, r: int)
    requires n > 0 && 0 <= r < n && t == c * n + r
    ensures t / n == c && t % n == r
  {
    var q, m := t / n, t % n;
    assert t == q * n + m by { assert n * q == q * n; }
    MulGap(c, q, n);
    MulGap(q, c, n);
  }

  /** k blocks of length N / k fit into N slots, and a block is not empty when k <= N. */
  lemma BlockLength(k: int, bigN: int)
    requires 0 < k <= bigN
    ensures bigN / k >= 1 && k * (bigN / k) <= bigN
  {
    var n := bigN / k;
    assert bigN == n * k + bigN % k by { assert k * n == n * k; }
    MulMonotone(n, 0, k);
  }

  /** With k blocks of length N / k, every slot of block c < k lies inside the vector. */
  lemma BlockInRange(c: nat, k: int, bigN: int, r: int)
    requires 0 < k <= bigN && c < k && 0 <= r < bigN / k
    ensures 0 <= c * (bigN / k) + r < bigN
  {
    var n := bigN / k;
    BlockLength(k, bigN);
    assert (c + 1) * n == c * n + n;
    MulLe(c + 1, k, n);
    assert k * n == n * k;
    MulLe(0, c, n);
  }

  /** Before the first draw no slot is marked. */
  lemma NoMarks(t: nat, n: int, samples: seq<nat>)
    requires n > 0
    ensures BlockMark(t, 0, n, samples) == 0
  {
    var q := t / n;
    assert t == q * n + t % n by { assert n * q == q * n; }
    MulMonotone(q, -1, n);
  }

  /** Setting the draw's offset in block c extends the marks of the first c blocks to c + 1. */
  lemma MarkStep(t: nat, c: nat, n: int, samples: seq<nat>, p: int)
    requires n > 0 && c < |samples| && p == c * n + samples[c] % n
    ensures (if t == p then 1 else BlockMark(t, c, n, samples)) == BlockMark(t, c + 1, n, samples)
  {
    DivBlock(p, c, n, samples[c] % n);
    DivBlock(t, t / n, n, t % n);
  }

  /** Generate_b_0(k, N): a zero vector of length N cut into k blocks of length n = N / k;
      the c-th draw of Generate_Random_Zp selects offset `draw mod n` of block c. The draws
      are the sequence `samples`. The source divides by k, reduces modulo n and indexes
      the vector, so it needs k != 0 and, when it draws at all, k <= N. */
  method GenerateB0(k: int, bigN: int, samples: seq<nat>) returns (b0: seq<int>)
    requires k != 0 && (k > 0 ==> k <= bigN && |samples| >= k)
    ensures |b0| == Max0(bigN) && IsBits(b0)
    ensures k < 0 ==> forall t :: 0 <= t < |b0| ==> b0[t] == 0
    ensures k > 0 ==> bigN / k >= 1 && forall t :: 0 <= t < |b0| ==> b0[t] == BlockMark(t, k, bigN / k, samples)
  {
    b0 := [];
    var j := 0;
    while j < bigN
      invariant 0 <= j && (bigN >= 0 ==> j <= bigN) && (bigN < 0 ==> j == 0)
      invariant |b0| == j
      invariant forall t :: 0 <= t < j ==> b0[t] == 0
    {
      b0 := b0 + [0];
      j := j + 1;
    }
    var n := Quo(bigN, k);
    if k < 0 {
      return;
    }
    BlockLength(k, bigN);
    NoneMarked(b0, n, samples);
    var counter := 0;
    for i := 0 to k
      invariant counter == i
      invariant |b0| == bigN
      invariant Marked(b0, counter, n, samples)
    {
      var index := samples[i] % n;
      var p := index + counter * n;
      BlockInRange(counter, k, bigN, index);
      MarkedStep(b0, counter, n, samples, p);
      b0 := b0[p := 1];
      counter := counter + 1;
    }
  }

  /** b0 holds the marks of the first c draws. */
  predicate Marked(b0: seq<int>, c: nat, n: int, samples: seq<nat>)
    requires n > 0 && c <= |samples|
  {
    forall t :: 0 <= t < |b0| ==> b0[t] == BlockMark(t, c, n, samples)
  }

  lemma NoneMarked(b0: seq<int>, n: int, samples: seq<nat>)
    requires n > 0 && forall t :: 0 <= t < |b0| ==> b0[t] == 0
    ensures Marked(b0, 0, n, samples)
  {
    forall t | 0 <= t < |b0|
      ensures b0[t] == BlockMark(t, 0, n, samples)
    {
      NoMarks(t, n, samples);
    }
  }

  lemma MarkedStep(b0: seq<int>, c: nat, n: int, samples: seq<nat>, p: int)
    requires n > 0 && c < |samples| && p == c * n + samples[c] % n && 0 <= p < |b0|
    requires Marked(b0, c, n, samples)
    ensures Marked(b0[p := 1], c + 1, n, samples)
  {
    var b1 := b0[p := 1];
    forall t | 0 <= t < |b1|
      ensures b1[t] == BlockMark(t, c + 1, n, samples)
    {
      MarkStep(t, c, n, samples, p);
    }
  }

  /** Each of the first k blocks holds exactly one 1, at the offset of its draw, and every
      slot past the k-th block is 0. */
  lemma OneMarkPerBlock(k: nat, n: int, samples: seq<nat>, t: nat)
    requires n > 0 && k <= |samples|
    ensures t / n < k ==> (BlockMark(t, k, n, samples) == 1 <==> t == (t / n) * n + samples[t / n] % n)
    ensures t >= k * n ==> BlockMark(t, k, n, samples) == 0
  {
    var q := t / n;
    assert t == q * n + t % n by { assert n * q == q * n; }
    if q < k {
      assert (q + 1) * n == q * n + n;
      MulLe(q + 1, k, n);
    }
  }

  /** Occurrences add up over a concatenation. */
  lemma {:induction false} CountAppend(a: seq<int>, b: seq<int>, v: int)
    ensures Count(a + b, v) == Count(a, v) + Count(b, v)
    decreases |b|
  {
    if |b| > 0 {
      var k := |b| - 1;
      assert (a + b)[..|a + b| - 1] == a + b[..k];
      CountAppend(a, b[..k], v);
    } else {
      assert a + b == a;
    }
  }

  /** A vector with no 1 counts no 1. */
  lemma {:induction false} CountNone(s: seq<int>)
    requires forall t :: 0 <= t < |s| ==> s[t] == 0
    ensures Count(s, 1) == 0
  {
    if |s| > 0 {
      CountNone(s[..|s| - 1]);
    }
  }

  /** A vector that is 1 at slot p and 0 elsewhere counts one 1. */
  lemma {:induction false} CountSingle(s: seq<int>, p: int)
    requires 0 <= p < |s| && forall t :: 0 <= t < |s| ==> s[t] == (if t == p then 1 else 0)
    ensures Count(s, 1) == 1
  {
    var k := |s| - 1;
    if p == k {
      CountNone(s[..k]);
    } else {
      CountSingle(s[..k], p);
    }
  }

  /** Block c of a vector marked by the first k draws is 1 at the draw's offset only. */
  lemma BlockOfMarks(b0: seq<int>, k: nat, n: int, samples: seq<nat>, c: nat)
    requires n > 0 && c < k <= |samples| && k * n <= |b0| && Marked(b0, k, n, samples)
    ensures (c + 1) * n <= |b0| && Count(b0[c * n..(c + 1) * n], 1) == 1
  {
    assert (c + 1) * n == c * n + n;
    MulLe(c + 1, k, n);
    var block := b0[c * n..(c + 1) * n];
    forall r | 0 <= r < n
      ensures block[r] == (if r == samples[c] % n then 1 else 0)
    {
      DivBlock(c * n + r, c, n, r);
      assert block[r] == b0[c * n + r];
    }
    CountSingle(block, samples[c] % n);
  }

  /** The first c blocks of a vector marked by k draws hold c ones. */
  lemma {:induction false} MarksInBlocks(b0: seq<int>, k: nat, n: int, samples: seq<nat>, c: nat)
    requires n > 0 && c <= k <= |samples| && k * n <= |b0| && Marked(b0, k, n, samples)
    ensures c * n <= |b0| && Count(b0[..c * n], 1) == c
  {
    MulLe(c, k, n);
    if c == 0 {
      CountNone(b0[..0]);
    } else {
      MarksInBlocks(b0, k, n, samples, c - 1);
      BlockOfMarks(b0, k, n, samples, c - 1);
      assert (c - 1) * n + n == c * n;
      assert b0[..c * n] == b0[..(c - 1) * n] + b0[(c - 1) * n..c * n];
      CountAppend(b0[..(c - 1) * n], b0[(c - 1) * n..c * n], 1);
    }
  }

  /** The selector Generate_b_0(k, N) yields, with blocks of length n = N / k, holds
      exactly k ones and N - k zeros. */
  lemma SelectorCounts(b0: seq<int>, k: nat, bigN: int, n: int, samples: seq<nat>)
    requires 0 < k <= bigN && n == bigN / k && n >= 1 && k <= |samples| && |b0| == bigN && IsBits(b0)
    requires forall t :: 0 <= t < |b0| ==> b0[t] == BlockMark(t, k, n, samples)
    ensures Count(b0, 1) == k && Count(b0, 0) == bigN - k
  {
    BlockLength(k, bigN);
    assert Marked(b0, k, n, samples);
    MarksInBlocks(b0, k, n, samples, k);
    var tail := b0[k * n..];
    forall t | 0 <= t < |tail| ensures tail[t] == 0 {
      OneMarkPerBlock(k, n, samples, k * n + t);
      assert tail[t] == b0[k * n + t];
    }
    CountNone(tail);
    assert b0 == b0[..k * n] + tail;
    CountAppend(b0[..k * n], tail, 1);
    CountBits(b0);
  }

  /** Its first block holds exactly one 1 and n - 1 zeros. */
  lemma FirstBlockCounts(b0: seq<int>, k: nat, bigN: int, n: int, samples: seq<nat>)
    requires 0 < k <= bigN && n == bigN / k && n >= 1 && k <= |samples| && |b0| == bigN && IsBits(b0)
    requires forall t :: 0 <= t < |b0| ==> b0[t] == BlockMark(t, k, n, samples)
    ensures n <= |b0| && Count(b0[..n], 1) == 1 && Count(b0[..n], 0) == n - 1
  {
    BlockLength(k, bigN);
    assert Marked(b0, k, n, samples);
    MarksInBlocks(b0, k, n, samples, 1);
    var first := b0[..n];
    assert forall t :: 0 <= t < |first| ==> first[t] == b0[t];
    CountBits(first);
  }

  /** Generate_cons_vec(n, c): n copies of c. */
  method GenerateConsVec(n: int, c: int) returns (v: seq<int>)
    ensures v == Constant(Max0(n), c)
    ensures |v| == Max0(n) && forall i :: 0 <= i < |v| ==> v[i] == c
  {
    v := [];
    for i := 0 to Max0(n)
      invariant v == Constant(i, c)
    {
      v := v + [c];
      assert v == Constant(i + 1, c);
    }
  }

  /** Generate_Multi_Public_Key(k, N, bit): only the first n = N / k slots get a key, each
      the slot's real or decoy secret times Gen_H (the walk is Setup.CommitBySelector).
      Gen_H, the prover's secrets and the N - k decoy secrets are parameters. */
  method GenerateMultiPublicKey(k: int, bigN: int, bit: seq<int>, genH: Point, secKeys: seq<int>, fakeKeys: seq<int>)
    returns (publicKey: seq<Point>)
    requires k != 0 && |bit| >= Quo(bigN, k)
    requires |fakeKeys| == Max0(bigN - k)
    requires Count(bit[..Max0(Quo(bigN, k))], 0) <= |fakeKeys| && Count(bit[..Max0(Quo(bigN, k))], 1) <= |secKeys|
    ensures publicKey == CommitAll(genH, Selected(bit[..Max0(Quo(bigN, k))], secKeys, fakeKeys))
    ensures IsBits(bit[..Max0(Quo(bigN, k))]) ==> |publicKey| == Max0(Quo(bigN, k))
    ensures IsBits(bit[..Max0(Quo(bigN, k))]) ==> forall i :: 0 <= i < Max0(Quo(bigN, k)) ==>
      if bit[i] == 1 then
        Count(bit[..i], 1) < |secKeys| && publicKey[i] == Commit(genH, secKeys[Count(bit[..i], 1)])
      else
        Count(bit[..i], 0) < |fakeKeys| && publicKey[i] == Commit(genH, fakeKeys[Count(bit[..i], 0)])
  {
    var n := Quo(bigN, k);
    publicKey := CommitBySelector(Max0(n), bit, genH, secKeys, fakeKeys);
  }

  /** Generate_Multi_Public_Coin(k, N, bit): N coins over Gen_G and Gen_H. A 0 slot commits
      the next decoy value with the decoy blind of the same index (counter num1), a 1 slot
      the prover's next secret value with its own blind (counter num2). */
  method GenerateMultiPublicCoin(k: int, bigN: int, bit: seq<int>, genG: Point, genH: Point,
                                 secKeys: seq<int>, secRandoms: seq<int>,
                                 fakeValues: seq<int>, fakeRandoms: seq<int>)
    returns (publicCoin: seq<Point>)
    requires |bit| >= bigN
    requires |fakeValues| == Max0(bigN - k) && |fakeRandoms| == Max0(bigN - k)
    requires Count(bit[..Max0(bigN)], 0) <= |fakeValues|
    requires Count(bit[..Max0(bigN)], 1) <= |secKeys| && Count(bit[..Max0(bigN)], 1) <= |secRandoms|
    ensures |Selected(bit[..Max0(bigN)], secKeys, fakeValues)| == |Selected(bit[..Max0(bigN)], secRandoms, fakeRandoms)|
    ensures publicCoin == PedersenAll(genG, genH, Selected(bit[..Max0(bigN)], secKeys, fakeValues),
                                      Selected(bit[..Max0(bigN)], secRandoms, fakeRandoms))
    ensures IsBits(bit[..Max0(bigN)]) ==> |publicCoin| == Max0(bigN) && forall i :: 0 <= i < Max0(bigN) ==>
      if bit[i] == 1 then
        var j := Count(bit[..i], 1);
        j < |secKeys| && j < |secRandoms| && publicCoin[i] == PedersenCommit(genG, genH, secKeys[j], secRandoms[j])
      else
        var j := Count(bit[..i], 0);
        j < |fakeValues| && j < |fakeRandoms| && publicCoin[i] == PedersenCommit(genG, genH, fakeValues[j], fakeRandoms[j])
  {
    var m := Max0(bigN);
    var whole := bit[..m];
    publicCoin := [];
    var num1, num2 := 0, 0;
    for i := 0 to m
      invariant num1 == Count(bit[..i], 0) && num2 == Count(bit[..i], 1)
      invariant Count(bit[..i], 0) <= |fakeValues| && Count(bit[..i], 1) <= |secKeys| && Count(bit[..i], 1) <= |secRandoms|
      invariant |Selected(bit[..i], secKeys, fakeValues)| == |Selected(bit[..i], secRandoms, fakeRandoms)|
      invariant publicCoin == PedersenAll(genG, genH, Selected(bit[..i], secKeys, fakeValues),
                                          Selected(bit[..i], secRandoms, fakeRandoms))
    {
      var next := bit[..i + 1];
      assert next[..i] == bit[..i] && next[i] == bit[i];
      assert whole[..i + 1] == next;
      CountPrefix(whole, i + 1, 0);
      CountPrefix(whole, i + 1, 1);
      var values := Selected(bit[..i], secKeys, fakeValues);
      var blinds := Selected(bit[..i], secRandoms, fakeRandoms);
      if bit[i] == 0 {
        var secretKey := fakeValues[num1];
        var secretRandom := fakeRandoms[num1];
        publicCoin := publicCoin + [PedersenCommit(genG, genH, secretKey, secretRandom)];
        num1 := num1 + 1;
        assert Selected(next, secKeys, fakeValues) == values + [secretKey];
        assert Selected(next, secRandoms, fakeRandoms) == blinds + [secretRandom];
        PedersenAllSnoc(genG, genH, values, blinds, secretKey, secretRandom);
      }
      if bit[i] == 1 {
        var secretKey := secKeys[num2];
        var secretRandom := secRandoms[num2];
        publicCoin := publicCoin + [PedersenCommit(genG, genH, secretKey, secretRandom)];
        num2 := num2 + 1;
        assert Selected(next, secKeys, fakeValues) == values + [secretKey];
        assert Selected(next, secRandoms, fakeRandoms) == blinds + [secretRandom];
        PedersenAllSnoc(genG, genH, values, blinds, secretKey, secretRandom);
      }
    }
    assert bit[..m] == whole;
    if IsBits(whole) {
      SelectedOfBits(whole, secKeys, fakeValues);
      SelectedOfBits(whole, secRandoms, fakeRandoms);
      forall i | 0 <= i < m
        ensures whole[..i] == bit[..i] && whole[i] == bit[i]
      {
      }
    }
  }

  /** Committing one more pair appends its Pedersen commitment. */
  lemma PedersenAllSnoc(g: Point, h: Point, values: seq<int>, blinds: seq<int>, v: int, b: int)
    requires |values| == |blinds|
    ensures PedersenAll(g, h, values + [v], blinds + [b]) == PedersenAll(g, h, values, blinds) + [PedersenCommit(g, h, v, b)]
  {
    assert |PedersenAll(g, h, values + [v], blinds + [b])| == |values| + 1;
  }

  /** Generate_W: W hashes A. */
  function GenerateW(env: Env, a: Point): (w: Scalar)
    ensures w == Hash(env, Point2Bytes(env.affine(a)))
  {
    HashPoint(env, a)
  }
}
