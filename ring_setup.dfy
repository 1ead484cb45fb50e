/** The setup steps of the any-out-of-many ring proof that differ from the other
    packages (Any-out-of-Many-Proofs/Ring_Sig_Setup.go): the k-of-N selector b_0 and the
    ring of public keys built from it. The loops this file shares with the other setup
    files are in module Setup. */
module RingSetup {
  import opened Field
  import opened Group
  import opened Results
  import opened Setup
  import CurveCommitments

  /** The error Generate_b_0 returns when more secrets than ring members are asked for. */
  const SizeError: string := "the secret number should not be bigger than ring set"

  /** The model's own outcome when the candidate indices run out before k distinct slots
      were hit; the source keeps drawing until it succeeds. */
  const SamplesExhausted: string := "samples exhausted"

  /** Generate_b_0(k, N): a zero vector of length N in which k distinct slots are set to 1.
      Each draw picks the slot `sample mod N`; a slot that is already set is retried with
      the next draw. The draws of Generate_Random_Zp are the sequence `samples`. */
  method GenerateB0(k: int, n: int, samples: seq<nat>) returns (r: Result<seq<int>>)
    ensures r == Failure(SizeError) <==> k > n
    ensures r.Failure? ==> r.error == SizeError || r.error == SamplesExhausted
    ensures r.Success? ==> |r.value| == Max0(n) && IsBits(r.value)
    ensures r.Success? ==> Count(r.value, 1) == (if k > 0 then k else 0)
    ensures r.Success? ==> Count(r.value, 0) == |r.value| - Count(r.value, 1)
    ensures r.Success? ==> forall j :: 0 <= j < |r.value| && r.value[j] == 1 ==>
      exists t :: 0 <= t < |samples| && samples[t] % n == j
  {
    if k > n {
      return Failure(SizeError);
    }
    var b0: seq<int> := [];
    var j := 0;
    while j < n
      invariant 0 <= j && (n >= 0 ==> j <= n) && (n < 0 ==> j == 0)
      invariant |b0| == j
      invariant forall t :: 0 <= t < j ==> b0[t] == 0
    {
      b0 := b0 + [0];
      j := j + 1;
    }
    assert Count(b0, 1) == 0 by { CountAbsent(b0, 1); }
    var i := 0;
    var pos := 0;
    while i < k
      invariant 0 <= i && (k >= 0 ==> i <= k) && (k < 0 ==> i == 0)
      invariant 0 <= pos <= |samples|
      invariant |b0| == j && (n >= 0 ==> j == n)
      invariant IsBits(b0)
      invariant Count(b0, 1) == i
      invariant forall t :: 0 <= t < |b0| && b0[t] == 1 ==>
        exists u :: 0 <= u < pos && samples[u] % n == t
      decreases |samples| - pos
    {
      if pos == |samples| {
        return Failure(SamplesExhausted);
      }
      var index := samples[pos] % n;
      pos := pos + 1;
      if b0[index] == 0 {
        CountSet(b0, index, 1);
        b0 := b0[index := 1];
        i := i + 1;
      }
    }
    CountBits(b0);
    return Success(b0);
  }

  /** A vector without v counts no v. */
  lemma {:induction false} CountAbsent(s: seq<int>, v: int)
    requires forall t :: 0 <= t < |s| ==> s[t] != v
    ensures Count(s, v) == 0
  {
    if |s| > 0 {
      CountAbsent(s[..|s| - 1], v);
    }
  }

  /** Generate_Multi_Public_Key(k, N, bit): the ring of N public keys, each the real or
      decoy secret of its slot times ck (the walk is Setup.CommitBySelector). The prover's
      commitment key, its secrets and the N - k decoy secrets drawn by
      Generate_Random_Zp_Vector are parameters; the source indexes all three. */
  method GenerateMultiPublicKey(k: int, n: int, bit: seq<int>, ck: Point, secKeys: seq<int>, fakeKeys: seq<int>)
    returns (publicKey: seq<Point>)
    requires |bit| >= n
    requires |fakeKeys| == Max0(n - k)
    requires Count(bit[..Max0(n)], 0) <= |fakeKeys| && Count(bit[..Max0(n)], 1) <= |secKeys|
    ensures publicKey == CommitAll(ck, Selected(bit[..Max0(n)], secKeys, fakeKeys))
    ensures IsBits(bit[..Max0(n)]) ==> |publicKey| == Max0(n)
    ensures IsBits(bit[..Max0(n)]) ==> forall i :: 0 <= i < Max0(n) ==>
      if bit[i] == 1 then
        Count(bit[..i], 1) < |secKeys| && publicKey[i] == CurveCommitments.Commit(ck, secKeys[Count(bit[..i], 1)])
      else
        Count(bit[..i], 0) < |fakeKeys| && publicKey[i] == CurveCommitments.Commit(ck, fakeKeys[Count(bit[..i], 0)])
  {
    publicKey := CommitBySelector(Max0(n), bit, ck, secKeys, fakeKeys);
  }
}
