/** The algebra the three provers share: the response vectors are degree-one polynomials
    in the challenge x, so their inner product is a quadratic in x whose coefficients are
    the prover's t_0, t_1 and t_2. */
module Polynomial {
  import opened Field
  import opened Vectors

  /** A pointwise quadratic in x lifts to the sums. */
  lemma QuadraticSum(u: seq<int>, p0: seq<int>, p1: seq<int>, p2: seq<int>, x: int)
    requires |u| == |p0| == |p1| == |p2|
    requires forall i :: 0 <= i < |u| ==> u[i] == p0[i] + x * p1[i] + x * x * p2[i]
    ensures Sum(u) == Sum(p0) + x * Sum(p1) + x * x * Sum(p2)
  {
    var q: seq<int> := seq(|u|, i requires 0 <= i < |u| => p1[i] + x * p2[i]);
    forall i | 0 <= i < |u|
      ensures u[i] == p0[i] + x * q[i]
    {
      Horner(u[i], p0[i], p1[i], p2[i], q[i], x);
    }
    SumLinear(u, p0, q, x);
    SumLinear(q, p1, p2, x);
    Horner(Sum(u), Sum(p0), Sum(p1), Sum(p2), Sum(q), x);
  }

  /** a + x b + x^2 c is a + x (b + x c). */
  lemma Horner(u: int, a: int, b: int, c: int, h: int, x: int)
    requires h == b + x * c
    ensures u == a + x * b + x * x * c <==> u == a + x * h
  {
  }

  /** Reducing the coefficients of a quadratic does not change its residue. */
  lemma ModQuadratic(a: int, b: int, c: int, x: int)
    ensures (a + x * b + x * x * c) % N == (a % N + x * (b % N) + x * x * (c % N)) % N
  {
    var qa, qb, qc := a / N, b / N, c / N;
    assert a == qa * N + a % N && b == qb * N + b % N && c == qc * N + c % N;
    var low := a % N + x * (b % N) + x * x * (c % N);
    var q := qa + x * qb + x * x * qc;
    assert a + x * b + x * x * c == q * N + low by {
      assert x * b == x * (b % N) + (x * qb) * N;
      assert x * x * c == x * x * (c % N) + (x * x * qc) * N;
    }
    ModMultiple(q, low);
  }

  /** The response identity modulo n: when the inner product is congruent to the quadratic
      with integer coefficients p_j and each t_j is p_j reduced, the inner product is
      t_0 + t_1 x + t_2 x^2 reduced. */
  lemma QuadraticResidue(ip: Scalar, t0: Scalar, t1: Scalar, t2: Scalar, x: int, p0: int, p1: int, p2: int, q: int)
    requires q == p0 + x * p1 + x * x * p2 && ip == q % N
    requires t0 == p0 % N && t1 == p1 % N && t2 == p2 % N
    ensures ip == (t0 + x * t1 + x * x * t2) % N
  {
    ModQuadratic(p0, p1, p2, x);
  }

  /** The response identity for any two responses that are degree-one polynomials in x:
      when zeta is l_0 + x l_1 and eta is r_0 + x r_1 entry by entry modulo n, their inner
      product is <l_0, r_0> + x (<l_0, r_1> + <l_1, r_0>) + x^2 <l_1, r_1> modulo n. */
  lemma LinearResponses(zeta: seq<Scalar>, eta: seq<Scalar>, l0: seq<int>, l1: seq<int>, r0: seq<int>, r1: seq<int>,
                        x: int, ip: Scalar, c0: int, c1: int, c2: int, q: int)
    requires |zeta| == |eta| == |l0| == |l1| == |r0| == |r1|
    requires forall i :: 0 <= i < |zeta| ==> zeta[i] == (l0[i] + x * l1[i]) % N
    requires forall i :: 0 <= i < |eta| ==> eta[i] == (r0[i] + x * r1[i]) % N
    requires ip == InnerProduct(zeta, eta)
    requires c0 == Dot(l0, r0) && c1 == Dot(l0, r1) + Dot(l1, r0) && c2 == Dot(l1, r1)
    requires q == c0 + x * c1 + x * x * c2
    ensures ip == q % N
  {
    var le, re := Linear(l0, l1, x), Linear(r0, r1, x);
    var d := Dot(le, re);
    InnerProductCongruent(zeta, eta, le, re);
    LinearDot(l0, l1, r0, r1, x, le, re, c0, c1, c2);
    SameResidue(ip, d, q);
  }

  lemma SameResidue(ip: int, d: int, q: int)
    requires ip == d % N && d == q
    ensures ip == q % N
  {
  }

  /** The integer vector l_0 + x l_1. */
  function Linear(l0: seq<int>, l1: seq<int>, x: int): (le: seq<int>)
    requires |l0| == |l1|
    ensures |le| == |l0| && forall i :: 0 <= i < |l0| ==> le[i] == l0[i] + x * l1[i]
  {
    seq(|l0|, i requires 0 <= i < |l0| => l0[i] + x * l1[i])
  }

  /** The integer half of LinearResponses. */
  lemma LinearDot(l0: seq<int>, l1: seq<int>, r0: seq<int>, r1: seq<int>, x: int, le: seq<int>, re: seq<int>,
                  c0: int, c1: int, c2: int)
    requires |l0| == |l1| == |r0| == |r1| == |le| == |re|
    requires forall i :: 0 <= i < |le| ==> le[i] == l0[i] + x * l1[i] && re[i] == r0[i] + x * r1[i]
    requires c0 == Dot(l0, r0) && c1 == Dot(l0, r1) + Dot(l1, r0) && c2 == Dot(l1, r1)
    ensures Dot(le, re) == c0 + x * c1 + x * x * c2
  {
    var u, p0, p2 := Products(le, re), Products(l0, r0), Products(l1, r1);
    var q, q' := Products(l0, r1), Products(l1, r0);
    var p1 := Plus(q, q');
    forall i | 0 <= i < |u| ensures u[i] == p0[i] + x * p1[i] + x * x * p2[i] {
      LinearProduct(l0[i], l1[i], r0[i], r1[i], x, u[i], p0[i], p1[i], p2[i]);
    }
    QuadraticSum(u, p0, p1, p2, x);
    SumAdd(p1, q, q');
  }

  /** (a + x b)(c + x d) = ac + x (ad + bc) + x^2 bd. */
  lemma LinearProduct(a: int, b: int, c: int, d: int, x: int, u: int, p0: int, p1: int, p2: int)
    requires u == (a + x * b) * (c + x * d) && p0 == a * c && p1 == a * d + b * c && p2 == b * d
    ensures u == p0 + x * p1 + x * x * p2
  {
  }
}
