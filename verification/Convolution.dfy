/** The two ways the scripts compute a negacyclic product, one coefficient at a time modulo a prime and by
    folding the full linear convolution, both agree with the ring product. */
module Convolution {
  import opened Division
  import opened Negacyclic

  /** b extended below index 0 by x^N = -1. */
  function Ext(b: Vec, t: int): int
    requires -|b| < t < |b|
  {
    if t >= 0 then b[t] else -b[t + |b|]
  }

  /** Sum of a[i] * Ext(b, t - i). */
  function Coeff(a: Vec, b: Vec, t: int): int
    requires t < |b| && t - |a| >= -|b|
  {
    if a == [] then 0 else a[0] * Ext(b, t) + Coeff(a[1..], b, t - 1)
  }

  lemma {:induction false} CoeffWraps(a: Vec, b: Vec, t: int)
    requires t < 0 && t - |a| >= -|b|
    ensures Coeff(a, b, t) == -Coeff(a, b, t + |b|)
    decreases |a|
  {
    if a != [] {
      CoeffWraps(a[1..], b, t - 1);
      NegScale(a[0], Ext(b, t + |b|));
    }
  }

  /** The n-th coefficient of the ring product is the signed sum. */
  lemma {:induction false} ActCoeff(a: Vec, b: Vec, n: nat)
    requires n < |b| && |a| <= |b|
    ensures Act(a, b)[n] == Coeff(a, b, n)
    decreases |a|
  {
    ActUnfold(a, b);
    hide Act, MulX, Add, Scale;
    if a != [] {
      if n > 0 {
        ActCoeff(a[1..], b, n - 1);
      } else {
        ActCoeff(a[1..], b, |b| - 1);
        CoeffWraps(a[1..], b, -1);
      }
    }
  }

  /** negconv_coeff: coefficient n of the product, accumulated modulo a prime. */
  method NegconvCoeff(a: Vec, b: Vec, n: nat, prime: int) returns (acc: int)
    requires |a| == |b| && n < |a| && prime > 0
    ensures acc == Mul(a, b)[n] % prime
  {
    hide *;
    var N := |a|;
    acc := 0;
    ActCoeff(a, b, n);
    MulIs(a, b);
    ghost var sum := 0;
    CoeffStart(a, b, n);
    for i := 0 to N
      invariant sum + Coeff(a[i..], b, n - i) == Coeff(a, b, n)
      invariant acc == sum % prime
    {
      CoeffNext(a, b, n, i);
      var j := n - i;
      if 0 <= j < N {
        AddMod(sum, a[i] * b[j], prime);
        acc := (acc + a[i] * b[j]) % prime;
      } else {
        j := n + N - i;
        if 0 <= j < N {
          AddMod(sum, -(a[i] * b[j]), prime);
          NegScale(a[i], b[j]);
          acc := (acc - a[i] * b[j]) % prime;
        }
      }
      sum := sum + a[i] * Ext(b, n - i);
    }
    CoeffEnd(a, b, n);
  }

  lemma MulIs(a: Vec, b: Vec)
    requires |a| == |b|
    ensures Mul(a, b) == Act(a, b)
  {
  }

  lemma CoeffStart(a: Vec, b: Vec, n: nat)
    requires |a| == |b| && n < |b|
    ensures a[0..] == a
  {
  }

  lemma CoeffNext(a: Vec, b: Vec, n: nat, i: nat)
    requires |a| == |b| && n < |b| && i < |a|
    ensures Coeff(a[i..], b, n - i) == a[i] * Ext(b, n - i) + Coeff(a[i + 1..], b, n - i - 1)
    ensures Ext(b, n - i) == if i <= n then b[n - i] else -b[n + |b| - i]
  {
    assert a[i..][1..] == a[i + 1..];
  }

  lemma CoeffEnd(a: Vec, b: Vec, n: nat)
    requires |a| == |b| && n < |b|
    ensures Coeff(a[|a|..], b, n - |a|) == 0
  {
  }

  /** Reducing after every addition is reducing once. */
  lemma AddMod(s: int, x: int, p: int)
    requires p > 0
    ensures (s % p + x) % p == (s + x) % p
  {
    ModOfSum(s % p + x, s / p, p);
    assert s == p * (s / p) + s % p;
  }

  lemma ModOfSum(r: int, q: int, p: int)
    requires p > 0
    ensures (r + p * q) % p == r % p
  {
    var u := r / p;
    assert r == p * u + r % p;
    assert r + p * q == p * (u + q) + r % p;
    ModUnique(r + p * q, u + q, r % p, p);
  }

  /** b with zeros outside its index range. */
  function Or0(b: Vec, t: int): int {
    if 0 <= t < |b| then b[t] else 0
  }

  /** Coefficient t of the linear convolution. */
  function Linear(a: Vec, b: Vec, t: int): int {
    if a == [] then 0 else a[0] * Or0(b, t) + Linear(a[1..], b, t - 1)
  }

  /** Folding the top half of the linear convolution onto the bottom half, with a sign. */
  lemma {:induction false} Folded(a: Vec, b: Vec, t: int)
    requires t < |b| && t - |a| >= -|b|
    ensures Coeff(a, b, t) == Linear(a, b, t) - Linear(a, b, t + |b|)
    decreases |a|
  {
    if a != [] {
      Folded(a[1..], b, t - 1);
      assert Ext(b, t) == Or0(b, t) - Or0(b, t + |b|);
      assert a[0] * (Or0(b, t) - Or0(b, t + |b|)) == a[0] * Or0(b, t) - a[0] * Or0(b, t + |b|);
    }
  }

  lemma {:induction false} LinearEnds(a: Vec, b: Vec, t: int)
    requires t - |a| >= |b| - 1
    ensures Linear(a, b, t) == 0
    decreases |a|
  {
    if a != [] {
      LinearEnds(a[1..], b, t - 1);
    }
  }

  /** negmul_int: the full linear convolution, folded by two slice assignments. */
  method NegmulInt(a: Vec, b: Vec) returns (out: Vec)
    requires |a| == |b| > 0
    ensures out == Mul(a, b)
  {
    hide *;
    var N := |a|;
    var lin := seq(2 * N - 1, k => Linear(a, b, k));
    var buf := new int[N](k requires 0 <= k < N => lin[k]);
    for k := 0 to N - 1
      invariant forall j :: 0 <= j < k ==> buf[j] == Linear(a, b, j) - Linear(a, b, j + N)
      invariant forall j :: k <= j < N ==> buf[j] == Linear(a, b, j)
    {
      buf[k] := buf[k] - lin[N + k];
    }
    out := buf[..];
    MulIs(a, b);
    forall k: nat | k < N ensures out[k] == Act(a, b)[k] {
      ActCoeff(a, b, k);
      Folded(a, b, k);
      if k == N - 1 { LinearEnds(a, b, k + N); }
    }
    SameVec(out, Mul(a, b));
  }
}
