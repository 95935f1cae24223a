/** Sums of bound vectors: the superposition does not depend on the order of summation. */
module Superposition {
  import opened Negacyclic
  import opened NoZeroDivisors
  import opened Sums

  ghost predicate Sized(bs: seq<Vec>, n: nat) {
    forall i :: 0 <= i < |bs| ==> |bs[i]| == n
  }

  /** M = 0 + bs[0] + bs[1] + ..., added from the left. */
  function Superpose(bs: seq<Vec>, n: nat): (M: Vec)
    requires forall i :: 0 <= i < |bs| ==> |bs[i]| == n
    ensures |M| == n
  {
    if bs == [] then Zero(n) else Add(Superpose(bs[..|bs| - 1], n), bs[|bs| - 1])
  }

  lemma AddSwap(u: Vec, v: Vec, w: Vec)
    requires |u| == |v| == |w|
    ensures Add(Add(u, v), w) == Add(Add(u, w), v)
  {
    hide *;
    SameVec(Add(Add(u, v), w), Add(Add(u, w), v));
  }

  /** Any summand can be added last. */
  lemma {:induction false} AddedLast(bs: seq<Vec>, n: nat, i: nat)
    requires Sized(bs, n) && i < |bs|
    ensures Superpose(bs, n) == Add(Superpose(Without(bs, i), n), bs[i])
    decreases |bs|
  {
    var init, last := bs[..|bs| - 1], bs[|bs| - 1];
    var rest := Without(bs, i);
    if i == |bs| - 1 {
      assert rest == init;
    } else {
      AddedLast(init, n, i);
      assert rest[..|rest| - 1] == Without(init, i) && rest[|rest| - 1] == last;
      AddSwap(Superpose(Without(init, i), n), bs[i], last);
    }
  }

  /** The superposition is the same for every summation order. */
  lemma {:induction false} OrderFree(bs: seq<Vec>, cs: seq<Vec>, n: nat)
    requires Sized(bs, n) && Sized(cs, n) && multiset(bs) == multiset(cs)
    ensures Superpose(bs, n) == Superpose(cs, n)
    decreases |bs|
  {
    SameLength(bs, cs);
    if bs != [] {
      var last := bs[|bs| - 1];
      assert last in multiset(bs);
      assert last in cs;
      var i :| 0 <= i < |cs| && cs[i] == last;
      SameRest(bs, |bs| - 1, cs, i);
      OrderFree(Without(bs, |bs| - 1), Without(cs, i), n);
      AddedLast(bs, n, |bs| - 1);
      AddedLast(cs, n, i);
    }
  }

  function Pick(ib: seq<Vec>, order: seq<nat>): (r: seq<Vec>)
    requires forall k :: 0 <= k < |order| ==> order[k] < |ib|
    ensures |r| == |order| && forall k :: 0 <= k < |order| ==> r[k] == ib[order[k]]
  {
    seq(|order|, k requires 0 <= k < |order| => ib[order[k]])
  }

  lemma PickWithout(ib: seq<Vec>, order: seq<nat>, i: nat)
    requires (forall k :: 0 <= k < |order| ==> order[k] < |ib|) && i < |order|
    ensures Pick(ib, Without(order, i)) == Without(Pick(ib, order), i)
  {
  }

  lemma {:induction false} PickMultiset(ib: seq<Vec>, p: seq<nat>, q: seq<nat>)
    requires forall k :: 0 <= k < |p| ==> p[k] < |ib|
    requires forall k :: 0 <= k < |q| ==> q[k] < |ib|
    requires multiset(p) == multiset(q)
    ensures multiset(Pick(ib, p)) == multiset(Pick(ib, q))
    decreases |p|
  {
    hide Without, Pick;
    SameLength(p, q);
    if p != [] {
      assert p[|p| - 1] in multiset(p);
      assert p[|p| - 1] in q;
      var i :| 0 <= i < |q| && q[i] == p[|p| - 1];
      SameRest(p, |p| - 1, q, i);
      PickMultiset(ib, Without(p, |p| - 1), Without(q, i));
      PickWithout(ib, p, |p| - 1);
      PickWithout(ib, q, i);
      WithoutMultiset(Pick(ib, p), |p| - 1);
      WithoutMultiset(Pick(ib, q), i);
    }
  }

  function Upto(n: nat): (r: seq<nat>)
    ensures |r| == n && forall k :: 0 <= k < n ==> r[k] == k
  {
    seq(n, k => k)
  }

  ghost predicate Permutation(order: seq<nat>, n: nat) {
    multiset(order) == multiset(Upto(n))
  }

  lemma PermutationInRange(order: seq<nat>, n: nat)
    requires Permutation(order, n)
    ensures |order| == n && forall k :: 0 <= k < n ==> order[k] < n
  {
    SameLength(order, Upto(n));
    forall k | 0 <= k < n ensures order[k] < n {
      assert order[k] in multiset(order);
      assert order[k] in Upto(n);
    }
  }

  /** The permuted accumulation loop gives the superposition in list order. */
  method Accumulate(ib: seq<Vec>, order: seq<nat>, n: nat) returns (acc: Vec)
    requires forall i :: 0 <= i < |ib| ==> |ib[i]| == n
    requires Permutation(order, |ib|)
    ensures acc == Superpose(ib, n)
  {
    PermutationInRange(order, |ib|);
    ghost var picked := Pick(ib, order);
    acc := Zero(n);
    for k := 0 to |order|
      invariant acc == Superpose(picked[..k], n)
    {
      assert picked[..k + 1][..k] == picked[..k];
      acc := Add(acc, ib[order[k]]);
    }
    assert picked[..|order|] == picked;
    PickMultiset(ib, order, Upto(|ib|));
    assert Pick(ib, Upto(|ib|)) == ib;
    OrderFree(picked, ib, n);
  }

  /** The inner product with a superposition is the sum of the inner products. */
  function SumOfDots(bs: seq<Vec>, x: Vec): int
    requires forall i :: 0 <= i < |bs| ==> |bs[i]| == |x|
  {
    if bs == [] then 0 else SumOfDots(bs[..|bs| - 1], x) + Dot(bs[|bs| - 1], x)
  }

  lemma {:induction false} DotOfSuperposition(bs: seq<Vec>, x: Vec)
    requires forall i :: 0 <= i < |bs| ==> |bs[i]| == |x|
    ensures Dot(Superpose(bs, |x|), x) == SumOfDots(bs, x)
    decreases |bs|
  {
    if bs == [] {
      DotZero(x);
    } else {
      var s, b := Superpose(bs[..|bs| - 1], |x|), bs[|bs| - 1];
      DotOfSuperposition(bs[..|bs| - 1], x);
      ScaleOne(s);
      DotLinear(1, s, b, x);
    }
  }

  lemma ScaleOne(s: Vec)
    ensures Scale(1, s) == s
  {
    SameVec(Scale(1, s), s);
  }

  /** Entries grow at most linearly with the number of summands. */
  lemma {:induction false} SuperposeBounded(bs: seq<Vec>, n: nat, p: nat)
    requires Sized(bs, n) && forall i :: 0 <= i < |bs| ==> Bounded(bs[i], p)
    ensures Bounded(Superpose(bs, n), |bs| * p)
    decreases |bs|
  {
    if bs != [] {
      SuperposeBounded(bs[..|bs| - 1], n, p);
      assert |bs| * p == (|bs| - 1) * p + p;
    }
  }
}
