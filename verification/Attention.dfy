/** Exact-integer decode attention for one head. */
module Attention {
  import opened Basics
  import opened Division
  import opened Negacyclic
  import opened Crt
  import opened FixedPoint
  import opened Islands
  import opened Sums

  /** One cached position: its encoded key and value rows. */
  datatype Entry = Entry(k: Vec, v: Vec)

  const ZSCALE: int := 16384

  /** Score of one key: the integer dot product brought down to 14 fraction bits. */
  function Logit(q: Vec, x: Entry, LD: nat): int {
    Shr(PlainDot(q, x.k) * ZSCALE, LD)
  }

  function Logits(q: Vec, cache: seq<Entry>, LD: nat): (z: seq<int>)
    ensures |z| == |cache|
  {
    MapSeq(cache, (x: Entry) => Logit(q, x, LD))
  }

  function Weight(z: int, m: int): int {
    ExpCut((z - m) * ONE / ZSCALE)
  }

  function Weights(q: Vec, cache: seq<Entry>, LD: nat): (e: seq<int>)
    requires cache != []
    ensures |e| == |cache|
  {
    var z := Logits(q, cache, LD);
    var m := MaxOf(z);
    MapSeq(z, (x: int) => Weight(x, m))
  }

  /** Column i of the values; rows shorter than that count as zero. */
  function Component(x: Entry, i: nat): int {
    if i < |x.v| then x.v[i] else 0
  }

  function Column(cache: seq<Entry>, i: nat): (c: Vec)
    ensures |c| == |cache| && forall s :: 0 <= s < |c| ==> c[s] == Component(cache[s], i)
  {
    MapSeq(cache, (x: Entry) => Component(x, i))
  }

  function Numerator(q: Vec, cache: seq<Entry>, LD: nat, i: nat): int
    requires cache != []
  {
    PlainDot(Weights(q, cache, LD), Column(cache, i))
  }

  /** Weights lie in [0, ONE], follow the order of the logits, and the best key gets ONE. */
  lemma WeightOrder(y: int, z: int, m: int)
    requires y <= z <= m
    ensures 0 <= Weight(y, m) <= Weight(z, m) <= ONE && Weight(m, m) == ONE
  {
    var a, b := (y - m) * ONE / ZSCALE, (z - m) * ONE / ZSCALE;
    DivMono((y - m) * ONE, (z - m) * ONE, ZSCALE);
    NonPositiveScaled(z - m, ZSCALE);
    CutoffAgrees(a);
    CutoffAgrees(b);
    CutoffAgrees(0);
    ExpMonotone(a, b);
    ModUnique(0, 0, 0, ZSCALE);
  }

  lemma WeightAt(q: Vec, cache: seq<Entry>, LD: nat, s: nat)
    requires s < |cache|
    ensures var z := Logits(q, cache, LD);
            Weights(q, cache, LD)[s] == Weight(z[s], MaxOf(z)) && z[s] <= MaxOf(z)
  {
    hide Weight, MaxOf, Logits;
  }

  /** A logit is the dot product with its key times 2^14, over 2^LD, rounded down. */
  lemma LogitScale(q: Vec, cache: seq<Entry>, LD: nat, s: nat)
    requires s < |cache|
    ensures var z, dot := Logits(q, cache, LD)[s], PlainDot(q, cache[s].k);
            z * Pow2(LD) <= dot * 16384 < (z + 1) * Pow2(LD)
  {
    hide PlainDot, Pow2;
    var x, p := PlainDot(q, cache[s].k) * ZSCALE, Pow2(LD);
    Quotient(x, p);
  }

  lemma Quotient(x: int, p: int)
    requires p > 0
    ensures x / p * p <= x < (x / p + 1) * p
  {
    assert x == p * (x / p) + x % p;
    assert (x / p + 1) * p == p * (x / p) + p;
  }

  lemma LogitMono(q: Vec, x: Entry, y: Entry, LD: nat)
    requires PlainDot(q, x.k) <= PlainDot(q, y.k)
    ensures Logit(q, x, LD) <= Logit(q, y, LD)
  {
    hide PlainDot;
    ShrMono(PlainDot(q, x.k) * ZSCALE, PlainDot(q, y.k) * ZSCALE, LD);
  }

  lemma LogitAt(q: Vec, cache: seq<Entry>, LD: nat, s: nat)
    requires s < |cache|
    ensures Logits(q, cache, LD)[s] == Logit(q, cache[s], LD)
  {
  }

  /** A key that matches the query better never weighs less, and one that matches best weighs ONE. */
  lemma KeyOrder(q: Vec, cache: seq<Entry>, LD: nat, s: nat, t: nat)
    requires s < |cache| && t < |cache| && PlainDot(q, cache[s].k) <= PlainDot(q, cache[t].k)
    ensures var e := Weights(q, cache, LD);
            && 0 <= e[s] <= e[t] <= ONE
            && ((forall u :: 0 <= u < |cache| ==> PlainDot(q, cache[u].k) <= PlainDot(q, cache[t].k)) ==> e[t] == ONE)
  {
    hide *;
    var z := Logits(q, cache, LD);
    LogitMono(q, cache[s], cache[t], LD);
    LogitAt(q, cache, LD, s);
    LogitAt(q, cache, LD, t);
    WeightAt(q, cache, LD, s);
    WeightAt(q, cache, LD, t);
    WeightOrder(z[s], z[t], MaxOf(z));
    if forall u :: 0 <= u < |cache| ==> PlainDot(q, cache[u].k) <= PlainDot(q, cache[t].k) {
      var u :| 0 <= u < |z| && z[u] == MaxOf(z);
      LogitAt(q, cache, LD, u);
      LogitMono(q, cache[u], cache[t], LD);
      WeightOrder(z[t], z[t], z[t]);
    }
  }

  /** The temperature: logits have 14 fraction bits, the exponential 30. */
  lemma WeightIsExp(q: Vec, cache: seq<Entry>, LD: nat, s: nat)
    requires s < |cache|
    ensures var z := Logits(q, cache, LD);
            z[s] <= MaxOf(z) && Weights(q, cache, LD)[s] == ExpFixed((z[s] - MaxOf(z)) * 65536)
  {
    WeightAt(q, cache, LD, s);
    var z := Logits(q, cache, LD);
    var d := z[s] - MaxOf(z);
    hide Weights, ExpCut, ExpFixed, MaxOf, Logits;
    assert d * ONE / ZSCALE == d * 65536 by { ModUnique(d * ONE, d * 65536, 0, ZSCALE); }
    CutoffAgrees(d * 65536);
  }

  /** Every weight is in range and the normaliser S satisfies ONE <= S <= W * ONE. */
  lemma MassBounds(q: Vec, cache: seq<Entry>, LD: nat)
    requires cache != []
    ensures forall s :: 0 <= s < |cache| ==> 0 <= Weights(q, cache, LD)[s] <= ONE
    ensures ONE <= Sum(Weights(q, cache, LD)) <= |cache| * ONE
  {
    var z, e := Logits(q, cache, LD), Weights(q, cache, LD);
    hide Weights, Weight, MaxOf, Logits, Sum;
    var k :| 0 <= k < |z| && z[k] == MaxOf(z);
    forall s | 0 <= s < |cache| ensures 0 <= e[s] <= ONE {
      WeightAt(q, cache, LD, s);
      WeightOrder(z[s], MaxOf(z), MaxOf(z));
    }
    WeightAt(q, cache, LD, k);
    WeightOrder(z[k], z[k], z[k]);
    SumBetween(e, 0, ONE);
    SumHolds(e, k);
  }

  /** A weighted sum lies between the total weight times the least and times the greatest value. */
  lemma {:induction false} DotBetween(e: Vec, c: Vec, low: int, high: int)
    requires |e| == |c|
    requires forall s :: 0 <= s < |e| ==> 0 <= e[s] && low <= c[s] <= high
    ensures Sum(e) * low <= PlainDot(e, c) <= Sum(e) * high
    decreases |e|
  {
    if e != [] {
      assert forall s :: 0 <= s < |e| - 1 ==> e[1..][s] == e[s + 1] && c[1..][s] == c[s + 1];
      DotBetween(e[1..], c[1..], low, high);
      Between(e[0], low, c[0], high);
      Distribute(e[0], Sum(e[1..]), low);
      Distribute(e[0], Sum(e[1..]), high);
    }
  }

  lemma Distribute(a: int, b: int, x: int)
    ensures (a + b) * x == a * x + b * x
  {
  }

  /** Each numerator is a convex combination, up to S, of its value column. */
  lemma NumeratorBetween(q: Vec, cache: seq<Entry>, LD: nat, i: nat, low: int, high: int)
    requires cache != [] && forall s :: 0 <= s < |cache| ==> low <= Component(cache[s], i) <= high
    ensures var S := Sum(Weights(q, cache, LD));
            S * low <= Numerator(q, cache, LD, i) <= S * high
  {
    hide Weights, Sum, PlainDot, Component;
    MassBounds(q, cache, LD);
    DotBetween(Weights(q, cache, LD), Column(cache, i), low, high);
  }

  /** With values bounded by B the numerator is at most W * ONE * B. */
  lemma NumeratorBound(q: Vec, cache: seq<Entry>, LD: nat, i: nat, B: int)
    requires cache != [] && B >= 0 && forall s :: 0 <= s < |cache| ==> -B <= Component(cache[s], i) <= B
    ensures var limit := |cache| * ONE * B; -limit <= Numerator(q, cache, LD, i) <= limit
  {
    hide Weights, Sum, Numerator, Component;
    MassBounds(q, cache, LD);
    NumeratorBetween(q, cache, LD, i, -B, B);
    Scaled(Sum(Weights(q, cache, LD)), |cache| * ONE, B);
  }

  /** While that bound fits half the modulus, the dual-prime dot product computes the numerator exactly. */
  lemma NumeratorExact(q: Vec, cache: seq<Entry>, LD: nat, i: nat, B: int)
    requires cache != [] && B >= 0 && forall s :: 0 <= s < |cache| ==> -B <= Component(cache[s], i) <= B
    requires |cache| * ONE * B <= M / 2
    ensures ExactDot(Weights(q, cache, LD), Column(cache, i)) == Numerator(q, cache, LD, i)
  {
    hide *;
    NumeratorIs(q, cache, LD, i);
    NumeratorBound(q, cache, LD, i, B);
    var limit := |cache| * ONE * B;
    assert limit <= M / 2;
    ExactDotIsDot(Weights(q, cache, LD), Column(cache, i));
  }

  lemma NumeratorIs(q: Vec, cache: seq<Entry>, LD: nat, i: nat)
    requires cache != []
    ensures Numerator(q, cache, LD, i) == PlainDot(Weights(q, cache, LD), Column(cache, i))
  {
  }

  lemma Scaled(S: int, T: int, B: int)
    requires 0 <= S <= T && B >= 0
    ensures S * B <= T * B && S * -B == -(S * B)
  {
  }

  /** One term of a numerator. */
  function Term(q: Vec, x: Entry, LD: nat, m: int, i: nat): int {
    Weight(Logit(q, x, LD), m) * Component(x, i)
  }

  lemma {:induction false} DotOfMaps(cache: seq<Entry>, f: Entry -> int, g: Entry -> int)
    ensures PlainDot(MapSeq(cache, f), MapSeq(cache, g)) == Sum(MapSeq(cache, x => f(x) * g(x)))
    decreases |cache|
  {
    if cache != [] {
      var h := (x: Entry) => f(x) * g(x);
      DotOfMaps(cache[1..], f, g);
      MapTail(cache, f);
      MapTail(cache, g);
      MapTail(cache, h);
    }
  }

  lemma MapTail(cache: seq<Entry>, f: Entry -> int)
    requires cache != []
    ensures MapSeq(cache, f) == [f(cache[0])] + MapSeq(cache[1..], f)
    ensures MapSeq(cache, f)[1..] == MapSeq(cache[1..], f)
  {
  }

  /** Weights and numerators as sums over the cache of functions of one entry. */
  lemma AsSums(q: Vec, cache: seq<Entry>, LD: nat, i: nat)
    requires cache != []
    ensures var m := MaxOf(Logits(q, cache, LD));
            && Weights(q, cache, LD) == MapSeq(cache, (x: Entry) => Weight(Logit(q, x, LD), m))
            && Numerator(q, cache, LD, i) == Sum(MapSeq(cache, (x: Entry) => Term(q, x, LD, m, i)))
  {
    hide Weight, Logit, Component, MaxOf, Sum, PlainDot;
    var m := MaxOf(Logits(q, cache, LD));
    var f := (x: Entry) => Weight(Logit(q, x, LD), m);
    var g := (x: Entry) => Component(x, i);
    assert Weights(q, cache, LD) == MapSeq(cache, f);
    assert Column(cache, i) == MapSeq(cache, g);
    DotOfMaps(cache, f, g);
    assert MapSeq(cache, x => f(x) * g(x)) == MapSeq(cache, (x: Entry) => Term(q, x, LD, m, i));
  }

  /** Permuting the cached positions changes neither S nor any numerator. */
  lemma OrderImmune(q: Vec, cache: seq<Entry>, cache': seq<Entry>, LD: nat, i: nat)
    requires cache != [] && multiset(cache) == multiset(cache')
    ensures cache' != []
    ensures Sum(Weights(q, cache, LD)) == Sum(Weights(q, cache', LD))
    ensures Numerator(q, cache, LD, i) == Numerator(q, cache', LD, i)
  {
    SameLength(cache, cache');
    var l := (x: Entry) => Logit(q, x, LD);
    MapFree(cache, cache', l);
    assert Logits(q, cache, LD) == MapSeq(cache, l) && Logits(q, cache', LD) == MapSeq(cache', l);
    hide *;
    MaxFree(Logits(q, cache, LD), Logits(q, cache', LD));
    AsSums(q, cache, LD, i);
    AsSums(q, cache', LD, i);
    var m := MaxOf(Logits(q, cache, LD));
    var f := (x: Entry) => Weight(Logit(q, x, LD), m);
    var g := (x: Entry) => Term(q, x, LD, m, i);
    MapFree(cache, cache', f);
    MapFree(cache, cache', g);
    SumFree(MapSeq(cache, f), MapSeq(cache', f));
    SumFree(MapSeq(cache, g), MapSeq(cache', g));
  }

  function Numerators(q: Vec, cache: seq<Entry>, LD: nat): (nums: seq<int>)
    requires cache != []
    ensures |nums| == |q| && forall i :: 0 <= i < |q| ==> nums[i] == Numerator(q, cache, LD, i)
  {
    seq(|q|, i requires 0 <= i < |q| => Numerator(q, cache, LD, i))
  }

  /** The largest magnitude in a list, 0 for an empty one. */
  ghost predicate MaxMagnitude(nums: seq<int>, most: int) {
    && (forall i :: 0 <= i < |nums| ==> -most <= nums[i] <= most)
    && (most == 0 || most in nums || -most in nums)
  }

  /** Undoing the scales: num / (S * DELTA). */
  function Decoded(num: int, S: int, DELTA: int): real
    requires S > 0 && DELTA > 0
  {
    Positive(S, DELTA);
    num as real / (S * DELTA) as real
  }

  lemma Positive(S: int, DELTA: int)
    requires S > 0 && DELTA > 0
    ensures S * DELTA > 0
  {
  }

  /** Every key row has the width of the query and every value row at least that; anything else raises. */
  predicate Shaped(q: Vec, cache: seq<Entry>) {
    forall s :: 0 <= s < |cache| ==> |cache[s].k| == |q| <= |cache[s].v|
  }

  /** The decoded output is a weighted average: it lies between any bounds on that component of the values, in the
      units they were encoded in. */
  lemma OutputBetween(q: Vec, cache: seq<Entry>, LD: nat, DELTA: int, i: nat, low: int, high: int)
    requires cache != [] && DELTA > 0 && i < |q| && Shaped(q, cache)
    requires forall s :: 0 <= s < |cache| ==> low <= cache[s].v[i] <= high
    ensures Sum(Weights(q, cache, LD)) > 0
    ensures var out := Decoded(Numerator(q, cache, LD, i), Sum(Weights(q, cache, LD)), DELTA);
            low as real <= out * DELTA as real <= high as real
  {
    hide Weights, Sum, Numerator, Decoded;
    MassBounds(q, cache, LD);
    NumeratorBetween(q, cache, LD, i, low, high);
    DecodedBetween(Numerator(q, cache, LD, i), Sum(Weights(q, cache, LD)), DELTA, low, high);
  }

  lemma DecodedBetween(num: int, S: int, DELTA: int, low: int, high: int)
    requires S > 0 && DELTA > 0 && S * low <= num <= S * high
    ensures low as real <= Decoded(num, S, DELTA) * DELTA as real <= high as real
  {
    var out := Decoded(num, S, DELTA);
    var s, d := S as real, DELTA as real;
    ExactQuotient(num, S, DELTA);
    assert out * d * s == num as real;
    assert s * low as real <= num as real <= s * high as real;
    Cancel(s, low as real, out * d);
    Cancel(s, out * d, high as real);
  }

  /** Decoding divides exactly. */
  lemma ExactQuotient(num: int, S: int, DELTA: int)
    requires S > 0 && DELTA > 0
    ensures Decoded(num, S, DELTA) * DELTA as real * S as real == num as real
  {
    Positive(S, DELTA);
    var p := (S * DELTA) as real;
    assert p == S as real * DELTA as real;
    Exact(num as real, p);
    assert Decoded(num, S, DELTA) * DELTA as real * S as real == Decoded(num, S, DELTA) * p;
  }

  lemma Exact(x: real, p: real)
    requires p > 0.0
    ensures x / p * p == x
  {
  }

  lemma Cancel(s: real, x: real, y: real)
    requires s > 0.0 && s * x <= y * s
    ensures x <= y
  {
  }

  /** attn_int on encoded inputs: None is the exception for an empty cache or rows of the wrong width. */
  method AttnInt(q: Vec, cache: seq<Entry>, LD: nat, DELTA: int)
    returns (out: Option<(seq<real>, int, int)>)
    requires DELTA > 0
    ensures out.None? <==>
              cache == [] || exists s :: 0 <= s < |cache| && (|cache[s].k| != |q| || |cache[s].v| < |q|)
    ensures out.Some? ==>
              var (ao, maxacc, S) := out.value;
              && S == Sum(Weights(q, cache, LD)) && S >= ONE && |ao| == |q|
              && (forall i :: 0 <= i < |q| ==> ao[i] == Decoded(Numerators(q, cache, LD)[i], S, DELTA))
              && (forall i :: 0 <= i < |q| ==> -maxacc <= Numerator(q, cache, LD, i) <= maxacc)
              && (maxacc == 0 || exists i :: 0 <= i < |q| && Numerator(q, cache, LD, i) in [maxacc, -maxacc])
  {
    if cache == [] || !Shaped(q, cache) { return None; }
    hide *;
    var e := Weights(q, cache, LD);
    var S := Sum(e);
    MassBounds(q, cache, LD);
    ghost var nums := Numerators(q, cache, LD);
    var maxacc, ao := 0, [];
    MagnitudeNone();
    for i := 0 to |q|
      invariant |ao| == i && maxacc >= 0
      invariant forall j :: 0 <= j < i ==> ao[j] == Decoded(nums[j], S, DELTA)
      invariant MaxMagnitude(nums[..i], maxacc)
    {
      NumeratorIs(q, cache, LD, i);
      var num := PlainDot(e, Column(cache, i));
      assert nums[..i + 1] == nums[..i] + [num];
      MagnitudeMore(nums[..i], maxacc, num);
      var size := if num < 0 then -num else num;
      if size > maxacc { maxacc := size; }
      ao := ao + [Decoded(num, S, DELTA)];
    }
    assert nums[..|q|] == nums;
    out := Some((ao, maxacc, S));
  }

  lemma MagnitudeNone()
    ensures MaxMagnitude([], 0)
  {
  }

  lemma MagnitudeMore(nums: seq<int>, most: int, num: int)
    requires MaxMagnitude(nums, most) && most >= 0
    ensures var size := if num < 0 then -num else num;
            MaxMagnitude(nums + [num], if size > most then size else most)
  {
    assert num in nums + [num];
  }
}
