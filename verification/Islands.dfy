/** Integer softmax, tanh and GELU on top of the fixed-point exponential. */
module Islands {
  import opened Division
  import opened FixedPoint
  import opened Sums

  lemma NonPositiveScaled(x: int, Z: int)
    requires x <= 0 < Z
    ensures x * ONE / Z <= 0
  {
    DivMono(x * ONE, 0, Z);
    ModUnique(0, 0, 0, Z);
  }

  /** A logit's distance to the largest, in fixed point. */
  function Distance(x: int, m: int, Z: int): (d: int)
    requires x <= m && Z > 0
    ensures d <= 0
  {
    NonPositiveScaled(x - m, Z);
    (x - m) * ONE / Z
  }

  /** The temperature of softmax: the distance times ONE / Z, rounded down. */
  lemma DistanceRounded(x: int, m: int, Z: int)
    requires x <= m && Z > 0
    ensures 0 <= (x - m) * ONE - Distance(x, m, Z) * Z < Z
  {
    FloorQuotient((x - m) * ONE, Z, Distance(x, m, Z));
  }

  /** The weights of softmax_int, before normalisation. */
  function SoftWeights(z: seq<int>, Z: int): (e: seq<int>)
    requires z != [] && Z > 0
    ensures |e| == |z| && forall i :: 0 <= i < |z| ==> e[i] == ExpFixed(Distance(z[i], MaxOf(z), Z))
  {
    seq(|z|, i requires 0 <= i < |z| => ExpFixed(Distance(z[i], MaxOf(z), Z)))
  }

  lemma DistanceMono(x: int, y: int, m: int, Z: int)
    requires x <= y <= m && Z > 0
    ensures Distance(x, m, Z) <= Distance(y, m, Z)
  {
    DivMono((x - m) * ONE, (y - m) * ONE, Z);
  }

  /** Weights keep the order of the logits and lie in [0, ONE]; the largest logit gets ONE. */
  lemma SoftOrder(z: seq<int>, Z: int, i: nat, j: nat)
    requires i < |z| && j < |z| && Z > 0 && z[i] <= z[j]
    ensures var e := SoftWeights(z, Z);
            && 0 <= e[i] <= e[j] <= ONE
            && (z[j] == MaxOf(z) ==> e[j] == ONE)
  {
    hide ExpFixed, MaxOf;
    var m := MaxOf(z);
    DistanceMono(z[i], z[j], m, Z);
    ExpMonotone(Distance(z[i], m, Z), Distance(z[j], m, Z));
    if z[j] == m { ModUnique(0, 0, 0, Z); }
  }

  lemma {:induction false} SumBetween(e: seq<int>, low: int, high: int)
    requires forall i :: 0 <= i < |e| ==> low <= e[i] <= high
    ensures |e| * low <= Sum(e) <= |e| * high
    decreases |e|
  {
    if e != [] {
      SumBetween(e[1..], low, high);
      assert |e| * low == (|e| - 1) * low + low && |e| * high == (|e| - 1) * high + high;
    }
  }

  /** One element that is large keeps the sum of non-negative numbers large. */
  lemma SumHolds(e: seq<int>, k: nat)
    requires k < |e| && forall i :: 0 <= i < |e| ==> 0 <= e[i]
    ensures Sum(e) >= e[k]
  {
    SumWithout(e, k);
    hide Sum;
    SumAtLeast(Without(e, k));
  }

  lemma {:induction false} SumAtLeast(e: seq<int>)
    requires forall i :: 0 <= i < |e| ==> 0 <= e[i]
    ensures Sum(e) >= 0
    decreases |e|
  {
    if e != [] { SumAtLeast(e[1..]); }
  }

  /** The normaliser is at least ONE and at most one ONE per logit. */
  lemma SoftMass(z: seq<int>, Z: int)
    requires z != [] && Z > 0
    ensures ONE <= Sum(SoftWeights(z, Z)) <= |z| * ONE
  {
    var e := SoftWeights(z, Z);
    hide SoftWeights, Sum, MaxOf;
    var k :| 0 <= k < |z| && z[k] == MaxOf(z);
    forall i | 0 <= i < |z| ensures 0 <= e[i] <= ONE { SoftOrder(z, Z, i, k); }
    SoftOrder(z, Z, k, k);
    SumBetween(e, 0, ONE);
    SumHolds(e, k);
  }

  /** Adding a constant to every logit changes nothing. */
  lemma SoftShift(z: seq<int>, Z: int, c: int)
    requires z != [] && Z > 0
    ensures SoftWeights(MapSeq(z, x => x + c), Z) == SoftWeights(z, Z)
  {
    hide MaxOf, ExpFixed, SoftWeights, Distance;
    var y := MapSeq(z, x => x + c);
    MaxShift(z, y, c);
    var e, e' := SoftWeights(z, Z), SoftWeights(y, Z);
    forall i | 0 <= i < |z| ensures e'[i] == e[i] {
      DistanceShift(z[i], MaxOf(z), Z, c);
    }
  }

  lemma DistanceShift(x: int, m: int, Z: int, c: int)
    requires x <= m && Z > 0
    ensures Distance(x + c, m + c, Z) == Distance(x, m, Z)
  {
    assert (x + c) - (m + c) == x - m;
  }

  lemma MaxShift(z: seq<int>, y: seq<int>, c: int)
    requires z != [] && |y| == |z| && forall i :: 0 <= i < |z| ==> y[i] == z[i] + c
    ensures MaxOf(y) == MaxOf(z) + c
  {
    hide MaxOf;
    var k :| 0 <= k < |z| && z[k] == MaxOf(z);
    var l :| 0 <= l < |y| && y[l] == MaxOf(y);
    assert y[k] <= MaxOf(y) && z[l] <= MaxOf(z);
  }

  /** The weights, and so the normaliser, do not depend on the order of the logits. */
  lemma SoftFree(z: seq<int>, y: seq<int>, Z: int)
    requires multiset(z) == multiset(y) && z != [] && Z > 0
    ensures y != []
    ensures multiset(SoftWeights(z, Z)) == multiset(SoftWeights(y, Z))
    ensures Sum(SoftWeights(z, Z)) == Sum(SoftWeights(y, Z))
  {
    MaxFree(z, y);
    var m := MaxOf(z);
    var f := (x: int) => if x <= m then ExpFixed(Distance(x, m, Z)) else ONE;
    MapFree(z, y, f);
    assert MapSeq(z, f) == SoftWeights(z, Z);
    assert MapSeq(y, f) == SoftWeights(y, Z);
    SumFree(SoftWeights(z, Z), SoftWeights(y, Z));
  }

  /** The quotient inside tanh. */
  function Ratio(e: int): int
    requires e >= 0
  {
    2 * e * ONE / (ONE + e)
  }

  lemma FractionMono(p: int, q: int, p': int, q': int)
    requires q > 0 && q' > 0 && p * q' <= p' * q
    ensures p / q <= p' / q'
  {
    var a, b := p / q, p' / q';
    if a > b {
      Below(p', q', b);
      Above(p, q, a);
      assert p * q' >= a * q * q' by { Multiply(a * q, p, q'); }
      assert p' * q < (b + 1) * q' * q by { MultiplyStrict(p', (b + 1) * q', q); }
      Rearrange(a, b, q, q');
    }
  }

  lemma Below(p: int, q: int, b: int)
    requires q > 0 && b == p / q
    ensures p < (b + 1) * q
  {
    assert p == q * b + p % q;
    assert (b + 1) * q == q * b + q;
  }

  lemma Above(p: int, q: int, a: int)
    requires q > 0 && a == p / q
    ensures a * q <= p
  {
    assert p == q * a + p % q;
  }

  lemma Multiply(x: int, y: int, q: int)
    requires x <= y && q > 0
    ensures x * q <= y * q
  {
  }

  lemma MultiplyStrict(x: int, y: int, q: int)
    requires x < y && q > 0
    ensures x * q < y * q
  {
  }

  lemma Rearrange(a: int, b: int, q: int, q': int)
    requires a > b && q > 0 && q' > 0
    ensures (b + 1) * q' * q <= a * q * q'
  {
    var w := q * q';
    assert (b + 1) * q' * q == (b + 1) * w && a * q * q' == a * w;
    Multiply(b + 1, a, w);
  }

  /** The quotient grows from 0 to ONE. */
  lemma RatioMono(e: int, e': int)
    requires 0 <= e <= e' <= ONE
    ensures 0 <= Ratio(e) <= Ratio(e') <= ONE
  {
    CrossMultiply(e, e');
    FractionMono(2 * e * ONE, ONE + e, 2 * e' * ONE, ONE + e');
    CrossMultiply(e', ONE);
    FractionMono(2 * e' * ONE, ONE + e', 2 * ONE * ONE, ONE + ONE);
    DivMono(0, 2 * e * ONE, ONE + e);
    ModUnique(0, 0, 0, ONE + e);
  }

  lemma CrossMultiply(e: int, e': int)
    requires 0 <= e <= e'
    ensures 2 * e * ONE * (ONE + e') <= 2 * e' * ONE * (ONE + e)
  {
    assert 2 * e * ONE * (ONE + e') == 2 * ONE * (ONE * e) + 2 * ONE * (e * e');
    assert 2 * e' * ONE * (ONE + e) == 2 * ONE * (ONE * e') + 2 * ONE * (e * e');
  }

  /** tanh_fixed. */
  function TanhFixed(t: int): int {
    var a := if t < 0 then -t else t;
    var v := ONE - Ratio(ExpSquare(a));
    if t >= 0 then v else -v
  }

  /** e^(-2a), which is in [0, ONE]. */
  function ExpSquare(a: nat): (e: int)
    ensures 0 <= e <= ONE
  {
    ExpMonotone(-(2 * a), 0);
    ExpFixed(-(2 * a))
  }

  lemma TanhZero()
    ensures TanhFixed(0) == 0
  {
    ExpMonotone(0, 0);
    assert ExpSquare(0) == ONE;
    assert Ratio(ONE) == ONE;
  }

  lemma TanhPositive(t: int, u: int)
    requires 0 <= t <= u
    ensures 0 <= TanhFixed(t) <= TanhFixed(u) <= ONE
  {
    hide ExpFixed, Ratio;
    ExpMonotone(-(2 * u), -(2 * t));
    ExpMonotone(-(2 * t), 0);
    RatioMono(ExpSquare(u), ExpSquare(t));
    RatioMono(ExpSquare(t), ONE);
  }

  /** Odd, monotone and within [-ONE, ONE]. */
  lemma TanhLaws(t: int, u: int)
    ensures TanhFixed(-t) == -TanhFixed(t)
    ensures t <= u ==> TanhFixed(t) <= TanhFixed(u)
    ensures -ONE <= TanhFixed(t) <= ONE
  {
    TanhZero();
    TanhOdd(t);
    TanhOdd(u);
    hide TanhFixed;
    if t >= 0 { TanhPositive(0, t); } else { TanhPositive(0, -t); }
    if t <= u {
      if t >= 0 {
        TanhPositive(t, u);
      } else if u <= 0 {
        TanhPositive(-u, -t);
      } else {
        TanhPositive(0, u);
      }
    }
  }

  lemma TanhOdd(t: int)
    ensures TanhFixed(-t) == -TanhFixed(t)
  {
    TanhZero();
    hide Ratio, ExpSquare;
  }

  /** A quotient rounded down. */
  lemma FloorQuotient(p: int, q: int, v: int)
    requires q > 0 && v == p / q
    ensures 0 <= p - v * q < q
  {
    Above(p, q, v);
    Below(p, q, v);
    assert (v + 1) * q == v * q + q;
  }

  lemma RatioRounded(e: nat)
    ensures 0 <= 2 * e * ONE - Ratio(e) * (ONE + e) < ONE + e
  {
    FloorQuotient(2 * e * ONE, ONE + e, Ratio(e));
  }

  /** Which tanh: with e = e^(-2t) in fixed point, tanh t is (1 - e) / (1 + e), rounded up. */
  lemma TanhQuotient(t: nat)
    ensures var e := ExpFixed(-2 * t);
            && 0 <= e <= ONE
            && 0 <= 2 * e * ONE - (ONE - TanhFixed(t)) * (ONE + e) < ONE + e
  {
    hide *;
    ExpMonotone(-2 * t, 0);
    TanhIs(t);
    RatioRounded(ExpFixed(-2 * t));
  }

  lemma TanhIs(t: nat)
    requires 0 <= ExpFixed(-2 * t)
    ensures ONE - TanhFixed(t) == Ratio(ExpFixed(-2 * t))
  {
    hide ExpFixed, Ratio;
    assert -(2 * t) == -2 * t;
  }

  const K: int := 856722024
  const A: int := 48012366

  /** The argument gelu_int passes to tanh. */
  function GeluInner(x: int): int {
    var x3 := x * x / ONE * x / ONE;
    K * (x + A * x3 / ONE) / ONE
  }

  /** One element of gelu_int, before decoding. */
  function Gelu(x: int): int {
    x / 2 * (ONE + TanhFixed(GeluInner(x))) / ONE
  }

  /** gelu_int over encoded inputs. */
  method GeluInt(xq: seq<int>, Z: int) returns (out: seq<real>)
    requires Z > 0
    ensures |out| == |xq| && forall i :: 0 <= i < |xq| ==> out[i] == Gelu(xq[i] * ONE / Z) as real / ONE as real
  {
    out := [];
    for i := 0 to |xq|
      invariant |out| == i && forall j :: 0 <= j < i ==> out[j] == Gelu(xq[j] * ONE / Z) as real / ONE as real
    {
      var x := xq[i] * ONE / Z;
      var x3 := x * x / ONE * x / ONE;
      var inner := K * (x + A * x3 / ONE) / ONE;
      out := out + [(x / 2 * (ONE + TanhFixed(inner)) / ONE) as real / ONE as real];
    }
  }

  lemma SignOfQuotient(x: int)
    ensures x >= 0 ==> x / ONE >= 0
    ensures x <= 0 ==> x / ONE <= 0
  {
  }

  lemma GeluInnerSign(x: int)
    ensures x >= 0 ==> GeluInner(x) >= 0
    ensures x <= 0 ==> GeluInner(x) <= 0
  {
    var s := x * x / ONE;
    assert x * x >= 0;
    SignOfQuotient(x * x);
    SignOfProduct(s, x);
    SignOfQuotient(s * x);
    var x3 := s * x / ONE;
    SignOfProduct(A, x3);
    SignOfQuotient(A * x3);
    var y := x + A * x3 / ONE;
    SignOfProduct(K, y);
    SignOfQuotient(K * y);
  }

  lemma SignOfProduct(s: int, x: int)
    requires s >= 0
    ensures x >= 0 ==> s * x >= 0
    ensures x <= 0 ==> s * x <= 0
  {
  }

  /** GELU lies between half its argument and the positive part of it. */
  lemma GeluBounds(x: int)
    ensures x / 2 <= Gelu(x) <= if x >= 0 then x else 0
  {
    var t := TanhFixed(GeluInner(x));
    GeluInnerSign(x);
    TanhZero();
    TanhLaws(0, GeluInner(x));
    TanhLaws(GeluInner(x), 0);
    hide TanhFixed, GeluInner;
    var h := x / 2;
    assert Gelu(x) == h * (ONE + t) / ONE by { GeluIs(x); }
    if x >= 0 {
      Product(h, h, ONE, ONE + t);
      Product(h, h, ONE + t, 2 * ONE);
      DivMono(h * ONE, h * (ONE + t), ONE);
      DivMono(h * (ONE + t), h * (2 * ONE), ONE);
    } else {
      Product(-h, -h, 0, ONE + t);
      Product(-h, -h, ONE + t, ONE);
      assert -h * (ONE + t) == -(h * (ONE + t));
      DivMono(h * ONE, h * (ONE + t), ONE);
      SignOfQuotient(h * (ONE + t));
    }
  }

  lemma GeluIs(x: int)
    ensures Gelu(x) == x / 2 * (ONE + TanhFixed(GeluInner(x))) / ONE
  {
  }

  /** A product of two numbers in fixed point, rounded down, scaled back up. */
  lemma FixedProduct(a: int, b: int)
    ensures 0 <= a * b - a * b / ONE * ONE < ONE
  {
    FloorQuotient(a * b, ONE, a * b / ONE);
  }

  /** The argument of tanh against K (x + A x^3), in units of ONE^-4: less than (|x| + 1) K A, K and 1 away for the
      three roundings of the cube, of its product with A and of the whole. */
  lemma GeluInnerNear(x: int)
    ensures var size := if x < 0 then -x else x;
            var exact := K * (x * (ONE * ONE * ONE) + A * (x * x * x));
            var error := GeluInner(x) * (ONE * ONE * ONE * ONE) - exact;
            -(K * A * (ONE * size + ONE * ONE) + K * (ONE * ONE * ONE) + ONE * ONE * ONE * ONE) < error
              <= K * A * (ONE * size)
  {
    var s := x * x / ONE;
    var x3 := s * x / ONE;
    var y := x + A * x3 / ONE;
    FixedProduct(x, x);
    FixedProduct(s, x);
    FixedProduct(A, x3);
    FixedProduct(K, y);
    InnerIs(x);
    Accumulated(x, ONE, K, A, s, x3, A * x3 / ONE, GeluInner(x));
  }

  lemma InnerIs(x: int)
    ensures var s := x * x / ONE;
            var x3 := s * x / ONE;
            GeluInner(x) == K * (x + A * x3 / ONE) / ONE
  {
  }

  lemma CubeNear(x: int, o: int, s: int, x3: int)
    requires o > 0 && 0 <= x * x - s * o < o && 0 <= s * x - x3 * o < o
    ensures var size := if x < 0 then -x else x;
            -(o * size + o * o) < x3 * (o * o) - x * x * x <= o * size
  {
    var e, f := x * x - s * o, s * x - x3 * o;
    CubeError(x, o, s, x3, e, f);
    Magnitude(e, x, o);
    Magnitude(f, o, o);
    Negated(o, x);
    Spread(x, e * x, f * o, o * x, o * o, o * if x < 0 then -x else x);
  }

  lemma Negated(o: int, x: int)
    ensures o * -x == -(o * x)
  {
  }

  lemma Spread(x: int, p: int, q: int, ox: int, oo: int, t: int)
    requires x >= 0 ==> 0 <= p <= ox && t == ox
    requires x < 0 ==> ox <= p <= 0 && t == -ox
    requires 0 <= q < oo
    ensures -(t + oo) < -p - q <= t
  {
  }

  lemma CubeError(x: int, o: int, s: int, x3: int, e: int, f: int)
    requires e == x * x - s * o && f == s * x - x3 * o
    ensures x3 * (o * o) - x * x * x == -(e * x) - f * o
  {
    calc {
      x3 * (o * o);
      (s * x - f) * o;
      (s * o) * x - f * o;
      (x * x - e) * x - f * o;
    }
  }

  lemma Magnitude(e: int, x: int, o: int)
    requires 0 <= e < o
    ensures x >= 0 ==> 0 <= e * x <= o * x
    ensures x > 0 ==> e * x < o * x
    ensures x <= 0 ==> o * x <= e * x <= 0
  {
  }

  lemma Accumulated(x: int, o: int, k: int, a: int, s: int, x3: int, z: int, inner: int)
    requires o > 0 && k > 0 && a > 0
    requires 0 <= x * x - s * o < o && 0 <= s * x - x3 * o < o
    requires 0 <= a * x3 - z * o < o && 0 <= k * (x + z) - inner * o < o
    ensures var size := if x < 0 then -x else x;
            var exact := k * (x * (o * o * o) + a * (x * x * x));
            var error := inner * (o * o * o * o) - exact;
            -(k * a * (o * size + o * o) + k * (o * o * o) + o * o * o * o) < error <= k * a * (o * size)
  {
    CubeNear(x, o, s, x3);
    var size := if x < 0 then -x else x;
    var c := x * x * x;
    var e, f, g := x3 * (o * o) - c, a * x3 - z * o, k * (x + z) - inner * o;
    InnerError(x, o, k, a, x3, z, inner, c, e, f, g);
    Between(k * a, -(o * size + o * o), e, o * size);
    Magnitude(f, o * o, o);
    Between(k, 0, f * (o * o), o * o * o);
    Magnitude(g, o * o * o, o);
    assert o * o * o * o == o * (o * o * o) && o * o * o == o * (o * o) > 0;
    Negated(k * a, o * size + o * o);
  }

  lemma Between(k: int, low: int, e: int, high: int)
    requires k >= 0 && low <= e <= high
    ensures k * low <= k * e <= k * high
  {
  }

  lemma InnerError(x: int, o: int, k: int, a: int, x3: int, z: int, inner: int, c: int, e: int, f: int, g: int)
    requires e == x3 * (o * o) - c && f == a * x3 - z * o && g == k * (x + z) - inner * o
    ensures inner * (o * o * o * o) - k * (x * (o * o * o) + a * c)
         == k * a * e - k * (f * (o * o)) - g * (o * o * o)
  {
    var o2, o3 := o * o, o * o * o;
    ScaledProduct(a, x3, z, o, f, c, e);
    calc {
      inner * (o * o * o * o);
      (inner * o) * o3;
      (k * (x + z) - g) * o3;
      k * ((x + z) * o3) - g * o3;
      k * (x * o3 + z * o3) - g * o3;
      k * (x * o3 + (a * c + a * e - f * o2)) - g * o3;
      k * (x * o3 + a * c) + k * (a * e - f * o2) - g * o3;
      k * (x * o3 + a * c) + (k * a * e - k * (f * o2)) - g * o3;
    }
  }

  lemma ScaledProduct(a: int, x3: int, z: int, o: int, f: int, c: int, e: int)
    requires e == x3 * (o * o) - c && f == a * x3 - z * o
    ensures z * (o * o * o) == a * c + a * e - f * (o * o)
  {
    var o2 := o * o;
    calc {
      z * (o * o * o);
      (z * o) * o2;
      (a * x3 - f) * o2;
      a * (x3 * o2) - f * o2;
      a * (c + e) - f * o2;
    }
  }

  /** The output is half the argument times 1 + tanh, rounded down. */
  lemma GeluRounded(x: int)
    ensures 0 <= x / 2 * (ONE + TanhFixed(GeluInner(x))) - Gelu(x) * ONE < ONE
  {
    GeluIs(x);
    FixedProduct(x / 2, ONE + TanhFixed(GeluInner(x)));
  }
}
