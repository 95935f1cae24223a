/** How far the fixed-point exponential is from the formula it rounds: every rounding step, and the polynomial as a
    whole against the exact sum of its terms. */
module ExpAccuracy {
  import opened Basics
  import opened Division
  import opened FixedPoint
  import opened Ln2

  /** The first n terms of c[0] + c[1] x + c[2] x^2 + ..., not rounded. */
  function Poly(c: seq<int>, x: real, n: nat): real
    requires n <= |c|
  {
    if n == 0 then 0.0 else Poly(c, x, n - 1) + c[n - 1] as real * Power(x, n - 1)
  }

  /** The terms from the k-th on, divided by x^k. */
  function Rest(c: seq<int>, x: real, k: nat): real
    requires k <= |c|
    decreases |c| - k
  {
    if k == |c| then 0.0 else c[k] as real + x * Rest(c, x, k + 1)
  }

  lemma {:induction false} PolySplit(c: seq<int>, x: real, k: nat)
    requires k <= |c|
    ensures Poly(c, x, |c|) == Poly(c, x, k) + Power(x, k) * Rest(c, x, k)
    decreases |c| - k
  {
    if k < |c| {
      PolySplit(c, x, k + 1);
      Regroup(Power(x, k), x, Rest(c, x, k + 1), c[k] as real);
    }
  }

  lemma Regroup(p: real, x: real, t: real, c: real)
    ensures c * p + (x * p) * t == p * (c + x * t)
  {
  }

  /** A product rounded down is less than one unit too small. */
  lemma FloorProduct(h: int, r: int, x: real)
    requires x * ONE as real == r as real
    ensures var exact := h as real * x; (h * r / ONE) as real <= exact < (h * r / ONE) as real + 1.0
  {
    var y, p := h as real * x, h * r;
    Associate(h as real, x, ONE as real);
    assert p as real == h as real * r as real;
    var q := p / ONE;
    assert q * ONE <= p < q * ONE + ONE;
    assert y * ONE as real == p as real;
  }

  lemma Associate(a: real, b: real, c: real)
    ensures a * (b * c) == (a * b) * c
  {
  }

  lemma Shrinks(x: real, e: real, b: real)
    requires 0.0 <= x <= 1.0 && 0.0 <= e <= b
    ensures 0.0 <= x * e <= b
  {
    Ln2.Product(x, 0.0, 1.0, e, 0.0, b);
  }

  lemma RestLast(x: real)
    ensures Rest(C, x, 6) == C[6] as real
  {
    assert Rest(C, x, 7) == 0.0;
  }

  function Times(x: real, t: real): real { x * t }

  function Floored(h: int, r: int): int { h * r / ONE }

  lemma RestStep(c: seq<int>, x: real, k: nat)
    requires k < |c|
    ensures Rest(c, x, k) == c[k] as real + Times(x, Rest(c, x, k + 1))
  {
  }

  lemma HornerStep(r: int, k: nat)
    requires k < 6
    ensures Horner(r, k) == Floored(Horner(r, k + 1), r) + C[k]
  {
  }

  lemma {:induction false} RestNear(r: int, x: real, k: nat)
    requires 0 <= r <= ONE && x * ONE as real == r as real && k <= 6
    ensures 0.0 <= Rest(C, x, k) - Horner(r, k) as real <= (6 - k) as real
    decreases 6 - k
  {
    assert |C| == 7;
    hide *;
    if k == 6 {
      RestLast(x);
      HornerLast(r);
    } else {
      RestNear(r, x, k + 1);
      RestStep(C, x, k);
      HornerStep(r, k);
      OneStep(r, x, Horner(r, k + 1), Rest(C, x, k + 1), C[k], 5 - k, Rest(C, x, k), Horner(r, k));
    }
  }

  lemma HornerLast(r: int)
    ensures Horner(r, 6) == C[6]
  {
  }

  lemma OneStep(r: int, x: real, h: int, t: real, c: int, n: nat, rest: real, horner: int)
    requires 0 <= r <= ONE && x * ONE as real == r as real && 0.0 <= t - h as real <= n as real
    requires rest == c as real + Times(x, t) && horner == Floored(h, r) + c
    ensures 0.0 <= rest - horner as real <= n as real + 1.0
  {
    FloorProduct(h, r, x);
    Shrinks(x, t - h as real, n as real);
    Distribute(x, t, h as real);
  }

  lemma Distribute(x: real, t: real, h: real)
    ensures x * t == h * x + x * (t - h)
  {
  }

  /** Rounding down after each of the six products loses at most six units in all. */
  lemma Exp2FracNear(r: int, x: real)
    requires 0 <= r <= ONE && x * ONE as real == r as real
    ensures Poly(C, x, 7) - 6.0 <= Exp2Frac(r) as real <= Poly(C, x, 7)
  {
    PolySplit(C, x, 0);
    RestNear(r, x, 0);
    hide Rest;
    assert |C| == 7 && Poly(C, x, 0) == 0.0 && Power(x, 0) == 1.0;
  }

  /** The octaves are the exponent times 1 / ln 2, negated and rounded up. */
  lemma OctavesRounded(d: int)
    requires d <= 0
    ensures 0 <= Octaves(d) * ONE + d * LOG2E < ONE
  {
    var q := d * LOG2E / ONE;
    assert d * LOG2E == ONE * q + d * LOG2E % ONE;
  }

  /** n octaves and a fraction r > 0 below them: half of 2^(1 - r), n times halved, rounded down. */
  lemma HalvedRounded(n: nat, r: int)
    requires 0 <= r < ONE
    ensures r > 0 ==> 0 <= Exp2Frac(ONE - r) - Halved(n * ONE + r) * Pow2(n + 1) < Pow2(n + 1)
    ensures r == 0 ==> 0 <= ONE - Halved(n * ONE + r) * Pow2(n) < Pow2(n)
  {
    hide Exp2Frac, Pow2;
    ModUnique(n * ONE + r, n, r, ONE);
    RoundsDown(Exp2Frac(ONE - r), Pow2(n + 1));
    RoundsDown(ONE, Pow2(n));
  }

  lemma RoundsDown(x: int, p: int)
    requires p > 0
    ensures 0 <= x - x / p * p < p
  {
    assert x == p * (x / p) + x % p;
  }

  /** The first n terms of e^y = 1 + y + y^2 / 2! + y^3 / 3! + ... */
  function Taylor(y: real, n: nat): real {
    if n == 0 then 0.0 else Taylor(y, n - 1) + TaylorTerm(y, n - 1)
  }

  function TaylorTerm(y: real, k: nat): real {
    Power(y, k) / Factorial(k) as real
  }

  lemma {:induction false} PowerOfProduct(a: real, b: real, y: real, k: nat)
    requires y == a * b
    ensures Power(y, k) == Power(a, k) * Power(b, k)
    decreases k
  {
    if k > 0 {
      PowerOfProduct(a, b, y, k - 1);
      var p, q := Power(a, k - 1), Power(b, k - 1);
      assert (a * b) * (p * q) == (a * p) * (b * q);
    }
  }

  lemma {:induction false} PowerInUnit(x: real, k: nat)
    requires 0.0 <= x <= 1.0
    ensures 0.0 <= Power(x, k) <= 1.0
    decreases k
  {
    if k > 0 {
      PowerInUnit(x, k - 1);
      Shrinks(x, Power(x, k - 1), 1.0);
    }
  }

  predicate Near(x: real, y: real, most: real) {
    -most <= x - y <= most
  }

  /** c is within half a unit of p * ONE / f. */
  predicate CoefficientNear(c: int, f: int, p: real) {
    -(f as real) <= 2.0 * ((c * f) as real - p * ONE as real) <= f as real
  }

  /** c * q is within half a unit of ONE * t. */
  predicate TermNear(c: int, q: real, t: real) {
    Near(c as real * q, ONE as real * t, 0.5)
  }

  lemma CoefficientIs(n: nat, k: nat)
    requires n >= 11 && k <= 6
    ensures CoefficientNear(C[k], Factorial(k), Power(LnSum(n), k))
  {
    CoefficientsAreLn2(n, k);
  }

  lemma TaylorTermIs(L: real, x: real, y: real, k: nat)
    requires y == L * x
    ensures Times(TaylorTerm(y, k), Factorial(k) as real) == Times(Power(L, k), Power(x, k))
  {
    PowerOfProduct(L, x, y, k);
    hide Power, Factorial;
    Undivided(Power(y, k), Factorial(k) as real);
  }

  lemma Undivided(x: real, f: real)
    requires f > 0.0
    ensures x / f * f == x
  {
  }

  /** One term of the polynomial is half a unit at most from that term of ONE * 2^x. */
  lemma TermsNear(x: real, y: real, n: nat, k: nat)
    requires 0.0 <= x <= 1.0 && n >= 11 && y == LnSum(n) * x && k <= 6
    ensures TermNear(C[k], Power(x, k), TaylorTerm(y, k))
  {
    assert |C| == 7;
    TaylorTermIs(LnSum(n), x, y, k);
    hide *;
    PowerInUnit(x, k);
    CoefficientIs(n, k);
    OneTermNear(C[k], Factorial(k), Power(LnSum(n), k), Power(x, k), TaylorTerm(y, k));
  }

  lemma OneTermNear(c: int, f: int, p: real, q: real, t: real)
    requires f > 0 && 0.0 <= q <= 1.0 && CoefficientNear(c, f, p) && Times(t, f as real) == Times(p, q)
    ensures TermNear(c, q, t)
  {
    assert (c * f) as real == c as real * f as real;
    ScaledTerm(c as real, f as real, p, ONE as real, q, t);
  }

  lemma ScaledTerm(c: real, f: real, p: real, one: real, q: real, t: real)
    requires f > 0.0 && 0.0 <= q <= 1.0 && -f <= 2.0 * (c * f - p * one) <= f && t * f == p * q
    ensures Near(c * q, one * t, 0.5)
  {
    var u := c * f - p * one;
    var w := u / f;
    Undivided(u, f);
    assert -f <= 2.0 * u <= f;
    Cancel(f, 2.0 * w, 1.0);
    Cancel(f, -1.0, 2.0 * w);
    Damped(w, q);
    Rewrite(c, f, p, one, q, w, t);
  }

  lemma Rewrite(c: real, f: real, p: real, one: real, q: real, w: real, t: real)
    requires f > 0.0 && w * f == c * f - p * one && t * f == p * q
    ensures c * q - one * t == q * w
  {
    var lhs := c * q - one * t;
    assert lhs * f == (c * f) * q - one * (t * f);
    assert one * (p * q) == (p * one) * q;
    assert lhs * f == (q * w) * f;
    Cancel(f, lhs, q * w);
    Cancel(f, q * w, lhs);
  }

  lemma Cancel(f: real, x: real, y: real)
    requires f > 0.0 && x * f <= y * f
    ensures x <= y
  {
  }

  lemma Damped(w: real, q: real)
    requires -1.0 <= 2.0 * w <= 1.0 && 0.0 <= q <= 1.0
    ensures -0.5 <= q * w <= 0.5
  {
    if w >= 0.0 {
      Shrinks(q, w, 0.5);
    } else {
      Shrinks(q, -w, 0.5);
      assert q * -w == -(q * w);
    }
  }

  lemma PolyNext(c: seq<int>, x: real, n: nat)
    requires n < |c|
    ensures Poly(c, x, n + 1) == Poly(c, x, n) + c[n] as real * Power(x, n)
  {
  }

  lemma TaylorNext(y: real, n: nat)
    ensures Taylor(y, n + 1) == Taylor(y, n) + TaylorTerm(y, n)
  {
  }

  lemma AddTerm(p: real, t: real, half: real, c: int, q: real, u: real)
    requires Near(p, ONE as real * t, half) && TermNear(c, q, u)
    ensures Near(p + c as real * q, ONE as real * (t + u), half + 0.5)
  {
  }

  lemma {:induction false} PolyNear(x: real, y: real, n: nat, k: nat)
    requires 0.0 <= x <= 1.0 && n >= 11 && y == LnSum(n) * x && k <= 7
    ensures Near(Poly(C, x, k), ONE as real * Taylor(y, k), k as real / 2.0)
    decreases k
  {
    assert |C| == 7;
    if k == 0 {
      assert Poly(C, x, 0) == 0.0 && Taylor(y, 0) == 0.0;
    } else {
      PolyNear(x, y, n, k - 1);
      hide *;
      TermsNear(x, y, n, k - 1);
      PolyNext(C, x, k - 1);
      TaylorNext(y, k - 1);
      AddTerm(Poly(C, x, k - 1), Taylor(y, k - 1), (k - 1) as real / 2.0, C[k - 1], Power(x, k - 1),
              TaylorTerm(y, k - 1));
    }
  }

  /** From the eighth on every term is less than an eighth of the one before. */
  lemma TermsShrink(y: real, k: nat)
    requires 0.0 <= y <= 0.7 && k >= 7
    ensures 0.0 <= TaylorTerm(y, k) && 8.0 * TaylorTerm(y, k + 1) <= TaylorTerm(y, k)
  {
    var p, f := Power(y, k), Factorial(k) as real;
    PowerBetween(y, 0.0, 0.7, k);
    assert Power(y, k + 1) == y * p && Factorial(k + 1) as real == (k + 1) as real * f;
    hide *;
    ShrinkingTerm(y, (k + 1) as real, p, f, TaylorTerm(y, k), TaylorTerm(y, k + 1));
  }

  lemma ShrinkingTerm(y: real, n: real, p: real, f: real, t: real, u: real)
    requires 0.0 <= y <= 0.7 && n >= 8.0 && p >= 0.0 && f > 0.0
    requires t == p / f && u == y * p / (n * f)
    ensures 0.0 <= t && 8.0 * u <= t
  {
    var g := n * f;
    assert g >= 8.0 * f;
    Undivided(p, f);
    Undivided(y * p, g);
    assert y * p <= p;
    assert (8.0 * u) * g <= 8.0 * p;
    assert t * g >= 8.0 * p;
    Cancel(g, 8.0 * u, t);
    Cancel(f, 0.0, t);
  }

  lemma {:induction false} TailBounded(y: real, n: nat)
    requires 0.0 <= y <= 0.7 && n >= 7
    ensures 0.0 <= TaylorTerm(y, n)
    ensures Taylor(y, 7) <= Taylor(y, n) && 7.0 * Taylor(y, n) + 8.0 * TaylorTerm(y, n) <=
            7.0 * Taylor(y, 7) + 8.0 * TaylorTerm(y, 7)
    decreases n
  {
    hide TaylorTerm;
    TermsShrink(y, n);
    if n > 7 {
      TailBounded(y, n - 1);
      TermsShrink(y, n - 1);
      TaylorNext(y, n - 1);
      hide Taylor;
    }
  }

  /** What seven terms leave out of e^y for y up to ln 2: less than 1.75e-5. */
  lemma TaylorSettles(y: real, n: nat)
    requires 0.0 <= y <= HIGH && n >= 7
    ensures Taylor(y, 7) <= Taylor(y, n) <= Taylor(y, 7) + 0.0000175
  {
    TailBounded(y, n);
    PowerBetween(y, 0.0, HIGH, 7);
    SeventhTerm();
    hide Taylor, Power;
    assert Factorial(7) == 5040 by { assert Factorial(6) == 720 by { assert Factorial(3) == 6; } }
    assert 5040.0 * TaylorTerm(y, 7) == Power(y, 7);
  }

  lemma SeventhTerm()
    ensures 8.0 * Power(HIGH, 7) <= 7.0 * 5040.0 * 0.0000175
  {
    UnfoldPowers(HIGH);
    assert Power(HIGH, 7) == HIGH * Power(HIGH, 6);
  }

  /** exp2_frac computes 2^x on [0, 1] to less than 1.8e-5: it is that close to every partial sum of the series
      e^(x ln 2) from the seventh on, with ln 2 any partial sum of its own series from the eleventh on. */
  lemma Exp2FracAccurate(r: int, x: real, y: real, n: nat, m: nat)
    requires 0 <= r <= ONE && x * ONE as real == r as real && n >= 11 && y == LnSum(n) * x && m >= 7
    ensures Near(Exp2Frac(r) as real / ONE as real, Taylor(y, m), 0.000018)
  {
    hide Near, Poly, Taylor, Exp2Frac, LnSum;
    NearSeries(x, y, n, r);
    NearThenAccurate(r, x, y, m);
  }

  lemma NearThenAccurate(r: int, x: real, y: real, m: nat)
    requires 0 <= r <= ONE && x * ONE as real == r as real && m >= 7 && 0.0 <= y <= HIGH && |C| == 7
    requires Near(Poly(C, x, 7), ONE as real * Taylor(y, 7), 3.5)
    ensures Near(Exp2Frac(r) as real / ONE as real, Taylor(y, m), 0.000018)
  {
    hide Near, Poly, Taylor, Exp2Frac;
    Exp2FracNear(r, x);
    TaylorSettles(y, m);
    Combined(Exp2Frac(r) as real, Poly(C, x, 7), Taylor(y, 7), Taylor(y, m));
  }

  lemma NearSeries(x: real, y: real, n: nat, r: int)
    requires 0 <= r <= ONE && x * ONE as real == r as real && n >= 11 && y == LnSum(n) * x
    ensures |C| == 7 && Near(Poly(C, x, 7), ONE as real * Taylor(y, 7), 3.5) && 0.0 <= y <= HIGH
  {
    assert |C| == 7 && LOW > 0.0;
    hide *;
    PolyNear(x, y, n, 7);
    NearLn2(n);
    UpToLn2(x, y, LnSum(n), r);
  }

  lemma UpToLn2(x: real, y: real, L: real, r: int)
    requires 0 <= r <= ONE && x * ONE as real == r as real && 0.0 <= L <= HIGH && y == L * x
    ensures 0.0 <= y <= HIGH
  {
    Ln2.Product(L, 0.0, HIGH, x, 0.0, 1.0);
  }

  lemma Combined(e: real, p: real, t: real, u: real)
    requires p - 6.0 <= e <= p && Near(p, ONE as real * t, 3.5) && t <= u <= t + 0.0000175
    ensures Near(e / ONE as real, u, 0.000018)
  {
  }

  /** The value on n octaves and a fraction r, brought back up by n + 1 octaves, is 2^(1 - r) up to 3.5e-5 and the bits
      the shift drops. */
  lemma HalvedAccurate(o: nat, r: int, x: real, y: real, n: nat, m: nat)
    requires 0 <= r < ONE && x * ONE as real == (ONE - r) as real && n >= 11 && y == LnSum(n) * x && m >= 7
    ensures var scaled := (Halved(o * ONE + r) * Pow2(o + 1)) as real;
            var exact := ONE as real * Taylor(y, m);
            exact - 0.000035 * ONE as real - Pow2(o + 1) as real <= scaled <= exact + 0.000035 * ONE as real
  {
    Exp2FracAccurate(ONE - r, x, y, n, m);
    HalvedRounded(o, r);
    HornerAtOne();
    assert Pow2(o + 1) == 2 * Pow2(o);
    hide Halved, Taylor, LnSum, Exp2Frac, Pow2;
    var h, p := Halved(o * ONE + r), Pow2(o);
    Doubled(h, p);
  }

  lemma Doubled(h: int, p: int)
    ensures h * (2 * p) == 2 * (h * p)
  {
  }

  /** exp_fixed(d) in full: d is g octaves below 1, rounded up to 30 fraction bits, and the value is 2^-g. */
  lemma ExpFixedAccurate(d: int, x: real, y: real, n: nat, m: nat)
    requires d <= 0 && n >= 11 && m >= 7
    requires x * ONE as real == (ONE - Octaves(d) % ONE) as real && y == LnSum(n) * x
    ensures 0 <= Octaves(d) * ONE + d * LOG2E < ONE
    ensures var p := Pow2(Octaves(d) / ONE + 1);
            var scaled, exact := (ExpFixed(d) * p) as real, ONE as real * Taylor(y, m);
            exact - 0.000035 * ONE as real - p as real <= scaled <= exact + 0.000035 * ONE as real
  {
    OctavesRounded(d);
    var g := Octaves(d);
    assert ExpFixed(d) == Halved(g);
    hide *;
    assert g == g / ONE * ONE + g % ONE;
    HalvedAccurate(g / ONE, g % ONE, x, y, n, m);
  }
}
