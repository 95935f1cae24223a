/** The rounded constants of the fixed-point exponential against ln 2 itself, given by its series. */
module Ln2 {
  import opened FixedPoint

  /** 3^(2n + 1). */
  function Threes(n: nat): (p: real)
    ensures p > 0.0
  {
    if n == 0 then 3.0 else 9.0 * Threes(n - 1)
  }

  function Term(n: nat): real {
    2.0 / ((2 * n + 1) as real * Threes(n))
  }

  /** Partial sums of ln 2 = 2 artanh(1/3) = 2/(1 * 3) + 2/(3 * 27) + 2/(5 * 243) + ... */
  function LnSum(n: nat): real {
    if n == 0 then 0.0 else LnSum(n - 1) + Term(n - 1)
  }

  function Power(x: real, k: nat): real {
    if k == 0 then 1.0 else x * Power(x, k - 1)
  }

  function Factorial(k: nat): (f: nat)
    ensures f > 0
  {
    if k == 0 then 1 else k * Factorial(k - 1)
  }

  /** A bound on everything after term n. */
  function Tail(n: nat): real {
    2.25 / ((2 * n + 1) as real * Threes(n))
  }

  lemma TailStep(n: nat)
    ensures 0.0 <= Term(n) <= Tail(n) - Tail(n + 1)
  {
    var a, b, p := (2 * n + 1) as real, (2 * n + 3) as real, Threes(n);
    assert Threes(n + 1) == 9.0 * p;
    Quarters(a, b, p);
  }

  lemma Quarters(a: real, b: real, p: real)
    requires 0.0 < a < b && p > 0.0
    ensures 0.0 <= 2.0 / (a * p) <= 2.25 / (a * p) - 2.25 / (b * (9.0 * p))
  {
    var s, t := a * p, b * p;
    assert 0.0 < s < t;
    assert b * (9.0 * p) == 9.0 * t;
    assert 2.25 / (9.0 * t) == 0.25 / t;
    assert 1.0 / t <= 1.0 / s;
  }

  /** All later partial sums lie between sum m and sum m plus its tail bound. */
  lemma {:induction false} TailSmall(m: nat, n: nat)
    requires m <= n
    ensures LnSum(m) <= LnSum(n) <= LnSum(m) + Tail(m) - Tail(n)
    decreases n
  {
    hide Term, Tail;
    if m < n {
      TailSmall(m, n - 1);
      TailStep(n - 1);
    }
  }

  lemma NextSum(n: nat, p: real, s: real)
    requires Threes(n) == p && LnSum(n) == s
    ensures Threes(n + 1) == 9.0 * p && LnSum(n + 1) == s + 2.0 / ((2 * n + 1) as real * p)
  {
  }

  const LOW: real := 0.693147180558
  const HIGH: real := 0.69314718056

  lemma FirstSum()
    ensures Threes(0) == 3.0 && LnSum(0) == 0.0
  {
  }

  lemma TailIs(n: nat)
    ensures Tail(n) == 2.25 / ((2 * n + 1) as real * Threes(n)) >= 0.0
  {
  }

  /** Eleven terms fix ln 2 to eleven digits. */
  lemma ElevenTerms()
    ensures LOW <= LnSum(11) && LnSum(11) + Tail(11) <= HIGH
  {
    FirstSum();
    TailIs(11);
    hide *;
    NextSum(0, 3.0, LnSum(0));
    NextSum(1, 27.0, LnSum(1));
    NextSum(2, 243.0, LnSum(2));
    NextSum(3, 2187.0, LnSum(3));
    NextSum(4, 19683.0, LnSum(4));
    NextSum(5, 177147.0, LnSum(5));
    NextSum(6, 1594323.0, LnSum(6));
    NextSum(7, 14348907.0, LnSum(7));
    NextSum(8, 129140163.0, LnSum(8));
    NextSum(9, 1162261467.0, LnSum(9));
    NextSum(10, 10460353203.0, LnSum(10));
  }

  lemma Product(a: real, low: real, high: real, x: real, least: real, most: real)
    requires 0.0 <= low <= a <= high && 0.0 <= least <= x <= most
    ensures low * least <= a * x <= high * most
  {
    assert low * least <= a * least <= a * x;
    assert a * x <= high * x <= high * most;
  }

  lemma {:induction false} PowerBetween(x: real, low: real, high: real, k: nat)
    requires 0.0 <= low <= x <= high
    ensures 0.0 <= Power(low, k) <= Power(x, k) <= Power(high, k)
    decreases k
  {
    if k > 0 {
      PowerBetween(x, low, high, k - 1);
      Product(x, low, high, Power(x, k - 1), Power(low, k - 1), Power(high, k - 1));
    }
  }

  /** Every partial sum from the eleventh on is ln 2 to eleven digits. */
  lemma NearLn2(n: nat)
    requires n >= 11
    ensures LOW <= LnSum(n) <= HIGH
  {
    ElevenTerms();
    TailSmall(11, n);
    TailIs(n);
    hide LnSum, Tail;
  }

  /** The coefficients are the rounded values of (ln 2)^k / k! in units of 2^-30: half a unit away at most, for every
      partial sum of the series from the eleventh on. */
  lemma CoefficientsAreLn2(n: nat, k: nat)
    requires n >= 11 && k <= 6
    ensures var error := (C[k] * Factorial(k)) as real - Power(LnSum(n), k) * ONE as real;
            -(Factorial(k) as real) <= 2.0 * error <= Factorial(k) as real
  {
    NearLn2(n);
    Rounded(k);
    hide *;
    PowerBetween(LnSum(n), LOW, HIGH, k);
    Within((C[k] * Factorial(k)) as real, Factorial(k) as real, Power(LOW, k), Power(LnSum(n), k), Power(HIGH, k));
  }

  /** The octave factor is the rounded value of 1 / ln 2. */
  lemma OctaveFactorIsLn2(n: nat)
    requires n >= 11
    ensures -LnSum(n) <= 2.0 * (LOG2E as real * LnSum(n) - ONE as real) <= LnSum(n)
  {
    NearLn2(n);
    hide LnSum;
  }

  lemma Within(c: real, f: real, low: real, y: real, high: real)
    requires low <= y <= high && high * ONE as real - c <= f / 2.0 && c - low * ONE as real <= f / 2.0
    ensures -f <= 2.0 * (c - y * ONE as real) <= f
  {
  }

  lemma UnfoldPowers(x: real)
    ensures Power(x, 0) == 1.0 && Power(x, 1) == x && Power(x, 2) == x * x && Power(x, 3) == x * (x * x)
    ensures Power(x, 4) == x * Power(x, 3) && Power(x, 5) == x * Power(x, 4) && Power(x, 6) == x * Power(x, 5)
  {
    assert Power(x, 0) == 1.0;
    assert Power(x, 1) == x * Power(x, 0);
    assert Power(x, 2) == x * Power(x, 1);
    assert Power(x, 3) == x * Power(x, 2);
  }

  lemma Rounded(k: nat)
    requires k <= 6
    ensures Power(HIGH, k) * ONE as real - (C[k] * Factorial(k)) as real <= Factorial(k) as real / 2.0
    ensures (C[k] * Factorial(k)) as real - Power(LOW, k) * ONE as real <= Factorial(k) as real / 2.0
  {
    UnfoldPowers(HIGH);
    UnfoldPowers(LOW);
    assert Factorial(1) == 1 && Factorial(2) == 2 && Factorial(3) == 6;
    assert Factorial(4) == 24 && Factorial(5) == 120 && Factorial(6) == 720;
  }
}
