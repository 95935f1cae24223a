/** The two rounded constants of the fixed-point GELU: sqrt(2 / pi), with pi itself given by Machin's series, and
    0.044715. */
module GeluConstants {
  import opened FixedPoint
  import opened Islands

  /** q^(2n + 1). */
  function OddPower(q: real, n: nat): (p: real)
    requires q >= 1.0
    ensures p >= 1.0
    decreases n
  {
    if n == 0 then q else AtLeastOne(q, OddPower(q, n - 1)); q * q * OddPower(q, n - 1)
  }

  lemma AtLeastOne(q: real, p: real)
    requires q >= 1.0 && p >= 1.0
    ensures q * q * p >= 1.0
  {
    assert q * q >= q;
    assert q * q * p >= p;
  }

  /** Size of term n of arctan(1/q) = 1/q - 1/(3 q^3) + 1/(5 q^5) - ... */
  function Term(q: real, n: nat): (t: real)
    requires q >= 1.0
    ensures t > 0.0
  {
    1.0 / ((2 * n + 1) as real * OddPower(q, n))
  }

  /** The first n terms. */
  function Arctan(q: real, n: nat): real
    requires q >= 1.0
  {
    if n == 0 then 0.0 else Arctan(q, n - 1) + if n % 2 == 1 then Term(q, n - 1) else -Term(q, n - 1)
  }

  /** Partial sums of pi = 16 arctan(1/5) - 4 arctan(1/239). */
  function Pi(n: nat): real {
    16.0 * Arctan(5.0, n) - 4.0 * Arctan(239.0, n)
  }

  lemma TermsShrink(q: real, n: nat)
    requires q >= 1.0
    ensures Term(q, n + 1) <= Term(q, n)
  {
    var p, a, b := OddPower(q, n), (2 * n + 1) as real, (2 * n + 3) as real;
    var p' := OddPower(q, n + 1);
    assert p' == q * q * p;
    assert p' >= p by { assert q * q >= q; assert q * q * p >= p; }
    assert a * p <= b * p';
    Reciprocals(a * p, b * p');
  }

  lemma Reciprocals(x: real, y: real)
    requires 0.0 < x <= y
    ensures 1.0 / y <= 1.0 / x
  {
  }

  /** All later sums lie between sum m and sum m + 1. */
  lemma {:induction false} ArctanSettles(q: real, m: nat, n: nat)
    requires q >= 1.0 && m <= n
    ensures m % 2 == 0 ==> Arctan(q, m) <= Arctan(q, n) <= Arctan(q, m) + Term(q, m)
    ensures m % 2 == 1 ==> Arctan(q, m) - Term(q, m) <= Arctan(q, n) <= Arctan(q, m)
    decreases n - m
  {
    hide Term;
    if m < n {
      ArctanSettles(q, m + 1, n);
      TermsShrink(q, m);
    }
  }

  lemma NextSum(q: real, n: nat, p: real, s: real)
    requires q >= 1.0 && OddPower(q, n) == p && Arctan(q, n) == s && p > 0.0
    ensures OddPower(q, n + 1) == q * q * p
    ensures Term(q, n) == 1.0 / ((2 * n + 1) as real * p)
    ensures Arctan(q, n + 1) == if n % 2 == 0 then s + Term(q, n) else s - Term(q, n)
  {
    TermIs(q, n);
    NextArctan(q, n);
    hide Term, Arctan;
  }

  lemma TermIs(q: real, n: nat)
    requires q >= 1.0
    ensures Term(q, n) == 1.0 / ((2 * n + 1) as real * OddPower(q, n))
  {
  }

  lemma NextArctan(q: real, n: nat)
    requires q >= 1.0
    ensures Arctan(q, n + 1) == if n % 2 == 0 then Arctan(q, n) + Term(q, n) else Arctan(q, n) - Term(q, n)
  {
    hide Term;
  }

  lemma FirstSum(q: real)
    requires q >= 1.0
    ensures OddPower(q, 0) == q && Arctan(q, 0) == 0.0
  {
  }

  lemma ArctanFifth()
    ensures 0.197395559849 <= Arctan(5.0, 8) && Arctan(5.0, 8) + Term(5.0, 8) <= 0.197395559850
  {
    FirstSum(5.0);
    hide *;
    NextSum(5.0, 0, 5.0, Arctan(5.0, 0));
    NextSum(5.0, 1, 125.0, Arctan(5.0, 1));
    NextSum(5.0, 2, 3125.0, Arctan(5.0, 2));
    NextSum(5.0, 3, 78125.0, Arctan(5.0, 3));
    NextSum(5.0, 4, 1953125.0, Arctan(5.0, 4));
    NextSum(5.0, 5, 48828125.0, Arctan(5.0, 5));
    NextSum(5.0, 6, 1220703125.0, Arctan(5.0, 6));
    NextSum(5.0, 7, 30517578125.0, Arctan(5.0, 7));
    NextSum(5.0, 8, 762939453125.0, Arctan(5.0, 8));
  }

  lemma ArctanSmall()
    ensures 0.0041840760018 <= Arctan(239.0, 2) && Arctan(239.0, 2) + Term(239.0, 2) <= 0.0041840760021
  {
    FirstSum(239.0);
    hide *;
    NextSum(239.0, 0, 239.0, Arctan(239.0, 0));
    NextSum(239.0, 1, 13651919.0, Arctan(239.0, 1));
    NextSum(239.0, 2, 779811265199.0, Arctan(239.0, 2));
  }

  /** Every partial sum from the eighth on is pi to ten decimals. */
  lemma NearPi(n: nat)
    requires n >= 8
    ensures 3.14159265355 <= Pi(n) <= 3.14159265365
  {
    ArctanFifth();
    ArctanSmall();
    hide Arctan, Term;
    ArctanSettles(5.0, 8, n);
    ArctanSettles(239.0, 2, n);
  }

  /** K is sqrt(2 / pi) rounded to 30 fraction bits: (K - 1/2)^2 and (K + 1/2)^2 are on the two sides of
      2 / pi * ONE^2, for every partial sum from the eighth on. */
  lemma KIsRootOfTwoOverPi(n: nat)
    requires n >= 8
    ensures ((2 * K - 1) * (2 * K - 1)) as real * Pi(n) <= (8 * ONE * ONE) as real
    ensures (8 * ONE * ONE) as real <= ((2 * K + 1) * (2 * K + 1)) as real * Pi(n)
  {
    NearPi(n);
    hide Pi;
  }

  /** A is 0.044715 rounded to 30 fraction bits. */
  lemma AIsRounded()
    ensures 2 * (A * 1000000 - 44715 * ONE) <= 1000000
    ensures 2 * (44715 * ONE - A * 1000000) <= 1000000
  {
  }
}
