/** The 30-bit fixed-point exponential for non-positive arguments. */
module FixedPoint {
  import opened Basics
  import opened Division

  const ONE: int := 1073741824
  const LOG2E: int := 1549082005
  /** Rounded 30-bit values of (ln 2)^k / k!. */
  const C: seq<int> := [1073741824, 744261118, 257941248, 59597083, 10327387, 1431680, 165394]

  /** Arithmetic shift right. */
  function Shr(x: int, n: nat): int {
    x / Pow2(n)
  }

  /** The polynomial from coefficient k upwards, reduced after every product. */
  function Horner(r: int, k: nat): int
    requires k <= 6
    decreases 6 - k
  {
    if k == 6 then C[6] else Horner(r, k + 1) * r / ONE + C[k]
  }

  function Exp2Frac(r: int): int {
    Horner(r, 0)
  }

  /** exp2_frac. */
  method Exp2FracLoop(r: int) returns (acc: int)
    ensures acc == Exp2Frac(r)
  {
    acc := C[6];
    for k := 6 downto 0
      invariant acc == Horner(r, k)
    {
      acc := acc * r / ONE + C[k];
    }
  }

  /** 2^-g for g in 30-bit fixed point: whole octaves by shifting, the fraction by the polynomial. */
  function Halved(g: nat): int {
    var n, r := g / ONE, g % ONE;
    if r != 0 then Shr(Exp2Frac(ONE - r), n + 1) else Shr(ONE, n)
  }

  /** d in base-2 octaves, negated and rounded up. */
  function Octaves(d: int): (g: nat)
    requires d <= 0
  {
    NonPositive(d);
    -(d * LOG2E / ONE)
  }

  lemma NonPositive(d: int)
    requires d <= 0
    ensures d * LOG2E / ONE <= 0
  {
  }

  /** exp_fixed without the cutoff. */
  function ExpFixed(d: int): int
    requires d <= 0
  {
    Halved(Octaves(d))
  }

  /** exp_fixed with the clamp and the cutoff of the attention script. */
  function ExpCut(d: int): int {
    var d' := if d > 0 then 0 else d;
    var g := Octaves(d');
    if g / ONE >= 32 then 0 else Halved(g)
  }

  lemma ShrMono(x: int, y: int, n: nat)
    requires x <= y
    ensures Shr(x, n) <= Shr(y, n)
  {
    DivMono(x, y, Pow2(n));
  }

  lemma ShrStep(x: int, n: nat)
    ensures Shr(x, n + 1) == Shr(x, n) / 2
  {
    DivDiv(x, Pow2(n));
  }

  lemma {:induction false} ShrDeeper(x: int, n: nat, m: nat)
    requires x >= 0 && n <= m
    ensures 0 <= Shr(x, m) <= Shr(x, n)
    decreases m
  {
    if m > n {
      ShrDeeper(x, n, m - 1);
      ShrStep(x, m - 1);
    } else {
      DivMono(0, x, Pow2(n));
      assert 0 / Pow2(n) == 0 by { ModUnique(0, 0, 0, Pow2(n)); }
    }
  }

  lemma Product(a: int, b: int, c: int, d: int)
    requires 0 <= a <= b && 0 <= c <= d
    ensures 0 <= a * c <= b * d
  {
    assert a * c <= b * c <= b * d;
  }

  /** The polynomial is increasing on non-negative arguments. */
  lemma {:induction false} HornerMono(r: int, s: int, k: nat)
    requires 0 <= r <= s && k <= 6
    ensures C[k] <= Horner(r, k) <= Horner(s, k)
    decreases 6 - k
  {
    if k < 6 {
      HornerMono(r, s, k + 1);
      Product(Horner(r, k + 1), Horner(s, k + 1), r, s);
      DivMono(0, Horner(r, k + 1) * r, ONE);
      DivMono(Horner(r, k + 1) * r, Horner(s, k + 1) * s, ONE);
    }
  }

  lemma TimesOneOverOne(x: int)
    ensures x * ONE / ONE == x
  {
  }

  /** At 1 the polynomial is the sum of its coefficients, just below 2. */
  lemma HornerAtOne()
    ensures Exp2Frac(ONE) == 2147465734 <= 2 * ONE
  {
    assert Horner(ONE, 6) == 165394;
    TimesOneOverOne(165394);
    assert Horner(ONE, 5) == 1597074;
    TimesOneOverOne(1597074);
    assert Horner(ONE, 4) == 11924461;
    TimesOneOverOne(11924461);
    assert Horner(ONE, 3) == 71521544;
    TimesOneOverOne(71521544);
    assert Horner(ONE, 2) == 329462792;
    TimesOneOverOne(329462792);
    assert Horner(ONE, 1) == 1073723910;
    TimesOneOverOne(1073723910);
  }

  /** On [0, 1] the fractional power lies in [1, 2]. */
  lemma Exp2FracRange(r: int)
    requires 0 <= r <= ONE
    ensures ONE <= Exp2Frac(r) <= 2 * ONE
  {
    HornerMono(r, ONE, 0);
    HornerAtOne();
  }

  /** Within octave n the value lies between the two octave ends. */
  lemma HalvedBracket(g: nat)
    ensures Shr(ONE, g / ONE + 1) <= Halved(g) <= Shr(ONE, g / ONE)
  {
    hide Horner, Exp2Frac, Shr;
    var n, r := g / ONE, g % ONE;
    ShrDeeper(ONE, n, n + 1);
    if r != 0 {
      Exp2FracRange(ONE - r);
      ShrMono(ONE, Exp2Frac(ONE - r), n + 1);
      ShrMono(Exp2Frac(ONE - r), 2 * ONE, n + 1);
      DoubleShr(ONE, n);
    }
  }

  lemma DoubleShr(x: int, n: nat)
    ensures Shr(2 * x, n + 1) == Shr(x, n)
  {
    var p := Pow2(n);
    var q, t := x / p, x % p;
    assert 2 * x == (2 * p) * q + 2 * t;
    ModUnique(2 * x, q, 2 * t, 2 * p);
  }

  /** Decreasing in g, across every fraction and octave boundary. */
  lemma HalvedAntitone(g: nat, g': nat)
    requires g <= g'
    ensures Halved(g') <= Halved(g)
  {
    hide Horner, Shr;
    var n, n', r, r' := g / ONE, g' / ONE, g % ONE, g' % ONE;
    HalvedBracket(g);
    HalvedBracket(g');
    DivMono(g, g', ONE);
    if n < n' {
      ShrDeeper(ONE, n + 1, n');
    } else if r != 0 {
      HornerMono(ONE - r', ONE - r, 0);
      ShrMono(Exp2Frac(ONE - r'), Exp2Frac(ONE - r), n + 1);
    }
  }

  /** One octave further is exactly half, rounded down. */
  lemma HalvedOctave(g: nat)
    ensures Halved(g + ONE) == Halved(g) / 2
  {
    var n, r := g / ONE, g % ONE;
    ModUnique(g + ONE, n + 1, r, ONE);
    hide Exp2Frac, Shr;
    assert (g + ONE) % ONE == r;
    ShrStep(Exp2Frac(ONE - r), n + 1);
    ShrStep(ONE, n);
  }

  lemma OctavesAntitone(d: int, d': int)
    requires d <= d' <= 0
    ensures Octaves(d') <= Octaves(d)
  {
    DivMono(d * LOG2E, d' * LOG2E, ONE);
  }

  /** The exponential is monotone with values in [0, ONE], and ONE at zero. */
  lemma ExpMonotone(d: int, d': int)
    requires d <= d' <= 0
    ensures 0 <= ExpFixed(d) <= ExpFixed(d') <= ONE
    ensures ExpFixed(0) == ONE
  {
    OctavesAntitone(d, d');
    OctavesAntitone(d', 0);
    hide Halved, Octaves, Shr;
    assert Octaves(0) == 0 by { OctavesOfZero(); }
    HalvedAntitone(Octaves(d'), Octaves(d));
    HalvedAntitone(0, Octaves(d'));
    HalvedBracket(Octaves(d));
    ShrDeeper(ONE, 0, Octaves(d) / ONE + 1);
    HalvedOfZero();
  }

  lemma OctavesOfZero()
    ensures Octaves(0) == 0
  {
  }

  lemma HalvedOfZero()
    ensures Halved(0) == ONE
  {
  }

  /** The version with the cutoff agrees with the one without it wherever both are defined; positive arguments
      are clamped to zero. */
  lemma CutoffAgrees(d: int)
    ensures d <= 0 ==> ExpCut(d) == ExpFixed(d)
    ensures d > 0 ==> ExpCut(d) == ONE
  {
    OctavesOfZero();
    HalvedOfZero();
    if d <= 0 && Octaves(d) / ONE >= 32 {
      var n := Octaves(d) / ONE;
      HalvedBracket(Octaves(d));
      ShrDeeper(ONE, n, n + 1);
      ShrDeeper(ONE, 32, n);
      ShiftedOut();
    }
  }

  lemma ShiftedOut()
    ensures Shr(ONE, 32) == 0
  {
    assert Pow2(8) == 256 by { assert Pow2(4) == 16; }
    assert Pow2(16) == 65536 by { assert Pow2(12) == 4096; }
    assert Pow2(24) == 16777216 by { assert Pow2(20) == 1048576; }
    assert Pow2(32) == 4294967296 by { assert Pow2(28) == 268435456; }
    ModUnique(ONE, 0, ONE, Pow2(32));
  }
}
