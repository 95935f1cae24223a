/** Exact integer results from two 30-bit primes: Garner reconstruction, the modular dot product and the
    dual-prime negacyclic coefficient. */
module Crt {
  import opened Division
  import opened Negacyclic
  import opened Convolution

  const Q1: int := 1073738753
  const Q2: int := 1073732609
  const M: int := 1152908312643096577

  /** b to the e. */
  function Pow(b: int, e: nat): int {
    if e == 0 then 1 else b * Pow(b, e - 1)
  }

  /** Python's three-argument pow, by repeated squaring. */
  function PowMod(b: int, e: nat, m: int): int
    requires m > 0
  {
    if e == 0 then 1 % m else
      var h := PowMod(b, e / 2, m);
      if e % 2 == 0 then h * h % m else h * h % m * b % m
  }

  lemma MulMod(x: int, y: int, m: int)
    requires m > 0
    ensures (x % m) * y % m == x * y % m
  {
    var q := x / m;
    assert x == m * q + x % m;
    assert x * y == (x % m) * y + m * (q * y);
    ModOfSum((x % m) * y, q * y, m);
  }

  lemma {:induction false} PowDouble(b: int, e: nat)
    ensures Pow(b, 2 * e) == Pow(b, e) * Pow(b, e)
    decreases e
  {
    if e > 0 {
      PowDouble(b, e - 1);
      var p := Pow(b, e - 1);
      assert Pow(b, 2 * e) == b * (b * Pow(b, 2 * (e - 1)));
      assert b * (b * (p * p)) == (b * p) * (b * p);
    }
  }

  /** Repeated squaring computes the power. */
  lemma {:induction false} PowModIsPow(b: int, e: nat, m: int)
    requires m > 0
    ensures PowMod(b, e, m) == Pow(b, e) % m
    decreases e
  {
    if e > 0 {
      var p := Pow(b, e / 2);
      PowModIsPow(b, e / 2, m);
      PowDouble(b, e / 2);
      MulMod(p, p % m, m);
      MulMod(p, p, m);
      assert (p % m) * (p % m) % m == p * p % m;
      if e % 2 == 1 {
        MulMod(p * p, b, m);
        assert Pow(b, e) == b * (p * p);
      }
    }
  }

  /** The inverse garner computes is an inverse of Q1 modulo Q2. */
  const INV: int := 894602413

  /** One squaring step of pow(b, _, m), with the quotients of its two reductions as witnesses. */
  lemma SquareStep(b: int, m: int, e: nat, r: int, e': nat, q1: int, s1: int, q2: int, s: int)
    requires m > 0 && PowMod(b, e, m) == r && e' > 0 && e == e' / 2
    requires 0 <= s1 < m && r * r == m * q1 + s1
    requires if e' % 2 == 0 then s == s1 else 0 <= s < m && s1 * b == m * q2 + s
    ensures PowMod(b, e', m) == s
  {
    ModUnique(r * r, q1, s1, m);
    if e' % 2 == 1 {
      ModUnique(s1 * b, q2, s, m);
    }
  }

  lemma SquaresTo8(b: int, m: int)
    requires b == 1073738753 && m == 1073732609 && PowMod(b, 1, m) == 6144
    ensures PowMod(b, 511, m) == 368388316
  {
    hide PowMod;
    SquareStep(b, m, 1, 6144, 3, 0, 37748736, 37748952, 1990440);
    SquareStep(b, m, 3, 1990440, 7, 3689, 851798999, 851803873, 80313590);
    SquareStep(b, m, 7, 80313590, 15, 6007336, 182268476, 182269518, 1028137966);
    SquareStep(b, m, 15, 1028137966, 31, 984479439, 586290805, 586294159, 871535334);
    SquareStep(b, m, 31, 871535334, 63, 707414333, 994406759, 994412449, 96582086);
    SquareStep(b, m, 63, 96582086, 127, 8687544, 51189100, 51189392, 975908572);
    SquareStep(b, m, 127, 975908572, 255, 886996942, 194397506, 194398618, 387615656);
    SquareStep(b, m, 255, 387615656, 511, 139928596, 319523372, 319525200, 368388316);
  }

  lemma SquaresTo16(b: int, m: int)
    requires b == 1073738753 && m == 1073732609 && PowMod(b, 511, m) == 368388316
    ensures PowMod(b, 131070, m) == 466416898
  {
    hide PowMod;
    SquareStep(b, m, 511, 368388316, 1023, 126390826, 10670822, 10670883, 63841219);
    SquareStep(b, m, 1023, 63841219, 2047, 3795825, 162848536, 162849467, 896346205);
    SquareStep(b, m, 2047, 896346205, 4095, 748264989, 355575724, 355577758, 685121550);
    SquareStep(b, m, 4095, 685121550, 8191, 437158687, 734878117, 734882322, 45530003);
    SquareStep(b, m, 8191, 45530003, 16383, 1930630, 786266339, 786270838, 97378925);
    SquareStep(b, m, 16383, 97378925, 32767, 8831486, 530028651, 530031683, 938761256);
    SquareStep(b, m, 32767, 938761256, 65535, 820756199, 861504345, 861509274, 654665919);
    SquareStep(b, m, 65535, 654665919, 131070, 399156607, 466416898, 0, 466416898);
  }

  lemma SquaresTo24(b: int, m: int)
    requires b == 1073738753 && m == 1073732609 && PowMod(b, 131070, m) == 466416898
    ensures PowMod(b, 33554143, m) == 558014514
  {
    hide PowMod;
    SquareStep(b, m, 131070, 466416898, 262141, 202606050, 74257954, 74258378, 978243160);
    SquareStep(b, m, 262141, 978243160, 524283, 891245801, 918760791, 918766048, 253974391);
    SquareStep(b, m, 524283, 253974391, 1048566, 60073607, 507670218, 0, 507670218);
    SquareStep(b, m, 1048566, 507670218, 2097133, 240030942, 649779846, 649783564, 109533562);
    SquareStep(b, m, 2097133, 109533562, 4194267, 11173732, 791781056, 791785586, 694089294);
    SquareStep(b, m, 4194267, 694089294, 8388535, 448677765, 831679551, 831684309, 1019407722);
    SquareStep(b, m, 8388535, 1019407722, 16777071, 967831371, 617352345, 617355877, 589232692);
    SquareStep(b, m, 16777071, 589232692, 33554143, 323353470, 349263634, 349265632, 558014514);
  }

  lemma SquaresTo29(b: int, m: int)
    requires b == 1073738753 && m == 1073732609 && PowMod(b, 33554143, m) == 558014514
    ensures PowMod(b, 1073732607, m) == 894602413
  {
    hide PowMod;
    SquareStep(b, m, 33554143, 558014514, 67108287, 289997896, 358065532, 358067580, 950245376);
    SquareStep(b, m, 67108287, 950245376, 134216575, 840960092, 961341348, 961346848, 951892612);
    SquareStep(b, m, 134216575, 951892612, 268433151, 843878203, 194760917, 194762031, 472947622);
    SquareStep(b, m, 268433151, 472947622, 536866303, 208319512, 30088076, 30088248, 179130196);
    SquareStep(b, m, 536866303, 179130196, 1073732607, 29884187, 1043644533, 1043650504, 894602413);
  }

  lemma FirstPower(b: int, m: int)
    requires b == 1073738753 && m == 1073732609
    ensures PowMod(b, 1, m) == 6144
  {
    assert PowMod(b, 0, m) == 1;
  }

  /** pow(Q1, Q2 - 2, Q2), by its squarings. */
  lemma InverseValue(b: int, m: int)
    requires b == Q1 && m == Q2
    ensures PowMod(b, m - 2, m) == INV
  {
    hide PowMod;
    FirstPower(b, m);
    SquaresTo8(b, m);
    SquaresTo16(b, m);
    SquaresTo24(b, m);
    SquaresTo29(b, m);
  }

  lemma InverseWorks()
    ensures Q1 * INV % Q2 == 1 && M == Q1 * Q2
  {
  }

  /** garner: the centred integer with the given residues. */
  function Garner(r1: int, r2: int): int {
    var inv := PowMod(Q1, Q2 - 2, Q2);
    var t := (r2 - r1) * inv % Q2;
    var x := r1 + Q1 * t;
    if x > M / 2 then x - M else x
  }

  /** Before centring, the reconstruction is the remainder of d modulo M. */
  lemma GarnerResidue(d: int)
    ensures d % Q1 + Q1 * ((d % Q2 - d % Q1) * INV % Q2) == d % M
  {
    var r1, r2 := d % Q1, d % Q2;
    var t := (r2 - r1) * INV % Q2;
    var u := d / Q1;
    assert d == Q1 * u + r1;
    // t is the remainder of u modulo Q2
    InverseWorks();
    var w := d / Q2;
    assert d == Q2 * w + r2;
    var h := Q1 * INV / Q2;
    assert Q1 * INV == Q2 * h + 1;
    assert r2 - r1 == Q1 * u - Q2 * w;
    TimesInverse(u, w, h);
    ModOfSum(u, u * h - w * INV, Q2);
    assert t == u % Q2;
    var v := u / Q2;
    assert u == Q2 * v + t;
    assert d == Q1 * (Q2 * v + t) + r1;
    RegroupQuotient(v, t, r1);
    ModUnique(d, v, r1 + Q1 * t, M);
  }

  lemma TimesInverse(u: int, w: int, h: int)
    requires Q1 * INV == Q2 * h + 1
    ensures (Q1 * u - Q2 * w) * INV == u + Q2 * (u * h - w * INV)
  {
    assert (Q1 * u - Q2 * w) * INV == u * (Q1 * INV) - Q2 * (w * INV);
    assert u * (Q2 * h + 1) == Q2 * (u * h) + u;
  }

  lemma RegroupQuotient(v: int, t: int, r1: int)
    ensures Q1 * (Q2 * v + t) + r1 == M * v + (r1 + Q1 * t)
  {
  }

  /** Reconstruction is exact for exactly the integers in the centred range. */
  lemma GarnerExact(d: int)
    ensures Garner(d % Q1, d % Q2) == d <==> -(M / 2) <= d <= M / 2
  {
    InverseValue(Q1, Q2);
    GarnerResidue(d);
    hide PowMod;
    var x := d % M;
    var v := d / M;
    assert d == M * v + x;
    assert M == 2 * (M / 2) + 1;
    MultipleGrows(M, v);
    MultipleGrows(M, v + 1);
    assert M * (v + 1) == M * v + M;
  }

  /** Every element reduced modulo p. */
  function Reduce(a: Vec, p: int): (r: Vec)
    requires p > 0
    ensures |r| == |a| && forall i :: 0 <= i < |a| ==> r[i] == a[i] % p
  {
    seq(|a|, i requires 0 <= i < |a| => a[i] % p)
  }

  /** Sum of products of residues, as exact_dot writes it; zip stops at the shorter argument. */
  function ResidueSum(a: Vec, b: Vec, p: int): int
    requires p > 0
  {
    if a == [] || b == [] then 0 else (a[0] % p) * (b[0] % p) + ResidueSum(a[1..], b[1..], p)
  }

  function ExactDot(a: Vec, b: Vec): int {
    Garner(ResidueSum(a, b, Q1) % Q1, ResidueSum(a, b, Q2) % Q2)
  }

  /** The plain integer dot product over the common length. */
  function PlainDot(a: Vec, b: Vec): int {
    if a == [] || b == [] then 0 else a[0] * b[0] + PlainDot(a[1..], b[1..])
  }

  lemma ProductMod(x: int, y: int, p: int)
    requires p > 0
    ensures (x % p) * (y % p) % p == x * y % p
  {
    MulMod(x, y % p, p);
    MulMod(y, x, p);
    assert x * (y % p) == (y % p) * x && y * x == x * y;
  }

  lemma SumMod(x: int, y: int, p: int)
    requires p > 0
    ensures (x + y) % p == (x % p + y % p) % p
  {
    AddMod(x, y, p);
    AddMod(y, x % p, p);
  }

  lemma {:induction false} ResidueSumMod(a: Vec, b: Vec, p: int)
    requires p > 0
    ensures ResidueSum(a, b, p) % p == PlainDot(a, b) % p
    decreases |a|
  {
    if a != [] && b != [] {
      ResidueSumMod(a[1..], b[1..], p);
      ProductMod(a[0], b[0], p);
      SumMod((a[0] % p) * (b[0] % p), ResidueSum(a[1..], b[1..], p), p);
      SumMod(a[0] * b[0], PlainDot(a[1..], b[1..]), p);
    }
  }

  /** exact_dot is the integer dot product exactly when that fits the centred range. */
  lemma ExactDotIsDot(a: Vec, b: Vec)
    ensures ExactDot(a, b) == PlainDot(a, b) <==> -(M / 2) <= PlainDot(a, b) <= M / 2
  {
    ResidueSumMod(a, b, Q1);
    ResidueSumMod(a, b, Q2);
    GarnerExact(PlainDot(a, b));
  }

  /** k reversed. */
  function Reverse(k: Vec): (r: Vec)
    ensures |r| == |k| && forall j :: 0 <= j < |k| ==> r[j] == k[|k| - 1 - j]
  {
    seq(|k|, j requires 0 <= j < |k| => k[|k| - 1 - j])
  }

  /** Coefficient N-1 of q times the reversal of k is their dot product. */
  lemma {:induction false} ReversedCoeff(q: Vec, k: Vec, i: nat)
    requires |q| == |k| > 0 && i <= |q|
    ensures Coeff(q[i..], Reverse(k), |k| - 1 - i) == PlainDot(q[i..], k[i..])
    decreases |q| - i
  {
    if i < |q| {
      ReversedCoeff(q, k, i + 1);
      assert q[i..][1..] == q[i + 1..] && k[i..][1..] == k[i + 1..];
    }
  }

  lemma {:induction false} CoeffMod(a: Vec, b: Vec, t: int, p: int)
    requires t < |b| && t - |a| >= -|b| && p > 0
    ensures Coeff(Reduce(a, p), Reduce(b, p), t) % p == Coeff(a, b, t) % p
    decreases |a|
  {
    if a != [] {
      var ra, rb := Reduce(a, p), Reduce(b, p);
      CoeffMod(a[1..], b, t - 1, p);
      assert ra[1..] == Reduce(a[1..], p);
      ExtMod(b, t, p);
      var e, f := Ext(rb, t), Ext(b, t);
      assert ra[0] * e % p == a[0] * f % p by {
        ProductMod(a[0], e, p);
        ProductMod(a[0], f, p);
        MulMod(a[0], e, p);
      }
      SumMod(ra[0] * e, Coeff(ra[1..], rb, t - 1), p);
      SumMod(a[0] * f, Coeff(a[1..], b, t - 1), p);
    }
  }

  lemma ExtMod(b: Vec, t: int, p: int)
    requires -|b| < t < |b| && p > 0
    ensures Ext(Reduce(b, p), t) % p == Ext(b, t) % p
  {
    if t < 0 {
      NegMod(b[t + |b|], p);
      assert Reduce(b, p)[t + |b|] == b[t + |b|] % p;
    } else {
      ModOfMod(b[t], p);
    }
  }

  lemma ModOfMod(x: int, p: int)
    requires p > 0
    ensures x % p % p == x % p
  {
    ModUnique(x % p, 0, x % p, p);
  }

  lemma NegMod(x: int, p: int)
    requires p > 0
    ensures -(x % p) % p == -x % p
  {
    var q := x / p;
    assert x == p * q + x % p;
    assert -x == -(x % p) + p * -q;
    ModOfSum(-(x % p), -q, p);
  }

  /** The attention dot product as the script computes it: two negacyclic coefficients and garner. */
  method NegacyclicDot(q: Vec, k: Vec) returns (d: int)
    requires |q| == |k| > 0
    ensures d == PlainDot(q, k) <==> -(M / 2) <= PlainDot(q, k) <= M / 2
  {
    hide *;
    PrimesPositive();
    var krev := Reverse(k);
    var n := |q| - 1;
    var r1 := NegconvCoeff(Reduce(q, Q1), Reduce(krev, Q1), n, Q1);
    var r2 := NegconvCoeff(Reduce(q, Q2), Reduce(krev, Q2), n, Q2);
    ReducedProduct(q, k, Q1);
    ReducedProduct(q, k, Q2);
    GarnerExact(PlainDot(q, k));
    d := Garner(r1, r2);
  }

  lemma PrimesPositive()
    ensures Q1 > 0 && Q2 > 0
  {
  }

  lemma ReducedProduct(q: Vec, k: Vec, p: int)
    requires |q| == |k| > 0 && p > 0
    ensures Mul(Reduce(q, p), Reduce(Reverse(k), p))[|q| - 1] % p == PlainDot(q, k) % p
  {
    hide *;
    var a, b, n := Reduce(q, p), Reduce(Reverse(k), p), |q| - 1;
    MulIs(a, b);
    ActCoeff(a, b, n);
    CoeffMod(q, Reverse(k), n, p);
    ReversedCoeff(q, k, 0);
    assert q[0..] == q && k[0..] == k;
  }
}
