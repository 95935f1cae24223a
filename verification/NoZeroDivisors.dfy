/** Z[x]/(x^N + 1) has no zero divisors when N is a power of two. The proof divides by 1 - x: if a product
    is zero, one factor is divisible by 1 - x; dividing for ever makes every coefficient divisible by
    every power of two, because (1 - x)^N is even. */
module NoZeroDivisors {
  import opened Basics
  import opened Negacyclic
  import opened Sums

  lemma Pow2Exceeds(k: nat)
    ensures Pow2(k) > k
  {
    if k > 0 { Pow2Exceeds(k - 1); }
  }

  /** (1 - x) * v. */
  function D(v: Vec): (r: Vec)
    ensures |r| == |v|
  {
    Add(Scale(-1, MulX(v)), v)
  }

  lemma DAt(v: Vec, i: nat)
    requires i < |v|
    ensures D(v)[i] == v[i] - (if i == 0 then -v[|v| - 1] else v[i - 1])
  {
    hide MulX, Add, Scale;
  }

  function DPow(m: nat, v: Vec): (r: Vec)
    ensures |r| == |v|
  {
    if m == 0 then v else D(DPow(m - 1, v))
  }

  function XPow(m: nat, v: Vec): (r: Vec)
    ensures |r| == |v|
  {
    if m == 0 then v else MulX(XPow(m - 1, v))
  }

  /** The action commutes with multiplication by 1 - x. */
  lemma ActD(a: Vec, v: Vec)
    ensures Act(a, D(v)) == D(Act(a, v))
  {
    hide Act, Add, Scale, MulX;
    ActLinear(a, -1, MulX(v), v);
    ActMulX(a, v);
  }

  lemma MulD(a: Vec, b: Vec)
    requires |a| == |b|
    ensures Mul(D(a), b) == D(Mul(a, b)) && Mul(a, D(b)) == D(Mul(a, b))
  {
    hide Act, D;
    MulCommutative(D(a), b);
    MulCommutative(a, b);
    ActD(a, b);
    ActD(b, a);
    MulIsAct(a, D(b));
    MulIsAct(b, D(a));
    MulIsAct(a, b);
    MulIsAct(b, a);
  }

  lemma MulIsAct(a: Vec, b: Vec)
    requires |a| == |b|
    ensures Mul(a, b) == Act(a, b)
  {
  }

  /** 1 - x is not a zero divisor. */
  lemma DInjective(c: Vec)
    requires D(c) == Zero(|c|)
    ensures c == Zero(|c|)
  {
    if c != [] {
      var n := |c|;
      forall i: nat | i < n ensures c[i] == c[0] {
        AllEqual(c, i);
      }
      DAt(c, 0);
      hide *;
      SameVec(c, Zero(n));
    }
  }

  lemma {:induction false} AllEqual(c: Vec, i: nat)
    requires i < |c| && D(c) == Zero(|c|)
    ensures c[i] == c[0]
    decreases i
  {
    if i > 0 {
      AllEqual(c, i - 1);
      DAt(c, i);
    }
  }

  lemma {:induction false} SumLinear(k: int, u: Vec, v: Vec)
    requires |u| == |v|
    ensures Sum(Add(Scale(k, u), v)) == k * Sum(u) + Sum(v)
    decreases |u|
  {
    if u != [] {
      SumLinear(k, u[1..], v[1..]);
      assert Add(Scale(k, u), v)[1..] == Add(Scale(k, u[1..]), v[1..]);
      assert k * (u[0] + Sum(u[1..])) == k * u[0] + k * Sum(u[1..]);
    }
  }

  lemma SumShift(v: Vec)
    requires v != []
    ensures Sum(MulX(v)) == Sum(v) - 2 * v[|v| - 1]
  {
    hide *;
    var z, u := v[|v| - 1], v[..|v| - 1];
    assert v == u + [z];
    ShiftEnds(u, z, 0, []);
    SumAppend(u, [z]);
    SumAppend([-z], u);
    SumOne(z);
    SumOne(-z);
  }

  lemma {:induction false} SumZero(n: nat)
    ensures Sum(Zero(n)) == 0
    decreases n
  {
    if n > 0 {
      SumZero(n - 1);
      assert Zero(n)[1..] == Zero(n - 1);
    }
  }

  /** Evaluation at 1 is multiplicative modulo 2. */
  lemma {:induction false} SumParity(a: Vec, b: Vec)
    requires b != []
    ensures exists q :: Sum(Act(a, b)) == Sum(a) * Sum(b) + 2 * q
    decreases |a|
  {
    ActUnfold(a, b);
    if a == [] {
      SumZero(|b|);
      assert Sum(Act(a, b)) == Sum(a) * Sum(b) + 2 * 0;
    } else {
      var w := Act(a[1..], b);
      SumParity(a[1..], b);
      var q :| Sum(w) == Sum(a[1..]) * Sum(b) + 2 * q;
      hide Act, MulX, Add, Scale;
      SumLinear(a[0], b, MulX(w));
      SumShift(w);
      ParityStep(a[0], Sum(a[1..]), Sum(b), Sum(w), q, w[|w| - 1]);
    }
  }

  lemma ParityStep(x: int, rest: int, t: int, s: int, q: int, top: int)
    requires s == rest * t + 2 * q
    ensures x * t + (s - 2 * top) == (x + rest) * t + 2 * (q - top)
  {
  }

  /** Coefficients of the quotient by 1 - x: running sums from a start value. */
  function Quotient(v: Vec, start: int): (w: Vec)
    ensures |w| == |v|
  {
    if v == [] then [] else [start + v[0]] + Quotient(v[1..], start + v[0])
  }

  lemma {:induction false} QuotientAt(v: Vec, start: int, i: nat)
    requires i < |v|
    ensures Quotient(v, start)[i] == start + Sum(v[..i + 1])
    ensures Quotient(v, start)[i] == (if i == 0 then start else Quotient(v, start)[i - 1]) + v[i]
    decreases i
  {
    var head: Vec := [v[0]];
    assert v[..i + 1] == head + v[1..][..i];
    SumAppend(head, v[1..][..i]);
    SumOne(v[0]);
    if i > 0 {
      QuotientAt(v[1..], start + v[0], i - 1);
    }
  }

  lemma QuotientWorks(v: Vec, s: int, i: nat)
    requires i < |v| && Sum(v) == 2 * s
    ensures D(Quotient(v, -s))[i] == v[i]
  {
    hide *;
    var n, w := |v|, Quotient(v, -s);
    QuotientAt(v, -s, n - 1);
    assert v[..n - 1 + 1] == v;
    QuotientAt(v, -s, 0);
    QuotientAt(v, -s, i);
    DAt(w, i);
  }

  /** A vector with even coefficient sum is a multiple of 1 - x. */
  lemma DivideByD(v: Vec) returns (w: Vec)
    requires v != [] && Sum(v) % 2 == 0
    ensures |w| == |v| && D(w) == v
  {
    hide *;
    var s := Sum(v) / 2;
    w := Quotient(v, -s);
    forall i: nat | i < |v| ensures D(w)[i] == v[i] {
      QuotientWorks(v, s, i);
    }
    SameVec(D(w), v);
  }

  /** A zero product has a factor divisible by 1 - x, and the product stays zero after dividing it out. */
  lemma DivideOnce(a: Vec, b: Vec) returns (left: bool, w: Vec)
    requires |a| == |b| > 0 && Mul(a, b) == Zero(|a|)
    ensures |w| == |a| && (if left then D(w) == a && Mul(w, b) == Zero(|a|) else D(w) == b && Mul(a, w) == Zero(|a|))
  {
    hide *;
    MulIsAct(a, b);
    SumParity(a, b);
    SumZero(|a|);
    var q :| Sum(Act(a, b)) == Sum(a) * Sum(b) + 2 * q;
    OddTimesOdd(Sum(a), Sum(b), q);
    left := Sum(a) % 2 == 0;
    if left {
      w := DivideByD(a);
      MulD(w, b);
      DInjective(Mul(w, b));
    } else {
      w := DivideByD(b);
      MulD(a, w);
      DInjective(Mul(a, w));
    }
  }

  lemma OddTimesOdd(s: int, t: int, q: int)
    requires 0 == s * t + 2 * q
    ensures s % 2 == 0 || t % 2 == 0
  {
    OddProduct(s, t);
  }

  lemma OddProduct(s: int, t: int)
    ensures s % 2 == 1 && t % 2 == 1 ==> s * t % 2 == 1
  {
    var u, v, r, p := s / 2, t / 2, s % 2, t % 2;
    assert s == 2 * u + r && t == 2 * v + p;
    assert s * t == 2 * (u * t + r * v) + r * p;
  }

  lemma DPowStep(m: nat, v: Vec)
    ensures DPow(m + 1, v) == DPow(m, D(v))
  {
    hide D;
    if m > 0 {
      DPowStep(m - 1, v);
    }
  }

  /** Dividing K times in all. */
  lemma {:induction false} DivideMany(a: Vec, b: Vec, K: nat) returns (m: nat, a': Vec, l: nat, b': Vec)
    requires |a| == |b| > 0 && Mul(a, b) == Zero(|a|)
    ensures m + l == K && |a'| == |b'| == |a| && a == DPow(m, a') && b == DPow(l, b')
    ensures Mul(a', b') == Zero(|a|)
    decreases K
  {
    hide Mul, D, Zero;
    if K == 0 {
      m, a', l, b' := 0, a, 0, b;
    } else {
      var left, w;
      m, a', l, b' := DivideMany(a, b, K - 1);
      left, w := DivideOnce(a', b');
      if left {
        DPowStep(m, w);
        m, a' := m + 1, w;
      } else {
        DPowStep(l, w);
        l, b' := l + 1, w;
      }
    }
  }

  ghost predicate EvenDiff(u: Vec, v: Vec) {
    |u| == |v| && forall i :: 0 <= i < |u| ==> (u[i] - v[i]) % 2 == 0
  }

  lemma {:induction false} DPowEven(m: nat, u: Vec, v: Vec)
    requires EvenDiff(u, v)
    ensures EvenDiff(DPow(m, u), DPow(m, v))
    decreases m
  {
    hide D, EvenDiff;
    if m > 0 {
      DPowEven(m - 1, u, v);
      DEven(DPow(m - 1, u), DPow(m - 1, v));
    }
  }

  lemma DEven(u: Vec, v: Vec)
    requires EvenDiff(u, v)
    ensures EvenDiff(D(u), D(v))
  {
    hide D;
    var n := |u|;
    forall i: nat | i < n ensures (D(u)[i] - D(v)[i]) % 2 == 0 {
      DAt(u, i);
      DAt(v, i);
      var j := if i == 0 then n - 1 else i - 1;
      assert (u[i] - v[i]) % 2 == 0 && (u[j] - v[j]) % 2 == 0;
    }
  }

  lemma {:induction false} DPowPlus(m: nat, n: nat, v: Vec)
    ensures DPow(m + n, v) == DPow(m, DPow(n, v))
    decreases m
  {
    hide D;
    if m > 0 {
      DPowPlus(m - 1, n, v);
    }
  }

  lemma {:induction false} XPowPlus(m: nat, n: nat, v: Vec)
    ensures XPow(m + n, v) == XPow(m, XPow(n, v))
    decreases m
  {
    hide MulX;
    if m > 0 {
      XPowPlus(m - 1, n, v);
    }
  }

  lemma {:induction false} XPowLinear(m: nat, u: Vec, v: Vec)
    requires |u| == |v|
    ensures XPow(m, Add(Scale(1, u), v)) == Add(Scale(1, XPow(m, u)), XPow(m, v))
    decreases m
  {
    hide Add, Scale, MulX;
    if m > 0 {
      XPowLinear(m - 1, u, v);
      MulXLinear(1, XPow(m - 1, u), XPow(m - 1, v));
    }
  }

  lemma EvenTransitive(u: Vec, v: Vec, w: Vec)
    requires EvenDiff(u, v) && EvenDiff(v, w)
    ensures EvenDiff(u, w)
  {
    forall i | 0 <= i < |u| ensures (u[i] - w[i]) % 2 == 0 {
      assert u[i] - w[i] == (u[i] - v[i]) + (v[i] - w[i]);
    }
  }

  /** x^m v + v. */
  function Both(m: nat, v: Vec): (r: Vec)
    ensures |r| == |v|
  {
    Add(Scale(1, XPow(m, v)), v)
  }

  /** (1 - x)^m is 1 + x^m modulo 2, when m is a power of two. */
  lemma {:induction false} Frobenius(k: nat, v: Vec)
    ensures EvenDiff(DPow(Pow2(k), v), Both(Pow2(k), v))
    decreases k
  {
    hide *;
    PowTwoIs(k);
    if k == 0 {
      FirstFrobenius(v);
    } else {
      var m := Pow2(k - 1);
      Frobenius(k - 1, v);
      DPowPlus(m, m, v);
      DPowEven(m, DPow(m, v), Both(m, v));
      Frobenius(k - 1, Both(m, v));
      EvenTransitive(DPow(m, DPow(m, v)), DPow(m, Both(m, v)), Both(m, Both(m, v)));
      BothTwice(m, v);
      EvenTransitive(DPow(m, DPow(m, v)), Both(m, Both(m, v)), Both(m + m, v));
    }
  }

  lemma PowTwoIs(k: nat)
    ensures Pow2(0) == 1 && (k > 0 ==> Pow2(k) == Pow2(k - 1) + Pow2(k - 1))
  {
  }

  lemma FirstFrobenius(v: Vec)
    ensures EvenDiff(DPow(1, v), Both(1, v))
  {
    DPowOne(v);
    hide D, DPow, XPow, Both;
    var d, b := D(v), Both(1, v);
    forall i: nat | i < |v| ensures (d[i] - b[i]) % 2 == 0 {
      FirstAt(v, i);
    }
  }

  lemma DPowOne(v: Vec)
    ensures DPow(1, v) == D(v)
  {
    hide D;
    assert DPow(1, v) == D(DPow(0, v));
  }

  lemma FirstAt(v: Vec, i: nat)
    requires i < |v|
    ensures (D(v)[i] - Both(1, v)[i]) % 2 == 0
  {
    hide *;
    DAt(v, i);
    BothAt(1, v, i);
    XPowAt(1, v, i);
  }

  lemma BothAt(m: nat, v: Vec, i: nat)
    requires i < |v|
    ensures Both(m, v)[i] == XPow(m, v)[i] + v[i]
  {
    hide XPow;
  }

  lemma BothTwice(m: nat, v: Vec)
    ensures EvenDiff(Both(m, Both(m, v)), Both(m + m, v))
  {
    hide XPow;
    var x := XPow(m, v);
    XPowPlus(m, m, v);
    XPowLinear(m, x, v);
    var c := Both(m, v);
    assert XPow(m, c) == Add(Scale(1, XPow(m + m, v)), x);
    forall i: nat | i < |v| ensures (Both(m, c)[i] - Both(m + m, v)[i]) % 2 == 0 {
      BothAt(m, c, i);
      BothAt(m, v, i);
      BothAt(m + m, v, i);
      assert Add(Scale(1, XPow(m + m, v)), x)[i] == XPow(m + m, v)[i] + x[i];
    }
    hide Both;
  }

  /** x^N = -1. */
  lemma {:induction false} XPowAt(m: nat, v: Vec, i: nat)
    requires m <= |v| && i < |v|
    ensures XPow(m, v)[i] == if i >= m then v[i - m] else -v[i - m + |v|]
    decreases m
  {
    if m > 0 {
      if i > 0 { XPowAt(m - 1, v, i - 1); } else { XPowAt(m - 1, v, |v| - 1); }
    }
  }

  /** 1 + x^N is zero. */
  lemma FullTurn(v: Vec)
    ensures Both(|v|, v) == Zero(|v|)
  {
    hide *;
    forall i: nat | i < |v| ensures Both(|v|, v)[i] == 0 {
      BothAt(|v|, v, i);
      XPowAt(|v|, v, i);
    }
    SameVec(Both(|v|, v), Zero(|v|));
  }

  lemma EvenHalf(d: Vec, t: Vec) returns (w: Vec)
    requires EvenDiff(d, t) && t == Zero(|t|)
    ensures |w| == |d| && d == Scale(2, w)
  {
    hide Scale, Zero;
    w := seq(|d|, i requires 0 <= i < |d| => d[i] / 2);
    forall i: nat | i < |d| ensures d[i] == 2 * w[i] {
      assert (d[i] - t[i]) % 2 == 0;
    }
    SameVec(d, Scale(2, w));
  }

  /** (1 - x)^N times anything is twice something. */
  lemma HalveDPow(k: nat, v: Vec) returns (w: Vec)
    requires |v| == Pow2(k)
    ensures |w| == |v| && DPow(|v|, v) == Scale(2, w)
  {
    hide *;
    Frobenius(k, v);
    FullTurn(v);
    w := EvenHalf(DPow(|v|, v), Both(|v|, v));
  }

  lemma {:induction false} DPowScale(m: nat, k: int, v: Vec)
    ensures DPow(m, Scale(k, v)) == Scale(k, DPow(m, v))
    decreases m
  {
    hide D, Scale;
    if m > 0 {
      DPowScale(m - 1, k, v);
      DScale(k, DPow(m - 1, v));
    }
  }

  lemma DScale(k: int, v: Vec)
    ensures D(Scale(k, v)) == Scale(k, D(v))
  {
    hide *;
    var l, r, s := D(Scale(k, v)), Scale(k, D(v)), Scale(k, v);
    forall i: nat | i < |v| ensures l[i] == r[i] {
      DAt(s, i);
      DAt(v, i);
      ScaleDifference(k, v[i], if i == 0 then v[|v| - 1] else v[i - 1]);
    }
    SameVec(l, r);
  }

  lemma ScaleDifference(k: int, x: int, y: int)
    ensures k * (x - y) == k * x - k * y && k * (x + y) == k * x + k * y
  {
  }

  /** (1 - x)^(N J) times anything is divisible by 2^J. */
  lemma {:induction false} DivisibleByPowers(k: nat, J: nat, v: Vec) returns (w: Vec)
    requires |v| == Pow2(k)
    ensures |w| == |v| && DPow(|v| * J, v) == Scale(Pow2(J), w)
    decreases J
  {
    hide *;
    var n := |v|;
    if J == 0 {
      w := v;
      NoDivision(v, n);
    } else {
      var half := HalveDPow(k, v);
      w := DivisibleByPowers(k, J - 1, half);
      DPowPlus(n * (J - 1), n, v);
      StepCount(n, J);
      DPowScale(n * (J - 1), 2, half);
      PowTwoIs(J);
      ScaleTwice(2, Pow2(J - 1), w);
    }
  }

  lemma NoDivision(v: Vec, n: nat)
    ensures DPow(n * 0, v) == Scale(Pow2(0), v)
  {
    assert n * 0 == 0;
    SameVec(v, Scale(1, v));
  }

  lemma StepCount(n: nat, J: nat)
    requires J > 0
    ensures n * (J - 1) + n == n * J
  {
  }

  lemma ScaleTwice(p: int, q: int, v: Vec)
    ensures Scale(p, Scale(q, v)) == Scale(p * q, v)
  {
    hide *;
    var l, r, s := Scale(p, Scale(q, v)), Scale(p * q, v), Scale(q, v);
    forall i | 0 <= i < |v| ensures l[i] == r[i] {
      assert p * (q * v[i]) == (p * q) * v[i];
    }
    SameVec(l, r);
  }

  /** Only zero is divisible by a power of two that exceeds it. */
  lemma SmallMultiple(x: int, p: int, q: int, bound: int)
    requires x == p * q && p > bound >= 0 && x <= bound && -x <= bound
    ensures x == 0
  {
    assert q > 0 ==> p * q >= p;
    assert q < 0 ==> p * q <= -p;
  }

  ghost predicate Bounded(v: Vec, bound: int) {
    bound >= 0 && forall i :: 0 <= i < |v| ==> v[i] <= bound && -v[i] <= bound
  }

  lemma {:induction false} SomeBound(v: Vec) returns (bound: int)
    ensures Bounded(v, bound)
    decreases |v|
  {
    if v == [] {
      bound := 0;
    } else {
      var rest := SomeBound(v[1..]);
      bound := rest + (if v[0] < 0 then -v[0] else v[0]);
      forall i | 0 <= i < |v| ensures v[i] <= bound && -v[i] <= bound {
        if i > 0 { assert v[i] == v[1..][i - 1]; }
      }
    }
  }

  /** A bounded vector divisible by (1 - x) often enough is zero. */
  lemma DeepIsZero(k: nat, J: nat, v: Vec, m: nat, v': Vec)
    requires |v| == |v'| == Pow2(k) && v == DPow(m, v') && m >= |v| * J && Bounded(v, J)
    ensures v == Zero(|v|)
  {
    hide DPow, Pow2, Scale, Zero;
    var n := |v|;
    var base := DPow(m - n * J, v');
    DPowPlus(n * J, m - n * J, v');
    var w := DivisibleByPowers(k, J, base);
    forall i | 0 <= i < n ensures v[i] == 0 {
      Pow2Exceeds(J);
      SmallMultiple(v[i], Pow2(J), w[i], J);
    }
    SameVec(v, Zero(n));
  }

  /** A product of non-zero vectors is non-zero, when N is a power of two. */
  lemma ProductNonzero(k: nat, a: Vec, b: Vec)
    requires |a| == |b| == Pow2(k) && Mul(a, b) == Zero(|a|)
    ensures a == Zero(|a|) || b == Zero(|b|)
  {
    hide *;
    var n := |a|;
    var p := SomeBound(a);
    var q := SomeBound(b);
    var J := p + q;
    WiderBound(a, p, J);
    WiderBound(b, q, J);
    PowTwoPositive(k);
    var m, a', l, b' := DivideMany(a, b, 2 * (n * J));
    if m >= n * J {
      DeepIsZero(k, J, a, m, a');
    } else {
      DeepIsZero(k, J, b, l, b');
    }
  }

  lemma PowTwoPositive(k: nat)
    ensures Pow2(k) > 0
  {
  }

  lemma WiderBound(v: Vec, p: int, q: int)
    requires Bounded(v, p) && p <= q
    ensures Bounded(v, q)
  {
  }
}
