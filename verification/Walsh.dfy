/** The Walsh-Hadamard transform as a recursive function on power-of-two lengths, and its laws over the reals. */
module Walsh {
  import opened Basics

  type Row = seq<real>

  function Plus(u: Row, v: Row): (r: Row)
    requires |u| == |v|
    ensures |r| == |u| && forall i :: 0 <= i < |u| ==> r[i] == u[i] + v[i]
  {
    seq(|u|, i requires 0 <= i < |u| => u[i] + v[i])
  }

  function Minus(u: Row, v: Row): (r: Row)
    requires |u| == |v|
    ensures |r| == |u| && forall i :: 0 <= i < |u| ==> r[i] == u[i] - v[i]
  {
    seq(|u|, i requires 0 <= i < |u| => u[i] - v[i])
  }

  function Times(c: real, v: Row): (r: Row)
    ensures |r| == |v| && forall i :: 0 <= i < |v| ==> r[i] == c * v[i]
  {
    seq(|v|, i requires 0 <= i < |v| => c * v[i])
  }

  /** The transform: transform the halves, then sum and difference. */
  function Had(k: nat, s: Row): (r: Row)
    requires |s| == Pow2(k)
    ensures |r| == |s|
  {
    if k == 0 then s else
      var m := Pow2(k - 1);
      var l, h := Had(k - 1, s[..m]), Had(k - 1, s[m..]);
      Plus(l, h) + Minus(l, h)
  }

  lemma SameRow(u: Row, v: Row)
    requires |u| == |v| && forall i :: 0 <= i < |u| ==> u[i] == v[i]
    ensures u == v
  {
  }

  lemma LinearAt(c: real, a: real, b: real, d: real, e: real)
    ensures (c * a + d) + (c * b + e) == c * (a + b) + (d + e)
    ensures (c * a + d) - (c * b + e) == c * (a - b) + (d - e)
  {
  }

  lemma HalvesLinear(c: real, a: Row, b: Row, d: Row, e: Row)
    requires |a| == |b| == |d| == |e|
    ensures Plus(Plus(Times(c, a), d), Plus(Times(c, b), e)) == Plus(Times(c, Plus(a, b)), Plus(d, e))
    ensures Minus(Plus(Times(c, a), d), Plus(Times(c, b), e)) == Plus(Times(c, Minus(a, b)), Minus(d, e))
  {
    hide *;
    forall i | 0 <= i < |a|
      ensures Plus(Plus(Times(c, a), d), Plus(Times(c, b), e))[i] == Plus(Times(c, Plus(a, b)), Plus(d, e))[i]
      ensures Minus(Plus(Times(c, a), d), Plus(Times(c, b), e))[i] == Plus(Times(c, Minus(a, b)), Minus(d, e))[i]
    {
      LinearAt(c, a[i], b[i], d[i], e[i]);
    }
  }

  lemma Cut(c: real, u: Row, v: Row, m: nat)
    requires |u| == |v| && m <= |u|
    ensures Plus(Times(c, u), v)[..m] == Plus(Times(c, u[..m]), v[..m])
    ensures Plus(Times(c, u), v)[m..] == Plus(Times(c, u[m..]), v[m..])
  {
    hide *;
    SameRow(Plus(Times(c, u), v)[..m], Plus(Times(c, u[..m]), v[..m]));
    SameRow(Plus(Times(c, u), v)[m..], Plus(Times(c, u[m..]), v[m..]));
  }

  lemma Join(c: real, a: Row, b: Row, d: Row, e: Row)
    requires |a| == |d| && |b| == |e|
    ensures Plus(Times(c, a), d) + Plus(Times(c, b), e) == Plus(Times(c, a + b), d + e)
  {
    hide *;
    SameRow(Plus(Times(c, a), d) + Plus(Times(c, b), e), Plus(Times(c, a + b), d + e));
  }

  lemma HadUnfold(k: nat, s: Row)
    requires |s| == Pow2(k)
    ensures k == 0 ==> Had(k, s) == s
    ensures k > 0 ==>
              var m := Pow2(k - 1);
              && |s| == 2 * m
              && Had(k, s) ==
                   Plus(Had(k - 1, s[..m]), Had(k - 1, s[m..])) + Minus(Had(k - 1, s[..m]), Had(k - 1, s[m..]))
  {
  }

  /** The transform is linear. */
  lemma {:induction false} HadLinear(k: nat, c: real, u: Row, v: Row)
    requires |u| == |v| == Pow2(k)
    ensures Had(k, Plus(Times(c, u), v)) == Plus(Times(c, Had(k, u)), Had(k, v))
  {
    hide *;
    var w := Plus(Times(c, u), v);
    HadUnfold(k, u);
    HadUnfold(k, v);
    HadUnfold(k, w);
    if k > 0 {
      var m := Pow2(k - 1);
      Cut(c, u, v, m);
      HadLinear(k - 1, c, u[..m], v[..m]);
      HadLinear(k - 1, c, u[m..], v[m..]);
      var a, b, d, e := Had(k - 1, u[..m]), Had(k - 1, u[m..]), Had(k - 1, v[..m]), Had(k - 1, v[m..]);
      HalvesLinear(c, a, b, d, e);
      Join(c, Plus(a, b), Minus(a, b), Plus(d, e), Minus(d, e));
    }
  }

  lemma SumDifference(a: Row, b: Row)
    requires |a| == |b|
    ensures Plus(Plus(a, b), Minus(a, b)) == Times(2.0, a)
    ensures Minus(Plus(a, b), Minus(a, b)) == Times(2.0, b)
  {
    hide *;
    SameRow(Plus(Plus(a, b), Minus(a, b)), Times(2.0, a));
    SameRow(Minus(Plus(a, b), Minus(a, b)), Times(2.0, b));
  }

  lemma AsLinear(a: Row, b: Row)
    requires |a| == |b|
    ensures Plus(a, b) == Plus(Times(1.0, a), b) && Minus(a, b) == Plus(Times(-1.0, b), a)
  {
    hide *;
    SameRow(Plus(a, b), Plus(Times(1.0, a), b));
    SameRow(Minus(a, b), Plus(Times(-1.0, b), a));
  }

  lemma HadPlusMinus(k: nat, a: Row, b: Row)
    requires |a| == |b| == Pow2(k)
    ensures Had(k, Plus(a, b)) == Plus(Had(k, a), Had(k, b))
    ensures Had(k, Minus(a, b)) == Minus(Had(k, a), Had(k, b))
  {
    hide *;
    AsLinear(a, b);
    AsLinear(Had(k, a), Had(k, b));
    HadLinear(k, 1.0, a, b);
    HadLinear(k, -1.0, b, a);
  }

  lemma Doubled(n: nat, a: Row, b: Row)
    ensures Times(2.0, Times(n as real, a)) + Times(2.0, Times(n as real, b)) == Times((2 * n) as real, a + b)
  {
    hide *;
    SameRow(Times(2.0, Times(n as real, a)) + Times(2.0, Times(n as real, b)), Times((2 * n) as real, a + b));
  }

  lemma TimesOne(s: Row)
    ensures Times(1.0, s) == s
  {
    SameRow(Times(1.0, s), s);
  }

  /** Transforming twice multiplies by the length. */
  lemma {:induction false} HadTwice(k: nat, s: Row)
    requires |s| == Pow2(k)
    ensures Had(k, Had(k, s)) == Times(Pow2(k) as real, s)
  {
    hide Had, Plus, Minus, Times;
    HadUnfold(k, s);
    HadUnfold(k, Had(k, s));
    if k == 0 {
      TimesOne(s);
    } else {
      var m := Pow2(k - 1);
      var x, y := s[..m], s[m..];
      var a, b := Had(k - 1, x), Had(k - 1, y);
      assert Had(k, s)[..m] == Plus(a, b) && Had(k, s)[m..] == Minus(a, b);
      HadPlusMinus(k - 1, a, b);
      HadTwice(k - 1, x);
      HadTwice(k - 1, y);
      SumDifference(Had(k - 1, a), Had(k - 1, b));
      Doubled(m, x, y);
      assert x + y == s;
    }
  }

  /** Squared length. */
  function Energy(s: Row): real {
    if s == [] then 0.0 else s[0] * s[0] + Energy(s[1..])
  }

  lemma {:induction false} EnergyAppend(a: Row, b: Row)
    ensures Energy(a + b) == Energy(a) + Energy(b)
    decreases |a|
  {
    if a == [] {
      assert a + b == b;
    } else {
      assert (a + b)[1..] == a[1..] + b;
      EnergyAppend(a[1..], b);
    }
  }

  lemma {:induction false} Parallelogram(a: Row, b: Row)
    requires |a| == |b|
    ensures Energy(Plus(a, b)) + Energy(Minus(a, b)) == 2.0 * (Energy(a) + Energy(b))
    decreases |a|
  {
    if a != [] {
      Parallelogram(a[1..], b[1..]);
      assert Plus(a, b)[1..] == Plus(a[1..], b[1..]) && Minus(a, b)[1..] == Minus(a[1..], b[1..]);
    }
  }

  /** The transform multiplies energy by the length. */
  lemma {:induction false} HadEnergy(k: nat, s: Row)
    requires |s| == Pow2(k)
    ensures Energy(Had(k, s)) == Pow2(k) as real * Energy(s)
  {
    hide Had, Plus, Minus, Energy;
    HadUnfold(k, s);
    if k > 0 {
      var m := Pow2(k - 1);
      var x, y := s[..m], s[m..];
      var a, b := Had(k - 1, x), Had(k - 1, y);
      HadEnergy(k - 1, x);
      HadEnergy(k - 1, y);
      EnergyAppend(Plus(a, b), Minus(a, b));
      Parallelogram(a, b);
      EnergyAppend(x, y);
      assert x + y == s;
      TwiceTimes(m, Energy(x), Energy(y));
    }
  }

  lemma TwiceTimes(m: nat, x: real, y: real)
    ensures 2.0 * (m as real * x + m as real * y) == (2 * m) as real * (x + y)
  {
  }

  /** Entry (i, j) of Sylvester's matrix of order 2^k. */
  function Sylvester(k: nat, i: nat, j: nat): int
    requires i < Pow2(k) && j < Pow2(k)
  {
    if k == 0 then 1 else
      var m := Pow2(k - 1);
      var inner := Sylvester(k - 1, if i < m then i else i - m, if j < m then j else j - m);
      if i >= m && j >= m then -inner else inner
  }

  /** How many binary digits are one in both numbers. */
  function CommonOnes(i: nat, j: nat): nat {
    if i == 0 || j == 0 then 0
    else (if i % 2 == 1 && j % 2 == 1 then 1 else 0) + CommonOnes(i / 2, j / 2)
  }

  /** The highest digit counted on its own. */
  lemma {:induction false} TopDigit(k: nat, i: nat, j: nat)
    requires i < 2 * Pow2(k) && j < 2 * Pow2(k)
    ensures var m := Pow2(k);
            CommonOnes(i, j) == CommonOnes(if i < m then i else i - m, if j < m then j else j - m)
                                + if i >= m && j >= m then 1 else 0
    decreases k
  {
    var m := Pow2(k);
    if k > 0 {
      assert m == 2 * Pow2(k - 1);
      TopDigit(k - 1, i / 2, j / 2);
      Halved(i, Pow2(k - 1));
      Halved(j, Pow2(k - 1));
    }
  }

  lemma Halved(i: nat, h: nat)
    ensures i < 2 * h <==> i / 2 < h
    ensures i >= 2 * h ==> (i - 2 * h) / 2 == i / 2 - h && (i - 2 * h) % 2 == i % 2
  {
  }

  /** Digit by digit: an entry is 1 when the two indices share an even number of one bits, else -1. */
  lemma {:induction false} SylvesterSign(k: nat, i: nat, j: nat)
    requires i < Pow2(k) && j < Pow2(k)
    ensures Sylvester(k, i, j) == if CommonOnes(i, j) % 2 == 0 then 1 else -1
    decreases k
  {
    if k > 0 {
      var m := Pow2(k - 1);
      TopDigit(k - 1, i, j);
      SylvesterSign(k - 1, if i < m then i else i - m, if j < m then j else j - m);
    }
  }

  /** Row i of the matrix, from column j on, times s. */
  function RowSum(k: nat, i: nat, s: Row, j: nat): real
    requires |s| == Pow2(k) && i < Pow2(k) && j <= |s|
    decreases |s| - j
  {
    if j == |s| then 0.0 else Sylvester(k, i, j) as real * s[j] + RowSum(k, i, s, j + 1)
  }

  lemma {:induction false} UpperHalf(k: nat, i: nat, s: Row, j: nat)
    requires k > 0 && |s| == Pow2(k) && i < Pow2(k) && Pow2(k - 1) <= j <= |s|
    ensures var m := Pow2(k - 1);
            RowSum(k, i, s, j) ==
              (if i < m then RowSum(k - 1, i, s[m..], j - m) else -RowSum(k - 1, i - m, s[m..], j - m))
    decreases |s| - j
  {
    if j < |s| {
      UpperHalf(k, i, s, j + 1);
    }
  }

  lemma {:induction false} LowerHalf(k: nat, i: nat, s: Row, j: nat)
    requires k > 0 && |s| == Pow2(k) && i < Pow2(k) && j <= Pow2(k - 1)
    ensures var m := Pow2(k - 1);
            RowSum(k, i, s, j) == RowSum(k - 1, if i < m then i else i - m, s[..m], j) + RowSum(k, i, s, m)
    decreases Pow2(k - 1) - j
  {
    if j < Pow2(k - 1) {
      LowerHalf(k, i, s, j + 1);
    }
  }

  lemma JoinedAt(a: Row, b: Row, i: nat)
    requires |a| == |b| && i < 2 * |a|
    ensures (Plus(a, b) + Minus(a, b))[i] == if i < |a| then a[i] + b[i] else a[i - |a|] - b[i - |a|]
  {
    hide *;
  }

  lemma OneEntry(s: Row)
    requires |s| == 1
    ensures Had(0, s)[0] == RowSum(0, 0, s, 0)
  {
    assert RowSum(0, 0, s, 1) == 0.0;
  }

  lemma HadAt(k: nat, s: Row, i: nat)
    requires k > 0 && |s| == Pow2(k) && i < |s|
    ensures var m := Pow2(k - 1);
            i < m ==> Had(k, s)[i] == Had(k - 1, s[..m])[i] + Had(k - 1, s[m..])[i]
    ensures var m := Pow2(k - 1);
            i >= m ==> Had(k, s)[i] == Had(k - 1, s[..m])[i - m] - Had(k - 1, s[m..])[i - m]
  {
    hide *;
    HadUnfold(k, s);
    var m := Pow2(k - 1);
    JoinedAt(Had(k - 1, s[..m]), Had(k - 1, s[m..]), i);
  }

  lemma RowSumHalves(k: nat, s: Row, i: nat)
    requires k > 0 && |s| == Pow2(k) && i < |s|
    ensures var m := Pow2(k - 1);
            i < m ==> RowSum(k, i, s, 0) == RowSum(k - 1, i, s[..m], 0) + RowSum(k - 1, i, s[m..], 0)
    ensures var m := Pow2(k - 1);
            i >= m ==> RowSum(k, i, s, 0) == RowSum(k - 1, i - m, s[..m], 0) - RowSum(k - 1, i - m, s[m..], 0)
  {
    hide RowSum;
    LowerHalf(k, i, s, 0);
    UpperHalf(k, i, s, Pow2(k - 1));
  }

  /** The transform is multiplication by Sylvester's matrix. */
  lemma {:induction false} HadIsMatrix(k: nat, s: Row, i: nat)
    requires |s| == Pow2(k) && i < |s|
    ensures Had(k, s)[i] == RowSum(k, i, s, 0)
    decreases k
  {
    if k == 0 {
      OneEntry(s);
    } else {
      hide Had, RowSum;
      HadAt(k, s, i);
      RowSumHalves(k, s, i);
      var m := Pow2(k - 1);
      var i' := if i < m then i else i - m;
      HadIsMatrix(k - 1, s[..m], i');
      HadIsMatrix(k - 1, s[m..], i');
    }
  }

  lemma ProductAssoc(p: real, q: real, x: real)
    ensures p * (q * x) == (p * q) * x
  {
  }

  lemma Inverse(c: real)
    requires c != 0.0
    ensures (1.0 / c) * c == 1.0 && c * (1.0 / c) == 1.0
  {
  }

  lemma UndoScale(c: real, q: real, s: Row)
    requires c * q == 1.0
    ensures Times(c, Times(q, s)) == s && Times(q, Times(c, s)) == s
  {
    hide *;
    forall i | 0 <= i < |s|
      ensures Times(c, Times(q, s))[i] == s[i]
      ensures Times(q, Times(c, s))[i] == s[i]
    {
      ProductAssoc(c, q, s[i]);
      ProductAssoc(q, c, s[i]);
    }
  }

  /** Dividing the second transform by the length inverts the first; a scale put in between and taken out again
      does not matter. */
  lemma HadInverse(k: nat, s: Row, c: real)
    requires |s| == Pow2(k) && c != 0.0
    ensures Times(1.0 / (Pow2(k) as real), Had(k, Times(c, Times(1.0 / c, Had(k, s))))) == s
  {
    hide *;
    Inverse(c);
    UndoScale(c, 1.0 / c, Had(k, s));
    HadTwice(k, s);
    Inverse(Pow2(k) as real);
    UndoScale(Pow2(k) as real, 1.0 / (Pow2(k) as real), s);
  }

  /** Perturbing the transform moves the reconstruction, with q = 1 / length, by the perturbation's energy over the
      length. */
  lemma ErrorEnergy(k: nat, s: Row, e: Row, p: real, q: real)
    requires |s| == |e| == Pow2(k) && p == Pow2(k) as real && p * q == 1.0
    ensures Energy(Minus(Times(q, Had(k, Plus(Had(k, s), e))), s)) == q * Energy(e)
  {
    hide *;
    Perturbed(k, s, e, p, q);
    ScaledEnergy(k, e, p, q);
  }

  lemma ScaledEnergy(k: nat, e: Row, p: real, q: real)
    requires |e| == Pow2(k) && p == Pow2(k) as real && p * q == 1.0
    ensures Energy(Times(q, Had(k, e))) == q * Energy(e)
  {
    hide *;
    EnergyOf(k, e, p);
    EnergyBack(p, q, e, Had(k, e));
  }

  lemma EnergyOf(k: nat, e: Row, p: real)
    requires |e| == Pow2(k) && p == Pow2(k) as real
    ensures Energy(Had(k, e)) == p * Energy(e)
  {
    hide *;
    HadEnergy(k, e);
  }

  lemma Perturbed(k: nat, s: Row, e: Row, p: real, q: real)
    requires |s| == |e| == Pow2(k) && p == Pow2(k) as real && p * q == 1.0
    ensures Minus(Times(q, Had(k, Plus(Had(k, s), e))), s) == Times(q, Had(k, e))
  {
    hide *;
    HadPlusMinus(k, Had(k, s), e);
    HadTwice(k, s);
    RecoverRow(p, q, s, Had(k, e));
  }

  lemma EnergyBack(p: real, q: real, e: Row, f: Row)
    requires p * q == 1.0 && Energy(f) == p * Energy(e)
    ensures Energy(Times(q, f)) == q * Energy(e)
  {
    hide *;
    EnergyTimes(q, f);
    Cancel(p, q, Energy(e), Energy(f), Energy(Times(q, f)));
  }

  lemma RecoverRow(p: real, q: real, s: Row, f: Row)
    requires |s| == |f| && p * q == 1.0
    ensures Minus(Times(q, Plus(Times(p, s), f)), s) == Times(q, f)
  {
    hide *;
    forall i | 0 <= i < |s| ensures Minus(Times(q, Plus(Times(p, s), f)), s)[i] == Times(q, f)[i] {
      Recover(p, q, s[i], f[i]);
    }
  }

  lemma Recover(p: real, q: real, x: real, y: real)
    requires p * q == 1.0
    ensures q * (p * x + y) - x == q * y
  {
    assert q * (p * x + y) == (p * q) * x + q * y;
  }

  lemma Cancel(p: real, q: real, x: real, t: real, z: real)
    requires p * q == 1.0 && t == p * x && z == q * q * t
    ensures z == q * x
  {
    ProductAssoc(q, p, x);
    ProductAssoc(q, q, t);
  }

  lemma {:induction false} EnergyTimes(c: real, s: Row)
    ensures Energy(Times(c, s)) == c * c * Energy(s)
    decreases |s|
  {
    if s != [] {
      EnergyTimes(c, s[1..]);
      SameRow(Times(c, s)[1..], Times(c, s[1..]));
      SquareScale(c, s[0], Energy(s[1..]));
    }
  }

  lemma SquareScale(c: real, x: real, y: real)
    ensures (c * x) * (c * x) + c * c * y == c * c * (x * x + y)
  {
  }
}
