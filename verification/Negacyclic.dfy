/** The ring Z[x]/(x^N + 1) as vectors, built on multiplication by x. Products are Horner sums of shifts,
    so the ring laws follow from linearity of the shift. */
module Negacyclic {

  type Vec = seq<int>

  function Zero(n: nat): (z: Vec)
    ensures |z| == n && forall i :: 0 <= i < n ==> z[i] == 0
  {
    seq(n, i => 0)
  }

  function Add(u: Vec, v: Vec): (r: Vec)
    requires |u| == |v|
    ensures |r| == |u| && forall i :: 0 <= i < |u| ==> r[i] == u[i] + v[i]
  {
    seq(|u|, i requires 0 <= i < |u| => u[i] + v[i])
  }

  function Scale(k: int, v: Vec): (r: Vec)
    ensures |r| == |v| && forall i :: 0 <= i < |v| ==> r[i] == k * v[i]
  {
    seq(|v|, i requires 0 <= i < |v| => k * v[i])
  }

  /** Multiplication by x: the top coefficient comes back negated. */
  function MulX(b: Vec): (r: Vec)
    ensures |r| == |b|
    ensures forall i :: 0 < i < |b| ==> r[i] == b[i - 1]
    ensures |b| > 0 ==> r[0] == -b[|b| - 1]
  {
    if b == [] then [] else [-b[|b| - 1]] + b[..|b| - 1]
  }

  /** Multiplication by the inverse of x. */
  function DivX(b: Vec): (r: Vec)
    ensures |r| == |b|
    ensures forall i :: 0 <= i < |b| - 1 ==> r[i] == b[i + 1]
    ensures |b| > 0 ==> r[|b| - 1] == -b[0]
  {
    if b == [] then [] else b[1..] + [-b[0]]
  }

  /** a(x) * b: the polynomial with coefficients a, of any length, applied to b by Horner's rule. */
  function Act(a: Vec, b: Vec): (r: Vec)
    ensures |r| == |b|
  {
    if a == [] then Zero(|b|) else Add(Scale(a[0], b), MulX(Act(a[1..], b)))
  }

  /** a(1/x) * b. */
  function ActInv(a: Vec, b: Vec): (r: Vec)
    ensures |r| == |b|
  {
    if a == [] then Zero(|b|) else Add(Scale(a[0], b), DivX(ActInv(a[1..], b)))
  }

  /** The ring product. */
  function Mul(a: Vec, b: Vec): (r: Vec)
    requires |a| == |b|
    ensures |r| == |b|
  {
    Act(a, b)
  }

  function One(n: nat): (e: Vec)
    requires n > 0
    ensures |e| == n && e[0] == 1 && forall i :: 0 < i < n ==> e[i] == 0
  {
    [1] + Zero(n - 1)
  }

  lemma MulXDivX(b: Vec)
    ensures MulX(DivX(b)) == b && DivX(MulX(b)) == b
  {
    hide *;
    var c, d := DivX(b), MulX(b);
    assert forall i :: 0 < i < |b| ==> MulX(c)[i] == c[i - 1] == b[i];
    assert forall i :: 0 <= i < |b| - 1 ==> DivX(d)[i] == d[i + 1] == b[i];
  }

  lemma NegScale(k: int, z: int)
    ensures k * -z == -(k * z)
  {
  }

  lemma MulXLinear(k: int, u: Vec, v: Vec)
    requires |u| == |v|
    ensures MulX(Add(Scale(k, u), v)) == Add(Scale(k, MulX(u)), MulX(v))
    ensures DivX(Add(Scale(k, u), v)) == Add(Scale(k, DivX(u)), DivX(v))
  {
    hide *;
    var n, s := |u|, Add(Scale(k, u), v);
    if n > 0 {
      NegScale(k, u[n - 1]);
      NegScale(k, u[0]);
      var l, r := MulX(s), Add(Scale(k, MulX(u)), MulX(v));
      assert forall i :: 0 < i < n ==> l[i] == k * u[i - 1] + v[i - 1] == r[i];
      var p, q := DivX(s), Add(Scale(k, DivX(u)), DivX(v));
      assert forall i :: 0 <= i < n - 1 ==> p[i] == k * u[i + 1] + v[i + 1] == q[i];
    }
  }

  lemma MulXZero(n: nat)
    ensures MulX(Zero(n)) == Zero(n) && DivX(Zero(n)) == Zero(n)
  {
  }

  /** (k*u + v) regrouped: the one rearrangement every linearity proof needs. */
  lemma Regroup(p: int, q: int, u: Vec, v: Vec, w: Vec, z: Vec)
    requires |u| == |v| == |w| == |z|
    ensures Add(Scale(p, Add(Scale(q, u), v)), Add(Scale(q, w), z))
         == Add(Scale(q, Add(Scale(p, u), w)), Add(Scale(p, v), z))
  {
    hide *;
    var l := Add(Scale(p, Add(Scale(q, u), v)), Add(Scale(q, w), z));
    var r := Add(Scale(q, Add(Scale(p, u), w)), Add(Scale(p, v), z));
    forall i | 0 <= i < |u| ensures l[i] == r[i] {
      RegroupAt(p, q, u[i], v[i], w[i], z[i]);
    }
  }

  lemma RegroupAt(p: int, q: int, u: int, v: int, w: int, z: int)
    ensures p * (q * u + v) + (q * w + z) == q * (p * u + w) + (p * v + z)
  {
    assert p * (q * u + v) == q * (p * u) + p * v;
    assert q * (p * u + w) == q * (p * u) + q * w;
  }

  lemma ZeroLinear(k: int, n: nat)
    ensures Add(Scale(k, Zero(n)), Zero(n)) == Zero(n)
  {
  }

  /** The action is linear in its vector. */
  lemma {:induction false} ActLinear(a: Vec, k: int, u: Vec, v: Vec)
    requires |u| == |v|
    ensures Act(a, Add(Scale(k, u), v)) == Add(Scale(k, Act(a, u)), Act(a, v))
    decreases |a|
  {
    if a == [] {
      ZeroLinear(k, |u|);
    } else {
      var s, t := Act(a[1..], u), Act(a[1..], v);
      ActLinear(a[1..], k, u, v);
      MulXLinear(k, s, t);
      hide Add, Scale, MulX;
      Regroup(a[0], k, u, v, MulX(s), MulX(t));
    }
  }

  /** The action commutes with the shift. */
  lemma {:induction false} ActMulX(a: Vec, b: Vec)
    ensures Act(a, MulX(b)) == MulX(Act(a, b))
    decreases |a|
  {
    if a == [] {
      MulXZero(|b|);
    } else {
      ActMulX(a[1..], b);
      MulXLinear(a[0], b, MulX(Act(a[1..], b)));
    }
  }

  lemma ActDivX(a: Vec, b: Vec)
    ensures Act(a, DivX(b)) == DivX(Act(a, b))
  {
    MulXDivX(b);
    ActMulX(a, DivX(b));
    MulXDivX(Act(a, DivX(b)));
  }

  lemma {:induction false} ActOnZero(a: Vec, n: nat)
    ensures Act(a, Zero(n)) == Zero(n)
    decreases |a|
  {
    if a != [] {
      ActOnZero(a[1..], n);
      MulXZero(n);
      ZeroLinear(a[0], n);
    }
  }

  /** Two actions commute. */
  lemma {:induction false} ActCommute(a: Vec, b: Vec, c: Vec)
    ensures Act(a, Act(b, c)) == Act(b, Act(a, c))
    decreases |a|
  {
    if a == [] {
      ActOnZero(b, |c|);
    } else {
      var w := Act(a[1..], c);
      ActCommute(a[1..], b, c);
      ActLinear(b, a[0], c, MulX(w));
      ActMulX(b, w);
    }
  }

  lemma {:induction false} ActInvCommute(a: Vec, b: Vec, c: Vec)
    ensures ActInv(a, Act(b, c)) == Act(b, ActInv(a, c))
    decreases |a|
  {
    if a == [] {
      ActOnZero(b, |c|);
    } else {
      var w := ActInv(a[1..], c);
      ActInvCommute(a[1..], b, c);
      ActLinear(b, a[0], c, DivX(w));
      ActDivX(b, w);
    }
  }

  /** A polynomial of degree below N, applied to 1, is itself padded with zeros. */
  lemma {:induction false} ActOnePads(a: Vec, n: nat)
    requires 0 < n && |a| <= n
    ensures Act(a, One(n)) == a + Zero(n - |a|)
    decreases |a|
  {
    hide *;
    ActUnfold(a, One(n));
    if a == [] {
      PadNone(a, Zero(n));
    } else {
      ActOnePads(a[1..], n);
      PadStep(a, n);
    }
  }

  lemma PadNone(a: Vec, z: Vec)
    requires a == []
    ensures a + z == z
  {
  }

  lemma ActUnfold(a: Vec, b: Vec)
    ensures a == [] ==> Act(a, b) == Zero(|b|)
    ensures a != [] ==> Act(a, b) == Add(Scale(a[0], b), MulX(Act(a[1..], b)))
  {
  }

  lemma PadStep(a: Vec, n: nat)
    requires 0 < |a| <= n
    ensures Add(Scale(a[0], One(n)), MulX(a[1..] + Zero(n - |a| + 1))) == a + Zero(n - |a|)
  {
    hide *;
    var w := a[1..] + Zero(n - |a| + 1);
    var l, r, k := Add(Scale(a[0], One(n)), MulX(w)), a + Zero(n - |a|), a[0];
    assert w[n - 1] == 0 && k * 1 == k && k * 0 == 0;
    assert l[0] == r[0];
    forall i | 0 < i < n ensures l[i] == r[i] {
      assert l[i] == k * One(n)[i] + w[i - 1];
    }
  }

  lemma MulOne(a: Vec)
    requires |a| > 0
    ensures Mul(a, One(|a|)) == a
  {
    ActOnePads(a, |a|);
    assert a + Zero(0) == a;
  }

  lemma MulCommutative(a: Vec, b: Vec)
    requires |a| == |b|
    ensures Mul(a, b) == Mul(b, a)
  {
    if |a| > 0 {
      MulOne(a);
      MulOne(b);
      ActCommute(a, b, One(|a|));
    }
  }

  lemma MulAssociative(a: Vec, b: Vec, c: Vec)
    requires |a| == |b| == |c|
    ensures Mul(Mul(a, b), c) == Mul(a, Mul(b, c))
  {
    MulCommutative(Mul(a, b), c);
    ActCommute(c, a, b);
    MulCommutative(c, b);
  }

  /** The product is linear in each factor. */
  lemma MulBilinear(k: int, a: Vec, b: Vec, c: Vec)
    requires |a| == |b| == |c|
    ensures Mul(c, Add(Scale(k, a), b)) == Add(Scale(k, Mul(c, a)), Mul(c, b))
    ensures Mul(Add(Scale(k, a), b), c) == Add(Scale(k, Mul(a, c)), Mul(b, c))
  {
    ActLinear(c, k, a, b);
    MulCommutative(Add(Scale(k, a), b), c);
    MulCommutative(a, c);
    MulCommutative(b, c);
  }

  /** involute: a(1/x), written with non-negative powers. */
  function Involute(a: Vec): (r: Vec)
    ensures |r| == |a|
    ensures |a| > 0 ==> r[0] == a[0]
    ensures forall i {:trigger r[i]} :: 0 < i < |a| ==> r[i] == -a[|a| - i]
  {
    seq(|a|, i requires 0 <= i < |a| => if i == 0 then a[0] else -a[|a| - i])
  }

  /** r is a(1/x) written with non-negative powers. */
  ghost predicate Inverted(a: Vec, n: nat, r: Vec) {
    && |r| == n > 0
    && r[0] == (if |a| > 0 then a[0] else 0)
    && forall i {:trigger r[i]} :: 0 < i < n ==> r[i] == if n - i < |a| then -a[n - i] else 0
  }

  lemma {:induction false} ActInvOne(a: Vec, n: nat)
    requires 0 < n && |a| <= n
    ensures Inverted(a, n, ActInv(a, One(n)))
    decreases |a|
  {
    ActInvUnfold(a, One(n));
    if a == [] {
      hide ActInv, One;
    } else {
      hide *;
      ActInvOne(a[1..], n);
      InvertedStep(a, n, ActInv(a[1..], One(n)));
    }
  }

  lemma ActInvUnfold(a: Vec, b: Vec)
    ensures a == [] ==> ActInv(a, b) == Zero(|b|)
    ensures a != [] ==> ActInv(a, b) == Add(Scale(a[0], b), DivX(ActInv(a[1..], b)))
  {
  }

  lemma InvertedStep(a: Vec, n: nat, w: Vec)
    requires 0 < |a| <= n && Inverted(a[1..], n, w)
    ensures Inverted(a, n, Add(Scale(a[0], One(n)), DivX(w)))
  {
    hide Add, Scale, One, DivX;
    var k, b := a[0], a[1..];
    var r := Add(Scale(k, One(n)), DivX(w));
    assert k * 1 == k && k * 0 == 0;
    assert forall i :: 0 < i < |a| ==> a[i] == b[i - 1];
    forall i | 0 < i < n ensures r[i] == if n - i < |a| then -a[n - i] else 0 {
      assert r[i] == k * One(n)[i] + DivX(w)[i] == DivX(w)[i];
      assert DivX(w)[i] == if i == n - 1 then -w[0] else w[i + 1];
    }
    if n > 1 {
      assert r[0] == k * 1 + w[1];
    } else {
      assert r[0] == k * 1 - w[0];
    }
  }

  lemma InvoluteIsInverse(a: Vec)
    requires |a| > 0
    ensures ActInv(a, One(|a|)) == Involute(a)
  {
    hide *;
    ActInvOne(a, |a|);
    InvertedIs(a, ActInv(a, One(|a|)));
  }

  lemma InvertedIs(a: Vec, r: Vec)
    requires Inverted(a, |a|, r)
    ensures r == Involute(a)
  {
    var n, s := |a|, Involute(a);
    hide Involute;
    forall i | 0 <= i < n ensures r[i] == s[i] {
      if i > 0 {
        assert r[i] == -a[n - i] == s[i];
      }
    }
  }

  lemma SameVec(u: Vec, v: Vec)
    requires |u| == |v| && forall i :: 0 <= i < |u| ==> u[i] == v[i]
    ensures u == v
  {
  }

  /** Multiplying by the involution is acting with the inverse powers. */
  lemma MulInvolute(u: Vec, a: Vec)
    requires |u| == |a|
    ensures Mul(u, Involute(a)) == ActInv(a, u)
  {
    if |a| > 0 {
      InvoluteIsInverse(a);
      ActInvCommute(a, u, One(|a|));
      MulOne(u);
    }
  }

  function Dot(u: Vec, v: Vec): int
    requires |u| == |v|
  {
    if u == [] then 0 else u[0] * v[0] + Dot(u[1..], v[1..])
  }

  lemma {:induction false} DotAppend(a: Vec, b: Vec, c: Vec, d: Vec)
    requires |a| == |b| && |c| == |d|
    ensures Dot(a + c, b + d) == Dot(a, b) + Dot(c, d)
    decreases |a|
  {
    if a == [] {
      assert a + c == c && b + d == d;
    } else {
      assert (a + c)[1..] == a[1..] + c && (b + d)[1..] == b[1..] + d;
      DotAppend(a[1..], b[1..], c, d);
    }
  }

  lemma {:induction false} DotLinear(k: int, u: Vec, w: Vec, v: Vec)
    requires |u| == |w| == |v|
    ensures Dot(Add(Scale(k, u), w), v) == k * Dot(u, v) + Dot(w, v)
    decreases |u|
  {
    if u != [] {
      DotLinear(k, u[1..], w[1..], v[1..]);
      assert Add(Scale(k, u), w)[1..] == Add(Scale(k, u[1..]), w[1..]);
      assert (k * u[0] + w[0]) * v[0] == k * (u[0] * v[0]) + w[0] * v[0];
      assert k * (u[0] * v[0] + Dot(u[1..], v[1..])) == k * (u[0] * v[0]) + k * Dot(u[1..], v[1..]);
    }
  }

  lemma {:induction false} DotSymmetric(u: Vec, v: Vec)
    requires |u| == |v|
    ensures Dot(u, v) == Dot(v, u)
    decreases |u|
  {
    if u != [] {
      DotSymmetric(u[1..], v[1..]);
    }
  }

  /** The shift's adjoint is the inverse shift. */
  lemma DotShift(u: Vec, v: Vec)
    requires |u| == |v|
    ensures Dot(MulX(u), v) == Dot(u, DivX(v))
  {
    if u != [] {
      DotShiftSplit(u[..|u| - 1], u[|u| - 1], v[0], v[1..]);
      assert u == u[..|u| - 1] + [u[|u| - 1]] && v == [v[0]] + v[1..];
    }
  }

  lemma ShiftEnds(u: Vec, z: int, y: int, v: Vec)
    ensures MulX(u + [z]) == [-z] + u && DivX([y] + v) == v + [-y]
  {
    hide *;
    var s, t := u + [z], [y] + v;
    SameVec(MulX(s), [-z] + u);
    SameVec(DivX(t), v + [-y]);
  }

  lemma ShiftProducts(u: Vec, z: int, y: int, v: Vec)
    requires |u| == |v|
    ensures Dot([-z] + u, [y] + v) == Dot(u + [z], v + [-y])
  {
    hide *;
    var p, q, r, t := [-z], [y], [z], [-y];
    DotAppend(p, q, u, v);
    DotAppend(u, v, r, t);
    DotOne(-z, y);
    DotOne(z, -y);
    ProductSign(z, y);
  }

  lemma ProductSign(z: int, y: int)
    ensures (-z) * y == z * (-y)
  {
  }

  lemma DotShiftSplit(u: Vec, z: int, y: int, v: Vec)
    requires |u| == |v|
    ensures Dot(MulX(u + [z]), [y] + v) == Dot(u + [z], DivX([y] + v))
  {
    hide *;
    ShiftEnds(u, z, y, v);
    ShiftProducts(u, z, y, v);
  }

  lemma DotOne(p: int, q: int)
    ensures Dot([p], [q]) == p * q
  {
    var a, b := [p], [q];
    assert a[1..] == [] && b[1..] == [];
    assert Dot(a, b) == a[0] * b[0] + Dot(a[1..], b[1..]);
  }

  lemma {:induction false} DotZero(v: Vec)
    ensures Dot(Zero(|v|), v) == 0
    decreases |v|
  {
    if v != [] {
      DotZero(v[1..]);
      assert Zero(|v|)[1..] == Zero(|v| - 1);
    }
  }

  lemma {:induction false} ActAdjoint(a: Vec, u: Vec, v: Vec)
    requires |u| == |v|
    ensures Dot(Act(a, u), v) == Dot(u, ActInv(a, v))
    decreases |a|
  {
    if a == [] {
      DotZero(v);
      DotZero(u);
      DotSymmetric(u, Zero(|v|));
    } else {
      var w, z := Act(a[1..], u), ActInv(a[1..], v);
      DotLinear(a[0], u, MulX(w), v);
      DotShift(w, v);
      ActAdjoint(a[1..], u, DivX(v));
      ActInvDivX(a[1..], v);
      DotSymmetric(u, ActInv(a, v));
      DotLinear(a[0], v, DivX(z), u);
      DotSymmetric(u, v);
      DotSymmetric(u, DivX(z));
    }
  }

  lemma {:induction false} ActInvDivX(a: Vec, b: Vec)
    ensures ActInv(a, DivX(b)) == DivX(ActInv(a, b))
    decreases |a|
  {
    if a == [] {
      MulXZero(|b|);
    } else {
      ActInvDivX(a[1..], b);
      MulXLinear(a[0], b, DivX(ActInv(a[1..], b)));
    }
  }

  /** Unbinding is the adjoint of binding: <u * involute(a), v> = <u, a * v>. */
  lemma UnbindIsAdjoint(u: Vec, a: Vec, v: Vec)
    requires |u| == |a| == |v|
    ensures Dot(Mul(u, Involute(a)), v) == Dot(u, Mul(a, v))
  {
    MulInvolute(u, a);
    ActAdjoint(a, v, u);
    DotSymmetric(Mul(a, v), u);
    DotSymmetric(v, ActInv(a, u));
  }
}
