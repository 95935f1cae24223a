/** Reordering lists, and integer sums that do not depend on the order. */
module Sums {
  function Without<T>(s: seq<T>, i: nat): (r: seq<T>)
    requires i < |s|
    ensures |r| == |s| - 1
    ensures forall k {:trigger r[k]} :: 0 <= k < |r| ==> r[k] == s[if k < i then k else k + 1]
  {
    s[..i] + s[i + 1..]
  }

  lemma WithoutMultiset<T>(s: seq<T>, i: nat)
    requires i < |s|
    ensures multiset(s) == multiset(Without(s, i)) + multiset{s[i]}
  {
    assert s == s[..i] + [s[i]] + s[i + 1..];
  }

  lemma SameRest<T>(s: seq<T>, i: nat, t: seq<T>, j: nat)
    requires multiset(s) == multiset(t) && i < |s| && j < |t| && s[i] == t[j]
    ensures multiset(Without(s, i)) == multiset(Without(t, j))
  {
    WithoutMultiset(s, i);
    WithoutMultiset(t, j);
    hide Without;
    var x := multiset{s[i]};
    assert multiset(Without(s, i)) == multiset(s) - x;
    assert multiset(Without(t, j)) == multiset(t) - x;
  }

  lemma SameLength<T>(s: seq<T>, t: seq<T>)
    requires multiset(s) == multiset(t)
    ensures |s| == |t|
  {
    assert |multiset(s)| == |s| && |multiset(t)| == |t|;
  }

  function MapSeq<T, U>(s: seq<T>, f: T -> U): (r: seq<U>)
    ensures |r| == |s| && forall i :: 0 <= i < |s| ==> r[i] == f(s[i])
  {
    seq(|s|, i requires 0 <= i < |s| => f(s[i]))
  }

  lemma MapWithout<T, U>(s: seq<T>, f: T -> U, i: nat)
    requires i < |s|
    ensures MapSeq(Without(s, i), f) == Without(MapSeq(s, f), i)
  {
  }

  /** Mapping two orders of the same list gives two orders of the same results. */
  lemma {:induction false} MapFree<T, U>(s: seq<T>, t: seq<T>, f: T -> U)
    requires multiset(s) == multiset(t)
    ensures multiset(MapSeq(s, f)) == multiset(MapSeq(t, f))
    decreases |s|
  {
    hide Without, MapSeq;
    SameLength(s, t);
    if s == [] {
      assert MapSeq(s, f) == MapSeq(t, f);
    } else {
      assert s[|s| - 1] in multiset(s);
      assert s[|s| - 1] in t;
      var i :| 0 <= i < |t| && t[i] == s[|s| - 1];
      SameRest(s, |s| - 1, t, i);
      MapFree(Without(s, |s| - 1), Without(t, i), f);
      MapWithout(s, f, |s| - 1);
      MapWithout(t, f, i);
      WithoutMultiset(MapSeq(s, f), |s| - 1);
      WithoutMultiset(MapSeq(t, f), i);
    }
  }

  function Sum(v: seq<int>): int {
    if v == [] then 0 else v[0] + Sum(v[1..])
  }

  lemma {:induction false} SumAppend(a: seq<int>, b: seq<int>)
    ensures Sum(a + b) == Sum(a) + Sum(b)
    decreases |a|
  {
    if a == [] {
      assert a + b == b;
    } else {
      assert (a + b)[1..] == a[1..] + b;
      SumAppend(a[1..], b);
    }
  }

  lemma SumOne(z: int)
    ensures Sum([z]) == z
  {
    var one := [z];
    assert one[1..] == [] && Sum(one) == one[0] + Sum(one[1..]);
  }

  lemma SumWithout(s: seq<int>, i: nat)
    requires i < |s|
    ensures Sum(s) == Sum(Without(s, i)) + s[i]
  {
    hide *;
    var a, x, b := s[..i], [s[i]], s[i + 1..];
    SplitOut(s, i);
    SumAppend(a, x + b);
    SumAppend(x, b);
    SumOne(s[i]);
    SumAppend(a, b);
  }

  lemma SplitOut<T>(s: seq<T>, i: nat)
    requires i < |s|
    ensures s == s[..i] + ([s[i]] + s[i + 1..]) && Without(s, i) == s[..i] + s[i + 1..]
  {
  }

  /** A sum does not depend on the order. */
  lemma {:induction false} SumFree(s: seq<int>, t: seq<int>)
    requires multiset(s) == multiset(t)
    ensures Sum(s) == Sum(t)
    decreases |s|
  {
    hide Without, Sum;
    SameLength(s, t);
    if s == [] {
      assert s == t;
    } else {
      assert s[|s| - 1] in multiset(s);
      assert s[|s| - 1] in t;
      var i :| 0 <= i < |t| && t[i] == s[|s| - 1];
      SameRest(s, |s| - 1, t, i);
      SumFree(Without(s, |s| - 1), Without(t, i));
      SumWithout(s, |s| - 1);
      SumWithout(t, i);
    }
  }

  function MaxOf(z: seq<int>): (m: int)
    requires z != []
    ensures m in z && forall i :: 0 <= i < |z| ==> z[i] <= m
  {
    if |z| == 1 then z[0] else
      var rest := MaxOf(z[1..]);
      assert forall i :: 0 < i < |z| ==> z[i] == z[1..][i - 1];
      if z[0] > rest then z[0] else rest
  }

  /** Nor does a maximum. */
  lemma MaxFree(s: seq<int>, t: seq<int>)
    requires multiset(s) == multiset(t) && s != []
    ensures t != [] && MaxOf(s) == MaxOf(t)
  {
    SameLength(s, t);
    assert MaxOf(s) in multiset(s) && MaxOf(t) in multiset(t);
    assert MaxOf(s) in t && MaxOf(t) in s;
  }
}
