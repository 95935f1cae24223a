/** The in-place butterfly over the rows of a matrix, against the recursive transform. */
module Fwht {
  import opened Basics
  import opened Walsh

  /** Every block of length 2^j transformed on its own. */
  function Blocks(j: nat, s: Row): Row {
    if |s| < Pow2(j) then [] else Had(j, s[..Pow2(j)]) + Blocks(j, s[Pow2(j)..])
  }

  /** m is a whole number of blocks of length 2^j. */
  predicate Tiles(j: nat, m: nat)
    decreases m
  {
    m == 0 || (m >= Pow2(j) && Tiles(j, m - Pow2(j)))
  }

  lemma {:induction false} TilesSum(j: nat, a: nat, b: nat)
    requires Tiles(j, a) && Tiles(j, b)
    ensures Tiles(j, a + b)
    decreases a
  {
    if a > 0 {
      TilesSum(j, a - Pow2(j), b);
    }
  }

  lemma {:induction false} TilesFiner(j: nat, m: nat)
    requires Tiles(j + 1, m)
    ensures Tiles(j, m)
    decreases m
  {
    if m > 0 {
      TilesFiner(j, m - Pow2(j + 1));
    }
  }

  lemma {:induction false} TilesWhole(j: nat, k: nat)
    requires j <= k
    ensures Tiles(j, Pow2(k))
    decreases k
  {
    if j < k {
      TilesWhole(j, k - 1);
      TilesSum(j, Pow2(k - 1), Pow2(k - 1));
    } else {
      assert Tiles(j, 0);
    }
  }

  lemma {:induction false} BlocksLength(j: nat, s: Row)
    requires Tiles(j, |s|)
    ensures |Blocks(j, s)| == |s|
    decreases |s|
  {
    if s != [] {
      BlocksLength(j, s[Pow2(j)..]);
    }
  }

  lemma {:induction false} BlocksAppend(j: nat, s: Row, t: Row)
    requires Tiles(j, |s|)
    ensures Blocks(j, s + t) == Blocks(j, s) + Blocks(j, t)
    decreases |s|
  {
    TilesRoom(j, |s|);
    BlocksUnfold(j, s);
    hide *;
    if s == [] {
      assert s + t == t && [] + Blocks(j, t) == Blocks(j, t);
    } else {
      var h := Pow2(j);
      BlocksAppend(j, s[h..], t);
      BlocksUnfold(j, s + t);
      AppendSlices(s, t, h);
      Assoc(Had(j, s[..h]), Blocks(j, s[h..]), Blocks(j, t));
    }
  }

  lemma AppendSlices(s: Row, t: Row, h: nat)
    requires h <= |s|
    ensures (s + t)[..h] == s[..h] && (s + t)[h..] == s[h..] + t
  {
  }

  lemma Assoc(a: Row, b: Row, c: Row)
    ensures a + (b + c) == a + b + c
  {
  }

  lemma TilesRoom(j: nat, m: nat)
    requires Tiles(j, m)
    ensures m > 0 ==> m >= Pow2(j) && Tiles(j, m - Pow2(j))
  {
  }

  lemma BlocksUnfold(j: nat, s: Row)
    ensures |s| < Pow2(j) ==> Blocks(j, s) == []
    ensures |s| >= Pow2(j) ==> Blocks(j, s) == Had(j, s[..Pow2(j)]) + Blocks(j, s[Pow2(j)..])
  {
  }

  lemma {:induction false} BlocksOfOne(s: Row)
    ensures Blocks(0, s) == s
    decreases |s|
  {
    if s != [] {
      BlocksOfOne(s[1..]);
      assert s[..1] + s[1..] == s;
    }
  }

  lemma BlocksWhole(k: nat, s: Row)
    requires |s| == Pow2(k)
    ensures Blocks(k, s) == Had(k, s)
  {
    assert s[..Pow2(k)] == s && Blocks(k, s[Pow2(k)..]) == [];
  }

  /** One block pair: the transform of a double block from the transforms of its halves. */
  lemma TwoBlocks(j: nat, s: Row)
    requires |s| == 2 * Pow2(j)
    ensures var h := Pow2(j);
            && Blocks(j, s) == Had(j, s[..h]) + Had(j, s[h..])
            && Blocks(j + 1, s) == Plus(Had(j, s[..h]), Had(j, s[h..])) + Minus(Had(j, s[..h]), Had(j, s[h..]))
  {
    var h := Pow2(j);
    BlocksWhole(j + 1, s);
    BlocksWhole(j, s[h..]);
    HadUnfold(j + 1, s);
  }

  /** Blocks below i have length 2^(j+1) already, blocks from i on still have length 2^j. */
  ghost predicate Between(j: nat, s: Row, i: nat, cur: Row) {
    && i <= |s| == |cur|
    && Tiles(j + 1, i) && Tiles(j + 1, |s| - i)
    && cur == Blocks(j + 1, s[..i]) + Blocks(j, s[i..])
  }

  /** The butterfly at i: sums in the first half of the double block, differences in the second. */
  ghost predicate Butterflied(h: nat, i: nat, cur: Row, next: Row) {
    && |cur| == |next| && i + 2 * h <= |cur|
    && (forall c :: 0 <= c < |cur| && (c < i || c >= i + 2 * h) ==> next[c] == cur[c])
    && (forall c :: i <= c < i + h ==> next[c] == cur[c] + cur[c + h])
    && (forall c :: i + h <= c < i + 2 * h ==> next[c] == cur[c - h] - cur[c])
  }

  lemma ButterflySplit(h: nat, i: nat, cur: Row, next: Row, a: Row, x: Row, y: Row, b: Row)
    requires Butterflied(h, i, cur, next) && |a| == i && |x| == |y| == h && cur == a + (x + y + b)
    ensures next == a + (Plus(x, y) + Minus(x, y) + b)
  {
    assert |next| == |cur| == i + 2 * h + |b|;
    hide Plus, Minus, Butterflied;
    var p, m := Plus(x, y), Minus(x, y);
    var want := a + (p + m + b);
    forall c | 0 <= c < |cur| ensures next[c] == want[c] {
      ButterflyAt(h, i, cur, next, c);
      FourAt(a, x, y, b, c);
      FourAt(a, p, m, b, c);
      if i <= c < i + h { FourAt(a, x, y, b, c + h); }
      if i + h <= c < i + 2 * h { FourAt(a, x, y, b, c - h); }
    }
    SameRow(next, want);
  }

  lemma ButterflyAt(h: nat, i: nat, cur: Row, next: Row, c: nat)
    requires Butterflied(h, i, cur, next) && c < |cur|
    ensures |next| == |cur| && i + 2 * h <= |cur|
    ensures next[c] == if i <= c < i + h then cur[c] + cur[c + h]
                       else if i + h <= c < i + 2 * h then cur[c - h] - cur[c] else cur[c]
  {
  }

  lemma FourAt(a: Row, x: Row, y: Row, b: Row, c: nat)
    requires |x| == |y| && c < |a| + 2 * |x| + |b|
    ensures (a + (x + y + b))[c] == if c < |a| then a[c] else if c < |a| + |x| then x[c - |a|]
                                    else if c < |a| + 2 * |x| then y[c - |a| - |x|] else b[c - |a| - 2 * |x|]
  {
  }

  lemma BetweenNext(j: nat, s: Row, i: nat, cur: Row, next: Row)
    requires Between(j, s, i, cur) && i < |s| && Butterflied(Pow2(j), i, cur, next)
    ensures Between(j, s, i + 2 * Pow2(j), next)
  {
    hide *;
    BetweenIs(j, s, i, cur);
    BetweenTiles(j, i, |s| - i);
    var h := Pow2(j);
    var e := i + 2 * h;
    var d, rest := s[i..e], s[e..];
    TwoBlocks(j, d);
    var a, b := Blocks(j + 1, s[..i]), Blocks(j, rest);
    var x, y := Had(j, d[..h]), Had(j, d[h..]);
    var p, m := Plus(x, y), Minus(x, y);
    BetweenParts(j, s, i, e);
    Assoc(x, y, b);
    BlocksLength(j + 1, s[..i]);
    ButterflySplit(h, i, cur, next, a, x, y, b);
    Assoc(a, p + m, b);
    MakeBetween(j, s, e, next);
  }

  lemma BetweenIs(j: nat, s: Row, i: nat, cur: Row)
    requires Between(j, s, i, cur)
    ensures i <= |s| == |cur| && Tiles(j + 1, i) && Tiles(j + 1, |s| - i)
    ensures cur == Blocks(j + 1, s[..i]) + Blocks(j, s[i..])
  {
    hide Blocks, Tiles;
  }

  lemma MakeBetween(j: nat, s: Row, i: nat, cur: Row)
    requires i <= |s| == |cur| && Tiles(j + 1, i) && Tiles(j + 1, |s| - i)
    requires cur == Blocks(j + 1, s[..i]) + Blocks(j, s[i..])
    ensures Between(j, s, i, cur)
  {
    hide Blocks, Tiles;
  }

  /** Cutting the row at both ends of the block pair. */
  lemma BetweenParts(j: nat, s: Row, i: nat, e: nat)
    requires i <= e <= |s| && Tiles(j, e - i) && Tiles(j + 1, i)
    ensures Blocks(j, s[i..]) == Blocks(j, s[i..e]) + Blocks(j, s[e..])
    ensures Blocks(j + 1, s[..e]) == Blocks(j + 1, s[..i]) + Blocks(j + 1, s[i..e])
  {
    hide *;
    BlocksAppend(j, s[i..e], s[e..]);
    BlocksAppend(j + 1, s[..i], s[i..e]);
    Middle(s, i, e);
  }

  lemma Middle(s: Row, i: nat, e: nat)
    requires i <= e <= |s|
    ensures s[i..e] + s[e..] == s[i..] && s[..i] + s[i..e] == s[..e]
  {
  }

  lemma BetweenTiles(j: nat, i: nat, rest: nat)
    requires Tiles(j + 1, i) && Tiles(j + 1, rest) && rest > 0
    ensures rest >= 2 * Pow2(j) && Tiles(j, 2 * Pow2(j))
    ensures Tiles(j + 1, i + 2 * Pow2(j)) && Tiles(j + 1, rest - 2 * Pow2(j))
  {
    TilesWhole(j + 1, j + 1);
    TilesFiner(j, Pow2(j + 1));
    TilesSum(j + 1, i, Pow2(j + 1));
  }

  lemma BetweenStart(j: nat, k: nat, s: Row, cur: Row)
    requires |s| == Pow2(k) && j < k && cur == Blocks(j, s)
    ensures Between(j, s, 0, cur)
  {
    TilesWhole(j, k);
    TilesWhole(j + 1, k);
    BlocksLength(j, s);
    assert s[..0] == [] && s[0..] == s;
    assert Blocks(j + 1, []) == [] && [] + cur == cur;
  }

  lemma BetweenEnd(j: nat, s: Row, cur: Row)
    requires Between(j, s, |s|, cur)
    ensures cur == Blocks(j + 1, s)
  {
    assert s[..|s|] == s && s[|s|..] == [];
    assert Blocks(j, []) == [];
    assert Blocks(j + 1, s) + [] == Blocks(j + 1, s);
  }

  ghost function RowOf(a: array2<real>, r: nat): (s: Row)
    requires r < a.Length0
    reads a
    ensures |s| == a.Length1 && forall c :: 0 <= c < a.Length1 ==> s[c] == a[r, c]
  {
    seq(a.Length1, c requires 0 <= c < a.Length1 reads a => a[r, c])
  }

  /** The rows of a. */
  ghost function Rows(a: array2<real>): (rows: seq<Row>)
    reads a
    ensures |rows| == a.Length0 && forall r :: 0 <= r < a.Length0 ==> rows[r] == RowOf(a, r)
  {
    seq(a.Length0, r requires 0 <= r < a.Length0 reads a => RowOf(a, r))
  }

  lemma PowStep(j: nat)
    ensures Pow2(0) == 1 && Pow2(j + 1) == 2 * Pow2(j)
  {
  }

  /** Powers of two are ordered as their exponents. */
  lemma {:induction false} PowOrder(j: nat, k: nat)
    ensures Pow2(j) < Pow2(k) <==> j < k
    decreases k
  {
    if k == 0 {
      PowStep(j);
    } else if j > 0 {
      PowOrder(j - 1, k - 1);
    }
  }

  lemma StartRows(a: array2<real>, src: array2<real>, r: nat)
    requires a.Length0 == src.Length0 && a.Length1 == src.Length1 && r < a.Length0
    requires forall c :: 0 <= c < a.Length1 ==> a[r, c] == src[r, c]
    ensures RowOf(a, r) == Blocks(0, RowOf(src, r))
  {
    hide RowOf, Blocks;
    SameRow(RowOf(a, r), RowOf(src, r));
    BlocksOfOne(RowOf(src, r));
  }

  /** One butterfly over all rows at once, as the slice assignments do it. */
  method Butterfly(a: array2<real>, h: nat, i: nat)
    requires i + 2 * h <= a.Length1
    modifies a
    ensures forall r :: 0 <= r < a.Length0 ==> Butterflied(h, i, old(RowOf(a, r)), RowOf(a, r))
  {
    hide RowOf;
    ghost var before := Rows(a);
    forall r, c | 0 <= r < a.Length0 && i <= c < i + 2 * h {
      a[r, c] := if c < i + h then a[r, c] + a[r, c + h] else a[r, c - h] - a[r, c];
    }
    forall r | 0 <= r < a.Length0 ensures Butterflied(h, i, before[r], RowOf(a, r)) {
      var cur, next := before[r], RowOf(a, r);
      assert forall c :: 0 <= c < a.Length1 ==> next[c] == a[r, c];
    }
  }

  /** The loop over block pairs for one half-width h = 2^j. */
  method Pass(a: array2<real>, h: nat, ghost j: nat, ghost k: nat, ghost orig: seq<Row>)
    requires j < k && h == Pow2(j) && a.Length1 == Pow2(k) && |orig| == a.Length0
    requires forall r :: 0 <= r < a.Length0 ==> |orig[r]| == a.Length1 && RowOf(a, r) == Blocks(j, orig[r])
    modifies a
    ensures forall r :: 0 <= r < a.Length0 ==> RowOf(a, r) == Blocks(j + 1, orig[r])
  {
    hide *;
    var n := a.Length1;
    var i := 0;
    PassStart(j, k);
    forall r | 0 <= r < a.Length0 ensures Between(j, orig[r], 0, RowOf(a, r)) {
      BetweenStart(j, k, orig[r], RowOf(a, r));
    }
    while i < n
      invariant 0 <= i <= n && Tiles(j + 1, i) && Tiles(j + 1, n - i)
      invariant forall r :: 0 <= r < a.Length0 ==> Between(j, orig[r], i, RowOf(a, r))
      decreases n - i
    {
      ghost var before := Rows(a);
      BetweenTiles(j, i, n - i);
      Butterfly(a, h, i);
      forall r | 0 <= r < a.Length0 ensures Between(j, orig[r], i + 2 * h, RowOf(a, r)) {
        BetweenNext(j, orig[r], i, before[r], RowOf(a, r));
      }
      i := i + 2 * h;
    }
    forall r | 0 <= r < a.Length0 ensures RowOf(a, r) == Blocks(j + 1, orig[r]) {
      BetweenEnd(j, orig[r], RowOf(a, r));
    }
  }

  lemma PassStart(j: nat, k: nat)
    requires j < k
    ensures Tiles(j + 1, 0) && Tiles(j + 1, Pow2(k))
  {
    TilesWhole(j + 1, k);
  }

  /** fwht: transforms every row of a copy of src in place, doubling the half-width h. */
  method Transform(src: array2<real>, ghost k: nat) returns (a: array2<real>)
    requires src.Length1 == Pow2(k)
    ensures fresh(a) && a.Length0 == src.Length0 && a.Length1 == src.Length1
    ensures forall r :: 0 <= r < a.Length0 ==> RowOf(a, r) == Had(k, RowOf(src, r))
  {
    hide *;
    var R, n := src.Length0, src.Length1;
    a := new real[R, n]((r, c) requires 0 <= r < R && 0 <= c < n reads src => src[r, c]);
    ghost var orig := Rows(src);
    var h := 1;
    ghost var j := 0;
    PowStep(0);
    forall r | 0 <= r < R ensures RowOf(a, r) == Blocks(0, orig[r]) {
      StartRows(a, src, r);
    }
    PowOrder(0, k);
    while h < n
      invariant fresh(a) && a.Length0 == R && a.Length1 == n
      invariant j <= k && h == Pow2(j)
      invariant forall r :: 0 <= r < R ==> RowOf(a, r) == Blocks(j, orig[r])
      decreases n - h
    {
      PowOrder(j, k);
      PowStep(j);
      Pass(a, h, j, k, orig);
      h := h * 2;
      j := j + 1;
    }
    PowOrder(j, k);
    forall r | 0 <= r < R ensures RowOf(a, r) == Had(k, orig[r]) {
      BlocksWhole(k, orig[r]);
    }
  }

  /** Transforming and transforming back: the loop undoes itself up to the row length. */
  method TransformTwice(src: array2<real>, ghost k: nat) returns (a: array2<real>)
    requires src.Length1 == Pow2(k)
    ensures fresh(a) && a.Length0 == src.Length0 && a.Length1 == src.Length1
    ensures forall r :: 0 <= r < a.Length0 ==> RowOf(a, r) == Times(Pow2(k) as real, RowOf(src, r))
  {
    hide *;
    var b := Transform(src, k);
    a := Transform(b, k);
    forall r | 0 <= r < src.Length0 ensures RowOf(a, r) == Times(Pow2(k) as real, RowOf(src, r)) {
      HadTwice(k, RowOf(src, r));
    }
  }
}
