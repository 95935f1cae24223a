/** Bind and unbind over a direct sum of negacyclic blocks, and superpositions of binds. */
module Binding {
  import opened Basics
  import opened Division
  import opened Negacyclic
  import opened Convolution
  import opened NoZeroDivisors

  /** _blocks as a function: how a dimension is tiled, or None when it cannot be. */
  function Blocks(D: nat): (r: Option<seq<nat>>)
    ensures r.Some? <==> D % 512 == 0 || D % 512 == 128 || D % 512 == 256
  {
    if D >= 512 then Prepend([512], Blocks(D - 512))
    else if D == 0 then Some([])
    else if D == 128 || D == 256 then Some([D])
    else None
  }

  /** The tiling loop of ok_bind._blocks; None stands for its ValueError. */
  method BlockList(D: nat) returns (r: Option<seq<nat>>)
    ensures r == Blocks(D)
  {
    if D == 128 || D == 256 || D == 512 {
      OneBlock(D);
      return Some([D]);
    }
    if D == 1024 {
      TwoBlocks();
      return Some([512, 512]);
    }
    var bl: seq<nat> := [];
    var rest := D;
    PrependNone(Blocks(D));
    while rest >= 512
      invariant Blocks(D) == Prepend(bl, Blocks(rest))
    {
      PrependOne(bl, Blocks(rest - 512));
      bl := bl + [512];
      rest := rest - 512;
    }
    if rest == 128 || rest == 256 || rest == 512 {
      return Some(bl + [rest]);
    } else if rest > 0 {
      return None;
    }
    assert bl + [] == bl;
    return Some(bl);
  }

  function Prepend(bl: seq<nat>, r: Option<seq<nat>>): Option<seq<nat>> {
    if r.Some? then Some(bl + r.value) else None
  }

  lemma PrependNone(r: Option<seq<nat>>)
    ensures Prepend([], r) == r
  {
    if r.Some? { assert [] + r.value == r.value; }
  }

  lemma PrependOne(bl: seq<nat>, r: Option<seq<nat>>)
    ensures Prepend(bl, Prepend([512], r)) == Prepend(bl + [512], r)
  {
    if r.Some? { assert bl + ([512] + r.value) == bl + [512] + r.value; }
  }

  lemma OneBlock(D: nat)
    requires D == 128 || D == 256 || D == 512
    ensures Blocks(D) == Some([D])
  {
    if D == 512 {
      assert Blocks(0) == Some([]);
      assert [512 as nat] + [] == [512];
    }
  }

  lemma TwoBlocks()
    ensures Blocks(1024) == Some([512, 512])
  {
    OneBlock(512);
    assert [512 as nat] + [512] == [512, 512];
  }

  function Total(bl: seq<nat>): nat {
    if bl == [] then 0 else bl[0] + Total(bl[1..])
  }

  /** Block sizes are ring degrees and add up to the dimension. */
  lemma {:induction false} BlocksTile(D: nat)
    requires Blocks(D).Some?
    ensures Total(Blocks(D).value) == D
    ensures forall i :: 0 <= i < |Blocks(D).value| ==> Blocks(D).value[i] in {128, 256, 512}
    decreases D
  {
    if D >= 512 {
      BlocksTile(D - 512);
      assert Blocks(D).value[1..] == Blocks(D - 512).value;
    } else if D > 0 {
      assert Total(Blocks(D).value[1..]) == 0;
    }
  }

  /** bind: block by block. */
  function Bound(bl: seq<nat>, a: Vec, b: Vec): (r: Vec)
    requires |a| == |b| == Total(bl)
    ensures |r| == |a|
  {
    if bl == [] then [] else Mul(a[..bl[0]], b[..bl[0]]) + Bound(bl[1..], a[bl[0]..], b[bl[0]..])
  }

  /** The involution of every address block. */
  function InvoluteBlocks(bl: seq<nat>, a: Vec): (r: Vec)
    requires |a| == Total(bl)
    ensures |r| == |a|
  {
    if bl == [] then [] else Involute(a[..bl[0]]) + InvoluteBlocks(bl[1..], a[bl[0]..])
  }

  lemma SplitAt(v: Vec, n: nat)
    requires n <= |v|
    ensures v == v[..n] + v[n..]
  {
  }

  /** Unbind is the adjoint of bind, block by block. */
  lemma {:induction false} UnboundIsAdjoint(bl: seq<nat>, M: Vec, a: Vec, v: Vec)
    requires |M| == |a| == |v| == Total(bl)
    ensures Dot(Bound(bl, M, InvoluteBlocks(bl, a)), v) == Dot(M, Bound(bl, a, v))
    decreases |bl|
  {
    hide Mul, Involute, Dot;
    if bl == [] {
      SameVec(M, v);
    } else {
      var n := bl[0];
      var s, t := Involute(a[..n]), InvoluteBlocks(bl[1..], a[n..]);
      UnboundIsAdjoint(bl[1..], M[n..], a[n..], v[n..]);
      UnbindIsAdjoint(M[..n], a[..n], v[..n]);
      SplitAt(v, n);
      SplitAt(M, n);
      assert (s + t)[..n] == s && (s + t)[n..] == t;
      DotAppend(Mul(M[..n], s), v[..n], Bound(bl[1..], M[n..], t), v[n..]);
      DotAppend(M[..n], Mul(a[..n], v[..n]), M[n..], Bound(bl[1..], a[n..], v[n..]));
    }
  }

  /** A carrier: every entry is +1 or -1. */
  predicate Signs(v: Vec) {
    forall i :: 0 <= i < |v| ==> v[i] == 1 || v[i] == -1
  }

  lemma {:induction false} DotSelf(v: Vec)
    ensures Dot(v, v) >= 0 && (Dot(v, v) == 0 <==> v == Zero(|v|))
    decreases |v|
  {
    if v != [] {
      DotSelf(v[1..]);
      SquareSign(v[0]);
      hide Dot;
      if v == Zero(|v|) {
        assert v[1..] == Zero(|v| - 1);
      }
      if v[0] == 0 && v[1..] == Zero(|v| - 1) {
        assert forall i :: 0 < i < |v| ==> v[i] == v[1..][i - 1];
        SameVec(v, Zero(|v|));
      }
      DotUnfold(v);
    }
  }

  lemma DotUnfold(v: Vec)
    requires v != []
    ensures Dot(v, v) == v[0] * v[0] + Dot(v[1..], v[1..])
  {
  }

  lemma SquareSign(x: int)
    ensures x * x >= 0 && (x * x == 0 <==> x == 0)
  {
  }

  lemma SignsNonzero(v: Vec)
    requires Signs(v) && v != []
    ensures v != Zero(|v|)
  {
    assert v[0] != 0;
  }

  lemma RingDegree(n: nat)
    requires n in {128, 256, 512}
    ensures exists k: nat :: n == Pow2(k)
  {
    assert Pow2(1) == 2 && Pow2(2) == 4 && Pow2(3) == 8;
    assert Pow2(4) == 16 && Pow2(5) == 32 && Pow2(6) == 64;
    assert Pow2(7) == 128 && Pow2(8) == 256 && Pow2(9) == 512;
  }

  /** Binding two sign vectors never gives zero, in any positive dimension that tiles. */
  lemma BoundNonzero(bl: seq<nat>, a: Vec, b: Vec)
    requires |a| == |b| == Total(bl) > 0 && Signs(a) && Signs(b)
    requires forall i :: 0 <= i < |bl| ==> bl[i] in {128, 256, 512}
    ensures Dot(Bound(bl, a, b), Bound(bl, a, b)) > 0
  {
    var n := bl[0];
    RingDegree(n);
    var k: nat :| n == Pow2(k);
    var p := Mul(a[..n], b[..n]);
    SignsNonzero(a[..n]);
    SignsNonzero(b[..n]);
    hide Mul, Dot, Pow2, Zero;
    if p == Zero(n) {
      ProductNonzero(k, a[..n], b[..n]);
    }
    DotSelf(p);
    var rest := Bound(bl[1..], a[n..], b[n..]);
    DotSelf(rest);
    DotAppend(p, p, rest, rest);
  }

  /** The int32 conversion in front of the engine. */
  function Narrow(x: int): int {
    (x + 0x8000_0000) % 0x1_0000_0000 - 0x8000_0000
  }

  function NarrowAll(v: Vec): (r: Vec)
    ensures |r| == |v| && forall i :: 0 <= i < |v| ==> r[i] == Narrow(v[i])
  {
    seq(|v|, i requires 0 <= i < |v| => Narrow(v[i]))
  }

  /** The 32-bit two's-complement number that agrees with x modulo 2^32. */
  lemma NarrowWraps(x: int)
    ensures -0x8000_0000 <= Narrow(x) < 0x8000_0000 && (x - Narrow(x)) % 0x1_0000_0000 == 0
  {
  }

  lemma NarrowFits(v: Vec, bound: int)
    requires Bounded(v, bound) && bound < 0x8000_0000
    ensures NarrowAll(v) == v
  {
    forall i | 0 <= i < |v| ensures NarrowAll(v)[i] == v[i] {
      ModUnique(v[i] + 0x8000_0000, 0, v[i] + 0x8000_0000, 0x1_0000_0000);
    }
    SameVec(NarrowAll(v), v);
  }

  /** bind: None is the ValueError of a dimension that does not tile. */
  function Bind(addr: Vec, idv: Vec): (r: Option<Vec>)
    requires |addr| == |idv|
    ensures r.Some? <==> Blocks(|addr|).Some?
    ensures r.Some? ==> |r.value| == |addr|
  {
    var bl := Blocks(|addr|);
    if bl.None? then None else
      BlocksTile(|addr|);
      Some(Bound(bl.value, NarrowAll(addr), NarrowAll(idv)))
  }

  /** unbind: every block times the involution of the address block. */
  function Unbind(M: Vec, addr: Vec): (r: Option<Vec>)
    requires |M| == |addr|
    ensures r.Some? <==> Blocks(|addr|).Some?
    ensures r.Some? ==> |r.value| == |addr|
  {
    var bl := Blocks(|addr|);
    if bl.None? then None else
      BlocksTile(|addr|);
      Some(Bound(bl.value, NarrowAll(M), NarrowAll(InvoluteBlocks(bl.value, addr))))
  }

  /** _negmul: narrow both factors, then the engine product. */
  method Negmul(a: Vec, b: Vec) returns (o: Vec)
    requires |a| == |b| > 0
    ensures o == Mul(NarrowAll(a), NarrowAll(b))
  {
    o := NegmulInt(NarrowAll(a), NarrowAll(b));
  }

  /** _involute: first entry kept, the rest reversed and negated. */
  method InvoluteArray(a: Vec) returns (out: Vec)
    requires |a| > 0
    ensures out == Involute(a)
  {
    hide *;
    var N := |a|;
    var buf := new int[N];
    buf[0] := a[0];
    for i := 1 to N
      invariant buf[0] == a[0]
      invariant forall j {:trigger buf[j]} :: 0 < j < i ==> buf[j] == -a[N - j]
    {
      buf[i] := -a[N - i];
    }
    out := buf[..];
    SameVec(out, Involute(a));
  }

  /** What an offset loop has left to do: blocks k.., starting at offset o. */
  lemma BoundNext(bl: seq<nat>, k: nat, o: nat, a: Vec, b: Vec)
    requires k < |bl| && |a| == |b| && o + Total(bl[k..]) == |a|
    ensures o + bl[k] <= |a| && o + bl[k] + Total(bl[k + 1..]) == |a|
    ensures Bound(bl[k..], a[o..], b[o..])
         == Mul(a[o..o + bl[k]], b[o..o + bl[k]]) + Bound(bl[k + 1..], a[o + bl[k]..], b[o + bl[k]..])
  {
    hide Mul, Involute;
    var n := bl[k];
    assert bl[k..][1..] == bl[k + 1..];
    assert a[o..][..n] == a[o..o + n] && b[o..][..n] == b[o..o + n];
    assert a[o..][n..] == a[o + n..] && b[o..][n..] == b[o + n..];
  }

  /** The involution of blocks k.. splits off the block at offset o. */
  lemma {:induction false} InvoluteAt(bl: seq<nat>, k: nat, o: nat, a: Vec)
    requires k < |bl| && |a| == Total(bl) && o + Total(bl[k..]) == |a| && o + bl[k] <= |a|
    ensures InvoluteBlocks(bl, a)[o..o + bl[k]] == Involute(a[o..o + bl[k]])
    decreases k
  {
    hide *;
    InvoluteUnfold(bl, a);
    if k == 0 {
      assert bl[0..] == bl;
      var p := Involute(a[..bl[0]]);
      assert (p + InvoluteBlocks(bl[1..], a[bl[0]..]))[..|p|] == p;
      assert a[..bl[0]] == a[0..bl[0]];
    } else {
      Dropped(bl, k);
      TotalFits(bl[1..], k - 1);
      InvoluteAt(bl[1..], k - 1, o - bl[0], a[bl[0]..]);
      TailAt(Involute(a[..bl[0]]), InvoluteBlocks(bl[1..], a[bl[0]..]), a, o, o + bl[k]);
    }
  }

  lemma Dropped(bl: seq<nat>, k: nat)
    requires 0 < k < |bl|
    ensures bl[1..][k - 1..] == bl[k..] && bl[1..][k - 1] == bl[k]
  {
  }

  lemma TailAt(p: Vec, q: Vec, a: Vec, o: nat, e: nat)
    requires |p| <= o <= e <= |a| == |p| + |q|
    ensures (p + q)[o..e] == q[o - |p|..e - |p|]
    ensures a[|p|..][o - |p|..e - |p|] == a[o..e]
  {
  }

  lemma InvoluteUnfold(bl: seq<nat>, a: Vec)
    requires bl != [] && |a| == Total(bl)
    ensures bl[0] + Total(bl[1..]) == Total(bl)
    ensures InvoluteBlocks(bl, a) == Involute(a[..bl[0]]) + InvoluteBlocks(bl[1..], a[bl[0]..])
  {
  }

  lemma {:induction false} TotalFits(bl: seq<nat>, k: nat)
    requires k <= |bl|
    ensures Total(bl[k..]) <= Total(bl)
  {
    if k > 0 {
      TotalFits(bl[1..], k - 1);
      assert bl[1..][k - 1..] == bl[k..];
    } else {
      assert bl[0..] == bl;
    }
  }

  lemma NarrowSlice(v: Vec, o: nat, e: nat)
    requires o <= e <= |v|
    ensures NarrowAll(v[o..e]) == NarrowAll(v)[o..e]
  {
    hide *;
    SameVec(NarrowAll(v[o..e]), NarrowAll(v)[o..e]);
  }

  /** The offset loop's invariant: blocks before k are stored, blocks from k on are still to do. */
  ghost predicate Filled(bl: seq<nat>, k: nat, o: nat, a: Vec, b: Vec, buf: Vec, want: Vec) {
    && k <= |bl| && |a| == |b| == |buf| && o + Total(bl[k..]) == |a|
    && buf[..o] + Bound(bl[k..], a[o..], b[o..]) == want
  }

  lemma FilledStart(bl: seq<nat>, a: Vec, b: Vec, buf: Vec)
    requires |a| == |b| == |buf| == Total(bl)
    ensures Filled(bl, 0, 0, a, b, buf, Bound(bl, a, b))
  {
    assert bl[0..] == bl && a[0..] == a && b[0..] == b && buf[..0] == [];
  }

  lemma FilledNext(bl: seq<nat>, k: nat, o: nat, a: Vec, b: Vec, buf: Vec, want: Vec)
    requires Filled(bl, k, o, a, b, buf, want) && k < |bl|
    ensures o + bl[k] <= |buf|
    ensures var p := Mul(a[o..o + bl[k]], b[o..o + bl[k]]);
            Filled(bl, k + 1, o + bl[k], a, b, buf[..o] + p + buf[o + bl[k]..], want)
  {
    BoundNext(bl, k, o, a, b);
    hide Mul, Bound, Total;
    var n := bl[k];
    Store(buf, o, Mul(a[o..o + n], b[o..o + n]), Bound(bl[k + 1..], a[o + n..], b[o + n..]));
  }

  lemma FilledEnd(bl: seq<nat>, o: nat, a: Vec, b: Vec, buf: Vec, want: Vec)
    requires Filled(bl, |bl|, o, a, b, buf, want)
    ensures buf == want
  {
    assert bl[|bl|..] == [] && buf[..o] == buf && a[o..] == [];
    assert buf + [] == buf;
  }

  lemma DegreesOf(D: nat)
    requires Blocks(D).Some?
    ensures Total(Blocks(D).value) == D
    ensures forall i :: 0 <= i < |Blocks(D).value| ==> Blocks(D).value[i] > 0
  {
    BlocksTile(D);
  }

  lemma BindIs(addr: Vec, idv: Vec)
    requires |addr| == |idv|
    ensures var bl := Blocks(|addr|);
            && (bl.Some? ==> Total(bl.value) == |addr| && forall i :: 0 <= i < |bl.value| ==> bl.value[i] > 0)
            && (bl.Some? ==> Bind(addr, idv) == Some(Bound(bl.value, NarrowAll(addr), NarrowAll(idv))))
            && (bl.None? ==> Bind(addr, idv) == None)
  {
    hide Bound, NarrowAll;
    if Blocks(|addr|).Some? { DegreesOf(|addr|); }
  }

  lemma UnbindIs(M: Vec, addr: Vec)
    requires |M| == |addr|
    ensures var bl := Blocks(|addr|);
            && (bl.Some? ==> Total(bl.value) == |addr| && forall i :: 0 <= i < |bl.value| ==> bl.value[i] > 0)
            && (bl.Some? ==>
                  Unbind(M, addr) == Some(Bound(bl.value, NarrowAll(M), NarrowAll(InvoluteBlocks(bl.value, addr)))))
            && (bl.None? ==> Unbind(M, addr) == None)
  {
    hide Bound, NarrowAll, InvoluteBlocks;
    if Blocks(|addr|).Some? { DegreesOf(|addr|); }
  }

  /** bind, with the moving offset. */
  method BindBlocks(addr: Vec, idv: Vec) returns (out: Option<Vec>)
    requires |addr| == |idv|
    ensures out == Bind(addr, idv)
  {
    hide *;
    var D := |addr|;
    var bs := BlockList(D);
    BindIs(addr, idv);
    if bs.None? { return None; }
    var bl := bs.value;
    ghost var A, B := NarrowAll(addr), NarrowAll(idv);
    ghost var want := Bound(bl, A, B);
    var buf: Vec, o := Zero(D), 0;
    FilledStart(bl, A, B, buf);
    for k := 0 to |bl|
      invariant 0 <= o <= |buf| == D
      invariant Filled(bl, k, o, A, B, buf, want)
    {
      var N := bl[k];
      FilledNext(bl, k, o, A, B, buf, want);
      NarrowSlice(addr, o, o + N);
      NarrowSlice(idv, o, o + N);
      var p := Negmul(addr[o..o + N], idv[o..o + N]);
      buf := buf[..o] + p + buf[o + N..];
      o := o + N;
    }
    FilledEnd(bl, o, A, B, buf, want);
    out := Some(buf);
  }

  lemma Store(buf: Vec, o: nat, p: Vec, rest: Vec)
    requires o + |p| <= |buf|
    ensures (buf[..o] + p + buf[o + |p|..])[..o + |p|] == buf[..o] + p
    ensures buf[..o] + (p + rest) == buf[..o] + p + rest
  {
  }

  /** One block of unbind. */
  method NegmulInvoluted(m: Vec, a: Vec) returns (p: Vec)
    requires |m| == |a| > 0
    ensures p == Mul(NarrowAll(m), NarrowAll(Involute(a)))
  {
    var star := InvoluteArray(a);
    p := Negmul(m, star);
  }

  /** unbind, with the moving offset. */
  method UnbindBlocks(M: Vec, addr: Vec) returns (out: Option<Vec>)
    requires |M| == |addr|
    ensures out == Unbind(M, addr)
  {
    hide *;
    var D := |addr|;
    var bs := BlockList(D);
    UnbindIs(M, addr);
    if bs.None? { return None; }
    var bl := bs.value;
    ghost var A, B := NarrowAll(M), NarrowAll(InvoluteBlocks(bl, addr));
    ghost var want := Bound(bl, A, B);
    var buf: Vec, o := Zero(D), 0;
    FilledStart(bl, A, B, buf);
    for k := 0 to |bl|
      invariant 0 <= o <= |buf| == D
      invariant Filled(bl, k, o, A, B, buf, want)
    {
      var N := bl[k];
      FilledNext(bl, k, o, A, B, buf, want);
      UnbindFactors(bl, k, o, M, addr, buf, want);
      var p := NegmulInvoluted(M[o..o + N], addr[o..o + N]);
      buf := buf[..o] + p + buf[o + N..];
      o := o + N;
    }
    FilledEnd(bl, o, A, B, buf, want);
    out := Some(buf);
  }

  /** The two factors unbind passes to the engine for block k, as slices of the whole vectors. */
  lemma UnbindFactors(bl: seq<nat>, k: nat, o: nat, M: Vec, addr: Vec, buf: Vec, want: Vec)
    requires k < |bl| && |addr| == |M| == Total(bl)
    requires Filled(bl, k, o, NarrowAll(M), NarrowAll(InvoluteBlocks(bl, addr)), buf, want)
    ensures o + bl[k] <= |addr|
    ensures NarrowAll(M[o..o + bl[k]]) == NarrowAll(M)[o..o + bl[k]]
    ensures NarrowAll(Involute(addr[o..o + bl[k]])) == NarrowAll(InvoluteBlocks(bl, addr))[o..o + bl[k]]
  {
    hide Bound, Involute, InvoluteBlocks, NarrowAll;
    InvoluteAt(bl, k, o, addr);
    NarrowSlice(M, o, o + bl[k]);
    NarrowSlice(InvoluteBlocks(bl, addr), o, o + bl[k]);
  }

  /** Products stay small: a coefficient is a signed sum of N products. */
  lemma {:induction false} ActBounded(a: Vec, b: Vec, p: int, q: int)
    requires Bounded(a, p) && Bounded(b, q)
    ensures Bounded(Act(a, b), |a| * (p * q))
    decreases |a|
  {
    ActUnfold(a, b);
    hide *;
    var n := |b|;
    if a == [] {
      ZeroBounded(n);
      assert 0 * (p * q) == 0;
    } else {
      TailBounded(a, p);
      ActBounded(a[1..], b, p, q);
      AddScaled(a[0], b, Act(a[1..], b), p, q, |a[1..]|);
    }
  }

  lemma ZeroBounded(n: nat)
    ensures Bounded(Zero(n), 0)
  {
  }

  lemma TailBounded(a: Vec, p: int)
    requires Bounded(a, p) && a != []
    ensures Bounded(a[1..], p) && -p <= a[0] <= p
  {
    assert forall i :: 0 <= i < |a| - 1 ==> a[1..][i] == a[i + 1];
  }

  lemma ProductBound(x: int, y: int, p: int, q: int)
    requires -p <= x <= p && -q <= y <= q
    ensures -(p * q) <= x * y <= p * q
  {
    assert (p - x) * (q + y) >= 0 && (p + x) * (q - y) >= 0;
    assert (p - x) * (q - y) >= 0 && (p + x) * (q + y) >= 0;
  }

  lemma AddScaled(k: int, b: Vec, w: Vec, p: int, q: int, n: nat)
    requires -p <= k <= p && Bounded(b, q) && Bounded(w, n * (p * q)) && |b| == |w|
    ensures Bounded(Add(Scale(k, b), MulX(w)), (n + 1) * (p * q))
  {
    hide Add, Scale, MulX;
    assert (n + 1) * (p * q) == n * (p * q) + p * q;
    if b == [] {
      ProductBound(0, 0, p, q);
    }
    forall i | 0 <= i < |b| ensures -((n + 1) * (p * q)) <= Add(Scale(k, b), MulX(w))[i] <= (n + 1) * (p * q) {
      ProductBound(k, b[i], p, q);
    }
  }

  /** Two carriers: every coefficient of the bind is at most the block size. */
  lemma {:induction false} BoundBounded(bl: seq<nat>, a: Vec, b: Vec)
    requires |a| == |b| == Total(bl) && Signs(a) && Signs(b)
    requires forall i :: 0 <= i < |bl| ==> bl[i] in {128, 256, 512}
    ensures Bounded(Bound(bl, a, b), 512)
    decreases |bl|
  {
    if bl != [] {
      var n := bl[0];
      BoundBounded(bl[1..], a[n..], b[n..]);
      ActBounded(a[..n], b[..n], 1, 1);
      MulIs(a[..n], b[..n]);
      hide Mul, Act;
      assert n * (1 * 1) == n <= 512;
      BoundedAppend(Mul(a[..n], b[..n]), Bound(bl[1..], a[n..], b[n..]), 512);
    }
  }

  lemma BoundedAppend(u: Vec, v: Vec, p: int)
    requires Bounded(u, p) && Bounded(v, p)
    ensures Bounded(u + v, p)
  {
  }

  lemma SignsBounded(v: Vec)
    requires Signs(v)
    ensures Bounded(v, 1) && NarrowAll(v) == v
  {
    NarrowFits(v, 1);
  }

  lemma {:induction false} InvoluteSigns(bl: seq<nat>, a: Vec)
    requires |a| == Total(bl) && Signs(a)
    ensures Signs(InvoluteBlocks(bl, a))
    decreases |bl|
  {
    if bl != [] {
      var n := bl[0];
      InvoluteSigns(bl[1..], a[n..]);
      assert Signs(Involute(a[..n]));
    }
  }

  /** Binding carriers is the block product itself; narrowing costs nothing and the entries stay within 512. */
  lemma BindOfSigns(a: Vec, b: Vec)
    requires |a| == |b| && Signs(a) && Signs(b) && Blocks(|a|).Some?
    ensures Total(Blocks(|a|).value) == |a|
    ensures Bind(a, b) == Some(Bound(Blocks(|a|).value, a, b))
    ensures Bounded(Bind(a, b).value, 512)
  {
    BlocksTile(|a|);
    SignsBounded(a);
    SignsBounded(b);
    hide Bound;
    BoundBounded(Blocks(|a|).value, a, b);
  }

  /** The score of an id against an unbound vector is the inner product of the vector with that bind. */
  lemma ScoreIsInner(M: Vec, a: Vec, v: Vec)
    requires |M| == |a| == |v| && Signs(a) && Signs(v) && Blocks(|a|).Some?
    requires Bounded(M, 0x7fff_ffff)
    ensures Dot(Unbind(M, a).value, v) == Dot(M, Bind(a, v).value)
  {
    BlocksTile(|a|);
    var bl := Blocks(|a|).value;
    NarrowFits(M, 0x7fff_ffff);
    InvoluteSigns(bl, a);
    SignsBounded(InvoluteBlocks(bl, a));
    BindOfSigns(a, v);
    UnboundIsAdjoint(bl, M, a, v);
  }

  /** A lone bind scores its own squared length, which is positive in every positive dimension. */
  lemma LoneScorePositive(a: Vec, v: Vec)
    requires |a| == |v| > 0 && Signs(a) && Signs(v) && Blocks(|a|).Some?
    ensures Dot(Unbind(Bind(a, v).value, a).value, v) == Dot(Bind(a, v).value, Bind(a, v).value) > 0
  {
    BindOfSigns(a, v);
    BlocksTile(|a|);
    BoundNonzero(Blocks(|a|).value, a, v);
    var B := Bind(a, v).value;
    hide *;
    WiderBound(B, 512, 0x7fff_ffff);
    ScoreIsInner(B, a, v);
  }
}
