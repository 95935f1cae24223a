/** The special-token pre-split shared by the three encoders: at each position the first listed surface
    that matches is taken, and the text between hits stays raw. */
module Specials {
  import opened Basics

  datatype Special = Special(surf: Bytes, id: int)

  datatype Segment = Raw(text: Bytes) | Hit(sp: Special)

  predicate MatchesAt(sp: Special, s: Bytes, i: nat)
    requires i <= |s|
  {
    |sp.surf| > 0 && i + |sp.surf| <= |s| && s[i..i + |sp.surf|] == sp.surf
  }

  /** Index of the first special at or after k that matches at i; |spec| when there is none. */
  function FirstHit(spec: seq<Special>, s: Bytes, i: nat, k: nat): (r: nat)
    requires i <= |s| && k <= |spec|
    ensures k <= r <= |spec|
    ensures r < |spec| ==> MatchesAt(spec[r], s, i)
    ensures forall j :: k <= j < r ==> !MatchesAt(spec[j], s, i)
    decreases |spec| - k
  {
    if k == |spec| || MatchesAt(spec[k], s, i) then k else FirstHit(spec, s, i, k + 1)
  }

  /** spec_cmp_desc: longer surfaces first. */
  ghost predicate LongestFirst(spec: seq<Special>) {
    forall j, k :: 0 <= j < k < |spec| ==> |spec[j].surf| >= |spec[k].surf|
  }

  function RawGap(s: Bytes, tstart: nat, i: nat): seq<Segment>
    requires tstart <= i <= |s|
  {
    if i > tstart then [Raw(s[tstart..i])] else []
  }

  /** Segments of s[tstart..] when the scan stands at i and s[tstart..i] is still pending. */
  function Segments(spec: seq<Special>, s: Bytes, tstart: nat, i: nat): seq<Segment>
    requires tstart <= i <= |s|
    decreases |s| - i
  {
    if i == |s| then RawGap(s, tstart, i) else
      var k := FirstHit(spec, s, i, 0);
      if k == |spec| then Segments(spec, s, tstart, i + 1)
      else RawGap(s, tstart, i) + [Hit(spec[k])] + Segments(spec, s, i + |spec[k].surf|, i + |spec[k].surf|)
  }

  lemma Segmented(spec: seq<Special>, s: Bytes, tstart: nat, i: nat)
    requires tstart <= i < |s|
    ensures var k := FirstHit(spec, s, i, 0);
            && (k == |spec| ==> Segments(spec, s, tstart, i) == Segments(spec, s, tstart, i + 1))
            && (k < |spec| ==> var n := i + |spec[k].surf|;
                  Segments(spec, s, tstart, i) == RawGap(s, tstart, i) + [Hit(spec[k])] + Segments(spec, s, n, n))
  {
  }

  lemma Regroup<T>(a: seq<T>, b: seq<T>, c: seq<T>, d: seq<T>)
    ensures a + (b + c + d) == a + b + c + d
  {
  }

  lemma HitAdvances(sp: Special, s: Bytes, i: nat)
    requires i <= |s| && MatchesAt(sp, s, i)
    ensures 0 < |sp.surf| <= |s| - i
  {
  }

  lemma Ended(spec: seq<Special>, s: Bytes, tstart: nat)
    requires tstart <= |s|
    ensures Segments(spec, s, tstart, |s|) == RawGap(s, tstart, |s|)
  {
  }

  method FindHit(spec: seq<Special>, s: Bytes, i: nat) returns (k: nat)
    requires i <= |s|
    ensures k == FirstHit(spec, s, i, 0)
  {
    k := 0;
    while k < |spec| && !MatchesAt(spec[k], s, i)
      invariant k <= |spec| && FirstHit(spec, s, i, k) == FirstHit(spec, s, i, 0)
    {
      k := k + 1;
    }
  }

  /** With the list sorted, a hit is a longest match. */
  lemma HitIsLongest(spec: seq<Special>, s: Bytes, i: nat, j: nat)
    requires LongestFirst(spec) && i <= |s| && j < |spec| && MatchesAt(spec[j], s, i)
    ensures FirstHit(spec, s, i, 0) < |spec|
    ensures |spec[FirstHit(spec, s, i, 0)].surf| >= |spec[j].surf|
  {
  }

  /** Without specials the text is one raw segment. */
  lemma {:induction false} NoSpecials(s: Bytes, i: nat)
    requires i <= |s|
    ensures Segments([], s, 0, i) == if s == [] then [] else [Raw(s)]
    decreases |s| - i
  {
    if i < |s| {
      NoSpecials(s, i + 1);
    } else {
      assert s[0..|s|] == s;
    }
  }

  function SegmentText(seg: Segment): Bytes {
    match seg case Raw(text) => text case Hit(sp) => sp.surf
  }

  function SegmentsText(segs: seq<Segment>): Bytes {
    if segs == [] then [] else SegmentText(segs[0]) + SegmentsText(segs[1..])
  }

  lemma SegmentsTextAppend(a: seq<Segment>, b: seq<Segment>)
    ensures SegmentsText(a + b) == SegmentsText(a) + SegmentsText(b)
  {
    if a == [] {
      assert a + b == b;
    } else {
      assert (a + b)[1..] == a[1..] + b;
    }
  }

  lemma GapText(s: Bytes, tstart: nat, i: nat)
    requires tstart <= i <= |s|
    ensures SegmentsText(RawGap(s, tstart, i)) == s[tstart..i]
  {
    var gap := RawGap(s, tstart, i);
    if i > tstart { assert gap[1..] == []; }
  }

  lemma HitText(spec: seq<Special>, s: Bytes, tstart: nat, i: nat, k: nat)
    requires tstart <= i <= |s| && k < |spec| && MatchesAt(spec[k], s, i)
    ensures SegmentsText(RawGap(s, tstart, i) + [Hit(spec[k])]) == s[tstart..i + |spec[k].surf|]
  {
    var hit: seq<Segment> := [Hit(spec[k])];
    assert hit[1..] == [] && SegmentsText(hit) == spec[k].surf + SegmentsText(hit[1..]);
    GapText(s, tstart, i);
    SegmentsTextAppend(RawGap(s, tstart, i), hit);
    hide SegmentsText;
    assert s[tstart..i] + s[i..i + |spec[k].surf|] == s[tstart..i + |spec[k].surf|];
  }

  /** Raw texts and matched surfaces, in order, are the text. */
  lemma {:induction false} SegmentsCover(spec: seq<Special>, s: Bytes, tstart: nat, i: nat)
    requires tstart <= i <= |s|
    ensures SegmentsText(Segments(spec, s, tstart, i)) == s[tstart..]
    decreases |s| - i
  {
    hide *;
    if i == |s| {
      Ended(spec, s, tstart);
      GapText(s, tstart, i);
      assert s[tstart..i] == s[tstart..];
    } else {
      Segmented(spec, s, tstart, i);
      var k := FirstHit(spec, s, i, 0);
      if k == |spec| {
        SegmentsCover(spec, s, tstart, i + 1);
      } else {
        HitAdvances(spec[k], s, i);
        var n := i + |spec[k].surf|;
        HitText(spec, s, tstart, i, k);
        SegmentsCover(spec, s, n, n);
        SegmentsTextAppend(RawGap(s, tstart, i) + [Hit(spec[k])], Segments(spec, s, n, n));
        assert s[tstart..n] + s[n..] == s[tstart..];
      }
    }
  }

  /** No listed special matches anywhere in s[a..b]. */
  ghost predicate Clear(spec: seq<Special>, s: Bytes, a: nat, b: nat)
    requires b <= |s|
  {
    forall i, j :: a <= i < b && 0 <= j < |spec| ==> !MatchesAt(spec[j], s, i)
  }

  /** Segment seg stands at s[a..b]: a raw text is not empty and holds no position at which a special matches, a hit
      is the first listed special that matches at a. */
  ghost predicate Stands(spec: seq<Special>, s: Bytes, seg: Segment, a: nat, b: nat) {
    && a < b <= |s|
    && SegmentText(seg) == s[a..b]
    && (seg.Raw? ==> Clear(spec, s, a, b))
    && (seg.Hit? ==>
          exists j :: 0 <= j < |spec| && seg.sp == spec[j] && forall k :: 0 <= k < j ==> !MatchesAt(spec[k], s, a))
  }

  /** The segments stand one after another from a to the end, no two raw texts side by side. */
  ghost predicate Placed(spec: seq<Special>, s: Bytes, segs: seq<Segment>, a: nat)
    decreases |segs|
  {
    if segs == [] then a == |s| else
      var b := a + |SegmentText(segs[0])|;
      && Stands(spec, s, segs[0], a, b)
      && (segs[0].Raw? && |segs| > 1 ==> segs[1].Hit?)
      && Placed(spec, s, segs[1..], b)
  }

  lemma PlacedCons(spec: seq<Special>, s: Bytes, x: Segment, a: nat, b: nat, rest: seq<Segment>)
    requires Stands(spec, s, x, a, b) && Placed(spec, s, rest, b) && b == a + |SegmentText(x)|
    requires x.Raw? && rest != [] ==> rest[0].Hit?
    ensures Placed(spec, s, [x] + rest, a)
  {
    hide Stands;
    assert ([x] + rest)[1..] == rest;
  }

  lemma PlacedRaw(spec: seq<Special>, s: Bytes, a: nat, b: nat, rest: seq<Segment>)
    requires a <= b <= |s| && Clear(spec, s, a, b) && Placed(spec, s, rest, b)
    requires rest != [] ==> rest[0].Hit?
    ensures Placed(spec, s, RawGap(s, a, b) + rest, a)
  {
    hide Placed, Clear;
    if a == b {
      assert RawGap(s, a, b) + rest == rest;
    } else {
      PlacedCons(spec, s, Raw(s[a..b]), a, b, rest);
    }
  }

  lemma PlacedHit(spec: seq<Special>, s: Bytes, a: nat, rest: seq<Segment>)
    requires a < |s| && FirstHit(spec, s, a, 0) < |spec|
    requires Placed(spec, s, rest, a + |spec[FirstHit(spec, s, a, 0)].surf|)
    ensures Placed(spec, s, [Hit(spec[FirstHit(spec, s, a, 0)])] + rest, a)
  {
    hide Placed, FirstHit;
    var k := FirstHit(spec, s, a, 0);
    assert MatchesAt(spec[k], s, a);
    PlacedCons(spec, s, Hit(spec[k]), a, a + |spec[k].surf|, rest);
  }

  /** Every special the scan can find is found, at the first position where one matches, and nothing else is cut. */
  lemma {:induction false} SegmentsStand(spec: seq<Special>, s: Bytes, tstart: nat, i: nat)
    requires tstart <= i <= |s| && Clear(spec, s, tstart, i)
    ensures Placed(spec, s, Segments(spec, s, tstart, i), tstart)
    decreases |s| - i
  {
    hide Placed, Segments, RawGap;
    if i == |s| {
      Ended(spec, s, tstart);
      NothingPlaced(spec, s);
      PlacedRaw(spec, s, tstart, i, []);
      assert RawGap(s, tstart, i) + [] == RawGap(s, tstart, i);
    } else {
      Segmented(spec, s, tstart, i);
      var k := FirstHit(spec, s, i, 0);
      if k == |spec| {
        SegmentsStand(spec, s, tstart, i + 1);
      } else {
        var n := i + |spec[k].surf|;
        SegmentsStand(spec, s, n, n);
        PlacedHit(spec, s, i, Segments(spec, s, n, n));
        PlacedRaw(spec, s, tstart, i, [Hit(spec[k])] + Segments(spec, s, n, n));
        Reassociate(RawGap(s, tstart, i), [Hit(spec[k])], Segments(spec, s, n, n));
      }
    }
  }

  lemma NothingPlaced(spec: seq<Special>, s: Bytes)
    ensures Placed(spec, s, [], |s|)
  {
  }

  lemma Reassociate<T>(a: seq<T>, b: seq<T>, c: seq<T>)
    ensures a + b + c == a + (b + c)
  {
  }

  lemma PlacedParts(spec: seq<Special>, s: Bytes, segs: seq<Segment>, a: nat)
    requires Placed(spec, s, segs, a) && segs != []
    ensures var b := a + |SegmentText(segs[0])|;
            && Stands(spec, s, segs[0], a, b) && Placed(spec, s, segs[1..], b)
            && (segs[0].Raw? && |segs| > 1 ==> segs[1].Hit?)
            && (|segs| == 1 ==> b == |s|)
  {
    hide Stands;
  }

  lemma NonePlaced(spec: seq<Special>, s: Bytes, a: nat)
    ensures Placed(spec, s, [], a) <==> a == |s|
  {
  }

  /** A hit's special matches where it stands. */
  lemma HitMatches(spec: seq<Special>, s: Bytes, seg: Segment, a: nat, b: nat)
    requires Stands(spec, s, seg, a, b) && seg.Hit?
    ensures a < |s| && exists j :: 0 <= j < |spec| && MatchesAt(spec[j], s, a) && seg.sp == spec[j]
  {
    assert s[a..b] == seg.sp.surf && |s[a..b]| == b - a;
  }

  /** So it does not stand inside a raw text. */
  lemma HitOutsideRaw(spec: seq<Special>, s: Bytes, raw: Segment, a: nat, b: nat, hit: Segment, c: nat, d: nat)
    requires Stands(spec, s, raw, a, b) && raw.Raw? && Stands(spec, s, hit, c, d) && hit.Hit?
    ensures c < a || c >= b
  {
    HitMatches(spec, s, hit, c, d);
    hide MatchesAt;
  }

  lemma SameHit(spec: seq<Special>, s: Bytes, x: Segment, y: Segment, a: nat, b: nat, b': nat)
    requires Stands(spec, s, x, a, b) && x.Hit? && Stands(spec, s, y, a, b') && y.Hit?
    ensures x == y
  {
    HitMatches(spec, s, x, a, b);
    HitMatches(spec, s, y, a, b');
    hide MatchesAt;
    var j :| 0 <= j < |spec| && x.sp == spec[j] && forall k :: 0 <= k < j ==> !MatchesAt(spec[k], s, a);
    var l :| 0 <= l < |spec| && y.sp == spec[l] && forall k :: 0 <= k < l ==> !MatchesAt(spec[k], s, a);
  }

  lemma SameRaw(spec: seq<Special>, s: Bytes, x: Segment, y: Segment, a: nat, b: nat)
    requires Stands(spec, s, x, a, b) && x.Raw? && Stands(spec, s, y, a, b) && y.Raw?
    ensures x == y
  {
  }

  /** A raw text ends at the first position where a special matches, so it cannot end sooner. */
  lemma RawNotShorter(spec: seq<Special>, s: Bytes, x: seq<Segment>, y: seq<Segment>, a: nat)
    requires Placed(spec, s, x, a) && Placed(spec, s, y, a) && x != [] && y != [] && x[0].Raw?
    ensures y[0].Raw? && |SegmentText(y[0])| <= |SegmentText(x[0])|
  {
    hide *;
    PlacedParts(spec, s, x, a);
    PlacedParts(spec, s, y, a);
    var b, b' := a + |SegmentText(x[0])|, a + |SegmentText(y[0])|;
    StandsInside(spec, s, x[0], a, b);
    StandsInside(spec, s, y[0], a, b');
    if y[0].Hit? {
      HitOutsideRaw(spec, s, x[0], a, b, y[0], a, b');
    } else if b < b' {
      NonePlaced(spec, s, b);
      assert x[1..] != [] && x[1..][0] == x[1];
      PlacedParts(spec, s, x[1..], b);
      HitOutsideRaw(spec, s, y[0], a, b', x[1], b, b + |SegmentText(x[1])|);
    }
  }

  lemma StandsInside(spec: seq<Special>, s: Bytes, seg: Segment, a: nat, b: nat)
    requires Stands(spec, s, seg, a, b)
    ensures a < b <= |s|
  {
  }

  lemma SameStand(spec: seq<Special>, s: Bytes, x: seq<Segment>, y: seq<Segment>, a: nat)
    requires Placed(spec, s, x, a) && Placed(spec, s, y, a) && x != [] && y != []
    ensures x[0] == y[0]
  {
    hide *;
    PlacedParts(spec, s, x, a);
    PlacedParts(spec, s, y, a);
    var b, b' := a + |SegmentText(x[0])|, a + |SegmentText(y[0])|;
    if x[0].Raw? {
      RawNotShorter(spec, s, x, y, a);
      RawNotShorter(spec, s, y, x, a);
      SameRaw(spec, s, x[0], y[0], a, b);
    } else if y[0].Raw? {
      RawNotShorter(spec, s, y, x, a);
    } else {
      SameHit(spec, s, x[0], y[0], a, b, b');
    }
  }

  /** There is only one such list of segments. */
  lemma {:induction false} PlacedUnique(spec: seq<Special>, s: Bytes, a: nat, x: seq<Segment>, y: seq<Segment>)
    requires Placed(spec, s, x, a) && Placed(spec, s, y, a)
    ensures x == y
    decreases |x|
  {
    hide *;
    NonePlaced(spec, s, a);
    if x != [] {
      PlacedParts(spec, s, x, a);
      StandsInside(spec, s, x[0], a, a + |SegmentText(x[0])|);
    }
    if y != [] {
      PlacedParts(spec, s, y, a);
      StandsInside(spec, s, y[0], a, a + |SegmentText(y[0])|);
    }
    if x != [] && y != [] {
      SameStand(spec, s, x, y, a);
      PlacedUnique(spec, s, a + |SegmentText(x[0])|, x[1..], y[1..]);
      assert x == [x[0]] + x[1..] && y == [y[0]] + y[1..];
    }
  }

  /** The scan loop. With parse_special off, or no specials, the whole text is one raw segment. */
  method Presplit(spec: seq<Special>, s: Bytes, parseSpecial: bool) returns (segs: seq<Segment>)
    ensures segs == Segments(if parseSpecial then spec else [], s, 0, 0)
    ensures Placed(if parseSpecial then spec else [], s, segs, 0)
  {
    hide Segments, FirstHit, MatchesAt, RawGap, Placed;
    ghost var used := if parseSpecial then spec else [];
    SegmentsStand(used, s, 0, 0);
    segs := [];
    var tstart: nat, i: nat := 0, 0;
    while i < |s|
      invariant tstart <= i <= |s|
      invariant segs + Segments(used, s, tstart, i) == Segments(used, s, 0, 0)
      decreases |s| - i
    {
      Segmented(used, s, tstart, i);
      var k := |spec|;
      if parseSpecial && |spec| > 0 {
        k := FindHit(spec, s, i);
      }
      if k < |spec| {
        HitAdvances(spec[k], s, i);
        Regroup(segs, RawGap(s, tstart, i), [Hit(spec[k])],
                Segments(used, s, i + |spec[k].surf|, i + |spec[k].surf|));
        segs := segs + RawGap(s, tstart, i) + [Hit(spec[k])];
        i := i + |spec[k].surf|;
        tstart := i;
      } else {
        i := i + 1;
      }
    }
    Ended(used, s, tstart);
    segs := segs + RawGap(s, tstart, |s|);
  }
}
