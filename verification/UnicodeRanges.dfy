/** The codepoint range tables: their generator and the binary search over them. */
module UnicodeRanges {
  datatype Range = Range(lo: int, hi: int)

  ghost predicate Covered(r: seq<Range>, cp: int) {
    exists i :: 0 <= i < |r| && r[i].lo <= cp <= r[i].hi
  }

  /** Non-empty intervals in ascending order, no two touching. */
  ghost predicate Separated(r: seq<Range>) {
    && (forall i :: 0 <= i < |r| ==> r[i].lo <= r[i].hi)
    && (forall i, j :: 0 <= i < j < |r| ==> r[i].hi + 1 < r[j].lo)
  }

  /** ranges: the maximal runs of a predicate below n. */
  method Ranges(pred: int -> bool, n: nat) returns (out: seq<Range>)
    ensures Separated(out) && forall i :: 0 <= i < |out| ==> 0 <= out[i].lo && out[i].hi < n
    ensures forall cp :: Covered(out, cp) <==> 0 <= cp < n && pred(cp)
  {
    hide Covered;
    out := [];
    NothingCovered();
    var start := -1;
    for cp := 0 to n
      invariant Separated(out)
      invariant forall i :: 0 <= i < |out| ==> 0 <= out[i].lo && out[i].hi + 1 < (if start >= 0 then start else cp)
      invariant -1 <= start < cp || start == -1
      invariant start >= 0 ==> forall k :: start <= k < cp ==> pred(k)
      invariant start == -1 && cp > 0 ==> !pred(cp - 1)
      invariant start > 0 ==> !pred(start - 1)
      invariant forall k :: Covered(out, k) <==> 0 <= k < (if start >= 0 then start else cp) && pred(k)
    {
      if pred(cp) {
        if start == -1 { start := cp; }
      } else {
        if start != -1 {
          OneMore(out, Range(start, cp - 1));
          out := out + [Range(start, cp - 1)];
          start := -1;
        }
      }
    }
    if start != -1 {
      OneMore(out, Range(start, n - 1));
      out := out + [Range(start, n - 1)];
    }
  }

  lemma NothingCovered()
    ensures forall k :: !Covered([], k)
  {
  }

  lemma OneMore(out: seq<Range>, x: Range)
    ensures forall k :: Covered(out + [x], k) <==> Covered(out, k) || x.lo <= k <= x.hi
  {
    var more := out + [x];
    forall k ensures Covered(more, k) <==> Covered(out, k) || x.lo <= k <= x.hi {
      if i :| 0 <= i < |out| && out[i].lo <= k <= out[i].hi {
        assert more[i] == out[i];
      }
      assert more[|out|] == x;
    }
  }

  /** in_ranges: binary search. */
  method InRanges(r: seq<Range>, cp: int) returns (found: bool)
    requires Separated(r)
    ensures found <==> Covered(r, cp)
  {
    var lo, hi := 0, |r|;
    while lo < hi
      invariant 0 <= lo <= hi <= |r|
      invariant forall i :: 0 <= i < lo ==> r[i].hi < cp
      invariant forall i :: hi <= i < |r| ==> cp < r[i].lo
    {
      var mid := (lo + hi) / 2;
      if cp < r[mid].lo { hi := mid; }
      else if cp > r[mid].hi { lo := mid + 1; }
      else { return true; }
    }
    return false;
  }

  /** Searching a generated table decides the predicate, and answers no beyond the generator's limit. */
  method Classify(pred: int -> bool, n: nat, cp: int) returns (yes: bool)
    ensures yes <==> 0 <= cp < n && pred(cp)
  {
    var table := Ranges(pred, n);
    yes := InRanges(table, cp);
  }

  lemma FirstStarts(r: seq<Range>, q: seq<Range>)
    requires Separated(r) && Separated(q) && r != [] && q != []
    requires forall cp :: Covered(r, cp) <==> Covered(q, cp)
    ensures r[0] == q[0]
  {
    assert Covered(r, r[0].lo) && Covered(q, q[0].lo);
    assert r[0].lo == q[0].lo;
    FirstEnds(r, q[0].hi + 1);
    FirstEnds(q, r[0].hi + 1);
    FirstEnds(r, r[0].hi + 1);
    FirstEnds(q, q[0].hi + 1);
  }

  /** What the first interval decides. */
  lemma FirstEnds(r: seq<Range>, cp: int)
    requires Separated(r)
    ensures r != [] && r[0].lo <= cp <= r[0].hi ==> Covered(r, cp)
    ensures r != [] && cp == r[0].hi + 1 ==> !Covered(r, cp)
  {
  }

  lemma FirstCovered(r: seq<Range>)
    requires Separated(r)
    ensures r != [] ==> Covered(r, r[0].lo)
  {
    if r != [] { FirstEnds(r, r[0].lo); }
  }

  lemma RestCovers(r: seq<Range>, cp: int)
    requires Separated(r) && r != []
    ensures Covered(r[1..], cp) <==> Covered(r, cp) && cp > r[0].hi
  {
    if i :| 0 <= i < |r| && r[i].lo <= cp <= r[i].hi && cp > r[0].hi {
      assert r[1..][i - 1] == r[i];
    }
  }

  /** Tables are canonical: two separated tables with the same codepoints are the same table, so the intervals
      are maximal. */
  lemma {:induction false} Canonical(r: seq<Range>, q: seq<Range>)
    requires Separated(r) && Separated(q) && forall cp :: Covered(r, cp) <==> Covered(q, cp)
    ensures r == q
    decreases |r|
  {
    FirstCovered(r);
    FirstCovered(q);
    if r != [] && q != [] {
      FirstStarts(r, q);
      forall cp ensures Covered(r[1..], cp) <==> Covered(q[1..], cp) {
        RestCovers(r, cp);
        RestCovers(q, cp);
      }
      hide Covered;
      Canonical(r[1..], q[1..]);
      assert r == [r[0]] + r[1..] && q == [q[0]] + q[1..];
    }
  }
}
