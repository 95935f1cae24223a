/** The simple form of byte-pair encoding: while some adjacent pair is ranked, merge the lowest-ranked
    one, leftmost on ties. It is the quadratic loop of bpe_proto.py, on byte strings. Every encoder
    lane is proved to compute it. */
module GreedyBpe {
  import opened Basics

  /** Rank of an adjacent pair; lower merges first, None never merges. */
  type Ranking = (Bytes, Bytes) -> Option<real>

  /** The order in which candidates are taken: by rank, then by position. */
  predicate Before(p: real, i: nat, q: real, j: nat) {
    p < q || (p == q && i < j)
  }

  function PairRank(rank: Ranking, syms: seq<Bytes>, k: nat): Option<real>
    requires k + 1 < |syms|
  {
    rank(syms[k], syms[k + 1])
  }

  /** k is the pair that must be merged next. */
  ghost predicate IsBest(rank: Ranking, syms: seq<Bytes>, k: nat) {
    && k + 1 < |syms|
    && PairRank(rank, syms, k).Some?
    && forall j: nat :: j + 1 < |syms| && j != k && PairRank(rank, syms, j).Some?
         ==> Before(PairRank(rank, syms, k).value, k, PairRank(rank, syms, j).value, j)
  }

  ghost predicate Stuck(rank: Ranking, syms: seq<Bytes>) {
    forall j: nat :: j + 1 < |syms| ==> PairRank(rank, syms, j).None?
  }

  /** One left-to-right scan over the first n pairs, keeping the first strictly lowest rank. */
  function Scan(rank: Ranking, syms: seq<Bytes>, n: nat): (best: Option<nat>)
    requires n == 0 || n < |syms|
    ensures best.None? <==> forall j: nat :: j < n ==> PairRank(rank, syms, j).None?
    ensures best.Some? ==>
              && best.value < n && PairRank(rank, syms, best.value).Some?
              && forall j: nat :: j < n && j != best.value && PairRank(rank, syms, j).Some?
                   ==> Before(PairRank(rank, syms, best.value).value, best.value,
                              PairRank(rank, syms, j).value, j)
  {
    if n == 0 then None else
      var best := Scan(rank, syms, n - 1);
      var r := PairRank(rank, syms, n - 1);
      if r.Some? && (best.None? || r.value < PairRank(rank, syms, best.value).value) then Some(n - 1) else best
  }

  function MergeAt(syms: seq<Bytes>, k: nat): (r: seq<Bytes>)
    requires k + 1 < |syms|
    ensures |r| == |syms| - 1
  {
    syms[..k] + [syms[k] + syms[k + 1]] + syms[k + 2..]
  }

  function Greedy(rank: Ranking, syms: seq<Bytes>): seq<Bytes>
    decreases |syms|
  {
    if |syms| <= 1 then syms else
      match Scan(rank, syms, |syms| - 1)
      case None => syms
      case Some(k) => Greedy(rank, MergeAt(syms, k))
  }

  /** Any way of finding the best pair takes the same step. */
  lemma GreedyStep(rank: Ranking, syms: seq<Bytes>, k: nat)
    requires IsBest(rank, syms, k)
    ensures Greedy(rank, syms) == Greedy(rank, MergeAt(syms, k))
  {
    var s := Scan(rank, syms, |syms| - 1);
    assert PairRank(rank, syms, k).Some?;
    assert s.Some? && s.value == k;
  }

  lemma GreedyDone(rank: Ranking, syms: seq<Bytes>)
    requires Stuck(rank, syms)
    ensures Greedy(rank, syms) == syms
  {
  }

  /** The next merge, said in terms of ranks alone: the pair at k is ranked, no pair before it has as low a rank, none
      after it a lower one. */
  lemma GreedyNext(rank: Ranking, syms: seq<Bytes>, k: nat, p: real)
    requires k + 1 < |syms| && rank(syms[k], syms[k + 1]) == Some(p)
    requires forall j: nat :: j < k && rank(syms[j], syms[j + 1]).Some? ==> p < rank(syms[j], syms[j + 1]).value
    requires forall j: nat :: k < j && j + 1 < |syms| && rank(syms[j], syms[j + 1]).Some? ==>
               p <= rank(syms[j], syms[j + 1]).value
    ensures Greedy(rank, syms) == Greedy(rank, syms[..k] + [syms[k] + syms[k + 1]] + syms[k + 2..])
  {
    hide Greedy, Scan;
    assert IsBest(rank, syms, k);
    GreedyStep(rank, syms, k);
  }

  /** The result has no mergeable pair left. */
  lemma {:induction false} GreedyIsStuck(rank: Ranking, syms: seq<Bytes>)
    ensures Stuck(rank, Greedy(rank, syms))
    decreases |syms|
  {
    if |syms| > 1 {
      var s := Scan(rank, syms, |syms| - 1);
      if s.Some? {
        GreedyIsStuck(rank, MergeAt(syms, s.value));
      } else {
        assert forall j: nat :: j + 1 < |syms| ==> PairRank(rank, syms, j).None?;
      }
    }
  }

  lemma {:induction false} MergeKeepsText(syms: seq<Bytes>, k: nat)
    requires k + 1 < |syms|
    ensures Flatten(MergeAt(syms, k)) == Flatten(syms)
    decreases k
  {
    if k == 0 {
      assert MergeAt(syms, 0)[1..] == syms[1..][1..];
    } else {
      MergeKeepsText(syms[1..], k - 1);
      assert MergeAt(syms, k)[1..] == MergeAt(syms[1..], k - 1);
    }
  }

  /** Merging never changes the text. */
  lemma {:induction false} GreedyKeepsText(rank: Ranking, syms: seq<Bytes>)
    ensures Flatten(Greedy(rank, syms)) == Flatten(syms)
    decreases |syms|
  {
    if |syms| > 1 {
      var s := Scan(rank, syms, |syms| - 1);
      if s.Some? {
        MergeKeepsText(syms, s.value);
        GreedyKeepsText(rank, MergeAt(syms, s.value));
      }
    }
  }

  ghost predicate Closed(rank: Ranking, p: Bytes -> bool) {
    forall a: Bytes, b: Bytes :: p(a) && p(b) && rank(a, b).Some? ==> p(a + b)
  }

  /** A property of the initial symbols that every ranked merge keeps holds of every final symbol. */
  lemma {:induction false} GreedyKeeps(rank: Ranking, syms: seq<Bytes>, p: Bytes -> bool)
    requires Closed(rank, p) && forall i :: 0 <= i < |syms| ==> p(syms[i])
    ensures forall i :: 0 <= i < |Greedy(rank, syms)| ==> p(Greedy(rank, syms)[i])
    decreases |syms|
  {
    if |syms| > 1 {
      var s := Scan(rank, syms, |syms| - 1);
      if s.Some? {
        assert PairRank(rank, syms, s.value).Some?;
        GreedyKeeps(rank, MergeAt(syms, s.value), p);
      }
    }
  }

  /** Two rankings that agree on symbols with a property kept by merging compute the same symbols. */
  lemma {:induction false} GreedyAgrees(rank: Ranking, other: Ranking, syms: seq<Bytes>, p: Bytes -> bool)
    requires Closed(rank, p) && forall i :: 0 <= i < |syms| ==> p(syms[i])
    requires forall a: Bytes, b: Bytes :: p(a) && p(b) ==> rank(a, b) == other(a, b)
    ensures Greedy(rank, syms) == Greedy(other, syms)
    decreases |syms|
  {
    hide Scan, Greedy;
    assert forall j: nat :: j + 1 < |syms| ==> PairRank(rank, syms, j) == PairRank(other, syms, j);
    BestOrStuck(rank, syms);
    if k: nat :| IsBest(rank, syms, k) {
      GreedyStep(rank, syms, k);
      GreedyStep(other, syms, k);
      GreedyAgrees(rank, other, MergeAt(syms, k), p);
    } else {
      GreedyDone(rank, syms);
      GreedyDone(other, syms);
    }
  }

  lemma BestOrStuck(rank: Ranking, syms: seq<Bytes>)
    ensures Stuck(rank, syms) || exists k: nat :: IsBest(rank, syms, k)
  {
    if |syms| > 1 {
      var s := Scan(rank, syms, |syms| - 1);
      if s.Some? { assert IsBest(rank, syms, s.value); }
    }
  }

  /** Every final symbol is what the symbols it was made of give on their own. */
  lemma {:induction false} GreedyLocal(rank: Ranking, syms: seq<Bytes>, i: nat) returns (lo: nat, hi: nat)
    requires i < |Greedy(rank, syms)|
    ensures lo < hi <= |syms| && Greedy(rank, syms[lo..hi]) == [Greedy(rank, syms)[i]]
    decreases |syms|
  {
    BestOrStuck(rank, syms);
    if k: nat :| IsBest(rank, syms, k) {
      GreedyStep(rank, syms, k);
      BestIs(rank, syms, k);
      hide *;
      lo, hi := GreedyLocal(rank, MergeAt(syms, k), i);
      lo, hi := Unmerged(rank, syms, k, lo, hi);
    } else {
      GreedyDone(rank, syms);
      lo, hi := i, i + 1;
      assert syms[lo..hi] == [syms[i]];
    }
  }

  lemma BestIs(rank: Ranking, syms: seq<Bytes>, k: nat)
    requires IsBest(rank, syms, k)
    ensures k + 1 < |syms|
  {
  }

  /** A stretch of the list after the next merge, as a stretch of the list before it. */
  lemma Unmerged(rank: Ranking, syms: seq<Bytes>, k: nat, lo: nat, hi: nat) returns (lo': nat, hi': nat)
    requires IsBest(rank, syms, k) && lo < hi < |syms|
    ensures lo' < hi' <= |syms| && Greedy(rank, syms[lo'..hi']) == Greedy(rank, MergeAt(syms, k)[lo..hi])
  {
    hide Greedy, MergeAt, Scan, PairRank;
    var m := MergeAt(syms, k);
    lo', hi' := if k < lo then lo + 1 else lo, if k < hi then hi + 1 else hi;
    if lo <= k < hi {
      BestInside(rank, syms, k, lo, hi');
      GreedyStep(rank, syms[lo..hi'], k - lo);
    } else {
      var was, now := syms[lo'..hi'], m[lo..hi];
      forall j: nat | j < hi - lo ensures was[j] == now[j] {
        MergeAtIs(syms, k, lo + j);
      }
      assert was == now;
    }
  }

  lemma MergeAtIs(syms: seq<Bytes>, k: nat, j: nat)
    requires k + 1 < |syms| && j < |syms| - 1
    ensures MergeAt(syms, k)[j] == if j < k then syms[j] else if j == k then syms[k] + syms[k + 1] else syms[j + 1]
  {
    var a: seq<Bytes>, b: seq<Bytes>, c: seq<Bytes> := syms[..k], [syms[k] + syms[k + 1]], syms[k + 2..];
    assert (a + b + c)[j] == if j < k then a[j] else if j == k then b[0] else c[j - k - 1];
  }

  lemma BestInside(rank: Ranking, syms: seq<Bytes>, k: nat, lo: nat, hi: nat)
    requires IsBest(rank, syms, k) && lo <= k && k + 1 < hi <= |syms|
    ensures IsBest(rank, syms[lo..hi], k - lo)
    ensures MergeAt(syms[lo..hi], k - lo) == MergeAt(syms, k)[lo..hi - 1]
  {
    var part := syms[lo..hi];
    hide MergeAt;
    assert forall j: nat :: j + 1 < |part| ==> PairRank(rank, part, j) == PairRank(rank, syms, j + lo);
    var m, n := MergeAt(part, k - lo), MergeAt(syms, k)[lo..hi - 1];
    forall j: nat | j < |part| - 1 ensures m[j] == n[j] {
      MergeAtIs(syms, k, lo + j);
      MergeAtIs(part, k - lo, j);
    }
  }
}
