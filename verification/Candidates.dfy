/** The heap bookkeeping of the gemma4 and SPM merge loops, over any way of computing the candidate of a pair. */
module Candidates {
  import opened Basics
  import opened BigramHeap
  import opened SymbolList
  import Spec = GreedyBpe

  /** What is pushed for neighbours a and b at indices l and r. */
  type Maker<!T, !U> = (Sym<T>, Sym<T>, nat, nat) -> Option<Bigram<U>>

  ghost predicate SameSym<T>(a: Sym<T>, b: Sym<T>) {
    a.off == b.off && a.n == b.n && a.tag == b.tag
  }

  /** A candidate names its left index and depends on offsets, lengths and tags alone. */
  ghost predicate Lawful<T(!new), U(!new)>(c: Maker<T, U>) {
    && (forall a: Sym<T>, b: Sym<T>, l: nat, r: nat ::
          c(a, b, l, r).Some? ==> c(a, b, l, r).value.left == l)
    && (forall a: Sym<T>, b: Sym<T>, a': Sym<T>, b': Sym<T>, l: nat, r: nat ::
          SameSym(a, a') && SameSym(b, b') ==> c(a, b, l, r) == c(a', b', l, r))
  }

  /** The candidate of every neighbouring pair. */
  ghost function Want<T, U>(c: Maker<T, U>, sym: seq<Sym<T>>, live: seq<nat>): (w: seq<Option<Bigram<U>>>)
    requires InRange(sym, live)
    ensures |w| == Max(0, |live| - 1)
    ensures forall k {:trigger w[k]} :: 0 <= k < |w| ==>
              w[k] == c(sym[live[k]], sym[live[k + 1]], live[k], live[k + 1])
  {
    seq(Max(0, |live| - 1), k requires 0 <= k < |live| - 1 =>
      c(sym[live[k]], sym[live[k + 1]], live[k], live[k + 1]))
  }

  lemma WantAt<T, U>(c: Maker<T, U>, sym: seq<Sym<T>>, live: seq<nat>, k: nat)
    requires InRange(sym, live) && k + 1 < |live|
    ensures |Want(c, sym, live)| == |live| - 1
    ensures Want(c, sym, live)[k] == c(sym[live[k]], sym[live[k + 1]], live[k], live[k + 1])
  {
  }

  lemma WantLeft<T(!new), U(!new)>(c: Maker<T, U>, sym: seq<Sym<T>>, live: seq<nat>)
    requires Lawful(c) && InRange(sym, live)
    ensures |Want(c, sym, live)| == if |live| == 0 then 0 else |live| - 1
    ensures forall j :: 0 <= j < |Want(c, sym, live)| && Want(c, sym, live)[j].Some?
                        ==> Want(c, sym, live)[j].value.left == live[j]
  {
  }

  ghost function PushSome<U>(bag: multiset<Bigram<U>>, c: Option<Bigram<U>>): multiset<Bigram<U>> {
    if c.Some? then bag + multiset{c.value} else bag
  }

  /** What trying indices l and r pushes; -1 stands for "no neighbour". */
  function TryCandidate<T, U>(c: Maker<T, U>, y: seq<Sym<T>>, l: int, r: int): Option<Bigram<U>>
    requires l < |y| && r < |y|
  {
    if l < 0 || r < 0 then None else c(y[l], y[r], l, r)
  }

  /** The heap contents after one merge: the popped entry is gone, the new symbol's two candidates are in. */
  ghost function BagAfter<T, U>(c: Maker<T, U>, bag: multiset<Bigram<U>>, b: Bigram<U>,
                                y: seq<Sym<T>>, d: seq<nat>, k: nat): multiset<Bigram<U>>
    requires InRange(y, d) && k < |d|
  {
    PushSome(PushSome(bag - multiset{b}, if k > 0 then Want(c, y, d)[k - 1] else None),
             if k + 1 < |d| then Want(c, y, d)[k] else None)
  }

  lemma BagAfterHolds<T, U>(c: Maker<T, U>, bag: multiset<Bigram<U>>, b: Bigram<U>, y: seq<Sym<T>>, d: seq<nat>, k: nat)
    requires InRange(y, d) && k < |d|
    ensures var bag', w := BagAfter(c, bag, b, y, d, k), Want(c, y, d);
            && bag - multiset{b} <= bag'
            && (k < |w| && w[k].Some? ==> w[k].value in bag')
            && (k > 0 && w[k - 1].Some? ==> w[k - 1].value in bag')
  {
    hide Want, InRange;
  }

  /** The two pushes after a merge are the candidates of the merged symbol's neighbours. */
  lemma PushesAround<T, U>(c: Maker<T, U>, y: seq<Sym<T>>, d: seq<nat>, len: nat, k: nat,
                           bag: multiset<Bigram<U>>, b: Bigram<U>)
    requires Linked(y, d, len) && InRange(y, d) && k < |d|
    ensures var l := d[k];
            && -1 <= y[l].prev < |y| && -1 <= y[l].next < |y|
            && BagAfter(c, bag, b, y, d, k) ==
                 PushSome(PushSome(bag - multiset{b}, TryCandidate(c, y, y[l].prev, l)),
                          TryCandidate(c, y, l, y[l].next))
  {
    LinksOf(y, d, len, k);
    if k > 0 { WantAt(c, y, d, k - 1); }
    if k + 1 < |d| { WantAt(c, y, d, k); }
    hide Linked, Want, PushSome, InRange;
  }

  /** Candidates of pairs away from the merge are unchanged. */
  lemma WantAway<T(!new), U(!new)>(c: Maker<T, U>, s: Bytes, sym: seq<Sym<T>>, live: seq<nat>, k: nat, lt: T,
                                   y: seq<Sym<T>>, j: nat)
    requires Lawful(c) && Linked(sym, live, |s|) && k + 1 < |live| && Merged(sym, y, live, k, lt)
    requires j + 2 < |live| && j != k && j + 1 != k
    requires InRange(sym, live) && InRange(y, live) && InRange(y, Drop(live, k))
    ensures Want(c, y, Drop(live, k))[j] == Want(c, sym, live)[if j < k then j else j + 1]
  {
    hide Linked, Merged, Drop;
    var i := if j < k then j else j + 1;
    MergedOther(s, sym, y, live, k, lt, i);
    MergedOther(s, sym, y, live, k, lt, i + 1);
    assert SameSym(y[live[i]], sym[live[i]]) && SameSym(y[live[i + 1]], sym[live[i + 1]]);
  }

  /** What held of all entries and holds of every wanted candidate holds of all entries after the merge. */
  lemma EntriesAfter<T, U(!new)>(c: Maker<T, U>, bag: multiset<Bigram<U>>, b: Bigram<U>, y: seq<Sym<T>>, d: seq<nat>,
                                 k: nat, p: Bigram<U> -> bool)
    requires InRange(y, d) && k < |d| && forall e :: e in bag ==> p(e)
    requires forall j :: 0 <= j < |Want(c, y, d)| && Want(c, y, d)[j].Some? ==> p(Want(c, y, d)[j].value)
    ensures forall e :: e in BagAfter(c, bag, b, y, d, k) ==> p(e)
  {
    hide Want, InRange;
    var w := Want(c, y, d);
    forall e | e in BagAfter(c, bag, b, y, d, k) ensures p(e) {
      if e !in bag {
        assert (k > 0 && w[k - 1] == Some(e)) || (k + 1 < |d| && w[k] == Some(e));
      }
    }
  }

  /** Every neighbouring pair's candidate is on the heap again after a merge. */
  lemma CoveredAfter<T(!new), U(!new)>(c: Maker<T, U>, s: Bytes, sym: seq<Sym<T>>, live: seq<nat>,
                                       bag: multiset<Bigram<U>>, b: Bigram<U>, k: nat, lt: T, y: seq<Sym<T>>)
    requires Lawful(c) && Linked(sym, live, |s|) && InRange(sym, live) && Increasing(live)
    requires Covers(bag, Want(c, sym, live)) && b in bag
    requires k + 1 < |live| && b.left == live[k] && Merged(sym, y, live, k, lt)
    requires InRange(y, Drop(live, k))
    ensures Covers(BagAfter(c, bag, b, y, Drop(live, k), k), Want(c, y, Drop(live, k)))
  {
    hide *;
    var d := Drop(live, k);
    MergedInRange(sym, y, live, k, lt);
    var w, w' := Want(c, sym, live), Want(c, y, d);
    forall j: nat | j < |w'| && j != k && j + 1 != k ensures w'[j] == w[if j < k then j else j + 1] {
      WantAway(c, s, sym, live, k, lt, y, j);
    }
    BagAfterHolds(c, bag, b, y, d, k);
    WantLeft(c, sym, live);
    CoversAfterMerge(bag, w, live, k, b, BagAfter(c, bag, b, y, d, k), w');
  }

  /** Dropping an entry that no pair wants uncovers nothing. */
  lemma CoversWithout<U>(bag: multiset<Bigram<U>>, w: seq<Option<Bigram<U>>>, b: Bigram<U>)
    requires Covers(bag, w) && forall j :: 0 <= j < |w| ==> w[j] != Some(b)
    ensures Covers(bag - multiset{b}, w)
  {
    forall j | 0 <= j < |w| && w[j].Some? ensures w[j].value in bag - multiset{b} {
      assert (bag - multiset{b})[w[j].value] == bag[w[j].value];
    }
  }

  /** A candidate carries the rank of its pair of texts. */
  ghost predicate Ranks<U>(w: Option<Bigram<U>>, p: Option<real>, l: nat) {
    (w.Some? <==> p.Some?) && (w.Some? ==> w.value.key == p.value && w.value.left == l)
  }

  /** Candidates rank all neighbouring pairs as rank does their texts. */
  ghost predicate AllRanked<U>(w: seq<Option<Bigram<U>>>, rank: Spec.Ranking, texts: seq<Bytes>, live: seq<nat>) {
    && |texts| == |live| && |w| == Max(0, |live| - 1)
    && forall j: nat :: j + 1 < |texts| ==> Ranks(w[j], Spec.PairRank(rank, texts, j), live[j])
  }

  /** The first wanted entry of the heap is the pair the simple loop merges. */
  lemma TopOfHeap<U(!new)>(w: seq<Option<Bigram<U>>>, rank: Spec.Ranking, texts: seq<Bytes>, live: seq<nat>,
                     bag: multiset<Bigram<U>>, b: Bigram<U>, k: nat)
    requires AllRanked(w, rank, texts, live) && Covers(bag, w) && Increasing(live)
    requires k < |w| && w[k] == Some(b) && forall e :: e in bag ==> !Before(e, b)
    ensures Spec.IsBest(rank, texts, k)
  {
    hide Spec.PairRank;
    assert Ranks(w[k], Spec.PairRank(rank, texts, k), live[k]);
    forall j: nat | j + 1 < |texts| && j != k && Spec.PairRank(rank, texts, j).Some?
      ensures Spec.Before(Spec.PairRank(rank, texts, k).value, k, Spec.PairRank(rank, texts, j).value, j)
    {
      assert Ranks(w[j], Spec.PairRank(rank, texts, j), live[j]);
      assert w[j].value in bag;
      assert !Before(w[j].value, b);
      assert if j < k then live[j] < live[k] else live[k] < live[j];
    }
  }

  /** With nothing on the heap no pair is ranked. */
  lemma NothingOnHeap<U>(w: seq<Option<Bigram<U>>>, rank: Spec.Ranking, texts: seq<Bytes>, live: seq<nat>)
    requires AllRanked(w, rank, texts, live) && Covers(multiset{}, w)
    ensures Spec.Stuck(rank, texts)
  {
    hide Spec.PairRank;
    forall j: nat | j + 1 < |texts| ensures Spec.PairRank(rank, texts, j).None? {
      assert Ranks(w[j], Spec.PairRank(rank, texts, j), live[j]);
    }
  }

  /** Heap contents after the first n symbols have been paired with their left neighbours. */
  ghost function SeedBag<T, U>(c: Maker<T, U>, y: seq<Sym<T>>, n: nat): multiset<Bigram<U>>
    requires n <= |y|
  {
    if n <= 1 then multiset{} else PushSome(SeedBag(c, y, n - 1), c(y[n - 2], y[n - 1], n - 2, n - 1))
  }

  /** The candidate of a neighbouring pair is in the bag. */
  ghost predicate Seeded<T, U>(c: Maker<T, U>, y: seq<Sym<T>>, k: nat, bag: multiset<Bigram<U>>)
    requires k + 1 < |y|
  {
    var b := c(y[k], y[k + 1], k, k + 1);
    b.Some? ==> b.value in bag
  }

  /** The candidate of pair k satisfies p. */
  ghost predicate Fits<T, U>(c: Maker<T, U>, y: seq<Sym<T>>, k: nat, p: Bigram<U> -> bool)
    requires k + 1 < |y|
  {
    var b := c(y[k], y[k + 1], k, k + 1);
    b.Some? ==> p(b.value)
  }

  lemma {:induction false} SeedGood<T, U(!new)>(c: Maker<T, U>, y: seq<Sym<T>>, n: nat, p: Bigram<U> -> bool)
    requires n <= |y| && forall k: nat :: k + 1 < |y| ==> Fits(c, y, k, p)
    ensures forall k: nat :: k + 1 < n ==> Seeded(c, y, k, SeedBag(c, y, n))
    ensures forall b :: b in SeedBag(c, y, n) ==> p(b)
    decreases n
  {
    if n > 1 {
      SeedGood(c, y, n - 1, p);
      assert Fits(c, y, n - 2, p);
      var less, bag := SeedBag(c, y, n - 1), SeedBag(c, y, n);
      assert forall b :: b in less ==> b in bag;
      forall k: nat | k + 1 < n ensures Seeded(c, y, k, bag) {
        assert k + 2 < n ==> Seeded(c, y, k, less);
      }
    }
  }

  lemma SeedCovers<T, U(!new)>(c: Maker<T, U>, y: seq<Sym<T>>)
    ensures Covers(SeedBag(c, y, |y|), Want(c, y, Identity(|y|)))
  {
    SeedGood(c, y, |y|, b => true);
    hide SeedBag;
    var bag, want := SeedBag(c, y, |y|), Want(c, y, Identity(|y|));
    forall k: nat | k < |want| && want[k].Some? ensures want[k].value in bag {
      assert Seeded(c, y, k, bag);
    }
  }

  lemma SeedNext<T, U>(c: Maker<T, U>, y: seq<Sym<T>>)
    ensures SeedBag(c, y, 0) == multiset{} && (|y| >= 1 ==> SeedBag(c, y, 1) == multiset{})
    ensures forall i :: 1 <= i < |y| ==>
              SeedBag(c, y, i + 1) == PushSome(SeedBag(c, y, i), TryCandidate(c, y, i - 1, i))
  {
  }
}
