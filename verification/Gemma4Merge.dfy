/** The merge loop of g4_piece: heap, linked symbols and outdated-candidate skip compute the same symbols
    as the simple leftmost-lowest-rank loop on strings. */
module Gemma4Merge {
  import opened Basics
  import opened Vocab
  import opened BigramHeap
  import opened Candidates
  import opened SymbolList
  import opened Gemma4Build
  import Spec = GreedyBpe

  /** A symbol carries its token id, a candidate the two ids it was computed from. */
  type GSym = Sym<int>
  type GBigram = Bigram<(int, int)>

  /** What g4_try_pair pushes for neighbours a and b. */
  function Candidate(pm: map<int, int>, a: GSym, b: GSym, l: nat, r: nat): Option<GBigram> {
    var rank := IdRank(pm, a.tag, b.tag);
    if rank < 0 then None else Some(Bigram(rank as real, l, r, (a.tag, b.tag)))
  }

  function Make(pm: map<int, int>): Maker<int, (int, int)> {
    (a: GSym, b: GSym, l: nat, r: nat) => Candidate(pm, a, b, l, r)
  }

  lemma MakeLawful(pm: map<int, int>)
    ensures Lawful(Make(pm))
  {
    hide IdRank;
  }

  /** Each linked symbol carries the id of its text. */
  ghost predicate Tagged(tok: seq<Bytes>, s: Bytes, sym: seq<GSym>, live: seq<nat>)
    requires Linked(sym, live, |s|)
  {
    forall k :: 0 <= k < |live| ==> sym[live[k]].tag == IdOf(tok, Text(s, sym[live[k]]))
  }

  /** What never stops being true of a heap entry. */
  ghost predicate Entry(pm: map<int, int>, ns: nat, live: seq<nat>, b: GBigram) {
    && b.left < b.right < ns && NoneBetween(live, b.left, b.right)
    && IdRank(pm, b.tag.0, b.tag.1) >= 0 && b.key == IdRank(pm, b.tag.0, b.tag.1) as real
  }

  /** Invariant of the merge loop. */
  ghost predicate Inv(t: Tables, s: Bytes, sym: seq<GSym>, live: seq<nat>, bag: multiset<GBigram>) {
    && Linked(sym, live, |s|)
    && Tagged(t.tok, s, sym, live)
    && (forall b :: b in bag ==> Entry(t.pm, |sym|, live, b))
    && Covers(bag, Want(Make(t.pm), sym, live))
  }

  /** The negation of the source's outdated-candidate test. */
  predicate Current(sym: seq<GSym>, b: GBigram)
    requires b.left < |sym| && b.right < |sym|
  {
    sym[b.left].n != 0 && sym[b.right].n != 0 && sym[b.left].tag == b.tag.0 && sym[b.right].tag == b.tag.1
  }

  /** A candidate that passes the id test still names two neighbours, and is their candidate. */
  lemma CurrentIsPair(t: Tables, s: Bytes, sym: seq<GSym>, live: seq<nat>, bag: multiset<GBigram>, b: GBigram)
    returns (k: nat)
    requires Inv(t, s, sym, live, bag) && b in bag && Current(sym, b)
    ensures k + 1 < |live| && live[k] == b.left && live[k + 1] == b.right
    ensures Want(Make(t.pm), sym, live)[k] == Some(b)
  {
    k := Neighbours(sym, live, |s|, b.left, b.right);
  }

  lemma NotWanted(pm: map<int, int>, sym: seq<GSym>, live: seq<nat>, len: nat, b: GBigram, j: nat)
    requires Linked(sym, live, len) && j + 1 < |live|
    requires b.left < |sym| && b.right < |sym| && !Current(sym, b)
    ensures Want(Make(pm), sym, live)[j] != Some(b)
  {
    LinksOf(sym, live, len, j);
    LinksOf(sym, live, len, j + 1);
    LinkedShape(sym, live, len);
    hide Linked, IdRank;
  }

  /** Dropping an outdated candidate loses nothing. */
  lemma StaleIsUseless(t: Tables, s: Bytes, sym: seq<GSym>, live: seq<nat>, bag: multiset<GBigram>, b: GBigram)
    requires Inv(t, s, sym, live, bag) && b in bag && !Current(sym, b)
    ensures Inv(t, s, sym, live, bag - multiset{b})
  {
    var w := Want(Make(t.pm), sym, live);
    forall j | 0 <= j < |w| ensures w[j] != Some(b) {
      NotWanted(t.pm, sym, live, |s|, b, j);
    }
    CoversWithout(bag, w, b);
    hide Linked, Tagged, Want, Candidate, Entry, Covers;
  }

  /** Candidates rank pairs as the merge strings do. */
  lemma WantIsRank(t: Tables, s: Bytes, sym: seq<GSym>, live: seq<nat>)
    requires Good(t) && Linked(sym, live, |s|) && Tagged(t.tok, s, sym, live)
    ensures AllRanked(Want(Make(t.pm), sym, live), ByMerges(t.merges), Texts(s, sym, live), live)
  {
    var w, rank, texts := Want(Make(t.pm), sym, live), ByMerges(t.merges), Texts(s, sym, live);
    forall k: nat | k + 1 < |live| ensures Ranks(w[k], Spec.PairRank(rank, texts, k), live[k]) {
      var a, b := Text(s, sym[live[k]]), Text(s, sym[live[k + 1]]);
      assert IdRank(t.pm, IdOf(t.tok, a), IdOf(t.tok, b)) == RankUpTo(t.merges, a, b, |t.merges|);
    }
  }

  /** The heap's first current entry is the pair the simple loop merges. */
  lemma TopIsBest(t: Tables, s: Bytes, sym: seq<GSym>, live: seq<nat>, bag: multiset<GBigram>, b: GBigram, k: nat)
    requires Good(t) && Inv(t, s, sym, live, bag)
    requires k + 1 < |live| && Want(Make(t.pm), sym, live)[k] == Some(b)
    requires forall c :: c in bag ==> !Before(c, b)
    ensures Spec.IsBest(ByMerges(t.merges), Texts(s, sym, live), k)
  {
    hide Good, Node, AllRanked, Covers, Entry, IdOf, Spec.IsBest, Before;
    WantIsRank(t, s, sym, live);
    LinkedShape(sym, live, |s|);
    TopOfHeap(Want(Make(t.pm), sym, live), ByMerges(t.merges), Texts(s, sym, live), live, bag, b, k);
  }

  lemma NothingLeft(t: Tables, s: Bytes, sym: seq<GSym>, live: seq<nat>)
    requires Good(t) && Inv(t, s, sym, live, multiset{})
    ensures Spec.Stuck(ByMerges(t.merges), Texts(s, sym, live))
  {
    hide Good, Node, AllRanked, Covers, Entry, IdOf;
    WantIsRank(t, s, sym, live);
    NothingOnHeap(Want(Make(t.pm), sym, live), ByMerges(t.merges), Texts(s, sym, live), live);
  }

  /** The id recorded for a merge is the id of the joined text. */
  lemma MergedId(t: Tables, s: Bytes, sym: seq<GSym>, live: seq<nat>, b: GBigram, k: nat)
    requires Good(t) && Linked(sym, live, |s|) && Tagged(t.tok, s, sym, live)
    requires k + 1 < |live| && Want(Make(t.pm), sym, live)[k] == Some(b)
    ensures 0 <= b.key.Floor < |t.result|
    ensures t.result[b.key.Floor] == IdOf(t.tok, Text(s, sym[live[k]]) + Text(s, sym[live[k + 1]]))
    ensures t.result[b.key.Floor] >= 0
  {
    var x, y := Text(s, sym[live[k]]), Text(s, sym[live[k + 1]]);
    var r := RankUpTo(t.merges, x, y, |t.merges|);
    assert IdRank(t.pm, IdOf(t.tok, x), IdOf(t.tok, y)) == r;
    assert b.key == r as real;
    assert LineOk(t.tok, t.merges[r]);
  }

  /** The list after merging pair k. */
  ghost predicate AfterMerge(t: Tables, s: Bytes, sym: seq<GSym>, live: seq<nat>, b: GBigram, k: nat, y: seq<GSym>)
    requires k + 1 < |live| && InRange(sym, live)
  {
    0 <= b.key.Floor < |t.result| && Merged(sym, y, live, k, t.result[b.key.Floor])
  }

  lemma TextsAfter(t: Tables, s: Bytes, sym: seq<GSym>, live: seq<nat>, b: GBigram, k: nat, y: seq<GSym>)
    requires Linked(sym, live, |s|) && k + 1 < |live| && AfterMerge(t, s, sym, live, b, k, y)
    ensures |y| == |sym| && Linked(y, Drop(live, k), |s|)
    ensures Texts(s, y, Drop(live, k)) == Spec.MergeAt(Texts(s, sym, live), k)
  {
    hide Node, Drop, Spec.MergeAt;
    MergedLinked(sym, y, live, |s|, k, t.result[b.key.Floor]);
    MergedTexts(s, sym, y, live, k, t.result[b.key.Floor]);
  }

  lemma TagAfter(tok: seq<Bytes>, s: Bytes, sym: seq<GSym>, live: seq<nat>, k: nat, lt: int, y: seq<GSym>, i: nat)
    requires Linked(sym, live, |s|) && Tagged(tok, s, sym, live)
    requires k + 1 < |live| && Merged(sym, y, live, k, lt) && i < |live| && i != k + 1
    requires lt == IdOf(tok, Text(s, sym[live[k]]) + Text(s, sym[live[k + 1]]))
    ensures y[live[i]].off + y[live[i]].n <= |s|
    ensures y[live[i]].tag == IdOf(tok, Text(s, y[live[i]]))
  {
    hide Node, IdOf;
    if i == k {
      MergedPair(s, sym, y, live, k, lt);
    } else {
      MergedOther(s, sym, y, live, k, lt, i);
    }
  }

  lemma TaggedAfter(t: Tables, s: Bytes, sym: seq<GSym>, live: seq<nat>, b: GBigram, k: nat, y: seq<GSym>)
    requires Good(t) && Linked(sym, live, |s|) && Tagged(t.tok, s, sym, live)
    requires k + 1 < |live| && Want(Make(t.pm), sym, live)[k] == Some(b) && AfterMerge(t, s, sym, live, b, k, y)
    requires Linked(y, Drop(live, k), |s|)
    ensures Tagged(t.tok, s, y, Drop(live, k))
  {
    hide Node, Drop, Good, Merged, Want, IdOf;
    MergedId(t, s, sym, live, b, k);
    var d := Drop(live, k);
    forall j | 0 <= j < |d| ensures y[d[j]].tag == IdOf(t.tok, Text(s, y[d[j]])) {
      TagAfter(t.tok, s, sym, live, k, t.result[b.key.Floor], y, if j <= k then j else j + 1);
    }
  }

  lemma NewEntry(pm: map<int, int>, y: seq<GSym>, d: seq<nat>, j: nat, c: GBigram)
    requires InRange(y, d) && Increasing(d) && j + 1 < |d| && Want(Make(pm), y, d)[j] == Some(c)
    ensures Entry(pm, |y|, d, c)
  {
  }

  lemma OldEntry(pm: map<int, int>, ns: nat, live: seq<nat>, k: nat, c: GBigram)
    requires Entry(pm, ns, live, c) && k + 1 < |live|
    ensures Entry(pm, ns, Drop(live, k), c)
  {
  }

  /** After a merge and the two pushes the invariant holds again. */
  lemma MergeKeepsInv(t: Tables, s: Bytes, sym: seq<GSym>, live: seq<nat>, bag: multiset<GBigram>,
                      b: GBigram, k: nat, y: seq<GSym>)
    requires Good(t) && Inv(t, s, sym, live, bag) && b in bag
    requires k + 1 < |live| && Want(Make(t.pm), sym, live)[k] == Some(b) && AfterMerge(t, s, sym, live, b, k, y)
    ensures Linked(y, Drop(live, k), |s|)
    ensures Inv(t, s, y, Drop(live, k), BagAfter(Make(t.pm), bag, b, y, Drop(live, k), k))
    ensures Texts(s, y, Drop(live, k)) == Spec.MergeAt(Texts(s, sym, live), k)
  {
    hide Linked, Drop, Good, Merged, Tagged, Covers, Want, Texts, Spec.MergeAt, BagAfter, Lawful;
    var d := Drop(live, k);
    TextsAfter(t, s, sym, live, b, k, y);
    LinkedShape(sym, live, |s|);
    LinkedShape(y, d, |s|);
    TaggedAfter(t, s, sym, live, b, k, y);
    MakeLawful(t.pm);
    WantLeft(Make(t.pm), sym, live);
    CoveredAfter(Make(t.pm), s, sym, live, bag, b, k, t.result[b.key.Floor], y);
    EntriesHold(t.pm, live, bag, b, y, k);
  }

  lemma EntriesHold(pm: map<int, int>, live: seq<nat>, bag: multiset<GBigram>, b: GBigram, y: seq<GSym>, k: nat)
    requires k + 1 < |live| && forall c :: c in bag ==> Entry(pm, |y|, live, c)
    requires InRange(y, Drop(live, k)) && Increasing(Drop(live, k))
    ensures forall c :: c in BagAfter(Make(pm), bag, b, y, Drop(live, k), k) ==> Entry(pm, |y|, Drop(live, k), c)
  {
    hide Entry, Drop, Increasing, InRange, Want, BagAfter;
    var d := Drop(live, k);
    var w := Want(Make(pm), y, d);
    forall c | c in bag ensures Entry(pm, |y|, d, c) {
      OldEntry(pm, |y|, live, k, c);
    }
    forall j | 0 <= j < |w| && w[j].Some? ensures Entry(pm, |y|, d, w[j].value) {
      NewEntry(pm, y, d, j, w[j].value);
    }
    EntriesAfter(Make(pm), bag, b, y, d, k, c => Entry(pm, |y|, d, c));
  }
}
