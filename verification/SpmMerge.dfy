/** The merge loop of spm_fragment. A candidate records only the size of the pair it was computed from;
    that is enough to recognise every outdated one. */
module SpmMerge {
  import opened Basics
  import opened Vocab
  import opened BigramHeap
  import opened Candidates
  import opened SymbolList
  import Spec = GreedyBpe

  type SSym = Sym<()>
  type SBigram = Bigram<int>

  /** Vocabulary and unigram scores. */
  datatype Model = Model(tok: seq<Bytes>, score: seq<real>)

  ghost predicate Good(m: Model) {
    |m.score| == |m.tok|
  }

  /** The heap key of a joined text: its negated score, since a higher score merges first. */
  function Key(m: Model, w: Bytes): Option<real>
    requires Good(m)
  {
    var id := IdOf(m.tok, w);
    if id < 0 then None else Some(-m.score[id])
  }

  /** Pairs ranked by the score of their joined text. */
  function ByScores(m: Model): (Bytes, Bytes) -> Option<real>
    requires Good(m)
  {
    (a, b) => if |m.score| == |m.tok| then Key(m, a + b) else None
  }

  /** The score of the neighbours at i joined, if that is a token. */
  function JoinedScore(m: Model, syms: seq<Bytes>, i: nat): Option<real>
    requires Good(m) && i + 1 < |syms|
  {
    var w := syms[i] + syms[i + 1];
    if w in m.tok then Some(m.score[IdOf(m.tok, w)]) else None
  }

  lemma ScoreIsKey(m: Model, syms: seq<Bytes>, i: nat)
    requires Good(m) && i + 1 < |syms|
    ensures var rank := ByScores(m)(syms[i], syms[i + 1]);
            && (JoinedScore(m, syms, i).None? ==> rank == None)
            && (JoinedScore(m, syms, i).Some? ==> rank == Some(-JoinedScore(m, syms, i).value))
  {
    hide IdOf;
  }

  /** Merging by scores joins the neighbours that make the token of highest score, leftmost among equals. */
  lemma HighestScoreFirst(m: Model, syms: seq<Bytes>, k: nat, best: real)
    requires Good(m) && k + 1 < |syms| && JoinedScore(m, syms, k) == Some(best)
    requires forall i: nat :: i < k && JoinedScore(m, syms, i).Some? ==> JoinedScore(m, syms, i).value < best
    requires forall i: nat :: k < i && i + 1 < |syms| && JoinedScore(m, syms, i).Some? ==>
               JoinedScore(m, syms, i).value <= best
    ensures Spec.Greedy(ByScores(m), syms) ==
            Spec.Greedy(ByScores(m), syms[..k] + [syms[k] + syms[k + 1]] + syms[k + 2..])
  {
    hide Good, JoinedScore, ByScores, Spec.Greedy;
    forall i: nat | i + 1 < |syms|
      ensures var rank := ByScores(m)(syms[i], syms[i + 1]);
              && (JoinedScore(m, syms, i).None? ==> rank == None)
              && (JoinedScore(m, syms, i).Some? ==> rank == Some(-JoinedScore(m, syms, i).value))
    {
      ScoreIsKey(m, syms, i);
    }
    Spec.GreedyNext(ByScores(m), syms, k, -best);
  }

  /** And it stops when no neighbours make a token. */
  lemma NoTokenLeft(m: Model, syms: seq<Bytes>)
    requires Good(m) && forall i: nat :: i + 1 < |syms| ==> syms[i] + syms[i + 1] !in m.tok
    ensures Spec.Greedy(ByScores(m), syms) == syms
  {
    hide IdOf, Spec.Greedy;
    forall i: nat | i + 1 < |syms| ensures Spec.PairRank(ByScores(m), syms, i).None? {
      ScoreIsKey(m, syms, i);
    }
    Spec.GreedyDone(ByScores(m), syms);
  }

  /** SPM_TRY on neighbours a and b: the text is looked up as size bytes from the start of a. */
  function Candidate(m: Model, s: Bytes, a: SSym, b: SSym, l: nat, r: nat): Option<SBigram>
    requires Good(m)
  {
    var size := a.n + b.n;
    if a.off + size > |s| then None else
      match Key(m, s[a.off..a.off + size])
      case None => None
      case Some(key) => Some(Bigram(key, l, r, size))
  }

  function Make(m: Model, s: Bytes): Maker<(), int>
    requires Good(m)
  {
    (a: SSym, b: SSym, l: nat, r: nat) => if |m.score| == |m.tok| then Candidate(m, s, a, b, l, r) else None
  }

  lemma MakeLawful(m: Model, s: Bytes)
    requires Good(m)
    ensures Lawful(Make(m, s))
  {
    hide Key;
  }

  /** What never stops being true of a heap entry: it was the candidate of a pair of that size. */
  ghost predicate Entry(m: Model, s: Bytes, y: seq<SSym>, live: seq<nat>, b: SBigram)
    requires Good(m)
  {
    && b.left < b.right < |y| && NoneBetween(live, b.left, b.right)
    && 0 <= b.tag <= |s| - y[b.left].off
    && Key(m, s[y[b.left].off..y[b.left].off + b.tag]) == Some(b.key)
  }

  ghost predicate Inv(m: Model, s: Bytes, sym: seq<SSym>, live: seq<nat>, bag: multiset<SBigram>)
    requires Good(m)
  {
    && Linked(sym, live, |s|)
    && (forall b :: b in bag ==> Entry(m, s, sym, live, b))
    && Covers(bag, Want(Make(m, s), sym, live))
  }

  /** The negation of the source's outdated-candidate test: sizes only. */
  predicate Current(sym: seq<SSym>, b: SBigram)
    requires b.left < |sym| && b.right < |sym|
  {
    sym[b.left].n != 0 && sym[b.right].n != 0 && sym[b.left].n + sym[b.right].n == b.tag
  }

  /** A candidate that passes the size test names two neighbours and is their candidate. */
  lemma CurrentIsPair(m: Model, s: Bytes, sym: seq<SSym>, live: seq<nat>, bag: multiset<SBigram>, b: SBigram)
    returns (k: nat)
    requires Good(m) && Inv(m, s, sym, live, bag) && b in bag && Current(sym, b)
    ensures k + 1 < |live| && live[k] == b.left && live[k + 1] == b.right
    ensures Want(Make(m, s), sym, live)[k] == Some(b)
  {
    hide Key, Covers, Node, Linked;
    LinkedShape(sym, live, |s|);
    k := Neighbours(sym, live, |s|, b.left, b.right);
    EntryIsCandidate(m, s, sym, live, b);
  }

  lemma EntryIsCandidate(m: Model, s: Bytes, sym: seq<SSym>, live: seq<nat>, b: SBigram)
    requires Good(m) && Entry(m, s, sym, live, b) && Current(sym, b)
    ensures Candidate(m, s, sym[b.left], sym[b.right], b.left, b.right) == Some(b)
  {
    hide Key;
  }

  lemma NotWanted(m: Model, s: Bytes, sym: seq<SSym>, live: seq<nat>, b: SBigram, j: nat)
    requires Good(m) && Linked(sym, live, |s|) && j + 1 < |live|
    requires b.left < |sym| && b.right < |sym| && !Current(sym, b)
    ensures Want(Make(m, s), sym, live)[j] != Some(b)
  {
    LinksOf(sym, live, |s|, j);
    LinksOf(sym, live, |s|, j + 1);
    LinkedShape(sym, live, |s|);
    hide Linked, Key;
  }

  /** A candidate that fails the size test is no neighbouring pair's candidate: the test is exact. */
  lemma StaleIsUseless(m: Model, s: Bytes, sym: seq<SSym>, live: seq<nat>, bag: multiset<SBigram>, b: SBigram)
    requires Good(m) && Inv(m, s, sym, live, bag) && b in bag && !Current(sym, b)
    ensures Inv(m, s, sym, live, bag - multiset{b})
  {
    var w := Want(Make(m, s), sym, live);
    forall j | 0 <= j < |w| ensures w[j] != Some(b) {
      NotWanted(m, s, sym, live, b, j);
    }
    CoversWithout(bag, w, b);
    hide Linked, Want, Candidate, Key, Entry, Covers;
  }

  lemma PairText(s: Bytes, sym: seq<SSym>, live: seq<nat>, k: nat)
    requires Linked(sym, live, |s|) && k + 1 < |live|
    ensures var a, b := sym[live[k]], sym[live[k + 1]];
            a.off + a.n + b.n <= |s| && s[a.off..a.off + (a.n + b.n)] == Text(s, a) + Text(s, b)
  {
    assert Node(sym, live, |s|, k);
  }

  /** Candidates rank pairs as the scores of the joined texts do. */
  lemma WantIsRank(m: Model, s: Bytes, sym: seq<SSym>, live: seq<nat>)
    requires Good(m) && Linked(sym, live, |s|)
    ensures AllRanked(Want(Make(m, s), sym, live), ByScores(m), Texts(s, sym, live), live)
  {
    hide Linked, Key;
    LinkedShape(sym, live, |s|);
    var w, rank, texts := Want(Make(m, s), sym, live), ByScores(m), Texts(s, sym, live);
    forall k: nat | k + 1 < |live| ensures Ranks(w[k], Spec.PairRank(rank, texts, k), live[k]) {
      PairText(s, sym, live, k);
    }
  }

  lemma TopIsBest(m: Model, s: Bytes, sym: seq<SSym>, live: seq<nat>, bag: multiset<SBigram>, b: SBigram, k: nat)
    requires Good(m) && Inv(m, s, sym, live, bag)
    requires k + 1 < |live| && Want(Make(m, s), sym, live)[k] == Some(b)
    requires forall c :: c in bag ==> !Before(c, b)
    ensures Spec.IsBest(ByScores(m), Texts(s, sym, live), k)
  {
    hide Key, Entry, Candidate, Node, AllRanked, Covers, Spec.IsBest, Before;
    WantIsRank(m, s, sym, live);
    LinkedShape(sym, live, |s|);
    TopOfHeap(Want(Make(m, s), sym, live), ByScores(m), Texts(s, sym, live), live, bag, b, k);
  }

  lemma NothingLeft(m: Model, s: Bytes, sym: seq<SSym>, live: seq<nat>)
    requires Good(m) && Inv(m, s, sym, live, multiset{})
    ensures Spec.Stuck(ByScores(m), Texts(s, sym, live))
  {
    hide Key, Entry, Candidate, Node, AllRanked, Covers;
    WantIsRank(m, s, sym, live);
    NothingOnHeap(Want(Make(m, s), sym, live), ByScores(m), Texts(s, sym, live), live);
  }

  lemma NewEntry(m: Model, s: Bytes, y: seq<SSym>, d: seq<nat>, j: nat, c: SBigram)
    requires Good(m) && InRange(y, d) && Increasing(d) && j + 1 < |d| && Want(Make(m, s), y, d)[j] == Some(c)
    ensures Entry(m, s, y, d, c)
  {
    hide Key;
  }

  lemma OldEntry(m: Model, s: Bytes, sym: seq<SSym>, y: seq<SSym>, live: seq<nat>, k: nat, c: SBigram)
    requires Good(m) && Entry(m, s, sym, live, c) && k + 1 < |live|
    requires |y| == |sym| && forall i :: 0 <= i < |sym| ==> y[i].off == sym[i].off
    ensures Entry(m, s, y, Drop(live, k), c)
  {
    hide Key;
  }

  lemma EntriesHold(m: Model, s: Bytes, sym: seq<SSym>, live: seq<nat>, bag: multiset<SBigram>, b: SBigram,
                    y: seq<SSym>, k: nat)
    requires Good(m) && k + 1 < |live| && forall c :: c in bag ==> Entry(m, s, sym, live, c)
    requires |y| == |sym| && forall i :: 0 <= i < |sym| ==> y[i].off == sym[i].off
    requires InRange(y, Drop(live, k)) && Increasing(Drop(live, k))
    ensures forall c :: c in BagAfter(Make(m, s), bag, b, y, Drop(live, k), k) ==> Entry(m, s, y, Drop(live, k), c)
  {
    hide Entry, Drop, Increasing, InRange, Want, BagAfter;
    var d := Drop(live, k);
    var w := Want(Make(m, s), y, d);
    forall c | c in bag ensures Entry(m, s, y, d, c) {
      OldEntry(m, s, sym, y, live, k, c);
    }
    forall j | 0 <= j < |w| && w[j].Some? ensures Entry(m, s, y, d, w[j].value) {
      NewEntry(m, s, y, d, j, w[j].value);
    }
    EntriesAfter(Make(m, s), bag, b, y, d, k, c => Good(m) && Entry(m, s, y, d, c));
  }

  lemma MergeKeepsInv(m: Model, s: Bytes, sym: seq<SSym>, live: seq<nat>, bag: multiset<SBigram>,
                      b: SBigram, k: nat, y: seq<SSym>)
    requires Good(m) && Inv(m, s, sym, live, bag) && b in bag
    requires k + 1 < |live| && Want(Make(m, s), sym, live)[k] == Some(b) && Merged(sym, y, live, k, ())
    ensures Linked(y, Drop(live, k), |s|)
    ensures Inv(m, s, y, Drop(live, k), BagAfter(Make(m, s), bag, b, y, Drop(live, k), k))
    ensures Texts(s, y, Drop(live, k)) == Spec.MergeAt(Texts(s, sym, live), k)
  {
    hide Linked, Drop, Good, Entry, Covers, Want, Texts, Spec.MergeAt, InRange, Increasing, BagAfter, Lawful;
    MergedLinked(sym, y, live, |s|, k, ());
    MergedTexts(s, sym, y, live, k, ());
    LinkedShape(sym, live, |s|);
    LinkedShape(y, Drop(live, k), |s|);
    MakeLawful(m, s);
    WantLeft(Make(m, s), sym, live);
    CoveredAfter(Make(m, s), s, sym, live, bag, b, k, (), y);
    EntriesHold(m, s, sym, live, bag, b, y, k);
  }

  /** The merge of a popped current candidate is the simple loop's next merge. */
  lemma MergeStep(m: Model, s: Bytes, sym: seq<SSym>, live: seq<nat>, bag: multiset<SBigram>, b: SBigram)
    returns (k: nat)
    requires Good(m) && Inv(m, s, sym, live, bag) && b in bag && Current(sym, b)
    requires forall c :: c in bag ==> !Before(c, b)
    ensures k + 1 < |live| && live[k] == b.left < live[k + 1] == b.right < |sym|
    ensures sym[b.right].next < |sym|
    ensures var y, d := Absorb(sym, b.left, b.right, (), ()), Drop(live, k);
            && Linked(y, d, |s|) && InRange(y, d) && d[k] == b.left
            && Inv(m, s, y, d, BagAfter(Make(m, s), bag, b, y, d, k))
            && Spec.Greedy(ByScores(m), Texts(s, sym, live)) == Spec.Greedy(ByScores(m), Texts(s, y, d))
  {
    hide Absorb, Merged, Want, BagAfter, Covers, Entry, Good, Spec.Greedy, Spec.MergeAt, Node, Texts, IdOf, Drop;
    k := CurrentIsPair(m, s, sym, live, bag, b);
    LinksOf(sym, live, |s|, k + 1);
    TopIsBest(m, s, sym, live, bag, b, k);
    Spec.GreedyStep(ByScores(m), Texts(s, sym, live), k);
    AbsorbMerged(sym, live, |s|, k, (), ());
    MergeKeepsInv(m, s, sym, live, bag, b, k, Absorb(sym, b.left, b.right, (), ()));
  }
}
