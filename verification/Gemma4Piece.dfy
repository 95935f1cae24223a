/** g4_piece: one pre-token through splitting, seeding, merging and emission. */
module Gemma4Piece {
  import opened Basics
  import opened OpenAddressing
  import opened Vocab
  import opened BigramHeap
  import opened Candidates
  import opened SymbolList
  import opened Gemma4Build
  import opened Gemma4Merge
  import opened Sinks
  import opened TokenIds
  import Spec = GreedyBpe

  /** Character length from the lead byte: a table on the upper four bits, not a validity check. */
  function LeadLen(lead: byte): (n: nat)
    ensures 1 <= n <= 4
  {
    if lead < 0xC0 then 1 else if lead < 0xE0 then 2 else if lead < 0xF0 then 3 else 4
  }

  /** The ids of a piece, stated on strings: a newline run that is a token is atomic, anything else is
      its characters merged greedily by merge rank. */
  function PieceIds(tok: seq<Bytes>, merges: seq<Bytes>, s: Bytes, isNl: bool): seq<int> {
    if isNl && IdOf(tok, s) >= 0 then [IdOf(tok, s)]
    else AllIds(tok, Spec.Greedy(ByMerges(merges), Chars(LeadLen, s)))
  }

  ghost predicate Tags(tok: seq<Bytes>, s: Bytes, y: seq<GSym>) {
    forall i :: 0 <= i < |y| ==> y[i].off + y[i].n <= |s| && y[i].tag == IdOf(tok, Text(s, y[i]))
  }

  lemma TagsNext(tok: seq<Bytes>, s: Bytes, y: seq<GSym>, o: nat, L: nat)
    requires Started(s, y, o) && o < |s| && 0 < L <= |s| - o && Tags(tok, s, y)
    ensures var z := y + [StartSym(s, |y|, o, L, IdOf(tok, s[o..o + L]))];
            Tags(tok, s, z)
  {
  }

  lemma NoSyms(tok: seq<Bytes>, s: Bytes)
    ensures Started<int>(s, [], 0) && Tags(tok, s, [])
    ensures s == [] ==> Chars(LeadLen, s) == []
  {
  }

  /** Cuts the piece into characters and looks each one up. */
  method InitSyms(t: Tokenizer, s: Bytes) returns (sym: array<GSym>, ns: nat)
    requires t.Ready()
    ensures fresh(sym) && ns <= sym.Length
    ensures Started(s, sym[..ns], |s|) && Tags(t.tok, s, sym[..ns])
    ensures PlainTexts(s, sym[..ns], |s|) == Chars(LeadLen, s)
  {
    hide *;
    sym := new GSym[|s| + 1];
    ns := 0;
    var o := 0;
    NoSyms(t.tok, s);
    NoSyms(t.tok, s[|s|..]);
    assert s[0..] == s && sym[..0] == [];
    while o < |s|
      invariant o <= |s| && ns <= o && Started(s, sym[..ns], o) && Tags(t.tok, s, sym[..ns])
      invariant PlainTexts(s, sym[..ns], o) + Chars(LeadLen, s[o..]) == Chars(LeadLen, s)
      decreases |s| - o
    {
      var L := LeadLen(s[o]);
      if o + L > |s| { L := |s| - o; }
      var id := t.Lookup(s[o..o + L]);
      ghost var y := sym[..ns];
      StartNext(s, y, o, L, id);
      StartNextText(s, y, o, L, id);
      TagsNext(t.tok, s, y, o, L);
      CharsNext(LeadLen, s, o);
      sym[ns] := StartSym(s, ns, o, L, id);
      assert sym[..ns + 1] == y + [StartSym(s, ns, o, L, id)];
      o := o + L;
      ns := ns + 1;
    }
  }

  /** g4_try_pair: -1 stands for "no neighbour". */
  method TryPair(t: Tokenizer, sym: array<GSym>, l: int, r: int, heap: GrowingHeap<(int, int)>)
    requires t.Ready() && heap.Valid()
    requires -1 <= l < sym.Length && -1 <= r < sym.Length
    requires l >= 0 && r >= 0 ==> sym[l].tag < 0x8000_0000 && sym[r].tag < 0x8000_0000
    modifies heap, heap.e
    ensures heap.Valid() && heap.n <= old(heap.n) + 1 && (heap.e == old(heap.e) || fresh(heap.e))
    ensures heap.Bag() == PushSome(old(heap.Bag()),
              TryCandidate(Make(t.View().pm), sym[..], l, r))
  {
    hide Tokenizer.Ready, Tokenizer.View, PairKey, GrowingHeap.Valid, GrowingHeap.Bag;
    if l < 0 || r < 0 {
      return;
    }
    if sym[l].tag < 0 || sym[r].tag < 0 {
      return;
    }
    var rank := t.PairRank(sym[l].tag, sym[r].tag);
    if rank < 0 {
      return;
    }
    heap.PushOne(Bigram(rank as real, l, r, (sym[l].tag, sym[r].tag)));
  }

  /** The writes of one merge. */
  method MergeWrites(sym: array<GSym>, ns: nat, l: nat, r: nat, id: int)
    requires l < r < ns <= sym.Length && sym[r].next < ns
    modifies sym
    ensures sym[..ns] == Absorb(old(sym[..ns]), l, r, id, -1)
  {
    sym[l] := sym[l].(n := sym[l].n + sym[r].n);
    sym[l] := sym[l].(tag := id);
    var next := sym[r].next;
    sym[r] := sym[r].(n := 0, tag := -1);
    sym[l] := sym[l].(next := next);
    if next >= 0 {
      sym[next] := sym[next].(prev := l);
    }
  }

  /** The two pushes after a merge are the candidates of the merged symbol's neighbours. */
  lemma PushesMatch(tok: seq<Bytes>, s: Bytes, pm: map<int, int>, y: seq<GSym>, d: seq<nat>, k: nat,
                    bag: multiset<GBigram>, b: GBigram)
    requires Linked(y, d, |s|) && Tagged(tok, s, y, d) && k < |d| && InRange(y, d) && |tok| < 0x8000_0000
    ensures var l := d[k];
            && y[l].tag < 0x8000_0000
            && -1 <= y[l].prev < |y| && -1 <= y[l].next < |y|
            && (y[l].prev >= 0 ==> y[y[l].prev].tag < 0x8000_0000)
            && (y[l].next >= 0 ==> y[y[l].next].tag < 0x8000_0000)
            && BagAfter(Make(pm), bag, b, y, d, k) ==
                 PushSome(PushSome(bag - multiset{b}, TryCandidate(Make(pm), y, y[l].prev, l)),
                          TryCandidate(Make(pm), y, l, y[l].next))
  {
    PushesAround(Make(pm), y, d, |s|, k, bag, b);
    hide Linked, IdOf, Candidate, BagAfter, Make, TryCandidate;
    LinksOf(y, d, |s|, k);
    assert k > 0 ==> y[d[k - 1]].tag < |tok|;
    assert k + 1 < |d| ==> y[d[k + 1]].tag < |tok|;
  }

  method PushNeighbours(t: Tokenizer, ghost pm: map<int, int>, sym: array<GSym>, ghost ns: nat, l: nat,
                        heap: GrowingHeap<(int, int)>)
    requires t.Ready() && t.View().pm == pm && heap.Valid() && l < ns <= sym.Length
    requires -1 <= sym[l].prev < ns && -1 <= sym[l].next < ns && sym[l].tag < 0x8000_0000
    requires sym[l].prev >= 0 ==> sym[sym[l].prev].tag < 0x8000_0000
    requires sym[l].next >= 0 ==> sym[sym[l].next].tag < 0x8000_0000
    modifies heap, heap.e
    ensures heap.Valid() && heap.n <= old(heap.n) + 2 && (heap.e == old(heap.e) || fresh(heap.e))
    ensures heap.Bag() == PushSome(PushSome(old(heap.Bag()), TryCandidate(Make(pm), sym[..ns], sym[l].prev, l)),
                                   TryCandidate(Make(pm), sym[..ns], l, sym[l].next))
  {
    hide Tokenizer.Ready, Tokenizer.View, GrowingHeap.Bag, GrowingHeap.Valid, Candidate, PushSome;
    TryPair(t, sym, sym[l].prev, l, heap);
    TryPair(t, sym, l, sym[l].next, heap);
  }

  /** The merge of a popped current candidate, on snapshots: it is the simple loop's next merge, and
      the invariant holds of the new list and heap contents. */
  lemma MergeStep(t: Tables, s: Bytes, sym: seq<GSym>, live: seq<nat>, bag: multiset<GBigram>, b: GBigram)
    returns (k: nat)
    requires Good(t) && Inv(t, s, sym, live, bag) && b in bag && Current(sym, b)
    requires forall c :: c in bag ==> !Before(c, b)
    ensures k + 1 < |live| && live[k] == b.left < live[k + 1] == b.right < |sym|
    ensures 0 <= b.key.Floor < |t.result| && sym[b.right].next < |sym|
    ensures var y, d := Absorb(sym, b.left, b.right, t.result[b.key.Floor], -1), Drop(live, k);
            && Linked(y, d, |s|) && InRange(y, d) && Tagged(t.tok, s, y, d) && d[k] == b.left
            && Inv(t, s, y, d, BagAfter(Make(t.pm), bag, b, y, d, k))
            && Spec.Greedy(ByMerges(t.merges), Texts(s, sym, live)) == Spec.Greedy(ByMerges(t.merges), Texts(s, y, d))
  {
    hide Absorb, Merged, Want, BagAfter, Covers, Entry, Good, Spec.Greedy, Spec.MergeAt, Node, Texts, IdOf, Drop;
    k := CurrentIsPair(t, s, sym, live, bag, b);
    MergedId(t, s, sym, live, b, k);
    LinksOf(sym, live, |s|, k + 1);
    TopIsBest(t, s, sym, live, bag, b, k);
    Spec.GreedyStep(ByMerges(t.merges), Texts(s, sym, live), k);
    AbsorbMerged(sym, live, |s|, k, t.result[b.key.Floor], -1);
    MergeKeepsInv(t, s, sym, live, bag, b, k, Absorb(sym, b.left, b.right, t.result[b.key.Floor], -1));
  }

  /** The tables are readable and are v. */
  ghost predicate Serving(t: Tokenizer, v: Tables)
    reads t.vocab, t.vocab.e, t.pairs, t.pairs.pairkey, t.pairs.pairrank, t.result, t.byteTok
  {
    t.Ready() && t.View() == v
  }

  lemma ServingGood(t: Tokenizer, v: Tables)
    requires Serving(t, v)
    ensures Good(v) && v.tok == t.tok && |v.tok| < 0x8000_0000
    ensures v.merges == t.merges
  {
  }

  /** The array writes and pushes for a current candidate. */
  method DoMerge(t: Tokenizer, ghost v: Tables, ghost s: Bytes, sym: array<GSym>, ns: nat, bg: GBigram,
                 heap: GrowingHeap<(int, int)>, ghost d: seq<nat>, ghost k: nat, ghost bag: multiset<GBigram>)
    requires Serving(t, v) && heap.Valid() && heap.Bag() == bag - multiset{bg}
    requires bg.left < bg.right < ns <= sym.Length && sym[bg.right].next < ns
    requires 0 <= bg.key.Floor < |v.result|
    requires var y := Absorb(sym[..ns], bg.left, bg.right, v.result[bg.key.Floor], -1);
             Linked(y, d, |s|) && InRange(y, d) && Tagged(v.tok, s, y, d) && k < |d| && d[k] == bg.left
    modifies sym, heap, heap.e
    ensures sym[..ns] == Absorb(old(sym[..ns]), bg.left, bg.right, v.result[bg.key.Floor], -1)
    ensures InRange(sym[..ns], d) && heap.Valid() && heap.Bag() == BagAfter(Make(v.pm), bag, bg, sym[..ns], d, k)
    ensures heap.n <= old(heap.n) + 2 && (heap.e == old(heap.e) || fresh(heap.e))
    ensures Serving(t, v)
  {
    hide *;
    ServingGood(t, v);
    ServingReady(t, v);
    var id := t.Result(bg.key.Floor);
    MergeWrites(sym, ns, bg.left, bg.right, id);
    ghost var y := sym[..ns];
    PushesMatch(v.tok, s, v.pm, y, d, k, bag, bg);
    ServingReady(t, v);
    PushNeighbours(t, v.pm, sym, ns, bg.left, heap);
    assert sym[..ns] == y;
  }

  lemma ServingReady(t: Tokenizer, v: Tables)
    requires Serving(t, v)
    ensures t.Ready() && t.View() == v
  {
  }

  /** Invariant of the merge loop, with the greedy result still to come. */
  ghost predicate Running(v: Tables, s: Bytes, y: seq<GSym>, live: seq<nat>, bag: multiset<GBigram>, goal: seq<Bytes>)
  {
    && Inv(v, s, y, live, bag)
    && Spec.Greedy(ByMerges(v.merges), Texts(s, y, live)) == goal
  }

  lemma StaleStep(v: Tables, s: Bytes, y: seq<GSym>, live: seq<nat>, bag: multiset<GBigram>, goal: seq<Bytes>,
                  b: GBigram)
    requires Running(v, s, y, live, bag, goal) && b in bag && b.left < b.right < |y| && !Current(y, b)
    ensures Running(v, s, y, live, bag - multiset{b}, goal)
  {
    StaleIsUseless(v, s, y, live, bag, b);
  }

  lemma EntryBounds(v: Tables, s: Bytes, y: seq<GSym>, live: seq<nat>, bag: multiset<GBigram>, goal: seq<Bytes>,
                    b: GBigram)
    requires Running(v, s, y, live, bag, goal) && b in bag
    ensures b.left < b.right < |y|
  {
  }

  lemma CurrentStep(v: Tables, s: Bytes, y: seq<GSym>, live: seq<nat>, bag: multiset<GBigram>, goal: seq<Bytes>,
                    b: GBigram)
    returns (d: seq<nat>, k: nat)
    requires Good(v) && Running(v, s, y, live, bag, goal)
    requires b in bag && b.left < b.right < |y| && Current(y, b) && forall c :: c in bag ==> !Before(c, b)
    ensures 0 <= b.key.Floor < |v.result| && y[b.right].next < |y|
    ensures var z := Absorb(y, b.left, b.right, v.result[b.key.Floor], -1);
            && Linked(z, d, |s|) && InRange(z, d) && Tagged(v.tok, s, z, d) && k < |d| && d[k] == b.left
            && Running(v, s, z, d, BagAfter(Make(v.pm), bag, b, z, d, k), goal)
    ensures |d| == |live| - 1
  {
    hide Absorb, BagAfter, Inv, Spec.Greedy, Good, Linked, Tagged, InRange, Texts, Current, Before;
    k := MergeStep(v, s, y, live, bag, b);
    d := Drop(live, k);
  }

  /** One round: pop, and merge unless the candidate is outdated. */
  method Step(t: Tokenizer, ghost v: Tables, ghost s: Bytes, sym: array<GSym>, ns: nat,
              heap: GrowingHeap<(int, int)>, ghost live: seq<nat>, ghost goal: seq<Bytes>) returns (ghost d: seq<nat>)
    requires Serving(t, v) && heap.Valid() && heap.n > 0 && ns <= sym.Length
    requires Running(v, s, sym[..ns], live, heap.Bag(), goal)
    modifies sym, heap, heap.e
    ensures Serving(t, v) && heap.Valid() && (heap.e == old(heap.e) || fresh(heap.e))
    ensures Running(v, s, sym[..ns], d, heap.Bag(), goal)
    ensures 2 * |d| + heap.n < 2 * |live| + old(heap.n)
  {
    hide Running, Serving, Good, BagAfter, Absorb, GrowingHeap.Valid, GrowingHeap.Bag, Before, Linked, InRange, Tagged;
    ServingGood(t, v);
    ghost var y, bag := sym[..ns], heap.Bag();
    var bg := heap.PopOne();
    EntryBounds(v, s, y, live, bag, goal, bg);
    var l, r := bg.left, bg.right;
    assert sym[l] == y[l] && sym[r] == y[r];
    if sym[l].n == 0 || sym[r].n == 0 || sym[l].tag != bg.tag.0 || sym[r].tag != bg.tag.1 {
      StaleStep(v, s, y, live, bag, goal, bg);
      return live;
    }
    ghost var k;
    d, k := CurrentStep(v, s, y, live, bag, goal, bg);
    DoMerge(t, v, s, sym, ns, bg, heap, d, k, bag);
  }

  /** The merge loop: it stops with the symbols of the simple form. */
  method MergeAll(t: Tokenizer, ghost v: Tables, ghost s: Bytes, sym: array<GSym>, ns: nat,
                  heap: GrowingHeap<(int, int)>, ghost live0: seq<nat>, ghost goal: seq<Bytes>)
    returns (ghost live: seq<nat>)
    requires Serving(t, v) && heap.Valid() && ns <= sym.Length
    requires Running(v, s, sym[..ns], live0, heap.Bag(), goal)
    modifies sym, heap, heap.e
    ensures Serving(t, v)
    ensures Linked(sym[..ns], live, |s|) && Texts(s, sym[..ns], live) == goal && Tagged(v.tok, s, sym[..ns], live)
  {
    hide *;
    ServingGood(t, v);
    live := live0;
    while heap.n > 0
      invariant Serving(t, v) && heap.Valid() && (heap.e == old(heap.e) || fresh(heap.e))
      invariant Running(v, s, sym[..ns], live, heap.Bag(), goal)
      decreases 2 * |live| + heap.n
    {
      live := Step(t, v, s, sym, ns, heap, live, goal);
    }
    heap.EmptyBag();
    Finished(v, s, sym[..ns], live, goal);
  }

  lemma Finished(v: Tables, s: Bytes, y: seq<GSym>, live: seq<nat>, goal: seq<Bytes>)
    requires Good(v) && Running(v, s, y, live, multiset{}, goal)
    ensures Linked(y, live, |s|) && Tagged(v.tok, s, y, live) && Texts(s, y, live) == goal
  {
    hide Good, Texts, Spec.Greedy;
    NothingLeft(v, s, y, live);
    Spec.GreedyDone(ByMerges(v.merges), Texts(s, y, live));
  }

  lemma SeedEntry(pm: map<int, int>, y: seq<GSym>, k: nat)
    requires k + 1 < |y|
    ensures var c := Candidate(pm, y[k], y[k + 1], k, k + 1); c.Some? ==> Entry(pm, |y|, Identity(|y|), c.value)
  {
    hide IdRank;
  }

  lemma SeedEntries(pm: map<int, int>, y: seq<GSym>)
    ensures forall b :: b in SeedBag(Make(pm), y, |y|) ==> Entry(pm, |y|, Identity(|y|), b)
  {
    hide Candidate, Entry, SeedBag;
    var p := (b: GBigram) => Entry(pm, |y|, Identity(|y|), b);
    forall k: nat | k + 1 < |y| ensures Fits(Make(pm), y, k, p) {
      SeedEntry(pm, y, k);
    }
    SeedGood(Make(pm), y, |y|, p);
  }

  lemma SeedRunning(v: Tables, s: Bytes, y: seq<GSym>)
    requires Started(s, y, |s|) && Tags(v.tok, s, y) && PlainTexts(s, y, |s|) == Chars(LeadLen, s)
    ensures Running(v, s, y, Identity(|y|), SeedBag(Make(v.pm), y, |y|),
                    Spec.Greedy(ByMerges(v.merges), Chars(LeadLen, s)))
  {
    hide Started, Linked, Chars, Spec.Greedy, Candidate, Entry, SeedBag, Covers, Want, Make;
    StartedLinked(s, y);
    LinkedShape(y, Identity(|y|), |s|);
    SeedEntries(v.pm, y);
    SeedCovers(Make(v.pm), y);
  }

  lemma SameCandidate(pm: map<int, int>, y: seq<GSym>, z: seq<GSym>, l: nat, r: nat)
    requires l < |z| <= |y| && r < |z| && z == y[..|z|]
    ensures TryCandidate(Make(pm), y, l, r) == TryCandidate(Make(pm), z, l, r)
  {
  }

  method Seed(t: Tokenizer, ghost v: Tables, sym: array<GSym>, ns: nat) returns (heap: GrowingHeap<(int, int)>)
    requires Serving(t, v) && ns <= sym.Length
    requires forall i :: 0 <= i < ns ==> sym[i].tag < 0x8000_0000
    ensures fresh(heap) && fresh(heap.e) && heap.Valid() && heap.Bag() == SeedBag(Make(v.pm), sym[..ns], ns)
  {
    hide *;
    ServingReady(t, v);
    heap := new GrowingHeap<(int, int)>();
    heap.EmptyBag();
    var i := 1;
    SeedNext(Make(v.pm), sym[..ns]);
    while i < ns
      invariant 1 <= i && (ns > 0 ==> i <= ns) && fresh(heap) && fresh(heap.e) && heap.Valid()
      invariant heap.Bag() == SeedBag(Make(v.pm), sym[..ns], Min(i, ns))
      decreases ns - i
    {
      ServingReady(t, v);
      TryPair(t, sym, i - 1, i, heap);
      SameCandidate(v.pm, sym[..], sym[..ns], i - 1, i);
      i := i + 1;
    }
  }

  /** Byte fallback of one symbol. */
  method EmitBytes(t: Tokenizer, ghost v: Tables, w: Bytes, sink: Sink)
    requires Serving(t, v) && sink.Valid() && t.Outside(sink.out)
    modifies sink, sink.out
    ensures Serving(t, v) && sink.Valid()
    ensures sink.ids == old(sink.ids) + FallbackIds(v.tok, w)
  {
    hide Serving, IdOf, ByteName, Sink.Valid, FallbackIds, Good, Tokenizer.Ready, Tokenizer.View;
    ServingGood(t, v);
    FallbackNone(v.tok, w);
    for b := 0 to |w|
      invariant Serving(t, v) && sink.Valid()
      invariant sink.ids == old(sink.ids) + FallbackIds(v.tok, w[..b])
    {
      ServingReady(t, v);
      var id := t.ByteToken(w[b]);
      sink.Emit(id);
      FallbackNext(v.tok, w, b);
    }
  }

  /** The emission loop follows next links and writes the ids of the linked symbols in order. */
  method EmitSyms(t: Tokenizer, ghost v: Tables, s: Bytes, sym: array<GSym>, ns: nat, ghost live: seq<nat>, sink: Sink)
    requires Serving(t, v) && sink.Valid() && t.Outside(sink.out) && ns <= sym.Length
    requires Linked(sym[..ns], live, |s|) && Tagged(v.tok, s, sym[..ns], live) && |live| > 0
    modifies sink, sink.out
    ensures Serving(t, v) && sink.Valid()
    ensures sink.ids == old(sink.ids) + AllIds(v.tok, Texts(s, sym[..ns], live))
  {
    hide Serving, IdOf, Sink.Valid, Linked, SymbolIds, AllIds;
    ghost var y, texts := sym[..ns], Texts(s, sym[..ns], live);
    FirstIsZero(y, live, |s|);
    var i := 0;
    ghost var k := 0;
    AllIdsNone(v.tok, texts);
    while i != -1
      invariant 0 <= k <= |live| && i == (if k < |live| then live[k] else -1)
      invariant Serving(t, v) && sink.Valid()
      invariant sink.ids == old(sink.ids) + AllIds(v.tok, texts[..k])
      decreases |live| - k
    {
      LinksOf(y, live, |s|, k);
      SymInside(y, live, |s|, k);
      assert y[i] == sym[i];
      var w := s[sym[i].off..sym[i].off + sym[i].n];
      SymbolIdsIs(v.tok, w);
      if sym[i].tag >= 0 {
        sink.Emit(sym[i].tag);
      } else {
        EmitBytes(t, v, w, sink);
      }
      AllIdsNext(v.tok, texts, k);
      i := sym[i].next;
      k := k + 1;
    }
    assert texts[..|live|] == texts;
  }

  /** g4_piece. */
  method Piece(t: Tokenizer, ghost v: Tables, s: Bytes, isNl: bool, sink: Sink)
    requires Serving(t, v) && sink.Valid() && t.Outside(sink.out)
    modifies sink, sink.out
    ensures Serving(t, v) && sink.Valid()
    ensures sink.ids == old(sink.ids) + PieceIds(v.tok, v.merges, s, isNl)
  {
    hide Serving, IdOf, Sink.Valid, Linked, Texts, AllIds, Spec.Greedy, Chars, Running, SeedBag, Started, Tags;
    hide Tokenizer.Ready, Tokenizer.View, PlainTexts, GrowingHeap.Valid, GrowingHeap.Bag, Tagged;
    ServingReady(t, v);
    ServingGood(t, v);
    if isNl {
      var id := t.Lookup(s);
      if id >= 0 {
        sink.Emit(id);
        return;
      }
    }
    var sym, ns := InitSyms(t, s);
    TagsBound(v.tok, s, sym[..ns]);
    StartedNonempty(s, sym[..ns]);
    var heap := Seed(t, v, sym, ns);
    SeedRunning(v, s, sym[..ns]);
    ghost var live := MergeAll(t, v, s, sym, ns, heap, Identity(ns),
                               Spec.Greedy(ByMerges(v.merges), Chars(LeadLen, s)));
    LiveIffSyms(v.tok, s, sym[..ns], live);
    if ns > 0 {
      EmitSyms(t, v, s, sym, ns, live, sink);
    }
  }

  lemma TagsBound(tok: seq<Bytes>, s: Bytes, y: seq<GSym>)
    requires Tags(tok, s, y) && |tok| < 0x8000_0000
    ensures forall i :: 0 <= i < |y| ==> y[i].tag < 0x8000_0000
  {
  }

  lemma StartedNonempty<T>(s: Bytes, y: seq<Sym<T>>)
    requires Started(s, y, |s|)
    ensures |y| == 0 <==> s == []
  {
  }

  lemma LiveIffSyms(tok: seq<Bytes>, s: Bytes, y: seq<GSym>, live: seq<nat>)
    requires Linked(y, live, |s|) && (|y| == 0 <==> s == [])
    ensures |y| == 0 <==> |live| == 0
    ensures |y| == 0 ==> AllIds(tok, Texts(s, y, live)) == []
  {
  }
}
