/** spm_fragment: one raw-text fragment of the SentencePiece lane. */
module SpmFragment {
  import opened Basics
  import opened OpenAddressing
  import opened Vocab
  import opened BigramHeap
  import opened Candidates
  import opened SymbolList
  import opened SpmMerge
  import opened Sinks
  import opened Escaping
  import Ids = TokenIds
  import Spec = GreedyBpe

  /** Character length from the lead byte; malformed leads and continuation bytes are one byte. */
  function Utf8Len(c0: byte): (n: nat)
    ensures 1 <= n <= 4
  {
    if c0 < 0xC0 then 1 else if c0 < 0xE0 then 2 else if c0 < 0xF0 then 3 else if c0 < 0xF8 then 4 else 1
  }

  /** The SPM fields of sp_tokenizer. */
  class Tokenizer {
    const tok: seq<Bytes>
    const vocab: ByteMap
    const scores: seq<real>
    const byteTok: array<int>

    ghost predicate Ready()
      reads vocab, vocab.e, byteTok
    {
      && Serves(vocab, tok)
      && |scores| == |tok|
      && byteTok.Length == 256 && forall b: byte :: byteTok[b] == IdOf(tok, ByteName(b))
    }

    ghost function View(): Model {
      Model(tok, scores)
    }

    constructor (tok: seq<Bytes>, scores: seq<real>, vocab: ByteMap, byteTok: array<int>)
      requires Serves(vocab, tok) && |scores| == |tok| && byteTok.Length == 256
      requires forall b: byte :: byteTok[b] == IdOf(tok, ByteName(b))
      ensures Ready() && this.tok == tok && this.scores == scores && this.vocab == vocab && this.byteTok == byteTok
    {
      hide IdOf, ByteName, Serves;
      this.tok, this.scores, this.vocab, this.byteTok := tok, scores, vocab, byteTok;
    }

    method Lookup(w: Bytes) returns (id: int)
      requires Ready()
      ensures id == IdOf(tok, w)
    {
      hide IdOf, ByteName;
      id := Vocab.Lookup(vocab, tok, w);
    }

    method ByteToken(b: byte) returns (id: int)
      requires Ready()
      ensures id == IdOf(tok, ByteName(b))
    {
      hide IdOf, ByteName;
      id := byteTok[b];
    }
  }

  /** The loaders' SPM part: one score per token and all 256 byte tokens, or no tokenizer. */
  method Load(tok: seq<Bytes>, scores: seq<real>, hash: Bytes -> nat) returns (t: Tokenizer?)
    ensures t != null <==> |scores| == |tok| && forall b: byte :: ByteName(b) in tok
    ensures t != null ==> t.Ready() && t.tok == tok && t.scores == scores && fresh(t)
  {
    hide IdOf, ByteName, Serves;
    var vocab := BuildVocab(tok, hash);
    if |scores| != |tok| {
      return null;
    }
    var ok, bt := BuildByteTok(vocab, tok);
    if !ok {
      return null;
    }
    t := new Tokenizer(tok, scores, vocab, bt);
  }

  /** The symbols the encoder ends with on a text: its characters, escaped, merged by score. */
  function TextSyms(m: Model, s: Bytes): seq<Bytes>
    requires Good(m)
  {
    Spec.Greedy(ByScores(m), Chars(Utf8Len, Escape(s)))
  }

  /** The ids of a fragment, stated on strings. */
  function FragmentIds(m: Model, s: Bytes): seq<int>
    requires Good(m)
  {
    Ids.AllIds(m.tok, TextSyms(m, s))
  }

  /** Cuts the escaped text into characters. */
  method InitSyms(s: Bytes) returns (sym: array<SSym>, ns: nat)
    ensures fresh(sym) && ns <= |s| && ns <= sym.Length
    ensures Started(s, sym[..ns], |s|) && PlainTexts(s, sym[..ns], |s|) == Chars(Utf8Len, s)
  {
    hide *;
    sym := new SSym[|s| + 1];
    ns := 0;
    var o := 0;
    NoSyms(s);
    NoSyms(s[|s|..]);
    assert s[0..] == s && sym[..0] == [];
    while o < |s|
      invariant o <= |s| && ns <= o && Started(s, sym[..ns], o)
      invariant PlainTexts(s, sym[..ns], o) + Chars(Utf8Len, s[o..]) == Chars(Utf8Len, s)
      decreases |s| - o
    {
      var L := Utf8Len(s[o]);
      if o + L > |s| { L := |s| - o; }
      ghost var y := sym[..ns];
      StartNext(s, y, o, L, ());
      StartNextText(s, y, o, L, ());
      CharsNext(Utf8Len, s, o);
      sym[ns] := StartSym(s, ns, o, L, ());
      assert sym[..ns + 1] == y + [StartSym(s, ns, o, L, ())];
      o := o + L;
      ns := ns + 1;
    }
  }

  lemma NoSyms(s: Bytes)
    ensures Started<()>(s, [], 0)
    ensures s == [] ==> Chars(Utf8Len, s) == []
  {
  }

  /** The heap is the array prefix h[..hn]; there is no bounds check, so room is a precondition. */
  ghost predicate HeapIs(h: array<SBigram>, hn: nat, bag: multiset<SBigram>)
    reads h
  {
    hn <= h.Length && IsHeap(h[..hn]) && multiset(h[..hn]) == bag
  }

  /** SPM_TRY: pushes without a capacity check. */
  method TryPair(t: Tokenizer, s: Bytes, sym: array<SSym>, ghost ns: nat, l: int, r: int,
                 h: array<SBigram>, hn: nat, ghost bag: multiset<SBigram>) returns (hn': nat)
    requires t.Ready() && Good(t.View()) && ns <= sym.Length && l < ns && r < ns
    requires l >= 0 && r >= 0 ==> sym[l].off + sym[l].n + sym[r].n <= |s|
    requires HeapIs(h, hn, bag) && hn < h.Length
    modifies h
    ensures hn <= hn' <= hn + 1
    ensures HeapIs(h, hn', PushSome(bag, TryCandidate(Make(t.View(), s), sym[..ns], l, r)))
  {
    hide IdOf, Tokenizer.Ready, HeapIs, Candidate;
    if l < 0 || r < 0 {
      return hn;
    }
    var nn := sym[l].n + sym[r].n;
    var w := s[sym[l].off..sym[l].off + nn];
    CandidateIs(t.View(), s, sym[l], sym[r], l, r, w);
    var id := t.Lookup(w);
    if id < 0 {
      return hn;
    }
    PushOne(h, hn, bag, Bigram(-t.scores[id], l, r, nn));
    return hn + 1;
  }

  lemma CandidateIs(m: Model, s: Bytes, a: SSym, b: SSym, l: nat, r: nat, w: Bytes)
    requires Good(m) && a.off + a.n + b.n <= |s| && w == s[a.off..a.off + (a.n + b.n)]
    ensures -1 <= IdOf(m.tok, w) < |m.score|
    ensures Candidate(m, s, a, b, l, r) ==
            if IdOf(m.tok, w) < 0 then None else Some(Bigram(-m.score[IdOf(m.tok, w)], l, r, a.n + b.n))
  {
    hide IdOf;
  }

  /** spm_push on the heap array. */
  method PushOne(h: array<SBigram>, hn: nat, ghost bag: multiset<SBigram>, bg: SBigram)
    requires HeapIs(h, hn, bag) && hn < h.Length
    modifies h
    ensures HeapIs(h, hn + 1, bag + multiset{bg})
  {
    hide IsHeap;
    Push(h, hn, bg);
  }

  /** The writes of one merge. */
  method MergeWrites(sym: array<SSym>, ns: nat, l: nat, r: nat)
    requires l < r < ns <= sym.Length && sym[r].next < ns
    modifies sym
    ensures sym[..ns] == Absorb(old(sym[..ns]), l, r, (), ())
  {
    sym[l] := sym[l].(n := sym[l].n + sym[r].n, tag := ());
    sym[r] := sym[r].(n := 0, tag := ());
    var next := sym[r].next;
    sym[l] := sym[l].(next := next);
    if next >= 0 {
      sym[next] := sym[next].(prev := l);
    }
  }

  lemma PushesMatch(m: Model, s: Bytes, y: seq<SSym>, d: seq<nat>, k: nat, bag: multiset<SBigram>, b: SBigram)
    requires Good(m) && Linked(y, d, |s|) && k < |d| && InRange(y, d)
    ensures var l := d[k];
            && -1 <= y[l].prev < |y| && -1 <= y[l].next < |y|
            && (y[l].prev >= 0 ==> y[y[l].prev].off + y[y[l].prev].n + y[l].n <= |s|)
            && (y[l].next >= 0 ==> y[l].off + y[l].n + y[y[l].next].n <= |s|)
            && BagAfter(Make(m, s), bag, b, y, d, k) ==
                 PushSome(PushSome(bag - multiset{b}, TryCandidate(Make(m, s), y, y[l].prev, l)),
                          TryCandidate(Make(m, s), y, l, y[l].next))
  {
    PushesAround(Make(m, s), y, d, |s|, k, bag, b);
    hide Linked, Candidate, BagAfter, PushSome, InRange, Texts, Text, Make, TryCandidate;
    LinksOf(y, d, |s|, k);
    if k > 0 { PairText(s, y, d, k - 1); }
    if k + 1 < |d| { PairText(s, y, d, k); }
  }

  /** Invariant of the merge loop, with the greedy result still to come. */
  ghost predicate Running(m: Model, s: Bytes, y: seq<SSym>, live: seq<nat>, bag: multiset<SBigram>, goal: seq<Bytes>)
    requires Good(m)
  {
    && Inv(m, s, y, live, bag)
    && Spec.Greedy(ByScores(m), Texts(s, y, live)) == goal
  }

  lemma StaleStep(m: Model, s: Bytes, y: seq<SSym>, live: seq<nat>, bag: multiset<SBigram>, goal: seq<Bytes>,
                  b: SBigram)
    requires Good(m) && Running(m, s, y, live, bag, goal)
    requires b in bag && b.left < b.right < |y| && !Current(y, b)
    ensures Running(m, s, y, live, bag - multiset{b}, goal)
  {
    StaleIsUseless(m, s, y, live, bag, b);
  }

  lemma EntryBounds(m: Model, s: Bytes, y: seq<SSym>, live: seq<nat>, bag: multiset<SBigram>, goal: seq<Bytes>,
                    b: SBigram)
    requires Good(m) && Running(m, s, y, live, bag, goal) && b in bag
    ensures b.left < b.right < |y|
  {
  }

  lemma CurrentStep(m: Model, s: Bytes, y: seq<SSym>, live: seq<nat>, bag: multiset<SBigram>, goal: seq<Bytes>,
                    b: SBigram)
    returns (d: seq<nat>, k: nat)
    requires Good(m) && Running(m, s, y, live, bag, goal)
    requires b in bag && b.left < b.right < |y| && Current(y, b) && forall c :: c in bag ==> !Before(c, b)
    ensures y[b.right].next < |y|
    ensures var z := Absorb(y, b.left, b.right, (), ());
            && Linked(z, d, |s|) && InRange(z, d) && k < |d| && d[k] == b.left
            && Running(m, s, z, d, BagAfter(Make(m, s), bag, b, z, d, k), goal)
    ensures |d| == |live| - 1
  {
    hide Absorb, BagAfter, Inv, Spec.Greedy, Good, Linked, InRange, Texts, Current, Before;
    k := MergeStep(m, s, y, live, bag, b);
    d := Drop(live, k);
  }

  /** The array writes and pushes for a current candidate. */
  method DoMerge(t: Tokenizer, ghost m: Model, s: Bytes, sym: array<SSym>, ns: nat, bg: SBigram,
                 h: array<SBigram>, hn: nat, ghost d: seq<nat>, ghost k: nat, ghost bag: multiset<SBigram>)
    returns (hn': nat)
    requires t.Ready() && m == t.View() && Good(m) && HeapIs(h, hn, bag - multiset{bg}) && hn + 2 <= h.Length
    requires bg.left < bg.right < ns <= sym.Length && sym[bg.right].next < ns
    requires var y := Absorb(sym[..ns], bg.left, bg.right, (), ());
             Linked(y, d, |s|) && InRange(y, d) && k < |d| && d[k] == bg.left
    modifies sym, h
    ensures sym[..ns] == Absorb(old(sym[..ns]), bg.left, bg.right, (), ())
    ensures InRange(sym[..ns], d) && HeapIs(h, hn', BagAfter(Make(m, s), bag, bg, sym[..ns], d, k))
    ensures hn' <= hn + 2
  {
    hide *;
    var l := bg.left;
    MergeWrites(sym, ns, l, bg.right);
    ghost var y := sym[..ns];
    PushesMatch(m, s, y, d, k, bag, bg);
    var hn1 := TryPair(t, s, sym, ns, sym[l].prev, l, h, hn, bag - multiset{bg});
    assert sym[..ns] == y;
    hn' := TryPair(t, s, sym, ns, l, sym[l].next, h, hn1,
                   PushSome(bag - multiset{bg}, TryCandidate(Make(m, s), y, y[l].prev, l)));
    assert sym[..ns] == y;
  }

  /** One round: pop, and merge unless the candidate is outdated. */
  method Step(t: Tokenizer, ghost m: Model, s: Bytes, sym: array<SSym>, ns: nat, h: array<SBigram>, hn: nat,
              ghost live: seq<nat>, ghost bag: multiset<SBigram>, ghost goal: seq<Bytes>)
    returns (hn': nat, ghost d: seq<nat>, ghost bag': multiset<SBigram>)
    requires t.Ready() && m == t.View() && Good(m) && HeapIs(h, hn, bag) && 0 < hn && ns <= sym.Length
    requires hn + 1 <= h.Length
    requires Running(m, s, sym[..ns], live, bag, goal)
    modifies sym, h
    ensures HeapIs(h, hn', bag') && Running(m, s, sym[..ns], d, bag', goal)
    ensures hn' + 2 * |d| < hn + 2 * |live|
  {
    hide Running, BagAfter, Absorb, Before, Linked, InRange, Tokenizer.Ready, IsHeap;
    ghost var y := sym[..ns];
    var bg := Pop(h, hn);
    EntryBounds(m, s, y, live, bag, goal, bg);
    var l, r := bg.left, bg.right;
    assert sym[l] == y[l] && sym[r] == y[r];
    if sym[l].n == 0 || sym[r].n == 0 || sym[l].n + sym[r].n != bg.tag {
      StaleStep(m, s, y, live, bag, goal, bg);
      return hn - 1, live, bag - multiset{bg};
    }
    ghost var k;
    d, k := CurrentStep(m, s, y, live, bag, goal, bg);
    hn' := DoMerge(t, m, s, sym, ns, bg, h, hn - 1, d, k, bag);
    bag' := BagAfter(Make(m, s), bag, bg, sym[..ns], d, k);
  }

  /** The merge loop. The preallocated heap never overflows, because every push pays for a merge. */
  method MergeAll(t: Tokenizer, ghost m: Model, s: Bytes, sym: array<SSym>, ns: nat, h: array<SBigram>, hn0: nat,
                  ghost live0: seq<nat>, ghost bag0: multiset<SBigram>, ghost goal: seq<Bytes>)
    returns (ghost live: seq<nat>)
    requires t.Ready() && m == t.View() && Good(m) && HeapIs(h, hn0, bag0) && ns <= sym.Length
    requires hn0 + 2 * |live0| < h.Length
    requires Running(m, s, sym[..ns], live0, bag0, goal)
    modifies sym, h
    ensures Linked(sym[..ns], live, |s|) && Texts(s, sym[..ns], live) == goal
  {
    hide *;
    live := live0;
    var hn: nat := hn0;
    ghost var bag := bag0;
    while hn > 0
      invariant HeapIs(h, hn, bag) && hn + 2 * |live| < h.Length
      invariant Running(m, s, sym[..ns], live, bag, goal)
      decreases 2 * |live| + hn
    {
      hn, live, bag := Step(t, m, s, sym, ns, h, hn, live, bag, goal);
    }
    EmptyHeap(h, bag);
    Finished(m, s, sym[..ns], live, goal);
  }

  lemma EmptyHeap(h: array<SBigram>, bag: multiset<SBigram>)
    requires HeapIs(h, 0, bag)
    ensures bag == multiset{}
  {
  }

  lemma Finished(m: Model, s: Bytes, y: seq<SSym>, live: seq<nat>, goal: seq<Bytes>)
    requires Good(m) && Running(m, s, y, live, multiset{}, goal)
    ensures Linked(y, live, |s|) && Texts(s, y, live) == goal
  {
    hide Texts, Spec.Greedy;
    NothingLeft(m, s, y, live);
    Spec.GreedyDone(ByScores(m), Texts(s, y, live));
  }

  lemma SeedEntry(m: Model, s: Bytes, y: seq<SSym>, k: nat)
    requires Good(m) && k + 1 < |y|
    ensures var c := Candidate(m, s, y[k], y[k + 1], k, k + 1); c.Some? ==> Entry(m, s, y, Identity(|y|), c.value)
  {
    hide Key;
  }

  lemma SeedEntries(m: Model, s: Bytes, y: seq<SSym>)
    requires Good(m)
    ensures forall b :: b in SeedBag(Make(m, s), y, |y|) ==> Entry(m, s, y, Identity(|y|), b)
  {
    hide Candidate, Entry, SeedBag;
    var p := (b: SBigram) => Good(m) && Entry(m, s, y, Identity(|y|), b);
    forall k: nat | k + 1 < |y| ensures Fits(Make(m, s), y, k, p) {
      SeedEntry(m, s, y, k);
    }
    SeedGood(Make(m, s), y, |y|, p);
  }

  lemma SeedRunning(m: Model, s: Bytes, y: seq<SSym>)
    requires Good(m) && Started(s, y, |s|) && PlainTexts(s, y, |s|) == Chars(Utf8Len, s)
    ensures Running(m, s, y, Identity(|y|), SeedBag(Make(m, s), y, |y|), Spec.Greedy(ByScores(m), Chars(Utf8Len, s)))
  {
    hide Started, Linked, Chars, Spec.Greedy, Candidate, Entry, SeedBag, Covers, Want, Make, Good;
    StartedLinked(s, y);
    LinkedShape(y, Identity(|y|), |s|);
    SeedEntries(m, s, y);
    SeedCovers(Make(m, s), y);
  }

  lemma StartedPairs(s: Bytes, y: seq<SSym>, i: nat)
    requires Started(s, y, |s|) && i + 1 < |y|
    ensures y[i].off + y[i].n + y[i + 1].n <= |s|
  {
    assert Follows(y, i + 1);
  }

  method Seed(t: Tokenizer, ghost m: Model, s: Bytes, sym: array<SSym>, ns: nat, h: array<SBigram>) returns (hn: nat)
    requires t.Ready() && m == t.View() && Good(m) && ns <= sym.Length && Started(s, sym[..ns], |s|) && ns < h.Length
    modifies h
    ensures hn <= ns && HeapIs(h, hn, SeedBag(Make(m, s), sym[..ns], ns))
  {
    hide Candidate, Started, IsHeap, Tokenizer.Ready, PushSome;
    hn := 0;
    NoHeap(h);
    var i := 1;
    while i < ns
      invariant 1 <= i && (ns > 0 ==> i <= ns) && hn < i
      invariant HeapIs(h, hn, SeedBag(Make(m, s), sym[..ns], Min(i, ns)))
      decreases ns - i
    {
      StartedPairs(s, sym[..ns], i - 1);
      hn := TryPair(t, s, sym, ns, i - 1, i, h, hn, SeedBag(Make(m, s), sym[..ns], i));
      i := i + 1;
    }
  }

  lemma NoHeap(h: array<SBigram>)
    ensures HeapIs(h, 0, multiset{})
  {
  }

  /** The caller's output buffer is not the byte-token table. */
  ghost predicate Outside(t: Tokenizer, out: array<int>) {
    out != t.byteTok
  }

  method EmitBytes(t: Tokenizer, w: Bytes, sink: Sink)
    requires t.Ready() && sink.Valid() && Outside(t, sink.out)
    modifies sink, sink.out
    ensures t.Ready() && sink.Valid()
    ensures sink.ids == old(sink.ids) + Ids.FallbackIds(t.tok, w)
  {
    hide Tokenizer.Ready, IdOf, ByteName, Sink.Valid, Ids.FallbackIds;
    Ids.FallbackNone(t.tok, w);
    for j := 0 to |w|
      invariant t.Ready() && sink.Valid()
      invariant sink.ids == old(sink.ids) + Ids.FallbackIds(t.tok, w[..j])
    {
      var id := t.ByteToken(w[j]);
      sink.Emit(id);
      Ids.FallbackNext(t.tok, w, j);
    }
  }

  /** The emission loop follows next links and looks each final text up. */
  method EmitSyms(t: Tokenizer, s: Bytes, sym: array<SSym>, ns: nat, ghost live: seq<nat>, sink: Sink)
    requires t.Ready() && sink.Valid() && Outside(t, sink.out) && ns <= sym.Length
    requires Linked(sym[..ns], live, |s|) && |live| > 0
    modifies sink, sink.out
    ensures t.Ready() && sink.Valid()
    ensures sink.ids == old(sink.ids) + Ids.AllIds(t.tok, Texts(s, sym[..ns], live))
  {
    hide Tokenizer.Ready, IdOf, Sink.Valid, Linked, Ids.SymbolIds, Ids.AllIds;
    ghost var y, texts := sym[..ns], Texts(s, sym[..ns], live);
    FirstIsZero(y, live, |s|);
    var i := 0;
    ghost var k := 0;
    Ids.AllIdsNone(t.tok, texts);
    while i != -1
      invariant 0 <= k <= |live| && i == (if k < |live| then live[k] else -1)
      invariant t.Ready() && sink.Valid()
      invariant sink.ids == old(sink.ids) + Ids.AllIds(t.tok, texts[..k])
      decreases |live| - k
    {
      LinksOf(y, live, |s|, k);
      SymInside(y, live, |s|, k);
      assert y[i] == sym[i];
      var w := s[sym[i].off..sym[i].off + sym[i].n];
      Ids.SymbolIdsIs(t.tok, w);
      var id := t.Lookup(w);
      if id >= 0 {
        sink.Emit(id);
      } else {
        EmitBytes(t, w, sink);
      }
      Ids.AllIdsNext(t.tok, texts, k);
      i := sym[i].next;
      k := k + 1;
    }
    assert texts[..|live|] == texts;
  }

  lemma LiveNonempty(s: Bytes, y: seq<SSym>, live: seq<nat>)
    requires Linked(y, live, |s|) && s != []
    ensures |live| > 0
  {
  }

  lemma NoFragment(m: Model)
    requires Good(m)
    ensures FragmentIds(m, []) == []
  {
  }

  /** spm_fragment. */
  method Fragment(t: Tokenizer, text: Bytes, sink: Sink)
    requires t.Ready() && Good(t.View()) && sink.Valid() && Outside(t, sink.out)
    modifies sink, sink.out
    ensures t.Ready() && sink.Valid()
    ensures sink.ids == old(sink.ids) + FragmentIds(t.View(), text)
  {
    hide Tokenizer.Ready, IdOf, Sink.Valid, Linked, Texts, Ids.AllIds, Spec.Greedy, Chars, Running, SeedBag, Started;
    hide PlainTexts, IsHeap, HeapIs, Escape;
    ghost var m := t.View();
    if |text| == 0 {
      NoFragment(m);
      return;
    }
    var buf, el := EscapeSpaces(text);
    var s: Bytes := buf[..el];
    var sym, ns := InitSyms(s);
    var h := new SBigram[4 * el + 16](i => Bigram(0.0, 0, 0, 0));
    var hn := Seed(t, m, s, sym, ns, h);
    SeedRunning(m, s, sym[..ns]);
    ghost var live := MergeAll(t, m, s, sym, ns, h, hn, Identity(ns), SeedBag(Make(m, s), sym[..ns], ns),
                               Spec.Greedy(ByScores(m), Chars(Utf8Len, s)));
    LiveNonempty(s, sym[..ns], live);
    EmitSyms(t, s, sym, ns, live, sink);
  }
}
