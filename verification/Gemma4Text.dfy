/** g4_fragment, sp_g4_encode and sp_g4_decode. */
module Gemma4Text {
  import opened Basics
  import opened Vocab
  import opened Escaping
  import opened SymbolList
  import opened TokenIds
  import opened Gemma4Build
  import opened Gemma4Piece
  import opened Sinks
  import opened Specials
  import opened IdLists
  import Spec = GreedyBpe

  /** End of the run that starts at o: bytes that are all line feeds or all not. */
  function LineRun(s: Bytes, o: nat, isNl: bool, e: nat): (r: nat)
    requires o < e <= |s|
    ensures e <= r <= |s|
    ensures forall k :: e <= k < r ==> (s[k] == LF) == isNl
    ensures r < |s| ==> (s[r] == LF) != isNl
    decreases |s| - e
  {
    if e < |s| && (s[e] == LF) == isNl then LineRun(s, o, isNl, e + 1) else e
  }

  /** The pre-tokens of escaped text: maximal runs of line feeds and of anything else. */
  function Runs(s: Bytes): (r: seq<Bytes>)
    decreases |s|
  {
    if s == [] then [] else
      var e := LineRun(s, 0, s[0] == LF, 1);
      [s[..e]] + Runs(s[e..])
  }

  lemma RunsTile(s: Bytes)
    ensures Flatten(Runs(s)) == s
    decreases |s|
  {
    if s != [] {
      var e := LineRun(s, 0, s[0] == LF, 1);
      RunsTile(s[e..]);
      assert s == s[..e] + s[e..];
    }
  }

  /** A piece that is not empty and is either all line feeds or has none. */
  ghost predicate OneKind(w: Bytes) {
    w != [] && forall i :: 0 <= i < |w| ==> (w[i] == 0x0A) == (w[0] == 0x0A)
  }

  /** The pieces of a text cut wherever line feeds begin or end, and nowhere else. */
  ghost predicate Alternating(runs: seq<Bytes>) {
    && (forall k :: 0 <= k < |runs| ==> OneKind(runs[k]))
    && forall k {:trigger runs[k]} :: 0 < k < |runs| ==> (runs[k][0] == 0x0A) != (runs[k - 1][0] == 0x0A)
  }

  lemma {:induction false} RunsAlternate(s: Bytes)
    ensures Alternating(Runs(s))
    ensures s != [] ==> Runs(s) != [] && Runs(s)[0] != [] && Runs(s)[0][0] == s[0]
    decreases |s|
  {
    if s != [] {
      var e := LineRun(s, 0, s[0] == LF, 1);
      RunsAlternate(s[e..]);
      var rest := Runs(s[e..]);
      assert Runs(s) == [s[..e]] + rest;
      hide Runs, LineRun;
      assert OneKind(s[..e]);
      assert rest != [] ==> e < |s| && rest[0][0] == s[e];
    }
  }

  /** The first piece is the longest uniform front of the text. */
  lemma FirstPiece(x: seq<Bytes>)
    requires Alternating(x) && x != []
    ensures var t, n := Flatten(x), |x[0]|;
            && 0 < n <= |t| && t[..n] == x[0] && t[n..] == Flatten(x[1..]) && Alternating(x[1..])
            && (forall i :: 0 <= i < n ==> (t[i] == LF) == (t[0] == LF))
            && (n < |t| ==> (t[n] == LF) != (t[0] == LF))
  {
    assert OneKind(x[0]);
    if |x| > 1 {
      assert OneKind(x[1]) && (x[1][0] == LF) != (x[0][0] == LF);
      assert Flatten(x[1..]) == x[1] + Flatten(x[1..][1..]);
    } else {
      assert x[1..] == [];
    }
  }

  /** Only one such list has the text as its concatenation. */
  lemma {:induction false} AlternatingUnique(x: seq<Bytes>, y: seq<Bytes>)
    requires Alternating(x) && Alternating(y) && Flatten(x) == Flatten(y)
    ensures x == y
    decreases |x|
  {
    if x != [] { FirstPiece(x); }
    if y != [] { FirstPiece(y); }
    hide Alternating;
    if x != [] && y != [] {
      assert |x[0]| == |y[0]|;
      AlternatingUnique(x[1..], y[1..]);
      assert x == [x[0]] + x[1..] && y == [y[0]] + y[1..];
    }
  }

  function RunIds(tok: seq<Bytes>, merges: seq<Bytes>, runs: seq<Bytes>): seq<int> {
    if runs == [] then [] else
      PieceIds(tok, merges, runs[0], runs[0] != [] && runs[0][0] == LF) + RunIds(tok, merges, runs[1..])
  }

  /** The ids of one raw fragment, stated on strings. */
  function FragmentIds(tok: seq<Bytes>, merges: seq<Bytes>, text: Bytes): seq<int> {
    RunIds(tok, merges, Runs(Escape(text)))
  }

  lemma LineRunShift(s: Bytes, o: nat, isNl: bool, e: nat)
    requires o < e <= |s|
    ensures LineRun(s, o, isNl, e) - o == LineRun(s[o..], 0, isNl, e - o)
    decreases |s| - e
  {
    if e < |s| && (s[e] == LF) == isNl {
      assert s[o..][e - o] == s[e];
      LineRunShift(s, o, isNl, e + 1);
    }
  }

  lemma RunsCut(s: Bytes, o: nat)
    requires o < |s|
    ensures var e := LineRun(s, o, s[o] == LF, o + 1); Runs(s[o..]) == [s[o..e]] + Runs(s[e..])
  {
    hide LineRun, Runs;
    var e := LineRun(s, o, s[o] == LF, o + 1);
    LineRunShift(s, o, s[o] == LF, o + 1);
    var u := s[o..];
    assert u[0] == s[o];
    assert u[..e - o] == s[o..e];
    assert u[e - o..] == s[e..];
    RunsIs(u);
  }

  lemma RunsIs(s: Bytes)
    requires s != []
    ensures var e := LineRun(s, 0, s[0] == LF, 1); Runs(s) == [s[..e]] + Runs(s[e..])
  {
    hide LineRun;
  }

  lemma RunsNext(tok: seq<Bytes>, merges: seq<Bytes>, s: Bytes, o: nat)
    requires o < |s|
    ensures var e := LineRun(s, o, s[o] == LF, o + 1);
            RunIds(tok, merges, Runs(s[o..])) ==
            PieceIds(tok, merges, s[o..e], s[o] == LF) + RunIds(tok, merges, Runs(s[e..]))
  {
    hide PieceIds, Runs, LineRun;
    RunsCut(s, o);
    var e := LineRun(s, o, s[o] == LF, o + 1);
    var runs := Runs(s[o..]);
    assert runs[0] == s[o..e] && runs[1..] == Runs(s[e..]);
  }

  lemma RunsEnd(tok: seq<Bytes>, merges: seq<Bytes>, s: Bytes)
    ensures RunIds(tok, merges, Runs(s[|s|..])) == [] && s[0..] == s
  {
  }

  /** The inner loop of g4_fragment. */
  method FindRun(s: Bytes, o: nat) returns (isNl: bool, e: nat)
    requires o < |s|
    ensures isNl == (s[o] == LF) && e == LineRun(s, o, isNl, o + 1)
  {
    isNl := s[o] == LF;
    e := o + 1;
    while e < |s| && (s[e] == LF) == isNl
      invariant o < e <= |s| && LineRun(s, o, isNl, e) == LineRun(s, o, isNl, o + 1)
    {
      e := e + 1;
    }
  }

  /** g4_fragment. */
  method Fragment(t: Tokenizer, ghost v: Tables, text: Bytes, sink: Sink)
    requires Serving(t, v) && sink.Valid() && t.Outside(sink.out)
    modifies sink, sink.out
    ensures Serving(t, v) && sink.Valid()
    ensures sink.ids == old(sink.ids) + FragmentIds(v.tok, v.merges, text)
  {
    hide Serving, Sink.Valid, FragmentIds, RunIds, Runs, PieceIds, Escape, LineRun;
    FragmentIs(v.tok, v.merges, text);
    if |text| == 0 {
      return;
    }
    var buf, el := EscapeSpaces(text);
    var s: Bytes := buf[..el];
    RunsEnd(v.tok, v.merges, s);
    ghost var goal := sink.ids + RunIds(v.tok, v.merges, Runs(s));
    var o := 0;
    while o < |s|
      invariant o <= |s| && Serving(t, v) && sink.Valid()
      invariant sink.ids + RunIds(v.tok, v.merges, Runs(s[o..])) == goal
      decreases |s| - o
    {
      var isNl, e := FindRun(s, o);
      RunsNext(v.tok, v.merges, s, o);
      Piece(t, v, s[o..e], isNl, sink);
      o := e;
    }
  }

  lemma FragmentIs(tok: seq<Bytes>, merges: seq<Bytes>, text: Bytes)
    ensures FragmentIds(tok, merges, text) == RunIds(tok, merges, Runs(Escape(text)))
    ensures text == [] ==> FragmentIds(tok, merges, text) == []
  {
  }

  /** The final symbols of a piece: itself when it is a newline run that is a token, else its characters merged. */
  function PieceSyms(tok: seq<Bytes>, merges: seq<Bytes>, s: Bytes, isNl: bool): seq<Bytes> {
    if isNl && s in tok then [s] else Spec.Greedy(ByMerges(merges), Chars(LeadLen, s))
  }

  function RunSyms(tok: seq<Bytes>, merges: seq<Bytes>, runs: seq<Bytes>): seq<Bytes> {
    if runs == [] then [] else
      PieceSyms(tok, merges, runs[0], runs[0] != [] && runs[0][0] == LF) + RunSyms(tok, merges, runs[1..])
  }

  /** The symbols the encoder ends with on a text. */
  function TextSyms(tok: seq<Bytes>, merges: seq<Bytes>, s: Bytes): seq<Bytes> {
    RunSyms(tok, merges, Runs(Escape(s)))
  }

  lemma EscapeEnds(s: Bytes)
    requires s != []
    ensures var w := Escape(s);
            w != [] && (w[0] == LF) == (s[0] == LF) && (w[|w| - 1] == LF) == (s[|s| - 1] == LF)
  {
    var n := |s| - 1;
    EscapeNext(s, n);
    assert s[..n + 1] == s;
  }

  lemma EscapeOneKind(s: Bytes)
    requires OneKind(s)
    ensures OneKind(Escape(s)) && (s[0] == LF ==> Escape(s) == s) && (Escape(s)[0] == LF) == (s[0] == LF)
    decreases |s|
  {
    if |s| > 1 {
      assert s[1..][0] == s[1];
      EscapeOneKind(s[1..]);
    } else {
      assert Escape(s) == EscapeByte(s[0]) + Escape(s[1..]);
    }
  }

  /** The whole of a text that is one run: a token when it is a line-feed run in the vocabulary, else merged
      character by character. */
  lemma OneRunSyms(tok: seq<Bytes>, merges: seq<Bytes>, s: Bytes)
    requires OneKind(s)
    ensures s[0] == LF && s in tok ==> TextSyms(tok, merges, s) == [s]
    ensures s[0] != LF || s !in tok ==>
              TextSyms(tok, merges, s) == Spec.Greedy(ByMerges(merges), Chars(LeadLen, Escape(s)))
  {
    var w := Escape(s);
    var one: seq<Bytes> := [w];
    EscapeOneKind(s);
    RunsAlternate(w);
    RunsTile(w);
    assert Flatten(one) == w by { assert one[1..] == []; }
    assert Alternating(one);
    AlternatingUnique(one, Runs(w));
    SymsOf(tok, merges, s);
    hide Runs, TextSyms, Spec.Greedy, Chars, Alternating;
    assert one[1..] == [] && RunSyms(tok, merges, one[1..]) == [];
    assert RunSyms(tok, merges, one) == PieceSyms(tok, merges, w, w[0] == LF);
  }

  lemma {:induction false} RunSymsAppend(tok: seq<Bytes>, merges: seq<Bytes>, a: seq<Bytes>, b: seq<Bytes>)
    ensures RunSyms(tok, merges, a + b) == RunSyms(tok, merges, a) + RunSyms(tok, merges, b)
    decreases |a|
  {
    hide PieceSyms;
    if a == [] {
      assert a + b == b;
    } else {
      RunSymsAppend(tok, merges, a[1..], b);
      assert (a + b)[1..] == a[1..] + b;
    }
  }

  lemma LastPiece(x: seq<Bytes>, s: Bytes)
    requires Alternating(x) && Flatten(x) == s != []
    ensures x != [] && (x[|x| - 1][0] == LF) == (s[|s| - 1] == LF)
  {
    var n := |x| - 1;
    var last: seq<Bytes> := [x[n]];
    assert x == x[..n] + last && last[1..] == [] && Flatten(last) == x[n] + Flatten(last[1..]);
    FlattenAppend(x[..n], last);
    assert OneKind(x[n]);
    assert s[|s| - 1] == x[n][|x[n]| - 1];
  }

  lemma AlternatingSplit(x: seq<Bytes>, y: seq<Bytes>)
    requires Alternating(x) && Alternating(y) && x != [] && y != []
    requires OneKind(x[|x| - 1]) && OneKind(y[0]) && (x[|x| - 1][0] == LF) != (y[0][0] == LF)
    ensures Alternating(x + y)
  {
    hide OneKind;
    var runs := x + y;
    forall k | 0 <= k < |runs| ensures OneKind(runs[k]) {
      if k < |x| { assert OneKind(x[k]); } else { assert OneKind(y[k - |x|]); }
    }
    forall k {:trigger runs[k]} | 0 < k < |runs|
      ensures OneKind(runs[k]) && OneKind(runs[k - 1]) && runs[k] != [] && runs[k - 1] != []
      ensures (runs[k][0] == LF) != (runs[k - 1][0] == LF)
    {
      NotEmpty(runs[k]);
      NotEmpty(runs[k - 1]);
      if k > |x| { assert y[k - |x|] == runs[k] && y[k - |x| - 1] == runs[k - 1]; }
    }
  }

  lemma NotEmpty(w: Bytes)
    requires OneKind(w)
    ensures w != []
  {
  }

  lemma RunsSplit(x: Bytes, y: Bytes)
    requires x != [] && y != [] && (x[|x| - 1] == LF) != (y[0] == LF)
    ensures Runs(x + y) == Runs(x) + Runs(y)
  {
    RunsTile(x);
    RunsTile(y);
    RunsTile(x + y);
    RunsAlternate(x);
    RunsAlternate(y);
    RunsAlternate(x + y);
    LastPiece(Runs(x), x);
    FlattenAppend(Runs(x), Runs(y));
    assert OneKind(Runs(x)[|Runs(x)| - 1]) && OneKind(Runs(y)[0]);
    hide *;
    AlternatingSplit(Runs(x), Runs(y));
    AlternatingUnique(Runs(x) + Runs(y), Runs(x + y));
  }

  /** Where line feeds begin or end, the two sides are encoded on their own. */
  lemma TextSymsSplit(tok: seq<Bytes>, merges: seq<Bytes>, a: Bytes, b: Bytes)
    requires a != [] && b != [] && (a[|a| - 1] == LF) != (b[0] == LF)
    ensures TextSyms(tok, merges, a + b) == TextSyms(tok, merges, a) + TextSyms(tok, merges, b)
  {
    hide *;
    EscapeAppend(a, b);
    EscapeEnds(a);
    EscapeEnds(b);
    RunsSplit(Escape(a), Escape(b));
    RunSymsAppend(tok, merges, Runs(Escape(a)), Runs(Escape(b)));
    SymsOf(tok, merges, a);
    SymsOf(tok, merges, b);
    SymsOf(tok, merges, a + b);
  }

  lemma PieceIdsAre(tok: seq<Bytes>, merges: seq<Bytes>, s: Bytes, isNl: bool)
    ensures PieceIds(tok, merges, s, isNl) == AllIds(tok, PieceSyms(tok, merges, s, isNl))
  {
    if isNl && s in tok {
      var one: seq<Bytes> := [s];
      assert one[1..] == [] && AllIds(tok, one) == SymbolIds(tok, one[0]) + AllIds(tok, one[1..]);
    }
  }

  /** The ids of a text are the ids of its final symbols. */
  lemma {:induction false} RunIdsAre(tok: seq<Bytes>, merges: seq<Bytes>, runs: seq<Bytes>)
    ensures RunIds(tok, merges, runs) == AllIds(tok, RunSyms(tok, merges, runs))
  {
    hide PieceIds, PieceSyms, SymbolIds;
    if runs != [] {
      var isNl := runs[0] != [] && runs[0][0] == LF;
      PieceIdsAre(tok, merges, runs[0], isNl);
      RunIdsAre(tok, merges, runs[1..]);
      AllIdsAppend(tok, PieceSyms(tok, merges, runs[0], isNl), RunSyms(tok, merges, runs[1..]));
    }
  }

  /** The ids of a text are the ids of its final symbols. */
  lemma FragmentIdsAre(tok: seq<Bytes>, merges: seq<Bytes>, text: Bytes)
    ensures FragmentIds(tok, merges, text) == AllIds(tok, TextSyms(tok, merges, text))
  {
    RunIdsAre(tok, merges, Runs(Escape(text)));
    FragmentIs(tok, merges, text);
    hide *;
    SymsOf(tok, merges, text);
  }

  lemma SymsOf(tok: seq<Bytes>, merges: seq<Bytes>, text: Bytes)
    ensures TextSyms(tok, merges, text) == RunSyms(tok, merges, Runs(Escape(text)))
  {
  }

  /** The special ids of a gemma4 tokenizer; bos is always in range, the others may be absent (-1). */
  datatype Marks = Marks(bos: nat, eos: int, pad: int, unk: int)

  function OneSegmentIds(tok: seq<Bytes>, merges: seq<Bytes>, seg: Segment): seq<int> {
    match seg
    case Raw(text) => FragmentIds(tok, merges, text)
    case Hit(sp) => [sp.id]
  }

  function SegmentIds(tok: seq<Bytes>, merges: seq<Bytes>, segs: seq<Segment>): seq<int> {
    if segs == [] then [] else OneSegmentIds(tok, merges, segs[0]) + SegmentIds(tok, merges, segs[1..])
  }

  /** The ids of a text: none for the empty text, else the forced BOS and the ids of the segments. */
  function EncodeIds(tok: seq<Bytes>, merges: seq<Bytes>, marks: Marks, spec: seq<Special>, s: Bytes,
                     parseSpecial: bool): seq<int> {
    if s == [] then [] else
      [marks.bos] + SegmentIds(tok, merges, Segments(if parseSpecial then spec else [], s, 0, 0))
  }

  /** The parts are the ids of the segments: of a raw text those of its final symbols, of a hit exactly its id. */
  ghost predicate PartsOf(parts: seq<seq<int>>, tok: seq<Bytes>, merges: seq<Bytes>, segs: seq<Segment>) {
    && |parts| == |segs|
    && (forall k :: 0 <= k < |segs| && segs[k].Raw? ==> parts[k] == AllIds(tok, TextSyms(tok, merges, segs[k].text)))
    && (forall k :: 0 <= k < |segs| && segs[k].Hit? ==> parts[k] == [segs[k].sp.id])
  }

  /** ids is BOS and then the ids of the segments in order. */
  ghost predicate Reads(ids: seq<int>, tok: seq<Bytes>, merges: seq<Bytes>, bos: int, segs: seq<Segment>) {
    exists parts :: PartsOf(parts, tok, merges, segs) && InOrder(ids, [bos], parts)
  }

  lemma OneSegment(tok: seq<Bytes>, merges: seq<Bytes>, seg: Segment)
    ensures seg.Raw? ==> OneSegmentIds(tok, merges, seg) == FragmentIds(tok, merges, seg.text)
    ensures seg.Hit? ==> OneSegmentIds(tok, merges, seg) == [seg.sp.id]
  {
  }

  lemma {:induction false} SegmentParts(tok: seq<Bytes>, merges: seq<Bytes>, segs: seq<Segment>)
    returns (parts: seq<seq<int>>)
    ensures |parts| == |segs| && Concat(parts) == SegmentIds(tok, merges, segs)
    ensures forall k :: 0 <= k < |segs| ==> parts[k] == OneSegmentIds(tok, merges, segs[k])
    decreases |segs|
  {
    hide OneSegmentIds;
    if segs == [] {
      parts := [];
    } else {
      var rest := SegmentParts(tok, merges, segs[1..]);
      parts := [OneSegmentIds(tok, merges, segs[0])] + rest;
      assert parts[1..] == rest;
    }
  }

  lemma SegmentsRead(tok: seq<Bytes>, merges: seq<Bytes>, bos: int, segs: seq<Segment>)
    ensures Reads([bos] + SegmentIds(tok, merges, segs), tok, merges, bos, segs)
  {
    hide OneSegmentIds, SegmentIds, InOrder, TextSyms, AllIds, FragmentIds;
    var parts := SegmentParts(tok, merges, segs);
    PartsInOrder([bos], parts);
    forall k | 0 <= k < |segs|
      ensures segs[k].Raw? ==> parts[k] == AllIds(tok, TextSyms(tok, merges, segs[k].text))
      ensures segs[k].Hit? ==> parts[k] == [segs[k].sp.id]
    {
      OneSegment(tok, merges, segs[k]);
      if segs[k].Raw? { FragmentIdsAre(tok, merges, segs[k].text); }
    }
    assert PartsOf(parts, tok, merges, segs);
  }

  /** What the encoder gives for a non-empty text: the forced BOS, then the gaps and special ids in order. */
  lemma EncodesText(tok: seq<Bytes>, merges: seq<Bytes>, marks: Marks, spec: seq<Special>, s: Bytes, parseSpecial: bool)
    requires s != []
    ensures Reads(EncodeIds(tok, merges, marks, spec, s, parseSpecial), tok, merges, marks.bos,
                  Segments(if parseSpecial then spec else [], s, 0, 0))
  {
    EncodeIdsAre(tok, merges, marks, spec, s, parseSpecial);
    hide *;
    SegmentsRead(tok, merges, marks.bos, Segments(if parseSpecial then spec else [], s, 0, 0));
  }

  /** With special parsing off: BOS and the ids of the text's final symbols. */
  lemma EncodesPlain(tok: seq<Bytes>, merges: seq<Bytes>, marks: Marks, spec: seq<Special>, s: Bytes)
    requires s != []
    ensures EncodeIds(tok, merges, marks, spec, s, false) == [marks.bos] + AllIds(tok, TextSyms(tok, merges, s))
  {
    NoSpecials(s, 0);
    FragmentIdsAre(tok, merges, s);
    hide FragmentIds, TextSyms, AllIds, Segments;
    var segs: seq<Segment> := [Raw(s)];
    assert segs[1..] == [] && SegmentIds(tok, merges, segs[1..]) == [];
    assert SegmentIds(tok, merges, segs) == OneSegmentIds(tok, merges, segs[0]) + SegmentIds(tok, merges, segs[1..]);
    assert SegmentIds(tok, merges, segs) == AllIds(tok, TextSyms(tok, merges, s));
  }

  lemma SegmentsNext(tok: seq<Bytes>, merges: seq<Bytes>, segs: seq<Segment>, k: nat)
    requires k < |segs|
    ensures SegmentIds(tok, merges, segs[k..]) ==
            OneSegmentIds(tok, merges, segs[k]) + SegmentIds(tok, merges, segs[k + 1..])
  {
    hide OneSegmentIds;
    assert segs[k..][1..] == segs[k + 1..];
  }

  lemma EncodeIdsAre(tok: seq<Bytes>, merges: seq<Bytes>, marks: Marks, spec: seq<Special>, s: Bytes,
                     parseSpecial: bool)
    ensures s == [] ==> EncodeIds(tok, merges, marks, spec, s, parseSpecial) == []
    ensures s != [] ==>
              EncodeIds(tok, merges, marks, spec, s, parseSpecial) ==
              [marks.bos] + SegmentIds(tok, merges, Segments(if parseSpecial then spec else [], s, 0, 0))
  {
  }

  lemma SegmentsEnd(tok: seq<Bytes>, merges: seq<Bytes>, segs: seq<Segment>)
    ensures SegmentIds(tok, merges, segs[|segs|..]) == [] && segs[0..] == segs
  {
  }

  /** One segment. */
  method PutSegment(t: Tokenizer, ghost v: Tables, seg: Segment, sink: Sink)
    requires Serving(t, v) && sink.Valid() && t.Outside(sink.out)
    modifies sink, sink.out
    ensures Serving(t, v) && sink.Valid()
    ensures sink.ids == old(sink.ids) + OneSegmentIds(v.tok, v.merges, seg)
  {
    hide Serving, Sink.Valid, FragmentIds, OneSegmentIds;
    OneSegment(v.tok, v.merges, seg);
    match seg
    case Raw(text) => Fragment(t, v, text, sink);
    case Hit(sp) => sink.Emit(sp.id);
  }

  /** The loop over the segments. */
  method PutSegments(t: Tokenizer, ghost v: Tables, segs: seq<Segment>, sink: Sink)
    requires Serving(t, v) && sink.Valid() && t.Outside(sink.out)
    modifies sink, sink.out
    ensures Serving(t, v) && sink.Valid()
    ensures sink.ids == old(sink.ids) + SegmentIds(v.tok, v.merges, segs)
  {
    hide *;
    SegmentsEnd(v.tok, v.merges, segs);
    ghost var goal := sink.ids + SegmentIds(v.tok, v.merges, segs);
    for k := 0 to |segs|
      invariant Serving(t, v) && sink.Valid() && t.Outside(sink.out)
      invariant sink.ids + SegmentIds(v.tok, v.merges, segs[k..]) == goal
    {
      SegmentsNext(v.tok, v.merges, segs, k);
      PutSegment(t, v, segs[k], sink);
    }
  }

  /** sp_tokenizer_encode in the gemma4 lane: the number of ids, of which out holds those that fit. */
  method Encode(t: Tokenizer, ghost v: Tables, marks: Marks, spec: seq<Special>, s: Bytes, parseSpecial: bool,
                out: array<int>) returns (n: nat)
    requires Serving(t, v) && t.Outside(out)
    modifies out
    ensures Serving(t, v)
    ensures var ids := EncodeIds(v.tok, v.merges, marks, spec, s, parseSpecial);
            n == |ids| && forall i :: 0 <= i < n && i < out.Length ==> out[i] == ids[i]
    ensures s == [] ==> n == 0
    ensures s != [] ==> n >= 1 && (out.Length > 0 ==> out[0] == marks.bos)
    ensures s != [] && !parseSpecial ==>
              var rest := AllIds(v.tok, TextSyms(v.tok, v.merges, s));
              n == 1 + |rest| && forall i :: 0 <= i < |rest| && i + 1 < out.Length ==> out[i + 1] == rest[i]
    ensures s != [] ==>
              Reads(EncodeIds(v.tok, v.merges, marks, spec, s, parseSpecial), v.tok, v.merges, marks.bos,
                    Segments(if parseSpecial then spec else [], s, 0, 0))
  {
    hide Serving, Sink.Valid, SegmentIds, OneSegmentIds, EncodeIds, Segments, Placed, Reads, TextSyms, AllIds;
    EncodeIdsAre(v.tok, v.merges, marks, spec, s, parseSpecial);
    if |s| == 0 {
      return 0;
    }
    EncodesText(v.tok, v.merges, marks, spec, s, parseSpecial);
    if !parseSpecial { EncodesPlain(v.tok, v.merges, marks, spec, s); }
    var sink := new Sink(out);
    sink.Emit(marks.bos);
    var segs := Presplit(spec, s, parseSpecial);
    PutSegments(t, v, segs, sink);
    SinkHolds(sink);
    return sink.cnt;
  }
}
