/** The top level of the SPM lane: optional BOS, special tokens, and the fragments between them. */
module SpmText {
  import opened Basics
  import opened Escaping
  import opened SymbolList
  import opened SpmMerge
  import opened SpmFragment
  import opened Sinks
  import opened Specials
  import opened IdLists
  import Ids = TokenIds
  import Spec = GreedyBpe

  /** Whether texts get a BOS, and which: a negative id is an absent one. */
  datatype Bos = Bos(add: bool, id: int)

  /** The final symbols are the escaped text, and no two neighbours together are a token. */
  lemma TextSymsLaw(m: Model, s: Bytes)
    requires Good(m)
    ensures Flatten(TextSyms(m, s)) == Escape(s)
    ensures forall i: nat :: i + 1 < |TextSyms(m, s)| ==> TextSyms(m, s)[i] + TextSyms(m, s)[i + 1] !in m.tok
  {
    hide Spec.Greedy, Chars, Escape;
    var cs, rank := Chars(Utf8Len, Escape(s)), ByScores(m);
    CharsText(Utf8Len, Escape(s));
    Spec.GreedyKeepsText(rank, cs);
    Spec.GreedyIsStuck(rank, cs);
    var syms := TextSyms(m, s);
    forall i: nat | i + 1 < |syms| ensures syms[i] + syms[i + 1] !in m.tok {
      assert Spec.PairRank(rank, syms, i).None?;
      ScoreIsKey(m, syms, i);
    }
  }

  /** Each is a token or one of the characters the text starts as. */
  lemma TextSymsTokens(m: Model, s: Bytes)
    requires Good(m)
    ensures forall w :: w in TextSyms(m, s) ==> w in m.tok || w in Chars(Utf8Len, Escape(s))
  {
    hide Spec.Greedy, Escape, Chars;
    var cs := Chars(Utf8Len, Escape(s));
    var p := (w: Bytes) => w in m.tok || w in cs;
    assert Spec.Closed(ByScores(m), p) by { RankedAreTokens(m, cs); }
    Spec.GreedyKeeps(ByScores(m), cs, p);
  }

  lemma RankedAreTokens(m: Model, cs: seq<Bytes>)
    requires Good(m)
    ensures forall a: Bytes, b: Bytes :: ByScores(m)(a, b).Some? ==> a + b in m.tok
  {
  }

  function OneSegmentIds(m: Model, seg: Segment): seq<int>
    requires Good(m)
  {
    match seg
    case Raw(text) => FragmentIds(m, text)
    case Hit(sp) => [sp.id]
  }

  function SegmentIds(m: Model, segs: seq<Segment>): seq<int>
    requires Good(m)
  {
    if segs == [] then [] else OneSegmentIds(m, segs[0]) + SegmentIds(m, segs[1..])
  }

  function BosIds(bos: Bos): seq<int> {
    if bos.add && bos.id >= 0 then [bos.id] else []
  }

  /** The ids of a text: none for the empty text, else the BOS, if there is one, and the ids of the segments. */
  function EncodeIds(m: Model, bos: Bos, spec: seq<Special>, s: Bytes, parseSpecial: bool): seq<int>
    requires Good(m)
  {
    if s == [] then [] else
      BosIds(bos) + SegmentIds(m, Segments(if parseSpecial then spec else [], s, 0, 0))
  }

  /** The parts are the ids of the segments: of a raw text those of its final symbols, of a hit exactly its id. */
  ghost predicate PartsOf(parts: seq<seq<int>>, m: Model, segs: seq<Segment>)
    requires Good(m)
  {
    && |parts| == |segs|
    && (forall k :: 0 <= k < |segs| && segs[k].Raw? ==> parts[k] == Ids.AllIds(m.tok, TextSyms(m, segs[k].text)))
    && (forall k :: 0 <= k < |segs| && segs[k].Hit? ==> parts[k] == [segs[k].sp.id])
  }

  /** ids is front and then the ids of the segments in order. */
  ghost predicate Reads(ids: seq<int>, front: seq<int>, m: Model, segs: seq<Segment>)
    requires Good(m)
  {
    exists parts :: PartsOf(parts, m, segs) && InOrder(ids, front, parts)
  }

  lemma OneSegment(m: Model, seg: Segment)
    requires Good(m)
    ensures seg.Raw? ==> OneSegmentIds(m, seg) == FragmentIds(m, seg.text) == Ids.AllIds(m.tok, TextSyms(m, seg.text))
    ensures seg.Hit? ==> OneSegmentIds(m, seg) == [seg.sp.id]
  {
  }

  lemma {:induction false} SegmentParts(m: Model, segs: seq<Segment>) returns (parts: seq<seq<int>>)
    requires Good(m)
    ensures |parts| == |segs| && Concat(parts) == SegmentIds(m, segs)
    ensures forall k :: 0 <= k < |segs| ==> parts[k] == OneSegmentIds(m, segs[k])
    decreases |segs|
  {
    hide OneSegmentIds;
    if segs == [] {
      parts := [];
    } else {
      var rest := SegmentParts(m, segs[1..]);
      parts := [OneSegmentIds(m, segs[0])] + rest;
      assert parts[1..] == rest;
    }
  }

  lemma SegmentsRead(front: seq<int>, m: Model, segs: seq<Segment>)
    requires Good(m)
    ensures Reads(front + SegmentIds(m, segs), front, m, segs)
  {
    hide OneSegmentIds, SegmentIds, InOrder, TextSyms, Ids.AllIds, FragmentIds;
    var parts := SegmentParts(m, segs);
    PartsInOrder(front, parts);
    forall k | 0 <= k < |segs|
      ensures segs[k].Raw? ==> parts[k] == Ids.AllIds(m.tok, TextSyms(m, segs[k].text))
      ensures segs[k].Hit? ==> parts[k] == [segs[k].sp.id]
    {
      OneSegment(m, segs[k]);
    }
    assert PartsOf(parts, m, segs);
  }

  lemma SegmentsNext(m: Model, segs: seq<Segment>, k: nat)
    requires Good(m) && k < |segs|
    ensures SegmentIds(m, segs[k..]) == OneSegmentIds(m, segs[k]) + SegmentIds(m, segs[k + 1..])
  {
    hide OneSegmentIds;
    assert segs[k..][1..] == segs[k + 1..];
  }

  lemma SegmentsEnd(m: Model, segs: seq<Segment>)
    requires Good(m)
    ensures SegmentIds(m, segs[|segs|..]) == [] && segs[0..] == segs
  {
  }

  lemma EncodeIdsAre(m: Model, bos: Bos, spec: seq<Special>, s: Bytes, parseSpecial: bool)
    requires Good(m)
    ensures s == [] ==> EncodeIds(m, bos, spec, s, parseSpecial) == []
    ensures s != [] ==>
              EncodeIds(m, bos, spec, s, parseSpecial) ==
              BosIds(bos) + SegmentIds(m, Segments(if parseSpecial then spec else [], s, 0, 0))
  {
  }

  /** With special parsing off: the BOS, if there is one, and the ids of the text's final symbols. */
  lemma EncodesPlain(m: Model, bos: Bos, spec: seq<Special>, s: Bytes)
    requires Good(m) && s != []
    ensures EncodeIds(m, bos, spec, s, false) == BosIds(bos) + Ids.AllIds(m.tok, TextSyms(m, s))
  {
    NoSpecials(s, 0);
    OneSegment(m, Raw(s));
    EncodeIdsAre(m, bos, spec, s, false);
    hide FragmentIds, TextSyms, Ids.AllIds, Segments, OneSegmentIds, EncodeIds;
    var segs: seq<Segment> := [Raw(s)];
    assert segs[1..] == [] && SegmentIds(m, segs[1..]) == [];
    assert SegmentIds(m, segs) == OneSegmentIds(m, segs[0]) + SegmentIds(m, segs[1..]);
  }

  /** One segment. */
  method PutSegment(t: Tokenizer, seg: Segment, sink: Sink)
    requires t.Ready() && Good(t.View()) && sink.Valid() && Outside(t, sink.out)
    modifies sink, sink.out
    ensures t.Ready() && sink.Valid()
    ensures sink.ids == old(sink.ids) + OneSegmentIds(t.View(), seg)
  {
    hide Tokenizer.Ready, Sink.Valid, FragmentIds, TextSyms, Good;
    OneSegment(t.View(), seg);
    match seg
    case Raw(text) => Fragment(t, text, sink);
    case Hit(sp) => sink.Emit(sp.id);
  }

  /** The loop over the segments. */
  method PutSegments(t: Tokenizer, segs: seq<Segment>, sink: Sink)
    requires t.Ready() && Good(t.View()) && sink.Valid() && Outside(t, sink.out)
    modifies sink, sink.out
    ensures t.Ready() && sink.Valid()
    ensures sink.ids == old(sink.ids) + SegmentIds(t.View(), segs)
  {
    hide *;
    ghost var m := t.View();
    SegmentsEnd(m, segs);
    ghost var goal := sink.ids + SegmentIds(m, segs);
    for k := 0 to |segs|
      invariant t.Ready() && sink.Valid() && Outside(t, sink.out)
      invariant sink.ids + SegmentIds(m, segs[k..]) == goal
    {
      SegmentsNext(m, segs, k);
      PutSegment(t, segs[k], sink);
    }
  }

  /** spm_encode, behind the test for the empty text: the number of ids, of which out holds those that fit. */
  method Encode(t: Tokenizer, bos: Bos, spec: seq<Special>, s: Bytes, parseSpecial: bool, out: array<int>)
    returns (n: nat)
    requires t.Ready() && Good(t.View()) && Outside(t, out)
    modifies out
    ensures t.Ready()
    ensures var ids := EncodeIds(t.View(), bos, spec, s, parseSpecial);
            n == |ids| && forall i :: 0 <= i < n && i < out.Length ==> out[i] == ids[i]
    ensures s == [] ==> n == 0
    ensures s != [] && bos.add && bos.id >= 0 ==> n >= 1 && (out.Length > 0 ==> out[0] == bos.id)
    ensures s != [] ==>
              Reads(EncodeIds(t.View(), bos, spec, s, parseSpecial),
                    if bos.add && bos.id >= 0 then [bos.id] else [], t.View(),
                    Segments(if parseSpecial then spec else [], s, 0, 0))
  {
    hide Tokenizer.Ready, Sink.Valid, SegmentIds, OneSegmentIds, EncodeIds, Segments, Placed, Reads, FragmentIds;
    hide TextSyms, Good, Tokenizer.View;
    ghost var m := t.View();
    EncodeIdsAre(m, bos, spec, s, parseSpecial);
    if |s| == 0 {
      return 0;
    }
    SegmentsRead(BosIds(bos), m, Segments(if parseSpecial then spec else [], s, 0, 0));
    var sink := new Sink(out);
    if bos.add && bos.id >= 0 {
      sink.Emit(bos.id);
    }
    assert sink.ids == BosIds(bos);
    var segs := Presplit(spec, s, parseSpecial);
    PutSegments(t, segs, sink);
    SinkHolds(sink);
    return sink.cnt;
  }
}
