/** The GPT2 encoder and decoder entry points, and the law that decoding inverts encoding on every byte
    string, well-formed or not. */
module Gpt2RoundTrip {
  import opened Basics
  import opened Vocab
  import opened ByteLevel
  import opened PieceKinds
  import opened Pretokenizer
  import opened Sinks
  import opened Specials
  import opened IdLists
  import opened Gpt2Piece
  import opened Gpt2Text
  import Spec = GreedyBpe

  ghost function OneSegmentIds(tok: seq<Bytes>, lines: seq<Bytes>, c: Classes, seg: Segment): Outcome {
    match seg
    case Raw(text) => TextIds(tok, lines, c, text)
    case Hit(sp) => Ids([sp.id])
  }

  ghost function SegmentIds(tok: seq<Bytes>, lines: seq<Bytes>, c: Classes, segs: seq<Segment>): Outcome {
    if segs == [] then Ids([]) else
      Join(OneSegmentIds(tok, lines, c, segs[0]), SegmentIds(tok, lines, c, segs[1..]))
  }

  /** The ids of a text, or why encoding stops. */
  ghost function EncodeIds(tok: seq<Bytes>, lines: seq<Bytes>, c: Classes, spec: seq<Special>, s: Bytes,
                           parseSpecial: bool): Outcome {
    SegmentIds(tok, lines, c, Segments(if parseSpecial then spec else [], s, 0, 0))
  }

  lemma SegmentIdsNext(tok: seq<Bytes>, lines: seq<Bytes>, c: Classes, segs: seq<Segment>, k: nat)
    requires k < |segs|
    ensures SegmentIds(tok, lines, c, segs[k..]) ==
            Join(OneSegmentIds(tok, lines, c, segs[k]), SegmentIds(tok, lines, c, segs[k + 1..]))
  {
    hide OneSegmentIds;
    assert segs[k..][1..] == segs[k + 1..];
  }

  lemma OneSegmentIs(tok: seq<Bytes>, lines: seq<Bytes>, c: Classes, seg: Segment)
    ensures seg.Raw? ==> OneSegmentIds(tok, lines, c, seg) == TextIds(tok, lines, c, seg.text)
    ensures seg.Hit? ==> OneSegmentIds(tok, lines, c, seg) == Ids([seg.sp.id])
  {
  }

  lemma NoSegments(tok: seq<Bytes>, lines: seq<Bytes>, c: Classes, segs: seq<Segment>)
    ensures SegmentIds(tok, lines, c, segs[|segs|..]) == Ids([]) && segs[0..] == segs
  {
  }

  /** The parts are the ids of the segments: of a raw text those of its pre-tokens, of a hit exactly its id. */
  ghost predicate PartsOf(parts: seq<seq<int>>, tok: seq<Bytes>, lines: seq<Bytes>, c: Classes, segs: seq<Segment>) {
    && |parts| == |segs|
    && (forall k :: 0 <= k < |segs| && segs[k].Raw? ==> TextIds(tok, lines, c, segs[k].text) == Ids(parts[k]))
    && (forall k :: 0 <= k < |segs| && segs[k].Hit? ==> parts[k] == [segs[k].sp.id])
  }

  /** ids is the ids of the segments in order. */
  ghost predicate Reads(ids: seq<int>, tok: seq<Bytes>, lines: seq<Bytes>, c: Classes, segs: seq<Segment>) {
    exists parts :: PartsOf(parts, tok, lines, c, segs) && InOrder(ids, [], parts)
  }

  lemma {:induction false} SegmentParts(tok: seq<Bytes>, lines: seq<Bytes>, c: Classes, segs: seq<Segment>)
    returns (parts: seq<seq<int>>)
    requires SegmentIds(tok, lines, c, segs).Ids?
    ensures PartsOf(parts, tok, lines, c, segs) && Concat(parts) == SegmentIds(tok, lines, c, segs).ids
    decreases |segs|
  {
    hide TextIds;
    if segs == [] {
      parts := [];
    } else {
      var rest := SegmentParts(tok, lines, c, segs[1..]);
      parts := [OneSegmentIds(tok, lines, c, segs[0]).ids] + rest;
      assert parts[1..] == rest;
      assert forall k :: 0 < k < |segs| ==> segs[k] == segs[1..][k - 1] && parts[k] == rest[k - 1];
    }
  }

  lemma SegmentsRead(tok: seq<Bytes>, lines: seq<Bytes>, c: Classes, segs: seq<Segment>)
    requires SegmentIds(tok, lines, c, segs).Ids?
    ensures Reads(SegmentIds(tok, lines, c, segs).ids, tok, lines, c, segs)
  {
    hide SegmentIds, PartsOf, InOrder;
    var parts := SegmentParts(tok, lines, c, segs);
    PartsInOrder([], parts);
    assert [] + Concat(parts) == Concat(parts);
  }

  /** sp_tokenizer_encode in the GPT2 lane: the number of ids, of which out holds those that fit, or -1; None stands
      for the null dereference, which returns nothing. */
  method Encode(t: Tokenizer, c: Classes, spec: seq<Special>, s: Bytes, parseSpecial: bool, out: array<int>)
    returns (n: Option<int>)
    requires t.Ready() && Sane(c) && out != t.cpToByte
    modifies out
    ensures t.Ready()
    ensures var o := EncodeIds(t.tok, t.lines, c, spec, s, parseSpecial);
            && (n == None <==> o == Stopped(NullMap))
            && (n == Some(-1) <==> o == Stopped(NoToken))
            && (o.Ids? ==> n == Some(|o.ids|) && forall i :: 0 <= i < |o.ids| && i < out.Length ==> out[i] == o.ids[i])
            && (o.Ids? ==> Reads(o.ids, t.tok, t.lines, c, Segments(if parseSpecial then spec else [], s, 0, 0)))
  {
    hide *;
    var sink := new Sink(out);
    var segs := Presplit(spec, s, parseSpecial);
    EncodeIdsIs(t.tok, t.lines, c, spec, s, parseSpecial);
    NoSegments(t.tok, t.lines, c, segs);
    ghost var goal := EncodeIds(t.tok, t.lines, c, spec, s, parseSpecial);
    JoinAssociates(goal, Ids([]), Ids([]));
    assert sink.ids == [];
    for k := 0 to |segs|
      invariant t.Ready() && sink.Valid() && fresh(sink) && sink.out == out
      invariant goal == Join(Ids(sink.ids), SegmentIds(t.tok, t.lines, c, segs[k..]))
    {
      SegmentIdsNext(t.tok, t.lines, c, segs, k);
      OneSegmentIs(t.tok, t.lines, c, segs[k]);
      ghost var was, rest := sink.ids, SegmentIds(t.tok, t.lines, c, segs[k + 1..]);
      match segs[k]
      case Raw(text) =>
        var stop := EncodeText(t, c, text, sink);
        StopIs(TextIds(t.tok, t.lines, c, text));
        JoinAssociates(Ids(was), TextIds(t.tok, t.lines, c, text), rest);
        JoinIs(Ids(was), TextIds(t.tok, t.lines, c, text));
        if stop.Some? {
          JoinIs(TextIds(t.tok, t.lines, c, text), rest);
          return if stop.value == NoToken then Some(-1) else None;
        }
      case Hit(sp) =>
        sink.Emit(sp.id);
        JoinAssociates(Ids(was), Ids([sp.id]), rest);
        JoinIs(Ids(was), Ids([sp.id]));
    }
    JoinIs(Ids(sink.ids), Ids([]));
    SinkHolds(sink);
    SegmentsRead(t.tok, t.lines, c, segs);
    return Some(sink.cnt);
  }

  lemma EncodeIdsIs(tok: seq<Bytes>, lines: seq<Bytes>, c: Classes, spec: seq<Special>, s: Bytes, parseSpecial: bool)
    ensures EncodeIds(tok, lines, c, spec, s, parseSpecial)
         == SegmentIds(tok, lines, c, Segments(if parseSpecial then spec else [], s, 0, 0))
  {
  }

  /** The pre-tokens of the raw gaps, in order. */
  ghost function GapPretokens(c: Classes, segs: seq<Segment>): seq<Bytes> {
    if segs == [] then [] else
      (if segs[0].Raw? then Pretokens(c, segs[0].text) else []) + GapPretokens(c, segs[1..])
  }

  /** Pre-token k has two bytes or more, and all before it are single bytes whose symbols are tokens. */
  ghost predicate FirstLong(tok: seq<Bytes>, pieces: seq<Bytes>, k: nat) {
    && k < |pieces| && |pieces[k]| > 1
    && forall j :: 0 <= j < k ==> ShortKnown(tok, pieces[j])
  }

  ghost predicate ShortKnown(tok: seq<Bytes>, piece: Bytes) {
    |piece| <= 1 && forall i :: 0 <= i < |piece| ==> Enc(piece[i]) in tok
  }

  lemma {:induction false} SymbolsNeverNull(tok: seq<Bytes>, syms: seq<Bytes>)
    ensures IdsOf(tok, syms) != Stopped(NullMap)
    decreases |syms|
  {
    if syms != [] { SymbolsNeverNull(tok, syms[1..]); }
  }

  /** One pre-token reaches the missing map, or is a known single byte, or stops otherwise. */
  lemma PieceStops(tok: seq<Bytes>, lines: seq<Bytes>, rb: Bytes)
    ensures PieceIds(tok, lines, rb) == Stopped(NullMap) <==> lines == [] && |rb| > 1
    ensures |rb| <= 1 ==> (PieceIds(tok, lines, rb).Ids? <==> ShortKnown(tok, rb))
  {
    hide Enc;
    SymbolsNeverNull(tok, Spec.Greedy(ByLines(lines), ByteSymbols(rb)));
    if |rb| <= 1 {
      assert Spec.Greedy(ByLines(lines), ByteSymbols(rb)) == ByteSymbols(rb);
      if rb != [] { assert ByteSymbols(rb)[1..] == []; }
    }
  }

  lemma {:induction false} NullPieces(tok: seq<Bytes>, lines: seq<Bytes>, pieces: seq<Bytes>)
    ensures PiecesIds(tok, lines, pieces) == Stopped(NullMap)
            <==> lines == [] && exists k: nat :: FirstLong(tok, pieces, k)
    decreases |pieces|
  {
    hide PieceIds, ShortKnown;
    if pieces != [] {
      var p, rest := pieces[0], pieces[1..];
      PieceStops(tok, lines, p);
      NullPieces(tok, lines, rest);
      if k: nat :| FirstLong(tok, rest, k) && ShortKnown(tok, p) {
        assert FirstLong(tok, pieces, k + 1);
      }
      if k: nat :| FirstLong(tok, pieces, k) && k > 0 {
        assert ShortKnown(tok, p);
        assert forall j :: 0 <= j < k - 1 ==> rest[j] == pieces[j + 1];
        assert FirstLong(tok, rest, k - 1);
      }
      if |p| > 1 { assert FirstLong(tok, pieces, 0); }
    }
  }

  lemma {:induction false} PiecesAppend(tok: seq<Bytes>, lines: seq<Bytes>, a: seq<Bytes>, b: seq<Bytes>)
    ensures PiecesIds(tok, lines, a + b) == Join(PiecesIds(tok, lines, a), PiecesIds(tok, lines, b))
    decreases |a|
  {
    hide PieceIds, Join;
    if a == [] {
      assert a + b == b;
      JoinAssociates(PiecesIds(tok, lines, b), Ids([]), Ids([]));
    } else {
      assert (a + b)[1..] == a[1..] + b;
      PiecesAppend(tok, lines, a[1..], b);
      JoinAssociates(PieceIds(tok, lines, a[0]), PiecesIds(tok, lines, a[1..]), PiecesIds(tok, lines, b));
    }
  }

  /** Segments stop where the pre-tokens of their gaps stop. */
  lemma {:induction false} SegmentsStop(tok: seq<Bytes>, lines: seq<Bytes>, c: Classes, segs: seq<Segment>)
    ensures StopOf(SegmentIds(tok, lines, c, segs)) == StopOf(PiecesIds(tok, lines, GapPretokens(c, segs)))
    decreases |segs|
  {
    hide PiecesIds, Pretokens;
    if segs == [] {
      PiecesIdsNone(tok, lines);
    } else {
      SegmentsStop(tok, lines, c, segs[1..]);
      if segs[0].Raw? {
        PiecesAppend(tok, lines, Pretokens(c, segs[0].text), GapPretokens(c, segs[1..]));
      } else {
        assert [] + GapPretokens(c, segs[1..]) == GapPretokens(c, segs[1..]);
      }
    }
  }

  lemma PiecesIdsNone(tok: seq<Bytes>, lines: seq<Bytes>)
    ensures PiecesIds(tok, lines, []) == Ids([])
  {
  }

  /** Exactly when encoding dereferences the missing merge map: the model has no merge lines, some pre-token of a raw
      gap has at least two bytes, and no unknown single byte comes before it. */
  lemma NullMapIff(tok: seq<Bytes>, lines: seq<Bytes>, c: Classes, spec: seq<Special>, s: Bytes, parseSpecial: bool)
    ensures EncodeIds(tok, lines, c, spec, s, parseSpecial) == Stopped(NullMap) <==>
            lines == [] && exists k: nat :: FirstLong(tok, Gaps(c, spec, s, parseSpecial), k)
  {
    hide Pretokens, PiecesIds, SegmentIds, Segments, GapPretokens, FirstLong;
    var segs := Segments(if parseSpecial then spec else [], s, 0, 0);
    EncodeIdsIs(tok, lines, c, spec, s, parseSpecial);
    SegmentsStop(tok, lines, c, segs);
    NullPieces(tok, lines, GapPretokens(c, segs));
    assert GapPretokens(c, segs) == Gaps(c, spec, s, parseSpecial);
    var a, b := SegmentIds(tok, lines, c, segs), PiecesIds(tok, lines, GapPretokens(c, segs));
    assert StopOf(a) == StopOf(b);
    assert a == Stopped(NullMap) <==> b == Stopped(NullMap);
  }

  /** ids are the lowest ids of the symbols, one by one. */
  ghost predicate Named(tok: seq<Bytes>, syms: seq<Bytes>, ids: seq<int>) {
    && |ids| == |syms|
    && forall k :: 0 <= k < |ids| ==> 0 <= ids[k] < |tok| && tok[ids[k]] == syms[k] && syms[k] !in tok[..ids[k]]
  }

  lemma LowestId(tok: seq<Bytes>, w: Bytes)
    requires w in tok
    ensures 0 <= IdOf(tok, w) < |tok| && tok[IdOf(tok, w)] == w && w !in tok[..IdOf(tok, w)]
  {
  }

  /** Symbols that are all tokens give their ids; otherwise encoding stops for want of a token. */
  lemma {:induction false} SymbolsOutcome(tok: seq<Bytes>, syms: seq<Bytes>)
    ensures if forall w :: w in syms ==> w in tok then IdsOf(tok, syms).Ids? && Named(tok, syms, IdsOf(tok, syms).ids)
            else IdsOf(tok, syms) == Stopped(NoToken)
    decreases |syms|
  {
    if syms != [] {
      SymbolsOutcome(tok, syms[1..]);
      if syms[0] in tok { LowestId(tok, syms[0]); }
      hide IdOf;
      assert forall w :: w in syms <==> w == syms[0] || w in syms[1..];
      if IdsOf(tok, syms).Ids? {
        assert IdsOf(tok, syms).ids == [IdOf(tok, syms[0])] + IdsOf(tok, syms[1..]).ids;
      }
    }
  }

  /** The final symbols of a pre-token. */
  function PieceSyms(lines: seq<Bytes>, rb: Bytes): seq<Bytes> {
    Spec.Greedy(ByLines(lines), ByteSymbols(rb))
  }

  /** A pre-token that gets ids: it needs no missing merge map, and all its final symbols are tokens. */
  ghost predicate Encodable(tok: seq<Bytes>, lines: seq<Bytes>, rb: Bytes) {
    (lines != [] || |rb| <= 1) && forall w :: w in PieceSyms(lines, rb) ==> w in tok
  }

  /** A pre-token gets the ids of its final symbols, exactly when it can. */
  lemma PieceOutcome(tok: seq<Bytes>, lines: seq<Bytes>, rb: Bytes)
    ensures PieceIds(tok, lines, rb).Ids? <==> Encodable(tok, lines, rb)
    ensures PieceIds(tok, lines, rb).Ids? ==> Named(tok, PieceSyms(lines, rb), PieceIds(tok, lines, rb).ids)
  {
    SymbolsOutcome(tok, PieceSyms(lines, rb));
    hide Named, IdsOf, Spec.Greedy, ByLines, ByteSymbols;
  }

  lemma {:induction false} PiecesOutcome(tok: seq<Bytes>, lines: seq<Bytes>, pieces: seq<Bytes>)
    ensures PiecesIds(tok, lines, pieces).Ids? <==> forall rb :: rb in pieces ==> Encodable(tok, lines, rb)
    decreases |pieces|
  {
    hide PieceIds, Encodable;
    if pieces != [] {
      PieceOutcome(tok, lines, pieces[0]);
      PiecesOutcome(tok, lines, pieces[1..]);
      assert forall rb :: rb in pieces <==> rb == pieces[0] || rb in pieces[1..];
    }
  }

  /** A text gets ids exactly when every pre-token of its gaps does. */
  lemma EncodesIff(tok: seq<Bytes>, lines: seq<Bytes>, c: Classes, spec: seq<Special>, s: Bytes, parseSpecial: bool)
    ensures EncodeIds(tok, lines, c, spec, s, parseSpecial).Ids? <==>
            forall rb :: rb in Gaps(c, spec, s, parseSpecial) ==> Encodable(tok, lines, rb)
  {
    hide Pretokens, PiecesIds, SegmentIds, Segments, GapPretokens, Encodable;
    var segs := Segments(if parseSpecial then spec else [], s, 0, 0);
    EncodeIdsIs(tok, lines, c, spec, s, parseSpecial);
    SegmentsStop(tok, lines, c, segs);
    PiecesOutcome(tok, lines, GapPretokens(c, segs));
    assert GapPretokens(c, segs) == Gaps(c, spec, s, parseSpecial);
    var a, b := SegmentIds(tok, lines, c, segs), PiecesIds(tok, lines, GapPretokens(c, segs));
    assert StopOf(a) == StopOf(b);
  }

  ghost function Gaps(c: Classes, spec: seq<Special>, s: Bytes, parseSpecial: bool): seq<Bytes> {
    GapPretokens(c, Segments(if parseSpecial then spec else [], s, 0, 0))
  }

  /** With every byte symbol in the vocabulary: when there are no merge lines and some pre-token has two bytes. */
  lemma NullMapIffLong(tok: seq<Bytes>, lines: seq<Bytes>, c: Classes, spec: seq<Special>, s: Bytes, parseSpecial: bool)
    requires forall b: byte :: Enc(b) in tok
    ensures EncodeIds(tok, lines, c, spec, s, parseSpecial) == Stopped(NullMap) <==>
            lines == [] && exists p :: p in Gaps(c, spec, s, parseSpecial) && |p| > 1
  {
    hide EncodeIds, FirstLong, Gaps, Enc;
    NullMapIff(tok, lines, c, spec, s, parseSpecial);
    LongIsFirst(tok, Gaps(c, spec, s, parseSpecial));
  }

  /** When every byte symbol is a token, a long pre-token has a first one. */
  lemma {:induction false} LongIsFirst(tok: seq<Bytes>, pieces: seq<Bytes>)
    requires forall b: byte :: Enc(b) in tok
    ensures (exists k: nat :: FirstLong(tok, pieces, k)) <==> exists p :: p in pieces && |p| > 1
    decreases |pieces|
  {
    hide Enc;
    if pieces != [] {
      var rest := pieces[1..];
      LongIsFirst(tok, rest);
      if |pieces[0]| > 1 {
        assert FirstLong(tok, pieces, 0);
      } else {
        if k: nat :| FirstLong(tok, rest, k) { assert FirstLong(tok, pieces, k + 1); }
        assert forall p :: p in pieces && |p| > 1 ==> p in rest;
      }
    }
  }

  /** Text of a list of ids; ids outside the vocabulary are skipped. */
  function DecodeIds(tok: seq<Bytes>, ids: seq<int>): Bytes {
    if ids == [] then [] else (if 0 <= ids[0] < |tok| then Dec(tok[ids[0]]) else []) + DecodeIds(tok, ids[1..])
  }

  lemma DecodeIdsAppend(tok: seq<Bytes>, a: seq<int>, b: seq<int>)
    ensures DecodeIds(tok, a + b) == DecodeIds(tok, a) + DecodeIds(tok, b)
  {
    if a == [] {
      assert a + b == b;
    } else {
      assert (a + b)[1..] == a[1..] + b;
    }
  }

  lemma DecFromNext(w: Bytes, i: nat, was: Bytes)
    requires i < |w|
    ensures var d := Step(w, i);
            was + DecFrom(w, i) ==
            (was + (if ByteOf(d.cp) >= 0 then [ByteOf(d.cp)] else w[i..i + d.adv])) + DecFrom(w, i + d.adv)
  {
    hide Step, ByteOf;
  }

  lemma DecIs(w: Bytes)
    ensures DecFrom(w, 0) == Dec(w) && DecFrom(w, |w|) == []
  {
  }

  /** One token of the decode loop. */
  method DecodeToken(t: Tokenizer, w: Bytes, sink: TextSink)
    requires t.Ready() && sink.Valid()
    modifies sink, sink.buf
    ensures t.Ready() && sink.Valid() && sink.text == old(sink.text) + Dec(w)
  {
    hide *;
    var i := 0;
    DecIs(w);
    ghost var goal := sink.text + Dec(w);
    while i < |w|
      invariant i <= |w| && t.Ready() && sink.Valid()
      invariant sink.text + DecFrom(w, i) == goal
      decreases |w| - i
    {
      var d := Step(w, i);
      DecFromNext(w, i, sink.text);
      var b := t.ByteFor(d.cp);
      if b >= 0 {
        sink.Put(b);
      } else {
        sink.PutAll(w[i..i + d.adv]);
      }
      i := i + d.adv;
    }
  }

  /** sp_tokenizer_decode in the GPT2 lane. */
  method Decode(t: Tokenizer, ids: seq<int>, buf: array<byte>) returns (n: nat)
    requires t.Ready()
    modifies buf
    ensures n == |DecodeIds(t.tok, ids)|
    ensures n < buf.Length ==> buf[..n] == DecodeIds(t.tok, ids) && buf[n] == 0
    ensures 0 < buf.Length <= n ==>
              buf[..buf.Length - 1] == DecodeIds(t.tok, ids)[..buf.Length - 1] && buf[buf.Length - 1] == 0
  {
    hide Tokenizer.Ready, TextSink.Valid, Dec;
    var sink := new TextSink(buf);
    for k := 0 to |ids|
      invariant t.Ready() && sink.Valid() && fresh(sink) && sink.buf == buf
      invariant sink.text + DecodeIds(t.tok, ids[k..]) == DecodeIds(t.tok, ids)
    {
      assert ids[k..][1..] == ids[k + 1..];
      var id := ids[k];
      if 0 <= id < |t.tok| {
        DecodeToken(t, t.tok[id], sink);
      }
    }
    n := sink.Finish();
  }

  /** A symbol that is the code of some bytes. */
  function IsCode(): Bytes -> bool {
    w => w == EncAll(Dec(w))
  }

  lemma CodesJoin(a: Bytes, b: Bytes)
    requires IsCode()(a) && IsCode()(b)
    ensures IsCode()(a + b) && Dec(a + b) == Dec(a) + Dec(b)
  {
    EncAllAppend(Dec(a), Dec(b));
    DecEnc(Dec(a) + Dec(b));
  }

  lemma ByteIsCode(b: byte)
    ensures IsCode()(Enc(b)) && Dec(Enc(b)) == [b]
  {
    hide Enc, Dec;
    var one: Bytes := [b];
    assert one[1..] == [] && EncAll(one[1..]) == [];
    assert EncAll(one) == Enc(b) + EncAll(one[1..]) == Enc(b);
    DecEnc(one);
  }

  lemma SymbolsText(rb: Bytes)
    ensures Flatten(ByteSymbols(rb)) == EncAll(rb)
  {
    if rb != [] {
      SymbolsText(rb[1..]);
      assert ByteSymbols(rb)[1..] == ByteSymbols(rb[1..]);
    }
  }

  /** Ids of symbols that are codes decode to the bytes their joined text codes. */
  lemma {:induction false} CodesDecode(tok: seq<Bytes>, syms: seq<Bytes>)
    requires (forall i :: 0 <= i < |syms| ==> IsCode()(syms[i])) && IdsOf(tok, syms).Ids?
    ensures EncAll(DecodeIds(tok, IdsOf(tok, syms).ids)) == Flatten(syms)
  {
    hide Dec, EncAll, IdOf;
    if syms == [] {
      EncNothing();
    } else {
      CodesDecode(tok, syms[1..]);
      var id, rest := IdOf(tok, syms[0]), IdsOf(tok, syms[1..]).ids;
      var ids := IdsOf(tok, syms).ids;
      assert ids == [id] + rest && ids[1..] == rest;
      EncAllAppend(Dec(syms[0]), DecodeIds(tok, rest));
    }
  }

  lemma EncNothing()
    ensures EncAll([]) == []
  {
  }

  /** Encoding then decoding one pre-token gives its bytes back. */
  lemma PieceRoundTrip(tok: seq<Bytes>, lines: seq<Bytes>, rb: Bytes)
    requires PieceIds(tok, lines, rb).Ids?
    ensures DecodeIds(tok, PieceIds(tok, lines, rb).ids) == rb
  {
    hide Dec, EncAll, Enc;
    var rank, start := ByLines(lines), ByteSymbols(rb);
    var syms := Spec.Greedy(rank, start);
    forall i | 0 <= i < |start| ensures IsCode()(start[i]) {
      ByteIsCode(rb[i]);
    }
    forall a: Bytes, b: Bytes | IsCode()(a) && IsCode()(b) && rank(a, b).Some? ensures IsCode()(a + b) {
      CodesJoin(a, b);
    }
    Spec.GreedyKeeps(rank, start, IsCode());
    Spec.GreedyKeepsText(rank, start);
    SymbolsText(rb);
    CodesDecode(tok, syms);
    var got := DecodeIds(tok, PieceIds(tok, lines, rb).ids);
    assert EncAll(got) == EncAll(rb);
    DecEnc(got);
    DecEnc(rb);
  }

  lemma {:induction false} PiecesRoundTrip(tok: seq<Bytes>, lines: seq<Bytes>, pieces: seq<Bytes>)
    requires PiecesIds(tok, lines, pieces).Ids?
    ensures DecodeIds(tok, PiecesIds(tok, lines, pieces).ids) == Flatten(pieces)
  {
    hide PieceIds;
    if pieces != [] {
      PieceRoundTrip(tok, lines, pieces[0]);
      PiecesRoundTrip(tok, lines, pieces[1..]);
      DecodeIdsAppend(tok, PieceIds(tok, lines, pieces[0]).ids, PiecesIds(tok, lines, pieces[1..]).ids);
    }
  }

  /** Decode inverts encode on every byte string, with no assumption on the vocabulary or merges: if encoding
      without special-token parsing succeeds, decoding its ids returns exactly the input. */
  lemma RoundTrip(tok: seq<Bytes>, lines: seq<Bytes>, c: Classes, spec: seq<Special>, s: Bytes)
    requires Sane(c) && EncodeIds(tok, lines, c, spec, s, false).Ids?
    ensures DecodeIds(tok, EncodeIds(tok, lines, c, spec, s, false).ids) == s
  {
    NoSpecials(s, 0);
    var segs := Segments([], s, 0, 0);
    hide TextIds, Segments;
    if s != [] {
      TextRoundTrip(tok, lines, c, s);
      var ids := TextIds(tok, lines, c, s);
      assert segs[1..] == [];
      assert SegmentIds(tok, lines, c, segs[1..]) == Ids([]);
      JoinAssociates(ids, Ids([]), Ids([]));
    }
  }

  lemma TextRoundTrip(tok: seq<Bytes>, lines: seq<Bytes>, c: Classes, s: Bytes)
    requires Sane(c) && TextIds(tok, lines, c, s).Ids?
    ensures DecodeIds(tok, TextIds(tok, lines, c, s).ids) == s
  {
    hide Pretokens, PiecesIds;
    PretokensTile(c, s);
    PiecesRoundTrip(tok, lines, Pretokens(c, s));
  }
}
