/** encode_text, the GPT2 encoder and decoder, and the round trip on every byte string. */
module Gpt2Text {
  import opened Basics
  import opened ByteLevel
  import opened Regex
  import opened PieceKinds
  import opened Pretokenizer
  import opened Sinks
  import opened Gpt2Piece

  /** Byte offsets of the code points of s from offset i on, with the end of s as sentinel. */
  function Offsets(s: Bytes, i: nat): (o: seq<nat>)
    requires i <= |s|
    ensures |o| > 0
    decreases |s| - i
  {
    if i == |s| then [i] else [i] + Offsets(s, i + Step(s, i).adv)
  }

  lemma {:induction false} OffsetsOrdered(s: Bytes, i: nat)
    requires i <= |s|
    ensures var o := Offsets(s, i);
            && o[0] == i && o[|o| - 1] == |s|
            && (forall k :: 0 <= k < |o| ==> i <= o[k] <= |s|)
            && (forall j, k :: 0 <= j < k < |o| ==> o[j] < o[k])
    decreases |s| - i
  {
    if i < |s| {
      OffsetsOrdered(s, i + Step(s, i).adv);
      hide Step;
      var o, p := Offsets(s, i), Offsets(s, i + Step(s, i).adv);
      assert o[1..] == p;
      assert forall k :: 0 < k < |o| ==> o[k] == p[k - 1];
    }
  }

  /** Code point values at the given offsets (all but the sentinel). */
  function CodePoints(s: Bytes, i: nat): (c: seq<int>)
    requires i <= |s|
    ensures |c| + 1 == |Offsets(s, i)|
    decreases |s| - i
  {
    if i == |s| then [] else [Step(s, i).cp] + CodePoints(s, i + Step(s, i).adv)
  }

  /** Successive regex matches from code point i on, as half-open ranges. */
  ghost function Matches(c: Classes, cp: seq<int>, i: nat): (r: seq<(nat, nat)>)
    requires i <= |cp|
    ensures forall k :: 0 <= k < |r| ==> r[k].0 <= r[k].1 <= |cp|
    decreases |cp| - i
  {
    if i == |cp| then [] else
      var f := First(Qwen2(c), cp, i);
      if f.Some? && i < f.value <= |cp| then [(i, f.value)] + Matches(c, cp, f.value) else []
  }

  /** The expression matches somewhere past every position, so its matches tile the text. */
  lemma AlwaysMatches(c: Classes, cp: seq<int>, i: nat)
    requires i < |cp| && Sane(c)
    ensures First(Qwen2(c), cp, i).Some? && i < First(Qwen2(c), cp, i).value <= |cp|
  {
    Qwen2First(c, cp, i);
    ContractionFirst(cp, i);
    WordFirst(c, cp, i);
    assert First(Cls(c.N), cp, i) == if c.N(cp[i]) then Some(i + 1) else None;
    PunctFirst(c, cp, i);
    hide Ends, First, Qwen2, Contraction, Word, Punct, Lines, Trailing, Plus;
    if !c.L(cp[i]) && !c.N(cp[i]) && c.S(cp[i]) {
      SpaceMatches(c, cp, i);
    }
  }

  lemma SpaceMatches(c: Classes, cp: seq<int>, i: nat)
    requires i < |cp| && Sane(c) && c.S(cp[i])
    ensures var f := OrElse(First(Lines(c), cp, i), OrElse(First(Trailing(c), cp, i), First(Plus(Cls(c.S)), cp, i)));
            f.Some? && i < f.value <= |cp|
  {
    TrailingFirst(c, cp, i);
    SpacesFirst(c, cp, i);
    if exists m :: LastNewline(c, cp, i, m) {
      var m :| LastNewline(c, cp, i, m);
      LinesFirst(c, cp, i, m);
    } else {
      NoLastNewline(c, cp, i, i);
      LinesNone(c, cp, i);
    }
  }

  lemma {:induction false} NoLastNewline(c: Classes, cp: seq<int>, i: nat, k: nat)
    requires i < |cp| && i <= k <= RunEnd(c.S, cp, i) && !(exists m :: LastNewline(c, cp, i, m))
    ensures forall j :: k <= j < RunEnd(c.S, cp, i) ==> !Newline()(cp[j])
    decreases RunEnd(c.S, cp, i) - k
  {
    if k < RunEnd(c.S, cp, i) {
      NoLastNewline(c, cp, i, k + 1);
      assert !LastNewline(c, cp, i, k);
    }
  }

  /** The byte spans of the matches. */
  ghost function Spans(s: Bytes, o: seq<nat>, r: seq<(nat, nat)>): (p: seq<Bytes>)
    requires (forall k :: 0 <= k < |o| ==> o[k] <= |s|) && (forall j, k :: 0 <= j < k < |o| ==> o[j] < o[k])
    requires forall k :: 0 <= k < |r| ==> r[k].0 <= r[k].1 < |o|
    ensures |p| == |r|
  {
    if r == [] then [] else [s[o[r[0].0]..o[r[0].1]]] + Spans(s, o, r[1..])
  }

  /** The pre-tokens of a text: the regex matches over its code points, as bytes. */
  ghost function Pretokens(c: Classes, s: Bytes): seq<Bytes> {
    OffsetsOrdered(s, 0);
    Spans(s, Offsets(s, 0), Matches(c, CodePoints(s, 0), 0))
  }

  /** Pre-tokens tile the text, from any boundary on. */
  lemma {:induction false} SpansTile(c: Classes, s: Bytes, o: seq<nat>, cp: seq<int>, i: nat)
    requires Sane(c) && |o| == |cp| + 1 && i <= |cp| && o[|cp|] == |s|
    requires (forall k :: 0 <= k < |o| ==> o[k] <= |s|) && (forall j, k :: 0 <= j < k < |o| ==> o[j] < o[k])
    ensures Flatten(Spans(s, o, Matches(c, cp, i))) == s[o[i]..]
    decreases |cp| - i
  {
    var m := Matches(c, cp, i);
    if i < |cp| {
      AlwaysMatches(c, cp, i);
      var e := First(Qwen2(c), cp, i).value;
      assert m[0] == (i, e) && m[1..] == Matches(c, cp, e);
      SpansTile(c, s, o, cp, e);
      hide Ends, First, Qwen2, Matches;
      assert Spans(s, o, m) == [s[o[i]..o[e]]] + Spans(s, o, m[1..]);
      assert o[i] < o[e];
      assert s[o[i]..] == s[o[i]..o[e]] + s[o[e]..];
    }
  }

  /** The pre-tokens of a text partition it, whatever its bytes. */
  lemma PretokensTile(c: Classes, s: Bytes)
    requires Sane(c)
    ensures Flatten(Pretokens(c, s)) == s
  {
    OffsetsOrdered(s, 0);
    SpansTile(c, s, Offsets(s, 0), CodePoints(s, 0), 0);
    assert s[0..] == s;
  }

  /** Ids of a list of pre-tokens, up to the first stop. */
  function PiecesIds(tok: seq<Bytes>, lines: seq<Bytes>, pieces: seq<Bytes>): Outcome {
    if pieces == [] then Ids([]) else
      Join(PieceIds(tok, lines, pieces[0]), PiecesIds(tok, lines, pieces[1..]))
  }

  /** The ids of a raw text. */
  ghost function TextIds(tok: seq<Bytes>, lines: seq<Bytes>, c: Classes, s: Bytes): Outcome {
    PiecesIds(tok, lines, Pretokens(c, s))
  }

  lemma NextCodePoint(s: Bytes, i: nat, cs: seq<int>, os: seq<nat>)
    requires i < |s|
    ensures var d := Step(s, i);
            && cs + CodePoints(s, i) == (cs + [d.cp]) + CodePoints(s, i + d.adv)
            && os + Offsets(s, i) == (os + [i]) + Offsets(s, i + d.adv)
  {
    hide Step;
  }

  lemma LastOffset(s: Bytes)
    ensures CodePoints(s, |s|) == [] && Offsets(s, |s|) == [|s|]
  {
  }

  /** The first loop of encode_text: code points and their byte offsets. */
  method DecodeText(s: Bytes) returns (cps: array<int>, boff: array<nat>, ncp: nat)
    ensures fresh(cps) && fresh(boff) && ncp <= cps.Length && ncp < boff.Length && ncp <= |s|
    ensures cps[..ncp] == CodePoints(s, 0) && boff[..ncp + 1] == Offsets(s, 0)
  {
    hide *;
    cps := new int[|s|];
    boff := new nat[|s| + 1];
    ncp := 0;
    var i := 0;
    assert cps[..0] == [] && boff[..0] == [];
    LastOffset(s);
    while i < |s|
      invariant ncp <= i <= |s|
      invariant cps[..ncp] + CodePoints(s, i) == CodePoints(s, 0)
      invariant boff[..ncp] + Offsets(s, i) == Offsets(s, 0)
      decreases |s| - i
    {
      var d := Step(s, i);
      ghost var cs, bs := cps[..ncp], boff[..ncp];
      NextCodePoint(s, i, cs, bs);
      cps[ncp], boff[ncp] := d.cp, i;
      assert cps[..ncp + 1] == cs + [d.cp] && boff[..ncp + 1] == bs + [i];
      ncp := ncp + 1;
      i := i + d.adv;
    }
    ghost var bs := boff[..ncp];
    boff[ncp] := |s|;
    assert boff[..ncp + 1] == bs + [|s|];
  }

  /** Offsets o delimit the code points cp of s. */
  ghost predicate Delimits(s: Bytes, o: seq<nat>, cp: seq<int>) {
    && |o| == |cp| + 1
    && (forall k :: 0 <= k < |o| ==> o[k] <= |s|)
    && (forall j, k :: 0 <= j < k < |o| ==> o[j] < o[k])
  }

  /** Ids of the pre-tokens from code point i on. */
  ghost function PiecesFrom(tok: seq<Bytes>, lines: seq<Bytes>, c: Classes, s: Bytes, o: seq<nat>, cp: seq<int>, i: nat)
    : Outcome
    requires Delimits(s, o, cp) && i <= |cp|
  {
    PiecesIds(tok, lines, Spans(s, o, Matches(c, cp, i)))
  }

  lemma TextIdsIs(tok: seq<Bytes>, lines: seq<Bytes>, c: Classes, s: Bytes)
    ensures Delimits(s, Offsets(s, 0), CodePoints(s, 0))
    ensures TextIds(tok, lines, c, s) == PiecesFrom(tok, lines, c, s, Offsets(s, 0), CodePoints(s, 0), 0)
  {
    OffsetsOrdered(s, 0);
  }

  lemma PiecesFromNext(tok: seq<Bytes>, lines: seq<Bytes>, c: Classes, s: Bytes, o: seq<nat>, cp: seq<int>,
                       i: nat, e: nat)
    requires Delimits(s, o, cp) && i < |cp| && First(Qwen2(c), cp, i) == Some(e) && i < e <= |cp|
    ensures o[i] <= o[e] <= |s| && e < |o|
    ensures PiecesFrom(tok, lines, c, s, o, cp, i) ==
            Join(PieceIds(tok, lines, s[o[i]..o[e]]), PiecesFrom(tok, lines, c, s, o, cp, e))
  {
    hide Ends, First, Qwen2, PieceIds;
    var m := Matches(c, cp, i);
    assert m[0] == (i, e) && m[1..] == Matches(c, cp, e);
    var p := Spans(s, o, m);
    assert p[0] == s[o[i]..o[e]] && p[1..] == Spans(s, o, m[1..]);
  }

  lemma PiecesFromEnd(tok: seq<Bytes>, lines: seq<Bytes>, c: Classes, s: Bytes, o: seq<nat>, cp: seq<int>)
    requires Delimits(s, o, cp)
    ensures PiecesFrom(tok, lines, c, s, o, cp, |cp|) == Ids([])
  {
  }

  lemma StopIs(o: Outcome)
    ensures StopOf(o) == if o.Ids? then None else Some(o.why)
  {
  }

  /** encode_text: the ids of a raw text are appended to the output, or encoding stopped. */
  method EncodeText(t: Tokenizer, c: Classes, s: Bytes, sink: Sink) returns (stop: Option<Stop>)
    requires t.Ready() && Sane(c) && sink.Valid() && sink.out != t.cpToByte
    modifies sink, sink.out
    ensures t.Ready() && sink.Valid()
    ensures stop == StopOf(TextIds(t.tok, t.lines, c, s))
    ensures stop == None ==> sink.ids == old(sink.ids) + TextIds(t.tok, t.lines, c, s).ids
  {
    hide *;
    var cps, boff, ncp := DecodeText(s);
    var enc := new byte[2 * |s| + 8];
    var soff := new nat[|s| + 1];
    var slen := new nat[|s| + 1];
    ghost var o, cp := boff[..ncp + 1], cps[..ncp];
    TextIdsIs(t.tok, t.lines, c, s);
    ghost var goal := TextIds(t.tok, t.lines, c, s);
    ghost var done: seq<int> := [];
    JoinAssociates(goal, Ids([]), Ids([]));
    var i := 0;
    while i < ncp
      invariant i <= ncp && t.Ready() && sink.Valid() && sink.ids == old(sink.ids) + done
      invariant cps[..ncp] == cp && boff[..ncp + 1] == o
      invariant goal == Join(Ids(done), PiecesFrom(t.tok, t.lines, c, s, o, cp, i))
      decreases ncp - i
    {
      assert cps[..ncp] == cp;
      var e := NextPiece(c, cps[..ncp], i);
      assert boff[i] == o[i] && boff[e] == o[e];
      PiecesFromNext(t.tok, t.lines, c, s, o, cp, i, e);
      var piece := s[boff[i]..boff[e]];
      stop := Piece(t, piece, enc, soff, slen, sink);
      StopIs(PieceIds(t.tok, t.lines, piece));
      JoinAssociates(Ids(done), PieceIds(t.tok, t.lines, piece), PiecesFrom(t.tok, t.lines, c, s, o, cp, e));
      JoinIs(Ids(done), PieceIds(t.tok, t.lines, piece));
      if stop.Some? {
        JoinIs(PieceIds(t.tok, t.lines, piece), PiecesFrom(t.tok, t.lines, c, s, o, cp, e));
        StopIs(goal);
        return;
      }
      done := done + PieceIds(t.tok, t.lines, piece).ids;
      i := e;
    }
    PiecesFromEnd(t.tok, t.lines, c, s, o, cp);
    JoinIs(Ids(done), Ids([]));
    StopIs(goal);
    return None;
  }
}
