/** When decoding inverts encoding in the gemma4 lane: exactly, text by text, in terms of the symbols the encoder
    ends with; then as conditions on the vocabulary a caller can check. */
module Gemma4RoundTrip {
  import opened Basics
  import opened Vocab
  import opened Escaping
  import opened SymbolList
  import opened TokenIds
  import opened Gemma4Build
  import opened Gemma4Piece
  import opened Gemma4Text
  import opened Gemma4Decode
  import opened Utf8
  import opened Specials
  import Spec = GreedyBpe

  ghost predicate AllLf(w: Bytes) {
    w != [] && forall i :: 0 <= i < |w| ==> w[i] == LF
  }

  /** A final symbol decodes as it reads: a token that is neither a special id nor of the form <0xNN>, or a
      character none of whose byte tokens is a special id. */
  predicate Decodable(tok: seq<Bytes>, marks: Marks, w: Bytes) {
    if w in tok then !Skips(marks, IdOf(tok, w)) && ByteToken(w) == None
    else NoneSkipped(tok, marks, w)
  }

  /** No byte's token is a special id. */
  predicate NoneSkipped(tok: seq<Bytes>, marks: Marks, w: Bytes) {
    forall i :: 0 <= i < |w| ==> !Skips(marks, IdOf(tok, ByteName(w[i])))
  }

  lemma NoneSkippedTail(tok: seq<Bytes>, marks: Marks, w: Bytes)
    requires w != []
    ensures NoneSkipped(tok, marks, w) <==>
            !Skips(marks, IdOf(tok, ByteName(w[0]))) && NoneSkipped(tok, marks, w[1..])
  {
    hide ByteName, IdOf, Skips;
    assert forall i :: 0 < i < |w| ==> w[i] == w[1..][i - 1];
  }

  /** The text decoding should give for escaped text w: U+2581 becomes a space when it is a token, and stays
      itself, through byte fallback, when it is not. */
  function Target(tok: seq<Bytes>, w: Bytes): Bytes {
    if METASPACE in tok then Unescape(w) else w
  }

  /** What every final symbol satisfies, whatever the special ids. */
  ghost predicate Clean(tok: seq<Bytes>, w: Bytes) {
    && w != [] && Valid(w)
    && (w in tok || ValidChar(w))
    && (METASPACE !in tok && w in tok ==> Unescape(w) == w)
  }

  lemma ByteNameToken(b: byte)
    ensures ByteToken(ByteName(b)) == Some(b)
  {
    assert Hex(HexDigit(b / 16)) == b / 16 && Hex(HexDigit(b % 16)) == b % 16;
  }

  lemma OneId(tok: seq<Bytes>, marks: Marks, id: int)
    ensures DecodeIds(tok, marks, [id]) == IdText(tok, marks, id)
  {
    var one := [id];
    assert one[1..] == [] && DecodeIds(tok, marks, one) == IdText(tok, marks, one[0]) + DecodeIds(tok, marks, one[1..]);
  }

  lemma UnescapeEmpty()
    ensures Unescape([]) == []
  {
  }

  lemma SingleValid(c: Bytes)
    requires ValidChar(c)
    ensures c != [] && Valid(c)
  {
    ConsValid(c, []);
    assert c + [] == c;
  }

  lemma UnescapeSingle(c: Bytes)
    requires ValidChar(c)
    ensures Unescape(c) == if c == METASPACE then [SP] else c
  {
    UnescapeChar(c, []);
    UnescapeEmpty();
    assert c + [] == c && Unescape(c) + [] == Unescape(c) && [SP] + [] == [SP];
  }

  lemma CharIsClean(tok: seq<Bytes>, c: Bytes)
    requires ValidChar(c)
    ensures Clean(tok, c)
  {
    SingleValid(c);
    UnescapeSingle(c);
    hide Valid, ValidChar, Unescape;
  }

  /** A newline run is left alone by unescaping. */
  lemma NewlinesAreClean(tok: seq<Bytes>, w: Bytes)
    requires AllLf(w) && Valid(w) && w in tok
    ensures Clean(tok, w)
  {
    UnescapeNoLead(w, []);
    UnescapeEmpty();
    assert w + [] == w;
    hide Valid, Unescape;
  }

  ghost function IsClean(tok: seq<Bytes>): Bytes -> bool {
    w => Clean(tok, w)
  }

  /** Every merge the encoder can make keeps symbols clean; U+2581 outside the vocabulary never merges, because a
      ranked pair has both sides in the vocabulary. */
  lemma MergesStayClean(tok: seq<Bytes>, merges: seq<Bytes>)
    requires Accepts(tok, merges)
    ensures Spec.Closed(ByMerges(merges), IsClean(tok))
  {
    hide ByteName, ValidChar, Valid, Unescape;
    forall a: Bytes, b: Bytes | Clean(tok, a) && Clean(tok, b) && ByMerges(merges)(a, b).Some?
      ensures Clean(tok, a + b)
    {
      AppendValid(a, b);
      UnescapeAppend(a, b);
      assert Split(merges[MergeRank(merges, a, b)]) == Some((a, b));
      assert LineOk(tok, merges[MergeRank(merges, a, b)]);
    }
  }

  lemma FlattenOne(s: Bytes)
    ensures Flatten([s]) == s
  {
    var one: seq<Bytes> := [s];
    assert one[1..] == [] && Flatten(one) == one[0] + Flatten(one[1..]);
  }

  /** The final symbols of a piece are clean and concatenate to it. */
  lemma PieceSymsClean(tok: seq<Bytes>, merges: seq<Bytes>, s: Bytes, isNl: bool)
    requires Accepts(tok, merges) && Valid(s) && (isNl ==> AllLf(s))
    ensures forall i :: 0 <= i < |PieceSyms(tok, merges, s, isNl)| ==> Clean(tok, PieceSyms(tok, merges, s, isNl)[i])
    ensures Flatten(PieceSyms(tok, merges, s, isNl)) == s
  {
    if isNl && s in tok {
      NewlinesAreClean(tok, s);
      FlattenOne(s);
    } else {
      CharsValid(s);
      CharsText(LeadLen, s);
      hide Accepts, Valid, ValidChar, Spec.Greedy, Chars, Clean;
      var start := Chars(LeadLen, s);
      forall i | 0 <= i < |start| ensures IsClean(tok)(start[i]) {
        CharIsClean(tok, start[i]);
      }
      MergesStayClean(tok, merges);
      Spec.GreedyKeeps(ByMerges(merges), start, IsClean(tok));
      Spec.GreedyKeepsText(ByMerges(merges), start);
    }
  }

  /** The first line run of a well-formed text, and what follows it, are well-formed. */
  lemma RunValid(s: Bytes)
    requires Valid(s) && s != []
    ensures var e := LineRun(s, 0, s[0] == LF, 1);
            && Valid(s[..e]) && Valid(s[e..]) && (s[0] == LF ==> AllLf(s[..e]))
            && s[..e] != [] && s[..e][0] == s[0]
  {
    hide Valid;
    var e := LineRun(s, 0, s[0] == LF, 1);
    SplitValid(s, e);
  }

  ghost predicate AllClean(tok: seq<Bytes>, syms: seq<Bytes>) {
    forall i :: 0 <= i < |syms| ==> Clean(tok, syms[i])
  }

  lemma {:induction false} RunSymsClean(tok: seq<Bytes>, merges: seq<Bytes>, s: Bytes)
    requires Accepts(tok, merges) && Valid(s)
    ensures AllClean(tok, RunSyms(tok, merges, Runs(s)))
    ensures Flatten(RunSyms(tok, merges, Runs(s))) == Flatten(Runs(s))
    decreases |s|
  {
    hide Accepts, Valid, PieceSyms, LineRun, AllLf, Clean;
    if s != [] {
      var e := LineRun(s, 0, s[0] == LF, 1);
      RunValid(s);
      RunSymsClean(tok, merges, s[e..]);
      PieceSymsClean(tok, merges, s[..e], s[0] == LF);
      var runs := Runs(s);
      assert runs[0] == s[..e] && runs[1..] == Runs(s[e..]);
      FlattenAppend(PieceSyms(tok, merges, s[..e], s[0] == LF), RunSyms(tok, merges, Runs(s[e..])));
    }
  }

  /** The final symbols of a text are clean and concatenate to the escaped text. */
  lemma TextSymsClean(tok: seq<Bytes>, merges: seq<Bytes>, s: Bytes)
    requires Accepts(tok, merges) && Valid(s)
    ensures AllClean(tok, TextSyms(tok, merges, s)) && Flatten(TextSyms(tok, merges, s)) == Escape(s)
  {
    EscapeThenUnescape(s);
    hide Accepts, Valid, Runs, RunSyms, Escape, AllClean;
    RunSymsClean(tok, merges, Escape(s));
    RunsTile(Escape(s));
  }

  /** Byte fallback: at most the bytes themselves, and all of them exactly when none of their tokens is skipped. */
  lemma {:induction false} FallbackText(tok: seq<Bytes>, marks: Marks, w: Bytes)
    requires forall b: byte :: ByteName(b) in tok
    ensures var t := DecodeIds(tok, marks, FallbackIds(tok, w));
            && |t| <= |w| && (SP !in w ==> SP !in t)
            && (NoneSkipped(tok, marks, w) ==> t == w)
            && (!NoneSkipped(tok, marks, w) ==> |t| < |w|)
    decreases |w|
  {
    hide ByteName, IdOf, Skips, IdText, NoneSkipped;
    if w == [] {
      NothingSkipped(tok, marks);
    } else {
      FallbackText(tok, marks, w[1..]);
      NoneSkippedTail(tok, marks, w);
      ByteIdText(tok, marks, w[0]);
      FirstFallback(tok, marks, w);
      assert w == [w[0]] + w[1..];
    }
  }

  lemma NothingSkipped(tok: seq<Bytes>, marks: Marks)
    ensures NoneSkipped(tok, marks, []) && DecodeIds(tok, marks, FallbackIds(tok, [])) == []
  {
  }

  lemma FirstFallback(tok: seq<Bytes>, marks: Marks, w: Bytes)
    requires w != []
    ensures DecodeIds(tok, marks, FallbackIds(tok, w))
         == IdText(tok, marks, IdOf(tok, ByteName(w[0]))) + DecodeIds(tok, marks, FallbackIds(tok, w[1..]))
  {
    hide ByteName, IdOf, IdText;
    var ids := FallbackIds(tok, w);
    assert ids[1..] == FallbackIds(tok, w[1..]);
  }

  lemma ByteIdText(tok: seq<Bytes>, marks: Marks, b: byte)
    requires ByteName(b) in tok
    ensures IdText(tok, marks, IdOf(tok, ByteName(b))) == if Skips(marks, IdOf(tok, ByteName(b))) then [] else [b]
  {
    ByteNameToken(b);
    hide ByteName, ByteToken;
  }

  lemma {:induction false} UnescapeNonempty(w: Bytes)
    requires w != []
    ensures Unescape(w) != []
  {
  }

  /** A token of the form <0xNN> reads as six bytes. */
  lemma ByteTokenText(w: Bytes)
    requires ByteToken(w).Some?
    ensures Unescape(w) == w && |w| == 6
  {
    hide Unescape;
    UnescapeNoLead(w, []);
    UnescapeEmpty();
    assert w + [] == w;
  }

  /** One final symbol decodes to its target when it is decodable, and to something shorter when it is not. */
  lemma SymbolText(tok: seq<Bytes>, marks: Marks, w: Bytes)
    requires (forall b: byte :: ByteName(b) in tok) && Clean(tok, w)
    ensures var t := DecodeIds(tok, marks, SymbolIds(tok, w));
            && (Decodable(tok, marks, w) ==> t == Target(tok, w))
            && (!Decodable(tok, marks, w) ==> |t| < |Target(tok, w)|)
  {
    hide Skips, ByteName, FallbackIds, DecodeIds, Unescape, ByteToken, Valid, ValidChar;
    if w in tok {
      OneId(tok, marks, IdOf(tok, w));
      UnescapeNonempty(w);
      if ByteToken(w).Some? { ByteTokenText(w); }
    } else {
      FallbackText(tok, marks, w);
      UnescapeSingle(w);
    }
  }

  lemma TargetAppend(tok: seq<Bytes>, a: Bytes, b: Bytes)
    requires Valid(a)
    ensures Target(tok, a + b) == Target(tok, a) + Target(tok, b)
  {
    UnescapeAppend(a, b);
    hide Unescape;
  }

  ghost predicate AllDecodable(tok: seq<Bytes>, marks: Marks, syms: seq<Bytes>) {
    forall i :: 0 <= i < |syms| ==> Decodable(tok, marks, syms[i])
  }

  lemma AllTail(tok: seq<Bytes>, marks: Marks, syms: seq<Bytes>)
    requires syms != [] && AllClean(tok, syms)
    ensures Clean(tok, syms[0]) && AllClean(tok, syms[1..]) && Valid(syms[0])
    ensures AllDecodable(tok, marks, syms) <==> Decodable(tok, marks, syms[0]) && AllDecodable(tok, marks, syms[1..])
  {
    hide Decodable, Valid, ValidChar, Unescape;
    var rest := syms[1..];
    assert forall i :: 0 < i < |syms| ==> syms[i] == rest[i - 1];
  }

  /** The same for a list of final symbols: one that is not decodable shortens the text for good. */
  lemma {:induction false} SymbolsText(tok: seq<Bytes>, marks: Marks, syms: seq<Bytes>)
    requires (forall b: byte :: ByteName(b) in tok) && AllClean(tok, syms)
    ensures var t := DecodeIds(tok, marks, AllIds(tok, syms));
            && (AllDecodable(tok, marks, syms) ==> t == Target(tok, Flatten(syms)))
            && (!AllDecodable(tok, marks, syms) ==> |t| < |Target(tok, Flatten(syms))|)
    decreases |syms|
  {
    hide DecodeIds, SymbolIds, Decodable, Clean, AllClean, AllDecodable, Target, ByteName;
    if syms == [] {
      NothingText(tok, marks);
    } else {
      AllTail(tok, marks, syms);
      SymbolsText(tok, marks, syms[1..]);
      SymbolText(tok, marks, syms[0]);
      DecodeIdsAppend(tok, marks, SymbolIds(tok, syms[0]), AllIds(tok, syms[1..]));
      TargetAppend(tok, syms[0], Flatten(syms[1..]));
    }
  }

  lemma NothingText(tok: seq<Bytes>, marks: Marks)
    ensures DecodeIds(tok, marks, []) == Target(tok, []) == [] && AllDecodable(tok, marks, [])
  {
  }

  /** Without special parsing a text is one fragment, and its BOS decodes to nothing. */
  lemma PlainText(tok: seq<Bytes>, merges: seq<Bytes>, marks: Marks, spec: seq<Special>, s: Bytes)
    requires s != []
    ensures DecodeIds(tok, marks, EncodeIds(tok, merges, marks, spec, s, false))
         == DecodeIds(tok, marks, FragmentIds(tok, merges, s))
  {
    hide FragmentIds, Segments, TokenText;
    NoSpecials(s, 0);
    var ids := FragmentIds(tok, merges, s);
    var segs: seq<Segment> := [Raw(s)];
    assert segs[1..] == [];
    assert SegmentIds(tok, merges, segs) == OneSegmentIds(tok, merges, segs[0]) + SegmentIds(tok, merges, segs[1..]);
    assert SegmentIds(tok, merges, segs) == ids;
    DecodeIdsAppend(tok, marks, [marks.bos], ids);
    OneId(tok, marks, marks.bos);
  }

  /** The text decode(encode(s)) in terms of the final symbols: exactly the target when all of them are decodable,
      and shorter than the target when one is not. */
  lemma Decoded(tok: seq<Bytes>, merges: seq<Bytes>, marks: Marks, spec: seq<Special>, s: Bytes)
    requires Accepts(tok, merges) && Valid(s)
    ensures var t := DecodeIds(tok, marks, EncodeIds(tok, merges, marks, spec, s, false));
            && (AllDecodable(tok, marks, TextSyms(tok, merges, s)) ==> t == Target(tok, Escape(s)))
            && (!AllDecodable(tok, marks, TextSyms(tok, merges, s)) ==> |t| < |Target(tok, Escape(s))|)
  {
    TextSymsClean(tok, merges, s);
    RunIdsAre(tok, merges, Runs(Escape(s)));
    hide Valid, Runs, RunSyms, RunIds, Segments, SegmentIds, DecodeIds, AllClean, AllDecodable, Target, LineOk;
    SymbolsText(tok, marks, TextSyms(tok, merges, s));
    if s == [] {
      NoSyms0(tok, merges, marks);
    } else {
      PlainText(tok, merges, marks, spec, s);
    }
  }

  lemma NoSyms0(tok: seq<Bytes>, merges: seq<Bytes>, marks: Marks)
    ensures TextSyms(tok, merges, []) == [] && DecodeIds(tok, marks, []) == [] == Target(tok, Escape([]))
    ensures AllDecodable(tok, marks, [])
  {
  }

  /** Round trip, text by text: for every vocabulary and merge list the build accepts and every well-formed text,
      decoding its ids gives the text with U+2581 read as a space, when U+2581 is a token, and the escaped text,
      when it is not, if and only if every final symbol is decodable. */
  lemma RoundTrip(tok: seq<Bytes>, merges: seq<Bytes>, marks: Marks, spec: seq<Special>, s: Bytes)
    requires Accepts(tok, merges) && Valid(s)
    ensures DecodeIds(tok, marks, EncodeIds(tok, merges, marks, spec, s, false))
              == (if METASPACE in tok then Unescape(s) else Escape(s))
            <==> AllDecodable(tok, marks, TextSyms(tok, merges, s))
  {
    Decoded(tok, merges, marks, spec, s);
    EscapeThenUnescape(s);
    hide Accepts, Valid, Unescape, Escape, EncodeIds, DecodeIds, AllDecodable, TextSyms;
  }

  /** Unescaping shortens a text at the first U+2581, and does nothing when there is none. */
  lemma {:induction false} UnescapeLength(s: Bytes)
    ensures |Unescape(s)| <= |s|
    ensures (exists i: nat :: MetaspaceAt(s, i)) ==> |Unescape(s)| < |s|
    ensures (forall i: nat :: !MetaspaceAt(s, i)) ==> Unescape(s) == s
    decreases |s|
  {
    if s != [] {
      if MetaspaceAt(s, 0) {
        UnescapeLength(s[3..]);
      } else {
        UnescapeLength(s[1..]);
        LaterMetaspace(s);
        hide MetaspaceAt;
        assert s == [s[0]] + s[1..];
      }
    }
  }

  lemma LaterMetaspace(s: Bytes)
    requires s != [] && !MetaspaceAt(s, 0)
    ensures (exists i: nat :: MetaspaceAt(s, i)) <==> exists i: nat :: MetaspaceAt(s[1..], i)
  {
    if i: nat :| MetaspaceAt(s, i) {
      assert MetaspaceAt(s[1..], i - 1);
    }
    if i: nat :| MetaspaceAt(s[1..], i) {
      assert MetaspaceAt(s, i + 1);
    }
  }

  /** With U+2581 in the vocabulary, the text itself comes back if and only if it does not contain U+2581 and every
      final symbol is decodable. */
  lemma ExactRoundTrip(tok: seq<Bytes>, merges: seq<Bytes>, marks: Marks, spec: seq<Special>, s: Bytes)
    requires Accepts(tok, merges) && Valid(s) && METASPACE in tok
    ensures DecodeIds(tok, marks, EncodeIds(tok, merges, marks, spec, s, false)) == s
            <==> (forall i: nat :: !MetaspaceAt(s, i)) && AllDecodable(tok, marks, TextSyms(tok, merges, s))
  {
    Decoded(tok, merges, marks, spec, s);
    EscapeThenUnescape(s);
    UnescapeLength(s);
    hide Accepts, Valid, EncodeIds, DecodeIds, Unescape, Escape, AllDecodable, TextSyms;
  }

  function Spaces(s: Bytes): nat {
    if s == [] then 0 else (if s[0] == SP then 1 else 0) + Spaces(s[1..])
  }

  lemma {:induction false} SpacesAppend(a: Bytes, b: Bytes)
    ensures Spaces(a + b) == Spaces(a) + Spaces(b)
  {
    if a == [] {
      assert a + b == b;
    } else {
      SpacesAppend(a[1..], b);
      assert (a + b)[1..] == a[1..] + b;
    }
  }

  lemma {:induction false} NoSpaces(s: Bytes)
    ensures Spaces(s) == 0 <==> SP !in s
  {
    if s != [] {
      NoSpaces(s[1..]);
      assert s == [s[0]] + s[1..];
    }
  }

  /** Escaping lengthens a text by two bytes a space and leaves none. */
  lemma {:induction false} EscapeLength(s: Bytes)
    ensures |Escape(s)| == |s| + 2 * Spaces(s) && SP !in Escape(s)
    ensures SP !in s ==> Escape(s) == s
  {
    if s != [] {
      EscapeLength(s[1..]);
      assert s == [s[0]] + s[1..];
    }
  }

  /** Without U+2581 in the vocabulary only the six bytes <0x20> of a token can decode to a space. */
  lemma SymbolSpaces(tok: seq<Bytes>, marks: Marks, w: Bytes)
    requires (forall b: byte :: ByteName(b) in tok) && Clean(tok, w) && METASPACE !in tok && SP !in w
    ensures var t := DecodeIds(tok, marks, SymbolIds(tok, w)); |t| + 5 * Spaces(t) <= |w|
  {
    hide Skips, ByteName, FallbackIds, DecodeIds, Unescape, ByteToken, Valid, ValidChar;
    NoSpaces(DecodeIds(tok, marks, SymbolIds(tok, w)));
    NoSpaces(w);
    if w in tok {
      OneId(tok, marks, IdOf(tok, w));
      if ByteToken(w).Some? { ByteTokenText(w); }
    } else {
      FallbackText(tok, marks, w);
    }
  }

  lemma {:induction false} SymbolsSpaces(tok: seq<Bytes>, marks: Marks, syms: seq<Bytes>)
    requires (forall b: byte :: ByteName(b) in tok) && AllClean(tok, syms) && METASPACE !in tok
    requires SP !in Flatten(syms)
    ensures var t := DecodeIds(tok, marks, AllIds(tok, syms)); |t| + 5 * Spaces(t) <= |Flatten(syms)|
    decreases |syms|
  {
    hide DecodeIds, SymbolIds, Clean, AllClean, ByteName, Target;
    if syms == [] {
      NothingText(tok, marks);
    } else {
      AllTail(tok, marks, syms);
      SymbolsSpaces(tok, marks, syms[1..]);
      SymbolSpaces(tok, marks, syms[0]);
      DecodeIdsAppend(tok, marks, SymbolIds(tok, syms[0]), AllIds(tok, syms[1..]));
      SpacesAppend(DecodeIds(tok, marks, SymbolIds(tok, syms[0])), DecodeIds(tok, marks, AllIds(tok, syms[1..])));
    }
  }

  lemma DecodedSpaces(tok: seq<Bytes>, merges: seq<Bytes>, marks: Marks, spec: seq<Special>, s: Bytes)
    requires Accepts(tok, merges) && Valid(s) && METASPACE !in tok
    ensures var t := DecodeIds(tok, marks, EncodeIds(tok, merges, marks, spec, s, false));
            |t| + 5 * Spaces(t) <= |s| + 2 * Spaces(s)
  {
    TextSymsClean(tok, merges, s);
    RunIdsAre(tok, merges, Runs(Escape(s)));
    EscapeLength(s);
    hide Valid, Runs, RunSyms, RunIds, Segments, SegmentIds, DecodeIds, AllClean, Escape, LineOk;
    if s == [] {
      NoSyms0(tok, merges, marks);
    } else {
      SymbolsSpaces(tok, marks, TextSyms(tok, merges, s));
      PlainText(tok, merges, marks, spec, s);
    }
  }

  /** Without U+2581 in the vocabulary a text comes back escaped, or not whole: it comes back unchanged if and only if
      it has no space and every final symbol is decodable. */
  lemma WithoutMetaspace(tok: seq<Bytes>, merges: seq<Bytes>, marks: Marks, spec: seq<Special>, s: Bytes)
    requires Accepts(tok, merges) && Valid(s) && METASPACE !in tok
    ensures AllDecodable(tok, marks, TextSyms(tok, merges, s)) ==>
              DecodeIds(tok, marks, EncodeIds(tok, merges, marks, spec, s, false)) == Escape(s)
    ensures DecodeIds(tok, marks, EncodeIds(tok, merges, marks, spec, s, false)) == s
            <==> SP !in s && AllDecodable(tok, marks, TextSyms(tok, merges, s))
  {
    RoundTrip(tok, merges, marks, spec, s);
    DecodedSpaces(tok, merges, marks, spec, s);
    EscapeLength(s);
    NoSpaces(s);
    hide Accepts, Valid, EncodeIds, DecodeIds, Escape, AllDecodable, TextSyms, Spaces;
  }

  /** What a caller can check of a vocabulary without encoding anything: no byte token, character token, newline-run
      token or merge result is a special id, and no merge result reads <0xNN>. */
  ghost predicate Faithful(tok: seq<Bytes>, merges: seq<Bytes>, marks: Marks) {
    && (forall b: byte :: !Skips(marks, IdOf(tok, ByteName(b))))
    && (forall c: Bytes :: ValidChar(c) && c in tok ==> !Skips(marks, IdOf(tok, c)))
    && (forall w: Bytes :: AllLf(w) && w in tok ==> !Skips(marks, IdOf(tok, w)))
    && (forall i :: 0 <= i < |merges| && Split(merges[i]).Some? ==>
          var w := Split(merges[i]).value.0 + Split(merges[i]).value.1;
          !Skips(marks, IdOf(tok, w)) && ByteToken(w) == None)
  }

  ghost function IsDecodable(tok: seq<Bytes>, marks: Marks): Bytes -> bool {
    w => Decodable(tok, marks, w)
  }

  lemma FaithfulPiece(tok: seq<Bytes>, merges: seq<Bytes>, marks: Marks, s: Bytes, isNl: bool)
    requires Accepts(tok, merges) && Faithful(tok, merges, marks) && Valid(s) && (isNl ==> AllLf(s))
    ensures AllDecodable(tok, marks, PieceSyms(tok, merges, s, isNl))
  {
    hide ByteName, Skips, Valid, Chars, Spec.Greedy;
    if isNl && s in tok {
      assert ByteToken(s) == None;
    } else {
      CharsValid(s);
      var start := Chars(LeadLen, s);
      forall i | 0 <= i < |start| ensures IsDecodable(tok, marks)(start[i]) {
        assert ValidChar(start[i]) && ByteToken(start[i]) == None;
      }
      hide ValidChar, ByteToken;
      forall a: Bytes, b: Bytes | Decodable(tok, marks, a) && Decodable(tok, marks, b) && ByMerges(merges)(a, b).Some?
        ensures Decodable(tok, marks, a + b)
      {
        assert Split(merges[MergeRank(merges, a, b)]) == Some((a, b));
        assert LineOk(tok, merges[MergeRank(merges, a, b)]);
      }
      Spec.GreedyKeeps(ByMerges(merges), start, IsDecodable(tok, marks));
    }
  }

  lemma {:induction false} FaithfulRuns(tok: seq<Bytes>, merges: seq<Bytes>, marks: Marks, s: Bytes)
    requires Accepts(tok, merges) && Faithful(tok, merges, marks) && Valid(s)
    ensures AllDecodable(tok, marks, RunSyms(tok, merges, Runs(s)))
    decreases |s|
  {
    hide Accepts, Faithful, Valid, PieceSyms, LineRun, AllLf, Decodable;
    if s != [] {
      var e := LineRun(s, 0, s[0] == LF, 1);
      RunValid(s);
      FaithfulRuns(tok, merges, marks, s[e..]);
      FaithfulPiece(tok, merges, marks, s[..e], s[0] == LF);
      var runs := Runs(s);
      assert runs[0] == s[..e] && runs[1..] == Runs(s[e..]);
    }
  }

  /** With such a vocabulary every final symbol of every well-formed text is decodable. */
  lemma FaithfulDecodes(tok: seq<Bytes>, merges: seq<Bytes>, marks: Marks, s: Bytes)
    requires Accepts(tok, merges) && Faithful(tok, merges, marks) && Valid(s)
    ensures AllDecodable(tok, marks, TextSyms(tok, merges, s))
  {
    EscapeThenUnescape(s);
    hide Accepts, Faithful, Valid, Escape, Runs, RunSyms, AllDecodable;
    FaithfulRuns(tok, merges, marks, Escape(s));
  }

  /** A string that merging leaves whole: a newline run that is a token, or the merge of its own characters. */
  ghost predicate FinalSymbol(tok: seq<Bytes>, merges: seq<Bytes>, w: Bytes) {
    && Valid(w) && SP !in w && OneKind(w)
    && ((AllLf(w) && w in tok) || Spec.Greedy(ByMerges(merges), Chars(LeadLen, w)) == [w])
  }

  ghost predicate BytesOf(w: Bytes, s: Bytes) {
    forall b :: b in w ==> b in s
  }

  lemma PartIn(cs: seq<Bytes>, lo: nat, hi: nat)
    requires lo <= hi <= |cs|
    ensures BytesOf(Flatten(cs[lo..hi]), Flatten(cs))
  {
    hide Flatten;
    var a, b, c := cs[..lo], cs[lo..hi], cs[hi..];
    assert cs == a + (b + c);
    FlattenAppend(a, b + c);
    FlattenAppend(b, c);
    InMiddle(Flatten(a), Flatten(b), Flatten(c));
  }

  lemma InMiddle(a: Bytes, b: Bytes, c: Bytes)
    ensures BytesOf(b, a + (b + c))
  {
  }

  lemma SameKind(w: Bytes, s: Bytes)
    requires OneKind(s) && SP !in s && BytesOf(w, s) && w != []
    ensures OneKind(w) && SP !in w
  {
    forall i | 0 <= i < |w| ensures (w[i] == LF) == (s[0] == LF) {
      assert w[i] in s;
    }
  }

  /** A stretch of a text's characters is the characters of the text it spells. */
  lemma PartChars(s: Bytes, lo: nat, hi: nat)
    requires Valid(s) && lo <= hi <= |Chars(LeadLen, s)|
    ensures var part := Chars(LeadLen, s)[lo..hi];
            Valid(Flatten(part)) && Chars(LeadLen, Flatten(part)) == part && BytesOf(Flatten(part), s)
  {
    CharsValid(s);
    CharsText(LeadLen, s);
    hide Valid, ValidChar, Chars, Flatten, BytesOf;
    FlattenValid(Chars(LeadLen, s)[lo..hi]);
    PartIn(Chars(LeadLen, s), lo, hi);
  }

  /** The symbols of a run stay whole on their own: merging is local. */
  lemma PieceFinal(tok: seq<Bytes>, merges: seq<Bytes>, s: Bytes, isNl: bool, i: nat)
    requires Accepts(tok, merges) && Valid(s) && SP !in s && OneKind(s) && (isNl ==> AllLf(s))
    requires i < |PieceSyms(tok, merges, s, isNl)|
    ensures FinalSymbol(tok, merges, PieceSyms(tok, merges, s, isNl)[i])
  {
    var w := PieceSyms(tok, merges, s, isNl)[i];
    if !(isNl && s in tok) {
      PieceSymsClean(tok, merges, s, isNl);
      CleanIs(tok, w);
      hide *;
      PieceSymsAre(tok, merges, s, isNl);
      MergedFinal(tok, merges, s, i);
    }
  }

  lemma PieceSymsAre(tok: seq<Bytes>, merges: seq<Bytes>, s: Bytes, isNl: bool)
    requires !(isNl && s in tok)
    ensures PieceSyms(tok, merges, s, isNl) == Spec.Greedy(ByMerges(merges), Chars(LeadLen, s))
  {
  }

  lemma MergedFinal(tok: seq<Bytes>, merges: seq<Bytes>, s: Bytes, i: nat)
    requires Valid(s) && SP !in s && OneKind(s) && i < |Spec.Greedy(ByMerges(merges), Chars(LeadLen, s))|
    requires Spec.Greedy(ByMerges(merges), Chars(LeadLen, s))[i] != []
    ensures FinalSymbol(tok, merges, Spec.Greedy(ByMerges(merges), Chars(LeadLen, s))[i])
  {
    hide *;
    var rank, cs := ByMerges(merges), Chars(LeadLen, s);
    var lo, hi := Spec.GreedyLocal(rank, cs, i);
    PartChars(s, lo, hi);
    Spec.GreedyKeepsText(rank, cs[lo..hi]);
    FlattenOne(Spec.Greedy(rank, cs)[i]);
    SameKind(Spec.Greedy(rank, cs)[i], s);
    FinalIs(tok, merges, Spec.Greedy(rank, cs)[i]);
  }

  lemma CleanIs(tok: seq<Bytes>, w: Bytes)
    requires Clean(tok, w)
    ensures w != [] && Valid(w) && (w in tok || ValidChar(w))
  {
  }

  lemma FinalIs(tok: seq<Bytes>, merges: seq<Bytes>, w: Bytes)
    requires Valid(w) && SP !in w && OneKind(w)
    requires Spec.Greedy(ByMerges(merges), Chars(LeadLen, w)) == [w]
    ensures FinalSymbol(tok, merges, w)
  {
    hide Valid, OneKind, Spec.Greedy, Chars;
  }

  lemma RunKind(s: Bytes)
    requires s != []
    ensures var e := LineRun(s, 0, s[0] == LF, 1); OneKind(s[..e])
    ensures var e := LineRun(s, 0, s[0] == LF, 1); SP !in s ==> SP !in s[..e] && SP !in s[e..]
  {
  }

  lemma {:induction false} RunsFinal(tok: seq<Bytes>, merges: seq<Bytes>, s: Bytes, i: nat)
    requires Accepts(tok, merges) && Valid(s) && SP !in s && i < |RunSyms(tok, merges, Runs(s))|
    ensures FinalSymbol(tok, merges, RunSyms(tok, merges, Runs(s))[i])
    decreases |s|
  {
    hide Accepts, Valid, PieceSyms, LineRun, AllLf, FinalSymbol, OneKind;
    if s != [] {
      var e := LineRun(s, 0, s[0] == LF, 1);
      RunValid(s);
      RunKind(s);
      var runs := Runs(s);
      assert runs[0] == s[..e] && runs[1..] == Runs(s[e..]);
      var n := |PieceSyms(tok, merges, s[..e], s[0] == LF)|;
      if i < n {
        PieceFinal(tok, merges, s[..e], s[0] == LF, i);
      } else {
        RunsFinal(tok, merges, s[e..], i - n);
      }
    }
  }

  /** Alone, such a string is its own only final symbol. */
  lemma FinalAlone(tok: seq<Bytes>, merges: seq<Bytes>, w: Bytes)
    requires FinalSymbol(tok, merges, w)
    ensures TextSyms(tok, merges, w) == [w]
  {
    EscapeLength(w);
    OneRun(w);
    hide Valid, Escape, Runs, Spec.Greedy, Chars;
    var one: seq<Bytes> := [w];
    assert one[1..] == [] && RunSyms(tok, merges, one[1..]) == [];
    assert RunSyms(tok, merges, one) == PieceSyms(tok, merges, w, w[0] == LF) + [];
    assert PieceSyms(tok, merges, w, w[0] == LF) == [w];
  }

  lemma OneRun(w: Bytes)
    requires OneKind(w)
    ensures Runs(w) == [w]
  {
    var e := LineRun(w, 0, w[0] == LF, 1);
    assert e == |w|;
    assert w[..e] == w && w[e..] == [];
  }

  /** The final symbols of texts are exactly these strings; each is a token or one character. */
  lemma FinalIff(tok: seq<Bytes>, merges: seq<Bytes>, w: Bytes)
    requires Accepts(tok, merges)
    ensures FinalSymbol(tok, merges, w) <==> exists s: Bytes :: Valid(s) && w in TextSyms(tok, merges, s)
    ensures FinalSymbol(tok, merges, w) ==> w in tok || ValidChar(w)
  {
    hide Accepts, Valid, ValidChar, TextSyms, FinalSymbol;
    if FinalSymbol(tok, merges, w) {
      FinalAlone(tok, merges, w);
      FinalValid(tok, merges, w);
      TextSymsClean(tok, merges, w);
      CleanFirst(tok, merges, w);
      assert w in TextSyms(tok, merges, w);
    }
    forall s: Bytes | Valid(s) && w in TextSyms(tok, merges, s) ensures FinalSymbol(tok, merges, w) {
      var i :| 0 <= i < |TextSyms(tok, merges, s)| && TextSyms(tok, merges, s)[i] == w;
      TextFinal(tok, merges, s, i);
    }
  }

  lemma FinalValid(tok: seq<Bytes>, merges: seq<Bytes>, w: Bytes)
    requires FinalSymbol(tok, merges, w)
    ensures Valid(w)
  {
  }

  lemma CleanFirst(tok: seq<Bytes>, merges: seq<Bytes>, w: Bytes)
    requires AllClean(tok, [w])
    ensures w in tok || ValidChar(w)
  {
    hide ValidChar, Valid, Unescape;
    assert [w][0] == w;
  }

  lemma TextFinal(tok: seq<Bytes>, merges: seq<Bytes>, s: Bytes, i: nat)
    requires Accepts(tok, merges) && Valid(s) && i < |TextSyms(tok, merges, s)|
    ensures FinalSymbol(tok, merges, TextSyms(tok, merges, s)[i])
  {
    EscapeThenUnescape(s);
    EscapeLength(s);
    hide Accepts, Valid, Escape, Runs, RunSyms, FinalSymbol;
    RunsFinal(tok, merges, Escape(s), i);
  }

  /** Every well-formed text decodes whole if and only if every string that merging leaves whole is decodable. */
  lemma VocabularyIff(tok: seq<Bytes>, merges: seq<Bytes>, marks: Marks)
    requires Accepts(tok, merges)
    ensures (forall s: Bytes :: Valid(s) ==> AllDecodable(tok, marks, TextSyms(tok, merges, s))) <==>
            (forall w: Bytes :: FinalSymbol(tok, merges, w) ==> Decodable(tok, marks, w))
  {
    hide Accepts, Valid, TextSyms, FinalSymbol, Decodable;
    if forall s: Bytes :: Valid(s) ==> AllDecodable(tok, marks, TextSyms(tok, merges, s)) {
      forall w: Bytes | FinalSymbol(tok, merges, w) ensures Decodable(tok, marks, w) {
        FinalAlone(tok, merges, w);
        FinalValid(tok, merges, w);
        assert TextSyms(tok, merges, w)[0] == w;
      }
    }
    if forall w: Bytes :: FinalSymbol(tok, merges, w) ==> Decodable(tok, marks, w) {
      forall s: Bytes, i | Valid(s) && 0 <= i < |TextSyms(tok, merges, s)|
        ensures Decodable(tok, marks, TextSyms(tok, merges, s)[i])
      {
        TextFinal(tok, merges, s, i);
      }
    }
  }

  /** decode(encode(s)) is s with U+2581 read as a space. */
  ghost predicate ReadsBack(tok: seq<Bytes>, merges: seq<Bytes>, marks: Marks, spec: seq<Special>, s: Bytes) {
    DecodeIds(tok, marks, EncodeIds(tok, merges, marks, spec, s, false)) == Unescape(s)
  }

  /** With such a vocabulary, every well-formed text reads back if and only if U+2581 is a token; the single space is
      the counterexample when it is not. */
  lemma ReadsBackIff(tok: seq<Bytes>, merges: seq<Bytes>, marks: Marks, spec: seq<Special>)
    requires Accepts(tok, merges) && Faithful(tok, merges, marks)
    ensures METASPACE in tok <==> forall s: Bytes :: Valid(s) ==> ReadsBack(tok, merges, marks, spec, s)
    ensures METASPACE !in tok ==> !ReadsBack(tok, merges, marks, spec, [SP])
  {
    SpaceReads();
    hide Accepts, Faithful, Valid, Escape, Unescape, EncodeIds, DecodeIds, AllDecodable, TextSyms;
    if METASPACE in tok {
      forall s: Bytes | Valid(s) ensures ReadsBack(tok, merges, marks, spec, s) {
        FaithfulDecodes(tok, merges, marks, s);
        RoundTrip(tok, merges, marks, spec, s);
      }
    } else {
      FaithfulDecodes(tok, merges, marks, [SP]);
      WithoutMetaspace(tok, merges, marks, spec, [SP]);
    }
  }

  lemma SpaceReads()
    ensures Valid([SP]) && Unescape([SP]) == [SP] && SP in [SP]
  {
    SingleValid([SP]);
    UnescapeSingle([SP]);
  }

  /** Exactly when the vocabulary reads every well-formed text back. */
  lemma AllReadBackIff(tok: seq<Bytes>, merges: seq<Bytes>, marks: Marks, spec: seq<Special>)
    requires Accepts(tok, merges)
    ensures (forall s: Bytes :: Valid(s) ==> ReadsBack(tok, merges, marks, spec, s)) <==>
            METASPACE in tok && forall w: Bytes :: FinalSymbol(tok, merges, w) ==> Decodable(tok, marks, w)
  {
    VocabularyIff(tok, merges, marks);
    SpaceReads();
    hide Accepts, Valid, Escape, Unescape, EncodeIds, DecodeIds, AllDecodable, TextSyms, FinalSymbol, Decodable;
    if METASPACE in tok {
      forall s: Bytes | Valid(s)
        ensures ReadsBack(tok, merges, marks, spec, s) <==> AllDecodable(tok, marks, TextSyms(tok, merges, s))
      {
        RoundTrip(tok, merges, marks, spec, s);
      }
    } else {
      WithoutMetaspace(tok, merges, marks, spec, [SP]);
      assert !ReadsBack(tok, merges, marks, spec, [SP]);
    }
  }
}
