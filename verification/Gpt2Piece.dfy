/** bpe_piece: byte-level encoding of one pre-token and the quadratic merge loop over parallel offset and
    length arrays. */
module Gpt2Piece {
  import opened Basics
  import opened OpenAddressing
  import opened Vocab
  import opened ByteLevel
  import opened Sinks
  import Spec = GreedyBpe

  /** build_byte_maps: the forward and inverse byte tables, filled by the source's loops. */
  method BuildByteMaps() returns (bcp: array<Bytes>, cpToByte: array<int>, maxCp: nat)
    ensures fresh(bcp) && bcp.Length == 256 && forall b: byte :: bcp[b] == Enc(b)
    ensures fresh(cpToByte) && maxCp < cpToByte.Length && maxCp == 323
    ensures forall cp: nat :: cp <= maxCp ==> cpToByte[cp] == ByteOf(cp)
  {
    var byteToCp := new int[256];
    var n := 0;
    for i := 0 to 256
      invariant n == Skipped(i)
      invariant forall c: byte :: c < i ==> byteToCp[c] == CodePoint(c)
    {
      var b: byte := i;
      if Printable(b) {
        byteToCp[b] := b;
      } else {
        byteToCp[b] := 256 + n;
        n := n + 1;
      }
    }
    maxCp := 0;
    for i := 0 to 256
      invariant maxCp <= 323 && forall c: byte :: c < i ==> CodePoint(c) <= maxCp
    {
      var b: byte := i;
      assert byteToCp[b] == CodePoint(b);
      if byteToCp[b] > maxCp { maxCp := byteToCp[b]; }
    }
    assert CodePoint(173) == 323;
    cpToByte := new int[512];
    for c := 0 to maxCp + 1
      invariant forall d :: 0 <= d < c ==> cpToByte[d] == -1
      invariant forall b: byte :: byteToCp[b] == CodePoint(b)
    {
      cpToByte[c] := -1;
    }
    bcp := new Bytes[256](i => []);
    FillInverse(byteToCp, cpToByte, bcp);
  }

  /** The last loop of build_byte_maps. */
  method FillInverse(byteToCp: array<int>, cpToByte: array<int>, bcp: array<Bytes>)
    requires byteToCp.Length == 256 && bcp.Length == 256 && cpToByte.Length == 512 && byteToCp != cpToByte
    requires forall c: byte :: byteToCp[c] == CodePoint(c)
    requires forall d :: 0 <= d < 324 ==> cpToByte[d] == -1
    modifies cpToByte, bcp
    ensures forall b: byte :: bcp[b] == Enc(b)
    ensures forall cp: nat :: cp < 324 ==> cpToByte[cp] == ByteOf(cp)
  {
    hide CodePoint, Enc, ByteOf;
    for i := 0 to 256
      invariant forall c: byte :: byteToCp[c] == CodePoint(c)
      invariant forall c: byte :: c < i ==> bcp[c] == Enc(c)
      invariant forall cp: nat :: cp < 324 ==>
                  cpToByte[cp] == if 0 <= ByteOf(cp) < i then ByteOf(cp) else -1
    {
      var b: byte := i;
      var cp := byteToCp[b];
      assert ByteOf(cp) == b by {
        if ByteOf(cp) >= 0 { CodePointInjective(b, ByteOf(cp)); }
      }
      assert forall other: nat :: other != cp ==> ByteOf(other) != b;
      cpToByte[cp] := b;
      EncIs(b);
      bcp[b] := if cp < 0x80 then [cp] else [0xC0 + cp / 64, 0x80 + cp % 64];
    }
  }

  lemma EncIs(b: byte)
    ensures CodePoint(b) < 324
    ensures var cp := CodePoint(b); Enc(b) == if cp < 0x80 then [cp] else [0xC0 + cp / 64, 0x80 + cp % 64]
  {
  }

  /** The GPT2 fields of sp_tokenizer; immutable once loaded. */
  class Tokenizer {
    const tok: seq<Bytes>
    const lines: seq<Bytes>
    const vocab: ByteMap
    const merge: ByteMap?
    const bcp: array<Bytes>
    const cpToByte: array<int>
    const maxCp: nat

    ghost predicate Ready()
      reads vocab, vocab.e, merge, if merge == null then {} else {merge.e}, bcp, cpToByte
    {
      && Serves(vocab, tok)
      && (merge == null <==> lines == []) && (merge != null ==> Serves(merge, lines))
      && bcp.Length == 256 && (forall b: byte :: bcp[b] == Enc(b))
      && maxCp == 323 && maxCp < cpToByte.Length
      && forall cp: nat :: cp <= maxCp ==> cpToByte[cp] == ByteOf(cp)
    }

    /** The loaders: vocabulary map, merge-line map when there are merge lines, byte tables. */
    constructor (tok: seq<Bytes>, lines: seq<Bytes>, hash: Bytes -> nat)
      ensures Ready() && this.tok == tok && this.lines == lines
    {
      hide Serves, Enc, ByteOf;
      this.tok, this.lines := tok, lines;
      var v := BuildVocab(tok, hash);
      var m: ByteMap? := null;
      if |lines| > 0 {
        m := BuildVocab(lines, hash);
      }
      vocab, merge := v, m;
      var b, c, x := BuildByteMaps();
      bcp, cpToByte, maxCp := b, c, x;
    }

    method Lookup(w: Bytes) returns (id: int)
      requires Ready()
      ensures id == IdOf(tok, w)
    {
      hide IdOf, Enc, ByteOf;
      id := Vocab.Lookup(vocab, tok, w);
    }

    method MergeLookup(key: Bytes) returns (rank: int)
      requires Ready() && merge != null
      ensures rank == IdOf(lines, key)
    {
      hide IdOf, Enc, ByteOf;
      rank := Vocab.Lookup(merge, lines, key);
    }

    method ByteCode(b: byte) returns (w: Bytes)
      requires Ready()
      ensures w == Enc(b)
    {
      hide IdOf, Enc, ByteOf, Serves;
      w := bcp[b];
    }

    /** The table lookup of decode, -1 beyond the table. */
    method ByteFor(cp: nat) returns (b: int)
      requires Ready()
      ensures b == ByteOf(cp)
    {
      hide IdOf, Enc, Serves;
      b := if cp <= maxCp then cpToByte[cp] else -1;
    }
  }

  /** Merge rank in this lane: the first merge line that reads "A B". */
  function ByLines(lines: seq<Bytes>): (Bytes, Bytes) -> Option<real> {
    (a, b) => var r := IdOf(lines, a + [SPACE] + b); if r < 0 then None else Some(r as real)
  }

  /** On symbols without spaces, this is the rank of the gemma4 lane and of the prototype. */
  lemma LinesAreMerges(lines: seq<Bytes>, a: Bytes, b: Bytes)
    requires a != [] && b != [] && SPACE !in a
    ensures ByLines(lines)(a, b) == ByMerges(lines)(a, b)
  {
    var r, q := IdOf(lines, a + [SPACE] + b), MergeRank(lines, a, b);
    forall j | 0 <= j < |lines| ensures lines[j] == a + [SPACE] + b <==> Split(lines[j]) == Some((a, b)) {
      SplitOnce(lines[j], a, b);
    }
  }

  lemma SplitOnce(line: Bytes, a: Bytes, b: Bytes)
    requires a != [] && b != [] && SPACE !in a
    ensures line == a + [SPACE] + b <==> Split(line) == Some((a, b))
  {
    if line == a + [SPACE] + b {
      var sp := SpaceFrom(line, 1);
      assert line[|a|] == SPACE;
      assert forall k :: 0 <= k < |a| ==> line[k] == a[k];
      assert sp == |a|;
      assert line[..sp] == a && line[sp + 1..] == b;
    }
  }

  /** Symbol k ends where symbol k+1 starts, or at the end. */
  ghost predicate Cut(o: seq<nat>, n: seq<nat>, total: nat, k: nat)
    requires k < |o| == |n|
  {
    o[k] + n[k] == if k + 1 == |o| then total else o[k + 1]
  }

  /** Symbols are consecutive spans of the encoded text. */
  ghost predicate Contiguous(o: seq<nat>, n: seq<nat>, total: nat) {
    && |o| == |n| && (|o| == 0 ==> total == 0) && (|o| > 0 ==> o[0] == 0)
    && (forall k: nat {:trigger Cut(o, n, total, k)} :: k < |o| ==> Cut(o, n, total, k))
    && forall k :: 0 <= k < |o| ==> o[k] + n[k] <= total
  }

  ghost function Parts(enc: Bytes, o: seq<nat>, n: seq<nat>): (r: seq<Bytes>)
    requires Contiguous(o, n, |enc|)
    ensures |r| == |o| && forall k :: 0 <= k < |o| ==> r[k] == enc[o[k]..o[k] + n[k]]
  {
    seq(|o|, k requires 0 <= k < |o| => enc[o[k]..o[k] + n[k]])
  }

  /** The offset and length lists after merging pair k. */
  ghost predicate Joined(o: seq<nat>, n: seq<nat>, k: nat, o': seq<nat>, n': seq<nat>)
    requires k + 1 < |o| == |n|
  {
    && |o'| == |n'| == |o| - 1
    && (forall j :: 0 <= j < |o'| ==> o'[j] == o[if j <= k then j else j + 1])
    && (forall j :: 0 <= j < |n'| && j != k ==> n'[j] == n[if j < k then j else j + 1])
    && n'[k] == n[k] + n[k + 1]
  }

  lemma JoinedContiguous(o: seq<nat>, n: seq<nat>, total: nat, k: nat, o': seq<nat>, n': seq<nat>)
    requires Contiguous(o, n, total) && k + 1 < |o| && Joined(o, n, k, o', n')
    ensures Contiguous(o', n', total)
  {
    assert Cut(o, n, total, k) && Cut(o, n, total, k + 1);
    forall j: nat | j < |o'| ensures Cut(o', n', total, j) {
      assert Cut(o, n, total, if j < k then j else j + 1);
    }
  }

  lemma JoinedParts(enc: Bytes, o: seq<nat>, n: seq<nat>, k: nat, o': seq<nat>, n': seq<nat>)
    requires Contiguous(o, n, |enc|) && k + 1 < |o| && Joined(o, n, k, o', n') && Contiguous(o', n', |enc|)
    ensures Parts(enc, o', n') == Spec.MergeAt(Parts(enc, o, n), k)
  {
    assert Cut(o, n, |enc|, k);
    var v := Parts(enc, o, n);
    assert enc[o[k]..o[k] + n'[k]] == v[k] + v[k + 1];
  }

  /** The byte-level symbols of a piece, one per source byte. */
  function ByteSymbols(rb: Bytes): (r: seq<Bytes>)
    ensures |r| == |rb| && forall i :: 0 <= i < |rb| ==> r[i] == Enc(rb[i])
  {
    seq(|rb|, i requires 0 <= i < |rb| => Enc(rb[i]))
  }

  /** What every byte-level symbol satisfies, merged or not: it is not empty and has no space. */
  ghost function IsPlain(): Bytes -> bool {
    w => w != [] && SPACE !in w
  }

  lemma EncPlain(b: byte)
    ensures IsPlain()(Enc(b))
  {
    var cp := CodePoint(b);
    assert cp >= 0x80 || Printable(b);
  }

  /** So looking "A B" up merges every piece as the pair-keyed merge list does. */
  lemma PieceByMerges(lines: seq<Bytes>, rb: Bytes)
    ensures Spec.Greedy(ByLines(lines), ByteSymbols(rb)) == Spec.Greedy(ByMerges(lines), ByteSymbols(rb))
  {
    hide Enc, Spec.Greedy;
    forall i | 0 <= i < |rb| ensures IsPlain()(ByteSymbols(rb)[i]) {
      EncPlain(rb[i]);
    }
    forall a: Bytes, b: Bytes | IsPlain()(a) && IsPlain()(b) ensures ByLines(lines)(a, b) == ByMerges(lines)(a, b) {
      LinesAreMerges(lines, a, b);
    }
    hide ByLines, ByMerges;
    Spec.GreedyAgrees(ByLines(lines), ByMerges(lines), ByteSymbols(rb), IsPlain());
  }

  /** Why encoding ends early: a symbol is not a token (the original's -1), or a merge lookup dereferences the map
      that is left unallocated when a model has no merge lines. */
  datatype Stop = NoToken | NullMap

  datatype Outcome = Ids(ids: seq<int>) | Stopped(why: Stop)

  function StopOf(o: Outcome): Option<Stop> {
    if o.Ids? then None else Some(o.why)
  }

  /** One outcome after another: the first stop is final. */
  function Join(a: Outcome, b: Outcome): Outcome {
    if a.Stopped? then a else if b.Stopped? then b else Ids(a.ids + b.ids)
  }

  lemma JoinAssociates(a: Outcome, b: Outcome, c: Outcome)
    ensures Join(Join(a, b), c) == Join(a, Join(b, c))
    ensures Join(a, Ids([])) == a && Join(Ids([]), a) == a
  {
    if a.Ids? {
      assert a.ids + [] == a.ids && [] + a.ids == a.ids;
      if b.Ids? && c.Ids? {
        assert a.ids + b.ids + c.ids == a.ids + (b.ids + c.ids);
      }
    }
  }

  lemma JoinIs(a: Outcome, b: Outcome)
    ensures Join(a, b) == if a.Stopped? then a else if b.Stopped? then b else Ids(a.ids + b.ids)
  {
  }

  /** The id of a final symbol. */
  function SymbolId(tok: seq<Bytes>, w: Bytes): Outcome {
    if IdOf(tok, w) < 0 then Stopped(NoToken) else Ids([IdOf(tok, w)])
  }

  /** Ids of a list of symbols, up to the first that is not a token. */
  function IdsOf(tok: seq<Bytes>, syms: seq<Bytes>): Outcome {
    if syms == [] then Ids([]) else Join(SymbolId(tok, syms[0]), IdsOf(tok, syms[1..]))
  }

  /** The ids of a piece, stated on strings. A single byte needs no merge lookup. */
  function PieceIds(tok: seq<Bytes>, lines: seq<Bytes>, rb: Bytes): Outcome {
    if lines == [] && |rb| > 1 then Stopped(NullMap) else IdsOf(tok, Spec.Greedy(ByLines(lines), ByteSymbols(rb)))
  }

  /** The scratch arrays hold the symbols syms: contiguous spans of enc[..ne]. */
  ghost predicate Holds(enc: array<byte>, soff: array<nat>, slen: array<nat>, ne: nat, ns: nat, syms: seq<Bytes>)
    reads enc, soff, slen
  {
    && ne <= enc.Length && ns <= soff.Length && ns <= slen.Length && soff != slen
    && Contiguous(soff[..ns], slen[..ns], ne)
    && Parts(enc[..ne], soff[..ns], slen[..ns]) == syms
  }

  lemma PartsAt(enc: array<byte>, soff: array<nat>, slen: array<nat>, ne: nat, ns: nat, syms: seq<Bytes>, i: nat)
    requires Holds(enc, soff, slen, ne, ns, syms) && i < ns
    ensures |syms| == ns && soff[i] + slen[i] <= enc.Length && syms[i] == enc[soff[i]..soff[i] + slen[i]]
  {
    var o, n := soff[..ns], slen[..ns];
    assert o[i] == soff[i] && n[i] == slen[i];
    assert enc[..ne][o[i]..o[i] + n[i]] == enc[soff[i]..soff[i] + slen[i]];
  }

  lemma HoldsLength(enc: array<byte>, soff: array<nat>, slen: array<nat>, ne: nat, ns: nat, syms: seq<Bytes>)
    requires Holds(enc, soff, slen, ne, ns, syms)
    ensures |syms| == ns && ns <= soff.Length && ns <= slen.Length && soff != slen && ne <= enc.Length
  {
  }

  /** The merge rank of symbols i and i+1, or -1. */
  method RankAt(t: Tokenizer, enc: array<byte>, soff: array<nat>, slen: array<nat>, ghost ne: nat, ghost ns: nat,
                ghost syms: seq<Bytes>, i: nat) returns (r: int)
    requires t.Ready() && t.merge != null && Holds(enc, soff, slen, ne, ns, syms) && i + 1 < ns && |syms| == ns
    ensures r < 0 <==> Spec.PairRank(ByLines(t.lines), syms, i) == None
    ensures r >= 0 ==> Spec.PairRank(ByLines(t.lines), syms, i) == Some(r as real)
  {
    hide Tokenizer.Ready, Holds, IdOf;
    HoldsLength(enc, soff, slen, ne, ns, syms);
    PartsAt(enc, soff, slen, ne, ns, syms, i);
    PartsAt(enc, soff, slen, ne, ns, syms, i + 1);
    var key := enc[soff[i]..soff[i] + slen[i]] + [SPACE] + enc[soff[i + 1]..soff[i + 1] + slen[i + 1]];
    r := t.MergeLookup(key);
  }

  /** One scan for the lowest rank; -1 when no pair is ranked. */
  method FindBest(t: Tokenizer, enc: array<byte>, soff: array<nat>, slen: array<nat>, ghost ne: nat, ns: nat,
                  ghost syms: seq<Bytes>) returns (best: int, bi: nat)
    requires t.Ready() && t.merge != null && Holds(enc, soff, slen, ne, ns, syms) && ns > 1 && |syms| == ns
    ensures best < 0 <==> Spec.Scan(ByLines(t.lines), syms, ns - 1) == None
    ensures best >= 0 ==> Spec.Scan(ByLines(t.lines), syms, ns - 1) == Some(bi) && bi + 1 < ns
  {
    hide Tokenizer.Ready, Holds, IdOf, ByLines, Spec.PairRank;
    best, bi := -1, 0;
    ghost var rank := ByLines(t.lines);
    for i := 0 to ns - 1
      invariant best < 0 <==> Spec.Scan(rank, syms, i) == None
      invariant best >= 0 ==> Spec.Scan(rank, syms, i) == Some(bi)
      invariant best >= 0 ==> Spec.PairRank(rank, syms, bi) == Some(best as real)
    {
      var r := RankAt(t, enc, soff, slen, ne, ns, syms, i);
      if r >= 0 && (best < 0 || r < best) {
        best, bi := r, i;
      }
    }
  }

  /** Extends the left symbol and shifts the later ones down. */
  method MergeShift(soff: array<nat>, slen: array<nat>, ns: nat, bi: nat)
    requires bi + 1 < ns <= soff.Length && ns <= slen.Length && soff != slen
    modifies soff, slen
    ensures Joined(old(soff[..ns]), old(slen[..ns]), bi, soff[..ns - 1], slen[..ns - 1])
  {
    slen[bi] := slen[bi] + slen[bi + 1];
    for k := bi + 1 to ns - 1
      invariant forall j :: 0 <= j < k ==> soff[j] == old(soff[if j <= bi then j else j + 1])
      invariant forall j :: 0 <= j < k && j != bi ==> slen[j] == old(slen[if j < bi then j else j + 1])
      invariant slen[bi] == old(slen[bi] + slen[bi + 1])
      invariant forall j :: k <= j < ns ==> soff[j] == old(soff[j]) && slen[j] == old(slen[j])
    {
      soff[k] := soff[k + 1];
      slen[k] := slen[k + 1];
    }
  }

  /** What encoding the bytes rb[..i] has left in the scratch arrays. */
  ghost predicate Encoded(enc: array<byte>, soff: array<nat>, slen: array<nat>, rb: Bytes, i: nat, ne: nat)
    reads enc, soff, slen
    requires i <= |rb|
  {
    && ne <= 2 * i <= enc.Length && i <= soff.Length && i <= slen.Length && soff != slen
    && Holds(enc, soff, slen, ne, i, ByteSymbols(rb[..i]))
  }

  lemma SliceBefore(a: Bytes, b: Bytes, i: nat, j: nat)
    requires i <= j <= |a|
    ensures (a + b)[i..j] == a[i..j]
  {
  }

  lemma AppendPart(enc: Bytes, o: seq<nat>, n: seq<nat>, w: Bytes)
    requires Contiguous(o, n, |enc|) && |w| > 0
    ensures Contiguous(o + [|enc|], n + [|w|], |enc + w|)
    ensures Parts(enc + w, o + [|enc|], n + [|w|]) == Parts(enc, o, n) + [w]
  {
    var o', n', e' := o + [|enc|], n + [|w|], enc + w;
    forall k: nat | k < |o'| ensures Cut(o', n', |e'|, k) {
      if k < |o| { assert Cut(o, n, |enc|, k); }
    }
    var p', p := Parts(e', o', n'), Parts(enc, o, n);
    forall k | 0 <= k < |o| ensures p'[k] == p[k] {
      SliceBefore(enc, w, o[k], o[k] + n[k]);
    }
    assert p'[|o|] == e'[|enc|..|enc| + |w|] == w;
  }

  lemma NextSymbol(rb: Bytes, i: nat)
    requires i < |rb|
    ensures ByteSymbols(rb[..i + 1]) == ByteSymbols(rb[..i]) + [Enc(rb[i])]
  {
  }

  /** Writes the code of one byte as the next symbol. */
  method EncodeByte(t: Tokenizer, enc: array<byte>, soff: array<nat>, slen: array<nat>, rb: Bytes, i: nat, ne: nat)
    returns (ne': nat)
    requires t.Ready() && i < |rb| && Encoded(enc, soff, slen, rb, i, ne)
    requires 2 * |rb| <= enc.Length && |rb| <= soff.Length && |rb| <= slen.Length
    modifies enc, soff, slen
    ensures Encoded(enc, soff, slen, rb, i + 1, ne')
  {
    hide Tokenizer.Ready, Enc, Contiguous;
    var w := t.ByteCode(rb[i]);
    ghost var e, o, n := enc[..ne], soff[..i], slen[..i];
    AppendPart(e, o, n, w);
    NextSymbol(rb, i);
    soff[i] := ne;
    slen[i] := |w|;
    ne' := ne;
    for j := 0 to |w|
      invariant ne' == ne + j && enc[..ne'] == e + w[..j]
      invariant soff[..i + 1] == o + [ne] && slen[..i + 1] == n + [|w|]
    {
      enc[ne'] := w[j];
      ne' := ne' + 1;
    }
    assert w[..|w|] == w;
  }

  method MergeOnce(enc: array<byte>, soff: array<nat>, slen: array<nat>, ghost ne: nat, ns: nat, bi: nat,
                   ghost syms: seq<Bytes>)
    requires Holds(enc, soff, slen, ne, ns, syms) && bi + 1 < ns
    modifies soff, slen
    ensures |syms| == ns && Holds(enc, soff, slen, ne, ns - 1, Spec.MergeAt(syms, bi))
  {
    hide Holds, Joined, Contiguous;
    HoldsLength(enc, soff, slen, ne, ns, syms);
    HoldsIs(enc, soff, slen, ne, ns, syms);
    ghost var e, o, n := enc[..], soff[..], slen[..];
    assert o[..ns] == soff[..ns] && n[..ns] == slen[..ns];
    MergeShift(soff, slen, ns, bi);
    ShiftHolds(enc, e, o, n, soff, slen, ne, ns, bi, syms);
  }

  /** The merge loop computes the simple form. */
  method MergeAll(t: Tokenizer, enc: array<byte>, soff: array<nat>, slen: array<nat>, ghost ne: nat, ns0: nat,
                  ghost syms0: seq<Bytes>) returns (ns: nat)
    requires t.Ready() && Holds(enc, soff, slen, ne, ns0, syms0) && (t.merge != null || ns0 <= 1)
    modifies soff, slen
    ensures ns <= ns0 && Holds(enc, soff, slen, ne, ns, Spec.Greedy(ByLines(t.lines), syms0))
  {
    hide Tokenizer.Ready, Holds, Spec.Scan, Spec.MergeAt, ByLines;
    ns := ns0;
    ghost var syms, rank := syms0, ByLines(t.lines);
    HoldsLength(enc, soff, slen, ne, ns, syms);
    while ns > 1
      invariant ns <= ns0 && |syms| == ns && Holds(enc, soff, slen, ne, ns, syms)
      invariant Spec.Greedy(rank, syms) == Spec.Greedy(rank, syms0)
    {
      var best, bi := FindBest(t, enc, soff, slen, ne, ns, syms);
      if best < 0 {
        break;
      }
      MergeOnce(enc, soff, slen, ne, ns, bi, syms);
      syms := Spec.MergeAt(syms, bi);
      ns := ns - 1;
    }
  }

  lemma MapExists(t: Tokenizer)
    requires t.Ready()
    ensures t.merge == null <==> t.lines == []
  {
  }

  lemma HoldsIs(enc: array<byte>, soff: array<nat>, slen: array<nat>, ne: nat, ns: nat, syms: seq<Bytes>)
    requires Holds(enc, soff, slen, ne, ns, syms)
    ensures ne <= enc.Length && ns <= soff.Length && ns <= slen.Length
    ensures Contiguous(soff[..][..ns], slen[..][..ns], ne)
    ensures Parts(enc[..][..ne], soff[..][..ns], slen[..][..ns]) == syms
  {
    assert soff[..][..ns] == soff[..ns] && slen[..][..ns] == slen[..ns] && enc[..][..ne] == enc[..ne];
  }

  lemma ShiftHolds(enc: array<byte>, e: Bytes, o: seq<nat>, n: seq<nat>, soff: array<nat>, slen: array<nat>,
                   ne: nat, ns: nat, bi: nat, syms: seq<Bytes>)
    requires e == enc[..] && ne <= |e| && ns <= |o| && ns <= |n| && |o| == soff.Length && |n| == slen.Length
    requires soff != slen && bi + 1 < ns
    requires Contiguous(o[..ns], n[..ns], ne) && Parts(e[..ne], o[..ns], n[..ns]) == syms
    requires Joined(o[..ns], n[..ns], bi, soff[..ns - 1], slen[..ns - 1])
    ensures |syms| == ns
    ensures Holds(enc, soff, slen, ne, ns - 1, Spec.MergeAt(syms, bi))
  {
    JoinedContiguous(o[..ns], n[..ns], ne, bi, soff[..ns - 1], slen[..ns - 1]);
    JoinedParts(e[..ne], o[..ns], n[..ns], bi, soff[..ns - 1], slen[..ns - 1]);
    assert enc[..ne] == e[..ne];
  }

  lemma {:induction false} IdsOfAppend(tok: seq<Bytes>, a: seq<Bytes>, b: seq<Bytes>)
    ensures IdsOf(tok, a + b) == Join(IdsOf(tok, a), IdsOf(tok, b))
  {
    hide SymbolId, Join;
    if a == [] {
      assert a + b == b;
      JoinAssociates(IdsOf(tok, b), Ids([]), Ids([]));
    } else {
      assert (a + b)[1..] == a[1..] + b && (a + b)[0] == a[0];
      IdsOfAppend(tok, a[1..], b);
      JoinAssociates(SymbolId(tok, a[0]), IdsOf(tok, a[1..]), IdsOf(tok, b));
    }
  }

  lemma IdsOfNext(tok: seq<Bytes>, syms: seq<Bytes>, i: nat)
    requires i < |syms|
    ensures IdOf(tok, syms[i]) < 0 && IdsOf(tok, syms[..i]).Ids? ==> IdsOf(tok, syms) == Stopped(NoToken)
    ensures IdOf(tok, syms[i]) >= 0 && IdsOf(tok, syms[..i]).Ids? ==>
              IdsOf(tok, syms[..i + 1]) == Ids(IdsOf(tok, syms[..i]).ids + [IdOf(tok, syms[i])])
  {
    hide IdOf;
    var one: seq<Bytes> := [syms[i]];
    assert one[1..] == [] && IdsOf(tok, one) == Join(SymbolId(tok, one[0]), IdsOf(tok, one[1..]));
    JoinAssociates(SymbolId(tok, syms[i]), Ids([]), Ids([]));
    assert syms[..i + 1] == syms[..i] + one && syms == syms[..i + 1] + syms[i + 1..];
    IdsOfAppend(tok, syms[..i], one);
    IdsOfAppend(tok, syms[..i + 1], syms[i + 1..]);
  }

  /** Final symbols to ids, up to the first that is not a token. */
  method EmitIds(t: Tokenizer, enc: array<byte>, soff: array<nat>, slen: array<nat>, ghost ne: nat, ns: nat,
                 ghost syms: seq<Bytes>, sink: Sink) returns (stop: Option<Stop>)
    requires t.Ready() && Holds(enc, soff, slen, ne, ns, syms) && sink.Valid() && sink.out != t.cpToByte
    modifies sink, sink.out
    ensures t.Ready() && sink.Valid()
    ensures stop == StopOf(IdsOf(t.tok, syms))
    ensures stop == None ==> sink.ids == old(sink.ids) + IdsOf(t.tok, syms).ids
  {
    hide Tokenizer.Ready, Holds, IdOf, Sink.Valid, IdsOf;
    HoldsLength(enc, soff, slen, ne, ns, syms);
    IdsOfNone(t.tok, syms);
    for i := 0 to ns
      invariant t.Ready() && sink.Valid() && Holds(enc, soff, slen, ne, ns, syms)
      invariant IdsOf(t.tok, syms[..i]).Ids?
      invariant sink.ids == old(sink.ids) + IdsOf(t.tok, syms[..i]).ids
    {
      PartsAt(enc, soff, slen, ne, ns, syms, i);
      var id := t.Lookup(enc[soff[i]..soff[i] + slen[i]]);
      IdsOfNext(t.tok, syms, i);
      if id < 0 {
        return Some(NoToken);
      }
      sink.Emit(id);
    }
    assert syms[..ns] == syms;
    return None;
  }

  lemma IdsOfNone(tok: seq<Bytes>, syms: seq<Bytes>)
    ensures IdsOf(tok, syms[..0]) == Ids([])
  {
  }

  lemma NothingEncoded(enc: array<byte>, soff: array<nat>, slen: array<nat>, rb: Bytes)
    requires soff != slen
    ensures Encoded(enc, soff, slen, rb, 0, 0)
  {
  }

  /** bpe_piece, with the caller's scratch arrays. */
  method Piece(t: Tokenizer, rb: Bytes, enc: array<byte>, soff: array<nat>, slen: array<nat>, sink: Sink)
    returns (stop: Option<Stop>)
    requires t.Ready() && sink.Valid() && sink.out != t.cpToByte && soff != slen
    requires 2 * |rb| <= enc.Length && |rb| <= soff.Length && |rb| <= slen.Length
    modifies enc, soff, slen, sink, sink.out
    ensures t.Ready() && sink.Valid()
    ensures stop == StopOf(PieceIds(t.tok, t.lines, rb))
    ensures stop == None ==> sink.ids == old(sink.ids) + PieceIds(t.tok, t.lines, rb).ids
  {
    hide Tokenizer.Ready, Holds, Encoded, IdsOf, IdOf, ByLines, Spec.Greedy, Sink.Valid, ByteSymbols;
    var ne := 0;
    NothingEncoded(enc, soff, slen, rb);
    for i := 0 to |rb|
      invariant t.Ready() && sink.Valid() && sink.ids == old(sink.ids)
      invariant Encoded(enc, soff, slen, rb, i, ne)
    {
      ne := EncodeByte(t, enc, soff, slen, rb, i, ne);
    }
    AllEncoded(enc, soff, slen, rb, ne);
    MapExists(t);
    if |rb| > 1 && t.merge == null {
      return Some(NullMap);  // the merge loop's first lookup
    }
    var ns := MergeAll(t, enc, soff, slen, ne, |rb|, ByteSymbols(rb));
    stop := EmitIds(t, enc, soff, slen, ne, ns, Spec.Greedy(ByLines(t.lines), ByteSymbols(rb)), sink);
  }

  lemma AllEncoded(enc: array<byte>, soff: array<nat>, slen: array<nat>, rb: Bytes, ne: nat)
    requires Encoded(enc, soff, slen, rb, |rb|, ne)
    ensures Holds(enc, soff, slen, ne, |rb|, ByteSymbols(rb))
  {
    assert rb[..|rb|] == rb;
  }
}
