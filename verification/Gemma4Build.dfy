/** sp_g4_build: the id-keyed merge tables of the gemma4 lane, and what they mean in terms of strings. */
module Gemma4Build {
  import opened Basics
  import opened OpenAddressing
  import opened Vocab

  /** Immutable view of the tables: vocabulary, merge lines, pair map, result ids, byte-token ids. */
  datatype Tables = Tables(tok: seq<Bytes>, merges: seq<Bytes>, pm: map<int, int>,
                           result: seq<int>, byteTok: seq<int>)

  /** g4_pair_rank seen from g4_try_pair: symbols outside the vocabulary have id -1 and no rank. */
  function IdRank(pm: map<int, int>, l: int, r: int): int {
    if 0 <= l < 0x8000_0000 && 0 <= r < 0x8000_0000 && PairKey(l, r) in pm then pm[PairKey(l, r)] else -1
  }

  /** A merge line the id-keyed tables can represent. */
  predicate LineOk(tok: seq<Bytes>, line: Bytes) {
    match Split(line)
    case None => true
    case Some(p) => p.0 in tok && p.1 in tok && p.0 + p.1 in tok
  }

  /** When sp_g4_build returns success. */
  ghost predicate Accepts(tok: seq<Bytes>, merges: seq<Bytes>) {
    && 0 < |merges| <= 0x7FFF_FFFF
    && (forall i :: 0 <= i < |merges| ==> LineOk(tok, merges[i]))
    && (forall b: byte :: ByteName(b) in tok)
  }

  /** The id-keyed tables answer what the string-keyed merge list answers, for all strings. */
  ghost predicate PairsAgree(tok: seq<Bytes>, merges: seq<Bytes>, n: nat, pm: map<int, int>)
    requires n <= |merges|
  {
    && (forall k :: k in pm ==> pm[k] >= 0)
    && forall a: Bytes, b: Bytes {:trigger RankUpTo(merges, a, b, n)} ::
         IdRank(pm, IdOf(tok, a), IdOf(tok, b)) == RankUpTo(merges, a, b, n)
  }

  ghost predicate ResultsAgree(tok: seq<Bytes>, merges: seq<Bytes>, n: nat, result: seq<int>)
    requires n <= |merges| && n <= |result|
  {
    forall i :: 0 <= i < n && Split(merges[i]).Some? ==>
      result[i] == IdOf(tok, Split(merges[i]).value.0 + Split(merges[i]).value.1)
  }

  ghost predicate Good(t: Tables) {
    && |t.tok| < 0x8000_0000
    && |t.result| == |t.merges| && |t.byteTok| == 256
    && PairsAgree(t.tok, t.merges, |t.merges|, t.pm)
    && ResultsAgree(t.tok, t.merges, |t.merges|, t.result)
    && Accepts(t.tok, t.merges)
    && (forall b: byte :: t.byteTok[b] == IdOf(t.tok, ByteName(b)))
  }

  /** Recording one more line keeps the agreement: ids stand for strings one to one. */
  lemma RecordLine(tok: seq<Bytes>, merges: seq<Bytes>, n: nat, pm: map<int, int>, a: Bytes, b: Bytes)
    requires |tok| < 0x8000_0000 && n < |merges| && PairsAgree(tok, merges, n, pm)
    requires Split(merges[n]) == Some((a, b)) && a in tok && b in tok
    ensures PairsAgree(tok, merges, n + 1, PutFirst(pm, PairKey(IdOf(tok, a), IdOf(tok, b)), n))
  {
    hide IdOf, Split, PairKey;
    var la, lb := IdOf(tok, a), IdOf(tok, b);
    var pm' := PutFirst(pm, PairKey(la, lb), n);
    assert IdRank(pm, la, lb) == RankUpTo(merges, a, b, n);
    forall x: Bytes, y: Bytes
      ensures IdRank(pm', IdOf(tok, x), IdOf(tok, y)) == RankUpTo(merges, x, y, n + 1)
    {
      var lx, ly := IdOf(tok, x), IdOf(tok, y);
      assert IdRank(pm, lx, ly) == RankUpTo(merges, x, y, n);
      if x == a && y == b {
      } else if lx >= 0 && ly >= 0 && PairKey(lx, ly) == PairKey(la, lb) {
        PairKeyInjective(lx, ly, la, lb);
        assert false;
      } else {
        assert Split(merges[n]) != Some((x, y));
      }
    }
  }

  lemma SkipLine(tok: seq<Bytes>, merges: seq<Bytes>, n: nat, pm: map<int, int>)
    requires n < |merges| && PairsAgree(tok, merges, n, pm) && Split(merges[n]) == None
    ensures PairsAgree(tok, merges, n + 1, pm)
  {
    forall x: Bytes, y: Bytes
      ensures IdRank(pm, IdOf(tok, x), IdOf(tok, y)) == RankUpTo(merges, x, y, n + 1)
    {
      assert IdRank(pm, IdOf(tok, x), IdOf(tok, y)) == RankUpTo(merges, x, y, n);
    }
  }

  ghost predicate VocabReady(vocab: ByteMap, tok: seq<Bytes>)
    reads vocab, vocab.e
  {
    && |tok| < 0x8000_0000
    && Serves(vocab, tok)
  }

  datatype Resolved = HardError | Inert | Merge(lid: nat, rid: nat, res: nat)

  /** What sp_g4_build makes of one merge line. */
  function Resolve(tok: seq<Bytes>, line: Bytes): Resolved {
    match Split(line)
    case None => Inert
    case Some(p) =>
      if LineOk(tok, line) then Merge(IdOf(tok, p.0), IdOf(tok, p.1), IdOf(tok, p.0 + p.1)) else HardError
  }

  method ResolveLine(vocab: ByteMap, tok: seq<Bytes>, line: Bytes) returns (r: Resolved)
    requires VocabReady(vocab, tok)
    ensures r == Resolve(tok, line)
  {
    var sp := Split(line);
    if sp == None {
      return Inert;
    }
    var (a, b) := sp.value;
    var lid := Lookup(vocab, tok, a);
    var rid := Lookup(vocab, tok, b);
    if lid < 0 || rid < 0 {
      return HardError;
    }
    var res := Lookup(vocab, tok, a + b);
    if res < 0 {
      return HardError;
    }
    return Merge(lid, rid, res);
  }

  /** Effect of one resolved line on the tables. */
  lemma Recorded(tok: seq<Bytes>, merges: seq<Bytes>, n: nat, pm: map<int, int>, result: seq<int>, res: int)
    requires |tok| < 0x8000_0000 && n < |merges| == |result| && Resolve(tok, merges[n]) != HardError
    requires PairsAgree(tok, merges, n, pm) && ResultsAgree(tok, merges, n, result)
    requires Resolve(tok, merges[n]).Merge? ==> res == Resolve(tok, merges[n]).res
    ensures var r := Resolve(tok, merges[n]);
            && PairsAgree(tok, merges, n + 1, if r.Merge? then PutFirst(pm, PairKey(r.lid, r.rid), n) else pm)
            && ResultsAgree(tok, merges, n + 1, result[n := res])
  {
    var sp := Split(merges[n]);
    if sp == None {
      SkipLine(tok, merges, n, pm);
    } else {
      RecordLine(tok, merges, n, pm, sp.value.0, sp.value.1);
    }
  }

  lemma NothingRecorded(tok: seq<Bytes>, merges: seq<Bytes>, result: seq<int>)
    requires |result| == |merges|
    ensures PairsAgree(tok, merges, 0, map[]) && ResultsAgree(tok, merges, 0, result)
  {
  }

  lemma ResolveMeans(tok: seq<Bytes>, line: Bytes)
    requires |tok| < 0x8000_0000
    ensures Resolve(tok, line) == HardError <==> !LineOk(tok, line)
    ensures var r := Resolve(tok, line); r.Merge? ==> r.lid < 0x8000_0000 && r.rid < 0x8000_0000
  {
  }

  /** The tables after the first n merge lines. */
  ghost predicate Recording(tok: seq<Bytes>, merges: seq<Bytes>, n: nat, p: PairTable, r: array<int>)
    reads p, p.pairkey, p.pairrank, r
  {
    && n <= |merges| == r.Length < p.pairkey.Length
    && p.Valid() && |p.M| <= n && p.pairkey != r && p.pairrank != r
    && PairsAgree(tok, merges, n, p.M) && ResultsAgree(tok, merges, n, r[..])
  }

  lemma RecordingParts(tok: seq<Bytes>, merges: seq<Bytes>, n: nat, p: PairTable, r: array<int>)
    ensures Recording(tok, merges, n, p, r) <==>
              && n <= |merges| == r.Length < p.pairkey.Length
              && p.Valid() && |p.M| <= n && p.pairkey != r && p.pairrank != r
              && PairsAgree(tok, merges, n, p.M) && ResultsAgree(tok, merges, n, r[..])
  {
    hide PairTable.Valid, PairsAgree, ResultsAgree;
  }

  /** The writes for merge line n. */
  method WriteLine(tok: seq<Bytes>, merges: seq<Bytes>, n: nat, line: Resolved, p: PairTable, r: array<int>)
    requires |tok| < 0x8000_0000 && n < |merges| && line == Resolve(tok, merges[n]) != HardError
    requires Recording(tok, merges, n, p, r)
    modifies p`M, p`pos, p`cells, p.pairkey, p.pairrank, r
    ensures Recording(tok, merges, n + 1, p, r)
  {
    hide *;
    RecordingParts(tok, merges, n, p, r);
    ResolveMeans(tok, merges[n]);
    var res := if line.Merge? then line.res else -1;
    Recorded(tok, merges, n, p.M, r[..], res);
    ghost var was := r[..];
    r[n] := res;
    assert r[..] == was[n := res];
    if line.Merge? {
      p.Put(PairKey(line.lid, line.rid), n);
      PutGrows(old(p.M), PairKey(line.lid, line.rid), n);
    }
    RecordingParts(tok, merges, n + 1, p, r);
  }

  lemma PutGrows<K, V>(m: map<K, V>, k: K, v: V)
    ensures |PutFirst(m, k, v)| <= |m| + 1
  {
  }

  /** The merge-table part of sp_g4_build. */
  method BuildPairs(vocab: ByteMap, tok: seq<Bytes>, merges: seq<Bytes>, hash64: int -> nat)
    returns (ok: bool, p: PairTable, r: array<int>)
    requires VocabReady(vocab, tok) && |tok| < 0x8000_0000 && |merges| <= 0x7FFF_FFFF
    ensures ok <==> forall i :: 0 <= i < |merges| ==> LineOk(tok, merges[i])
    ensures p.Valid() && |p.M| < p.pairkey.Length && r.Length == |merges|
    ensures ok ==> PairsAgree(tok, merges, |merges|, p.M) && ResultsAgree(tok, merges, |merges|, r[..])
    ensures fresh(p) && fresh(p.pairkey) && fresh(p.pairrank) && fresh(r)
  {
    hide *;
    p := new PairTable(|merges|, hash64);
    r := new int[|merges|];
    NothingRecorded(tok, merges, r[..]);
    RecordingParts(tok, merges, 0, p, r);
    for i := 0 to |merges|
      invariant fresh(p) && fresh(p.pairkey) && fresh(p.pairrank) && Recording(tok, merges, i, p, r)
      invariant forall j :: 0 <= j < i ==> LineOk(tok, merges[j])
    {
      var line := ResolveLine(vocab, tok, merges[i]);
      ResolveMeans(tok, merges[i]);
      if line == HardError {
        assert !LineOk(tok, merges[i]);
        RecordingParts(tok, merges, i, p, r);
        return false, p, r;
      }
      assert LineOk(tok, merges[i]);
      WriteLine(tok, merges, i, line, p, r);
    }
    RecordingParts(tok, merges, |merges|, p, r);
    return true, p, r;
  }

  /** The gemma4 fields of sp_tokenizer; nothing here changes once sp_g4_build has succeeded. */
  class Tokenizer {
    const tok: seq<Bytes>
    const vocab: ByteMap
    const pairs: PairTable
    const result: array<int>
    const byteTok: array<int>
    ghost const merges: seq<Bytes>

    ghost function Repr(): set<object>
      reads vocab, pairs
    {
      {this, vocab, vocab.e, pairs, pairs.pairkey, pairs.pairrank, result, byteTok}
    }

    lemma ReprIs()
      ensures Repr() == {this, vocab, vocab.e, pairs, pairs.pairkey, pairs.pairrank, result, byteTok}
    {
    }

    ghost function View(): Tables
      reads pairs, result, byteTok
    {
      Tables(tok, merges, pairs.M, result[..], byteTok[..])
    }

    ghost predicate Ready()
      reads vocab, vocab.e, pairs, pairs.pairkey, pairs.pairrank, result, byteTok
    {
      && VocabReady(vocab, tok)
      && pairs.Valid() && |pairs.M| < pairs.pairkey.Length
      && Good(View())
    }

    /** sp_tok_vocab_lookup. */
    method Lookup(w: Bytes) returns (id: int)
      requires Ready()
      ensures id == IdOf(tok, w)
    {
      id := Vocab.Lookup(vocab, tok, w);
    }

    /** g4_pair_rank on the ids of two symbols. */
    method PairRank(l: nat, r: nat) returns (rank: int)
      requires Ready() && l < 0x8000_0000 && r < 0x8000_0000
      ensures rank == IdRank(View().pm, l, r)
    {
      rank := pairs.Rank(l, r);
    }

    /** g4_result. */
    method Result(rank: nat) returns (id: int)
      requires Ready() && rank < |View().result|
      ensures id == View().result[rank]
    {
      id := result[rank];
    }

    /** The id of a byte token. */
    method ByteToken(b: byte) returns (id: int)
      requires Ready()
      ensures id == IdOf(tok, ByteName(b))
    {
      hide IdOf, ByteName, PairsAgree, ResultsAgree, Accepts, VocabReady;
      id := byteTok[b];
    }

    /** The caller's output buffer is none of the tokenizer's own arrays. */
    ghost predicate Outside(out: array<int>)
      reads pairs
    {
      out != pairs.pairkey && out != pairs.pairrank && out != result && out != byteTok
    }

    constructor (tok: seq<Bytes>, ghost merges: seq<Bytes>, vocab: ByteMap, pairs: PairTable,
                 result: array<int>, byteTok: array<int>)
      requires VocabReady(vocab, tok)
      requires pairs.Valid() && |pairs.M| < pairs.pairkey.Length
      requires Good(Tables(tok, merges, pairs.M, result[..], byteTok[..]))
      ensures Ready() && this.tok == tok && this.merges == merges && this.vocab == vocab
      ensures this.pairs == pairs && this.result == result && this.byteTok == byteTok
    {
      this.tok, this.merges, this.vocab, this.pairs := tok, merges, vocab, pairs;
      this.result, this.byteTok := result, byteTok;
    }
  }

  /** Vocabulary map plus sp_g4_build: a tokenizer exactly when the merge list and the byte tokens can be
      represented by ids, and then one whose tables mean what the merge strings mean. */
  method Build(tok: seq<Bytes>, merges: seq<Bytes>, hash: Bytes -> nat, hash64: int -> nat)
    returns (t: Tokenizer?)
    requires |tok| < 0x8000_0000
    ensures t != null <==> Accepts(tok, merges)
    ensures t != null ==> t.Ready() && t.tok == tok && t.merges == merges && fresh(t) && fresh(t.Repr())
  {
    hide *;
    AcceptsParts(tok, merges);
    if |merges| == 0 || |merges| > 0x7FFF_FFFF {
      return null;
    }
    var vocab := BuildVocab(tok, hash);
    VocabIsReady(vocab, tok);
    var ok, p, r := BuildPairs(vocab, tok, merges, hash64);
    if !ok {
      return null;
    }
    var bok, bt := BuildByteTok(vocab, tok);
    if !bok {
      return null;
    }
    GoodParts(tok, merges, p.M, r[..], bt[..]);
    t := new Tokenizer(tok, merges, vocab, p, r, bt);
    t.ReprIs();
  }

  lemma AcceptsParts(tok: seq<Bytes>, merges: seq<Bytes>)
    ensures Accepts(tok, merges) <==>
              && 0 < |merges| <= 0x7FFF_FFFF
              && (forall i :: 0 <= i < |merges| ==> LineOk(tok, merges[i]))
              && (forall b: byte :: ByteName(b) in tok)
  {
    hide LineOk, ByteName;
  }

  lemma VocabIsReady(vocab: ByteMap, tok: seq<Bytes>)
    requires |tok| < 0x8000_0000
    requires Serves(vocab, tok)
    ensures VocabReady(vocab, tok) && |tok| < 0x8000_0000
  {
  }

  lemma GoodParts(tok: seq<Bytes>, merges: seq<Bytes>, pm: map<int, int>, result: seq<int>, byteTok: seq<int>)
    requires |tok| < 0x8000_0000 && |result| == |merges| && |byteTok| == 256 && Accepts(tok, merges)
    requires PairsAgree(tok, merges, |merges|, pm) && ResultsAgree(tok, merges, |merges|, result)
    requires forall b: byte :: byteTok[b] == IdOf(tok, ByteName(b))
    ensures Good(Tables(tok, merges, pm, result, byteTok))
  {
    hide PairsAgree, ResultsAgree, Accepts, IdOf, ByteName;
  }
}
