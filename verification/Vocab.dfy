/** Vocabulary and merge-line lookups as the encoders see them: first occurrence wins. */
module Vocab {
  import opened Basics
  import opened OpenAddressing
  import Spec = GreedyBpe

  /** The lowest id below n whose token is w, or -1. */
  function IdUpTo(tok: seq<Bytes>, w: Bytes, n: nat): (id: int)
    requires n <= |tok|
    ensures -1 <= id < n
    ensures id == -1 ==> forall j :: 0 <= j < n ==> tok[j] != w
    ensures id >= 0 ==> tok[id] == w && forall j :: 0 <= j < id ==> tok[j] != w
  {
    if n == 0 then -1 else
      var id := IdUpTo(tok, w, n - 1);
      if id >= 0 then id else if tok[n - 1] == w then n - 1 else -1
  }

  /** sp_tok_vocab_lookup. */
  function IdOf(tok: seq<Bytes>, w: Bytes): (id: int)
    ensures -1 <= id < |tok|
    ensures id == -1 <==> w !in tok
    ensures id >= 0 ==> tok[id] == w
  {
    IdUpTo(tok, w, |tok|)
  }

  /** Two strings with the same id are the same string. */
  lemma IdInjective(tok: seq<Bytes>, a: Bytes, b: Bytes)
    requires IdOf(tok, a) >= 0 && IdOf(tok, a) == IdOf(tok, b)
    ensures a == b
  {
  }

  ghost predicate MapsTo(m: map<Bytes, int>, tok: seq<Bytes>, n: nat)
    requires n <= |tok|
  {
    && (forall w :: w in m <==> IdUpTo(tok, w, n) >= 0)
    && (forall w :: w in m ==> m[w] == IdUpTo(tok, w, n))
  }

  lemma MapsNone(tok: seq<Bytes>)
    ensures MapsTo(map[], tok, 0)
  {
  }

  lemma MapsNext(m: map<Bytes, int>, tok: seq<Bytes>, n: nat)
    requires n < |tok| && MapsTo(m, tok, n)
    ensures MapsTo(PutFirst(m, tok[n], n), tok, n + 1) && |PutFirst(m, tok[n], n)| <= |m| + 1
  {
    var m' := PutFirst(m, tok[n], n);
    forall w: Bytes
      ensures (w in m' <==> IdUpTo(tok, w, n + 1) >= 0) && (w in m' ==> m'[w] == IdUpTo(tok, w, n + 1))
    {
      var id := IdUpTo(tok, w, n);
      assert IdUpTo(tok, w, n + 1) == if id >= 0 then id else if tok[n] == w then n else -1;
    }
  }

  lemma ServesIs(vocab: ByteMap, tok: seq<Bytes>)
    requires vocab.Valid() && MapsTo(vocab.M, tok, |tok|) && |vocab.M| < vocab.e.Length
    ensures Serves(vocab, tok)
  {
  }

  /** The loaders' vocab loop: the map answers exactly IdOf. */
  method BuildVocab(tok: seq<Bytes>, hash: Bytes -> nat) returns (vocab: ByteMap)
    ensures fresh(vocab) && fresh(vocab.e)
    ensures Serves(vocab, tok)
  {
    hide *;
    vocab := new ByteMap(|tok|, hash);
    MapsNone(tok);
    for i := 0 to |tok|
      invariant vocab.Valid() && fresh(vocab) && fresh(vocab.e)
      invariant MapsTo(vocab.M, tok, i) && |vocab.M| <= i && |tok| < vocab.e.Length
    {
      MapsNext(vocab.M, tok, i);
      vocab.Put(tok[i], i);
    }
    ServesIs(vocab, tok);
  }

  /** vocab answers lookups for the token list tok. */
  ghost predicate Serves(vocab: ByteMap, tok: seq<Bytes>)
    reads vocab, vocab.e
  {
    vocab.Valid() && MapsTo(vocab.M, tok, |tok|) && |vocab.M| < vocab.e.Length
  }

  method Lookup(vocab: ByteMap, ghost tok: seq<Bytes>, w: Bytes) returns (id: int)
    requires Serves(vocab, tok)
    ensures id == IdOf(tok, w)
  {
    id := vocab.Get(w, -1);
  }

  const SPACE: byte := 0x20

  /** First space at index k or later; |line| when there is none. */
  function SpaceFrom(line: Bytes, k: nat): (r: nat)
    requires k <= |line|
    ensures k <= r <= |line|
    ensures forall j :: k <= j < r ==> line[j] != SPACE
    ensures r < |line| ==> line[r] == SPACE
    decreases |line| - k
  {
    if k == |line| || line[k] == SPACE then k else SpaceFrom(line, k + 1)
  }

  /** A merge line "LEFT RIGHT", split at the first space at index 1 or later. A line without a
      usable separator is inert. */
  function Split(line: Bytes): (r: Option<(Bytes, Bytes)>)
    ensures r.Some? ==> r.value.0 != [] && r.value.1 != [] && line == r.value.0 + [SPACE] + r.value.1
  {
    if |line| == 0 then None else
      var sp := SpaceFrom(line, 1);
      if sp + 1 >= |line| then None else Some((line[..sp], line[sp + 1..]))
  }

  /** The separator is the first space that is not the line's first byte, and both sides are non-empty. */
  lemma SplitIff(line: Bytes, a: Bytes, b: Bytes)
    ensures Split(line) == Some((a, b)) <==>
            a != [] && b != [] && line == a + [0x20] + b && forall i :: 1 <= i < |a| ==> a[i] != 0x20
  {
    if line == a + [0x20] + b && a != [] {
      assert line[|a|] == 0x20 && line[..|a|] == a && line[|a| + 1..] == b;
      assert forall i :: 0 <= i < |a| ==> line[i] == a[i];
    }
  }

  /** Rank of the pair (a, b) among the first n merge lines: the first line that names it, or -1. */
  function RankUpTo(merges: seq<Bytes>, a: Bytes, b: Bytes, n: nat): (r: int)
    requires n <= |merges|
    ensures -1 <= r < n
    ensures r == -1 ==> forall j :: 0 <= j < n ==> Split(merges[j]) != Some((a, b))
    ensures r >= 0 ==> Split(merges[r]) == Some((a, b)) &&
                       forall j :: 0 <= j < r ==> Split(merges[j]) != Some((a, b))
  {
    if n == 0 then -1 else
      var r := RankUpTo(merges, a, b, n - 1);
      if r >= 0 then r else if Split(merges[n - 1]) == Some((a, b)) then n - 1 else -1
  }

  function MergeRank(merges: seq<Bytes>, a: Bytes, b: Bytes): (r: int)
    ensures -1 <= r < |merges|
  {
    RankUpTo(merges, a, b, |merges|)
  }

  /** Merge ranks as a greedy-BPE ranking. */
  function ByMerges(merges: seq<Bytes>): (Bytes, Bytes) -> Option<real> {
    (a, b) => var r := MergeRank(merges, a, b); if r < 0 then None else Some(r as real)
  }

  /** Merge line r names the neighbours at i. */
  predicate Names(merges: seq<Bytes>, r: nat, syms: seq<Bytes>, i: nat)
    requires r < |merges| && i + 1 < |syms|
  {
    Split(merges[r]) == Some((syms[i], syms[i + 1]))
  }

  lemma RankOfLine(merges: seq<Bytes>, a: Bytes, b: Bytes, r: nat)
    requires r < |merges| && forall j :: 0 <= j < r ==> Split(merges[j]) != Some((a, b))
    ensures Split(merges[r]) == Some((a, b)) ==> ByMerges(merges)(a, b) == Some(r as real)
    ensures var p := ByMerges(merges)(a, b); Split(merges[r]) != Some((a, b)) && p.Some? ==> p.value > r as real
  {
    hide Split;
  }

  /** Merging by merge lines takes the earliest line that names some neighbours, and the leftmost it names. */
  lemma EarliestLineFirst(merges: seq<Bytes>, syms: seq<Bytes>, r: nat, k: nat)
    requires r < |merges| && k + 1 < |syms| && Names(merges, r, syms, k)
    requires forall j: nat, i: nat :: j < r && i + 1 < |syms| ==> !Names(merges, j, syms, i)
    requires forall i: nat :: i < k ==> !Names(merges, r, syms, i)
    ensures Spec.Greedy(ByMerges(merges), syms) ==
            Spec.Greedy(ByMerges(merges), syms[..k] + [syms[k] + syms[k + 1]] + syms[k + 2..])
  {
    hide Split, Spec.Greedy, MergeRank, ByMerges;
    var rank := ByMerges(merges);
    forall i: nat | i + 1 < |syms|
      ensures Names(merges, r, syms, i) ==> rank(syms[i], syms[i + 1]) == Some(r as real)
      ensures rank(syms[i], syms[i + 1]).Some? && !Names(merges, r, syms, i) ==>
                rank(syms[i], syms[i + 1]).value > r as real
    {
      forall j | 0 <= j < r ensures Split(merges[j]) != Some((syms[i], syms[i + 1])) {
        assert !Names(merges, j, syms, i);
      }
      RankOfLine(merges, syms[i], syms[i + 1], r);
    }
    Spec.GreedyNext(rank, syms, k, r as real);
  }

  lemma Unnamed(merges: seq<Bytes>, a: Bytes, b: Bytes)
    requires forall j :: 0 <= j < |merges| ==> Split(merges[j]) != Some((a, b))
    ensures ByMerges(merges)(a, b) == None
  {
    hide Split;
  }

  /** And it stops when no line names any neighbours. */
  lemma NoLineLeft(merges: seq<Bytes>, syms: seq<Bytes>)
    requires forall j: nat, i: nat :: j < |merges| && i + 1 < |syms| ==> !Names(merges, j, syms, i)
    ensures Spec.Greedy(ByMerges(merges), syms) == syms
  {
    hide Split, Spec.Greedy, ByMerges, MergeRank;
    forall i: nat | i + 1 < |syms| ensures Spec.PairRank(ByMerges(merges), syms, i).None? {
      forall j | 0 <= j < |merges| ensures Split(merges[j]) != Some((syms[i], syms[i + 1])) {
        assert !Names(merges, j, syms, i);
      }
      Unnamed(merges, syms[i], syms[i + 1]);
    }
    Spec.GreedyDone(ByMerges(merges), syms);
  }

  function HexDigit(d: nat): (c: byte)
    requires d < 16
  {
    if d < 10 then 0x30 + d else 0x41 + d - 10
  }

  /** The byte token "<0xNN>", upper-case hex. */
  function ByteName(b: byte): (w: Bytes)
    ensures |w| == 6
  {
    [0x3C, 0x30, 0x78, HexDigit(b / 16), HexDigit(b % 16), 0x3E]
  }

  /** Upper-case hex between "<0x" and ">". */
  lemma ByteNameIs(b: byte)
    ensures ByteName(b)[..3] == [0x3C, 0x30, 0x78] && ByteName(b)[5] == 0x3E
    ensures ByteName(b)[3] == "0123456789ABCDEF"[b / 16] as int && ByteName(b)[4] == "0123456789ABCDEF"[b % 16] as int
  {
    HexDigitIs(b / 16);
    HexDigitIs(b % 16);
    hide HexDigit;
  }

  lemma HexDigitIs(d: nat)
    requires d < 16
    ensures HexDigit(d) == "0123456789ABCDEF"[d] as int
  {
  }

  /** The byte-fallback table of the gemma4 and SPM lanes: all 256 byte tokens must resolve. */
  method BuildByteTok(vocab: ByteMap, tok: seq<Bytes>) returns (ok: bool, bt: array<int>)
    requires Serves(vocab, tok)
    ensures ok <==> forall b: byte :: ByteName(b) in tok
    ensures bt.Length == 256 && fresh(bt)
    ensures ok ==> forall b: byte :: bt[b] == IdOf(tok, ByteName(b))
  {
    hide ByteName, IdOf, Serves;
    bt := new int[256];
    for i := 0 to 256
      invariant forall c: byte :: c < i ==> ByteName(c) in tok && bt[c] == IdOf(tok, ByteName(c))
    {
      var b: byte := i;
      var id := Lookup(vocab, tok, ByteName(b));
      if id < 0 {
        return false, bt;
      }
      bt[b] := id;
    }
    return true, bt;
  }
}
