/** Ids of a list of final symbols, shared by the gemma4 and SPM lanes. */
module TokenIds {
  import opened Basics
  import opened Vocab

  /** Byte fallback: one byte token per byte. */
  function FallbackIds(tok: seq<Bytes>, w: Bytes): (ids: seq<int>)
    ensures |ids| == |w| && forall i :: 0 <= i < |w| ==> ids[i] == IdOf(tok, ByteName(w[i]))
  {
    seq(|w|, i requires 0 <= i < |w| => IdOf(tok, ByteName(w[i])))
  }

  lemma FallbackNext(tok: seq<Bytes>, w: Bytes, b: nat)
    requires b < |w|
    ensures FallbackIds(tok, w[..b + 1]) == FallbackIds(tok, w[..b]) + [IdOf(tok, ByteName(w[b]))]
  {
    hide IdOf, ByteName;
  }

  lemma FallbackNone(tok: seq<Bytes>, w: Bytes)
    ensures FallbackIds(tok, w[..0]) == [] && w[..|w|] == w
  {
  }

  /** Ids of one final symbol: its own, or its bytes' tokens. */
  function SymbolIds(tok: seq<Bytes>, w: Bytes): seq<int> {
    if IdOf(tok, w) >= 0 then [IdOf(tok, w)] else FallbackIds(tok, w)
  }

  /** A symbol that is a token gives one id, the lowest with that text; any other gives one byte token per byte. */
  lemma SymbolIdsLaw(tok: seq<Bytes>, w: Bytes)
    ensures w in tok ==>
              exists id :: 0 <= id < |tok| && SymbolIds(tok, w) == [id] && tok[id] == w && w !in tok[..id]
    ensures w !in tok ==>
              var ids := SymbolIds(tok, w);
              |ids| == |w| && forall i :: 0 <= i < |w| ==> ids[i] == IdOf(tok, ByteName(w[i]))
  {
    if w in tok {
      var id := IdOf(tok, w);
      assert 0 <= id < |tok| && SymbolIds(tok, w) == [id] && tok[id] == w && w !in tok[..id];
    }
  }

  lemma SymbolIdsIs(tok: seq<Bytes>, w: Bytes)
    ensures IdOf(tok, w) >= 0 ==> SymbolIds(tok, w) == [IdOf(tok, w)]
    ensures IdOf(tok, w) < 0 ==> SymbolIds(tok, w) == FallbackIds(tok, w)
  {
  }

  function AllIds(tok: seq<Bytes>, syms: seq<Bytes>): seq<int> {
    if syms == [] then [] else SymbolIds(tok, syms[0]) + AllIds(tok, syms[1..])
  }

  lemma AllIdsAppend(tok: seq<Bytes>, a: seq<Bytes>, b: seq<Bytes>)
    ensures AllIds(tok, a + b) == AllIds(tok, a) + AllIds(tok, b)
  {
    if a == [] {
      assert a + b == b;
    } else {
      assert (a + b)[1..] == a[1..] + b;
    }
  }

  lemma AllIdsNone(tok: seq<Bytes>, texts: seq<Bytes>)
    ensures AllIds(tok, texts[..0]) == []
  {
  }

  lemma AllIdsNext(tok: seq<Bytes>, texts: seq<Bytes>, k: nat)
    requires k < |texts|
    ensures AllIds(tok, texts[..k + 1]) == AllIds(tok, texts[..k]) + SymbolIds(tok, texts[k])
  {
    var last: seq<Bytes> := [texts[k]];
    assert texts[..k + 1] == texts[..k] + last;
    AllIdsAppend(tok, texts[..k], last);
    assert AllIds(tok, last[1..]) == [];
  }
}
