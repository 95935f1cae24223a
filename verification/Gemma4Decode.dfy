/** sp_g4_decode: byte tokens reassembled, U+2581 read back as a space, special ids skipped. */
module Gemma4Decode {
  import opened Basics
  import opened Escaping
  import opened Sinks
  import opened Gemma4Text

  /** Value of a hex digit in either case, -1 for anything else. */
  function Hex(c: byte): (d: int)
    ensures -1 <= d < 16
  {
    if 0x30 <= c <= 0x39 then c as int - 0x30
    else if 0x41 <= c <= 0x46 then c as int - 0x41 + 10
    else if 0x61 <= c <= 0x66 then c as int - 0x61 + 10
    else -1
  }

  /** The byte a token of the form <0xNN> stands for. */
  function ByteToken(w: Bytes): (b: Option<byte>) {
    if |w| == 6 && w[0] == 0x3C && w[1] == 0x30 && w[2] == 0x78 && w[5] == 0x3E && Hex(w[3]) >= 0 && Hex(w[4]) >= 0
    then Some(Hex(w[3]) * 16 + Hex(w[4])) else None
  }

  /** c is a hex digit of value d, upper or lower case. */
  predicate IsDigit(c: byte, d: int) {
    0 <= d < 16 && (c == "0123456789ABCDEF"[d] as int || c == "0123456789abcdef"[d] as int)
  }

  lemma HexIff(c: byte, d: int)
    ensures d >= 0 && Hex(c) == d <==> IsDigit(c, d)
  {
  }

  /** The byte tokens are "<0x", two hex digits in either case, ">", and nothing else is one. */
  lemma ByteTokenIff(w: Bytes, b: byte)
    ensures ByteToken(w) == Some(b) <==>
            |w| == 6 && w[..3] == [0x3C, 0x30, 0x78] && w[5] == 0x3E &&
            IsDigit(w[3], b / 16) && IsDigit(w[4], b % 16)
  {
    if |w| == 6 {
      HexIff(w[3], b / 16);
      HexIff(w[4], b % 16);
      hide Hex, IsDigit;
      assert w[..3] == [w[0], w[1], w[2]];
    }
  }

  predicate MetaspaceAt(w: Bytes, i: nat) {
    i + 2 < |w| && w[i] == 0xE2 && w[i + 1] == 0x96 && w[i + 2] == 0x81
  }

  /** Every U+2581, found left to right, becomes a space. */
  function Unescape(w: Bytes): Bytes
    decreases |w|
  {
    if w == [] then []
    else if MetaspaceAt(w, 0) then [SP] + Unescape(w[3..])
    else [w[0]] + Unescape(w[1..])
  }

  function TokenText(w: Bytes): Bytes {
    match ByteToken(w)
    case Some(b) => [b]
    case None => Unescape(w)
  }

  predicate Skips(marks: Marks, id: int) {
    id == marks.bos || id == marks.eos || id == marks.pad || id == marks.unk
  }

  /** Text of one id. */
  function IdText(tok: seq<Bytes>, marks: Marks, id: int): Bytes {
    if 0 <= id < |tok| && !Skips(marks, id) then TokenText(tok[id]) else []
  }

  function DecodeIds(tok: seq<Bytes>, marks: Marks, ids: seq<int>): Bytes {
    if ids == [] then [] else IdText(tok, marks, ids[0]) + DecodeIds(tok, marks, ids[1..])
  }

  lemma DecodeOne(tok: seq<Bytes>, marks: Marks, id: int)
    ensures DecodeIds(tok, marks, [id]) == IdText(tok, marks, id)
  {
    var one := [id];
    hide IdText;
    assert one[1..] == [] && DecodeIds(tok, marks, one) == IdText(tok, marks, one[0]) + DecodeIds(tok, marks, one[1..]);
  }

  /** The four special ids, and ids that are no token, decode to nothing; every other id to its token's text. */
  lemma IdsDecode(tok: seq<Bytes>, marks: Marks, id: int)
    ensures DecodeIds(tok, marks, [marks.bos]) == []
    ensures DecodeIds(tok, marks, [marks.eos]) == []
    ensures DecodeIds(tok, marks, [marks.pad]) == []
    ensures DecodeIds(tok, marks, [marks.unk]) == []
    ensures id < 0 || id >= |tok| ==> DecodeIds(tok, marks, [id]) == []
    ensures 0 <= id < |tok| && id !in [marks.bos, marks.eos, marks.pad, marks.unk] ==>
              DecodeIds(tok, marks, [id]) == TokenText(tok[id])
  {
    DecodeOne(tok, marks, id);
    DecodeOne(tok, marks, marks.bos);
    DecodeOne(tok, marks, marks.eos);
    DecodeOne(tok, marks, marks.pad);
    DecodeOne(tok, marks, marks.unk);
    hide DecodeIds, TokenText;
  }

  lemma DecodeIdsAppend(tok: seq<Bytes>, marks: Marks, a: seq<int>, b: seq<int>)
    ensures DecodeIds(tok, marks, a + b) == DecodeIds(tok, marks, a) + DecodeIds(tok, marks, b)
  {
    hide IdText;
    if a == [] {
      assert a + b == b;
    } else {
      assert (a + b)[1..] == a[1..] + b;
      DecodeIdsAppend(tok, marks, a[1..], b);
    }
  }

  lemma UnescapeNext(w: Bytes, i: nat, was: Bytes)
    requires i < |w|
    ensures var n := if MetaspaceAt(w, i) then 3 else 1;
            i + n <= |w| &&
            was + Unescape(w[i..]) == (was + [if MetaspaceAt(w, i) then SP else w[i]]) + Unescape(w[i + n..])
  {
    var u := w[i..];
    assert MetaspaceAt(u, 0) == MetaspaceAt(w, i) && u[0] == w[i];
    if MetaspaceAt(w, i) {
      assert u[3..] == w[i + 3..];
    } else {
      assert u[1..] == w[i + 1..];
    }
  }

  lemma UnescapeEnds(w: Bytes)
    ensures w[0..] == w && Unescape(w[|w|..]) == []
  {
  }

  /** The token loop of sp_g4_decode. */
  method PutToken(w: Bytes, sink: TextSink)
    requires sink.Valid()
    modifies sink, sink.buf
    ensures sink.Valid() && sink.text == old(sink.text) + TokenText(w)
  {
    hide Unescape, TextSink.Valid, Hex;
    var b := ByteToken(w);
    if b.Some? {
      sink.Put(b.value);
      return;
    }
    UnescapeEnds(w);
    ghost var goal := sink.text + Unescape(w);
    var i := 0;
    while i < |w|
      invariant i <= |w| && sink.Valid() && sink.text + Unescape(w[i..]) == goal
      decreases |w| - i
    {
      UnescapeNext(w, i, sink.text);
      if i + 2 < |w| && w[i] == 0xE2 && w[i + 1] == 0x96 && w[i + 2] == 0x81 {
        sink.Put(0x20);
        i := i + 3;
      } else {
        sink.Put(w[i]);
        i := i + 1;
      }
    }
  }

  lemma DecodeNext(tok: seq<Bytes>, marks: Marks, ids: seq<int>, k: nat)
    requires k < |ids|
    ensures DecodeIds(tok, marks, ids[k..]) == IdText(tok, marks, ids[k]) + DecodeIds(tok, marks, ids[k + 1..])
  {
    hide IdText;
    assert ids[k..][1..] == ids[k + 1..];
  }

  lemma DecodeEnds(tok: seq<Bytes>, marks: Marks, ids: seq<int>)
    ensures ids[0..] == ids && DecodeIds(tok, marks, ids[|ids|..]) == []
  {
  }

  /** sp_g4_decode. */
  method Decode(tok: seq<Bytes>, marks: Marks, ids: seq<int>, buf: array<byte>) returns (n: nat)
    modifies buf
    ensures n == |DecodeIds(tok, marks, ids)|
    ensures n < buf.Length ==> buf[..n] == DecodeIds(tok, marks, ids) && buf[n] == 0
    ensures 0 < buf.Length <= n ==>
              buf[..buf.Length - 1] == DecodeIds(tok, marks, ids)[..buf.Length - 1] && buf[buf.Length - 1] == 0
  {
    hide TextSink.Valid, TokenText, DecodeIds;
    var sink := new TextSink(buf);
    DecodeEnds(tok, marks, ids);
    for k := 0 to |ids|
      invariant sink.Valid() && fresh(sink) && sink.buf == buf
      invariant sink.text + DecodeIds(tok, marks, ids[k..]) == DecodeIds(tok, marks, ids)
    {
      DecodeNext(tok, marks, ids, k);
      var id := ids[k];
      if 0 <= id < |tok| && !Skips(marks, id) {
        PutToken(tok[id], sink);
      }
    }
    n := sink.Finish();
  }
}
