/** Where the two lanes that merge code points cut a text: by the number of leading one bits of a byte, which on
    well-formed UTF-8 (section 4 of RFC 3629) gives its characters. */
module SpmCharacters {
  import opened Basics
  import opened SymbolList
  import opened Gemma4Piece
  import opened Utf8
  import Spm = SpmFragment

  /** How many one bits a byte starts with. */
  function LeadingOnes(b: byte): nat {
    if b < 0x80 then 0 else 1 + LeadingOnes(2 * b - 0x100)
  }

  lemma LeadingOnesAre(b: byte)
    ensures b < 0xF8 ==>
              LeadingOnes(b) == if b < 0x80 then 0 else if b < 0xC0 then 1 else if b < 0xE0 then 2
                                else if b < 0xF0 then 3 else 4
    ensures b >= 0xF8 ==> LeadingOnes(b) >= 5
  {
    if b >= 0x80 {
      var c: byte := 2 * b - 0x100;
      assert LeadingOnes(b) == 1 + LeadingOnes(c);
      if c >= 0x80 { LeadingOnesAre(c); }
    }
  }

  /** A character announced by two to four leading ones has that many bytes; the gemma4 lane reads more ones as four
      bytes, the SPM lane as one. */
  lemma LengthsByBits(b: byte)
    ensures LeadLen(b) == Max(1, Min(4, LeadingOnes(b)))
    ensures Spm.Utf8Len(b) == if 2 <= LeadingOnes(b) <= 4 then LeadingOnes(b) else 1
    ensures Spm.Utf8Len(b) == LeadLen(b) <==> b < 0xF8
  {
    LeadingOnesAre(b);
  }

  lemma ConsCut(c: Bytes, s: Bytes)
    requires ValidChar(c)
    ensures Chars(Spm.Utf8Len, c + s) == [c] + Chars(Spm.Utf8Len, s)
  {
    assert |c| > 0 && Spm.Utf8Len(c[0]) == |c|;
    assert (c + s)[..|c|] == c && (c + s)[|c|..] == s;
  }

  /** The characters of a well-formed text are the symbols the SPM lane starts with. */
  lemma {:induction false} FlattenCut(cs: seq<Bytes>)
    requires forall i :: 0 <= i < |cs| ==> ValidChar(cs[i])
    ensures Chars(Spm.Utf8Len, Flatten(cs)) == cs
  {
    hide ValidChar;
    if cs != [] {
      FlattenCut(cs[1..]);
      ConsCut(cs[0], Flatten(cs[1..]));
    }
  }

  /** So on well-formed text both lanes start with the same symbols, each a well-formed character. */
  lemma ValidCut(s: Bytes)
    requires Valid(s)
    ensures Chars(Spm.Utf8Len, s) == Chars(LeadLen, s)
    ensures forall i :: 0 <= i < |Chars(Spm.Utf8Len, s)| ==> ValidChar(Chars(Spm.Utf8Len, s)[i])
  {
    CharsText(LeadLen, s);
    CharsValid(s);
    FlattenCut(Chars(LeadLen, s));
  }

  /** A byte that starts no character, a continuation byte or one from F8 up, is a symbol of its own. */
  lemma StrayByte(b: byte, s: Bytes)
    requires Tail(b) || b >= 0xF8
    ensures Chars(Spm.Utf8Len, [b] + s) == [[b]] + Chars(Spm.Utf8Len, s)
  {
    var w := [b] + s;
    assert w[..1] == [b] && w[1..] == s;
  }

  /** A character cut off by the end of the text is one symbol, of fewer bytes than its first byte announces. */
  lemma CutOff(s: Bytes)
    requires s != [] && 2 <= LeadingOnes(s[0]) <= 4 && |s| < LeadingOnes(s[0])
    ensures Chars(Spm.Utf8Len, s) == [s]
  {
    LengthsByBits(s[0]);
    assert s[..|s|] == s && s[|s|..] == [];
    assert Chars(Spm.Utf8Len, s[|s|..]) == [];
  }
}
