/** The GPT2 byte-level alphabet: every byte is written as one code point below 324, in one or two UTF-8
    bytes, and decoding inverts that. */
module ByteLevel {
  import opened Basics

  predicate Printable(b: byte) {
    33 <= b <= 126 || 161 <= b <= 172 || 174 <= b <= 255
  }

  /** How many bytes below b are not printable. */
  function Skipped(b: nat): (n: nat)
    requires b <= 256
    ensures n == if b <= 33 then b else if b <= 127 then 33 else if b <= 161 then b - 94
                 else if b <= 173 then 67 else 68
  {
    if b == 0 then 0 else Skipped(b - 1) + if Printable(b - 1) then 0 else 1
  }

  /** The code point of a byte: itself when printable, else the next one from 256 up. */
  function CodePoint(b: byte): (cp: nat)
    ensures cp < 324
  {
    if Printable(b) then b else 256 + Skipped(b)
  }

  /** Distinct bytes have distinct code points. */
  lemma CodePointInjective(a: byte, b: byte)
    requires CodePoint(a) == CodePoint(b)
    ensures a == b
  {
  }

  /** UTF-8 of the code point, one or two bytes. */
  function Enc(b: byte): (w: Bytes)
    ensures 1 <= |w| <= 2
  {
    var cp := CodePoint(b);
    if cp < 0x80 then [cp] else [0xC0 + cp / 64, 0x80 + cp % 64]
  }

  function EncAll(s: Bytes): (w: Bytes)
    ensures |s| <= |w| <= 2 * |s|
  {
    if s == [] then [] else Enc(s[0]) + EncAll(s[1..])
  }

  lemma EncAllAppend(a: Bytes, b: Bytes)
    ensures EncAll(a + b) == EncAll(a) + EncAll(b)
  {
    if a == [] {
      assert a + b == b;
    } else {
      assert (a + b)[1..] == a[1..] + b;
      EncAllAppend(a[1..], b);
    }
  }

  /** The inverse table: the byte written as code point cp, or -1. */
  function ByteOf(cp: nat): (b: int)
    ensures -1 <= b < 256
    ensures b >= 0 ==> CodePoint(b) == cp
    ensures b == -1 ==> forall c: byte :: CodePoint(c) != cp
  {
    if cp < 256 then (if Printable(cp) then cp else -1)
    else if cp < 289 then cp - 256
    else if cp < 323 then cp - 289 + 127
    else if cp == 323 then 173
    else -1
  }

  /** One decoded code point: its value and how many bytes it took. */
  datatype Decoded = Decoded(cp: nat, adv: nat)

  /** The lenient UTF-8 step used by decode and by cp_decode: no continuation-byte check, and anything
      malformed or cut off is one byte. */
  function Step(s: Bytes, i: nat): (d: Decoded)
    requires i < |s|
    ensures 1 <= d.adv <= |s| - i
  {
    var c0: int := s[i];
    if c0 < 0x80 then Decoded(c0, 1)
    else if 0xC0 <= c0 < 0xE0 && i + 1 < |s| then Decoded(c0 % 32 * 64 + Low6(s[i + 1]), 2)
    else if 0xE0 <= c0 < 0xF0 && i + 2 < |s| then
      Decoded(c0 % 16 * 4096 + Low6(s[i + 1]) * 64 + Low6(s[i + 2]), 3)
    else if 0xF0 <= c0 < 0xF8 && i + 3 < |s| then
      Decoded(c0 % 8 * 262144 + Low6(s[i + 1]) * 4096 + Low6(s[i + 2]) * 64 + Low6(s[i + 3]), 4)
    else Decoded(c0, 1)
  }

  /** The low six bits. */
  function Low6(b: int): (n: nat)
    ensures n < 64
  {
    b % 64
  }

  /** Bytes of one token string: each code point through the inverse table, unknown ones copied. */
  function DecFrom(w: Bytes, i: nat): Bytes
    requires i <= |w|
    decreases |w| - i
  {
    if i == |w| then [] else
      var d := Step(w, i);
      (if ByteOf(d.cp) >= 0 then [ByteOf(d.cp)] else w[i..i + d.adv]) + DecFrom(w, i + d.adv)
  }

  function Dec(w: Bytes): Bytes {
    DecFrom(w, 0)
  }

  /** Decoding reads back exactly one byte per encoded byte, wherever it stands. */
  lemma StepEnc(w: Bytes, i: nat, b: byte)
    requires i + |Enc(b)| <= |w| && w[i..i + |Enc(b)|] == Enc(b)
    ensures Step(w, i) == Decoded(CodePoint(b), |Enc(b)|)
    ensures ByteOf(CodePoint(b)) == b
  {
    CodePointInverse(b);
    hide CodePoint, ByteOf;
    var e, cp := Enc(b), CodePoint(b);
    assert w[i] == e[0];
    if |e| == 2 {
      TwoBytes(cp);
      assert w[i + 1] == e[1];
    }
  }

  lemma CodePointInverse(b: byte)
    ensures ByteOf(CodePoint(b)) == b
  {
    hide Skipped;
    CodePointInjective(b, ByteOf(CodePoint(b)));
  }

  lemma TwoBytes(cp: nat)
    requires 0x80 <= cp < 324
    ensures 0xC0 <= 0xC0 + cp / 64 < 0xE0
    ensures (0xC0 + cp / 64) % 32 * 64 + Low6(0x80 + cp % 64) == cp
  {
  }

  lemma {:induction false} DecFromEnc(w: Bytes, i: nat, s: Bytes)
    requires i <= |w| && w[i..] == EncAll(s)
    ensures DecFrom(w, i) == s
    decreases |s|
  {
    if s != [] {
      var e := Enc(s[0]);
      assert w[i..][..|e|] == e && w[i..][|e|..] == EncAll(s[1..]);
      assert w[i..i + |e|] == w[i..][..|e|] && w[i + |e|..] == w[i..][|e|..];
      StepEnc(w, i, s[0]);
      DecFromEnc(w, i + |e|, s[1..]);
      assert s == [s[0]] + s[1..];
    }
  }

  /** Decoding inverts encoding, on every byte string. */
  lemma DecEnc(s: Bytes)
    ensures Dec(EncAll(s)) == s
  {
    assert EncAll(s)[0..] == EncAll(s);
    DecFromEnc(EncAll(s), 0, s);
  }
}
