/** The lenient UTF-8 step of the GPT2 lane against UTF-8 itself (section 3 of RFC 3629): it reads every encoded code
    point back, and malformed bytes one by one. */
module ScalarValues {
  import opened Basics
  import opened ByteLevel
  import opened Utf8
  import opened PieceKinds
  import Text = Gpt2Text

  /** A Unicode scalar value: any code point but a surrogate. */
  predicate Scalar(cp: int) {
    0 <= cp < 0xD800 || 0xE000 <= cp <= 0x10FFFF
  }

  /** The UTF-8 octets of a scalar value. */
  function Encoded(cp: nat): (w: Bytes)
    requires Scalar(cp)
    ensures 1 <= |w| <= 4
  {
    if cp < 0x80 then [cp]
    else if cp < 0x800 then [0xC0 + cp / 0x40, 0x80 + cp % 0x40]
    else if cp < 0x10000 then [0xE0 + cp / 0x1000, 0x80 + cp / 0x40 % 0x40, 0x80 + cp % 0x40]
    else [0xF0 + cp / 0x40000, 0x80 + cp / 0x1000 % 0x40, 0x80 + cp / 0x40 % 0x40, 0x80 + cp % 0x40]
  }

  /** The scalar value of an encoded character: the bits its bytes carry. */
  function ValueOf(w: Bytes): int {
    if |w| == 1 then w[0]
    else if |w| == 2 then Over(w[0], 0xC0) * 0x40 + Over(w[1], 0x80)
    else if |w| == 3 then Over(w[0], 0xE0) * 0x1000 + Over(w[1], 0x80) * 0x40 + Over(w[2], 0x80)
    else if |w| == 4 then
      Over(w[0], 0xF0) * 0x40000 + Over(w[1], 0x80) * 0x1000 + Over(w[2], 0x80) * 0x40 + Over(w[3], 0x80)
    else 0
  }

  function Over(b: int, mark: int): int { b - mark }

  /** Digits to base 64. */
  lemma Digits(a: nat, b: nat, c: nat, d: nat)
    requires b < 0x40 && c < 0x40 && d < 0x40
    ensures var cp := a * 0x40000 + b * 0x1000 + c * 0x40 + d;
            cp / 0x40000 == a && cp / 0x1000 == a * 0x40 + b && cp / 0x40 == a * 0x1000 + b * 0x40 + c
    ensures var cp := a * 0x40000 + b * 0x1000 + c * 0x40 + d;
            cp / 0x1000 % 0x40 == b && cp / 0x40 % 0x40 == c && cp % 0x40 == d
  {
  }

  lemma FromDigits(cp: nat)
    ensures cp == cp / 0x40 * 0x40 + cp % 0x40
    ensures cp / 0x40 == cp / 0x1000 * 0x40 + cp / 0x40 % 0x40
    ensures cp / 0x1000 == cp / 0x40000 * 0x40 + cp / 0x1000 % 0x40
  {
  }

  /** Encoding gives a well-formed character that carries the value. */
  lemma EncodedValid(cp: nat)
    requires Scalar(cp)
    ensures ValidChar(Encoded(cp)) && ValueOf(Encoded(cp)) == cp
  {
    FromDigits(cp);
  }

  lemma ShortDigits(a: nat, b: nat, c: nat)
    requires b < 0x40 && c < 0x40
    ensures var cp := a * 0x1000 + b * 0x40 + c; cp / 0x1000 == a && cp / 0x40 % 0x40 == b && cp % 0x40 == c
  {
  }

  /** And every well-formed character is the encoding of the value it carries. */
  lemma ValidIsEncoded(w: Bytes)
    requires ValidChar(w)
    ensures Scalar(ValueOf(w)) && Encoded(ValueOf(w)) == w
  {
    if |w| == 2 {
      ShortDigits(0, w[0] - 0xC0, w[1] - 0x80);
    } else if |w| == 3 {
      ShortDigits(w[0] - 0xE0, w[1] - 0x80, w[2] - 0x80);
    } else if |w| == 4 {
      Digits(w[0] - 0xF0, w[1] - 0x80, w[2] - 0x80, w[3] - 0x80);
    }
  }

  lemma Bits(b: byte)
    ensures Tail(b) ==> Low6(b) == b - 0x80
    ensures 0xC0 <= b < 0xE0 ==> b % 32 == b - 0xC0
    ensures 0xE0 <= b < 0xF0 ==> b % 16 == b - 0xE0
    ensures 0xF0 <= b < 0xF8 ==> b % 8 == b - 0xF0
  {
  }

  lemma StepValue(s: Bytes, i: nat, w: Bytes)
    requires ValidChar(w) && i + |w| <= |s| && forall j :: 0 <= j < |w| ==> s[i + j] == w[j]
    ensures Step(s, i).cp == ValueOf(w) && Step(s, i).adv == |w|
  {
    assert s[i + 0] == w[0];
    Bits(w[0]);
    if |w| > 1 { assert s[i + 1] == w[1]; Bits(w[1]); }
    if |w| > 2 { assert s[i + 2] == w[2]; Bits(w[2]); }
    if |w| > 3 { assert s[i + 3] == w[3]; Bits(w[3]); }
    hide Low6;
  }

  /** Wherever the octets of a scalar value stand, the step reads that value and passes over them. */
  lemma StepReads(s: Bytes, i: nat, cp: nat)
    requires Scalar(cp) && i + |Encoded(cp)| <= |s| && s[i..i + |Encoded(cp)|] == Encoded(cp)
    ensures Step(s, i) == Decoded(cp, |Encoded(cp)|)
  {
    EncodedValid(cp);
    hide *;
    var w := Encoded(cp);
    forall j | 0 <= j < |w| ensures s[i + j] == w[j] {
      assert s[i..i + |w|][j] == w[j];
    }
    StepValue(s, i, w);
  }

  /** A byte that starts no character, or whose character is cut off by the end of the text, is read as itself. */
  lemma StepStray(s: Bytes, i: nat)
    requires i < |s| && (Tail(s[i]) || s[i] >= 0xF8)
    ensures Step(s, i) == Decoded(s[i], 1)
  {
  }

  lemma StepCutOff(s: Bytes, i: nat, n: nat)
    requires i < |s| && 2 <= n <= 4 && |s| - i < n
    requires if n == 2 then 0xC0 <= s[i] <= 0xDF else if n == 3 then 0xE0 <= s[i] <= 0xEF else 0xF0 <= s[i] <= 0xF7
    ensures Step(s, i) == Decoded(s[i], 1)
  {
  }

  ghost predicate Scalars(cps: seq<int>) {
    forall k :: 0 <= k < |cps| ==> Scalar(cps[k])
  }

  /** The UTF-8 text of a list of scalar values. */
  function EncodedAll(cps: seq<int>): Bytes
    requires Scalars(cps)
  {
    if cps == [] then [] else Encoded(cps[0]) + EncodedAll(cps[1..])
  }

  lemma {:induction false} EncodedAppend(a: seq<int>, b: seq<int>)
    requires Scalars(a) && Scalars(b)
    ensures EncodedAll(a + b) == EncodedAll(a) + EncodedAll(b)
    decreases |a|
  {
    hide Encoded;
    if a == [] {
      assert a + b == b;
    } else {
      EncodedAppend(a[1..], b);
      assert (a + b)[1..] == a[1..] + b;
    }
  }

  /** The code points and offsets the encoder records are those of the text. */
  lemma {:induction false} Recorded(s: Bytes, i: nat, cps: seq<int>)
    requires Scalars(cps) && i <= |s| && s[i..] == EncodedAll(cps)
    ensures Text.CodePoints(s, i) == cps && |Text.Offsets(s, i)| == |cps| + 1
    ensures forall k :: 0 <= k <= |cps| ==> Text.Offsets(s, i)[k] == i + |EncodedAll(cps[..k])|
    decreases |cps|
  {
    hide Encoded, Step;
    if cps == [] {
      assert cps[..0] == [];
    } else {
      var w, rest := Encoded(cps[0]), EncodedAll(cps[1..]);
      assert s[i..][..|w|] == w && s[i..][|w|..] == rest;
      assert s[i..i + |w|] == w && s[i + |w|..] == rest;
      StepReads(s, i, cps[0]);
      Recorded(s, i + |w|, cps[1..]);
      var o, p := Text.Offsets(s, i), Text.Offsets(s, i + |w|);
      assert o == [i] + p;
      forall k | 0 <= k <= |cps| ensures o[k] == i + |EncodedAll(cps[..k])| {
        if k > 0 { assert cps[..k][1..] == cps[1..][..k - 1]; }
      }
    }
  }

  lemma Between(cps: seq<int>, a: nat, b: nat)
    requires Scalars(cps) && a <= b <= |cps|
    ensures |EncodedAll(cps[..a])| <= |EncodedAll(cps[..b])| <= |EncodedAll(cps)|
    ensures EncodedAll(cps)[|EncodedAll(cps[..a])|..|EncodedAll(cps[..b])|] == EncodedAll(cps[a..b])
  {
    assert cps[..b] == cps[..a] + cps[a..b] && cps == cps[..b] + cps[b..];
    EncodedAppend(cps[..a], cps[a..b]);
    EncodedAppend(cps[..b], cps[b..]);
  }

  lemma {:induction false} SpansEncoded(cps: seq<int>, o: seq<nat>, r: seq<(nat, nat)>)
    requires Scalars(cps) && |o| == |cps| + 1
    requires forall k :: 0 <= k < |o| ==> o[k] == |EncodedAll(cps[..k])| <= |EncodedAll(cps)|
    requires forall j, k :: 0 <= j < k < |o| ==> o[j] < o[k]
    requires forall k :: 0 <= k < |r| ==> r[k].0 <= r[k].1 <= |cps|
    ensures var p := Text.Spans(EncodedAll(cps), o, r);
            forall k :: 0 <= k < |r| ==> p[k] == EncodedAll(cps[r[k].0..r[k].1])
    decreases |r|
  {
    hide EncodedAll;
    if r != [] {
      SpansEncoded(cps, o, r[1..]);
      Between(cps, r[0].0, r[0].1);
      var p, q := Text.Spans(EncodedAll(cps), o, r), Text.Spans(EncodedAll(cps), o, r[1..]);
      assert p[1..] == q;
      forall k | 0 <= k < |r| ensures p[k] == EncodedAll(cps[r[k].0..r[k].1]) {
        if k > 0 { assert p[k] == q[k - 1] && r[k] == r[1..][k - 1]; }
      }
    }
  }

  /** The pieces are the texts of the given ranges of scalar values. */
  ghost predicate TextsOf(cps: seq<int>, r: seq<(nat, nat)>, pieces: seq<Bytes>) {
    && Scalars(cps) && |pieces| == |r|
    && forall k :: 0 <= k < |r| ==> r[k].0 <= r[k].1 <= |cps| && pieces[k] == EncodedAll(cps[r[k].0..r[k].1])
  }

  /** The pre-tokens of a UTF-8 text are the texts of the regex matches over its scalar values. */
  lemma PretokensOfText(c: Classes, cps: seq<int>)
    requires Scalars(cps)
    ensures TextsOf(cps, Text.Matches(c, cps, 0), Text.Pretokens(c, EncodedAll(cps)))
  {
    hide EncodedAll, Encoded, Step, Text.Matches, Text.Spans, Text.CodePoints, Text.Offsets, Scalars, Scalar;
    var s := EncodedAll(cps);
    assert s[0..] == s;
    Recorded(s, 0, cps);
    Text.OffsetsOrdered(s, 0);
    SpansEncoded(cps, Text.Offsets(s, 0), Text.Matches(c, cps, 0));
  }
}
