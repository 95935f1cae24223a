/** Well-formed UTF-8 (section 4 of RFC 3629) and how the gemma4 lane's byte-level steps respect it. */
module Utf8 {
  import opened Basics
  import opened Escaping
  import opened SymbolList
  import opened Gemma4Piece
  import opened Gemma4Decode

  predicate Tail(b: byte) {
    0x80 <= b <= 0xBF
  }

  /** UTF8-char of RFC 3629. */
  predicate ValidChar(w: Bytes) {
    if |w| == 1 then w[0] <= 0x7F
    else if |w| == 2 then 0xC2 <= w[0] <= 0xDF && Tail(w[1])
    else if |w| == 3 then
      Tail(w[1]) && Tail(w[2]) && 0xE0 <= w[0] <= 0xEF &&
      (w[0] == 0xE0 ==> w[1] >= 0xA0) && (w[0] == 0xED ==> w[1] <= 0x9F)
    else
      |w| == 4 && Tail(w[1]) && Tail(w[2]) && Tail(w[3]) && 0xF0 <= w[0] <= 0xF4 &&
      (w[0] == 0xF0 ==> w[1] >= 0x90) && (w[0] == 0xF4 ==> w[1] <= 0x8F)
  }

  /** UTF8-octets: every character the encoder cuts is well-formed. */
  predicate Valid(s: Bytes)
    decreases |s|
  {
    s == [] || (LeadLen(s[0]) <= |s| && ValidChar(s[..LeadLen(s[0])]) && Valid(s[LeadLen(s[0])..]))
  }

  lemma LeadLenIs(c: Bytes)
    requires ValidChar(c)
    ensures |c| > 0 && LeadLen(c[0]) == |c|
  {
  }

  lemma ConsValid(c: Bytes, s: Bytes)
    requires ValidChar(c) && Valid(s)
    ensures Valid(c + s) && Chars(LeadLen, c + s) == [c] + Chars(LeadLen, s)
  {
    LeadLenIs(c);
    assert (c + s)[..|c|] == c && (c + s)[|c|..] == s;
  }

  /** Well-formed strings are exactly the concatenations of well-formed characters, and cutting recovers them. */
  lemma {:induction false} FlattenValid(cs: seq<Bytes>)
    requires forall i :: 0 <= i < |cs| ==> ValidChar(cs[i])
    ensures Valid(Flatten(cs)) && Chars(LeadLen, Flatten(cs)) == cs
  {
    hide ValidChar;
    if cs != [] {
      FlattenValid(cs[1..]);
      ConsValid(cs[0], Flatten(cs[1..]));
    }
  }

  lemma {:induction false} CharsValid(s: Bytes)
    requires Valid(s)
    ensures forall i :: 0 <= i < |Chars(LeadLen, s)| ==> ValidChar(Chars(LeadLen, s)[i])
    decreases |s|
  {
    hide ValidChar;
    if s != [] {
      CharsValid(s[LeadLen(s[0])..]);
    }
  }

  lemma {:induction false} AppendValid(a: Bytes, b: Bytes)
    requires Valid(a) && Valid(b)
    ensures Valid(a + b) && Chars(LeadLen, a + b) == Chars(LeadLen, a) + Chars(LeadLen, b)
  {
    CharsText(LeadLen, a);
    CharsText(LeadLen, b);
    CharsValid(a);
    CharsValid(b);
    var cs := Chars(LeadLen, a) + Chars(LeadLen, b);
    FlattenAppend(Chars(LeadLen, a), Chars(LeadLen, b));
    FlattenValid(cs);
  }

  /** Where a string may be cut without splitting a character: at or right after an ASCII byte, or at its ends. */
  predicate Boundary(s: Bytes, e: nat)
    requires e <= |s|
  {
    e == 0 || e == |s| || s[e] < 0x80 || s[e - 1] < 0x80
  }

  lemma InsideChar(c: Bytes, e: nat)
    requires ValidChar(c) && 0 < e < |c|
    ensures c[e] >= 0x80 && c[e - 1] >= 0x80
  {
  }

  lemma BoundaryPastChar(s: Bytes, e: nat)
    requires Valid(s) && 0 < e <= |s| && Boundary(s, e)
    ensures LeadLen(s[0]) <= e && Boundary(s[LeadLen(s[0])..], e - LeadLen(s[0]))
  {
    var L := LeadLen(s[0]);
    var c := s[..L];
    if e < L {
      InsideChar(c, e);
    }
  }

  lemma FirstChar(s: Bytes)
    requires Valid(s) && s != []
    ensures LeadLen(s[0]) <= |s| && ValidChar(s[..LeadLen(s[0])]) && Valid(s[LeadLen(s[0])..])
  {
  }

  lemma {:induction false} SplitValid(s: Bytes, e: nat)
    requires Valid(s) && e <= |s| && Boundary(s, e)
    ensures Valid(s[..e]) && Valid(s[e..])
    decreases |s|
  {
    hide *;
    if e == 0 {
      CutAtStart(s);
    } else {
      FirstChar(s);
      var L := LeadLen(s[0]);
      BoundaryPastChar(s, e);
      SplitValid(s[L..], e - L);
      Slices(s, L, e);
      ConsValid(s[..L], s[L..e]);
    }
  }

  lemma CutAtStart(s: Bytes)
    requires Valid(s)
    ensures Valid(s[..0]) && Valid(s[0..])
  {
    assert s[..0] == [] && s[0..] == s;
  }

  lemma Slices(s: Bytes, L: nat, e: nat)
    requires L <= e <= |s|
    ensures s[L..][..e - L] == s[L..e] && s[L..][e - L..] == s[e..] && s[..L] + s[L..e] == s[..e]
  {
  }

  /** Text without the lead byte of U+2581 is left alone. */
  lemma {:induction false} UnescapeNoLead(u: Bytes, rest: Bytes)
    requires forall i :: 0 <= i < |u| ==> u[i] != 0xE2
    ensures Unescape(u + rest) == u + Unescape(rest)
    decreases |u|
  {
    if u == [] {
      assert u + rest == rest;
    } else {
      assert (u + rest)[1..] == u[1..] + rest;
      UnescapeNoLead(u[1..], rest);
    }
  }

  /** Unescaping works character by character on well-formed text. */
  lemma UnescapeChar(c: Bytes, rest: Bytes)
    requires ValidChar(c)
    ensures Unescape(c + rest) == (if c == METASPACE then [SP] else c) + Unescape(rest)
  {
    var w := c + rest;
    if c == METASPACE {
      assert w[0] == c[0] && w[1] == c[1] && w[2] == c[2];
      assert w[3..] == rest;
    } else {
      assert !MetaspaceAt(w, 0) by {
        if |c| == 3 { assert c == [c[0], c[1], c[2]]; assert w[1] == c[1] && w[2] == c[2]; }
      }
      assert w[1..] == c[1..] + rest;
      UnescapeNoLead(c[1..], rest);
    }
  }

  lemma {:induction false} UnescapeAppend(a: Bytes, b: Bytes)
    requires Valid(a)
    ensures Unescape(a + b) == Unescape(a) + Unescape(b)
    decreases |a|
  {
    if a == [] {
      assert a + b == b;
    } else {
      var L := LeadLen(a[0]);
      var c, r := a[..L], a[L..];
      assert a == c + r && a + b == c + (r + b);
      UnescapeAppend(r, b);
      UnescapeChar(c, r);
      UnescapeChar(c, r + b);
      hide Unescape, ValidChar;
    }
  }

  lemma EscapeNoSpace(u: Bytes)
    requires forall i :: 0 <= i < |u| ==> u[i] != SP
    ensures Escape(u) == u
  {
  }

  /** Escaping keeps text well-formed, and unescaping the result is unescaping the text. */
  lemma {:induction false} EscapeThenUnescape(s: Bytes)
    requires Valid(s)
    ensures Valid(Escape(s)) && Unescape(Escape(s)) == Unescape(s)
    decreases |s|
  {
    if s != [] {
      var L := LeadLen(s[0]);
      var c, r := s[..L], s[L..];
      assert s == c + r;
      EscapeThenUnescape(r);
      EscapeAppend(c, r);
      EscapeOneChar(c);
      var ec := Escape(c);
      ConsValid(ec, Escape(r));
      UnescapeChar(ec, Escape(r));
      UnescapeChar(c, r);
      hide Unescape, Escape, ValidChar;
    }
  }

  lemma EscapeOneChar(c: Bytes)
    requires ValidChar(c)
    ensures Escape(c) == (if c == [SP] then METASPACE else c)
    ensures ValidChar(Escape(c))
  {
    if c == [SP] {
      assert Escape(c) == EscapeByte(SP) + Escape(c[1..]);
    } else {
      assert |c| == 1 ==> c == [c[0]];
      EscapeNoSpace(c);
    }
  }
}
