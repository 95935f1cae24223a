/** The whitespace normalizer of the gemma4 and SPM lanes: every space becomes U+2581 (E2 96 81). */
module Escaping {
  import opened Basics

  const LF: byte := 0x0A
  const SP: byte := 0x20
  const METASPACE: Bytes := [0xE2, 0x96, 0x81]

  function EscapeByte(b: byte): (r: Bytes)
    ensures 1 <= |r| <= 3
  {
    if b == SP then METASPACE else [b]
  }

  function Escape(s: Bytes): (r: Bytes)
    ensures |s| <= |r| <= 3 * |s|
  {
    if s == [] then [] else EscapeByte(s[0]) + Escape(s[1..])
  }

  lemma EscapeAppend(a: Bytes, b: Bytes)
    ensures Escape(a + b) == Escape(a) + Escape(b)
  {
    if a == [] {
      assert a + b == b;
    } else {
      assert (a + b)[1..] == a[1..] + b;
      EscapeAppend(a[1..], b);
    }
  }

  /** Byte by byte: 20 becomes E2 96 81, the UTF-8 of U+2581, and every other byte stays. */
  lemma EscapeBytewise(s: Bytes, b: byte)
    ensures Escape(s + [b]) == Escape(s) + if b == 0x20 then [0xE2, 0x96, 0x81] else [b]
  {
    var last: Bytes := [b];
    EscapeAppend(s, last);
    assert Escape(last) == EscapeByte(b) + Escape(last[1..]);
  }

  lemma EscapeNext(s: Bytes, i: nat)
    requires i < |s|
    ensures Escape(s[..i + 1]) == Escape(s[..i]) + EscapeByte(s[i])
  {
    assert s[..i + 1] == s[..i] + [s[i]];
    EscapeBytewise(s[..i], s[i]);
  }

  lemma EscapeNothing(s: Bytes)
    ensures Escape(s[..0]) == [] && s[..|s|] == s
  {
  }

  method PutMetaspace(esc: array<byte>, el: nat)
    requires el + 3 <= esc.Length
    modifies esc
    ensures esc[..el + 3] == old(esc[..el]) + METASPACE
  {
    esc[el] := 0xE2;
    esc[el + 1] := 0x96;
    esc[el + 2] := 0x81;
  }

  /** Fills a buffer of 3 * len + 1 bytes. */
  method EscapeSpaces(s: Bytes) returns (esc: array<byte>, el: nat)
    ensures fresh(esc) && el <= esc.Length && esc[..el] == Escape(s)
  {
    esc := new byte[3 * |s| + 1];
    el := 0;
    hide Escape;
    EscapeNothing(s);
    for i := 0 to |s|
      invariant el <= 3 * i && esc[..el] == Escape(s[..i])
    {
      EscapeNext(s, i);
      ghost var was := esc[..el];
      if s[i] == SP {
        PutMetaspace(esc, el);
        el := el + 3;
      } else {
        esc[el] := s[i];
        el := el + 1;
        assert esc[..el] == was + [s[i]];
      }
    }
  }
}
