/** The tokenizer blob: what the transcoder writes and what the file loader reads back. */
module TokenizerBlob {
  import opened Basics
  import opened Division

  datatype Family = Spm | Gpt2 | Gemma4

  const MAGIC: nat := 0x42545053
  const WORD: nat := 0x1_0000_0000

  /** The on-disk family tag. */
  function Tag(f: Family): nat {
    match f case Spm => 0 case Gpt2 => 2 case Gemma4 => 4
  }

  /** The loader's switch on the tag: anything else is an error. */
  function FamilyOf(tag: nat): Option<Family> {
    if tag == 0 then Some(Spm) else if tag == 2 then Some(Gpt2) else if tag == 4 then Some(Gemma4) else None
  }

  /** The family both loaders and the writer derive from the two model strings; None is the hard error. */
  function FamilyNamed(model: Option<string>, pre: Option<string>): Option<Family> {
    if model == Some("llama") then Some(Spm)
    else if model == Some("gemma4") || (model == Some("gpt2") && pre == Some("gemma4")) then Some(Gemma4)
    else if model == Some("gpt2") then Some(Gpt2)
    else None
  }

  /** The four cases, family by family. */
  lemma FamilyIff(model: Option<string>, pre: Option<string>)
    ensures FamilyNamed(model, pre) == Some(Spm) <==> model == Some("llama")
    ensures FamilyNamed(model, pre) == Some(Gemma4) <==>
              model == Some("gemma4") || (model == Some("gpt2") && pre == Some("gemma4"))
    ensures FamilyNamed(model, pre) == Some(Gpt2) <==> model == Some("gpt2") && pre != Some("gemma4")
    ensures FamilyNamed(model, pre) == None <==> model !in [Some("llama"), Some("gemma4"), Some("gpt2")]
  {
    assert "llama"[0] != "gemma4"[0] && |"gemma4"| != |"gpt2"| && |"llama"| != |"gpt2"|;
  }

  /** Scores are the 32-bit words of the floats. */
  datatype Content = Content(family: Family, tokens: seq<Bytes>, scores: seq<nat>, merges: seq<Bytes>)

  /** Scores are written only for SPM, and only when there is one per token. */
  predicate Writable(c: Content) {
    && (c.scores != [] ==> c.family == Spm && |c.scores| == |c.tokens|)
    && forall i :: 0 <= i < |c.scores| ==> c.scores[i] < WORD
  }

  /** What build_tok_blob takes from the GGUF arrays: the family from the two model strings, scores only for SPM
      and only when there is one per token. None is the unknown-family error. */
  function Extracted(model: Option<string>, pre: Option<string>, tokens: seq<Bytes>, scores: Option<seq<nat>>,
                     merges: seq<Bytes>): Option<Content> {
    var f := FamilyNamed(model, pre);
    if f.None? then None else
      var kept := if f.value == Spm && scores.Some? && |scores.value| == |tokens| then scores.value else [];
      Some(Content(f.value, tokens, kept, merges))
  }

  /** A 32-bit little-endian word; wider values are cut. */
  function Word(v: nat): (w: Bytes)
    ensures |w| == 4
  {
    [v % 256, v / 256 % 256, v / 65536 % 256, v / 16777216 % 256]
  }

  function Value(b: Bytes): (v: nat)
    requires |b| >= 4
    ensures v < WORD
  {
    var b0: int, b1: int, b2: int, b3: int := b[0], b[1], b[2], b[3];
    b0 + 256 * b1 + 65536 * b2 + 16777216 * b3
  }

  /** Little-endian: byte i of a word is bits 8 i to 8 i + 7 of the value. */
  lemma LittleEndian(v: nat, i: nat)
    requires i < 4
    ensures Word(v)[i] == v / Pow2(8 * i) % 256
  {
    assert Pow2(0) == 1 && Pow2(8) == 256 by { assert Pow2(4) == 16; }
    assert Pow2(16) == 65536 by { assert Pow2(12) == 4096; }
    assert Pow2(24) == 16777216 by { assert Pow2(20) == 1048576; }
  }

  function Strings(ss: seq<Bytes>): Bytes {
    if ss == [] then [] else Word(|ss[0]|) + ss[0] + Strings(ss[1..])
  }

  function Words(ws: seq<nat>): (w: Bytes)
    ensures |w| == 4 * |ws|
  {
    if ws == [] then [] else Word(ws[0]) + Words(ws[1..])
  }

  function Header(c: Content): (h: Bytes)
    ensures |h| == 16
  {
    Word(MAGIC) + Word(Tag(c.family)) + Word(|c.tokens|) + Word(|c.merges|)
  }

  function Blob(c: Content): Bytes {
    Header(c) + (Strings(c.tokens) + (Words(c.scores) + Strings(c.merges)))
  }

  /** The fixed part of a blob: the letters SPTB, the family's number, and the two counts. */
  lemma Layout(c: Content)
    ensures |Blob(c)| >= 16 && Blob(c)[..4] == [0x53, 0x50, 0x54, 0x42]
    ensures Value(Blob(c)[4..]) == (if c.family == Spm then 0 else if c.family == Gpt2 then 2 else 4)
    ensures Value(Blob(c)[8..]) == |c.tokens| % WORD && Value(Blob(c)[12..]) == |c.merges| % WORD
  {
    var rest := Strings(c.tokens) + (Words(c.scores) + Strings(c.merges));
    var a, b, d, e := Word(MAGIC), Word(Tag(c.family)), Word(|c.tokens|), Word(|c.merges|);
    assert Blob(c) == a + (b + (d + (e + rest)));
    hide Blob, Strings, Words, Value, Word;
    assert Blob(c)[..4] == a && Blob(c)[4..] == b + (d + (e + rest));
    assert Blob(c)[8..] == d + (e + rest) && Blob(c)[12..] == e + rest;
    WordValue(Tag(c.family), d + (e + rest));
    WordValue(|c.tokens|, e + rest);
    WordValue(|c.merges|, rest);
    Letters();
    ModUnique(Tag(c.family), 0, Tag(c.family), WORD);
  }

  lemma Letters()
    ensures Word(MAGIC) == [0x53, 0x50, 0x54, 0x42]
  {
  }

  /** n length-prefixed strings from the front of b, and what is left. */
  function ReadStrings(b: Bytes, n: nat): Option<(seq<Bytes>, Bytes)> {
    if n == 0 then Some(([], b))
    else if |b| < 4 then None
    else
      var len := Value(b);
      if |b| < 4 + len then None
      else
        var rest := ReadStrings(b[4 + len..], n - 1);
        if rest.None? then None else Some(([b[4..4 + len]] + rest.value.0, rest.value.1))
  }

  function ReadWords(b: Bytes, n: nat): (ws: seq<nat>)
    requires |b| >= 4 * n
    ensures |ws| == n
  {
    if n == 0 then [] else [Value(b)] + ReadWords(b[4..], n - 1)
  }

  /** The scores part: present exactly in the SPM family. */
  function ReadScores(f: Family, b: Bytes, n: nat): Option<(seq<nat>, Bytes)> {
    if f != Spm then Some(([], b))
    else if |b| < 4 * n then None
    else Some((ReadWords(b, n), b[4 * n..]))
  }

  function ReadBody(f: Family, b: Bytes, nv: nat, nm: nat): Option<Content> {
    var tokens := ReadStrings(b, nv);
    if tokens.None? then None else
    var scores := ReadScores(f, tokens.value.1, nv);
    if scores.None? then None else
    var merges := ReadStrings(scores.value.1, nm);
    if merges.None? || (nm == 0 && f == Gemma4) then None
    else Some(Content(f, tokens.value.0, scores.value.0, merges.value.0))
  }

  /** The loader on the blob bytes and the header's vocabulary size; None is a refused file. */
  function Parse(b: Bytes, vocab: nat): Option<Content> {
    if |b| < 16 || Value(b) != MAGIC then None else
    var f := FamilyOf(Value(b[4..]));
    var nv, nm := Value(b[8..]), Value(b[12..]);
    if f.None? || nv == 0 || nv != vocab then None
    else ReadBody(f.value, b[16..], nv, nm)
  }

  lemma WordValue(v: nat, rest: Bytes)
    ensures Value(Word(v) + rest) == v % WORD
  {
    var a, b, c := v / 256, v / 65536, v / 16777216;
    Halves(v);
    var d := c / 256;
    ModUnique(v, d, v % 256 + 256 * (a % 256) + 65536 * (b % 256) + 16777216 * (c % 256), WORD);
  }

  lemma Halves(v: nat)
    ensures v == 256 * (v / 256) + v % 256
    ensures v / 256 == 256 * (v / 65536) + v / 256 % 256
    ensures v / 65536 == 256 * (v / 16777216) + v / 65536 % 256
    ensures v / 16777216 == 256 * (v / 16777216 / 256) + v / 16777216 % 256
  {
  }

  lemma ValueWord(b: Bytes)
    requires |b| >= 4
    ensures Word(Value(b)) == b[..4]
  {
    var v := Value(b);
    var b0: int, b1: int, b2: int, b3: int := b[0], b[1], b[2], b[3];
    ModUnique(v, b1 + 256 * b2 + 65536 * b3, b0, 256);
    ModUnique(v / 256, b2 + 256 * b3, b1, 256);
    ModUnique(v, b2 + 256 * b3, b0 + 256 * b1, 65536);
    ModUnique(v / 65536, b3, b2, 256);
    ModUnique(v, b3, b0 + 256 * b1 + 65536 * b2, 16777216);
  }

  /** Every length fits 32 bits. */
  predicate Short(ss: seq<Bytes>) {
    |ss| < WORD && forall i :: 0 <= i < |ss| ==> |ss[i]| < WORD
  }

  lemma {:induction false} StringsRead(ss: seq<Bytes>, post: Bytes)
    requires forall i :: 0 <= i < |ss| ==> |ss[i]| < WORD
    ensures ReadStrings(Strings(ss) + post, |ss|) == Some((ss, post))
    decreases |ss|
  {
    if ss == [] {
      assert Strings(ss) + post == post;
    } else {
      StringsRead(ss[1..], post);
      OneString(ss, post);
      hide Strings;
      ReadOne(Strings(ss) + post, ss[0], Strings(ss[1..]) + post, |ss|);
      assert [ss[0]] + ss[1..] == ss;
    }
  }

  lemma OneString(ss: seq<Bytes>, post: Bytes)
    requires ss != []
    ensures Strings(ss) + post == Word(|ss[0]|) + (ss[0] + (Strings(ss[1..]) + post))
  {
    hide Word;
  }

  lemma ReadOne(b: Bytes, s: Bytes, rest: Bytes, n: nat)
    requires b == Word(|s|) + (s + rest) && |s| < WORD && n > 0
    requires ReadStrings(rest, n - 1).Some?
    ensures ReadStrings(b, n) == Some(([s] + ReadStrings(rest, n - 1).value.0, ReadStrings(rest, n - 1).value.1))
  {
    WordValue(|s|, s + rest);
    ModUnique(|s|, 0, |s|, WORD);
    hide *;
    Parts(Word(|s|), s, rest);
    ReadUnfold(b, n);
  }

  lemma Parts(w: Bytes, s: Bytes, rest: Bytes)
    requires |w| == 4
    ensures var b := w + (s + rest); b[4..4 + |s|] == s && b[4 + |s|..] == rest
  {
  }

  lemma ReadUnfold(b: Bytes, n: nat)
    requires n > 0 && |b| >= 4 && |b| >= 4 + Value(b) && ReadStrings(b[4 + Value(b)..], n - 1).Some?
    ensures var len := Value(b); var rest := ReadStrings(b[4 + len..], n - 1);
            ReadStrings(b, n) == Some(([b[4..4 + len]] + rest.value.0, rest.value.1))
  {
    hide Value;
  }

  /** What was read is the front of the input, written again. */
  lemma {:induction false} ReadIsStrings(b: Bytes, n: nat)
    requires ReadStrings(b, n).Some?
    ensures var (ss, rest) := ReadStrings(b, n).value;
            |ss| == n && b == Strings(ss) + rest && forall i :: 0 <= i < n ==> |ss[i]| < WORD
    decreases n
  {
    if n > 0 {
      var len := Value(b);
      ReadIsStrings(b[4 + len..], n - 1);
      ValueWord(b);
      var (ss, rest) := ReadStrings(b, n).value;
      assert ss[1..] == ReadStrings(b[4 + len..], n - 1).value.0;
      hide *;
      CutTwice(b, 4, 4 + len);
      OneString(ss, rest);
      assert Strings(ss) + rest == b[..4] + (b[4..4 + len] + b[4 + len..]);
    }
  }

  lemma CutTwice(b: Bytes, i: nat, j: nat)
    requires i <= j <= |b|
    ensures b == b[..i] + (b[i..j] + b[j..])
  {
  }

  lemma {:induction false} WordsRead(ws: seq<nat>, post: Bytes)
    requires forall i :: 0 <= i < |ws| ==> ws[i] < WORD
    ensures ReadWords(Words(ws) + post, |ws|) == ws && (Words(ws) + post)[4 * |ws|..] == post
    decreases |ws|
  {
    if ws == [] {
      assert Words(ws) + post == post;
    } else {
      var rest := Words(ws[1..]) + post;
      WordsRead(ws[1..], post);
      OneWord(ws, post);
      WordValue(ws[0], rest);
      ModUnique(ws[0], 0, ws[0], WORD);
      hide Word, Value, Words;
      var b := Words(ws) + post;
      assert b[4..] == rest;
      assert b[4 * |ws|..] == rest[4 * (|ws| - 1)..];
    }
  }

  lemma OneWord(ws: seq<nat>, post: Bytes)
    requires ws != []
    ensures Words(ws) + post == Word(ws[0]) + (Words(ws[1..]) + post)
  {
    hide Word;
  }

  lemma {:induction false} ReadIsWords(b: Bytes, n: nat)
    requires |b| >= 4 * n
    ensures b[..4 * n] == Words(ReadWords(b, n))
    ensures forall i :: 0 <= i < n ==> ReadWords(b, n)[i] < WORD
    decreases n
  {
    if n > 0 {
      ReadIsWords(b[4..], n - 1);
      ValueWord(b);
      var ws := ReadWords(b, n);
      assert ws[1..] == ReadWords(b[4..], n - 1);
      hide Word, Value, ReadWords;
      assert b[..4 * n] == b[..4] + b[4..][..4 * (n - 1)];
    }
  }

  /** The contents the loader can return. */
  predicate Loadable(c: Content) {
    && |c.tokens| > 0 && Short(c.tokens) && Short(c.merges)
    && |c.scores| == (if c.family == Spm then |c.tokens| else 0)
    && (forall i :: 0 <= i < |c.scores| ==> c.scores[i] < WORD)
    && (c.family == Gemma4 ==> c.merges != [])
  }

  lemma BodyRead(c: Content)
    requires Loadable(c)
    ensures var body := Strings(c.tokens) + (Words(c.scores) + Strings(c.merges));
            ReadBody(c.family, body, |c.tokens|, |c.merges|) == Some(c)
  {
    hide ReadStrings, ReadScores, Strings, Words, ReadBody;
    var m := Strings(c.merges);
    StringsRead(c.tokens, Words(c.scores) + m);
    ScoresRead(c.family, c.scores, m, |c.tokens|);
    StringsRead(c.merges, []);
    NothingAfter(m);
    BodyIs(c, Strings(c.tokens) + (Words(c.scores) + m), Words(c.scores) + m, m);
  }

  lemma NothingAfter(m: Bytes)
    ensures m + [] == m
  {
  }

  lemma BodyIs(c: Content, b: Bytes, r1: Bytes, r2: Bytes)
    requires ReadStrings(b, |c.tokens|) == Some((c.tokens, r1))
    requires ReadScores(c.family, r1, |c.tokens|) == Some((c.scores, r2))
    requires ReadStrings(r2, |c.merges|) == Some((c.merges, []))
    requires c.family == Gemma4 ==> c.merges != []
    ensures ReadBody(c.family, b, |c.tokens|, |c.merges|) == Some(c)
  {
    hide ReadStrings, ReadScores;
  }

  lemma ScoresRead(f: Family, ws: seq<nat>, post: Bytes, n: nat)
    requires |ws| == (if f == Spm then n else 0) && forall i :: 0 <= i < |ws| ==> ws[i] < WORD
    ensures ReadScores(f, Words(ws) + post, n) == Some((ws, post))
  {
    if f == Spm {
      WordsRead(ws, post);
    } else {
      NoWords(ws);
      assert [] + post == post;
    }
  }

  lemma NoWords(ws: seq<nat>)
    requires ws == []
    ensures Words(ws) == []
  {
  }

  lemma HeaderRead(c: Content, rest: Bytes)
    ensures var b := Header(c) + rest;
            && b[16..] == rest
            && Value(b) == MAGIC && Value(b[4..]) == Tag(c.family)
            && Value(b[8..]) == |c.tokens| % WORD && Value(b[12..]) == |c.merges| % WORD
  {
    var w0, w1, w2, w3 := Word(MAGIC), Word(Tag(c.family)), Word(|c.tokens|), Word(|c.merges|);
    var b := Header(c) + rest;
    assert b == w0 + (w1 + (w2 + (w3 + rest)));
    assert b[4..] == w1 + (w2 + (w3 + rest)) && b[8..] == w2 + (w3 + rest) && b[12..] == w3 + rest;
    WordValue(MAGIC, w1 + (w2 + (w3 + rest)));
    WordValue(Tag(c.family), w2 + (w3 + rest));
    WordValue(|c.tokens|, w3 + rest);
    WordValue(|c.merges|, rest);
    ModUnique(MAGIC, 0, MAGIC, WORD);
    ModUnique(Tag(c.family), 0, Tag(c.family), WORD);
  }

  /** Whatever the loader returns is loadable, and its blob is the front of the input. */
  lemma ParseIsBlob(b: Bytes, vocab: nat)
    requires Parse(b, vocab).Some?
    ensures var c := Parse(b, vocab).value;
            Loadable(c) && |c.tokens| == vocab && Blob(c) <= b
  {
    var f, nv, nm := FamilyOf(Value(b[4..])).value, Value(b[8..]), Value(b[12..]);
    var c := Parse(b, vocab).value;
    BodyIsBlob(f, b[16..], nv, nm);
    ValueWord(b);
    ValueWord(b[4..]);
    ValueWord(b[8..]);
    ValueWord(b[12..]);
    assert Tag(f) == Value(b[4..]);
    hide ReadBody, Value, Word, Strings, Words;
    assert b[..16] == b[..4] + b[4..][..4] + b[8..][..4] + b[12..][..4];
    assert Header(c) == b[..16];
    assert b == b[..16] + b[16..];
  }

  lemma BodyIsBlob(f: Family, b: Bytes, nv: nat, nm: nat)
    requires ReadBody(f, b, nv, nm).Some? && 0 < nv < WORD && nm < WORD
    ensures var c := ReadBody(f, b, nv, nm).value;
            && Loadable(c) && c.family == f && |c.tokens| == nv && |c.merges| == nm
            && Strings(c.tokens) + (Words(c.scores) + Strings(c.merges)) <= b
  {
    var (tokens, r1) := ReadStrings(b, nv).value;
    var (scores, r2) := ReadScores(f, r1, nv).value;
    var (merges, r3) := ReadStrings(r2, nm).value;
    hide ReadStrings, ReadScores;
    ReadIsStrings(b, nv);
    ReadIsScores(f, r1, nv);
    ReadIsStrings(r2, nm);
    hide Strings, Words;
    ThreeParts(b, Strings(tokens), Words(scores), Strings(merges), r1, r2, r3);
  }

  lemma ReadIsScores(f: Family, b: Bytes, n: nat)
    requires ReadScores(f, b, n).Some?
    ensures var (ws, rest) := ReadScores(f, b, n).value;
            && b == Words(ws) + rest && |ws| == (if f == Spm then n else 0)
            && forall i :: 0 <= i < |ws| ==> ws[i] < WORD
  {
    if f == Spm {
      ReadIsWords(b, n);
      hide ReadWords, Words;
      assert b == b[..4 * n] + b[4 * n..];
    }
  }

  lemma ThreeParts(b: Bytes, x: Bytes, y: Bytes, z: Bytes, r1: Bytes, r2: Bytes, r3: Bytes)
    requires b == x + r1 && r1 == y + r2 && r2 == z + r3
    ensures x + (y + z) <= b
  {
    assert b == x + (y + z) + r3;
  }

  /** Loading what was written gives it back exactly when the loader can represent it: at least one token, all
      counts and lengths in 32 bits, scores present for SPM, merges present for gemma4. */
  lemma RoundTrip(c: Content)
    requires Writable(c)
    ensures Parse(Blob(c), |c.tokens| % WORD) == Some(c) <==> Loadable(c)
  {
    if Loadable(c) {
      var body := Strings(c.tokens) + (Words(c.scores) + Strings(c.merges));
      HeaderRead(c, body);
      ModUnique(|c.tokens|, 0, |c.tokens|, WORD);
      ModUnique(|c.merges|, 0, |c.merges|, WORD);
      BodyRead(c);
    }
    if Parse(Blob(c), |c.tokens| % WORD) == Some(c) {
      ParseIsBlob(Blob(c), |c.tokens| % WORD);
    }
  }

  /** A tokenizer written from a GGUF and loaded again has the family the GGUF loader would choose, the same tokens
      and merges, and the same scores, exactly when its counts and lengths fit, it has a token, an SPM one has its
      scores and a gemma4 one has merges. */
  lemma FileKeepsTokenizer(model: Option<string>, pre: Option<string>, tokens: seq<Bytes>, scores: Option<seq<nat>>,
                           merges: seq<Bytes>)
    requires scores.Some? ==> forall i :: 0 <= i < |scores.value| ==> scores.value[i] < WORD
    ensures var c := Extracted(model, pre, tokens, scores, merges); var f := FamilyNamed(model, pre);
            && (c.None? <==> f.None?)
            && (c.Some? ==>
                  c.value.scores ==
                  if f.value == Spm && scores.Some? && |scores.value| == |tokens| then scores.value else [])
            && (c.Some? ==>
                 (Parse(Blob(c.value), |tokens| % WORD) == Some(Content(f.value, tokens, c.value.scores, merges)) <==>
                    && |tokens| > 0 && Short(tokens) && Short(merges)
                    && (f.value == Spm ==> scores.Some? && |scores.value| == |tokens|)
                    && (f.value == Gemma4 ==> merges != [])))
  {
    var c := Extracted(model, pre, tokens, scores, merges);
    if c.Some? {
      hide Parse, Blob;
      RoundTrip(c.value);
    }
  }

  /** Without scores an SPM vocabulary is written but never read back as written. */
  lemma ScorelessSpm(tokens: seq<Bytes>, merges: seq<Bytes>)
    requires tokens != []
    ensures var c := Content(Spm, tokens, [], merges);
            Writable(c) && Parse(Blob(c), |c.tokens| % WORD) != Some(c)
  {
    RoundTrip(Content(Spm, tokens, [], merges));
  }

  /** A special id in the blob's header: absent is all ones. */
  function HeaderId(v: Option<nat>): nat {
    if v.Some? then v.value % WORD else 0xFFFF_FFFF
  }

  /** Reinterpretation as a signed 32-bit integer. */
  function Signed(u: nat): int {
    if u % WORD < 0x8000_0000 then u % WORD else u % WORD - WORD
  }

  lemma SignedWraps(u: nat)
    ensures -0x8000_0000 <= Signed(u) < 0x8000_0000 && (u - Signed(u)) % WORD == 0
  {
  }

  function LoadedId(u: nat): int {
    if u == 0xFFFF_FFFF then -1 else Signed(u)
  }

  /** The id the GGUF loader keeps. */
  function DirectId(v: Option<nat>): int {
    if v.Some? then Signed(v.value) else -1
  }

  /** The special ids survive the trip through the header, whatever they are. */
  lemma SpecialIdKept(v: Option<nat>)
    ensures LoadedId(HeaderId(v)) == DirectId(v)
  {
    if v.Some? {
      var u := v.value % WORD;
      ModUnique(u, 0, u, WORD);
    }
  }

  function StringsSize(ss: seq<Bytes>): nat {
    if ss == [] then 0 else 4 + |ss[0]| + StringsSize(ss[1..])
  }

  /** The computed blob size. */
  function Size(c: Content): nat {
    16 + StringsSize(c.tokens) + 4 * |c.scores| + StringsSize(c.merges)
  }

  lemma {:induction false} StringsLength(ss: seq<Bytes>)
    ensures |Strings(ss)| == StringsSize(ss)
    decreases |ss|
  {
    if ss != [] { StringsLength(ss[1..]); }
  }

  /** The computed size is the number of bytes written. */
  lemma SizeIsLength(c: Content)
    ensures |Blob(c)| == Size(c)
  {
    StringsLength(c.tokens);
    StringsLength(c.merges);
  }

  /** The first w bytes of the buffer hold done, and what is still to come fits. */
  ghost predicate Written(buf: array<byte>, w: nat, done: Bytes, rest: Bytes)
    reads buf
  {
    |done| == w && w + |rest| == buf.Length && buf[..w] == done
  }

  /** memcpy at the write cursor. */
  method Put(buf: array<byte>, w: nat, x: Bytes, ghost done: Bytes, ghost rest: Bytes) returns (w': nat)
    requires Written(buf, w, done, x + rest)
    modifies buf
    ensures Written(buf, w', done + x, rest) && w' == w + |x|
  {
    forall i | 0 <= i < |x| {
      buf[w + i] := x[i];
    }
    w' := w + |x|;
    assert buf[..w'] == done + x;
  }

  /** One loop of length-prefixed copies. */
  method PutStrings(buf: array<byte>, w: nat, ss: seq<Bytes>, ghost done: Bytes, ghost rest: Bytes) returns (w': nat)
    requires Written(buf, w, done, Strings(ss) + rest)
    modifies buf
    ensures Written(buf, w', done + Strings(ss), rest)
  {
    hide *;
    w' := w;
    ghost var now := done;
    assert ss[0..] == ss;
    for i := 0 to |ss|
      invariant Written(buf, w', now, Strings(ss[i..]) + rest)
      invariant now + Strings(ss[i..]) == done + Strings(ss)
    {
      StringsNext(ss, i, rest, now);
      ghost var tail := ss[i] + (Strings(ss[i + 1..]) + rest);
      w' := Put(buf, w', Word(|ss[i]|), now, tail);
      w' := Put(buf, w', ss[i], now + Word(|ss[i]|), Strings(ss[i + 1..]) + rest);
      now := now + Word(|ss[i]|) + ss[i];
    }
    StringsDone(ss, rest, now);
  }

  lemma StringsNext(ss: seq<Bytes>, i: nat, rest: Bytes, now: Bytes)
    requires i < |ss|
    ensures Strings(ss[i..]) + rest == Word(|ss[i]|) + (ss[i] + (Strings(ss[i + 1..]) + rest))
    ensures now + Strings(ss[i..]) == now + Word(|ss[i]|) + ss[i] + Strings(ss[i + 1..])
  {
    OneString(ss[i..], rest);
    assert ss[i..][1..] == ss[i + 1..];
    hide Word;
  }

  lemma StringsDone(ss: seq<Bytes>, rest: Bytes, now: Bytes)
    ensures Strings(ss[|ss|..]) + rest == rest && now + Strings(ss[|ss|..]) == now
  {
  }

  /** build_tok_blob: derive the family, size, allocate, and write with a moving cursor; None is the
      unknown-family error. */
  method BuildTokBlob(model: Option<string>, pre: Option<string>, tokens: seq<Bytes>, scores: Option<seq<nat>>,
                      merges: seq<Bytes>) returns (r: Option<(array<byte>, nat)>)
    ensures var c := Extracted(model, pre, tokens, scores, merges);
            && (r.None? <==> c.None?)
            && (r.Some? ==> var (blob, size) := r.value;
                 fresh(blob) && blob[..] == Blob(c.value) && size == blob.Length == Size(c.value))
  {
    var family := FamilyNamed(model, pre);
    if family.None? { return None; }
    var spm := family.value == Spm;
    var kept := if spm && scores.Some? && |scores.value| == |tokens| then scores.value else [];
    var blob, size := WriteBlob(Content(family.value, tokens, kept, merges));
    r := Some((blob, size));
  }

  method WriteBlob(c: Content) returns (blob: array<byte>, size: nat)
    ensures fresh(blob) && blob[..] == Blob(c) && size == blob.Length == Size(c)
  {
    hide *;
    size := ComputeSize(c);
    SizeIsLength(c);
    blob := new byte[size];
    Fill(blob, c);
  }

  /** Header, tokens, scores when there are any, merges. */
  method Fill(blob: array<byte>, c: Content)
    requires blob.Length == |Blob(c)|
    modifies blob
    ensures blob[..] == Blob(c)
  {
    hide *;
    BlobIs(c);
    ghost var h, t, x, m := Header(c), Strings(c.tokens), Words(c.scores), Strings(c.merges);
    Starts(blob, h + (t + (x + m)));
    var w := Put(blob, 0, Header(c), [], t + (x + m));
    Units(h, m);
    w := PutStrings(blob, w, c.tokens, h, x + m);
    if c.scores != [] {
      w := Put(blob, w, Words(c.scores), h + t, m);
    } else {
      NoWords(c.scores);
      Units(h + t, m);
    }
    Units(h, m);
    w := PutStrings(blob, w, c.merges, h + t + x, []);
    Finished(blob, w, h + t + x + m);
    FourParts(h, t, x, m);
  }

  lemma Units(a: Bytes, b: Bytes)
    ensures [] + a == a && a + [] == a && [] + b == b && b + [] == b
  {
  }

  lemma FourParts(h: Bytes, t: Bytes, x: Bytes, m: Bytes)
    ensures h + t + x + m == h + (t + (x + m))
  {
  }

  /** The three summing loops. */
  method ComputeSize(c: Content) returns (size: nat)
    ensures size == Size(c)
  {
    size := 16;
    var n := SumSizes(c.tokens);
    size := size + n;
    size := size + 4 * |c.scores|;
    n := SumSizes(c.merges);
    size := size + n;
  }

  method SumSizes(ss: seq<Bytes>) returns (n: nat)
    ensures n == StringsSize(ss)
  {
    n := 0;
    assert ss[0..] == ss;
    for i := 0 to |ss|
      invariant n + StringsSize(ss[i..]) == StringsSize(ss)
    {
      assert ss[i..][1..] == ss[i + 1..];
      n := n + 4 + |ss[i]|;
    }
  }

  lemma BlobIs(c: Content)
    ensures Blob(c) == Header(c) + (Strings(c.tokens) + (Words(c.scores) + Strings(c.merges)))
  {
  }

  lemma Starts(buf: array<byte>, all: Bytes)
    requires buf.Length == |all|
    ensures Written(buf, 0, [], all)
  {
  }

  lemma Finished(buf: array<byte>, w: nat, done: Bytes)
    requires Written(buf, w, done, [])
    ensures buf[..] == done
  {
  }

  /** tf_u32: a bounds-checked word at the cursor. */
  method TfU32(blob: Bytes, pos: nat) returns (v: Option<nat>)
    requires pos <= |blob|
    ensures v == if pos + 4 > |blob| then None else Some(Value(blob[pos..]))
  {
    if pos + 4 > |blob| { return None; }
    v := Some(Value(blob[pos..pos + 4]));
    hide Value;
    SameWord(blob[pos..pos + 4], blob[pos..]);
  }

  lemma SameWord(a: Bytes, b: Bytes)
    requires |a| >= 4 && |b| >= 4 && a[..4] == b[..4]
    ensures Value(a) == Value(b)
  {
    assert forall i :: 0 <= i < 4 ==> a[i] == a[..4][i] && b[i] == b[..4][i];
  }

  /** One loop of bounds-checked length-prefixed reads. */
  method TakeStrings(blob: Bytes, start: nat, n: nat) returns (r: Option<(seq<Bytes>, nat)>)
    requires start <= |blob|
    ensures r.None? <==> ReadStrings(blob[start..], n).None?
    ensures r.Some? ==> r.value.1 <= |blob| && ReadStrings(blob[start..], n) == Some((r.value.0, blob[r.value.1..]))
  {
    hide *;
    var ss: seq<Bytes>, pos: nat := [], start;
    ghost var want := ReadStrings(blob[start..], n);
    PrependNothing(want);
    for i := 0 to n
      invariant pos <= |blob|
      invariant want == Prepended(ss, ReadStrings(blob[pos..], n - i))
    {
      var len := TfU32(blob, pos);
      ReadStep(blob, pos, n - i, ss);
      if len.None? || pos + 4 + len.value > |blob| {
        return None;
      }
      pos := pos + 4;
      ss := ss + [blob[pos..pos + len.value]];
      pos := pos + len.value;
    }
    ReadEnd(blob[pos..], ss);
    r := Some((ss, pos));
  }

  function Prepended(ss: seq<Bytes>, r: Option<(seq<Bytes>, Bytes)>): Option<(seq<Bytes>, Bytes)> {
    if r.None? then None else Some((ss + r.value.0, r.value.1))
  }

  lemma PrependNothing(r: Option<(seq<Bytes>, Bytes)>)
    ensures Prepended([], r) == r
  {
    if r.Some? { assert [] + r.value.0 == r.value.0; }
  }

  lemma ReadStep(blob: Bytes, pos: nat, n: nat, ss: seq<Bytes>)
    requires pos <= |blob| && n > 0
    ensures pos + 4 > |blob| ==> Prepended(ss, ReadStrings(blob[pos..], n)) == None
    ensures pos + 4 <= |blob| ==>
              var len := Value(blob[pos..]);
              && (pos + 4 + len > |blob| ==> Prepended(ss, ReadStrings(blob[pos..], n)) == None)
              && (pos + 4 + len <= |blob| ==>
                   Prepended(ss, ReadStrings(blob[pos..], n))
                   == Prepended(ss + [blob[pos + 4..pos + 4 + len]], ReadStrings(blob[pos + 4 + len..], n - 1)))
  {
    hide Value;
    if pos + 4 <= |blob| {
      var b, len := blob[pos..], Value(blob[pos..]);
      if pos + 4 + len <= |blob| {
        assert b[4..4 + len] == blob[pos + 4..pos + 4 + len] && b[4 + len..] == blob[pos + 4 + len..];
        var rest := ReadStrings(blob[pos + 4 + len..], n - 1);
        if rest.Some? {
          assert ss + ([b[4..4 + len]] + rest.value.0) == ss + [b[4..4 + len]] + rest.value.0;
        }
      }
    }
  }

  lemma ReadEnd(b: Bytes, ss: seq<Bytes>)
    ensures Prepended(ss, ReadStrings(b, 0)) == Some((ss, b))
  {
    assert ss + [] == ss;
  }

  /** The blob part of sp_tokenizer_load_tokfile. */
  method LoadBlob(blob: Bytes, vocab: nat) returns (r: Option<Content>)
    ensures r == Parse(blob, vocab)
  {
    hide Value, ReadBody;
    if |blob| < 16 { return None; }
    var magic := TfU32(blob, 0);
    var tag := TfU32(blob, 4);
    var nv := TfU32(blob, 8);
    var nm := TfU32(blob, 12);
    assert blob[0..] == blob;
    if magic.value != MAGIC { return None; }
    var f := FamilyOf(tag.value);
    if f.None? || nv.value == 0 || nv.value != vocab { return None; }
    r := LoadBody(blob, f.value, nv.value, nm.value);
  }

  method LoadBody(blob: Bytes, f: Family, nv: nat, nm: nat) returns (r: Option<Content>)
    requires |blob| >= 16
    ensures r == ReadBody(f, blob[16..], nv, nm)
  {
    hide ReadStrings, ReadWords;
    var tokens := TakeStrings(blob, 16, nv);
    if tokens.None? { return None; }
    var pos := tokens.value.1;
    var scores: seq<nat> := [];
    if f == Spm {
      if pos + nv * 4 > |blob| { return None; }
      scores := ReadWords(blob[pos..], nv);
      assert blob[pos..][4 * nv..] == blob[pos + nv * 4..];
      pos := pos + nv * 4;
    }
    var merges := TakeStrings(blob, pos, nm);
    if merges.None? { return None; }
    if nm == 0 && f == Gemma4 { return None; }
    r := Some(Content(f, tokens.value.0, scores, merges.value.0));
  }
}
