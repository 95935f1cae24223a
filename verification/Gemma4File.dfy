/** The two ways to a gemma4 tokenizer: straight from the GGUF fields, or through the transcoded file. */
module Gemma4File {
  import opened Basics
  import opened Gemma4Build
  import opened Gemma4Decode
  import opened Gemma4Text
  import opened Specials
  import opened TokenizerBlob

  /** The vocabulary limit of the GGUF loader; the file loader has none of its own. */
  const MAX_VOCAB: nat := 100_000_000

  /** The GGUF fields a gemma4 tokenizer is made of; a special id may be missing and may have any width. */
  datatype Fields = Fields(tokens: seq<Bytes>, merges: seq<Bytes>,
                           bos: Option<nat>, eos: Option<nat>, pad: Option<nat>, unk: Option<nat>)

  /** The special ids in the file's header. */
  datatype HeaderIds = HeaderIds(bos: nat, eos: nat, pad: nat, unk: nat)

  /** What encoding and decoding depend on. */
  datatype Loaded = Loaded(tokens: seq<Bytes>, merges: seq<Bytes>, marks: Marks)

  /** Tokens and merges the tables can be built from and a BOS id inside the vocabulary, or no tokenizer. */
  ghost function Checked(tokens: seq<Bytes>, merges: seq<Bytes>, bos: int, eos: int, pad: int, unk: int)
    : Option<Loaded>
  {
    if Accepts(tokens, merges) && 0 <= bos < |tokens| then Some(Loaded(tokens, merges, Marks(bos, eos, pad, unk)))
    else None
  }

  /** The tokenizer loaded from the GGUF. */
  ghost function Direct(g: Fields): Option<Loaded> {
    if 0 < |g.tokens| <= MAX_VOCAB
    then Checked(g.tokens, g.merges, DirectId(g.bos), DirectId(g.eos), DirectId(g.pad), DirectId(g.unk)) else None
  }

  /** The tokenizer loaded from a file with this blob, header vocabulary size and header ids. */
  ghost function FromFile(blob: Bytes, vocab: nat, h: HeaderIds): Option<Loaded> {
    match Parse(blob, vocab)
    case Some(c) =>
      if c.family == Gemma4
      then Checked(c.tokens, c.merges, LoadedId(h.bos), LoadedId(h.eos), LoadedId(h.pad), LoadedId(h.unk)) else None
    case None => None
  }

  /** The tokenizer and special ids are those of l. */
  ghost predicate Is(t: Tokenizer, marks: Marks, l: Loaded) {
    t.tok == l.tokens && t.merges == l.merges && marks == l.marks
  }

  /** sp_g4_build and the BOS check, the end of both loaders. */
  method Finish(tokens: seq<Bytes>, merges: seq<Bytes>, bos: int, eos: int, pad: int, unk: int,
                hash: Bytes -> nat, hash64: int -> nat) returns (t: Tokenizer?, marks: Marks)
    requires |tokens| < 0x8000_0000
    ensures t != null ==> t.Ready() && fresh(t) && fresh(t.Repr())
    ensures t != null <==> Checked(tokens, merges, bos, eos, pad, unk).Some?
    ensures t != null ==> Is(t, marks, Checked(tokens, merges, bos, eos, pad, unk).value)
  {
    hide Tokenizer.Ready, Tokenizer.Repr, Accepts;
    marks := Marks(0, eos, pad, unk);
    t := Build(tokens, merges, hash, hash64);
    if bos < 0 || bos >= |tokens| {
      return null, marks;
    }
    marks := Marks(bos, eos, pad, unk);
  }

  /** The gemma4 lane of sp_tokenizer_load_ex. */
  method LoadDirect(g: Fields, hash: Bytes -> nat, hash64: int -> nat) returns (t: Tokenizer?, marks: Marks)
    ensures t != null ==> t.Ready() && fresh(t) && fresh(t.Repr())
    ensures t != null <==> Direct(g).Some?
    ensures t != null ==> Is(t, marks, Direct(g).value)
  {
    hide Tokenizer.Ready, Tokenizer.Repr, Checked, Is;
    if |g.tokens| == 0 || |g.tokens| > MAX_VOCAB {
      return null, Marks(0, -1, -1, -1);
    }
    t, marks := Finish(g.tokens, g.merges, DirectId(g.bos), DirectId(g.eos), DirectId(g.pad), DirectId(g.unk),
                       hash, hash64);
  }

  /** The gemma4 lane of sp_tokenizer_load_tokfile. */
  method Load(blob: Bytes, vocab: nat, h: HeaderIds, hash: Bytes -> nat, hash64: int -> nat)
    returns (t: Tokenizer?, marks: Marks)
    requires vocab < 0x8000_0000
    ensures t != null ==> t.Ready() && fresh(t) && fresh(t.Repr())
    ensures t != null <==> FromFile(blob, vocab, h).Some?
    ensures t != null ==> Is(t, marks, FromFile(blob, vocab, h).value)
  {
    hide Tokenizer.Ready, Tokenizer.Repr, Checked, Is, Parse, Loadable, Blob;
    t, marks := null, Marks(0, -1, -1, -1);
    var c := LoadBlob(blob, vocab);
    if c.Some? {
      ParseIsBlob(blob, vocab);
      if c.value.family == Gemma4 {
        t, marks := Finish(c.value.tokens, c.value.merges,
                           LoadedId(h.bos), LoadedId(h.eos), LoadedId(h.pad), LoadedId(h.unk), hash, hash64);
      }
    }
  }

  /** When the GGUF route gives a tokenizer, and which: the special ids are the fields read as signed 32-bit numbers,
      -1 for a missing one. */
  lemma DirectIff(g: Fields)
    ensures Direct(g).Some? <==>
              && 1 <= |g.tokens| <= 100_000_000 && Accepts(g.tokens, g.merges)
              && g.bos.Some? && 0 <= Signed(g.bos.value) < |g.tokens|
    ensures Direct(g).Some? ==>
              && Direct(g).value.tokens == g.tokens && Direct(g).value.merges == g.merges
              && Direct(g).value.marks.bos == Signed(g.bos.value)
              && Direct(g).value.marks.eos == (if g.eos.Some? then Signed(g.eos.value) else -1)
              && Direct(g).value.marks.pad == (if g.pad.Some? then Signed(g.pad.value) else -1)
              && Direct(g).value.marks.unk == (if g.unk.Some? then Signed(g.unk.value) else -1)
  {
    hide Accepts, Signed;
  }

  /** When the file route does: the blob parses in the gemma4 family, the merges can be built and the BOS is a token. */
  lemma FromFileIff(blob: Bytes, vocab: nat, h: HeaderIds)
    ensures var c := Parse(blob, vocab);
            FromFile(blob, vocab, h).Some? <==>
              && c.Some? && c.value.family == Gemma4 && Accepts(c.value.tokens, c.value.merges)
              && 0 <= LoadedId(h.bos) < |c.value.tokens|
    ensures var c, f := Parse(blob, vocab), FromFile(blob, vocab, h);
            f.Some? ==>
              && f.value.tokens == c.value.tokens && f.value.merges == c.value.merges
              && f.value.marks.bos == LoadedId(h.bos) && f.value.marks.eos == LoadedId(h.eos)
              && f.value.marks.pad == LoadedId(h.pad) && f.value.marks.unk == LoadedId(h.unk)
  {
    hide Accepts, LoadedId, Parse;
  }

  /** The header the transcoder writes. */
  function HeaderOf(g: Fields): HeaderIds {
    HeaderIds(HeaderId(g.bos), HeaderId(g.eos), HeaderId(g.pad), HeaderId(g.unk))
  }

  /** Loading the transcoded file gives the tokenizer the GGUF gives, or nothing when that gives nothing; only a
      vocabulary above the GGUF loader's limit comes through the file alone. */
  lemma SameTokenizer(model: Option<string>, pre: Option<string>, g: Fields, scores: Option<seq<nat>>)
    requires FamilyNamed(model, pre) == Some(Gemma4) && Short(g.tokens) && Short(g.merges)
    ensures var c := Extracted(model, pre, g.tokens, scores, g.merges).value;
            Direct(g) == if |g.tokens| <= MAX_VOCAB then FromFile(Blob(c), |g.tokens| % WORD, HeaderOf(g)) else None
  {
    var c := Extracted(model, pre, g.tokens, scores, g.merges).value;
    var file := Parse(Blob(c), |g.tokens| % WORD);
    SpecialIdKept(g.bos);
    SpecialIdKept(g.eos);
    SpecialIdKept(g.pad);
    SpecialIdKept(g.unk);
    RoundTrip(c);
    hide Parse, Blob, LoadedId, DirectId, HeaderId, Short;
    if Loadable(c) {
      assert file == Some(c);
    } else {
      EmptyIsRefused(c);
    }
  }

  /** Without tokens or merges neither loader yields a gemma4 tokenizer. */
  lemma EmptyIsRefused(c: Content)
    requires c.family == Gemma4 && |c.tokens| < WORD && |c.merges| < WORD && (c.tokens == [] || c.merges == [])
    ensures Parse(Blob(c), |c.tokens| % WORD) == None
  {
    BlobIs(c);
    HeaderRead(c, Strings(c.tokens) + (Words(c.scores) + Strings(c.merges)));
    hide Value, Header, Strings, Words, ReadStrings, ReadScores, Blob, Loadable;
  }

  /** Both tokenizers encode every text alike, and decode every list of ids alike: the file does not carry the
      special surfaces, so the direct one without special parsing is compared with the file's in either mode. */
  lemma EncodesAlike(model: Option<string>, pre: Option<string>, g: Fields, scores: Option<seq<nat>>,
                     spec: seq<Special>, s: Bytes, parseSpecial: bool, ids: seq<int>)
    requires FamilyNamed(model, pre) == Some(Gemma4) && Short(g.tokens) && Short(g.merges)
    ensures var d := Direct(g);
            var c := Extracted(model, pre, g.tokens, scores, g.merges).value;
            var f := FromFile(Blob(c), |g.tokens| % WORD, HeaderOf(g));
            && (d.Some? <==> f.Some? && |g.tokens| <= MAX_VOCAB)
            && (d.Some? ==>
                  && EncodeIds(f.value.tokens, f.value.merges, f.value.marks, [], s, parseSpecial)
                     == EncodeIds(d.value.tokens, d.value.merges, d.value.marks, spec, s, false)
                  && DecodeIds(f.value.tokens, f.value.marks, ids) == DecodeIds(d.value.tokens, d.value.marks, ids))
  {
    SameTokenizer(model, pre, g, scores);
    hide Parse, Blob, FromFile, Direct;
  }
}
