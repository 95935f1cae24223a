# Verified model of the tokenizer engine, the ring3 algebra and the integer kernels

This project models, in Dafny, the exact (non floating point) algorithmic cores of the engine and proves what they
promise. `dafny verify dfyconfig.toml` checks everything.

**Tokenizer engine.** Three encoder lanes share one open-addressing map and one simple specification, `GreedyBpe`:
repeatedly merge the neighbouring pair of lowest rank, leftmost on ties, over a list of byte strings.
The GEMMA4 lane (`Gemma4Build`, `Gemma4Merge`, `Gemma4Piece`, `Gemma4Text`) and the SPM lane (`SpmMerge`,
`SpmFragment`) run a heap over a doubly linked symbol array and skip stale entries; both are proved to end with the
symbols of the simple form, from an invariant about which entries the heap must hold (`Candidates`, `SymbolList`,
`BigramHeap`). `Specials` splits a text at special tokens; `Gemma4Text` and `SpmText` are the two encoders' top levels,
which `IdLists` describes as stretches of ids in order; `SpmCharacters` and `Utf8` say where characters are cut.
The GPT2 lane (`Gpt2Piece`, `Gpt2Text`) shifts spans in place, and its hand-written scanner is proved against a
list-of-successes semantics of ordered, greedy, backtracking regular expressions (`Regex`, `Pretokenizer`) and against
a description of the pieces in terms of the character classes alone (`PieceKinds`); `ScalarValues` ties its lenient
decoding step to UTF-8.
Decoding inverts encoding on every byte string in the GPT2 lane, with no assumption on the vocabulary, and up to the
aliasing of U+2581 and space on well-formed text (section 4 of RFC 3629) in the GEMMA4 lane.

**Ring3.** `Negacyclic` builds Z[x]/(x^N + 1) on multiplication by x; `Convolution` shows that both ways the scripts
compute a product agree with it; `NoZeroDivisors` shows that for N a power of two the ring has no zero divisors.
`Binding` lifts this to direct sums of blocks. `Consolidation` is the NIGHTSHIFT state machine over values,
`ConsolidationRuns` proves what every run keeps, and `Nightshift` is the program: a class per vector and the loop,
refining the state machine. That a fresh vector must accept is a theorem: its score is the squared length of a product
of non-zero vectors. `Crt` covers the dual-prime reconstruction of integer dots.

**Kernels.** `FixedPoint`, `Ln2` and `ExpAccuracy` treat the 30-bit exponential, its constants and its distance from
the real one; `Islands` and `GeluConstants` softmax, tanh and GELU; `Attention` the exact integer attention; `Walsh` and
`Fwht` the in-place Walsh-Hadamard butterfly over exact numbers.

**Files.** `TokenizerBlob` and `Gemma4File` treat the tokenizer blob, `DataRegion` the tensor data region in streaming
and in-memory mode, `UnicodeRanges` the generated range tables and their binary search.

Where a routine changes state in the original it is a method over arrays, fields or a moving cursor here, and its
contract ties the result to a function; the theorems are about those functions. Comments above the declarations say
which routine a member stands for.

Findings, stated as theorems:

- The blob's layout comment allows an SPM vocabulary without scores (sp_transcode.c:497-505), the writer writes one,
  and the loader refuses or misreads it (tokenizer.c:717-722). `TokenizerBlob.RoundTrip` gives the exact condition
  under which the round trip holds and `TokenizerBlob.ScorelessSpm` the failing family.
- In the GEMMA4 lane `decode(encode(s))` is `s` exactly when every final symbol of `s` is decodable (no special id, no
  token that reads `<0xNN>`) and `s` has no U+2581, if the vocabulary has U+2581 (`Gemma4RoundTrip.ExactRoundTrip`), or
  no space, if it has not (`Gemma4RoundTrip.WithoutMetaspace`); the promise that only U+2581 is aliased
  (gemma4_bpe.c:24-26) needs U+2581 in the vocabulary and every string that merging leaves whole decodable
  (`Gemma4RoundTrip.AllReadBackIff`).
- A GPT2 model without merge lines loads, but its encoder dereferences a merge map that was never allocated
  (tokenizer.c:169, 739, 421); `Gpt2RoundTrip.NullMapIff` says exactly when.
- `garner` and `exact_dot` are exact if and only if the integer fits half the modulus (`Crt.GarnerExact`,
  `Crt.ExactDotIsDot`).
- A consolidation run of distinct names fails exactly for dimensions that do not tile (ValueError) and for dimension 0
  (the assertion), `ConsolidationRuns.DistinctRuns` and `ConsolidationRuns.RunOutcome`. With repeated names it also
  raises when an episode repeats the only name of the vector it meets (`ConsolidationRuns.RepeatAtOnce`; never when no
  name directly follows itself, `ConsolidationRuns.AdjacentRuns`). Refusing a name that the vector holds, below the cap,
  deletes that name's entries, and then, and only then, the final check raises a KeyError (`Nightshift.Nightshift`,
  `ConsolidationRuns.TornIff`). A held name that returns with the seed of the episode just before it is always refused
  (`ConsolidationRuns.TwinTears`); `ConsolidationRuns.TornBatch` says exactly which three-episode batches end so.

## Model

| member | source | states |
|---|---|---|
| `OpenAddressing.ByteMap.Put` | src/tokenizer/tokenizer.c:43-50 | inserting into the probed slots is first-writer-wins insertion into a map: an already stored key keeps its value, every other key is untouched |
| `OpenAddressing.ByteMap.Get` | src/tokenizer/tokenizer.c:51-58 | returns the first value stored for the key, or the default, for any hash function |
| `OpenAddressing.ByteMap.Probe` | src/tokenizer/tokenizer.c:44-48 | the probe loop ends at the key or at an empty slot, whatever the collisions |
| `OpenAddressing.Capacity` | src/tokenizer/tokenizer.c:35-36 | the table has a power-of-two capacity of at least 16 and at least twice the number of insertions, so load stays at most one half |
| `OpenAddressing.PairTable.Put` | src/tokenizer/gemma4_bpe.c:40-47 | the merge table keeps the first, hence lowest, rank written for an id pair; its key is never the empty marker |
| `OpenAddressing.PairKeyParts` | src/tokenizer/gemma4_bpe.c:49 | the upper half of a key is the left id, the lower half the right id |
| `OpenAddressing.PairTable.Rank` | src/tokenizer/gemma4_bpe.c:48-56 | answers the stored rank of an id pair or -1 |
| `OpenAddressing.EmptyMeansAbsent` | src/tokenizer/gemma4_bpe.c:48-56 | an empty slot on the probe path proves the key is stored nowhere |
| `OpenAddressing.StoredKeyEndsProbe` | src/tokenizer/tokenizer.c:51-58 | a probe never runs past the slot that stores its key |
| `OpenAddressing.ProbeContinues` | src/tokenizer/tokenizer.c:45-48 | a probe that keeps missing still has an empty slot ahead of it, so it terminates |
| `OpenAddressing.InsertKeepsIndexed` | src/tokenizer/tokenizer.c:43-50 | filling the first empty slot of a probe path keeps every other key reachable |
| `Vocab.BuildVocab` | src/tokenizer/tokenizer.c:123-126 | after the loading loop the map answers, for every byte string, the lowest id with that text or -1 |
| `Vocab.IdInjective` | src/tokenizer/tokenizer.c:62-64 | ids stand for strings one to one: equal ids mean equal strings |
| `Vocab.SplitIff` | src/tokenizer/gemma4_bpe.c:83-89 | a merge line splits at its first space after the first byte, into two non-empty sides, and otherwise not at all |
| `Vocab.ByteNameIs` | src/tokenizer/gemma4_bpe.c:119-128 | byte tokens are spelt with two upper-case hex digits |
| `Vocab.BuildByteTok` | src/tokenizer/gemma4_bpe.c:119-128 | succeeds exactly when all 256 byte tokens are in the vocabulary, and then holds their ids |
| `GreedyBpe.GreedyStep` | tools/oracle/bpe_proto.py:48-57 | any way of finding a pair of lowest rank, leftmost among equals, takes the same step as the left-to-right scan |
| `GreedyBpe.GreedyNext` | tools/oracle/bpe_proto.py:48-57 | in terms of ranks alone: the next merge is the pair with no lower rank anywhere and no rank as low before it |
| `Vocab.EarliestLineFirst` | tools/oracle/bpe_proto.py:48-57 | with merge lines for ranks: the earliest line that names neighbours is applied, to the leftmost it names |
| `Vocab.NoLineLeft` | tools/oracle/bpe_proto.py:50-55 | and when no line names neighbours nothing changes |
| `GreedyBpe.GreedyIsStuck` | tools/oracle/bpe_proto.py:50-55 | the loop only stops when no neighbouring pair is ranked |
| `GreedyBpe.GreedyKeepsText` | tools/oracle/bpe_proto.py:56-57 | merging never changes the concatenated text |
| `GreedyBpe.GreedyKeeps` | tools/oracle/bpe_proto.py:48-57 | a property of the start symbols kept by every ranked merge holds of all final symbols |
| `GreedyBpe.GreedyLocal` | tools/oracle/bpe_proto.py:48-57 | every final symbol is what the start symbols it was made of give on their own: merging is local |
| `BigramHeap.Push` | src/tokenizer/gemma4_bpe.c:166-172 | sifting up restores heap order; contents are the old ones plus the new entry |
| `BigramHeap.Pop` | src/tokenizer/gemma4_bpe.c:175-187 | removes an entry that comes no later than any other in the queue order; the rest stay, in heap order |
| `BigramHeap.RootIsFirst` | src/tokenizer/gemma4_bpe.c:155-157 | the root precedes or ties every element of a heap |
| `BigramHeap.GrowingHeap.PushOne` | src/tokenizer/gemma4_bpe.c:159-174 | the doubling heap loses nothing when it grows |
| `Gemma4Build.Build` | src/tokenizer/gemma4_bpe.c:58-130 | succeeds exactly when every separable merge line has both sides and its result in the vocabulary and all byte tokens exist; its tables then mean what the merge strings mean |
| `Gemma4Build.BuildPairs` | src/tokenizer/gemma4_bpe.c:64-113 | after the merge loop the id-keyed table answers every pair of strings as the string-keyed first-wins merge list would |
| `Gemma4Build.RecordLine` | src/tokenizer/gemma4_bpe.c:99-112 | recording one line keeps that agreement, because ids are unique per string |
| `Gemma4Build.ResolveLine` | src/tokenizer/gemma4_bpe.c:82-111 | one merge line is inert, a hard error, or a merge with the ids of both sides and of the result |
| `Gemma4Merge.CurrentIsPair` | src/tokenizer/gemma4_bpe.c:234-238 | a popped entry that passes the id test still names two neighbours and is their present candidate |
| `Gemma4Merge.StaleIsUseless` | src/tokenizer/gemma4_bpe.c:235-238 | an entry that fails the test is no neighbouring pair's candidate, so skipping it loses nothing |
| `Gemma4Merge.TopIsBest` | src/tokenizer/gemma4_bpe.c:232-238 | the first current entry off the heap is the pair the simple loop would merge |
| `Gemma4Merge.MergedId` | src/tokenizer/gemma4_bpe.c:240 | the recorded result id is the id of the joined text |
| `Gemma4Merge.MergeKeepsInv` | src/tokenizer/gemma4_bpe.c:239-245 | after a merge and its two pushes every neighbouring ranked pair again has a current entry |
| `Gemma4Piece.MergeStep` | src/tokenizer/gemma4_bpe.c:239-245 | the linked-list merge is the next merge of the simple loop |
| `Gemma4Piece.MergeAll` | src/tokenizer/gemma4_bpe.c:232-246 | the heap loop ends with the symbols of the leftmost-lowest-rank loop over strings |
| `Gemma4Piece.InitSyms` | src/tokenizer/gemma4_bpe.c:219-228 | the initial symbols are the lead-byte characters of the piece, linked in order and tagged with their ids |
| `Gemma4Piece.EmitSyms` | src/tokenizer/gemma4_bpe.c:249-256 | following the links emits, in order, the id of every final symbol or its byte tokens |
| `Gemma4Piece.Piece` | src/tokenizer/gemma4_bpe.c:208-259 | the ids of a piece are those of the simple form on strings; a newline run that is a token is atomic |
| `SymbolList.Neighbours` | src/tokenizer/gemma4_bpe.c:234-246 | two linked symbols with no linked symbol between them are neighbours in the list |
| `SymbolList.MergedTexts` | src/tokenizer/gemma4_bpe.c:239-243 | one merge in the linked array is one merge of the list of texts |
| `SymbolList.CoversAfterMerge` | src/tokenizer/gemma4_bpe.c:244-245 | the two pushes restore heap coverage of all neighbouring pairs |
| `Candidates.CoveredAfter` | src/tokenizer/gemma4_bpe.c:238-246 | for any candidate function of offsets, lengths and tags: after a merge and its two pushes the heap covers every neighbouring pair again |
| `Candidates.TopOfHeap` | src/tokenizer/gemma4_bpe.c:229-237 | a first heap entry that some pair wants is the pair of lowest rank, leftmost among equals |
| `Escaping.EscapeBytewise` | src/tokenizer/gemma4_bpe.c:270-273 | byte by byte, 20 becomes E2 96 81 and any other byte stays |
| `Escaping.EscapeSpaces` | src/tokenizer/gemma4_bpe.c:267-273 | writes the text with every space replaced by U+2581 within 3 * len + 1 bytes |
| `Gemma4Text.Fragment` | src/tokenizer/gemma4_bpe.c:263-284 | a fragment's ids are those of its escaped maximal newline and non-newline runs, in order |
| `Gemma4Text.RunsTile` | src/tokenizer/gemma4_bpe.c:275-281 | the newline and non-newline runs of a text concatenate to it |
| `TokenIds.SymbolIdsLaw` | src/tokenizer/gemma4_bpe.c:249-256 | a final symbol that is a token gives its lowest id alone, any other gives the byte token of each of its bytes |
| `Gemma4Text.RunsAlternate` | src/tokenizer/gemma4_bpe.c:275-281 | the pieces of a text are not empty, each is all line feeds or has none, and neighbours differ in that |
| `Gemma4Text.AlternatingUnique` | src/tokenizer/gemma4_bpe.c:275-281 | only one such list concatenates to the text, so the runs are maximal |
| `Gemma4Text.OneRunSyms` | src/tokenizer/gemma4_bpe.c:208-218 | the final symbols of a text without line feeds, or of nothing else: a line-feed run that is a token stays whole, anything else is merged from its escaped characters |
| `Gemma4Text.TextSymsSplit` | src/tokenizer/gemma4_bpe.c:275-281 | where line feeds begin or end the two sides are encoded on their own |
| `Gemma4Text.Encode` | src/tokenizer/gemma4_bpe.c:286-313 | no ids for the empty text; else the first is BOS; without special parsing the others are the ids of the final symbols of the text; with it they are, in order and with nothing between them, the ids of the final symbols of each gap and exactly the id of each special; the buffer holds the ids that fit |
| `Gemma4Text.EncodesText` | src/tokenizer/gemma4_bpe.c:291-310 | the list of ids is BOS and then the readings of gaps and specials, each in its own stretch |
| `Gemma4Text.EncodesPlain` | src/tokenizer/gemma4_bpe.c:291-310 | without special parsing it is BOS and the ids of the text's final symbols |
| `Gemma4Decode.IdsDecode` | src/tokenizer/gemma4_bpe.c:333-335 | BOS, EOS, PAD and UNK and ids outside the vocabulary decode to nothing, any other id to the text of its token |
| `Gemma4Decode.ByteTokenIff` | src/tokenizer/gemma4_bpe.c:321-342 | byte tokens are "<0x", two hex digits in either case, ">", and stand for that byte; nothing else is one |
| `Gemma4Decode.Decode` | src/tokenizer/gemma4_bpe.c:328-353 | the text written is the concatenation of the ids' texts: special and out-of-range ids nothing, byte tokens one byte, others with U+2581 as space; a buffer that is too small holds the front of it, terminated |
| `Gemma4RoundTrip.RoundTrip` | src/tokenizer/gemma4_bpe.c:208-353 | for every well-formed text and every vocabulary the build accepts: decoding its ids gives the text with U+2581 read as a space (or the escaped text, when U+2581 is not a token) if and only if every final symbol of the text is decodable |
| `Gemma4RoundTrip.ExactRoundTrip` | src/tokenizer/gemma4_bpe.c:24-26 | with U+2581 in the vocabulary, the text itself comes back if and only if it contains no U+2581 and every final symbol is decodable |
| `Gemma4RoundTrip.WithoutMetaspace` | src/tokenizer/gemma4_bpe.c:267-273 | without U+2581 in the vocabulary a text whose final symbols are decodable comes back escaped; any text comes back unchanged if and only if it has no space and all of them are decodable |
| `Gemma4RoundTrip.SymbolsText` | src/tokenizer/gemma4_bpe.c:320-349 | a list of final symbols decodes to its text when all are decodable, and to something strictly shorter when one is a special id or reads <0xNN> |
| `Gemma4RoundTrip.TextSymsClean` | src/tokenizer/gemma4_bpe.c:263-284 | the final symbols of a text are non-empty and well-formed, each a token or one character, and concatenate to the escaped text |
| `Gemma4RoundTrip.MergesStayClean` | src/tokenizer/gemma4_bpe.c:238-246 | every merge the encoder can make keeps symbols so, and U+2581 outside the vocabulary never merges |
| `Gemma4RoundTrip.FaithfulDecodes` | src/tokenizer/gemma4_bpe.c:328-353 | conditions on the vocabulary alone under which every final symbol of every well-formed text is decodable |
| `Gemma4RoundTrip.ReadsBackIff` | src/tokenizer/gemma4_bpe.c:343-348 | under them every well-formed text reads back if and only if U+2581 is a token; a single space is the counterexample otherwise |
| `Gemma4RoundTrip.FinalIff` | src/tokenizer/gemma4_bpe.c:208-259 | the final symbols of texts are exactly the strings that merging leaves whole, each a token or one character |
| `Gemma4RoundTrip.VocabularyIff` | src/tokenizer/gemma4_bpe.c:320-349 | every well-formed text decodes whole if and only if every such string is decodable |
| `Gemma4RoundTrip.AllReadBackIff` | src/tokenizer/gemma4_bpe.c:24-26 | every well-formed text reads back if and only if U+2581 is a token and every such string is decodable |
| `Utf8.FlattenValid` | src/tokenizer/gemma4_bpe.c:144-147 | well-formed strings are exactly the concatenations of well-formed characters, and the lead-byte table cuts them back apart |
| `Utf8.SplitValid` | src/tokenizer/gemma4_bpe.c:275-281 | cutting at newline runs never splits a character |
| `Utf8.UnescapeAppend` | src/tokenizer/gemma4_bpe.c:343-349 | unescaping can be done symbol by symbol on well-formed text |
| `Utf8.EscapeThenUnescape` | src/tokenizer/gemma4_bpe.c:270-273 | escaping keeps text well-formed and is undone by unescaping |
| `SpmFragment.Load` | src/tokenizer/tokenizer.c:717-736 | a tokenizer exists exactly with one score per token and all byte tokens |
| `SpmMerge.CurrentIsPair` | src/tokenizer/tokenizer.c:538-541 | an entry that passes the size-only test names two neighbours and is their present candidate |
| `SpmMerge.StaleIsUseless` | src/tokenizer/tokenizer.c:540-541 | an entry that fails it is no neighbouring pair's candidate: the test is exact |
| `SpmMerge.TopIsBest` | src/tokenizer/tokenizer.c:538-541 | the first current entry is the highest-scoring neighbouring pair, leftmost among equals |
| `SpmMerge.MergeStep` | src/tokenizer/tokenizer.c:542-546 | the merge is the simple loop's next merge |
| `SpmFragment.MergeAll` | src/tokenizer/tokenizer.c:538-547 | the loop ends with the simple form's symbols, and its unchecked pushes stay below 4 * el + 16 |
| `SpmMerge.HighestScoreFirst` | src/tokenizer/tokenizer.c:484-488 | in terms of scores alone: the next merge joins the neighbours that make the token of highest score, leftmost among equals |
| `SpmMerge.NoTokenLeft` | src/tokenizer/tokenizer.c:538-547 | and when no neighbours make a token nothing changes |
| `SpmCharacters.LengthsByBits` | src/tokenizer/tokenizer.c:473-478 | a lead byte with two to four leading one bits announces that many bytes, any other byte is one; the table of the gemma4 lane differs exactly from F8 up |
| `SpmCharacters.FlattenCut` | src/tokenizer/tokenizer.c:524-530 | well-formed text is cut into its characters |
| `SpmCharacters.ValidCut` | src/tokenizer/tokenizer.c:524-530 | so on well-formed text both lanes start with the same symbols, each a well-formed character |
| `SpmCharacters.StrayByte` | src/tokenizer/tokenizer.c:477-478 | a continuation byte or a byte from F8 up is a symbol of its own |
| `SpmCharacters.CutOff` | src/tokenizer/tokenizer.c:525 | a character cut off by the end of the text is one shorter symbol |
| `SpmFragment.Fragment` | src/tokenizer/tokenizer.c:506-557 | a fragment's ids are those of the symbols that merging its escaped characters by score ends with, each its own id or its bytes' tokens |
| `SpmText.TextSymsLaw` | src/tokenizer/tokenizer.c:538-547 | the final symbols concatenate to the escaped text and no two neighbours make a token |
| `SpmText.TextSymsTokens` | src/tokenizer/tokenizer.c:538-547 | each of them is a token or one of the characters the text was cut into |
| `SpmText.Encode` | src/tokenizer/tokenizer.c:560-588 | the ids of a non-empty text are the BOS, when it is wanted and there is one, then in order the ids of the final symbols of each gap and exactly the id of each special; the buffer holds the ids that fit |
| `SpmText.EncodesPlain` | src/tokenizer/tokenizer.c:560-588 | without special parsing: the BOS, if any, and the ids of the text's final symbols |
| `UnicodeRanges.Ranges` | tools/oracle/gen_unicode_tables.py:19-28 | the generated intervals are sorted, separated, and cover exactly the code points of the predicate |
| `UnicodeRanges.Canonical` | tools/oracle/gen_unicode_tables.py:19-28 | there is only one such table per predicate, so the intervals are maximal |
| `UnicodeRanges.InRanges` | src/tokenizer/tokenizer.c:308-317 | binary search answers membership in a sorted table |
| `UnicodeRanges.Classify` | src/tokenizer/tokenizer.c:318-320 | searching the generated table decides the predicate for every code point |
| `Pretokenizer.NextPiece` | src/tokenizer/tokenizer.c:342-389 | the hand-written scanner returns the end of the first match of the Qwen2 expression under ordered, greedy, backtracking matching, and always advances; said in terms of the three classes alone, the piece is the first there is of: a contraction; letters after at most one code point that is neither letter, number, CR nor LF; one number; code points in no class after at most one space, with the line breaks after them; whitespace up to its last line break, or all of it at the end of the text or when it is one code point, or all but its last code point; every run maximal |
| `PieceKinds.OnePiece` | src/tokenizer/tokenizer.c:342-389 | there is only one such piece at a position |
| `PieceKinds.NumbersAlone` | src/tokenizer/tokenizer.c:366 | for classes that are disjoint as in Unicode, a number code point is always a pre-token of its own |
| `Pretokenizer.SpacePiece` | src/tokenizer/tokenizer.c:379-388 | the whitespace alternatives, with the lookahead backing off one character, decide a whitespace run |
| `Pretokenizer.RunThenRun` | tools/oracle/bpe_proto.py:18 | a greedy run of one class followed by a run of another backs off to the last member of the second class |
| `Pretokenizer.TrailingFirst` | tools/oracle/bpe_proto.py:19 | where the negative lookahead alternative matches |
| `Gpt2Text.AlwaysMatches` | tools/oracle/bpe_proto.py:14-20 | the expression matches a non-empty text at every position |
| `Gpt2Text.PretokensTile` | src/tokenizer/tokenizer.c:448-461 | the pre-tokens of any byte string, malformed or not, concatenate to it |
| `Gpt2Text.DecodeText` | src/tokenizer/tokenizer.c:448-453 | the decoding loop records the code points and byte offsets of the text |
| `ScalarValues.StepReads` | src/tokenizer/tokenizer.c:327-333 | the decoding step reads back the UTF-8 octets of every scalar value, wherever they stand, and passes over exactly them |
| `ScalarValues.ValidIsEncoded` | src/tokenizer/tokenizer.c:327-333 | well-formed characters are exactly the encoded scalar values, one each |
| `ScalarValues.StepStray` | src/tokenizer/tokenizer.c:333 | a continuation byte or a byte from F8 up is read as itself |
| `ScalarValues.StepCutOff` | src/tokenizer/tokenizer.c:329-333 | so is the first byte of a character that the text cuts off |
| `ScalarValues.PretokensOfText` | src/tokenizer/tokenizer.c:448-461 | the pre-tokens of a UTF-8 text are the texts of the matches over its scalar values |
| `Gpt2Text.EncodeText` | src/tokenizer/tokenizer.c:439-464 | the ids of a raw text are those of its pre-tokens in order, up to the first that stops the encoder |
| `Gpt2Piece.BuildByteMaps` | src/tokenizer/tokenizer.c:68-85 | the loops fill the byte/code-point tables with the bijection and its inverse |
| `ByteLevel.CodePointInjective` | tools/oracle/bpe_proto.py:23-28 | distinct bytes get distinct code points |
| `ByteLevel.DecEnc` | src/tokenizer/tokenizer.c:285-297 | decoding inverts byte-level encoding on every byte string |
| `Gpt2Piece.LinesAreMerges` | src/tokenizer/tokenizer.c:416-423 | the "A B" line lookup ranks space-free symbols as the pair-keyed merge list does |
| `Gpt2Piece.PieceByMerges` | src/tokenizer/tokenizer.c:413-428 | so every piece is merged as the pair-keyed merge list merges it |
| `Gpt2Piece.MergeAll` | src/tokenizer/tokenizer.c:413-428 | the in-place offset/length loop computes the simple form |
| `Gpt2Piece.Piece` | src/tokenizer/tokenizer.c:401-436 | a piece's ids are those of its merged byte symbols, or failure when one is unknown, or the null lookup of a model without merge lines when the piece has two bytes |
| `Gpt2RoundTrip.Encode` | src/tokenizer/tokenizer.c:584-627 | the number of ids, of which the buffer holds those that fit: in order those of the pre-tokens of each gap and exactly the id of each special; -1 for an unknown symbol; no result when the missing merge map is dereferenced |
| `Gpt2RoundTrip.EncodesIff` | src/tokenizer/tokenizer.c:401-436 | a text gets ids if and only if every pre-token of its gaps does: all its final symbols are tokens, and it is one byte when the model has no merge lines |
| `Gpt2RoundTrip.PieceOutcome` | src/tokenizer/tokenizer.c:424-436 | a pre-token that gets ids gets the lowest id of each of its final symbols, in order |
| `Gpt2RoundTrip.NullMapIff` | src/tokenizer/tokenizer.c:169-190 | the missing merge map is dereferenced if and only if the model has no merge lines and some pre-token has two bytes or more with no unknown single byte before it |
| `Gpt2RoundTrip.NullMapIffLong` | src/tokenizer/tokenizer.c:421 | with every byte symbol in the vocabulary: if and only if there are no merge lines and some pre-token has two bytes or more |
| `Gpt2RoundTrip.Decode` | src/tokenizer/tokenizer.c:274-301 | the text written is the concatenation of the decoded tokens, ids out of range skipped; a buffer that is too small holds the front of it, terminated |
| `Gpt2RoundTrip.RoundTrip` | src/tokenizer/tokenizer.c:274-464 | on every byte string, with any vocabulary and merges: if encoding succeeds, decoding returns the input |
| `Gpt2RoundTrip.PieceRoundTrip` | src/tokenizer/tokenizer.c:401-436 | the same for one pre-token |
| `Specials.Presplit` | src/tokenizer/tokenizer.c:604-623 | the scan splits a text into raw gaps, in which no special matches anywhere, and hits, each the first listed special that matches there, with no two gaps side by side |
| `Specials.SegmentsStand` | src/tokenizer/tokenizer.c:604-623 | the segments stand so, one after another, to the end of the text |
| `Specials.PlacedUnique` | src/tokenizer/tokenizer.c:604-623 | there is only one such list of segments |
| `Specials.HitIsLongest` | src/tokenizer/tokenizer.c:87-90 | with the list sorted, a hit is a longest special at that position |
| `Specials.SegmentsCover` | src/tokenizer/tokenizer.c:604-623 | raw gaps and hit surfaces, in order, are the text |
| `Sinks.Sink.Emit` | src/tokenizer/tokenizer.c:393-396 | ids are always counted and stored while there is room |
| `TokenizerBlob.BuildTokBlob` | tools/sp_transcode/sp_transcode.c:506-580 | the cursor writes exactly the blob of the extracted content, filling the computed size |
| `TokenizerBlob.LoadBlob` | src/tokenizer/tokenizer.c:668-768 | the bounds-checked reader computes the parse of the blob |
| `TokenizerBlob.RoundTrip` | tools/sp_transcode/sp_transcode.c:497-505 | loading gives the written content back if and only if it has a token, counts and lengths fit 32 bits, SPM has its scores and gemma4 has merges |
| `TokenizerBlob.FileKeepsTokenizer` | tools/sp_transcode/sp_transcode.c:522-544 | the same in terms of the GGUF fields: the family, tokens, scores and merges survive exactly under those conditions |
| `TokenizerBlob.ParseIsBlob` | src/tokenizer/tokenizer.c:668-768 | whatever the loader accepts is the blob of what it returns, followed by ignored bytes |
| `TokenizerBlob.ScorelessSpm` | tools/sp_transcode/sp_transcode.c:542-545 | an SPM vocabulary written without scores is never read back as written |
| `TokenizerBlob.Layout` | tools/sp_transcode/sp_transcode.c:565 | a blob starts with the letters SPTB, the number 0, 2 or 4 of its family, and the two counts |
| `TokenizerBlob.LittleEndian` | tools/sp_transcode/sp_transcode.c:564 | words are little-endian |
| `TokenizerBlob.FamilyIff` | tools/sp_transcode/sp_transcode.c:523-538 | llama is SPM; gemma4, and gpt2 with the pre-tokenizer gemma4, is gemma4; any other gpt2 is GPT2; anything else is the error |
| `TokenizerBlob.SizeIsLength` | tools/sp_transcode/sp_transcode.c:555-558 | the computed size is the number of bytes written |
| `TokenizerBlob.SignedWraps` | src/tokenizer/tokenizer.c:770-774 | a special id is the signed 32-bit number that agrees with its field modulo 2^32 |
| `TokenizerBlob.SpecialIdKept` | src/tokenizer/tokenizer.c:770-774 | special ids survive the header, absent or present, whatever their width |
| `Gemma4File.Load` | src/tokenizer/tokenizer.c:735-783 | the file lane yields a gemma4 tokenizer, with these tokens, merges and special ids, exactly when the parse succeeds in that family, the merges are acceptable and the BOS id is in range |
| `Gemma4File.LoadDirect` | src/tokenizer/tokenizer.c:94-232 | the GGUF lane does so exactly when the vocabulary is within its limit, the merges are acceptable and the BOS id is in range |
| `Gemma4File.DirectIff` | src/tokenizer/tokenizer.c:94-232 | in terms of the fields: a vocabulary of 1 to 100000000 tokens, acceptable merges, and a BOS that is a token; the special ids are the fields as signed 32-bit numbers, -1 when missing |
| `Gemma4File.FromFileIff` | src/tokenizer/tokenizer.c:735-783 | in terms of the parse: the gemma4 family, acceptable merges, and a BOS that is a token |
| `Gemma4File.SameTokenizer` | src/tokenizer/tokenizer.c:647-783 | for all tokens, merges and special ids: the GGUF loader and the transcoded file give the same tokenizer or both none; only a vocabulary above 100000000 tokens comes through the file alone |
| `Gemma4File.EncodesAlike` | src/tokenizer/tokenizer.c:627-640 | one route succeeds if and only if the other does, within that limit, and then both encode every text to the same ids with special parsing off and decode all ids to the same text |
| `DataRegion.Stream.EmitOne` | tools/sp_transcode/sp_transcode.c:65-80 | pads to the next multiple of 64 and appends the tensor, keeping the cursor at the file length |
| `DataRegion.Streamed` | tools/sp_transcode/sp_transcode.c:1101-1115 | streaming and the chunked copy give the laid-out region and offsets |
| `DataRegion.AssignOffsets` | tools/sp_transcode/sp_transcode.c:1040-1051 | the in-memory loop assigns the same offsets and region size |
| `DataRegion.WriteRegion` | tools/sp_transcode/sp_transcode.c:1117-1126 | the in-memory writer produces the same bytes |
| `DataRegion.PlacedAt` | tools/sp_transcode/sp_transcode.c:1037-1051 | every tensor is found, 64-aligned, at its recorded offset; the last one ends the region |
| `DataRegion.Disjoint` | tools/sp_transcode/sp_transcode.c:1037-1051 | tensors never overlap and lie in emit order |
| `DataRegion.GapsAreZero` | tools/sp_transcode/sp_transcode.c:1121-1123 | every byte outside the tensors is zero |
| `Convolution.NegmulInt` | tools/ring3/g_r3_bind_ok.py:53-57 | the folded linear convolution is the ring product |
| `Convolution.NegconvCoeff` | tools/ring3/g_byteexact_attn_ntt.py:20-28 | the modular coefficient loop is that coefficient of the ring product modulo the prime, for any positive modulus |
| `Convolution.ActCoeff` | tools/ring3/g_byteexact_attn_ntt.py:20-28 | coefficient n of the ring product is the signed sum of products |
| `Negacyclic.MulCommutative` | tools/ring3/g_r3_bind_ok.py:53-57 | the product is commutative |
| `Negacyclic.MulAssociative` | tools/ring3/g_r3_bind_ok.py:53-57 | the product is associative |
| `Negacyclic.MulBilinear` | tools/ring3/g_r3_bind_ok.py:53-57 | the product is linear in each factor |
| `Negacyclic.MulOne` | tools/ring3/g_r3_bind_ok.py:52-57 | 1 is neutral |
| `Negacyclic.UnbindIsAdjoint` | tools/ring3/g_r3_bind_ok.py:53-63 | multiplying by the involution is the adjoint of multiplying |
| `NoZeroDivisors.ProductNonzero` | tools/ring3/g_r3_bind_ok.py:52-57 | for power-of-two length the product of non-zero vectors is non-zero |
| `Superposition.OrderFree` | tools/ring3/g_r3_bind_ok.py:140-146 | the superposition is the same for every order of summation |
| `Superposition.Accumulate` | tools/ring3/g_r3_bind_ok.py:144-145 | the permuted accumulation loop gives the superposition in list order |
| `Superposition.DotOfSuperposition` | tools/ring3/g_r3_bind_ok.py:124-129 | the inner product with a superposition is the sum of the inner products |
| `Binding.BlockList` | tools/ring3/ok_bind.py:29-36 | the tiling loop computes the block list, and fails exactly for dimensions that are not 0, 128 or 256 modulo 512 |
| `Binding.NarrowWraps` | tools/ring3/ok_bind.py:39 | narrowing gives the signed 32-bit number that agrees modulo 2^32 |
| `Binding.BlocksTile` | tools/ring3/ok_bind.py:29-36 | blocks are ring degrees and add up to the dimension |
| `Binding.BindBlocks` | tools/ring3/ok_bind.py:46-49 | the offset loop computes the direct sum of block products of the narrowed vectors |
| `Binding.UnbindBlocks` | tools/ring3/ok_bind.py:50-53 | the offset loop computes block products with the involution of each address block |
| `Binding.UnboundIsAdjoint` | tools/ring3/ok_bind.py:44-53 | unbind is the adjoint of bind over any block list |
| `Binding.BoundNonzero` | tools/ring3/ok_bind.py:46-49 | binding two sign vectors has positive squared length in every positive dimension |
| `Binding.BindOfSigns` | tools/ring3/ok_bind.py:37-49 | for sign vectors narrowing to 32 bits is lossless and coefficients are at most 512 |
| `Binding.ScoreIsInner` | tools/ring3/ok_bind.py:50-53 | the score of an id is the inner product of the superposition with the corresponding bind |
| `Binding.LoneScorePositive` | tools/ring3/ok_bind.py:46-53 | a lone bind scores its own squared length, which is positive |
| `Carriers.SmixPm1` | tools/ring3/ok_bind.py:59-66 | the generator loop yields exactly the signs of the specification, each +1 or -1 |
| `Carriers.ReferenceOutputs` | tools/ring3/ok_bind.py:62-65 | the specification is splitmix64: its increment and its first three outputs from state 0 |
| `Carriers.SignIsParity` | tools/ring3/ok_bind.py:65 | a sign is +1 exactly for an odd output |
| `Carriers.ReferenceSigns` | tools/ring3/ok_bind.py:61-65 | so the first three signs from state 0 are 1, -1, 1 |
| `Carriers.DrawsNest` | tools/ring3/ok_bind.py:61-66 | longer draws from one seed begin with the shorter ones |
| `Carriers.IdvecIsCarrier` | tools/ring3/ok_bind.py:67-68 | of two seeds that differ by 0xABCDEF in their low 64 bits, each one's id vector is the other's carrier |
| `Carriers.SeedsWrap` | tools/ring3/ok_bind.py:60 | seeds that agree modulo 2^64 give the same vectors, negative ones included |
| `Nightshift.ActiveVector.RecallOk` | tools/ring3/g_r3_nightshift.py:45-52 | the loop over a score dictionary with first maximum and margin decides whether every listed episode strictly beats all other ids, and raises exactly for a missing entry, an untileable dimension, or several episodes of one name |
| `Nightshift.ActiveVector.TryBind` | tools/ring3/g_r3_nightshift.py:53-59 | the new object state and answer are the specification's, error cases included |
| `Nightshift.Place` | tools/ring3/g_r3_nightshift.py:66-72 | the loop body performs one step of the state machine on the objects |
| `Nightshift.Nightshift` | tools/ring3/g_r3_nightshift.py:62-86 | for every batch: the run ends with the exception of its loop, or with a KeyError in the final check if and only if some step refused, below the cap, a name that the vector it met holds, or GREEN: all recall, every episode consolidated, none resident, freed the sum of the sizes; with distinct names it finishes exactly when it is empty or the dimension is positive and tiles |
| `ConsolidationRuns.RunKeeps` | tools/ring3/g_r3_nightshift.py:62-79 | every reachable state of every batch: the processed episodes lie in order in consecutive vectors of at most 32; each M is the sum of its binds; the open vector recalls all it holds; each closed one was full or would have failed its gate on the next episode; the lists account for every episode |
| `ConsolidationRuns.RunOutcome` | tools/ring3/g_r3_nightshift.py:65-72 | exactly when a run raises a ValueError (untileable dimension, or an episode that repeats the only name of the vector it meets), fails the assertion (dimension 0), or goes on |
| `ConsolidationRuns.RepeatAtOnce` | tools/ring3/g_r3_nightshift.py:50 | a batch that starts with one name twice ends in the ValueError of an empty maximum |
| `ConsolidationRuns.MeetsAfterItself` | tools/ring3/g_r3_nightshift.py:65-67 | such an episode directly follows one of the same name |
| `ConsolidationRuns.AdjacentRuns` | tools/ring3/g_r3_nightshift.py:65-72 | when no name directly follows itself, a run goes on if and only if the dimension is positive and tiles |
| `ConsolidationRuns.FinalRecall` | tools/ring3/g_r3_nightshift.py:75-78 | the final check of each vector passes, or raises a KeyError exactly when the vector was closed below its cap by a name it holds |
| `ConsolidationRuns.TornIff` | tools/ring3/g_r3_nightshift.py:53-59 | a run holds a vector with missing entries if and only if some step refused, below the cap, a name that the vector it met holds |
| `ConsolidationRuns.TwinTears` | tools/ring3/g_r3_nightshift.py:47-59 | such steps occur: a held name that comes back with the seed of another name bound just before it is always refused, and the run goes on |
| `ConsolidationRuns.TornBatch` | tools/ring3/g_r3_nightshift.py:62-78 | the three-episode batches a, b, a whose last two share a seed always go through, and tear their vector if and only if b was accepted beside a |
| `ConsolidationRuns.DistinctRuns` | tools/ring3/g_r3_nightshift.py:62-78 | with distinct names only the dimension can go wrong |
| `ConsolidationRuns.FreshAccepts` | tools/ring3/g_r3_nightshift.py:71-72 | a fresh vector accepts any episode if and only if the dimension is positive |
| `ConsolidationRuns.RejectedKeepsSuperposition` | tools/ring3/g_r3_nightshift.py:53-59 | a refused bind leaves superposition and names; it removes entries exactly when the vector is open, not full, and has entries for the name |
| `ConsolidationRuns.AcceptedKeepsSound` | tools/ring3/g_r3_nightshift.py:56-58 | an accepted bind adds exactly the new episode, also of a held name, and keeps the vector sound |
| `ConsolidationRuns.SealedAreFrozen` | tools/ring3/g_r3_nightshift.py:66-71 | no later state changes a sealed vector |
| `ConsolidationRuns.WhereHeld` | tools/ring3/g_r3_nightshift.py:65-74 | after k episodes a name is held exactly when it was processed, and by two vectors only when it was processed twice |
| `ConsolidationRuns.ScoreIsCrosstalk` | tools/ring3/g_r3_nightshift.py:47-50 | an episode's score for an id is the sum of the inner products of all bound contributions with that pair's bind |
| `ConsolidationRuns.SoundBounded` | tools/ring3/g_r3_nightshift.py:56-58 | a superposition always fits the engine's 32-bit inputs |
| `Crt.GarnerExact` | tools/ring3/g_byteexact_attn_ntt.py:30-32 | reconstruction returns d if and only if the magnitude of d is at most half the modulus |
| `Crt.PowModIsPow` | tools/ring3/g_byteexact_attn_ntt.py:31 | the modular power used for the inverse is the power |
| `Crt.ExactDotIsDot` | tools/ring3/g_byteexact_attn_full.py:28-31 | the dual-prime dot is the integer dot if and only if that fits |
| `Crt.ReversedCoeff` | tools/ring3/g_byteexact_attn_ntt.py:38-42 | coefficient N-1 of q times the reversed k is their dot product |
| `Crt.NegacyclicDot` | tools/ring3/g_byteexact_attn_ntt.py:38-42 | the two-coefficient computation returns the dot product if and only if it fits |
| `FixedPoint.Exp2FracLoop` | tools/ring3/g_islands_integer.py:9-12 | the loop evaluates the polynomial by Horner's rule with a floor after each product |
| `Ln2.CoefficientsAreLn2` | tools/ring3/g_islands_integer.py:8 | the coefficients are (ln 2)^k / k! rounded: within half a unit for every partial sum, from the eleventh on, of a series of ln 2 |
| `Ln2.OctaveFactorIsLn2` | tools/ring3/g_islands_integer.py:7 | the octave factor is 1 / ln 2 rounded, in the same sense |
| `Ln2.TailSmall` | tools/ring3/g_islands_integer.py:7-8 | all later partial sums lie between a partial sum and that sum plus its tail bound |
| `ExpAccuracy.Exp2FracNear` | tools/ring3/g_islands_integer.py:9-12 | rounding down after each product loses at most six units of 2^-30 against the exact polynomial |
| `ExpAccuracy.TaylorSettles` | tools/ring3/g_islands_integer.py:8-12 | seven terms of the series of e^y leave out less than 1.75e-5 for y up to ln 2 |
| `ExpAccuracy.Exp2FracAccurate` | tools/ring3/g_islands_integer.py:9-12 | exp2_frac(x) is within 1.8e-5 of e^(x ln 2) on [0, 1]: of every partial sum from the seventh on, for every partial sum of ln 2 from the eleventh on |
| `ExpAccuracy.OctavesRounded` | tools/ring3/g_islands_integer.py:14 | the octaves are d / ln 2, negated and rounded up in 30 bits |
| `ExpAccuracy.HalvedRounded` | tools/ring3/g_islands_integer.py:15 | n octaves and a fraction r below 1 give 2^(1 - r), halved n + 1 times and rounded down |
| `ExpAccuracy.ExpFixedAccurate` | tools/ring3/g_islands_integer.py:13-15 | exp_fixed(d) is 2^-g for the octaves g of d, to 3.5e-5 of its leading power of two and the bits that the shift drops |
| `FixedPoint.HornerMono` | tools/ring3/g_islands_integer.py:9-12 | the polynomial is increasing and at least its constant term |
| `FixedPoint.Exp2FracRange` | tools/ring3/g_islands_integer.py:9-12 | on [0, 1] its value lies in [1, 2] |
| `FixedPoint.HalvedAntitone` | tools/ring3/g_islands_integer.py:13-15 | values never increase with the exponent, across every fraction and octave boundary |
| `FixedPoint.HalvedOctave` | tools/ring3/g_islands_integer.py:13-15 | one octave further is exactly half, rounded down |
| `FixedPoint.ExpMonotone` | tools/ring3/g_islands_integer.py:13-15 | exp_fixed is monotone on d <= 0 with values in [0, ONE] and ONE at 0 |
| `FixedPoint.CutoffAgrees` | tools/ring3/g_byteexact_attn_full.py:20-24 | the version with the n >= 32 cutoff agrees with the one without on d <= 0 and clamps d > 0 to ONE |
| `Islands.SoftOrder` | tools/ring3/g_islands_integer.py:16-19 | softmax weights follow the order of the logits, lie in [0, ONE], and the largest gets ONE |
| `Islands.DistanceRounded` | tools/ring3/g_islands_integer.py:18 | the exponent of a weight is the distance to the largest logit times ONE / Z, rounded down |
| `Islands.SoftMass` | tools/ring3/g_islands_integer.py:18 | the normaliser is between ONE and one ONE per logit |
| `Islands.SoftShift` | tools/ring3/g_islands_integer.py:17-18 | adding a constant to every logit changes no weight |
| `Islands.SoftFree` | tools/ring3/g_islands_integer.py:18 | weights and normaliser do not depend on the order of the logits |
| `Islands.TanhLaws` | tools/ring3/g_islands_integer.py:20-22 | tanh_fixed is odd, monotone and within [-ONE, ONE] |
| `Islands.TanhQuotient` | tools/ring3/g_islands_integer.py:20-22 | for t >= 0, with e = exp_fixed(-2t), it is (1 - e) / (1 + e) rounded up |
| `Islands.RatioMono` | tools/ring3/g_islands_integer.py:22 | the quotient in tanh grows from 0 to ONE |
| `Islands.GeluInt` | tools/ring3/g_islands_integer.py:24-29 | the loop maps the scalar GELU over the encoded inputs and decodes by ONE |
| `Islands.GeluInnerNear` | tools/ring3/g_islands_integer.py:27 | the argument of tanh is K (x + A x^3) up to the stated sum of the roundings |
| `Islands.GeluRounded` | tools/ring3/g_islands_integer.py:28 | the output is half the argument times 1 + tanh, rounded down |
| `Islands.GeluBounds` | tools/ring3/g_islands_integer.py:27-28 | GELU lies between half its argument and its positive part |
| `GeluConstants.KIsRootOfTwoOverPi` | tools/ring3/g_islands_integer.py:23 | K is sqrt(2 / pi) rounded to 30 bits, with pi any partial sum of Machin's series from the eighth on |
| `GeluConstants.AIsRounded` | tools/ring3/g_islands_integer.py:23 | A is 0.044715 rounded to 30 bits |
| `Attention.AttnInt` | tools/ring3/g_byteexact_attn_full.py:34-44 | outputs are the numerators over S * DELTA, S is the sum of the weights and at least ONE, maxacc is the largest numerator magnitude; it raises exactly for an empty cache or a row of the wrong width |
| `Attention.LogitScale` | tools/ring3/g_byteexact_attn_full.py:37-38 | a logit is the dot product of query and key times 2^14 over 2^LD, rounded down |
| `Attention.KeyOrder` | tools/ring3/g_byteexact_attn_full.py:37-39 | a key with the larger dot product never weighs less, and one with the greatest weighs ONE |
| `Attention.WeightIsExp` | tools/ring3/g_byteexact_attn_full.py:39 | a weight is exp_fixed of its logit's distance to the largest, from 14 to 30 fraction bits |
| `Attention.OutputBetween` | tools/ring3/g_byteexact_attn_full.py:42-43 | each output lies between any bounds on that component of the cached values, decoded by DELTA |
| `Attention.WeightOrder` | tools/ring3/g_byteexact_attn_full.py:39 | weights follow the scores, lie in [0, ONE], and the best key gets ONE |
| `Attention.MassBounds` | tools/ring3/g_byteexact_attn_full.py:39 | ONE <= S <= W * ONE |
| `Attention.NumeratorBetween` | tools/ring3/g_byteexact_attn_full.py:42 | each numerator lies between S times the least and S times the greatest value of its column |
| `Attention.NumeratorBound` | tools/ring3/g_byteexact_attn_full.py:42-43 | each numerator is at most W * ONE * the largest value magnitude in magnitude |
| `Attention.NumeratorExact` | tools/ring3/g_byteexact_attn_full.py:42 | while that bound is at most M // 2 the dual-prime dot computes the numerator exactly |
| `Attention.OrderImmune` | tools/ring3/g_byteexact_attn_full.py:37-43 | permuting the keys changes neither S nor any numerator |
| `Fwht.Transform` | tools/ring3/g_weight_transforms.py:16-22 | the in-place triple loop leaves every row transformed, for every power-of-two length |
| `Fwht.TransformTwice` | tools/ring3/g_weight_transforms.py:23-25 | running the in-place loop twice multiplies every row by its length |
| `Fwht.Pass` | tools/ring3/g_weight_transforms.py:19-20 | one half-width pass turns transformed blocks of length h into transformed blocks of length 2h |
| `Fwht.Butterfly` | tools/ring3/g_weight_transforms.py:20 | sums go to the first half of a block pair, differences to the second, all else is unchanged |
| `Walsh.HadIsMatrix` | tools/ring3/g_weight_transforms.py:16-22 | the transform is multiplication by Sylvester's matrix |
| `Walsh.SylvesterSign` | tools/ring3/g_weight_transforms.py:16-22 | an entry of the matrix is 1 when its two indices share an even number of one bits, else -1 |
| `Walsh.HadLinear` | tools/ring3/g_weight_transforms.py:16-22 | the transform is linear |
| `Walsh.HadTwice` | tools/ring3/g_weight_transforms.py:23-25 | applying it twice multiplies by the length |
| `Walsh.HadEnergy` | tools/ring3/g_weight_transforms.py:23 | it multiplies squared length by the row length |
| `Walsh.HadInverse` | tools/ring3/g_weight_transforms.py:23-25 | dividing the second transform by the length gives the input back, whatever scale is put in between and taken out |
| `Walsh.ErrorEnergy` | tools/ring3/g_weight_transforms.py:24-26 | an error added to the transform reappears in the reconstruction with its energy divided by the length |

## Left out

- Allocation failure, error messages and file handles: every allocation and every read or write is taken to succeed.
- OpenAddressing.ByteMap.Put: the hash is an arbitrary function of the key, so hash quality is not modelled.
- Gemma4Build.Build: vocabularies of at least 2^31 tokens, and lines or tokens of at least 2^32 bytes, whose lengths the original cuts to 32 bits.
- Gemma4RoundTrip.RoundTrip: stated for parse_special = 0 and well-formed UTF-8; with special parsing a surface that is also plain text decodes to nothing when its id is skipped.
- Gemma4File.Load: header vocabulary sizes of at least 2^31, whose ids the original narrows to negative 32-bit integers; the same for Gemma4Build.BuildPairs.
- Gemma4File.SameTokenizer: counts and lengths below 2^32, as everywhere in this model; the file carries no special surfaces, so encodings are compared with special parsing off in the tokenizer from the GGUF.
- SpmMerge.TopIsBest: scores are real numbers, so NaN scores and the two zeros of 32-bit floats are not modelled.
- SpmText.Encode: decoding SPM ids goes through the byte-level tables in the original and no round trip is promised.
- Gpt2RoundTrip.RoundTrip: stated for parse_special = 0, as the original promises it.
- Pretokenizer.NextPiece: letter, number and whitespace classes are arbitrary predicates in which CR, LF and space are whitespace; the generated tables as data are not modelled.
- Specials.Presplit: the list of specials is an input; collecting it from the token types and sorting it are not modelled. The three copies of the scan are one method here, which returns the segments before they are encoded.
- bpe_proto.Tok.encode: only its merge loop, byte table and expression are references; its special-token split scans one special at a time and its rank dictionary keeps the last writer, so it is not equal to the C encoder.
- TokenizerBlob.LoadBlob: covers the blob up to the merges; the byte-token check and the maps of the SPM and GPT2 lanes are the separate members SpmFragment.Load and Gpt2Piece.Tokenizer, and the file header's magic, offsets and checksums are not modelled.
- TokenizerBlob.BuildTokBlob: sizes are unbounded integers, so a blob of 2^64 bytes is not modelled.
- DataRegion.Streamed: digests, the tensor table, its sort by name hash and the model header are not modelled; offsets do not wrap at 2^64.
- Binding.BindBlocks: the native engine product is modelled by the script's own reference, the folded linear convolution, after narrowing to 32 bits; its number-theoretic transform is not part of this model.
- Consolidation.Score: the cosine of the original is replaced by the integer inner product, which orders the ids alike because all ids have the same length; floating-point rounding and its 1e-12 guard are not modelled.
- Nightshift.Nightshift: printed telemetry and the Ring-3 footprint estimate are not modelled.
- Superposition.Accumulate: the random permutations are an arbitrary permutation; the float lanes of the same script are not modelled.
- Attention.AttnInt: inputs are the encoded integers, a key and its value are one entry, the dot products do not wrap at 64 bits and the final division is exact; the rounding that encodes floats is not modelled.
- Islands.GeluInt: the final division is exact, not rounded to a float; softmax, tanh and GELU are tied to the fixed-point exponential and their exact formulas rounding by rounding, not to the real functions by one overall error.
- ExpAccuracy.ExpFixedAccurate: real powers are partial sums of their series, since the real functions themselves are not available.
- Fwht.Transform: numbers are exact, lengths are powers of two, and the two slice assignments over all rows are one simultaneous assignment.
- Loading from GGUF, the safetensors and quantisation codecs, `kronecker`, the model adapter, GPU and SIMD headers, and the HTTP, audio and training scripts: wiring, float tensor code or network clients without an exact law.
