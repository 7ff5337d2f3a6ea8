# static_embeddings in Dafny

`static_embeddings` turns text into an averaged word vector. A converter in Ruby writes a `.semb` file
with a hash table, two tries, normaliser tables and a matrix; a C runtime tokenizes text with BERT
WordPiece, caps the ids and pools rows. Almost every fast path of the runtime claims to equal a simpler
one. This project models both sides and proves these claims for all inputs.

- **Text.** `Utf8` and `NormTables` hold the codec and the table lookups. `Tokenizer` says what tokenizing
  means: bytes are scanned into events, events are folded into words, words become ids, ids are capped.
  `TokenState` is the one-pass tokenizer, a class whose methods update its fields as the C functions do,
  proved against those functions. `Reference` is the multi-pass reference and the proof that the two agree.
- **Large texts.** `PrefixWindow` is the backward scan for a cut and the proof that the slice in front of it
  is exact. `Batch` is the retry loop over slices, with its termination measure; `BlankBatch` and
  `GluedBatch` are the two ways in which it differs from embedding texts one by one. `StoredIds` is the
  path for ids computed before.
- **Vocabulary.** `VocabHash` and `ByteTrie` are builder, checker and lookup of the two indexes;
  `WordPiece` proves that the runtime's walk over them is greedy dictionary search; `Vocabulary` reads the
  token list, `Opening` joins builder and checks. `Truncation` compares the three places that cap ids.
- **Numbers.** `HalfFloat` is the binary16 codec on bit patterns, with values scaled to integers; `TopK` is
  the insertion scan over scores that may be NaN or infinite.
- **Files.** `Container` is writer, verifier and loader checks of the file; `Payloads` are the streamed
  conversions of the matrix; `Words` are little-endian words; `ModelFile` goes the whole way from a vocabulary
  through the bytes of the file to the opened model.
- **Steps.** `CloseProtocol` and `AllocStats` are state machines for closing a model against native work
  and for the lock-free counters.

Tables, conversions, digests and scores are parameters; where a theorem needs something of them it is a
named hypothesis: `Reference.TablesFaithful` (text is cleaned, the loaded tables hold what Unicode says of each
codepoint, and only whitespace maps to whitespace), `Reference.SpecialsInPlace`, `Batch.TakenCutsEndWords` of
one text, `TokenState.Opened`.

Three claims hold of the code only under a condition; each is proved with its condition, and a witness
shows that it fails otherwise:

- A cut of the prefix window is not always exact: the window asks whether a codepoint is whitespace or
  punctuation, the tokenizer removes control codepoints before it asks that. U+0085 is both in the shipped
  tables. One cut is exact if and only if no word runs across it (`PrefixWindow.SliceWordsIff`); a caller can
  rely on every cut of a text that holds no such codepoint, for the shipped tables one without the bytes
  C2 85 (`PrefixWindow.CleanCutsEndWords`, `PrefixWindow.NextLineDecides`). `GluedBatch` is a batch that returns
  the vector of another word, and tables that know no such codepoint are exactly those with which that
  cannot happen, whatever the vocabulary (`GluedBatch.ExactForEveryVocabulary`).
- A batch is not always the map of embedding one text: under EMPTY_RAISE a first slice that leaves nothing
  to pool raises at once, because only invalid slices are retried. When that is, is said in terms of its ids
  (`Batch.BlankStartMeans`); apart from that and from cuts taken inside a word a batch is that map
  (`Batch.EmbedTexts`, `Batch.RowIsEmbedding`, `BlankBatch.LeadingSpacesRaise`).
- Closing is safe if and only if no `to_int` of an argument lets the model be closed between the open check
  and the counted region, and no second exception is delivered while the ensure clause waits for a worker
  it has killed (`CloseProtocol.SafeIffUndisturbed`).

The retry of an invalid slice (static_embeddings.c:904-909) never helps: an invalid slice in front of a
legal cut means an invalid text (`Batch.RetryNeverHelps`). The proof only needs that it ends.

`dafny verify dfyconfig.toml` checks everything.

## Model

| member | source | states |
|---|---|---|
| Utf8.AcceptsExactlyWellFormed | ext/static_embeddings/se_unicode.c:5-62 | the decoder consumes a byte string as one codepoint exactly when it is a well-formed sequence of section 4 of RFC 3629 |
| Utf8.DecodeExact | ext/static_embeddings/se_unicode.c:5-62 | at every position and for every scalar value: it is decoded there if and only if its encoding stands there, and the next position is right behind it |
| Utf8.DecodeOne | ext/static_embeddings/se_tokenizer.c:331-372 | the per-codepoint decoder of the tokenizer gives the same answer as the specification at every position, malformed, overlong, surrogate and cut-off bytes included |
| Utf8.DecodeAllExact | ext/static_embeddings/se_unicode.c:5-85 | decoding a byte string yields a list of scalars if and only if encoding that list yields the byte string: both round trips |
| Utf8.ValidIffDecodes | ext/static_embeddings/se_unicode.c:5-85 | a byte string is an encoding of some scalars exactly when decoding it succeeds |
| Utf8.DecodeString | ext/static_embeddings/se_unicode.c:5-62 | the decoder with bounded output succeeds exactly when the bytes are valid and fit the capacity, and then equals iterating the per-codepoint decoder |
| NormTables.ValidateRanges | ext/static_embeddings/se_format.c:359-382 | a range table is accepted exactly when it is sorted, disjoint and within the scalar values |
| NormTables.ValidateEntries | ext/static_embeddings/se_format.c:326-357 | a mapping table is accepted exactly when its keys strictly increase and every entry has at most four outputs, codepoint and outputs all being scalar values |
| NormTables.ParseTables | ext/static_embeddings/se_format.c:415-496 | the section packed from valid tables is read back as those tables; whatever is read is valid; an absent section means empty tables |
| NormTables.RangeContains | ext/static_embeddings/se_unicode.c:87-99 | on a sorted table the binary search finds a codepoint exactly when some range covers it |
| NormTables.MapLookup | ext/static_embeddings/se_unicode.c:101-113 | on a sorted table the binary search returns the entry plain lookup returns |
| NormTables.FillRange256 | ext/static_embeddings/se_format.c:392-404 | the 256-entry table equals plain membership for every codepoint below 256 |
| NormTables.FillMap256 | ext/static_embeddings/se_format.c:384-390 | the 256-entry table equals plain lookup for every codepoint below 256 |
| NormTables.RangeAccumulator.Add | lib/static_embeddings/unicode_tables.rb:16-34 | after adding ascending codepoints the ranges cover exactly the codepoints added, and no two ranges could be joined |
| VocabHash.HashConcat | ext/static_embeddings/se_format.c:47-62 | hashing a prefix and continuing with the body is hashing their concatenation |
| VocabHash.TableSizeFits | lib/static_embeddings/format/hash_table.rb:8-9 | however the floating-point quotient by 0.70 was rounded, up to one either way, the table size is a power of two above the token count whose load stays within the loader's 0.70, and at most twice that quotient rounded up |
| VocabHash.Insert | lib/static_embeddings/format/hash_table.rb:33-51 | probing always ends, stores a new token at the end of its probe chain without disturbing the others, and detects exactly the repeated tokens |
| VocabHash.Build | lib/static_embeddings/format/hash_table.rb:8-23 | the build fails exactly when a token repeats; otherwise every token is recorded once, with every slot on its probe path filled and within the recorded probe limit |
| VocabHash.LookupPiece | ext/static_embeddings/se_format.c:92-120 | for any prefix and body, lookup cut off at the recorded probe limit returns the id of their concatenation, and a miss when it is no token |
| VocabHash.ValidateSlots | ext/static_embeddings/se_format.c:499-551 | the slot check accepts exactly the tables whose ids form 0 to vocab_size - 1 once each, with strings in bounds |
| VocabHash.ValidateProbeLimits | ext/static_embeddings/se_format.c:591-615 | the probe check accepts exactly the tables whose filled slots all lie within the limit of their home slot |
| VocabHash.BuiltTableIsAccepted | ext/static_embeddings/se_format.c:499-615 | every table the builder produces passes both checks of the loader |
| VocabHash.SlotsRoundTrip | lib/static_embeddings/format/hash_table.rb:53-58 | the packed slots are read back |
| ByteTrie.Trie.Insert | lib/static_embeddings/format/trie.rb:12-25 | an insert adds exactly one key to the abstract map of the trie, refuses exactly a repeated key, and ignores the empty one |
| ByteTrie.Trie.Pack | lib/static_embeddings/format/trie.rb:27-37 | the packed arrays represent exactly the keys inserted, with one edge less than nodes |
| ByteTrie.ParseTrie | ext/static_embeddings/se_format.c:261-320 | a packed section is read back unchanged when it is well formed and rejected when it is not |
| ByteTrie.FindChild | ext/static_embeddings/se_format.c:126-170 | whichever of the four child searches a node's fan-out selects, the child returned is the one on the edge with that byte |
| ByteTrie.LongestMatch | ext/static_embeddings/se_format.c:172-201 | the match is the longest non-empty inserted key that is a prefix of the input, with its id and length, or none if there is no such key |
| ByteTrie.BuildTries | lib/static_embeddings/format/trie.rb:55-75 | the two tries hold exactly the continuation bodies and exactly the other tokens, each under its token id; neither has more nodes than the root and one for every byte of the vocabulary |
| ByteTrie.BuiltTriesAreAccepted | ext/static_embeddings/se_format.c:261-320 | both tries of every vocabulary pass the loader's check |
| WordPiece.BuildIndex | lib/static_embeddings/format/writer.rb:12-14 | hash table and tries are built exactly for vocabularies without repeated tokens, and then both index the whole vocabulary |
| WordPiece.WindowLosesNothing | lib/static_embeddings/bert_wordpiece.rb:166-171 | no token lies beyond the max_token_chars window: a longer piece is never in the vocabulary |
| WordPiece.MatchIsLongestPiece | ext/static_embeddings/se_tokenizer.c:633-667 | the longest byte match inside the window ends on a codepoint boundary and is the piece greedy dictionary search over codepoints takes |
| WordPiece.NextPiece | ext/static_embeddings/se_tokenizer.c:633-667 | one trie step gives the piece of the greedy search or reports that there is none; it never lands inside a codepoint |
| WordPiece.EncodeWord | ext/static_embeddings/se_tokenizer.c:580-622 | the byte copy taken for ASCII words equals UTF-8 encoding, with the same offsets |
| WordPiece.Wordpiece | ext/static_embeddings/se_tokenizer.c:565-667 | the hash check followed by the trie walk appends exactly the ids of greedy longest-first search, counts an unknown exactly when there is one, and never reports an invalid boundary |
| WordPiece.WordIdsAre | lib/static_embeddings/reference.rb:190-220 | a word is the unknown id alone exactly when it is longer than the limit or has no greedy split; otherwise its ids are those of the pieces of every greedy split, each piece a token and none of the longer ones |
| Truncation.CapAfterAppend | ext/static_embeddings/se_tokenizer.c:521-561 | given the right unknown count, the cap after an append leaves exactly the capped ids, keeps the unknown count right and stops exactly when ids were cut |
| Truncation.UsableCut | ext/static_embeddings/se_tokenizer.c:540-558 | the usable cut keeps the shortest prefix holding the allowed number of usable ids |
| Truncation.CutIsUnique | ext/static_embeddings/se_tokenizer.c:521-561 | there is only one place to cut |
| Truncation.CapOfPrefix | ext/static_embeddings/se_tokenizer.c:527-561 | once a prefix has been cut, further ids cannot change the result |
| Truncation.CapMeans | ext/static_embeddings/se_tokenizer.c:521-561 | a cap keeps the whole list while its size is within the limit and otherwise the shortest prefix with that many counting ids, the size being the length or, for usable ids, the length less the occurrences of the unknown id |
| Truncation.UsableAre | ext/static_embeddings/se_embed.c:137-145 | under the drop policy the unknown id is never pooled and a list without it is pooled as it is; without the policy every id is |
| Truncation.UsableConcat | ext/static_embeddings/se_embed.c:137-145 | what is pooled of two lists together is what is pooled of each |
| Truncation.UsableIsPolicy | lib/static_embeddings/reference.rb:110-116 | the row selection of the runtime equals rejecting the unknown id as the reference does |
| Truncation.CapPoolsLikeReference | lib/static_embeddings/reference.rb:98-117 | capping while streaming and dropping unknowns afterwards pools exactly the ids the reference pools, under both policies |
| Tokenizer.RunConcat | ext/static_embeddings/se_tokenizer.c:733-756 | running the segmenter over two event lists is running it over the first and then over the second |
| Tokenizer.RunKeepsWords | ext/static_embeddings/se_tokenizer.c:733-756 | a finished word is never taken back |
| Tokenizer.IdsConcat | ext/static_embeddings/se_tokenizer.c:717-731 | the ids of a list of words are the concatenation of the ids of its parts |
| TokenState.UnkOfWord | ext/static_embeddings/se_tokenizer.c:717-731 | for every word that is a single codepoint or free of "[" and "#": its ids hold the unknown id exactly once when it is unknown and not at all otherwise |
| TokenState.ClassTable | ext/static_embeddings/se_tokenizer.c:478-483 | for every byte below 0x80 the class table gives the class the slow predicates give |
| TokenState.FastPathIsSlowPath | ext/static_embeddings/se_tokenizer.c:855-952 | for every ASCII byte and every flag setting the fast path emits the events of cleaning, stripping, lowering and feeding the byte if and only if text is cleaned or the byte is not dropped |
| TokenState.TokenState.Append | ext/static_embeddings/se_tokenizer.c:707-731 | appending the ids of a word leaves the capped ids of the words so far |
| TokenState.TokenState.FlushSegment | ext/static_embeddings/se_tokenizer.c:733-740 | the segment buffered so far becomes one word, or nothing changes when it is empty |
| TokenState.TokenState.FeedTokenCp | ext/static_embeddings/se_tokenizer.c:742-756 | a codepoint moves the state as the segmentation fold does: break, punctuation or letter |
| TokenState.TokenState.EmitLowered | ext/static_embeddings/se_tokenizer.c:776-793 | the state moves by the events of the lowercased codepoint |
| TokenState.TokenState.EmitStripped | ext/static_embeddings/se_tokenizer.c:795-815 | the state moves by the events of the decomposed, unmarked and lowercased codepoint |
| TokenState.TokenState.EmitCleaned | ext/static_embeddings/se_tokenizer.c:817-836 | the state moves by the events of the cleaned and space-wrapped codepoint |
| TokenState.TokenState.TokenizeAsciiRun | ext/static_embeddings/se_tokenizer.c:855-952 | over a whole ASCII run the fast path reaches the state that scanning it codepoint by codepoint reaches, added tokens and cap included |
| TokenState.TokenizeText | ext/static_embeddings/se_tokenizer.c:954-1019 | the one-pass tokenizer returns the capped ids of the words of the text, the truncation flag and the exact number of unknown ids held; a malformed byte is an error exactly when it is reached before the cap |
| Reference.ClassesAgree | lib/static_embeddings/reference.rb:6-18 | CJK ranges, ASCII punctuation and spaces of the reference, with its regular expressions, are the classes the tokenizer tests by comparisons and loaded tables |
| Reference.CjkAgrees | ext/static_embeddings/se_unicode.c:116-121 | a codepoint lies in one of the eight ranges of the reference exactly when the comparisons of the runtime say so |
| Reference.SpelledIsLiteral | lib/static_embeddings/bert_wordpiece.rb:8-14 | the five added tokens are spelled the same on both sides |
| Reference.PassesCompose | lib/static_embeddings/reference.rb:80-88 | the four normalisation passes of the reference, with its own classes and mappings, compose into the tokenizer's per-codepoint normalisation |
| Reference.SplitFold | lib/static_embeddings/reference.rb:147-188 | splitting on spaces and then on punctuation gives the words of the segmentation fold |
| Reference.EnQuadIsCleanedFirst | ext/static_embeddings/se_tokenizer.c:817-836 | the canonical decomposition of U+2000 is whitespace, but both tokenizers replace the codepoint by a space first |
| Reference.EarliestIsNext | lib/static_embeddings/reference.rb:121-145 | the leftmost literal the reference cuts out is the one the scan meets next, and no two literals start at one place |
| Reference.StreamingIsReference | lib/static_embeddings/reference.rb:80-96 | on every valid text the one-pass tokenizer gives the words, and without a limit the ids, of the multi-pass reference; added tokens get their index in the vocabulary |
| Reference.PooledLikeReference | lib/static_embeddings/reference.rb:98-117 | under every limit and policy the streaming tokenizer pools the ids the reference pools |
| PrefixWindow.BoundarySplitsAddedToken | ext/static_embeddings/se_tokenizer.c:409-427 | the check answers exactly whether an enabled added token starts before the boundary and ends behind it |
| PrefixWindow.PrefixBoundaryLen | ext/static_embeddings/se_tokenizer.c:429-469 | the backward scan returns the specified boundary for every text, valid or not |
| PrefixWindow.BoundaryIsLegal | ext/static_embeddings/se_tokenizer.c:429-469 | the boundary is 0, the whole length or a legal cut within the target, and on valid text no cut in the window lies behind it |
| PrefixWindow.BoundaryGrows | ext/static_embeddings/se_tokenizer.c:429-469 | a larger target never yields an earlier cut |
| PrefixWindow.SliceWords | docs/ARCHITECTURE.md:236-244 | every word of the slice in front of a legal cut that ends a word, the last one included, is a word of the whole text in the same place |
| PrefixWindow.SliceWordsIff | ext/static_embeddings/se_tokenizer.c:429-469 | at a legal cut of any text the words of the slice start the words of the text if and only if the slice is invalid, no word is pending at the cut, or the next event does not continue it |
| PrefixWindow.TextIsExactIff | ext/static_embeddings/se_tokenizer.c:429-469 | every legal cut of a valid text is exact if and only if every legal cut of it ends a word |
| PrefixWindow.CleanCutsEndWords | ext/static_embeddings/se_tokenizer.c:444-469 | in a text without a stable boundary codepoint that cleaning removes every legal cut ends a word |
| PrefixWindow.BoundaryEvents | ext/static_embeddings/se_tokenizer.c:444-463 | a whitespace, punctuation or CJK codepoint the normaliser leaves alone ends the word |
| PrefixWindow.OthersAreLetters | ext/static_embeddings/se_tokenizer.c:444-463 | and every other codepoint it leaves alone is one letter, so the window misses no kind of boundary |
| PrefixWindow.PrefixIsExact | ext/static_embeddings/se_tokenizer.c:429-469 | at a legal cut that ends a word the raw ids of the slice are a prefix of the raw ids of the text; a slice that reports truncation has exactly the ids, and hence the statistics, of the text under that cap; an invalid slice means an invalid text |
| PrefixWindow.DroppedBoundaryBreaksPrefix | ext/static_embeddings/se_tokenizer.c:817-836 | witness: "a", a boundary codepoint that cleaning removes, "b" - the slice shows the word a, the text only ab |
| PrefixWindow.DroppedBoundaryIsTaken | ext/static_embeddings/se_tokenizer.c:429-469 | the backward scan does return that cut |
| PrefixWindow.ExactIffNothingDropped | ext/static_embeddings/se_tokenizer.c:444-469 | corollary for a whole set of tables: every returned cut is exact, on every valid text and for every target, if and only if cleaning removes no stable boundary codepoint |
| PrefixWindow.NextLineIsADroppedBoundary | lib/static_embeddings/unicode_tables.rb:13-14 | tables that list U+0085 both as control and as whitespace, as the shipped ones do, do not meet that condition |
| PrefixWindow.NextLineDecides | lib/static_embeddings/unicode_tables.rb:13-14 | where U+0085 is the only such codepoint, a text is free of them if and only if the bytes C2 85 do not stand in it |
| Batch.SelectRows | ext/static_embeddings/se_embed.c:120-152 | the id loop refuses exactly lists with an id out of range and otherwise selects the usable ids, which are those of the reference policy (Truncation.UsableIsPolicy) |
| Batch.TokenizedInRange | ext/static_embeddings/se_embed.c:137-141 | ids that come from the tokenizer are always in range |
| Batch.EmbedText | ext/static_embeddings/se_embed.c:197-205 | tokenize, cap, drop unknowns and refuse an empty selection: the result and statistics of the text |
| Batch.ResolveCopyLen | ext/static_embeddings/static_embeddings.c:643-661 | the loop ends with the first grown target that has a cut; it returns the whole length exactly when the target is the whole length |
| Batch.SliceDecides | ext/static_embeddings/static_embeddings.c:921-930 | a slice that is the whole text, or that ends a word and reports truncation or is invalid, has the result of the whole text |
| Batch.RetryNeverHelps | ext/static_embeddings/static_embeddings.c:904-909 | for every text and legal cut: if the slice is invalid, so is the text, whatever the cap |
| Batch.LongerSliceIsNotEmpty | ext/static_embeddings/static_embeddings.c:904-909 | once a slice that ends a word was invalid, or embedded without reaching the cap, no longer slice leaves nothing to pool |
| Batch.WorkOfSurvivors | ext/static_embeddings/static_embeddings.c:921-930 | settling a pass lowers the sum over pending rows of 1 + length - target by at least the number of rows that were pending |
| Batch.EmbedRun.ResolveAll | ext/static_embeddings/static_embeddings.c:864-868 | every pending row gets its resolved target and slice length; other targets are untouched |
| Batch.EmbedRun.RunJob | ext/static_embeddings/static_embeddings.c:242-277 | rows of the job hold the embeddings of their slices, rows outside it are untouched; a failure is reported with its position, and every slice in front of it embeds |
| Batch.EmbedRun.Settle | ext/static_embeddings/static_embeddings.c:921-930 | the in-place compaction keeps exactly the undecided rows, in order, and grows exactly their targets |
| Batch.SoundRetry | ext/static_embeddings/static_embeddings.c:904-909 | retrying an invalid slice keeps every row on the way to its own result and strictly lowers the work left |
| Batch.SoundSettled | ext/static_embeddings/static_embeddings.c:921-930 | settling keeps the run sound - rows that left hold their result, rows that stay are on the way to it - and strictly lowers the work left |
| Batch.EmbedTexts | ext/static_embeddings/static_embeddings.c:832-934 | for every array of texts and every cap the loop ends and rows do not influence each other: each comes out as its own retries alone would give it; the batch raises exactly when a row does, and blames the row that fails in the earliest round and, of those, the first; without a cap that is the first row that fails |
| Batch.RoundsAreFew | ext/static_embeddings/static_embeddings.c:637-641 | a text goes through no more rounds than the logarithm of its length over the first budget |
| Batch.PooledCount | ext/static_embeddings/static_embeddings.c:1080-1083 | the number of pooled ids is the token count, less the unknown count when unknowns are dropped |
| Batch.RowIsEmbedding | ext/static_embeddings/static_embeddings.c:832-934 | if every cut the retries take ends a word, they give the embedding of the whole text, or refuse the text when its first slice is blank; so the two agree if and only if a blank start means an empty text |
| Batch.EndedCutsAreTaken | ext/static_embeddings/static_embeddings.c:864-930 | that condition on the cuts taken holds for every text in which every legal cut ends a word, whatever the vocabulary |
| Batch.BlankStartMeans | ext/static_embeddings/se_embed.c:154-161 | a start is blank exactly when empty rows are refused and the first slice tokenizes to no ids, or to unknown ids only while unknown ids are dropped |
| BlankBatch.LeadingSpaces | ext/static_embeddings/se_tokenizer.c:817-836 | leading spaces change nothing about what a text embeds to |
| BlankBatch.LeadingSpacesRaise | ext/static_embeddings/static_embeddings.c:901-919 | under EMPTY_RAISE and a cap, any text behind 65536 spaces embeds as the text does, but its row in a batch is always the empty-input error |
| BlankBatch.SeparatorIsRejected | ext/static_embeddings/static_embeddings.c:901-919 | a concrete vocabulary the loader opens and a concrete text: it embeds to one id, and the batch of that text raises for row 0 |
| BlankBatch.BlankStartNeedsRaise | ext/static_embeddings/se_embed.c:154-161 | without EMPTY_RAISE no first slice is blank, and with it a blank start of a text that embeds needs a cap and a proper slice |
| GluedBatch.GluedRow | ext/static_embeddings/static_embeddings.c:901-930 | for every model with a removed boundary codepoint and every word of ASCII without a bracket that the cap cuts: with the codepoint inside the word, at the end of the first budget, the text gets the row of the first half of the word, while it embeds like the whole word |
| GluedBatch.ExactForEveryVocabulary | ext/static_embeddings/static_embeddings.c:832-934 | the exact condition on flags and tables: without EMPTY_RAISE every valid text gets its own embedding, for every vocabulary the loader opens and every cap, if and only if cleaning removes no stable boundary codepoint |
| GluedBatch.GlueIsReturned | ext/static_embeddings/static_embeddings.c:901-930 | a concrete vocabulary the loader opens and a concrete text on which the two differ: the batch returns the row of id 1, the text embeds to id 3 |
| Vocabulary.AssignVocab | lib/static_embeddings/bert_wordpiece.rb:133-138 | a token is placed at its id exactly when the id is a place of the list that is still empty; nothing else changes |
| Vocabulary.NoHole | lib/static_embeddings/bert_wordpiece.rb:128-130 | after all tokens are placed no place is empty, so the hole error cannot occur |
| Vocabulary.Read | lib/static_embeddings/bert_wordpiece.rb:123-138 | a hash from tokens to ids is accepted exactly when the ids are 0 to n - 1, each once; then the list is free of repeats and holds every token at its id |
| StoredIds.CapStored | ext/static_embeddings/static_embeddings.c:1299-1323 | the cap on a stored list equals the streaming cap; the usable scan reports exactly the first id out of range it reaches |
| StoredIds.EmbedTokenIds | ext/static_embeddings/static_embeddings.c:1211-1323 | an id out of range is an error exactly when it is reached; otherwise the result is that of the capped list |
| StoredIds.StoredMatchesStreamed | ext/static_embeddings/static_embeddings.c:1289-1354 | storing the uncapped ids of a text and embedding them under any limit gives the pooled ids, the three counts and the error of embedding the text under that limit |
| StoredIds.EmbeddingIsReference | lib/static_embeddings/reference.rb:98-117 | on every valid text both paths pool what the reference pools, and fail exactly when that is empty and refused |
| Opening.CheckSpecials | ext/static_embeddings/se_format.c:553-584 | the loader's last check accepts exactly vocabularies that have "[UNK]" and every enabled added token at its recorded id |
| Opening.CheckIndex | ext/static_embeddings/se_format.c:499-615 | on what the builder made, the loader's table and trie checks fail exactly for a misplaced special token, and otherwise give back the index that was built |
| Opening.ConvertAndOpen | ext/static_embeddings/se_format.c:499-615 | indexes built by the converter are opened exactly when tokens are distinct and special tokens in place, and then give the tokenizer all it relies on |
| ModelFile.SettingsRoundTrip | ext/static_embeddings/se_format.c:647-764 | policies, flags, added tokens, ids and limits described by their meaning, written by the numbers of the converter and read by those of the loader, come back with their meaning |
| ModelFile.WordsFit | lib/static_embeddings/format/writer.rb:11-20 | slots, tables and tries of every vocabulary that fits the format are packed without losing a bit |
| ModelFile.WriteModel | lib/static_embeddings/format/writer.rb:11-20 | a file is written unless a token repeats or a header value does not fit; every section holds the words of what was built |
| ModelFile.OpenModel | ext/static_embeddings/se_format.c:617-834 | a written file is refused only by the header and section checks or for a misplaced special token; otherwise settings, tables and index are those written |
| ModelFile.SpecialsMean | ext/static_embeddings/se_format.c:553-584 | the special tokens are in place exactly when each stands in the vocabulary, as spelled, at the id described |
| ModelFile.ConvertAndOpenFile | ext/static_embeddings/se_format.c:617-834 | for every description, vocabulary and tables the written file is opened if and only if text is cleaned, no special tokens are added, dimension and unknown id are in range, the matrix has its size and the special tokens stand at their ids; the loader then holds the model that was described and an index the tokenizer may rely on |
| HalfFloat.HalfToFloat | ext/static_embeddings/se_f16.c:80-107 | the decoder with its wrapping exponent loop computes the specified pattern |
| HalfFloat.DecodeIsExact | ext/static_embeddings/se_f16.c:80-107 | decoding keeps the sign and the exact value of every finite half, subnormals included, and the fraction of the others |
| HalfFloat.DecodersAgree | lib/static_embeddings/safetensors.rb:244-258 | the decoder in Ruby names for every pattern the number the native decoder gives, the same infinities, and NaN for the same patterns |
| HalfFloat.EncodeRounds | ext/static_embeddings/se_f16.c:41-78 | the value encoded lies between the midpoints around the result, the lower one included |
| HalfFloat.EncodeIsNearest | ext/static_embeddings/se_f16.c:41-78 | for every finite binary32 the result is a nearest binary16, ties away from zero (roundTiesToAway, section 4.3.1 of IEEE 754-2008), and it is infinite exactly from 65520 on |
| HalfFloat.SpecialsAreKept | ext/static_embeddings/se_f16.c:49-54 | infinities stay infinite, NaN stays NaN, signs are kept |
| HalfFloat.EncodeKeepsOrder | ext/static_embeddings/se_f16.c:41-78 | encoding preserves the order of finite numbers |
| HalfFloat.EncodeUndoesDecode | ext/static_embeddings/se_f16.c:41-107 | encode(decode(h)) = h for all 65536 patterns |
| HalfFloat.EncodeFloats | ext/static_embeddings/se_f16.c:117-120 | the destination holds the encodings of the original floats even when it is the source buffer itself, and nothing behind them is written |
| HalfFloat.EncodeInPlace | ext/static_embeddings/static_embeddings.c:771-784 | encoding a buffer onto its own start gives the bytes encoding into another buffer gives |
| HalfFloat.SameHalvesSameBytes | ext/static_embeddings/static_embeddings.c:771-784 | two byte strings holding the same halves are equal |
| HalfFloat.DecodeFloats | ext/static_embeddings/se_f16.c:122-125 | every element is the decoding of its half |
| TopK.RankingSorts | ext/static_embeddings/se_topk.c:220-235 | inserting the rows one by one yields exactly the rows that are neither NaN nor minus infinity, by descending score and then ascending index |
| TopK.RankingIsUnique | ext/static_embeddings/se_topk.c:220-235 | a list is that ranking if and only if it is sorted so and holds exactly the eligible rows |
| TopK.Insert | ext/static_embeddings/se_topk.c:225-233 | shifting the buffers in place inserts the row where the ranking has it |
| TopK.Execute | ext/static_embeddings/se_topk.c:195-236 | after the scan the buffers hold the first k rows of the ranking and minus infinity behind them, wherever NaN scores stand |
| TopK.TopRows | ext/static_embeddings/static_embeddings.c:1437-1447 | the answer is the first k rows of the ranking, fewer if there are not as many; k below 1 is an error |
| Container.Layout | lib/static_embeddings/format/writer.rb:34-42 | sections come in order, disjoint, each at the next multiple of 64 behind the one before, and the file ends with the last |
| Container.ValidateNoOverlaps | ext/static_embeddings/se_format.c:247-259 | the pairwise check accepts exactly lists without overlapping sections |
| Container.LayoutPassesChecks | ext/static_embeddings/se_format.c:217-259 | for all sizes the layout passes the bounds, alignment and overlap checks, and the element check exactly when the size is divisible |
| Container.BuildHeader | lib/static_embeddings/format/writer.rb:80-98 | a header is built exactly when every value fits its field, and then every one of its words holds what the format's field table says: no write touches another field |
| Container.HeaderRoundTrip | ext/static_embeddings/se_format.c:617-760 | the loader accepts a written header exactly when its values are allowed |
| Container.SectionsRoundTrip | ext/static_embeddings/se_format.c:766-773 | the loader reads back exactly the sections written |
| Container.ValidateRoundTrip | ext/static_embeddings/se_format.c:617-806 | a written file passes all header and section checks exactly when its values are allowed and the hash and matrix sections have the sizes the header implies |
| Container.WriteFile | lib/static_embeddings/format/writer.rb:44-65 | however payloads are chunked, each stands whole in its section, gaps are zero, and the file is the digested stream with the checksum filled in |
| Container.Verify | lib/static_embeddings/format/verifier.rb:12-33 | verification compares the stored checksum with the digest of the file whose checksum field is zeroed |
| Container.ZeroedPatched | lib/static_embeddings/format/verifier.rb:22-33 | zeroing the checksum of a written file gives back the stream that was digested |
| Container.Write | lib/static_embeddings/format/writer.rb:11-20 | a written file verifies, is accepted exactly when its values are allowed and the two sizes fit, and has every payload where the header says |
| Words.PowersOfTwo | ext/static_embeddings/se_format.c:734-738 | n & (n - 1) is zero exactly for the powers of two |
| Words.WordsRoundTrip | lib/static_embeddings/format/trie.rb:46-49 | a section packed from 32-bit words is read back word by word |
| Payloads.Widen | lib/static_embeddings/safetensors.rb:214-242 | conversion in blocks equals converting every half of the whole string; an odd byte is refused or dropped |
| Payloads.EachConverted | lib/static_embeddings/safetensors.rb:23-49 | for every file the chunks together are the tensor converted at once and have the converted size; the stream raises exactly when the file is too short or half an element is left over |
| Payloads.AnnouncedSize | lib/static_embeddings/safetensors.rb:15-21 | a tensor of count elements is converted to the announced count * 4 bytes |
| Payloads.ConvertedAt | lib/static_embeddings/safetensors.rb:39-47 | element i of the output is element i of the tensor: a float as it is, a half decoded, a bfloat16 as the upper half of its word |
| Payloads.Bf16IsExact | lib/static_embeddings/safetensors.rb:231-242 | a bfloat16 keeps sign and exponent, and its fraction becomes the upper bits of the fraction |
| Payloads.EachWeighted | lib/static_embeddings/weighted_payload.rb:49-67 | for every chunk split the output is every row scaled by its own weight; the stream ends in an error exactly on a partial row or a row without weight |
| Payloads.EachMapped | lib/static_embeddings/weighted_payload.rb:33-47 | for every chunk split, mapping and weights the chunks are the mapped rows put together; the stream raises exactly when a row does: no mapping entry, a slice outside the table, or a missing weight |
| Payloads.MappedWhole | lib/static_embeddings/weighted_payload.rb:33-47 | with a validated mapping and enough weights nothing raises, output row i is source row mapping[i], scaled by weight i if there are weights, and the total is the announced size |
| Payloads.EachPrefix | lib/static_embeddings/row_prefix_payload.rb:25-57 | for every chunk split the output is the prefix of every row; the stream raises exactly on a partial row |
| Payloads.EachOutput | lib/static_embeddings/row_prefix_payload.rb:25-36 | conversion, weighting and slicing fed into one another equal the three maps applied to the whole matrix, have the size that follows from the bytes of the tensor, and raise exactly when one of them must |
| Payloads.WholeRows | lib/static_embeddings/weighted_payload.rb:49-67 | output row i is the first bytes of input row i scaled by weight i, and the total is exactly the announced size |
| CloseProtocol.UndisturbedIsSafe | ext/static_embeddings/static_embeddings.c:341-446 | in every interleaving, on normal, raising, killed, joined and converting paths: active_ops is the number of operations inside their region, no native work runs on a closed model, no buffer is freed that a worker can still read |
| CloseProtocol.StepIsSound | ext/static_embeddings/static_embeddings.c:376-446 | every step of every thread that does not disturb keeps the invariant |
| CloseProtocol.SafeIffUndisturbed | ext/static_embeddings/static_embeddings.c:341-446 | run by run: everything that can follow any of its states is safe if and only if no step of the run closes the model under a running to_int or breaks the wait for a live worker |
| CloseProtocol.BrokenWaitIsUnsafe | ext/static_embeddings/static_embeddings.c:356-365 | a run in which a second exception breaks the wait of the ensure clause: the worker runs on, its buffers are freed and the model is closed |
| CloseProtocol.ClosingConversionIsUnsafe | ext/static_embeddings/static_embeddings.c:538-548 | a run in which the to_int of the cap closes the model: native work runs on the closed model |
| AllocStats.AfterIsSound | ext/static_embeddings/se_alloc_stats.c:95-132 | every interleaving of atomic steps keeps the accounting invariant |
| AllocStats.ExactWhenQuiescent | ext/static_embeddings/se_alloc_stats.c:95-132 | whenever no thread is inside an operation, current_bytes is the size of the live blocks of the category, the totals differ by its growth since the last reset, and peak_bytes is the largest value it has had since then |
| AllocStats.CountsWhenQuiescent | ext/static_embeddings/se_alloc_stats.c:104-132 | then each count is the number of allocations, reallocations or frees of the category since the last reset, and each total the sum of their bytes |
| AllocStats.RetryLowersGap | ext/static_embeddings/se_alloc_stats.c:95-102 | whatever other threads do between a failed compare-and-swap and the next load, the distance from the peak to the value strictly falls |

## Left out

- The dot, norm and add kernels, SIMD or not, and summation error: a row of a batch is the list of pooled ids with its statistics, a score is a given number; equal id lists give equal vectors.
- `cosine_score`: a score is given, NaN included.
- Mapping and reading files, SHA-256, JSON, safetensors headers, provenance, importers, command line and model wrappers.
- Out-of-memory paths, growth of scratch buffers and size overflow checks: allocation succeeds; counts above 2^32 - 1 ids are not modelled.
- Cancellation inside a job: the stride checks and the cancelled result.
- The Unicode data: lowercase, decomposition and class tables are arbitrary; that the shipped ones meet the hypotheses is not proved.
- Ruby's regular expressions, `downcase` and `unicode_normalize`: a parameter, `Reference.Unicode`; of them only what Unicode says of ASCII is assumed, that the tables hold them, and that only whitespace maps to whitespace.
- The reference is written as recursive functions although the Ruby code loops, because it is the specification the runtime is compared with.
- Bit masks by a power of two are remainders or a wrapping successor, joined bit fields are sums, bitsets are arrays of flags.
- `Batch.EmbedRun`: the run's five buffers are sequence fields that the methods reassign; the staging copy of `build_input_indexed` is the slice itself.
- `Batch.RowIsEmbedding`: for one given vocabulary and text the condition is sufficient; a word cut in two need not change the ids that are kept. Over all vocabularies it is exact: `GluedBatch.ExactForEveryVocabulary`.
- `GluedBatch.GluedRow`: words outside ASCII, with brackets, or that fit the cap on their own are not covered.
- `Batch.EmbedRun.RunJob`: cancellation of the job and a scratch allocation that fails are not modelled.
- The model is opened with `clean_text` set: the loader refuses any other file.
- `NormTables.RangeAccumulator.Add`: codepoints arrive in ascending order, as the builder's loop passes them.
- `VocabHash.Build`: the quotient by 0.70 is a parameter, off from the exact one by at most one, as a double is for any vocabulary that fits the format.
- `VocabHash.LookupPiece`: vocabularies whose strings exceed 2^32 - 1 bytes are excluded where 32-bit offsets matter, as the packed format cannot hold them.
- `Container.Write`: the payloads announce the size they emit; for the streamed payloads that is `Container.ConvertedIsHonest`, `Payloads.MappedWhole` and `Payloads.WholeRows`.
- `Payloads.EachConverted`: conversion of one half is a parameter; that decoded values pass through Ruby doubles, which may quiet a NaN, is not modelled.
- `Payloads.EachMapped`: chunks passed on before a row raises are not recorded; mapping entries are integers, as `validate_mapping` demands.
- `ModelFile.OpenModel`: only files the writer made; on other bytes the header, section, table and trie checks are specified one by one in `Container`, `NormTables`, `VocabHash` and `ByteTrie`.
- `ModelFile.ConvertAndOpenFile`: the strings of the vocabulary take at most 2^32 - 2 bytes, so that node counts fit 32 bits; the tables are sorted as the builder makes them.
- `CloseProtocol.UndisturbedIsSafe`: garbage collection of the model object is not modelled. A call made inside a `to_int` on the same thread is modelled as one on another thread while the lock is given up.
- `CloseProtocol.SafeIffUndisturbed`: liveness - that a cancelled worker ends - is not modelled; a killed worker that has not started may still start.
- `AllocStats.ExactWhenQuiescent`: counters do not wrap; resets happen only while no thread is inside an operation.
- `HalfFloat.EncodeFloats`: the lookup table and the hardware backends of the half kernels are left out.
