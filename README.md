# NER tokenizer of AdasVetelServer, modelled in Dafny

The named-entity service of AdasVetelServer prepares text for a BERT-style model. The model
covers that preparation, which lives in `TokenizerBase`, `StringExtension.SplitAndKeep` and
the `Tokens` constants of `Ner.cs`:

- **Vocabulary.** The entries are read from a file, skipping blank lines. They are kept as a
  list in file order, and a dictionary maps each entry to its position.
- **Pre-tokenizer.** A text is split at spaces and CR LF. Each piece is then cut at a fixed set
  of punctuation characters. The punctuation and the empty pieces are dropped.
- **Subword decomposition.** Each word is broken into vocabulary entries by a greedy search for
  the longest known prefix. The prefix is then rewritten to `##` in the remainder. The
  `[UNK]` marker stands in where no prefix is known.
- **Tokenize.** All texts are joined into one stream: one leading `[CLS]`, then each text's
  pieces followed by one `[SEP]`. Each token gets the count of `[SEP]` tokens before it as its
  segment id.
- **Encode.** The stream is cut into blocks of 512 tokens. Each block is zero-padded to the
  requested length and becomes a window of (input id, token type id, attention mask) triples.
- **Untokenize.** The reverse direction: `##` fragments are glued back onto the word in front
  of them.

## Structure

Each file holds one module.

- `results.dfy`, module `Results`: `Option` and `Result`, and the two exceptions the code can
  raise. `KeyNotFound` is the dictionary indexer's failure when `[UNK]` is needed but is not in
  the vocabulary. `ArgumentOutOfRange` comes from `Enumerable.Repeat` with a negative count,
  and from the list indexer.
- `tokens.dfy`, module `Tokens`: the marker constants of `Tokens` and the continuation
  marker `##`.
- `text.dfy`, module `Text`: the .NET string operations the code relies on:
  - `Char.IsWhiteSpace` and `IsNullOrWhiteSpace`
  - `StartsWith`
  - `String.Replace`, which replaces every non-overlapping occurrence, scanning left to right
  - counting, flattening and reversal of sequences
- `vocabulary.dfy`, module `Vocabulary`: the blank-line filter of `VocabularyReader.ReadFile`,
  the dictionary the constructor builds, and `IdToToken`.
- `pretokenizer.dfy`, module `PreTokenizer`: `String.Split` with the three separators,
  `IndexOfAny`, `SplitAndKeep` (an imperative method proved against the run function `Runs`),
  and `TokenizeSentence`.
- `wordpiece.dfy`, module `WordPiece`: the two loops of `TokenizeSubwords` as the recursive
  function `Decompose`, its entry point `Subwords`, and their properties.
- `tokenization.dfy`, module `Tokenization`: the `Tokenize` pipeline, the segment-id function,
  and the properties of the token stream.
- `encoding.dfy`, module `Encoding`: the blocks and windows of `Encode`, and their shape,
  failure and round-trip properties.
- `untokenization.dfy`, module `Untokenization`: the words `Untokenize` rebuilds, and their
  properties.
- `tokenizer.dfy`, module `NerTokenizer`: the class `TokenizerBase` and the code's own loops:
  - the constructor's dictionary loop
  - the nested loops of `TokenizeSubwords`
  - the counter loop of `SegmentIndex`
  - the three loops of `Encode`
  - the in-place reversal and walk of `Untokenize`

  Each method is proved equal to the functions of the modules above.
- `scenarios.dfy`, module `Scenarios`: two decompositions worked through with a small
  vocabulary.

A precondition appears throughout: `"##"` must not be a vocabulary entry. With `"##"` in the
vocabulary, the outer loop of `TokenizeSubwords` runs forever exactly when a remainder of more
than two characters has `"##"` itself as its longest known prefix: the rewrite on line 271 of
`Ner.cs` then gives the same remainder back (`WordPiece.RewriteStuck`). Every other step makes
the remainder lighter, whatever the vocabulary (`WordPiece.RewriteProgress`). The weight counts
one per `#` and two per other character. So most words still end with such a vocabulary: exact
hits return at line 239, and with `ab` and `##c` known, "abc" gives `ab`, `##c`
(`Scenarios.MarkedEntryEnds`). The precondition turns such vocabularies away as a whole.

## Model

| member | source | states |
|---|---|---|
| Vocabulary.ReadVocabulary | AdasVetelServer/AdasVetelServer/analyzing/ner/Ner.cs:539-557 | the entries are exactly the lines that are not null, empty or whitespace-only, kept verbatim; there are never more entries than lines |
| Vocabulary.ReadVocabularyAppend | AdasVetelServer/AdasVetelServer/analyzing/ner/Ner.cs:547-553 | the filter works line by line: the entries of two consecutive parts of the file are the first part's entries followed by the second's |
| Vocabulary.IndexMap | AdasVetelServer/AdasVetelServer/analyzing/ner/Ner.cs:120-122 | the dictionary's keys are exactly the entries of the list, and the id stored under each key is a position of the list that holds that key |
| Vocabulary.IndexMapLastPosition | AdasVetelServer/AdasVetelServer/analyzing/ner/Ner.cs:120-122 | the dictionary's keys are exactly the entries; each key maps to a position holding it, and no later position holds it (a duplicate's last position wins) |
| Vocabulary.IdToToken | AdasVetelServer/AdasVetelServer/analyzing/ner/Ner.cs:168-171 | succeeds exactly for ids within the list, and returns an entry of the list; outside the list it fails with ArgumentOutOfRange |
| Vocabulary.IdToTokenOfIndex | AdasVetelServer/AdasVetelServer/analyzing/ner/Ner.cs:168-171 | for every entry `w`, `w` is a key, and `IdToToken(dict[w])` returns `w` |
| Vocabulary.IndexMapIsLargest | AdasVetelServer/AdasVetelServer/analyzing/ner/Ner.cs:120-122 | the id of an entry is at least every position holding that entry |
| NerTokenizer.TokenizerBase.constructor | AdasVetelServer/AdasVetelServer/analyzing/ner/Ner.cs:116-123 | the loop builds exactly the dictionary `IndexMap` of the filtered lines; its keys are the entries, and each id is the last position of its entry |
| PreTokenizer.MatchSeparator | AdasVetelServer/AdasVetelServer/analyzing/ner/Ner.cs:287 | the separators are tried in array order: a match is the first non-empty separator of the array that the text starts with, and no match means the text starts with no non-empty separator |
| PreTokenizer.Split | AdasVetelServer/AdasVetelServer/analyzing/ner/Ner.cs:287 | `String.Split` with `StringSplitOptions.None` never returns an empty array: the empty text gives one empty piece |
| PreTokenizer.MatchSentenceSeparator | AdasVetelServer/AdasVetelServer/analyzing/ner/Ner.cs:287 | trying the separators in array order, a single space always wins over three spaces, so the match is 1 at a space, 2 at CR LF and none elsewhere |
| PreTokenizer.SplitSentence | AdasVetelServer/AdasVetelServer/analyzing/ner/Ner.cs:287 | no piece of `Split` contains a space, and the pieces joined are the text with every space and CR LF pair removed |
| PreTokenizer.SplitAtSeparator | AdasVetelServer/AdasVetelServer/analyzing/ner/Ner.cs:287 | the text is cut at every single space and every CR LF pair: the pieces of `a + sep + b` are the pieces of `a` followed by those of `b`, empty pieces included |
| PreTokenizer.SplitOfSeparatorFree | AdasVetelServer/AdasVetelServer/analyzing/ner/Ner.cs:287 | a text with no space and no CR LF pair is one piece, itself |
| PreTokenizer.IndexOfAny | AdasVetelServer/AdasVetelServer/analyzing/ner/Ner.cs:300 | returns -1 exactly when no delimiter occurs from `start` on, and otherwise the first position from `start` holding a delimiter |
| PreTokenizer.SplitAndKeep | AdasVetelServer/AdasVetelServer/analyzing/ner/Ner.cs:295-314 | the loop yields exactly `Runs`, the maximal runs of non-delimiter characters in order; every piece is non-empty and delimiter-free |
| PreTokenizer.RunsPieces | AdasVetelServer/AdasVetelServer/analyzing/ner/Ner.cs:298-313 | every run is non-empty and delimiter-free, and the runs joined are the input with every delimiter deleted |
| PreTokenizer.RunsAtDelimiter | AdasVetelServer/AdasVetelServer/analyzing/ner/Ner.cs:300-307 | a delimiter is dropped and cuts the text: the runs of `a + [d] + b` are the runs of `a` followed by those of `b` |
| PreTokenizer.RunsOfDelimiterFree | AdasVetelServer/AdasVetelServer/analyzing/ner/Ner.cs:310-313 | a delimiter-free string comes out whole, one piece, or nothing when it is empty |
| PreTokenizer.RunsChars | AdasVetelServer/AdasVetelServer/analyzing/ner/Ner.cs:302-312 | every character of every run is a character of the input |
| PreTokenizer.SelectRuns | AdasVetelServer/AdasVetelServer/analyzing/ner/Ner.cs:288 | every word of the `SelectMany` is non-empty and free of the punctuation set, and free of spaces when the pieces are |
| PreTokenizer.TokenizeSentence | AdasVetelServer/AdasVetelServer/analyzing/ner/Ner.cs:284-290 | every word is non-empty and contains no space and no character of the punctuation set |
| PreTokenizer.TokenizeSentenceText | AdasVetelServer/AdasVetelServer/analyzing/ner/Ner.cs:284-290 | the words joined are the text with its separators and all punctuation characters deleted |
| PreTokenizer.TokenizeSentenceAtSeparator | AdasVetelServer/AdasVetelServer/analyzing/ner/Ner.cs:284-290 | the words break at every space and CR LF pair: the words of `a + sep + b` are the words of `a` followed by those of `b` |
| PreTokenizer.TokenizeSentenceOfSeparatorFree | AdasVetelServer/AdasVetelServer/analyzing/ner/Ner.cs:284-290 | between separators the words are exactly the runs of `SplitAndKeep`; with `RunsAtDelimiter` and `RunsOfDelimiterFree` this fixes every word boundary |
| WordPiece.LongestPrefix | AdasVetelServer/AdasVetelServer/analyzing/ner/Ner.cs:249-262 | the inner loop finds a prefix of length two or more exactly when one is in the vocabulary, and then the longest one |
| Text.Replace | AdasVetelServer/AdasVetelServer/analyzing/ner/Ner.cs:271 | `String.Replace` only produces characters of the input and of the replacement |
| Text.ReplaceAbsent | AdasVetelServer/AdasVetelServer/analyzing/ner/Ner.cs:271 | a text in which the pattern never occurs is returned unchanged |
| Text.ReplaceAtFirst | AdasVetelServer/AdasVetelServer/analyzing/ner/Ner.cs:271 | every occurrence is replaced, scanning left to right: the text up to the first occurrence is kept, that occurrence becomes the replacement, and the scan resumes right after it |
| Text.ReplaceSelf | AdasVetelServer/AdasVetelServer/analyzing/ner/Ner.cs:271 | replacing a pattern by itself returns the text unchanged |
| Text.ReplaceStartsWith | AdasVetelServer/AdasVetelServer/analyzing/ner/Ner.cs:271 | a text that starts with the pattern gives a result that starts with the replacement |
| Text.ReplaceWeight | AdasVetelServer/AdasVetelServer/analyzing/ner/Ner.cs:271 | rewriting with `##` a prefix other than `##` never makes the remainder heavier, and makes it strictly lighter when the remainder starts with that prefix, so the loop of line 247 ends |
| WordPiece.RewriteStuck | AdasVetelServer/AdasVetelServer/analyzing/ner/Ner.cs:247-274 | with `##` in the vocabulary, a remainder of more than two characters whose longest known prefix is `##` is rewritten to itself, so the loop repeats that step forever |
| WordPiece.RewriteProgress | AdasVetelServer/AdasVetelServer/analyzing/ner/Ner.cs:247-274 | whatever the vocabulary, a longest known prefix other than `##` makes the remainder strictly lighter |
| WordPiece.Decompose | AdasVetelServer/AdasVetelServer/analyzing/ner/Ner.cs:247-279 | the outer loop keeps every piece it has emitted as a prefix of its result, and fails only when `[UNK]` is needed and missing, with KeyNotFound("[UNK]") |
| WordPiece.Subwords | AdasVetelServer/AdasVetelServer/analyzing/ner/Ner.cs:237-282 | an exact vocabulary hit is returned whole with its id; an unknown word of length two or less gives nothing when it is whitespace and a single `[UNK]` otherwise; a failure happens only when `[UNK]` is missing, and is KeyNotFound("[UNK]") |
| WordPiece.DecomposeWellFormed | AdasVetelServer/AdasVetelServer/analyzing/ner/Ner.cs:247-279 | from any well-formed state, the decomposition stays well-formed, and it is non-empty for a non-whitespace word |
| WordPiece.SubwordsWellFormed | AdasVetelServer/AdasVetelServer/analyzing/ner/Ner.cs:244-281 | every piece is a vocabulary entry with its own id; the first piece is `[UNK]` or a prefix of the word; every later piece is `[UNK]` or starts with `##`; `[UNK]` can only be last unless the word starts with "[UNK]"; a non-whitespace word gives at least one piece |
| WordPiece.SubwordsBracketless | AdasVetelServer/AdasVetelServer/analyzing/ner/Ner.cs:247-274 | a word without `[` decomposes into pieces without `[`, apart from `[UNK]` |
| WordPiece.DecomposeBracketless | AdasVetelServer/AdasVetelServer/analyzing/ner/Ner.cs:247-274 | the rewrite by `##` never introduces a `[`, so from a `[`-free state no piece but `[UNK]` holds one |
| NerTokenizer.TokenizerBase.TokenizeSubwords | AdasVetelServer/AdasVetelServer/analyzing/ner/Ner.cs:237-282 | the nested loops compute exactly `Subwords`; the result is well-formed, non-empty for a non-whitespace word, and fails only with KeyNotFound("[UNK]") when `[UNK]` is missing |
| Scenarios.RunningEndsUnknown | AdasVetelServer/AdasVetelServer/analyzing/ner/Ner.cs:247-274 | with the vocabulary `[UNK] [CLS] [SEP] the ##ing run`, "running" decomposes to `run`, `[UNK]`: the remainder "##ning" has no known prefix |
| Scenarios.RepeatedPrefixEndsUnknown | AdasVetelServer/AdasVetelServer/analyzing/ner/Ner.cs:271 | with `ha` and `##ha` known, "haha" decomposes to `ha`, `[UNK]`: both "ha" are rewritten at once, leaving "####" |
| Scenarios.MarkedEntryEnds | AdasVetelServer/AdasVetelServer/analyzing/ner/Ner.cs:247-274 | with `ab`, `##c` and `##` known, "abc" takes `ab`, then `##c`, and the remainder `##` is too short for another step |
| Scenarios.MarkedEntryStalls | AdasVetelServer/AdasVetelServer/analyzing/ner/Ner.cs:247-274 | with the same vocabulary, "##x" has `##` as its longest known prefix and is rewritten to itself |
| Tokenization.SegmentIdsCount | AdasVetelServer/AdasVetelServer/analyzing/ner/Ner.cs:218-234 | the segment id at position `k` is the number of `[SEP]` tokens strictly before `k` |
| Tokenization.SegmentIdsSteps | AdasVetelServer/AdasVetelServer/analyzing/ner/Ner.cs:223-231 | ids start at 0 and rise by one exactly after a `[SEP]`, which keeps the id of the segment it closes |
| NerTokenizer.TokenizerBase.SegmentIndex | AdasVetelServer/AdasVetelServer/analyzing/ner/Ner.cs:218-234 | the loop returns one id per token, each the count of `[SEP]` before it; the result is the function `SegmentIdsFrom` |
| Tokenization.SelectSubwords | AdasVetelServer/AdasVetelServer/analyzing/ner/Ner.cs:208-210 | the `SelectMany` of `TokenizeSubwords` fails only when `[UNK]` is missing, with KeyNotFound("[UNK]") |
| Tokenization.SelectSubwordsAppend | AdasVetelServer/AdasVetelServer/analyzing/ner/Ner.cs:208-210 | the `SelectMany` over a concatenation is the concatenation of the two results, failing when either fails |
| Tokenization.SelectSubwordsKnown | AdasVetelServer/AdasVetelServer/analyzing/ner/Ner.cs:208-210 | every piece is a vocabulary entry carrying its own id |
| Tokenization.TextWordsSubwords | AdasVetelServer/AdasVetelServer/analyzing/ner/Ner.cs:202-206 | the pieces of a text list are the first text's pieces, one `[SEP]` piece with its id, and the pieces of the rest |
| Tokenization.Tokenize | AdasVetelServer/AdasVetelServer/analyzing/ner/Ner.cs:198-216 | the stream is never empty, and `Tokenize` fails only when `[UNK]` is missing, with KeyNotFound("[UNK]") |
| Tokenization.TokenizeIdsAndSegments | AdasVetelServer/AdasVetelServer/analyzing/ner/Ner.cs:208-215 | every token is a vocabulary entry with its own id, and its segment is the number of `[SEP]` tokens before it |
| Tokenization.TokenizeSegmentSteps | AdasVetelServer/AdasVetelServer/analyzing/ner/Ner.cs:212-215 | the stream's segments start at 0 and rise by one exactly after each `[SEP]` |
| Tokenization.TokenizePieces | AdasVetelServer/AdasVetelServer/analyzing/ner/Ner.cs:208-215 | the zip keeps the pieces of the `SelectMany`, in order, and fails exactly when it fails |
| Tokenization.TokenizeTexts | AdasVetelServer/AdasVetelServer/analyzing/ner/Ner.cs:200-210 | with `[CLS]` in the vocabulary, the stream's texts are `[CLS]` followed by the pieces of the texts and their separators |
| Tokenization.TokenizeMarkers | AdasVetelServer/AdasVetelServer/analyzing/ner/Ner.cs:200-210 | with the markers in the vocabulary, the stream starts with `[CLS]`, holds no other `[CLS]`, holds exactly one `[SEP]` per text, and ends with a `[SEP]` when there is a text |
| Encoding.Blocks | AdasVetelServer/AdasVetelServer/analyzing/ner/Ner.cs:130-134 | every block holds between 1 and 512 tokens |
| Encoding.Windows | AdasVetelServer/AdasVetelServer/analyzing/ner/Ner.cs:131-155 | one window per block; with a requested length of at least 512 the padding never fails; any failure is ArgumentOutOfRange |
| Encoding.Encode | AdasVetelServer/AdasVetelServer/analyzing/ner/Ner.cs:126-166 | with `[UNK]` in the vocabulary and a requested length of at least 512 `Encode` succeeds; it fails only with ArgumentOutOfRange from the padding or with KeyNotFound("[UNK]") when `[UNK]` is missing |
| Encoding.EncodeBlocks | AdasVetelServer/AdasVetelServer/analyzing/ner/Ner.cs:147-155 | one window per block, in block order, each the block's real entries followed by its padding |
| Encoding.BlocksCount | AdasVetelServer/AdasVetelServer/analyzing/ner/Ner.cs:131-134 | there are ceil(n / 512) blocks |
| Encoding.BlocksAt | AdasVetelServer/AdasVetelServer/analyzing/ner/Ner.cs:131-134 | block `k` is the tokens from 512k up to 512k + 512, or up to the end |
| Encoding.BlocksFlatten | AdasVetelServer/AdasVetelServer/analyzing/ner/Ner.cs:131-134 | the blocks joined are the stream |
| Encoding.BlocksShape | AdasVetelServer/AdasVetelServer/analyzing/ner/Ner.cs:131-134 | the block count, the content of each block and the reassembly, together |
| Encoding.WindowsFails | AdasVetelServer/AdasVetelServer/analyzing/ner/Ner.cs:136-140 | the padding step fails with ArgumentOutOfRange exactly when the stream is non-empty and the requested length is below its first block's length, min(n, 512) |
| Encoding.WindowsShape | AdasVetelServer/AdasVetelServer/analyzing/ner/Ner.cs:131-154 | there are ceil(n / 512) windows, each of exactly the requested length; entry `j` of window `k` is token 512k + j as (id, segment, 1) while that exists in the block, and (0, 0, 0) after it |
| Encoding.WindowsMask | AdasVetelServer/AdasVetelServer/analyzing/ner/Ner.cs:151 | the attention is 1 exactly at the real tokens; every other entry is the zero triple |
| Encoding.WindowsRoundTrip | AdasVetelServer/AdasVetelServer/analyzing/ner/Ner.cs:131-154 | the attended entries of all the windows, in order, are exactly the entries of the token stream |
| NerTokenizer.CutBlocks | AdasVetelServer/AdasVetelServer/analyzing/ner/Ner.cs:130-134 | the chunking loop computes exactly the blocks of 512 |
| NerTokenizer.PaddingOfBlocks | AdasVetelServer/AdasVetelServer/analyzing/ner/Ner.cs:136-140 | the padding loop succeeds exactly when every block fits the requested length, giving `sequenceLength - |block|` zeros per block; otherwise it fails with ArgumentOutOfRange |
| NerTokenizer.ZipBlocks | AdasVetelServer/AdasVetelServer/analyzing/ner/Ner.cs:142-155 | the zip loop computes exactly `EncodeBlocks` of the blocks |
| NerTokenizer.TokenizerBase.Encode | AdasVetelServer/AdasVetelServer/analyzing/ner/Ner.cs:126-166 | the method returns exactly `Encode` of the vocabulary: tokenizing fails as `Tokenize` does, padding fails as `Windows` does, and otherwise the windows described above |
| Untokenization.WholeWordsOfPlainTokens | AdasVetelServer/AdasVetelServer/analyzing/ner/Ner.cs:179-191 | one word per token that does not start with `##`, in order, each word starting with its token |
| Untokenization.WholeWordsAfterRun | AdasVetelServer/AdasVetelServer/analyzing/ner/Ner.cs:179-191 | `##` fragments before the first plain token are dropped |
| Untokenization.WholeWordsSurface | AdasVetelServer/AdasVetelServer/analyzing/ner/Ner.cs:179-191 | when the list does not start with a fragment, the words joined are all tokens joined with every `##` removed from the fragments: nothing else is lost or added |
| Untokenization.UntokenizeStep | AdasVetelServer/AdasVetelServer/analyzing/ner/Ner.cs:181-190 | one step of the backward walk: a fragment is stripped and put in front of the word being built; a plain token completes that word |
| NerTokenizer.ReverseInPlace | AdasVetelServer/AdasVetelServer/analyzing/ner/Ner.cs:177 | the caller's list is reversed in place |
| NerTokenizer.TokenizerBase.Untokenize | AdasVetelServer/AdasVetelServer/analyzing/ner/Ner.cs:173-196 | the caller's list is left reversed, and the result is exactly the words `WholeWords` of the original list, in reading order |

## Left out

- File reading in `VocabularyReader.ReadFile` and `FileReader`: the `StreamReader` is I/O. The
  constructor takes the lines of the vocabulary file, and only the blank-line filter is
  modelled.
- `Trainer`, `Predictor`, `BertInput` and `BertPredictions`: ML.NET and ONNX foreign calls with
  no logic of their own.
- `Bert.Predict`: glue around the predictor, whose span-aggregation loop body is commented
  out.
- `GetBestPrediction` and `BuildInput`: commented out, so there is no code to model.
- `SoftmaxEnumerableExtension.Softmax`: floating-point numerics.
- `NerController.cs` is commented out. The Razor pages `ManageContracts.cshtml.cs` and
  `ManageServer.cshtml.cs` have empty handlers. None of these is part of this model.
- `TokenizeSubwords` with `"##"` in the vocabulary: the loop runs forever exactly when a
  remainder of more than two characters has `"##"` as its longest known prefix
  (`WordPiece.RewriteStuck`). Other words still end, so this turns away whole vocabularies on
  which most words decompose. Every member that decomposes words requires that `"##"` is not an
  entry, so the model does not give their decompositions.
- Integer widths: ids, positions and segment counts are unbounded integers. The requested
  length is not bounded to the range of a 32-bit `int`.
- Encoding.WindowsFails: the subtraction `sequenceLength - token.Count` on line 139 is 32-bit and
  wraps when `sequenceLength` is below `int.MinValue + |block|`. `Enumerable.Repeat` then gets a
  count just below 2^31, and `ToList` fails with OutOfMemoryException, or builds that many zeros
  when enough memory is available. The model reports ArgumentOutOfRange for these lengths too.
- Encoding.Windows: "every failure is ArgumentOutOfRange" holds for unbounded integers only.
  For `sequenceLength` below `int.MinValue + |block|` the 32-bit subtraction on line 139 wraps,
  and .NET fails with OutOfMemoryException or pads with about 2^31 zeros.
- Encoding.Encode: inherits that gap from `Windows`. For such lengths .NET does not fail with
  ArgumentOutOfRange, as the contract says, but as described for `Encoding.Windows`.
- NerTokenizer.TokenizerBase.Encode: equals `Encoding.Encode` and has the same 32-bit gap at
  line 139.
- NerTokenizer.PaddingOfBlocks: the same 32-bit wrap of line 139 is not modelled; for
  `sequenceLength` below `int.MinValue + |block|` the method reports ArgumentOutOfRange where
  .NET fails with OutOfMemoryException or pads with about 2^31 zeros.
- NerTokenizer.TokenizerBase.Untokenize: `token.StartsWith("##")` on line 181 compares by the
  current culture, and the model uses an ordinal prefix test. The two differ on ignorable code
  points and on combining sequences. .NET accepts `"\u00AD##x"`, because the soft hyphen is
  ignored, and the model does not. .NET rejects `"##\u0301x"`, because the match would end
  inside a combining sequence, and the model accepts it. On text without such characters the
  two agree.
- WordPiece.LongestPrefix: the prefix lengths count Unicode characters, while `Substring` on
  line 253 counts UTF-16 code units. The two agree only on text without characters above
  U+FFFF; a character above U+FFFF is one character here and two code units in .NET.
- WordPiece.Decompose: the test "more than two characters remain" on line 247 counts Unicode
  characters, not UTF-16 code units, so it matches .NET only on text without characters above
  U+FFFF. With vocabulary `[UNK]`=0, U+1F600=1, the word U+1F600 followed by "a" has .NET length
  3 and gives (U+1F600, 1), ([UNK], 0); here it has length 2 and gives ([UNK], 0).
- WordPiece.Subwords: inherits the length gap of `Decompose` and `LongestPrefix`; it matches
  .NET only on words without characters above U+FFFF.
- NerTokenizer.TokenizerBase.TokenizeSubwords: its loops run over Unicode characters, not UTF-16
  code units, so lengths, prefix cuts and the "more than two characters" test match .NET only
  on words without characters above U+FFFF.
- LINQ's lazy evaluation order: only the resulting sequences are modelled. No side effect
  depends on the order of evaluation.
- `Tokenize` and `TokenizeSentence` are LINQ pipelines and are modelled as functions of the
  dictionary. They use the functions `Subwords` and `SegmentIdsFrom`, which the methods
  `TokenizeSubwords` and `SegmentIndex` are proved to compute.
- `IdToToken` reads only the vocabulary list, so it is modelled as a function of that list.
- `Untokenize`: the in-place `List.Reverse` of the local `untokens` list is modelled as
  `Reverse` on a sequence. Nothing else refers to that list.
- `Encode`: its three loops are each a method of their own (`CutBlocks`, `PaddingOfBlocks`,
  `ZipBlocks`), called in the same order on the same data.
- WordPiece.SubwordsWellFormed: `[UNK]` is claimed to be only last just for words that do not
  start with "[UNK]". Such a word can match the `[UNK]` entry as its first prefix and later
  end with a second `[UNK]`. Pre-tokenized words never contain `[`, because it is a punctuation
  character.

The model follows the code on these points:

- The punctuation characters are dropped, not emitted as tokens, because the yield on line 305
  is commented out.
- There is one `[CLS]` for the whole input, not one per sentence.
- Blocks are always 512 tokens, whatever the requested length.
- The padding id is the literal 0.
- With the vocabulary `[UNK] [CLS] [SEP] the ##ing run`, "running" gives `run [UNK]`: the
  rewrite leaves "##ning", which has no known prefix (`Scenarios.RunningEndsUnknown`).
