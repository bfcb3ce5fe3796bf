# Document chunking: sentence segmentation and token-bounded chunks

This project models the document-to-chunk pipeline of a small
retrieval-augmented chat application, in Dafny. Text extracted from an
uploaded file is first cut into sentences by `split_sentences`. The
sentences are then packed into chunks of at most `target_tokens` tokens by
`chunk_sentences`, which:

- seeds each new chunk with the last sentences of the previous one, as
  overlap;
- cuts any sentence longer than the budget into sliding token windows
  (`_split_text_by_tokens`);
- labels every chunk with the pages it came from (`_page_range`).

The modules follow the two source files:

- `text.dfy` (`Text`): whitespace, `strip`, `" ".join`, `str(n)`.
- `parsers.dfy` (`Parsers`): `Sentence`, `_clean_text`, `split_sentences`.
- `pages.dfy` (`Pages`): `_page_range`.
- `tokens.dfy` (`Tokens`): the tokenizer, `_tok_len`, `_split_text_by_tokens`.
- `chunking.dfy` (`Chunking`): `Chunk`, `finalize`, the overlap walk, and
  `chunk_sentences` itself.
- `chunk_properties.dfy` (`ChunkProperties`): what the returned chunks
  satisfy.

The loops of the source are methods: `Tokens.SplitTextByTokens`,
`Chunking.OverlapSeed` and `Chunking.ChunkSentences`. The `for` loop of
`split_sentences` is `Parsers.KeepNonBlankLoop`. Each method is proved equal
to a function:

- `Chunking.GroupsFrom` describes the run of the `chunk_sentences` loop from
  any state `(i, cur, cur_toks)`. It lists the sentence groups the loop
  finalizes, in order. Each group records:
  - how many of its sentences at the front were carried over as overlap;
  - whether it is a piece of a cut sentence;
  - whether it was finalized because the next sentence did not fit (the
    branch at `utils/chunking.py:123-152`);
  - the position of the sentence the loop was handling when it finalized
    the group.
- `Chunking.Chunked` finalizes those groups into chunks, numbered from 1.

The properties are lemmas about these functions.

The tokenizer (`cl100k_base`) is a parameter: a pair of functions `encode`
and `decode` about which nothing is assumed. Token counts need not add up
over concatenation, and decoding an encoding need not give the text back.

Two preconditions come from the code:

- `chunk_sentences` requires `target_tokens >= 1`, or that every non-blank
  sentence either fits the budget or encodes to no tokens at all
  (`Chunking.Terminates`). Blank sentences are skipped before they are
  counted (`utils/chunking.py:99-101`), so they never matter. For a budget
  below one token, the window step of `_split_text_by_tokens` is not
  positive (`utils/chunking.py:46-49`). A sentence with at least one token
  over such a budget makes its loop run forever, since the window never
  reaches the end of the tokens. A sentence with no tokens over a negative
  budget leaves the loop unentered, and `_split_text_by_tokens` returns no
  pieces (`Tokens.PiecesShape`, `ChunkProperties.TokenlessNoChunks`). So
  the precondition excludes exactly the runs that do not terminate.
- The budget and overlap properties (`ChunkProperties.GroupsShaped`) are
  proved for sentences whose texts are already stripped. This is what
  `split_sentences` produces (`ChunkProperties.SegmenterStripped`). The loop
  counts the stripped text of a sentence (`utils/chunking.py:97,103`), but
  the overlap walk recounts the unstripped one (`utils/chunking.py:135`).
  For other texts the two counts, and so the guard at
  `utils/chunking.py:145`, need not agree.

Coverage, numbering, non-empty texts and the page labels hold for any
input.

## Model

| member | source | states |
|---|---|---|
| Text.TrimTrimmed | utils/parsers.py:18 | `strip` leaves a text with no whitespace at either end, and leaves such a text unchanged |
| Text.TrimIdempotent | utils/parsers.py:18 | stripping twice gives the same as stripping once |
| Text.TrimEmpty | utils/chunking.py:97-101 | a text strips to the empty string exactly when it is all whitespace |
| Text.TrimInfix | utils/parsers.py:28 | the stripped text is the infix between a leading and a trailing whitespace run |
| Text.JoinSpaceTrimmed | utils/chunking.py:77 | joining non-empty stripped parts with spaces gives a non-empty stripped text that starts and ends as the parts do |
| Text.NatToString | utils/chunking.py:84 | `str(n)` is a non-empty run of digits, with a leading zero only for 0 |
| Text.IntToString | utils/chunking.py:28 | `str(n)` is never empty, and is a minus sign before the digits of a negative number |
| Text.IntToStringRoundTrip | utils/chunking.py:84 | reading the decimal rendering back gives the number |
| Text.IntToStringInjective | utils/chunking.py:84 | different numbers render differently, so chunk numbers used as labels stay distinct |
| Pages.Insert | utils/chunking.py:24 | inserting into a sorted list without repeats keeps it so, adding exactly the new element |
| Pages.SortedDistinct | utils/chunking.py:24 | `sorted(set(pages))` is strictly increasing and has exactly the elements of `pages` |
| Pages.StrictlyIncreasingUnique | utils/chunking.py:24 | two strictly increasing lists with the same elements are equal |
| Pages.PageRange | utils/chunking.py:23-26 | the label is empty exactly when there are no pages |
| Pages.PageRangeSetOnly | utils/chunking.py:23-33 | the label depends only on which pages occur, not on their order or repeats |
| Pages.PageRangeSingle | utils/chunking.py:27-28 | one distinct page is labelled `str(p)` |
| Pages.PageRangeInterval | utils/chunking.py:30-32 | pages filling `lo..hi` with `lo < hi` are labelled `"lo-hi"` |
| Pages.PageRangeList | utils/chunking.py:30-33 | pages with a gap are labelled by all distinct pages, sorted and comma-joined, with no run compressed |
| Pages.ConsecutiveIffGapless | utils/chunking.py:30 | a sorted page list is consecutive exactly when no page between its first and last is missing |
| Pages.PageRangeExampleSingle | utils/chunking.py:27-28 | `[5, 5]` is labelled `"5"` |
| Pages.PageRangeExampleInterval | utils/chunking.py:30-32 | `[5, 3, 4, 3]` is labelled `"3-5"` |
| Pages.PageRangeExampleList | utils/chunking.py:33 | `[5, 1, 2, 1]` is labelled `"1,2,5"` |
| Tokens.Step | utils/chunking.py:46-49 | the window step is the budget less the non-negative overlap, or the budget when that is not positive; with a positive budget it lies in `1..budget` |
| Tokens.WindowsFromShape | utils/chunking.py:51-59 | the windows start at `start`, advance by the step, end at `min(start + w, n)`, are non-empty, and only the last reaches `n` |
| Tokens.WindowStart | utils/chunking.py:51-59 | window `k` starts at `start + k * step` |
| Tokens.WindowsCover | utils/chunking.py:51-59 | every token position lies in some window |
| Tokens.WindowsProperties | utils/chunking.py:46-59 | each window is at most the budget long, successive windows share exactly the overlap when it is below the budget, and the last ends at the token count |
| Tokens.WindowsExample | utils/chunking.py:46-59 | 5000 tokens with budget 2000 and overlap 200 give the windows `[0,2000)`, `[1800,3800)`, `[3600,5000)` |
| Tokens.DecodeWindowsShape | utils/chunking.py:54-56 | the kept pieces are non-empty and stripped, at most one per window |
| Tokens.DecodeWindowsAllKept | utils/chunking.py:54-56 | when no window decodes to blank text, piece `k` is the stripped decoding of window `k` |
| Tokens.PiecesShape | utils/chunking.py:41-61 | a text within the budget is returned alone and unchanged; a text with no tokens under a negative budget gives no pieces; a longer one, under a positive budget, gives non-empty stripped pieces, at most one per window |
| Tokens.PiecesOfTrimmed | utils/chunking.py:41-61 | the pieces of a non-empty stripped text are never blank and never unstripped |
| Tokens.WindowPiecesDecoded | utils/chunking.py:51-59 | what the window loop collects from the window at `start` on is the non-blank stripped decodings of the windows from `start` on, in order |
| Tokens.SplitTextByTokens | utils/chunking.py:36-61 | the window loop returns exactly the pieces `Pieces` describes |
| Parsers.ReplaceNul | utils/parsers.py:17 | NUL becomes a space and every other character is kept in place |
| Parsers.Collapse | utils/parsers.py:18 | after collapsing, whitespace is a single plain space and never doubled; the text is empty only if the input was |
| Parsers.CollapseKeepsContent | utils/parsers.py:18 | collapsing keeps every character other than whitespace, in order |
| Parsers.CollapseIsSqueeze | utils/parsers.py:18 | collapsing equals the left-to-right scan that turns the first whitespace character of each run into a space, drops the rest of the run and copies every other character |
| Parsers.ReplaceNulKeepsContent | utils/parsers.py:17 | turning NUL into a space keeps every character other than whitespace and NUL, in order |
| Parsers.TrimKeepsContent | utils/parsers.py:18 | stripping removes only whitespace |
| Parsers.CollapseFixesSingleSpaced | utils/parsers.py:18 | collapsing leaves an already single-spaced text unchanged |
| Parsers.CleanText | utils/parsers.py:16-19 | the cleaned text has no NUL, no doubled whitespace and no whitespace at either end |
| Parsers.CleanTextKeepsContent | utils/parsers.py:16-19 | the cleaned text has the same characters other than whitespace and NUL as the input, in the same order |
| Parsers.CleanTextIdempotent | utils/parsers.py:16-19 | cleaning twice gives the same as cleaning once |
| Parsers.CleanTextEmpty | utils/parsers.py:16-19 | the cleaned text is empty exactly when the input is only whitespace and NUL |
| Parsers.SplitAtBreaksShape | utils/parsers.py:9 | the regular-expression split of a cleaned text gives non-empty stripped parts without an inner terminator-then-space, every part but the last ending with a terminator, and joining them with spaces gives the text back |
| Parsers.KeepNonBlankKeepsAll | utils/parsers.py:26-31 | when every part is non-empty and stripped, the loop keeps every part as a sentence with the page |
| Parsers.SentencesOfSpec | utils/parsers.py:21-31 | no sentences exactly when the cleaned text is empty; every sentence is non-empty, stripped, without an inner break, and tagged with the page; all but the last end with a terminator; joining them with spaces gives the cleaned text |
| Parsers.SegmentedTextsStripped | utils/parsers.py:28-30 | every sentence returned is non-empty and equal to its own strip |
| Parsers.SplitSentences | utils/parsers.py:21-31 | `split_sentences` returns exactly the segmentation above |
| Parsers.KeepNonBlankLoop | utils/parsers.py:26-31 | the `for` loop returns the stripped, non-empty parts tagged with the page, in order |
| Chunking.PagesOf | utils/chunking.py:79-80 | the pages collected are exactly those of the sentences that have one |
| Chunking.OverlapSeed | utils/chunking.py:130-141 | the backward overlap walk returns the suffix `Seed` of the finalized chunk, in original order, with its token total |
| Chunking.AppendPieces | utils/chunking.py:114-117 | the pieces of a cut sentence become consecutive chunks, each with that sentence's page, numbered on from the current chunk number |
| Chunking.ChunkSentences | utils/chunking.py:64-162 | `chunk_sentences` returns exactly the finalized groups of the run, numbered from 1 |
| ChunkProperties.OverlapFromSpec | utils/chunking.py:132-141 | the walk stops at the last sentence or within the overlap budget, and one more sentence would exceed it |
| ChunkProperties.SeedSpec | utils/chunking.py:130-141 | the overlap is a non-empty suffix of the finalized chunk; it is within `overlap_tokens` unless it is a single sentence; and it is the longest such suffix |
| ChunkProperties.SumToksSnoc | utils/chunking.py:155-156 | appending a sentence adds its token count to the total |
| ChunkProperties.SumToksSuffix | utils/chunking.py:132-141 | a suffix of a chunk has no more tokens than the chunk |
| ChunkProperties.FinalizeSpec | utils/chunking.py:76-92 | a finalized chunk has number `n`; its text is stripped and follows the file name and a blank line; it is empty exactly when every sentence is blank; its page label is `_page_range` of the pages, or `str(n)` when there are none, and never empty |
| ChunkProperties.JoinedText | utils/chunking.py:77 | the joined, stripped text is empty exactly when every sentence is blank |
| ChunkProperties.JoinInfix | utils/chunking.py:77 | each sentence text appears whole in the joined text |
| ChunkProperties.FreshPieceGroups | utils/chunking.py:114-117 | the pieces of a cut sentence contribute exactly those pieces, as sentences with its page |
| ChunkProperties.CoverageStep | utils/chunking.py:95-157 | one pass of the loop keeps the groups so far, together with the new part of the current chunk, equal to the contributions of the sentences read |
| ChunkProperties.CoverageFrom | utils/chunking.py:95-162 | from any state of the loop, the groups add exactly the contributions of the sentences still to read |
| ChunkProperties.Coverage | utils/chunking.py:94-162 | the sentences of all chunks, overlap left out, are the input sentences in order, with blank ones dropped and oversized ones replaced by their pieces |
| ChunkProperties.SolidFrom | utils/chunking.py:95-162 | from any state whose current chunk has no blank sentence, every group finalized is non-empty with no blank sentence |
| ChunkProperties.GroupsSolid | utils/chunking.py:97-101 | every finalized group is non-empty and holds no blank sentence |
| ChunkProperties.ChunksNonEmpty | utils/chunking.py:74-92 | the chunks are numbered 1, 2, … in order; each has a non-empty stripped text, the file name and a blank line before it, and a non-empty page label |
| ChunkProperties.SegmenterStripped | utils/parsers.py:26-31 | the segmenter's sentences are already stripped |
| ChunkProperties.ShapeFrom | utils/chunking.py:95-162 | from any state whose running count is the token total of the current chunk and within budget, and whose groups so far hold the contributions of the sentences read: every finalized group keeps the budget; every group is closed as `ClosedLast` says, so it overflowed exactly when the sentence it stopped at fits alone but not on top of it; every group that overflowed is followed by one that opens with its `Seed`, or with no overlap when the seed is the whole group; and a group carries overlap only in that case |
| ChunkProperties.GroupsShaped | utils/chunking.py:95-162 | for stripped sentences: a piece stands alone and seeds no overlap, and was cut from a sentence over `target_tokens`; every other chunk has a token total within `target_tokens`. Every chunk that is not a piece holds, with the chunks before it, exactly the contributions of the sentences before the one it stopped at. It is closed for one of two reasons. Either it is marked overflowed, and that sentence fits the budget alone but not on top of the chunk's total (`utils/chunking.py:123`). Or it is not marked, and the input ended or that sentence is over the budget and is cut (`utils/chunking.py:106-112,159-160`). An overflowed chunk is always followed by another. That next chunk opens with the overflowed chunk's `Seed` when the seed is a proper suffix of it, and with no overlap when the seed is the whole chunk. A chunk opens with overlap only in that case |
| ChunkProperties.PairNotSplit | utils/chunking.py:121-157 | two non-blank sentences that fit the budget together are never finalized as one chunk each, so a chunker that closes a chunk after every sentence does not meet `GroupsShaped` |
| ChunkProperties.WholeSeedDropped | utils/chunking.py:121-157 | when the overlap budget covers a whole two-sentence chunk that overflows on a third sentence, the chunk is finalized as overflowed and the next chunk holds only the third sentence, with no overlap carried |
| ChunkProperties.TokenlessNoChunks | utils/chunking.py:41-61 | under a negative budget, a single non-blank sentence with no tokens gives no pieces and no chunks, and the run terminates |
| ChunkProperties.ThreeFit | utils/chunking.py:122-157 | three non-blank sentences whose stripped token counts fit the budget together go into one chunk, with no overlap |
| ChunkProperties.ChunkedExample | utils/chunking.py:64-162 | the sentences `"A."`, `"B."`, `"C."` without pages, with a budget they fit in, give the single chunk numbered 1, labelled `"1"`, with raw text `"A. B. C."` after the file name and a blank line |
| ChunkProperties.BlankTail | utils/chunking.py:97-101 | once only blank sentences are left, the run just finalizes the current chunk, if any |
| ChunkProperties.BlankInputNoChunks | utils/chunking.py:94-101 | no sentences, or only blank ones, give no chunks |

## Left out

- The `cl100k_base` byte-pair encoding is not modelled. `encode` and `decode` are arbitrary functions passed in, so a property that depends on what the encoding does is not stated.
- The token count of a piece of a cut sentence is not bounded. The piece is a stripped decoding of at most `target_tokens` tokens, but re-encoding it may give a different count.
- Reading files (`parse_txt`, `parse_docx`, `parse_pdf`) is not part of this model, nor is the numbering of PDF pages. The same goes for the web application, the database, the vector store, the model client and the configuration.
- A sentence text of `None`, which `(s.text or "")` turns into the empty string, is not modelled: a `Sentence` always has a string.
- Python's `\s` and `str.isspace` are modelled as one fixed set of characters (`Text.IsSpace`). Unicode case and normalisation play no part in the source.
- Python's negative indices are not modelled. With `target_tokens >= 1` no slice in the source is negative.
- Chunking.ChunkSentences: the runs where `target_tokens < 1` and some non-blank sentence with at least one token is over the budget are excluded by its precondition, because the source does not terminate on them.
- ChunkProperties.GroupsShaped: it is proved only for sentences whose texts are already stripped, as the segmenter produces them. With unstripped texts, the running count and the overlap walk count differently.
- Chunking.AppendPieces: the inner `for part in parts` loop of `chunk_sentences` is a separate method, so `ChunkSentences` calls it rather than looping inline.
