# Chunking and retrieval core of a PDF question-answering app, in Dafny

The app reads a PDF, cuts its text into chunks, and answers a question from
the chunks that share the most words with it. This project models the two
parts of that pipeline that hold algorithms, and proves properties of them.

**The chunking engine** (`services/textChunker.ts`), in `text_chunker.dfy`:
- The fixed-size chunker cuts windows of `size` characters, one starting
  every `size - overlap` characters. It is a method with the source's loop.
- The recursive chunker splits at paragraph breaks, then line breaks, then
  sentence ends, then spaces. It packs the parts greedily into buffers of at
  most `size` characters; a buffer goes over `size` only when it is a
  single part. Each buffer is split again with the next separator. When no
  separator is left it falls back to sliding windows. Whitespace-only pieces are dropped and the rest are numbered.
- `chunkText` dispatches on the strategy.

`splitText` is a recursive method (`SplitText`, `PackParts`, `FlushBuffer`,
`SlidingWindows`). It is proved equal to a functional specification,
`Pieces`, and the properties are proved about `Pieces`.

**The retrieval step of the chat screen** (`App.tsx`), in `app.dfy`:
- The query words are the distinct lower-cased words longer than two
  characters.
- A chunk's score is the number of query words among its own words.
- Chunks are sorted by descending score. The array sort is modelled by an
  in-place insertion sort, and the stability `Array.prototype.sort`
  guarantees is proved.
- The first five are kept, then those with a positive score.
- The context handed to the answer generator is the retrieved texts joined
  with `"\n---\n"`.
- The screen state (`initial`, `processing`, `ready`) is derived from the
  upload flags.

`js_strings.dfy` models the JavaScript string built-ins this code relies on:
`split` with a string separator, `split(/\s+/)`, `join`, `trim` and
`toLowerCase`. `IndexOf` is the leftmost-occurrence search that defines
where `split` cuts. `types.dfy` holds `Chunk` and `ChunkingStrategy`
(`types.ts:13-21`).

The four size constants live in `constants.ts`, which is not part of this
model. They are parameters here (`ChunkConfig`), and the only assumption is
`overlap < size` for each chunker.

Two edge cases of the fixed chunker follow from its loop:
- It emits `ceil(|text| / (size - overlap))` chunks (`FixedChunksShape`).
- A text longer than `size - overlap` and at most `size` long gives two
  chunks, and the second is its tail (`FixedShortText`). A text of at most
  `size - overlap` characters is a single chunk.

## Model

| member | source | states |
|---|---|---|
| JsStrings.IndexOf | services/textChunker.ts:35 | the leftmost-occurrence search behind `split(separator)`: the result is the first occurrence of the separator at or after `from`, and there is none when it returns `None` |
| JsStrings.JoinSplit | services/textChunker.ts:35 | joining the parts of `split(sep)` with `sep` gives the string back |
| JsStrings.SplitPartsFree | services/textChunker.ts:35 | no part of `split(sep)` contains the separator |
| JsStrings.JoinAt | App.tsx:75 | part `i` of a join sits at its offset, is followed by the separator unless it is last, and the last part ends the string |
| JsStrings.Trim | services/textChunker.ts:56 | `trim()` is the string with a blank prefix and a blank suffix removed and nothing else, has no whitespace at either end, and is empty exactly when the string is all whitespace |
| JsStrings.SplitWhitespaceWords | App.tsx:53 | the parts of `split(/\s+/)` hold no whitespace and only characters of the input |
| JsStrings.SplitWhitespaceConcat | App.tsx:53 | concatenated, the parts of `split(/\s+/)` are exactly the input's non-whitespace characters in order |
| JsStrings.SplitWhitespaceRoundTrip | App.tsx:53 | `split(/\s+/)` cuts out non-empty whitespace runs, one fewer than the parts, and putting them back between the parts gives the input; only the first and last parts can be empty, so each run is maximal |
| JsStrings.Lower | App.tsx:53 | `toLowerCase()` keeps the length and the whitespace positions, maps each upper-case letter to its lower-case form and leaves every other character alone |
| TextChunker.Number | services/textChunker.ts:57 | one chunk per text, and chunk `k` has id `k` and text `k` |
| TextChunker.FixedSizeChunker | services/textChunker.ts:8-16 | the loop returns the windows numbered from 0, each non-empty and at most `size` long, and `ceil(|text| / (size - overlap))` of them |
| TextChunker.FixedChunksShape | services/textChunker.ts:11-14 | the fixed chunks are numbered by position, non-empty, at most `size` long, `ceil(|text| / step)` in number, and there are none exactly when the text is empty |
| TextChunker.FixedChunkAt | services/textChunker.ts:11-13 | chunk `k` exists exactly when `k * step < |text|`, and it is the substring from `k * step` of length `size`, clamped to the text |
| TextChunker.FixedShortText | services/textChunker.ts:11-14 | a non-empty text of at most `size` characters is chunk 0 whole, and it is the only chunk exactly when its length is at most `size - overlap` |
| TextChunker.FixedOverlap | services/textChunker.ts:11-12 | after a full chunk, the next chunk begins with the last `overlap` characters of it |
| TextChunker.FixedRoundTrip | services/textChunker.ts:8-16 | cutting every chunk to its first `size - overlap` characters and concatenating them in id order gives the text back |
| TextChunker.SlidingWindows | services/textChunker.ts:27-31 | the fallback loop produces the windows of `size` characters starting every `step` characters |
| TextChunker.SplitText | services/textChunker.ts:21-54 | the recursive method returns `Pieces`: the text itself when it fits, the fallback windows when the separators are used up, and otherwise the pieces of each packed buffer |
| TextChunker.PackParts | services/textChunker.ts:34-53 | the loop over the parts returns, in order, the pieces of every buffer the greedy packing flushes |
| TextChunker.FlushBuffer | services/textChunker.ts:41-43 | a non-empty buffer contributes its pieces, and an empty one contributes nothing |
| TextChunker.PackRuns | services/textChunker.ts:34-51 | the flushed buffers are the separator-joins of ordered, disjoint runs of the parts; only empty parts fall outside the runs; no buffer is empty; a buffer over the limit is a single part |
| TextChunker.PackNonEmpty | services/textChunker.ts:41-50 | an empty buffer is never flushed |
| TextChunker.PiecesBounded | services/textChunker.ts:21-54 | every piece `splitText` returns is at most `size` long |
| TextChunker.KeepNonBlankMembers | services/textChunker.ts:56 | a piece is kept exactly when its trimmed form is non-empty |
| TextChunker.KeepNonBlankAppend | services/textChunker.ts:56 | the filter works piece by piece, so the kept pieces stay in emission order |
| TextChunker.KeepNonBlankCount | services/textChunker.ts:56 | each non-blank piece is kept as often as it occurs and each blank one never |
| TextChunker.RecursiveChunker | services/textChunker.ts:18-58 | the chunker returns the non-blank pieces numbered from 0, each at most `size` long; a text that fits is its own single chunk, or gives none when it is all whitespace |
| TextChunker.RecursiveChunksShape | services/textChunker.ts:56-57 | every recursive chunk is numbered by position, holds some non-whitespace and is at most `size` long |
| TextChunker.RecursiveChunksShort | services/textChunker.ts:22-24 | a text of at most `size` characters is one chunk with id 0, or none when it is all whitespace |
| TextChunker.ChunkText | services/textChunker.ts:60-69 | the fixed strategy gives the fixed chunks and the recursive one the recursive chunks; either way the chunks are numbered by position and non-empty |
| App.QueryWords | App.tsx:53 | every query word is longer than two characters, is a word of the query, and holds no whitespace and no upper-case letter |
| App.Score | App.tsx:56-60 | the score is at most the number of query words, and it is 0 exactly when the chunk contains none of them |
| App.ScoreAll | App.tsx:56-60 | each chunk keeps its id and text and gets its score, in input order |
| App.SortByScore | App.tsx:62 | the in-place sort leaves the array equal to the stable descending sort of its old contents |
| App.InsertNext | App.tsx:62 | one insertion pass places the next chunk after every sorted chunk whose score is at least its own, and leaves later entries alone |
| App.SortPermutes | App.tsx:62 | the sort is a permutation of its input |
| App.SortOrders | App.tsx:62 | the sorted scores never increase |
| App.SortStable | App.tsx:62 | chunks of equal score keep their input order |
| App.SortUnique | App.tsx:62 | any non-increasing arrangement that keeps each score class in input order is this sort's result, so every stable sort gives the same answer |
| App.Take | App.tsx:64 | `slice(0, n)` is a prefix of length `min(n, |s|)` |
| App.KeepPositive | App.tsx:64 | a scored chunk is kept exactly when its score is positive |
| App.RetrieveRelevantChunks | App.tsx:52-65 | the method returns `[]` for a query with no long word, and otherwise the positive-score entries among the first five of the stable descending sort |
| App.RetrievedPrefix | App.tsx:62-64 | the result is a prefix of the sorted scores, at most five long and all positive; when it is shorter than five, every later entry scores 0 |
| App.RetrievedBounds | App.tsx:52-65 | at most five chunks come back, each with a positive score equal to its number of query words |
| App.RetrievedOrdered | App.tsx:62-64 | the result's scores never increase, and its chunks of each score are the first chunks of that score in the input |
| App.RetrievedBest | App.tsx:56-64 | no chunk left out scores more than a returned one, and when fewer than five come back every chunk left out scores 0 |
| App.RetrievedFromInput | App.tsx:56-64 | as a multiset the result is contained in the scored input, and every entry carries an input chunk's id and text |
| App.RetrievedEmpty | App.tsx:53-64 | nothing comes back exactly when no chunk shares a word with the query, in particular when the query has no word longer than two characters |
| App.ShortQueries | App.tsx:53-54 | the empty query and a query of one- and two-letter words retrieve nothing |
| App.Context | App.tsx:75 | no retrieved chunk gives the empty context, and one chunk gives its own text |
| App.ContextLayout | App.tsx:75 | each retrieved text appears in the context at its offset, in order, followed by `"\n---\n"` unless it is the last, which ends the context |
| App.AppStateOf | App.tsx:96-100 | the state is processing exactly when processing, ready exactly when not processing and the text is non-empty, and initial otherwise |

## Left out

- UI, React hooks and state setters are not modelled. This covers `useCallback`, `useMemo`, the message list, the error banner and the components.
- PDF text extraction (`services/pdfProcessor.ts`) and the answer generator (`services/geminiService.ts`) are not modelled. They are calls into external services. The model starts from the extracted text and stops at the context string.
- `constants.ts` is not part of this model. The four sizes are parameters.
- FixedSizeChunker: requires `overlap < size`. With a step of zero or less the source's loop would not terminate.
- SlidingWindows, SplitText, RecursiveChunker: require `overlap < size` for the same reason.
- ChunkText: the unknown-strategy error is not modelled. The strategy type has exactly two values, so that branch cannot be reached.
- Characters are `char`, not UTF-16 code units. Lengths of text outside the Basic Multilingual Plane are counted per character.
- JsStrings.IsSpace: only ASCII whitespace is whitespace. `\s` also matches Unicode spaces such as U+00A0, and those are not modelled.
- JsStrings.Lower: only ASCII letters are lower-cased. Other Unicode case mappings are not modelled.
- SortByScore: the engine's sorting algorithm is not modelled. It is replaced by an insertion sort. SortUnique shows every stable descending sort returns the same sequence, which is what the comparator `b.score - a.score` promises.
- RetrieveRelevantChunks: the result's element type carries the score, as the source's objects do at run time. The declared type `Chunk[]` hides it.
