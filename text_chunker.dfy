/** The text chunking engine (services/textChunker.ts): a fixed-size
    windowing chunker, a recursive separator chunker with a windowing
    fallback, and the dispatcher between them. */
module TextChunker {
  import opened JsStrings
  import opened Types

  /** The four size constants the chunkers read: window size and overlap of
      the fixed chunker, target size and fallback overlap of the recursive
      chunker. Their values are not part of this model. */
  datatype ChunkConfig = ChunkConfig(sizeFixed: nat, overlapFixed: nat, sizeRecursive: nat, overlapRecursive: nat)
  {
    predicate Valid() {
      overlapFixed < sizeFixed && overlapRecursive < sizeRecursive
    }
  }

  // =====================================================================
  // Chunk numbering
  // =====================================================================

  predicate Numbered(chunks: seq<Chunk>) {
    forall k :: 0 <= k < |chunks| ==> chunks[k].id == k
  }

  function Texts(chunks: seq<Chunk>): seq<string> {
    seq(|chunks|, k requires 0 <= k < |chunks| => chunks[k].text)
  }

  /** `texts.map((text, index) => ({ id: index, text }))`. */
  function Number(texts: seq<string>): (chunks: seq<Chunk>)
    ensures |chunks| == |texts|
    ensures forall k :: 0 <= k < |chunks| ==> chunks[k] == Chunk(k, texts[k])
  {
    seq(|texts|, k requires 0 <= k < |texts| => Chunk(k, texts[k]))
  }

  // =====================================================================
  // Windowing
  // =====================================================================

  /** The windows `text.substring(i, i + size)` for `i = from, from + step, ...`
      while `i < |text|`; `substring` clamps the end to the text. */
  function Windows(text: string, from: nat, size: nat, step: nat): seq<string>
    requires step > 0
    decreases |text| - from
  {
    if from >= |text| then []
    else [text[from..Min(from + size, |text|)]] + Windows(text, from + step, size, step)
  }

  function CeilDiv(n: nat, d: nat): nat
    requires d > 0
  {
    (n + d - 1) / d
  }

  lemma {:induction false} WindowsShape(text: string, from: nat, size: nat, step: nat)
    requires 0 < step <= size
    ensures forall w :: w in Windows(text, from, size, step) ==> 0 < |w| <= size
    decreases |text| - from
  {
    if from < |text| {
      var rest := Windows(text, from + step, size, step);
      WindowsShape(text, from + step, size, step);
      assert Windows(text, from, size, step) == [text[from..Min(from + size, |text|)]] + rest;
    }
  }

  lemma {:induction false} WindowsCount(text: string, from: nat, size: nat, step: nat)
    requires 0 < step
    ensures from + |Windows(text, from, size, step)| * step >= |text|
    ensures |Windows(text, from, size, step)| > 0 ==>
      from + (|Windows(text, from, size, step)| - 1) * step < |text|
    decreases |text| - from
  {
    if from < |text| {
      WindowsCount(text, from + step, size, step);
      var m := |Windows(text, from + step, size, step)|;
      assert (m + 1) * step == m * step + step;
    }
  }

  lemma {:induction false} WindowAt(text: string, from: nat, size: nat, step: nat, k: nat)
    requires 0 < step
    requires k < |Windows(text, from, size, step)|
    ensures from + k * step < |text|
    ensures Windows(text, from, size, step)[k] == text[from + k * step..Min(from + k * step + size, |text|)]
    decreases k
  {
    if k > 0 {
      WindowAt(text, from + step, size, step, k - 1);
      assert from + step + (k - 1) * step == from + k * step;
    }
  }

  lemma MulMono(a: nat, b: nat, d: nat)
    requires a <= b
    ensures a * d <= b * d
  {
    assert b * d == a * d + (b - a) * d;
  }

  /** `q` is the least count with `q * d >= n`, so it is the rounded-up quotient. */
  lemma CeilDivOf(n: nat, d: nat, q: nat)
    requires d > 0 && q * d >= n && (q > 0 ==> (q - 1) * d < n)
    ensures q == CeilDiv(n, d)
  {
    if q == 0 {
      assert n == 0;
      DivUnique(d - 1, d, 0);
    } else {
      assert (q - 1) * d == q * d - d;
      DivUnique(n + d - 1, d, q);
    }
  }

  /** A quotient is the one multiple of `d` that lies within `d` below `x`. */
  lemma DivUnique(x: nat, d: nat, q: nat)
    requires d > 0 && q * d <= x < q * d + d
    ensures x / d == q
  {
    var c := x / d;
    DivBounds(x, d);
    if c < q {
      StepMono(c, q, d);
      assert false;
    } else if c > q {
      StepMono(q, c, d);
      assert false;
    }
  }

  lemma StepMono(a: nat, b: nat, d: nat)
    requires a < b
    ensures a * d + d <= b * d
  {
    MulMono(a + 1, b, d);
    assert (a + 1) * d == a * d + d;
  }

  lemma DivBounds(x: nat, d: nat)
    requires d > 0
    ensures (x / d) * d <= x < (x / d) * d + d
  {
  }

  /** The pieces cut to their first `step` characters and concatenated: what
      remains of the windows once the overlap is removed. */
  function Reassemble(pieces: seq<string>, step: nat): string
    decreases |pieces|
  {
    if pieces == [] then []
    else pieces[0][..Min(step, |pieces[0]|)] + Reassemble(pieces[1..], step)
  }

  lemma {:induction false} WindowsReassemble(text: string, from: nat, size: nat, step: nat)
    requires 0 < step <= size
    requires from <= |text|
    ensures Reassemble(Windows(text, from, size, step), step) == text[from..]
    decreases |text| - from
  {
    if from < |text| {
      var ws := Windows(text, from, size, step);
      var w := text[from..Min(from + size, |text|)];
      assert ws[0] == w && ws[1..] == Windows(text, from + step, size, step);
      if from + step <= |text| {
        WindowsReassemble(text, from + step, size, step);
        assert w[..step] == text[from..from + step];
        assert text[from..] == text[from..from + step] + text[from + step..];
      } else {
        assert Windows(text, from + step, size, step) == [];
        assert w == text[from..];
      }
    }
  }

  // =====================================================================
  // Fixed-size chunker (services/textChunker.ts:8-16)
  // =====================================================================

  /** What `fixedSizeChunker` returns: windows of `size` starting every
      `size - overlap` characters, numbered from 0. */
  function FixedChunks(text: string, size: nat, overlap: nat): seq<Chunk>
    requires overlap < size
  {
    Number(Windows(text, 0, size, size - overlap))
  }

  method FixedSizeChunker(text: string, size: nat, overlap: nat) returns (chunks: seq<Chunk>)
    requires overlap < size
    ensures chunks == FixedChunks(text, size, overlap)
    ensures Numbered(chunks)
    ensures forall k :: 0 <= k < |chunks| ==> 0 < |chunks[k].text| <= size
    ensures |chunks| == CeilDiv(|text|, size - overlap)
  {
    var step := size - overlap;
    ghost var all := Windows(text, 0, size, step);
    chunks := [];
    var id := 0;
    var i := 0;
    while i < |text|
      invariant id == |chunks| <= |all|
      invariant all[id..] == Windows(text, i, size, step)
      invariant forall k :: 0 <= k < id ==> chunks[k] == Chunk(k, all[k])
    {
      chunks := chunks + [Chunk(id, text[i..Min(i + size, |text|)])];
      id := id + 1;
      i := i + step;
    }
    assert chunks == Number(all);
    FixedChunksShape(text, size, overlap);
  }

  /** Empty text gives no chunks; otherwise there are ceil(|text| / step)
      chunks, each non-empty and at most `size` long, numbered 0..n-1. No
      whitespace filter is applied. */
  lemma FixedChunksShape(text: string, size: nat, overlap: nat)
    requires overlap < size
    ensures var chunks := FixedChunks(text, size, overlap);
      Numbered(chunks) &&
      (forall k :: 0 <= k < |chunks| ==> 0 < |chunks[k].text| <= size) &&
      |chunks| == CeilDiv(|text|, size - overlap) &&
      (chunks == [] <==> text == [])
  {
    var step := size - overlap;
    var ws := Windows(text, 0, size, step);
    WindowsShape(text, 0, size, step);
    WindowsCount(text, 0, size, step);
    CeilDivOf(|text|, step, |ws|);
    var chunks := FixedChunks(text, size, overlap);
    forall k | 0 <= k < |chunks| ensures 0 < |chunks[k].text| <= size {
      assert chunks[k].text == ws[k];
    }
  }

  /** Chunk `k` exists exactly when `k * step < |text|`, and it is the text
      from `k * step` to `k * step + size`, clamped. */
  lemma FixedChunkAt(text: string, size: nat, overlap: nat, k: nat)
    requires overlap < size
    ensures k < |FixedChunks(text, size, overlap)| <==> k * (size - overlap) < |text|
    ensures k < |FixedChunks(text, size, overlap)| ==>
      FixedChunks(text, size, overlap)[k] ==
        Chunk(k, text[k * (size - overlap)..Min(k * (size - overlap) + size, |text|)])
  {
    var step := size - overlap;
    var n := |Windows(text, 0, size, step)|;
    if k < n {
      WindowAt(text, 0, size, step, k);
    } else {
      WindowsCount(text, 0, size, step);
      MulMono(n, k, step);
    }
  }

  /** A non-empty text that fits in one window comes back whole as chunk 0,
      but it is the only chunk just when it is no longer than the step: a
      text longer than `size - overlap` also gets its tail as chunk 1. */
  lemma FixedShortText(text: string, size: nat, overlap: nat)
    requires overlap < size && 0 < |text| <= size
    ensures FixedChunks(text, size, overlap)[0] == Chunk(0, text)
    ensures |FixedChunks(text, size, overlap)| == 1 <==> |text| <= size - overlap
  {
    FixedChunkAt(text, size, overlap, 0);
    FixedChunkAt(text, size, overlap, 1);
    assert text[0..|text|] == text;
  }

  /** Two consecutive windows, the first full, share exactly `overlap`
      characters: the tail of the first is the head of the second. */
  lemma FixedOverlap(text: string, size: nat, overlap: nat, k: nat)
    requires overlap < size
    requires k + 1 < |FixedChunks(text, size, overlap)|
    requires |FixedChunks(text, size, overlap)[k].text| == size
    ensures |FixedChunks(text, size, overlap)[k + 1].text| >= overlap
    ensures FixedChunks(text, size, overlap)[k].text[size - overlap..] ==
            FixedChunks(text, size, overlap)[k + 1].text[..overlap]
  {
    WindowsOverlap(text, 0, size, size - overlap, k);
  }

  lemma SubSlice(text: string, a: nat, b: nat, c: nat, d: nat)
    requires a <= b <= |text| && c <= d <= b - a
    ensures text[a..b][c..d] == text[a + c..a + d]
  {
    forall i | 0 <= i < d - c
      ensures text[a..b][c..d][i] == text[a + c..a + d][i]
    {
    }
  }

  lemma {:induction false} WindowsOverlap(text: string, from: nat, size: nat, step: nat, k: nat)
    requires 0 < step <= size
    requires k + 1 < |Windows(text, from, size, step)|
    requires |Windows(text, from, size, step)[k]| == size
    ensures |Windows(text, from, size, step)[k + 1]| >= size - step
    ensures Windows(text, from, size, step)[k][step..] == Windows(text, from, size, step)[k + 1][..size - step]
    decreases k
  {
    var ws := Windows(text, from, size, step);
    var rest := Windows(text, from + step, size, step);
    assert ws[1..] == rest;
    if k == 0 {
      assert ws[0] == text[from..Min(from + size, |text|)];
      assert from + size <= |text|;
      var end := Min(from + step + size, |text|);
      assert from + size <= end;
      assert ws[1] == rest[0] == text[from + step..end];
      SubSlice(text, from, from + size, step, size);
      SubSlice(text, from + step, end, 0, size - step);
    } else {
      WindowsOverlap(text, from + step, size, step, k - 1);
    }
  }

  /** Cutting each chunk to its first `size - overlap` characters and
      concatenating them in id order gives the text back. */
  lemma FixedRoundTrip(text: string, size: nat, overlap: nat)
    requires overlap < size
    ensures Reassemble(Texts(FixedChunks(text, size, overlap)), size - overlap) == text
  {
    assert Texts(FixedChunks(text, size, overlap)) == Windows(text, 0, size, size - overlap);
    WindowsReassemble(text, 0, size, size - overlap);
  }

  // =====================================================================
  // Recursive chunker (services/textChunker.ts:18-58)
  // =====================================================================

  /** Paragraph break, line break, sentence end, word break, in that order. */
  const Separators: seq<string> := ["\n\n", "\n", ". ", " "]

  function Flush(buffer: string): seq<string> {
    if buffer != "" then [buffer] else []
  }

  /** The buffers `splitText`'s loop flushes, from the current `buffer` on:
      a part that would push the buffer past `limit` (counting one separator)
      flushes it and starts a new one; otherwise the part is appended, after
      a separator unless the buffer is empty. An empty buffer is never
      flushed. */
  function PackFrom(parts: seq<string>, sep: string, limit: nat, buffer: string): seq<string>
    decreases |parts|
  {
    if parts == [] then Flush(buffer)
    else if |buffer| + |parts[0]| + |sep| > limit then
      Flush(buffer) + PackFrom(parts[1..], sep, limit, parts[0])
    else
      PackFrom(parts[1..], sep, limit, buffer + (if buffer != "" then sep else "") + parts[0])
  }

  function Pack(parts: seq<string>, sep: string, limit: nat): seq<string> {
    PackFrom(parts, sep, limit, "")
  }

  /** What `splitText(text, separatorIndex)` returns. */
  function Pieces(text: string, separatorIndex: nat, size: nat, overlap: nat): seq<string>
    requires overlap < size && separatorIndex <= |Separators|
    decreases |Separators| - separatorIndex, 0, 0
  {
    if |text| <= size then [text]
    else if separatorIndex == |Separators| then Windows(text, 0, size, size - overlap)
    else
      var separator := Separators[separatorIndex];
      PiecesOfAll(Pack(Split(text, separator), separator, size), separatorIndex + 1, size, overlap)
  }

  /** The pieces of each buffer in turn. */
  function PiecesOfAll(buffers: seq<string>, separatorIndex: nat, size: nat, overlap: nat): seq<string>
    requires overlap < size && separatorIndex <= |Separators|
    decreases |Separators| - separatorIndex, 1, |buffers|
  {
    if buffers == [] then []
    else Pieces(buffers[0], separatorIndex, size, overlap) + PiecesOfAll(buffers[1..], separatorIndex, size, overlap)
  }

  method SplitText(text: string, separatorIndex: nat, size: nat, overlap: nat) returns (pieces: seq<string>)
    requires overlap < size && separatorIndex <= |Separators|
    ensures pieces == Pieces(text, separatorIndex, size, overlap)
    decreases |Separators| - separatorIndex, 1
  {
    if |text| <= size {
      return [text];
    }
    if separatorIndex >= |Separators| {
      pieces := SlidingWindows(text, size, size - overlap);
      return;
    }

    var separator := Separators[separatorIndex];
    var parts := Split(text, separator);
    pieces := PackParts(parts, separatorIndex, size, overlap);
    PiecesSplit(text, separatorIndex, size, overlap);
  }

  /** The loop of `splitText` over the parts of one split: greedily pack
      the parts into buffers of at most `size` characters and split each
      flushed buffer with the next separator. */
  method PackParts(parts: seq<string>, separatorIndex: nat, size: nat, overlap: nat) returns (result: seq<string>)
    requires overlap < size && separatorIndex < |Separators|
    ensures result == PiecesOfAll(Pack(parts, Separators[separatorIndex], size), separatorIndex + 1, size, overlap)
    decreases |Separators| - separatorIndex, 0
  {
    var separator := Separators[separatorIndex];
    result := [];
    var currentChunk := "";
    var j := 0;
    ghost var flushed: seq<string> := [];
    assert parts[0..] == parts;
    while j < |parts|
      invariant 0 <= j <= |parts|
      invariant flushed + PackFrom(parts[j..], separator, size, currentChunk) == Pack(parts, separator, size)
      invariant result == PiecesOfAll(flushed, separatorIndex + 1, size, overlap)
    {
      var part := parts[j];
      PackAdvance(parts, j, separator, size, flushed, currentChunk);
      if |currentChunk| + |part| + |separator| > size {
        result := FlushBuffer(result, flushed, currentChunk, separatorIndex + 1, size, overlap);
        flushed := flushed + Flush(currentChunk);
        currentChunk := part;
      } else {
        currentChunk := currentChunk + (if currentChunk != "" then separator else "") + part;
      }
      j := j + 1;
    }
    assert parts[j..] == [];
    result := FlushBuffer(result, flushed, currentChunk, separatorIndex + 1, size, overlap);
    flushed := flushed + Flush(currentChunk);
  }

  /** The fallback of `splitText` once every separator has been tried:
      windows of `size` characters starting every `step` characters. */
  method SlidingWindows(text: string, size: nat, step: nat) returns (windows: seq<string>)
    requires 0 < step
    ensures windows == Windows(text, 0, size, step)
  {
    windows := [];
    var i := 0;
    while i < |text|
      invariant windows + Windows(text, i, size, step) == Windows(text, 0, size, step)
    {
      windows := windows + [text[i..Min(i + size, |text|)]];
      i := i + step;
    }
  }

  /** `if (currentChunk) result.push(...splitText(currentChunk, separatorIndex))`:
      appends the pieces of a non-empty buffer; an empty one adds nothing. */
  method FlushBuffer(result: seq<string>, ghost flushed: seq<string>, buffer: string,
                     separatorIndex: nat, size: nat, overlap: nat) returns (result': seq<string>)
    requires overlap < size && separatorIndex <= |Separators|
    requires result == PiecesOfAll(flushed, separatorIndex, size, overlap)
    ensures result' == PiecesOfAll(flushed + Flush(buffer), separatorIndex, size, overlap)
    decreases |Separators| - separatorIndex, 2
  {
    PiecesOfAllAppend(flushed, Flush(buffer), separatorIndex, size, overlap);
    if buffer != "" {
      var sub := SplitText(buffer, separatorIndex, size, overlap);
      result' := result + sub;
    } else {
      assert flushed + Flush(buffer) == flushed;
      result' := result;
    }
  }

  lemma PiecesSplit(text: string, separatorIndex: nat, size: nat, overlap: nat)
    requires overlap < size && separatorIndex < |Separators| && |text| > size
    ensures Pieces(text, separatorIndex, size, overlap) ==
      PiecesOfAll(Pack(Split(text, Separators[separatorIndex]), Separators[separatorIndex], size), separatorIndex + 1, size, overlap)
  {
  }

  lemma {:induction false} PiecesOfAllAppend(a: seq<string>, b: seq<string>, separatorIndex: nat, size: nat, overlap: nat)
    requires overlap < size && separatorIndex <= |Separators|
    ensures PiecesOfAll(a + b, separatorIndex, size, overlap) ==
            PiecesOfAll(a, separatorIndex, size, overlap) + PiecesOfAll(b, separatorIndex, size, overlap)
    decreases |a|
  {
    if a == [] {
      assert a + b == b;
    } else {
      assert (a + b)[0] == a[0] && (a + b)[1..] == a[1..] + b;
      PiecesOfAllAppend(a[1..], b, separatorIndex, size, overlap);
    }
  }

  /** One step of `splitText`'s loop, seen from the buffers already flushed. */
  lemma PackAdvance(parts: seq<string>, j: nat, sep: string, limit: nat, flushed: seq<string>, buffer: string)
    requires j < |parts|
    ensures flushed + PackFrom(parts[j..], sep, limit, buffer) ==
      if |buffer| + |parts[j]| + |sep| > limit then
        (flushed + Flush(buffer)) + PackFrom(parts[j + 1..], sep, limit, parts[j])
      else
        flushed + PackFrom(parts[j + 1..], sep, limit, buffer + (if buffer != "" then sep else "") + parts[j])
  {
    PackFromStep(parts, j, sep, limit, buffer);
    if |buffer| + |parts[j]| + |sep| > limit {
      var rest := PackFrom(parts[j + 1..], sep, limit, parts[j]);
      assert flushed + (Flush(buffer) + rest) == (flushed + Flush(buffer)) + rest;
    }
  }

  lemma PackFromStep(parts: seq<string>, j: nat, sep: string, limit: nat, buffer: string)
    requires j < |parts|
    ensures PackFrom(parts[j..], sep, limit, buffer) ==
      if |buffer| + |parts[j]| + |sep| > limit then
        Flush(buffer) + PackFrom(parts[j + 1..], sep, limit, parts[j])
      else
        PackFrom(parts[j + 1..], sep, limit, buffer + (if buffer != "" then sep else "") + parts[j])
  {
    assert parts[j..][0] == parts[j] && parts[j..][1..] == parts[j + 1..];
  }

  /** Every piece `splitText` returns is at most `size` long: the short text
      itself, a fallback window, or a piece of a flushed buffer. */
  lemma {:induction false} PiecesBounded(text: string, separatorIndex: nat, size: nat, overlap: nat)
    requires overlap < size && separatorIndex <= |Separators|
    ensures forall p :: p in Pieces(text, separatorIndex, size, overlap) ==> |p| <= size
    decreases |Separators| - separatorIndex, 0, 0
  {
    if |text| <= size {
    } else if separatorIndex == |Separators| {
      WindowsShape(text, 0, size, size - overlap);
    } else {
      var separator := Separators[separatorIndex];
      PiecesSplit(text, separatorIndex, size, overlap);
      PiecesOfAllBounded(Pack(Split(text, separator), separator, size), separatorIndex + 1, size, overlap);
    }
  }

  lemma {:induction false} PiecesOfAllBounded(buffers: seq<string>, separatorIndex: nat, size: nat, overlap: nat)
    requires overlap < size && separatorIndex <= |Separators|
    ensures forall p :: p in PiecesOfAll(buffers, separatorIndex, size, overlap) ==> |p| <= size
    decreases |Separators| - separatorIndex, 1, |buffers|
  {
    if buffers != [] {
      PiecesBounded(buffers[0], separatorIndex, size, overlap);
      PiecesOfAllBounded(buffers[1..], separatorIndex, size, overlap);
    }
  }

  // ---------------------------------------------------------------------
  // The greedy buffers are contiguous runs of parts
  // ---------------------------------------------------------------------

  /** `runs` are index ranges `[start, end)` into `parts`, non-empty, in
      order and disjoint, all at or after `lo`; each run starts with a
      non-empty part, and every part from `lo` on outside the runs is empty. */
  ghost predicate RunsCover(runs: seq<(nat, nat)>, parts: seq<string>, lo: nat)
    decreases |runs|
  {
    if runs == [] then
      forall k :: lo <= k < |parts| ==> parts[k] == ""
    else
      lo <= runs[0].0 < runs[0].1 <= |parts| && parts[runs[0].0] != "" &&
      (forall k :: lo <= k < runs[0].0 ==> parts[k] == "") &&
      RunsCover(runs[1..], parts, runs[0].1)
  }

  lemma {:induction false} RunsCoverBounds(runs: seq<(nat, nat)>, parts: seq<string>, lo: nat)
    requires RunsCover(runs, parts, lo)
    ensures forall m :: 0 <= m < |runs| ==> lo <= runs[m].0 < runs[m].1 <= |parts|
    decreases |runs|
  {
    if runs != [] {
      RunsCoverBounds(runs[1..], parts, runs[0].1);
    }
  }

  lemma RunsCoverCons(lo: nat, j: nat, runs: seq<(nat, nat)>, parts: seq<string>)
    requires lo < j <= |parts| && parts[lo] != ""
    requires RunsCover(runs, parts, j)
    ensures RunsCover([(lo, j)] + runs, parts, lo)
  {
    assert ([(lo, j)] + runs)[1..] == runs;
  }

  lemma RunsCoverSkip(runs: seq<(nat, nat)>, parts: seq<string>, lo: nat)
    requires lo < |parts| && parts[lo] == ""
    requires RunsCover(runs, parts, lo + 1)
    ensures RunsCover(runs, parts, lo)
  {
  }

  /** The runs behind the buffers `PackFrom(parts[j..], sep, limit, buffer)`
      flushes, when the current buffer holds the parts `[lo, j)`. */
  ghost function RunsFrom(parts: seq<string>, sep: string, limit: nat, j: nat, lo: nat, buffer: string): seq<(nat, nat)>
    requires lo <= j <= |parts|
    decreases |parts| - j
  {
    var current := if lo < j then [(lo, j)] else [];
    if j == |parts| then current
    else
      var part := parts[j];
      var lo' := if part == "" then j + 1 else j;
      if |buffer| + |part| + |sep| > limit then
        current + RunsFrom(parts, sep, limit, j + 1, lo', part)
      else if lo == j then
        RunsFrom(parts, sep, limit, j + 1, lo', buffer + (if buffer != "" then sep else "") + part)
      else
        RunsFrom(parts, sep, limit, j + 1, lo, buffer + (if buffer != "" then sep else "") + part)
  }

  lemma {:induction false} RunsFromCover(parts: seq<string>, sep: string, limit: nat, j: nat, lo: nat, buffer: string)
    requires lo <= j <= |parts|
    requires lo < j ==> parts[lo] != ""
    ensures RunsCover(RunsFrom(parts, sep, limit, j, lo, buffer), parts, lo)
    decreases |parts| - j
  {
    var runs := RunsFrom(parts, sep, limit, j, lo, buffer);
    if j == |parts| {
      if lo < j {
        RunsCoverCons(lo, j, [], parts);
        assert runs == [(lo, j)] + [];
      }
    } else {
      var part := parts[j];
      var lo' := if part == "" then j + 1 else j;
      var buffer' := buffer + (if buffer != "" then sep else "") + part;
      if |buffer| + |part| + |sep| > limit {
        var tail := RunsFrom(parts, sep, limit, j + 1, lo', part);
        RunsFromCover(parts, sep, limit, j + 1, lo', part);
        if lo' == j + 1 { RunsCoverSkip(tail, parts, j); }
        if lo < j {
          assert runs == [(lo, j)] + tail;
          RunsCoverCons(lo, j, tail, parts);
        } else {
          assert runs == [] + tail == tail;
        }
      } else if lo == j {
        var tail := RunsFrom(parts, sep, limit, j + 1, lo', buffer');
        assert runs == tail;
        RunsFromCover(parts, sep, limit, j + 1, lo', buffer');
        if lo' == j + 1 { RunsCoverSkip(tail, parts, j); }
      } else {
        assert runs == RunsFrom(parts, sep, limit, j + 1, lo, buffer');
        RunsFromCover(parts, sep, limit, j + 1, lo, buffer');
      }
    }
  }

  lemma JoinExtend(parts: seq<string>, sep: string, lo: nat, j: nat)
    requires lo < j < |parts|
    ensures Join(parts[lo..j + 1], sep) == Join(parts[lo..j], sep) + sep + parts[j]
  {
    assert parts[lo..j + 1] == parts[lo..j] + [parts[j]];
    JoinAppend(parts[lo..j], parts[j], sep);
  }

  lemma JoinSingle(parts: seq<string>, sep: string, j: nat)
    requires j < |parts|
    ensures Join(parts[j..j + 1], sep) == parts[j]
  {
    assert parts[j..j + 1] == [parts[j]];
  }

  lemma {:induction false} RunsFromJoin(parts: seq<string>, sep: string, limit: nat, j: nat, lo: nat, buffer: string)
    requires lo <= j <= |parts|
    requires lo == j ==> buffer == ""
    requires lo < j ==> parts[lo] != "" && buffer == Join(parts[lo..j], sep)
    ensures Describes(RunsFrom(parts, sep, limit, j, lo, buffer), PackFrom(parts[j..], sep, limit, buffer), parts, sep)
    decreases |parts| - j
  {
    if lo < j {
      JoinNonEmpty(parts, sep, lo, j);
      assert Flush(buffer) == [buffer];
    } else {
      assert Flush(buffer) == [];
    }
    if j == |parts| {
      assert parts[j..] == [];
      if lo < j {
        DescribesCons(lo, j, [], [], parts, sep);
      }
    } else {
      var part := parts[j];
      PackFromStep(parts, j, sep, limit, buffer);
      var lo' := if part == "" then j + 1 else j;
      if lo' == j { JoinSingle(parts, sep, j); }
      var buffer' := buffer + (if buffer != "" then sep else "") + part;
      if |buffer| + |part| + |sep| > limit {
        var runs := RunsFrom(parts, sep, limit, j + 1, lo', part);
        var packed := PackFrom(parts[j + 1..], sep, limit, part);
        RunsFromJoin(parts, sep, limit, j + 1, lo', part);
        if lo < j {
          assert RunsFrom(parts, sep, limit, j, lo, buffer) == [(lo, j)] + runs;
          assert PackFrom(parts[j..], sep, limit, buffer) == [buffer] + packed;
          DescribesCons(lo, j, runs, packed, parts, sep);
        } else {
          assert RunsFrom(parts, sep, limit, j, lo, buffer) == [] + runs;
          assert PackFrom(parts[j..], sep, limit, buffer) == [] + packed;
        }
      } else if lo == j {
        assert RunsFrom(parts, sep, limit, j, lo, buffer) == RunsFrom(parts, sep, limit, j + 1, lo', buffer');
        RunsFromJoin(parts, sep, limit, j + 1, lo', buffer');
      } else {
        assert RunsFrom(parts, sep, limit, j, lo, buffer) == RunsFrom(parts, sep, limit, j + 1, lo, buffer');
        JoinExtend(parts, sep, lo, j);
        RunsFromJoin(parts, sep, limit, j + 1, lo, buffer');
      }
    }
  }

  /** Run `m` of `runs` lies within `parts` and joins to buffer `m` of `packed`. */
  ghost predicate Describes(runs: seq<(nat, nat)>, packed: seq<string>, parts: seq<string>, sep: string) {
    |runs| == |packed| &&
    forall m :: 0 <= m < |runs| ==>
      runs[m].0 <= runs[m].1 <= |parts| && packed[m] == Join(parts[runs[m].0..runs[m].1], sep)
  }

  lemma DescribesCons(lo: nat, j: nat, runs: seq<(nat, nat)>, packed: seq<string>, parts: seq<string>, sep: string)
    requires lo <= j <= |parts|
    requires Describes(runs, packed, parts, sep)
    ensures Describes([(lo, j)] + runs, [Join(parts[lo..j], sep)] + packed, parts, sep)
  {
  }

  lemma JoinNonEmpty(parts: seq<string>, sep: string, lo: nat, j: nat)
    requires lo < j <= |parts| && parts[lo] != ""
    ensures Join(parts[lo..j], sep) != ""
  {
    assert parts[lo..j][0] == parts[lo];
  }

  /** Every run of more than one part joins to at most `limit` characters. */
  ghost predicate Fit(runs: seq<(nat, nat)>, parts: seq<string>, sep: string, limit: nat) {
    forall m :: 0 <= m < |runs| && runs[m].0 + 1 < runs[m].1 <= |parts| ==>
      |Join(parts[runs[m].0..runs[m].1], sep)| <= limit
  }

  lemma FitCons(lo: nat, j: nat, runs: seq<(nat, nat)>, parts: seq<string>, sep: string, limit: nat)
    requires lo <= j <= |parts|
    requires lo + 1 < j ==> |Join(parts[lo..j], sep)| <= limit
    requires Fit(runs, parts, sep, limit)
    ensures Fit([(lo, j)] + runs, parts, sep, limit)
  {
  }

  lemma {:induction false} RunsFromFit(parts: seq<string>, sep: string, limit: nat, j: nat, lo: nat, buffer: string)
    requires lo <= j <= |parts|
    requires lo == j ==> buffer == ""
    requires lo < j ==> parts[lo] != "" && buffer == Join(parts[lo..j], sep)
    requires |buffer| > limit ==> j == lo + 1
    ensures Fit(RunsFrom(parts, sep, limit, j, lo, buffer), parts, sep, limit)
    decreases |parts| - j, 1
  {
    if j == |parts| {
      if lo < j {
        FitCons(lo, j, [], parts, sep, limit);
        assert [(lo, j)] + [] == [(lo, j)];
      }
    } else if |buffer| + |parts[j]| + |sep| > limit {
      RunsFitFlush(parts, sep, limit, j, lo, buffer);
    } else {
      RunsFitExtend(parts, sep, limit, j, lo, buffer);
    }
  }

  /** `RunsFromFit` when `parts[j]` starts a new buffer. */
  lemma {:induction false} RunsFitFlush(parts: seq<string>, sep: string, limit: nat, j: nat, lo: nat, buffer: string)
    requires lo <= j < |parts|
    requires lo < j ==> buffer == Join(parts[lo..j], sep)
    requires |buffer| > limit ==> j == lo + 1
    requires |buffer| + |parts[j]| + |sep| > limit
    ensures Fit(RunsFrom(parts, sep, limit, j, lo, buffer), parts, sep, limit)
    decreases |parts| - j, 0
  {
    var part := parts[j];
    var lo' := if part == "" then j + 1 else j;
    if lo' == j { JoinSingle(parts, sep, j); }
    var tail := RunsFrom(parts, sep, limit, j + 1, lo', part);
    RunsFromFit(parts, sep, limit, j + 1, lo', part);
    if lo < j {
      assert RunsFrom(parts, sep, limit, j, lo, buffer) == [(lo, j)] + tail;
      FitCons(lo, j, tail, parts, sep, limit);
    } else {
      assert RunsFrom(parts, sep, limit, j, lo, buffer) == tail;
    }
  }

  /** `RunsFromFit` when `parts[j]` joins the current buffer. */
  lemma {:induction false} RunsFitExtend(parts: seq<string>, sep: string, limit: nat, j: nat, lo: nat, buffer: string)
    requires lo <= j < |parts|
    requires lo == j ==> buffer == ""
    requires lo < j ==> parts[lo] != "" && buffer == Join(parts[lo..j], sep)
    requires |buffer| + |parts[j]| + |sep| <= limit
    ensures Fit(RunsFrom(parts, sep, limit, j, lo, buffer), parts, sep, limit)
    decreases |parts| - j, 0
  {
    var part := parts[j];
    var buffer' := buffer + (if buffer != "" then sep else "") + part;
    if lo == j {
      var lo' := if part == "" then j + 1 else j;
      if lo' == j { JoinSingle(parts, sep, j); }
      assert RunsFrom(parts, sep, limit, j, lo, buffer) == RunsFrom(parts, sep, limit, j + 1, lo', buffer');
      RunsFromFit(parts, sep, limit, j + 1, lo', buffer');
    } else {
      assert RunsFrom(parts, sep, limit, j, lo, buffer) == RunsFrom(parts, sep, limit, j + 1, lo, buffer');
      JoinNonEmpty(parts, sep, lo, j);
      JoinExtend(parts, sep, lo, j);
      RunsFromFit(parts, sep, limit, j + 1, lo, buffer');
    }
  }

  /** The buffers `splitText` flushes for one separator are, left to right,
      the separator-joins of ordered, disjoint runs of the split parts; only
      empty parts fall outside the runs; no buffer is empty; and a buffer
      longer than the limit is a single part. */
  lemma PackRuns(parts: seq<string>, sep: string, limit: nat) returns (runs: seq<(nat, nat)>)
    ensures RunsCover(runs, parts, 0)
    ensures |runs| == |Pack(parts, sep, limit)|
    ensures forall m :: 0 <= m < |runs| ==> runs[m].0 < runs[m].1 <= |parts|
    ensures forall m :: 0 <= m < |runs| ==>
      Pack(parts, sep, limit)[m] == Join(parts[runs[m].0..runs[m].1], sep) && Pack(parts, sep, limit)[m] != ""
    ensures forall m :: 0 <= m < |runs| && |Pack(parts, sep, limit)[m]| > limit ==> runs[m].1 == runs[m].0 + 1
  {
    assert parts[0..] == parts;
    runs := RunsFrom(parts, sep, limit, 0, 0, "");
    RunsFromCover(parts, sep, limit, 0, 0, "");
    RunsCoverBounds(runs, parts, 0);
    RunsFromJoin(parts, sep, limit, 0, 0, "");
    assert Describes(runs, Pack(parts, sep, limit), parts, sep);
    RunsFromFit(parts, sep, limit, 0, 0, "");
    var packed := Pack(parts, sep, limit);
    PackNonEmpty(parts, sep, limit, "");
    forall m | 0 <= m < |runs| ensures packed[m] != "" {
      assert packed[m] in packed;
    }
  }

  lemma {:induction false} PackNonEmpty(parts: seq<string>, sep: string, limit: nat, buffer: string)
    ensures forall b :: b in PackFrom(parts, sep, limit, buffer) ==> b != ""
    decreases |parts|
  {
    if parts != [] {
      if |buffer| + |parts[0]| + |sep| > limit {
        PackNonEmpty(parts[1..], sep, limit, parts[0]);
      } else {
        PackNonEmpty(parts[1..], sep, limit, buffer + (if buffer != "" then sep else "") + parts[0]);
      }
    }
  }

  // ---------------------------------------------------------------------
  // Filtering and numbering (services/textChunker.ts:56-57)
  // ---------------------------------------------------------------------

  /** `Array.prototype.filter`: the elements `keep` accepts, in order. */
  function Filter<T>(s: seq<T>, keep: T -> bool): seq<T>
    decreases |s|
  {
    if s == [] then []
    else (if keep(s[0]) then [s[0]] else []) + Filter(s[1..], keep)
  }

  lemma {:induction false} FilterMembers<T>(s: seq<T>, keep: T -> bool)
    ensures forall x :: x in Filter(s, keep) <==> x in s && keep(x)
    decreases |s|
  {
    if s != [] {
      FilterMembers(s[1..], keep);
      assert s == [s[0]] + s[1..];
    }
  }

  lemma {:induction false} FilterAppend<T>(a: seq<T>, b: seq<T>, keep: T -> bool)
    ensures Filter(a + b, keep) == Filter(a, keep) + Filter(b, keep)
    decreases |a|
  {
    if a == [] {
      assert a + b == b;
    } else {
      var head := if keep(a[0]) then [a[0]] else [];
      var x, y := Filter(a[1..], keep), Filter(b, keep);
      FilterAppend(a[1..], b, keep);
      assert (a + b)[0] == a[0] && (a + b)[1..] == a[1..] + b;
      assert Filter(a + b, keep) == head + (x + y);
      assert Filter(a, keep) == head + x;
      assert head + (x + y) == (head + x) + y;
    }
  }

  lemma {:induction false} FilterCount<T>(s: seq<T>, keep: T -> bool, x: T)
    ensures multiset(Filter(s, keep))[x] == if keep(x) then multiset(s)[x] else 0
    decreases |s|
  {
    if s != [] {
      FilterCount(s[1..], keep, x);
      assert s == [s[0]] + s[1..];
    }
  }

  /** The test of `pieces.filter(c => c.trim().length > 0)`. */
  predicate NonBlank(p: string)
  {
    Trim(p) != ""
  }

  /** `pieces.filter(c => c.trim().length > 0)`. */
  function KeepNonBlank(pieces: seq<string>): seq<string>
  {
    Filter(pieces, NonBlank)
  }

  /** A piece is kept exactly when it trims to something. */
  lemma KeepNonBlankMembers(pieces: seq<string>)
    ensures forall p :: p in KeepNonBlank(pieces) <==> p in pieces && Trim(p) != ""
  {
    FilterMembers(pieces, NonBlank);
  }

  /** The filter works piece by piece, so it keeps the emission order. */
  lemma KeepNonBlankAppend(a: seq<string>, b: seq<string>)
    ensures KeepNonBlank(a + b) == KeepNonBlank(a) + KeepNonBlank(b)
  {
    FilterAppend(a, b, NonBlank);
  }

  /** The filter neither invents nor duplicates pieces, and keeps every
      non-blank occurrence: as multisets, the kept pieces are the pieces
      minus the blank ones. */
  lemma KeepNonBlankCount(pieces: seq<string>, p: string)
    ensures multiset(KeepNonBlank(pieces))[p] == if Trim(p) != "" then multiset(pieces)[p] else 0
  {
    FilterCount(pieces, NonBlank, p);
  }

  /** What `recursiveChunker` returns. */
  function RecursiveChunks(text: string, size: nat, overlap: nat): seq<Chunk>
    requires overlap < size
  {
    Number(KeepNonBlank(Pieces(text, 0, size, overlap)))
  }

  method RecursiveChunker(text: string, size: nat, overlap: nat) returns (chunks: seq<Chunk>)
    requires overlap < size
    ensures chunks == RecursiveChunks(text, size, overlap)
    ensures Numbered(chunks)
    ensures forall k :: 0 <= k < |chunks| ==> Trim(chunks[k].text) != "" && |chunks[k].text| <= size
    ensures |text| <= size ==> chunks == if Trim(text) == "" then [] else [Chunk(0, text)]
  {
    var pieces := SplitText(text, 0, size, overlap);
    chunks := Number(KeepNonBlank(pieces));
    RecursiveChunksShape(text, size, overlap);
    if |text| <= size {
      RecursiveChunksShort(text, size, overlap);
    }
  }

  /** Every recursive chunk is numbered by position, holds some
      non-whitespace, and is at most `size` long. */
  lemma RecursiveChunksShape(text: string, size: nat, overlap: nat)
    requires overlap < size
    ensures Numbered(RecursiveChunks(text, size, overlap))
    ensures forall c :: c in RecursiveChunks(text, size, overlap) ==> Trim(c.text) != "" && |c.text| <= size
  {
    PiecesBounded(text, 0, size, overlap);
    NumberKept(Pieces(text, 0, size, overlap), size);
  }

  lemma NumberKept(pieces: seq<string>, size: nat)
    requires forall p :: p in pieces ==> |p| <= size
    ensures Numbered(Number(KeepNonBlank(pieces)))
    ensures forall c :: c in Number(KeepNonBlank(pieces)) ==> Trim(c.text) != "" && |c.text| <= size
  {
    var kept := KeepNonBlank(pieces);
    var chunks := Number(kept);
    KeepNonBlankMembers(pieces);
    forall c | c in chunks ensures Trim(c.text) != "" && |c.text| <= size {
      var k :| 0 <= k < |chunks| && chunks[k] == c;
      assert c.text == kept[k] && kept[k] in kept;
    }
  }

  /** A text that already fits is its own single chunk, unless it is all
      whitespace, in which case there are none. */
  lemma RecursiveChunksShort(text: string, size: nat, overlap: nat)
    requires overlap < size && |text| <= size
    ensures RecursiveChunks(text, size, overlap) == if Trim(text) == "" then [] else [Chunk(0, text)]
  {
    assert Pieces(text, 0, size, overlap) == [text];
    assert [text][1..] == [];
    assert KeepNonBlank([text]) == (if NonBlank(text) then [text] else []) + Filter([], NonBlank);
  }

  // =====================================================================
  // Dispatcher (services/textChunker.ts:60-69)
  // =====================================================================

  /** `chunkText(text, strategy)`. With a two-valued strategy the source's
      unknown-strategy error cannot arise. */
  method ChunkText(text: string, strategy: ChunkingStrategy, config: ChunkConfig) returns (chunks: seq<Chunk>)
    requires config.Valid()
    ensures strategy == Fixed ==> chunks == FixedChunks(text, config.sizeFixed, config.overlapFixed)
    ensures strategy == Recursive ==> chunks == RecursiveChunks(text, config.sizeRecursive, config.overlapRecursive)
    ensures Numbered(chunks)
    ensures forall k :: 0 <= k < |chunks| ==> chunks[k].text != ""
  {
    match strategy
    case Fixed =>
      chunks := FixedSizeChunker(text, config.sizeFixed, config.overlapFixed);
    case Recursive =>
      chunks := RecursiveChunker(text, config.sizeRecursive, config.overlapRecursive);
  }
}
