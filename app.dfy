/** The retrieval step of the question-answering screen (App.tsx): keyword
    scoring of chunks against a question, a stable sort by score, the top
    five with a non-zero score, the context string handed to the answer
    generator, and the screen state derived from the upload flags. */
module App {
  import opened JsStrings
  import opened Types

  /** A chunk with its keyword score: `{ ...chunk, score }`. */
  datatype ScoredChunk = ScoredChunk(id: nat, text: string, score: nat)

  /** How many of the best-scoring chunks are kept. */
  const TopK: nat := 5

  /** The separator placed between retrieved chunk texts in the context. */
  const ContextSeparator: string := "\n---\n"

  // =====================================================================
  // Keyword scoring (App.tsx:53-60)
  // =====================================================================

  /** The words of `s`: lowercased, split at runs of whitespace. Leading or
      trailing whitespace contributes the empty word, as `split(/\s+/)` does. */
  function Words(s: string): set<string> {
    set w | w in SplitWhitespace(Lower(s))
  }

  /** The distinct query words longer than two characters. */
  function QueryWords(query: string): (qw: set<string>)
    ensures forall w :: w in qw ==> |w| > 2 && w in Words(query)
    ensures forall w, k :: w in qw && 0 <= k < |w| ==> !IsSpace(w[k]) && !IsUpper(w[k])
  {
    QueryWordsLower(query);
    set w | w in SplitWhitespace(Lower(query)) && |w| > 2
  }

  lemma QueryWordsLower(query: string)
    ensures forall w, k :: w in SplitWhitespace(Lower(query)) && 0 <= k < |w| ==> !IsSpace(w[k]) && !IsUpper(w[k])
  {
    var low := Lower(query);
    SplitWhitespaceWords(low);
    forall w, k | w in SplitWhitespace(low) && 0 <= k < |w| ensures !IsUpper(w[k]) {
      var i :| 0 <= i < |low| && low[i] == w[k];
    }
  }

  /** The number of query words that are also words of `text`. */
  function Score(qw: set<string>, text: string): (n: nat)
    ensures n <= |qw|
    ensures n == 0 <==> forall w :: w in qw ==> w !in Words(text)
  {
    SubsetCard(qw * Words(text), qw);
    EmptyIntersection(qw, Words(text));
    |qw * Words(text)|
  }

  lemma EmptyIntersection(a: set<string>, b: set<string>)
    ensures |a * b| == 0 <==> forall w :: w in a ==> w !in b
  {
    if |a * b| != 0 {
      var w :| w in a * b;
    } else {
      forall w | w in a ensures w !in b {
        assert w !in a * b;
      }
    }
  }

  lemma {:induction false} SubsetCard<T>(a: set<T>, b: set<T>)
    requires a <= b
    ensures |a| <= |b|
    decreases |b|
  {
    if a != {} {
      var x :| x in a;
      SubsetCard(a - {x}, b - {x});
    }
  }

  /** Each chunk with its score, in input order. */
  function ScoreAll(qw: set<string>, chunks: seq<Chunk>): (scored: seq<ScoredChunk>)
    ensures |scored| == |chunks|
    ensures forall k :: 0 <= k < |chunks| ==>
      scored[k].id == chunks[k].id && scored[k].text == chunks[k].text && scored[k].score == Score(qw, chunks[k].text)
  {
    seq(|chunks|, k requires 0 <= k < |chunks| => ScoredChunk(chunks[k].id, chunks[k].text, Score(qw, chunks[k].text)))
  }

  // =====================================================================
  // Stable sort by descending score (App.tsx:62)
  // =====================================================================

  predicate NonIncreasing(s: seq<ScoredChunk>) {
    forall i, j :: 0 <= i < j < |s| ==> s[i].score >= s[j].score
  }

  /** The elements of `s` whose score is `v`, in their order in `s`. */
  function WithScore(s: seq<ScoredChunk>, v: nat): seq<ScoredChunk>
    decreases |s|
  {
    if s == [] then []
    else WithScore(s[..|s| - 1], v) + (if s[|s| - 1].score == v then [s[|s| - 1]] else [])
  }

  /** `x` placed after every element of `s` whose score is at least its own. */
  function Insert(x: ScoredChunk, s: seq<ScoredChunk>): seq<ScoredChunk>
    decreases |s|
  {
    if s == [] then [x]
    else if s[|s| - 1].score < x.score then Insert(x, s[..|s| - 1]) + [s[|s| - 1]]
    else s + [x]
  }

  /** What a stable descending sort by score produces. */
  function SortedByScore(s: seq<ScoredChunk>): seq<ScoredChunk>
    decreases |s|
  {
    if s == [] then [] else Insert(s[|s| - 1], SortedByScore(s[..|s| - 1]))
  }

  lemma {:induction false} WithScoreAppend(a: seq<ScoredChunk>, b: seq<ScoredChunk>, v: nat)
    ensures WithScore(a + b, v) == WithScore(a, v) + WithScore(b, v)
    decreases |b|
  {
    if b == [] {
      assert a + b == a;
    } else {
      assert (a + b)[..|a + b| - 1] == a + b[..|b| - 1];
      WithScoreAppend(a, b[..|b| - 1], v);
    }
  }

  lemma {:induction false} InsertPermutes(x: ScoredChunk, s: seq<ScoredChunk>)
    ensures multiset(Insert(x, s)) == multiset(s) + multiset{x}
    decreases |s|
  {
    if s != [] && s[|s| - 1].score < x.score {
      InsertPermutes(x, s[..|s| - 1]);
      assert s == s[..|s| - 1] + [s[|s| - 1]];
    }
  }

  lemma {:induction false} InsertOrdered(x: ScoredChunk, s: seq<ScoredChunk>)
    requires NonIncreasing(s)
    ensures NonIncreasing(Insert(x, s))
    decreases |s|
  {
    if s != [] && s[|s| - 1].score < x.score {
      var init := s[..|s| - 1];
      InsertOrdered(x, init);
      InsertAtLeast(x, init, s[|s| - 1].score);
    }
  }

  /** Inserting keeps a common lower bound on the scores. */
  lemma {:induction false} InsertAtLeast(x: ScoredChunk, s: seq<ScoredChunk>, m: nat)
    requires x.score >= m && forall i :: 0 <= i < |s| ==> s[i].score >= m
    ensures forall i :: 0 <= i < |Insert(x, s)| ==> Insert(x, s)[i].score >= m
    decreases |s|
  {
    if s != [] && s[|s| - 1].score < x.score {
      InsertAtLeast(x, s[..|s| - 1], m);
    }
  }

  /** Inserting `x` adds it at the end of its own score class and changes no
      other score class. */
  lemma {:induction false} InsertWithScore(x: ScoredChunk, s: seq<ScoredChunk>, v: nat)
    ensures WithScore(Insert(x, s), v) == WithScore(s, v) + (if x.score == v then [x] else [])
    decreases |s|
  {
    if s == [] {
      WithScoreSnoc([], x, v);
    } else {
      var init := s[..|s| - 1];
      var last := s[|s| - 1];
      assert s == init + [last];
      if last.score < x.score {
        var ins := Insert(x, init);
        assert Insert(x, s) == ins + [last];
        InsertWithScore(x, init, v);
        WithScoreSnoc(ins, last, v);
        WithScoreSnoc(init, last, v);
        if x.score == v {
          assert last.score != v;
        }
      } else {
        assert Insert(x, s) == s + [x];
        WithScoreSnoc(s, x, v);
      }
    }
  }

  lemma WithScoreSnoc(s: seq<ScoredChunk>, y: ScoredChunk, v: nat)
    ensures WithScore(s + [y], v) == WithScore(s, v) + (if y.score == v then [y] else [])
  {
    assert (s + [y])[..|s|] == s;
  }

  /** The sort is a permutation. */
  lemma {:induction false} SortPermutes(s: seq<ScoredChunk>)
    ensures multiset(SortedByScore(s)) == multiset(s)
    decreases |s|
  {
    if s != [] {
      var init := s[..|s| - 1];
      var last := s[|s| - 1];
      SortPermutes(init);
      InsertPermutes(last, SortedByScore(init));
      assert SortedByScore(s) == Insert(last, SortedByScore(init));
      assert s == init + [last];
      assert multiset(s) == multiset(init) + multiset{last};
    }
  }

  /** The sort leaves scores in non-increasing order. */
  lemma {:induction false} SortOrders(s: seq<ScoredChunk>)
    ensures NonIncreasing(SortedByScore(s))
    decreases |s|
  {
    if s != [] {
      SortOrders(s[..|s| - 1]);
      InsertOrdered(s[|s| - 1], SortedByScore(s[..|s| - 1]));
    }
  }

  /** The sort is stable: chunks of equal score keep their input order. */
  lemma {:induction false} SortStable(s: seq<ScoredChunk>, v: nat)
    ensures WithScore(SortedByScore(s), v) == WithScore(s, v)
    decreases |s|
  {
    if s != [] {
      SortStable(s[..|s| - 1], v);
      InsertWithScore(s[|s| - 1], SortedByScore(s[..|s| - 1]), v);
    }
  }

  /** Order and stability determine the result: any non-increasing
      arrangement that keeps every score class in input order is the one
      `SortedByScore` builds, whichever stable algorithm produced it. */
  lemma {:induction false} SortUnique(t: seq<ScoredChunk>, s: seq<ScoredChunk>)
    requires NonIncreasing(t)
    requires forall v :: WithScore(t, v) == WithScore(s, v)
    ensures t == SortedByScore(s)
  {
    SortOrders(s);
    forall v ensures WithScore(t, v) == WithScore(SortedByScore(s), v) {
      SortStable(s, v);
    }
    SameClassesEqual(t, SortedByScore(s));
  }

  lemma {:induction false} SameClassesEqual(t: seq<ScoredChunk>, u: seq<ScoredChunk>)
    requires NonIncreasing(t) && NonIncreasing(u)
    requires forall v :: WithScore(t, v) == WithScore(u, v)
    ensures t == u
    decreases |t| + |u|
  {
    if t == [] || u == [] {
      if t != [] {
        WithScoreLast(t, t[|t| - 1].score);
        assert false;
      } else if u != [] {
        WithScoreLast(u, u[|u| - 1].score);
        assert false;
      }
    } else {
      var a, b := t[|t| - 1], u[|u| - 1];
      var t', u' := t[..|t| - 1], u[..|u| - 1];
      if a.score < b.score {
        WithScoreLast(t, a.score);
        LowBelowAll(u, a.score);
        assert false;
      } else if b.score < a.score {
        WithScoreLast(u, b.score);
        LowBelowAll(t, b.score);
        assert false;
      } else {
        WithScoreLast(t, a.score);
        WithScoreLast(u, a.score);
        assert a == WithScore(t, a.score)[|WithScore(t, a.score)| - 1] == b;
        forall v ensures WithScore(t', v) == WithScore(u', v) {
          WithScoreLast(t, v);
          WithScoreLast(u, v);
          var e := if a.score == v then [a] else [];
          assert WithScore(t', v) == WithScore(t, v)[..|WithScore(t, v)| - |e|];
          assert WithScore(u', v) == WithScore(u, v)[..|WithScore(u, v)| - |e|];
        }
        NonIncreasingPrefix(t);
        NonIncreasingPrefix(u);
        SameClassesEqual(t', u');
        assert t == t' + [a] && u == u' + [b];
      }
    }
  }

  /** In a non-increasing sequence whose scores are all above `v`, the
      class of `v` is empty. */
  lemma {:induction false} LowBelowAll(s: seq<ScoredChunk>, v: nat)
    requires NonIncreasing(s) && s != [] && v < s[|s| - 1].score
    ensures WithScore(s, v) == []
    decreases |s|
  {
    if |s| > 1 {
      NonIncreasingPrefix(s);
      LowBelowAll(s[..|s| - 1], v);
    } else {
      assert s[..0] == [];
    }
  }

  lemma WithScoreLast(s: seq<ScoredChunk>, v: nat)
    requires s != []
    ensures WithScore(s, v) == WithScore(s[..|s| - 1], v) + (if s[|s| - 1].score == v then [s[|s| - 1]] else [])
  {
  }

  lemma NonIncreasingPrefix(s: seq<ScoredChunk>)
    requires NonIncreasing(s) && s != []
    ensures NonIncreasing(s[..|s| - 1])
  {
  }

  /** `scoredChunks.sort((a, b) => b.score - a.score)`, in place: insertion
      sort moving each chunk left past strictly lower scores only. */
  method SortByScore(a: array<ScoredChunk>)
    modifies a
    ensures a[..] == SortedByScore(old(a[..]))
  {
    ghost var input := a[..];
    var i := 0;
    while i < a.Length
      invariant 0 <= i <= a.Length
      invariant a[..i] == SortedByScore(input[..i])
      invariant forall k :: i <= k < a.Length ==> a[k] == input[k]
    {
      ghost var prefix := a[..i];
      ghost var next := a[i];
      InsertNext(a, i);
      assert a[..i + 1] == Insert(next, prefix);
      assert input[..i + 1][..i] == input[..i];
      assert SortedByScore(input[..i + 1]) == Insert(input[i], SortedByScore(input[..i]));
      i := i + 1;
    }
    assert a[..] == a[..a.Length];
    assert input == input[..a.Length];
  }

  /** One pass of the insertion sort: `a[i]` moves left past the strictly
      lower scores of the sorted prefix `a[..i]`. */
  method InsertNext(a: array<ScoredChunk>, i: nat)
    requires i < a.Length
    modifies a
    ensures a[..i + 1] == Insert(old(a[i]), old(a[..i]))
    ensures forall k :: i < k < a.Length ==> a[k] == old(a[k])
  {
    ghost var sorted := a[..i];
    var x := a[i];
    var j := i;
    while j > 0 && a[j - 1].score < x.score
      invariant 0 <= j <= i
      invariant forall k :: 0 <= k < j ==> a[k] == sorted[k]
      invariant forall k :: j < k <= i ==> a[k] == sorted[k - 1]
      invariant forall k :: i < k < a.Length ==> a[k] == old(a[k])
      invariant forall k :: j <= k < i ==> sorted[k].score < x.score
    {
      a[j] := a[j - 1];
      j := j - 1;
    }
    a[j] := x;
    InsertAt(x, sorted, j);
    Splice(a[..i + 1], sorted, x, j);
  }

  /** A sequence that agrees with `s` before `j`, holds `x` at `j` and `s`
      shifted by one after it is `s` with `x` spliced in at `j`. */
  lemma Splice(b: seq<ScoredChunk>, s: seq<ScoredChunk>, x: ScoredChunk, j: nat)
    requires |b| == |s| + 1 && j <= |s| && b[j] == x
    requires forall k :: 0 <= k < j ==> b[k] == s[k]
    requires forall k :: j < k < |b| ==> b[k] == s[k - 1]
    ensures b == s[..j] + [x] + s[j..]
  {
  }

  /** Where `Insert` puts `x`: after the first `j` elements, when those end
      with a score of at least `x`'s and all later ones score lower. */
  lemma {:induction false} InsertAt(x: ScoredChunk, s: seq<ScoredChunk>, j: nat)
    requires j <= |s|
    requires j > 0 ==> s[j - 1].score >= x.score
    requires forall k :: j <= k < |s| ==> s[k].score < x.score
    ensures Insert(x, s) == s[..j] + [x] + s[j..]
    decreases |s|
  {
    if j < |s| {
      var init := s[..|s| - 1];
      InsertAt(x, init, j);
      assert init[..j] == s[..j] && s[j..] == init[j..] + [s[|s| - 1]];
    } else {
      assert s[..j] == s;
    }
  }

  // =====================================================================
  // Top five with a non-zero score (App.tsx:52-65)
  // =====================================================================

  function Take(s: seq<ScoredChunk>, n: nat): (r: seq<ScoredChunk>)
    ensures r <= s && |r| == Min(n, |s|)
  {
    s[..Min(n, |s|)]
  }

  /** `filter(c => c.score > 0)`. */
  function KeepPositive(s: seq<ScoredChunk>): (r: seq<ScoredChunk>)
    ensures forall c :: c in r <==> c in s && c.score > 0
    decreases |s|
  {
    if s == [] then []
    else (if s[0].score > 0 then [s[0]] else []) + KeepPositive(s[1..])
  }

  /** What `retrieveRelevantChunks(query, allChunks)` returns. */
  function Retrieved(query: string, chunks: seq<Chunk>): seq<ScoredChunk> {
    var qw := QueryWords(query);
    if |qw| == 0 then []
    else KeepPositive(Take(SortedByScore(ScoreAll(qw, chunks)), TopK))
  }

  method RetrieveRelevantChunks(query: string, allChunks: seq<Chunk>) returns (relevant: seq<ScoredChunk>)
    ensures relevant == Retrieved(query, allChunks)
  {
    var queryWords := QueryWords(query);
    if |queryWords| == 0 {
      return [];
    }
    var scored := ScoreAll(queryWords, allChunks);
    var a := new ScoredChunk[|scored|](k requires 0 <= k < |scored| => scored[k]);
    assert a[..] == scored;
    SortByScore(a);
    relevant := KeepPositive(Take(a[..], TopK));
  }

  /** Every chunk of the input with its score against the query's words. */
  function Scored(query: string, chunks: seq<Chunk>): seq<ScoredChunk> {
    ScoreAll(QueryWords(query), chunks)
  }

  /** Filtering a non-increasing sequence keeps a prefix: the positive
      scores come first, and everything after them scores zero. */
  lemma {:induction false} KeepPositiveOfOrdered(s: seq<ScoredChunk>)
    requires NonIncreasing(s)
    ensures KeepPositive(s) <= s
    ensures forall k :: |KeepPositive(s)| <= k < |s| ==> s[k].score == 0
    decreases |s|
  {
    if s != [] {
      if s[0].score > 0 {
        KeepPositiveOfOrdered(s[1..]);
      } else {
        KeepPositiveOfZero(s[1..]);
      }
    }
  }

  lemma {:induction false} KeepPositiveOfZero(s: seq<ScoredChunk>)
    requires forall k :: 0 <= k < |s| ==> s[k].score == 0
    ensures KeepPositive(s) == []
    decreases |s|
  {
    if s != [] {
      KeepPositiveOfZero(s[1..]);
    }
  }

  /** The result is the first entries of the sorted scores: at most five,
      all positive, and when fewer than five, every later entry scores 0. */
  lemma RetrievedPrefix(query: string, chunks: seq<Chunk>)
    ensures var sorted := SortedByScore(Scored(query, chunks));
      var r := Retrieved(query, chunks);
      r <= sorted && |r| <= TopK &&
      (forall k :: 0 <= k < |r| ==> r[k].score > 0) &&
      (|r| < TopK ==> forall k :: |r| <= k < |sorted| ==> sorted[k].score == 0)
  {
    var sorted := SortedByScore(Scored(query, chunks));
    SortOrders(Scored(query, chunks));
    var r := Retrieved(query, chunks);
    if |QueryWords(query)| == 0 {
      forall k | 0 <= k < |sorted| ensures sorted[k].score == 0 {
        ScoreOfSorted(query, chunks, sorted[k]);
      }
    } else {
      var t := Take(sorted, TopK);
      KeepPositiveOfOrdered(t);
      forall k | 0 <= k < |r| ensures r[k].score > 0 {
        assert r[k] in r;
      }
      if |r| < TopK {
        forall k | |r| <= k < |sorted| ensures sorted[k].score == 0 {
          if k >= |t| {
            assert sorted[|r|] == t[|r|];
          }
        }
      }
    }
  }

  /** Every entry of the sorted scores is an input chunk with its score. */
  lemma ScoreOfSorted(query: string, chunks: seq<Chunk>, c: ScoredChunk)
    requires c in SortedByScore(Scored(query, chunks))
    ensures c.score == Score(QueryWords(query), c.text) <= |QueryWords(query)|
    ensures Chunk(c.id, c.text) in chunks
  {
    var scored := Scored(query, chunks);
    SortPermutes(scored);
    assert c in multiset(SortedByScore(scored));
    var m :| 0 <= m < |scored| && scored[m] == c;
    assert chunks[m] == Chunk(c.id, c.text);
  }

  /** At most five chunks come back, each with a positive score that is the
      number of query words it contains, so at most the number of query
      words. */
  lemma RetrievedBounds(query: string, chunks: seq<Chunk>)
    ensures |Retrieved(query, chunks)| <= TopK
    ensures forall c :: c in Retrieved(query, chunks) ==>
      0 < c.score == Score(QueryWords(query), c.text) <= |QueryWords(query)|
  {
    RetrievedPrefix(query, chunks);
    var sorted := SortedByScore(Scored(query, chunks));
    var r := Retrieved(query, chunks);
    forall c | c in r ensures 0 < c.score == Score(QueryWords(query), c.text) <= |QueryWords(query)| {
      var k :| 0 <= k < |r| && r[k] == c;
      assert sorted[k] == c;
      ScoreOfSorted(query, chunks, c);
    }
  }

  /** Scores never increase along the result, and chunks of equal score
      appear in the order of the input: the result's chunks of each score
      are the first ones of that score in the input. */
  lemma RetrievedOrdered(query: string, chunks: seq<Chunk>)
    ensures NonIncreasing(Retrieved(query, chunks))
    ensures forall v :: WithScore(Retrieved(query, chunks), v) <= WithScore(Scored(query, chunks), v)
  {
    RetrievedPrefix(query, chunks);
    var scored := Scored(query, chunks);
    SortOrders(scored);
    forall v ensures WithScore(SortedByScore(scored), v) == WithScore(scored, v) {
      SortStable(scored, v);
    }
    PrefixOrdered(Retrieved(query, chunks), SortedByScore(scored), scored);
  }

  lemma PrefixOrdered(r: seq<ScoredChunk>, sorted: seq<ScoredChunk>, scored: seq<ScoredChunk>)
    requires r <= sorted && NonIncreasing(sorted)
    requires forall v :: WithScore(sorted, v) == WithScore(scored, v)
    ensures NonIncreasing(r)
    ensures forall v :: WithScore(r, v) <= WithScore(scored, v)
  {
    assert sorted == r + sorted[|r|..];
    forall v ensures WithScore(r, v) <= WithScore(scored, v) {
      WithScoreAppend(r, sorted[|r|..], v);
    }
  }

  /** No chunk left out scores more than a returned one, and when fewer than
      five come back, every chunk left out scores 0. */
  lemma RetrievedBest(query: string, chunks: seq<Chunk>)
    ensures forall c :: c in multiset(Scored(query, chunks)) - multiset(Retrieved(query, chunks)) ==>
      (forall d :: d in Retrieved(query, chunks) ==> c.score <= d.score) &&
      (|Retrieved(query, chunks)| < TopK ==> c.score == 0)
  {
    RetrievedPrefix(query, chunks);
    var scored := Scored(query, chunks);
    SortOrders(scored);
    SortPermutes(scored);
    PrefixBest(Retrieved(query, chunks), SortedByScore(scored), scored);
  }

  lemma PrefixBest(r: seq<ScoredChunk>, sorted: seq<ScoredChunk>, scored: seq<ScoredChunk>)
    requires r <= sorted && NonIncreasing(sorted) && multiset(sorted) == multiset(scored)
    requires |r| < TopK ==> forall k :: |r| <= k < |sorted| ==> sorted[k].score == 0
    ensures forall c :: c in multiset(scored) - multiset(r) ==>
      (forall d :: d in r ==> c.score <= d.score) && (|r| < TopK ==> c.score == 0)
  {
    var rest := sorted[|r|..];
    assert sorted == r + rest;
    MultisetRest(r, rest);
    forall c: ScoredChunk | c in multiset(scored) - multiset(r)
      ensures (forall d: ScoredChunk :: d in r ==> c.score <= d.score) && (|r| < TopK ==> c.score == 0)
    {
      assert c in multiset(rest);
      RestBelow(r, sorted, c);
    }
  }

  /** An entry of `sorted` after its prefix `r` scores no more than any entry
      of `r`, and zero when `r` stopped short of the top five. */
  lemma RestBelow(r: seq<ScoredChunk>, sorted: seq<ScoredChunk>, c: ScoredChunk)
    requires r <= sorted && NonIncreasing(sorted) && c in sorted[|r|..]
    requires |r| < TopK ==> forall k :: |r| <= k < |sorted| ==> sorted[k].score == 0
    ensures (forall d :: d in r ==> c.score <= d.score) && (|r| < TopK ==> c.score == 0)
  {
    var rest := sorted[|r|..];
    var m :| 0 <= m < |rest| && rest[m] == c;
    assert sorted[|r| + m] == c;
    PrefixDominates(r, sorted, |r| + m);
  }

  lemma MultisetRest(r: seq<ScoredChunk>, rest: seq<ScoredChunk>)
    ensures multiset(r + rest) - multiset(r) == multiset(rest)
  {
  }

  lemma PrefixDominates(r: seq<ScoredChunk>, sorted: seq<ScoredChunk>, i: nat)
    requires r <= sorted && NonIncreasing(sorted) && |r| <= i < |sorted|
    ensures forall d :: d in r ==> sorted[i].score <= d.score
  {
    forall d | d in r ensures sorted[i].score <= d.score {
      var k :| 0 <= k < |r| && r[k] == d;
      assert sorted[k] == d;
    }
  }

  /** Every returned entry is a distinct input chunk with its id and text:
      as a multiset the result is contained in the scored input. */
  lemma RetrievedFromInput(query: string, chunks: seq<Chunk>)
    ensures multiset(Retrieved(query, chunks)) <= multiset(Scored(query, chunks))
    ensures forall c :: c in Retrieved(query, chunks) ==> Chunk(c.id, c.text) in chunks
  {
    RetrievedPrefix(query, chunks);
    var scored := Scored(query, chunks);
    var sorted := SortedByScore(scored);
    var r := Retrieved(query, chunks);
    SortPermutes(scored);
    assert sorted == r + sorted[|r|..];
    forall c | c in r ensures Chunk(c.id, c.text) in chunks {
      var k :| 0 <= k < |r| && r[k] == c;
      assert sorted[k] == c;
      ScoreOfSorted(query, chunks, c);
    }
  }

  /** Nothing comes back exactly when no chunk shares a word with the query;
      in particular when the query has no word longer than two characters. */
  lemma RetrievedEmpty(query: string, chunks: seq<Chunk>)
    ensures Retrieved(query, chunks) == [] <==>
      forall k :: 0 <= k < |chunks| ==> Score(QueryWords(query), chunks[k].text) == 0
    ensures QueryWords(query) == {} ==> Retrieved(query, chunks) == []
  {
    var scored := Scored(query, chunks);
    var r := Retrieved(query, chunks);
    if r == [] {
      RetrievedBest(query, chunks);
      forall k | 0 <= k < |chunks| ensures Score(QueryWords(query), chunks[k].text) == 0 {
        assert scored[k] in multiset(scored) - multiset(r);
      }
    } else if forall k :: 0 <= k < |chunks| ==> Score(QueryWords(query), chunks[k].text) == 0 {
      NothingShared(query, chunks);
    }
  }

  lemma NothingShared(query: string, chunks: seq<Chunk>)
    requires forall k :: 0 <= k < |chunks| ==> Score(QueryWords(query), chunks[k].text) == 0
    ensures Retrieved(query, chunks) == []
  {
    var scored := Scored(query, chunks);
    var sorted := SortedByScore(scored);
    SortPermutes(scored);
    var t := Take(sorted, TopK);
    forall k | 0 <= k < |t| ensures t[k].score == 0 {
      assert t[k] in multiset(scored);
      assert t[k] in scored;
    }
    KeepPositiveOfZero(t);
  }

  /** Queries whose words are all at most two characters long retrieve
      nothing, whatever the chunks. */
  lemma ShortQueries(chunks: seq<Chunk>)
    ensures Retrieved("", chunks) == []
    ensures Retrieved("a bc", chunks) == []
  {
    assert Lower("") == "";
    assert SplitWhitespace("") == [""];
    assert QueryWords("") == {};
    assert Lower("a bc") == "a bc";
    assert SpaceIndex("a bc", 0) == Some(1);
    assert SpaceRunEnd("a bc", 1) == 2;
    assert "a bc"[..1] == "a" && "a bc"[2..] == "bc";
    assert SplitWhitespace("bc") == ["bc"];
    assert SplitWhitespace("a bc") == ["a", "bc"];
    assert QueryWords("a bc") == {};
  }

  // =====================================================================
  // Context string (App.tsx:75)
  // =====================================================================

  /** `relevantChunks.map(c => c.text).join('\n---\n')`. */
  function Context(relevant: seq<ScoredChunk>): (context: string)
    ensures relevant == [] ==> context == ""
    ensures |relevant| == 1 ==> context == relevant[0].text
  {
    Join(seq(|relevant|, k requires 0 <= k < |relevant| => relevant[k].text), ContextSeparator)
  }

  /** The context holds the retrieved texts in retrieval order: text `i`
      starts where the texts before it and their separators end, and is
      followed by the separator unless it is the last, which ends the
      context. An empty retrieval gives the empty context. */
  lemma ContextLayout(relevant: seq<ScoredChunk>, i: nat)
    requires i < |relevant|
    ensures var texts := seq(|relevant|, k requires 0 <= k < |relevant| => relevant[k].text);
      var at := JoinOffset(texts, ContextSeparator, i);
      var end := at + |relevant[i].text|;
      end <= |Context(relevant)| &&
      Context(relevant)[at..end] == relevant[i].text &&
      (i + 1 < |relevant| ==> end + 5 <= |Context(relevant)| && Context(relevant)[end..end + 5] == "\n---\n") &&
      (i + 1 == |relevant| ==> end == |Context(relevant)|)
  {
    var texts := seq(|relevant|, k requires 0 <= k < |relevant| => relevant[k].text);
    JoinAt(texts, ContextSeparator, i);
  }

  // =====================================================================
  // Screen state (App.tsx:96-100)
  // =====================================================================

  datatype AppState = Initial | Processing | Ready

  /** The screen state from the processing flag and the extracted text
      (`null` is `None`); an empty text counts as no text. */
  function AppStateOf(isProcessing: bool, pdfText: Option<string>): (state: AppState)
    ensures state == Processing <==> isProcessing
    ensures state == Ready <==> !isProcessing && pdfText.Some? && pdfText.value != ""
    ensures state == Initial <==> !isProcessing && (pdfText.None? || pdfText.value == "")
  {
    if isProcessing then Processing
    else if pdfText.Some? && pdfText.value != "" then Ready
    else Initial
  }
}
