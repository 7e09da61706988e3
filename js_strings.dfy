/** Models of the JavaScript string built-ins the chunker and the retriever
    rely on, over `seq<char>`: `split` with a string separator,
    `split(/\s+/)`, `Array.prototype.join`, `trim` and `toLowerCase`.
    `IndexOf`, the leftmost-occurrence search, defines where `split` cuts.
    Whitespace and case are the ASCII ones. */
module JsStrings {

  datatype Option<T> = None | Some(value: T)

  function Min(a: int, b: int): int { if a <= b then a else b }

  // ---------------------------------------------------------------------
  // Occurrences of a separator
  // ---------------------------------------------------------------------

  /** `sep` occurs in `s` starting at index `i`. */
  predicate OccursAt(s: string, sep: string, i: nat) {
    i + |sep| <= |s| && s[i..i + |sep|] == sep
  }

  ghost predicate Contains(s: string, sep: string) {
    exists i: nat :: OccursAt(s, sep, i)
  }

  /** The first occurrence of `sep` at or after `from`, the search that
      decides where `split` cuts. */
  function IndexOf(s: string, sep: string, from: nat): (r: Option<nat>)
    ensures r.Some? ==> from <= r.value && OccursAt(s, sep, r.value)
    ensures forall j: nat :: from <= j && (r.None? || j < r.value) ==> !OccursAt(s, sep, j)
    decreases |s| - from
  {
    if from + |sep| > |s| then None
    else if s[from..from + |sep|] == sep then Some(from)
    else IndexOf(s, sep, from + 1)
  }

  // ---------------------------------------------------------------------
  // split and join
  // ---------------------------------------------------------------------

  /** `s.split(sep)` for a non-empty string separator: cut at the leftmost
      occurrence, then split the rest. `"".split(sep)` is `[""]`. */
  function Split(s: string, sep: string): (parts: seq<string>)
    requires sep != ""
    ensures |parts| >= 1
    decreases |s|
  {
    match IndexOf(s, sep, 0)
    case None => [s]
    case Some(i) => [s[..i]] + Split(s[i + |sep|..], sep)
  }

  /** `parts.join(sep)`. */
  function Join(parts: seq<string>, sep: string): string
    decreases |parts|
  {
    if parts == [] then ""
    else if |parts| == 1 then parts[0]
    else parts[0] + sep + Join(parts[1..], sep)
  }

  /** Where `parts[i]` starts in `Join(parts, sep)`. */
  function JoinOffset(parts: seq<string>, sep: string, i: nat): nat
    requires i <= |parts|
    decreases i
  {
    if i == 0 then 0 else |parts[0]| + |sep| + JoinOffset(parts[1..], sep, i - 1)
  }

  lemma JoinAppend(parts: seq<string>, x: string, sep: string)
    requires parts != []
    ensures Join(parts + [x], sep) == Join(parts, sep) + sep + x
    decreases |parts|
  {
    if |parts| == 1 {
      assert parts + [x] == [parts[0], x];
      assert (parts + [x])[1..] == [x];
    } else {
      assert (parts + [x])[1..] == parts[1..] + [x];
      JoinAppend(parts[1..], x, sep);
    }
  }

  /** Joining the parts of a split gives the input back. */
  lemma {:induction false} JoinSplit(s: string, sep: string)
    requires sep != ""
    ensures Join(Split(s, sep), sep) == s
    decreases |s|
  {
    match IndexOf(s, sep, 0)
    case None =>
    case Some(i) =>
      var rest := s[i + |sep|..];
      var tail := Split(rest, sep);
      JoinSplit(rest, sep);
      assert Split(s, sep) == [s[..i]] + tail;
      assert ([s[..i]] + tail)[1..] == tail;
      assert OccursAt(s, sep, i);
      assert s == s[..i] + s[i..i + |sep|] + rest;
  }

  /** No part of a split contains the separator. */
  lemma {:induction false} SplitPartsFree(s: string, sep: string)
    requires sep != ""
    ensures forall p :: p in Split(s, sep) ==> !Contains(p, sep)
    decreases |s|
  {
    match IndexOf(s, sep, 0)
    case None =>
      assert Split(s, sep) == [s];
    case Some(i) =>
      var head := s[..i];
      forall j: nat ensures !OccursAt(head, sep, j) {
        if j + |sep| <= i {
          HeadFree(s, sep, i, j);
        }
      }
      SplitPartsFree(s[i + |sep|..], sep);
      assert Split(s, sep) == [head] + Split(s[i + |sep|..], sep);
  }

  /** Before the first occurrence `i`, the prefix `s[..i]` has none. */
  lemma HeadFree(s: string, sep: string, i: nat, j: nat)
    requires sep != "" && IndexOf(s, sep, 0) == Some(i) && j + |sep| <= i
    ensures !OccursAt(s[..i], sep, j)
  {
    assert s[..i][j..j + |sep|] == s[j..j + |sep|];
    assert 0 <= j < i;
    assert !OccursAt(s, sep, j);
  }

  /** The `i`-th part of a join sits at `JoinOffset(parts, sep, i)`, followed
      by the separator unless it is the last, which ends the string. */
  lemma {:induction false} JoinAt(parts: seq<string>, sep: string, i: nat)
    requires i < |parts|
    ensures JoinOffset(parts, sep, i) + |parts[i]| <= |Join(parts, sep)|
    ensures Join(parts, sep)[JoinOffset(parts, sep, i)..JoinOffset(parts, sep, i) + |parts[i]|] == parts[i]
    ensures i + 1 < |parts| ==>
      JoinOffset(parts, sep, i) + |parts[i]| + |sep| <= |Join(parts, sep)| &&
      Join(parts, sep)[JoinOffset(parts, sep, i) + |parts[i]|..JoinOffset(parts, sep, i) + |parts[i]| + |sep|] == sep
    ensures i + 1 == |parts| ==> JoinOffset(parts, sep, i) + |parts[i]| == |Join(parts, sep)|
    decreases i
  {
    if i == 0 {
      assert JoinOffset(parts, sep, i) == 0;
      JoinAtHead(parts, sep);
    } else {
      var whole := Join(parts, sep);
      var rest := Join(parts[1..], sep);
      var o := JoinOffset(parts[1..], sep, i - 1);
      JoinAt(parts[1..], sep, i - 1);
      assert parts[1..][i - 1] == parts[i];
      assert whole == (parts[0] + sep) + rest;
      assert JoinOffset(parts, sep, i) == |parts[0] + sep| + o;
      SliceShift(whole, parts[0] + sep, rest, o, parts[i], sep, i + 1 == |parts|);
    }
  }

  /** What holds at offset `o` of `rest` holds at `|prefix| + o` of
      `prefix + rest`. */
  lemma SliceShift(whole: string, prefix: string, rest: string, o: nat, part: string, sep: string, last: bool)
    requires whole == prefix + rest
    requires o + |part| <= |rest| && rest[o..o + |part|] == part
    requires !last ==> o + |part| + |sep| <= |rest| && rest[o + |part|..o + |part| + |sep|] == sep
    requires last ==> o + |part| == |rest|
    ensures var start := |prefix| + o;
      start + |part| <= |whole| && whole[start..start + |part|] == part &&
      (!last ==> start + |part| + |sep| <= |whole| && whole[start + |part|..start + |part| + |sep|] == sep) &&
      (last ==> start + |part| == |whole|)
  {
    ShiftSlice(whole, prefix, rest, o, o + |part|);
    if !last {
      ShiftSlice(whole, prefix, rest, o + |part|, o + |part| + |sep|);
    }
  }

  lemma ShiftSlice(whole: string, prefix: string, rest: string, a: nat, b: nat)
    requires whole == prefix + rest && a <= b <= |rest|
    ensures whole[|prefix| + a..|prefix| + b] == rest[a..b]
  {
  }

  /** The first part of a join starts it, followed by the separator unless
      it is the only part. */
  lemma JoinAtHead(parts: seq<string>, sep: string)
    requires parts != []
    ensures |parts[0]| <= |Join(parts, sep)| && Join(parts, sep)[0..|parts[0]|] == parts[0]
    ensures 1 < |parts| ==>
      |parts[0]| + |sep| <= |Join(parts, sep)| && Join(parts, sep)[|parts[0]|..|parts[0]| + |sep|] == sep
    ensures |parts| == 1 ==> |parts[0]| == |Join(parts, sep)|
  {
    var whole := Join(parts, sep);
    if 1 < |parts| {
      assert whole == parts[0] + sep + Join(parts[1..], sep);
      assert whole[0..|parts[0]|] == parts[0];
      assert whole[|parts[0]|..|parts[0]| + |sep|] == sep;
    }
  }

  // ---------------------------------------------------------------------
  // Whitespace
  // ---------------------------------------------------------------------

  /** ASCII whitespace: space, tab, line feed, vertical tab, form feed, carriage return. */
  predicate IsSpace(c: char) {
    c == ' ' || c == '\t' || c == '\n' || c == '\U{B}' || c == '\U{C}' || c == '\r'
  }

  predicate IsBlank(s: string) {
    forall i :: 0 <= i < |s| ==> IsSpace(s[i])
  }

  /** `s.trimStart()`: the suffix left after dropping leading whitespace. */
  function TrimStart(s: string): (r: string)
    ensures |r| <= |s| && r == s[|s| - |r|..]
    ensures IsBlank(s[..|s| - |r|])
    ensures r == [] || !IsSpace(r[0])
  {
    s[SpaceRunEnd(s, 0)..]
  }

  /** The start of the whitespace run that ends at `j`. */
  function SpaceRunStart(s: string, j: nat): (r: nat)
    requires j <= |s|
    ensures r <= j
    ensures r > 0 ==> !IsSpace(s[r - 1])
    ensures forall i :: r <= i < j ==> IsSpace(s[i])
    decreases j
  {
    if j > 0 && IsSpace(s[j - 1]) then SpaceRunStart(s, j - 1) else j
  }

  /** `s.trimEnd()`: the prefix left after dropping trailing whitespace. */
  function TrimEnd(s: string): (r: string)
    ensures |r| <= |s| && r == s[..|r|]
    ensures IsBlank(s[|r|..])
    ensures r == [] || !IsSpace(r[|r| - 1])
  {
    s[..SpaceRunStart(s, |s|)]
  }

  /** `s.trim()`: an infix of `s` with no whitespace at either end, and
      empty exactly when `s` is all whitespace. */
  function Trim(s: string): (r: string)
    ensures exists k :: 0 <= k <= |s| - |r| && r == s[k..k + |r|] && IsBlank(s[..k]) && IsBlank(s[k + |r|..])
    ensures r == [] || (!IsSpace(r[0]) && !IsSpace(r[|r| - 1]))
    ensures r == [] <==> IsBlank(s)
  {
    TrimCut(s);
    TrimEnds(s);
    TrimEnd(TrimStart(s))
  }

  lemma TrimCut(s: string)
    ensures var r := TrimEnd(TrimStart(s));
      exists k :: 0 <= k <= |s| - |r| && r == s[k..k + |r|] && IsBlank(s[..k]) && IsBlank(s[k + |r|..])
  {
    CutOf(s, TrimStart(s), TrimEnd(TrimStart(s)));
  }

  lemma TrimEnds(s: string)
    ensures var r := TrimEnd(TrimStart(s));
      (r == [] || (!IsSpace(r[0]) && !IsSpace(r[|r| - 1]))) && (r == [] <==> IsBlank(s))
  {
    TrimInfix(s);
    TrimBlank(s);
  }

  /** A blank prefix cut off `s` leaves `t`, a blank suffix cut off `t`
      leaves `r`: then `r` sits at `|s| - |t|` between the two blank cuts. */
  lemma CutOf(s: string, t: string, r: string)
    requires |t| <= |s| && t == s[|s| - |t|..] && IsBlank(s[..|s| - |t|])
    requires |r| <= |t| && r == t[..|r|] && IsBlank(t[|r|..])
    ensures exists k :: 0 <= k <= |s| - |r| && r == s[k..k + |r|] && IsBlank(s[..k]) && IsBlank(s[k + |r|..])
  {
    var k := |s| - |t|;
    assert s[k..][..|r|] == s[k..k + |r|];
    assert s[k + |r|..] == t[|r|..];
    assert 0 <= k <= |s| - |r| && r == s[k..k + |r|] && IsBlank(s[..k]) && IsBlank(s[k + |r|..]);
  }

  lemma BlankAppend(a: string, b: string)
    requires IsBlank(a) && IsBlank(b)
    ensures IsBlank(a + b)
  {
  }

  lemma TrimInfix(s: string)
    ensures var t := TrimStart(s); var r := TrimEnd(t);
      r == [] || r[0] == t[0]
  {
    var t := TrimStart(s);
    var n := SpaceRunStart(t, |t|);
    assert TrimEnd(t) == t[..n];
  }

  lemma TrimBlank(s: string)
    ensures TrimEnd(TrimStart(s)) == [] <==> IsBlank(s)
  {
    var t := TrimStart(s);
    var k := |s| - |t|;
    TrimStartEmpty(s);
    TrimEndEmpty(t);
    if IsBlank(t) {
      assert s == s[..k] + t;
      BlankAppend(s[..k], t);
    }
  }

  lemma TrimStartEmpty(s: string)
    ensures TrimStart(s) == [] <==> IsBlank(s)
  {
    var t := TrimStart(s);
    if t != [] {
      assert t[0] == s[|s| - |t|];
    } else {
      assert s[..|s|] == s;
    }
  }

  lemma TrimEndEmpty(t: string)
    ensures TrimEnd(t) == [] <==> IsBlank(t)
  {
    var r := TrimEnd(t);
    if r != [] {
      assert r[|r| - 1] == t[|r| - 1];
    } else {
      assert t[|r|..] == t;
    }
  }

  /** `s.split(/\s+/)`: cut at each maximal whitespace run. Leading or
      trailing whitespace yields an empty first or last part, and `""`
      yields `[""]`. */
  function SplitWhitespace(s: string): (parts: seq<string>)
    ensures |parts| >= 1
    decreases |s|
  {
    match SpaceIndex(s, 0)
    case None => [s]
    case Some(i) =>
      var j := SpaceRunEnd(s, i);
      [s[..i]] + SplitWhitespace(s[j..])
  }

  function SpaceIndex(s: string, from: nat): (r: Option<nat>)
    ensures r.Some? ==> from <= r.value < |s| && IsSpace(s[r.value])
    ensures forall j :: from <= j < |s| && (r.None? || j < r.value) ==> !IsSpace(s[j])
    decreases |s| - from
  {
    if from >= |s| then None
    else if IsSpace(s[from]) then Some(from)
    else SpaceIndex(s, from + 1)
  }

  /** The end of the whitespace run that starts at `i`. */
  function SpaceRunEnd(s: string, i: nat): (r: nat)
    requires i <= |s|
    ensures i <= r <= |s|
    ensures r < |s| ==> !IsSpace(s[r])
    ensures forall j :: i <= j < r ==> IsSpace(s[j])
    decreases |s| - i
  {
    if i < |s| && IsSpace(s[i]) then SpaceRunEnd(s, i + 1) else i
  }

  /** `s` with every whitespace character removed. */
  function RemoveSpaces(s: string): string
    decreases |s|
  {
    if s == [] then []
    else (if IsSpace(s[0]) then [] else [s[0]]) + RemoveSpaces(s[1..])
  }

  function Concat(parts: seq<string>): string
    decreases |parts|
  {
    if parts == [] then [] else parts[0] + Concat(parts[1..])
  }

  lemma RemoveSpacesAppend(a: string, b: string)
    ensures RemoveSpaces(a + b) == RemoveSpaces(a) + RemoveSpaces(b)
    decreases |a|
  {
    if a != [] {
      assert (a + b)[1..] == a[1..] + b;
      RemoveSpacesAppend(a[1..], b);
    } else {
      assert a + b == b;
    }
  }

  lemma RemoveSpacesOfWord(s: string)
    requires forall k :: 0 <= k < |s| ==> !IsSpace(s[k])
    ensures RemoveSpaces(s) == s
    decreases |s|
  {
    if s != [] { RemoveSpacesOfWord(s[1..]); }
  }

  lemma RemoveSpacesOfBlank(s: string)
    requires IsBlank(s)
    ensures RemoveSpaces(s) == []
    decreases |s|
  {
    if s != [] { RemoveSpacesOfBlank(s[1..]); }
  }

  /** The parts of `split(/\s+/)` hold no whitespace and use only
      characters of the input. */
  lemma {:induction false} SplitWhitespaceWords(s: string)
    ensures forall p, k :: p in SplitWhitespace(s) && 0 <= k < |p| ==> !IsSpace(p[k]) && p[k] in s
    decreases |s|
  {
    match SpaceIndex(s, 0)
    case None =>
      assert SplitWhitespace(s) == [s];
    case Some(i) =>
      var rest := s[SpaceRunEnd(s, i)..];
      var tail := SplitWhitespace(rest);
      SplitWhitespaceWords(rest);
      assert SplitWhitespace(s) == [s[..i]] + tail;
      forall p, k | p in SplitWhitespace(s) && 0 <= k < |p|
        ensures !IsSpace(p[k]) && p[k] in s
      {
        if p == s[..i] {
          assert p[k] == s[k];
        } else {
          assert p in tail;
          assert p[k] in rest;
        }
      }
  }

  /** Together the parts of `split(/\s+/)` hold exactly the input's
      non-whitespace characters, in order. */
  lemma {:induction false} SplitWhitespaceConcat(s: string)
    ensures Concat(SplitWhitespace(s)) == RemoveSpaces(s)
    decreases |s|
  {
    match SpaceIndex(s, 0)
    case None =>
      assert SplitWhitespace(s) == [s];
      assert Concat([s]) == s + Concat([]);
      RemoveSpacesOfWord(s);
    case Some(i) =>
      var j := SpaceRunEnd(s, i);
      var rest := s[j..];
      var tail := SplitWhitespace(rest);
      SplitWhitespaceConcat(rest);
      assert SplitWhitespace(s) == [s[..i]] + tail;
      assert ([s[..i]] + tail)[1..] == tail;
      assert Concat(SplitWhitespace(s)) == s[..i] + Concat(tail);
      assert s == s[..i] + s[i..j] + rest;
      RemoveSpacesAppend(s[..i] + s[i..j], rest);
      RemoveSpacesAppend(s[..i], s[i..j]);
      RemoveSpacesOfWord(s[..i]);
      RemoveSpacesOfBlank(s[i..j]);
  }

  /** The whitespace runs `split(/\s+/)` cuts out, left to right. */
  function SpaceRuns(s: string): seq<string>
    decreases |s|
  {
    match SpaceIndex(s, 0)
    case None => []
    case Some(i) =>
      var j := SpaceRunEnd(s, i);
      [s[i..j]] + SpaceRuns(s[j..])
  }

  /** `parts[0] + gaps[0] + parts[1] + gaps[1] + ... + parts[n]`. */
  function Interleave(parts: seq<string>, gaps: seq<string>): string
    requires |parts| == |gaps| + 1
    decreases |gaps|
  {
    if gaps == [] then parts[0] else parts[0] + gaps[0] + Interleave(parts[1..], gaps[1..])
  }

  /** `split(/\s+/)` cuts at each maximal whitespace run and nowhere else:
      the runs it removes are non-empty and all whitespace, there is one
      fewer of them than parts, and putting them back between the parts
      gives the input. Only the first and the last part can be empty, so
      each run is maximal. With `SplitWhitespaceWords` (no part holds
      whitespace) this determines the split. */
  lemma {:induction false} SplitWhitespaceRoundTrip(s: string)
    ensures |SplitWhitespace(s)| == |SpaceRuns(s)| + 1
    ensures forall g :: g in SpaceRuns(s) ==> g != [] && IsBlank(g)
    ensures Interleave(SplitWhitespace(s), SpaceRuns(s)) == s
    ensures forall k :: 0 < k < |SplitWhitespace(s)| - 1 ==> SplitWhitespace(s)[k] != ""
    decreases |s|
  {
    match SpaceIndex(s, 0)
    case None =>
      assert SplitWhitespace(s) == [s];
    case Some(i) =>
      var j := SpaceRunEnd(s, i);
      var rest := s[j..];
      SplitWhitespaceRoundTrip(rest);
      var parts := SplitWhitespace(s);
      var gaps := SpaceRuns(s);
      var tail := SplitWhitespace(rest);
      assert parts == [s[..i]] + tail;
      assert gaps == [s[i..j]] + SpaceRuns(rest);
      assert parts[1..] == tail && gaps[1..] == SpaceRuns(rest);
      assert s == s[..i] + s[i..j] + rest;
      forall g | g in gaps
        ensures g != [] && IsBlank(g)
      {
        if g != s[i..j] {
          assert g in SpaceRuns(rest);
        }
      }
      SplitWhitespaceInner(s);
  }

  /** Every part of `split(/\s+/)` but the first and the last is non-empty. */
  lemma {:induction false} SplitWhitespaceInner(s: string)
    ensures forall k :: 0 < k < |SplitWhitespace(s)| - 1 ==> SplitWhitespace(s)[k] != ""
    decreases |s|
  {
    match SpaceIndex(s, 0)
    case None =>
      assert SplitWhitespace(s) == [s];
    case Some(i) =>
      var j := SpaceRunEnd(s, i);
      var rest := s[j..];
      SplitWhitespaceInner(rest);
      var parts := SplitWhitespace(s);
      var tail := SplitWhitespace(rest);
      assert parts == [s[..i]] + tail;
      if |tail| > 1 {
        assert rest != [];
        SplitWhitespaceHead(rest);
      }
      forall k | 0 < k < |parts| - 1
        ensures parts[k] != ""
      {
        assert parts[k] == tail[k - 1];
      }
  }

  /** A string that starts with a non-whitespace character has a
      non-empty first part. */
  lemma SplitWhitespaceHead(s: string)
    requires s != [] && !IsSpace(s[0])
    ensures SplitWhitespace(s)[0] != ""
  {
    match SpaceIndex(s, 0)
    case None =>
      assert SplitWhitespace(s) == [s];
    case Some(i) =>
      assert SplitWhitespace(s)[0] == s[..i];
  }

  // ---------------------------------------------------------------------
  // Case
  // ---------------------------------------------------------------------

  predicate IsUpper(c: char) { 'A' <= c <= 'Z' }

  function LowerChar(c: char): char {
    if IsUpper(c) then (c as int + 32) as char else c
  }

  /** `s.toLowerCase()` on ASCII letters. */
  function Lower(s: string): (r: string)
    ensures |r| == |s|
    ensures forall k :: 0 <= k < |r| ==> !IsUpper(r[k]) && (IsSpace(r[k]) <==> IsSpace(s[k]))
    ensures forall k :: 0 <= k < |s| && !IsUpper(s[k]) ==> r[k] == s[k]
    ensures forall k :: 0 <= k < |s| && IsUpper(s[k]) ==> r[k] as int == s[k] as int + 32
  {
    seq(|s|, k requires 0 <= k < |s| => LowerChar(s[k]))
  }
}
