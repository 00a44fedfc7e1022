/**
 Search snippets: finding the query token in a text under case folding, and
 cutting a window around it that ends on words where it can and on characters
 always. The folding unicode.ToLower is a parameter; a token is given as the
 folded code points it is compared by.
 */
module Snippet {
  import opened Common
  import opened Utf8

  const SNIPPET_HALF: nat := 250
  const SNIPPET_FALLBACK: nat := 500

  // ------------------------------------------------------------------
  // foldIndex
  // ------------------------------------------------------------------

  /** The end of an occurrence of the folded token at byte i, if there is one. */
  function MatchEnd(lower: int -> int, text: bytes, i: nat, token: seq<int>): (e: Option<nat>)
    requires i <= |text|
    ensures e.Some? ==> i <= e.value <= |text|
    decreases |token|
  {
    if token == [] then Some(i)
    else
      var r := DecodeRune(text[i..]);
      if r.size == 0 || lower(r.value) != token[0] then None
      else MatchEnd(lower, text, i + r.size, token[1..])
  }

  /** Decoding rune after rune from one offset comes to the other. */
  predicate Reaches(text: bytes, from: nat, to: nat)
    requires from <= |text|
    decreases |text| - from
  {
    from == to || (from < |text| && from < to && Reaches(text, from + DecodeRune(text[from..]).size, to))
  }

  /** Where the runes of the text begin. */
  predicate Aligned(text: bytes, i: nat) {
    Reaches(text, 0, i)
  }

  lemma {:induction false} ReachesNext(text: bytes, from: nat, to: nat)
    requires from <= to < |text| && Reaches(text, from, to)
    ensures to + DecodeRune(text[to..]).size <= |text|
    ensures Reaches(text, from, to + DecodeRune(text[to..]).size)
    decreases |text| - from
  {
    if from < to { ReachesNext(text, from + DecodeRune(text[from..]).size, to); }
  }

  /** Nothing aligned lies strictly between a rune and the next one. */
  lemma {:induction false} NoneBetween(text: bytes, from: nat, a: nat, b: nat)
    requires from <= a < |text| && Reaches(text, from, a)
    requires a < b < a + DecodeRune(text[a..]).size
    ensures !Reaches(text, from, b)
    decreases |text| - from
  {
    if from < a { NoneBetween(text, from + DecodeRune(text[from..]).size, a, b); }
  }

  method FoldIndex(lower: int -> int, text: bytes, token: seq<int>) returns (idx: int)
    ensures token == [] ==> idx == -1
    ensures idx < |text|
    ensures idx >= 0 ==> Aligned(text, idx) && MatchEnd(lower, text, idx, token).Some?
    ensures idx >= 0 ==> forall i :: 0 <= i < idx && Aligned(text, i) ==> MatchEnd(lower, text, i, token).None?
    ensures idx < 0 ==> idx == -1
    ensures idx < 0 && token != [] ==>
      forall i :: 0 <= i < |text| && Aligned(text, i) ==> MatchEnd(lower, text, i, token).None?
  {
    if token == [] {
      return -1;
    }
    var i := 0;
    while i < |text|
      invariant 0 <= i <= |text| && Aligned(text, i)
      invariant forall p :: 0 <= p < i && Aligned(text, p) ==> MatchEnd(lower, text, p, token).None?
    {
      var r := DecodeRune(text[i..]);
      if lower(r.value) == token[0] {
        var found := MatchesAt(lower, text, i, token);
        if found {
          return i;
        }
      }
      ReachesNext(text, 0, i);
      forall p | i < p < i + r.size ensures !Aligned(text, p) {
        NoneBetween(text, 0, i, p);
      }
      i := i + r.size;
    }
    return -1;
  }

  /** The inner loop of foldIndex. */
  method MatchesAt(lower: int -> int, text: bytes, i: nat, token: seq<int>) returns (found: bool)
    requires i <= |text|
    ensures found <==> MatchEnd(lower, text, i, token).Some?
  {
    var j, k := i, 0;
    while k < |token|
      invariant i <= j <= |text| && 0 <= k <= |token|
      invariant MatchEnd(lower, text, j, token[k..]) == MatchEnd(lower, text, i, token)
    {
      var r := DecodeRune(text[j..]);
      if r.size == 0 || lower(r.value) != token[k] {
        break;
      }
      assert token[k..][1..] == token[k + 1..];
      j := j + r.size;
      k := k + 1;
    }
    found := k == |token|;
  }

  /** The runes from one offset to the other, folded. */
  function FoldedRunes(lower: int -> int, text: bytes, from: nat, to: nat): seq<int>
    requires from <= to <= |text| && Reaches(text, from, to)
    decreases |text| - from
  {
    if from == to then []
    else
      var r := DecodeRune(text[from..]);
      ReachesIsOrdered(text, from + r.size, to);
      [lower(r.value)] + FoldedRunes(lower, text, from + r.size, to)
  }

  lemma {:induction false} ReachesIsOrdered(text: bytes, from: nat, to: nat)
    requires from <= |text| && Reaches(text, from, to)
    ensures from <= to <= |text|
    decreases |text| - from
  {
    if from != to {
      ReachesIsOrdered(text, from + DecodeRune(text[from..]).size, to);
    }
  }

  /** An occurrence runs from i to e exactly if the runes between them, folded, are the token. */
  lemma {:induction false} MatchEndIff(lower: int -> int, text: bytes, i: nat, token: seq<int>, e: nat)
    requires i <= e <= |text|
    ensures MatchEnd(lower, text, i, token) == Some(e) <==>
      Reaches(text, i, e) && FoldedRunes(lower, text, i, e) == token
    decreases |token|
  {
    hide DecodeRune;
    if i < e && Reaches(text, i, e) {
      FirstFolded(lower, text, i, e);
      if token != [] {
        var r := DecodeRune(text[i..]);
        MatchEndIff(lower, text, i + r.size, token[1..], e);
        assert token == [token[0]] + token[1..];
      }
    } else if token != [] && i < |text| {
      var r := DecodeRune(text[i..]);
      if i + r.size <= e {
        MatchEndIff(lower, text, i + r.size, token[1..], e);
      }
    }
  }

  lemma FirstFolded(lower: int -> int, text: bytes, i: nat, e: nat)
    requires i < e <= |text| && Reaches(text, i, e)
    ensures var r := DecodeRune(text[i..]);
      && i + r.size <= e && Reaches(text, i + r.size, e) && r.size > 0
      && FoldedRunes(lower, text, i, e) == [lower(r.value)] + FoldedRunes(lower, text, i + r.size, e)
  {
    hide DecodeRune;
    ReachesIsOrdered(text, i + DecodeRune(text[i..]).size, e);
  }

  lemma AlignedIff(text: bytes, i: nat)
    requires ValidUtf8(text) && i <= |text|
    ensures Aligned(text, i) <==> Boundary(text, i)
  {
    hide ValidUtf8;
    EndsAreBoundaries(text);
    AlignedIsBoundary(text, 0, i);
  }

  /** In a valid text the aligned offsets are its character boundaries. */
  lemma {:induction false} AlignedIsBoundary(text: bytes, from: nat, i: nat)
    requires ValidUtf8(text) && Boundary(text, from) && from <= i <= |text|
    ensures Reaches(text, from, i) <==> Boundary(text, i)
    decreases |text| - from
  {
    hide CharLen, ValidUtf8, DecodeRune;
    if from < i {
      NextBoundary(text, from);
      DecodeIsGrammar(text[from..]);
      var next := from + CharLen(text[from..]);
      if i < next {
        NoBoundaryInside(text, from, i);
      } else {
        AlignedIsBoundary(text, next, i);
      }
    }
  }

  /** An occurrence that begins on a boundary of a valid text ends on one. */
  lemma {:induction false} MatchEndsOnBoundary(lower: int -> int, text: bytes, i: nat, token: seq<int>)
    requires ValidUtf8(text) && Boundary(text, i) && MatchEnd(lower, text, i, token).Some?
    ensures Boundary(text, MatchEnd(lower, text, i, token).value)
    decreases |token|
  {
    hide CharLen, ValidUtf8, DecodeRune;
    if token != [] {
      DecodeIsGrammar(text[i..]);
      if i < |text| { NextBoundary(text, i); }
      MatchEndsOnBoundary(lower, text, i + DecodeRune(text[i..]).size, token[1..]);
    }
  }

  // ------------------------------------------------------------------
  // Words
  // ------------------------------------------------------------------

  predicate WordBreak(b: byte) {
    b == 32 || b == 10
  }

  /** A token as strings.Fields yields it: no space and no newline, whatever the folding. */
  predicate IsField(lower: int -> int, token: seq<int>) {
    lower(32) !in token && lower(10) !in token
  }

  predicate NoBreak(text: bytes, lo: nat, hi: nat)
    requires hi <= |text|
  {
    forall k :: lo <= k < hi ==> text[k] != 32 && text[k] != 10
  }

  /** strings.IndexAny(text[lo:hi], " \n") and LastIndexAny, as absolute offsets. */
  function FirstBreak(text: bytes, lo: nat, hi: nat): (p: Option<nat>)
    requires lo <= hi <= |text|
    ensures p.Some? ==> lo <= p.value < hi && WordBreak(text[p.value]) && NoBreak(text, lo, p.value)
    ensures p.None? ==> NoBreak(text, lo, hi)
    decreases hi - lo
  {
    if lo == hi then None
    else if WordBreak(text[lo]) then Some(lo)
    else FirstBreak(text, lo + 1, hi)
  }

  function LastBreak(text: bytes, lo: nat, hi: nat): (p: Option<nat>)
    requires lo <= hi <= |text|
    ensures p.Some? ==> lo <= p.value < hi && WordBreak(text[p.value]) && NoBreak(text, p.value + 1, hi)
    ensures p.None? ==> NoBreak(text, lo, hi)
    decreases hi - lo
  {
    if lo == hi then None
    else if WordBreak(text[hi - 1]) then Some(hi - 1)
    else LastBreak(text, lo, hi - 1)
  }

  lemma RuneBreaks(text: bytes, i: nat, k: nat)
    requires i < |text| && i <= k < i + DecodeRune(text[i..]).size && WordBreak(text[k])
    ensures k == i && DecodeRune(text[i..]).value == text[i]
  {
    var s := text[i..];
    assert text[k] == s[k - i];
  }

  /** A field's occurrence contains no space or newline. */
  lemma {:induction false} MatchHasNoBreak(lower: int -> int, text: bytes, i: nat, token: seq<int>)
    requires i <= |text| && IsField(lower, token) && MatchEnd(lower, text, i, token).Some?
    ensures NoBreak(text, i, MatchEnd(lower, text, i, token).value)
    decreases |token|
  {
    hide DecodeRune;
    if token != [] {
      var r := DecodeRune(text[i..]);
      MatchHasNoBreak(lower, text, i + r.size, token[1..]);
      forall k | i <= k < i + r.size ensures !WordBreak(text[k]) {
        if WordBreak(text[k]) {
          RuneBreaks(text, i, k);
        }
      }
    }
  }

  // ------------------------------------------------------------------
  // capBytes, snippetWindow
  // ------------------------------------------------------------------

  method CapBytes(s: bytes, n: nat) returns (r: bytes)
    ensures r <= s && |r| <= n
    ensures |s| <= n ==> r == s
    ensures |s| > n ==> r == s[..CutLen(s, n)]
    ensures ValidUtf8(s) ==> ValidUtf8(r)
  {
    hide ValidUtf8;
    if |s| <= n {
      return s;
    }
    var m := n;
    while m > 0 && !RuneStart(s[m])
      invariant 0 <= m <= n
      invariant CutLen(s, m) == CutLen(s, n)
    {
      m := m - 1;
    }
    if ValidUtf8(s) { CutIsLastBoundary(s, n); }
    return s[..m];
  }

  /**
   The window around the first occurrence. For any text it is a valid UTF-8
   slice; on a valid text it holds the whole occurrence of a field exactly when
   that takes at most 250 bytes, and of any other token unless it is cut at a
   break inside it.
   */
  method SnippetWindow(lower: int -> int, text: bytes, token: seq<int>) returns (w: bytes, ghost at: int, ghost from: nat)
    ensures from + |w| <= |text| && w == text[from..from + |w|]
    ensures ValidUtf8(text) ==> ValidUtf8(w)
    ensures at >= 0 ==> at < |text| && Aligned(text, at) && MatchEnd(lower, text, at, token).Some?
    ensures at >= 0 ==> forall i :: 0 <= i < at && Aligned(text, i) ==> MatchEnd(lower, text, i, token).None?
    ensures at < 0 && token != [] ==>
      forall i :: 0 <= i < |text| && Aligned(text, i) ==> MatchEnd(lower, text, i, token).None?
    ensures at < 0 ==> from == 0 && if |text| <= 500 then w == text else w == text[..CutLen(text, 500)]
    ensures at >= 0 ==> ValidUtf8(w) && from + |w| <= at + 250
    ensures at >= 0 ==> IsSnapped(text, at, from, from + |w|)
    ensures 0 <= at <= 250 ==> from == 0
    ensures at >= 0 && ValidUtf8(text) ==> at <= from + 253
    ensures at >= 0 && ValidUtf8(text) ==>
      var e := MatchEnd(lower, text, at, token).value;
      from <= at <= e <= |text| && (e <= from + |w| <==> KeepsMatch(text, at, e))
    ensures at >= 0 && ValidUtf8(text) && IsField(lower, token) ==>
      (MatchEnd(lower, text, at, token).value <= from + |w| <==>
        MatchEnd(lower, text, at, token).value - at <= SNIPPET_HALF)
  {
    hide ValidUtf8, MatchEnd, Reaches, IsSnapped, CutsWordBefore, CutsWordAfter, KeepsMatch, SnapStart, SnapEnd, CutLen;
    at, from := -1, 0;
    if token == [] {
      w := CapBytes(text, SNIPPET_FALLBACK);
      return;
    }
    var idx := FoldIndex(lower, text, token);
    at := idx;
    if idx < 0 {
      w := CapBytes(text, SNIPPET_FALLBACK);
      return;
    }
    var start, end := WordWindow(text, idx);
    WindowIsSnapped(text, idx, start, end);
    var s := ScanBack(text, start);
    var e := ScanForward(text, s, end);
    SnappedIsValid(text, s, end);
    w := text[s..e];
    from := s;
    if ValidUtf8(text) {
      WindowHoldsMatch(lower, text, token, idx, start, end);
      if IsField(lower, token) {
        FieldsAreKept(lower, text, token, idx);
      }
    }
  }

  /** Half a window each way, then inward past the words it cuts. */
  method WordWindow(text: bytes, idx: nat) returns (start: nat, end: nat)
    requires idx < |text|
    ensures idx <= SNIPPET_HALF ==> start == 0
    ensures idx > SNIPPET_HALF ==> CutsWordBefore(text, idx - SNIPPET_HALF, idx, start)
    ensures idx <= end <= Min(idx + SNIPPET_HALF, |text|)
    ensures if idx + SNIPPET_HALF >= |text| then end == |text| else CutsWordAfter(text, idx, idx + SNIPPET_HALF, end)
  {
    var lo, hi := idx - SNIPPET_HALF, idx + SNIPPET_HALF;
    if lo <= 0 {
      start := 0;
    } else {
      start := lo;
      var b := FirstBreak(text, lo, idx);
      if b.Some? {
        start := b.value + 1;
      }
    }
    if hi >= |text| {
      end := |text|;
    } else {
      end := hi;
      var b := LastBreak(text, idx, hi);
      if b.Some? {
        end := b.value;
      }
    }
  }

  /** Half a window each way; where that cuts a word, past the first break and up to the last one, if there is any. */
  predicate IsWindow(text: bytes, idx: nat, start: nat, end: nat) {
    && idx < |text|
    && (if idx <= 250 then start == 0 else CutsWordBefore(text, idx - 250, idx, start))
    && (if idx + 250 >= |text| then end == |text| else CutsWordAfter(text, idx, idx + 250, end))
  }

  /** The slice is such a window, snapped to whole characters. */
  ghost predicate IsSnapped(text: bytes, idx: nat, from: nat, to: nat) {
    exists start: nat, end: nat ::
      && IsWindow(text, idx, start, end) && start <= end <= |text|
      && from == SnapStart(text, start) && to == SnapEnd(text, from, end)
  }

  lemma SnapsAtMostThree(text: bytes, start: nat)
    requires ValidUtf8(text) && start <= |text|
    ensures start <= SnapStart(text, start) + 3
  {
    hide ValidUtf8, CharLen;
    var b := SnapStart(text, start);
    SnapStartIsBoundary(text, start);
    if b < start {
      NextBoundary(text, b);
      var next := b + CharLen(text[b..]);
      StartsAreBoundaries(text, next);
    }
  }

  lemma WindowIsSnapped(text: bytes, idx: nat, start: nat, end: nat)
    requires IsWindow(text, idx, start, end) && start <= end <= |text|
    ensures var s := SnapStart(text, start);
      && IsSnapped(text, idx, s, SnapEnd(text, s, end))
      && (idx <= 250 ==> s == 0) && (ValidUtf8(text) ==> idx <= s + 253)
  {
    hide ValidUtf8;
    if ValidUtf8(text) {
      SnapsAtMostThree(text, start);
    }
  }

  /** start is just past the first break of [lo, idx), or lo when there is none. */
  predicate CutsWordBefore(text: bytes, lo: nat, idx: nat, start: nat)
    requires lo <= idx <= |text|
  {
    && lo <= start <= idx
    && if start == lo then NoBreak(text, lo, idx)
       else (text[start - 1] == 32 || text[start - 1] == 10) && NoBreak(text, lo, start - 1)
  }

  /** end is at the last break of [idx, hi), or hi when there is none. */
  predicate CutsWordAfter(text: bytes, idx: nat, hi: nat, end: nat)
    requires idx <= hi <= |text|
  {
    && idx <= end <= hi
    && if end == hi then NoBreak(text, idx, hi)
       else (text[end] == 32 || text[end] == 10) && NoBreak(text, end + 1, hi)
  }

  /** The window is wide enough for the occurrence and does not end at a break inside it. */
  predicate KeepsMatch(text: bytes, idx: nat, e: nat)
    requires idx <= e <= |text|
  {
    && e - idx <= SNIPPET_HALF
    && (idx + SNIPPET_HALF >= |text| || NoBreak(text, idx, e) || !NoBreak(text, e, idx + SNIPPET_HALF))
  }

  /** On a valid text the snapped window holds the occurrence [idx, e) exactly when that is so. */
  lemma WindowHoldsMatch(lower: int -> int, text: bytes, token: seq<int>, idx: nat, start: nat, end: nat)
    requires ValidUtf8(text)
    requires idx < |text| && Aligned(text, idx) && MatchEnd(lower, text, idx, token).Some?
    requires start <= idx <= end <= |text|
    requires if idx + SNIPPET_HALF >= |text| then end == |text| else CutsWordAfter(text, idx, idx + SNIPPET_HALF, end)
    ensures var s := SnapStart(text, start);
      var e := MatchEnd(lower, text, idx, token).value;
      s <= idx <= e <= |text| && (e <= SnapEnd(text, s, end) <==> KeepsMatch(text, idx, e))
  {
    hide ValidUtf8, MatchEnd, CharLen, Boundary, Reaches, SnapEnd, SnapStart;
    EndsAreBoundaries(text);
    AlignedIsBoundary(text, 0, idx);
    MatchEndsOnBoundary(lower, text, idx, token);
    SnapStartIsBoundary(text, start);
    SnapEndIsLastBoundary(text, SnapStart(text, start), end);
    EndKeepsMatch(text, idx, MatchEnd(lower, text, idx, token).value, end);
  }

  lemma EndKeepsMatch(text: bytes, idx: nat, e: nat, end: nat)
    requires idx <= e <= |text| && idx <= end <= |text|
    requires if idx + SNIPPET_HALF >= |text| then end == |text| else CutsWordAfter(text, idx, idx + SNIPPET_HALF, end)
    ensures e <= end <==> KeepsMatch(text, idx, e)
  {
    var hi := idx + SNIPPET_HALF;
    if hi < |text| && end < hi && e <= end {
      assert WordBreak(text[end]) && e <= end < hi;
    }
  }

  /** A field has no break in it, so only its length matters. */
  lemma FieldsAreKept(lower: int -> int, text: bytes, token: seq<int>, idx: nat)
    requires idx <= |text| && IsField(lower, token) && MatchEnd(lower, text, idx, token).Some?
    ensures var e := MatchEnd(lower, text, idx, token).value;
      idx <= e <= |text| && (KeepsMatch(text, idx, e) <==> e - idx <= SNIPPET_HALF)
  {
    MatchHasNoBreak(lower, text, idx, token);
  }

  lemma SnapStartIsBoundary(s: bytes, i: nat)
    requires ValidUtf8(s) && i <= |s|
    ensures Boundary(s, SnapStart(s, i))
  {
    hide ValidUtf8;
    EndsAreBoundaries(s);
    StartsAreBoundaries(s, SnapStart(s, i));
  }
}
