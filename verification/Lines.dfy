/**
 Line coordinates of a stored text: how the chunker splits it into lines, how
 the reader turns a line selector back into bytes, and how ctr_fetch names the
 last line after cutting to a byte budget.
 */
module Lines {
  import opened Common
  import Utf8

  const NL: byte := 10

  /** 0 and the offset after every newline among the first n bytes. */
  function Breaks(t: bytes, n: nat): (b: seq<nat>)
    requires n <= |t|
    ensures |b| >= 1
  {
    if n == 0 then [0]
    else if t[n - 1] == NL then Breaks(t, n - 1) + [n]
    else Breaks(t, n - 1)
  }

  /** The 1-based line holding byte position pos. */
  function LineOf(t: bytes, pos: nat): nat
    requires pos <= |t|
  {
    |Breaks(t, pos)|
  }

  function LastBreak(t: bytes): nat {
    var b := Breaks(t, |t|);
    b[|b| - 1]
  }

  /** splitLines' offsets: where every line starts, then the end of the text. */
  function Offsets(t: bytes): (o: seq<nat>)
    ensures |o| >= 1
  {
    var b := Breaks(t, |t|);
    if LastBreak(t) == |t| then b else b + [|t|]
  }

  function LineCount(t: bytes): nat {
    |Offsets(t)| - 1
  }

  function Line(t: bytes, k: nat): bytes
    requires k < LineCount(t)
  {
    OffsetsIncrease(t);
    t[Offsets(t)[k]..Offsets(t)[k + 1]]
  }

  lemma {:induction false} BreaksIncrease(t: bytes, n: nat)
    requires n <= |t|
    ensures var b := Breaks(t, n);
      && b[0] == 0 && b[|b| - 1] <= n
      && (forall i, j :: 0 <= i < j < |b| ==> b[i] < b[j])
      && (forall i :: 0 < i < |b| ==> t[b[i] - 1] == NL)
  {
    if n > 0 { BreaksIncrease(t, n - 1); }
  }

  lemma OffsetsIncrease(t: bytes)
    ensures var o := Offsets(t);
      && o[0] == 0 && o[|o| - 1] == |t|
      && forall i, j :: 0 <= i < j < |o| ==> o[i] < o[j] <= |t|
  {
    hide Breaks;
    BreaksIncrease(t, |t|);
    AppendKeepsOrder(Breaks(t, |t|), |t|);
  }

  lemma AppendKeepsOrder(b: seq<nat>, n: nat)
    requires b != [] && b[|b| - 1] <= n
    requires forall i, j :: 0 <= i < j < |b| ==> b[i] < b[j]
    ensures var o := if b[|b| - 1] == n then b else b + [n];
      && o[|o| - 1] == n
      && forall i, j :: 0 <= i < j < |o| ==> o[i] < o[j] <= n
  {
    forall j | 0 <= j < |b| ensures b[j] <= b[|b| - 1] {}
  }

  /** The breaks up to p are exactly the breaks of the whole text that are at most p. */
  lemma {:induction false} BreaksAreAPrefix(t: bytes, p: nat, n: nat)
    requires p <= n <= |t|
    ensures Breaks(t, p) <= Breaks(t, n)
    ensures forall i :: |Breaks(t, p)| <= i < |Breaks(t, n)| ==> Breaks(t, n)[i] > p
    decreases n
  {
    if p < n { BreaksAreAPrefix(t, p, n - 1); }
  }

  /** Every byte of the k-th line (0-based) is on line k + 1, and on no other. */
  lemma LineOfOffset(t: bytes, k: nat, pos: nat)
    requires k < LineCount(t) && pos < |t|
    ensures Offsets(t)[k] <= pos < Offsets(t)[k + 1] <==> LineOf(t, pos) == k + 1
  {
    hide *;
    OffsetsIncrease(t);
    OffsetsAround(t, pos);
    OffsetsAreOneMore(t);
    SortedCut(Offsets(t), k, LineOf(t, pos), pos);
  }

  lemma OffsetsAreOneMore(t: bytes)
    ensures LineCount(t) + 1 == |Offsets(t)|
  {
  }

  /** The offsets on either side of a byte are those of its line. */
  lemma OffsetsAround(t: bytes, pos: nat)
    requires pos < |t|
    ensures var m := LineOf(t, pos);
      1 <= m < |Offsets(t)| && Offsets(t)[m - 1] <= pos < Offsets(t)[m]
  {
    hide Breaks;
    BreaksIncrease(t, |t|);
    BreaksIncrease(t, pos);
    BreaksAreAPrefix(t, pos, |t|);
    PrefixIsBelow(Breaks(t, pos), Breaks(t, |t|), Offsets(t), pos, |t|);
  }

  lemma PrefixIsBelow(p: seq<nat>, b: seq<nat>, o: seq<nat>, pos: nat, n: nat)
    requires p != [] && p <= b && p[|p| - 1] <= pos < n
    requires forall i :: |p| <= i < |b| ==> b[i] > pos
    requires o == if b[|b| - 1] == n then b else b + [n]
    ensures |p| < |o| && o[|p| - 1] <= pos < o[|p|]
  {
    assert b[|p| - 1] == p[|p| - 1];
    if |p| < |b| {
      assert o[|p|] == b[|p|];
    }
  }

  lemma SortedCut(o: seq<nat>, k: nat, m: nat, pos: nat)
    requires forall i, j :: 0 <= i < j < |o| ==> o[i] < o[j]
    requires k + 1 < |o| && 1 <= m < |o| && o[m - 1] <= pos < o[m]
    ensures o[k] <= pos < o[k + 1] <==> m == k + 1
  {
    if k + 1 < m {
      assert o[k + 1] <= o[m - 1];
    } else if m < k + 1 {
      assert o[m] <= o[k];
    }
  }

  /** A line is never empty, and a newline can only be its last byte. */
  lemma LineShape(t: bytes, k: nat)
    requires k < LineCount(t)
    ensures Line(t, k) != []
    ensures forall i :: 0 <= i < |Line(t, k)| - 1 ==> Line(t, k)[i] != NL
    ensures k + 1 < LineCount(t) ==> Line(t, k)[|Line(t, k)| - 1] == NL
  {
    OffsetsIncrease(t);
    BreaksIncrease(t, |t|);
    var o := Offsets(t);
    forall i | 0 <= i < |Line(t, k)| - 1 ensures Line(t, k)[i] != NL {
      LineOfOffset(t, k, o[k] + i);
      LineOfOffset(t, k, o[k] + i + 1);
    }
  }

  // ------------------------------------------------------------------
  // splitLines, countLines, lineByteRange
  // ------------------------------------------------------------------

  method SplitLines(text: bytes) returns (lines: seq<bytes>, offsets: seq<nat>)
    ensures offsets == Offsets(text)
    ensures |lines| == LineCount(text)
    ensures forall k :: 0 <= k < |lines| ==> lines[k] == Line(text, k)
  {
    hide *;
    lines, offsets := [], [0];
    var start := 0;
    NothingSplitYet(text);
    for i := 0 to |text|
      invariant AreSplit(text, i, lines, offsets) && offsets != [] && start == offsets[|offsets| - 1] <= i
    {
      OneMoreByte(text, i, lines, offsets);
      if text[i] == NL {
        lines := lines + [text[start..i + 1]];
        offsets := offsets + [i + 1];
        start := i + 1;
      }
    }
    AllSplit(text, lines, offsets);
    if start < |text| {
      lines := lines + [text[start..]];
      offsets := offsets + [|text|];
    }
  }

  /** The first n bytes are split: a break before each line and after the last ended one. */
  ghost predicate AreSplit(t: bytes, n: nat, lines: seq<bytes>, offsets: seq<nat>) {
    && n <= |t| && offsets == Breaks(t, n) && |lines| == |offsets| - 1
    && (forall k :: 0 <= k < |offsets| ==> offsets[k] <= n)
    && forall k :: 0 <= k < |lines| ==> offsets[k] <= offsets[k + 1] && lines[k] == t[offsets[k]..offsets[k + 1]]
  }

  lemma NothingSplitYet(t: bytes)
    ensures AreSplit(t, 0, [], [0])
  {
  }

  lemma OneMoreByte(t: bytes, i: nat, lines: seq<bytes>, offsets: seq<nat>)
    requires i < |t| && AreSplit(t, i, lines, offsets) && offsets != []
    ensures var start := offsets[|offsets| - 1];
      && start <= i
      && if t[i] == NL then AreSplit(t, i + 1, lines + [t[start..i + 1]], offsets + [i + 1])
         else AreSplit(t, i + 1, lines, offsets)
  {
    hide Breaks;
    BreaksOfNext(t, i);
  }

  lemma BreaksOfNext(t: bytes, i: nat)
    requires i < |t|
    ensures Breaks(t, i + 1) == if t[i] == NL then Breaks(t, i) + [i + 1] else Breaks(t, i)
  {
  }

  lemma AllSplit(t: bytes, lines: seq<bytes>, offsets: seq<nat>)
    requires AreSplit(t, |t|, lines, offsets) && offsets != []
    ensures var start := offsets[|offsets| - 1];
      && start <= |t|
      && var o := if start < |t| then offsets + [|t|] else offsets;
         var l := if start < |t| then lines + [t[start..]] else lines;
         && o == Offsets(t) && |l| == LineCount(t) && forall k :: 0 <= k < |l| ==> l[k] == Line(t, k)
  {
    hide Breaks;
    BreaksIncrease(t, |t|);
    OffsetsIncrease(t);
    forall k | 0 <= k < LineCount(t)
      ensures k < |lines| ==> lines[k] == Line(t, k)
      ensures k == |lines| ==> t[offsets[|offsets| - 1]..] == Line(t, k)
    {
      SplitLineIs(t, lines, offsets, k);
    }
  }

  lemma SplitLineIs(t: bytes, lines: seq<bytes>, offsets: seq<nat>, k: nat)
    requires AreSplit(t, |t|, lines, offsets) && offsets != [] && k < LineCount(t)
    ensures k < |lines| ==> lines[k] == Line(t, k)
    ensures k >= |lines| ==> k == |lines| && offsets[k] <= |t| && t[offsets[k]..] == Line(t, k)
  {
    hide Breaks;
    OffsetsIncrease(t);
    var o := Offsets(t);
    assert o[k] == offsets[k];
    if k < |lines| {
      assert o[k + 1] == offsets[k + 1];
    } else {
      assert o[k + 1] == |t|;
    }
  }

  method CountLines(data: bytes) returns (n: nat)
    ensures n == LineCount(data)
  {
    if |data| == 0 {
      return 0;
    }
    hide *;
    n := 1;
    FirstLine(data);
    for i := 0 to |data|
      invariant n == LineOf(data, i)
    {
      LineOfNext(data, i);
      if data[i] == NL {
        n := n + 1;
      }
    }
    LinesAtEnd(data);
    if data[|data| - 1] == NL {
      n := n - 1;
    }
  }

  lemma FirstLine(t: bytes)
    ensures LineOf(t, 0) == 1
  {
  }

  lemma LineOfNext(t: bytes, i: nat)
    requires i < |t|
    ensures LineOf(t, i + 1) == LineOf(t, i) + (if t[i] == NL then 1 else 0)
  {
  }

  /** A newline at the very end begins no line of its own. */
  lemma LinesAtEnd(t: bytes)
    requires t != []
    ensures LineCount(t) == LineOf(t, |t|) - (if t[|t| - 1] == NL then 1 else 0)
  {
    BreaksOfNext(t, |t| - 1);
    BreaksIncrease(t, |t| - 1);
    hide Breaks;
  }

  /** What a line selector means, for every pair of line numbers. */
  function RangeOfLines(data: bytes, lineStart: int, lineEnd: nat): (nat, nat) {
    BreaksIncrease(data, |data|);
    var b := Breaks(data, |data|);
    var lo := Max(lineStart - 1, 0);
    if lo >= |b| then (|data|, |data|)
    else
      var end := if lineEnd < |b| then b[lineEnd] else |data|;
      (b[lo], Max(b[lo], end))
  }

  method LineByteRange(data: bytes, lineStart: int, lineEnd: nat) returns (begin: nat, end: nat)
    ensures (begin, end) == RangeOfLines(data, lineStart, lineEnd)
  {
    var starts := [0];
    for i := 0 to |data|
      invariant starts == Breaks(data, i)
    {
      if data[i] == NL {
        starts := starts + [i + 1];
      }
    }
    BreaksIncrease(data, |data|);
    var lo := lineStart - 1;
    if lo < 0 {
      lo := 0;
    }
    if lo >= |starts| {
      return |data|, |data|;
    }
    begin := starts[lo];
    end := |data|;
    if lineEnd < |starts| {
      end := starts[lineEnd];
    }
    if end < begin {
      end := begin;
    }
  }

  /** The reader agrees with the splitter on every range of existing lines. */
  lemma ReaderAgreesWithSplitter(t: bytes, lineStart: nat, lineEnd: nat)
    requires 1 <= lineStart <= lineEnd <= LineCount(t)
    ensures RangeOfLines(t, lineStart, lineEnd) == (Offsets(t)[lineStart - 1], Offsets(t)[lineEnd])
  {
    OffsetsIncrease(t);
    BreaksIncrease(t, |t|);
  }

  /** Lines 1..countLines partition the text: nonempty, adjacent, from byte 0 to the end. */
  lemma LinesPartition(t: bytes, k: nat)
    requires 1 <= k <= LineCount(t)
    ensures var (b, e) := RangeOfLines(t, k, k);
      && b < e <= |t|
      && (k == 1 ==> b == 0)
      && (k < LineCount(t) ==> RangeOfLines(t, k + 1, k + 1).0 == e)
      && (k == LineCount(t) ==> e == |t|)
      && forall pos :: 0 <= pos < |t| ==> (b <= pos < e <==> LineOf(t, pos) == k)
  {
    OffsetsIncrease(t);
    ReaderAgreesWithSplitter(t, k, k);
    if k < LineCount(t) { ReaderAgreesWithSplitter(t, k + 1, k + 1); }
    forall pos | 0 <= pos < |t|
      ensures Offsets(t)[k - 1] <= pos < Offsets(t)[k] <==> LineOf(t, pos) == k
    {
      LineOfOffset(t, k - 1, pos);
    }
  }

  // ------------------------------------------------------------------
  // ctr_fetch's byte budget
  // ------------------------------------------------------------------

  /** Newlines in a slice are the line steps across it. */
  lemma {:induction false} SliceLines(t: bytes, a: nat, n: nat)
    requires a + n <= |t|
    ensures LineOf(t[a..], n) - 1 == LineOf(t, a + n) - LineOf(t, a)
  {
    if n > 0 {
      SliceLines(t, a, n - 1);
      assert t[a..][n - 1] == t[a + n - 1];
    }
  }

  lemma {:induction false} PrefixBreaks(t: bytes, m: nat, n: nat)
    requires n <= m <= |t|
    ensures Breaks(t[..m], n) == Breaks(t, n)
  {
    if n > 0 { PrefixBreaks(t, m, n - 1); }
  }

  /** What ReadRange hands to the tool: text with its coordinates; lineStart is 0 for byte selectors. */
  datatype Range = Range(text: bytes, byteStart: nat, byteEnd: nat, lineStart: nat, lineEnd: nat)

  predicate Locates(blob: bytes, r: Range) {
    && r.byteStart <= r.byteEnd <= |blob|
    && r.text == blob[r.byteStart..r.byteEnd]
    && (r.lineStart > 0 ==> r.lineStart == LineOf(blob, r.byteStart))
  }

  method CountNewlines(s: bytes) returns (n: nat)
    ensures n == LineOf(s, |s|) - 1
  {
    n := 0;
    for i := 0 to |s|
      invariant n == LineOf(s, i) - 1
    {
      if s[i] == NL {
        n := n + 1;
      }
    }
  }

  method ApplyFetchBudget(blob: bytes, r: Range, maxBytes: nat)
    returns (text: bytes, byteEnd: nat, lineEnd: nat, truncated: bool)
    requires Locates(blob, r)
    ensures truncated <==> |r.text| > maxBytes
    ensures !truncated ==> text == r.text && byteEnd == r.byteEnd && lineEnd == r.lineEnd
    ensures truncated ==> byteEnd == r.byteStart + Utf8.CutLen(r.text, maxBytes)
    ensures text == blob[r.byteStart..byteEnd] && |text| <= maxBytes
    ensures truncated && r.lineStart > 0 && text != [] ==> lineEnd == LineOf(blob, byteEnd - 1)
    ensures truncated && r.lineStart > 0 && text == [] ==> lineEnd == r.lineStart
    ensures truncated && r.lineStart == 0 ==> lineEnd == r.lineEnd
  {
    if |r.text| <= maxBytes {
      return r.text, r.byteEnd, r.lineEnd, false;
    }
    var n := maxBytes;
    while n > 0 && !Utf8.RuneStart(r.text[n])
      invariant 0 <= n <= maxBytes
      invariant Utf8.CutLen(r.text, n) == Utf8.CutLen(r.text, maxBytes)
    {
      n := n - 1;
    }
    text := r.text[..n];
    lineEnd := r.lineEnd;
    if r.lineStart > 0 {
      var newlines := CountNewlines(text);
      CutLines(blob, r, n);
      lineEnd := r.lineStart + newlines;
      if |text| > 0 && text[|text| - 1] == NL {
        lineEnd := lineEnd - 1;
      }
    }
    byteEnd, truncated := r.byteStart + n, true;
  }

  lemma CutLines(blob: bytes, r: Range, n: nat)
    requires Locates(blob, r) && r.lineStart > 0 && n <= |r.text|
    ensures var newlines := LineOf(r.text[..n], n) - 1;
      && r.lineStart + newlines == LineOf(blob, r.byteStart + n)
      && (n > 0 ==>
            var last := if r.text[..n][n - 1] == NL then 1 else 0;
            LineOf(blob, r.byteStart + n - 1) == LineOf(blob, r.byteStart + n) - last)
  {
    assert r.text[..n] == blob[r.byteStart..][..n];
    PrefixBreaks(blob[r.byteStart..], n, n);
    SliceLines(blob, r.byteStart, n);
    if n > 0 { assert r.text[..n][n - 1] == blob[r.byteStart + n - 1]; }
  }
}
