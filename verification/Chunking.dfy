/**
 ChunkText: cutting a text into blocks of whole lines. The method follows the
 source's loops; Plan says which spans they produce, and the lemmas say what
 every plan guarantees.
 */
module Chunking {
  import opened Common
  import opened Lines

  const CHUNK_TARGET_BYTES: nat := 4096

  // ------------------------------------------------------------------
  // Markdown headings
  // ------------------------------------------------------------------

  const HASH: byte := 35
  const SPACE: byte := 32
  const TAB: byte := 9
  const CR: byte := 13

  predicate Hash(b: byte) { b == HASH }

  predicate Blank(b: byte) { b == SPACE || b == TAB }

  /** ASCII white space as strings.TrimSpace sees it. */
  predicate White(b: byte) { 9 <= b <= 13 || b == SPACE }

  /** The class \s of the heading pattern: no vertical tab. */
  predicate PatternSpace(b: byte) { White(b) && b != 11 }

  function TrimEol(line: bytes): bytes {
    if line != [] && (line[|line| - 1] == NL || line[|line| - 1] == CR) then TrimEol(line[..|line| - 1]) else line
  }

  function TrimSpace(s: bytes): bytes {
    if s != [] && White(s[0]) then TrimSpace(s[1..])
    else if s != [] && White(s[|s| - 1]) then TrimSpace(s[..|s| - 1])
    else s
  }

  function CountLeading(s: bytes, p: byte -> bool): (n: nat)
    ensures n <= |s|
    ensures forall i :: 0 <= i < n ==> p(s[i])
    ensures n < |s| ==> !p(s[n])
  {
    if s == [] || !p(s[0]) then 0 else 1 + CountLeading(s[1..], p)
  }

  /** headingText: one to six '#', blanks, then text; the title is what follows the first blank. */
  function HeadingText(line: bytes): Option<bytes> {
    var t := TrimEol(line);
    var hashes := CountLeading(t, Hash);
    var blanks := CountLeading(t[hashes..], Blank);
    if 1 <= hashes <= 6 && blanks >= 1 && hashes + blanks < |t| && !PatternSpace(t[hashes + blanks]) then
      Some(TrimSpace(t[hashes + 1..]))
    else
      None
  }

  /**
   Where the parts of a heading line are: n hashes, spaces and tabs up to b, text
   up to e, then only line ends. What RE2 calls white space has no vertical tab.
   */
  predicate IsHeadingAt(line: bytes, n: nat, b: nat, e: nat) {
    && 1 <= n <= 6 && n < b < e <= |line|
    && (forall i :: 0 <= i < n ==> line[i] == 35)
    && (forall i :: n <= i < b ==> line[i] == 32 || line[i] == 9)
    && !(line[b] == 32 || 9 <= line[b] <= 10 || 12 <= line[b] <= 13)
    && line[e - 1] != 10 && line[e - 1] != 13
    && (forall i :: e <= i < |line| ==> line[i] == 10 || line[i] == 13)
  }

  /** The text without the white space around it. */
  ghost predicate IsTrimOf(title: bytes, text: bytes) {
    exists i, j ::
      && 0 <= i <= j <= |text| && title == text[i..j]
      && (forall k :: 0 <= k < i || j <= k < |text| ==> IsSpace(text[k]))
      && (i < j ==> !IsSpace(text[i]) && !IsSpace(text[j - 1]))
  }

  /** unicode.IsSpace on ASCII. */
  predicate IsSpace(b: byte) {
    b == 9 || b == 10 || b == 11 || b == 12 || b == 13 || b == 32
  }

  ghost predicate Heads(line: bytes, title: bytes) {
    exists n: nat, b: nat, e: nat :: IsHeadingAt(line, n, b, e) && IsTrimOf(title, line[b..e])
  }

  /** headingText finds exactly the lines of that form, and their title. */
  lemma HeadingTextIff(line: bytes, title: bytes)
    ensures HeadingText(line) == Some(title) <==> Heads(line, title)
  {
    hide HeadingText, IsTrimOf;
    if HeadingText(line) == Some(title) {
      var n, b, e := HeadingParts(line);
      TrimSpaceIs(line[b..e], title);
    }
    if Heads(line, title) {
      var n: nat, b: nat, e: nat :| IsHeadingAt(line, n, b, e) && IsTrimOf(title, line[b..e]);
      PartsHead(line, n, b, e);
      TrimSpaceIs(line[b..e], title);
    }
  }

  /** Where headingText found them. */
  lemma HeadingParts(line: bytes) returns (n: nat, b: nat, e: nat)
    requires HeadingText(line).Some?
    ensures IsHeadingAt(line, n, b, e) && HeadingText(line) == Some(TrimSpace(line[b..e]))
  {
    hide TrimEol, TrimSpace, CountLeading;
    TrimEolIs(line);
    var t := TrimEol(line);
    n := CountLeading(t, Hash);
    b := n + CountLeading(t[n..], Blank);
    e := |t|;
    assert forall i :: n <= i < b ==> t[i] == t[n..][i - n];
    assert line[b..e] == t[b..];
    HeadingTitle(t, n, b);
  }

  lemma PartsHead(line: bytes, n: nat, b: nat, e: nat)
    requires IsHeadingAt(line, n, b, e)
    ensures HeadingText(line) == Some(TrimSpace(line[b..e]))
  {
    hide TrimEol, TrimSpace, CountLeading;
    TrimEolIs(line);
    var t := TrimEol(line);
    assert t == line[..e];
    CountIs(t, Hash, n);
    assert forall i :: n <= i < e ==> t[i] == t[n..][i - n];
    CountIs(t[n..], Blank, b - n);
    assert line[b..e] == t[b..];
    HeadingTitle(t, n, b);
  }

  lemma CountIs(s: bytes, p: byte -> bool, n: nat)
    requires n < |s| && !p(s[n]) && forall i :: 0 <= i < n ==> p(s[i])
    ensures CountLeading(s, p) == n
  {
  }

  lemma HeadingTitle(t: bytes, n: nat, b: nat)
    requires n < b <= |t| && forall i :: n <= i < b ==> Blank(t[i])
    ensures TrimSpace(t[n + 1..]) == TrimSpace(t[b..])
    decreases b - n
  {
    if n + 1 < b {
      assert t[n + 1..][1..] == t[n + 2..];
      HeadingTitle(t, n + 1, b);
    }
  }

  lemma {:induction false} TrimEolIs(line: bytes)
    ensures var t := TrimEol(line);
      && t <= line && (t != [] ==> t[|t| - 1] != NL && t[|t| - 1] != CR)
      && forall i :: |t| <= i < |line| ==> line[i] == NL || line[i] == CR
    decreases |line|
  {
    if line != [] && (line[|line| - 1] == NL || line[|line| - 1] == CR) {
      TrimEolIs(line[..|line| - 1]);
    }
  }

  lemma TrimSpaceIs(text: bytes, title: bytes)
    ensures IsTrimOf(title, text) <==> title == TrimSpace(text)
  {
    var i, j := TrimSpaceAt(text);
    assert IsTrimOf(TrimSpace(text), text);
    if IsTrimOf(title, text) {
      var k, l :|
        && 0 <= k <= l <= |text| && title == text[k..l]
        && (forall m :: 0 <= m < k || l <= m < |text| ==> IsSpace(text[m]))
        && (k < l ==> !IsSpace(text[k]) && !IsSpace(text[l - 1]));
      assert if i < j then k == i && l == j else k == l;
    }
  }

  lemma {:induction false} TrimSpaceAt(text: bytes) returns (i: nat, j: nat)
    ensures i <= j <= |text| && TrimSpace(text) == text[i..j]
    ensures forall k :: 0 <= k < i || j <= k < |text| ==> White(text[k])
    ensures i < j ==> !White(text[i]) && !White(text[j - 1])
    decreases |text|
  {
    i, j := 0, |text|;
    if text != [] && White(text[0]) {
      var a, b := TrimSpaceAt(text[1..]);
      i, j := a + 1, b + 1;
      assert text[1..][a..b] == text[i..j];
      assert forall k :: 1 <= k < |text| ==> text[k] == text[1..][k - 1];
    } else if text != [] && White(text[|text| - 1]) {
      i, j := TrimSpaceAt(text[..|text| - 1]);
      assert text[..|text| - 1][i..j] == text[i..j];
    }
  }

  // ------------------------------------------------------------------
  // The plan of spans
  // ------------------------------------------------------------------

  /** All that decides where a text is cut: line offsets and which lines are headings. */
  datatype Layout = Layout(offsets: seq<nat>, heading: seq<bool>) {
    predicate Proper() {
      && |offsets| == |heading| + 1
      && forall i, j :: 0 <= i < j < |offsets| ==> offsets[i] < offsets[j]
    }

    function Count(): nat { |heading| }

    /** Lines [first, end) take more than the target. */
    predicate TooBig(first: nat, end: nat)
      requires Proper() && first < end <= Count()
    {
      offsets[end] - offsets[first] > CHUNK_TARGET_BYTES
    }

    /** A chunk that began at first may stop before line j. */
    predicate Stops(first: nat, overlap: bool, j: nat)
      requires Proper() && first < j <= Count()
    {
      || j == Count()
      || (HasNewLine(first, overlap, j) && (heading[j] || TooBig(first, j + 1)))
    }

    /** The first line at or after j where the chunk stops. */
    function StopFrom(first: nat, overlap: bool, j: nat): (end: nat)
      requires Proper() && first < j <= Count()
      ensures j <= end <= Count()
      decreases Count() - j
    {
      if Stops(first, overlap, j) then j else StopFrom(first, overlap, j + 1)
    }

    predicate Ready(first: nat, overlap: bool) {
      FirstFresh(first, overlap) < Count()
    }
  }

  /** Lines [first, end) of the text; overlap says that line first also ended the span before. */
  datatype Span = Span(first: nat, end: nat, overlap: bool)

  /** The first line the previous span did not have. */
  function FirstFresh(first: nat, overlap: bool): nat {
    if overlap then first + 1 else first
  }

  /** Whether the span being filled has a line the previous span did not have. */
  predicate HasNewLine(first: nat, overlap: bool, j: nat) {
    j > FirstFresh(first, overlap)
  }

  lemma {:induction false} StopFromIsFirst(l: Layout, first: nat, overlap: bool, j: nat)
    requires l.Proper() && first < j <= l.Count()
    ensures var end := l.StopFrom(first, overlap, j);
      && l.Stops(first, overlap, end)
      && forall i :: j <= i < end ==> !l.Stops(first, overlap, i)
    decreases l.Count() - j
  {
    if !l.Stops(first, overlap, j) { StopFromIsFirst(l, first, overlap, j + 1); }
  }

  function FirstSpan(l: Layout, first: nat, overlap: bool): (s: Span)
    requires l.Proper() && l.Ready(first, overlap)
    ensures s.first == first && s.overlap == overlap
    ensures FirstFresh(first, overlap) < s.end <= l.Count()
  {
    StopFromIsFirst(l, first, overlap, first + 1);
    Span(first, l.StopFrom(first, overlap, first + 1), overlap)
  }

  /** The next span repeats the last line unless a heading cuts or the span was a single line. */
  function NextOverlaps(l: Layout, s: Span): bool
    requires s.end < l.Count()
  {
    !l.heading[s.end] && s.end > s.first + 1
  }

  function NextFirst(l: Layout, s: Span): nat
    requires s.end < l.Count()
  {
    if NextOverlaps(l, s) then s.end - 1 else s.end
  }

  function Plan(l: Layout, first: nat, overlap: bool): (spans: seq<Span>)
    requires l.Proper() && l.Ready(first, overlap)
    ensures |spans| > 0 && spans[0] == FirstSpan(l, first, overlap)
    decreases l.Count() - FirstFresh(first, overlap)
  {
    var s := FirstSpan(l, first, overlap);
    if s.end == l.Count() then [s] else [s] + Plan(l, NextFirst(l, s), NextOverlaps(l, s))
  }

  // ------------------------------------------------------------------
  // What every plan guarantees
  // ------------------------------------------------------------------

  predicate InRange(l: Layout, s: Span) {
    FirstFresh(s.first, s.overlap) < s.end <= l.Count()
  }

  /** Neighbouring spans: no line is skipped, at most one is shared, and the end moves on. */
  predicate Follows(a: Span, b: Span) {
    && FirstFresh(b.first, b.overlap) == a.end
    && a.end < b.end
    && (b.overlap ==> a.first + 1 < a.end)
  }

  lemma {:induction false} PlanCovers(l: Layout, first: nat, overlap: bool)
    requires l.Proper() && l.Ready(first, overlap)
    ensures var spans := Plan(l, first, overlap);
      && (forall i :: 0 <= i < |spans| ==> InRange(l, spans[i]))
      && (forall i :: 0 <= i < |spans| - 1 ==> Follows(spans[i], spans[i + 1]))
      && spans[|spans| - 1].end == l.Count()
    decreases l.Count() - FirstFresh(first, overlap)
  {
    var s := FirstSpan(l, first, overlap);
    if s.end < l.Count() {
      var rest := Plan(l, NextFirst(l, s), NextOverlaps(l, s));
      PlanCovers(l, NextFirst(l, s), NextOverlaps(l, s));
      assert Plan(l, first, overlap) == [s] + rest;
      assert Follows(s, rest[0]);
    }
  }

  /** Each span ends at the first line where it may stop, and decides the next one. */
  lemma {:induction false} PlanIsGreedy(l: Layout, first: nat, overlap: bool, i: nat)
    requires l.Proper() && l.Ready(first, overlap) && i < |Plan(l, first, overlap)|
    ensures var spans := Plan(l, first, overlap);
      && l.Ready(spans[i].first, spans[i].overlap)
      && spans[i] == FirstSpan(l, spans[i].first, spans[i].overlap)
      && (i + 1 < |spans| <==> spans[i].end < l.Count())
      && (i + 1 < |spans| ==>
            && spans[i + 1].first == NextFirst(l, spans[i])
            && spans[i + 1].overlap == NextOverlaps(l, spans[i]))
    decreases i
  {
    hide FirstSpan;
    var s := FirstSpan(l, first, overlap);
    if i > 0 {
      var rest := Plan(l, NextFirst(l, s), NextOverlaps(l, s));
      assert Plan(l, first, overlap) == [s] + rest;
      PlanIsGreedy(l, NextFirst(l, s), NextOverlaps(l, s), i - 1);
    }
  }

  /** A span is within the target, or it is one line, or an overlap line and one more. */
  lemma SpanSize(l: Layout, first: nat, overlap: bool, i: nat)
    requires l.Proper() && l.Ready(first, overlap) && i < |Plan(l, first, overlap)|
    ensures var s := Plan(l, first, overlap)[i];
      && InRange(l, s)
      && (!l.TooBig(s.first, s.end) || s.end - s.first <= if s.overlap then 2 else 1)
  {
    PlanIsGreedy(l, first, overlap, i);
    var s := Plan(l, first, overlap)[i];
    StopFromIsFirst(l, s.first, s.overlap, s.first + 1);
    if s.end > s.first + 1 {
      assert !l.Stops(s.first, s.overlap, s.end - 1);
    }
  }

  /** A heading stands first in its span, or second behind an overlap line. */
  lemma HeadingsLead(l: Layout, first: nat, overlap: bool, i: nat, j: nat)
    requires l.Proper() && l.Ready(first, overlap) && i < |Plan(l, first, overlap)|
    requires var s := Plan(l, first, overlap)[i]; s.first <= j < s.end && j < l.Count() && l.heading[j]
    ensures var s := Plan(l, first, overlap)[i];
      j == s.first || (s.overlap && j == s.first + 1)
  {
    PlanIsGreedy(l, first, overlap, i);
    var s := Plan(l, first, overlap)[i];
    StopFromIsFirst(l, s.first, s.overlap, s.first + 1);
    if j > s.first {
      assert !l.Stops(s.first, s.overlap, j);
    }
  }

  // ------------------------------------------------------------------
  // Spans of a text
  // ------------------------------------------------------------------

  function LayoutOf(t: bytes, md: bool): (l: Layout)
    ensures l.Proper() && l.Count() == LineCount(t)
  {
    OffsetsIncrease(t);
    Layout(Offsets(t), seq(LineCount(t), j requires 0 <= j < LineCount(t) => md && HeadingText(Line(t, j)).Some?))
  }

  /** The lines of a span that the previous span did not have. */
  function FreshPart(t: bytes, s: Span): bytes
    requires FirstFresh(s.first, s.overlap) < s.end <= LineCount(t)
  {
    OffsetsIncrease(t);
    t[Offsets(t)[FirstFresh(s.first, s.overlap)]..Offsets(t)[s.end]]
  }

  function JoinFresh(t: bytes, spans: seq<Span>): bytes
    requires forall i :: 0 <= i < |spans| ==> FirstFresh(spans[i].first, spans[i].overlap) < spans[i].end <= LineCount(t)
  {
    if spans == [] then [] else FreshPart(t, spans[0]) + JoinFresh(t, spans[1..])
  }

  /** Joining the spans without their overlap lines gives the text back, byte for byte. */
  lemma {:induction false} FreshPartsAreTheText(t: bytes, spans: seq<Span>, from: nat)
    requires from <= LineCount(t)
    requires forall i :: 0 <= i < |spans| ==> FirstFresh(spans[i].first, spans[i].overlap) < spans[i].end <= LineCount(t)
    requires forall i :: 0 <= i < |spans| - 1 ==> Follows(spans[i], spans[i + 1])
    requires spans == [] ==> from == LineCount(t)
    requires spans != [] ==> FirstFresh(spans[0].first, spans[0].overlap) == from && spans[|spans| - 1].end == LineCount(t)
    ensures (OffsetsIncrease(t); JoinFresh(t, spans) == t[Offsets(t)[from]..])
  {
    hide Offsets;
    OffsetsIncrease(t);
    if spans != [] {
      var rest := spans[1..];
      if rest != [] { assert Follows(spans[0], rest[0]); }
      FreshPartsAreTheText(t, rest, spans[0].end);
      assert FreshPart(t, spans[0]) + t[Offsets(t)[spans[0].end]..] == t[Offsets(t)[from]..];
    }
  }

  /** No line of a text is lost or repeated once overlap lines are left out. */
  lemma ChunksRebuildText(t: bytes, md: bool)
    requires t != []
    ensures LineCount(t) > 0
    ensures var spans := Plan(LayoutOf(t, md), 0, false);
      && (forall i :: 0 <= i < |spans| ==> FirstFresh(spans[i].first, spans[i].overlap) < spans[i].end <= LineCount(t))
      && JoinFresh(t, spans) == t
  {
    OffsetsIncrease(t);
    BreaksIncrease(t, |t|);
    var l := LayoutOf(t, md);
    PlanCovers(l, 0, false);
    forall i | 0 <= i < |Plan(l, 0, false)|
      ensures var s := Plan(l, 0, false)[i]; FirstFresh(s.first, s.overlap) < s.end <= LineCount(t)
    {
      assert InRange(l, Plan(l, 0, false)[i]);
    }
    FreshPartsAreTheText(t, Plan(l, 0, false), 0);
  }

  /** The text of the last heading among the first k lines, or empty. */
  function TitleAt(lines: seq<bytes>, k: nat): bytes
    requires k <= |lines|
  {
    if k == 0 then []
    else
      match HeadingText(lines[k - 1])
      case Some(h) => h
      case None => TitleAt(lines, k - 1)
  }

  datatype Chunk = Chunk(ordinal: nat, byteStart: nat, byteEnd: nat, lineStart: nat, lineEnd: nat,
                         title: bytes, text: bytes)

  /** The chunk a span becomes: its title is the nearest heading at or above its first line. */
  predicate IsChunk(t: bytes, lines: seq<bytes>, offsets: seq<nat>, md: bool, s: Span, i: nat, c: Chunk) {
    && s.first < s.end <= |lines| < |offsets|
    && c.ordinal == i
    && c.byteStart == offsets[s.first] <= c.byteEnd == offsets[s.end] <= |t|
    && c.lineStart == s.first + 1 && c.lineEnd == s.end
    && c.title == (if md then TitleAt(lines, s.first + 1) else [])
    && c.text == t[c.byteStart..c.byteEnd]
  }

  function AllLines(t: bytes): seq<bytes> {
    seq(LineCount(t), k requires 0 <= k < LineCount(t) => Line(t, k))
  }

  /** The chunker's coordinates mean the same to the reader and to ctr_fetch's line arithmetic. */
  lemma ChunkCoordinates(t: bytes, md: bool, s: Span, i: nat, c: Chunk)
    requires IsChunk(t, AllLines(t), Offsets(t), md, s, i, c)
    ensures RangeOfLines(t, c.lineStart, c.lineEnd) == (c.byteStart, c.byteEnd)
    ensures c.byteStart < c.byteEnd <= |t|
    ensures c.lineStart == LineOf(t, c.byteStart) && c.lineEnd == LineOf(t, c.byteEnd - 1)
    ensures Locates(t, Range(c.text, c.byteStart, c.byteEnd, c.lineStart, c.lineEnd))
  {
    OffsetsIncrease(t);
    ReaderAgreesWithSplitter(t, s.first + 1, s.end);
    LineOfOffset(t, s.first, Offsets(t)[s.first]);
    LineOfOffset(t, s.end - 1, Offsets(t)[s.end] - 1);
  }

  // ------------------------------------------------------------------
  // The chunks of a text, said of the text alone
  // ------------------------------------------------------------------

  /** Line k, counted from zero, is a heading of a Markdown text. */
  ghost predicate HeadingLine(t: bytes, md: bool, k: nat)
    requires k < LineCount(t)
  {
    md && exists title :: Heads(Line(t, k), title)
  }

  /** The title is that of the last heading among the first n lines, or empty. */
  ghost predicate IsTitleAt(t: bytes, md: bool, n: nat, title: bytes)
    requires n <= LineCount(t)
  {
    && ((forall k: nat :: k < n ==> !HeadingLine(t, md, k)) ==> title == [])
    && (forall k: nat :: k < n && HeadingLine(t, md, k) && (forall j :: k < j < n ==> !HeadingLine(t, md, j)) ==>
          Heads(Line(t, k), title))
  }

  /**
   A chunk is whole lines. Beyond its first new line none is a heading, and none
   takes it over 4096 bytes; overlap says that its first line is not new.
   */
  ghost predicate IsCut(t: bytes, md: bool, c: Chunk, overlap: bool) {
    var more := if overlap then 1 else 0;
    && 1 <= c.lineStart && c.lineStart + more <= c.lineEnd <= LineCount(t)
    && c.byteStart == Offsets(t)[c.lineStart - 1] <= c.byteEnd == Offsets(t)[c.lineEnd] <= |t|
    && c.text == t[c.byteStart..c.byteEnd] && IsTitleAt(t, md, c.lineStart, c.title)
    && forall j :: c.lineStart + more <= j < c.lineEnd ==>
         !HeadingLine(t, md, j) && Offsets(t)[j + 1] <= c.byteStart + 4096
  }

  /**
   And it ends there for a reason: the next line is a heading or too much. The
   next chunk begins with that line, or one before it if that line is no heading
   and this chunk has more than one.
   */
  ghost predicate GoesOn(t: bytes, md: bool, c: Chunk, next: Chunk) {
    && c.lineEnd < LineCount(t)
    && (HeadingLine(t, md, c.lineEnd) || Offsets(t)[c.lineEnd + 1] > c.byteStart + 4096)
    && next.lineStart ==
         if HeadingLine(t, md, c.lineEnd) || c.lineStart == c.lineEnd then c.lineEnd + 1 else c.lineEnd
  }

  /** The chunk begins with the last line of the one before. */
  predicate Overlaps(chunks: seq<Chunk>, i: nat)
    requires i < |chunks|
  {
    i > 0 && chunks[i].lineStart == chunks[i - 1].lineEnd
  }

  ghost predicate AreCut(t: bytes, md: bool, chunks: seq<Chunk>) {
    && chunks != [] && chunks[0].lineStart == 1 && chunks[|chunks| - 1].lineEnd == LineCount(t)
    && (forall i :: 0 <= i < |chunks| ==>
          chunks[i].ordinal == i && IsCut(t, md, chunks[i], Overlaps(chunks, i)))
    && (forall i :: 0 <= i < |chunks| - 1 ==> GoesOn(t, md, chunks[i], chunks[i + 1]))
  }

  lemma HeadingIsInLayout(t: bytes, md: bool, k: nat)
    requires k < LineCount(t)
    ensures HeadingLine(t, md, k) <==> LayoutOf(t, md).heading[k]
  {
    hide HeadingText, Heads;
    var found := HeadingText(Line(t, k));
    if found.Some? {
      HeadingTextIff(Line(t, k), found.value);
    } else {
      forall title
        ensures !Heads(Line(t, k), title)
      {
        HeadingTextIff(Line(t, k), title);
      }
    }
  }

  lemma {:induction false} TitleAtIs(t: bytes, n: nat)
    requires n <= LineCount(t)
    ensures IsTitleAt(t, true, n, TitleAt(AllLines(t), n))
  {
    hide HeadingText, Heads, IsTitleAt, LineCount;
    if n == 0 {
      NoTitleYet(t);
    } else {
      TitleAtIs(t, n - 1);
      HeadingIsInLayout(t, true, n - 1);
      var found := HeadingText(Line(t, n - 1));
      if found.Some? {
        HeadingTextIff(Line(t, n - 1), found.value);
        NewTitle(t, n - 1, found.value);
      } else {
        SameTitle(t, n - 1, TitleAt(AllLines(t), n - 1));
      }
    }
  }

  lemma NoTitleYet(t: bytes)
    ensures IsTitleAt(t, true, 0, [])
  {
  }

  lemma NewTitle(t: bytes, n: nat, title: bytes)
    requires n < LineCount(t) && Heads(Line(t, n), title)
    ensures IsTitleAt(t, true, n + 1, title)
  {
    hide Heads, Line, LineCount;
    assert HeadingLine(t, true, n);
  }

  lemma SameTitle(t: bytes, n: nat, title: bytes)
    requires n < LineCount(t) && !HeadingLine(t, true, n) && IsTitleAt(t, true, n, title)
    ensures IsTitleAt(t, true, n + 1, title)
  {
    hide HeadingLine, Line, LineCount;
  }

  /** No line of the span beyond its first new one cuts. */
  ghost predicate NoCutInside(t: bytes, md: bool, s: Span) {
    && FirstFresh(s.first, s.overlap) < s.end <= LineCount(t)
    && forall j :: FirstFresh(s.first, s.overlap) < j < s.end ==>
         !HeadingLine(t, md, j) && Offsets(t)[j + 1] <= Offsets(t)[s.first] + 4096
  }

  /** The span ends before a line that cuts, and the next one begins as that line says. */
  ghost predicate CutsBetween(t: bytes, md: bool, s: Span, next: Span) {
    && s.first < s.end < LineCount(t)
    && (HeadingLine(t, md, s.end) || Offsets(t)[s.end + 1] > Offsets(t)[s.first] + 4096)
    && next.overlap == (!HeadingLine(t, md, s.end) && s.end > s.first + 1)
    && next.first == if next.overlap then s.end - 1 else s.end
  }

  lemma InsideSpan(t: bytes, md: bool, i: nat)
    requires LineCount(t) > 0 && i < |Plan(LayoutOf(t, md), 0, false)|
    ensures NoCutInside(t, md, Plan(LayoutOf(t, md), 0, false)[i])
  {
    var s := Plan(LayoutOf(t, md), 0, false)[i];
    PlanIsGreedy(LayoutOf(t, md), 0, false, i);
    hide Plan, HeadingLine;
    forall j | FirstFresh(s.first, s.overlap) < j < s.end
      ensures !HeadingLine(t, md, j) && Offsets(t)[j + 1] <= Offsets(t)[s.first] + 4096
    {
      DoesNotStop(LayoutOf(t, md), i, j);
      HeadingIsInLayout(t, md, j);
    }
    assert FirstFresh(s.first, s.overlap) < s.end <= LineCount(t);
  }

  lemma DoesNotStop(l: Layout, i: nat, j: nat)
    requires l.Proper() && l.Ready(0, false) && i < |Plan(l, 0, false)|
    requires var s := Plan(l, 0, false)[i]; FirstFresh(s.first, s.overlap) < j < s.end
    ensures j < l.Count() && !l.heading[j] && l.offsets[j + 1] <= l.offsets[Plan(l, 0, false)[i].first] + 4096
  {
    var s := Plan(l, 0, false)[i];
    PlanIsGreedy(l, 0, false, i);
    StopFromIsFirst(l, s.first, s.overlap, s.first + 1);
    assert !l.Stops(s.first, s.overlap, j);
  }

  lemma BetweenSpans(t: bytes, md: bool, i: nat)
    requires LineCount(t) > 0 && i + 1 < |Plan(LayoutOf(t, md), 0, false)|
    ensures CutsBetween(t, md, Plan(LayoutOf(t, md), 0, false)[i], Plan(LayoutOf(t, md), 0, false)[i + 1])
  {
    var l := LayoutOf(t, md);
    var s := Plan(l, 0, false)[i];
    PlanIsGreedy(l, 0, false, i);
    StopFromIsFirst(l, s.first, s.overlap, s.first + 1);
    hide Plan, HeadingLine, HeadingText, Line;
    HeadingIsInLayout(t, md, s.end);
    assert l.Stops(s.first, s.overlap, s.end);
  }

  /** A span as a chunk. */
  lemma SpanIsCut(t: bytes, md: bool, s: Span, i: nat, c: Chunk)
    requires NoCutInside(t, md, s) && IsChunk(t, AllLines(t), Offsets(t), md, s, i, c)
    ensures c.ordinal == i && IsCut(t, md, c, s.overlap)
  {
    if md {
      TitleAtIs(t, c.lineStart);
    }
    var more := if s.overlap then 1 else 0;
    forall j | c.lineStart + more <= j < c.lineEnd
      ensures !HeadingLine(t, md, j) && Offsets(t)[j + 1] <= c.byteStart + 4096
    {
      assert FirstFresh(s.first, s.overlap) < j < s.end;
    }
  }

  lemma SpanGoesOn(t: bytes, md: bool, s: Span, next: Span, i: nat, c: Chunk, d: Chunk)
    requires CutsBetween(t, md, s, next)
    requires IsChunk(t, AllLines(t), Offsets(t), md, s, i, c) && IsChunk(t, AllLines(t), Offsets(t), md, next, i + 1, d)
    ensures GoesOn(t, md, c, d) && (next.overlap <==> d.lineStart == c.lineEnd)
  {
    hide HeadingLine, TitleAt, Line, Offsets, LineCount;
  }

  /** What the plan yields is cut as the text alone says. */
  lemma ChunksAreCut(t: bytes, md: bool, chunks: seq<Chunk>)
    requires t != [] && LineCount(t) > 0 && |chunks| == |Plan(LayoutOf(t, md), 0, false)|
    requires forall i :: 0 <= i < |chunks| ==>
      IsChunk(t, AllLines(t), Offsets(t), md, Plan(LayoutOf(t, md), 0, false)[i], i, chunks[i])
    ensures AreCut(t, md, chunks)
  {
    hide Plan, LayoutOf, IsCut, GoesOn, Offsets, LineCount, IsChunk, NoCutInside, CutsBetween;
    var plan := Plan(LayoutOf(t, md), 0, false);
    EndsOfPlan(t, md, chunks[0], chunks[|chunks| - 1]);
    forall i | 0 <= i < |chunks|
      ensures chunks[i].ordinal == i && IsCut(t, md, chunks[i], Overlaps(chunks, i))
    {
      InsideSpan(t, md, i);
      SpanIsCut(t, md, plan[i], i, chunks[i]);
      if i > 0 {
        BetweenSpans(t, md, i - 1);
        SpanGoesOn(t, md, plan[i - 1], plan[i], i - 1, chunks[i - 1], chunks[i]);
      }
    }
    forall i | 0 <= i < |chunks| - 1
      ensures GoesOn(t, md, chunks[i], chunks[i + 1])
    {
      BetweenSpans(t, md, i);
      SpanGoesOn(t, md, plan[i], plan[i + 1], i, chunks[i], chunks[i + 1]);
    }
  }

  lemma EndsOfPlan(t: bytes, md: bool, c: Chunk, last: Chunk)
    requires LineCount(t) > 0
    requires var plan := Plan(LayoutOf(t, md), 0, false);
      && IsChunk(t, AllLines(t), Offsets(t), md, plan[0], 0, c)
      && IsChunk(t, AllLines(t), Offsets(t), md, plan[|plan| - 1], |plan| - 1, last)
    ensures c.lineStart == 1 && last.lineEnd == LineCount(t) && !Plan(LayoutOf(t, md), 0, false)[0].overlap
  {
    PlanCovers(LayoutOf(t, md), 0, false);
  }

  // ------------------------------------------------------------------
  // The loops
  // ------------------------------------------------------------------

  method ChunkText(text: bytes, md: bool) returns (chunks: seq<Chunk>)
    ensures text == [] ==> chunks == []
    ensures text != [] ==> LineCount(text) > 0
    ensures text != [] ==>
      var plan := Plan(LayoutOf(text, md), 0, false);
      && |chunks| == |plan|
      && forall i :: 0 <= i < |chunks| ==> IsChunk(text, AllLines(text), Offsets(text), md, plan[i], i, chunks[i])
    ensures text != [] ==> AreCut(text, md, chunks)
  {
    if text == [] {
      return [];
    }
    var lines, offsets := SplitLines(text);
    OffsetsIncrease(text);
    BreaksIncrease(text, |text|);
    assert lines == AllLines(text);
    chunks := ChunkLines(text, lines, offsets, md, LayoutOf(text, md));
    ChunksAreCut(text, md, chunks);
  }

  /** The outer loop of ChunkText, over the split lines. */
  method ChunkLines(text: bytes, lines: seq<bytes>, offsets: seq<nat>, md: bool, ghost l: Layout)
    returns (chunks: seq<Chunk>)
    requires l.Proper() && l.Ready(0, false) && Describes(l, lines, offsets, md) && offsets[|lines|] == |text|
    ensures var plan := Plan(l, 0, false);
      && |chunks| == |plan|
      && forall i :: 0 <= i < |chunks| ==> IsChunk(text, lines, offsets, md, plan[i], i, chunks[i])
  {
    hide *;
    ghost var plan := Plan(l, 0, false);
    NothingFilled(l, lines, offsets, md, 0);
    NoChunkYet(text, lines, offsets, md, plan);
    Advance(l, 0);
    chunks := [];
    var lastTitle: bytes := [];
    var ordinal := 0;
    var overlapStart := false;
    var i := 0;
    while i < |lines|
      invariant 0 <= i < |lines| && ordinal == |chunks| < |plan|
      invariant plan[ordinal].first == i && plan[ordinal].overlap == overlapStart
      invariant AreChunks(text, lines, offsets, md, plan, chunks) && FirstFresh(i, overlapStart) <= |lines|
      invariant md ==> lastTitle == TitleAt(lines, FirstFresh(i, overlapStart))
      decreases |plan| - ordinal
    {
      Advance(l, ordinal);
      var start := i;
      var j, titleAtStart, headingBreak;
      j, titleAtStart, lastTitle, headingBreak := FillChunk(lines, offsets, md, start, overlapStart, lastTitle, l);
      var end := j;
      var title := [];
      if md {
        title := titleAtStart;
      }
      ChunkOfSpan(text, lines, offsets, md, l, plan[ordinal], ordinal, titleAtStart);
      var chunk := Chunk(ordinal, offsets[start], offsets[end], start + 1, end, title, text[offsets[start]..offsets[end]]);
      OneMoreChunk(text, lines, offsets, md, plan, chunks, chunk);
      chunks := chunks + [chunk];
      ordinal := ordinal + 1;
      if end >= |lines| {
        break;
      }
      if !headingBreak && end - start > 1 {
        i := end - 1;
        overlapStart := true;
      } else {
        i := end;
        overlapStart := false;
      }
    }
    TheyAreChunks(text, lines, offsets, md, plan, chunks);
  }

  /** The chunks of the first spans of the plan. */
  ghost predicate AreChunks(text: bytes, lines: seq<bytes>, offsets: seq<nat>, md: bool, plan: seq<Span>, chunks: seq<Chunk>) {
    |chunks| <= |plan| && forall k :: 0 <= k < |chunks| ==> IsChunk(text, lines, offsets, md, plan[k], k, chunks[k])
  }

  lemma NoChunkYet(text: bytes, lines: seq<bytes>, offsets: seq<nat>, md: bool, plan: seq<Span>)
    ensures AreChunks(text, lines, offsets, md, plan, []) && TitleAt(lines, FirstFresh(0, false)) == []
  {
  }

  lemma OneMoreChunk(text: bytes, lines: seq<bytes>, offsets: seq<nat>, md: bool, plan: seq<Span>, chunks: seq<Chunk>, c: Chunk)
    requires AreChunks(text, lines, offsets, md, plan, chunks) && |chunks| < |plan|
    requires IsChunk(text, lines, offsets, md, plan[|chunks|], |chunks|, c)
    ensures AreChunks(text, lines, offsets, md, plan, chunks + [c])
  {
    hide IsChunk;
  }

  lemma TheyAreChunks(text: bytes, lines: seq<bytes>, offsets: seq<nat>, md: bool, plan: seq<Span>, chunks: seq<Chunk>)
    requires AreChunks(text, lines, offsets, md, plan, chunks)
    ensures forall k :: 0 <= k < |chunks| ==> k < |plan| && IsChunk(text, lines, offsets, md, plan[k], k, chunks[k])
  {
  }

  /** From one span of the plan to the next. */
  lemma Advance(l: Layout, i: nat)
    requires l.Proper() && l.Ready(0, false) && i < |Plan(l, 0, false)|
    ensures var plan := Plan(l, 0, false);
      var s := plan[i];
      && (i == 0 ==> s.first == 0 && !s.overlap)
      && l.Ready(s.first, s.overlap) && s == FirstSpan(l, s.first, s.overlap)
      && FirstFresh(s.first, s.overlap) < s.end <= l.Count() && s.first < s.end
      && (s.end == l.Count() <==> i + 1 == |plan|)
      && (s.end < l.Count() ==>
            var overlaps := !l.heading[s.end] && s.end - s.first > 1;
            && plan[i + 1].overlap == overlaps
            && plan[i + 1].first == (if overlaps then s.end - 1 else s.end)
            && FirstFresh(plan[i + 1].first, overlaps) == s.end)
  {
    PlanIsGreedy(l, 0, false, i);
    hide Plan;
  }

  lemma ChunkOfSpan(text: bytes, lines: seq<bytes>, offsets: seq<nat>, md: bool, l: Layout, s: Span, i: nat, title: bytes)
    requires l.Proper() && Describes(l, lines, offsets, md) && offsets[|lines|] == |text|
    requires s.first < s.end <= |lines| && (md ==> title == TitleAt(lines, s.first + 1))
    ensures offsets[s.first] <= offsets[s.end] <= |text|
    ensures IsChunk(text, lines, offsets, md, s, i,
      Chunk(i, offsets[s.first], offsets[s.end], s.first + 1, s.end, if md then title else [],
            text[offsets[s.first]..offsets[s.end]]))
  {
    NothingFilled(l, lines, offsets, md, s.first);
    hide TitleAt, HeadingText, Describes;
    assert offsets[s.end] <= offsets[|lines|] by {
      assert s.end < |lines| ==> l.offsets[s.end] < l.offsets[|lines|];
    }
  }

  /** The layout says of each line how long it is and whether it cuts as a heading. */
  predicate Describes(l: Layout, lines: seq<bytes>, offsets: seq<nat>, md: bool) {
    && l.offsets == offsets && |l.heading| == |lines| && |offsets| == |lines| + 1
    && (forall k :: 0 <= k < |lines| ==> offsets[k + 1] == offsets[k] + |lines[k]|)
    && (forall k :: 0 <= k < |lines| ==> (l.heading[k] <==> md && HeadingText(lines[k]).Some?))
  }

  lemma TitleStep(lines: seq<bytes>, k: nat)
    requires k < |lines|
    ensures TitleAt(lines, k + 1)
      == if HeadingText(lines[k]).Some? then HeadingText(lines[k]).value else TitleAt(lines, k)
  {
  }

  lemma NothingFilled(l: Layout, lines: seq<bytes>, offsets: seq<nat>, md: bool, start: nat)
    requires Describes(l, lines, offsets, md) && start < l.Count()
    ensures l.offsets == offsets && l.Count() == |lines| && |offsets| == |lines| + 1
  {
  }

  /** What the loop sees of line j, and whether the chunk stops there. */
  lemma FillStep(l: Layout, lines: seq<bytes>, offsets: seq<nat>, md: bool, start: nat, overlap: bool, j: nat)
    requires l.Proper() && Describes(l, lines, offsets, md) && start <= j < |lines|
    ensures l.Count() == |lines| && |offsets| == |lines| + 1 && offsets[j + 1] == offsets[j] + |lines[j]|
    ensures offsets[start] <= offsets[j] && (offsets[start] == offsets[j] <==> j == start)
    ensures l.heading[j] <==> md && HeadingText(lines[j]).Some?
    ensures j > start ==>
      var stops := (!overlap || j > start + 1)
        && (l.heading[j] || offsets[j] - offsets[start] + |lines[j]| > CHUNK_TARGET_BYTES);
      && (stops ==> l.StopFrom(start, overlap, j) == j)
      && (!stops ==> l.StopFrom(start, overlap, j) == l.StopFrom(start, overlap, j + 1))
  {
    hide HeadingText;
  }

  /** The inner loop of ChunkText: take lines until the chunk must be cut. */
  method FillChunk(lines: seq<bytes>, offsets: seq<nat>, md: bool,
                   start: nat, overlapStart: bool, lastTitle0: bytes, ghost l: Layout)
    returns (j: nat, titleAtStart: bytes, lastTitle: bytes, headingBreak: bool)
    requires l.Proper() && Describes(l, lines, offsets, md) && l.Ready(start, overlapStart)
    requires md ==> lastTitle0 == TitleAt(lines, FirstFresh(start, overlapStart))
    ensures j == FirstSpan(l, start, overlapStart).end
    ensures md ==> titleAtStart == TitleAt(lines, start + 1) && lastTitle == TitleAt(lines, j)
    ensures headingBreak <==> j < |lines| && l.heading[j]
  {
    hide HeadingText, TitleAt, Describes;
    NothingFilled(l, lines, offsets, md, start);
    lastTitle := lastTitle0;
    titleAtStart := lastTitle;
    headingBreak := false;
    j := start;
    var curBytes := 0;
    var hasNewLine := !overlapStart;
    while j < |lines|
      invariant start <= j <= |lines|
      invariant !headingBreak
      invariant offsets[start] <= offsets[j] && curBytes == offsets[j] - offsets[start]
      invariant hasNewLine == (!overlapStart || j > start + 1)
      invariant j > start ==> l.StopFrom(start, overlapStart, start + 1) == l.StopFrom(start, overlapStart, j)
      invariant md && j == start ==> lastTitle == titleAtStart == lastTitle0
      invariant md && j > start ==> titleAtStart == TitleAt(lines, start + 1) && lastTitle == TitleAt(lines, j)
    {
      TitleStep(lines, j);
      FillStep(l, lines, offsets, md, start, overlapStart, j);
      if md {
        var h := HeadingText(lines[j]);
        if h.Some? {
          if j == start {
            titleAtStart := h.value;
            lastTitle := h.value;
          } else if hasNewLine {
            headingBreak := true;
            return;
          } else {
            lastTitle := h.value;
          }
        }
      }
      var lineLen := |lines[j]|;
      if curBytes > 0 && curBytes + lineLen > CHUNK_TARGET_BYTES && hasNewLine {
        return;
      }
      curBytes := curBytes + lineLen;
      if j > start {
        hasNewLine := true;
      }
      j := j + 1;
    }
  }
}
