/**
 ctr_fetch over a stored blob: the byte and line selectors of ReadRange, the
 byte budget, and reading a blob page by page.
 */
module Fetch {
  import opened Common
  import opened Lines
  import opened Utf8

  const DEFAULT_RETURN_BYTES: nat := 16384
  const MAX_RETURN_BYTES: nat := 65536

  /** The budget the tool uses for a requested max_return_bytes. */
  function Budget(requested: int): (b: nat)
    ensures 1 <= b <= 65536
    ensures requested <= 0 ==> b == 16384
    ensures requested >= 1 ==> b == Min(requested, 65536)
  {
    if requested <= 0 then DEFAULT_RETURN_BYTES
    else if requested > MAX_RETURN_BYTES then MAX_RETURN_BYTES
    else requested
  }

  /** The byte selector: refused unless it is a nonempty range of the blob, else snapped to characters. */
  function ByteRange(blob: bytes, byteStart: int, byteEnd: int): (r: Option<Range>)
    ensures r.Some? <==> 0 <= byteStart < byteEnd <= |blob|
    ensures r.Some? ==> Locates(blob, r.value) && ValidUtf8(r.value.text)
  {
    if byteStart < 0 || byteEnd <= byteStart || byteStart >= |blob| || byteEnd > |blob| then None
    else
      var s := SnapStart(blob, byteStart);
      var e := SnapEnd(blob, s, byteEnd);
      SnappedIsValid(blob, s, byteEnd);
      Some(Range(blob[s..e], s, e, 0, 0))
  }

  method ReadByteRange(blob: bytes, byteStart: int, byteEnd: int) returns (r: Option<Range>)
    ensures r == ByteRange(blob, byteStart, byteEnd)
  {
    var n := |blob|;
    if byteStart < 0 || byteEnd <= byteStart || byteStart >= n || byteEnd > n {
      return None;
    }
    var s, e := SnapUtf8(blob, byteStart, byteEnd);
    return Some(Range(blob[s..e], s, e, 0, 0));
  }

  /** The line selector: whole existing lines only, with coordinates that locate them. */
  method ReadLineRange(blob: bytes, lineStart: int, lineEnd: int) returns (r: Option<Range>)
    ensures r.Some? <==> 1 <= lineStart <= lineEnd <= LineCount(blob)
    ensures r.Some? ==> Locates(blob, r.value) && r.value.byteStart < r.value.byteEnd
    ensures r.Some? ==> r.value.lineStart == lineStart && r.value.lineEnd == lineEnd
    ensures r.Some? ==> lineEnd == LineOf(blob, r.value.byteEnd - 1)
    ensures r.Some? && r.value.byteEnd < |blob| ==> LineOf(blob, r.value.byteEnd) == lineEnd + 1
  {
    hide Breaks, Offsets;
    var lc := CountLines(blob);
    if lineStart < 1 || lineEnd < lineStart || lineStart > lc || lineEnd > lc {
      return None;
    }
    var b, e := LineByteRange(blob, lineStart, lineEnd);
    ReaderAgreesWithSplitter(blob, lineStart, lineEnd);
    OffsetsIncrease(blob);
    LineOfOffset(blob, lineStart - 1, b);
    LineOfOffset(blob, lineEnd - 1, e - 1);
    if e < |blob| { LineOfOffset(blob, lineEnd, e); }
    r := Some(Range(blob[b..e], b, e, lineStart, lineEnd));
  }

  // ------------------------------------------------------------------
  // Paging
  // ------------------------------------------------------------------

  datatype Page = Page(text: bytes, byteEnd: nat)

  /** One ctr_fetch call with a byte selector. */
  function PageAt(blob: bytes, start: nat, end: nat, budget: nat): (p: Page)
    requires start < end <= |blob|
  {
    var r := ByteRange(blob, start, end).value;
    if |r.text| <= budget then Page(r.text, r.byteEnd)
    else
      var n := CutLen(r.text, budget);
      Page(r.text[..n], r.byteStart + n)
  }

  method FetchPage(blob: bytes, start: nat, end: nat, requested: int) returns (p: Page)
    requires start < end <= |blob|
    ensures p == PageAt(blob, start, end, Budget(requested))
  {
    var r := ReadByteRange(blob, start, end);
    var text, byteEnd, _, _ := ApplyFetchBudget(blob, r.value, Budget(requested));
    assert r.value.text == blob[r.value.byteStart..r.value.byteEnd];
    p := Page(text, byteEnd);
  }

  /** The page is the blob from the cursor to the last boundary within both the request and the budget. */
  lemma PageIsToLastBoundary(blob: bytes, start: nat, end: nat, budget: nat)
    requires ValidUtf8(blob) && Boundary(blob, start) && start < end <= |blob|
    ensures var p := PageAt(blob, start, end, budget);
      && start <= p.byteEnd <= Min(end, start + budget)
      && p.text == blob[start..p.byteEnd]
      && Boundary(blob, p.byteEnd)
      && forall b :: start <= b <= Min(end, start + budget) && Boundary(blob, b) ==> b <= p.byteEnd
  {
    hide CharLen, ValidUtf8, SnapStart, SnapEnd, CutLen, Boundary;
    SnapKeepsBoundary(blob, start);
    SnapEndIsLastBoundary(blob, start, end);
    var r := ByteRange(blob, start, end).value;
    assert r.byteStart == start && r.text == blob[start..r.byteEnd];
    if |r.text| > budget {
      CutInSlice(blob, start, r.byteEnd, budget);
      var n := CutLen(r.text, budget);
      assert r.text[..n] == blob[start..start + n];
    }
  }

  lemma CutInSlice(s: bytes, a: nat, e: nat, budget: nat)
    requires ValidUtf8(s) && Boundary(s, a) && Boundary(s, e) && a + budget < e
    requires ValidUtf8(s[a..e])
    ensures var n := CutLen(s[a..e], budget);
      && n <= budget && Boundary(s, a + n)
      && forall b :: a <= b <= a + budget && Boundary(s, b) ==> b <= a + n
  {
    hide CharLen, ValidUtf8, CutLen;
    var n := CutLen(s[a..e], budget);
    CutIsLastBoundary(s[a..e], budget);
    BoundaryInSlice(s, a, e, n);
    forall b | a <= b <= a + budget && Boundary(s, b) ensures b <= a + n {
      BoundaryInSlice(s, a, e, b - a);
    }
  }

  /** Boundaries of a slice between boundaries are the boundaries of the text inside it. */
  lemma BoundaryInSlice(s: bytes, a: nat, e: nat, k: nat)
    requires ValidUtf8(s) && Boundary(s, a) && Boundary(s, e) && a + k <= e
    requires ValidUtf8(s[a..e])
    ensures Boundary(s[a..e], k) <==> Boundary(s, a + k)
  {
    hide ValidUtf8, CharLen;
    StartsAreBoundaries(s[a..e], k);
    StartsAreBoundaries(s, a + k);
    if k < |s[a..e]| { assert s[a..e][k] == s[a + k]; }
  }

  /** A page moves the cursor exactly when the next character fits the request and the budget. */
  lemma PageAdvances(blob: bytes, start: nat, end: nat, budget: nat)
    requires ValidUtf8(blob) && Boundary(blob, start) && start < end <= |blob|
    ensures PageAt(blob, start, end, budget).byteEnd > start
      <==> CharLen(blob[start..]) <= Min(end - start, budget)
  {
    PageIsToLastBoundary(blob, start, end, budget);
    NextBoundary(blob, start);
    var p := PageAt(blob, start, end, budget);
    if start < p.byteEnd < start + CharLen(blob[start..]) {
      NoBoundaryInside(blob, start, p.byteEnd);
    }
  }

  /** With a budget of four bytes or more and a request reaching four bytes or the end, it always moves. */
  lemma FourBytesAlwaysAdvance(blob: bytes, start: nat, end: nat, budget: nat)
    requires ValidUtf8(blob) && Boundary(blob, start) && start < end <= |blob|
    requires budget >= 4 && (end - start >= 4 || end == |blob|)
    ensures PageAt(blob, start, end, budget).byteEnd > start
  {
    PageAdvances(blob, start, end, budget);
  }

  /** Three bytes are not enough: before a four-byte character the cursor stays where it is. */
  lemma ThreeBytesCanStall()
    ensures exists blob: bytes :: ValidUtf8(blob) && |blob| == 4 && PageAt(blob, 0, 4, 3) == Page([], 0)
  {
    var blob: bytes := [0xF0, 0x9F, 0x98, 0x80];
    assert blob[..4] == blob && blob[0..] == blob;
    OneCharacterIsValid(blob);
    EndsAreBoundaries(blob);
    PageIsToLastBoundary(blob, 0, 4, 3);
    PageAdvances(blob, 0, 4, 3);
  }

  datatype Request = Request(start: nat, end: nat, budget: nat)

  /** A reading session: the first page starts at 0, each next one where the last one ended. */
  predicate Session(blob: bytes, reqs: seq<Request>) {
    && (forall i :: 0 <= i < |reqs| ==> reqs[i].start < reqs[i].end <= |blob|)
    && (forall i :: 0 <= i < |reqs| ==> reqs[i].start == CursorBefore(blob, reqs, i))
  }

  function CursorBefore(blob: bytes, reqs: seq<Request>, i: nat): nat
    requires i <= |reqs|
    requires forall i :: 0 <= i < |reqs| ==> reqs[i].start < reqs[i].end <= |blob|
  {
    if i == 0 then 0 else PageAt(blob, reqs[i - 1].start, reqs[i - 1].end, reqs[i - 1].budget).byteEnd
  }

  lemma OneMoreRequest(blob: bytes, reqs: seq<Request>, q: Request) returns (more: seq<Request>)
    requires Session(blob, reqs) && q.start < q.end <= |blob| && q.start == CursorBefore(blob, reqs, |reqs|)
    ensures more == reqs + [q] && Session(blob, more)
    ensures CursorBefore(blob, more, |more|) == PageAt(blob, q.start, q.end, q.budget).byteEnd
  {
    hide PageAt;
    more := reqs + [q];
    forall i | 0 <= i <= |reqs|
      ensures CursorBefore(blob, more, i) == CursorBefore(blob, reqs, i)
    {
    }
  }

  /** A reader who always asks for the rest gets the whole blob. */
  lemma RestAfterRestIsBlob(blob: bytes, budget: nat) returns (reqs: seq<Request>)
    requires ValidUtf8(blob) && budget >= 4
    ensures Session(blob, reqs) && Received(blob, reqs, |reqs|) == blob
    ensures forall q :: q in reqs ==> q.budget == budget && q.end == |blob|
  {
    hide ValidUtf8, PageAt, Boundary, CharLen, CursorBefore;
    NoRequestYet(blob);
    reqs := [];
    var cursor := 0;
    EndsAreBoundaries(blob);
    while cursor < |blob|
      invariant cursor <= |blob| && Boundary(blob, cursor)
      invariant Session(blob, reqs) && CursorBefore(blob, reqs, |reqs|) == cursor
      invariant forall q :: q in reqs ==> q.budget == budget && q.end == |blob|
      decreases |blob| - cursor
    {
      var more := OneMoreRequest(blob, reqs, Request(cursor, |blob|, budget));
      FourBytesAlwaysAdvance(blob, cursor, |blob|, budget);
      PageIsToLastBoundary(blob, cursor, |blob|, budget);
      cursor := PageAt(blob, cursor, |blob|, budget).byteEnd;
      reqs := more;
    }
    assert Session(blob, reqs) && Received(blob, reqs, |reqs|) == blob by {
      SessionIsLossless(blob, reqs, |reqs|);
      assert blob[..|blob|] == blob;
    }
  }

  lemma NoRequestYet(blob: bytes)
    ensures Session(blob, []) && CursorBefore(blob, [], 0) == 0
  {
  }

  function Received(blob: bytes, reqs: seq<Request>, n: nat): bytes
    requires n <= |reqs|
    requires forall i :: 0 <= i < |reqs| ==> reqs[i].start < reqs[i].end <= |blob|
  {
    if n == 0 then []
    else Received(blob, reqs, n - 1) + PageAt(blob, reqs[n - 1].start, reqs[n - 1].end, reqs[n - 1].budget).text
  }

  /**
   Every session has read exactly the blob up to its cursor. If every budget is
   four bytes or more and every request reaches four bytes or the end, every page
   has moved it: after |blob| pages at most the whole blob has been returned.
   */
  lemma {:induction false} SessionIsLossless(blob: bytes, reqs: seq<Request>, n: nat)
    requires ValidUtf8(blob) && Session(blob, reqs) && n <= |reqs|
    ensures CursorBefore(blob, reqs, n) <= |blob|
    ensures (forall i :: 0 <= i < n ==>
      reqs[i].budget >= 4 && (reqs[i].end - reqs[i].start >= 4 || reqs[i].end == |blob|)) ==>
      n <= CursorBefore(blob, reqs, n)
    ensures Boundary(blob, CursorBefore(blob, reqs, n))
    ensures Received(blob, reqs, n) == blob[..CursorBefore(blob, reqs, n)]
  {
    hide CharLen, ValidUtf8, PageAt;
    if n == 0 {
      EndsAreBoundaries(blob);
    } else {
      SessionIsLossless(blob, reqs, n - 1);
      var q := reqs[n - 1];
      PageIsToLastBoundary(blob, q.start, q.end, q.budget);
      if q.budget >= 4 && (q.end - q.start >= 4 || q.end == |blob|) {
        FourBytesAlwaysAdvance(blob, q.start, q.end, q.budget);
      }
      var p := PageAt(blob, q.start, q.end, q.budget);
      assert blob[..q.start] + blob[q.start..p.byteEnd] == blob[..p.byteEnd];
    }
  }
}
