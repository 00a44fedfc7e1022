/**
 UTF-8 as the store reads it: Go's rune decoder, the grammar of RFC 3629
 section 4 as the independent definition of validity, and the two operations
 that cut stored bytes on character boundaries (snapUTF8 and the byte budget).
 */
module Utf8 {
  import opened Common

  /** What utf8.DecodeRune returns: a code point and the bytes it took. */
  datatype Rune = Rune(value: int, size: nat)

  const RUNE_ERROR: int := 0xFFFD

  predicate Tail(b: byte) {
    0x80 <= b <= 0xBF
  }

  /** utf8.RuneStart: the two top bits are not 10. */
  predicate RuneStart(b: byte) {
    b / 64 != 2
  }

  /** One character of the UTF8-octets grammar in RFC 3629 section 4. */
  predicate Utf8Char(c: bytes) {
    || (|c| == 1 && c[0] <= 0x7F)
    || (|c| == 2 && 0xC2 <= c[0] <= 0xDF && Tail(c[1]))
    || (|c| == 3 && c[0] == 0xE0 && 0xA0 <= c[1] <= 0xBF && Tail(c[2]))
    || (|c| == 3 && 0xE1 <= c[0] <= 0xEC && Tail(c[1]) && Tail(c[2]))
    || (|c| == 3 && c[0] == 0xED && 0x80 <= c[1] <= 0x9F && Tail(c[2]))
    || (|c| == 3 && 0xEE <= c[0] <= 0xEF && Tail(c[1]) && Tail(c[2]))
    || (|c| == 4 && c[0] == 0xF0 && 0x90 <= c[1] <= 0xBF && Tail(c[2]) && Tail(c[3]))
    || (|c| == 4 && 0xF1 <= c[0] <= 0xF3 && Tail(c[1]) && Tail(c[2]) && Tail(c[3]))
    || (|c| == 4 && c[0] == 0xF4 && 0x80 <= c[1] <= 0x8F && Tail(c[2]) && Tail(c[3]))
  }

  /** Length of the grammar character at the front of s, or 0 when there is none. */
  function CharLen(s: bytes): (n: nat)
    ensures n <= |s| && n <= 4
    ensures n > 0 ==> Utf8Char(s[..n])
  {
    if |s| >= 1 && Utf8Char(s[..1]) then 1
    else if |s| >= 2 && Utf8Char(s[..2]) then 2
    else if |s| >= 3 && Utf8Char(s[..3]) then 3
    else if |s| >= 4 && Utf8Char(s[..4]) then 4
    else 0
  }

  predicate ValidUtf8(s: bytes) {
    s == [] || (CharLen(s) > 0 && ValidUtf8(s[CharLen(s)..]))
  }

  /** The encoding table of RFC 3629 section 3. */
  function Encode(v: int): bytes
    requires 0 <= v <= 0x10FFFF
  {
    if v <= 0x7F then [v]
    else if v <= 0x7FF then [0xC0 + v / 0x40, 0x80 + v % 0x40]
    else if v <= 0xFFFF then [0xE0 + v / 0x40 / 0x40, 0x80 + v / 0x40 % 0x40, 0x80 + v % 0x40]
    else [0xF0 + v / 0x40 / 0x40 / 0x40, 0x80 + v / 0x40 / 0x40 % 0x40, 0x80 + v / 0x40 % 0x40, 0x80 + v % 0x40]
  }

  /** Append the payload bits of one byte to those already read. */
  function Bits(acc: int, b: int, mark: int): int {
    acc * 0x40 + (b - mark)
  }

  /** utf8.DecodeRune, with its accept ranges for the second byte. */
  function DecodeRune(s: bytes): (r: Rune)
    ensures r.size <= |s|
    ensures r.size == 0 <==> s == []
  {
    if s == [] then Rune(RUNE_ERROR, 0)
    else if s[0] < 0x80 then Rune(s[0], 1)
    else if 0xC2 <= s[0] <= 0xDF && |s| >= 2 && Tail(s[1]) then
      Rune(Bits(Bits(0, s[0], 0xC0), s[1], 0x80), 2)
    else if 0xE0 <= s[0] <= 0xEF && |s| >= 3 && AcceptSecond(s[0], s[1]) && Tail(s[2]) then
      Rune(Bits(Bits(Bits(0, s[0], 0xE0), s[1], 0x80), s[2], 0x80), 3)
    else if 0xF0 <= s[0] <= 0xF4 && |s| >= 4 && AcceptSecond(s[0], s[1]) && Tail(s[2]) && Tail(s[3]) then
      Rune(Bits(Bits(Bits(Bits(0, s[0], 0xF0), s[1], 0x80), s[2], 0x80), s[3], 0x80), 4)
    else Rune(RUNE_ERROR, 1)
  }

  predicate AcceptSecond(lead: byte, b: byte) {
    var lo := if lead == 0xE0 then 0xA0 else if lead == 0xF0 then 0x90 else 0x80;
    var hi := if lead == 0xED then 0x9F else if lead == 0xF4 then 0x8F else 0xBF;
    lo <= b <= hi
  }

  /** The test Go callers use for a decode that found no character. */
  predicate Bad(r: Rune) {
    r.size == 0 || (r.value == RUNE_ERROR && r.size <= 1)
  }

  lemma DecodeIsGrammar(s: bytes)
    ensures Bad(DecodeRune(s)) <==> CharLen(s) == 0
    ensures CharLen(s) > 0 ==> DecodeRune(s).size == CharLen(s)
  {
    if |s| >= 1 { assert s[..1][0] == s[0]; }
    if |s| >= 2 { assert s[..2][0] == s[0] && s[..2][1] == s[1]; }
    if |s| >= 3 { assert s[..3][0] == s[0] && s[..3][1] == s[1] && s[..3][2] == s[2]; }
    if |s| >= 4 { assert s[..4][0] == s[0] && s[..4][1] == s[1] && s[..4][2] == s[2] && s[..4][3] == s[3]; }
  }

  /** A successful decode is the unique scalar value whose encoding stands at the front of s. */
  lemma DecodeInvertsEncode(s: bytes)
    requires CharLen(s) > 0
    ensures var r := DecodeRune(s);
      && 0 <= r.value <= 0x10FFFF && !(0xD800 <= r.value <= 0xDFFF)
      && s[..r.size] == Encode(r.value)
  {
    DecodeIsGrammar(s);
    match CharLen(s)
    case 1 =>
    case 2 => EncodeTwo(s[0], s[1]);
    case 3 => EncodeThree(s[0], s[1], s[2]);
    case _ => EncodeFour(s[0], s[1], s[2], s[3]);
  }

  lemma EncodeTwo(a: byte, b: byte)
    requires Utf8Char([a, b])
    ensures var v := Bits(Bits(0, a, 0xC0), b, 0x80);
      0x80 <= v <= 0x7FF && Encode(v) == [a, b]
  {
    var v := Bits(Bits(0, a, 0xC0), b, 0x80);
    assert v / 0x40 == a - 0xC0 && v % 0x40 == b - 0x80 by { Sextet(a - 0xC0, b - 0x80); }
  }

  lemma EncodeThree(a: byte, b: byte, c: byte)
    requires Utf8Char([a, b, c])
    ensures var v := Bits(Bits(Bits(0, a, 0xE0), b, 0x80), c, 0x80);
      0x800 <= v <= 0xFFFF && !(0xD800 <= v <= 0xDFFF) && Encode(v) == [a, b, c]
  {
    hide Utf8Char, Encode, Bits;
    var u := Bits(Bits(0, a, 0xE0), b, 0x80);
    var v := Bits(u, c, 0x80);
    ThreeByteRange(a, b, c);
    BitsAre(0, a, 0xE0);
    BitsAre(a - 0xE0, b, 0x80);
    BitsAre(u, c, 0x80);
    Sextet(u, c - 0x80);
    Sextet(a - 0xE0, b - 0x80);
    NoSurrogate(u, c - 0x80);
    EncodedInThree(v, u);
  }

  lemma NoSurrogate(high: int, low: int)
    requires 0x20 <= high <= 0x3FF && !(0x360 <= high <= 0x37F) && 0 <= low < 0x40
    ensures var v := high * 0x40 + low;
      0x800 <= v <= 0xFFFF && !(0xD800 <= v <= 0xDFFF)
  {
  }

  lemma ThreeByteRange(a: byte, b: byte, c: byte)
    requires Utf8Char([a, b, c])
    ensures 0xE0 <= a && 0x80 <= b < 0xC0 && 0x80 <= c < 0xC0
    ensures 0x20 <= Bits(Bits(0, a, 0xE0), b, 0x80) <= 0x3FF
    ensures !(0x360 <= Bits(Bits(0, a, 0xE0), b, 0x80) <= 0x37F)
  {
  }

  lemma EncodedInThree(v: int, u: int)
    requires 0x800 <= v <= 0xFFFF && u == v / 0x40
    ensures Encode(v) == [0xE0 + u / 0x40, 0x80 + u % 0x40, 0x80 + v % 0x40]
  {
  }

  lemma EncodeFour(a: byte, b: byte, c: byte, d: byte)
    requires Utf8Char([a, b, c, d])
    ensures var v := Bits(Bits(Bits(Bits(0, a, 0xF0), b, 0x80), c, 0x80), d, 0x80);
      0x10000 <= v <= 0x10FFFF && Encode(v) == [a, b, c, d]
  {
    hide Utf8Char, Encode, Bits;
    var t := Bits(Bits(0, a, 0xF0), b, 0x80);
    var u := Bits(t, c, 0x80);
    var v := Bits(u, d, 0x80);
    FourByteRange(a, b, c, d);
    BitsAre(0, a, 0xF0);
    BitsAre(a - 0xF0, b, 0x80);
    BitsAre(t, c, 0x80);
    BitsAre(u, d, 0x80);
    Sextet(u, d - 0x80);
    Sextet(t, c - 0x80);
    Sextet(a - 0xF0, b - 0x80);
    EncodedInFour(v, u, t);
  }

  lemma BitsAre(acc: int, b: int, mark: int)
    ensures Bits(acc, b, mark) == acc * 0x40 + (b - mark)
  {
  }

  lemma EncodedInFour(v: int, u: int, t: int)
    requires 0x10000 <= v <= 0x10FFFF && u == v / 0x40 && t == u / 0x40
    ensures Encode(v) == [0xF0 + t / 0x40, 0x80 + t % 0x40, 0x80 + u % 0x40, 0x80 + v % 0x40]
  {
  }

  lemma FourByteRange(a: byte, b: byte, c: byte, d: byte)
    requires Utf8Char([a, b, c, d])
    ensures 0xF0 <= a && 0x80 <= b < 0xC0 && 0x80 <= c < 0xC0 && 0x80 <= d < 0xC0
    ensures 0x10 <= Bits(Bits(0, a, 0xF0), b, 0x80) <= 0x10F
  {
  }

  lemma Sextet(high: int, low: int)
    requires 0 <= high && 0 <= low < 0x40
    ensures (high * 0x40 + low) / 0x40 == high && (high * 0x40 + low) % 0x40 == low
  {
  }

  /** Only a first byte is a RuneStart byte inside a character. */
  lemma TailsAreNotStarts(c: bytes, k: nat)
    requires Utf8Char(c) && k < |c|
    ensures RuneStart(c[k]) <==> k == 0
  {
  }

  // ------------------------------------------------------------------
  // Character boundaries of a valid text
  // ------------------------------------------------------------------

  predicate Boundary(s: bytes, i: nat) {
    i <= |s| && ValidUtf8(s[..i]) && ValidUtf8(s[i..])
  }

  lemma EndsAreBoundaries(s: bytes)
    requires ValidUtf8(s)
    ensures Boundary(s, 0) && Boundary(s, |s|)
  {
    assert s[..0] == [] && s[0..] == s && s[..|s|] == s && s[|s|..] == [];
  }

  /** A front character decides CharLen whatever follows it. */
  lemma CharLenOfPrefix(s: bytes, n: nat)
    requires CharLen(s) > 0 && CharLen(s) <= n <= |s|
    ensures CharLen(s[..n]) == CharLen(s)
  {
    var c := CharLen(s);
    forall k | 1 <= k <= 4 && k <= n ensures s[..n][..k] == s[..k] {}
  }

  lemma {:induction false} ConcatValid(a: bytes, b: bytes)
    requires ValidUtf8(a) && ValidUtf8(b)
    ensures ValidUtf8(a + b)
    decreases |a|
  {
    hide *;
    if a == [] {
      assert a + b == b;
    } else {
      ValidRest(a);
      ConcatValid(a[CharLen(a)..], b);
      CharLenFront(a, b);
      ValidFromRest(a, b);
    }
  }

  lemma ValidRest(s: bytes)
    requires ValidUtf8(s) && s != []
    ensures CharLen(s) > 0 && ValidUtf8(s[CharLen(s)..])
  {
  }

  lemma ValidFromRest(a: bytes, b: bytes)
    requires CharLen(a) > 0 && CharLen(a + b) == CharLen(a) && ValidUtf8(a[CharLen(a)..] + b)
    ensures ValidUtf8(a + b)
  {
    hide CharLen;
    assert (a + b)[CharLen(a)..] == a[CharLen(a)..] + b;
  }

  lemma CharLenFront(a: bytes, b: bytes)
    requires CharLen(a) > 0
    ensures CharLen(a + b) == CharLen(a)
  {
    var n := CharLen(a);
    forall k | 0 <= k <= |a| ensures (a + b)[..k] == a[..k] {}
  }

  /** In a valid text the boundaries are exactly the ends and the RuneStart bytes. */
  lemma {:induction false} StartsAreBoundaries(s: bytes, i: nat)
    requires ValidUtf8(s) && i <= |s|
    ensures Boundary(s, i) <==> i == |s| || RuneStart(s[i])
    decreases |s|
  {
    hide CharLen;
    if i == 0 {
      assert s[..0] == [] && s[0..] == s;
      if s != [] { TailsAreNotStarts(s[..CharLen(s)], 0); }
    } else if i == |s| {
      assert s[..i] == s && s[i..] == [];
    } else {
      var n := CharLen(s);
      if i < n {
        TailsAreNotStarts(s[..n], i);
        InsideCharacter(s, i);
      } else {
        StartsAreBoundaries(s[n..], i - n);
        BoundaryAfterFirst(s, i);
      }
    }
  }

  /** Beyond the first character a boundary of the text is one of the rest. */
  lemma BoundaryAfterFirst(s: bytes, i: nat)
    requires ValidUtf8(s) && s != [] && CharLen(s) <= i < |s|
    ensures Boundary(s, i) <==> Boundary(s[CharLen(s)..], i - CharLen(s))
  {
    hide CharLen;
    var n := CharLen(s);
    CharLenOfPrefix(s, i);
    PrefixAfterFirst(s, i);
    assert s[n..][i - n..] == s[i..];
    hide ValidUtf8;
  }

  lemma PrefixAfterFirst(s: bytes, i: nat)
    requires ValidUtf8(s) && s != [] && CharLen(s) <= i <= |s| && CharLen(s[..i]) == CharLen(s)
    ensures ValidUtf8(s[..i]) <==> ValidUtf8(s[CharLen(s)..][..i - CharLen(s)])
  {
    hide CharLen;
    var n := CharLen(s);
    assert s[..i][n..] == s[n..][..i - n];
    assert s[..i] != [];
  }

  lemma InsideCharacter(s: bytes, i: nat)
    requires CharLen(s) > i > 0
    ensures !ValidUtf8(s[i..])
  {
    var n := CharLen(s);
    TailsAreNotStarts(s[..n], i);
    assert !RuneStart(s[i]);
    var t := s[i..];
    var m := CharLen(t);
    if m > 0 {
      TailsAreNotStarts(t[..m], 0);
    }
  }

  // ------------------------------------------------------------------
  // snapUTF8
  // ------------------------------------------------------------------

  /** Where the start offset lands: back over bytes that cannot begin a character. */
  function SnapStart(data: bytes, start: nat): (r: nat)
    requires start <= |data|
    ensures r <= start
    ensures forall k :: r < k <= start && k < |data| ==> !RuneStart(data[k])
    ensures r == 0 || r == |data| || RuneStart(data[r])
  {
    if 0 < start < |data| && !RuneStart(data[start]) then SnapStart(data, start - 1) else start
  }

  /** Where consuming whole characters from pos without passing end stops. */
  function SnapEnd(data: bytes, pos: nat, end: nat): (r: nat)
    requires pos <= end <= |data|
    ensures pos <= r <= end
    decreases end - pos
  {
    var n := CharLen(data[pos..]);
    if 0 < n && pos + n <= end then SnapEnd(data, pos + n, end) else pos
  }

  /** Whatever the bytes, what lies between the snapped ends is valid UTF-8. */
  lemma {:induction false} SnappedIsValid(data: bytes, pos: nat, end: nat)
    requires pos <= end <= |data|
    ensures ValidUtf8(data[pos..SnapEnd(data, pos, end)])
    decreases end - pos
  {
    var n := CharLen(data[pos..]);
    if 0 < n && pos + n <= end {
      SnappedIsValid(data, pos + n, end);
      SnapEndStep(data, pos, pos + n, SnapEnd(data, pos, end));
    } else {
      assert data[pos..pos] == [];
    }
  }

  /** And it is as long as it can be: it stops at the end, or where no character fits before the end. */
  lemma {:induction false} SnappedIsMaximal(data: bytes, pos: nat, end: nat)
    requires pos <= end <= |data|
    ensures var r := SnapEnd(data, pos, end);
      CharLen(data[r..]) == 0 || r + CharLen(data[r..]) > end
    decreases end - pos
  {
    hide CharLen;
    var n := CharLen(data[pos..]);
    if 0 < n && pos + n <= end {
      SnappedIsMaximal(data, pos + n, end);
    }
  }

  lemma SnapEndStep(data: bytes, pos: nat, mid: nat, r: nat)
    requires pos <= mid <= r <= |data|
    requires CharLen(data[pos..]) > 0 && mid == pos + CharLen(data[pos..])
    requires ValidUtf8(data[mid..r])
    ensures ValidUtf8(data[pos..r])
  {
    var n := CharLen(data[pos..]);
    assert data[pos..][..r - pos] == data[pos..r];
    CharLenOfPrefix(data[pos..], r - pos);
    assert data[pos..r][n..] == data[mid..r];
  }

  /** One round of the forward scan, in terms of the decoder it calls. */
  lemma SnapEndByRune(data: bytes, pos: nat, end: nat)
    requires pos < end <= |data|
    ensures var r := DecodeRune(data[pos..]);
      if Bad(r) || pos + r.size > end then SnapEnd(data, pos, end) == pos
      else pos + r.size <= end && SnapEnd(data, pos, end) == SnapEnd(data, pos + r.size, end)
  {
    DecodeIsGrammar(data[pos..]);
    hide CharLen, DecodeRune;
  }

  /** The backward loop of snapUTF8 and of search's snapWindow. */
  method ScanBack(data: bytes, from: nat) returns (start: nat)
    requires from <= |data|
    ensures start == SnapStart(data, from)
  {
    start := from;
    while start > 0 && start < |data| && !RuneStart(data[start])
      invariant start <= from
      invariant SnapStart(data, start) == SnapStart(data, from)
    {
      start := start - 1;
    }
  }

  /** The forward loop of snapUTF8 and of search's snapWindow. */
  method ScanForward(data: bytes, from: nat, end: nat) returns (pos: nat)
    requires from <= end <= |data|
    ensures pos == SnapEnd(data, from, end)
  {
    hide SnapEnd, CharLen, DecodeRune;
    pos := from;
    while pos < end
      invariant from <= pos <= end
      invariant SnapEnd(data, pos, end) == SnapEnd(data, from, end)
    {
      var r := DecodeRune(data[pos..]);
      SnapEndByRune(data, pos, end);
      if Bad(r) || pos + r.size > end {
        return;
      }
      pos := pos + r.size;
    }
  }

  method SnapUtf8(data: bytes, start0: int, end0: int) returns (start: nat, pos: nat)
    ensures var s := if start0 < 0 then 0 else Min(start0, |data|);
      var e := if end0 < s then s else Min(end0, |data|);
      start == SnapStart(data, s) && pos == SnapEnd(data, start, e)
    ensures start <= pos <= |data|
    ensures ValidUtf8(data[start..pos])
  {
    var n := |data|;
    var s, end := start0, end0;
    if s < 0 {
      s := 0;
    } else if s > n {
      s := n;
    }
    if end < s {
      end := s;
    } else if end > n {
      end := n;
    }
    start := ScanBack(data, s);
    pos := ScanForward(data, start, end);
    SnappedIsValid(data, start, end);
  }

  /** On a valid text a boundary stays where it is. */
  lemma SnapKeepsBoundary(s: bytes, i: nat)
    requires ValidUtf8(s) && Boundary(s, i)
    ensures SnapStart(s, i) == i
  {
    StartsAreBoundaries(s, i);
  }

  /** From a boundary of a valid text, snapping the end finds the last boundary not after it. */
  lemma {:induction false} SnapEndIsLastBoundary(s: bytes, pos: nat, end: nat)
    requires ValidUtf8(s) && Boundary(s, pos) && pos <= end <= |s|
    ensures Boundary(s, SnapEnd(s, pos, end))
    ensures forall b :: pos <= b <= end && Boundary(s, b) ==> b <= SnapEnd(s, pos, end)
    decreases end - pos
  {
    hide CharLen, ValidUtf8;
    var n := CharLen(s[pos..]);
    if pos < |s| && pos + n <= end {
      NextBoundary(s, pos);
      if pos < end { SnapEndIsLastBoundary(s, pos + n, end); }
      forall b | pos <= b <= end && Boundary(s, b) ensures b <= SnapEnd(s, pos, end) {
        if pos < b < pos + n { NoBoundaryInside(s, pos, b); }
      }
    } else {
      forall b | pos <= b <= end && Boundary(s, b) ensures b <= SnapEnd(s, pos, end) {
        if pos < b { NoBoundaryInside(s, pos, b); }
      }
    }
  }

  lemma NextBoundary(s: bytes, pos: nat)
    requires Boundary(s, pos) && pos < |s|
    ensures CharLen(s[pos..]) > 0
    ensures Boundary(s, pos + CharLen(s[pos..]))
  {
    hide CharLen, ValidUtf8;
    var n := CharLen(s[pos..]);
    FrontCharacter(s[pos..]);
    assert s[pos..][..n] == s[pos..pos + n] && s[pos..][n..] == s[pos + n..];
    ConcatValid(s[..pos], s[pos..pos + n]);
    assert s[..pos] + s[pos..pos + n] == s[..pos + n];
  }

  lemma FrontCharacter(t: bytes)
    requires ValidUtf8(t) && t != []
    ensures CharLen(t) > 0 && ValidUtf8(t[..CharLen(t)]) && ValidUtf8(t[CharLen(t)..])
  {
    CharLenOfPrefix(t, CharLen(t));
    OneCharacterIsValid(t[..CharLen(t)]);
  }

  lemma OneCharacterIsValid(c: bytes)
    requires c != [] && CharLen(c) == |c|
    ensures ValidUtf8(c)
  {
    assert c[|c|..] == [];
  }

  lemma NoBoundaryInside(s: bytes, pos: nat, b: nat)
    requires Boundary(s, pos) && pos < |s| && pos < b < pos + CharLen(s[pos..])
    ensures !Boundary(s, b)
  {
    InsideCharacter(s[pos..], b - pos);
    assert s[pos..][b - pos..] == s[b..];
  }

  // ------------------------------------------------------------------
  // Cutting to a byte budget (shared by ctr_fetch and the snippet fallback)
  // ------------------------------------------------------------------

  /** Walk a cut point back to a byte that can begin a character. */
  function CutLen(text: bytes, n: nat): (r: nat)
    requires n < |text|
    ensures r <= n
    ensures r == 0 || RuneStart(text[r])
    ensures forall k :: r < k <= n ==> !RuneStart(text[k])
  {
    if n > 0 && !RuneStart(text[n]) then CutLen(text, n - 1) else n
  }

  /** In a valid text the cut is the last boundary not after the budget. */
  lemma CutIsLastBoundary(text: bytes, n: nat)
    requires ValidUtf8(text) && n < |text|
    ensures Boundary(text, CutLen(text, n))
    ensures forall b :: 0 <= b <= n && Boundary(text, b) ==> b <= CutLen(text, n)
  {
    var r := CutLen(text, n);
    StartsAreBoundaries(text, r);
    if r == 0 {
      assert text[..0] == [] && text[0..] == text;
    }
    forall b | 0 <= b <= n && Boundary(text, b) ensures b <= r {
      StartsAreBoundaries(text, b);
    }
  }
}
