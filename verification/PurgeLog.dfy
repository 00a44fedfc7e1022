/**
 The purge audit log: one package appends lines, another reads the tail back.
 A string stands for its bytes, one character each.
 */
module PurgeLog {
  import opened Common

  const MIN_INT64: int := -0x8000_0000_0000_0000
  const MAX_INT64: int := 0x7fff_ffff_ffff_ffff

  predicate IsInt64(n: int) {
    MIN_INT64 <= n <= MAX_INT64
  }

  // ------------------------------------------------------------------
  // Decimal numbers
  // ------------------------------------------------------------------

  predicate IsDigit(c: char) {
    '0' <= c <= '9'
  }

  function Digits(n: nat): string {
    if n < 10 then [('0' as int + n) as char] else Digits(n / 10) + [('0' as int + n % 10) as char]
  }

  function FormatInt(n: int): string {
    if n < 0 then "-" + Digits(-n) else Digits(n)
  }

  function DigitsValue(s: string): Option<nat> {
    if s == [] then Some(0)
    else if !IsDigit(s[|s| - 1]) then None
    else
      match DigitsValue(s[..|s| - 1])
      case None => None
      case Some(high) => Some(10 * high + (s[|s| - 1] as int - '0' as int))
  }

  /** A sign or none, at least one digit, and within 64 bits. */
  function ParseInt(s: string): Option<int> {
    var signed := s != [] && (s[0] == '-' || s[0] == '+');
    var digits := if signed then s[1..] else s;
    if digits == [] then None
    else
      match DigitsValue(digits)
      case None => None
      case Some(v) =>
        var n: int := if signed && s[0] == '-' then -(v as int) else v;
        if IsInt64(n) then Some(n) else None
  }

  lemma {:induction false} DigitsAreDigits(n: nat)
    ensures |Digits(n)| > 0 && forall i :: 0 <= i < |Digits(n)| ==> IsDigit(Digits(n)[i])
    ensures DigitsValue(Digits(n)) == Some(n)
  {
    if n >= 10 {
      DigitsAreDigits(n / 10);
      var d := Digits(n);
      assert d[..|d| - 1] == Digits(n / 10);
    } else {
      assert Digits(n)[..0] == [];
    }
  }

  /** Every 64-bit number is read back from its decimal form, and the form is no dash. */
  lemma ParseInvertsFormat(n: int)
    requires -0x8000_0000_0000_0000 <= n <= 0x7fff_ffff_ffff_ffff
    ensures ParseInt(FormatInt(n)) == Some(n) && FormatInt(n) != "-"
    ensures forall i :: 0 <= i < |FormatInt(n)| ==> Plain(FormatInt(n)[i])
  {
    var m := if n < 0 then -n else n;
    DigitsAreDigits(m);
    hide Digits, DigitsValue;
    assert n < 0 ==> FormatInt(n)[1..] == Digits(m);
  }

  /** Plain numbers have at most nineteen digits. */
  lemma {:induction false} DigitsLength(n: nat, k: nat)
    requires n < Power10(k) && k > 0
    ensures |Digits(n)| <= k
  {
    if n >= 10 {
      DigitsLength(n / 10, k - 1);
    }
  }

  function Power10(k: nat): nat {
    if k == 0 then 1 else 10 * Power10(k - 1)
  }

  lemma FormatLength(n: int)
    requires IsInt64(n)
    ensures |FormatInt(n)| <= 20
  {
    assert Power10(5) == 100_000 by {
      assert Power10(2) == 100;
    }
    assert Power10(8) == 100_000_000;
    assert Power10(11) == 100_000_000_000;
    assert Power10(14) == 100_000_000_000_000;
    assert Power10(17) == 100_000_000_000_000_000;
    assert Power10(19) == 10_000_000_000_000_000_000;
    DigitsLength(if n < 0 then -n else n, 19);
  }

  // ------------------------------------------------------------------
  // Records and lines
  // ------------------------------------------------------------------

  datatype Record = Record(
    path: string,
    policy: string,
    status: string,
    cutoff: int,
    count: int,
    bytes: Option<int>,
    deferred: Option<int>,
    failed: Option<int>)

  datatype Entry = Entry(
    ts: int,
    path: string,
    policy: string,
    status: string,
    cutoff: int,
    count: int,
    bytes: string,
    deferred: string,
    failed: string)

  const PATHS: set<string> := {"startup-shadow", "cli-hook-only", "cli-older-than", "cli-gc"}
  const STATUSES: set<string> := {"failed", "partial", "budget", "cancelled", "capped", "ok"}

  const FIELD_MAX: nat := 64
  const LINE_MAX: nat := 0x10_0000

  /** Neither a separator nor a line end. */
  predicate Plain(c: char) {
    c != '\t' && c != '\n' && c != '\r'
  }

  predicate AllPlain(s: string) {
    forall i :: 0 <= i < |s| ==> Plain(s[i])
  }

  function Blanked(s: string): (r: string)
    ensures |r| == |s|
    ensures forall i :: 0 <= i < |s| ==> r[i] == if Plain(s[i]) then s[i] else ' '
  {
    seq(|s|, i requires 0 <= i < |s| => if Plain(s[i]) then s[i] else ' ')
  }

  /** sanPurgeField: nothing is "-", separators are spaces, and a field has at most 64 bytes. */
  function Sanitized(s: string): string {
    if s == "" then "-"
    else if |s| > FIELD_MAX then Blanked(s)[..FIELD_MAX]
    else Blanked(s)
  }

  lemma SanitizedIsStable(s: string)
    ensures Sanitized(Sanitized(s)) == Sanitized(s)
    ensures AllPlain(Sanitized(s)) && 0 < |Sanitized(s)| <= 64
    ensures s != "" && |s| <= 64 && AllPlain(s) ==> Sanitized(s) == s
  {
    var t := Sanitized(s);
    assert AllPlain(t);
    assert Blanked(t) == t;
    if AllPlain(s) {
      assert Blanked(s) == s;
    }
  }

  function OptInt(n: Option<int>): string {
    if n.None? then "-" else FormatInt(n.value)
  }

  function Fields(ts: int, rec: Record): seq<string> {
    [FormatInt(ts), Sanitized(rec.path), Sanitized(rec.policy),
     if rec.cutoff == 0 then "-" else FormatInt(rec.cutoff),
     Sanitized(rec.status), FormatInt(rec.count),
     OptInt(rec.bytes), OptInt(rec.deferred), OptInt(rec.failed)]
  }

  function Join(fields: seq<string>): string {
    if fields == [] then ""
    else if |fields| == 1 then fields[0]
    else fields[0] + "\t" + Join(fields[1..])
  }

  /** strings.Split at tabs. */
  function Split(s: string): (fields: seq<string>)
    ensures |fields| > 0
  {
    if s == "" then [""]
    else
      var rest := Split(s[1..]);
      if s[0] == '\t' then [""] + rest else [[s[0]] + rest[0]] + rest[1..]
  }

  predicate NoTab(s: string) {
    forall i :: 0 <= i < |s| ==> s[i] != '\t'
  }

  lemma {:induction false} SplitOne(s: string)
    requires NoTab(s)
    ensures Split(s) == [s]
  {
    if s != "" {
      SplitOne(s[1..]);
      assert [s[0]] + s[1..] == s;
    }
  }

  lemma {:induction false} SplitFirst(s: string, t: string)
    requires NoTab(s)
    ensures Split(s + "\t" + t) == [s] + Split(t)
  {
    if s == "" {
      assert s + "\t" + t == "\t" + t;
      assert ("\t" + t)[1..] == t;
    } else {
      SplitFirst(s[1..], t);
      assert (s + "\t" + t)[1..] == s[1..] + "\t" + t;
      assert [s[0]] + s[1..] == s;
    }
  }

  lemma {:induction false} SplitInvertsJoin(fields: seq<string>)
    requires fields != [] && forall i :: 0 <= i < |fields| ==> NoTab(fields[i])
    ensures Split(Join(fields)) == fields
  {
    if |fields| == 1 {
      SplitOne(fields[0]);
    } else {
      SplitInvertsJoin(fields[1..]);
      SplitFirst(fields[0], Join(fields[1..]));
    }
  }

  /** And every line is the join of its fields. */
  lemma {:induction false} JoinInvertsSplit(s: string)
    ensures Join(Split(s)) == s && forall i :: 0 <= i < |Split(s)| ==> NoTab(Split(s)[i])
  {
    if s != "" {
      JoinInvertsSplit(s[1..]);
      var rest := Split(s[1..]);
      assert [s[0]] + s[1..] == s;
      if s[0] == '\t' {
        assert Split(s)[1..] == rest;
      } else {
        assert Split(s)[1..] == rest[1..];
      }
    }
  }

  // ------------------------------------------------------------------
  // Lines of the file
  // ------------------------------------------------------------------

  /** The scanner's lines; it stops at a line that does not fit its buffer. */
  datatype Scan = Scan(lines: seq<string>, aborted: bool)

  function UpToBreak(s: string): (i: nat)
    ensures i <= |s| && (i < |s| ==> s[i] == '\n') && forall k :: 0 <= k < i ==> s[k] != '\n'
  {
    if s == "" || s[0] == '\n' then 0 else 1 + UpToBreak(s[1..])
  }

  function DropReturn(s: string): (r: string)
    ensures s == r || s == r + "\r"
    ensures s == r <==> s == "" || s[|s| - 1] != '\r'
  {
    if s != "" && s[|s| - 1] == '\r' then s[..|s| - 1] else s
  }

  function ScanLines(s: string): Scan {
    if s == "" then Scan([], false)
    else
      var i := UpToBreak(s);
      if i >= LINE_MAX then Scan([], true)
      else if i == |s| then Scan([DropReturn(s)], false)
      else
        var rest := ScanLines(s[i + 1..]);
        Scan([DropReturn(s[..i])] + rest.lines, rest.aborted)
  }

  /** Lines, each with its end, and what stands after the last end. */
  function Text(lines: seq<string>, rest: string): string {
    if lines == [] then rest else lines[0] + "\n" + Text(lines[1..], rest)
  }

  predicate OneLine(s: string) {
    forall i :: 0 <= i < |s| ==> s[i] != '\n'
  }

  /** Every file is such a text. */
  lemma {:induction false} EveryFileIsText(s: string) returns (lines: seq<string>, rest: string)
    ensures s == Text(lines, rest) && OneLine(rest) && forall i :: 0 <= i < |lines| ==> OneLine(lines[i])
    decreases |s|
  {
    var i := UpToBreak(s);
    if i == |s| {
      lines, rest := [], s;
    } else {
      var more;
      more, rest := EveryFileIsText(s[i + 1..]);
      lines := [s[..i]] + more;
      assert s == s[..i] + "\n" + s[i + 1..];
    }
  }

  /**
   The scan of a text is its lines, with an unended last one if it is not empty,
   each without a carriage return at its end; or the lines before the first one
   of 1 MiB or more, and then it is aborted.
   */
  lemma {:induction false} ScanIs(lines: seq<string>, rest: string)
    requires OneLine(rest) && forall i :: 0 <= i < |lines| ==> OneLine(lines[i])
    ensures ScanLines(Text(lines, rest)) ==
      if lines != [] then
        if |lines[0]| >= 0x10_0000 then Scan([], true)
        else
          var after := ScanLines(Text(lines[1..], rest));
          Scan([DropReturn(lines[0])] + after.lines, after.aborted)
      else if |rest| >= 0x10_0000 then Scan([], true)
      else Scan(if rest == "" then [] else [DropReturn(rest)], false)
  {
    var s := Text(lines, rest);
    if lines != [] {
      var tail := Text(lines[1..], rest);
      assert s == lines[0] + "\n" + tail;
      BreakAfter(s, |lines[0]|);
      assert s[..|lines[0]|] == lines[0] && s[|lines[0]| + 1..] == tail;
    } else {
      BreakAfter(s, |s|);
    }
  }

  lemma BreakAfter(s: string, i: nat)
    requires i <= |s| && (i < |s| ==> s[i] == '\n') && forall k :: 0 <= k < i ==> s[k] != '\n'
    ensures UpToBreak(s) == i
  {
  }

  /** Every line of the file is ended. */
  predicate Complete(s: string) {
    s == "" || s[|s| - 1] == '\n'
  }

  predicate NoBreak(s: string) {
    forall i :: 0 <= i < |s| ==> s[i] != '\n' && s[i] != '\r'
  }

  /** Appending a line to a file of ended lines appends it to the lines read. */
  lemma {:induction false} ScanOneMore(s: string, line: string)
    requires Complete(s) && !ScanLines(s).aborted && NoBreak(line) && |line| < LINE_MAX
    ensures ScanLines(s + (line + "\n")) == Scan(ScanLines(s).lines + [line], false)
    decreases |s|
  {
    hide UpToBreak, NoBreak, ScanLines;
    var end := line + "\n";
    if s == "" {
      assert s + end == end && ScanLines(s) == Scan([], false) by {
        NothingToScan();
      }
      ScanSingle(line);
    } else {
      var i := UpToBreak(s);
      FirstLineOf(s);
      ScanOneMore(s[i + 1..], line);
      FirstLineStays(s, end, i);
      FirstLineOf(s + end);
    }
  }

  lemma FirstLineStays(s: string, end: string, i: nat)
    requires i < |s| && i == UpToBreak(s) && end != "" && end[|end| - 1] == '\n'
    ensures UpToBreak(s + end) == i && Complete(s + end)
    ensures (s + end)[i + 1..] == s[i + 1..] + end && (s + end)[..i] == s[..i]
  {
    hide UpToBreak;
    BreakIs(s, end, i);
  }

  lemma NothingToScan()
    ensures ScanLines("") == Scan([], false)
  {
  }

  /** The scan of a file of ended lines is its first line and the scan of the rest. */
  lemma FirstLineOf(s: string)
    requires Complete(s) && s != ""
    ensures var i := UpToBreak(s);
      && i < |s| && Complete(s[i + 1..])
      && (i >= LINE_MAX ==> ScanLines(s).aborted)
      && (i < LINE_MAX ==>
            var rest := ScanLines(s[i + 1..]);
            ScanLines(s) == Scan([DropReturn(s[..i])] + rest.lines, rest.aborted))
  {
    hide UpToBreak, DropReturn;
  }

  lemma ScanSingle(line: string)
    requires NoBreak(line) && |line| < LINE_MAX
    ensures ScanLines(line + "\n") == Scan([line], false)
  {
    var t := line + "\n";
    assert UpToBreak(t) == |line| by {
      assert t[|line|] == '\n' && forall k :: 0 <= k < |line| ==> t[k] != '\n';
    }
    assert t[|line| + 1..] == "" && t[..|line|] == line;
  }

  lemma BreakIs(s: string, more: string, i: nat)
    requires i < |s| && i == UpToBreak(s)
    ensures UpToBreak(s + more) == i
  {
    var j := UpToBreak(s + more);
    assert forall k :: 0 <= k < i ==> (s + more)[k] == s[k];
    assert (s + more)[i] == '\n';
  }

  // ------------------------------------------------------------------
  // Reading
  // ------------------------------------------------------------------

  predicate IsDashOrInt(s: string) {
    s == "-" || ParseInt(s).Some?
  }

  function Zeros(k: nat): string {
    if k == 0 then "" else "0" + Zeros(k - 1)
  }

  /** The string is a sign or none, leading zeros or none, and the digits of the number. */
  ghost predicate Reads(s: string, n: int) {
    && IsInt64(n)
    && exists sign, k: nat, m: nat :: IsSigned(s, sign, k, m) && n == Signed(sign, m)
  }

  function Signed(sign: string, m: nat): int {
    if sign == "-" then -(m as int) else m
  }

  predicate IsSigned(s: string, sign: string, k: nat, m: nat) {
    (sign == "" || sign == "+" || sign == "-") && s == sign + (Zeros(k) + Digits(m))
  }

  lemma {:induction false} ValueOfZeros(k: nat)
    ensures DigitsValue(Zeros(k)) == Some(0)
  {
    ZerosAtEnd(k);
    if k > 0 {
      assert Zeros(k)[..k - 1] == Zeros(k - 1);
      ValueOfZeros(k - 1);
    }
  }

  lemma {:induction false} ValueAfterZeros(k: nat, m: nat)
    ensures DigitsValue(Zeros(k) + Digits(m)) == Some(m)
    decreases m
  {
    hide Zeros;
    var s := Zeros(k) + Digits(m);
    if m < 10 {
      ValueOfZeros(k);
      assert s[..|s| - 1] == Zeros(k);
    } else {
      ValueAfterZeros(k, m / 10);
      assert s[..|s| - 1] == Zeros(k) + Digits(m / 10);
    }
  }

  lemma {:induction false} ZerosAtEnd(k: nat)
    ensures |Zeros(k)| == k && forall i :: 0 <= i < k ==> Zeros(k)[i] == '0'
    ensures k > 0 ==> Zeros(k) == Zeros(k - 1) + "0"
  {
    if k > 0 {
      ZerosAtEnd(k - 1);
    }
  }

  lemma {:induction false} DigitsOfValue(s: string) returns (k: nat)
    requires s != "" && DigitsValue(s).Some?
    ensures s == Zeros(k) + Digits(DigitsValue(s).value)
    decreases |s|
  {
    var n := |s| - 1;
    var high := DigitsValue(s[..n]).value;
    assert s == s[..n] + [s[n]];
    if n == 0 {
      k := 0;
    } else {
      k := DigitsOfValue(s[..n]);
      k := OneMoreDigit(k, high, s[n]);
    }
  }

  lemma OneMoreDigit(k: nat, high: nat, c: char) returns (l: nat)
    requires IsDigit(c)
    ensures Zeros(k) + Digits(high) + [c] == Zeros(l) + Digits(10 * high + (c as int - '0' as int))
  {
    hide Zeros;
    if high == 0 {
      l := k + 1;
      ZerosAtEnd(l);
    } else {
      l := k;
    }
  }

  /** strconv.ParseInt reads exactly these strings. */
  lemma ParseIntIff(s: string, n: int)
    ensures ParseInt(s) == Some(n) <==> Reads(s, n)
  {
    hide ParseInt;
    if ParseInt(s) == Some(n) {
      ParsedIsNumber(s);
    }
    if Reads(s, n) {
      var sign, k: nat, m: nat :| IsSigned(s, sign, k, m) && n == Signed(sign, m);
      NumberIsParsed(s, sign, k, m);
    }
  }

  lemma ParsedIsNumber(s: string)
    requires ParseInt(s).Some?
    ensures Reads(s, ParseInt(s).value)
  {
    hide Digits, Zeros, DigitsValue;
    var sign := if s[0] == '-' || s[0] == '+' then s[..1] else "";
    var digits := s[|sign|..];
    assert digits == if s[0] == '-' || s[0] == '+' then s[1..] else s;
    var k := DigitsOfValue(digits);
    assert s == sign + digits;
    assert IsSigned(s, sign, k, DigitsValue(digits).value);
  }

  lemma NumberIsParsed(s: string, sign: string, k: nat, m: nat)
    requires IsSigned(s, sign, k, m) && IsInt64(Signed(sign, m))
    ensures ParseInt(s) == Some(Signed(sign, m))
  {
    hide Digits, Zeros, DigitsValue;
    var digits := Zeros(k) + Digits(m);
    ValueAfterZeros(k, m);
    DigitsLead(k, m);
    assert s[|sign|..] == digits;
    if sign == "" {
      assert s == digits;
    }
  }

  /** strconv.FormatInt writes the one shortest string that reads as the number. */
  lemma FormatIsShortest(n: int, s: string)
    requires Reads(s, n)
    ensures Reads(FormatInt(n), n) && |FormatInt(n)| <= |s|
    ensures |s| == |FormatInt(n)| ==> s == FormatInt(n)
  {
    hide Digits, Zeros, ParseInt;
    ParseInvertsFormat(n);
    ParseIntIff(FormatInt(n), n);
    hide Reads;
    var sign, k: nat, m: nat :| IsSigned(s, sign, k, m) && n == Signed(sign, m);
    ZerosAtEnd(k);
    DigitsAreDigits(0);
    assert k == 0 ==> Zeros(k) + Digits(m) == Digits(m);
  }

  lemma DigitsLead(k: nat, m: nat)
    ensures var s := Zeros(k) + Digits(m); s != "" && IsDigit(s[0])
  {
    DigitsAreDigits(m);
    ZerosAtEnd(k);
  }

  predicate IsPath(s: string) {
    s == "startup-shadow" || s == "cli-hook-only" || s == "cli-older-than" || s == "cli-gc"
  }

  predicate IsStatus(s: string) {
    s == "failed" || s == "partial" || s == "budget" || s == "cancelled" || s == "capped" || s == "ok"
  }

  lemma LabelsAreKnown(path: string, status: string)
    ensures path in PATHS <==> IsPath(path)
    ensures status in STATUSES <==> IsStatus(status)
  {
  }

  ghost predicate IsNumber(s: string) {
    exists n :: Reads(s, n)
  }

  /**
   A line counts exactly if it has nine fields or more, time and count are
   numbers, both labels are known, and the other four are numbers or dashes. The
   entry then has the fields as they stand, and what follows the ninth is ignored.
   */
  lemma ParseLineIff(f: seq<string>)
    requires f != [] && forall i :: 0 <= i < |f| ==> NoTab(f[i])
    ensures ParseLine(Join(f)).Some? <==>
      && |f| >= 9 && IsNumber(f[0]) && IsNumber(f[5])
      && IsPath(f[1]) && IsStatus(f[4])
      && (f[3] == "-" || IsNumber(f[3])) && (f[6] == "-" || IsNumber(f[6]))
      && (f[7] == "-" || IsNumber(f[7])) && (f[8] == "-" || IsNumber(f[8]))
    ensures ParseLine(Join(f)).Some? ==>
      var e := ParseLine(Join(f)).value;
      && Reads(f[0], e.ts) && e.path == f[1] && e.policy == f[2] && e.status == f[4] && Reads(f[5], e.count)
      && (if f[3] == "-" then e.cutoff == 0 else Reads(f[3], e.cutoff))
      && e.bytes == f[6] && e.deferred == f[7] && e.failed == f[8]
  {
    hide ParseLine, Reads, ParseInt, IsNumber, NoTab, Join, PATHS, STATUSES, IsPath, IsStatus;
    LineIsParsed(f);
    if |f| >= 9 {
      LabelsAreKnown(f[1], f[4]);
      NumberIff(f[0]);
      NumberIff(f[3]);
      NumberIff(f[5]);
      NumberIff(f[6]);
      NumberIff(f[7]);
      NumberIff(f[8]);
    }
  }

  lemma LineIsParsed(f: seq<string>)
    requires f != [] && forall i :: 0 <= i < |f| ==> NoTab(f[i])
    ensures ParseLine(Join(f)) ==
      if |f| >= 9 && ParseInt(f[0]).Some? && f[1] in PATHS && f[4] in STATUSES && ParseInt(f[5]).Some?
        && IsDashOrInt(f[3]) && IsDashOrInt(f[6]) && IsDashOrInt(f[7]) && IsDashOrInt(f[8])
      then
        Some(Entry(ParseInt(f[0]).value, f[1], f[2], f[4], if f[3] == "-" then 0 else ParseInt(f[3]).value,
                   ParseInt(f[5]).value, f[6], f[7], f[8]))
      else None
  {
    hide Split, Join, ParseInt, PATHS, STATUSES, NoTab, Digits, DigitsValue;
    SplitInvertsJoin(f);
    DashIsShown();
  }

  lemma NumberIff(s: string)
    ensures ParseInt(s).Some? <==> IsNumber(s)
    ensures ParseInt(s).Some? ==> Reads(s, ParseInt(s).value)
  {
    if ParseInt(s).Some? {
      ParseIntIff(s, ParseInt(s).value);
    }
    forall n | Reads(s, n)
      ensures ParseInt(s).Some?
    {
      ParseIntIff(s, n);
    }
  }

  function ParseLine(line: string): Option<Entry> {
    var f := Split(line);
    if |f| < 9 then None
    else if ParseInt(f[0]).None? || ParseInt(f[5]).None? || f[1] !in PATHS || f[4] !in STATUSES
      || !IsDashOrInt(f[3]) || !IsDashOrInt(f[6]) || !IsDashOrInt(f[7]) || !IsDashOrInt(f[8]) then None
    else
      var cutoff := if ParseInt(f[3]).Some? then ParseInt(f[3]).value else 0;
      Some(Entry(ParseInt(f[0]).value, f[1], f[2], f[4], cutoff, ParseInt(f[5]).value, f[6], f[7], f[8]))
  }

  function Parsed(lines: seq<string>): seq<Entry> {
    if lines == [] then []
    else
      Parsed(lines[..|lines| - 1])
      + (match ParseLine(lines[|lines| - 1]) case None => [] case Some(e) => [e])
  }

  lemma {:induction false} ParsedIsShorter(lines: seq<string>)
    ensures |Parsed(lines)| <= |lines|
  {
    if lines != [] {
      ParsedIsShorter(lines[..|lines| - 1]);
    }
  }

  /** The last n entries, newest first. */
  function Newest(all: seq<Entry>, n: int): seq<Entry> {
    if all == [] || n <= 0 then [] else [all[|all| - 1]] + Newest(all[..|all| - 1], n - 1)
  }

  /** purgeLogTail on a file that opens. */
  method Tail(content: string, n: int) returns (entries: seq<Entry>, total: nat, unparsed: nat, aborted: bool)
    ensures var scan := ScanLines(content);
      && entries == Newest(Parsed(scan.lines), n)
      && total == |scan.lines| && aborted == scan.aborted
      && unparsed == |scan.lines| - |Parsed(scan.lines)|
  {
    var scan := ScanLines(content);
    var all: seq<Entry> := [];
    total, unparsed := 0, 0;
    while total < |scan.lines|
      invariant 0 <= total <= |scan.lines|
      invariant all == Parsed(scan.lines[..total]) && unparsed == total - |all|
    {
      var line := scan.lines[total];
      assert scan.lines[..total + 1][..total] == scan.lines[..total];
      ParsedIsShorter(scan.lines[..total]);
      total := total + 1;
      var e := ParseLine(line);
      if e.None? {
        unparsed := unparsed + 1;
      } else {
        all := all + [e.value];
      }
    }
    assert scan.lines[..total] == scan.lines;
    entries := TakeNewest(all, n);
    aborted := scan.aborted;
  }

  method TakeNewest(all: seq<Entry>, n: int) returns (entries: seq<Entry>)
    ensures entries == Newest(all, n)
  {
    hide Newest;
    entries := [];
    var i := |all| - 1;
    assert all[..|all|] == all;
    while i >= 0 && |entries| < n
      invariant -1 <= i < |all| && |entries| == |all| - 1 - i
      invariant Newest(all, n) == entries + Newest(all[..i + 1], n - |entries|)
    {
      OneMoreNewest(all, i, n - |entries|);
      entries := entries + [all[i]];
      i := i - 1;
    }
    NoneNewest(all[..i + 1], n - |entries|);
  }

  lemma OneMoreNewest(all: seq<Entry>, i: nat, n: int)
    requires i < |all| && n > 0
    ensures Newest(all[..i + 1], n) == [all[i]] + Newest(all[..i], n - 1)
  {
    assert all[..i + 1][..i] == all[..i];
  }

  lemma NoneNewest(all: seq<Entry>, n: int)
    requires all == [] || n <= 0
    ensures Newest(all, n) == []
  {
  }

  // ------------------------------------------------------------------
  // Writer and reader undo each other
  // ------------------------------------------------------------------

  /** What a caller hands over: labels of the closed sets, 64-bit numbers. */
  predicate Proper(ts: int, rec: Record) {
    && IsInt64(ts) && rec.path in PATHS && rec.status in STATUSES
    && IsInt64(rec.cutoff) && IsInt64(rec.count)
    && (rec.bytes.Some? ==> IsInt64(rec.bytes.value))
    && (rec.deferred.Some? ==> IsInt64(rec.deferred.value))
    && (rec.failed.Some? ==> IsInt64(rec.failed.value))
  }

  function Line(ts: int, rec: Record): string {
    Join(Fields(ts, rec))
  }

  /** The record as it is meant to come back: the same but for the sanitised policy. */
  function Recorded(ts: int, rec: Record): Entry {
    Entry(ts, rec.path, Sanitized(rec.policy), rec.status, rec.cutoff, rec.count,
          OptInt(rec.bytes), OptInt(rec.deferred), OptInt(rec.failed))
  }

  /** An unmeasured count reads as a dash, never as a number; a measured one as itself, never as a dash. */
  lemma DashIsNotZero(n: Option<int>)
    requires n.Some? ==> IsInt64(n.value)
    ensures OptInt(n) == "-" <==> n.None?
    ensures ParseInt(OptInt(n)) == n
    ensures IsDashOrInt(OptInt(n)) && AllPlain(OptInt(n)) && |OptInt(n)| <= 20
  {
    if n.Some? {
      ParseInvertsFormat(n.value);
      FormatLength(n.value);
    } else {
      assert "-"[1..] == "";
    }
  }

  predicate IsField(s: string) {
    AllPlain(s) && |s| <= FIELD_MAX
  }

  lemma NumberIsField(n: int)
    requires IsInt64(n)
    ensures IsField(FormatInt(n))
  {
    ParseInvertsFormat(n);
    FormatLength(n);
  }

  lemma OptionIsField(n: Option<int>)
    requires n.Some? ==> IsInt64(n.value)
    ensures IsField(OptInt(n))
  {
    DashIsNotZero(n);
  }

  lemma TextIsField(s: string)
    ensures IsField(Sanitized(s))
  {
    SanitizedIsStable(s);
  }

  lemma FieldsArePlain(ts: int, rec: Record)
    requires Proper(ts, rec)
    ensures forall i :: 0 <= i < 9 ==> IsField(Fields(ts, rec)[i])
  {
    assert IsField("-");
    hide IsField, Sanitized, FormatInt, OptInt;
    NumberIsField(ts);
    NumberIsField(rec.cutoff);
    NumberIsField(rec.count);
    TextIsField(rec.path);
    TextIsField(rec.policy);
    TextIsField(rec.status);
    OptionIsField(rec.bytes);
    OptionIsField(rec.deferred);
    OptionIsField(rec.failed);
  }

  lemma LabelsAreClean(s: string)
    requires s in PATHS || s in STATUSES
    ensures Sanitized(s) == s
  {
    assert s != "" && |s| <= FIELD_MAX && AllPlain(s);
    SanitizedIsStable(s);
  }

  lemma LineParses(ts: int, rec: Record)
    requires Proper(ts, rec)
    ensures ParseLine(Line(ts, rec)) == Some(Recorded(ts, rec))
    ensures |Split(Line(ts, rec))| == 9 && (Split(Line(ts, rec))[3] == "-" <==> rec.cutoff == 0)
  {
    LineSplits(ts, rec);
    LabelsAreClean(rec.path);
    LabelsAreClean(rec.status);
    hide Line, Split, Sanitized, FormatInt, ParseInt, OptInt, IsDashOrInt, PATHS, STATUSES;
    ParseInvertsFormat(ts);
    ParseInvertsFormat(rec.count);
    CutoffField(rec.cutoff);
    DashIsNotZero(rec.bytes);
    DashIsNotZero(rec.deferred);
    DashIsNotZero(rec.failed);
  }

  lemma CutoffField(cutoff: int)
    requires IsInt64(cutoff)
    ensures var s := if cutoff == 0 then "-" else FormatInt(cutoff);
      && (s == "-" <==> cutoff == 0) && IsDashOrInt(s)
      && cutoff == if ParseInt(s).Some? then ParseInt(s).value else 0
  {
    hide FormatInt, ParseInt;
    ParseInvertsFormat(cutoff);
    DashIsShown();
  }

  lemma LineSplits(ts: int, rec: Record)
    requires Proper(ts, rec)
    ensures Split(Line(ts, rec)) == Fields(ts, rec)
  {
    hide Fields, Proper, Join, Split;
    NineFields(ts, rec);
    FieldsArePlain(ts, rec);
    assert forall i :: 0 <= i < 9 ==> IsField(Fields(ts, rec)[i]) && NoTab(Fields(ts, rec)[i]);
    SplitInvertsJoin(Fields(ts, rec));
  }

  lemma NineFields(ts: int, rec: Record)
    ensures |Fields(ts, rec)| == 9
  {
  }

  lemma DashIsShown()
    ensures IsDashOrInt("-") && ParseInt("-") == None
  {
    DashIsNotZero(None);
  }

  lemma {:induction false} JoinShape(fields: seq<string>, k: nat)
    requires forall i :: 0 <= i < |fields| ==> |fields[i]| <= k && NoBreak(fields[i])
    ensures |Join(fields)| <= |fields| * (k + 1) && NoBreak(Join(fields))
  {
    if |fields| > 1 {
      var rest := fields[1..];
      JoinShape(rest, k);
      hide NoBreak;
      OneMoreField(fields[0], Join(rest));
      assert |fields| * (k + 1) == |rest| * (k + 1) + (k + 1);
    }
  }

  lemma OneMoreField(field: string, rest: string)
    requires NoBreak(field) && NoBreak(rest)
    ensures NoBreak(field + "\t" + rest)
  {
  }

  /** A line is short and holds no line end. */
  lemma LineShape(ts: int, rec: Record)
    requires Proper(ts, rec)
    ensures NoBreak(Line(ts, rec)) && |Line(ts, rec)| < LINE_MAX
  {
    FieldsArePlain(ts, rec);
    JoinShape(Fields(ts, rec), FIELD_MAX);
  }

  class LogFile {
    var content: string

    /** AppendPurgeLog; opens says whether the file could be opened, which is all that can go wrong here. */
    method Append(ts: int, rec: Record, opens: bool)
      modifies this
      ensures content == if opens then old(content) + (Line(ts, rec) + "\n") else old(content)
    {
      var cutoff := if rec.cutoff == 0 then "-" else FormatInt(rec.cutoff);
      var line := Join([FormatInt(ts), Sanitized(rec.path), Sanitized(rec.policy), cutoff, Sanitized(rec.status),
                        FormatInt(rec.count), OptInt(rec.bytes), OptInt(rec.deferred), OptInt(rec.failed)]) + "\n";
      if !opens {
        return;
      }
      content := content + line;
    }
  }

  /** On any file of ended lines, good or bad: an appended record is the next entry, and nothing else changes. */
  lemma AppendedIsRead(content: string, ts: int, rec: Record)
    requires Complete(content) && !ScanLines(content).aborted && Proper(ts, rec)
    ensures var more := content + (Line(ts, rec) + "\n");
      && Complete(more) && !ScanLines(more).aborted
      && Parsed(ScanLines(more).lines) == Parsed(ScanLines(content).lines) + [Recorded(ts, rec)]
      && |ScanLines(more).lines| == |ScanLines(content).lines| + 1
  {
    LineShape(ts, rec);
    ScanOneMore(content, Line(ts, rec));
    LineParses(ts, rec);
    hide Line, ScanLines, ParseLine, Recorded, NoBreak, Proper;
    var lines := ScanLines(content).lines;
    assert (lines + [Line(ts, rec)])[..|lines|] == lines;
  }

  datatype Stamped = Stamped(ts: int, rec: Record)

  function File(recs: seq<Stamped>): string {
    if recs == [] then ""
    else
      var last := recs[|recs| - 1];
      File(recs[..|recs| - 1]) + (Line(last.ts, last.rec) + "\n")
  }

  function Entries(recs: seq<Stamped>): (es: seq<Entry>)
    ensures |es| == |recs|
  {
    if recs == [] then []
    else Entries(recs[..|recs| - 1]) + [Recorded(recs[|recs| - 1].ts, recs[|recs| - 1].rec)]
  }

  /** What is written is read back: every record, its own values, none unparsed. */
  lemma {:induction false} WrittenIsRead(recs: seq<Stamped>)
    requires forall i :: 0 <= i < |recs| ==> Proper(recs[i].ts, recs[i].rec)
    ensures var scan := ScanLines(File(recs));
      && Complete(File(recs)) && !scan.aborted
      && Parsed(scan.lines) == Entries(recs) && |scan.lines| == |recs|
  {
    if recs != [] {
      var n := |recs| - 1;
      WrittenIsRead(recs[..n]);
      AppendedIsRead(File(recs[..n]), recs[n].ts, recs[n].rec);
    }
  }

  /** The tail of n: the record appended k-th from the end is the k-th shown. */
  lemma {:induction false} NewestFirst(all: seq<Entry>, n: int)
    ensures |Newest(all, n)| == Max(0, Min(n, |all|))
    ensures forall k :: 0 <= k < |Newest(all, n)| ==> Newest(all, n)[k] == all[|all| - 1 - k]
  {
    if all != [] && n > 0 {
      NewestFirst(all[..|all| - 1], n - 1);
    }
  }

  // ------------------------------------------------------------------
  // The outcome label
  // ------------------------------------------------------------------

  function Status(failed: bool, hashes: nat, cancelled: bool, budgetSpent: bool, capped: bool): string {
    if failed && hashes > 0 then "partial"
    else if failed && cancelled then "cancelled"
    else if failed && budgetSpent then "budget"
    else if failed then "failed"
    else if capped then "capped"
    else "ok"
  }

  /** The label is one the reader knows, and partial wins whenever an error left rows deleted. */
  lemma StatusIsKnown(failed: bool, hashes: nat, cancelled: bool, budgetSpent: bool, capped: bool)
    ensures var s := Status(failed, hashes, cancelled, budgetSpent, capped);
      && s in STATUSES
      && (s == "partial" <==> failed && hashes > 0)
      && (s == "cancelled" <==> failed && hashes == 0 && cancelled)
      && (s == "budget" <==> failed && hashes == 0 && !cancelled && budgetSpent)
      && (s == "capped" <==> !failed && capped)
      && (s == "ok" <==> !failed && !capped)
  {
  }
}
