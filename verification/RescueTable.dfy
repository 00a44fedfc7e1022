/**
 Copying one table out of a damaged database. Every query starts after the last
 copied rowid; damage may hide rows from a query, cut it short, or refuse it.
 */
module RescueTable {
  import opened Common

  datatype Row = Row(rowid: int, data: int)

  datatype Fault = Fine | Malformed | Other

  /** What damage does to one query: refuse it, or show it some rows and stop it after a number of them. */
  datatype Reading =
    | Refused(malformed: bool)
    | Opened(shows: int -> bool, stop: nat, fault: Fault)

  datatype Outcome = Exhausted | GaveUp | Failed

  const RESCUE_BATCH: nat := 200
  const MAX_STALL: nat := 8

  /** The table in rowid order, as the query plan delivers it. */
  predicate Increasing(t: seq<Row>) {
    forall i, j :: 0 <= i < j < |t| ==> t[i].rowid < t[j].rowid
  }

  function After(t: seq<Row>, cursor: int, shows: int -> bool): seq<Row> {
    if t == [] then []
    else if t[0].rowid > cursor && shows(t[0].rowid) then [t[0]] + After(t[1..], cursor, shows)
    else After(t[1..], cursor, shows)
  }

  function Batch(t: seq<Row>, cursor: int, r: Reading): seq<Row>
    requires r.Opened?
  {
    var rows := After(t, cursor, r.shows);
    var limit := if r.fault.Fine? then RESCUE_BATCH else Min(RESCUE_BATCH, r.stop);
    rows[..Min(limit, |rows|)]
  }

  /** The query read nothing and failed as damage does. */
  predicate Stalls(t: seq<Row>, cursor: int, r: Reading) {
    match r
    case Refused(malformed) => malformed
    case Opened(_, _, fault) => fault.Malformed? && Batch(t, cursor, r) == []
  }

  lemma {:induction false} AfterIsFilter(t: seq<Row>, cursor: int, shows: int -> bool)
    requires Increasing(t)
    ensures var a := After(t, cursor, shows);
      && Increasing(a)
      && forall row :: row in a <==> row in t && row.rowid > cursor && shows(row.rowid)
  {
    if t != [] {
      AfterIsFilter(t[1..], cursor, shows);
      var rest := After(t[1..], cursor, shows);
      forall row
        ensures row in t <==> row == t[0] || row in t[1..]
      {
        assert t == [t[0]] + t[1..];
      }
      forall row | row in rest
        ensures row.rowid > t[0].rowid
      {
        assert row in t[1..];
      }
      IncreasingFromHead(t[0], rest);
    }
  }

  lemma IncreasingFromHead(row: Row, t: seq<Row>)
    requires Increasing(t) && forall r :: r in t ==> r.rowid > row.rowid
    ensures Increasing([row] + t)
  {
  }

  /** Where copying stands once these rows are out. */
  function Cursor(copied: seq<Row>): int {
    if copied == [] then 0 else copied[|copied| - 1].rowid
  }

  /** Some query so far was kept from seeing the row. */
  ghost predicate WasHidden(row: Row, readings: nat -> Reading, attempts: nat) {
    exists k: nat :: k < attempts && readings(k).Opened? && !readings(k).shows(row.rowid)
  }

  ghost predicate WasShown(row: Row, readings: nat -> Reading, attempts: nat) {
    exists k: nat :: k < attempts && readings(k).Opened? && readings(k).shows(row.rowid)
  }

  /** What holds of the rows copied so far. */
  ghost predicate Faithful(t: seq<Row>, copied: seq<Row>, readings: nat -> Reading, attempts: nat) {
    && Increasing(copied)
    && (forall row :: row in copied ==> row in t && row.rowid > 0 && WasShown(row, readings, attempts))
    && (forall row :: row in t && 0 < row.rowid <= Cursor(copied) && row !in copied ==> WasHidden(row, readings, attempts))
  }

  /** A batch is an initial run of what the query shows beyond the cursor. */
  lemma BatchIsInitialRun(t: seq<Row>, cursor: int, r: Reading)
    requires Increasing(t) && r.Opened?
    ensures var b := Batch(t, cursor, r);
      && Increasing(b)
      && (forall row :: row in b ==> row in t && row.rowid > cursor && r.shows(row.rowid))
      && forall row :: b != [] && row in t && cursor < row.rowid <= b[|b| - 1].rowid && r.shows(row.rowid) ==> row in b
  {
    AfterIsFilter(t, cursor, r.shows);
    var all := After(t, cursor, r.shows);
    var b := Batch(t, cursor, r);
    assert b == all[..|b|];
    forall row | b != [] && row in t && cursor < row.rowid <= b[|b| - 1].rowid && r.shows(row.rowid)
      ensures row in b
    {
      var i :| 0 <= i < |all| && all[i] == row;
      assert i < |b| && b[i] == row;
    }
    forall row | row in b
      ensures row in all
    {
    }
  }

  lemma AppendIncreasing(a: seq<Row>, b: seq<Row>)
    requires Increasing(a) && Increasing(b)
    requires forall row :: row in b ==> row.rowid > Cursor(a)
    ensures Increasing(a + b)
  {
    forall i, j | 0 <= i < j < |a + b|
      ensures (a + b)[i].rowid < (a + b)[j].rowid
    {
      if i < |a| <= j {
        assert b[j - |a|] in b;
      }
    }
  }

  lemma BatchKeepsFaith(t: seq<Row>, copied: seq<Row>, readings: nat -> Reading, attempts: nat)
    requires Increasing(t) && Faithful(t, copied, readings, attempts) && readings(attempts).Opened?
    ensures Faithful(t, copied + Batch(t, Cursor(copied), readings(attempts)), readings, attempts + 1)
  {
    var r := readings(attempts);
    var cursor := Cursor(copied);
    var b := Batch(t, cursor, r);
    BatchIsInitialRun(t, cursor, r);
    AppendIncreasing(copied, b);
    assert cursor >= 0 by {
      assert copied != [] ==> copied[|copied| - 1] in copied;
    }
    hide Batch, Increasing, After;
    AttemptsMayGrow(t, copied, readings, attempts);
    forall row | row in b
      ensures WasShown(row, readings, attempts + 1)
    {
      assert readings(attempts).Opened? && r.shows(row.rowid);
    }
    forall row | row in t && 0 < row.rowid <= Cursor(copied + b) && row !in copied + b
      ensures WasHidden(row, readings, attempts + 1)
    {
      if row.rowid > cursor {
        assert row !in b;
        assert !r.shows(row.rowid);
      }
    }
  }

  lemma AttemptsMayGrow(t: seq<Row>, copied: seq<Row>, readings: nat -> Reading, attempts: nat)
    requires Faithful(t, copied, readings, attempts)
    ensures Faithful(t, copied, readings, attempts + 1)
  {
    hide Increasing;
    forall row | WasHidden(row, readings, attempts)
      ensures WasHidden(row, readings, attempts + 1)
    {
    }
    forall row | WasShown(row, readings, attempts)
      ensures WasShown(row, readings, attempts + 1)
    {
    }
  }

  lemma NoMoreThanTable(t: seq<Row>, copied: seq<Row>, readings: nat -> Reading, attempts: nat)
    requires Increasing(t) && Faithful(t, copied, readings, attempts)
    ensures |copied| <= |t|
  {
    SubtableIsShorter(t, copied);
  }

  lemma {:induction false} SubtableIsShorter(t: seq<Row>, a: seq<Row>)
    requires Increasing(t) && Increasing(a)
    requires forall row :: row in a ==> row in t
    ensures |a| <= |t|
  {
    if a != [] {
      assert a[0] in t;
      forall row | row in a[1..]
        ensures row in t[1..]
      {
        assert row in t && row != t[0];
      }
      SubtableIsShorter(t[1..], a[1..]);
    }
  }

  /** An undamaged query that reads nothing was shown nothing beyond the cursor. */
  lemma EmptyBatchIsTheEnd(t: seq<Row>, cursor: int, r: Reading)
    requires Increasing(t) && r.Opened? && r.fault.Fine? && Batch(t, cursor, r) == []
    ensures forall row :: row in t && row.rowid > cursor ==> !r.shows(row.rowid)
  {
    AfterIsFilter(t, cursor, r.shows);
    assert After(t, cursor, r.shows) == [];
  }

  ghost predicate Undamaged(readings: nat -> Reading) {
    forall k: nat :: readings(k).Opened? && readings(k).fault.Fine? && forall id :: readings(k).shows(id)
  }

  /** Exactly the rows with a positive rowid, so the whole table unless it has a row at or below zero. */
  ghost predicate IsPositivePart(t: seq<Row>, copied: seq<Row>) {
    && Increasing(copied)
    && (forall row :: row in copied <==> row in t && row.rowid > 0)
    && (copied == t <==> forall row :: row in t ==> row.rowid > 0)
  }

  /** The rows a finished pass over undamaged queries has copied. */
  lemma {:induction false} CompleteCopyIsTable(t: seq<Row>, copied: seq<Row>)
    requires Increasing(t) && Increasing(copied)
    requires forall row :: row in copied <==> row in t && row.rowid > 0
    ensures copied == t <==> forall row :: row in t ==> row.rowid > 0
  {
    if forall row :: row in t ==> row.rowid > 0 {
      SameRows(copied, t);
    } else {
      var row :| row in t && row.rowid <= 0;
      assert row !in copied;
    }
  }

  lemma {:induction false} SameRows(a: seq<Row>, b: seq<Row>)
    requires Increasing(a) && Increasing(b)
    requires forall row :: row in a <==> row in b
    ensures a == b
  {
    SubtableIsShorter(a, b);
    SubtableIsShorter(b, a);
    if a != [] {
      assert a[0] in b;
      assert b[0] in a;
      forall row
        ensures row in a[1..] <==> row in b[1..]
      {
        assert row in a[1..] <==> row in a && row != a[0];
        assert row in b[1..] <==> row in b && row != b[0];
      }
      SameRows(a[1..], b[1..]);
    }
  }

  /** Every row with a positive rowid is copied or was hidden from some query. */
  ghost predicate PassedOnlyHidden(t: seq<Row>, copied: seq<Row>, readings: nat -> Reading, attempts: nat) {
    forall row :: row in t && row.rowid > 0 && row !in copied ==> WasHidden(row, readings, attempts)
  }

  /** The last so many queries all stalled here. */
  ghost predicate StalledFor(t: seq<Row>, cursor: int, readings: nat -> Reading, attempts: nat, stall: nat) {
    stall <= attempts && forall k: nat :: attempts - stall <= k < attempts ==> Stalls(t, cursor, readings(k))
  }

  /** The query was refused or stopped by something other than damage before it read a row. */
  predicate Breaks(t: seq<Row>, cursor: int, r: Reading) {
    match r
    case Refused(malformed) => !malformed
    case Opened(_, _, fault) => fault.Other? && Batch(t, cursor, r) == []
  }

  /** An undamaged query reads nothing more. */
  predicate Ends(t: seq<Row>, cursor: int, r: Reading) {
    r.Opened? && r.fault.Fine? && Batch(t, cursor, r) == []
  }

  /** The query came to no row: it was stopped at once, or there was none to see. */
  ghost predicate ReadNothing(t: seq<Row>, cursor: int, r: Reading)
    requires r.Opened?
  {
    || (r.fault != Fine && r.stop == 0)
    || forall row :: row in t && row.rowid > cursor ==> !r.shows(row.rowid)
  }

  /** A batch has at most 200 rows, fewer only if the query was stopped there or there is nothing more to see. */
  lemma BatchIsFull(t: seq<Row>, cursor: int, r: Reading)
    requires Increasing(t) && r.Opened?
    ensures var b := Batch(t, cursor, r);
      && |b| <= 200 && (r.fault != Fine ==> |b| <= r.stop)
      && (|b| < 200 && (r.fault == Fine || |b| < r.stop) ==>
            forall row :: row in t && row.rowid > cursor && r.shows(row.rowid) ==> row in b)
  {
    AfterIsFilter(t, cursor, r.shows);
  }

  /** What each of the three endings of a query means for the rows. */
  lemma EndingsAre(t: seq<Row>, cursor: int, r: Reading)
    requires Increasing(t)
    ensures Stalls(t, cursor, r) <==> r == Refused(true) || (r.Opened? && r.fault == Malformed && ReadNothing(t, cursor, r))
    ensures Breaks(t, cursor, r) <==> r == Refused(false) || (r.Opened? && r.fault == Other && ReadNothing(t, cursor, r))
    ensures Ends(t, cursor, r) <==> r.Opened? && r.fault == Fine && ReadNothing(t, cursor, r)
  {
    if r.Opened? {
      AfterIsFilter(t, cursor, r.shows);
      var rows := After(t, cursor, r.shows);
      assert rows != [] ==> rows[0] in rows;
      hide After;
      assert Batch(t, cursor, r) == [] <==> ReadNothing(t, cursor, r);
    }
  }

  /** Every query so far either copied a row or stalled, never more than MAX_STALL times in a row. */
  ghost predicate UnderWay(t: seq<Row>, copied: seq<Row>, readings: nat -> Reading, attempts: nat, stall: nat) {
    && Faithful(t, copied, readings, attempts) && |copied| <= |t|
    && stall <= MAX_STALL && attempts <= (MAX_STALL + 1) * |copied| + stall
    && StalledFor(t, Cursor(copied), readings, attempts, stall)
  }

  /** How a run may end. */
  ghost predicate Finished(t: seq<Row>, copied: seq<Row>, readings: nat -> Reading, attempts: nat, outcome: Outcome) {
    && Faithful(t, copied, readings, attempts)
    && 0 < attempts <= 9 * (|copied| + 1)
    && (Undamaged(readings) ==> outcome.Exhausted? && IsPositivePart(t, copied))
    && match outcome
       case Exhausted =>
         PassedOnlyHidden(t, copied, readings, attempts) && Ends(t, Cursor(copied), readings(attempts - 1))
       case GaveUp => StalledFor(t, Cursor(copied), readings, attempts, 9)
       case Failed => Breaks(t, Cursor(copied), readings(attempts - 1))
  }

  /** A run that gave up stalled at its last query. */
  lemma LastOfStall(t: seq<Row>, copied: seq<Row>, readings: nat -> Reading, attempts: nat, outcome: Outcome)
    requires Finished(t, copied, readings, attempts, outcome)
    ensures attempts > 0 && (outcome.GaveUp? ==> Stalls(t, Cursor(copied), readings(attempts - 1)))
  {
  }

  lemma StartIsUnderWay(t: seq<Row>, readings: nat -> Reading)
    ensures UnderWay(t, [], readings, 0, 0)
  {
  }

  lemma EndFinishes(t: seq<Row>, copied: seq<Row>, readings: nat -> Reading, attempts: nat, stall: nat)
    requires Increasing(t) && UnderWay(t, copied, readings, attempts, stall)
    requires Ends(t, Cursor(copied), readings(attempts))
    ensures Finished(t, copied, readings, attempts + 1, Exhausted)
  {
    AttemptsMayGrow(t, copied, readings, attempts);
    EmptyBatchIsTheEnd(t, Cursor(copied), readings(attempts));
    hide Batch, After, Increasing;
    assert PassedOnlyHidden(t, copied, readings, attempts + 1);
    if Undamaged(readings) {
      forall row | row in t && row.rowid > 0
        ensures row in copied
      {
        assert !WasHidden(row, readings, attempts + 1);
      }
      CompleteCopyIsTable(t, copied);
    }
  }

  lemma BreakFinishes(t: seq<Row>, copied: seq<Row>, readings: nat -> Reading, attempts: nat, stall: nat)
    requires UnderWay(t, copied, readings, attempts, stall) && Breaks(t, Cursor(copied), readings(attempts))
    ensures Finished(t, copied, readings, attempts + 1, Failed)
  {
    hide Batch, After, Increasing;
    AttemptsMayGrow(t, copied, readings, attempts);
  }

  lemma StallGoesOnOrFinishes(t: seq<Row>, copied: seq<Row>, readings: nat -> Reading, attempts: nat, stall: nat)
    requires UnderWay(t, copied, readings, attempts, stall) && Stalls(t, Cursor(copied), readings(attempts))
    ensures if stall < MAX_STALL then UnderWay(t, copied, readings, attempts + 1, stall + 1)
      else Finished(t, copied, readings, attempts + 1, GaveUp)
  {
    assert !Undamaged(readings);
    hide Batch, After, Increasing, WasHidden, WasShown, IsPositivePart, Stalls;
    AttemptsMayGrow(t, copied, readings, attempts);
    assert StalledFor(t, Cursor(copied), readings, attempts + 1, stall + 1);
  }

  lemma BatchGoesOn(t: seq<Row>, copied: seq<Row>, readings: nat -> Reading, attempts: nat, stall: nat)
    requires Increasing(t) && UnderWay(t, copied, readings, attempts, stall) && readings(attempts).Opened?
    requires Batch(t, Cursor(copied), readings(attempts)) != []
    ensures UnderWay(t, copied + Batch(t, Cursor(copied), readings(attempts)), readings, attempts + 1, 0)
  {
    BatchKeepsFaith(t, copied, readings, attempts);
    var more := copied + Batch(t, Cursor(copied), readings(attempts));
    hide Batch, After, WasHidden;
    NoMoreThanTable(t, more, readings, attempts + 1);
  }

  /** The smallest case: a row at zero is left behind on every undamaged copy. */
  lemma RowZeroIsLeftBehind(copied: seq<Row>, readings: nat -> Reading, attempts: nat, outcome: Outcome)
    requires Undamaged(readings) && Finished([Row(0, 7)], copied, readings, attempts, outcome)
    ensures Increasing([Row(0, 7)]) && outcome.Exhausted? && copied == []
  {
    SameRows(copied, []);
  }

  /** Row by row, the cursor follows the last copied row. */
  method CopyBatch(copied: seq<Row>, cursor: int, batch: seq<Row>) returns (more: seq<Row>, next: int, got: nat)
    requires cursor == Cursor(copied)
    ensures more == copied + batch && next == Cursor(more) && got == |batch|
    ensures got == 0 ==> batch == [] && more == copied && next == cursor
  {
    more, next, got := copied, cursor, 0;
    while got < |batch|
      invariant got <= |batch| && more == copied + batch[..got] && next == Cursor(more)
    {
      next := batch[got].rowid;
      more, got := more + [batch[got]], got + 1;
    }
    assert batch[..got] == batch;
  }

  /**
   rescueTable. Terminates on every pattern of damage, copies a row at most
   once and in rowid order; a row it passes over was hidden from some query, and
   it gives up only after nine queries in a row that read nothing.
   */
  method CopyTable(t: seq<Row>, readings: nat -> Reading)
    returns (copied: seq<Row>, outcome: Outcome, attempts: nat)
    requires Increasing(t)
    ensures Finished(t, copied, readings, attempts, outcome)
  {
    StartIsUnderWay(t, readings);
    hide Increasing, Batch, After, Faithful, StalledFor, Undamaged, Finished;
    copied, attempts := [], 0;
    var cursor, stall := 0, 0;
    while true
      invariant 0 <= stall && UnderWay(t, copied, readings, attempts, stall) && cursor == Cursor(copied)
      decreases |t| - |copied|, MAX_STALL - stall
    {
      var reading := readings(attempts);
      attempts := attempts + 1;
      if reading.Refused? {
        if !reading.malformed {
          BreakFinishes(t, copied, readings, attempts - 1, stall);
          return copied, Failed, attempts;
        }
        StallGoesOnOrFinishes(t, copied, readings, attempts - 1, stall);
        stall := stall + 1;
        if stall > MAX_STALL {
          return copied, GaveUp, attempts;
        }
        continue;
      }
      var batch := Batch(t, cursor, reading);
      ghost var before := copied;
      var got;
      copied, cursor, got := CopyBatch(copied, cursor, batch);
      if got == 0 && reading.fault.Fine? {
        EndFinishes(t, before, readings, attempts - 1, stall);
        return copied, Exhausted, attempts;
      } else if got == 0 {
        if reading.fault.Other? {
          BreakFinishes(t, before, readings, attempts - 1, stall);
          return copied, Failed, attempts;
        }
        StallGoesOnOrFinishes(t, before, readings, attempts - 1, stall);
        stall := stall + 1;
        if stall > MAX_STALL {
          return copied, GaveUp, attempts;
        }
      } else {
        BatchGoesOn(t, before, readings, attempts - 1, stall);
        stall := 0;
      }
    }
  }
}
