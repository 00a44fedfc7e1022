/**
 The usage ledger while its schema grows. Opens of the new program add three
 columns one by one, under the store's lock but any of them may fail and the
 process may die at any step; writers of the new program use the columns they
 saw when they opened, writers of the old program know none of them.
 */
module Ledger {
  import opened Common

  datatype Col = ArtifactId | ArtifactAge | ShadowOwned

  datatype Row = Row(fetch: bool, art: Option<int>, age: Option<int>, owned: Option<bool>)

  /** What happened; an artifact id that is not positive is a fetch that found nothing. */
  datatype Event = OtherTool | OldFetch | Fetch(art: int, age: Option<int>, owned: bool)

  datatype Write = Write(event: Event, cols: set<Col>)

  /** Where the one process that holds the lock is in its migration. */
  datatype Migration =
    | NoOne
    | Altering(p: nat, seen: set<Col>, todo: seq<Col>, added: bool)
    | ReadingVersion(p: nat, seen: set<Col>)
    | ReadingMax(p: nat, seen: set<Col>)
    | Stamping(p: nat, seen: set<Col>, value: nat)

  /** rows[i] has id i + 1, as nothing deletes rows; written is the history behind them. */
  datatype State = State(
    cols: set<Col>,
    rows: seq<Row>,
    mark: nat,
    migration: Migration,
    handles: map<nat, set<Col>>,
    written: seq<Write>)

  datatype Step =
    | Open(p: nat, readable: bool)
    | Alter(ok: bool)
    | ReadVersion(ok: bool)
    | ReadMax(ok: bool)
    | WriteMark(ok: bool)
    | Die
    | Append(w: nat, event: Event)
    | AppendOld(fetch: bool)
    | Close(h: nat)

  const ALL: set<Col> := {ArtifactId, ArtifactAge, ShadowOwned}

  const ALTERS: seq<Col> := [ArtifactId, ArtifactAge, ShadowOwned]

  /** SQLite keeps user_version in 32 bits and turns a larger value into 0. */
  const MAX_VERSION: nat := 0x7fff_ffff

  predicate HasOutcome(cols: set<Col>) {
    ArtifactId in cols && ArtifactAge in cols
  }

  /** LedgerAppendFetch: name only the columns that are there. */
  function RowFor(event: Event, cols: set<Col>): Row {
    match event
    case OtherTool => Row(false, None, None, None)
    case OldFetch => Row(true, None, None, None)
    case Fetch(art, age, owned) =>
      if !HasOutcome(cols) then Row(true, None, None, None)
      else
        var known := art > 0;
        Row(true,
            if known then Some(art) else None,
            if known then age else Some(-1),
            if known && ShadowOwned in cols then Some(owned) else None)
  }

  function Finished(s: State): State
    requires !s.migration.NoOne?
  {
    s.(migration := NoOne, handles := s.handles[s.migration.p := s.migration.seen])
  }

  function Written(s: State, event: Event, cols: set<Col>): State {
    s.(rows := s.rows + [RowFor(event, cols)], written := s.written + [Write(event, cols)])
  }

  function Next(s: State, step: Step): State {
    match step
    case Open(p, readable) =>
      if !s.migration.NoOne? then s
      else if !readable then s.(handles := s.handles[p := {}])
      else s.(migration := Altering(p, s.cols, ALTERS, false))
    case Alter(ok) => if s.migration.Altering? then Altered(s, ok) else s
    case ReadVersion(ok) =>
      if !s.migration.ReadingVersion? then s
      else if !ok || s.mark != 0 then Finished(s)
      else s.(migration := ReadingMax(s.migration.p, s.migration.seen))
    case ReadMax(ok) =>
      if !s.migration.ReadingMax? then s
      else if !ok then Finished(s)
      else s.(migration := Stamping(s.migration.p, s.migration.seen, |s.rows| + 1))
    case WriteMark(ok) =>
      if !s.migration.Stamping? then s
      else if !ok then Finished(s)
      else Finished(s.(mark := if s.migration.value <= MAX_VERSION then s.migration.value else 0))
    case Die => s.(migration := NoOne)
    case Append(w, event) =>
      if w in s.handles && !event.OldFetch? then Written(s, event, s.handles[w]) else s
    case AppendOld(fetch) => Written(s, if fetch then OldFetch else OtherTool, {})
    case Close(h) => s.(handles := s.handles - {h})
  }

  /** One turn of the loop in migrateLedger, or its end. */
  function Altered(s: State, ok: bool): State
    requires s.migration.Altering?
  {
    var m := s.migration;
    if m.todo == [] then (if m.added then s.(migration := ReadingVersion(m.p, m.seen)) else Finished(s))
    else if m.todo[0] in m.seen || !ok then s.(migration := m.(todo := m.todo[1..]))
    else
      s.(cols := s.cols + {m.todo[0]},
         migration := Altering(m.p, m.seen + {m.todo[0]}, m.todo[1..], true))
  }

  function Run(s: State, steps: seq<Step>): State
    decreases |steps|
  {
    if steps == [] then s else Run(Next(s, steps[0]), steps[1..])
  }

  /** A ledger from before the columns, with the rows the old program left. */
  function Before(history: seq<bool>): State {
    State({}, seq(|history|, i requires 0 <= i < |history| => RowFor(if history[i] then OldFetch else OtherTool, {})),
          0, NoOne, map[],
          seq(|history|, i requires 0 <= i < |history| => Write(if history[i] then OldFetch else OtherTool, {})))
  }

  // ------------------------------------------------------------------
  // Reading it back
  // ------------------------------------------------------------------

  datatype Reading = NotFetch | Legacy | Resolved | Missed

  /** The predicates of LedgerFetchStats. */
  function ReadsAs(row: Row): Reading {
    if !row.fetch then NotFetch
    else if row.art.Some? then Resolved
    else if row.age.Some? then Missed
    else Legacy
  }

  function Count(rows: seq<Row>, reading: Reading): nat {
    if rows == [] then 0
    else Count(rows[..|rows| - 1], reading) + (if ReadsAs(rows[|rows| - 1]) == reading then 1 else 0)
  }

  function Calls(rows: seq<Row>): nat {
    if rows == [] then 0 else Calls(rows[..|rows| - 1]) + (if rows[|rows| - 1].fetch then 1 else 0)
  }

  /** Legacy fetches with id at least the mark. */
  function LegacyFrom(rows: seq<Row>, mark: nat): nat {
    if rows == [] then 0
    else
      LegacyFrom(rows[..|rows| - 1], mark)
      + (if |rows| >= mark && ReadsAs(rows[|rows| - 1]) == Legacy then 1 else 0)
  }

  // ------------------------------------------------------------------
  // What every step keeps
  // ------------------------------------------------------------------

  ghost predicate Inv(s: State) {
    && |s.rows| == |s.written|
    && (forall i :: 0 <= i < |s.rows| ==> s.rows[i] == RowFor(s.written[i].event, s.written[i].cols))
    && (forall i :: 0 <= i < |s.rows| ==> s.written[i].cols <= s.cols)
    && (forall h :: h in s.handles ==> s.handles[h] <= s.cols)
    && (!s.migration.NoOne? ==> s.migration.seen <= s.cols)
    && (s.migration.Altering? && !s.migration.added ==> s.cols == s.migration.seen)
    && s.mark <= |s.rows| + 1
    && (s.migration.ReadingMax? ==> s.mark == 0)
    && (s.migration.Stamping? ==> s.mark == 0 && 0 < s.migration.value <= |s.rows| + 1)
  }

  lemma BeforeSatisfiesInv(history: seq<bool>)
    ensures Inv(Before(history))
  {
  }

  lemma StepKeepsInv(s: State, step: Step)
    requires Inv(s)
    ensures Inv(Next(s, step))
    ensures s.cols <= Next(s, step).cols && s.rows <= Next(s, step).rows
    ensures s.mark != 0 ==> Next(s, step).mark == s.mark
  {
    hide RowFor;
    match step
    case Append(w, event) =>
      assert w in s.handles ==> forall i :: 0 <= i < |s.rows| ==> Next(s, step).rows[i] == s.rows[i];
    case _ =>
  }

  /** Every write adds its row and nothing else does: the new program's with the columns its handle saw, the old one's with none. */
  lemma StepWritesIff(s: State, step: Step)
    ensures Next(s, step).written == s.written + (
      if step.Append? && step.w in s.handles && !step.event.OldFetch? then [Write(step.event, s.handles[step.w])]
      else if step.AppendOld? then [Write(if step.fetch then OldFetch else OtherTool, {})]
      else [])
    ensures |Next(s, step).rows| - |s.rows| == |Next(s, step).written| - |s.written|
  {
  }

  /** A writer knows the columns there were, or that its process added, when its open ended; an open that cannot read them knows none. */
  lemma HandlesChangeOnlySo(s: State, step: Step)
    ensures var n := Next(s, step);
      if step.Close? then n.handles == s.handles - {step.h} && n.migration == s.migration
      else if step.Open? && !step.readable && s.migration.NoOne? then n == s.(handles := s.handles[step.p := {}])
      else if !s.migration.NoOne? && n.migration.NoOne? && !step.Die? then
        n.handles == s.handles[s.migration.p := s.migration.seen]
      else n.handles == s.handles
  {
  }

  /** The lock serialises opens, a failed addition is passed over, and a failed read or stamp ends an open without a mark. */
  lemma FailedOpenKeepsMark(s: State, step: Step)
    requires !s.migration.NoOne?
    ensures step.Open? ==> Next(s, step) == s
    ensures s.migration.Altering? && s.migration.todo != [] && step == Alter(false) ==>
      Next(s, step) == s.(migration := s.migration.(todo := s.migration.todo[1..]))
    ensures var m := s.migration;
      (m.ReadingVersion? && step == ReadVersion(false)) || (m.ReadingMax? && step == ReadMax(false))
        || (m.Stamping? && step == WriteMark(false)) ==>
      Next(s, step) == s.(migration := NoOne, handles := s.handles[m.p := m.seen])
  {
  }

  /** Along every run columns and rows only grow, and a mark once stamped never moves. */
  lemma {:induction false} RunKeepsInv(s: State, steps: seq<Step>)
    requires Inv(s)
    ensures Inv(Run(s, steps))
    ensures s.cols <= Run(s, steps).cols && s.rows <= Run(s, steps).rows
    ensures s.mark != 0 ==> Run(s, steps).mark == s.mark
    decreases |steps|
  {
    if steps != [] {
      StepKeepsInv(s, steps[0]);
      RunKeepsInv(Next(s, steps[0]), steps[1..]);
    }
  }

  /**
   A row reads as resolved exactly when an artifact was returned and the writer
   knew both columns, as missed exactly when none was and it knew both; the rest
   reads as legacy. The row holds the id and the age of the artifact exactly when
   it reads as resolved, and its ownership exactly when the writer knew the third
   column too.
   */
  lemma NeverMisread(history: seq<bool>, steps: seq<Step>, i: nat)
    requires i < |Run(Before(history), steps).rows|
    ensures var s := Run(Before(history), steps);
      |s.written| == |s.rows| &&
      var w := s.written[i];
      && (ReadsAs(s.rows[i]) == Resolved <==> w.event.Fetch? && w.event.art > 0 && HasOutcome(w.cols))
      && (ReadsAs(s.rows[i]) == Missed <==> w.event.Fetch? && w.event.art <= 0 && HasOutcome(w.cols))
      && (ReadsAs(s.rows[i]) == NotFetch <==> w.event.OtherTool?)
      && (forall a :: s.rows[i].art == Some(a) <==>
            w.event.Fetch? && w.event.art == a > 0 && ArtifactId in w.cols && ArtifactAge in w.cols)
      && (s.rows[i].art.Some? ==> w.event.Fetch? && s.rows[i].age == w.event.age)
      && (s.rows[i].art.None? ==>
            s.rows[i].age == if ReadsAs(s.rows[i]) == Missed then Some(-1) else None)
      && (forall b :: s.rows[i].owned == Some(b) <==>
            w.event.Fetch? && w.event.art > 0 && w.event.owned == b
            && ArtifactId in w.cols && ArtifactAge in w.cols && ShadowOwned in w.cols)
  {
    BeforeSatisfiesInv(history);
    RunKeepsInv(Before(history), steps);
  }

  /** calls = legacy + resolved + missed, on any rows. */
  lemma {:induction false} CallsAddUp(rows: seq<Row>)
    ensures Calls(rows) == Count(rows, Legacy) + Count(rows, Resolved) + Count(rows, Missed)
  {
    if rows != [] {
      CallsAddUp(rows[..|rows| - 1]);
    }
  }

  /** The legacy count splits at any mark into what came before it and what came after. */
  lemma {:induction false} LegacySplits(rows: seq<Row>, mark: nat)
    requires 0 < mark <= |rows| + 1
    ensures Count(rows, Legacy) == Count(rows[..mark - 1], Legacy) + LegacyFrom(rows, mark)
  {
    if |rows| == mark - 1 {
      assert rows[..mark - 1] == rows;
      NoneFrom(rows, mark);
    } else {
      var shorter := rows[..|rows| - 1];
      LegacySplits(shorter, mark);
      assert shorter[..mark - 1] == rows[..mark - 1];
    }
  }

  lemma {:induction false} NoneFrom(rows: seq<Row>, mark: nat)
    requires |rows| < mark
    ensures LegacyFrom(rows, mark) == 0
  {
    if rows != [] {
      NoneFrom(rows[..|rows| - 1], mark);
    }
  }

  /** The mark, or the value about to become it. */
  function Pending(s: State): nat {
    if s.mark != 0 then s.mark else if s.migration.Stamping? then s.migration.value else 0
  }

  lemma {:induction false} RunOneMore(s: State, steps: seq<Step>, step: Step)
    ensures Run(s, steps + [step]) == Next(Run(s, steps), step)
    decreases |steps|
  {
    hide Next;
    if steps == [] {
      assert [step][1..] == [];
      assert [] + [step] == [step];
    } else {
      assert (steps + [step])[1..] == steps[1..] + [step];
      RunOneMore(Next(s, steps[0]), steps[1..], step);
    }
  }

  /** The k-th step of the run reads max(id), and value is one past the rows there were. */
  ghost predicate IsReadOf(s: State, steps: seq<Step>, k: nat, value: nat) {
    && k < |steps| && steps[k] == ReadMax(true)
    && Run(s, steps[..k]).migration.ReadingMax? && value == |Run(s, steps[..k]).rows| + 1
  }

  lemma {:induction false} PendingComesFromRead(history: seq<bool>, steps: seq<Step>) returns (k: nat)
    requires Pending(Run(Before(history), steps)) != 0
    ensures IsReadOf(Before(history), steps, k, Pending(Run(Before(history), steps)))
    decreases |steps|
  {
    var start := Before(history);
    if steps == [] {
      assert false;
    } else {
      var n := |steps| - 1;
      var s := Run(start, steps[..n]);
      assert steps[..n] + [steps[n]] == steps;
      RunOneMore(start, steps[..n], steps[n]);
      BeforeSatisfiesInv(history);
      RunKeepsInv(start, steps[..n]);
      StepKeepsPending(s, steps[n]);
      if Pending(s) != 0 && Pending(Next(s, steps[n])) == Pending(s) {
        k := PendingComesFromRead(history, steps[..n]);
        assert steps[..n][..k] == steps[..k];
      } else {
        k := n;
      }
    }
  }

  /** Only a read of max(id) brings a new value. */
  lemma StepKeepsPending(s: State, step: Step)
    requires Inv(s) && Pending(Next(s, step)) != 0
    ensures Pending(Next(s, step)) == Pending(s)
      || (step == ReadMax(true) && s.migration.ReadingMax? && Pending(Next(s, step)) == |s.rows| + 1)
    ensures Next(s, step).mark != s.mark ==> Next(s, step).mark <= MAX_VERSION
  {
    hide RowFor;
  }

  /**
   In every run from an old ledger that ends with a mark, the mark is one past
   the rows there were at one particular read of max(id), and
   legacy-after-migrate is the number of legacy fetches written since that
   read, whatever was written between the read and the stamp.
   */
  lemma LegacyAfterMigrateIsExact(history: seq<bool>, steps: seq<Step>) returns (k: nat)
    requires Run(Before(history), steps).mark != 0
    ensures var e := Run(Before(history), steps);
      && IsReadOf(Before(history), steps, k, e.mark) && e.mark <= 0x7fff_ffff
      && LegacyFrom(e.rows, e.mark) == Count(e.rows, Legacy) - Count(Run(Before(history), steps[..k]).rows, Legacy)
  {
    hide *;
    var start := Before(history);
    MarkIsPending(Run(start, steps));
    k := PendingComesFromRead(history, steps);
    MarkFits(history, steps);
    BeforeSatisfiesInv(history);
    RunKeepsInv(start, steps[..k]);
    assert steps[..k] + steps[k..] == steps by {
      KthStep(start, steps, k, Run(start, steps).mark);
    }
    RunInTwo(start, steps[..k], steps[k..]);
    RunKeepsInv(Run(start, steps[..k]), steps[k..]);
    KthStep(start, steps, k, Run(start, steps).mark);
    LegacySince(Run(start, steps[..k]).rows, Run(start, steps).rows);
  }

  lemma MarkIsPending(s: State)
    requires s.mark != 0
    ensures Pending(s) == s.mark
  {
  }

  lemma KthStep(s: State, steps: seq<Step>, k: nat, value: nat)
    requires IsReadOf(s, steps, k, value)
    ensures k < |steps| && value == |Run(s, steps[..k]).rows| + 1
  {
  }

  /** Rows up to a mark were there before, the rest came after. */
  lemma LegacySince(before: seq<Row>, after: seq<Row>)
    requires before <= after
    ensures LegacyFrom(after, |before| + 1) == Count(after, Legacy) - Count(before, Legacy)
  {
    LegacySplits(after, |before| + 1);
    assert after[..|before|] == before;
  }

  lemma {:induction false} RunInTwo(s: State, a: seq<Step>, b: seq<Step>)
    ensures Run(s, a + b) == Run(Run(s, a), b)
    decreases |a|
  {
    hide Next;
    if a == [] {
      assert a + b == b;
    } else {
      assert (a + b)[1..] == a[1..] + b;
      RunInTwo(Next(s, a[0]), a[1..], b);
    }
  }

  lemma {:induction false} MarkFits(history: seq<bool>, steps: seq<Step>)
    ensures Run(Before(history), steps).mark <= 0x7fff_ffff
    decreases |steps|
  {
    if steps != [] {
      var n := |steps| - 1;
      assert steps[..n] + [steps[n]] == steps;
      RunOneMore(Before(history), steps[..n], steps[n]);
      MarkFits(history, steps[..n]);
    }
  }

  /**
   A process that dies after adding the last column but before the stamp leaves
   a ledger that is never stamped: every later open finds nothing to add.
   */
  lemma {:induction false} UnmarkedForGood(s: State, steps: seq<Step>)
    requires Inv(s) && s.cols == ALL && s.mark == 0 && NothingAdded(s)
    ensures Run(s, steps).mark == 0
    decreases |steps|
  {
    if steps != [] {
      StepKeepsInv(s, steps[0]);
      FullLedgerAddsNothing(s, steps[0]);
      UnmarkedForGood(Next(s, steps[0]), steps[1..]);
    }
  }

  /** A stamp that does not fit leaves the mark at zero, and rows only become more. */
  lemma {:induction false} TooLateToMark(s: State, steps: seq<Step>)
    requires s.mark == 0 && |s.rows| >= MAX_VERSION && (s.migration.Stamping? ==> s.migration.value > MAX_VERSION)
    ensures Run(s, steps).mark == 0
    decreases |steps|
  {
    if steps != [] {
      TooLateToMark(Next(s, steps[0]), steps[1..]);
    }
  }

  /** An unmarked ledger that nobody is migrating can still be marked exactly if a column is missing and the mark would fit. */
  lemma CanStillBeMarked(s: State)
    requires Inv(s) && s.migration.NoOne? && s.mark == 0 && s.cols <= ALL
    ensures (exists steps :: Run(s, steps).mark != 0) <==> s.cols != ALL && |s.rows| < MAX_VERSION
  {
    if s.cols != ALL && |s.rows| < MAX_VERSION {
      var steps := MarkIt(s);
      assert Run(s, steps).mark != 0;
    } else {
      forall steps
        ensures Run(s, steps).mark == 0
      {
        if s.cols == ALL {
          UnmarkedForGood(s, steps);
        } else {
          TooLateToMark(s, steps);
        }
      }
    }
  }

  lemma MarkIt(s: State) returns (steps: seq<Step>)
    requires s.migration.NoOne? && s.mark == 0 && s.cols < ALL && |s.rows| < MAX_VERSION
    ensures Run(s, steps).mark != 0
  {
    hide Next;
    UndisturbedOpen(s, 0);
    steps := [Open(0, true)] + UNDISTURBED;
    assert steps[1..] == UNDISTURBED;
    assert Run(s, steps) == Run(Next(s, steps[0]), steps[1..]);
  }

  const DIES_BEFORE_STAMP: seq<Step> := [Open(0, true), Alter(true), Alter(true), Alter(true), Alter(true), Die]

  /** From any old ledger: the open that adds the columns and dies before the stamp. */
  lemma DyingBeforeStamp(history: seq<bool>, steps: seq<Step>)
    ensures var s := Run(Before(history), DIES_BEFORE_STAMP);
      && Inv(s) && s.cols == ALL && s.migration.NoOne? && s.mark == 0
      && Run(s, steps).mark == 0
  {
    var start := Before(history);
    BeforeSatisfiesInv(history);
    RunKeepsInv(start, DIES_BEFORE_STAMP);
    AltersRun(start, 0);
    UnfoldSix(start, DIES_BEFORE_STAMP);
    UnmarkedForGood(Run(start, DIES_BEFORE_STAMP), steps);
  }

  lemma UnfoldSix(s: State, steps: seq<Step>)
    requires |steps| == 6
    ensures Run(s, steps) ==
      var s5 := Next(Next(Next(Next(Next(s, steps[0]), steps[1]), steps[2]), steps[3]), steps[4]);
      Next(s5, steps[5])
  {
    hide Next;
    RunOneMore(s, steps[..5], steps[5]);
    RunOneMore(s, steps[..4], steps[4]);
    RunOneMore(s, steps[..3], steps[3]);
    RunOneMore(s, steps[..2], steps[2]);
    RunOneMore(s, steps[..1], steps[1]);
    RunOneMore(s, [], steps[0]);
    assert steps[..5] + [steps[5]] == steps && steps[..4] + [steps[4]] == steps[..5];
    assert steps[..3] + [steps[3]] == steps[..4] && steps[..2] + [steps[2]] == steps[..3];
    assert steps[..1] + [steps[1]] == steps[..2] && [] + [steps[0]] == steps[..1];
  }

  predicate NothingAdded(s: State) {
    s.migration.NoOne? || (s.migration.Altering? && !s.migration.added && s.migration.seen == s.cols)
  }

  lemma FullLedgerAddsNothing(s: State, step: Step)
    requires Inv(s) && s.cols == ALL && s.mark == 0 && NothingAdded(s)
    ensures var n := Next(s, step); n.cols == s.cols && n.mark == 0 && NothingAdded(n)
  {
    if step.Alter? && s.migration.Altering? && s.migration.todo != [] {
      match s.migration.todo[0]
      case ArtifactId =>
      case ArtifactAge =>
      case ShadowOwned =>
    }
  }

  /** An open that nothing disturbs: three columns, the version, max(id), the mark. */
  const UNDISTURBED: seq<Step> :=
    [Alter(true), Alter(true), Alter(true), Alter(true), ReadVersion(true), ReadMax(true), WriteMark(true)]

  /**
   An undisturbed open of a ledger that lacks some or all columns adds the rest,
   stamps one past its rows unless it is stamped already, and hands out a handle
   that knows everything; if no column was missing it changes nothing but its handle.
   */
  lemma UndisturbedOpen(s: State, p: nat)
    requires s.migration.NoOne? && s.cols <= ALL
    ensures var e := Run(Next(s, Open(p, true)), UNDISTURBED);
      && e.migration.NoOne? && p in e.handles && e.cols == ALL && e.handles[p] == ALL && e.rows == s.rows
      && e.mark == (if s.cols == ALL || s.mark != 0 then s.mark
                    else if |s.rows| + 1 <= MAX_VERSION then |s.rows| + 1 else 0)
      && (s.cols == ALL ==> e == s.(handles := s.handles[p := s.cols]))
  {
    var s0 := Next(s, Open(p, true));
    var s4 := Next(Next(Next(Next(s0, Alter(true)), Alter(true)), Alter(true)), Alter(true));
    AltersRun(s, p);
    StampRuns(s4);
    UnfoldSeven(s0, UNDISTURBED);
  }

  /** The four turns of the column loop. */
  lemma AltersRun(s: State, p: nat)
    requires s.migration.NoOne?
    ensures var s0 := Next(s, Open(p, true));
      var s4 := Next(Next(Next(Next(s0, Alter(true)), Alter(true)), Alter(true)), Alter(true));
      var all := s.cols + ALL;
      s4 == if all == s.cols then s.(handles := s.handles[p := s.cols])
            else s.(cols := all, migration := ReadingVersion(p, all))
  {
    var s0 := Next(s, Open(p, true));
    var c1 := s.cols + {ArtifactId};
    var c2 := c1 + {ArtifactAge};
    var c3 := c2 + {ShadowOwned};
    assert ALTERS[1..] == [ArtifactAge, ShadowOwned] && ALTERS[1..][1..] == [ShadowOwned] && ALTERS[1..][1..][1..] == [];
    var s1 := Next(s0, Alter(true));
    assert s1 == s.(cols := c1, migration := Altering(p, c1, [ArtifactAge, ShadowOwned], c1 != s.cols)) by {
      assert ArtifactId in s.cols ==> c1 == s.cols;
    }
    var s2 := Next(s1, Alter(true));
    assert s2 == s.(cols := c2, migration := Altering(p, c2, [ShadowOwned], c2 != s.cols)) by {
      assert ArtifactAge in c1 ==> c2 == c1;
    }
    var s3 := Next(s2, Alter(true));
    assert s3 == s.(cols := c3, migration := Altering(p, c3, [], c3 != s.cols)) by {
      assert ShadowOwned in c2 ==> c3 == c2;
    }
    assert c3 == s.cols + ALL;
  }

  lemma StampRuns(s: State)
    ensures var e := Next(Next(Next(s, ReadVersion(true)), ReadMax(true)), WriteMark(true));
      && (s.migration.NoOne? ==> e == s)
      && (s.migration.ReadingVersion? && s.mark == 0 ==>
            e == Finished(s).(mark := if |s.rows| + 1 <= MAX_VERSION then |s.rows| + 1 else 0))
      && (s.migration.ReadingVersion? && s.mark != 0 ==> e == Finished(s))
  {
  }

  lemma UnfoldSeven(s: State, steps: seq<Step>)
    requires |steps| == 7
    ensures Run(s, steps) ==
      var s4 := Next(Next(Next(Next(s, steps[0]), steps[1]), steps[2]), steps[3]);
      Next(Next(Next(s4, steps[4]), steps[5]), steps[6])
  {
    hide Next;
    var s4 := Next(Next(Next(Next(s, steps[0]), steps[1]), steps[2]), steps[3]);
    assert Run(s, steps) == Run(s4, steps[4..]) by {
      assert steps[1..][1..] == steps[2..] && steps[2..][1..] == steps[3..] && steps[3..][1..] == steps[4..];
      var s2 := Next(Next(s, steps[0]), steps[1]);
      assert Run(s, steps) == Run(s2, steps[2..]);
      assert Run(s2, steps[2..]) == Run(s4, steps[4..]);
    }
    assert steps[4..][1..] == steps[5..] && steps[5..][1..] == steps[6..] && steps[6..][1..] == [];
    var s6 := Next(Next(s4, steps[4]), steps[5]);
    assert Run(s4, steps[4..]) == Run(s6, steps[6..]);
    assert Run(s6, steps[6..]) == Run(Next(s6, steps[6]), []);
    assert Run(Next(s6, steps[6]), []) == Next(s6, steps[6]);
  }
}
