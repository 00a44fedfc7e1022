/**
 The session event log: gated append, atomic session creation, and the sweep
 that deletes expired events and then empty old sessions, batch by batch, each
 batch a transaction of its own.
 */
module EventLog {
  import opened Common
  import opened Rows

  /** Session ids in their text order. */
  type SessionId = nat

  datatype Kind = SessionStart | Other

  datatype Event = Event(eventId: nat, session: SessionId, kind: Kind, ts: int, summary: string, supersedes: Option<nat>)

  datatype Session = Session(startedAt: int, retention: int)

  datatype Log = Log(events: map<nat, Event>, sessions: map<SessionId, Session>)

  const EMPTY_SESSION_MAX_AGE: int := 7 * 24 * 3600
  const SWEEP_BATCH: nat := 64

  // ------------------------------------------------------------------
  // Transactions
  // ------------------------------------------------------------------

  predicate HasEvent(log: Log, eventId: nat) {
    exists i :: i in log.events && log.events[i].eventId == eventId
  }

  function Inserted(log: Log, ev: Event): Log {
    log.(events := log.events[Greatest(log.events.Keys) + 1 := ev])
  }

  /** appendEvent: what it corrects must exist, and so must its session. */
  function Appended(log: Log, ev: Event): Log {
    if ev.supersedes.Some? && !HasEvent(log, ev.supersedes.value) then log
    else if ev.session !in log.sessions then log
    else Inserted(log, ev)
  }

  /** EnsureSession: a new session and its start event, or nothing. */
  function Ensured(log: Log, s: SessionId, meta: Session, start: Event): Log {
    if s in log.sessions then log
    else Inserted(log.(sessions := log.sessions[s := meta]), start)
  }

  predicate IsExpired(log: Log, now: int, ev: Event) {
    ev.session in log.sessions && log.sessions[ev.session].retention > 0
    && ev.ts < now - log.sessions[ev.session].retention
  }

  function Expired(log: Log, now: int): set<nat> {
    set i | i in log.events && IsExpired(log, now, log.events[i])
  }

  predicate HasRealEvent(log: Log, s: SessionId) {
    exists i :: i in log.events && log.events[i].session == s && log.events[i].kind != SessionStart
  }

  function EmptySessions(log: Log, cutoff: int): set<SessionId> {
    set s | s in log.sessions && log.sessions[s].startedAt < cutoff && !HasRealEvent(log, s)
  }

  function WithoutEvents(log: Log, ids: set<nat>): Log {
    log.(events := log.events - ids)
  }

  function StartsOf(log: Log, ss: set<SessionId>): set<nat> {
    set i | i in log.events && log.events[i].kind == SessionStart && log.events[i].session in ss
  }

  function WithoutSessions(log: Log, ss: set<SessionId>): Log {
    Log(log.events - StartsOf(log, ss), log.sessions - ss)
  }

  function RetentionBatch(log: Log, now: int): set<nat> {
    FirstOf(Expired(log, now), SWEEP_BATCH)
  }

  function EmptyBatch(log: Log, cutoff: int): set<SessionId> {
    FirstOf(EmptySessions(log, cutoff), SWEEP_BATCH)
  }

  // ------------------------------------------------------------------
  // The sweep in one description
  // ------------------------------------------------------------------

  function Retained(log: Log, now: int): Log {
    WithoutEvents(log, Expired(log, now))
  }

  /** Expired events by each session's own retention, then old sessions that only have start events. */
  function Swept(log: Log, now: int): Log {
    WithoutSessions(Retained(log, now), EmptySessions(Retained(log, now), now - EMPTY_SESSION_MAX_AGE))
  }

  lemma ExpiredAfterBatch(log: Log, now: int, ids: set<nat>)
    requires ids <= Expired(log, now)
    ensures Expired(WithoutEvents(log, ids), now) == Expired(log, now) - ids
    ensures WithoutEvents(WithoutEvents(log, ids), Expired(log, now) - ids) == Retained(log, now)
  {
    assert ids + (Expired(log, now) - ids) == Expired(log, now);
    assert (log.events - ids) - (Expired(log, now) - ids) == log.events - Expired(log, now);
  }

  /** Deleting start events does not make a session empty or full. */
  lemma StartsDoNotCount(log: Log, ss: set<SessionId>, cutoff: int)
    ensures EmptySessions(WithoutEvents(log, StartsOf(log, ss)), cutoff) == EmptySessions(log, cutoff)
  {
    var d := WithoutEvents(log, StartsOf(log, ss));
    forall s
      ensures HasRealEvent(d, s) <==> HasRealEvent(log, s)
    {
      if i :| i in log.events && log.events[i].session == s && log.events[i].kind != SessionStart {
        assert i in d.events;
      }
    }
  }

  lemma EmptyAfterBatch(log: Log, cutoff: int, ss: set<SessionId>)
    requires ss <= EmptySessions(log, cutoff)
    ensures EmptySessions(WithoutSessions(log, ss), cutoff) == EmptySessions(log, cutoff) - ss
    ensures WithoutSessions(WithoutSessions(log, ss), EmptySessions(log, cutoff) - ss)
         == WithoutSessions(log, EmptySessions(log, cutoff))
  {
    StartsDoNotCount(log, ss, cutoff);
    var d := WithoutSessions(log, ss);
    forall s
      ensures HasRealEvent(d, s) <==> HasRealEvent(WithoutEvents(log, StartsOf(log, ss)), s)
    {
    }
    var all := EmptySessions(log, cutoff);
    assert ss + (all - ss) == all;
    assert StartsOf(log, all) == StartsOf(log, ss) + StartsOf(d, all - ss);
    assert (log.events - StartsOf(log, ss)) - StartsOf(d, all - ss) == log.events - StartsOf(log, all);
    assert (log.sessions - ss) - (all - ss) == log.sessions - all;
  }

  /**
   What a sweep takes: an event exactly if it is expired, or it is the start of
   a session that is removed; a session exactly if it is old and nothing but
   start events is left of it. Whatever has no retention keeps all its real events.
   */
  lemma SweepOutcome(log: Log, now: int)
    ensures var d := Swept(log, now);
      && (forall i :: i in d.events ==> i in log.events && d.events[i] == log.events[i])
      && (forall s :: s in d.sessions ==> s in log.sessions && d.sessions[s] == log.sessions[s])
      && (forall i :: i in log.events && i !in d.events <==>
            i in log.events && (IsExpired(log, now, log.events[i]) || StartOfRemoved(log, d, i)))
      && (forall s :: s in log.sessions && s in d.sessions <==>
            s in log.sessions && (log.sessions[s].startedAt >= now - 7 * 24 * 3600 || HasRealEvent(d, s)))
      && (forall i :: i in log.events && log.events[i].kind == Other
            && log.events[i].session in log.sessions && log.sessions[log.events[i].session].retention <= 0
            ==> i in d.events && log.events[i].session in d.sessions)
  {
    var r := Retained(log, now);
    var d := Swept(log, now);
    var cutoff := now - EMPTY_SESSION_MAX_AGE;
    forall s
      ensures HasRealEvent(d, s) <==> HasRealEvent(r, s)
    {
      if i :| i in r.events && r.events[i].session == s && r.events[i].kind != SessionStart {
        assert i in d.events;
      }
    }
    forall i | i in log.events && log.events[i].kind == Other
      && log.events[i].session in log.sessions && log.sessions[log.events[i].session].retention <= 0
      ensures i in d.events && log.events[i].session in d.sessions
    {
      assert i in r.events && HasRealEvent(r, log.events[i].session);
    }
  }

  predicate StartOfRemoved(log: Log, d: Log, i: nat) {
    i in log.events && log.events[i].kind == SessionStart
    && log.events[i].session in log.sessions && log.events[i].session !in d.sessions
  }

  // ------------------------------------------------------------------
  // Any interleaving of transactions
  // ------------------------------------------------------------------

  datatype Op =
    | Append(ev: Event)
    | Ensure(s: SessionId, meta: Session, ts: int, eventId: nat)
    | OpenSession(issued: SessionId, opens: Session)
    | SweepEvents(now: int)
    | SweepSessions(cutoff: int)

  function StartEvent(s: SessionId, ts: int, eventId: nat): Event {
    Event(eventId, s, SessionStart, ts, "session started", None)
  }

  function Apply(log: Log, op: Op): Log {
    match op
    case Append(ev) => Appended(log, ev)
    case Ensure(s, meta, ts, eventId) => Ensured(log, s, meta, StartEvent(s, ts, eventId))
    case OpenSession(issued, meta) =>
      if issued in log.sessions then log else log.(sessions := log.sessions[issued := meta])
    case SweepEvents(now) => WithoutEvents(log, RetentionBatch(log, now))
    case SweepSessions(cutoff) => WithoutSessions(log, EmptyBatch(log, cutoff))
  }

  function Run(log: Log, ops: seq<Op>): Log
    decreases |ops|
  {
    if ops == [] then log else Run(Apply(log, ops[0]), ops[1..])
  }

  /** Events without a session row. */
  function Orphans(log: Log): set<nat> {
    set i | i in log.events && log.events[i].session !in log.sessions
  }

  /** No transaction leaves an event without its session; one that had none before may only go. */
  lemma StepAddsNoOrphan(log: Log, op: Op)
    ensures Orphans(Apply(log, op)) <= Orphans(log)
    ensures forall i :: i in Orphans(Apply(log, op)) ==> Apply(log, op).events[i] == log.events[i]
  {
    match op
    case SweepSessions(cutoff) =>
      var ss := EmptyBatch(log, cutoff);
      forall i | i in Orphans(Apply(log, op))
        ensures i in Orphans(log)
      {
        if log.events[i].session in ss {
          assert HasRealEvent(log, log.events[i].session);
        }
      }
    case _ =>
  }

  lemma {:induction false} RunAddsNoOrphan(log: Log, ops: seq<Op>)
    ensures Orphans(Run(log, ops)) <= Orphans(log)
    ensures forall i :: i in Orphans(Run(log, ops)) ==> Run(log, ops).events[i] == log.events[i]
    decreases |ops|
  {
    if ops != [] {
      StepAddsNoOrphan(log, ops[0]);
      RunAddsNoOrphan(Apply(log, ops[0]), ops[1..]);
    }
  }

  /** From an empty log, every event always has its session row. */
  lemma EveryEventHasItsSession(ops: seq<Op>, i: nat)
    requires i in Run(Log(map[], map[]), ops).events
    ensures Run(Log(map[], map[]), ops).events[i].session in Run(Log(map[], map[]), ops).sessions
  {
    RunAddsNoOrphan(Log(map[], map[]), ops);
    assert Orphans(Log(map[], map[])) == {};
  }

  /** A session removed by a batch had no real event at that moment, however late one was appended. */
  lemma RealEventsProtectSessions(log: Log, cutoff: int, s: SessionId)
    requires s in log.sessions && HasRealEvent(log, s)
    ensures s in Apply(log, SweepSessions(cutoff)).sessions
    ensures forall i :: i in log.events && log.events[i].session == s ==> i in Apply(log, SweepSessions(cutoff)).events
  {
  }

  // ------------------------------------------------------------------
  // When the newest id stays
  // ------------------------------------------------------------------

  /** Nothing with an id up to the newest is new, and the newest id does not go back. */
  ghost predicate KeepsNewest(log: Log, d: Log) {
    && Greatest(log.events.Keys) <= Greatest(d.events.Keys)
    && forall i :: i in d.events ==> (i in log.events && d.events[i] == log.events[i]) || i > Greatest(log.events.Keys)
  }

  lemma KeepsNewestComposes(a: Log, b: Log, c: Log)
    requires KeepsNewest(a, b) && KeepsNewest(b, c)
    ensures KeepsNewest(a, c)
  {
  }

  /** The batch deletes the newest event. */
  predicate TakesNewest(log: Log, op: Op) {
    match op
    case SweepEvents(now) => Greatest(log.events.Keys) in RetentionBatch(log, now)
    case SweepSessions(cutoff) => Greatest(log.events.Keys) in StartsOf(log, EmptyBatch(log, cutoff))
    case _ => false
  }

  /** Ids are issued from one. */
  predicate IdsFromOne(log: Log) {
    0 !in log.events
  }

  lemma InsertedIsNewest(log: Log, ev: Event)
    ensures Greatest(Inserted(log, ev).events.Keys) == Greatest(log.events.Keys) + 1
    ensures KeepsNewest(log, Inserted(log, ev))
  {
    var id := Greatest(log.events.Keys) + 1;
    var keys := Inserted(log, ev).events.Keys;
    assert keys == log.events.Keys + {id};
    assert id in keys && Greatest(keys) in keys;
  }

  lemma DeletionKeepsNewest(log: Log, ids: set<nat>)
    requires IdsFromOne(log) && ids <= log.events.Keys
    ensures KeepsNewest(log, WithoutEvents(log, ids)) <==> Greatest(log.events.Keys) !in ids
  {
    var top := Greatest(log.events.Keys);
    var d := WithoutEvents(log, ids);
    if top in ids {
      assert Greatest(d.events.Keys) != top;
    } else if log.events != map[] {
      assert top in d.events.Keys;
    }
  }

  function Newest(log: Log): Event
    requires log.events != map[]
  {
    log.events[Greatest(log.events.Keys)]
  }

  /**
   The newest event is due: past its own session's retention, with no more
   expired events than one batch takes; or the start of an old session without
   real events, with fewer such sessions before it than one batch takes.
   */
  predicate NewestIsDue(log: Log, op: Op) {
    match op
    case SweepEvents(now) =>
      log.events != map[] && IsExpired(log, now, Newest(log)) && |Expired(log, now)| <= 64
    case SweepSessions(cutoff) =>
      && log.events != map[] && Newest(log).kind == SessionStart
      && var s := Newest(log).session;
         && s in log.sessions && log.sessions[s].startedAt < cutoff && !HasRealEvent(log, s)
         && |Below(EmptySessions(log, cutoff), s)| < 64
    case _ => false
  }

  /** A batch deletes the newest event exactly if it is due. */
  lemma NewestGoesIff(log: Log, op: Op)
    ensures TakesNewest(log, op) <==> NewestIsDue(log, op)
  {
    var top := Greatest(log.events.Keys);
    match op
    case SweepEvents(now) =>
      var all := Expired(log, now);
      if top in all {
        FirstOfRank(all, SWEEP_BATCH, top);
        assert Below(all, top) == all - {top};
      }
    case SweepSessions(cutoff) =>
      var all := EmptySessions(log, cutoff);
      if log.events != map[] && Newest(log).session in all {
        FirstOfRank(all, SWEEP_BATCH, Newest(log).session);
      }
    case _ =>
  }

  /** A transaction keeps the newest id, and with it every older id's meaning, exactly unless its batch finds the newest event due. */
  lemma StepKeepsNewest(log: Log, op: Op)
    requires IdsFromOne(log)
    ensures KeepsNewest(log, Apply(log, op)) <==> !NewestIsDue(log, op)
    ensures IdsFromOne(Apply(log, op))
  {
    NewestGoesIff(log, op);
    hide NewestIsDue;
    match op
    case SweepEvents(now) => DeletionKeepsNewest(log, RetentionBatch(log, now));
    case SweepSessions(cutoff) => DeletionKeepsNewest(log, StartsOf(log, EmptyBatch(log, cutoff)));
    case Append(ev) => InsertedIsNewest(log, ev);
    case Ensure(s, meta, ts, eventId) =>
      InsertedIsNewest(log.(sessions := log.sessions[s := meta]), StartEvent(s, ts, eventId));
    case OpenSession(_, _) =>
  }

  predicate NewestNeverDue(log: Log, ops: seq<Op>)
    decreases |ops|
  {
    ops != [] ==> !NewestIsDue(log, ops[0]) && NewestNeverDue(Apply(log, ops[0]), ops[1..])
  }

  lemma {:induction false} RunKeepsNewest(log: Log, ops: seq<Op>)
    requires IdsFromOne(log) && NewestNeverDue(log, ops)
    ensures KeepsNewest(log, Run(log, ops)) && IdsFromOne(Run(log, ops))
    decreases |ops|
  {
    if ops != [] {
      StepKeepsNewest(log, ops[0]);
      RunKeepsNewest(Apply(log, ops[0]), ops[1..]);
      KeepsNewestComposes(log, Apply(log, ops[0]), Run(log, ops));
    }
  }

  /** The k-th transaction of the run keeps the newest id. */
  ghost predicate KeepsNewestAt(log: Log, ops: seq<Op>, k: nat)
    requires k < |ops|
  {
    KeepsNewest(Run(log, ops[..k]), Run(log, ops[..k + 1]))
  }

  /** The newest event is never due exactly if every single transaction of the run keeps the newest id. */
  lemma {:induction false} NeverDueIff(log: Log, ops: seq<Op>)
    requires IdsFromOne(log)
    ensures NewestNeverDue(log, ops) <==> forall k: nat :: k < |ops| ==> KeepsNewestAt(log, ops, k)
    decreases |ops|
  {
    hide NewestIsDue, Apply, KeepsNewestAt;
    if ops != [] {
      var next := Apply(log, ops[0]);
      StepKeepsNewest(log, ops[0]);
      NeverDueIff(next, ops[1..]);
      FirstKeepsNewest(log, ops);
      forall k: nat | k < |ops| - 1
        ensures KeepsNewestAt(log, ops, k + 1) <==> KeepsNewestAt(next, ops[1..], k)
      {
        LaterKeepsNewest(log, ops, k);
      }
      if NewestNeverDue(log, ops) {
        forall k: nat | k < |ops|
          ensures KeepsNewestAt(log, ops, k)
        {
          assert k > 0 ==> KeepsNewestAt(next, ops[1..], k - 1);
        }
      } else if KeepsNewestAt(log, ops, 0) {
        var k: nat :| k < |ops[1..]| && !KeepsNewestAt(next, ops[1..], k);
        assert !KeepsNewestAt(log, ops, k + 1);
      }
    }
  }

  lemma FirstKeepsNewest(log: Log, ops: seq<Op>)
    requires ops != []
    ensures KeepsNewestAt(log, ops, 0) <==> KeepsNewest(log, Apply(log, ops[0]))
  {
    hide KeepsNewest, Apply;
    var next := Apply(log, ops[0]);
    assert ops[..0] == [] && ops[..1] == [ops[0]] && [ops[0]][1..] == [];
    assert Run(log, [ops[0]]) == Run(next, []) == next;
  }

  lemma LaterKeepsNewest(log: Log, ops: seq<Op>, k: nat)
    requires k + 1 < |ops|
    ensures KeepsNewestAt(log, ops, k + 1) <==> KeepsNewestAt(Apply(log, ops[0]), ops[1..], k)
  {
    hide KeepsNewest, Apply;
    assert ops[..k + 1][1..] == ops[1..][..k] && ops[..k + 2][1..] == ops[1..][..k + 1];
  }

  /** The log after Open, which has just appended its session's start event. */
  function Opened(log: Log, s: SessionId, meta: Session, ts: int, eventId: nat): Log {
    Inserted(log.(sessions := log.sessions[s := meta]), StartEvent(s, ts, eventId))
  }

  /** A whole sweep of any log keeps the newest id exactly if the newest event is neither expired nor the start of a session it removes. */
  lemma SweptKeepsNewestIff(log: Log, now: int)
    requires IdsFromOne(log) && log.events != map[]
    ensures KeepsNewest(log, Swept(log, now)) <==>
      && !IsExpired(log, now, Newest(log))
      && !(Newest(log).kind == SessionStart
           && Newest(log).session in EmptySessions(Retained(log, now), now - 7 * 24 * 3600))
  {
    var r := Retained(log, now);
    var gone := EmptySessions(r, now - EMPTY_SESSION_MAX_AGE);
    var ids := Expired(log, now) + StartsOf(r, gone);
    assert Swept(log, now).events == WithoutEvents(log, ids).events;
    DeletionKeepsNewest(log, ids);
  }

  /**
   At start-up the sweep runs right after Open. If nothing has come in between,
   the newest event is the process's own, and it stays exactly if the process
   has not stalled since then for longer than its retention or a week.
   */
  lemma StartupSweepKeepsNewest(log: Log, s: SessionId, meta: Session, ts: int, eventId: nat, now: int)
    requires IdsFromOne(log) && forall i :: i in log.events ==> log.events[i].session != s
    ensures var l := Opened(log, s, meta, ts, eventId);
      KeepsNewest(l, Swept(l, now)) <==>
        (meta.retention <= 0 || now - meta.retention <= ts) && now - 7 * 24 * 3600 <= meta.startedAt
  {
    var l := Opened(log, s, meta, ts, eventId);
    InsertedIsNewest(log.(sessions := log.sessions[s := meta]), StartEvent(s, ts, eventId));
    assert Newest(l) == StartEvent(s, ts, eventId);
    assert !HasRealEvent(Retained(l, now), s);
    SweptKeepsNewestIff(l, now);
  }

  /**
   If another process's event has come in between, no stall is needed: an
   append takes its time before it waits for the write lock, so the event may be
   past its own session's retention when it becomes the newest.
   */
  lemma OvertakingAppendGoes(log: Log, s: SessionId, meta: Session, eventId: nat, ev: Event, now: int)
    requires IdsFromOne(log) && ev.session != s && ev.session in log.sessions && ev.supersedes == None
    requires log.sessions[ev.session].retention > 0 && ev.ts < now - log.sessions[ev.session].retention
    requires var l := Appended(Opened(log, s, meta, now, eventId), ev); |Expired(l, now)| <= SWEEP_BATCH
    ensures var l := Appended(Opened(log, s, meta, now, eventId), ev);
      TakesNewest(l, SweepEvents(now)) && !KeepsNewest(l, Apply(l, SweepEvents(now)))
  {
    var first := Opened(log, s, meta, now, eventId);
    var l := Appended(first, ev);
    InsertedIsNewest(first, ev);
    assert Newest(l) == ev;
    NewestGoesIff(l, SweepEvents(now));
    StepKeepsNewest(l, SweepEvents(now));
  }

  /** What recover and the purge of sessions leave of the ids: the newest stays exactly if its row does. */
  lemma ReplacementKeepsNewest(log: Log, d: Log, gone: set<nat>)
    requires IdsFromOne(log) && gone <= log.events.Keys && d.events == log.events - gone
    ensures KeepsNewest(log, d) <==> Greatest(log.events.Keys) !in gone
    ensures gone == log.events.Keys ==> (KeepsNewest(log, d) <==> log.events == map[])
  {
    DeletionKeepsNewest(log, gone);
    assert WithoutEvents(log, gone).events == d.events;
  }

  /** A session of one second's retention, opened, stalled for two, swept, and then used. */
  function StalledStart(): seq<Op> {
    [OpenSession(1, Session(0, 1)), Append(StartEvent(1, 0, 1)), SweepEvents(2), Append(LateEvent())]
  }

  function LateEvent(): Event {
    Event(2, 1, Other, 2, "later", None)
  }

  /** The stall is reached: the start event is swept, and the next event takes its id. */
  lemma StalledStartReusesTheId()
    ensures var log := Run(Log(map[], map[]), StalledStart()[..2]);
      var later := Run(Log(map[], map[]), StalledStart());
      && log.events == map[1 := StartEvent(1, 0, 1)] && TakesNewest(log, SweepEvents(2))
      && later.events == map[1 := LateEvent()] && !KeepsNewest(log, later)
  {
    var empty := Log(map[], map[]);
    var ops := StalledStart();
    var l1 := Apply(empty, ops[0]);
    var l2 := Apply(l1, ops[1]);
    assert l2 == Log(map[1 := StartEvent(1, 0, 1)], map[1 := Session(0, 1)]);
    assert ops[..2][1..] == [ops[1]] && [ops[1]][1..] == [];
    assert Run(empty, ops[..2]) == Run(l1, [ops[1]]) == Run(l2, []) == l2;
    SweptAndUsedAgain(l2);
    assert ops[1..][1..] == [SweepEvents(2), Append(LateEvent())];
    assert Run(empty, ops) == Run(l2, ops[1..][1..]);
  }

  /**
   The same without a stall: session 2's append takes its time at 0, session 1
   opens and sweeps at 5, and the append has committed in between.
   */
  function OvertakenOpen(): seq<Op> {
    [OpenSession(2, Session(0, 1)), OpenSession(1, Session(5, 100)), Append(StartEvent(1, 5, 1)),
     Append(OvertakenEvent())]
  }

  function OvertakenEvent(): Event {
    Event(2, 2, Other, 0, "waited", None)
  }

  lemma OvertakenOpenLosesTheId()
    ensures var log := Run(Log(map[], map[]), OvertakenOpen());
      && log.events == map[1 := StartEvent(1, 5, 1), 2 := OvertakenEvent()]
      && TakesNewest(log, SweepEvents(5)) && !KeepsNewest(log, Apply(log, SweepEvents(5)))
  {
    OvertakenRun();
    var log := OvertakenLog();
    assert Expired(log, 5) == {2};
    assert Greatest(log.events.Keys) == 2 && IdsFromOne(log);
    NewestGoesIff(log, SweepEvents(5));
    StepKeepsNewest(log, SweepEvents(5));
  }

  function OvertakenLog(): Log {
    Log(map[1 := StartEvent(1, 5, 1), 2 := OvertakenEvent()], map[2 := Session(0, 1), 1 := Session(5, 100)])
  }

  lemma OvertakenRun()
    ensures Run(Log(map[], map[]), OvertakenOpen()) == OvertakenLog()
  {
    var ops := OvertakenOpen();
    var l2 := Apply(Apply(Log(map[], map[]), ops[0]), ops[1]);
    assert l2 == Log(map[], map[2 := Session(0, 1), 1 := Session(5, 100)]);
    var l4 := Apply(Apply(l2, ops[2]), ops[3]);
    assert l4 == OvertakenLog();
    assert ops[1..][1..] == [ops[2], ops[3]] && [ops[2], ops[3]][1..] == [ops[3]] && [ops[3]][1..] == [];
    assert Run(Log(map[], map[]), ops) == Run(l2, [ops[2], ops[3]]);
    assert Run(l2, [ops[2], ops[3]]) == Run(l4, []) == l4;
  }

  lemma SweptAndUsedAgain(log: Log)
    requires log == Log(map[1 := StartEvent(1, 0, 1)], map[1 := Session(0, 1)])
    ensures TakesNewest(log, SweepEvents(2))
    ensures Run(log, [SweepEvents(2), Append(LateEvent())]).events == map[1 := LateEvent()]
  {
    StartIsSwept(log);
    var swept := Log(map[], map[1 := Session(0, 1)]);
    var ops := [SweepEvents(2), Append(LateEvent())];
    assert ops[1..] == [Append(LateEvent())] && [Append(LateEvent())][1..] == [];
    var used := Apply(swept, Append(LateEvent()));
    assert Run(log, ops) == Run(swept, [Append(LateEvent())]) == Run(used, []) == used;
  }

  lemma StartIsSwept(log: Log)
    requires log == Log(map[1 := StartEvent(1, 0, 1)], map[1 := Session(0, 1)])
    ensures TakesNewest(log, SweepEvents(2)) && Apply(log, SweepEvents(2)) == Log(map[], map[1 := Session(0, 1)])
  {
    assert Expired(log, 2) == {1};
    FirstOfAll({1}, SWEEP_BATCH);
  }

  // ------------------------------------------------------------------
  // The log, statement by statement
  // ------------------------------------------------------------------

  datatype Report = Report(eventsDeleted: nat, emptySessionsDeleted: nat)

  datatype AppendResult = Stored(id: nat) | NoSuperseded | NoSession

  class SessionLog {
    var events: map<nat, Event>
    var sessions: map<SessionId, Session>
    var fts: map<nat, string>

    function View(): Log
      reads this
    {
      Log(events, sessions)
    }

    /** The full-text index holds exactly the summaries. */
    ghost predicate Mirrored()
      reads this`events, this`fts
    {
      fts.Keys == events.Keys && forall i :: i in events ==> fts[i] == events[i].summary
    }

    constructor ()
      ensures Mirrored() && View() == Log(map[], map[])
    {
      events, sessions, fts := map[], map[], map[];
    }

    method InsertEvent(ev: Event) returns (id: nat)
      requires Mirrored()
      modifies this`events, this`fts
      ensures Mirrored() && events == old(events)[id := ev] && id == Greatest(old(events).Keys) + 1
    {
      id := Greatest(events.Keys) + 1;
      events, fts := events[id := ev], fts[id := ev.summary];
    }

    method DeleteEvents(ids: set<nat>)
      requires Mirrored()
      modifies this`events, this`fts
      ensures Mirrored() && events == old(events) - ids
    {
      events, fts := events - ids, fts - ids;
    }

    method Append(ev: Event) returns (r: AppendResult)
      requires Mirrored()
      modifies this`events, this`fts
      ensures Mirrored() && View() == Appended(old(View()), ev) == Apply(old(View()), Op.Append(ev))
      ensures r.Stored? ==> events == old(events)[r.id := ev] && forall i :: i in old(events) ==> i < r.id
      ensures r.NoSuperseded? <==>
        ev.supersedes.Some? && forall i :: i in old(events) ==> old(events)[i].eventId != ev.supersedes.value
      ensures r.NoSession? <==> !r.NoSuperseded? && ev.session !in sessions
      ensures !r.Stored? ==> events == old(events)
    {
      if ev.supersedes.Some? && !HasEvent(View(), ev.supersedes.value) {
        return NoSuperseded;
      }
      if ev.session !in sessions {
        return NoSession;
      }
      var id := InsertEvent(ev);
      return Stored(id);
    }

    method EnsureSession(s: SessionId, meta: Session, eventId: nat) returns (created: bool)
      requires Mirrored()
      modifies this
      ensures Mirrored() && View() == Ensured(old(View()), s, meta, StartEvent(s, meta.startedAt, eventId))
      ensures View() == Apply(old(View()), Ensure(s, meta, meta.startedAt, eventId))
      ensures created <==> s !in old(sessions)
      ensures sessions == if created then old(sessions)[s := meta] else old(sessions)
      ensures !created ==> events == old(events)
      ensures created ==> events == old(events)[Greatest(old(events).Keys) + 1 :=
        Event(eventId, s, SessionStart, meta.startedAt, "session started", None)]
    {
      created := s !in sessions;
      if created {
        sessions := sessions[s := meta];
        var _ := InsertEvent(StartEvent(s, meta.startedAt, eventId));
      }
    }

    /** The first loop of Sweep. */
    method SweepExpired(now: int) returns (deleted: nat)
      requires Mirrored()
      modifies this`events, this`fts
      ensures Mirrored() && View() == Retained(old(View()), now)
      ensures deleted == |Expired(old(View()), now)|
    {
      hide Expired, Mirrored, WithoutEvents;
      deleted := 0;
      ghost var before := View();
      while true
        invariant Mirrored() && sessions == before.sessions
        invariant WithoutEvents(View(), Expired(View(), now)) == Retained(before, now)
        invariant deleted + |Expired(View(), now)| == |Expired(before, now)|
        decreases |Expired(View(), now)|
      {
        ghost var here := View();
        var batch := RetentionBatch(View(), now);
        FirstOfSize(Expired(View(), now), SWEEP_BATCH);
        RetentionStep(here, now);
        DeleteEvents(batch);
        assert View() == WithoutEvents(here, batch) by {
          DeletedIsWithout(here, View(), batch);
        }
        deleted := deleted + |batch|;
        if |batch| == 0 {
          NothingExpired(View(), now);
          return;
        }
      }
    }

    /** The second loop of Sweep; both statements of a batch evaluate the selection. */
    method SweepEmpty(cutoff: int) returns (deleted: nat)
      requires Mirrored()
      modifies this
      ensures Mirrored() && View() == WithoutSessions(old(View()), EmptySessions(old(View()), cutoff))
      ensures deleted == |EmptySessions(old(View()), cutoff)|
    {
      hide EmptySessions, Mirrored, WithoutSessions;
      deleted := 0;
      ghost var before := View();
      while true
        invariant Mirrored()
        invariant WithoutSessions(View(), EmptySessions(View(), cutoff))
               == WithoutSessions(before, EmptySessions(before, cutoff))
        invariant deleted + |EmptySessions(View(), cutoff)| == |EmptySessions(before, cutoff)|
        decreases |EmptySessions(View(), cutoff)|
      {
        ghost var here := View();
        FirstOfSize(EmptySessions(View(), cutoff), SWEEP_BATCH);
        EmptyStep(here, cutoff);
        var n := DeleteEmptyBatch(cutoff);
        deleted := deleted + n;
        if n == 0 {
          NothingEmpty(View(), cutoff);
          return;
        }
      }
    }

    method DeleteEmptyBatch(cutoff: int) returns (n: nat)
      requires Mirrored()
      modifies this
      ensures Mirrored() && View() == WithoutSessions(old(View()), EmptyBatch(old(View()), cutoff))
      ensures View() == Apply(old(View()), SweepSessions(cutoff))
      ensures n == |EmptyBatch(old(View()), cutoff)|
    {
      hide EmptySessions, Mirrored, StartsOf;
      ghost var before := View();
      DeleteEvents(StartsOf(View(), EmptyBatch(View(), cutoff)));
      StartsDoNotCount(before, EmptyBatch(before, cutoff), cutoff);
      assert View() == WithoutEvents(before, StartsOf(before, EmptyBatch(before, cutoff)));
      n := |EmptyBatch(View(), cutoff)|;
      sessions := sessions - EmptyBatch(View(), cutoff);
    }

    /** Sweep: the batches together do what the one description says, and the report counts it. */
    method Sweep(now: int) returns (report: Report)
      requires Mirrored()
      modifies this
      ensures Mirrored() && View() == Swept(old(View()), now)
      ensures report.eventsDeleted == |Expired(old(View()), now)|
      ensures report.emptySessionsDeleted ==
        |EmptySessions(Retained(old(View()), now), now - EMPTY_SESSION_MAX_AGE)|
    {
      hide Expired, EmptySessions, Mirrored, WithoutSessions, WithoutEvents;
      var n := SweepExpired(now);
      var m := SweepEmpty(now - EMPTY_SESSION_MAX_AGE);
      return Report(n, m);
    }
  }

  lemma DeletedIsWithout(before: Log, after: Log, ids: set<nat>)
    requires after.events == before.events - ids && after.sessions == before.sessions
    ensures after == WithoutEvents(before, ids)
  {
  }

  lemma Split(all: set<nat>, part: set<nat>)
    requires part <= all
    ensures |all - part| + |part| == |all|
  {
    assert part + (all - part) == all;
  }

  /** One batch of expired events: less to do, the same end. */
  lemma RetentionStep(log: Log, now: int)
    ensures var batch := RetentionBatch(log, now);
      var d := WithoutEvents(log, batch);
      && WithoutEvents(d, Expired(d, now)) == WithoutEvents(log, Expired(log, now))
      && |Expired(d, now)| + |batch| == |Expired(log, now)|
      && (|batch| == 0 <==> |Expired(log, now)| == 0)
  {
    ExpiredAfterBatch(log, now, RetentionBatch(log, now));
    Split(Expired(log, now), RetentionBatch(log, now));
    FirstOfSize(Expired(log, now), SWEEP_BATCH);
  }

  lemma NothingExpired(log: Log, now: int)
    requires |Expired(log, now)| == 0
    ensures WithoutEvents(log, Expired(log, now)) == log
  {
    assert Expired(log, now) == {};
    assert log.events - {} == log.events;
  }

  /** One batch of empty sessions: less to do, the same end. */
  lemma EmptyStep(log: Log, cutoff: int)
    ensures var batch := EmptyBatch(log, cutoff);
      var d := WithoutSessions(log, batch);
      && WithoutSessions(d, EmptySessions(d, cutoff)) == WithoutSessions(log, EmptySessions(log, cutoff))
      && |EmptySessions(d, cutoff)| + |batch| == |EmptySessions(log, cutoff)|
      && (|batch| == 0 <==> |EmptySessions(log, cutoff)| == 0)
  {
    EmptyAfterBatch(log, cutoff, EmptyBatch(log, cutoff));
    Split(EmptySessions(log, cutoff), EmptyBatch(log, cutoff));
    FirstOfSize(EmptySessions(log, cutoff), SWEEP_BATCH);
  }

  lemma NothingEmpty(log: Log, cutoff: int)
    requires |EmptySessions(log, cutoff)| == 0
    ensures WithoutSessions(log, EmptySessions(log, cutoff)) == log
  {
    assert EmptySessions(log, cutoff) == {};
    assert StartsOf(log, {}) == {};
    assert log.events - {} == log.events && log.sessions - {} == log.sessions;
  }
}
