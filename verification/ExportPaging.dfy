/**
 Reading the event log page by page: a query after a cursor, cut to a limit, cut
 again to a byte budget, and a cursor that follows the last event delivered.
 */
module ExportPaging {
  import opened Common
  import opened Rows
  import EventLog

  type SessionId = EventLog.SessionId

  /** An event by its row id, its session and the length of its serialised form. */
  datatype Event = Event(id: nat, session: SessionId, size: nat)

  /** One session, or the whole worktree. */
  type Filter = Option<SessionId>

  datatype Request = Request(limit: int, maxReturnBytes: int)

  const DEFAULT_LIMIT: int := 50
  const MAX_LIMIT: int := 200
  const DEFAULT_MAX_BYTES: int := 8192

  /** The table in row id order. */
  predicate Ordered(t: seq<Event>) {
    forall i, j :: 0 <= i < j < |t| ==> t[i].id < t[j].id
  }

  predicate Matches(ev: Event, after: int, session: Filter) {
    ev.id > after && (session.None? || ev.session == session.value)
  }

  /** Everything the reader still wants. */
  function Wanted(t: seq<Event>, after: int, session: Filter): seq<Event> {
    if t == [] then []
    else if Matches(t[0], after, session) then [t[0]] + Wanted(t[1..], after, session)
    else Wanted(t[1..], after, session)
  }

  function Clamp(limit: int): (n: nat)
    ensures limit <= 0 ==> n == 50
    ensures limit >= 1 ==> n == Min(limit, 200)
  {
    if limit <= 0 then DEFAULT_LIMIT else if limit > MAX_LIMIT then MAX_LIMIT else limit
  }

  function Budget(r: Request): (b: int)
    ensures b >= 1
    ensures r.maxReturnBytes <= 0 ==> b == 8192
    ensures r.maxReturnBytes >= 1 ==> b == r.maxReturnBytes
  {
    if r.maxReturnBytes <= 0 then DEFAULT_MAX_BYTES else r.maxReturnBytes
  }

  function Size(evs: seq<Event>): nat {
    if evs == [] then 0 else Size(evs[..|evs| - 1]) + evs[|evs| - 1].size
  }

  function CursorAfter(kept: seq<Event>, after: int): int {
    if kept == [] then after else kept[|kept| - 1].id
  }

  /** The longest run of leading events within the budget. */
  ghost predicate LargestFit(kept: seq<Event>, evs: seq<Event>, budget: int) {
    && kept <= evs && Size(kept) <= budget
    && (|kept| < |evs| ==> Size(evs[..|kept| + 1]) > budget)
  }

  /** Export: the rows the query delivers, and the id of the last one. */
  method Export(t: seq<Event>, after: int, session: Filter, limit: nat) returns (events: seq<Event>, nextAfter: int)
    requires Ordered(t)
    ensures events == Wanted(t, after, session)[..Min(limit, |Wanted(t, after, session)|)]
    ensures nextAfter == CursorAfter(events, after)
    ensures |events| <= limit && Ordered(events)
    ensures forall ev :: ev in events ==> ev in t && ev.id > after && (session.None? || ev.session == session.value)
    ensures forall ev :: ev in t && ev.id > after && (session.None? || ev.session == session.value) ==>
      |events| < limit || ev.id <= nextAfter ==> ev in events
  {
    ExportIs(t, after, session, limit);
    events, nextAfter := [], after;
    var rows := Wanted(t, after, session);
    var n := Min(limit, |rows|);
    var i := 0;
    while i < n
      invariant 0 <= i <= n && events == rows[..i] && nextAfter == CursorAfter(events, after)
    {
      events, nextAfter := events + [rows[i]], rows[i].id;
      i := i + 1;
    }
  }

  /** applyExportBudget: stop before the first event that does not fit. */
  method ApplyExportBudget(events: seq<Event>, after: int, maxReturnBytes: int)
    returns (kept: seq<Event>, truncated: bool, nextAfter: int)
    ensures LargestFit(kept, events, Budget(Request(0, maxReturnBytes)))
    ensures truncated <==> |kept| < |events|
    ensures nextAfter == CursorAfter(kept, after)
  {
    var budget := maxReturnBytes;
    if budget <= 0 {
      budget := DEFAULT_MAX_BYTES;
    }
    kept, nextAfter := [], after;
    var remaining := budget;
    var i := 0;
    while i < |events|
      invariant 0 <= i <= |events| && kept == events[..i] && nextAfter == CursorAfter(kept, after)
      invariant remaining == budget - Size(kept) && remaining >= 0
    {
      assert events[..i + 1][..i] == events[..i];
      if events[i].size > remaining {
        return kept, true, nextAfter;
      }
      kept, remaining, nextAfter := kept + [events[i]], remaining - events[i].size, events[i].id;
      i := i + 1;
    }
    return kept, false, nextAfter;
  }

  /** One call of ctr_export_events. */
  method ExportPage(t: seq<Event>, after: int, session: Filter, r: Request)
    returns (kept: seq<Event>, truncated: bool, nextAfter: int)
    requires Ordered(t)
    ensures IsPage(kept, t, after, session, r) && nextAfter == CursorAfter(kept, after)
    ensures truncated <==> |kept| < |Wanted(t, after, session)| && |kept| < Clamp(r.limit)
  {
    var events, _ := Export(t, after, session, Clamp(r.limit));
    kept, truncated, nextAfter := ApplyExportBudget(events, after, r.maxReturnBytes);
  }

  /** The page a request is answered with: as much of what is wanted as limit and budget allow. */
  ghost predicate IsPage(kept: seq<Event>, t: seq<Event>, after: int, session: Filter, r: Request) {
    var wanted := Wanted(t, after, session);
    LargestFit(kept, wanted[..Min(Clamp(r.limit), |wanted|)], Budget(r))
  }

  // ------------------------------------------------------------------
  // Paging loses nothing
  // ------------------------------------------------------------------

  lemma {:induction false} WantedInTwo(t: seq<Event>, u: seq<Event>, after: int, session: Filter)
    ensures Wanted(t + u, after, session) == Wanted(t, after, session) + Wanted(u, after, session)
  {
    if t == [] {
      assert t + u == u;
    } else {
      assert (t + u)[1..] == t[1..] + u;
      WantedInTwo(t[1..], u, after, session);
    }
  }

  lemma {:induction false} WantedIsFilter(t: seq<Event>, after: int, session: Filter)
    requires Ordered(t)
    ensures var w := Wanted(t, after, session);
      && Ordered(w)
      && forall ev :: ev in w <==> ev in t && Matches(ev, after, session)
  {
    if t != [] {
      WantedIsFilter(t[1..], after, session);
      forall ev | ev in Wanted(t[1..], after, session)
        ensures ev.id > t[0].id
      {
        assert ev in t[1..];
      }
      forall ev
        ensures ev in t <==> ev == t[0] || ev in t[1..]
      {
        assert t == [t[0]] + t[1..];
      }
    }
  }

  /** The query's rows are the first of the session's events after the cursor. */
  lemma ExportIs(t: seq<Event>, after: int, session: Filter, limit: nat)
    requires Ordered(t)
    ensures var w := Wanted(t, after, session);
      var events := w[..Min(limit, |w|)];
      && Ordered(events)
      && (forall ev :: ev in events ==> ev in t && ev.id > after && (session.None? || ev.session == session.value))
      && (forall ev :: ev in t && ev.id > after && (session.None? || ev.session == session.value) ==>
            |events| < limit || ev.id <= CursorAfter(events, after) ==> ev in events)
  {
    var w := Wanted(t, after, session);
    WantedIsFilter(t, after, session);
    hide Wanted;
    LeadingPart(w, Min(limit, |w|));
  }

  /** Any leading part of what is wanted, and what is wanted after it, are the whole. */
  lemma CursorSplits(t: seq<Event>, after: int, session: Filter, k: nat)
    requires Ordered(t) && k <= |Wanted(t, after, session)|
    ensures var w := Wanted(t, after, session);
      Wanted(t, CursorAfter(w[..k], after), session) == w[k..]
  {
    var w := Wanted(t, after, session);
    WantedIsFilter(t, after, session);
    if k > 0 {
      assert w[..k][k - 1] == w[k - 1];
      assert w[k - 1] in w;
      WantedAgain(t, after, w[k - 1].id, session);
      WantedBeyond(w, k, session);
    } else {
      assert w[0..] == w;
    }
  }

  /** A later cursor wants a part of what an earlier one wants. */
  lemma {:induction false} WantedAgain(t: seq<Event>, a: int, b: int, session: Filter)
    requires a <= b
    ensures Wanted(t, b, session) == Wanted(Wanted(t, a, session), b, session)
  {
    if t != [] {
      WantedAgain(t[1..], a, b, session);
      if Matches(t[0], a, session) {
        var rest := Wanted(t[1..], a, session);
        assert ([t[0]] + rest)[1..] == rest;
      }
    }
  }

  lemma {:induction false} WantedBeyond(w: seq<Event>, k: nat, session: Filter)
    requires Ordered(w) && 0 < k <= |w|
    requires forall ev :: ev in w ==> session.None? || ev.session == session.value
    ensures Wanted(w, w[k - 1].id, session) == w[k..]
  {
    var rest := w[1..];
    if k > 1 {
      WantedBeyond(rest, k - 1, session);
      assert rest[k - 1..] == w[k..];
    } else {
      AllWanted(rest, w[0].id, session);
    }
  }

  lemma {:induction false} AllWanted(w: seq<Event>, after: int, session: Filter)
    requires forall ev :: ev in w ==> Matches(ev, after, session)
    ensures Wanted(w, after, session) == w
  {
    if w != [] {
      assert w[0] in w;
      AllWanted(w[1..], after, session);
    }
  }

  /** Some rounds of paging, each on the log as it is then, from cursor to cursor. */
  datatype Round = Round(table: seq<Event>, request: Request, page: seq<Event>)

  ghost predicate IsPaging(rounds: seq<Round>, after: int, session: Filter)
    decreases |rounds|
  {
    rounds != [] ==>
      && IsPage(rounds[0].page, rounds[0].table, after, session, rounds[0].request)
      && IsPaging(rounds[1..], CursorAfter(rounds[0].page, after), session)
  }

  function Delivered(rounds: seq<Round>): seq<Event> {
    if rounds == [] then [] else rounds[0].page + Delivered(rounds[1..])
  }

  function LastCursor(rounds: seq<Round>, after: int): int
    decreases |rounds|
  {
    if rounds == [] then after else LastCursor(rounds[1..], CursorAfter(rounds[0].page, after))
  }

  lemma PageOfGrownLog(t: seq<Event>, u: seq<Event>, after: int, session: Filter, r: Request, kept: seq<Event>)
    requires Ordered(u) && t <= u && IsPage(kept, t, after, session, r)
    ensures Wanted(u, after, session) == kept + Wanted(u, CursorAfter(kept, after), session)
  {
    assert u == t + u[|t|..];
    WantedInTwo(t, u[|t|..], after, session);
    assert kept == Wanted(u, after, session)[..|kept|];
    CursorSplits(u, after, session, |kept|);
  }

  /**
   Whatever the limits and budgets, and however the log grows between the calls:
   what has been delivered and what the last cursor still wants are together
   exactly what the first cursor wanted, in order, nothing twice, nothing skipped.
   */
  lemma {:induction false} PagingIsLossless(rounds: seq<Round>, after: int, session: Filter, final: seq<Event>)
    requires IsPaging(rounds, after, session) && Ordered(final)
    requires forall i :: 0 <= i < |rounds| ==> rounds[i].table <= final
    ensures Wanted(final, after, session)
         == Delivered(rounds) + Wanted(final, LastCursor(rounds, after), session)
    decreases |rounds|
  {
    if rounds != [] {
      var page := rounds[0].page;
      var next := CursorAfter(page, after);
      hide Wanted, IsPage, Ordered;
      PageOfGrownLog(rounds[0].table, final, after, session, rounds[0].request, page);
      PagingIsLossless(rounds[1..], next, session, final);
      Reassociate(page, Delivered(rounds[1..]), Wanted(final, LastCursor(rounds[1..], next), session));
    }
  }

  lemma Reassociate(a: seq<Event>, b: seq<Event>, c: seq<Event>)
    ensures a + (b + c) == a + b + c
  {
  }

  /** A call makes progress exactly when the next wanted event fits the budget. */
  lemma ProgressIff(t: seq<Event>, after: int, session: Filter, r: Request, kept: seq<Event>)
    requires IsPage(kept, t, after, session, r)
    ensures kept != [] <==> Wanted(t, after, session) != [] && Wanted(t, after, session)[0].size <= Budget(r)
  {
    var wanted := Wanted(t, after, session);
    var evs := wanted[..Min(Clamp(r.limit), |wanted|)];
    if wanted != [] {
      assert evs[..1][..0] == [];
      assert Size(evs[..1]) == wanted[0].size by {
        assert evs[..1] == [wanted[0]];
      }
      if kept != [] {
        PrefixIsSmaller(kept, 1);
        assert kept[..1] == evs[..1];
      }
    }
  }

  lemma {:induction false} PrefixIsSmaller(evs: seq<Event>, k: nat)
    requires k <= |evs|
    ensures Size(evs[..k]) <= Size(evs)
  {
    if k < |evs| {
      PrefixIsSmaller(evs[..|evs| - 1], k);
      assert evs[..|evs| - 1][..k] == evs[..k];
    } else {
      assert evs[..k] == evs;
    }
  }

  /** An event that does not fit is not passed over: the cursor stays where it is. */
  lemma MisfitHoldsTheCursor(t: seq<Event>, after: int, session: Filter, r: Request, kept: seq<Event>)
    requires IsPage(kept, t, after, session, r)
    requires Wanted(t, after, session) != [] && Wanted(t, after, session)[0].size > Budget(r)
    ensures CursorAfter(kept, after) == after
  {
    ProgressIff(t, after, session, r, kept);
  }

  /** A page shorter than its limit that was not truncated is the last one; a full one may not be. */
  lemma ShortPageIsLast(t: seq<Event>, after: int, session: Filter, r: Request, kept: seq<Event>, truncated: bool)
    requires Ordered(t) && IsPage(kept, t, after, session, r)
    requires truncated <==> |kept| < |Wanted(t, after, session)| && |kept| < Clamp(r.limit)
    ensures !truncated && |kept| < Clamp(r.limit) ==>
      kept == Wanted(t, after, session) && Wanted(t, CursorAfter(kept, after), session) == []
  {
    if !truncated && |kept| < Clamp(r.limit) {
      PageOfGrownLog(t, t, after, session, r, kept);
      assert kept == Wanted(t, after, session);
    }
  }

  /** If every event fits every budget, enough calls deliver everything. */
  lemma {:induction false} EnoughCallsDeliverAll(rounds: seq<Round>, after: int, session: Filter, t: seq<Event>)
    requires Ordered(t) && IsPaging(rounds, after, session)
    requires forall i :: 0 <= i < |rounds| ==> rounds[i].table == t
    requires forall i, ev :: 0 <= i < |rounds| && ev in t ==> ev.size <= Budget(rounds[i].request)
    requires |rounds| >= |Wanted(t, after, session)|
    ensures Delivered(rounds) == Wanted(t, after, session)
    decreases |rounds|
  {
    if rounds != [] {
      var page := rounds[0].page;
      var next := CursorAfter(page, after);
      WantedIsInTable(t, after, session);
      PageOfGrownLog(t, t, after, session, rounds[0].request, page);
      ProgressIff(t, after, session, rounds[0].request, page);
      hide Wanted, IsPage, Ordered;
      EnoughCallsDeliverAll(rounds[1..], next, session, t);
    }
  }

  lemma WantedIsInTable(t: seq<Event>, after: int, session: Filter)
    requires Ordered(t)
    ensures Wanted(t, after, session) != [] ==> Wanted(t, after, session)[0] in t
  {
    WantedIsFilter(t, after, session);
    if Wanted(t, after, session) != [] {
      assert Wanted(t, after, session)[0] in Wanted(t, after, session);
    }
  }

  // ------------------------------------------------------------------
  // Sweeps between pages
  // ------------------------------------------------------------------

  function LastId(t: seq<Event>): nat {
    if t == [] then 0 else t[|t| - 1].id
  }

  /** Events may go, but what comes has a larger id, and the largest id does not go back. */
  ghost predicate Evolves(t: seq<Event>, u: seq<Event>) {
    && Ordered(t) && Ordered(u) && LastId(t) <= LastId(u)
    && forall ev :: ev in u ==> ev in t || ev.id > LastId(t)
  }

  ghost predicate AllEvolveTo(rounds: seq<Round>, final: seq<Event>) {
    Ordered(final) && forall i :: 0 <= i < |rounds| ==> Evolves(rounds[i].table, final)
  }

  /** The page is exactly the wanted events up to the next cursor, and that is an id of the table. */
  lemma PageIsUpToCursor(t: seq<Event>, after: int, session: Filter, r: Request, kept: seq<Event>)
    requires Ordered(t) && IsPage(kept, t, after, session, r)
    ensures var next := CursorAfter(kept, after);
      && Ordered(kept) && next >= after && (next > after ==> next <= LastId(t))
      && forall ev :: ev in kept <==> ev in t && Matches(ev, after, session) && ev.id <= next
  {
    var w := Wanted(t, after, session);
    hide Wanted;
    WantedIsFilter(t, after, session);
    assert kept == w[..|kept|];
    hide IsPage, Size;
    LeadingPart(w, |kept|);
    if kept != [] {
      assert kept[|kept| - 1] in w;
      IdsAreUpToLast(t, kept[|kept| - 1]);
    }
  }

  /** A leading part of events in order is those up to its last id. */
  lemma LeadingPart(w: seq<Event>, k: nat)
    requires Ordered(w) && k <= |w|
    ensures Ordered(w[..k])
    ensures forall ev :: ev in w[..k] <==> ev in w && k > 0 && ev.id <= w[k - 1].id
  {
    forall ev | ev in w && k > 0 && ev.id <= w[k - 1].id
      ensures ev in w[..k]
    {
      var i :| 0 <= i < |w| && w[i] == ev;
      assert i < k;
    }
  }

  lemma IdsAreUpToLast(t: seq<Event>, ev: Event)
    requires Ordered(t) && ev in t
    ensures ev.id <= LastId(t)
  {
  }

  /** Appending a page of events beyond the others keeps order. */
  lemma InOrder(a: seq<Event>, b: seq<Event>, c: int)
    requires Ordered(a) && Ordered(b)
    requires forall ev :: ev in a ==> ev.id <= c
    requires forall ev :: ev in b ==> ev.id > c
    ensures Ordered(a + b)
  {
    forall i, j | 0 <= i < j < |a + b|
      ensures (a + b)[i].id < (a + b)[j].id
    {
      if i < |a| <= j {
        assert a[i] in a && b[j - |a|] in b;
      }
    }
  }

  lemma {:induction false} DeliveredOnce(rounds: seq<Round>, after: int, session: Filter, final: seq<Event>)
    requires IsPaging(rounds, after, session) && AllEvolveTo(rounds, final)
    ensures var done := Delivered(rounds);
      var cursor := LastCursor(rounds, after);
      && Ordered(done) && cursor >= after
      && (forall ev :: ev in done ==> after < ev.id <= cursor)
      && (forall ev :: ev in final && Matches(ev, after, session) && ev.id <= cursor ==> ev in done)
    decreases |rounds|
  {
    if rounds != [] {
      var t := rounds[0].table;
      var page := rounds[0].page;
      var next := CursorAfter(page, after);
      PageIsUpToCursor(t, after, session, rounds[0].request, page);
      assert Evolves(t, final);
      DeliveredOnce(rounds[1..], next, session, final);
      hide IsPage;
      InOrder(page, Delivered(rounds[1..]), next);
      forall ev | ev in final && Matches(ev, after, session) && ev.id <= LastCursor(rounds, after)
        ensures ev in Delivered(rounds)
      {
        if ev.id > next {
          assert ev in Delivered(rounds[1..]);
        } else {
          assert ev in page;
        }
      }
    }
  }

  /**
   Paging while the log grows and start-up sweeps delete from it: everything is
   delivered in order and at most once, and of the events that are still there
   at the end, each is either delivered or still wanted, and never both.
   */
  lemma SweptPagingIsLossless(rounds: seq<Round>, after: int, session: Filter, final: seq<Event>)
    requires IsPaging(rounds, after, session) && AllEvolveTo(rounds, final)
    ensures Ordered(Delivered(rounds))
    ensures forall ev :: ev in Wanted(final, after, session) ==>
      (ev in Delivered(rounds) <==> ev !in Wanted(final, LastCursor(rounds, after), session))
  {
    DeliveredOnce(rounds, after, session, final);
    WantedIsFilter(final, after, session);
    WantedIsFilter(final, LastCursor(rounds, after), session);
  }

  /** The table a reader sees is the log's rows in id order. */
  ghost predicate Shows(t: seq<Event>, log: EventLog.Log, size: EventLog.Event -> nat) {
    && Ordered(t)
    && (forall ev :: ev in t <==> ev.id in log.events && ev == RowOf(log, size, ev.id))
  }

  function RowOf(log: EventLog.Log, size: EventLog.Event -> nat, i: nat): Event
    requires i in log.events
  {
    Event(i, log.events[i].session, size(log.events[i]))
  }

  lemma LastIdIsGreatest(t: seq<Event>, log: EventLog.Log, size: EventLog.Event -> nat)
    requires Shows(t, log, size)
    ensures LastId(t) == Greatest(log.events.Keys)
  {
    var top := Greatest(log.events.Keys);
    if log.events != map[] {
      assert RowOf(log, size, top) in t;
      IdsAreUpToLast(t, RowOf(log, size, top));
    }
    if t != [] {
      assert t[|t| - 1] in t;
    }
  }

  /** Logs that keep their newest event show tables that evolve. */
  lemma NewestKeptEvolves(t: seq<Event>, u: seq<Event>, log: EventLog.Log, d: EventLog.Log, size: EventLog.Event -> nat)
    requires Shows(t, log, size) && Shows(u, d, size) && EventLog.KeepsNewest(log, d)
    ensures Evolves(t, u)
  {
    LastIdIsGreatest(t, log, size);
    LastIdIsGreatest(u, d, size);
  }

  /** One reader and one log: the transactions before the round, the page, and the transactions after it. */
  datatype Visit = Visit(round: Round, seen: EventLog.Log, later: seq<EventLog.Op>)

  /**
   The same, of the transactions themselves: appends, new sessions and sweep
   batches in any order, as long as no batch deletes the event that is newest at
   that moment.
   */
  lemma PagingAcrossSweeps(visits: seq<Visit>, rounds: seq<Round>, after: int, session: Filter,
                           final: seq<Event>, last: EventLog.Log, size: EventLog.Event -> nat)
    requires |rounds| == |visits| && forall i :: 0 <= i < |visits| ==> rounds[i] == visits[i].round
    requires forall i :: 0 <= i < |visits| ==> IsVisitBefore(visits[i], last, size)
    requires Shows(final, last, size) && IsPaging(rounds, after, session)
    ensures Ordered(Delivered(rounds))
    ensures forall ev :: ev in Wanted(final, after, session) ==>
      (ev in Delivered(rounds) <==> ev !in Wanted(final, LastCursor(rounds, after), session))
  {
    forall i | 0 <= i < |rounds|
      ensures Evolves(rounds[i].table, final)
    {
      var v := visits[i];
      EventLog.RunKeepsNewest(v.seen, v.later);
      NewestKeptEvolves(v.round.table, final, v.seen, last, size);
    }
    SweptPagingIsLossless(rounds, after, session, final);
  }

  ghost predicate IsVisitBefore(v: Visit, last: EventLog.Log, size: EventLog.Event -> nat) {
    && Shows(v.round.table, v.seen, size) && EventLog.IdsFromOne(v.seen)
    && EventLog.NewestNeverDue(v.seen, v.later) && EventLog.Run(v.seen, v.later) == last
  }

  /** The next event is missed exactly if the cursor is already at its id or past it. */
  lemma {:induction false} LateEventIsMissedIff(t: seq<Event>, late: Event, cursor: int, session: Filter)
    requires Ordered(t) && late.id == LastId(t) + 1 && (session.Some? ==> session.value == late.session)
    ensures late !in Wanted(t + [late], cursor, session) <==> cursor >= late.id
  {
    WantedInTwo(t, [late], cursor, session);
    WantedIsFilter(t, cursor, session);
    assert [late][1..] == [];
    if late in t {
      IdsAreUpToLast(t, late);
    }
  }

  /**
   The exception: a process that stalls between its start event and its sweep
   for longer than its retention sweeps that event away, the next event takes
   its id, and a reader who has seen the id never sees the event.
   */
  lemma ReusedIdIsMissed(size: EventLog.Event -> nat) returns (t: seq<Event>, u: seq<Event>)
    ensures var empty := EventLog.Log(map[], map[]);
      var log := EventLog.Run(empty, EventLog.StalledStart()[..2]);
      && Shows(t, log, size) && Shows(u, EventLog.Run(empty, EventLog.StalledStart()), size)
      && EventLog.TakesNewest(log, EventLog.SweepEvents(2))
    ensures |t| == 1 && |u| == 1 && u[0].id == t[0].id && u[0] in Wanted(u, 0, None)
    ensures CursorAfter(t, 0) == 1 && Wanted(u, CursorAfter(t, 0), None) == []
  {
    EventLog.StalledStartReusesTheId();
    t := [Event(1, 1, size(EventLog.StartEvent(1, 0, 1)))];
    u := [Event(1, 1, size(EventLog.LateEvent()))];
    assert u[1..] == [];
  }
}
