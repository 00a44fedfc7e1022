/**
 The session lease. Servers and hooks hold session.lock shared for as long as
 they have session.db open and look for the recovery marker after taking it; a
 recovery holds it exclusively, and so does the purge of sessions, which does
 not look for the marker. Every process may crash at any step, which
 releases its lock and nothing else.
 */
module Lease {

  /** Where a process is; a writer is a server or a hook. */
  datatype Pc =
    | Idle
    | Looked                   // saw no marker and has no lease: only writers that look first
    | Leased                   // shared lease, marker not looked for yet
    | Writing                  // shared lease, saw no marker, database open
    | Exclusive                // a recovery that has not looked for the marker, or a purge
    | Working                  // a recovery under its marker
    | Finished                 // a recovery that has removed the marker

  type Pid = nat

  datatype State = State(pcs: map<Pid, Pc>, marker: bool, db: seq<int>) {
    function At(p: Pid): Pc {
      if p in pcs then pcs[p] else Idle
    }

    function Go(p: Pid, pc: Pc): State {
      this.(pcs := pcs[p := pc])
    }
  }

  datatype Step =
    | AcquireShared(p: Pid)
    | CheckMarker(p: Pid)
    | Append(p: Pid, event: int)
    | Close(p: Pid)
    | AcquireExclusive(p: Pid)
    | EnterRecovery(p: Pid, corrupt: bool)
    | Publish(p: Pid, rescued: seq<int>)
    | RemoveMarker(p: Pid)
    | PurgeSessions(p: Pid)
    | Release(p: Pid)
    | Crash(p: Pid)

  /** The code's order, or the other one. */
  datatype Order = LeaseThenMarker | MarkerThenLease

  predicate HoldsShared(pc: Pc) {
    pc.Leased? || pc.Writing?
  }

  predicate HoldsExclusive(pc: Pc) {
    pc.Exclusive? || pc.Working? || pc.Finished?
  }

  predicate SharedIsFree(s: State) {
    forall p :: p in s.pcs ==> !HoldsExclusive(s.pcs[p])
  }

  predicate ExclusiveIsFree(s: State) {
    forall p :: p in s.pcs ==> !HoldsExclusive(s.pcs[p]) && !HoldsShared(s.pcs[p])
  }

  /** One step; a process that is not at the step's place, or a refused lock, changes nothing. */
  function Next(order: Order, s: State, step: Step): State {
    match step
    case AcquireShared(p) =>
      if order.LeaseThenMarker? && s.At(p).Idle? && SharedIsFree(s) then s.Go(p, Leased)
      else if order.MarkerThenLease? && s.At(p).Looked? && SharedIsFree(s) then s.Go(p, Writing)
      else s
    case CheckMarker(p) =>
      if order.LeaseThenMarker? && s.At(p).Leased? then s.Go(p, if s.marker then Idle else Writing)
      else if order.MarkerThenLease? && s.At(p).Idle? then s.Go(p, if s.marker then Idle else Looked)
      else s
    case Append(p, event) =>
      if s.At(p).Writing? then s.(db := s.db + [event]) else s
    case Close(p) =>
      if s.At(p).Writing? then s.Go(p, Idle) else s
    case AcquireExclusive(p) =>
      if s.At(p).Idle? && ExclusiveIsFree(s) then s.Go(p, Exclusive) else s
    case EnterRecovery(p, corrupt) =>
      if !s.At(p).Exclusive? then s
      else if s.marker || corrupt then s.Go(p, Working).(marker := true)
      else s.Go(p, Idle)
    case Publish(p, rescued) =>
      if s.At(p).Working? then s.(db := rescued) else s
    case RemoveMarker(p) =>
      if s.At(p).Working? then s.Go(p, Finished).(marker := false) else s
    case PurgeSessions(p) =>
      if s.At(p).Exclusive? then s.(db := []) else s
    case Release(p) =>
      if HoldsExclusive(s.At(p)) then s.Go(p, Idle) else s
    case Crash(p) => s.Go(p, Idle)
  }

  function Run(order: Order, s: State, steps: seq<Step>): State
    decreases |steps|
  {
    if steps == [] then s else Run(order, Next(order, s, steps[0]), steps[1..])
  }

  const START := State(map[], false, [])

  /** The lock excludes, a recovery works under a marker, and a marker keeps writers out. */
  ghost predicate Inv(s: State) {
    && (forall p, q :: p != q && HoldsExclusive(s.At(p)) ==> !HoldsExclusive(s.At(q)) && !HoldsShared(s.At(q)))
    && (forall p :: !s.At(p).Looked?)
    && (forall p :: s.At(p).Working? ==> s.marker)
    && (s.marker ==> forall p :: !s.At(p).Writing?)
  }

  /** A step moves one process, and only to a place the others allow. */
  lemma StepMovesOne(s: State, step: Step)
    requires Inv(s)
    ensures var next := Next(LeaseThenMarker, s, step);
      && (forall q :: q != step.p ==> next.At(q) == s.At(q))
      && !next.At(step.p).Looked?
      && (HoldsShared(next.At(step.p)) ==> forall q :: q != step.p ==> !HoldsExclusive(s.At(q)))
      && (HoldsExclusive(next.At(step.p)) ==>
            forall q :: q != step.p ==> !HoldsExclusive(s.At(q)) && !HoldsShared(s.At(q)))
      && (next.marker != s.marker ==> s.At(step.p).Exclusive? || s.At(step.p).Working?)
      && (next.At(step.p).Writing? ==> !next.marker)
      && (next.At(step.p).Working? ==> next.marker)
  {
  }

  lemma StepKeepsInv(s: State, step: Step)
    requires Inv(s)
    ensures Inv(Next(LeaseThenMarker, s, step))
  {
    StepMovesOne(s, step);
    hide Next;
  }

  lemma {:induction false} RunKeepsInv(s: State, steps: seq<Step>)
    requires Inv(s)
    ensures Inv(Run(LeaseThenMarker, s, steps))
    decreases |steps|
  {
    if steps != [] {
      StepKeepsInv(s, steps[0]);
      RunKeepsInv(Next(LeaseThenMarker, s, steps[0]), steps[1..]);
    }
  }

  /**
   As long as the marker stands, whoever opens, appends, closes or crashes, no
   event is appended: only what a recovery publishes and a purge of sessions
   change the database.
   */
  lemma {:induction false} MarkerFreezesDb(steps: seq<Step>, k: nat)
    requires k <= |steps|
    requires forall i :: k <= i < |steps| ==> Run(LeaseThenMarker, START, steps[..i]).marker
    requires forall i :: k <= i < |steps| ==> !steps[i].Publish? && !steps[i].PurgeSessions?
    ensures Run(LeaseThenMarker, START, steps).db == Run(LeaseThenMarker, START, steps[..k]).db
    decreases |steps|
  {
    if k == |steps| {
      assert steps[..k] == steps;
    } else {
      var n := |steps| - 1;
      forall i | k <= i < n
        ensures steps[..n][..i] == steps[..i]
      {
      }
      MarkerFreezesDb(steps[..n], k);
      assert steps[..n][..k] == steps[..k] && steps[..n] + [steps[n]] == steps;
      RunOneMore(LeaseThenMarker, START, steps[..n], steps[n]);
      RunKeepsInv(START, steps[..n]);
    }
  }

  /** In any reachable state a step under the marker empties a database exactly if it is a purge that holds the lock, or a recovery that publishes nothing. */
  lemma PurgeUnderMarkerIff(before: seq<Step>, step: Step)
    requires var s := Run(LeaseThenMarker, START, before); s.marker && s.db != []
    ensures var s := Run(LeaseThenMarker, START, before);
      Next(LeaseThenMarker, s, step).db == [] <==>
        || (step.PurgeSessions? && s.At(step.p).Exclusive?)
        || (step.Publish? && s.At(step.p).Working? && step.rescued == [])
  {
    RunKeepsInv(START, before);
  }

  /** And such a state is reached: a recovery dies under its marker, and a purge takes the lock. */
  lemma PurgeIgnoresTheMarker() returns (before: seq<Step>, s: State)
    ensures s == Run(LeaseThenMarker, START.(db := [7]), before)
    ensures s.marker && s.At(2).Exclusive? && s.db == [7]
    ensures Next(LeaseThenMarker, s, PurgeSessions(2)).db == []
  {
    hide Run;
    var start := START.(db := [7]);
    var s1 := Next(LeaseThenMarker, start, AcquireExclusive(1));
    var s2 := Next(LeaseThenMarker, s1, EnterRecovery(1, true));
    var s3 := Next(LeaseThenMarker, s2, Crash(1));
    var s4 := Next(LeaseThenMarker, s3, Close(1));
    s := Next(LeaseThenMarker, s4, AcquireExclusive(2));
    before := [AcquireExclusive(1), EnterRecovery(1, true), Crash(1), Close(1), AcquireExclusive(2)];
    assert s1.At(1).Exclusive? && s2.marker && s3.pcs == map[1 := Idle] && s4 == s3;
    RunFive(LeaseThenMarker, start, before);
  }

  /** In any reachable state: under the marker an open fails closed; without it and without a recovery it succeeds. */
  lemma OpenOutcome(before: seq<Step>, p: Pid)
    requires Run(LeaseThenMarker, START, before).At(p).Idle?
    ensures var s := Run(LeaseThenMarker, START, before);
      var after := Run(LeaseThenMarker, s, [AcquireShared(p), CheckMarker(p)]);
      && (after.At(p).Writing? <==> !s.marker && SharedIsFree(s))
      && (!after.At(p).Writing? ==> after.At(p).Idle?)
      && after.db == s.db && after.marker == s.marker
  {
    var s := Run(LeaseThenMarker, START, before);
    var leased := Next(LeaseThenMarker, s, AcquireShared(p));
    assert [AcquireShared(p), CheckMarker(p)][1..] == [CheckMarker(p)];
    assert Run(LeaseThenMarker, leased, [CheckMarker(p)]) == Next(LeaseThenMarker, leased, CheckMarker(p)) by {
      assert [CheckMarker(p)][1..] == [];
    }
  }

  /** A whole visit of a writer: it appends its event exactly if the open succeeds, and leaves no lock behind. */
  lemma WriterComesAndGoes(before: seq<Step>, p: Pid, event: int)
    requires Run(LeaseThenMarker, START, before).At(p).Idle?
    ensures var s := Run(LeaseThenMarker, START, before);
      var after := Run(LeaseThenMarker, s, [AcquireShared(p), CheckMarker(p), Append(p, event), Close(p)]);
      && (forall q :: after.At(q) == s.At(q)) && after.marker == s.marker
      && after.db == if !s.marker && (forall q :: !HoldsExclusive(s.At(q))) then s.db + [event] else s.db
  {
    var s := Run(LeaseThenMarker, START, before);
    FreeIff(s);
    RunFour(LeaseThenMarker, s, [AcquireShared(p), CheckMarker(p), Append(p, event), Close(p)]);
    hide Run;
    var o := Next(LeaseThenMarker, Next(LeaseThenMarker, s, AcquireShared(p)), CheckMarker(p));
    assert o.At(p).Writing? <==> !s.marker && SharedIsFree(s);
  }

  lemma FreeIff(s: State)
    ensures SharedIsFree(s) <==> forall q :: !HoldsExclusive(s.At(q))
    ensures ExclusiveIsFree(s) <==> forall q :: !HoldsShared(s.At(q)) && !HoldsExclusive(s.At(q))
  {
    forall q | q in s.pcs
      ensures s.pcs[q] == s.At(q)
    {
    }
  }

  /** The exclusive lock is granted exactly when nobody else holds a lock. */
  lemma ExclusiveIff(before: seq<Step>, p: Pid)
    requires Run(LeaseThenMarker, START, before).At(p).Idle?
    ensures var s := Run(LeaseThenMarker, START, before);
      var after := Next(LeaseThenMarker, s, AcquireExclusive(p));
      && (after.At(p).Exclusive? <==> forall q :: !HoldsShared(s.At(q)) && !HoldsExclusive(s.At(q)))
      && (after.At(p).Exclusive? || after == s) && after.db == s.db && after.marker == s.marker
  {
    FreeIff(Run(LeaseThenMarker, START, before));
  }

  /**
   A whole recovery that is granted the lock: it publishes if it finds the
   marker or damage, else it changes nothing, and either way it leaves neither
   marker nor lock behind.
   */
  lemma RecoveryComesAndGoes(before: seq<Step>, p: Pid, corrupt: bool, rescued: seq<int>)
    requires var s := Run(LeaseThenMarker, START, before);
      forall q :: !HoldsShared(s.At(q)) && !HoldsExclusive(s.At(q))
    requires Run(LeaseThenMarker, START, before).At(p).Idle?
    ensures var s := Run(LeaseThenMarker, START, before);
      var after := Run(LeaseThenMarker, s,
        [AcquireExclusive(p), EnterRecovery(p, corrupt), Publish(p, rescued), RemoveMarker(p), Release(p)]);
      && (forall q :: after.At(q) == s.At(q)) && !after.marker
      && after.db == if s.marker || corrupt then rescued else s.db
  {
    var s := Run(LeaseThenMarker, START, before);
    FreeIff(s);
    RunFive(LeaseThenMarker, s,
      [AcquireExclusive(p), EnterRecovery(p, corrupt), Publish(p, rescued), RemoveMarker(p), Release(p)]);
    hide Run;
    var begun := Next(LeaseThenMarker, Next(LeaseThenMarker, s, AcquireExclusive(p)), EnterRecovery(p, corrupt));
    assert begun.At(p) == if s.marker || corrupt then Working else Idle;
  }

  /** A crash gives back the lock and changes nothing else. */
  lemma CrashGivesBack(s: State, p: Pid)
    ensures var after := Next(LeaseThenMarker, s, Crash(p));
      && after.At(p).Idle? && (forall q :: q != p ==> after.At(q) == s.At(q))
      && after.db == s.db && after.marker == s.marker
  {
  }

  /** A process changes its place only along these edges, and nobody else moves it. */
  lemma PlacesChangeOnlySo(s: State, step: Step)
    ensures var n := Next(LeaseThenMarker, s, step);
      var (a, b) := (s.At(step.p), n.At(step.p));
      && (forall q :: q != step.p ==> n.At(q) == s.At(q))
      && (a == b
          || (step.AcquireShared? && a == Idle && b == Leased)
          || (step.CheckMarker? && a == Leased && b == if s.marker then Idle else Writing)
          || (step.Close? && a == Writing && b == Idle)
          || (step.AcquireExclusive? && a == Idle && b == Exclusive)
          || (step.EnterRecovery? && a == Exclusive && b == if s.marker || step.corrupt then Working else Idle)
          || (step.RemoveMarker? && a == Working && b == Finished)
          || (step.Release? && HoldsExclusive(a) && b == Idle)
          || (step.Crash? && b == Idle))
  {
  }

  /** With nobody in between, the other order of the two looks gives the same outcome. */
  lemma OrdersAgreeAlone(s: State, p: Pid, event: int)
    requires s.At(p).Idle?
    ensures Run(MarkerThenLease, s, [CheckMarker(p), AcquireShared(p), Append(p, event), Close(p)]).db
         == Run(LeaseThenMarker, s, [AcquireShared(p), CheckMarker(p), Append(p, event), Close(p)]).db
    ensures s.marker ==> Run(MarkerThenLease, s, [CheckMarker(p)]).At(p).Idle?
  {
    RunFour(MarkerThenLease, s, [CheckMarker(p), AcquireShared(p), Append(p, event), Close(p)]);
    RunFour(LeaseThenMarker, s, [AcquireShared(p), CheckMarker(p), Append(p, event), Close(p)]);
    RunOneMore(MarkerThenLease, s, [], CheckMarker(p));
    assert [] + [CheckMarker(p)] == [CheckMarker(p)];
    hide Run;
    var looked := Next(MarkerThenLease, s, CheckMarker(p));
    assert SharedIsFree(looked) <==> SharedIsFree(s) by {
      assert forall q :: HoldsExclusive(looked.At(q)) <==> HoldsExclusive(s.At(q));
      FreeIff(looked);
      FreeIff(s);
    }
    var leased := Next(MarkerThenLease, looked, AcquireShared(p));
    var o := Next(LeaseThenMarker, Next(LeaseThenMarker, s, AcquireShared(p)), CheckMarker(p));
    assert leased.At(p).Writing? <==> !s.marker && SharedIsFree(s);
    assert o.At(p).Writing? <==> !s.marker && SharedIsFree(s);
  }

  /** A recovery starts only when no writer has the database open. */
  lemma RecoveryStartsAlone(before: seq<Step>, p: Pid, q: Pid)
    requires HoldsExclusive(Run(LeaseThenMarker, START, before).At(p)) && q != p
    ensures !HoldsShared(Run(LeaseThenMarker, START, before).At(q))
    ensures !HoldsExclusive(Run(LeaseThenMarker, START, before).At(q))
  {
    RunKeepsInv(START, before);
  }

  /** Looking for the marker before taking the lease would not do: a recovery that crashes in between is overlooked. */
  lemma LookingFirstIsUnsafe() returns (before: seq<Step>, s: State)
    ensures s == Run(MarkerThenLease, START, before) && s.marker
    ensures exists p :: s.At(p).Writing? && Next(MarkerThenLease, s, Append(p, 7)).db != s.db
  {
    hide Run;
    var s1 := Next(MarkerThenLease, START, CheckMarker(1));
    var s2 := Next(MarkerThenLease, s1, AcquireExclusive(2));
    var s3 := Next(MarkerThenLease, s2, EnterRecovery(2, true));
    var s4 := Next(MarkerThenLease, s3, Crash(2));
    s := Next(MarkerThenLease, s4, AcquireShared(1));
    before := [CheckMarker(1), AcquireExclusive(2), EnterRecovery(2, true), Crash(2), AcquireShared(1)];
    assert s1.At(1).Looked? && s2.At(2).Exclusive? && s3.marker && s4.pcs == map[1 := Looked, 2 := Idle];
    assert s.At(1).Writing? && Next(MarkerThenLease, s, Append(1, 7)).db != s.db;
    RunFive(MarkerThenLease, START, before);
  }

  lemma RunFour(order: Order, s: State, steps: seq<Step>)
    requires |steps| == 4
    ensures Run(order, s, steps) ==
      Next(order, Next(order, Next(order, Next(order, s, steps[0]), steps[1]), steps[2]), steps[3])
  {
    hide Next;
    RunOneMore(order, s, steps[..3], steps[3]);
    RunOneMore(order, s, steps[..2], steps[2]);
    RunOneMore(order, s, steps[..1], steps[1]);
    RunOneMore(order, s, [], steps[0]);
    assert steps[..3] + [steps[3]] == steps && steps[..2] + [steps[2]] == steps[..3];
    assert steps[..1] + [steps[1]] == steps[..2] && [] + [steps[0]] == steps[..1];
  }

  lemma RunFive(order: Order, s: State, steps: seq<Step>)
    requires |steps| == 5
    ensures Run(order, s, steps) ==
      Next(order, Next(order, Next(order, Next(order, Next(order, s, steps[0]), steps[1]), steps[2]), steps[3]), steps[4])
  {
    hide Next;
    RunOneMore(order, s, steps[..4], steps[4]);
    RunFour(order, s, steps[..4]);
    assert steps[..4] + [steps[4]] == steps;
  }

  lemma {:induction false} RunOneMore(order: Order, s: State, steps: seq<Step>, step: Step)
    ensures Run(order, s, steps + [step]) == Next(order, Run(order, s, steps), step)
    decreases |steps|
  {
    hide Next;
    if steps == [] {
      assert [step][1..] == [];
      assert [] + [step] == [step];
    } else {
      assert (steps + [step])[1..] == steps[1..] + [step];
      RunOneMore(order, Next(order, s, steps[0]), steps[1..], step);
    }
  }
}
