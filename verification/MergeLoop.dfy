/**
 The loops that merge the full-text index, one per server, sharing one stamp
 file. A loop wakes, merges if the stamp is old enough, stamps the time at which
 it woke, and sleeps until the stamp will be old enough again.
 */
module MergeLoop {
  import opened Common

  /** past: the loop has had its first check, so its start delay is over. */
  datatype Loop = Loop(phase: Phase, past: bool)

  datatype Phase = Waiting(at: nat) | Merging(start: nat) | Rearming

  /** starts is the history: the stamp found at first, then the start of every merge. */
  datatype State = State(now: nat, stamp: Option<nat>, loops: map<nat, Loop>, starts: seq<nat>)

  datatype Step =
    | Tick(elapsed: nat)
    | Begin(p: nat, delay: nat)
    | Check(p: nat)
    | Finish(p: nat, ok: bool)
    | Rearm(p: nat)
    | Stop(p: nat)

  /** FTSMergeDueIn: nothing to wait for without a stamp, with one from the future, or with an old one. */
  function DueIn(stamp: Option<nat>, interval: nat, now: nat): nat {
    if stamp.None? || now < stamp.value || now - stamp.value >= interval then 0
    else interval - (now - stamp.value)
  }

  function Set(s: State, p: nat, phase: Phase): State {
    s.(loops := s.loops[p := Loop(phase, true)])
  }

  function Next(s: State, interval: nat, step: Step): State {
    match step
    case Tick(elapsed) => s.(now := s.now + elapsed)
    case Begin(p, delay) =>
      if p in s.loops then s else s.(loops := s.loops[p := Loop(Waiting(s.now + delay), false)])
    case Check(p) =>
      if !(p in s.loops && s.loops[p].phase.Waiting? && s.loops[p].phase.at <= s.now) then s
      else if DueIn(s.stamp, interval, s.now) > 0 then Set(s, p, Rearming)
      else Set(s, p, Merging(s.now)).(starts := s.starts + [s.now])
    case Finish(p, ok) =>
      if !(p in s.loops && s.loops[p].phase.Merging?) then s
      else Set(s, p, Rearming).(stamp := if ok then Some(s.loops[p].phase.start) else s.stamp)
    case Rearm(p) =>
      if !(p in s.loops && s.loops[p].phase.Rearming?) then s
      else
        var due := DueIn(s.stamp, interval, s.now);
        Set(s, p, Waiting(s.now + (if due > 0 then due else interval)))
    case Stop(p) => s.(loops := s.loops - {p})
  }

  function Run(s: State, interval: nat, steps: seq<Step>): State
    decreases |steps|
  {
    if steps == [] then s else Run(Next(s, interval, steps[0]), interval, steps[1..])
  }

  /** No loop runs yet; there may be a stamp from earlier. */
  function Start(now: nat, age: Option<nat>): State
    requires age.Some? ==> age.value <= now
  {
    if age.None? then State(now, None, map[], [])
    else State(now, Some(now - age.value), map[], [now - age.value])
  }

  // ------------------------------------------------------------------
  // Conditions on a run
  // ------------------------------------------------------------------

  /** Merges succeed within the interval, and a loop is not stopped in the middle of one. */
  predicate MergesSucceed(s: State, interval: nat, step: Step) {
    match step
    case Tick(elapsed) =>
      forall p :: p in s.loops && s.loops[p].phase.Merging? ==> s.now + elapsed < s.loops[p].phase.start + interval
    case Finish(_, ok) => ok
    case Stop(p) => p in s.loops ==> !s.loops[p].phase.Merging?
    case _ => true
  }

  /** Timers go off in time, and no time passes between a decision and setting the next timer. */
  predicate TimersArePrompt(s: State, step: Step) {
    step.Tick? && step.elapsed > 0 ==>
      forall p :: p in s.loops ==>
        match s.loops[p].phase
        case Waiting(at) => s.now + step.elapsed <= at || !s.loops[p].past
        case Merging(_) => true
        case Rearming => false
  }

  predicate AnyMerging(s: State) {
    exists p :: p in s.loops && s.loops[p].phase.Merging?
  }

  /** The step starts a merge. */
  predicate Starts(s: State, interval: nat, step: Step) {
    |Next(s, interval, step).starts| > |s.starts|
  }

  predicate AllSucceed(s: State, interval: nat, steps: seq<Step>)
    decreases |steps|
  {
    steps != [] ==>
      MergesSucceed(s, interval, steps[0]) && AllSucceed(Next(s, interval, steps[0]), interval, steps[1..])
  }

  predicate AllPrompt(s: State, interval: nat, steps: seq<Step>)
    decreases |steps|
  {
    steps != [] ==>
      TimersArePrompt(s, steps[0]) && AllPrompt(Next(s, interval, steps[0]), interval, steps[1..])
  }

  /** No merge starts while another is under way. */
  predicate NoneOverlaps(s: State, interval: nat, steps: seq<Step>)
    decreases |steps|
  {
    steps != [] ==>
      && (Starts(s, interval, steps[0]) ==> !AnyMerging(s))
      && NoneOverlaps(Next(s, interval, steps[0]), interval, steps[1..])
  }

  /** Any two merges at least the interval apart. */
  predicate Spaced(starts: seq<nat>, interval: nat) {
    forall i, j :: 0 <= i < j < |starts| ==> starts[j] - starts[i] >= interval
  }

  // ------------------------------------------------------------------
  // Not too often
  // ------------------------------------------------------------------

  ghost predicate Inv(s: State, interval: nat) {
    && (forall i :: 0 <= i < |s.starts| ==> s.starts[i] <= s.now)
    && (s.stamp.Some? ==> s.stamp.value in s.starts)
    && (forall p :: p in s.loops && s.loops[p].phase.Merging? ==>
          s.loops[p].phase.start in s.starts && s.now < s.loops[p].phase.start + interval)
  }

  /** While no merges have overlapped: the stamp is the last merge, or the last merge is under way and alone. */
  ghost predicate InTurn(s: State) {
    && (s.starts == [] ==> s.stamp.None? && !AnyMerging(s))
    && (s.starts != [] && !AnyMerging(s) ==> s.stamp == Some(s.starts[|s.starts| - 1]))
    && (forall p :: p in s.loops && s.loops[p].phase.Merging? ==> s.loops[p].phase.start == s.starts[|s.starts| - 1])
    && (forall p, q :: p in s.loops && q in s.loops && s.loops[p].phase.Merging? && s.loops[q].phase.Merging? ==> p == q)
  }

  lemma StepKeepsInv(s: State, interval: nat, step: Step)
    requires interval > 0 && Inv(s, interval) && MergesSucceed(s, interval, step)
    ensures Inv(Next(s, interval, step), interval)
    ensures s.starts <= Next(s, interval, step).starts
  {
  }

  lemma StepInTurn(s: State, interval: nat, step: Step)
    requires interval > 0 && Inv(s, interval) && InTurn(s) && Spaced(s.starts, interval)
    requires MergesSucceed(s, interval, step) && (Starts(s, interval, step) ==> !AnyMerging(s))
    ensures InTurn(Next(s, interval, step)) && Spaced(Next(s, interval, step).starts, interval)
  {
    var n := Next(s, interval, step);
    if step.Check? {
      CheckInTurn(s, interval, step.p);
    } else if step.Finish? || step.Stop? {
      assert forall q :: q != step.p ==> (q in n.loops <==> q in s.loops) && (q in s.loops ==> n.loops[q] == s.loops[q]);
      StillMerging(s, n, step.p);
    } else {
      assert AnyMerging(s) ==> AnyMerging(n) by {
        if q :| q in s.loops && s.loops[q].phase.Merging? {
          assert q in n.loops && n.loops[q].phase.Merging?;
        }
      }
    }
  }

  /** A merge goes on unless the loop that moved was the one. */
  lemma StillMerging(s: State, n: State, p: nat)
    requires forall q :: q != p ==> (q in n.loops <==> q in s.loops) && (q in s.loops ==> n.loops[q] == s.loops[q])
    ensures AnyMerging(s) && !(p in s.loops && s.loops[p].phase.Merging?) ==> AnyMerging(n)
  {
    if q :| q in s.loops && s.loops[q].phase.Merging? && q != p {
      assert q in n.loops && n.loops[q].phase.Merging?;
    }
  }

  lemma CheckInTurn(s: State, interval: nat, p: nat)
    requires interval > 0 && Inv(s, interval) && InTurn(s) && Spaced(s.starts, interval)
    requires Starts(s, interval, Check(p)) ==> !AnyMerging(s)
    ensures var n := Next(s, interval, Check(p)); InTurn(n) && Spaced(n.starts, interval)
  {
    hide Spaced;
    var n := Next(s, interval, Check(p));
    assert forall q :: q != p ==> (q in n.loops <==> q in s.loops) && (q in s.loops ==> n.loops[q] == s.loops[q]);
    StillMerging(s, n, p);
    if Starts(s, interval, Check(p)) {
      assert p in n.loops && n.loops[p].phase == Merging(s.now) && n.starts == s.starts + [s.now];
      OneMoreSpaced(s.starts, s.now, interval);
    } else {
      assert n.starts == s.starts;
    }
  }

  lemma OneMoreSpaced(starts: seq<nat>, now: nat, interval: nat)
    requires Spaced(starts, interval) && (starts != [] ==> now - starts[|starts| - 1] >= interval)
    ensures Spaced(starts + [now], interval)
  {
    forall i | 0 <= i < |starts|
      ensures now - starts[i] >= interval
    {
      assert i < |starts| - 1 ==> starts[|starts| - 1] - starts[i] >= interval;
    }
  }

  lemma OverlapIsTooSoon(s: State, interval: nat, step: Step)
    requires interval > 0 && Inv(s, interval) && Starts(s, interval, step) && AnyMerging(s)
    ensures !Spaced(Next(s, interval, step).starts, interval)
  {
    var p :| p in s.loops && s.loops[p].phase.Merging?;
    var i :| 0 <= i < |s.starts| && s.starts[i] == s.loops[p].phase.start;
    var n := Next(s, interval, step);
    assert n.starts[i] == s.starts[i] && n.starts[|s.starts|] == s.now;
  }

  lemma {:induction false} TooSoonStays(s: State, interval: nat, steps: seq<Step>)
    requires interval > 0 && Inv(s, interval) && AllSucceed(s, interval, steps) && !Spaced(s.starts, interval)
    ensures !Spaced(Run(s, interval, steps).starts, interval)
    decreases |steps|
  {
    if steps != [] {
      var n := Next(s, interval, steps[0]);
      StepKeepsInv(s, interval, steps[0]);
      var i, j :| 0 <= i < j < |s.starts| && s.starts[j] - s.starts[i] < interval;
      assert n.starts[i] == s.starts[i] && n.starts[j] == s.starts[j];
      TooSoonStays(n, interval, steps[1..]);
    }
  }

  lemma {:induction false} RunIsSpaced(s: State, interval: nat, steps: seq<Step>)
    requires interval > 0 && Inv(s, interval) && InTurn(s) && Spaced(s.starts, interval)
    requires AllSucceed(s, interval, steps)
    ensures Spaced(Run(s, interval, steps).starts, interval) <==> NoneOverlaps(s, interval, steps)
    decreases |steps|
  {
    if steps != [] {
      var n := Next(s, interval, steps[0]);
      StepKeepsInv(s, interval, steps[0]);
      if Starts(s, interval, steps[0]) && AnyMerging(s) {
        OverlapIsTooSoon(s, interval, steps[0]);
        TooSoonStays(n, interval, steps[1..]);
      } else {
        StepInTurn(s, interval, steps[0]);
        RunIsSpaced(n, interval, steps[1..]);
      }
    }
  }

  /**
   Among any number of loops whose merges succeed within the interval, all
   merges are at least the interval apart exactly when none starts while
   another is under way. The write lock does not see to that: it makes the
   second wait, and then both stamp.
   */
  lemma MergesAreSpaced(now: nat, age: Option<nat>, interval: nat, steps: seq<Step>)
    requires interval > 0 && (age.Some? ==> age.value <= now)
    requires AllSucceed(Start(now, age), interval, steps)
    ensures Spaced(Run(Start(now, age), interval, steps).starts, interval)
      <==> NoneOverlaps(Start(now, age), interval, steps)
  {
    RunIsSpaced(Start(now, age), interval, steps);
  }

  /** Two servers that start together, wake after the same delay, and merge. */
  function WakeSteps(delay: nat): seq<Step> {
    [Begin(1, delay), Begin(2, delay), Tick(delay)]
  }

  function MergeSteps(): seq<Step> {
    [Check(1), Check(2), Finish(1, true), Finish(2, true)]
  }

  function TogetherSteps(delay: nat): seq<Step> {
    WakeSteps(delay) + MergeSteps()
  }

  /**
   If a merge is due then, both merge and both stamp, in a run in which every
   merge succeeds at once: the two merges are no time apart.
   */
  lemma LoopsThatWakeTogetherBothMerge(now: nat, age: Option<nat>, interval: nat, delay: nat)
    requires interval > 0 && (age.Some? ==> age.value <= now && age.value + delay >= interval)
    ensures var s := Start(now, age);
      var e := Run(s, interval, TogetherSteps(delay));
      && AllSucceed(s, interval, TogetherSteps(delay)) && e.stamp == Some(now + delay)
      && e.starts == s.starts + [now + delay, now + delay]
      && !Spaced(e.starts, interval) && !NoneOverlaps(s, interval, TogetherSteps(delay))
  {
    var s := Start(now, age);
    hide Next, Run, AllSucceed, NoneOverlaps, WakeSteps, MergeSteps;
    var woken := BothWake(s, interval, delay);
    var e := BothMerge(woken, interval);
    RunInTwo(s, interval, WakeSteps(delay), MergeSteps());
    var n := |s.starts|;
    assert e.starts[n + 1] - e.starts[n] == 0;
    MergesAreSpaced(now, age, interval, TogetherSteps(delay));
  }

  lemma BothWake(s: State, interval: nat, delay: nat) returns (e: State)
    requires interval > 0 && s.loops == map[]
    ensures e == Run(s, interval, WakeSteps(delay)) && AllSucceed(s, interval, WakeSteps(delay))
    ensures e == s.(now := s.now + delay, loops := map[
      1 := Loop(Waiting(s.now + delay), false), 2 := Loop(Waiting(s.now + delay), false)])
  {
    var steps := WakeSteps(delay);
    e := Run(s, interval, steps);
    assert steps[1..][1..] == [Tick(delay)] && [Tick(delay)][1..] == [];
    var s2 := Next(Next(s, interval, steps[0]), interval, steps[1]);
    assert Run(s, interval, steps) == Run(s2, interval, [Tick(delay)]) == Next(s2, interval, Tick(delay));
    assert AllSucceed(s2, interval, [Tick(delay)]);
  }

  lemma BothMerge(s: State, interval: nat) returns (e: State)
    requires interval > 0 && (s.stamp.Some? ==> s.stamp.value <= s.now && s.now - s.stamp.value >= interval)
    requires s.loops == map[1 := Loop(Waiting(s.now), false), 2 := Loop(Waiting(s.now), false)]
    ensures e == Run(s, interval, MergeSteps()) && AllSucceed(s, interval, MergeSteps())
    ensures e.starts == s.starts + [s.now, s.now] && e.stamp == Some(s.now)
  {
    var steps := MergeSteps();
    e := Run(s, interval, steps);
    var s2 := Next(Next(s, interval, Check(1)), interval, Check(2));
    assert s2.starts == s.starts + [s.now, s.now] && s2.stamp == s.stamp;
    assert s2.loops == map[1 := Loop(Merging(s.now), true), 2 := Loop(Merging(s.now), true)];
    assert steps[1..][1..] == [Finish(1, true), Finish(2, true)];
    assert Run(s, interval, steps) == Run(s2, interval, steps[1..][1..]);
    assert [Finish(1, true), Finish(2, true)][1..] == [Finish(2, true)] && [Finish(2, true)][1..] == [];
    var s4 := Next(Next(s2, interval, Finish(1, true)), interval, Finish(2, true));
    assert Run(s2, interval, [Finish(1, true), Finish(2, true)]) == s4;
    assert AllSucceed(s2, interval, [Finish(1, true), Finish(2, true)]);
  }

  lemma {:induction false} RunInTwo(s: State, interval: nat, a: seq<Step>, b: seq<Step>)
    ensures Run(s, interval, a + b) == Run(Run(s, interval, a), interval, b)
    ensures AllSucceed(s, interval, a + b) <==> AllSucceed(s, interval, a) && AllSucceed(Run(s, interval, a), interval, b)
    decreases |a|
  {
    hide Next, MergesSucceed;
    if a == [] {
      assert a + b == b;
    } else {
      assert (a + b)[1..] == a[1..] + b;
      RunInTwo(Next(s, interval, a[0]), interval, a[1..], b);
    }
  }

  // ------------------------------------------------------------------
  // Not too rarely
  // ------------------------------------------------------------------

  /** Every loop past its delay will check again before the last merge is older than the interval. */
  ghost predicate OnTime(s: State, interval: nat) {
    forall p :: p in s.loops && s.loops[p].past ==>
      && s.starts != []
      && s.now <= s.starts[|s.starts| - 1] + interval
      && (s.loops[p].phase.Waiting? ==>
            s.now <= s.loops[p].phase.at <= s.starts[|s.starts| - 1] + interval)
  }

  ghost predicate StampIsCurrent(s: State, interval: nat) {
    forall p :: p in s.loops && s.loops[p].phase.Rearming? ==>
      s.stamp.Some? && s.stamp.value <= s.now < s.stamp.value + interval
  }

  ghost predicate StartsGrow(s: State) {
    && (forall i, j :: 0 <= i <= j < |s.starts| ==> s.starts[i] <= s.starts[j])
    && (forall p :: p in s.loops && !s.loops[p].past ==> s.loops[p].phase.Waiting?)
  }

  lemma StepIsOnTime(s: State, interval: nat, step: Step)
    requires interval > 0 && Inv(s, interval) && StartsGrow(s) && StampIsCurrent(s, interval) && OnTime(s, interval)
    requires MergesSucceed(s, interval, step) && TimersArePrompt(s, step)
    ensures var n := Next(s, interval, step); StartsGrow(n) && StampIsCurrent(n, interval) && OnTime(n, interval)
  {
    StartsStillGrow(s, interval, step);
    StampStaysCurrent(s, interval, step);
  }

  lemma StartsStillGrow(s: State, interval: nat, step: Step)
    requires Inv(s, interval) && StartsGrow(s)
    ensures StartsGrow(Next(s, interval, step))
  {
  }

  lemma StampStaysCurrent(s: State, interval: nat, step: Step)
    requires interval > 0 && Inv(s, interval) && StampIsCurrent(s, interval)
    requires MergesSucceed(s, interval, step) && TimersArePrompt(s, step)
    ensures StampIsCurrent(Next(s, interval, step), interval)
  {
  }

  lemma {:induction false} RunIsOnTime(s: State, interval: nat, steps: seq<Step>)
    requires interval > 0 && Inv(s, interval) && StartsGrow(s) && StampIsCurrent(s, interval) && OnTime(s, interval)
    requires AllSucceed(s, interval, steps) && AllPrompt(s, interval, steps)
    ensures OnTime(Run(s, interval, steps), interval)
    decreases |steps|
  {
    if steps != [] {
      StepKeepsInv(s, interval, steps[0]);
      StepIsOnTime(s, interval, steps[0]);
      RunIsOnTime(Next(s, interval, steps[0]), interval, steps[1..]);
    }
  }

  /** While some loop is past its start delay, the last merge started at most the interval ago. */
  lemma MergesAreFrequent(now: nat, age: Option<nat>, interval: nat, steps: seq<Step>, p: nat)
    requires interval > 0 && (age.Some? ==> age.value <= now)
    requires AllSucceed(Start(now, age), interval, steps) && AllPrompt(Start(now, age), interval, steps)
    requires var s := Run(Start(now, age), interval, steps); p in s.loops && s.loops[p].past
    ensures var s := Run(Start(now, age), interval, steps);
      s.starts != [] && s.now - s.starts[|s.starts| - 1] <= interval
  {
    RunIsOnTime(Start(now, age), interval, steps);
  }

  /** A merge starts exactly when a loop whose timer is up finds no stamp, one from the future, or one as old as the interval. */
  lemma MergeStartsIff(s: State, interval: nat, step: Step)
    ensures Starts(s, interval, step) <==>
      && step.Check? && step.p in s.loops && s.loops[step.p].phase.Waiting? && s.loops[step.p].phase.at <= s.now
      && (s.stamp.None? || s.now < s.stamp.value || s.stamp.value + interval <= s.now)
    ensures Next(s, interval, step).starts == if Starts(s, interval, step) then s.starts + [s.now] else s.starts
  {
  }

  /** A loop changes its phase only along these edges, each loop by its own steps. */
  lemma PhasesChangeOnlySo(s: State, interval: nat, step: Step, p: nat)
    ensures var n := Next(s, interval, step);
      if p !in s.loops then p in n.loops ==> step.Begin? && step.p == p && n.loops[p] == Loop(Waiting(s.now + step.delay), false)
      else if p !in n.loops then step == Stop(p)
      else
        || (n.loops[p] == s.loops[p] && (step != Stop(p)))
        || (step == Check(p) && s.loops[p].phase.Waiting? && s.loops[p].phase.at <= s.now
            && n.loops[p] == Loop(if Starts(s, interval, step) then Merging(s.now) else Rearming, true))
        || (step.Finish? && step.p == p && s.loops[p].phase.Merging? && n.loops[p] == Loop(Rearming, true))
        || (step == Rearm(p) && s.loops[p].phase.Rearming? && n.loops[p].phase.Waiting? && n.loops[p].past)
  {
  }

  /** A session shorter than its start delay never merges: until then its loop waits. */
  lemma {:induction false} DelayHolds(s: State, interval: nat, steps: seq<Step>, p: nat, at: nat)
    requires p in s.loops && s.loops[p] == Loop(Waiting(at), false) && Run(s, interval, steps).now < at
    requires Stop(p) !in steps
    ensures p in Run(s, interval, steps).loops && Run(s, interval, steps).loops[p] == Loop(Waiting(at), false)
    decreases |steps|
  {
    if steps != [] {
      var n := Next(s, interval, steps[0]);
      TimeGoesOn(n, interval, steps[1..]);
      PhasesChangeOnlySo(s, interval, steps[0], p);
      DelayHolds(n, interval, steps[1..], p, at);
    }
  }

  lemma {:induction false} TimeGoesOn(s: State, interval: nat, steps: seq<Step>)
    ensures s.now <= Run(s, interval, steps).now
    decreases |steps|
  {
    if steps != [] {
      TimeGoesOn(Next(s, interval, steps[0]), interval, steps[1..]);
    }
  }

  /** The first check of a loop that starts alone merges exactly if there is no stamp or it is as old as the interval by then. */
  lemma FirstCheckMergesIff(now: nat, age: Option<nat>, interval: nat, delay: nat, p: nat)
    requires age.Some? ==> age.value <= now
    ensures var s := Next(Next(Start(now, age), interval, Begin(p, delay)), interval, Tick(delay));
      Starts(s, interval, Check(p)) <==> age.None? || age.value + delay >= interval
  {
  }

  /** The conditions of the two results can be met: a lone loop that merges at once is prompt and succeeds. */
  lemma ALoneLoopIsPrompt(now: nat, interval: nat, delay: nat) returns (steps: seq<Step>)
    requires interval > 0
    ensures var s := Start(now, None);
      var e := Run(s, interval, steps);
      && AllSucceed(s, interval, steps) && AllPrompt(s, interval, steps)
      && e.loops == map[1 := Loop(Waiting(e.now), true)] && e.starts == [now + delay] && e.now == now + delay + interval
  {
    hide Run, AllSucceed, AllPrompt;
    var s := Start(now, None);
    var s1 := Next(s, interval, Begin(1, delay));
    var s2 := Next(s1, interval, Tick(delay));
    var s3 := Next(s2, interval, Check(1));
    assert s3.loops == map[1 := Loop(Merging(s2.now), true)];
    steps := ALoneMergeIsPrompt(s3, interval);
    steps := FirstGoesWell(s2, interval, Check(1), steps);
    steps := FirstGoesWell(s1, interval, Tick(delay), steps);
    steps := FirstGoesWell(s, interval, Begin(1, delay), steps);
  }

  lemma ALoneMergeIsPrompt(s: State, interval: nat) returns (steps: seq<Step>)
    requires interval > 0 && s.loops == map[1 := Loop(Merging(s.now), true)]
    ensures var e := Run(s, interval, steps);
      && AllSucceed(s, interval, steps) && AllPrompt(s, interval, steps)
      && e.loops == map[1 := Loop(Waiting(e.now), true)] && e.starts == s.starts && e.now == s.now + interval
  {
    hide Run, AllSucceed, AllPrompt;
    var s1 := Next(s, interval, Finish(1, true));
    var s2 := Next(s1, interval, Rearm(1));
    assert s1.loops == map[1 := Loop(Rearming, true)] && s2.loops == map[1 := Loop(Waiting(s.now + interval), true)];
    steps := NothingGoesWell(Next(s2, interval, Tick(interval)), interval);
    steps := FirstGoesWell(s2, interval, Tick(interval), steps);
    steps := FirstGoesWell(s1, interval, Rearm(1), steps);
    steps := FirstGoesWell(s, interval, Finish(1, true), steps);
  }

  lemma NothingGoesWell(s: State, interval: nat) returns (none: seq<Step>)
    ensures AllSucceed(s, interval, none) && AllPrompt(s, interval, none) && Run(s, interval, none) == s
  {
    none := [];
  }

  lemma FirstGoesWell(s: State, interval: nat, step: Step, steps: seq<Step>) returns (all: seq<Step>)
    requires MergesSucceed(s, interval, step) && TimersArePrompt(s, step)
    requires AllSucceed(Next(s, interval, step), interval, steps) && AllPrompt(Next(s, interval, step), interval, steps)
    ensures AllSucceed(s, interval, all) && AllPrompt(s, interval, all)
    ensures Run(s, interval, all) == Run(Next(s, interval, step), interval, steps)
  {
    all := [step] + steps;
    assert all[1..] == steps;
  }

  /** Only a merge that succeeds moves the stamp, and to the time at which its loop woke. */
  lemma StampMovesIff(s: State, interval: nat, step: Step)
    ensures Next(s, interval, step).stamp ==
      if step.Finish? && step.ok && step.p in s.loops && s.loops[step.p].phase.Merging?
      then Some(s.loops[step.p].phase.start) else s.stamp
  {
  }

  /**
   A merge that fails leaves the stamp as it was. Its loop checks again when the
   stamp is due, or after a whole interval if it is due already.
   */
  lemma FailedMergeWaits(s: State, interval: nat, p: nat)
    requires p in s.loops && s.loops[p].phase.Merging?
    ensures var r := Next(Next(s, interval, Finish(p, false)), interval, Rearm(p));
      && r.stamp == s.stamp && r.starts == s.starts && p in r.loops
      && r.loops[p] == Loop(Waiting(
           if s.stamp.Some? && s.stamp.value <= s.now < s.stamp.value + interval then s.stamp.value + interval
           else s.now + interval), true)
  {
  }

  /**
   The two clock readings of one round are not the same instant. If the stamp
   becomes due between them, the round neither merges nor sees a remaining time,
   and sleeps for a whole interval more.
   */
  lemma DeadlineBetweenReadings(s: State, interval: nat, p: nat, passes: nat)
    requires p in s.loops && s.loops[p].phase.Waiting? && s.loops[p].phase.at <= s.now
    requires s.stamp.Some? && s.stamp.value <= s.now < s.stamp.value + interval
    ensures var r := Next(Next(Next(s, interval, Check(p)), interval, Tick(passes)), interval, Rearm(p));
      && r.starts == s.starts && p in r.loops && r.loops[p].phase.Waiting?
      && (r.loops[p].phase.at <= s.stamp.value + interval <==> s.now + passes < s.stamp.value + interval)
      && (s.now + passes >= s.stamp.value + interval ==> r.loops[p].phase.at >= s.stamp.value + 2 * interval)
  {
  }
}
