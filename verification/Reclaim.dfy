/**
 Passes that reclaim blob files after a purge, one after the other, interleaved
 step by step with any number of registrations. A registration writes a temporary file, renames it
 into place and commits the reference later; the pass quarantines a blob by
 rename, looks at its age and at the references, and removes it or puts it back.
 */
module Reclaim {
  import opened Common

  type Hash = nat
  type Time = nat

  /** gcOrphanMinAge: one hour. */
  const AGE: nat := 3600

  /**
   A registration under way: temporary files written, and blobs it has placed
   with the modification time it gave them. eff is what is left of that time
   once others have placed older files over it.
   */
  datatype Reg = Reg(tmps: map<Hash, Time>, own: map<Hash, Time>, eff: map<Hash, Time>)

  /** Where the pass is with its current hash. */
  datatype Stage = Between | Quarantined(h: Hash) | Aged(h: Hash) | Doomed(h: Hash) | Rolling(h: Hash)

  datatype State = State(
    now: Time,
    blobs: map<Hash, Time>,
    purging: map<Hash, Time>,
    refs: set<Hash>,
    regs: map<nat, Reg>,
    todo: seq<Hash>,
    stage: Stage)

  datatype Step =
    | Tick(elapsed: nat)
    | WriteTmp(id: nat, h: Hash)
    | Place(id: nat, h: Hash)
    | Commit(id: nat)
    | Abandon(id: nat)
    | Unreference(h: Hash)
    | StartPass(hashes: seq<Hash>)
    | TakeNext(ok: bool)
    | Stat(err: bool)
    | Query(err: bool)
    | Remove(err: bool)
    | Rollback

  function RegOf(s: State, id: nat): Reg {
    if id in s.regs then s.regs[id] else Reg(map[], map[], map[])
  }

  /** What a file with time m at h does to the others that count on h. */
  function Lowered(r: Reg, h: Hash, m: Time): Reg {
    if h in r.eff && m < r.eff[h] then r.(eff := r.eff[h := m]) else r
  }

  predicate Lowers(s: State, h: Hash, m: Time) {
    h in s.blobs && m < s.blobs[h]
  }

  function Placed(s: State, id: nat, h: Hash, m: Time): State {
    var regs := if Lowers(s, h, m) then map i | i in s.regs :: Lowered(s.regs[i], h, m) else s.regs;
    var r := RegOf(s, id);
    s.(blobs := s.blobs[h := m], regs := regs[id := Reg(r.tmps - {h}, r.own[h := m], r.eff[h := m])])
  }

  /** Registrations and the rest of the store. */
  function NextOutside(s: State, step: Step): State {
    match step
    case Tick(elapsed) => s.(now := s.now + elapsed)
    case WriteTmp(id, h) =>
      var r := RegOf(s, id);
      s.(regs := s.regs[id := r.(tmps := r.tmps[h := s.now])])
    case Place(id, h) =>
      if h in RegOf(s, id).tmps then Placed(s, id, h, RegOf(s, id).tmps[h]) else s
    case Commit(id) =>
      if id in s.regs && s.regs[id].tmps == map[] then
        s.(refs := s.refs + s.regs[id].own.Keys, regs := s.regs - {id})
      else s
    case Abandon(id) => s.(regs := s.regs - {id})
    case Unreference(h) => s.(refs := s.refs - {h})
    case _ => s
  }

  predicate PassOver(s: State) {
    s.stage.Between? && s.todo == []
  }

  /** The pass: rename aside, stat, ask the database, remove or rename back. */
  function NextInPass(s: State, step: Step): State {
    match step
    case StartPass(hashes) => if PassOver(s) then s.(todo := hashes) else s
    case TakeNext(ok) =>
      if !s.stage.Between? || s.todo == [] then s
      else
        var h := s.todo[0];
        if ok && h in s.blobs then
          s.(blobs := s.blobs - {h}, purging := s.purging[h := s.blobs[h]], todo := s.todo[1..], stage := Quarantined(h))
        else s.(todo := s.todo[1..])
    case Stat(err) =>
      if !s.stage.Quarantined? || s.stage.h !in s.purging then s
      else s.(stage := if err || s.now - s.purging[s.stage.h] < AGE then Rolling(s.stage.h) else Aged(s.stage.h))
    case Query(err) =>
      if !s.stage.Aged? then s
      else s.(stage := if err || s.stage.h in s.refs then Rolling(s.stage.h) else Doomed(s.stage.h))
    case Remove(err) =>
      if !s.stage.Doomed? then s
      else if err then s.(stage := Rolling(s.stage.h))
      else s.(purging := s.purging - {s.stage.h}, stage := Between)
    case Rollback =>
      if !s.stage.Rolling? || s.stage.h !in s.purging then s
      else
        s.(blobs := s.blobs[s.stage.h := s.purging[s.stage.h]], purging := s.purging - {s.stage.h}, stage := Between)
    case _ => s
  }

  predicate InPass(step: Step) {
    step.StartPass? || step.TakeNext? || step.Stat? || step.Query? || step.Remove? || step.Rollback?
  }

  function Next(s: State, step: Step): State {
    if InPass(step) then NextInPass(s, step) else NextOutside(s, step)
  }

  function Run(s: State, steps: seq<Step>): State
    decreases |steps|
  {
    if steps == [] then s else Run(Next(s, steps[0]), steps[1..])
  }

  // ------------------------------------------------------------------
  // Safety
  // ------------------------------------------------------------------

  /** A commit comes within the age gate of every blob the registration counts on. */
  predicate Timely(s: State, step: Step) {
    step.Commit? && step.id in s.regs ==>
      forall h :: h in s.regs[step.id].eff ==> s.now - s.regs[step.id].eff[h] < 3600
  }

  predicate AllTimely(s: State, steps: seq<Step>)
    decreases |steps|
  {
    steps != [] ==> Timely(s, steps[0]) && AllTimely(Next(s, steps[0]), steps[1..])
  }

  /**
   A pass starts on distinct hashes, and where a registration in flight counts
   on one of them, the file in place is no older than it thinks, or it is too late.
   */
  predicate CleanStart(s: State, step: Step) {
    step.StartPass? && PassOver(s) ==>
      && Distinct(step.hashes)
      && forall id, h :: id in s.regs && h in s.regs[id].eff && h in step.hashes ==>
           s.regs[id].eff[h] + AGE <= s.now || (h in s.blobs && s.regs[id].eff[h] <= s.blobs[h])
  }

  predicate AllClean(s: State, steps: seq<Step>)
    decreases |steps|
  {
    steps != [] ==> CleanStart(s, steps[0]) && AllClean(Next(s, steps[0]), steps[1..])
  }

  /** Every committed hash has its file in place. */
  predicate NothingDangles(s: State) {
    forall h :: h in s.refs ==> h in s.blobs
  }

  predicate Distinct(q: seq<Hash>) {
    forall i, j :: 0 <= i < j < |q| ==> q[i] != q[j]
  }

  predicate IsAt(s: State, h: Hash) {
    !s.stage.Between? && s.stage.h == h
  }

  ghost predicate PassInv(s: State) {
    && Distinct(s.todo)
    && (forall h :: h in s.todo ==> !IsAt(s, h))
    && (!s.stage.Between? ==> s.stage.h in s.purging)
    && (s.stage.Aged? || s.stage.Doomed? ==> s.purging[s.stage.h] + AGE <= s.now)
  }

  /** A committed hash has its file, or the pass holds the file and has not doomed it. */
  ghost predicate RefsHeld(s: State) {
    forall h :: h in s.refs && h !in s.blobs ==> IsAt(s, h) && !s.stage.Doomed?
  }

  /** A file somebody counts on is in place, or held no older than they think, or they are too late. */
  ghost predicate CountedOn(s: State, h: Hash, e: Time) {
    && (h in s.todo ==> e + AGE <= s.now || (h in s.blobs && e <= s.blobs[h]))
    && (h !in s.blobs ==> e + AGE <= s.now || (IsAt(s, h) && h in s.purging && e <= s.purging[h]))
  }

  ghost predicate RegHeld(s: State, r: Reg) {
    r.eff.Keys == r.own.Keys && forall h :: h in r.eff ==> CountedOn(s, h, r.eff[h])
  }

  ghost predicate RegsHeld(s: State) {
    forall id :: id in s.regs ==> RegHeld(s, s.regs[id])
  }

  ghost predicate Inv(s: State) {
    PassInv(s) && RefsHeld(s) && RegsHeld(s)
  }

  lemma PassStepKeepsInv(s: State, step: Step)
    requires Inv(s) && InPass(step) && CleanStart(s, step)
    ensures Inv(NextInPass(s, step))
  {
    var next := NextInPass(s, step);
    forall id | id in s.regs
      ensures RegHeld(next, s.regs[id])
    {
      assert RegHeld(s, s.regs[id]);
      forall h | h in s.regs[id].eff
        ensures CountedOn(next, h, s.regs[id].eff[h])
      {
        if !step.StartPass? {
          PassStepKeepsCount(s, step, h, s.regs[id].eff[h]);
        }
      }
    }
  }

  lemma PassStepKeepsCount(s: State, step: Step, h: Hash, e: Time)
    requires PassInv(s) && CountedOn(s, h, e) && InPass(step) && !step.StartPass?
    ensures CountedOn(NextInPass(s, step), h, e)
  {
  }

  lemma OutsideStepKeepsInv(s: State, step: Step)
    requires Inv(s) && !InPass(step) && Timely(s, step)
    ensures Inv(NextOutside(s, step))
  {
    match step
    case Place(id, h) =>
      if h in RegOf(s, id).tmps {
        PlacedKeepsInv(s, id, h, RegOf(s, id).tmps[h]);
      }
    case Commit(id) =>
      if id in s.regs {
        assert RegHeld(s, s.regs[id]);
        forall h | h in s.regs[id].own
          ensures h in s.blobs || (IsAt(s, h) && !s.stage.Doomed?)
        {
          assert CountedOn(s, h, s.regs[id].eff[h]);
        }
      }
    case _ =>
  }

  lemma PlacedKeepsInv(s: State, id: nat, h: Hash, m: Time)
    requires Inv(s)
    ensures Inv(Placed(s, id, h, m))
  {
    var next := Placed(s, id, h, m);
    forall i | i in next.regs
      ensures RegHeld(next, next.regs[i])
    {
      assert i in s.regs ==> RegHeld(s, s.regs[i]);
      forall g | g in next.regs[i].eff
        ensures CountedOn(next, g, next.regs[i].eff[g])
      {
        if i in s.regs && g in s.regs[i].eff {
          assert CountedOn(s, g, s.regs[i].eff[g]);
        }
      }
    }
  }

  lemma {:induction false} RunKeepsInv(s: State, steps: seq<Step>)
    requires Inv(s) && AllTimely(s, steps) && AllClean(s, steps)
    ensures Inv(Run(s, steps))
    decreases |steps|
  {
    if steps != [] {
      if InPass(steps[0]) {
        PassStepKeepsInv(s, steps[0]);
      } else {
        OutsideStepKeepsInv(s, steps[0]);
      }
      RunKeepsInv(Next(s, steps[0]), steps[1..]);
    }
  }

  /**
   Passes over distinct hashes, interleaved in any way with registrations that
   commit within the age gate: between any two hashes, and so at the end of each
   pass, every committed hash has its file in place. A registration may be in
   flight across passes, if each starts clean.
   */
  lemma ReclaimIsSafe(s: State, steps: seq<Step>)
    requires NothingDangles(s) && s.stage.Between? && Distinct(s.todo) && s.regs == map[]
    requires AllTimely(s, steps) && AllClean(s, steps) && Run(s, steps).stage.Between?
    ensures NothingDangles(Run(s, steps))
  {
    RunKeepsInv(s, steps);
  }

  /** A single pass has no start to be clean. */
  lemma {:induction false} OnePassIsClean(s: State, steps: seq<Step>)
    requires forall i :: 0 <= i < |steps| ==> !steps[i].StartPass?
    ensures AllClean(s, steps)
    decreases |steps|
  {
    if steps != [] {
      OnePassIsClean(Next(s, steps[0]), steps[1..]);
    }
  }

  // ------------------------------------------------------------------
  // The age gate, measured by the registration's own writes
  // ------------------------------------------------------------------

  /** Every blob the registration placed was written less than the age gate ago. */
  predicate OwnTimely(s: State, step: Step) {
    step.Commit? && step.id in s.regs ==>
      forall h :: h in s.regs[step.id].own ==> s.now - s.regs[step.id].own[h] < 3600
  }

  /** No older temporary file is renamed over a newer blob. */
  predicate Forward(s: State, step: Step) {
    step.Place? && step.h in RegOf(s, step.id).tmps ==> !Lowers(s, step.h, RegOf(s, step.id).tmps[step.h])
  }

  predicate AllOwnTimely(s: State, steps: seq<Step>)
    decreases |steps|
  {
    steps != [] ==> OwnTimely(s, steps[0]) && AllOwnTimely(Next(s, steps[0]), steps[1..])
  }

  predicate AllForward(s: State, steps: seq<Step>)
    decreases |steps|
  {
    steps != [] ==> Forward(s, steps[0]) && AllForward(Next(s, steps[0]), steps[1..])
  }

  ghost predicate EffIsOwn(s: State) {
    forall id :: id in s.regs ==> s.regs[id].eff == s.regs[id].own
  }

  lemma {:induction false} ForwardRunsAreTimely(s: State, steps: seq<Step>)
    requires EffIsOwn(s) && AllForward(s, steps) && AllOwnTimely(s, steps)
    ensures AllTimely(s, steps)
    decreases |steps|
  {
    if steps != [] {
      var next := Next(s, steps[0]);
      assert EffIsOwn(next) by {
        forall id | id in next.regs
          ensures next.regs[id].eff == next.regs[id].own
        {
        }
      }
      ForwardRunsAreTimely(next, steps[1..]);
    }
  }

  /** The promise as the code states it, for runs in which blob files are never replaced by older ones. */
  lemma ForwardReclaimIsSafe(s: State, steps: seq<Step>)
    requires NothingDangles(s) && s.stage.Between? && Distinct(s.todo) && s.regs == map[]
    requires AllOwnTimely(s, steps) && AllForward(s, steps) && AllClean(s, steps) && Run(s, steps).stage.Between?
    ensures NothingDangles(Run(s, steps))
  {
    ForwardRunsAreTimely(s, steps);
    ReclaimIsSafe(s, steps);
  }

  // ------------------------------------------------------------------
  // One pass after the other
  // ------------------------------------------------------------------

  /** Renaming a quarantined blob back does not put it over a newer one. */
  predicate RollsForward(s: State, step: Step) {
    step.Rollback? && s.stage.Rolling? && s.stage.h in s.purging && s.stage.h in s.blobs ==>
      s.blobs[s.stage.h] <= s.purging[s.stage.h]
  }

  predicate StartsDistinct(step: Step) {
    step.StartPass? ==> Distinct(step.hashes)
  }

  predicate AllRollForward(s: State, steps: seq<Step>)
    decreases |steps|
  {
    steps != [] ==>
      RollsForward(s, steps[0]) && StartsDistinct(steps[0]) && AllRollForward(Next(s, steps[0]), steps[1..])
  }

  /** Passes over distinct hashes that no registration puts a file beside roll forward. */
  lemma {:induction false} LonePassesRollForward(s: State, steps: seq<Step>)
    requires forall i :: 0 <= i < |steps| ==>
      !steps[i].Place? && (steps[i].StartPass? ==> forall j, k :: 0 <= j < k < |steps[i].hashes| ==> steps[i].hashes[j] != steps[i].hashes[k])
    requires !s.stage.Between? ==> s.stage.h !in s.blobs
    ensures AllRollForward(s, steps) && AllForward(s, steps)
    decreases |steps|
  {
    if steps != [] {
      LonePassesRollForward(Next(s, steps[0]), steps[1..]);
    }
  }

  /** What a registration counts on is in place or held no older than it thinks, or it is too late. */
  ghost predicate Upright(s: State) {
    forall id, h :: id in s.regs && h in s.regs[id].eff ==> StandsBy(s, h, s.regs[id].eff[h])
  }

  ghost predicate StandsBy(s: State, h: Hash, e: Time) {
    || e + AGE <= s.now
    || (h in s.blobs && e <= s.blobs[h])
    || (IsAt(s, h) && h in s.purging && e <= s.purging[h])
  }

  lemma StepKeepsUpright(s: State, step: Step)
    requires PassInv(s) && Upright(s) && RollsForward(s, step)
    ensures Upright(Next(s, step))
  {
    if InPass(step) {
      forall id, h | id in s.regs && h in s.regs[id].eff
        ensures StandsBy(NextInPass(s, step), h, s.regs[id].eff[h])
      {
        PassKeepsStanding(s, step, h, s.regs[id].eff[h]);
      }
    } else {
      OutsideKeepsUpright(s, step);
    }
  }

  lemma PassKeepsStanding(s: State, step: Step, h: Hash, e: Time)
    requires PassInv(s) && StandsBy(s, h, e) && RollsForward(s, step) && InPass(step)
    ensures StandsBy(NextInPass(s, step), h, e)
  {
  }

  lemma OutsideKeepsUpright(s: State, step: Step)
    requires Upright(s) && !InPass(step)
    ensures Upright(NextOutside(s, step))
  {
    hide NextInPass, Placed;
    if step.Place? {
      if step.h in RegOf(s, step.id).tmps {
        PlacedKeepsUpright(s, step.id, step.h, RegOf(s, step.id).tmps[step.h]);
      }
    } else {
      var next := NextOutside(s, step);
      forall id, h | id in next.regs && h in next.regs[id].eff
        ensures StandsBy(next, h, next.regs[id].eff[h])
      {
        assert StandsBy(s, h, s.regs[id].eff[h]);
      }
    }
  }

  lemma PlacedKeepsUpright(s: State, id: nat, h: Hash, m: Time)
    requires Upright(s)
    ensures Upright(Placed(s, id, h, m))
  {
    var next := Placed(s, id, h, m);
    forall i, g | i in next.regs && g in next.regs[i].eff
      ensures StandsBy(next, g, next.regs[i].eff[g])
    {
      if i in s.regs && g in s.regs[i].eff {
        assert StandsBy(s, g, s.regs[i].eff[g]);
      }
    }
  }

  lemma {:induction false} ForwardPassesAreClean(s: State, steps: seq<Step>)
    requires Inv(s) && Upright(s) && AllTimely(s, steps) && AllRollForward(s, steps)
    ensures AllClean(s, steps)
    decreases |steps|
  {
    if steps != [] {
      UprightStartIsClean(s, steps[0]);
      StepKeepsUpright(s, steps[0]);
      if InPass(steps[0]) {
        PassStepKeepsInv(s, steps[0]);
      } else {
        OutsideStepKeepsInv(s, steps[0]);
      }
      ForwardPassesAreClean(Next(s, steps[0]), steps[1..]);
    }
  }

  lemma UprightStartIsClean(s: State, step: Step)
    requires Upright(s) && StartsDistinct(step)
    ensures CleanStart(s, step)
  {
    if step.StartPass? && PassOver(s) {
      forall id, h | id in s.regs && h in s.regs[id].eff && h in step.hashes
        ensures s.regs[id].eff[h] + AGE <= s.now || (h in s.blobs && s.regs[id].eff[h] <= s.blobs[h])
      {
        assert StandsBy(s, h, s.regs[id].eff[h]);
      }
    }
  }

  /**
   Any number of passes, with registrations in flight across them: if neither a
   registration nor a rollback puts an older file over a newer blob, commits
   within the gate of their own writes always find their blobs.
   */
  lemma SequentialPassesAreSafe(s: State, steps: seq<Step>)
    requires NothingDangles(s) && PassOver(s) && s.regs == map[]
    requires AllOwnTimely(s, steps) && AllForward(s, steps) && AllRollForward(s, steps) && Run(s, steps).stage.Between?
    ensures NothingDangles(Run(s, steps))
  {
    ForwardRunsAreTimely(s, steps);
    ForwardPassesAreClean(s, steps);
    ReclaimIsSafe(s, steps);
  }

  /** An undisturbed pass over one hash, and then the commit. */
  function PassThenCommit(id: nat): seq<Step> {
    [TakeNext(true), Stat(false), Query(false), Remove(false), Rollback, Commit(id)]
  }

  /**
   What decides is the time of the file in place, not the time the registration
   wrote its own: a commit after the pass finds its blob exactly when that file
   was within the gate.
   */
  lemma GateIsExact(s: State, h: Hash, id: nat)
    requires NothingDangles(s) && s.stage.Between? && s.todo == [h] && h in s.blobs && h !in s.refs
    requires id in s.regs && s.regs[id].tmps == map[] && s.regs[id].own.Keys == {h}
    ensures NothingDangles(Run(s, PassThenCommit(id))) <==> s.now - s.blobs[h] < 3600
    ensures PassOver(Run(s, PassThenCommit(id)))
  {
    UndisturbedPass(s, h);
    var s5 := Next(Next(Next(Next(Next(s, TakeNext(true)), Stat(false)), Query(false)), Remove(false)), Rollback);
    hide NextInPass;
    var s6 := Next(s5, Commit(id));
    assert s6.refs == s.refs + {h} && s6.blobs == s5.blobs;
    UnfoldSix(s, PassThenCommit(id));
  }

  /** The pass puts a fresh blob back and removes an old unreferenced one. */
  lemma UndisturbedPass(s: State, h: Hash)
    requires s.stage.Between? && s.todo == [h] && h in s.blobs && h !in s.refs
    ensures var s5 := Next(Next(Next(Next(Next(s, TakeNext(true)), Stat(false)), Query(false)), Remove(false)), Rollback);
      && PassOver(s5) && s5.refs == s.refs && s5.regs == s.regs
      && s5.blobs == (if s.now - s.blobs[h] < AGE then s.blobs else s.blobs - {h})
  {
    hide NextOutside;
    var s2 := Next(Next(s, TakeNext(true)), Stat(false));
    TakenAndLookedAt(s, h);
    hide NextInPass;
    if s.now - s.blobs[h] < AGE {
      PutBack(s2);
      assert (s.blobs - {h})[h := s.blobs[h]] == s.blobs;
    } else {
      TakenAway(s2);
    }
  }

  /** Whatever goes wrong with a quarantined file, it is put back as it was. */
  lemma FailurePutsBack(s: State, step: Step)
    requires !s.stage.Between? && s.stage.h in s.purging
    requires (s.stage.Quarantined? && step == Stat(true)) || (s.stage.Aged? && step == Query(true))
          || (s.stage.Doomed? && step == Remove(true))
    ensures Next(Next(s, step), Rollback) == s.(
      blobs := s.blobs[s.stage.h := s.purging[s.stage.h]], purging := s.purging - {s.stage.h}, stage := Between)
  {
  }

  /** A file that is missing or cannot be renamed aside is left alone. */
  lemma MissingOrBusyIsSkipped(s: State, ok: bool)
    requires s.stage.Between? && s.todo != [] && (ok ==> s.todo[0] !in s.blobs)
    ensures Next(s, TakeNext(ok)) == s.(todo := s.todo[1..])
  {
  }

  /**
   A registration on its own of content and raw blob: a commit before both are
   in place is refused, one after that refers to both, and it leaves nothing of
   itself behind but the files.
   */
  lemma RegistrationAlone(s: State, id: nat, a: Hash, b: Hash)
    requires id !in s.regs && a != b && forall h :: h in s.blobs ==> s.blobs[h] <= s.now
    ensures Run(s, [WriteTmp(id, a), WriteTmp(id, b), Place(id, a), Commit(id), Place(id, b), Commit(id)])
         == s.(blobs := s.blobs[a := s.now][b := s.now], refs := s.refs + {a, b})
  {
    hide Run, Next, With;
    UnfoldSix(s, [WriteTmp(id, a), WriteTmp(id, b), Place(id, a), Commit(id), Place(id, b), Commit(id)]);
    BothAreWritten(s, id, a, b);
    var none, one, both := map[], map[a := s.now], map[a := s.now, b := s.now];
    assert both - {a} == map[b := s.now] && map[b := s.now] - {b} == none && one[b := s.now] == both;
    PlaceAlone(s, id, s.blobs, Reg(both, none, none), a);
    CommitAlone(s, id, s.blobs[a := s.now], Reg(map[b := s.now], one, one));
    PlaceAlone(s, id, s.blobs[a := s.now], Reg(map[b := s.now], one, one), b);
    CommitAlone(s, id, s.blobs[a := s.now][b := s.now], Reg(none, both, both));
    assert both.Keys == {a, b};
  }

  /** The state with these files in place and one more registration under way. */
  function With(s: State, id: nat, blobs: map<Hash, Time>, r: Reg): State {
    s.(blobs := blobs, regs := s.regs[id := r])
  }

  lemma BothAreWritten(s: State, id: nat, a: Hash, b: Hash)
    requires id !in s.regs
    ensures Next(Next(s, WriteTmp(id, a)), WriteTmp(id, b))
         == With(s, id, s.blobs, Reg(map[a := s.now, b := s.now], map[], map[]))
  {
    assert map[a := s.now][b := s.now] == map[a := s.now, b := s.now];
  }

  lemma PlaceAlone(s: State, id: nat, blobs: map<Hash, Time>, r: Reg, h: Hash)
    requires h in r.tmps && (h in blobs ==> blobs[h] <= r.tmps[h])
    ensures Next(With(s, id, blobs, r), Place(id, h)) ==
      With(s, id, blobs[h := r.tmps[h]], Reg(r.tmps - {h}, r.own[h := r.tmps[h]], r.eff[h := r.tmps[h]]))
  {
  }

  lemma CommitAlone(s: State, id: nat, blobs: map<Hash, Time>, r: Reg)
    requires id !in s.regs
    ensures Next(With(s, id, blobs, r), Commit(id)) ==
      if r.tmps != map[] then With(s, id, blobs, r) else s.(blobs := blobs, refs := s.refs + r.own.Keys)
  {
    assert s.regs[id := r] - {id} == s.regs;
  }

  /** A registration that gives up refers to nothing; what it has put in place stays for a later collection. */
  lemma GivingUpLeavesFiles(s: State, id: nat)
    ensures Next(s, Abandon(id)) == s.(regs := Next(s, Abandon(id)).regs)
    ensures Next(s, Abandon(id)).regs.Keys == s.regs.Keys - {id}
    ensures forall i :: i in s.regs && i != id ==> Next(s, Abandon(id)).regs[i] == s.regs[i]
  {
  }

  lemma TakenAndLookedAt(s: State, h: Hash)
    requires s.stage.Between? && s.todo == [h] && h in s.blobs
    ensures Next(Next(s, TakeNext(true)), Stat(false)) == s.(
      blobs := s.blobs - {h}, purging := s.purging[h := s.blobs[h]], todo := [],
      stage := if s.now - s.blobs[h] < AGE then Rolling(h) else Aged(h))
  {
    hide NextOutside;
  }

  lemma PutBack(s: State)
    requires s.stage.Rolling? && s.stage.h in s.purging
    ensures Next(Next(Next(s, Query(false)), Remove(false)), Rollback) == s.(
      blobs := s.blobs[s.stage.h := s.purging[s.stage.h]], purging := s.purging - {s.stage.h}, stage := Between)
  {
    hide NextOutside;
    assert Next(s, Query(false)) == s && Next(s, Remove(false)) == s;
  }

  lemma TakenAway(s: State)
    requires s.stage.Aged? && s.stage.h !in s.refs
    ensures Next(Next(Next(s, Query(false)), Remove(false)), Rollback) == s.(
      purging := s.purging - {s.stage.h}, stage := Between)
  {
    hide NextOutside;
  }

  lemma UnfoldSix(s: State, steps: seq<Step>)
    requires |steps| == 6
    ensures Run(s, steps) ==
      Next(Next(Next(Next(Next(Next(s, steps[0]), steps[1]), steps[2]), steps[3]), steps[4]), steps[5])
  {
    hide Next;
    UnfoldThree(s, steps[..3]);
    UnfoldThree(Run(s, steps[..3]), steps[3..]);
    RunInTwo(s, steps[..3], steps[3..]);
    assert steps[..3] + steps[3..] == steps;
  }

  lemma UnfoldThree(s: State, steps: seq<Step>)
    requires |steps| == 3
    ensures Run(s, steps) == Next(Next(Next(s, steps[0]), steps[1]), steps[2])
  {
    hide Next;
    assert steps[1..][1..] == [steps[2]];
    assert [steps[2]][1..] == [];
    var s2 := Next(Next(s, steps[0]), steps[1]);
    assert Run(s2, [steps[2]]) == Next(s2, steps[2]);
  }

  lemma {:induction false} RunInTwo(s: State, a: seq<Step>, b: seq<Step>)
    ensures Run(s, a + b) == Run(Run(s, a), b)
    ensures AllOwnTimely(s, a + b) <==> AllOwnTimely(s, a) && AllOwnTimely(Run(s, a), b)
    ensures AllForward(s, a + b) <==> AllForward(s, a) && AllForward(Run(s, a), b)
    decreases |a|
  {
    hide Next, OwnTimely, Forward;
    if a == [] {
      assert a + b == b;
    } else {
      assert (a + b)[1..] == a[1..] + b;
      RunInTwo(Next(s, a[0]), a[1..], b);
    }
  }

  /** The file in place is past the gate, the registration's own write is not. */
  predicate TooOldInPlace(s: State, h: Hash, id: nat) {
    && s.stage.Between? && s.todo == [h] && h in s.blobs && s.refs == {} && s.now - s.blobs[h] >= AGE
    && id in s.regs && s.regs[id].tmps == map[] && h in s.regs[id].own && s.now - s.regs[id].own[h] < AGE
    && forall g :: g in s.regs[id].own ==> g == h
  }

  lemma LateCommitLosesBlob(s: State, h: Hash, id: nat)
    requires TooOldInPlace(s, h, id)
    ensures AllOwnTimely(s, PassThenCommit(id)) && AllForward(s, PassThenCommit(id))
    ensures PassOver(Run(s, PassThenCommit(id))) && !NothingDangles(Run(s, PassThenCommit(id)))
  {
    NoPlaceIsForward(s, PassThenCommit(id));
    hide Run, Next, AllOwnTimely, AllForward, PassThenCommit;
    GateIsExact(s, h, id);
    LateCommitIsTimely(s, id);
  }

  lemma RunThatLosesBlob(s: State, steps: seq<Step>, h: Hash, id: nat)
    requires AllOwnTimely(s, steps) && TooOldInPlace(Run(s, steps), h, id)
    ensures var all := steps + PassThenCommit(id);
      && AllOwnTimely(s, all) && PassOver(Run(s, all)) && !NothingDangles(Run(s, all))
      && (AllForward(s, steps) ==> AllForward(s, all))
  {
    hide *;
    LateCommitLosesBlob(Run(s, steps), h, id);
    RunInTwo(s, steps, PassThenCommit(id));
  }

  /** An empty store, and a pass that is about to take hash 5. */
  function AboutToTake(): State {
    State(0, map[], map[], {}, map[], [5], Between)
  }

  lemma AboutToTakeIsStart()
    ensures var s := AboutToTake(); NothingDangles(s) && s.stage.Between? && Distinct(s.todo) && s.regs == map[]
  {
  }

  /**
   Two registrations of one content: the second to write renames first, the
   first then renames its older file over it and gives up. The other commits
   within the gate of its own write, and its blob is gone.
   */
  lemma OlderFileOverNewerLosesBlob() returns (s: State, steps: seq<Step>)
    ensures NothingDangles(s) && s.stage.Between? && Distinct(s.todo) && s.regs == map[]
    ensures AllOwnTimely(s, steps) && PassOver(Run(s, steps)) && !NothingDangles(Run(s, steps))
    ensures forall i :: 0 <= i < |steps| ==> !steps[i].StartPass?
  {
    hide *;
    OlderFileEndsInPlace();
    NoStarts();
    AboutToTakeIsStart();
    s, steps := AboutToTake(), TwoWriters() + TwoRenames() + PassThenCommit(2);
    RunThatLosesBlob(s, TwoWriters() + TwoRenames(), 5, 2);
  }

  function TwoWriters(): seq<Step> {
    [WriteTmp(1, 5), Tick(10), WriteTmp(2, 5)]
  }

  function TwoRenames(): seq<Step> {
    [Place(2, 5), Place(1, 5), Tick(3590)]
  }

  function WrittenTwice(): State {
    AboutToTake().(now := 10, regs := map[1 := Reg(map[5 := 0], map[], map[]), 2 := Reg(map[5 := 10], map[], map[])])
  }

  lemma NoStarts()
    ensures forall i :: 0 <= i < |TwoWriters() + TwoRenames() + PassThenCommit(2)| ==>
      !(TwoWriters() + TwoRenames() + PassThenCommit(2))[i].StartPass?
  {
  }

  lemma OlderFileEndsInPlace()
    ensures var steps := TwoWriters() + TwoRenames();
      AllOwnTimely(AboutToTake(), steps) && TooOldInPlace(Run(AboutToTake(), steps), 5, 2)
  {
    hide Run, Next, AllOwnTimely, AboutToTake, WrittenTwice, TooOldInPlace;
    NoCommitIsTimely(AboutToTake(), TwoWriters() + TwoRenames());
    TwoWrites();
    TwoPlaces();
    hide *;
    RunInTwo(AboutToTake(), TwoWriters(), TwoRenames());
  }

  lemma TwoWrites()
    ensures Run(AboutToTake(), TwoWriters()) == WrittenTwice()
  {
    hide NextInPass;
    UnfoldThree(AboutToTake(), TwoWriters());
  }

  lemma TwoPlaces()
    ensures TooOldInPlace(Run(WrittenTwice(), TwoRenames()), 5, 2)
  {
    hide NextInPass, Run;
    var s := WrittenTwice();
    UnfoldThree(s, TwoRenames());
    FirstRename(s);
    SecondRename(Placed(s, 2, 5, 10));
  }

  lemma FirstRename(s: State)
    requires s == WrittenTwice()
    ensures var s1 := Placed(s, 2, 5, 10);
      && Next(s, Place(2, 5)) == s1 && s1 == s.(blobs := map[5 := 10], regs := s1.regs)
      && s1.regs == map[1 := Reg(map[5 := 0], map[], map[]), 2 := Reg(map[], map[5 := 10], map[5 := 10])]
  {
    hide NextInPass;
  }

  lemma SecondRename(s: State)
    requires s.regs == map[1 := Reg(map[5 := 0], map[], map[]), 2 := Reg(map[], map[5 := 10], map[5 := 10])]
    requires s.blobs == map[5 := 10]
    ensures var s2 := Placed(s, 1, 5, 0);
      && Next(s, Place(1, 5)) == s2 && s2 == s.(blobs := map[5 := 0], regs := s2.regs)
      && 2 in s2.regs && s2.regs[2].tmps == map[] && s2.regs[2].own == map[5 := 10]
  {
    hide NextInPass;
  }

  /** A referenced blob as old as the gate, and a pass that is about to take it. */
  function AboutToTakeOld(): State {
    State(AGE, map[5 := 0], map[], {5}, map[], [5], Between)
  }

  lemma AboutToTakeOldIsStart()
    ensures var s := AboutToTakeOld(); NothingDangles(s) && s.stage.Between? && Distinct(s.todo) && s.regs == map[]
  {
  }

  /** A newer file is placed while the older one is quarantined. */
  function PlaceBehind(): seq<Step> {
    [WriteTmp(2, 5), TakeNext(true), Place(2, 5)]
  }

  function RollBack(): seq<Step> {
    [Stat(false), Query(false), Rollback]
  }

  function StartAgain(): seq<Step> {
    [Unreference(5), StartPass([5])]
  }

  function RollbackOverNewer(): seq<Step> {
    PlaceBehind() + RollBack() + StartAgain()
  }

  /**
   The rollback condition is needed: the rollback puts the older file over the
   newer one, and the second pass removes it. The registration in flight across
   the two commits within the gate of its own write, and its blob is gone.
   */
  lemma SecondPassLosesBlob() returns (s: State, steps: seq<Step>)
    ensures NothingDangles(s) && s.stage.Between? && Distinct(s.todo) && s.regs == map[]
    ensures AllOwnTimely(s, steps) && AllForward(s, steps) && PassOver(Run(s, steps)) && !NothingDangles(Run(s, steps))
  {
    hide *;
    AboutToTakeOldIsStart();
    OlderFileComesBack();
    s, steps := AboutToTakeOld(), RollbackOverNewer() + PassThenCommit(2);
    RunThatLosesBlob(s, RollbackOverNewer(), 5, 2);
  }

  function PlacedBehind(): State {
    State(AGE, map[5 := AGE], map[5 := 0], {5}, map[2 := Reg(map[], map[5 := AGE], map[5 := AGE])], [], Quarantined(5))
  }

  function BroughtBack(): State {
    PlacedBehind().(blobs := map[5 := 0], purging := map[], stage := Between)
  }

  lemma OlderFileComesBack()
    ensures AllOwnTimely(AboutToTakeOld(), RollbackOverNewer()) && AllForward(AboutToTakeOld(), RollbackOverNewer())
    ensures TooOldInPlace(Run(AboutToTakeOld(), RollbackOverNewer()), 5, 2)
  {
    hide *;
    RollbackSteps();
    PlacingIsForward();
    RollingBack();
    StartingAgain();
    RunInTwo(AboutToTakeOld(), PlaceBehind(), RollBack() + StartAgain());
    RunInTwo(PlacedBehind(), RollBack(), StartAgain());
  }

  lemma RollbackSteps()
    ensures RollbackOverNewer() == PlaceBehind() + (RollBack() + StartAgain())
    ensures AllOwnTimely(AboutToTakeOld(), RollbackOverNewer())
    ensures AllForward(PlacedBehind(), RollBack()) && AllForward(BroughtBack(), StartAgain())
  {
    hide Run, Next, AllOwnTimely, AllForward, AboutToTakeOld, PlacedBehind, BroughtBack;
    NoCommitIsTimely(AboutToTakeOld(), RollbackOverNewer());
    NoPlaceIsForward(PlacedBehind(), RollBack());
    NoPlaceIsForward(BroughtBack(), StartAgain());
  }

  lemma PlacingIsForward()
    ensures Run(AboutToTakeOld(), PlaceBehind()) == PlacedBehind() && AllForward(AboutToTakeOld(), PlaceBehind())
  {
    var steps := PlaceBehind();
    var s1 := Next(AboutToTakeOld(), steps[0]);
    assert s1 == AboutToTakeOld().(regs := map[2 := Reg(map[5 := AGE], map[], map[])]);
    var s2 := Next(s1, steps[1]);
    assert s2 == s1.(blobs := map[], purging := map[5 := 0], todo := [], stage := Quarantined(5));
    assert Next(s2, steps[2]) == PlacedBehind();
    UnfoldThree(AboutToTakeOld(), steps);
    assert steps[1..][1..] == [steps[2]] && [steps[2]][1..] == [];
    assert AllForward(s2, [steps[2]]);
    assert AllForward(s1, steps[1..]);
  }

  lemma RollingBack()
    ensures Run(PlacedBehind(), RollBack()) == BroughtBack()
  {
    UnfoldThree(PlacedBehind(), RollBack());
    hide NextOutside, Run;
    var s2 := Next(Next(PlacedBehind(), Stat(false)), Query(false));
    assert s2 == PlacedBehind().(stage := Rolling(5));
  }

  lemma StartingAgain()
    ensures TooOldInPlace(Run(BroughtBack(), StartAgain()), 5, 2)
  {
    assert StartAgain()[1..] == [StartPass([5])] && [StartPass([5])][1..] == [];
    var e := Next(Next(BroughtBack(), Unreference(5)), StartPass([5]));
    assert e == BroughtBack().(refs := {}, todo := [5]);
    assert Run(BroughtBack(), StartAgain()) == Run(e, []) == e;
  }

  lemma {:induction false} NoPlaceIsForward(s: State, steps: seq<Step>)
    requires forall i :: 0 <= i < |steps| ==> !steps[i].Place?
    ensures AllForward(s, steps)
    decreases |steps|
  {
    if steps != [] {
      NoPlaceIsForward(Next(s, steps[0]), steps[1..]);
    }
  }

  lemma {:induction false} NoCommitIsTimely(s: State, steps: seq<Step>)
    requires forall i :: 0 <= i < |steps| ==> !steps[i].Commit?
    ensures AllOwnTimely(s, steps)
    decreases |steps|
  {
    if steps != [] {
      NoCommitIsTimely(Next(s, steps[0]), steps[1..]);
    }
  }

  lemma LateCommitIsTimely(s: State, id: nat)
    requires id in s.regs && forall h :: h in s.regs[id].own ==> s.now - s.regs[id].own[h] < AGE
    ensures AllOwnTimely(s, PassThenCommit(id))
  {
    var pass := PassThenCommit(id)[..5];
    PassLeavesRegs(s, pass);
    NoCommitIsTimely(s, pass);
    RunInTwo(s, pass, [Commit(id)]);
    assert pass + [Commit(id)] == PassThenCommit(id);
    var t := Run(s, pass);
    assert AllOwnTimely(Next(t, Commit(id)), []);
    assert [Commit(id)][1..] == [];
  }

  lemma {:induction false} PassLeavesRegs(s: State, steps: seq<Step>)
    requires forall i :: 0 <= i < |steps| ==> InPass(steps[i])
    ensures Run(s, steps).regs == s.regs && Run(s, steps).now == s.now
    decreases |steps|
  {
    if steps != [] {
      PassLeavesRegs(Next(s, steps[0]), steps[1..]);
    }
  }
}
