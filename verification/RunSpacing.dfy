/** How far apart the scheduler's runs of one install are, over every run, and exactly when. */
module RunSpacing {
  import opened Wrappers
  import opened Schedules
  import opened SchedulerRuns

  // ---------- runs of one install are spaced ----------

  /** The read a writer's knowledge of `x` dates from: a save of `x` replaces the entry it loaded, any other
      writer puts back the entry it read last. */
  function WindowStart(w: Write, x: string): Read
    requires w.Write?
  {
    if w.install == x then w.since else w.base
  }

  /** No writer after version `k` wrote what it knew of `x` before version `k`, or from a read that failed. */
  ghost predicate NotOvertaken(writes: seq<Write>, x: string, k: nat) {
    forall m :: k <= m < |writes| && writes[m].Write? ==> SeenSince(WindowStart(writes[m], x), k)
  }

  ghost predicate NextFrom(file: File, x: string, bound: real) {
    HasEntry(file, x) && file[x].next.At? ==> file[x].next.time >= bound
  }

  /** For an install whose entries never ask for less than `h` hours. */
  ghost predicate SaveSpaced(save: Save, x: string, k: nat, bound: real, h: int) {
    && (!save.Loaded? && save.install == x && SeenSince(save.since, k) && save.schedule.next.Some?
        && save.schedule.settings.intervalHours >= h ==>
          save.schedule.next.value >= bound)
    && (save.Holding? && SeenSince(save.base, k) ==> NextFrom(save.read, x, bound))
  }

  ghost predicate PhaseSpaced(s: System, x: string, bound: real) {
    var p := s.phase;
    && (!p.Idle? ==> forall y :: y in p.todo && y.install == x && Due(y, p.tick.now) ==> p.tick.now >= bound)
    && (p.Backing? || p.Recording? ==> p.current.install == x ==> p.tick.now >= bound)
    && (p.Recording? ==> NextFrom(p.read, x, bound))
  }

  /** Nothing that can still reach the file, and nothing still to be looked at in this tick, is due within the hour
      after `r`, but for writers that overtake it. */
  ghost predicate Spaced(s: System, r: Success, h: int)
    requires r.at.Some?
  {
    var x, k, bound := r.install, r.at.value, r.time + h as real * 3600.0;
    && k <= |s.writes| && r.time <= r.begun <= s.clock
    && NextFrom(Current(s), x, bound)
    && (forall id :: id in s.saves ==> SaveSpaced(s.saves[id], x, k, bound, h))
    && PhaseSpaced(s, x, bound)
  }

  predicate HoursAtLeast(file: File, x: string, h: int) {
    x in file && Loads(file[x]) ==> file[x].settings.value.intervalHours >= h
  }

  /** No version of the file asks for less than `h` hours between the runs of the install. */
  ghost predicate Steady(first: File, writes: seq<Write>, x: string, h: int) {
    forall v :: 0 <= v <= |writes| ==> HoursAtLeast(FileAt(first, writes, v), x, h)
  }

  /** The stamps of a run are on file and not overtaken, and the install's interval stays at `h` hours or more. */
  ghost predicate Undisturbed(first: File, writes: seq<Write>, r: Success, h: int) {
    r.at.Some? && NotOvertaken(writes, r.install, r.at.value) && Steady(first, writes, r.install, h)
  }

  ghost predicate Apart(first: File, writes: seq<Write>, r: Success, later: Success, h: int) {
    r.install == later.install && Undisturbed(first, writes, r, h) ==>
      later.time >= r.time + h as real * 3600.0
  }

  /** A save of an entry loaded after the tick began was stamped after it began. */
  ghost predicate StampedLate(save: Save, tick: Tick) {
    && tick.version.Seen? && !save.Loaded? && SeenSince(save.since, tick.version.version + 1)
    && save.schedule.next.Some?
    ==> save.schedule.next.value >= tick.now + save.schedule.settings.intervalHours as real * 3600.0
  }

  ghost predicate TickInv(s: System) {
    !s.phase.Idle? ==> forall id :: id in s.saves ==> StampedLate(s.saves[id], s.phase.tick)
  }

  /** A save in flight as a tick begins was loaded before it. */
  lemma BeganAfterLoading(s: System, a: Action, id: nat)
    requires a.TickStart? && Enabled(s, a) && id in s.saves && SaveOk(s.first, s.writes, s.saves[id])
    ensures StampedLate(Step(s, a).saves[id], Step(s, a).phase.tick)
  {
  }

  lemma StampedLateStays(s: System, a: Action, id: nat)
    requires !a.TickStart? && Enabled(s, a) && id in s.saves && id in Step(s, a).saves && !Step(s, a).phase.Idle?
    requires !s.phase.Idle? && s.phase.tick.now <= s.clock && StampedLate(s.saves[id], s.phase.tick)
    ensures StampedLate(Step(s, a).saves[id], Step(s, a).phase.tick)
  {
  }

  lemma StampedLateAfter(s: System, a: Action, id: nat)
    requires SavesInv(s) && PhaseInv(s) && TickInv(s) && Legal(s, a)
    requires id in s.saves && id in Step(s, a).saves && !Step(s, a).phase.Idle?
    ensures StampedLate(Step(s, a).saves[id], Step(s, a).phase.tick)
  {
    assert SaveOk(s.first, s.writes, s.saves[id]);
    if a.TickStart? {
      BeganAfterLoading(s, a, id);
    } else {
      StampedLateStays(s, a, id);
    }
  }

  lemma StepKeepsTickInv(s: System, a: Action)
    requires Inv(s) && TickInv(s) && Legal(s, a)
    ensures TickInv(Step(s, a))
  {
    var s' := Step(s, a);
    if !s'.phase.Idle? {
      forall id | id in s'.saves ensures StampedLate(s'.saves[id], s'.phase.tick) {
        if id in s.saves {
          StampedLateAfter(s, a, id);
        }
      }
    }
  }

  /** Runs follow one another. */
  ghost predicate Ordered(successes: seq<Success>, s: System) {
    && (forall i :: 0 <= i < |successes| ==>
          && successes[i].time <= successes[i].begun <= successes[i].ended <= s.clock
          && (Running(s.phase) ==> successes[i].ended <= s.phase.begun))
    && forall i, j :: 0 <= i < j < |successes| ==> successes[i].ended <= successes[j].begun
  }

  ghost predicate PromiseInv(s: System, h: int) {
    && Inv(s) && TickInv(s)
    && Ordered(s.successes, s)
    && (forall r :: r in s.successes && Undisturbed(s.first, s.writes, r, h) ==> Spaced(s, r, h))
    && (forall i, j :: 0 <= i < j < |s.successes| ==> Apart(s.first, s.writes, s.successes[i], s.successes[j], h))
  }

  lemma NotOvertakenBefore(writes: seq<Write>, longer: seq<Write>, x: string, k: nat)
    requires writes <= longer && NotOvertaken(longer, x, k)
    ensures NotOvertaken(writes, x, k)
  {
    assert forall m :: 0 <= m < |writes| ==> longer[m] == writes[m];
  }

  lemma UndisturbedBefore(first: File, writes: seq<Write>, longer: seq<Write>, r: Success, h: int)
    requires writes <= longer && Undisturbed(first, longer, r, h)
    ensures Undisturbed(first, writes, r, h)
  {
    NotOvertakenBefore(writes, longer, r.install, r.at.value);
    forall v | 0 <= v <= |writes| ensures HoursAtLeast(FileAt(first, writes, v), r.install, h) {
      assert FileAt(first, longer, v) == FileAt(first, writes, v);
    }
  }

  lemma LastIsSteady(first: File, writes: seq<Write>, x: string, h: int)
    requires Steady(first, writes, x, h)
    ensures HoursAtLeast(FileAt(first, writes, |writes|), x, h)
  {
  }

  lemma LastNotOvertaking(writes: seq<Write>, w: Write, x: string, k: nat)
    requires NotOvertaken(writes + [w], x, k) && k <= |writes| && w.Write?
    ensures SeenSince(WindowStart(w, x), k)
  {
    assert (writes + [w])[|writes|] == w;
  }

  lemma SaveStepSpaced(s: System, a: Action, r: Success, id: nat, h: int)
    requires Inv(s) && r.at.Some? && Spaced(s, r, h) && Enabled(s, a) && id in Step(s, a).saves
    ensures SaveSpaced(Step(s, a).saves[id], r.install, r.at.value, r.time + h as real * 3600.0, h)
  {
    if id in s.saves {
      assert SaveOk(s.first, s.writes, s.saves[id]);
      assert SaveSpaced(s.saves[id], r.install, r.at.value, r.time + h as real * 3600.0, h);
    }
  }

  /** The entry a save of the install writes asks for `h` hours or more, as every version does. */
  lemma SaveIsSteady(s: System, a: Action, x: string, h: int)
    requires SavesInv(s) && a.SaveWrite? && Enabled(s, a) && Steady(s.first, Step(s, a).writes, x, h)
    ensures s.saves[a.id].install == x ==> s.saves[a.id].schedule.settings.intervalHours >= h
  {
    assert SaveOk(s.first, s.writes, s.saves[a.id]);
    LastIsSteady(s.first, Step(s, a).writes, x, h);
  }

  lemma FileStepSpaced(s: System, a: Action, r: Success, h: int)
    requires Inv(s) && r.at.Some? && Spaced(s, r, h) && Enabled(s, a)
    requires Undisturbed(s.first, Step(s, a).writes, r, h)
    ensures NextFrom(Current(Step(s, a)), r.install, r.time + h as real * 3600.0)
  {
    var x, k, bound := r.install, r.at.value, r.time + h as real * 3600.0;
    if a.SaveWrite? {
      var save := s.saves[a.id];
      assert SaveOk(s.first, s.writes, save) && SaveSpaced(save, x, k, bound, h);
      LastNotOvertaking(s.writes, SaveOf(save), x, k);
      SaveIsSteady(s, a, x, h);
    } else if a.Record? && !a.failing {
      StampsAreOk(s);
    }
  }

  lemma TickStepSpaced(s: System, a: Action, r: Success, h: int)
    requires r.at.Some? && Spaced(s, r, h) && Legal(s, a) && a.TickStart?
    ensures PhaseSpaced(Step(s, a), r.install, r.time + h as real * 3600.0)
  {
    forall x | x in a.listing && x.install == r.install && Due(x, s.clock)
      ensures s.clock >= r.time + h as real * 3600.0
    {
      assert x == Parse(x.install, Content(s, a.blind)[x.install]);
    }
  }

  lemma NextStepSpaced(s: System, a: Action, r: Success, h: int)
    requires PhaseInv(s) && r.at.Some? && Spaced(s, r, h) && Legal(s, a) && a.Next?
    ensures PhaseSpaced(Step(s, a), r.install, r.time + h as real * 3600.0)
  {
    TailDistinct(s.phase.todo);
  }

  lemma OtherStepSpaced(s: System, a: Action, r: Success, h: int)
    requires PhaseInv(s) && r.at.Some? && Spaced(s, r, h) && Legal(s, a) && !a.TickStart? && !a.Next?
    ensures PhaseSpaced(Step(s, a), r.install, r.time + h as real * 3600.0)
  {
  }

  lemma PhaseStepSpaced(s: System, a: Action, r: Success, h: int)
    requires PhaseInv(s) && r.at.Some? && Spaced(s, r, h) && Legal(s, a)
    ensures PhaseSpaced(Step(s, a), r.install, r.time + h as real * 3600.0)
  {
    if a.TickStart? {
      TickStepSpaced(s, a, r, h);
    } else if a.Next? {
      NextStepSpaced(s, a, r, h);
    } else {
      OtherStepSpaced(s, a, r, h);
    }
  }

  lemma StepKeepsSpaced(s: System, a: Action, r: Success, h: int)
    requires Inv(s) && r.at.Some? && Spaced(s, r, h) && Legal(s, a)
    requires Undisturbed(s.first, Step(s, a).writes, r, h)
    ensures Spaced(Step(s, a), r, h)
  {
    WritesGrow(s, a);
    FileStepSpaced(s, a, r, h);
    PhaseStepSpaced(s, a, r, h);
    forall id | id in Step(s, a).saves
      ensures SaveSpaced(Step(s, a).saves[id], r.install, r.at.value, r.time + h as real * 3600.0, h)
    {
      SaveStepSpaced(s, a, r, id, h);
    }
  }

  /** The successes a step adds: none, or the run it completes. */
  lemma NewSuccess(s: System, a: Action)
    requires Inv(s) && Legal(s, a)
    ensures var s' := Step(s, a);
            s'.successes == s.successes ||
            (&& |s'.successes| == |s.successes| + 1 && s.successes <= s'.successes
             && (s.phase.Backing? || s.phase.Recording?)
             && var r := s'.successes[|s.successes|];
                && r.install == s.phase.current.install && r.time == s.phase.tick.now && r.begun == s.phase.begun
                && r.time <= r.begun <= r.ended <= s'.clock && s'.phase.Scanning?)
  {
  }

  /** A save in flight when a run is recorded knows an older file, or was stamped after the run's tick began. */
  lemma NewRunSpacesSaves(s: System, a: Action, id: nat, h: int)
    requires Inv(s) && TickInv(s) && Legal(s, a) && |Step(s, a).successes| > |s.successes| && id in s.saves
    requires Step(s, a).successes[|s.successes|].at.Some?
    ensures var r := Step(s, a).successes[|s.successes|];
            SaveSpaced(s.saves[id], r.install, r.at.value, r.time + h as real * 3600.0, h)
  {
    assert SaveOk(s.first, s.writes, s.saves[id]);
    assert StampedLate(s.saves[id], s.phase.tick);
    if a.BackupSucceeds? {
      assert s.phase.current.install in s.phase.tick.started;
    }
  }

  /** The interval of the schedule under way is that of a version of the file. */
  lemma CurrentIsSteady(s: System, h: int)
    requires PhaseInv(s) && Running(s.phase) && Steady(s.first, s.writes, s.phase.current.install, h)
    ensures s.phase.current.settings.intervalHours >= h
  {
    var tick, x := s.phase.tick, s.phase.current.install;
    assert tick.version.Seen? && HoursAtLeast(FileAt(s.first, s.writes, tick.version.version), x, h);
  }

  lemma NewSuccessSpaced(s: System, a: Action, h: int)
    requires Inv(s) && TickInv(s) && Legal(s, a) && |Step(s, a).successes| > |s.successes|
    requires Steady(s.first, s.writes, Step(s, a).successes[|s.successes|].install, h)
    ensures var s' := Step(s, a); var r := s'.successes[|s.successes|];
            r.at.Some? ==> Spaced(s', r, h)
  {
    var s' := Step(s, a);
    var r := s'.successes[|s.successes|];
    NewSuccess(s, a);
    CurrentIsSteady(s, h);
    if r.at.Some? {
      forall id | id in s'.saves
        ensures SaveSpaced(s'.saves[id], r.install, r.at.value, r.time + h as real * 3600.0, h)
      {
        NewRunSpacesSaves(s, a, id, h);
      }
      if a.Record? {
        StampsAreOk(s);
      }
    }
  }

  lemma BegunAfter(s: System, a: Action)
    requires Legal(s, a) && Running(Step(s, a).phase)
    ensures Step(s, a).phase.begun == s.clock || (Running(s.phase) && Step(s, a).phase.begun == s.phase.begun)
    ensures Step(s, a).successes == s.successes
  {
  }

  lemma StepKeepsOrder(s: System, a: Action)
    requires Inv(s) && Ordered(s.successes, s) && Legal(s, a)
    ensures Ordered(Step(s, a).successes, Step(s, a))
  {
    var s' := Step(s, a);
    WritesGrow(s, a);
    NewSuccess(s, a);
    if Running(s'.phase) {
      BegunAfter(s, a);
    } else if s'.successes != s.successes {
      assert s'.successes == s.successes + [s'.successes[|s.successes|]];
    }
  }

  lemma NewSuccessApart(s: System, a: Action, r: Success, h: int)
    requires Inv(s) && Legal(s, a) && |Step(s, a).successes| > |s.successes|
    requires Undisturbed(s.first, s.writes, r, h) ==> Spaced(s, r, h)
    ensures Apart(s.first, Step(s, a).writes, r, Step(s, a).successes[|s.successes|], h)
  {
    NewSuccess(s, a);
    WritesGrow(s, a);
    if Undisturbed(s.first, Step(s, a).writes, r, h) {
      UndisturbedBefore(s.first, s.writes, Step(s, a).writes, r, h);
    }
  }

  lemma ApartLonger(first: File, writes: seq<Write>, longer: seq<Write>, r: Success, later: Success, h: int)
    requires Apart(first, writes, r, later, h) && writes <= longer
    ensures Apart(first, longer, r, later, h)
  {
    if Undisturbed(first, longer, r, h) {
      UndisturbedBefore(first, writes, longer, r, h);
    }
  }

  lemma StepKeepsApart(s: System, a: Action, i: nat, j: nat, h: int)
    requires PromiseInv(s, h) && Legal(s, a) && i < j < |Step(s, a).successes|
    ensures Apart(s.first, Step(s, a).writes, Step(s, a).successes[i], Step(s, a).successes[j], h)
  {
    WritesGrow(s, a);
    NewSuccess(s, a);
    if j < |s.successes| {
      ApartLonger(s.first, s.writes, Step(s, a).writes, s.successes[i], s.successes[j], h);
    } else {
      assert s.successes[i] in s.successes;
      NewSuccessApart(s, a, s.successes[i], h);
    }
  }

  lemma StepKeepsSpacing(s: System, a: Action, r: Success, h: int)
    requires PromiseInv(s, h) && Legal(s, a) && r in Step(s, a).successes
    requires Undisturbed(s.first, Step(s, a).writes, r, h)
    ensures Spaced(Step(s, a), r, h)
  {
    WritesGrow(s, a);
    UndisturbedBefore(s.first, s.writes, Step(s, a).writes, r, h);
    if r in s.successes {
      StepKeepsSpaced(s, a, r, h);
    } else {
      AddedIsLast(s, a, r);
      NewSuccessSpaced(s, a, h);
    }
  }

  lemma AddedIsLast(s: System, a: Action, r: Success)
    requires Inv(s) && Legal(s, a) && r in Step(s, a).successes && r !in s.successes
    ensures |Step(s, a).successes| > |s.successes| && r == Step(s, a).successes[|s.successes|]
  {
    NewSuccess(s, a);
    forall k | 0 <= k < |s.successes| ensures Step(s, a).successes[k] != r {
      assert s.successes[k] in s.successes;
    }
  }

  lemma StepKeepsPromises(s: System, a: Action, h: int)
    requires PromiseInv(s, h) && Legal(s, a)
    ensures PromiseInv(Step(s, a), h)
  {
    var s' := Step(s, a);
    StepKeepsInv(s, a);
    StepKeepsTickInv(s, a);
    StepKeepsOrder(s, a);
    forall r | r in s'.successes && Undisturbed(s'.first, s'.writes, r, h) ensures Spaced(s', r, h) {
      StepKeepsSpacing(s, a, r, h);
    }
    forall i, j | 0 <= i < j < |s'.successes| ensures Apart(s.first, s'.writes, s'.successes[i], s'.successes[j], h) {
      StepKeepsApart(s, a, i, j, h);
    }
  }

  lemma {:induction false} ReachablePromises(file: File, clock: real, actions: seq<Action>, h: int)
    requires Exec(file, clock, actions).Some?
    ensures PromiseInv(Exec(file, clock, actions).value, h)
  {
    if actions == [] {
      BeginInv(file, clock);
    } else {
      ReachablePromises(file, clock, actions[..|actions| - 1], h);
      StepKeepsPromises(Exec(file, clock, actions[..|actions| - 1]).value, actions[|actions| - 1], h);
    }
  }

  /** How long a run waited inside its tick for the backups before it. */
  function Delay(r: Success): real {
    r.begun - r.time
  }

  /** Two successful runs of one install, the first with its stamps on file and not overtaken. */
  ghost predicate TwoRuns(file: File, clock: real, actions: seq<Action>, i: nat, j: nat) {
    Exec(file, clock, actions).Some? &&
    var s := Exec(file, clock, actions).value;
    && i < j < |s.successes| && s.successes[i].install == s.successes[j].install
    && s.successes[i].at.Some? && NotOvertaken(s.writes, s.successes[i].install, s.successes[i].at.value)
  }

  function Later(x: real, y: real): real {
    if x < y then y else x
  }

  /** Unless some writer overtakes the stamps of the first, two successful runs of an install whose interval stays at
      `h` hours or more have stamps at least that far apart; they begin at least that minus the first one's delay
      apart, and never overlap. */
  lemma RunsHoursApart(file: File, clock: real, actions: seq<Action>, i: nat, j: nat, h: int)
    requires TwoRuns(file, clock, actions, i, j)
    requires var s := Exec(file, clock, actions).value; Steady(s.first, s.writes, s.successes[i].install, h)
    ensures var done := Exec(file, clock, actions).value.successes;
            && done[j].time - done[i].time >= h as real * 3600.0
            && Delay(done[i]) >= 0.0
            && done[j].begun - done[i].begun >= Later(0.0, h as real * 3600.0 - Delay(done[i]))
            && done[i].ended <= done[j].begun
  {
    ReachablePromises(file, clock, actions, h);
    var s := Exec(file, clock, actions).value;
    assert Apart(s.first, s.writes, s.successes[i], s.successes[j], h);
  }

  /** Whatever the intervals, an hour. */
  lemma RunsAnHourApart(file: File, clock: real, actions: seq<Action>, i: nat, j: nat)
    requires TwoRuns(file, clock, actions, i, j)
    ensures var done := Exec(file, clock, actions).value.successes;
            && done[j].time - done[i].time >= 3600.0
            && Delay(done[i]) >= 0.0
            && done[j].begun - done[i].begun >= Later(0.0, 3600.0 - Delay(done[i]))
            && done[i].ended <= done[j].begun
  {
    var s := Exec(file, clock, actions).value;
    assert Steady(s.first, s.writes, s.successes[i].install, 1);
    RunsHoursApart(file, clock, actions, i, j, 1);
  }
}
