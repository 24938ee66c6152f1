/** What one whole tick starts, and when that is a run too early. */
module ScheduleTicks {
  import opened Wrappers
  import opened Schedules
  import opened SchedulerRuns
  import opened ScheduleRetries
  import opened RunSpacing

  predicate DueNow(file: File, x: string, now: real) {
    x in file && Loads(file[x]) && Due(Parse(x, file[x]), now)
  }

  /** A tick from its listing to its end. */
  function WholeTick(listing: seq<Schedule>, during: seq<Action>): seq<Action> {
    [TickStart(listing, false)] + during + [TickEnd]
  }

  /** Neither another tick nor the end of the scheduler task. */
  predicate WithinTick(during: seq<Action>) {
    forall i :: 0 <= i < |during| ==> !during[i].Abandon? && !during[i].TickStart?
  }

  /** The tick under way listed this file at this time. */
  ghost predicate Ticks(s: System, file: File, now: real) {
    !s.phase.Idle? ==> s.phase.tick.started == file && s.phase.tick.now == now
  }

  ghost predicate OnlyDueStarts(s: System, n: nat, file: File, now: real) {
    forall i :: n <= i < |s.starts| ==> DueNow(file, s.starts[i].install, now)
  }

  lemma StepStartsDue(s: System, a: Action, n: nat, file: File, now: real)
    requires PhaseInv(s) && Legal(s, a) && !a.Abandon? && !a.TickStart?
    requires Ticks(s, file, now) && OnlyDueStarts(s, n, file, now)
    ensures Ticks(Step(s, a), file, now) && OnlyDueStarts(Step(s, a), n, file, now)
  {
    if a.Next? {
      assert s.phase.todo[0] in s.phase.todo;
    }
  }

  lemma {:induction false} RunStartsDue(s: System, actions: seq<Action>, n: nat, file: File, now: real)
    requires Inv(s) && Run(s, actions).Some? && WithinTick(actions)
    requires Ticks(s, file, now) && OnlyDueStarts(s, n, file, now)
    ensures var t := Run(s, actions).value; Inv(t) && Ticks(t, file, now) && OnlyDueStarts(t, n, file, now)
  {
    if actions != [] {
      var init, last := actions[..|actions| - 1], actions[|actions| - 1];
      assert forall i :: 0 <= i < |init| ==> init[i] == actions[i];
      RunStartsDue(s, init, n, file, now);
      StepKeepsInv(Run(s, init).value, last);
      StepStartsDue(Run(s, init).value, last, n, file, now);
    }
  }

  lemma TickParts(s: System, listing: seq<Schedule>, during: seq<Action>)
    requires Run(s, WholeTick(listing, during)).Some?
    ensures Legal(s, TickStart(listing, false))
    ensures var ticking := Step(s, TickStart(listing, false));
            && Run(ticking, during).Some? && Legal(Run(ticking, during).value, TickEnd)
            && Run(s, WholeTick(listing, during)).value == Step(Run(ticking, during).value, TickEnd)
  {
    RunSnoc(s, [TickStart(listing, false)] + during, TickEnd);
    RunConcat(s, [TickStart(listing, false)], during);
    RunSnoc(s, [], TickStart(listing, false));
    assert [] + [TickStart(listing, false)] == [TickStart(listing, false)];
  }

  lemma DueIsStarted(s: System, listing: seq<Schedule>, during: seq<Action>, x: string)
    requires Inv(s) && Run(s, WholeTick(listing, during)).Some? && WithinTick(during)
    requires DueNow(Current(s), x, s.clock)
    ensures StartedSince(Run(s, WholeTick(listing, during)).value, |s.starts|, x)
  {
    TickParts(s, listing, during);
    var ticking := Step(s, TickStart(listing, false));
    StepKeepsInv(s, TickStart(listing, false));
    assert Parse(x, Current(s)[x]) in listing;
    RunKeepsListed(ticking, during, |s.starts|, x, Current(s)[x]);
    StartsGrow(Run(ticking, during).value, TickEnd, |s.starts|, x);
  }

  lemma StartedIsDue(s: System, listing: seq<Schedule>, during: seq<Action>, x: string)
    requires Inv(s) && Run(s, WholeTick(listing, during)).Some? && WithinTick(during)
    requires StartedSince(Run(s, WholeTick(listing, during)).value, |s.starts|, x)
    ensures DueNow(Current(s), x, s.clock)
  {
    TickParts(s, listing, during);
    var ticking := Step(s, TickStart(listing, false));
    StepKeepsInv(s, TickStart(listing, false));
    RunStartsDue(ticking, during, |s.starts|, Current(s), s.clock);
  }

  /** A tick that reads the file and runs to its end starts the backup of an install exactly when the entry on file
      loads and is due as the tick begins, whatever is saved meanwhile. */
  lemma TickStartsExactly(s: System, listing: seq<Schedule>, during: seq<Action>, x: string)
    requires Inv(s) && Run(s, WholeTick(listing, during)).Some? && WithinTick(during)
    ensures StartedSince(Run(s, WholeTick(listing, during)).value, |s.starts|, x) <==> DueNow(Current(s), x, s.clock)
  {
    if DueNow(Current(s), x, s.clock) {
      DueIsStarted(s, listing, during, x);
    } else if StartedSince(Run(s, WholeTick(listing, during)).value, |s.starts|, x) {
      StartedIsDue(s, listing, during, x);
    }
  }

  /** A success with its stamps on file, less than an hour of clock ago. */
  predicate Recent(s: System, i: nat) {
    i < |s.successes| && s.successes[i].at.Some? && s.clock < s.successes[i].time + HOUR
  }

  lemma NotOvertakenIsNotDue(s: System, i: nat)
    requires PromiseInv(s, 1) && Recent(s, i)
    requires NotOvertaken(s.writes, s.successes[i].install, s.successes[i].at.value)
    ensures !DueNow(Current(s), s.successes[i].install, s.clock)
  {
    assert s.successes[i] in s.successes;
    assert Undisturbed(s.first, s.writes, s.successes[i], 1);
    assert Spaced(s, s.successes[i], 1);
  }

  /** Within the hour after a run whose stamps were written, the next tick that reads the file and runs to its end
      starts the install again exactly when the entry on file is due, and then a stale writer has overtaken the
      stamps. */
  lemma RunsAgainExactly(file: File, clock: real, before: seq<Action>, i: nat, listing: seq<Schedule>,
                         during: seq<Action>)
    requires Exec(file, clock, before + WholeTick(listing, during)).Some? && WithinTick(during)
    requires Exec(file, clock, before).Some? && Recent(Exec(file, clock, before).value, i)
    ensures var s, t := Exec(file, clock, before).value, Exec(file, clock, before + WholeTick(listing, during)).value;
            var r := s.successes[i];
            && (StartedSince(t, |s.starts|, r.install) <==> DueNow(Current(s), r.install, s.clock))
            && (StartedSince(t, |s.starts|, r.install) ==> !NotOvertaken(s.writes, r.install, r.at.value))
  {
    var s := Exec(file, clock, before).value;
    ReachablePromises(file, clock, before, 1);
    RunConcat(Begin(file, clock), before, WholeTick(listing, during));
    TickStartsExactly(s, listing, during, s.successes[i].install);
    if NotOvertaken(s.writes, s.successes[i].install, s.successes[i].at.value) {
      NotOvertakenIsNotDue(s, i);
    }
  }

  // ---------- from a save to the run it asks for ----------

  function Enabling(h: int): Update {
    Update(Some(true), Some(h), None)
  }

  /** The steps of one save, with nothing in between. */
  function SaveSteps(id: nat, x: string, h: int): seq<Action> {
    [SaveLoad(id, x, Enabling(h), false)] + [SaveStamp(id)] + [SaveRead(id, false)] + [SaveWrite(id)]
  }

  lemma SaveStepsRun(s: System, id: nat, x: string, h: int)
    requires id !in s.saves && Saved(Current(s), x, Enabling(h), s.clock).Some?
    ensures Run(s, SaveSteps(id, x, h)) == Some(LoneSave(s, id, x, Enabling(h)))
  {
    var load := SaveLoad(id, x, Enabling(h), false);
    var loaded := Step(s, load);
    var stamped := Step(loaded, SaveStamp(id));
    assert [] + [load] == [load];
    RunSnoc(s, [], load);
    RunSnoc(s, [load], SaveStamp(id));
    RunSnoc(s, [load] + [SaveStamp(id)], SaveRead(id, false));
    RunSnoc(s, [load] + [SaveStamp(id)] + [SaveRead(id, false)], SaveWrite(id));
  }

  lemma SaveIsDueLater(s: System, id: nat, x: string, h: int)
    requires id !in s.saves && 1 <= h <= 168
    ensures Saved(Current(s), x, Enabling(h), s.clock).Some?
    ensures var done := LoneSave(s, id, x, Enabling(h));
            && done.starts == s.starts && x in Current(done) && Loads(Current(done)[x])
            && forall now :: DueNow(Current(done), x, now) <==> now >= s.clock + h as real * 3600.0
  {
    SavedExactly(Current(s), x, Enabling(h), s.clock);
    LoneSaveIsSave(s, id, x, Enabling(h));
  }

  /** The parts of a run up to a save, through it and the wait after it, and through a whole tick. */
  lemma SavedRunParts(s0: System, before: seq<Action>, save: seq<Action>, waiting: seq<Action>, tick: seq<Action>)
    requires Run(s0, before + save + waiting + tick).Some?
    ensures Run(s0, before).Some? && Run(Run(s0, before).value, save).Some?
    ensures var done := Run(Run(s0, before).value, save).value;
            && Run(done, waiting).Some? && Run(Run(done, waiting).value, tick).Some?
            && Run(s0, before + save + waiting) == Run(done, waiting)
            && Run(s0, before + save + waiting + tick) == Run(Run(done, waiting).value, tick)
  {
    RunConcat(s0, before + save + waiting, tick);
    RunConcat(s0, before + save, waiting);
    RunConcat(s0, before, save);
  }

  /** An install is saved as enabled every `h` hours, no other writer in flight knows another entry, and none starts
      one.  The first tick that may start it, reading the file and running to its end, does so exactly from `h` hours
      after the save on. */
  lemma SavedStartsExactly(file: File, clock: real, before: seq<Action>, id: nat, x: string, h: int,
                           waiting: seq<Action>, listing: seq<Schedule>, during: seq<Action>)
    requires Exec(file, clock, before + SaveSteps(id, x, h) + waiting + WholeTick(listing, during)).Some?
    requires Exec(file, clock, before).Some? && id !in Exec(file, clock, before).value.saves && 1 <= h <= 168
    requires var s := Exec(file, clock, before).value;
             && Saved(Current(s), x, Enabling(h), s.clock).Some?
             && var done := LoneSave(s, id, x, Enabling(h));
                x in Current(done) && Calm(done, x, Current(done)[x])
    requires AllHarmless(waiting, x) && WithinTick(during)
    requires Exec(file, clock, before + SaveSteps(id, x, h) + waiting).Some?
    requires var s := Exec(file, clock, before).value;
             !StartedSince(Exec(file, clock, before + SaveSteps(id, x, h) + waiting).value, |s.starts|, x)
    ensures var saved := before + SaveSteps(id, x, h);
            var s, idle := Exec(file, clock, before).value, Exec(file, clock, saved + waiting).value;
            var t := Exec(file, clock, saved + waiting + WholeTick(listing, during)).value;
            StartedSince(t, |idle.starts|, x) <==> idle.clock >= s.clock + h as real * 3600.0
  {
    var s0, s := Begin(file, clock), Exec(file, clock, before).value;
    BeginInv(file, clock);
    ReachableInv(s0, before);
    SaveIsDueLater(s, id, x, h);
    SaveStepsRun(s, id, x, h);
    SavedRunParts(s0, before, SaveSteps(id, x, h), waiting, WholeTick(listing, during));
    ReachableInv(s, SaveSteps(id, x, h));
    WaitedStartsExactly(LoneSave(s, id, x, Enabling(h)), x, s.clock + h as real * 3600.0, waiting, listing, during);
  }

  lemma WaitedStartsExactly(done: System, x: string, due: real, waiting: seq<Action>, listing: seq<Schedule>,
                            during: seq<Action>)
    requires Inv(done) && x in Current(done) && Calm(done, x, Current(done)[x])
    requires forall now :: DueNow(Current(done), x, now) <==> now >= due
    requires Run(done, waiting).Some? && AllHarmless(waiting, x) && WithinTick(during)
    requires Run(Run(done, waiting).value, WholeTick(listing, during)).Some?
    requires !StartedSince(Run(done, waiting).value, |done.starts|, x)
    ensures var idle := Run(done, waiting).value;
            StartedSince(Run(idle, WholeTick(listing, during)).value, |idle.starts|, x) <==> idle.clock >= due
  {
    RunKeepsWaiting(done, waiting, |done.starts|, x, Current(done)[x]);
    var idle := Run(done, waiting).value;
    TickStartsExactly(idle, listing, during, x);
    assert DueNow(Current(idle), x, idle.clock) <==> DueNow(Current(done), x, idle.clock);
  }

  lemma RecordIsDueLater(s: System)
    requires PhaseInv(s) && s.phase.Recording?
    requires var x := s.phase.current.install; Loads(s.phase.read[x]) && s.phase.read[x].settings.value.enabled
    ensures var done, x := Step(s, Record(false)), s.phase.current.install;
            var hours := s.phase.current.settings.intervalHours;
            && x in Current(done) && Loads(Current(done)[x]) && Current(done)[x].last == At(s.phase.tick.now)
            && forall now :: DueNow(Current(done), x, now) <==> now >= s.phase.tick.now + hours as real * 3600.0
  {
    StampsAreOk(s);
  }

  /** A run is recorded, no other writer in flight knows another entry, and none starts one.  The first later tick that
      may start the install does so exactly from its interval on, counted from the tick of the run. */
  lemma RecordedStartsExactly(file: File, clock: real, before: seq<Action>, waiting: seq<Action>,
                              listing: seq<Schedule>, during: seq<Action>)
    requires Exec(file, clock, before + [Record(false)] + waiting + WholeTick(listing, during)).Some?
    requires Exec(file, clock, before).Some? && Exec(file, clock, before).value.phase.Recording?
    requires var s := Exec(file, clock, before).value; var x := s.phase.current.install;
             && x in s.phase.read && Loads(s.phase.read[x]) && s.phase.read[x].settings.value.enabled
             && var done := Step(s, Record(false));
                x in Current(done) && Calm(done, x, Current(done)[x])
    requires AllHarmless(waiting, Exec(file, clock, before).value.phase.current.install) && WithinTick(during)
    requires Exec(file, clock, before + [Record(false)] + waiting).Some?
    requires var s := Exec(file, clock, before).value;
             !StartedSince(Exec(file, clock, before + [Record(false)] + waiting).value, |s.starts|,
                           s.phase.current.install)
    ensures var s := Exec(file, clock, before).value;
            var idle := Exec(file, clock, before + [Record(false)] + waiting).value;
            var t := Exec(file, clock, before + [Record(false)] + waiting + WholeTick(listing, during)).value;
            StartedSince(t, |idle.starts|, s.phase.current.install) <==>
            idle.clock >= s.phase.tick.now + s.phase.current.settings.intervalHours as real * 3600.0
  {
    var s0, s := Begin(file, clock), Exec(file, clock, before).value;
    BeginInv(file, clock);
    ReachableInv(s0, before);
    RecordIsDueLater(s);
    SavedRunParts(s0, before, [Record(false)], waiting, WholeTick(listing, during));
    assert [] + [Record(false)] == [Record(false)];
    RunSnoc(s, [], Record(false));
    StepKeepsInv(s, Record(false));
    WaitedStartsExactly(Step(s, Record(false)), s.phase.current.install,
                        s.phase.tick.now + s.phase.current.settings.intervalHours as real * 3600.0, waiting, listing,
                        during);
  }
}
