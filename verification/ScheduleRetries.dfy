/** Failed and unrecorded runs: what becomes of their entries, and when they are tried again. */
module ScheduleRetries {
  import opened Wrappers
  import opened Schedules
  import opened SchedulerRuns

  ghost predicate StartedSince(s: System, n: nat, x: string) {
    exists i :: n <= i < |s.starts| && s.starts[i].install == x
  }

  /** Everything that can reach the file has the entry of `x` as it is. */
  ghost predicate Calm(s: System, x: string, entry: Raw) {
    && EntryIs(Current(s), x, entry)
    && (forall id :: id in s.saves ==>
          s.saves[id].install != x && (s.saves[id].Holding? ==> EntryIs(s.saves[id].read, x, entry)))
    && (Running(s.phase) ==> s.phase.current.install != x)
    && (s.phase.Recording? ==> EntryIs(s.phase.read, x, entry))
  }

  predicate EntryIs(file: File, x: string, entry: Raw) {
    x in file && file[x] == entry
  }

  /** Not a save of `x` nor one that fails to read the file it rewrites, not a loss of the file, not the end of the
      scheduler task. */
  predicate Harmless(a: Action, x: string) {
    !(a.SaveLoad? && a.install == x) && !(a.SaveRead? && a.blind) && !a.LoseFile? && !a.Abandon?
  }

  /** Once failed, `x` has been started again, or its entry is untouched and nothing is about to touch it. */
  ghost predicate Waits(s: System, n: nat, x: string, entry: Raw) {
    n <= |s.starts| && (StartedSince(s, n, x) || Calm(s, x, entry))
  }

  /** And it is on the list of the tick under way. */
  ghost predicate IsListed(s: System, n: nat, x: string, entry: Raw) {
    StartedSince(s, n, x) ||
    (Loads(entry) && !s.phase.Idle? && Parse(x, entry) in s.phase.todo && Due(Parse(x, entry), s.phase.tick.now))
  }

  lemma StartsGrow(s: System, a: Action, n: nat, x: string)
    requires Enabled(s, a)
    ensures s.starts <= Step(s, a).starts
    ensures StartedSince(s, n, x) ==> StartedSince(Step(s, a), n, x)
    ensures a.Next? && Due(s.phase.todo[0], s.phase.tick.now) && s.phase.todo[0].install == x && n <= |s.starts| ==>
              StartedSince(Step(s, a), n, x)
  {
    var s' := Step(s, a);
    if StartedSince(s, n, x) {
      var i :| n <= i < |s.starts| && s.starts[i].install == x;
      assert s'.starts[i].install == x;
    }
    if a.Next? && Due(s.phase.todo[0], s.phase.tick.now) {
      assert s'.starts[|s.starts|].install == s.phase.todo[0].install;
    }
  }

  lemma CalmSaves(s: System, a: Action, x: string, entry: Raw, id: nat)
    requires Calm(s, x, entry) && Enabled(s, a) && Harmless(a, x) && id in Step(s, a).saves
    requires SavesInv(s)
    ensures var save := Step(s, a).saves[id];
            save.install != x && (save.Holding? ==> EntryIs(save.read, x, entry))
  {
  }

  lemma CalmFile(s: System, a: Action, x: string, entry: Raw)
    requires Inv(s) && Calm(s, x, entry) && Legal(s, a) && Harmless(a, x)
    ensures EntryIs(Current(Step(s, a)), x, entry)
  {
    if a.Record? && !a.failing {
      StampsAreOk(s);
    }
  }

  lemma StepKeepsCalm(s: System, a: Action, x: string, entry: Raw)
    requires Inv(s) && Calm(s, x, entry) && Legal(s, a) && Harmless(a, x)
    requires !(a.Next? && Due(s.phase.todo[0], s.phase.tick.now) && s.phase.todo[0].install == x)
    ensures Calm(Step(s, a), x, entry)
  {
    var s' := Step(s, a);
    forall id | id in s'.saves
      ensures s'.saves[id].install != x && (s'.saves[id].Holding? ==> EntryIs(s'.saves[id].read, x, entry))
    {
      CalmSaves(s, a, x, entry, id);
    }
    CalmFile(s, a, x, entry);
  }

  lemma StepKeepsWaiting(s: System, a: Action, n: nat, x: string, entry: Raw)
    requires Inv(s) && Waits(s, n, x, entry) && Legal(s, a) && Harmless(a, x)
    ensures Waits(Step(s, a), n, x, entry)
  {
    StartsGrow(s, a, n, x);
    if !StartedSince(s, n, x) && !StartedSince(Step(s, a), n, x) {
      StepKeepsCalm(s, a, x, entry);
    }
  }

  lemma StepKeepsListed(s: System, a: Action, n: nat, x: string, entry: Raw)
    requires Inv(s) && n <= |s.starts| && IsListed(s, n, x, entry) && Legal(s, a) && !a.Abandon? && !a.TickStart?
    ensures IsListed(Step(s, a), n, x, entry)
  {
    StartsGrow(s, a, n, x);
    if !StartedSince(s, n, x) && a.Next? {
      TailDistinct(s.phase.todo);
    }
  }

  ghost predicate AllHarmless(actions: seq<Action>, x: string) {
    forall i :: 0 <= i < |actions| ==> Harmless(actions[i], x)
  }

  lemma {:induction false} RunKeepsWaiting(s: System, actions: seq<Action>, n: nat, x: string, entry: Raw)
    requires Inv(s) && Waits(s, n, x, entry) && Run(s, actions).Some? && AllHarmless(actions, x)
    ensures Inv(Run(s, actions).value) && Waits(Run(s, actions).value, n, x, entry)
    ensures s.clock <= Run(s, actions).value.clock
  {
    if actions != [] {
      var init, last := actions[..|actions| - 1], actions[|actions| - 1];
      assert forall i :: 0 <= i < |init| ==> init[i] == actions[i];
      RunKeepsWaiting(s, init, n, x, entry);
      StepKeepsInv(Run(s, init).value, last);
      StepKeepsWaiting(Run(s, init).value, last, n, x, entry);
      WritesGrow(Run(s, init).value, last);
    }
  }

  lemma {:induction false} RunKeepsListed(s: System, actions: seq<Action>, n: nat, x: string, entry: Raw)
    requires Inv(s) && n <= |s.starts| && IsListed(s, n, x, entry) && Run(s, actions).Some?
    requires forall i :: 0 <= i < |actions| ==> !actions[i].Abandon? && !actions[i].TickStart?
    ensures var t := Run(s, actions).value; Inv(t) && n <= |t.starts| && IsListed(t, n, x, entry)
  {
    if actions != [] {
      var init, last := actions[..|actions| - 1], actions[|actions| - 1];
      assert forall i :: 0 <= i < |init| ==> init[i] == actions[i];
      RunKeepsListed(s, init, n, x, entry);
      StepKeepsInv(Run(s, init).value, last);
      StepKeepsListed(Run(s, init).value, last, n, x, entry);
      StartsGrow(Run(s, init).value, last, n, x);
    }
  }

  /** The run under way has a due entry on file, and no writer in flight knows another entry. */
  ghost predicate Retriable(s: System, entry: Raw) {
    Running(s.phase) &&
    var x := s.phase.current.install;
    && Loads(entry) && Due(Parse(x, entry), s.phase.tick.now) && EntryIs(Current(s), x, entry)
    && forall id :: id in s.saves ==>
         s.saves[id].install != x && (s.saves[id].Holding? ==> EntryIs(s.saves[id].read, x, entry))
  }

  /** The run ends with no stamps written: it fails, or it succeeds and reading the file or writing it fails. */
  predicate EndsUnstamped(s: System, ending: Action) {
    || (s.phase.Backing? && (ending.BackupFails? || ending == BackupSucceeds(true)))
    || (s.phase.Recording? && ending == Record(true))
  }

  /** A run up to such an end, on through the rest of the tick and the wait, and through the whole of a later tick. */
  function RetryRun(before: seq<Action>, ending: Action, waiting: seq<Action>, listing: seq<Schedule>,
                    during: seq<Action>): seq<Action>
  {
    before + [ending] + waiting + [TickStart(listing, false)] + during + [TickEnd]
  }

  lemma EndWaits(s: System, ending: Action, entry: Raw)
    requires Inv(s) && Retriable(s, entry) && EndsUnstamped(s, ending)
    ensures Legal(s, ending) && Inv(Step(s, ending)) && Current(Step(s, ending)) == Current(s)
    ensures Waits(Step(s, ending), |s.starts|, s.phase.current.install, entry)
    ensures Step(s, ending).clock == s.clock
  {
    StepKeepsInv(s, ending);
    assert CurrentOk(s);
  }

  /** A run that ends without stamps leaves its entry as it is, and the entry stays so until the run is retried. */
  lemma FailedRunLeavesEntry(
      file: File, clock: real, before: seq<Action>, ending: Action, waiting: seq<Action>, entry: Raw)
    requires Exec(file, clock, before + [ending] + waiting).Some?
    requires Exec(file, clock, before).Some? && Retriable(Exec(file, clock, before).value, entry)
    requires EndsUnstamped(Exec(file, clock, before).value, ending)
    requires AllHarmless(waiting, Exec(file, clock, before).value.phase.current.install)
    ensures var s := Exec(file, clock, before).value;
            var t := Exec(file, clock, before + [ending] + waiting).value;
            StartedSince(t, |s.starts|, s.phase.current.install) || EntryIs(Current(t), s.phase.current.install, entry)
  {
    var s := Exec(file, clock, before).value;
    BeginInv(file, clock);
    ReachableInv(Begin(file, clock), before);
    RunSnoc(Begin(file, clock), before, ending);
    RunConcat(Begin(file, clock), before + [ending], waiting);
    EndWaits(s, ending, entry);
    RunKeepsWaiting(Step(s, ending), waiting, |s.starts|, s.phase.current.install, entry);
  }

  lemma TickRetries(idle: System, listing: seq<Schedule>, during: seq<Action>, n: nat, x: string, entry: Raw)
    requires Inv(idle) && Waits(idle, n, x, entry) && Legal(idle, TickStart(listing, false))
    requires Loads(entry) && Due(Parse(x, entry), idle.clock)
    requires forall i :: 0 <= i < |during| ==> !during[i].Abandon? && !during[i].TickStart?
    requires Run(Step(idle, TickStart(listing, false)), during).Some?
    requires Enabled(Run(Step(idle, TickStart(listing, false)), during).value, TickEnd)
    ensures StartedSince(Run(Step(idle, TickStart(listing, false)), during).value, n, x)
  {
    var ticking := Step(idle, TickStart(listing, false));
    StepKeepsInv(idle, TickStart(listing, false));
    StartsGrow(idle, TickStart(listing, false), n, x);
    if !StartedSince(idle, n, x) {
      assert Parse(x, entry) in listing;
    }
    RunKeepsListed(ticking, during, n, x, entry);
  }

  /** After a run that ends without stamps, however long the rest of the tick and the wait take, the next tick that
      reads the file and runs to its end starts the backup again, unless the schedule is saved, a save rewrites a
      file it could not read, the file is lost or the scheduler is stopped. */
  lemma FailedRunIsRetried(file: File, clock: real, before: seq<Action>, ending: Action, waiting: seq<Action>,
                           listing: seq<Schedule>, during: seq<Action>, entry: Raw)
    requires Exec(file, clock, RetryRun(before, ending, waiting, listing, during)).Some?
    requires Exec(file, clock, before).Some? && Retriable(Exec(file, clock, before).value, entry)
    requires EndsUnstamped(Exec(file, clock, before).value, ending)
    requires var x := Exec(file, clock, before).value.phase.current.install;
             AllHarmless(waiting, x) && AllHarmless(during, x)
    requires forall i :: 0 <= i < |during| ==> !during[i].TickStart?
    ensures var s, t := Exec(file, clock, before).value,
                        Exec(file, clock, RetryRun(before, ending, waiting, listing, during)).value;
            StartedSince(t, |s.starts|, s.phase.current.install)
  {
    var s0, s := Begin(file, clock), Exec(file, clock, before).value;
    var x, n := s.phase.current.install, |s.starts|;
    BeginInv(file, clock);
    ReachableInv(s0, before);
    RunParts(s0, before, ending, waiting, listing, during);
    EndWaits(s, ending, entry);
    RunKeepsWaiting(Step(s, ending), waiting, n, x, entry);
    var idle := Run(Step(s, ending), waiting).value;
    assert forall i :: 0 <= i < |during| ==> Harmless(during[i], x);
    TickRetries(idle, listing, during, n, x, entry);
    StartsGrow(Run(Step(idle, TickStart(listing, false)), during).value, TickEnd, n, x);
  }

  lemma RunParts(s0: System, before: seq<Action>, ending: Action, waiting: seq<Action>, listing: seq<Schedule>,
                 during: seq<Action>)
    requires Run(s0, RetryRun(before, ending, waiting, listing, during)).Some?
    ensures Run(s0, before).Some? && Legal(Run(s0, before).value, ending)
    ensures var ended := Step(Run(s0, before).value, ending);
            && Run(ended, waiting).Some? && Legal(Run(ended, waiting).value, TickStart(listing, false))
            && var ticking := Step(Run(ended, waiting).value, TickStart(listing, false));
            && Run(ticking, during).Some? && Legal(Run(ticking, during).value, TickEnd)
            && Run(s0, RetryRun(before, ending, waiting, listing, during)).value
               == Step(Run(ticking, during).value, TickEnd)
  {
    var failing := before + [ending];
    var starting := failing + waiting + [TickStart(listing, false)];
    RunSnoc(s0, starting + during, TickEnd);
    RunConcat(s0, starting, during);
    RunSnoc(s0, failing + waiting, TickStart(listing, false));
    RunConcat(s0, failing, waiting);
    RunSnoc(s0, before, ending);
  }

  /** A backup that succeeded, but whose stamps could not be written or whose entry could not be read, is made again
      by the next tick that reads the file and runs to its end, under the same condition. */
  lemma UnrecordedRunRepeats(file: File, clock: real, before: seq<Action>, ending: Action, waiting: seq<Action>,
                             listing: seq<Schedule>, during: seq<Action>, entry: Raw)
    requires Exec(file, clock, RetryRun(before, ending, waiting, listing, during)).Some?
    requires Exec(file, clock, before).Some? && Retriable(Exec(file, clock, before).value, entry)
    requires EndsUnstamped(Exec(file, clock, before).value, ending) && !ending.BackupFails?
    requires var x := Exec(file, clock, before).value.phase.current.install;
             AllHarmless(waiting, x) && AllHarmless(during, x)
    requires forall i :: 0 <= i < |during| ==> !during[i].TickStart?
    ensures var s, t := Exec(file, clock, before).value,
                        Exec(file, clock, RetryRun(before, ending, waiting, listing, during)).value;
            && StartedSince(t, |s.starts|, s.phase.current.install)
            && |t.successes| > |s.successes|
            && t.successes[|s.successes|].install == s.phase.current.install && t.successes[|s.successes|].at == None
  {
    var s0, s := Begin(file, clock), Exec(file, clock, before).value;
    FailedRunIsRetried(file, clock, before, ending, waiting, listing, during, entry);
    RunParts(s0, before, ending, waiting, listing, during);
    var idle := Run(Step(s, ending), waiting).value;
    SuccessesStay(Step(s, ending), waiting);
    SuccessesStay(Step(idle, TickStart(listing, false)), during);
  }

  lemma {:induction false} SuccessesStay(s: System, actions: seq<Action>)
    requires Run(s, actions).Some?
    ensures s.successes <= Run(s, actions).value.successes
  {
    if actions != [] {
      SuccessesStay(s, actions[..|actions| - 1]);
    }
  }
}
