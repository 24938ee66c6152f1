/** When a disabled schedule can have a next run all the same. */
module ScheduleStamps {
  import opened Wrappers
  import opened Schedules
  import opened SchedulerRuns

  /** No disabled entry has a next run. */
  ghost predicate OffMeansNoRun(file: File) {
    forall x :: HasEntry(file, x) && file[x].settings.Some? && !file[x].settings.value.enabled ==> file[x].next.Missing?
  }

  /** A run update written into an entry that was disabled when it was read. */
  predicate StampsDisabled(s: System, a: Action) {
    a == Record(false) && s.phase.Recording? && HasEntry(s.phase.read, s.phase.current.install) &&
    var settings := s.phase.read[s.phase.current.install].settings;
    settings.Some? && !settings.value.enabled
  }

  ghost predicate AllOff(s: System) {
    && OffMeansNoRun(Current(s))
    && (forall id :: id in s.saves && s.saves[id].Holding? ==> OffMeansNoRun(s.saves[id].read))
    && (s.phase.Recording? ==> OffMeansNoRun(s.phase.read))
  }

  lemma SavedIsOff(s: System, id: nat)
    requires SavesInv(s) && id in s.saves && s.saves[id].Holding? && OffMeansNoRun(s.saves[id].read)
    ensures OffMeansNoRun(SaveOf(s.saves[id]).after)
  {
    assert SaveOk(s.first, s.writes, s.saves[id]);
  }

  lemma RecordedIsOffExactly(s: System)
    requires PhaseInv(s) && s.phase.Recording? && OffMeansNoRun(s.phase.read)
    ensures OffMeansNoRun(StampsOf(s.phase).after) <==> !StampsDisabled(s, Record(false))
  {
    StampsAreOk(s);
    var x := s.phase.current.install;
    var w := StampsOf(s.phase);
    assert HasEntry(w.after, x) && w.after[x] == w.entry;
  }

  lemma ReadsStayOff(s: System, a: Action)
    requires AllOff(s) && Legal(s, a) && !a.SaveWrite? && !(a.Record? && !a.failing)
    ensures AllOff(Step(s, a))
  {
  }

  /** A step breaks "disabled means no next run" exactly when it stamps an entry that was disabled when read. */
  lemma StepBreaksExactly(s: System, a: Action)
    requires Inv(s) && AllOff(s) && Legal(s, a)
    ensures OffMeansNoRun(Current(Step(s, a))) <==> !StampsDisabled(s, a)
    ensures !StampsDisabled(s, a) ==> AllOff(Step(s, a))
  {
    if a.SaveWrite? {
      SavedIsOff(s, a.id);
    } else if a.Record? && !a.failing {
      RecordedIsOffExactly(s);
    } else {
      ReadsStayOff(s, a);
    }
  }

  /** The file after the first `n` steps is fine; the next step stamps a disabled entry. */
  ghost predicate FineAt(file: File, clock: real, actions: seq<Action>, n: nat)
    requires n <= |actions|
  {
    Exec(file, clock, actions[..n]).Some? && OffMeansNoRun(Current(Exec(file, clock, actions[..n]).value))
  }

  ghost predicate StampsAt(file: File, clock: real, actions: seq<Action>, n: nat)
    requires n < |actions|
  {
    Exec(file, clock, actions[..n]).Some? && StampsDisabled(Exec(file, clock, actions[..n]).value, actions[n])
  }

  lemma NextIsOff(file: File, clock: real, actions: seq<Action>, n: nat)
    requires Exec(file, clock, actions).Some? && n < |actions|
    ensures Exec(file, clock, actions[..n]).Some? && Exec(file, clock, actions[..n + 1]).Some?
    ensures AllOff(Exec(file, clock, actions[..n]).value) ==>
              && (FineAt(file, clock, actions, n + 1) <==> !StampsAt(file, clock, actions, n))
              && (!StampsAt(file, clock, actions, n) ==> AllOff(Exec(file, clock, actions[..n + 1]).value))
  {
    RunPrefix(Begin(file, clock), actions, n);
    RunPrefix(Begin(file, clock), actions, n + 1);
    assert actions[..n + 1] == actions[..n] + [actions[n]];
    RunSnoc(Begin(file, clock), actions[..n], actions[n]);
    BeginInv(file, clock);
    ReachableInv(Begin(file, clock), actions[..n]);
    if AllOff(Exec(file, clock, actions[..n]).value) {
      StepBreaksExactly(Exec(file, clock, actions[..n]).value, actions[n]);
    }
  }

  lemma {:induction false} UnstampedIsOff(file: File, clock: real, actions: seq<Action>, n: nat)
    requires OffMeansNoRun(file) && Exec(file, clock, actions).Some? && n <= |actions|
    requires forall k :: 0 <= k < n ==> !StampsAt(file, clock, actions, k)
    ensures Exec(file, clock, actions[..n]).Some? && AllOff(Exec(file, clock, actions[..n]).value)
  {
    if n == 0 {
      assert actions[..0] == [];
    } else {
      UnstampedIsOff(file, clock, actions, n - 1);
      NextIsOff(file, clock, actions, n - 1);
    }
  }

  /** The file is fine after each of the first steps. */
  ghost predicate FineThrough(file: File, clock: real, actions: seq<Action>, n: nat)
    requires n <= |actions|
  {
    forall k :: 0 <= k <= n ==> FineAt(file, clock, actions, k)
  }

  lemma {:induction false} FineIsOff(file: File, clock: real, actions: seq<Action>, n: nat)
    requires OffMeansNoRun(file) && Exec(file, clock, actions).Some? && n <= |actions|
    requires FineThrough(file, clock, actions, n)
    ensures Exec(file, clock, actions[..n]).Some? && AllOff(Exec(file, clock, actions[..n]).value)
  {
    if n == 0 {
      assert actions[..0] == [];
    } else {
      FineIsOff(file, clock, actions, n - 1);
      NextIsOff(file, clock, actions, n - 1);
    }
  }

  lemma FineIsUnstamped(file: File, clock: real, actions: seq<Action>, n: nat)
    requires OffMeansNoRun(file) && Exec(file, clock, actions).Some? && n < |actions|
    requires FineThrough(file, clock, actions, |actions|)
    ensures !StampsAt(file, clock, actions, n)
  {
    FineIsOff(file, clock, actions, n);
    NextIsOff(file, clock, actions, n);
  }

  /** Over a run from a file that satisfies it, "disabled means no next run" holds throughout exactly when no run
      update stamps an entry that was disabled when the update read it. */
  lemma DisabledWithNextRunExactly(file: File, clock: real, actions: seq<Action>)
    requires OffMeansNoRun(file) && Exec(file, clock, actions).Some?
    ensures (forall n :: 0 <= n <= |actions| ==> FineAt(file, clock, actions, n)) <==>
            (forall n :: 0 <= n < |actions| ==> !StampsAt(file, clock, actions, n))
  {
    if forall n :: 0 <= n <= |actions| ==> FineAt(file, clock, actions, n) {
      forall n | 0 <= n < |actions| ensures !StampsAt(file, clock, actions, n) {
        FineIsUnstamped(file, clock, actions, n);
      }
    } else if forall n :: 0 <= n < |actions| ==> !StampsAt(file, clock, actions, n) {
      forall n | 0 <= n <= |actions| ensures FineAt(file, clock, actions, n) {
        UnstampedIsOff(file, clock, actions, n);
      }
    }
  }

  function OffSwitch(): Update {
    Update(Some(false), None, None)
  }

  lemma SwitchedOff(s: System, id: nat, x: string)
    requires id !in s.saves && x in Current(s) && Loads(Current(s)[x])
    ensures Saved(Current(s), x, OffSwitch(), s.clock).Some?
    ensures var saved := LoneSave(s, id, x, OffSwitch());
            && saved.phase == s.phase && HasEntry(Current(saved), x)
            && Current(saved)[x].settings.Some? && !Current(saved)[x].settings.value.enabled
            && Current(saved)[x].next.Missing?
  {
    LoneSaveIsSave(s, id, x, OffSwitch());
  }

  /** It does happen: a schedule switched off while its backup runs ends up switched off with a next run. */
  lemma DisabledWithNextRun(s: System, id: nat)
    requires s.phase.Backing? && id !in s.saves
    requires var x := s.phase.current.install; x in Current(s) && Loads(Current(s)[x])
    ensures var x := s.phase.current.install;
            && Saved(Current(s), x, OffSwitch(), s.clock).Some?
            && var saved := LoneSave(s, id, x, OffSwitch());
            && saved.phase.Backing? && HasEntry(Current(saved), x) && Current(saved)[x].next.Missing?
            && Step(saved, BackupSucceeds(false)).phase.Recording?
            && var done := Step(Step(saved, BackupSucceeds(false)), Record(false));
            && !OffMeansNoRun(Current(done)) && x in Current(done)
            && Current(done)[x].next == At(s.phase.tick.now + Interval(s.phase.current.settings))
  {
    var x := s.phase.current.install;
    SwitchedOff(s, id, x);
    var saved := LoneSave(s, id, x, OffSwitch());
    LoneRecordIsRunUpdate(saved);
    var done := Step(Step(saved, BackupSucceeds(false)), Record(false));
    assert HasEntry(Current(done), x);
  }
}
