/** The backup scheduler of backend/backup.py among user saves.  A save runs in a worker thread and reads the file
    twice before it writes; the scheduler reads and writes it around each backup it has awaited.  Every read, every
    write and every wait is a step of its own. */
module SchedulerRuns {
  import opened Wrappers
  import opened Schedules

  const HOUR: real := 3600.0

  // ---------- writers and the history of the file ----------

  /** What a read of the file saw: one of its versions, or, when reading raises and the file cannot be moved away
      either, an empty dictionary while the file stays. */
  datatype Read = Seen(version: nat) | Blind

  predicate SeenSince(r: Read, v: nat) {
    r.Seen? && r.version >= v
  }

  /** A save in flight: the entry is loaded, then stamped with the clock, then the whole file is read again.
      `since` and `base` are the two reads. */
  datatype Save =
    | Loaded(install: string, u: Update, current: Schedule, since: Read)
    | Stamped(install: string, schedule: Schedule, since: Read)
    | Holding(install: string, schedule: Schedule, since: Read, read: File, base: Read)

  /** A write of the whole file: one entry replaced in what `base` saw.  `Wipe` is a corrupt file moved away
      and read as empty. */
  datatype Write = Write(since: Read, base: Read, install: string, entry: Raw, after: File) | Wipe

  /** Version 0 is the file at the start, version v the file after the v-th write. */
  function FileAt(first: File, writes: seq<Write>, v: nat): File
    requires v <= |writes|
  {
    if v == 0 then first else if writes[v - 1].Wipe? then map[] else writes[v - 1].after
  }

  predicate Past(r: Read, writes: seq<Write>) {
    r.Seen? ==> r.version <= |writes|
  }

  function FileSeen(first: File, writes: seq<Write>, r: Read): File
    requires Past(r, writes)
  {
    if r.Seen? then FileAt(first, writes, r.version) else map[]
  }

  // ---------- the machine ----------

  /** A tick: its time, and the file it listed as it was read. */
  datatype Tick = Tick(now: real, started: File, version: Read)

  /** Where the scheduler stands, with the schedules still to be looked at. */
  datatype Phase =
    | Idle
    | Scanning(tick: Tick, todo: seq<Schedule>)
    | Backing(tick: Tick, todo: seq<Schedule>, current: Schedule, begun: real)
    | Recording(tick: Tick, todo: seq<Schedule>, current: Schedule, begun: real, ended: real, read: File, base: Read)

  /** A backup that succeeded: the tick's time, which is what the stamps hold; when it began and ended; and the
      version by which its stamps were on file or needed no more, None if they were not written though needed. */
  datatype Success = Success(install: string, time: real, begun: real, ended: real, at: Option<nat>)

  datatype Start = Start(install: string, at: real)

  datatype System = System(
    first: File, writes: seq<Write>, clock: real, phase: Phase, saves: map<nat, Save>, starts: seq<Start>,
    successes: seq<Success>)

  function Current(s: System): File {
    FileAt(s.first, s.writes, |s.writes|)
  }

  /** A read of the current file, or one that fails. */
  function ReadNow(s: System, blind: bool): Read {
    if blind then Blind else Seen(|s.writes|)
  }

  function Content(s: System, blind: bool): File {
    if blind then map[] else Current(s)
  }

  /** The four steps that read the file may do so blindly. */
  datatype Action =
    | Advance(to: real)
    | SaveLoad(id: nat, install: string, u: Update, blind: bool)
    | SaveStamp(id: nat)
    | SaveRead(id: nat, blind: bool)
    | SaveWrite(id: nat)
    | SaveRaises(id: nat)
    | LoseFile
    | TickStart(listing: seq<Schedule>, blind: bool)
    | Next                              // the next listed schedule: start its backup, or pass it over
    | BackupFails
    | BackupSucceeds(blind: bool)       // and the file is read for the run update
    | Record(failing: bool)             // `failing`: writing the stamps raises
    | TickEnd
    | Abandon                           // the scheduler task is cancelled while it waits

  predicate Enabled(s: System, a: Action) {
    match a
    case Advance(to) => s.clock <= to
    case SaveLoad(id, _, _, _) => id !in s.saves
    case SaveStamp(id) => id in s.saves && s.saves[id].Loaded?
    case SaveRead(id, _) => id in s.saves && s.saves[id].Stamped?
    case SaveWrite(id) => id in s.saves && s.saves[id].Holding?
    case SaveRaises(id) => id in s.saves
    case LoseFile => true
    case TickStart(_, _) => s.phase.Idle?
    case Next => s.phase.Scanning? && s.phase.todo != []
    case BackupFails => s.phase.Backing?
    case BackupSucceeds(_) => s.phase.Backing?
    case Record(_) => s.phase.Recording?
    case TickEnd => s.phase.Scanning? && s.phase.todo == []
    case Abandon => s.phase.Idle? || s.phase.Backing?
  }

  predicate Due(s: Schedule, now: real) {
    s.settings.enabled && s.next.Some? && s.next.value <= now
  }

  /** A backup is under way or being recorded. */
  predicate Running(p: Phase) {
    p.Backing? || p.Recording?
  }

  predicate HasEntry(file: File, x: string) {
    x in file && file[x].Dict?
  }

  function SaveOf(save: Save): Write
    requires save.Holding?
  {
    var entry := Dump(save.schedule);
    Write(save.since, save.base, save.install, entry, save.read[save.install := entry])
  }

  function StampsOf(p: Phase): Write
    requires p.Recording?
  {
    var x := p.current.install;
    var after := RunUpdate(p.read, x, p.tick.now, Some(p.tick.now + Interval(p.current.settings)));
    Write(p.base, p.base, x, if x in after then after[x] else NotDict, after)
  }

  function Step(s: System, a: Action): System
    requires Enabled(s, a)
  {
    match a
    case Advance(to) => s.(clock := to)
    case SaveLoad(id, install, u, blind) =>
      s.(saves := s.saves[id := Loaded(install, u, LoadSchedule(Content(s, blind), install), ReadNow(s, blind))])
    case SaveStamp(id) =>
      var save := s.saves[id];
      var schedule := Rescheduled(save.current, save.u, s.clock);
      if schedule.None? then s.(saves := s.saves - {id})
      else s.(saves := s.saves[id := Stamped(save.install, schedule.value, save.since)])
    case SaveRead(id, blind) =>
      var save := s.saves[id];
      s.(saves := s.saves[id := Holding(save.install, save.schedule, save.since, Content(s, blind),
                                        ReadNow(s, blind))])
    case SaveWrite(id) => s.(writes := s.writes + [SaveOf(s.saves[id])], saves := s.saves - {id})
    case SaveRaises(id) => s.(saves := s.saves - {id})
    case LoseFile => s.(writes := s.writes + [Wipe])
    case TickStart(listing, blind) =>
      s.(phase := Scanning(Tick(s.clock, Content(s, blind), ReadNow(s, blind)), listing))
    case Next =>
      var p := s.phase;
      if Due(p.todo[0], p.tick.now) then
        s.(phase := Backing(p.tick, p.todo[1..], p.todo[0], s.clock),
           starts := s.starts + [Start(p.todo[0].install, s.clock)])
      else s.(phase := Scanning(p.tick, p.todo[1..]))
    case BackupFails => s.(phase := Scanning(s.phase.tick, s.phase.todo))
    case BackupSucceeds(blind) =>
      var p := s.phase;
      var x := p.current.install;
      if HasEntry(Content(s, blind), x) then
        s.(phase := Recording(p.tick, p.todo, p.current, p.begun, s.clock, Current(s), ReadNow(s, blind)))
      else
        s.(phase := Scanning(p.tick, p.todo),
           successes := s.successes + [Success(x, p.tick.now, p.begun, s.clock,
                                               if blind then None else Some(|s.writes|))])
    case Record(failing) =>
      var p := s.phase;
      s.(writes := if failing then s.writes else s.writes + [StampsOf(p)],
         phase := Scanning(p.tick, p.todo),
         successes := s.successes + [Success(p.current.install, p.tick.now, p.begun, p.ended,
                                             if failing then None else Some(|s.writes| + 1))])
    case TickEnd => s.(phase := Idle)
    case Abandon => s.(phase := Idle)
  }

  /** A run in which every tick works on a true listing of what it read. */
  ghost predicate Legal(s: System, a: Action) {
    Enabled(s, a) && (a.TickStart? ==> IsListing(Content(s, a.blind), a.listing))
  }

  function Begin(file: File, clock: real): System {
    System(file, [], clock, Idle, map[], [], [])
  }

  /** The state a run leads to from a given one, if each step is legal when its turn comes. */
  ghost function Run(s: System, actions: seq<Action>): Option<System> {
    if actions == [] then Some(s)
    else
      var before := Run(s, actions[..|actions| - 1]);
      var last := actions[|actions| - 1];
      if before.Some? && Legal(before.value, last) then Some(Step(before.value, last)) else None
  }

  ghost function Exec(file: File, clock: real, actions: seq<Action>): Option<System> {
    Run(Begin(file, clock), actions)
  }

  lemma RunSnoc(s: System, actions: seq<Action>, a: Action)
    ensures Run(s, actions + [a]) ==
            var before := Run(s, actions);
            if before.Some? && Legal(before.value, a) then Some(Step(before.value, a)) else None
  {
    assert (actions + [a])[..|actions|] == actions;
  }

  lemma {:induction false} RunConcat(s: System, a: seq<Action>, b: seq<Action>)
    ensures Run(s, a + b) == if Run(s, a).Some? then Run(Run(s, a).value, b) else None
  {
    if b == [] {
      assert a + b == a;
    } else {
      var init, last := b[..|b| - 1], b[|b| - 1];
      RunConcat(s, a, init);
      assert a + b == (a + init) + [last];
      RunSnoc(s, a + init, last);
    }
  }

  lemma {:induction false} RunPrefix(s: System, actions: seq<Action>, n: nat)
    requires Run(s, actions).Some? && n <= |actions|
    ensures Run(s, actions[..n]).Some?
  {
    if n == |actions| {
      assert actions[..n] == actions;
    } else {
      assert actions[..|actions| - 1][..n] == actions[..n];
      RunPrefix(s, actions[..|actions| - 1], n);
    }
  }

  // ---------- steps with nothing in between ----------

  function LoneSave(s: System, id: nat, install: string, u: Update): System
    requires id !in s.saves && Saved(Current(s), install, u, s.clock).Some?
  {
    var loaded := Step(s, SaveLoad(id, install, u, false));
    var stamped := Step(loaded, SaveStamp(id));
    Step(Step(stamped, SaveRead(id, false)), SaveWrite(id))
  }

  /** A save that no other step interrupts is the save of one thread alone. */
  lemma LoneSaveIsSave(s: System, id: nat, install: string, u: Update)
    requires id !in s.saves && Saved(Current(s), install, u, s.clock).Some?
    ensures var done := LoneSave(s, id, install, u);
            && Current(done) == SaveInto(Current(s), install, u, s.clock)
            && done.saves == s.saves && done.phase == s.phase && done.clock == s.clock
  {
    var loaded := Step(s, SaveLoad(id, install, u, false));
    var stamped := Step(loaded, SaveStamp(id));
    var held := Step(stamped, SaveRead(id, false));
    assert LoadSchedule(Current(s), install).install == install;
    assert held.saves[id].read == Current(s);
  }

  /** So is a run update. */
  lemma LoneRecordIsRunUpdate(s: System)
    requires s.phase.Backing? && HasEntry(Current(s), s.phase.current.install)
    ensures Step(s, BackupSucceeds(false)).phase.Recording?
    ensures Current(Step(Step(s, BackupSucceeds(false)), Record(false))) ==
            RunUpdate(Current(s), s.phase.current.install, s.phase.tick.now,
                      Some(s.phase.tick.now + Interval(s.phase.current.settings)))
  {
  }

  // ---------- the history of every run ----------

  ghost predicate WriteOk(first: File, writes: seq<Write>, i: nat)
    requires i < |writes|
  {
    var w := writes[i];
    w.Write? ==>
      && Past(w.since, writes[..i]) && Past(w.base, writes[..i])
      && w.after == FileSeen(first, writes, w.base)[w.install := w.entry]
  }

  ghost predicate HistoryInv(first: File, writes: seq<Write>) {
    forall i :: 0 <= i < |writes| ==> WriteOk(first, writes, i)
  }

  ghost predicate SaveOk(first: File, writes: seq<Write>, save: Save) {
    && Past(save.since, writes)
    && (save.Loaded? ==> save.current == LoadSchedule(FileSeen(first, writes, save.since), save.install))
    && (!save.Loaded? ==>
          && save.schedule.last == LoadSchedule(FileSeen(first, writes, save.since), save.install).last
          && save.schedule.install == save.install && ValidSettings(save.schedule.settings)
          && (save.schedule.next.Some? <==> save.schedule.settings.enabled))
    && (save.Holding? ==> Past(save.base, writes) && save.read == FileSeen(first, writes, save.base))
  }

  ghost predicate SavesInv(s: System) {
    forall id :: id in s.saves ==> SaveOk(s.first, s.writes, s.saves[id])
  }

  /** A listed schedule agrees with the file the tick started from. */
  ghost predicate Listed(s: Schedule, started: File) {
    s.install in started && Loads(started[s.install]) && s == Parse(s.install, started[s.install])
  }

  ghost predicate DistinctInstalls(todo: seq<Schedule>) {
    forall i, j :: 0 <= i < j < |todo| ==> todo[i].install != todo[j].install
  }

  ghost predicate CurrentOk(s: System)
    requires Running(s.phase)
  {
    var p := s.phase;
    && p.tick.now <= p.begun <= s.clock
    && Listed(p.current, p.tick.started) && Due(p.current, p.tick.now)
    && (forall x :: x in p.todo ==> x.install != p.current.install)
  }

  ghost predicate PhaseInv(s: System) {
    var p := s.phase;
    && (!p.Idle? ==>
          && p.tick.now <= s.clock && Past(p.tick.version, s.writes)
          && p.tick.started == FileSeen(s.first, s.writes, p.tick.version)
          && DistinctInstalls(p.todo) && forall x :: x in p.todo ==> Listed(x, p.tick.started))
    && (Running(p) ==> CurrentOk(s))
    && (p.Recording? ==>
          && p.begun <= p.ended <= s.clock
          && p.base.Seen? && Past(p.base, s.writes) && p.read == FileSeen(s.first, s.writes, p.base)
          && HasEntry(p.read, p.current.install))
  }

  lemma FileAtLonger(first: File, writes: seq<Write>, w: Write, v: nat)
    requires v <= |writes|
    ensures FileAt(first, writes + [w], v) == FileAt(first, writes, v)
  {
  }

  lemma HistoryLonger(first: File, writes: seq<Write>, w: Write)
    requires HistoryInv(first, writes)
    requires w.Write? ==>
               && Past(w.since, writes) && Past(w.base, writes)
               && w.after == FileSeen(first, writes, w.base)[w.install := w.entry]
    ensures HistoryInv(first, writes + [w])
  {
    var longer := writes + [w];
    forall i | 0 <= i < |longer| ensures WriteOk(first, longer, i) {
      if longer[i].Write? {
        if i < |writes| {
          assert WriteOk(first, writes, i);
        }
        if longer[i].base.Seen? {
          FileAtLonger(first, writes, w, longer[i].base.version);
        }
      }
    }
  }

  lemma StampsAreOk(s: System)
    requires PhaseInv(s) && s.phase.Recording?
    ensures var w := StampsOf(s.phase);
            && w.Write? && w.since == w.base && w.base.Seen? && Past(w.base, s.writes)
            && w.after == FileSeen(s.first, s.writes, w.base)[w.install := w.entry]
            && w.entry == s.phase.read[w.install].(
                            last := At(s.phase.tick.now),
                            next := At(s.phase.tick.now + Interval(s.phase.current.settings)))
  {
  }

  lemma StepKeepsHistory(s: System, a: Action)
    requires HistoryInv(s.first, s.writes) && SavesInv(s) && PhaseInv(s) && Enabled(s, a)
    ensures Step(s, a).first == s.first && HistoryInv(s.first, Step(s, a).writes)
  {
    if a.SaveWrite? {
      assert SaveOk(s.first, s.writes, s.saves[a.id]);
      HistoryLonger(s.first, s.writes, SaveOf(s.saves[a.id]));
    } else if a.Record? && !a.failing {
      StampsAreOk(s);
      HistoryLonger(s.first, s.writes, StampsOf(s.phase));
    } else if a.LoseFile? {
      HistoryLonger(s.first, s.writes, Wipe);
    }
  }

  /** Writing appends one version and leaves the others. */
  lemma WritesGrow(s: System, a: Action)
    requires Enabled(s, a)
    ensures var s' := Step(s, a);
            && s.writes <= s'.writes && |s'.writes| <= |s.writes| + 1 && s.clock <= s'.clock
            && s'.first == s.first
  {
  }

  lemma SaveOkLonger(first: File, writes: seq<Write>, longer: seq<Write>, save: Save)
    requires SaveOk(first, writes, save) && writes <= longer
    ensures SaveOk(first, longer, save)
  {
    assert FileSeen(first, longer, save.since) == FileSeen(first, writes, save.since);
  }

  lemma StepKeepsSaves(s: System, a: Action)
    requires SavesInv(s) && Enabled(s, a)
    ensures SavesInv(Step(s, a))
  {
    var s' := Step(s, a);
    WritesGrow(s, a);
    forall id | id in s'.saves ensures SaveOk(s'.first, s'.writes, s'.saves[id]) {
      if id in s.saves {
        SaveOkLonger(s.first, s.writes, s'.writes, s.saves[id]);
      }
    }
  }

  lemma TickStartPhase(s: System, a: Action)
    requires PhaseInv(s) && Legal(s, a) && a.TickStart?
    ensures PhaseInv(Step(s, a))
  {
    forall x | x in a.listing ensures Listed(x, Content(s, a.blind)) {
    }
  }

  lemma NextPhase(s: System, a: Action)
    requires PhaseInv(s) && Legal(s, a) && a.Next?
    ensures PhaseInv(Step(s, a))
  {
    TailDistinct(s.phase.todo);
  }

  /** A step that leaves the phase alone, or moves on from a backup. */
  lemma LaterPhase(s: System, a: Action)
    requires PhaseInv(s) && Legal(s, a) && !a.TickStart? && !a.Next?
    ensures PhaseInv(Step(s, a))
  {
    WritesGrow(s, a);
  }

  lemma StepKeepsPhase(s: System, a: Action)
    requires PhaseInv(s) && Legal(s, a)
    ensures PhaseInv(Step(s, a))
  {
    if a.TickStart? {
      TickStartPhase(s, a);
    } else if a.Next? {
      NextPhase(s, a);
    } else {
      LaterPhase(s, a);
    }
  }

  lemma TailDistinct(todo: seq<Schedule>)
    requires DistinctInstalls(todo) && todo != []
    ensures DistinctInstalls(todo[1..]) && todo[0] in todo
    ensures forall x :: x in todo[1..] ==> x.install != todo[0].install && x in todo
    ensures forall x :: x in todo ==> x == todo[0] || x in todo[1..]
  {
    assert todo == [todo[0]] + todo[1..];
    forall i | 1 <= i < |todo| ensures todo[1..][i - 1] == todo[i] && todo[0].install != todo[i].install {
    }
  }

  ghost predicate Inv(s: System) {
    HistoryInv(s.first, s.writes) && SavesInv(s) && PhaseInv(s)
  }

  lemma StepKeepsInv(s: System, a: Action)
    requires Inv(s) && Legal(s, a)
    ensures Inv(Step(s, a))
  {
    StepKeepsHistory(s, a);
    StepKeepsSaves(s, a);
    StepKeepsPhase(s, a);
  }

  /** In every interleaving every version of the file is an earlier one with one entry replaced, every writer
      holds a version it has read, and the scheduler works on true listings. */
  lemma {:induction false} ReachableInv(s: System, actions: seq<Action>)
    requires Inv(s) && Run(s, actions).Some?
    ensures Inv(Run(s, actions).value)
  {
    if actions != [] {
      ReachableInv(s, actions[..|actions| - 1]);
      StepKeepsInv(Run(s, actions[..|actions| - 1]).value, actions[|actions| - 1]);
    }
  }

  lemma BeginInv(file: File, clock: real)
    ensures Inv(Begin(file, clock))
  {
  }

  /** A backup only ever runs for a schedule that was enabled and due in the file the tick started from, and it
      starts no earlier than the tick. */
  lemma OnlyEnabledAtTickStart(file: File, clock: real, actions: seq<Action>)
    requires Exec(file, clock, actions).Some? && Exec(file, clock, actions).value.phase.Backing?
    ensures var p := Exec(file, clock, actions).value.phase;
            && p.current.install in p.tick.started && Loads(p.tick.started[p.current.install])
            && Due(Parse(p.current.install, p.tick.started[p.current.install]), p.tick.now)
            && p.tick.now <= p.begun
  {
    BeginInv(file, clock);
    ReachableInv(Begin(file, clock), actions);
  }
}
