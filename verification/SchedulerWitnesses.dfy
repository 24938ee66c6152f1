/** Runs that show the scheduler's bounds to be tight and their conditions to be needed. */
module SchedulerWitnesses {
  import opened Wrappers
  import opened Schedules
  import opened SchedulerRuns
  import opened RunSpacing

  const X: string := "x"
  const Y: string := "y"

  const HOURLY: Settings := Settings(true, 1, Metadata)

  function Row(last: Stamp, next: real): Raw {
    Dict(Some(HOURLY), last, At(next))
  }

  function Plan(install: string, last: Option<real>, next: real): Schedule {
    Schedule(install, HOURLY, last, Some(next))
  }

  lemma TwoNames()
    ensures X != Y
  {
    assert X[0] != Y[0];
  }

  // ---------- runs, one step at a time ----------

  ghost predicate Leads(s: System, actions: seq<Action>, t: System) {
    Run(s, actions) == Some(t)
  }

  lemma LeadsOn(s: System, actions: seq<Action>, t: System, a: Action, next: System)
    requires Leads(s, actions, t) && Legal(t, a) && next == Step(t, a)
    ensures Leads(s, actions + [a], next)
  {
    RunSnoc(s, actions, a);
  }

  lemma LeadsJoin(s: System, a: seq<Action>, t: System, b: seq<Action>, u: System)
    requires Leads(s, a, t) && Leads(t, b, u)
    ensures Leads(s, a + b, u)
  {
    RunConcat(s, a, b);
  }

  // ---------- how close two starts can be ----------

  function DueFile(): File {
    map[X := Row(Missing, 0.0), Y := Row(Missing, 0.0)]
  }

  function RanFile(): File {
    map[X := Row(At(0.0), HOUR), Y := Row(Missing, 0.0)]
  }

  function RanAgainFile(at: real): File {
    map[X := Row(At(at), at + HOUR), Y := Row(Missing, 0.0)]
  }

  function BothDue(): seq<Schedule> {
    [Plan(Y, None, 0.0), Plan(X, None, 0.0)]
  }

  function RanOnce(): seq<Schedule> {
    [Plan(Y, None, 0.0), Plan(X, Some(0.0), HOUR)]
  }

  /** The second backup of a tick waits `d` for the first, which fails. */
  function FirstTick(d: real): seq<Action> {
    [TickStart(BothDue(), false), Next, Advance(d), BackupFails] + [Next, BackupSucceeds(false), Record(false)]
    + [TickEnd]
  }

  function SecondTick(at: real): seq<Action> {
    [Advance(at)] + [TickStart(RanOnce(), false), Next, Advance(at), BackupFails]
    + [Next, BackupSucceeds(false), Record(false)]
  }

  /** A tick whose first backup failed after a wait, and which has one schedule left to look at. */
  function Waited(s: System, listing: seq<Schedule>, wait: real): System
    requires |listing| == 2
  {
    s.(clock := wait, phase := Scanning(Tick(s.clock, Current(s), Seen(|s.writes|)), [listing[1]]),
       starts := s.starts + [Start(listing[0].install, s.clock)])
  }

  /** The end of that tick, its last backup begun and recorded at the clock. */
  function Ran(s: System, now: real, base: File, install: string, after: File): System
    requires install in after
  {
    var w := Write(Seen(|s.writes|), Seen(|s.writes|), install, after[install], after);
    s.(writes := s.writes + [w], phase := Scanning(Tick(now, base, Seen(|s.writes|)), []),
       starts := s.starts + [Start(install, s.clock)],
       successes := s.successes + [Success(install, now, s.clock, s.clock, Some(|s.writes| + 1))])
  }

  function FirstWaited(d: real): System {
    Waited(Begin(DueFile(), 0.0), BothDue(), d)
  }

  function AfterFirst(d: real): System {
    Ran(FirstWaited(d), 0.0, DueFile(), X, RanFile()).(phase := Idle)
  }

  function SecondWaited(d: real, at: real): System {
    Waited(AfterFirst(d).(clock := at), RanOnce(), at)
  }

  function AfterSecond(d: real, at: real): System {
    Ran(SecondWaited(d, at), at, RanFile(), X, RanAgainFile(at))
  }

  lemma ListsBoth()
    ensures IsListing(DueFile(), BothDue()) && IsListing(RanFile(), RanOnce())
  {
    TwoNames();
    assert BothDue()[1] == Plan(X, None, 0.0) && RanOnce()[1] == Plan(X, Some(0.0), HOUR);
    assert BothDue()[0] == Plan(Y, None, 0.0) && RanOnce()[0] == Plan(Y, None, 0.0);
  }

  lemma LastRuns(s: System, tick: Tick, plan: Schedule, after: File)
    requires s.phase == Scanning(tick, [plan]) && Due(plan, tick.now) && HasEntry(Current(s), plan.install)
    requires tick.version == Seen(|s.writes|)
    requires after == RunUpdate(Current(s), plan.install, tick.now, Some(tick.now + Interval(plan.settings)))
    ensures Leads(s, [Next, BackupSucceeds(false), Record(false)], Ran(s, tick.now, tick.started, plan.install, after))
  {
    var s1 := Step(s, Next);
    var s2 := Step(s1, BackupSucceeds(false));
    assert [plan][1..] == [];
    LeadsThrough3(s, Next, s1, BackupSucceeds(false), s2, Record(false));
    assert Step(s2, Record(false)).writes[|s.writes|] == StampsOf(s2.phase);
  }

  lemma LeadsThrough3(s: System, a: Action, s1: System, b: Action, s2: System, c: Action)
    requires Legal(s, a) && s1 == Step(s, a) && Legal(s1, b) && s2 == Step(s1, b) && Legal(s2, c)
    ensures Leads(s, [a, b, c], Step(s2, c))
  {
    assert [] + [a] == [a] && [a] + [b] == [a, b] && [a, b] + [c] == [a, b, c];
    LeadsOn(s, [], s, a, s1);
    LeadsOn(s, [a], s1, b, s2);
    LeadsOn(s, [a, b], s2, c, Step(s2, c));
  }

  lemma FirstFails(s: System, listing: seq<Schedule>, wait: real)
    requires s.phase.Idle? && IsListing(Current(s), listing) && |listing| == 2 && Due(listing[0], s.clock)
    requires s.clock <= wait
    ensures Leads(s, [TickStart(listing, false), Next, Advance(wait), BackupFails], Waited(s, listing, wait))
  {
    var s1 := Step(s, TickStart(listing, false));
    var s2 := Step(s1, Next);
    var s3 := Step(s2, Advance(wait));
    assert listing[1..] == [listing[1]];
    LeadsThrough3(s, TickStart(listing, false), s1, Next, s2, Advance(wait));
    assert [TickStart(listing, false), Next, Advance(wait)] + [BackupFails]
        == [TickStart(listing, false), Next, Advance(wait), BackupFails];
    LeadsOn(s, [TickStart(listing, false), Next, Advance(wait)], s3, BackupFails, Step(s3, BackupFails));
  }

  lemma FirstUpdate()
    ensures RunUpdate(DueFile(), X, 0.0, Some(0.0 + Interval(HOURLY))) == RanFile()
  {
    TwoNames();
  }

  lemma SecondUpdate(at: real)
    ensures RunUpdate(RanFile(), X, at, Some(at + Interval(HOURLY))) == RanAgainFile(at)
  {
    TwoNames();
  }

  lemma FirstOpens(d: real)
    requires d >= 0.0
    ensures Leads(Begin(DueFile(), 0.0), [TickStart(BothDue(), false), Next, Advance(d), BackupFails], FirstWaited(d))
  {
    ListsBoth();
    FirstFails(Begin(DueFile(), 0.0), BothDue(), d);
  }

  lemma FirstCloses(d: real)
    ensures Leads(FirstWaited(d), [Next, BackupSucceeds(false), Record(false)],
                  Ran(FirstWaited(d), 0.0, DueFile(), X, RanFile()))
  {
    FirstUpdate();
    LastRuns(FirstWaited(d), Tick(0.0, DueFile(), Seen(0)), Plan(X, None, 0.0), RanFile());
  }

  /** After the first tick the second schedule has run, `d` later than its tick. */
  lemma FirstTickLeads(d: real)
    requires d >= 0.0
    ensures Leads(Begin(DueFile(), 0.0), FirstTick(d), AfterFirst(d))
  {
    var s, ran := Begin(DueFile(), 0.0), Ran(FirstWaited(d), 0.0, DueFile(), X, RanFile());
    var opening := [TickStart(BothDue(), false), Next, Advance(d), BackupFails];
    var last := [Next, BackupSucceeds(false), Record(false)];
    FirstOpens(d);
    FirstCloses(d);
    LeadsJoin(s, opening, FirstWaited(d), last, ran);
    LeadsOn(s, opening + last, ran, TickEnd, AfterFirst(d));
  }

  lemma CurrentAfterFirst(d: real, at: real)
    ensures Current(AfterFirst(d).(clock := at)) == RanFile() && Current(SecondWaited(d, at)) == RanFile()
    ensures |AfterFirst(d).writes| == 1
  {
  }

  lemma SecondOpens(d: real, at: real)
    requires HOUR <= at
    ensures Leads(AfterFirst(d).(clock := at), [TickStart(RanOnce(), false), Next, Advance(at), BackupFails],
                  SecondWaited(d, at))
  {
    CurrentAfterFirst(d, at);
    ListsBoth();
    FirstFails(AfterFirst(d).(clock := at), RanOnce(), at);
  }

  lemma SecondCloses(d: real, at: real)
    requires HOUR <= at
    ensures Leads(SecondWaited(d, at), [Next, BackupSucceeds(false), Record(false)], AfterSecond(d, at))
  {
    CurrentAfterFirst(d, at);
    SecondUpdate(at);
    LastRuns(SecondWaited(d, at), Tick(at, RanFile(), Seen(1)), Plan(X, Some(0.0), HOUR), RanAgainFile(at));
  }

  lemma SecondTickLeads(d: real, at: real)
    requires d <= at && HOUR <= at
    ensures Leads(AfterFirst(d), SecondTick(at), AfterSecond(d, at))
  {
    var s := AfterFirst(d);
    var opening := [TickStart(RanOnce(), false), Next, Advance(at), BackupFails];
    var last := [Next, BackupSucceeds(false), Record(false)];
    LeadsOn(s, [], s, Advance(at), s.(clock := at));
    assert [] + [Advance(at)] == [Advance(at)];
    SecondOpens(d, at);
    SecondCloses(d, at);
    LeadsJoin(s, [Advance(at)], s.(clock := at), opening, SecondWaited(d, at));
    LeadsJoin(s, [Advance(at)] + opening, SecondWaited(d, at), last, AfterSecond(d, at));
  }

  /** Whatever the delay of the first run, some run comes as close as the bound allows. */
  lemma BoundIsTight(d: real) returns (actions: seq<Action>)
    requires d >= 0.0
    ensures TwoRuns(DueFile(), 0.0, actions, 0, 1)
    ensures var done := Exec(DueFile(), 0.0, actions).value.successes;
            Delay(done[0]) == d && done[1].begun - done[0].begun == Later(0.0, HOUR - d)
  {
    var at := Later(d, HOUR);
    actions := FirstTick(d) + SecondTick(at);
    FirstTickLeads(d);
    SecondTickLeads(d, at);
    LeadsJoin(Begin(DueFile(), 0.0), FirstTick(d), AfterFirst(d), SecondTick(at), AfterSecond(d, at));
    var writes := AfterSecond(d, at).writes;
    assert forall m :: 1 <= m < |writes| ==> WindowStart(writes[m], X) == Seen(1);
  }

  /** Every two runs with this delay of the first begin at least an hour apart. */
  ghost predicate AlwaysAnHour(d: real) {
    forall file: File, clock: real, actions: seq<Action>, i: nat, j: nat ::
      TwoRuns(file, clock, actions, i, j) && Delay(Exec(file, clock, actions).value.successes[i]) == d ==>
        Exec(file, clock, actions).value.successes[j].begun
        - Exec(file, clock, actions).value.successes[i].begun >= HOUR
  }

  /** An hour between the beginnings is certain exactly when the first run did not wait inside its tick. */
  lemma AnHourBetweenStartsExactly(d: real)
    requires d >= 0.0
    ensures AlwaysAnHour(d) <==> d == 0.0
  {
    if d == 0.0 {
      forall file: File, clock: real, actions: seq<Action>, i: nat, j: nat
        | TwoRuns(file, clock, actions, i, j) && Delay(Exec(file, clock, actions).value.successes[i]) == d
        ensures Exec(file, clock, actions).value.successes[j].begun
             - Exec(file, clock, actions).value.successes[i].begun >= HOUR
      {
        RunsAnHourApart(file, clock, actions, i, j);
      }
    } else {
      var actions := BoundIsTight(d);
      assert TwoRuns(DueFile(), 0.0, actions, 0, 1);
    }
  }

  // ---------- a save that overtakes a run ----------

  const NO_CHANGE: Update := Update(None, None, None)

  function OneDue(): File {
    map[X := Row(Missing, 0.0)]
  }

  function OneRan(): File {
    map[X := Row(At(0.0), HOUR)]
  }

  function PlanX(): Schedule {
    Plan(X, None, 0.0)
  }

  function Idling(): Schedule {
    Schedule(Y, DEFAULTS, None, None)
  }

  function BothFile(): File {
    OneDue()[Y := Dump(Idling())]
  }

  /** A save of another install has read the file. */
  function SaveHeld(): System {
    Begin(OneDue(), 0.0).(saves := map[0 := Holding(Y, Idling(), Seen(0), OneDue(), Seen(0))])
  }

  function Ticking(): System {
    SaveHeld().(phase := Scanning(Tick(0.0, OneDue(), Seen(0)), [PlanX()]))
  }

  function RanOver(): System {
    Ran(Ticking(), 0.0, OneDue(), X, OneRan())
  }

  /** The save has written what it read and the next tick has passed the other install over. */
  function DueAgain(): System {
    var s := RanOver();
    s.(writes := s.writes + [SaveOf(SaveHeld().saves[0])], saves := map[],
       phase := Scanning(Tick(0.0, BothFile(), Seen(2)), [PlanX()]))
  }

  function RanTwice(): System {
    Ran(DueAgain(), 0.0, BothFile(), X, BothFile()[X := Row(At(0.0), HOUR)])
  }

  lemma SaveReads()
    ensures Leads(Begin(OneDue(), 0.0), [SaveLoad(0, Y, NO_CHANGE, false), SaveStamp(0), SaveRead(0, false)],
                  SaveHeld())
  {
    var s := Begin(OneDue(), 0.0);
    var s1 := Step(s, SaveLoad(0, Y, NO_CHANGE, false));
    TwoNames();
    assert s1.saves[0] == Loaded(Y, NO_CHANGE, Idling(), Seen(0));
    var s2 := Step(s1, SaveStamp(0));
    assert s2.saves[0] == Stamped(Y, Idling(), Seen(0));
    var s3 := Step(s2, SaveRead(0, false));
    assert s3.saves == SaveHeld().saves;
    LeadsThrough3(s, SaveLoad(0, Y, NO_CHANGE, false), s1, SaveStamp(0), s2, SaveRead(0, false));
  }

  lemma ListsX()
    ensures IsListing(OneDue(), [PlanX()])
  {
    assert [PlanX()][0] == PlanX();
  }

  lemma ListsIdleAndX()
    ensures IsListing(BothFile(), [Idling(), PlanX()])
  {
    TwoNames();
    assert [Idling(), PlanX()][0] == Idling() && [Idling(), PlanX()][1] == PlanX();
  }

  lemma OvertakenRunOpens()
    ensures Leads(SaveHeld(), [TickStart([PlanX()], false)], Ticking())
  {
    ListsX();
    assert [] + [TickStart([PlanX()], false)] == [TickStart([PlanX()], false)];
    LeadsOn(SaveHeld(), [], SaveHeld(), TickStart([PlanX()], false), Ticking());
  }

  lemma XUpdated()
    ensures RunUpdate(OneDue(), X, 0.0, Some(0.0 + Interval(HOURLY))) == OneRan()
    ensures RunUpdate(BothFile(), X, 0.0, Some(0.0 + Interval(HOURLY))) == BothFile()[X := Row(At(0.0), HOUR)]
    ensures HasEntry(OneDue(), X) && HasEntry(BothFile(), X)
  {
    TwoNames();
  }

  lemma OvertakenRunRuns()
    ensures Leads(Ticking(), [Next, BackupSucceeds(false), Record(false)], RanOver())
  {
    XUpdated();
    LastRuns(Ticking(), Tick(0.0, OneDue(), Seen(0)), PlanX(), OneRan());
  }

  lemma SaveOvertakes()
    ensures Leads(RanOver(), [TickEnd, SaveWrite(0), TickStart([Idling(), PlanX()], false)] + [Next], DueAgain())
  {
    var s := RanOver();
    var s1 := Step(s, TickEnd);
    var s2 := Step(s1, SaveWrite(0));
    ListsIdleAndX();
    assert Current(s2) == BothFile() && |s2.writes| == 2;
    assert s2.saves == map[];
    var s3 := Step(s2, TickStart([Idling(), PlanX()], false));
    assert [Idling(), PlanX()][1..] == [PlanX()];
    LeadsThrough3(s, TickEnd, s1, SaveWrite(0), s2, TickStart([Idling(), PlanX()], false));
    LeadsOn(s, [TickEnd, SaveWrite(0), TickStart([Idling(), PlanX()], false)], s3, Next, DueAgain());
  }

  lemma OvertakenRunRunsAgain()
    ensures Leads(DueAgain(), [Next, BackupSucceeds(false), Record(false)], RanTwice())
  {
    XUpdated();
    LastRuns(DueAgain(), Tick(0.0, BothFile(), Seen(2)), PlanX(), BothFile()[X := Row(At(0.0), HOUR)]);
  }

  lemma RanTwiceIs()
    ensures RanTwice().successes == [Success(X, 0.0, 0.0, 0.0, Some(1)), Success(X, 0.0, 0.0, 0.0, Some(3))]
    ensures !NotOvertaken(RanTwice().writes, X, 1)
  {
    TwoNames();
    assert RanTwice().writes[1] == SaveOf(SaveHeld().saves[0]);
  }

  lemma FirstRunLeads(opening: seq<Action>, run: seq<Action>)
    requires opening ==
             [SaveLoad(0, Y, NO_CHANGE, false), SaveStamp(0), SaveRead(0, false)] + [TickStart([PlanX()], false)]
    requires run == [Next, BackupSucceeds(false), Record(false)]
    ensures Leads(Begin(OneDue(), 0.0), opening + run, RanOver())
  {
    SaveReads();
    OvertakenRunOpens();
    OvertakenRunRuns();
    var s, read := Begin(OneDue(), 0.0), [SaveLoad(0, Y, NO_CHANGE, false), SaveStamp(0), SaveRead(0, false)];
    LeadsJoin(s, read, SaveHeld(), [TickStart([PlanX()], false)], Ticking());
    LeadsJoin(s, opening, Ticking(), run, RanOver());
  }

  lemma SecondRunLeads(again: seq<Action>, run: seq<Action>)
    requires again == [TickEnd, SaveWrite(0), TickStart([Idling(), PlanX()], false)] + [Next]
    requires run == [Next, BackupSucceeds(false), Record(false)]
    ensures Leads(RanOver(), again + run, RanTwice())
  {
    SaveOvertakes();
    OvertakenRunRunsAgain();
    LeadsJoin(RanOver(), again, DueAgain(), run, RanTwice());
  }

  /** A save of one install that spans the run of another brings back the entry from before it: the other succeeds
      twice at one moment, its stamps written both times. */
  lemma OvertakenRunRepeats() returns (actions: seq<Action>)
    ensures Exec(OneDue(), 0.0, actions) == Some(RanTwice())
    ensures RanTwice().successes == [Success(X, 0.0, 0.0, 0.0, Some(1)), Success(X, 0.0, 0.0, 0.0, Some(3))]
    ensures !NotOvertaken(RanTwice().writes, X, 1)
  {
    var opening := [SaveLoad(0, Y, NO_CHANGE, false), SaveStamp(0), SaveRead(0, false)] + [TickStart([PlanX()], false)];
    var run := [Next, BackupSucceeds(false), Record(false)];
    var again := [TickEnd, SaveWrite(0), TickStart([Idling(), PlanX()], false)] + [Next];
    FirstRunLeads(opening, run);
    SecondRunLeads(again, run);
    LeadsJoin(Begin(OneDue(), 0.0), opening + run, RanOver(), again + run, RanTwice());
    RanTwiceIs();
    actions := opening + run + (again + run);
  }
}
