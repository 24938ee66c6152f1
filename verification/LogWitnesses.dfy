/** Runs of the page of LogPages in which it misses an event, and in which it shows one twice. */
module LogWitnesses {
  import opened Wrappers
  import opened EventBus
  import opened Interleavings
  import opened LogSessions
  import opened LogPages
  import opened LogRepeats

  function Nth(e: Event, n: nat): Event {
    e.(seqNo := Some(n))
  }

  // ---------- runs, one step at a time ----------

  ghost predicate Reaches(actions: seq<PageAction>, historySize: nat, w: World) {
    PageExec(actions, historySize) == Some(w)
  }

  lemma ReachesOn(actions: seq<PageAction>, historySize: nat, w: World, a: PageAction, w': World)
    requires Reaches(actions, historySize, w) && PageEnabled(w, a) && w' == PageStep(w, a, historySize)
    ensures Reaches(actions + [a], historySize, w')
  {
    assert (actions + [a])[..|actions|] == actions;
  }

  // ---------- two events fanned out in the opposite order ----------

  /** Each state is the one before with what the step changed. */
  function Subscribed(): System {
    Interleavings.START.(channel := Channel([], 1, {0}, map[0 := []], 0), joinedAt := map[0 := 0],
                         taken := map[0 := []])
  }

  function Connected(): System {
    Subscribed().(sessions := map[0 := Session(0, Replay([], 0, false), 0)])
  }

  function Opened(): World {
    World(Connected(), Page([], 0, Some(0), 0), 0, [])
  }

  function Logged(a: Event, b: Event): System {
    Connected().(channel := Channel([Nth(a, 1), Nth(b, 2)], 3, {0}, map[0 := []], 0), log := [Nth(a, 1), Nth(b, 2)],
                 flights := map[1 := Waiting(Nth(a, 1)), 2 := Waiting(Nth(b, 2))])
  }

  /** The second event has gone through the queue, the first has not been fanned out. */
  function SecondTaken(a: Event, b: Event): System {
    Logged(a, b).(flights := map[1 := Waiting(Nth(a, 1)), 2 := Fanning(Nth(b, 2), {})],
                  entered := {(0, 2)}, taken := map[0 := [Nth(b, 2)]])
  }

  function SecondShown(a: Event, b: Event): World {
    World(SecondTaken(a, b), Page([Nth(b, 2)], 2, Some(0), 1), 0, [])
  }

  lemma Opens(historySize: nat)
    ensures Reaches([Bus(Subscribe(0)), Open(0, false)], historySize, Opened())
  {
    var w := FIRST.(sys := Subscribed());
    assert Join(Interleavings.START.channel, 0) == Subscribed().channel;
    assert [] + [Bus(Subscribe(0))] == [Bus(Subscribe(0))];
    ReachesOn([], historySize, FIRST, Bus(Subscribe(0)), w);
    assert LogPages.PageStep(w, Open(0, false), historySize).sys == Connected();
    ReachesOn([Bus(Subscribe(0))], historySize, w, Open(0, false), Opened());
    assert [Bus(Subscribe(0))] + [Open(0, false)] == [Bus(Subscribe(0)), Open(0, false)];
  }

  function FirstLogged(a: Event): System {
    Connected().(channel := Channel([Nth(a, 1)], 2, {0}, map[0 := []], 0), log := [Nth(a, 1)],
                 flights := map[1 := Waiting(Nth(a, 1))])
  }

  lemma LogsFirst(a: Event, historySize: nat)
    requires a.seqNo.None? && historySize > 0
    ensures Interleavings.Step(Connected(), Log(a), historySize) == FirstLogged(a)
  {
    assert [] + [Nth(a, 1)] == [Nth(a, 1)];
  }

  lemma LogsSecond(a: Event, b: Event, historySize: nat)
    requires b.seqNo.None? && historySize > 1
    ensures Interleavings.Step(FirstLogged(a), Log(b), historySize) == Logged(a, b)
  {
    assert [Nth(a, 1)] + [Nth(b, 2)] == [Nth(a, 1), Nth(b, 2)];
  }

  function SecondFanning(a: Event, b: Event): System {
    Logged(a, b).(flights := map[1 := Waiting(Nth(a, 1)), 2 := Fanning(Nth(b, 2), {0})])
  }

  function SecondQueued(a: Event, b: Event): System {
    Logged(a, b).(channel := Logged(a, b).channel.(queues := map[0 := [Nth(b, 2)]]),
                  flights := map[1 := Waiting(Nth(a, 1)), 2 := Fanning(Nth(b, 2), {})], entered := {(0, 2)})
  }

  lemma FansSecond(a: Event, b: Event, historySize: nat)
    ensures Interleavings.Enabled(Logged(a, b), StartFanout(2))
    ensures Interleavings.Step(Logged(a, b), StartFanout(2), historySize) == SecondFanning(a, b)
  {
    assert Absent(Logged(a, b).channel, 2) == {};
  }

  lemma QueuesSecond(a: Event, b: Event, historySize: nat)
    ensures Interleavings.Enabled(SecondFanning(a, b), Put(2, 0))
    ensures Interleavings.Step(SecondFanning(a, b), Put(2, 0), historySize) == SecondQueued(a, b)
  {
    assert [] + [Nth(b, 2)] == [Nth(b, 2)];
    assert {0} - {0} == {};
  }

  lemma TakesSecond(a: Event, b: Event, historySize: nat)
    ensures Interleavings.Enabled(SecondQueued(a, b), Take(0))
    ensures Interleavings.Step(SecondQueued(a, b), Take(0), historySize) == SecondTaken(a, b)
  {
    assert [Nth(b, 2)][1..] == [] && [] + [Nth(b, 2)] == [Nth(b, 2)];
  }

  lemma SecondSent(a: Event, b: Event)
    ensures Sent(SecondTaken(a, b), 0) == [Nth(b, 2)]
  {
    LiveSnoc([], Nth(b, 2), 0);
    assert [] + [Nth(b, 2)] == [Nth(b, 2)];
  }

  /** The event with number 2 reaches the page first: it is out of line. */
  lemma ShowsSecond(a: Event, b: Event, historySize: nat)
    ensures var w := Opened().(sys := SecondTaken(a, b));
            && PageEnabled(w, Deliver) && OutOfLine(w, Deliver)
            && PageStep(w, Deliver, historySize) == SecondShown(a, b)
  {
    SecondSent(a, b);
    assert [] + [Nth(b, 2)] == [Nth(b, 2)];
  }

  function Reversing(a: Event, b: Event): seq<PageAction> {
    [Bus(Subscribe(0)), Open(0, false)] + [Bus(Log(a))] + [Bus(Log(b))] + [Bus(StartFanout(2))] + [Bus(Put(2, 0))]
    + [Bus(Take(0))]
  }

  lemma ReversingReaches(a: Event, b: Event, historySize: nat)
    requires a.seqNo.None? && b.seqNo.None? && historySize > 1
    ensures Reaches(Reversing(a, b), historySize, Opened().(sys := SecondTaken(a, b)))
  {
    var w := Opened();
    var start := [Bus(Subscribe(0)), Open(0, false)];
    Opens(historySize);
    LogsFirst(a, historySize);
    ReachesOn(start, historySize, w, Bus(Log(a)), w.(sys := FirstLogged(a)));
    LogsSecond(a, b, historySize);
    ReachesOn(start + [Bus(Log(a))], historySize, w.(sys := FirstLogged(a)), Bus(Log(b)), w.(sys := Logged(a, b)));
    FansSecond(a, b, historySize);
    var logged := start + [Bus(Log(a))] + [Bus(Log(b))];
    ReachesOn(logged, historySize, w.(sys := Logged(a, b)), Bus(StartFanout(2)), w.(sys := SecondFanning(a, b)));
    QueuesSecond(a, b, historySize);
    ReachesOn(logged + [Bus(StartFanout(2))], historySize, w.(sys := SecondFanning(a, b)), Bus(Put(2, 0)),
              w.(sys := SecondQueued(a, b)));
    TakesSecond(a, b, historySize);
    ReachesOn(logged + [Bus(StartFanout(2))] + [Bus(Put(2, 0))], historySize, w.(sys := SecondQueued(a, b)),
              Bus(Take(0)), w.(sys := SecondTaken(a, b)));
  }

  // ---------- an event the page misses ----------

  function Rejoined(a: Event, b: Event): System {
    var s := SecondTaken(a, b);
    s.(channel := s.channel.(subscribers := {0, 1}, queues := map[0 := [], 1 := []]),
       joinedAt := map[0 := 0, 1 := 2], taken := map[0 := [Nth(b, 2)], 1 := []])
  }

  function Reopened(a: Event, b: Event): World {
    World(Rejoined(a, b).(sessions := map[0 := Session(0, Replay([], 0, false), 0),
                                          1 := Session(2, Replay([], 2, false), 2)]),
          Page([Nth(b, 2)], 2, Some(1), 0), 0, [Nth(b, 2)])
  }

  lemma Rejoins(a: Event, b: Event, historySize: nat)
    ensures Interleavings.Enabled(SecondTaken(a, b), Subscribe(1))
    ensures Interleavings.Step(SecondTaken(a, b), Subscribe(1), historySize) == Rejoined(a, b)
  {
    assert {0} + {1} == {0, 1};
  }

  lemma NothingAfterTwo(a: Event, b: Event)
    ensures ReplayFrom([Nth(a, 1), Nth(b, 2)], 2) == Replay([], 2, false)
  {
    var log := [Nth(a, 1), Nth(b, 2)];
    forall i | 0 <= i < |log| ensures SeqOrZero(log[i]) <= 2 {
    }
    AfterNone(log, 2);
  }

  lemma Reopens(a: Event, b: Event, historySize: nat)
    ensures var w := SecondShown(a, b).(sys := Rejoined(a, b));
            PageEnabled(w, Open(1, true)) && PageStep(w, Open(1, true), historySize) == Reopened(a, b)
  {
    NothingAfterTwo(a, b);
    assert Rejoined(a, b).sessions[1 := Session(2, Replay([], 2, false), 2)] == Reopened(a, b).sys.sessions;
  }

  /** A page that got number 2 first and reconnects from there: two events are logged, the page has the second only,
      and its new session sends nothing. */
  lemma PageMissesAnEvent(a: Event, b: Event, historySize: nat) returns (actions: seq<PageAction>)
    requires a.seqNo.None? && b.seqNo.None? && historySize > 1
    ensures Reaches(actions, historySize, Reopened(a, b))
    ensures |actions| > |Reversing(a, b)| && actions[|Reversing(a, b)|] == Deliver
    ensures OutOfLineAt(actions, historySize, |Reversing(a, b)|)
    ensures var w := Reopened(a, b);
            && w.sys.log == [Nth(a, 1), Nth(b, 2)] && w.page.held == [Nth(b, 2)] && w.page.lastSeq == 2
            && w.page.socket == Some(1) && Sent(w.sys, 1) == []
  {
    var before := Reversing(a, b);
    ReversingReaches(a, b, historySize);
    ShowsSecond(a, b, historySize);
    ReachesOn(before, historySize, Opened().(sys := SecondTaken(a, b)), Deliver, SecondShown(a, b));
    Rejoins(a, b, historySize);
    var w := SecondShown(a, b).(sys := Rejoined(a, b));
    ReachesOn(before + [Deliver], historySize, SecondShown(a, b), Bus(Subscribe(1)), w);
    Reopens(a, b, historySize);
    ReachesOn(before + [Deliver] + [Bus(Subscribe(1))], historySize, w, Open(1, true), Reopened(a, b));
    actions := before + [Deliver] + [Bus(Subscribe(1))] + [Open(1, true)];
    assert actions[..|before|] == before;
  }

  // ---------- an event the page shows twice ----------

  function FirstFanning(a: Event, b: Event): System {
    SecondTaken(a, b).(flights := map[1 := Fanning(Nth(a, 1), {0}), 2 := Fanning(Nth(b, 2), {})])
  }

  function FirstQueued(a: Event, b: Event): System {
    SecondTaken(a, b).(channel := Logged(a, b).channel.(queues := map[0 := [Nth(a, 1)]]),
                       flights := map[1 := Fanning(Nth(a, 1), {}), 2 := Fanning(Nth(b, 2), {})],
                       entered := {(0, 2), (0, 1)})
  }

  function BothTaken(a: Event, b: Event): System {
    FirstQueued(a, b).(channel := Logged(a, b).channel, taken := map[0 := [Nth(b, 2), Nth(a, 1)]])
  }

  function BothShown(a: Event, b: Event): World {
    World(BothTaken(a, b), Page([Nth(b, 2), Nth(a, 1)], 1, Some(0), 2), 0, [])
  }

  lemma FansFirst(a: Event, b: Event, historySize: nat)
    ensures Interleavings.Enabled(SecondTaken(a, b), StartFanout(1))
    ensures Interleavings.Step(SecondTaken(a, b), StartFanout(1), historySize) == FirstFanning(a, b)
  {
    assert Absent(SecondTaken(a, b).channel, 1) == {};
  }

  lemma QueuesFirst(a: Event, b: Event, historySize: nat)
    ensures Interleavings.Enabled(FirstFanning(a, b), Put(1, 0))
    ensures Interleavings.Step(FirstFanning(a, b), Put(1, 0), historySize) == FirstQueued(a, b)
  {
    assert [] + [Nth(a, 1)] == [Nth(a, 1)];
    assert {0} - {0} == {};
  }

  lemma TakesFirst(a: Event, b: Event, historySize: nat)
    ensures Interleavings.Enabled(FirstQueued(a, b), Take(0))
    ensures Interleavings.Step(FirstQueued(a, b), Take(0), historySize) == BothTaken(a, b)
  {
    assert [Nth(a, 1)][1..] == [] && [Nth(b, 2)] + [Nth(a, 1)] == [Nth(b, 2), Nth(a, 1)];
  }

  lemma BothSent(a: Event, b: Event)
    ensures Sent(BothTaken(a, b), 0) == [Nth(b, 2), Nth(a, 1)]
  {
    LiveSnoc([], Nth(b, 2), 0);
    LiveSnoc([Nth(b, 2)], Nth(a, 1), 0);
    assert [] + [Nth(b, 2)] == [Nth(b, 2)] && [Nth(b, 2)] + [Nth(a, 1)] == [Nth(b, 2), Nth(a, 1)];
  }

  lemma ShowsFirst(a: Event, b: Event, historySize: nat)
    ensures var w := SecondShown(a, b).(sys := BothTaken(a, b));
            PageEnabled(w, Deliver) && PageStep(w, Deliver, historySize) == BothShown(a, b)
  {
    BothSent(a, b);
    assert [Nth(b, 2)] + [Nth(a, 1)] == [Nth(b, 2), Nth(a, 1)];
  }

  function Returned(a: Event, b: Event): System {
    var s := BothTaken(a, b);
    s.(channel := s.channel.(subscribers := {0, 1}, queues := map[0 := [], 1 := []]),
       joinedAt := map[0 := 0, 1 := 2], taken := map[0 := [Nth(b, 2), Nth(a, 1)], 1 := []])
  }

  function BackFromOne(a: Event, b: Event): World {
    World(Returned(a, b).(sessions := map[0 := Session(0, Replay([], 0, false), 0),
                                          1 := Session(1, Replay([Nth(b, 2)], 2, false), 2)]),
          Page([Nth(b, 2), Nth(a, 1)], 1, Some(1), 0), 0, [Nth(b, 2), Nth(a, 1)])
  }

  lemma Returns(a: Event, b: Event, historySize: nat)
    ensures Interleavings.Enabled(BothTaken(a, b), Subscribe(1))
    ensures Interleavings.Step(BothTaken(a, b), Subscribe(1), historySize) == Returned(a, b)
  {
    assert {0} + {1} == {0, 1};
  }

  lemma SecondAfterOne(a: Event, b: Event)
    ensures ReplayFrom([Nth(a, 1), Nth(b, 2)], 1) == Replay([Nth(b, 2)], 2, false)
  {
    var log := [Nth(a, 1), Nth(b, 2)];
    AfterSnoc([Nth(a, 1)], Nth(b, 2), 1);
    AfterNone([Nth(a, 1)], 1);
    assert log == [Nth(a, 1)] + [Nth(b, 2)] && [] + [Nth(b, 2)] == [Nth(b, 2)];
  }

  lemma ReopensFromOne(a: Event, b: Event, historySize: nat)
    ensures var w := BothShown(a, b).(sys := Returned(a, b));
            PageEnabled(w, Open(1, true)) && PageStep(w, Open(1, true), historySize) == BackFromOne(a, b)
  {
    SecondAfterOne(a, b);
    assert Returned(a, b).sessions[1 := Session(1, Replay([Nth(b, 2)], 2, false), 2)] == BackFromOne(a, b).sys.sessions;
  }

  lemma SecondComesAgain(a: Event, b: Event, historySize: nat)
    ensures var w := BackFromOne(a, b);
            && PageEnabled(w, Deliver) && Repeats(w, Deliver)
            && PageStep(w, Deliver, historySize).page.held == [Nth(b, 2), Nth(a, 1), Nth(b, 2)]
  {
    assert Sent(BackFromOne(a, b).sys, 1) == [Nth(b, 2)];
    assert [Nth(b, 2), Nth(a, 1)][0].seqNo == Some(2);
  }

  function ThenFirst(a: Event, b: Event): seq<PageAction> {
    Reversing(a, b) + [Deliver] + [Bus(StartFanout(1))] + [Bus(Put(1, 0))] + [Bus(Take(0))] + [Deliver]
  }

  lemma ThenFirstReaches(a: Event, b: Event, historySize: nat)
    requires a.seqNo.None? && b.seqNo.None? && historySize > 1
    ensures Reaches(ThenFirst(a, b), historySize, BothShown(a, b))
  {
    var before, w := Reversing(a, b) + [Deliver], SecondShown(a, b);
    ReversingReaches(a, b, historySize);
    ShowsSecond(a, b, historySize);
    ReachesOn(Reversing(a, b), historySize, Opened().(sys := SecondTaken(a, b)), Deliver, w);
    FansFirst(a, b, historySize);
    ReachesOn(before, historySize, w, Bus(StartFanout(1)), w.(sys := FirstFanning(a, b)));
    QueuesFirst(a, b, historySize);
    ReachesOn(before + [Bus(StartFanout(1))], historySize, w.(sys := FirstFanning(a, b)), Bus(Put(1, 0)),
              w.(sys := FirstQueued(a, b)));
    TakesFirst(a, b, historySize);
    ReachesOn(before + [Bus(StartFanout(1))] + [Bus(Put(1, 0))], historySize, w.(sys := FirstQueued(a, b)),
              Bus(Take(0)), w.(sys := BothTaken(a, b)));
    ShowsFirst(a, b, historySize);
    ReachesOn(before + [Bus(StartFanout(1))] + [Bus(Put(1, 0))] + [Bus(Take(0))], historySize,
              w.(sys := BothTaken(a, b)), Deliver, BothShown(a, b));
  }

  /** A page that got 2 and then 1 remembers 1, and after a reconnect it has 2 twice. */
  lemma PageRepeatsAnEvent(a: Event, b: Event, historySize: nat) returns (actions: seq<PageAction>)
    requires a.seqNo.None? && b.seqNo.None? && historySize > 1
    ensures PageExec(actions, historySize).Some?
    ensures PageExec(actions, historySize).value.page.held == [Nth(b, 2), Nth(a, 1), Nth(b, 2)]
  {
    var before, w := ThenFirst(a, b), BothShown(a, b);
    ThenFirstReaches(a, b, historySize);
    Returns(a, b, historySize);
    ReachesOn(before, historySize, w, Bus(Subscribe(1)), w.(sys := Returned(a, b)));
    ReopensFromOne(a, b, historySize);
    var joined := before + [Bus(Subscribe(1))];
    ReachesOn(joined, historySize, w.(sys := Returned(a, b)), Open(1, true), BackFromOne(a, b));
    SecondComesAgain(a, b, historySize);
    ReachesOn(joined + [Open(1, true)], historySize, BackFromOne(a, b), Deliver,
              PageStep(BackFromOne(a, b), Deliver, historySize));
    actions := joined + [Open(1, true)] + [Deliver];
  }
}
