/** The page that shows an install's log, over any number of web-socket sessions: it handles every message of the
    session it last opened, remembers the last number, and opens the next session from there. */
module LogPages {
  import opened Wrappers
  import opened EventBus
  import opened Interleavings
  import opened LogSessions

  /** What the server sends; drop notices are shown but carry no number and are not part of `held`. */
  datatype Message = Reset | Carry(e: Event)

  /** `held` are the numbered events on the page, `got` how many messages of the session on `socket` it handled. */
  datatype Page = Page(held: seq<Event>, lastSeq: nat, socket: Option<nat>, got: nat)

  /** `begin` counts the events logged before the ones the page means to show; `kept` are those of `held` that were on
      the page already when it opened its session. */
  datatype World = World(sys: System, page: Page, begin: nat, kept: seq<Event>)

  datatype PageAction =
    | Bus(a: Action)
    | Open(q: nat, keep: bool)       // `keep` is a reconnect; any other opening clears the page
    | Deliver

  function Head(s: System, q: nat): nat
    requires q in s.sessions
  {
    if s.sessions[q].replay.reset then 1 else 0
  }

  function StreamLength(s: System, q: nat): nat
    requires q in s.sessions && q in s.taken
  {
    Head(s, q) + |Sent(s, q)|
  }

  function MessageAt(s: System, q: nat, i: nat): Message
    requires q in s.sessions && q in s.taken && i < StreamLength(s, q)
  {
    if i < Head(s, q) then Reset else Carry(Sent(s, q)[i - Head(s, q)])
  }

  function Handle(p: Page, m: Message): Page {
    match m
    case Reset => p.(held := [], lastSeq := 0, got := p.got + 1)
    case Carry(e) =>
      if e.seqNo.Some? then p.(held := p.held + [e], lastSeq := e.seqNo.value, got := p.got + 1)
      else p.(got := p.got + 1)
  }

  /** Where the replay of a session starts in the log. */
  function StartOf(s: System, q: nat, historySize: nat): nat
    requires q in s.sessions
  {
    ReplayStart(s.sessions[q].at, historySize, s.sessions[q].since)
  }

  predicate CanDeliver(w: World) {
    w.page.socket.Some? &&
    var q := w.page.socket.value;
    q in w.sys.sessions && q in w.sys.taken && w.page.got < StreamLength(w.sys, q)
  }

  predicate PageEnabled(w: World, a: PageAction) {
    match a
    case Bus(b) => Enabled(w.sys, b)
    case Open(q, _) => Enabled(w.sys, Connect(q, w.page.lastSeq))
    case Deliver => CanDeliver(w)
  }

  function PageStep(w: World, a: PageAction, historySize: nat): World
    requires PageEnabled(w, a)
  {
    match a
    case Bus(b) => w.(sys := Step(w.sys, b, historySize))
    case Open(q, keep) =>
      var since := w.page.lastSeq;
      World(Step(w.sys, Connect(q, since), historySize),
            Page(if keep then w.page.held else [], since, Some(q), 0),
            if since == 0 then ReplayStart(|w.sys.log|, historySize, 0) else if keep then w.begin else since,
            if keep then w.page.held else [])
    case Deliver =>
      var q := w.page.socket.value;
      var m := MessageAt(w.sys, q, w.page.got);
      w.(page := Handle(w.page, m),
         begin := if m.Reset? then StartOf(w.sys, q, historySize) else w.begin,
         kept := if m.Reset? then [] else w.kept)
  }

  const FIRST: World := World(Interleavings.START, Page([], 0, None, 0), 0, [])

  function PageExec(actions: seq<PageAction>, historySize: nat): Option<World> {
    if actions == [] then Some(FIRST)
    else
      var before := PageExec(actions[..|actions| - 1], historySize);
      var last := actions[|actions| - 1];
      if before.Some? && PageEnabled(before.value, last) then Some(PageStep(before.value, last, historySize)) else None
  }

  // ---------- a page without gaps and repetitions ----------

  /** The number of the event that should come next. */
  function Expected(w: World): nat {
    w.begin + |w.page.held| + 1
  }

  /** The page holds every event from `begin` on, once each and in number order. */
  ghost predicate Complete(w: World) {
    var p := w.page;
    && w.begin + |p.held| <= |w.sys.log|
    && p.held == w.sys.log[w.begin..w.begin + |p.held|]
    && (p.lastSeq == w.begin + |p.held| || (p.held == [] && p.lastSeq == 0))
  }

  /** How far the page is in its session: before the reset, within the replay, or past it. */
  ghost predicate Placed(w: World, historySize: nat) {
    w.page.socket.Some? ==>
      var s, q := w.sys, w.page.socket.value;
      && q in s.sessions && q in s.taken && w.page.got <= StreamLength(s, q)
      && (w.page.got >= Head(s, q) ==>
            var i := w.page.got - Head(s, q);
            && (i <= |s.sessions[q].replay.events| ==>
                  w.begin + |w.page.held| == StartOf(s, q, historySize) + i)
            && (i > |s.sessions[q].replay.events| ==> w.begin + |w.page.held| >= s.sessions[q].at))
  }

  predicate PastReplay(w: World) {
    CanDeliver(w) &&
    w.page.got >= Head(w.sys, w.page.socket.value) + |w.sys.sessions[w.page.socket.value].replay.events|
  }

  /** The message to handle next, once past the replay. */
  function NextSent(w: World): Event
    requires PastReplay(w)
  {
    Sent(w.sys, w.page.socket.value)[w.page.got - Head(w.sys, w.page.socket.value)]
  }

  /** The message to handle next is a numbered event the queue brought, not the replay. */
  predicate NextIsLive(w: World) {
    PastReplay(w) && NextSent(w).seqNo.Some?
  }

  function NextNumber(w: World): nat
    requires NextIsLive(w)
  {
    NextSent(w).seqNo.value
  }

  /** An event the queue brings has another number than the one expected. */
  predicate OutOfLine(w: World, a: PageAction) {
    a.Deliver? && NextIsLive(w) && NextNumber(w) != Expected(w)
  }

  // ---------- the sessions underneath ----------

  lemma LiveSnoc(events: seq<Event>, e: Event, newest: nat)
    ensures Live(events + [e], newest) == Live(events, newest) + if Passes(e, newest) then [e] else []
  {
    assert (events + [e])[..|events|] == events;
  }

  /** What was sent stays sent. */
  lemma SentGrows(s: System, a: Action, historySize: nat, q: nat)
    requires QueueInv(s) && Enabled(s, a) && q in s.sessions && q in s.taken
    ensures var s' := Step(s, a, historySize);
            && q in s'.sessions && q in s'.taken && s'.sessions[q] == s.sessions[q] && Sent(s, q) <= Sent(s', q)
  {
    if a.Take? && a.q == q {
      LiveSnoc(s.taken[q], s.channel.queues[q][0], s.sessions[q].replay.newest);
    }
  }

  lemma LogGrows(s: System, a: Action, historySize: nat)
    requires Enabled(s, a)
    ensures s.log <= Step(s, a, historySize).log
  {
  }

  lemma {:induction false} LiveIsTaken(events: seq<Event>, newest: nat, e: Event)
    requires e in Live(events, newest)
    ensures e in events && Passes(e, newest)
  {
    if e !in Live(events[..|events| - 1], newest) {
      assert e == events[|events| - 1];
    } else {
      LiveIsTaken(events[..|events| - 1], newest, e);
    }
  }

  /** What a later part of the proof needs of the bus. */
  ghost predicate SessionFacts(s: System, historySize: nat, q: nat)
    requires q in s.sessions && q in s.taken
  {
    var start, session := StartOf(s, q, historySize), s.sessions[q];
    && Consecutive(s.log) && start <= session.at <= |s.log|
    && session.replay.events == s.log[start..session.at] && session.replay.newest == session.at
    && NumbersDistinct(Sent(s, q))
    && forall e :: e in s.taken[q] && e.seqNo.Some? ==> IsLogged(e, s.log)
  }

  predicate IsLogged(e: Event, log: seq<Event>) {
    e.seqNo.Some? && 1 <= e.seqNo.value <= |log| && e == log[e.seqNo.value - 1]
  }

  lemma TakenIsLogged(s: System, q: nat)
    requires q in s.taken && q in s.channel.queues && Carries(Through(s, q), s.log, EnteredNumbers(s, q))
    ensures forall e :: e in s.taken[q] && e.seqNo.Some? ==> IsLogged(e, s.log)
  {
    forall i | 0 <= i < |s.taken[q]| && s.taken[q][i].seqNo.Some? ensures IsLogged(s.taken[q][i], s.log) {
      assert Through(s, q)[i] == s.taken[q][i];
    }
  }

  lemma FactsHold(s: System, historySize: nat, q: nat)
    requires Inv(s, historySize) && historySize > 0 && q in s.sessions && q in s.taken
    ensures SessionFacts(s, historySize, q)
  {
    SentOnce(s, q, historySize);
    SessionReplay(s, q, historySize);
    TakenIsLogged(s, q);
  }

  lemma LiveWasTaken(s: System, q: nat, i: nat)
    requires q in s.sessions && q in s.taken && |s.sessions[q].replay.events| <= i < |Sent(s, q)|
    ensures Sent(s, q)[i] in s.taken[q] && Passes(Sent(s, q)[i], s.sessions[q].replay.newest)
  {
    LiveIsTaken(s.taken[q], s.sessions[q].replay.newest, Sent(s, q)[i]);
  }

  /** Past the replay every numbered message is an event of the log with a number after the replay. */
  lemma LiveIsLogged(s: System, historySize: nat, q: nat, i: nat)
    requires q in s.sessions && q in s.taken && SessionFacts(s, historySize, q)
    requires |s.sessions[q].replay.events| <= i < |Sent(s, q)| && Sent(s, q)[i].seqNo.Some?
    ensures IsLogged(Sent(s, q)[i], s.log) && Sent(s, q)[i].seqNo.value > s.sessions[q].at
  {
    LiveWasTaken(s, q, i);
  }

  lemma ReplayIsLogged(s: System, historySize: nat, q: nat, i: nat)
    requires q in s.sessions && q in s.taken && SessionFacts(s, historySize, q)
    requires i < |s.sessions[q].replay.events|
    ensures var start := StartOf(s, q, historySize);
            && start + i < s.sessions[q].at && i < |Sent(s, q)|
            && IsLogged(Sent(s, q)[i], s.log) && Sent(s, q)[i].seqNo == Some(start + i + 1)
  {
    assert Sent(s, q)[i] == s.sessions[q].replay.events[i] == s.log[StartOf(s, q, historySize) + i];
  }

  // ---------- every step ----------

  lemma LogGrowsComplete(w: World, sys: System)
    requires Complete(w) && w.sys.log <= sys.log
    ensures Complete(w.(sys := sys))
  {
    assert sys.log[..|w.sys.log|] == w.sys.log;
  }

  lemma BusKeepsPage(w: World, a: Action, historySize: nat)
    requires QueueInv(w.sys) && Complete(w) && Placed(w, historySize) && Enabled(w.sys, a)
    ensures var w' := PageStep(w, Bus(a), historySize); Complete(w') && Placed(w', historySize)
  {
    LogGrows(w.sys, a, historySize);
    LogGrowsComplete(w, Step(w.sys, a, historySize));
    if w.page.socket.Some? {
      SentGrows(w.sys, a, historySize, w.page.socket.value);
    }
  }

  lemma OpenReplay(s: System, q: nat, since: nat, historySize: nat)
    requires LogInv(s, historySize) && historySize > 0 && since <= |s.log| && Enabled(s, Connect(q, since))
    ensures var s' := Step(s, Connect(q, since), historySize);
            && (since > 0 && !s'.sessions[q].replay.reset ==> StartOf(s', q, historySize) == since)
            && (since == 0 ==> !s'.sessions[q].replay.reset
                               && StartOf(s', q, historySize) == ReplayStart(|s.log|, historySize, 0))
  {
    ReplayExactly(s.log, historySize, since);
  }

  lemma OpenKeepsPage(w: World, q: nat, keep: bool, historySize: nat)
    requires LogInv(w.sys, historySize) && QueueInv(w.sys) && historySize > 0
    requires Complete(w) && PageEnabled(w, Open(q, keep))
    ensures var w' := PageStep(w, Open(q, keep), historySize); Complete(w') && Placed(w', historySize)
  {
    OpenReplay(w.sys, q, w.page.lastSeq, historySize);
  }

  /** The page in a session whose replay is a slice of the log. */
  ghost predicate InGoodSession(w: World, historySize: nat) {
    CanDeliver(w) && SessionFacts(w.sys, historySize, w.page.socket.value)
  }

  lemma ResetKeepsPage(w: World, historySize: nat)
    requires InGoodSession(w, historySize) && w.page.got < Head(w.sys, w.page.socket.value)
    ensures var w' := PageStep(w, Deliver, historySize); Complete(w') && Placed(w', historySize)
  {
  }

  lemma AppendedComplete(w: World, e: Event, w': World)
    requires Complete(w) && Consecutive(w.sys.log) && w'.sys == w.sys && w'.begin == w.begin
    requires e.seqNo.Some? && 1 <= e.seqNo.value <= |w.sys.log| && e == w.sys.log[e.seqNo.value - 1]
    requires w'.page == Handle(w.page, Carry(e))
    ensures Complete(w') <==> e.seqNo.value == Expected(w)
  {
    var log, b, n := w.sys.log, w.begin, |w.page.held|;
    if e.seqNo.value == Expected(w) {
      assert log[b..b + n + 1] == log[b..b + n] + [log[b + n]];
    } else if b + n < |log| {
      assert w'.page.held[n] == e && log[b..b + n + 1][n] == log[b + n];
    }
  }

  lemma ReplayPlaced(w: World, w': World, e: Event, historySize: nat)
    requires CanDeliver(w) && Placed(w, historySize) && w'.sys == w.sys && w'.begin == w.begin
    requires var s, q := w.sys, w.page.socket.value;
             Head(s, q) <= w.page.got < Head(s, q) + |s.sessions[q].replay.events|
    requires w'.page == Handle(w.page, Carry(e)) && e.seqNo.Some?
    ensures Placed(w', historySize)
  {
  }

  lemma ReplayKeepsPage(w: World, historySize: nat)
    requires InGoodSession(w, historySize) && Complete(w) && Placed(w, historySize)
    requires var s, q := w.sys, w.page.socket.value;
             Head(s, q) <= w.page.got < Head(s, q) + |s.sessions[q].replay.events|
    ensures var w' := PageStep(w, Deliver, historySize); Complete(w') && Placed(w', historySize)
  {
    var s, q := w.sys, w.page.socket.value;
    var i := w.page.got - Head(s, q);
    MessageIsSent(w);
    ReplayIsLogged(s, historySize, q, i);
    AppendedComplete(w, Sent(s, q)[i], PageStep(w, Deliver, historySize));
    ReplayPlaced(w, PageStep(w, Deliver, historySize), Sent(s, q)[i], historySize);
  }

  lemma MessageIsSent(w: World)
    requires CanDeliver(w) && w.page.got >= Head(w.sys, w.page.socket.value)
    ensures var s, q := w.sys, w.page.socket.value;
            MessageAt(s, q, w.page.got) == Carry(Sent(s, q)[w.page.got - Head(s, q)])
  {
  }

  lemma LivePlaced(w: World, w': World, e: Event, historySize: nat)
    requires CanDeliver(w) && Placed(w, historySize) && w'.sys == w.sys && w'.begin == w.begin
    requires w.page.got >= Head(w.sys, w.page.socket.value) + |w.sys.sessions[w.page.socket.value].replay.events|
    requires StartOf(w.sys, w.page.socket.value, historySize)
             + |w.sys.sessions[w.page.socket.value].replay.events| == w.sys.sessions[w.page.socket.value].at
    requires w'.page == Handle(w.page, Carry(e))
    ensures Placed(w', historySize)
  {
  }

  lemma LiveStep(w: World, historySize: nat)
    requires PastReplay(w)
    ensures var w' := PageStep(w, Deliver, historySize);
            w'.sys == w.sys && w'.begin == w.begin && w'.page == Handle(w.page, Carry(NextSent(w)))
    ensures OutOfLine(w, Deliver) <==> NextSent(w).seqNo.Some? && NextSent(w).seqNo.value != Expected(w)
  {
    MessageIsSent(w);
  }

  lemma LiveComplete(w: World, e: Event, w': World)
    requires Complete(w) && Consecutive(w.sys.log) && w'.sys == w.sys && w'.begin == w.begin
    requires e.seqNo.Some? ==> 1 <= e.seqNo.value <= |w.sys.log| && e == w.sys.log[e.seqNo.value - 1]
    requires w'.page == Handle(w.page, Carry(e))
    ensures Complete(w') <==> (e.seqNo.Some? ==> e.seqNo.value == Expected(w))
  {
    if e.seqNo.Some? {
      AppendedComplete(w, e, w');
    }
  }

  /** A number the queue brings is that of a logged event after the replay. */
  ghost predicate NextIsLogged(w: World)
    requires PastReplay(w)
  {
    var e := NextSent(w);
    e.seqNo.Some? ==> IsLogged(e, w.sys.log) && e.seqNo.value > w.sys.sessions[w.page.socket.value].at
  }

  predicate ReplayMeets(s: System, q: nat, historySize: nat)
    requires q in s.sessions
  {
    StartOf(s, q, historySize) + |s.sessions[q].replay.events| == s.sessions[q].at
  }

  lemma NextFacts(w: World, historySize: nat)
    requires InGoodSession(w, historySize) && PastReplay(w)
    ensures NextIsLogged(w) && Consecutive(w.sys.log) && ReplayMeets(w.sys, w.page.socket.value, historySize)
    ensures NumbersDistinct(Sent(w.sys, w.page.socket.value))
  {
    if NextSent(w).seqNo.Some? {
      LiveIsLogged(w.sys, historySize, w.page.socket.value, w.page.got - Head(w.sys, w.page.socket.value));
    }
  }

  lemma LiveKeepsPageExactly(w: World, historySize: nat)
    requires PastReplay(w) && Complete(w) && Placed(w, historySize)
    requires NextIsLogged(w) && Consecutive(w.sys.log) && ReplayMeets(w.sys, w.page.socket.value, historySize)
    ensures var w' := PageStep(w, Deliver, historySize);
            (Complete(w') <==> !OutOfLine(w, Deliver)) && Placed(w', historySize)
  {
    var w' := PageStep(w, Deliver, historySize);
    LiveStep(w, historySize);
    LivePlaced(w, w', NextSent(w), historySize);
    LiveComplete(w, NextSent(w), w');
  }

  /** A step leaves a complete page complete exactly when it is not an event out of line. */
  lemma PageStepExactly(w: World, a: PageAction, historySize: nat)
    requires Inv(w.sys, historySize) && historySize > 0 && Complete(w) && Placed(w, historySize) && PageEnabled(w, a)
    ensures var w' := PageStep(w, a, historySize);
            && (Complete(w') <==> !OutOfLine(w, a))
            && (Complete(w') ==> Placed(w', historySize))
  {
    match a
    case Bus(b) => BusKeepsPage(w, b, historySize);
    case Open(q, keep) => OpenKeepsPage(w, q, keep, historySize);
    case Deliver =>
      var s, q := w.sys, w.page.socket.value;
      FactsHold(s, historySize, q);
      if w.page.got < Head(s, q) {
        ResetKeepsPage(w, historySize);
      } else if w.page.got < Head(s, q) + |s.sessions[q].replay.events| {
        ReplayKeepsPage(w, historySize);
      } else {
        NextFacts(w, historySize);
        LiveKeepsPageExactly(w, historySize);
      }
  }

  lemma PageStepKeepsBus(w: World, a: PageAction, historySize: nat)
    requires Inv(w.sys, historySize) && PageEnabled(w, a)
    ensures Inv(PageStep(w, a, historySize).sys, historySize)
  {
    match a
    case Bus(b) => StepKeeps(w.sys, b, historySize);
    case Open(q, keep) => StepKeeps(w.sys, Connect(q, w.page.lastSeq), historySize);
    case Deliver =>
  }

  lemma {:induction false} BusInv(actions: seq<PageAction>, historySize: nat)
    requires PageExec(actions, historySize).Some?
    ensures Inv(PageExec(actions, historySize).value.sys, historySize)
  {
    if actions != [] {
      BusInv(actions[..|actions| - 1], historySize);
      PageStepKeepsBus(PageExec(actions[..|actions| - 1], historySize).value, actions[|actions| - 1], historySize);
    } else {
      ReachableInv([], historySize);
    }
  }

  // ---------- whole runs ----------

  lemma {:induction false} PagePrefix(actions: seq<PageAction>, historySize: nat, n: nat)
    requires PageExec(actions, historySize).Some? && n <= |actions|
    ensures PageExec(actions[..n], historySize).Some?
  {
    if n == |actions| {
      assert actions[..n] == actions;
    } else {
      assert actions[..|actions| - 1][..n] == actions[..n];
      PagePrefix(actions[..|actions| - 1], historySize, n);
    }
  }

  /** What the first `n` steps lead to. */
  ghost function At(actions: seq<PageAction>, historySize: nat, n: nat): World
    requires PageExec(actions, historySize).Some? && n <= |actions|
  {
    PagePrefix(actions, historySize, n);
    PageExec(actions[..n], historySize).value
  }

  lemma AtNext(actions: seq<PageAction>, historySize: nat, n: nat)
    requires PageExec(actions, historySize).Some? && n < |actions|
    ensures PageEnabled(At(actions, historySize, n), actions[n])
    ensures At(actions, historySize, n + 1) == PageStep(At(actions, historySize, n), actions[n], historySize)
  {
    PagePrefix(actions, historySize, n + 1);
    assert actions[..n + 1][..n] == actions[..n];
  }

  lemma AtKeepsBus(actions: seq<PageAction>, historySize: nat, n: nat)
    requires PageExec(actions, historySize).Some? && n <= |actions|
    ensures Inv(At(actions, historySize, n).sys, historySize)
  {
    PagePrefix(actions, historySize, n);
    BusInv(actions[..n], historySize);
  }

  lemma AtEnds(actions: seq<PageAction>, historySize: nat)
    requires PageExec(actions, historySize).Some?
    ensures At(actions, historySize, 0) == FIRST
    ensures At(actions, historySize, |actions|) == PageExec(actions, historySize).value
  {
    assert actions[..0] == [] && actions[..|actions|] == actions;
  }

  ghost predicate CompleteAt(actions: seq<PageAction>, historySize: nat, n: nat)
    requires PageExec(actions, historySize).Some? && n <= |actions|
  {
    Complete(At(actions, historySize, n))
  }

  ghost predicate OutOfLineAt(actions: seq<PageAction>, historySize: nat, n: nat)
    requires PageExec(actions, historySize).Some? && n < |actions|
  {
    OutOfLine(At(actions, historySize, n), actions[n])
  }

  ghost predicate Fine(w: World, historySize: nat) {
    Complete(w) && Placed(w, historySize)
  }

  lemma FineStep(w: World, a: PageAction, historySize: nat, w': World)
    requires historySize > 0 && Inv(w.sys, historySize) && Fine(w, historySize) && PageEnabled(w, a)
    requires w' == PageStep(w, a, historySize)
    ensures Complete(w') <==> !OutOfLine(w, a)
    ensures Complete(w') ==> Fine(w', historySize)
  {
    PageStepExactly(w, a, historySize);
  }

  lemma {:induction false} InLineIsFine(actions: seq<PageAction>, historySize: nat, n: nat)
    requires historySize > 0 && PageExec(actions, historySize).Some? && n <= |actions|
    requires forall k :: 0 <= k < n ==> !OutOfLineAt(actions, historySize, k)
    ensures Fine(At(actions, historySize, n), historySize)
  {
    if n > 0 {
      InLineIsFine(actions, historySize, n - 1);
      FineNext(actions, historySize, n - 1);
    } else {
      AtEnds(actions, historySize);
    }
  }

  lemma FineNext(actions: seq<PageAction>, historySize: nat, n: nat)
    requires historySize > 0 && PageExec(actions, historySize).Some? && n < |actions|
    requires Fine(At(actions, historySize, n), historySize)
    ensures CompleteAt(actions, historySize, n + 1) <==> !OutOfLineAt(actions, historySize, n)
    ensures CompleteAt(actions, historySize, n + 1) ==> Fine(At(actions, historySize, n + 1), historySize)
  {
    AtNext(actions, historySize, n);
    AtKeepsBus(actions, historySize, n);
    FineStep(At(actions, historySize, n), actions[n], historySize, At(actions, historySize, n + 1));
  }

  ghost predicate CompleteThrough(actions: seq<PageAction>, historySize: nat, n: nat)
    requires PageExec(actions, historySize).Some? && n <= |actions|
  {
    forall k :: 0 <= k <= n ==> CompleteAt(actions, historySize, k)
  }

  lemma {:induction false} CompleteIsFine(actions: seq<PageAction>, historySize: nat, n: nat)
    requires historySize > 0 && PageExec(actions, historySize).Some? && n <= |actions|
    requires CompleteThrough(actions, historySize, n)
    ensures Fine(At(actions, historySize, n), historySize)
  {
    if n > 0 {
      CompleteIsFine(actions, historySize, n - 1);
      FineNext(actions, historySize, n - 1);
    } else {
      AtEnds(actions, historySize);
    }
  }

  lemma CompleteIsInLine(actions: seq<PageAction>, historySize: nat, k: nat)
    requires historySize > 0 && PageExec(actions, historySize).Some? && k < |actions|
    requires CompleteThrough(actions, historySize, |actions|)
    ensures !OutOfLineAt(actions, historySize, k)
  {
    CompleteIsFine(actions, historySize, k);
    FineNext(actions, historySize, k);
  }

  /** Over any number of sessions the page never misses or repeats an event exactly when no queue brings it an
      event out of line. */
  lemma PageCompleteExactly(actions: seq<PageAction>, historySize: nat)
    requires historySize > 0 && PageExec(actions, historySize).Some?
    ensures (forall n :: 0 <= n <= |actions| ==> CompleteAt(actions, historySize, n)) <==>
            (forall n :: 0 <= n < |actions| ==> !OutOfLineAt(actions, historySize, n))
  {
    if forall n :: 0 <= n <= |actions| ==> CompleteAt(actions, historySize, n) {
      forall k | 0 <= k < |actions| ensures !OutOfLineAt(actions, historySize, k) {
        CompleteIsInLine(actions, historySize, k);
      }
    } else if forall n :: 0 <= n < |actions| ==> !OutOfLineAt(actions, historySize, n) {
      forall n | 0 <= n <= |actions| ensures CompleteAt(actions, historySize, n) {
        InLineIsFine(actions, historySize, n);
      }
    }
  }

  // ---------- what an event out of line means ----------

  /** Among the numbers after `at`, the events have exactly those before `expected`. */
  ghost predicate HoldsBefore(events: seq<Event>, at: nat, expected: nat) {
    forall n: nat :: n > at ==> (Holds(events, n) <==> n < expected)
  }

  predicate InSession(w: World) {
    w.page.socket.Some? &&
    var s, q := w.sys, w.page.socket.value;
    q in s.sessions && q in s.taken && Head(s, q) <= w.page.got <= StreamLength(s, q)
  }

  /** The part of what was sent that the page has handled. */
  function Handled(w: World): seq<Event>
    requires InSession(w)
  {
    Sent(w.sys, w.page.socket.value)[..w.page.got - Head(w.sys, w.page.socket.value)]
  }

  function SessionOf(w: World): Session
    requires InSession(w)
  {
    w.sys.sessions[w.page.socket.value]
  }

  /** Past the replay, the numbers handled in this session are those after the replay and before the expected one. */
  ghost predicate Heard(w: World) {
    InSession(w) && |Handled(w)| >= |SessionOf(w).replay.events| ==>
      HoldsBefore(Handled(w), SessionOf(w).at, Expected(w))
  }

  lemma ReplayHeard(s: System, historySize: nat, q: nat)
    requires q in s.sessions && q in s.taken && SessionFacts(s, historySize, q)
    ensures HoldsBefore(s.sessions[q].replay.events, s.sessions[q].at, s.sessions[q].at + 1)
  {
    var events := s.sessions[q].replay.events;
    forall n: nat, i | n > s.sessions[q].at && 0 <= i < |events| ensures events[i].seqNo != Some(n) {
      assert events[i] == s.log[StartOf(s, q, historySize) + i];
    }
  }

  /** At the end of the replay the page expects the first event after it. */
  lemma HeardAfterReplay(w: World, historySize: nat)
    requires Inv(w.sys, historySize) && historySize > 0 && Placed(w, historySize)
    requires InSession(w) && |Handled(w)| == |SessionOf(w).replay.events|
    ensures Heard(w)
  {
    FactsHold(w.sys, historySize, w.page.socket.value);
    HeardAtReplayEnd(w, historySize);
  }

  lemma HeardAtReplayEnd(w: World, historySize: nat)
    requires InSession(w) && |Handled(w)| == |SessionOf(w).replay.events| && Placed(w, historySize)
    requires SessionFacts(w.sys, historySize, w.page.socket.value)
    ensures Heard(w)
  {
    ReplayHeard(w.sys, historySize, w.page.socket.value);
    assert Handled(w) == SessionOf(w).replay.events;
  }

  lemma BusKeepsHandled(w: World, a: Action, historySize: nat)
    requires QueueInv(w.sys) && InSession(w) && Enabled(w.sys, a)
    ensures var w' := PageStep(w, Bus(a), historySize);
            InSession(w') && Handled(w') == Handled(w) && SessionOf(w') == SessionOf(w) && Expected(w') == Expected(w)
  {
    SentGrows(w.sys, a, historySize, w.page.socket.value);
  }

  lemma BusKeepsHeard(w: World, a: Action, historySize: nat)
    requires Inv(w.sys, historySize) && Placed(w, historySize) && Heard(w) && Enabled(w.sys, a)
    ensures Heard(PageStep(w, Bus(a), historySize))
  {
    if InSession(w) {
      BusKeepsHandled(w, a, historySize);
    } else if w.page.socket.Some? {
      SentGrows(w.sys, a, historySize, w.page.socket.value);
    }
  }

  lemma HoldsOneMore(events: seq<Event>, e: Event, at: nat, expected: nat)
    requires HoldsBefore(events, at, expected) && expected > at && (e.seqNo.Some? ==> e.seqNo.value == expected)
    ensures HoldsBefore(events + [e], at, if e.seqNo.Some? then expected + 1 else expected)
  {
    forall n: nat | n > at ensures Holds(events + [e], n) <==> Holds(events, n) || e.seqNo == Some(n) {
      HoldsSnoc(events, e, n);
    }
  }

  lemma LiveKeepsHeard(w: World, historySize: nat)
    requires Heard(w) && PastReplay(w) && !OutOfLine(w, Deliver)
    requires Expected(w) > w.sys.sessions[w.page.socket.value].at
    ensures Heard(PageStep(w, Deliver, historySize))
  {
    var w' := PageStep(w, Deliver, historySize);
    LiveStep(w, historySize);
    assert Handled(w') == Handled(w) + [NextSent(w)];
    HoldsOneMore(Handled(w), NextSent(w), SessionOf(w).at, Expected(w));
  }

  lemma PastReplayExpects(w: World, historySize: nat)
    requires Inv(w.sys, historySize) && historySize > 0 && Placed(w, historySize) && PastReplay(w)
    ensures Expected(w) > w.sys.sessions[w.page.socket.value].at
  {
    FactsHold(w.sys, historySize, w.page.socket.value);
  }

  lemma DeliverKeepsHeard(w: World, historySize: nat)
    requires Inv(w.sys, historySize) && historySize > 0 && Placed(w, historySize) && Heard(w) && CanDeliver(w)
    requires !OutOfLine(w, Deliver) && Placed(PageStep(w, Deliver, historySize), historySize)
    ensures Heard(PageStep(w, Deliver, historySize))
  {
    if PastReplay(w) {
      PastReplayExpects(w, historySize);
      LiveKeepsHeard(w, historySize);
    } else {
      DeliverKeepsBus(w, historySize);
      HeardInReplay(PageStep(w, Deliver, historySize), historySize);
    }
  }

  lemma DeliverKeepsBus(w: World, historySize: nat)
    requires CanDeliver(w) && !PastReplay(w)
    ensures var w' := PageStep(w, Deliver, historySize);
            w'.sys == w.sys && (InSession(w') ==> |Handled(w')| <= |SessionOf(w').replay.events|)
  {
  }

  lemma HeardInReplay(w: World, historySize: nat)
    requires Inv(w.sys, historySize) && historySize > 0 && Placed(w, historySize)
    requires InSession(w) ==> |Handled(w)| <= |SessionOf(w).replay.events|
    ensures Heard(w)
  {
    if InSession(w) && |Handled(w)| == |SessionOf(w).replay.events| {
      HeardAfterReplay(w, historySize);
    }
  }

  lemma OpenKeepsHeard(w: World, q: nat, keep: bool, historySize: nat)
    requires Inv(w.sys, historySize) && historySize > 0 && PageEnabled(w, Open(q, keep))
    requires var w' := PageStep(w, Open(q, keep), historySize); Placed(w', historySize) && Inv(w'.sys, historySize)
    ensures Heard(PageStep(w, Open(q, keep), historySize))
  {
    OpenHandlesNothing(w, q, keep, historySize);
    HeardInReplay(PageStep(w, Open(q, keep), historySize), historySize);
  }

  lemma OpenHandlesNothing(w: World, q: nat, keep: bool, historySize: nat)
    requires PageEnabled(w, Open(q, keep))
    ensures var w' := PageStep(w, Open(q, keep), historySize); InSession(w') ==> Handled(w') == []
  {
  }

  lemma PageStepKeepsHeard(w: World, a: PageAction, historySize: nat)
    requires Inv(w.sys, historySize) && historySize > 0 && Complete(w) && Placed(w, historySize) && Heard(w)
    requires PageEnabled(w, a) && !OutOfLine(w, a)
    ensures Heard(PageStep(w, a, historySize))
  {
    PageStepExactly(w, a, historySize);
    PageStepKeepsBus(w, a, historySize);
    match a
    case Bus(b) => BusKeepsHeard(w, b, historySize);
    case Open(q, keep) => OpenKeepsHeard(w, q, keep, historySize);
    case Deliver => DeliverKeepsHeard(w, historySize);
  }

  lemma HeardStep(w: World, a: PageAction, historySize: nat, w': World)
    requires historySize > 0 && Inv(w.sys, historySize) && Fine(w, historySize) && Heard(w) && PageEnabled(w, a)
    requires w' == PageStep(w, a, historySize) && !OutOfLine(w, a)
    ensures Heard(w')
  {
    PageStepKeepsHeard(w, a, historySize);
  }

  lemma HeardNext(actions: seq<PageAction>, historySize: nat, n: nat)
    requires historySize > 0 && PageExec(actions, historySize).Some? && n < |actions|
    requires Fine(At(actions, historySize, n), historySize) && Heard(At(actions, historySize, n))
    requires !OutOfLineAt(actions, historySize, n)
    ensures Heard(At(actions, historySize, n + 1))
  {
    AtNext(actions, historySize, n);
    AtKeepsBus(actions, historySize, n);
    HeardStep(At(actions, historySize, n), actions[n], historySize, At(actions, historySize, n + 1));
  }

  lemma {:induction false} HeardUpTo(actions: seq<PageAction>, historySize: nat, n: nat)
    requires historySize > 0 && PageExec(actions, historySize).Some? && n <= |actions|
    requires forall k :: 0 <= k < n ==> !OutOfLineAt(actions, historySize, k)
    ensures Heard(At(actions, historySize, n))
  {
    if n > 0 {
      HeardUpTo(actions, historySize, n - 1);
      InLineIsFine(actions, historySize, n - 1);
      HeardNext(actions, historySize, n - 1);
    } else {
      AtEnds(actions, historySize);
    }
  }

  /** All that is known of a run that has been in line so far. */
  lemma InLineSoFar(actions: seq<PageAction>, historySize: nat, w: World)
    requires historySize > 0 && PageExec(actions, historySize) == Some(w)
    requires forall k :: 0 <= k < |actions| ==> !OutOfLineAt(actions, historySize, k)
    ensures Inv(w.sys, historySize) && Placed(w, historySize) && Heard(w)
  {
    AtEnds(actions, historySize);
    InLineIsFine(actions, historySize, |actions|);
    HeardUpTo(actions, historySize, |actions|);
    BusInv(actions, historySize);
  }

  /** The event did not come before the next one because it was dropped at the queue, was fanned out after the queue
      had left, or stands behind it: on its way with a publisher, in the queue, or taken out of it later. */
  ghost predicate Skipped(w: World, n: nat)
    requires PastReplay(w) && w.page.socket.value in w.sys.channel.queues
  {
    var s, q := w.sys, w.page.socket.value;
    Unsent(s, q, n) || Holds(Sent(s, q)[w.page.got - Head(s, q) + 1..], n)
  }

  lemma HoldsSplit(events: seq<Event>, i: nat, n: nat)
    requires i < |events|
    ensures Holds(events, n) <==> Holds(events[..i], n) || events[i].seqNo == Some(n) || Holds(events[i + 1..], n)
  {
    assert events == events[..i] + [events[i]] + events[i + 1..];
    HoldsConcat(events[..i] + [events[i]], events[i + 1..], n);
    HoldsSnoc(events[..i], events[i], n);
  }

  lemma NextNotBefore(w: World)
    requires NextIsLive(w) && Heard(w) && NextIsLogged(w)
    requires NumbersDistinct(Sent(w.sys, w.page.socket.value))
    ensures NextNumber(w) >= Expected(w)
  {
    FreshNumber(Sent(w.sys, w.page.socket.value), w.page.got - Head(w.sys, w.page.socket.value));
    assert !Holds(Handled(w), NextNumber(w));
  }

  lemma NextAtLeastExpected(w: World, historySize: nat)
    requires Inv(w.sys, historySize) && historySize > 0 && NextIsLive(w) && Heard(w)
    ensures NextNumber(w) >= Expected(w) && NextNumber(w) <= |w.sys.log|
  {
    FactsHold(w.sys, historySize, w.page.socket.value);
    NextFacts(w, historySize);
    NextNotBefore(w);
  }

  lemma FreshNumber(sent: seq<Event>, i: nat)
    requires NumbersDistinct(sent) && i < |sent| && sent[i].seqNo.Some?
    ensures !Holds(sent[..i], sent[i].seqNo.value)
  {
    forall j | 0 <= j < i ensures sent[..i][j].seqNo != sent[i].seqNo {
      assert sent[..i][j] == sent[j];
    }
  }

  /** The first event out of line never repeats or falls back: it jumps ahead, over events each of which the queue
      dropped, left too early for, or has behind it. */
  lemma OutOfLineSkips(actions: seq<PageAction>, historySize: nat, m: nat)
    requires historySize > 0 && PageExec(actions, historySize).Some?
    requires forall k :: 0 <= k < |actions| ==> !OutOfLineAt(actions, historySize, k)
    requires var w := PageExec(actions, historySize).value; NextIsLive(w) && Expected(w) <= m < NextNumber(w)
    ensures var w := PageExec(actions, historySize).value;
            w.page.socket.value in w.sys.channel.queues && Skipped(w, m)
  {
    var w := PageExec(actions, historySize).value;
    InLineSoFar(actions, historySize, PageExec(actions, historySize).value);
    SkippedInState(w, historySize, m);
  }

  /** The number has been sent, or it is clear why not. */
  ghost predicate Accounted(s: System, q: nat, n: nat)
    requires q in s.sessions && q in s.taken && q in s.channel.queues
  {
    Holds(Sent(s, q), n) || Unsent(s, q, n)
  }

  lemma NumberAccounted(s: System, historySize: nat, q: nat, n: nat)
    requires Inv(s, historySize) && historySize > 0
    requires q in s.sessions && q in s.taken && s.sessions[q].at < n <= |s.log|
    ensures q in s.channel.queues && Accounted(s, q, n)
  {
    SessionReplay(s, q, historySize);
    NothingMissingNow(s, historySize, q, n);
  }

  lemma AccountedIsSkipped(w: World, m: nat)
    requires NextIsLive(w) && Heard(w) && w.page.socket.value in w.sys.channel.queues
    requires w.sys.sessions[w.page.socket.value].at < Expected(w) <= m < NextNumber(w)
    requires Accounted(w.sys, w.page.socket.value, m)
    ensures Skipped(w, m)
  {
    assert !Holds(Handled(w), m);
    HoldsSplit(Sent(w.sys, w.page.socket.value), w.page.got - Head(w.sys, w.page.socket.value), m);
  }

  lemma SkippedInState(w: World, historySize: nat, m: nat)
    requires Inv(w.sys, historySize) && historySize > 0 && Placed(w, historySize) && Heard(w)
    requires NextIsLive(w) && Expected(w) <= m < NextNumber(w)
    ensures w.page.socket.value in w.sys.channel.queues && Skipped(w, m)
  {
    NextAtLeastExpected(w, historySize);
    PastReplayExpects(w, historySize);
    NumberAccounted(w.sys, historySize, w.page.socket.value, m);
    AccountedIsSkipped(w, m);
  }

  /** As long as the page is complete, the next event the queue brings is at least the expected one. */
  lemma NeverFallsBack(actions: seq<PageAction>, historySize: nat)
    requires historySize > 0 && PageExec(actions, historySize).Some?
    requires forall k :: 0 <= k < |actions| ==> !OutOfLineAt(actions, historySize, k)
    requires NextIsLive(PageExec(actions, historySize).value)
    ensures var w := PageExec(actions, historySize).value; NextNumber(w) >= Expected(w)
  {
    InLineSoFar(actions, historySize, PageExec(actions, historySize).value);
    NextAtLeastExpected(PageExec(actions, historySize).value, historySize);
  }

  /** While the page is complete, the next event the queue brings is out of line exactly when some event logged after
      the replay and before it has not come yet. */
  lemma OutOfLineExactly(actions: seq<PageAction>, historySize: nat)
    requires historySize > 0 && PageExec(actions, historySize).Some?
    requires forall k :: 0 <= k < |actions| ==> !OutOfLineAt(actions, historySize, k)
    requires NextIsLive(PageExec(actions, historySize).value)
    ensures var w := PageExec(actions, historySize).value;
            && InSession(w)
            && (OutOfLine(w, Deliver) <==>
                exists m: nat :: SessionOf(w).at < m < NextNumber(w) && !Holds(Handled(w), m))
  {
    var w := PageExec(actions, historySize).value;
    InLineSoFar(actions, historySize, PageExec(actions, historySize).value);
    NextAtLeastExpected(w, historySize);
    PastReplayExpects(w, historySize);
    if OutOfLine(w, Deliver) {
      assert !Holds(Handled(w), Expected(w));
    }
  }

  /** A session opened from a number, and not reset, sends nothing up to that number: what the page skipped before
      stays missing. */
  lemma SkippedStaysMissing(actions: seq<Action>, historySize: nat, q: nat, m: nat)
    requires historySize > 0 && Exec(actions, historySize).Some?
    requires var s := Exec(actions, historySize).value;
             && q in s.sessions && q in s.taken && !s.sessions[q].replay.reset
             && m <= s.sessions[q].since <= s.sessions[q].at && s.sessions[q].since > 0
    ensures !Holds(Sent(Exec(actions, historySize).value, q), m)
  {
    Interleavings.ReachableInv(actions, historySize);
    NothingUpToSince(Exec(actions, historySize).value, historySize, q, m);
  }

  lemma NothingUpToSince(s: System, historySize: nat, q: nat, m: nat)
    requires historySize > 0 && Inv(s, historySize) && q in s.sessions && q in s.taken
    requires !s.sessions[q].replay.reset && m <= s.sessions[q].since <= s.sessions[q].at && s.sessions[q].since > 0
    ensures !Holds(Sent(s, q), m)
  {
    ReplayAfterSince(s, historySize, q);
    FactsHold(s, historySize, q);
    forall i | 0 <= i < |Sent(s, q)| ensures Sent(s, q)[i].seqNo != Some(m) {
      if i < |s.sessions[q].replay.events| {
        ReplayIsLogged(s, historySize, q, i);
      } else if Sent(s, q)[i].seqNo.Some? {
        LiveIsLogged(s, historySize, q, i);
      }
    }
  }

  lemma ReplayAfterSince(s: System, historySize: nat, q: nat)
    requires SessionInv(s, historySize) && LogInv(s, historySize) && historySize > 0 && q in s.sessions
    requires !s.sessions[q].replay.reset && 0 < s.sessions[q].since <= s.sessions[q].at
    ensures StartOf(s, q, historySize) == s.sessions[q].since
  {
    assert SessionOk(s, historySize, q);
    PrefixConsecutive(s.log, s.sessions[q].at);
    ReplayExactly(s.log[..s.sessions[q].at], historySize, s.sessions[q].since);
  }
}
