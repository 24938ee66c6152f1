/** Interleavings on one install's channel of the event bus: publishers that append under the lock and fan
    out later, subscribers that come and go, and web-socket sessions that replay and then follow their queue. */
module Interleavings {
  import opened Wrappers
  import opened EventBus

  /** Where a publisher stands with one appended event. */
  datatype Flight =
    | Waiting(e: Event)
    | Fanning(e: Event, todo: set<nat>)
    | Dropping(e: Event, todo: set<nat>, q: nat)

  /** A connection: its queue was subscribed first, then the history was read when `at` events were logged. */
  datatype Session = Session(since: nat, replay: Replay, at: nat)

  datatype System = System(
    channel: Channel,
    log: seq<Event>,
    flights: map<nat, Flight>,        // by the number of the event
    joinedAt: map<nat, nat>,          // by queue: events logged when it was subscribed
    taken: map<nat, seq<Event>>,      // by queue: what its consumer has taken out
    entered: set<(nat, nat)>,         // (queue, number): the event entered the queue
    lost: set<(nat, nat)>,            // (queue, number): the event was dropped there
    missed: set<(nat, nat)>,          // (queue, number): the queue had left when the event was fanned out
    sessions: map<nat, Session>)      // by queue

  datatype Action =
    | Log(e: Event)
    | StartFanout(n: nat)
    | Put(n: nat, q: nat)
    | PutNotice(n: nat)
    | EndFanout(n: nat)
    | Subscribe(q: nat)
    | Unsubscribe(q: nat)
    | Connect(q: nat, since: nat)
    | Take(q: nat)

  predicate Enabled(s: System, a: Action) {
    match a
    case Log(e) => e.seqNo.None?
    case StartFanout(n) => n in s.flights && s.flights[n].Waiting?
    case Put(n, q) => n in s.flights && s.flights[n].Fanning? && q in s.flights[n].todo && q in s.channel.queues
    case PutNotice(n) => n in s.flights && s.flights[n].Dropping? && s.flights[n].q in s.channel.queues
    case EndFanout(n) => n in s.flights && s.flights[n].Fanning? && s.flights[n].todo == {}
    case Subscribe(q) => q !in s.channel.queues
    case Unsubscribe(q) => true
    case Connect(q, _) => q in s.channel.queues && q !in s.sessions
    case Take(q) => q in s.channel.queues && q in s.taken && s.channel.queues[q] != []
  }

  /** The queues that have left, each with an event that is fanned out now. */
  function Absent(c: Channel, n: nat): set<(nat, nat)> {
    set q | q in c.queues.Keys - c.subscribers :: (q, n)
  }

  function Step(s: System, a: Action, historySize: nat): System
    requires Enabled(s, a)
  {
    var c := s.channel;
    match a
    case Log(e) =>
      var numbered := Numbered(c, e);
      s.(channel := Append(c, e, historySize),
         log := s.log + [numbered],
         flights := s.flights[SeqOrZero(numbered) := Waiting(numbered)])
    case StartFanout(n) =>
      s.(flights := s.flights[n := Fanning(s.flights[n].e, c.subscribers)], missed := s.missed + Absent(c, n))
    case Put(n, q) =>
      var f := s.flights[n];
      if HasRoom(c, q) then
        s.(channel := Offer(c, q, f.e),
           entered := s.entered + {(q, n)},
           flights := s.flights[n := Fanning(f.e, f.todo - {q})])
      else
        s.(channel := Offer(c, q, f.e),
           lost := s.lost + {(q, n)},
           flights := s.flights[n := Dropping(f.e, f.todo - {q}, q)])
    case PutNotice(n) =>
      var f := s.flights[n];
      s.(channel := Notify(c, f.q, f.e.install),
         flights := s.flights[n := Fanning(f.e, f.todo)])
    case EndFanout(n) =>
      s.(flights := s.flights - {n})
    case Subscribe(q) =>
      s.(channel := Join(c, q), joinedAt := s.joinedAt[q := |s.log|], taken := s.taken[q := []])
    case Unsubscribe(q) =>
      s.(channel := Leave(c, q))
    case Connect(q, since) =>
      s.(sessions := s.sessions[q := Session(since, ReplayFrom(c.history, since), |s.log|)])
    case Take(q) =>
      s.(channel := c.(queues := c.queues[q := c.queues[q][1..]]),
         taken := s.taken[q := s.taken[q] + [c.queues[q][0]]])
  }

  const START: System := System(Channel([], 1, {}, map[], 0), [], map[], map[], map[], {}, {}, {}, map[])

  function Exec(actions: seq<Action>, historySize: nat): Option<System> {
    if actions == [] then Some(START)
    else
      var before := Exec(actions[..|actions| - 1], historySize);
      var last := actions[|actions| - 1];
      if before.Some? && Enabled(before.value, last) then Some(Step(before.value, last, historySize)) else None
  }

  // ---------- the invariant, part by part ----------

  /** The history is the last events of a log numbered 1, 2, 3 and so on. */
  ghost predicate LogInv(s: System, historySize: nat) {
    && Consecutive(s.log)
    && s.channel.nextSeq == |s.log| + 1
    && s.channel.history == LastN(s.log, historySize)
  }

  ghost predicate QueueInv(s: System) {
    && s.channel.queues.Keys == s.joinedAt.Keys == s.taken.Keys
    && s.channel.subscribers <= s.channel.queues.Keys
    && (forall q :: q in s.joinedAt ==> s.joinedAt[q] <= |s.log|)
  }

  /** Entered and lost are disjoint, and the drop counter counts the lost. */
  ghost predicate CountInv(s: System) {
    && (forall p :: p in s.entered || p in s.lost ==> p.0 in s.channel.queues && 1 <= p.1 <= |s.log|)
    && s.entered !! s.lost
    && s.channel.dropped == |s.lost|
  }

  predicate Pending(s: System, q: nat, n: nat) {
    n in s.flights && (s.flights[n].Waiting? || q in s.flights[n].todo)
  }

  ghost predicate FlightOk(s: System, n: nat)
    requires n in s.flights
  {
    && 1 <= n <= |s.log| && s.flights[n].e == s.log[n - 1]
    && (!s.flights[n].Waiting? ==> s.flights[n].todo <= s.channel.queues.Keys)
    && (s.flights[n].Dropping? ==> (s.flights[n].q, n) in s.lost)
  }

  ghost predicate FlightInv(s: System) {
    forall n :: n in s.flights ==> FlightOk(s, n)
  }

  /** For one queue an event is in flight, entered or lost, never two of these. */
  ghost predicate OneFate(s: System) {
    forall q: nat, n: nat :: Pending(s, q, n) ==> (q, n) !in s.entered && (q, n) !in s.lost
  }

  /** And every event logged since a queue joined is one of the three, or was fanned out after the queue had left. */
  ghost predicate SomeFate(s: System) {
    forall q: nat, n: nat :: q in s.joinedAt && s.joinedAt[q] < n <= |s.log| ==> HasFate(s, q, n)
  }

  predicate HasFate(s: System, q: nat, n: nat) {
    Pending(s, q, n) || (q, n) in s.entered || (q, n) in s.lost || (q, n) in s.missed
  }

  /** A queue that left does not come back. */
  ghost predicate MissedInv(s: System) {
    forall p :: p in s.missed ==> p.0 in s.channel.queues && p.0 !in s.channel.subscribers
  }

  /** What went through a queue so far: taken out, then still inside. */
  function Through(s: System, q: nat): seq<Event>
    requires q in s.channel.queues && q in s.taken
  {
    s.taken[q] + s.channel.queues[q]
  }

  /** `events` holds the log events with the given numbers, each once, and possibly drop notices. */
  ghost predicate Carries(events: seq<Event>, log: seq<Event>, numbers: iset<nat>) {
    && (forall i :: 0 <= i < |events| && events[i].seqNo.Some? ==>
          1 <= events[i].seqNo.value <= |log| && events[i] == log[events[i].seqNo.value - 1]
          && events[i].seqNo.value in numbers)
    && (forall i, j :: 0 <= i < j < |events| && events[i].seqNo.Some? ==> events[i].seqNo != events[j].seqNo)
    && (forall n :: n in numbers ==> exists i :: 0 <= i < |events| && events[i].seqNo == Some(n))
  }

  ghost function EnteredNumbers(s: System, q: nat): iset<nat> {
    iset n | (q, n) in s.entered
  }

  ghost predicate ThroughInv(s: System)
    requires QueueInv(s)
  {
    forall q :: q in s.channel.queues ==> Carries(Through(s, q), s.log, EnteredNumbers(s, q))
  }

  ghost predicate SessionOk(s: System, historySize: nat, q: nat)
    requires q in s.sessions
  {
    && q in s.joinedAt
    && s.joinedAt[q] <= s.sessions[q].at <= |s.log|
    && s.sessions[q].replay == ReplayFrom(LastN(s.log[..s.sessions[q].at], historySize), s.sessions[q].since)
  }

  ghost predicate SessionInv(s: System, historySize: nat) {
    forall q :: q in s.sessions ==> SessionOk(s, historySize, q)
  }

  ghost predicate Inv(s: System, historySize: nat) {
    && LogInv(s, historySize) && QueueInv(s) && CountInv(s) && FlightInv(s) && OneFate(s) && SomeFate(s) && MissedInv(s)
    && ThroughInv(s) && SessionInv(s, historySize)
  }

  // ---------- every step keeps it ----------

  lemma CarriesLonger(events: seq<Event>, log: seq<Event>, numbers: iset<nat>, e: Event)
    requires Carries(events, log, numbers)
    ensures Carries(events, log + [e], numbers)
  {
  }

  lemma CarriesOneMore(events: seq<Event>, log: seq<Event>, numbers: iset<nat>, n: nat)
    requires Carries(events, log, numbers) && 1 <= n <= |log| && n !in numbers && log[n - 1].seqNo == Some(n)
    ensures Carries(events + [log[n - 1]], log, numbers + iset{n})
  {
    var more := events + [log[n - 1]];
    forall m | m in numbers + iset{n} ensures exists i :: 0 <= i < |more| && more[i].seqNo == Some(m) {
      if m == n {
        assert more[|events|].seqNo == Some(m);
      } else {
        var i :| 0 <= i < |events| && events[i].seqNo == Some(m);
        assert more[i].seqNo == Some(m);
      }
    }
  }

  lemma CarriesNotice(events: seq<Event>, log: seq<Event>, numbers: iset<nat>, notice: Event)
    requires Carries(events, log, numbers) && notice.seqNo.None?
    ensures Carries(events + [notice], log, numbers)
  {
    var more := events + [notice];
    forall m | m in numbers ensures exists i :: 0 <= i < |more| && more[i].seqNo == Some(m) {
      var i :| 0 <= i < |events| && events[i].seqNo == Some(m);
      assert more[i].seqNo == Some(m);
    }
  }

  lemma StepKeepsLog(s: System, a: Action, historySize: nat)
    requires LogInv(s, historySize) && Enabled(s, a)
    ensures LogInv(Step(s, a, historySize), historySize)
  {
    if a.Log? {
      LastNSnoc(s.log, Numbered(s.channel, a.e), historySize);
    }
  }

  lemma StepKeepsQueues(s: System, a: Action, historySize: nat)
    requires QueueInv(s) && Enabled(s, a)
    ensures QueueInv(Step(s, a, historySize))
  {
  }

  lemma StepKeepsCounts(s: System, a: Action, historySize: nat)
    requires CountInv(s) && FlightInv(s) && OneFate(s) && Enabled(s, a)
    ensures CountInv(Step(s, a, historySize))
  {
    if a.Put? {
      assert Pending(s, a.q, a.n) && FlightOk(s, a.n);
      CardAdd(s.lost, (a.q, a.n));
    }
  }

  lemma CardAdd<T>(s: set<T>, x: T)
    requires x !in s
    ensures |s + {x}| == |s| + 1
  {
  }

  lemma FlightAfter(s: System, a: Action, historySize: nat, n: nat)
    requires Enabled(s, a) && n in Step(s, a, historySize).flights
    requires s.channel.nextSeq == |s.log| + 1 && s.channel.subscribers <= s.channel.queues.Keys
    requires n in s.flights ==> FlightOk(s, n)
    ensures FlightOk(Step(s, a, historySize), n)
  {
  }

  lemma StepKeepsFlights(s: System, a: Action, historySize: nat)
    requires LogInv(s, historySize) && QueueInv(s) && FlightInv(s) && Enabled(s, a)
    ensures FlightInv(Step(s, a, historySize))
  {
    forall n | n in Step(s, a, historySize).flights ensures FlightOk(Step(s, a, historySize), n) {
      FlightAfter(s, a, historySize, n);
    }
  }

  /** Only logging makes an event pending, and a put ends it for its queue. */
  lemma PendingBefore(s: System, a: Action, historySize: nat, q: nat, n: nat)
    requires Enabled(s, a) && Pending(Step(s, a, historySize), q, n)
    requires s.channel.nextSeq == |s.log| + 1
    ensures Pending(s, q, n) || (a.Log? && n == |s.log| + 1)
    ensures a.Put? ==> (q, n) != (a.q, a.n)
  {
  }

  /** A pending event stays pending for a queue until it enters it, is lost there or is fanned out without it. */
  lemma PendingAfter(s: System, a: Action, historySize: nat, q: nat, n: nat)
    requires Enabled(s, a) && Pending(s, q, n)
    requires s.channel.nextSeq == |s.log| + 1 && q in s.channel.queues
    ensures HasFate(Step(s, a, historySize), q, n)
  {
    if a.StartFanout? && a.n == n && q !in s.channel.subscribers {
      assert (q, n) in Absent(s.channel, n);
    }
  }

  lemma StepKeepsOneFate(s: System, a: Action, historySize: nat)
    requires LogInv(s, historySize) && CountInv(s) && OneFate(s) && Enabled(s, a)
    ensures OneFate(Step(s, a, historySize))
  {
    var s' := Step(s, a, historySize);
    forall q: nat, n: nat | Pending(s', q, n) ensures (q, n) !in s'.entered && (q, n) !in s'.lost {
      PendingBefore(s, a, historySize, q, n);
    }
  }

  lemma StepKeepsSomeFate(s: System, a: Action, historySize: nat)
    requires LogInv(s, historySize) && SomeFate(s) && QueueInv(s) && Enabled(s, a)
    ensures SomeFate(Step(s, a, historySize))
  {
    var s' := Step(s, a, historySize);
    forall q: nat, n: nat | q in s'.joinedAt && s'.joinedAt[q] < n <= |s'.log| ensures HasFate(s', q, n) {
      FateAfter(s, a, historySize, q, n);
    }
  }

  lemma FateAfter(s: System, a: Action, historySize: nat, q: nat, n: nat)
    requires Enabled(s, a) && s.channel.nextSeq == |s.log| + 1 && s.joinedAt.Keys == s.channel.queues.Keys
    requires q in s.joinedAt && s.joinedAt[q] < n <= |s.log| ==> HasFate(s, q, n)
    requires var s' := Step(s, a, historySize); q in s'.joinedAt && s'.joinedAt[q] < n <= |s'.log|
    ensures HasFate(Step(s, a, historySize), q, n)
  {
    if a.Log? && n == |s.log| + 1 {
    } else if Pending(s, q, n) {
      PendingAfter(s, a, historySize, q, n);
    }
  }

  lemma StepKeepsMissed(s: System, a: Action, historySize: nat)
    requires QueueInv(s) && MissedInv(s) && Enabled(s, a)
    ensures MissedInv(Step(s, a, historySize))
  {
  }

  lemma SessionAfter(s: System, a: Action, historySize: nat, q: nat)
    requires Enabled(s, a) && s.channel.history == LastN(s.log, historySize)
    requires q in s.channel.queues ==> q in s.joinedAt && s.joinedAt[q] <= |s.log|
    requires q in s.sessions ==> SessionOk(s, historySize, q) && q in s.channel.queues
    requires q in Step(s, a, historySize).sessions
    ensures SessionOk(Step(s, a, historySize), historySize, q)
  {
    var s' := Step(s, a, historySize);
    if a.Connect? && a.q == q {
      assert s.log[..|s.log|] == s.log;
    } else {
      assert s'.log[..s.sessions[q].at] == s.log[..s.sessions[q].at];
    }
  }

  lemma StepKeepsSessions(s: System, a: Action, historySize: nat)
    requires LogInv(s, historySize) && QueueInv(s) && SessionInv(s, historySize) && Enabled(s, a)
    ensures SessionInv(Step(s, a, historySize), historySize)
  {
    var s' := Step(s, a, historySize);
    forall q | q in s'.sessions ensures SessionOk(s', historySize, q) {
      SessionAfter(s, a, historySize, q);
    }
  }

  lemma PutIsPending(s: System, a: Action, historySize: nat)
    requires LogInv(s, historySize) && FlightInv(s) && OneFate(s) && Enabled(s, a) && a.Put?
    ensures 1 <= a.n <= |s.log| && s.flights[a.n].e == s.log[a.n - 1]
    ensures s.log[a.n - 1].seqNo == Some(a.n) && (a.q, a.n) !in s.entered
  {
    assert Pending(s, a.q, a.n) && FlightOk(s, a.n);
  }

  lemma FreshQueueCarries(s: System, a: Action, historySize: nat, q: nat)
    requires Enabled(s, a) && a.Subscribe? && a.q == q && forall n :: (q, n) !in s.entered
    ensures var s' := Step(s, a, historySize); Carries(Through(s', q), s'.log, EnteredNumbers(s', q))
  {
    assert Through(Step(s, a, historySize), q) == [];
  }

  lemma NothingEnteredBefore(s: System, q: nat, n: nat)
    requires QueueInv(s) && CountInv(s) && q !in s.channel.queues
    ensures (q, n) !in s.entered
  {
  }

  lemma StepKeepsThrough(s: System, a: Action, historySize: nat)
    requires LogInv(s, historySize) && QueueInv(s) && CountInv(s) && FlightInv(s) && OneFate(s) && ThroughInv(s)
    requires Enabled(s, a) && QueueInv(Step(s, a, historySize))
    ensures ThroughInv(Step(s, a, historySize))
  {
    var s' := Step(s, a, historySize);
    if a.Put? {
      PutIsPending(s, a, historySize);
    }
    forall q | q in s'.channel.queues ensures Carries(Through(s', q), s'.log, EnteredNumbers(s', q)) {
      if a.Subscribe? && q == a.q {
        forall n: nat ensures (q, n) !in s.entered {
          NothingEnteredBefore(s, q, n);
        }
        FreshQueueCarries(s, a, historySize, q);
      } else {
        ThroughAfter(s, a, historySize, q);
      }
    }
  }

  lemma ThroughAfter(s: System, a: Action, historySize: nat, q: nat)
    requires Enabled(s, a) && q in s.channel.queues && q in s.taken && !(a.Subscribe? && q == a.q)
    requires Carries(Through(s, q), s.log, EnteredNumbers(s, q))
    requires a.Put? ==> 1 <= a.n <= |s.log| && s.flights[a.n].e == s.log[a.n - 1]
                        && s.log[a.n - 1].seqNo == Some(a.n) && (a.q, a.n) !in s.entered
    ensures var s' := Step(s, a, historySize);
            Carries(Through(s', q), s'.log, EnteredNumbers(s', q))
  {
    var s' := Step(s, a, historySize);
    var before := Through(s, q);
    var numbers := EnteredNumbers(s, q);
    if a.Put? && a.q == q && HasRoom(s.channel, q) {
      assert Through(s', q) == before + [s.log[a.n - 1]];
      assert EnteredNumbers(s', q) == numbers + iset{a.n};
      CarriesOneMore(before, s.log, numbers, a.n);
    } else {
      assert EnteredNumbers(s', q) == numbers;
      if a.PutNotice? && s.flights[a.n].q == q && HasRoom(s.channel, q) {
        var notice := Event(s.flights[a.n].e.install, DropNotice(s.channel.dropped), None);
        assert Through(s', q) == before + [notice];
        CarriesNotice(before, s.log, numbers, notice);
      } else {
        assert Through(s', q) == before;
        if a.Log? {
          CarriesLonger(before, s.log, numbers, Numbered(s.channel, a.e));
        }
      }
    }
  }

  lemma StepKeeps(s: System, a: Action, historySize: nat)
    requires Inv(s, historySize) && Enabled(s, a)
    ensures Inv(Step(s, a, historySize), historySize)
  {
    StepKeepsLog(s, a, historySize);
    StepKeepsQueues(s, a, historySize);
    StepKeepsCounts(s, a, historySize);
    StepKeepsFlights(s, a, historySize);
    StepKeepsOneFate(s, a, historySize);
    StepKeepsSomeFate(s, a, historySize);
    StepKeepsMissed(s, a, historySize);
    StepKeepsThrough(s, a, historySize);
    StepKeepsSessions(s, a, historySize);
  }

  /** Every reachable state satisfies the invariant. */
  lemma {:induction false} ReachableInv(actions: seq<Action>, historySize: nat)
    requires Exec(actions, historySize).Some?
    ensures Inv(Exec(actions, historySize).value, historySize)
  {
    if actions != [] {
      ReachableInv(actions[..|actions| - 1], historySize);
      StepKeeps(Exec(actions[..|actions| - 1], historySize).value, actions[|actions| - 1], historySize);
    }
  }

  // ---------- conservation ----------

  /** How many times an event was offered to a queue. */
  function Offers(actions: seq<Action>): nat {
    if actions == [] then 0
    else Offers(actions[..|actions| - 1]) + if actions[|actions| - 1].Put? then 1 else 0
  }

  lemma OfferCounted(s: System, a: Action, historySize: nat)
    requires CountInv(s) && OneFate(s) && Enabled(s, a)
    ensures var s' := Step(s, a, historySize);
            |s'.entered| + s'.channel.dropped == |s.entered| + s.channel.dropped + if a.Put? then 1 else 0
  {
    if a.Put? {
      assert Pending(s, a.q, a.n);
      CardAdd(s.entered, (a.q, a.n));
    }
  }

  /** Every offer ended in the queue or in the drop counter, and none in both. */
  lemma {:induction false} OffersConserved(actions: seq<Action>, historySize: nat)
    requires Exec(actions, historySize).Some?
    ensures var s := Exec(actions, historySize).value;
            Offers(actions) == |s.entered| + s.channel.dropped
  {
    if actions != [] {
      var init, last := actions[..|actions| - 1], actions[|actions| - 1];
      OffersConserved(init, historySize);
      ReachableInv(init, historySize);
      OfferCounted(Exec(init, historySize).value, last, historySize);
    }
  }

  // ---------- queue order ----------

  /** Two publishers can fan out in the opposite order of their numbers. */
  lemma QueueOrderCanReverse(a: Event, b: Event, historySize: nat)
    requires a.seqNo.None? && b.seqNo.None?
    ensures var s1 := Step(START, Subscribe(0), historySize);
            var s2 := Step(Step(s1, Log(a), historySize), Log(b), historySize);
            && Enabled(s2, StartFanout(2))
            && var s3 := Step(s2, StartFanout(2), historySize);
            && Enabled(s3, Put(2, 0))
            && var s4 := Step(s3, Put(2, 0), historySize);
            && Enabled(s4, StartFanout(1))
            && var s5 := Step(s4, StartFanout(1), historySize);
            && Enabled(s5, Put(1, 0))
            && Step(s5, Put(1, 0), historySize).channel.queues[0] == [b.(seqNo := Some(2)), a.(seqNo := Some(1))]
  {
    var s1 := Step(START, Subscribe(0), historySize);
    assert s1.channel.queues[0] == [] && 0 in s1.channel.subscribers;
    var s2 := Step(Step(s1, Log(a), historySize), Log(b), historySize);
    assert s2.flights[1] == Waiting(a.(seqNo := Some(1))) && s2.flights[2] == Waiting(b.(seqNo := Some(2)));
    var s4 := Step(Step(s2, StartFanout(2), historySize), Put(2, 0), historySize);
    assert s4.channel.queues[0] == [b.(seqNo := Some(2))];
  }
}
