/** What a web-socket log session sends its client: the replay of the history, then its queue without what the
    replay already covered. */
module LogSessions {
  import opened Wrappers
  import opened EventBus
  import opened Interleavings

  /** The handler skips queued events the replay already covered; notices carry no number and always pass. */
  predicate Passes(e: Event, newest: nat) {
    e.seqNo.None? || e.seqNo.value > newest
  }

  function Live(events: seq<Event>, newest: nat): seq<Event> {
    if events == [] then []
    else
      var last := events[|events| - 1];
      Live(events[..|events| - 1], newest) + if Passes(last, newest) then [last] else []
  }

  function Sent(s: System, q: nat): seq<Event>
    requires q in s.sessions && q in s.taken
  {
    s.sessions[q].replay.events + Live(s.taken[q], s.sessions[q].replay.newest)
  }

  /** Of what the queue brought, everything newer than the replay is sent on, once each, and every notice. */
  lemma {:induction false} LiveExactly(events: seq<Event>, newest: nat, e: Event)
    ensures multiset(Live(events, newest))[e] ==
            if e.seqNo.None? || e.seqNo.value > newest then multiset(events)[e] else 0
  {
    if events != [] {
      var init, last := events[..|events| - 1], events[|events| - 1];
      LiveExactly(init, newest, e);
      assert events == init + [last];
    }
  }

  ghost predicate NumbersDistinct(events: seq<Event>) {
    forall i, j :: 0 <= i < j < |events| && events[i].seqNo.Some? ==> events[i].seqNo != events[j].seqNo
  }

  ghost predicate Holds(events: seq<Event>, n: nat) {
    exists i :: 0 <= i < |events| && events[i].seqNo == Some(n)
  }

  lemma {:induction false} LiveHolds(events: seq<Event>, newest: nat, n: nat)
    ensures Holds(Live(events, newest), n) <==> Holds(events, n) && n > newest
  {
    if events != [] {
      var init, last := events[..|events| - 1], events[|events| - 1];
      LiveHolds(init, newest, n);
      HoldsSnoc(init, last, n);
      HoldsSnoc(Live(init, newest), last, n);
      assert events == init + [last];
      assert Live(events, newest) == if Passes(last, newest) then Live(init, newest) + [last] else Live(init, newest);
    }
  }

  lemma HoldsSnoc(events: seq<Event>, e: Event, n: nat)
    ensures Holds(events + [e], n) <==> Holds(events, n) || e.seqNo == Some(n)
  {
    var more := events + [e];
    if e.seqNo == Some(n) {
      assert more[|events|].seqNo == Some(n);
    }
    if i :| 0 <= i < |events| && events[i].seqNo == Some(n) {
      assert more[i].seqNo == Some(n);
    }
  }

  lemma {:induction false} LiveDistinct(events: seq<Event>, newest: nat)
    requires NumbersDistinct(events)
    ensures NumbersDistinct(Live(events, newest))
  {
    if events != [] {
      var init, last := events[..|events| - 1], events[|events| - 1];
      LiveDistinct(init, newest);
      if Passes(last, newest) && last.seqNo.Some? {
        LiveHolds(init, newest, last.seqNo.value);
      }
    }
  }

  lemma SentOnce(s: System, q: nat, historySize: nat)
    requires Inv(s, historySize) && historySize > 0 && q in s.sessions && q in s.taken
    ensures NumbersDistinct(Sent(s, q))
  {
    SessionReplay(s, q, historySize);
    assert Carries(Through(s, q), s.log, EnteredNumbers(s, q));
    TakenDistinct(s, q);
    SentDistinct(s, q);
  }

  /** The queue was subscribed before the history was read, and the two overlap; still nothing is sent twice. */
  lemma NothingSentTwice(actions: seq<Action>, historySize: nat, q: nat)
    requires Exec(actions, historySize).Some? && historySize > 0
    requires var s := Exec(actions, historySize).value; q in s.sessions && q in s.taken
    ensures NumbersDistinct(Sent(Exec(actions, historySize).value, q))
  {
    ReachableInv(actions, historySize);
    SentOnce(Exec(actions, historySize).value, q, historySize);
  }

  ghost predicate NumberedUpTo(events: seq<Event>, newest: nat) {
    forall e :: e in events ==> e.seqNo.Some? && e.seqNo.value <= newest
  }

  lemma SentDistinct(s: System, q: nat)
    requires q in s.sessions && q in s.taken && NumbersDistinct(s.taken[q])
    requires NumbersDistinct(s.sessions[q].replay.events)
    requires NumberedUpTo(s.sessions[q].replay.events, s.sessions[q].replay.newest)
    ensures NumbersDistinct(Sent(s, q))
  {
    var replay := s.sessions[q].replay;
    var live := Live(s.taken[q], replay.newest);
    LiveDistinct(s.taken[q], replay.newest);
    forall j | 0 <= j < |live| && live[j].seqNo.Some? ensures live[j].seqNo.value > replay.newest {
      LiveHolds(s.taken[q], replay.newest, live[j].seqNo.value);
    }
    forall i | 0 <= i < |replay.events|
      ensures replay.events[i].seqNo.Some? && replay.events[i].seqNo.value <= replay.newest
    {
      assert replay.events[i] in replay.events;
    }
  }

  lemma TakenDistinct(s: System, q: nat)
    requires q in s.taken && q in s.channel.queues && NumbersDistinct(Through(s, q))
    ensures NumbersDistinct(s.taken[q])
  {
    var taken, through := s.taken[q], Through(s, q);
    forall i | 0 <= i < |taken| ensures taken[i] == through[i] {
    }
  }

  lemma PrefixConsecutive(log: seq<Event>, n: nat)
    requires Consecutive(log) && n <= |log|
    ensures Consecutive(log[..n])
  {
  }

  lemma SliceNumbered(log: seq<Event>, from: nat, until: nat)
    requires Consecutive(log) && from <= until <= |log|
    ensures NumbersDistinct(log[from..until]) && NumberedUpTo(log[from..until], until)
  {
    var slice := log[from..until];
    forall i | 0 <= i < |slice| ensures slice[i].seqNo == Some(from + i + 1) {
      assert slice[i] == log[from + i];
    }
  }

  /** The replay is a slice of the log that ends where the history ended. */
  lemma ReplayIsSlice(s: System, q: nat, historySize: nat)
    requires Consecutive(s.log) && q in s.sessions && SessionOk(s, historySize, q) && historySize > 0
    ensures var session := s.sessions[q];
            && ReplayStart(session.at, historySize, session.since) <= session.at <= |s.log|
            && session.replay.events == s.log[ReplayStart(session.at, historySize, session.since)..session.at]
            && session.replay.newest == session.at
  {
    var session := s.sessions[q];
    var start := ReplayStart(session.at, historySize, session.since);
    PrefixConsecutive(s.log, session.at);
    ReplayExactly(s.log[..session.at], historySize, session.since);
    assert s.log[..session.at][start..] == s.log[start..session.at];
  }

  lemma SessionReplay(s: System, q: nat, historySize: nat)
    requires LogInv(s, historySize) && SessionInv(s, historySize) && q in s.sessions && historySize > 0
    ensures var session := s.sessions[q];
            && session.at <= |s.log| && ReplayStart(session.at, historySize, session.since) <= session.at
            && session.replay.events == s.log[ReplayStart(session.at, historySize, session.since)..session.at]
            && session.replay.newest == session.at
            && NumbersDistinct(session.replay.events)
            && NumberedUpTo(session.replay.events, session.replay.newest)
  {
    assert SessionOk(s, historySize, q);
    ReplayIsSlice(s, q, historySize);
    SliceNumbered(s.log, ReplayStart(s.sessions[q].at, historySize, s.sessions[q].since), s.sessions[q].at);
  }

  /** Nothing goes missing silently: every event logged after the start of the replay has been sent, or it is newer
      than the replay and is still in the queue, was counted as dropped there, is on its way with a publisher, or was
      fanned out after the handler had unsubscribed the queue. */
  lemma NothingMissing(actions: seq<Action>, historySize: nat, q: nat, n: nat)
    requires Exec(actions, historySize).Some? && historySize > 0
    requires var s := Exec(actions, historySize).value;
             q in s.sessions && q in s.channel.queues && q in s.taken
             && ReplayStart(s.sessions[q].at, historySize, s.sessions[q].since) < n <= |s.log|
    ensures var s := Exec(actions, historySize).value;
            Holds(Sent(s, q), n) || (n > s.sessions[q].at && Unsent(s, q, n))
  {
    ReachableInv(actions, historySize);
    NothingMissingNow(Exec(actions, historySize).value, historySize, q, n);
  }

  /** Where an event can be that a queue has not passed on. */
  ghost predicate Unsent(s: System, q: nat, n: nat)
    requires q in s.channel.queues
  {
    || Holds(s.channel.queues[q], n) || (q, n) in s.lost || Pending(s, q, n)
    || (q !in s.channel.subscribers && (q, n) in s.missed)
  }

  lemma NothingMissingNow(s: System, historySize: nat, q: nat, n: nat)
    requires Inv(s, historySize) && historySize > 0
    requires q in s.sessions && q in s.channel.queues && q in s.taken
    requires ReplayStart(s.sessions[q].at, historySize, s.sessions[q].since) < n <= |s.log|
    ensures Holds(Sent(s, q), n) || (n > s.sessions[q].at && Unsent(s, q, n))
  {
    SessionReplay(s, q, historySize);
    if n <= s.sessions[q].at {
      ReplayedIsSent(s, q, historySize, n);
    } else {
      QueuedFate(s, historySize, q, n);
      if (q, n) in s.entered {
        EnteredIsThrough(s, q, n);
        TakenIsSent(s, q, n);
      }
    }
  }

  lemma QueuedFate(s: System, historySize: nat, q: nat, n: nat)
    requires SomeFate(s) && MissedInv(s) && SessionInv(s, historySize)
    requires q in s.sessions && q in s.channel.queues && s.sessions[q].at < n <= |s.log|
    ensures HasFate(s, q, n) && ((q, n) in s.missed ==> q !in s.channel.subscribers)
  {
    assert SessionOk(s, historySize, q);
  }

  lemma ReplayedIsSent(s: System, q: nat, historySize: nat, n: nat)
    requires Consecutive(s.log) && q in s.sessions && q in s.taken && s.sessions[q].at <= |s.log|
    requires var session := s.sessions[q]; var start := ReplayStart(session.at, historySize, session.since);
             start < n <= session.at && session.replay.events == s.log[start..session.at]
    ensures Holds(Sent(s, q), n)
  {
    var start := ReplayStart(s.sessions[q].at, historySize, s.sessions[q].since);
    assert Sent(s, q)[n - 1 - start].seqNo == Some(n);
  }

  lemma TakenIsSent(s: System, q: nat, n: nat)
    requires q in s.sessions && q in s.taken && s.sessions[q].replay.newest < n
    ensures Holds(s.taken[q], n) ==> Holds(Sent(s, q), n)
  {
    LiveHolds(s.taken[q], s.sessions[q].replay.newest, n);
    HoldsConcat(s.sessions[q].replay.events, Live(s.taken[q], s.sessions[q].replay.newest), n);
  }

  lemma EnteredIsThrough(s: System, q: nat, n: nat)
    requires q in s.channel.queues && q in s.taken && (q, n) in s.entered
    requires Carries(Through(s, q), s.log, EnteredNumbers(s, q))
    ensures Holds(s.taken[q], n) || Holds(s.channel.queues[q], n)
  {
    HoldsConcat(s.taken[q], s.channel.queues[q], n);
    assert n in EnteredNumbers(s, q);
  }

  lemma HoldsConcat(a: seq<Event>, b: seq<Event>, n: nat)
    ensures Holds(a + b, n) <==> Holds(a, n) || Holds(b, n)
  {
    var c := a + b;
    if i :| 0 <= i < |a| && a[i].seqNo == Some(n) {
      assert c[i].seqNo == Some(n);
    }
    if i :| 0 <= i < |b| && b[i].seqNo == Some(n) {
      assert c[|a| + i].seqNo == Some(n);
    }
    if i :| 0 <= i < |c| && c[i].seqNo == Some(n) {
      assert i < |a| ==> a[i].seqNo == Some(n);
      assert i >= |a| ==> b[i - |a|].seqNo == Some(n);
    }
  }
}
