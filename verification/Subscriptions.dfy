/** What a queue hears in the interleavings of the event bus: everything from its subscription on, and nothing whose
    fan-out starts after it has left. */
module Subscriptions {
  import opened Wrappers
  import opened EventBus
  import opened Interleavings

  // ---------- the states of one run ----------

  lemma {:induction false} ExecPrefix(actions: seq<Action>, historySize: nat, n: nat)
    requires Exec(actions, historySize).Some? && n <= |actions|
    ensures Exec(actions[..n], historySize).Some?
  {
    if n == |actions| {
      assert actions[..n] == actions;
    } else {
      assert actions[..|actions| - 1][..n] == actions[..n];
      ExecPrefix(actions[..|actions| - 1], historySize, n);
    }
  }

  /** The state after the first `n` steps. */
  ghost function After(actions: seq<Action>, historySize: nat, n: nat): System
    requires Exec(actions, historySize).Some? && n <= |actions|
  {
    ExecPrefix(actions, historySize, n);
    Exec(actions[..n], historySize).value
  }

  lemma AfterNext(actions: seq<Action>, historySize: nat, n: nat)
    requires Exec(actions, historySize).Some? && n < |actions|
    ensures Enabled(After(actions, historySize, n), actions[n])
    ensures After(actions, historySize, n + 1) == Step(After(actions, historySize, n), actions[n], historySize)
  {
    ExecPrefix(actions, historySize, n + 1);
    assert actions[..n + 1][..n] == actions[..n];
  }

  lemma AfterInv(actions: seq<Action>, historySize: nat, n: nat)
    requires Exec(actions, historySize).Some? && n <= |actions|
    ensures Inv(After(actions, historySize, n), historySize)
  {
    ExecPrefix(actions, historySize, n);
    ReachableInv(actions[..n], historySize);
  }

  lemma AfterAll(actions: seq<Action>, historySize: nat)
    requires Exec(actions, historySize).Some?
    ensures After(actions, historySize, |actions|) == Exec(actions, historySize).value
  {
    assert actions[..|actions|] == actions;
  }

  /** The states of a run, one after each number of steps. */
  ghost function States(actions: seq<Action>, historySize: nat): (states: seq<System>)
    requires Exec(actions, historySize).Some?
    ensures |states| == |actions| + 1
    ensures forall i :: 0 <= i <= |actions| ==> states[i] == After(actions, historySize, i)
  {
    seq(|actions| + 1, i requires 0 <= i <= |actions| => After(actions, historySize, i))
  }

  /** What holds in one state and is kept from there on holds in every later one. */
  lemma {:induction false} Preserved(states: seq<System>, p: System -> bool, k: nat, m: nat)
    requires k <= m < |states| && p(states[k])
    requires forall i :: k <= i < m && p(states[i]) ==> p(states[i + 1])
    ensures p(states[m])
  {
    if k < m {
      Preserved(states, p, k, m - 1);
      assert p(states[m - 1]);
    }
  }

  // ---------- a queue that has left ----------

  /** The event is not logged yet, or its publisher has not looked at the subscribers yet. */
  predicate FanoutToCome(s: System, n: nat) {
    n > |s.log| || (n in s.flights && s.flights[n].Waiting?)
  }

  /** The queue is out, and the event has not reached it and is not on its way to it. */
  ghost predicate OutOfReach(s: System, q: nat, n: nat) {
    && q in s.channel.queues && q !in s.channel.subscribers
    && (q, n) !in s.entered && (q, n) !in s.lost
    && (n in s.flights && !s.flights[n].Waiting? ==> q !in s.flights[n].todo)
  }

  lemma StaysOutOfReach(s: System, a: Action, historySize: nat, q: nat, n: nat, s': System)
    requires s.channel.nextSeq == |s.log| + 1 && OutOfReach(s, q, n) && Enabled(s, a) && s' == Step(s, a, historySize)
    ensures OutOfReach(s', q, n)
  {
  }

  lemma NextNumber(actions: seq<Action>, historySize: nat, n: nat)
    requires Exec(actions, historySize).Some? && n <= |actions|
    ensures After(actions, historySize, n).channel.nextSeq == |After(actions, historySize, n).log| + 1
  {
    AfterInv(actions, historySize, n);
  }

  lemma LeavingPutsOutOfReach(s: System, historySize: nat, q: nat, n: nat)
    requires CountInv(s) && FlightInv(s) && OneFate(s) && q in s.channel.queues && FanoutToCome(s, n)
    ensures OutOfReach(Step(s, Unsubscribe(q), historySize), q, n)
  {
    if n in s.flights {
      assert FlightOk(s, n) && Pending(s, q, n);
    }
  }

  lemma OutOfReachNext(actions: seq<Action>, historySize: nat, m: nat, q: nat, n: nat)
    requires Exec(actions, historySize).Some? && m < |actions| && OutOfReach(After(actions, historySize, m), q, n)
    ensures OutOfReach(After(actions, historySize, m + 1), q, n)
  {
    NextNumber(actions, historySize, m);
    AfterNext(actions, historySize, m);
    StaysOutOfReach(After(actions, historySize, m), actions[m], historySize, q, n, After(actions, historySize, m + 1));
  }

  lemma OutOfReachUpTo(actions: seq<Action>, historySize: nat, k: nat, m: nat, q: nat, n: nat)
    requires Exec(actions, historySize).Some? && k <= m <= |actions|
    requires OutOfReach(After(actions, historySize, k), q, n)
    ensures OutOfReach(After(actions, historySize, m), q, n)
  {
    var states := States(actions, historySize);
    var p := (s: System) => OutOfReach(s, q, n);
    forall i | k <= i < m && p(states[i]) ensures p(states[i + 1]) {
      OutOfReachNext(actions, historySize, i, q, n);
    }
    Preserved(states, p, k, m);
  }

  /** From an unsubscription on, no event whose fan-out starts later ever enters the queue or counts as dropped there,
      and the queue never gets back among the subscribers. */
  lemma LeftHearsNothing(actions: seq<Action>, historySize: nat, k: nat, q: nat, n: nat)
    requires Exec(actions, historySize).Some? && k < |actions| && actions[k] == Unsubscribe(q)
    requires var s := After(actions, historySize, k); q in s.channel.queues && FanoutToCome(s, n)
    ensures var t := Exec(actions, historySize).value;
            (q, n) !in t.entered && (q, n) !in t.lost && q !in t.channel.subscribers
  {
    AfterInv(actions, historySize, k);
    AfterNext(actions, historySize, k);
    LeavingPutsOutOfReach(After(actions, historySize, k), historySize, q, n);
    OutOfReachUpTo(actions, historySize, k + 1, |actions|, q, n);
    AfterAll(actions, historySize);
  }

  // ---------- a queue that stays ----------

  predicate StillIn(s: System, q: nat, joined: nat) {
    q in s.channel.subscribers && q in s.joinedAt && s.joinedAt[q] == joined
  }

  lemma StaysIn(s: System, a: Action, historySize: nat, q: nat, joined: nat, s': System)
    requires s.joinedAt.Keys == s.channel.queues.Keys && StillIn(s, q, joined)
    requires Enabled(s, a) && a != Unsubscribe(q) && s' == Step(s, a, historySize)
    ensures StillIn(s', q, joined)
  {
  }

  lemma QueuesJoined(actions: seq<Action>, historySize: nat, n: nat)
    requires Exec(actions, historySize).Some? && n <= |actions|
    ensures After(actions, historySize, n).joinedAt.Keys == After(actions, historySize, n).channel.queues.Keys
  {
    AfterInv(actions, historySize, n);
  }

  ghost predicate StillInAt(actions: seq<Action>, historySize: nat, m: nat, q: nat, joined: nat)
    requires Exec(actions, historySize).Some? && m <= |actions|
  {
    StillIn(After(actions, historySize, m), q, joined)
  }

  lemma StillInNext(actions: seq<Action>, historySize: nat, m: nat, q: nat, joined: nat)
    requires Exec(actions, historySize).Some? && m < |actions| && actions[m] != Unsubscribe(q)
    requires StillInAt(actions, historySize, m, q, joined)
    ensures StillInAt(actions, historySize, m + 1, q, joined)
  {
    QueuesJoined(actions, historySize, m);
    AfterNext(actions, historySize, m);
    StaysIn(After(actions, historySize, m), actions[m], historySize, q, joined, After(actions, historySize, m + 1));
  }

  /** No step from the k-th to before the m-th takes the queue out. */
  predicate Stays(actions: seq<Action>, k: nat, m: nat, q: nat)
    requires k <= m <= |actions|
  {
    forall i :: k <= i < m ==> actions[i] != Unsubscribe(q)
  }

  lemma StaysBefore(actions: seq<Action>, k: nat, m: nat, q: nat)
    requires k < m <= |actions| && Stays(actions, k, m, q)
    ensures Stays(actions, k, m - 1, q) && actions[m - 1] != Unsubscribe(q)
  {
  }

  lemma StillInUpTo(actions: seq<Action>, historySize: nat, k: nat, m: nat, q: nat, joined: nat)
    requires Exec(actions, historySize).Some? && k <= m <= |actions|
    requires StillInAt(actions, historySize, k, q, joined)
    requires Stays(actions, k, m, q)
    ensures StillInAt(actions, historySize, m, q, joined)
  {
    var states := States(actions, historySize);
    var p := (s: System) => StillIn(s, q, joined);
    forall i | k <= i < m && p(states[i]) ensures p(states[i + 1]) {
      StillInNext(actions, historySize, i, q, joined);
    }
    Preserved(states, p, k, m);
  }

  /** From a subscription on, and as long as the queue does not leave, every event that is logged enters the queue, is
      counted as dropped there, or is still with its publisher. */
  lemma SubscribedHearsAll(actions: seq<Action>, historySize: nat, k: nat, q: nat, n: nat)
    requires Exec(actions, historySize).Some? && k < |actions| && actions[k] == Subscribe(q)
    requires forall i :: k < i < |actions| ==> actions[i] != Unsubscribe(q)
    requires |After(actions, historySize, k).log| < n <= |Exec(actions, historySize).value.log|
    ensures var t := Exec(actions, historySize).value;
            && q in t.channel.subscribers
            && ((q, n) in t.entered || (q, n) in t.lost || Pending(t, q, n))
  {
    AfterNext(actions, historySize, k);
    StillInUpTo(actions, historySize, k + 1, |actions|, q, |After(actions, historySize, k).log|);
    AfterInv(actions, historySize, |actions|);
    AfterAll(actions, historySize);
    var t := Exec(actions, historySize).value;
    assert HasFate(t, q, n);
  }

  // ---------- one put ----------

  /** A put of an event enters a queue of fewer than ten thousand; otherwise it is counted, and the queue stays. */
  lemma PutExactly(s: System, n: nat, q: nat, historySize: nat)
    requires Enabled(s, Put(n, q))
    ensures var s', events := Step(s, Put(n, q), historySize), s.channel.queues[q];
            if |events| < 10000
            then s'.channel.queues == s.channel.queues[q := events + [s.flights[n].e]]
                 && s'.channel.dropped == s.channel.dropped
                 && s'.entered == s.entered + {(q, n)} && s'.lost == s.lost
            else s'.channel.queues == s.channel.queues && s'.channel.dropped == s.channel.dropped + 1
                 && s'.entered == s.entered && s'.lost == s.lost + {(q, n)}
  {
  }

  /** The notice after a drop carries the count so far and no number, and enters the queue if there is room by then. */
  lemma NoticeExactly(s: System, n: nat, historySize: nat)
    requires Enabled(s, PutNotice(n))
    ensures var s', q := Step(s, PutNotice(n), historySize), s.flights[n].q;
            var notice := Event(s.flights[n].e.install, DropNotice(s.channel.dropped), None);
            && s'.channel.queues == (if |s.channel.queues[q]| < 10000
                                     then s.channel.queues[q := s.channel.queues[q] + [notice]]
                                     else s.channel.queues)
            && s'.channel.dropped == s.channel.dropped && s'.entered == s.entered && s'.lost == s.lost
  {
  }

  ghost predicate Bounded(s: System) {
    forall q :: q in s.channel.queues ==> |s.channel.queues[q]| <= 10000
  }

  lemma StepBounded(s: System, a: Action, historySize: nat)
    requires Bounded(s) && Enabled(s, a)
    ensures Bounded(Step(s, a, historySize))
  {
    forall q | q in Step(s, a, historySize).channel.queues
      ensures |Step(s, a, historySize).channel.queues[q]| <= 10000
    {
      QueueStep(s, a, historySize, q);
    }
  }

  lemma QueueStep(s: System, a: Action, historySize: nat, q: nat)
    requires Enabled(s, a) && q in Step(s, a, historySize).channel.queues
    requires q in s.channel.queues ==> |s.channel.queues[q]| <= 10000
    ensures |Step(s, a, historySize).channel.queues[q]| <= 10000
  {
  }

  /** No queue ever holds more than ten thousand events. */
  lemma {:induction false} QueuesBounded(actions: seq<Action>, historySize: nat)
    requires Exec(actions, historySize).Some?
    ensures Bounded(Exec(actions, historySize).value)
  {
    if actions != [] {
      QueuesBounded(actions[..|actions| - 1], historySize);
      StepBounded(Exec(actions[..|actions| - 1], historySize).value, actions[|actions| - 1], historySize);
    }
  }
}
