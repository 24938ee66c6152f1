/** When the page shows an event twice: within a session it never does, so a repetition comes from a reconnect that
    keeps the page and starts below a number the page has. */
module LogRepeats {
  import opened Wrappers
  import opened EventBus
  import opened Interleavings
  import opened LogSessions
  import opened LogPages

  // ---------- what the page holds ----------

  function NumberedOf(events: seq<Event>): seq<Event> {
    if events == [] then []
    else
      var last := events[|events| - 1];
      NumberedOf(events[..|events| - 1]) + if last.seqNo.Some? then [last] else []
  }

  lemma {:induction false} NumberedHolds(events: seq<Event>, n: nat)
    ensures Holds(NumberedOf(events), n) <==> Holds(events, n)
  {
    if events != [] {
      var init, last := events[..|events| - 1], events[|events| - 1];
      NumberedHolds(init, n);
      assert events == init + [last];
      assert NumberedOf(init) + [] == NumberedOf(init);
      HoldsSnoc(init, last, n);
      HoldsSnoc(NumberedOf(init), last, n);
    }
  }

  lemma NumberedSnoc(events: seq<Event>, e: Event)
    ensures NumberedOf(events + [e]) == NumberedOf(events) + if e.seqNo.Some? then [e] else []
  {
    assert (events + [e])[..|events|] == events;
  }

  /** The page holds what it kept, then what it has handled of its session; before a reset arrives, and after it,
      what it kept plays no part. */
  ghost predicate HoldsKept(w: World) {
    && (InSession(w) ==> w.page.held == w.kept + NumberedOf(Handled(w)))
    && (w.page.socket.Some? ==>
          && w.page.socket.value in w.sys.sessions && w.page.socket.value in w.sys.taken
          && w.page.got <= StreamLength(w.sys, w.page.socket.value))
    && (InSession(w) && SessionOf(w).replay.reset ==> w.kept == [])
    && (w.page.socket.None? ==> w.page.held == [])
  }

  /** The session of the page starts at a number of the log, and at none only if nothing was kept. */
  ghost predicate StartsInLog(w: World) {
    && w.page.lastSeq <= |w.sys.log|
    && (w.page.lastSeq == 0 ==> w.page.held == [])
    && (InSession(w) ==>
          SessionOf(w).since <= SessionOf(w).at && (SessionOf(w).since == 0 ==> w.kept == []))
  }

  // ---------- every step keeps it ----------

  lemma BusKeepsKept(w: World, a: Action, historySize: nat)
    requires QueueInv(w.sys) && HoldsKept(w) && StartsInLog(w) && Enabled(w.sys, a)
    ensures var w' := PageStep(w, Bus(a), historySize); HoldsKept(w') && StartsInLog(w')
  {
    LogGrows(w.sys, a, historySize);
    if w.page.socket.Some? {
      SentGrows(w.sys, a, historySize, w.page.socket.value);
    }
    if InSession(w) {
      BusKeepsHandled(w, a, historySize);
    }
  }

  lemma OpenKeepsKept(w: World, q: nat, keep: bool, historySize: nat)
    requires QueueInv(w.sys) && HoldsKept(w) && StartsInLog(w) && PageEnabled(w, Open(q, keep))
    ensures var w' := PageStep(w, Open(q, keep), historySize); HoldsKept(w') && StartsInLog(w')
  {
    var w' := PageStep(w, Open(q, keep), historySize);
    OpenHandlesNothing(w, q, keep, historySize);
    assert w'.page.held == w'.kept + [];
  }

  lemma ResetKeepsKept(w: World, historySize: nat)
    requires HoldsKept(w) && StartsInLog(w) && CanDeliver(w) && w.page.got < Head(w.sys, w.page.socket.value)
    requires w.sys.sessions[w.page.socket.value].since <= w.sys.sessions[w.page.socket.value].at
    ensures var w' := PageStep(w, Deliver, historySize); HoldsKept(w') && StartsInLog(w')
  {
    var w' := PageStep(w, Deliver, historySize);
    assert Handled(w') == [];
  }

  /** The message to handle next, once past a reset. */
  function NextEvent(w: World): Event
    requires InSession(w) && CanDeliver(w)
  {
    Sent(w.sys, w.page.socket.value)[w.page.got - Head(w.sys, w.page.socket.value)]
  }

  lemma EventStep(w: World, historySize: nat)
    requires InSession(w) && CanDeliver(w)
    ensures var w' := PageStep(w, Deliver, historySize);
            && w'.sys == w.sys && w'.kept == w.kept && w'.page == Handle(w.page, Carry(NextEvent(w)))
            && InSession(w') && SessionOf(w') == SessionOf(w) && Handled(w') == Handled(w) + [NextEvent(w)]
  {
    MessageIsSent(w);
  }

  lemma EventKeepsKept(w: World, historySize: nat)
    requires HoldsKept(w) && StartsInLog(w) && InSession(w) && CanDeliver(w)
    requires NextEvent(w).seqNo.Some? ==> IsLogged(NextEvent(w), w.sys.log)
    ensures var w' := PageStep(w, Deliver, historySize); HoldsKept(w') && StartsInLog(w')
  {
    EventStep(w, historySize);
    NumberedSnoc(Handled(w), NextEvent(w));
  }

  lemma NextEventIsLogged(w: World, historySize: nat)
    requires historySize > 0 && InSession(w) && CanDeliver(w) && SessionFacts(w.sys, historySize, w.page.socket.value)
    requires NextEvent(w).seqNo.Some?
    ensures IsLogged(NextEvent(w), w.sys.log)
  {
    var s, q := w.sys, w.page.socket.value;
    var i := w.page.got - Head(s, q);
    if i < |s.sessions[q].replay.events| {
      ReplayIsLogged(s, historySize, q, i);
    } else {
      LiveIsLogged(s, historySize, q, i);
    }
  }

  /** Every session starts no later than the end of the log it was opened on. */
  ghost predicate OpenedInLog(w: World) {
    w.page.socket.Some? && w.page.socket.value in w.sys.sessions ==>
      w.sys.sessions[w.page.socket.value].since <= w.sys.sessions[w.page.socket.value].at
  }

  ghost predicate Traced(w: World) {
    HoldsKept(w) && StartsInLog(w) && OpenedInLog(w)
  }

  lemma OpenedStays(w: World, a: PageAction, historySize: nat)
    requires QueueInv(w.sys) && Traced(w) && PageEnabled(w, a)
    ensures OpenedInLog(PageStep(w, a, historySize))
  {
    if a.Bus? && w.page.socket.Some? {
      SentGrows(w.sys, a.a, historySize, w.page.socket.value);
    }
  }

  lemma TracedStep(w: World, a: PageAction, historySize: nat)
    requires historySize > 0 && Inv(w.sys, historySize) && Traced(w) && PageEnabled(w, a)
    ensures Traced(PageStep(w, a, historySize))
  {
    OpenedStays(w, a, historySize);
    match a
    case Bus(b) => BusKeepsKept(w, b, historySize);
    case Open(q, keep) => OpenKeepsKept(w, q, keep, historySize);
    case Deliver =>
      if InSession(w) {
        FactsHold(w.sys, historySize, w.page.socket.value);
        if NextEvent(w).seqNo.Some? {
          NextEventIsLogged(w, historySize);
        }
        EventKeepsKept(w, historySize);
      } else {
        ResetKeepsKept(w, historySize);
      }
  }

  lemma {:induction false} TracedUpTo(actions: seq<PageAction>, historySize: nat, n: nat)
    requires historySize > 0 && PageExec(actions, historySize).Some? && n <= |actions|
    ensures Traced(At(actions, historySize, n))
  {
    if n > 0 {
      TracedUpTo(actions, historySize, n - 1);
      AtNext(actions, historySize, n - 1);
      AtKeepsBus(actions, historySize, n - 1);
      TracedStep(At(actions, historySize, n - 1), actions[n - 1], historySize);
    } else {
      AtEnds(actions, historySize);
    }
  }

  // ---------- repetitions ----------

  /** The step handles an event that was on the page already when the session was opened. */
  ghost predicate Repeats(w: World, a: PageAction) {
    a.Deliver? && InSession(w) && CanDeliver(w) && NextEvent(w).seqNo.Some? &&
    Holds(w.kept, NextEvent(w).seqNo.value)
  }

  lemma DistinctAppend(held: seq<Event>, e: Event)
    requires NumbersDistinct(held) && e.seqNo.Some?
    ensures NumbersDistinct(held + [e]) <==> !Holds(held, e.seqNo.value)
  {
    var more := held + [e];
    if Holds(held, e.seqNo.value) {
      var i :| 0 <= i < |held| && held[i].seqNo == e.seqNo;
      assert more[i].seqNo == more[|held|].seqNo;
    }
  }

  lemma HeldExactly(w: World, historySize: nat)
    requires HoldsKept(w) && InSession(w) && CanDeliver(w) && NextEvent(w).seqNo.Some?
    requires SessionFacts(w.sys, historySize, w.page.socket.value)
    ensures Holds(w.page.held, NextEvent(w).seqNo.value) <==> Holds(w.kept, NextEvent(w).seqNo.value)
  {
    var n := NextEvent(w).seqNo.value;
    HoldsConcat(w.kept, NumberedOf(Handled(w)), n);
    NumberedHolds(Handled(w), n);
    FreshNumber(Sent(w.sys, w.page.socket.value), w.page.got - Head(w.sys, w.page.socket.value));
  }

  lemma EventRepeatsExactly(w: World, historySize: nat)
    requires HoldsKept(w) && InSession(w) && CanDeliver(w) && NumbersDistinct(w.page.held)
    requires SessionFacts(w.sys, historySize, w.page.socket.value)
    ensures NumbersDistinct(PageStep(w, Deliver, historySize).page.held) <==> !Repeats(w, Deliver)
  {
    EventStep(w, historySize);
    if NextEvent(w).seqNo.Some? {
      HeldExactly(w, historySize);
      DistinctAppend(w.page.held, NextEvent(w));
    }
  }

  /** A step puts a number on the page twice exactly when it handles one the page kept when it opened the session. */
  lemma RepeatStepExactly(w: World, a: PageAction, historySize: nat)
    requires historySize > 0 && Inv(w.sys, historySize) && Traced(w) && PageEnabled(w, a)
    requires NumbersDistinct(w.page.held)
    ensures NumbersDistinct(PageStep(w, a, historySize).page.held) <==> !Repeats(w, a)
  {
    if a.Deliver? && InSession(w) {
      FactsHold(w.sys, historySize, w.page.socket.value);
      EventRepeatsExactly(w, historySize);
    }
  }

  /** Such a session was not reset, and was opened from a number below the one it repeats. */
  lemma RepeatStartsBelow(actions: seq<PageAction>, historySize: nat)
    requires historySize > 0 && PageExec(actions, historySize).Some?
    requires Repeats(PageExec(actions, historySize).value, Deliver)
    ensures var w := PageExec(actions, historySize).value;
            !SessionOf(w).replay.reset && 0 < SessionOf(w).since < NextEvent(w).seqNo.value
  {
    var w := PageExec(actions, historySize).value;
    AtEnds(actions, historySize);
    TracedUpTo(actions, historySize, |actions|);
    AtKeepsBus(actions, historySize, |actions|);
    RepeatIsLater(w, historySize);
  }

  lemma RepeatIsLater(w: World, historySize: nat)
    requires historySize > 0 && Inv(w.sys, historySize) && Traced(w) && Repeats(w, Deliver)
    ensures !SessionOf(w).replay.reset && 0 < SessionOf(w).since < NextEvent(w).seqNo.value
  {
    var n := NextEvent(w).seqNo.value;
    var sent := Sent(w.sys, w.page.socket.value);
    assert w.kept != [];
    assert sent[w.page.got - Head(w.sys, w.page.socket.value)].seqNo == Some(n);
    assert Holds(sent, n);
    if n <= SessionOf(w).since {
      NothingUpToSince(w.sys, historySize, w.page.socket.value, n);
    }
  }

  ghost predicate DistinctAt(actions: seq<PageAction>, historySize: nat, n: nat)
    requires PageExec(actions, historySize).Some? && n <= |actions|
  {
    NumbersDistinct(At(actions, historySize, n).page.held)
  }

  ghost predicate RepeatsAt(actions: seq<PageAction>, historySize: nat, n: nat)
    requires PageExec(actions, historySize).Some? && n < |actions|
  {
    Repeats(At(actions, historySize, n), actions[n])
  }

  lemma DistinctNext(actions: seq<PageAction>, historySize: nat, n: nat)
    requires historySize > 0 && PageExec(actions, historySize).Some? && n < |actions|
    requires DistinctAt(actions, historySize, n)
    ensures DistinctAt(actions, historySize, n + 1) <==> !RepeatsAt(actions, historySize, n)
  {
    TracedUpTo(actions, historySize, n);
    AtKeepsBus(actions, historySize, n);
    AtNext(actions, historySize, n);
    RepeatStepExactly(At(actions, historySize, n), actions[n], historySize);
  }

  lemma {:induction false} UnrepeatedIsDistinct(actions: seq<PageAction>, historySize: nat, n: nat)
    requires historySize > 0 && PageExec(actions, historySize).Some? && n <= |actions|
    requires forall k :: 0 <= k < n ==> !RepeatsAt(actions, historySize, k)
    ensures DistinctAt(actions, historySize, n)
  {
    if n > 0 {
      UnrepeatedIsDistinct(actions, historySize, n - 1);
      DistinctNext(actions, historySize, n - 1);
    } else {
      AtEnds(actions, historySize);
    }
  }

  /** Over any number of sessions no number is ever on the page twice exactly when no session brings one that was on
      the page when it was opened. */
  lemma RepeatsExactly(actions: seq<PageAction>, historySize: nat)
    requires historySize > 0 && PageExec(actions, historySize).Some?
    ensures (forall n :: 0 <= n <= |actions| ==> DistinctAt(actions, historySize, n)) <==>
            (forall n :: 0 <= n < |actions| ==> !RepeatsAt(actions, historySize, n))
  {
    if forall n :: 0 <= n <= |actions| ==> DistinctAt(actions, historySize, n) {
      forall n | 0 <= n < |actions| ensures !RepeatsAt(actions, historySize, n) {
        DistinctNext(actions, historySize, n);
      }
    } else if forall n :: 0 <= n < |actions| ==> !RepeatsAt(actions, historySize, n) {
      forall n | 0 <= n <= |actions| ensures DistinctAt(actions, historySize, n) {
        UnrepeatedIsDistinct(actions, historySize, n);
      }
    }
  }
}
