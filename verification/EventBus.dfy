/** The per-install event bus of backend/events.py: numbered events, a bounded history for replay,
    and bounded subscriber queues that drop. */
module EventBus {
  import opened Wrappers

  datatype Body = Line(text: string) | DropNotice(dropped: nat)

  datatype Event = Event(install: string, body: Body, seqNo: Option<nat>)

  const QUEUE_SIZE: nat := 10000

  /** What the bus holds for one install.  Queues are named by numbers that are never reused. */
  datatype Channel = Channel(
    history: seq<Event>, nextSeq: nat, subscribers: set<nat>, queues: map<nat, seq<Event>>, dropped: nat)

  function LastN<T>(s: seq<T>, n: nat): seq<T> {
    if |s| <= n then s else s[|s| - n..]
  }

  function Numbered(c: Channel, e: Event): Event {
    if e.seqNo.Some? then e else e.(seqNo := Some(c.nextSeq))
  }

  /** Numbering and appending, in one critical section. */
  function Append(c: Channel, e: Event, historySize: nat): Channel {
    c.(nextSeq := if e.seqNo.Some? then c.nextSeq else c.nextSeq + 1,
       history := LastN(c.history + [Numbered(c, e)], historySize))
  }

  predicate HasRoom(c: Channel, q: nat)
    requires q in c.queues
  {
    |c.queues[q]| < QUEUE_SIZE
  }

  function Enqueue(c: Channel, q: nat, e: Event): Channel
    requires q in c.queues
  {
    c.(queues := c.queues[q := c.queues[q] + [e]])
  }

  /** The first put: the event goes in, or it is counted as dropped. */
  function Offer(c: Channel, q: nat, e: Event): Channel
    requires q in c.queues
  {
    if HasRoom(c, q) then Enqueue(c, q, e) else c.(dropped := c.dropped + 1)
  }

  /** The second put, after a drop: a notice with the count so far, if there is room by then. */
  function Notify(c: Channel, q: nat, install: string): Channel
    requires q in c.queues
  {
    if HasRoom(c, q) then Enqueue(c, q, Event(install, DropNotice(c.dropped), None)) else c
  }

  /** Both puts with nothing in between: the notice finds the queue as full as the event did. */
  function PutOrDrop(c: Channel, q: nat, e: Event): Channel
    requires q in c.queues
  {
    if HasRoom(c, q) then Offer(c, q, e) else Notify(Offer(c, q, e), q, e.install)
  }

  function SeqOrZero(e: Event): nat {
    if e.seqNo.Some? then e.seqNo.value else 0
  }

  function After(events: seq<Event>, since: int): seq<Event> {
    if events == [] then []
    else
      var last := events[|events| - 1];
      After(events[..|events| - 1], since) + if SeqOrZero(last) > since then [last] else []
  }

  datatype Replay = Replay(events: seq<Event>, newest: nat, reset: bool)

  function ReplayFrom(history: seq<Event>, since: int): Replay {
    if history == [] then Replay([], 0, false)
    else
      var oldest, newest := SeqOrZero(history[0]), SeqOrZero(history[|history| - 1]);
      var reset := 0 < since < oldest;
      if since == 0 || reset then Replay(history, newest, reset) else Replay(After(history, since), newest, false)
  }

  /** The event put into every queue of `done` at one go: it enters each queue with room, every full
      queue counts as one drop, and no drop notice is delivered. */
  function Fanned(c: Channel, e: Event, done: set<nat>): Channel
    requires done <= c.queues.Keys
  {
    c.(queues := map q | q in c.queues :: if q in done && HasRoom(c, q) then c.queues[q] + [e] else c.queues[q],
       dropped := c.dropped + |FullAmong(c, done)|)
  }

  function FullAmong(c: Channel, among: set<nat>): set<nat>
    requires among <= c.queues.Keys
  {
    set q | q in among && !HasRoom(c, q)
  }

  lemma FannedNone(c: Channel, e: Event)
    ensures Fanned(c, e, {}) == c
  {
    assert FullAmong(c, {}) == {};
  }

  /** The two puts of the source, one queue after the other, add up to `Fanned`. */
  lemma FannedOneMore(c: Channel, e: Event, done: set<nat>, q: nat)
    requires done <= c.queues.Keys && q in c.queues && q !in done
    ensures Fanned(c, e, done + {q}) == PutOrDrop(Fanned(c, e, done), q, e)
  {
    var full := FullAmong(c, done);
    if HasRoom(c, q) {
      assert FullAmong(c, done + {q}) == full;
    } else {
      assert FullAmong(c, done + {q}) == full + {q};
      assert |full + {q}| == |full| + 1;
    }
    assert Fanned(c, e, done + {q}).queues == PutOrDrop(Fanned(c, e, done), q, e).queues;
  }

  lemma RestOneMore(all: set<nat>, todo: set<nat>, q: nat)
    requires q in todo && todo <= all
    ensures all - (todo - {q}) == all - todo + {q} && q !in all - todo && all - todo <= all
  {
  }

  class EventBus {
    const historySize: nat
    var history: map<string, seq<Event>>
    var nextSeq: map<string, nat>
    var subscribers: map<string, set<nat>>
    var dropped: map<string, nat>
    var queues: map<nat, seq<Event>>
    var nextQueue: nat

    /** The view of one install; absent dictionary entries read as their defaults. */
    function View(x: string): Channel
      reads this
    {
      Channel(if x in history then history[x] else [],
              if x in nextSeq then nextSeq[x] else 1,
              if x in subscribers then subscribers[x] else {},
              queues,
              if x in dropped then dropped[x] else 0)
    }

    ghost predicate Valid()
      reads this
    {
      && (forall x :: x in subscribers ==> subscribers[x] != {} && subscribers[x] <= queues.Keys)
      && (forall q :: q in queues ==> q < nextQueue)
    }

    constructor (historySize: nat := 5000)
      ensures Valid() && this.historySize == historySize
      ensures forall x :: View(x) == Channel([], 1, {}, map[], 0)
    {
      this.historySize := historySize;
      history, nextSeq, subscribers, dropped, queues := map[], map[], map[], map[], map[];
      nextQueue := 0;
    }

    method AppendHistory(e: Event) returns (numbered: Event)
      requires Valid()
      modifies this`history, this`nextSeq
      ensures Valid()
      ensures numbered == Numbered(old(View(e.install)), e)
      ensures View(e.install) == Append(old(View(e.install)), e, historySize)
      ensures forall y :: y != e.install ==> View(y) == old(View(y))
    {
      var x := e.install;
      numbered := e;
      if e.seqNo.None? {
        var n := if x in nextSeq then nextSeq[x] else 1;
        numbered := e.(seqNo := Some(n));
        nextSeq := nextSeq[x := n + 1];
      }
      var before := if x in history then history[x] else [];
      history := history[x := LastN(before + [numbered], historySize)];
    }

    /** Puts an event into a queue unless it is full. */
    method PutNoWait(q: nat, e: Event) returns (ok: bool)
      requires q in queues
      modifies this`queues
      ensures ok == (|old(queues[q])| < QUEUE_SIZE)
      ensures queues == if ok then old(queues)[q := old(queues)[q] + [e]] else old(queues)
    {
      ok := |queues[q]| < QUEUE_SIZE;
      if ok {
        queues := queues[q := queues[q] + [e]];
      }
    }

    method PutOrCount(e: Event, q: nat)
      requires q in queues
      modifies this`queues, this`dropped
      ensures View(e.install) == PutOrDrop(old(View(e.install)), q, e)
      ensures forall y :: y != e.install ==> View(y) == old(View(y)).(queues := queues)
    {
      var ok := PutNoWait(q, e);
      if !ok {
        dropped := dropped[e.install := (if e.install in dropped then dropped[e.install] else 0) + 1];
        var _ := PutNoWait(q, Event(e.install, DropNotice(dropped[e.install]), None));
      }
    }

    /** Hands the event to every subscriber queue. */
    method Fanout(e: Event)
      requires Valid()
      modifies this`queues, this`dropped
      ensures Valid()
      ensures View(e.install) == Fanned(old(View(e.install)), e, old(View(e.install)).subscribers)
      ensures forall y :: y != e.install ==> View(y) == old(View(y)).(queues := queues)
    {
      var x := e.install;
      var todo := if x in subscribers then subscribers[x] else {};
      ghost var c := View(x);
      FannedNone(c, e);
      while todo != {}
        invariant todo <= c.subscribers && queues.Keys == c.queues.Keys
        invariant View(x) == Fanned(c, e, c.subscribers - todo)
        invariant forall y :: y != x ==> View(y) == old(View(y)).(queues := queues)
        decreases todo
      {
        var q :| q in todo;
        FannedOneMore(c, e, c.subscribers - todo, q);
        RestOneMore(c.subscribers, todo, q);
        todo := todo - {q};
        PutOrCount(e, q);
      }
      assert c.subscribers - todo == c.subscribers;
    }

    method Publish(e: Event)
      requires Valid()
      modifies this`history, this`nextSeq, this`queues, this`dropped
      ensures Valid()
      ensures var c := old(View(e.install));
              View(e.install) == Fanned(Append(c, e, historySize), Numbered(c, e), c.subscribers)
      ensures View(e.install).subscribers == old(View(e.install)).subscribers && queues.Keys == old(queues).Keys
      ensures forall q :: q in queues && q !in old(View(e.install)).subscribers ==> queues[q] == old(queues)[q]
      ensures forall q :: q in old(View(e.install)).subscribers ==>
                queues[q] == if |old(queues)[q]| < 10000 then old(queues)[q] + [Numbered(old(View(e.install)), e)]
                             else old(queues)[q]
      ensures forall y :: y != e.install ==> View(y) == old(View(y)).(queues := queues)
    {
      var numbered := AppendHistory(e);
      Fanout(numbered);
    }

    method HistorySnapshot(install: string, since: int) returns (events: seq<Event>, newest: nat, reset: bool)
      ensures Replay(events, newest, reset) == ReplayFrom(View(install).history, since)
    {
      if install !in history || history[install] == [] {
        return [], 0, false;
      }
      var snapshot := history[install];
      var oldest := SeqOrZero(snapshot[0]);
      newest := SeqOrZero(snapshot[|snapshot| - 1]);
      reset := since > 0 && since < oldest;
      if since == 0 || reset {
        return snapshot, newest, reset;
      }
      events := [];
      for i := 0 to |snapshot|
        invariant events == After(snapshot[..i], since)
      {
        assert snapshot[..i + 1][..i] == snapshot[..i];
        if SeqOrZero(snapshot[i]) > since {
          events := events + [snapshot[i]];
        }
      }
      assert snapshot[..|snapshot|] == snapshot;
    }

    method Subscribe(install: string) returns (q: nat)
      requires Valid()
      modifies this`subscribers, this`queues, this`nextQueue
      ensures Valid() && q !in old(queues)
      ensures View(install) == Join(old(View(install)), q)
      ensures View(install).subscribers == old(View(install)).subscribers + {q}
      ensures queues == old(queues)[q := []]
      ensures forall y :: y != install ==> View(y) == old(View(y)).(queues := queues)
    {
      q := nextQueue;
      nextQueue := nextQueue + 1;
      queues := queues[q := []];
      subscribers := subscribers[install := (if install in subscribers then subscribers[install] else {}) + {q}];
    }

    method Unsubscribe(install: string, q: nat)
      requires Valid()
      modifies this`subscribers
      ensures Valid()
      ensures View(install) == Leave(old(View(install)), q)
      ensures View(install).subscribers == old(View(install)).subscribers - {q}
      ensures forall y :: y != install ==> View(y) == old(View(y))
    {
      if install !in subscribers {
        return;
      }
      var left := subscribers[install] - {q};
      subscribers := if left == {} then subscribers - {install} else subscribers[install := left];
    }
  }

  function Join(c: Channel, q: nat): Channel {
    c.(queues := c.queues[q := []], subscribers := c.subscribers + {q})
  }

  function Leave(c: Channel, q: nat): Channel {
    c.(subscribers := c.subscribers - {q})
  }

  // ---------- numbered logs and replay ----------

  /** Every event ever appended, numbered 1, 2, 3 and so on. */
  ghost predicate Consecutive(log: seq<Event>) {
    forall i :: 0 <= i < |log| ==> log[i].seqNo == Some(i + 1)
  }

  function Clamp(n: nat, lo: nat, hi: nat): nat {
    if n <= lo then lo else if n <= hi then n else hi
  }

  lemma AfterSnoc(events: seq<Event>, e: Event, since: int)
    ensures After(events + [e], since) == After(events, since) + if SeqOrZero(e) > since then [e] else []
  {
    assert (events + [e])[..|events|] == events;
  }

  lemma {:induction false} AfterNone(events: seq<Event>, since: int)
    requires forall i :: 0 <= i < |events| ==> SeqOrZero(events[i]) <= since
    ensures After(events, since) == []
  {
    if events != [] {
      AfterNone(events[..|events| - 1], since);
    }
  }

  lemma {:induction false} AfterAll(events: seq<Event>, since: int)
    requires forall i :: 0 <= i < |events| ==> SeqOrZero(events[i]) > since
    ensures After(events, since) == events
  {
    if events != [] {
      AfterAll(events[..|events| - 1], since);
    }
  }

  lemma {:induction false} AfterConcat(a: seq<Event>, b: seq<Event>, since: int)
    ensures After(a + b, since) == After(a, since) + After(b, since)
  {
    if b == [] {
      assert a + b == a;
    } else {
      var init, last := b[..|b| - 1], b[|b| - 1];
      AfterConcat(a, init, since);
      AfterSnoc(a + init, last, since);
      assert a + b == a + init + [last];
    }
  }

  lemma SliceNumbers(log: seq<Event>, from: nat, until: nat)
    requires Consecutive(log) && from <= until <= |log|
    ensures forall i :: 0 <= i < until - from ==> SeqOrZero(log[from..until][i]) == from + i + 1
  {
  }

  lemma AfterSuffix(log: seq<Event>, from: nat, until: nat, since: nat)
    requires Consecutive(log) && from <= until <= |log|
    ensures After(log[from..until], since) == log[Clamp(since, from, until)..until]
  {
    var keep := Clamp(since, from, until);
    SliceNumbers(log, from, keep);
    SliceNumbers(log, keep, until);
    AfterNone(log[from..keep], since);
    AfterAll(log[keep..until], since);
    AfterConcat(log[from..keep], log[keep..until], since);
    assert log[from..until] == log[from..keep] + log[keep..until];
  }

  /** Where the replay for `since` starts in the log. */
  function ReplayStart(logged: nat, historySize: nat, since: nat): nat {
    Clamp(since, if logged <= historySize then 0 else logged - historySize, logged)
  }

  /** What a reconnecting client is sent: the events after `since`, or everything still buffered with a reset,
      the reset being signalled exactly when `since` is positive and older than the oldest buffered number. */
  lemma ReplayExactly(log: seq<Event>, historySize: nat, since: nat)
    requires Consecutive(log) && historySize > 0
    ensures var r := ReplayFrom(LastN(log, historySize), since);
            && r.events == log[ReplayStart(|log|, historySize, since)..]
            && r.newest == |log|
            && (r.reset <==> 0 < since < |log| - historySize + 1)
            && (!r.reset && 0 < since <= |log| ==> r.events == log[since..])
  {
    var first := if |log| <= historySize then 0 else |log| - historySize;
    assert LastN(log, historySize) == log[first..|log|];
    AfterSuffix(log, first, |log|, since);
  }

  /** The reset is cautious: it is also sent when the oldest buffered event is the very next one. */
  lemma ResetThoughNothingMissing(log: seq<Event>, historySize: nat, since: nat)
    requires Consecutive(log) && 0 < historySize < |log| && 0 < since <= |log|
    ensures var r := ReplayFrom(LastN(log, historySize), since);
            r.reset && r.events == log[since..] <==> since == |log| - historySize
  {
    ReplayExactly(log, historySize, since);
    if since < |log| - historySize {
      assert |log[since..]| != |log[ReplayStart(|log|, historySize, since)..]|;
    }
  }

  // ---------- a client that only replays ----------

  /** It never follows its queue: it keeps what each replay sent, clears it on a reset, and remembers the last
      number.  LogPages has the page, which also follows the queue. */
  datatype Client = Client(held: seq<Event>, lastSeq: nat)

  function Receive(k: Client, r: Replay): Client {
    var held := if r.reset then r.events else k.held + r.events;
    Client(held, if r.events != [] then SeqOrZero(r.events[|r.events| - 1]) else if r.reset then 0 else k.lastSeq)
  }

  datatype ClientOp = Published(e: Event) | Reconnected

  datatype ClientRun = ClientRun(channel: Channel, log: seq<Event>, client: Client)

  function ClientExec(ops: seq<ClientOp>, historySize: nat): ClientRun {
    if ops == [] then ClientRun(Channel([], 1, {}, map[], 0), [], Client([], 0))
    else
      var before := ClientExec(ops[..|ops| - 1], historySize);
      match ops[|ops| - 1]
      case Published(e) =>
        before.(channel := Append(before.channel, e, historySize), log := before.log + [Numbered(before.channel, e)])
      case Reconnected =>
        before.(client := Receive(before.client, ReplayFrom(before.channel.history, before.client.lastSeq)))
  }

  ghost predicate Unnumbered(ops: seq<ClientOp>) {
    forall i :: 0 <= i < |ops| && ops[i].Published? ==> ops[i].e.seqNo.None?
  }

  ghost predicate HoldsRun(k: Client, log: seq<Event>) {
    && |k.held| <= k.lastSeq <= |log|
    && k.held == log[k.lastSeq - |k.held|..k.lastSeq]
    && (k.lastSeq == 0 ==> k.held == [])
  }

  lemma LastNSnoc<T>(s: seq<T>, x: T, n: nat)
    ensures LastN(LastN(s, n) + [x], n) == LastN(s + [x], n)
  {
  }

  lemma SlicesJoin<T>(s: seq<T>, from: nat, mid: nat)
    requires from <= mid <= |s|
    ensures s[from..mid] + s[mid..] == s[from..|s|]
  {
  }

  lemma ReceiveFresh(k: Client, log: seq<Event>, start: nat, r: Replay)
    requires Consecutive(log) && start <= |log| && r.events == log[start..] && (start < |log| || log == [])
    requires r.reset || (k.lastSeq == 0 && k.held == [])
    ensures HoldsRun(Receive(k, r), log) && Receive(k, r).lastSeq == |log|
  {
    assert Receive(k, r).held == log[start..|log|];
  }

  lemma ReceiveMore(k: Client, log: seq<Event>, r: Replay)
    requires Consecutive(log) && HoldsRun(k, log) && !r.reset && r.events == log[k.lastSeq..]
    ensures HoldsRun(Receive(k, r), log) && Receive(k, r).lastSeq == |log|
  {
    SlicesJoin(log, k.lastSeq - |k.held|, k.lastSeq);
  }

  /** One replay, given what it holds. */
  lemma ReceiveReplay(k: Client, log: seq<Event>, start: nat, r: Replay)
    requires Consecutive(log) && HoldsRun(k, log)
    requires start <= |log| && r.events == log[start..]
    requires (r.reset || k.lastSeq == 0) ==> start < |log| || log == []
    requires !(r.reset || k.lastSeq == 0) ==> start == k.lastSeq
    ensures HoldsRun(Receive(k, r), log) && Receive(k, r).lastSeq == |log|
  {
    if r.reset || k.lastSeq == 0 {
      ReceiveFresh(k, log, start, r);
    } else {
      ReceiveMore(k, log, r);
    }
  }

  lemma ReplayStartFacts(logged: nat, historySize: nat, since: nat)
    requires historySize > 0 && since <= logged
    ensures var start := ReplayStart(logged, historySize, since);
            && start <= logged
            && (since == 0 || since < logged - historySize + 1 ==> start < logged || logged == 0)
            && (since > 0 && since >= logged - historySize + 1 ==> start == since)
  {
  }

  lemma NoHistoryNothingReceived(k: Client, log: seq<Event>)
    ensures Receive(k, ReplayFrom(LastN(log, 0), k.lastSeq)) == k
  {
    assert LastN(log, 0) == [];
    assert k.held + [] == k.held;
  }

  lemma ReceiveKeepsRun(k: Client, log: seq<Event>, historySize: nat)
    requires Consecutive(log) && HoldsRun(k, log)
    ensures var k' := Receive(k, ReplayFrom(LastN(log, historySize), k.lastSeq));
            HoldsRun(k', log) && (historySize > 0 ==> k'.lastSeq == |log|)
  {
    if historySize == 0 {
      NoHistoryNothingReceived(k, log);
    } else {
      var start := ReplayStart(|log|, historySize, k.lastSeq);
      ReplayExactly(log, historySize, k.lastSeq);
      ReplayStartFacts(|log|, historySize, k.lastSeq);
      ReceiveReplay(k, log, start, ReplayFrom(LastN(log, historySize), k.lastSeq));
    }
  }

  /** In every run of publishes (with their evictions) and reconnects, the history is the last events of the
      log, and a client that only replays holds a gap-free run of the log that ends at the number it remembers. */
  lemma {:induction false} ReplayClientHoldsRun(ops: seq<ClientOp>, historySize: nat)
    requires Unnumbered(ops)
    ensures var run := ClientExec(ops, historySize);
            && Consecutive(run.log)
            && run.channel.nextSeq == |run.log| + 1
            && run.channel.history == LastN(run.log, historySize)
            && HoldsRun(run.client, run.log)
  {
    if ops != [] {
      var before := ClientExec(ops[..|ops| - 1], historySize);
      ReplayClientHoldsRun(ops[..|ops| - 1], historySize);
      match ops[|ops| - 1]
      case Published(e) =>
        PublishKeepsRun(before, e, historySize);
      case Reconnected =>
        ReceiveKeepsRun(before.client, before.log, historySize);
    }
  }

  lemma PublishKeepsRun(before: ClientRun, e: Event, historySize: nat)
    requires Consecutive(before.log) && before.channel.nextSeq == |before.log| + 1 && e.seqNo.None?
    requires before.channel.history == LastN(before.log, historySize) && HoldsRun(before.client, before.log)
    ensures var log := before.log + [Numbered(before.channel, e)];
            && Consecutive(log) && HoldsRun(before.client, log)
            && Append(before.channel, e, historySize).history == LastN(log, historySize)
  {
    LastNSnoc(before.log, Numbered(before.channel, e), historySize);
  }
}
