/** The notification dispatcher of backend/notifications.py: per-key de-duplication over a table
    that is pruned as it is used. */
module Notifications {
  import opened Wrappers

  datatype Severity = Critical | Warn | Info

  datatype Event = Event(eventType: string, severity: Severity, installId: Option<string>, ts: real)

  type Key = (Option<string>, string)

  type Table = map<Key, real>

  function KeyOf(e: Event): Key {
    (e.installId, e.eventType)
  }

  function Ttl(s: Severity): real {
    match s
    case Critical => 300.0
    case Warn => 900.0
    case Info => 3600.0
  }

  const MAX_TTL: real := 3600.0
  const MIN_TTL: real := 300.0

  function LastSeen(table: Table, k: Key): real {
    if k in table then table[k] else 0.0
  }

  predicate Accepts(table: Table, e: Event) {
    e.ts - LastSeen(table, KeyOf(e)) >= Ttl(e.severity)
  }

  function Prune(table: Table, cutoff: real): Table {
    map k | k in table && table[k] >= cutoff :: table[k]
  }

  /** The table after an event whose type has channels. */
  function After(table: Table, e: Event, pruning: bool): Table {
    if !Accepts(table, e) then table
    else
      var recorded := table[KeyOf(e) := e.ts];
      if pruning then Prune(recorded, e.ts - MAX_TTL) else recorded
  }

  datatype Channel = Channel(enabled: bool, hasDriver: bool)

  class EventDispatcher {
    var rules: map<string, seq<string>>
    var channels: map<string, Channel>
    var dedup: Table

    constructor ()
      ensures dedup == map[] && rules == map[] && channels == map["toast" := Channel(true, true)]
    {
      rules := map[];
      channels := map["toast" := Channel(true, true)];
      dedup := map[];
    }

    /** The channels an event is handed to, in rule order. */
    method Dispatch(e: Event) returns (attempted: seq<string>)
      modifies this`dedup
      ensures var routed := e.eventType in rules && rules[e.eventType] != [];
              && dedup == (if routed then After(old(dedup), e, true) else old(dedup))
              && attempted == if routed && Accepts(old(dedup), e) then Deliverable(rules[e.eventType], channels) else []
    {
      attempted := [];
      if e.eventType !in rules || rules[e.eventType] == [] {
        return;
      }
      var key := KeyOf(e);
      var last := if key in dedup then dedup[key] else 0.0;
      if e.ts - last < Ttl(e.severity) {
        return;
      }
      dedup := dedup[key := e.ts];
      ghost var recorded := dedup;
      var cutoff := e.ts - MAX_TTL;
      var keys := dedup.Keys;
      while keys != {}
        invariant keys <= dedup.Keys <= recorded.Keys
        invariant forall k :: k in dedup ==> dedup[k] == recorded[k]
        invariant forall k :: k in recorded && k !in keys ==> (k in dedup <==> recorded[k] >= cutoff)
        decreases keys
      {
        var k :| k in keys;
        keys := keys - {k};
        if dedup[k] < cutoff {
          dedup := dedup - {k};
        }
      }
      assert dedup == Prune(recorded, cutoff);
      var names := rules[e.eventType];
      for i := 0 to |names|
        invariant attempted == Deliverable(names[..i], channels)
      {
        assert names[..i + 1][..i] == names[..i];
        if names[i] in channels && channels[names[i]].enabled && channels[names[i]].hasDriver {
          attempted := attempted + [names[i]];
        }
      }
      assert names[..|names|] == names;
    }
  }

  function Deliverable(names: seq<string>, channels: map<string, Channel>): seq<string> {
    if names == [] then []
    else
      var last := names[|names| - 1];
      Deliverable(names[..|names| - 1], channels)
        + if last in channels && channels[last].enabled && channels[last].hasDriver then [last] else []
  }

  // ---------- whole traces ----------

  /** An event together with whether the rules in force when it arrived gave it a channel. */
  datatype Arrival = Arrival(event: Event, routed: bool)

  function TableAfter(trace: seq<Arrival>, pruning: bool): Table {
    if trace == [] then map[]
    else
      var last := trace[|trace| - 1];
      var before := TableAfter(trace[..|trace| - 1], pruning);
      if last.routed then After(before, last.event, pruning) else before
  }

  predicate Sent(trace: seq<Arrival>, i: nat, pruning: bool)
    requires i < |trace|
  {
    trace[i].routed && Accepts(TableAfter(trace[..i], pruning), trace[i].event)
  }

  ghost predicate InOrder(trace: seq<Arrival>) {
    forall i, j :: 0 <= i < j < |trace| ==> trace[i].event.ts <= trace[j].event.ts
  }

  /** How far an event of a severity may lie behind an earlier one. */
  function Slack(s: Severity): real {
    MAX_TTL - Ttl(s)
  }

  ghost predicate NeverTooLate(trace: seq<Arrival>) {
    forall i, j :: 0 <= i < j < |trace| ==>
      trace[i].event.ts <= trace[j].event.ts + Slack(trace[j].event.severity)
  }

  /** How the pruned table relates to the table that is never pruned, all timestamps so far being at most `high`. */
  ghost predicate Agree(pruned: Table, full: Table, high: real) {
    && pruned.Keys <= full.Keys
    && (forall k :: k in pruned ==> pruned[k] == full[k])
    && (forall k :: k in full ==> MIN_TTL <= full[k] <= high)
    && (forall k :: k in full && k !in pruned ==> full[k] + MAX_TTL < high)
  }

  lemma AgreeSameDecision(pruned: Table, full: Table, high: real, e: Event)
    requires Agree(pruned, full, high) && high <= e.ts + Slack(e.severity)
    ensures Accepts(pruned, e) == Accepts(full, e)
  {
  }

  lemma AgreeAfter(pruned: Table, full: Table, high: real, e: Event)
    requires Agree(pruned, full, high) && e.ts <= high && Accepts(pruned, e) == Accepts(full, e)
    ensures Agree(After(pruned, e, true), After(full, e, false), high)
  {
  }

  lemma LateBound(trace: seq<Arrival>)
    requires NeverTooLate(trace) && trace != []
    ensures var init, e := trace[..|trace| - 1], trace[|trace| - 1].event;
            NeverTooLate(init) && forall a :: a in init ==> a.event.ts <= e.ts + Slack(e.severity)
  {
    var init := trace[..|trace| - 1];
    assert forall i :: 0 <= i < |init| ==> init[i] == trace[i];
  }

  lemma {:induction false} TablesAgree(trace: seq<Arrival>, high: real)
    requires NeverTooLate(trace) && forall a :: a in trace ==> a.event.ts <= high
    ensures Agree(TableAfter(trace, true), TableAfter(trace, false), high)
  {
    if trace != [] {
      var init, e := trace[..|trace| - 1], trace[|trace| - 1].event;
      LateBound(trace);
      TablesAgree(init, e.ts + Slack(e.severity));
      AgreeSameDecision(TableAfter(init, true), TableAfter(init, false), e.ts + Slack(e.severity), e);
      TablesAgree(init, high);
      AgreeAfter(TableAfter(init, true), TableAfter(init, false), high, e);
    }
  }

  /** Everything before the i-th event is never too late, and no later than the i-th by more than its slack. */
  ghost predicate OnTime(trace: seq<Arrival>, i: nat)
    requires i < |trace|
  {
    && NeverTooLate(trace[..i])
    && forall a :: a in trace[..i] ==> a.event.ts <= trace[i].event.ts + Slack(trace[i].event.severity)
  }

  /** Events may come out of order within their slack, and pruning stays invisible. */
  lemma PruningInvisibleOnTime(trace: seq<Arrival>, i: nat)
    requires i < |trace| && OnTime(trace, i)
    ensures Sent(trace, i, true) == Sent(trace, i, false)
  {
    var e := trace[i].event;
    TablesAgree(trace[..i], e.ts + Slack(e.severity));
    AgreeSameDecision(TableAfter(trace[..i], true), TableAfter(trace[..i], false), e.ts + Slack(e.severity), e);
  }

  lemma InOrderIsOnTime(trace: seq<Arrival>, i: nat)
    requires InOrder(trace) && i < |trace|
    ensures OnTime(trace, i) && NeverTooLate(trace)
  {
    assert forall j :: 0 <= j < i ==> trace[..i][j] == trace[j];
  }

  /** Pruning is invisible: in every time-ordered trace the same events go out. */
  lemma PruningIsInvisible(trace: seq<Arrival>, i: nat)
    requires InOrder(trace) && i < |trace|
    ensures Sent(trace, i, true) == Sent(trace, i, false)
  {
    InOrderIsOnTime(trace, i);
    PruningInvisibleOnTime(trace, i);
  }

  function At(key: Option<string>, kind: string, severity: Severity, ts: real): Arrival {
    Arrival(Event(kind, severity, key, ts), true)
  }

  /** Whatever came before in order, an event of the severity that lies at most `back` behind is decided alike. */
  ghost predicate InvisibleWithin(severity: Severity, back: real) {
    forall trace: seq<Arrival>, e: Event ::
      InOrder(trace) && e.severity == severity && (forall a :: a in trace ==> a.event.ts <= e.ts + back) ==>
        Accepts(TableAfter(trace, true), e) == Accepts(TableAfter(trace, false), e)
  }

  lemma InvisibleWithinSlack(trace: seq<Arrival>, e: Event)
    requires InOrder(trace) && forall a :: a in trace ==> a.event.ts <= e.ts + Slack(e.severity)
    ensures Accepts(TableAfter(trace, true), e) == Accepts(TableAfter(trace, false), e)
  {
    TablesAgree(trace, e.ts + Slack(e.severity));
    AgreeSameDecision(TableAfter(trace, true), TableAfter(trace, false), e.ts + Slack(e.severity), e);
  }

  lemma TwoTables(first: Arrival, second: Arrival)
    requires first.routed && second.routed && KeyOf(first.event) != KeyOf(second.event)
    requires first.event.ts >= MAX_TTL && second.event.ts > first.event.ts + MAX_TTL
    ensures TableAfter([first, second], true) == map[KeyOf(second.event) := second.event.ts]
    ensures TableAfter([first, second], false)
         == map[KeyOf(first.event) := first.event.ts, KeyOf(second.event) := second.event.ts]
  {
    assert [first, second][..1] == [first] && [first][..0] == [];
    assert TableAfter([first], true) == map[KeyOf(first.event) := first.event.ts];
    assert TableAfter([first], false) == map[KeyOf(first.event) := first.event.ts];
  }

  /** The second event prunes the first, and a third that lies further back is let through too early. */
  lemma PruningVisibleBeyond(severity: Severity, back: real) returns (trace: seq<Arrival>, e: Event)
    requires back > Slack(severity)
    ensures InOrder(trace) && e.severity == severity && forall a :: a in trace ==> a.event.ts <= e.ts + back
    ensures Accepts(TableAfter(trace, true), e) && !Accepts(TableAfter(trace, false), e)
  {
    var late := back + 8000.0;
    var first := At(None, "a", Info, late - MAX_TTL - (back - Slack(severity)) / 2.0);
    var second := At(None, "b", Info, late);
    assert "a" != "b" by { assert "a"[0] != "b"[0]; }
    trace := [first, second];
    e := Event("a", severity, None, 8000.0);
    TwoTables(first, second);
  }

  /** For events that may come out of order: pruning stays invisible exactly up to the difference between the longest
      TTL and the event's own. */
  lemma PruningInvisibleExactly(severity: Severity, back: real)
    requires back >= 0.0
    ensures InvisibleWithin(severity, back) <==> back <= Slack(severity)
  {
    if back <= Slack(severity) {
      forall trace: seq<Arrival>, e: Event
        | InOrder(trace) && e.severity == severity && forall a :: a in trace ==> a.event.ts <= e.ts + back
        ensures Accepts(TableAfter(trace, true), e) == Accepts(TableAfter(trace, false), e)
      {
        InvisibleWithinSlack(trace, e);
      }
    } else {
      var trace, e := PruningVisibleBeyond(severity, back);
    }
  }

  // ---------- rate limits ----------

  lemma {:induction false} SentIsRecorded(trace: seq<Arrival>, i: nat, k: Key)
    requires InOrder(trace) && i < |trace| && Sent(trace, i, false) && KeyOf(trace[i].event) == k
    ensures k in TableAfter(trace, false) && TableAfter(trace, false)[k] >= trace[i].event.ts
  {
    var init, last := trace[..|trace| - 1], trace[|trace| - 1];
    if i < |trace| - 1 {
      assert init[..i] == trace[..i];
      SentIsRecorded(init, i, k);
    }
  }

  lemma {:induction false} RecordedWasSent(trace: seq<Arrival>, k: Key) returns (i: nat)
    requires k in TableAfter(trace, false)
    ensures i < |trace| && Sent(trace, i, false) && KeyOf(trace[i].event) == k
    ensures trace[i].event.ts == TableAfter(trace, false)[k]
  {
    var init, last := trace[..|trace| - 1], trace[|trace| - 1];
    if Sent(trace, |trace| - 1, false) && KeyOf(last.event) == k {
      i := |trace| - 1;
    } else {
      i := RecordedWasSent(init, k);
      assert init[..i] == trace[..i];
    }
  }

  /** Seconds for which a sent event silences the next of its kind. */
  predicate FarEnough(severity: Severity, before: real, now: real) {
    now - before >= match severity case Critical => 300.0 case Warn => 900.0 case Info => 3600.0
  }

  /** The j-th event is of the same install and type as the i-th. */
  predicate SameKind(trace: seq<Arrival>, i: nat, j: nat)
    requires i < |trace| && j < |trace|
  {
    trace[i].event.installId == trace[j].event.installId && trace[i].event.eventType == trace[j].event.eventType
  }

  /** In time order an event is sent exactly when its type has channels, its timestamp is past the first TTL, and no
      event of the same install and type was sent within the TTL; events of other installs or types play no part. */
  lemma SentExactly(trace: seq<Arrival>, i: nat)
    requires InOrder(trace) && i < |trace|
    ensures Sent(trace, i, true) <==>
            && trace[i].routed && FarEnough(trace[i].event.severity, 0.0, trace[i].event.ts)
            && forall j :: 0 <= j < i && SameKind(trace, i, j) && Sent(trace, j, true) ==>
                 FarEnough(trace[i].event.severity, trace[j].event.ts, trace[i].event.ts)
  {
    var e, init := trace[i].event, trace[..i];
    PruningIsInvisible(trace, i);
    forall j | 0 <= j < i ensures Sent(trace, j, true) <==> Sent(init, j, false) {
      PruningIsInvisible(trace, j);
      assert init[..j] == trace[..j];
    }
    forall j | 0 <= j < i && SameKind(trace, i, j) && Sent(init, j, false)
      ensures KeyOf(e) in TableAfter(init, false) && TableAfter(init, false)[KeyOf(e)] >= trace[j].event.ts
    {
      SentIsRecorded(init, j, KeyOf(e));
    }
    if KeyOf(e) in TableAfter(init, false) {
      var j := RecordedWasSent(init, KeyOf(e));
      assert SameKind(trace, i, j) && trace[j].event.ts == TableAfter(init, false)[KeyOf(e)];
      OldEnough(trace, j);
    }
  }

  lemma OldEnough(trace: seq<Arrival>, j: nat)
    requires InOrder(trace) && j < |trace| && Sent(trace, j, true)
    ensures trace[j].event.ts >= 300.0
  {
    PruningIsInvisible(trace, j);
    assert forall a :: a in trace[..j] ==> a.event.ts <= trace[j].event.ts;
    InOrderIsOnTime(trace, j);
    TablesAgree(trace[..j], trace[j].event.ts + Slack(trace[j].event.severity));
  }

  /** A channel is attempted once for each time the rule lists it, if it exists, is enabled and has a driver, and
      otherwise never. */
  lemma {:induction false} AttemptedExactly(names: seq<string>, channels: map<string, Channel>, c: string)
    ensures multiset(Deliverable(names, channels))[c] ==
            if c in channels && channels[c].enabled && channels[c].hasDriver then multiset(names)[c] else 0
  {
    if names != [] {
      var init, last := names[..|names| - 1], names[|names| - 1];
      AttemptedExactly(init, channels, c);
      assert names == init + [last];
    }
  }

  /** Two sent events of one key are at least the later one's TTL apart. */
  lemma SentSpacing(trace: seq<Arrival>, i: nat, j: nat)
    requires InOrder(trace) && i < j < |trace|
    requires Sent(trace, i, true) && Sent(trace, j, true) && KeyOf(trace[i].event) == KeyOf(trace[j].event)
    ensures trace[j].event.ts - trace[i].event.ts >= Ttl(trace[j].event.severity)
  {
    PruningIsInvisible(trace, i);
    PruningIsInvisible(trace, j);
    assert trace[..j][..i] == trace[..i];
    SentIsRecorded(trace[..j], i, KeyOf(trace[i].event));
  }

  predicate Counts(trace: seq<Arrival>, i: nat, k: Key, from: real, until: real)
    requires i < |trace|
  {
    Sent(trace, i, true) && KeyOf(trace[i].event) == k && from <= trace[i].event.ts <= until
  }

  /** How many of the first `n` events were sent for `k` with a timestamp in the window. */
  function SentInWindow(trace: seq<Arrival>, n: nat, k: Key, from: real, until: real): nat
    requires n <= |trace|
  {
    if n == 0 then 0
    else SentInWindow(trace, n - 1, k, from, until) + if Counts(trace, n - 1, k, from, until) then 1 else 0
  }

  lemma {:induction false} WindowReach(trace: seq<Arrival>, n: nat, k: Key, from: real, until: real) returns (last: nat)
    requires InOrder(trace) && n <= |trace| && SentInWindow(trace, n, k, from, until) > 0
    ensures last < n && Counts(trace, last, k, from, until)
    ensures trace[last].event.ts >= from + MIN_TTL * (SentInWindow(trace, n, k, from, until) - 1) as real
  {
    if !Counts(trace, n - 1, k, from, until) {
      last := WindowReach(trace, n - 1, k, from, until);
    } else {
      last := n - 1;
      if SentInWindow(trace, n - 1, k, from, until) > 0 {
        var before := WindowReach(trace, n - 1, k, from, until);
        SentSpacing(trace, before, last);
      }
    }
  }

  /** A window of length `w` sees at most `w / 300 + 1` sent events of one key. */
  lemma WindowBound(trace: seq<Arrival>, k: Key, from: real, w: real)
    requires InOrder(trace) && w >= 0.0
    ensures SentInWindow(trace, |trace|, k, from, from + w) <= (w / MIN_TTL).Floor + 1
  {
    var n := SentInWindow(trace, |trace|, k, from, from + w);
    if n > 0 {
      var last := WindowReach(trace, |trace|, k, from, from + w);
      assert MIN_TTL * (n - 1) as real <= w;
    }
  }

  /** Right after a sent event, every table entry is at most 3600 seconds old. */
  lemma TableStaysRecent(trace: seq<Arrival>, i: nat, k: Key)
    requires InOrder(trace) && i < |trace| && Sent(trace, i, true) && k in TableAfter(trace[..i + 1], true)
    ensures 0.0 <= trace[i].event.ts - TableAfter(trace[..i + 1], true)[k] <= MAX_TTL
  {
    assert trace[..i + 1][..i] == trace[..i];
    assert forall j :: 0 <= j <= i ==> trace[..i + 1][j] == trace[j];
    InOrderIsOnTime(trace[..i + 1], i);
    TablesAgree(trace[..i + 1], trace[i].event.ts);
  }
}
