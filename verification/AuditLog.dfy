/** The audit store of backend/audit_log.py. SQLite itself is represented by what a query may answer. */
module AuditLog {
  import opened Wrappers
  import opened Collections
  import opened Decimals

  datatype Json =
    | Null
    | Boolean(b: bool)
    | Number(n: real)
    | Text(s: string)
    | List(items: seq<Json>)
    | Object(fields: map<string, Json>)

  predicate Truthy(j: Json) {
    match j
    case Null => false
    case Boolean(b) => b
    case Number(n) => n != 0.0
    case Text(s) => s != ""
    case List(items) => items != []
    case Object(fields) => fields != map[]
  }

  datatype Entry = Entry(
    entryId: string, ts: real, actor: string, action: string, resourceType: string, resourceId: string,
    payload: map<string, Json>, ip: Option<string>)

  /** The payload column: NULL or empty, text that is not JSON, or JSON text. */
  datatype Column = Empty | NotJson(text: string) | Parsed(json: Json)

  datatype Row = Row(
    id: nat, user: Option<string>, action: string, resourceType: string, resourceId: Option<string>,
    ts: real, ip: Option<string>, payload: Column)

  const ENTRY_ID: string := "_entry_id"
  const RAW: string := "_raw"
  const SYSTEM: string := "system"

  // ---------- one entry in, one entry out ----------

  function RowOf(e: Entry, id: nat): Row {
    var stashed := if ENTRY_ID in e.payload then e.payload else e.payload[ENTRY_ID := Text(e.entryId)];
    Row(id, if e.actor == SYSTEM then None else Some(e.actor), e.action, e.resourceType, Some(e.resourceId),
        e.ts, e.ip, Parsed(Object(stashed)))
  }

  function PayloadOf(column: Column): map<string, Json> {
    match column
    case Empty => map[]
    case NotJson(text) => map[RAW := Text(text)]
    case Parsed(json) => if json.Object? then json.fields else map[RAW := json]
  }

  /** A payload that is not a JSON object reads as an object that holds it, and an empty column as an empty object. */
  lemma PayloadExactly(column: Column, fields: map<string, Json>)
    ensures PayloadOf(Parsed(Object(fields))) == fields && PayloadOf(Empty) == map[]
    ensures column.NotJson? ==> PayloadOf(column) == map["_raw" := Text(column.text)]
    ensures column.Parsed? && !column.json.Object? ==> PayloadOf(column) == map["_raw" := column.json]
  {
  }

  /** `show` renders the values that are not text the way Python's str does. */
  function Shown(j: Json, show: Json -> string): string {
    if j.Text? then j.s else show(j)
  }

  function ActorOf(user: Option<string>): string {
    if user.None? || user.value == "" then SYSTEM else user.value
  }

  function EntryOf(row: Row, show: Json -> string): Entry {
    var payload := PayloadOf(row.payload);
    var found := ENTRY_ID in payload && Truthy(payload[ENTRY_ID]);
    Entry(
      if found then Shown(payload[ENTRY_ID], show) else Decimal(row.id),
      row.ts, ActorOf(row.user), row.action, row.resourceType,
      if row.resourceId.None? then "" else row.resourceId.value,
      if found then payload - {ENTRY_ID} else payload,
      row.ip)
  }

  /** What a caller can check before writing; the last case needs the row id the engine will assign. */
  predicate RoundTrips(e: Entry, id: nat) {
    && e.actor != ""
    && (if ENTRY_ID !in e.payload then e.entryId != ""
        else !Truthy(e.payload[ENTRY_ID]) && e.entryId == Decimal(id))
  }

  lemma StashRemoved(payload: map<string, Json>, id: string)
    requires ENTRY_ID !in payload
    ensures payload[ENTRY_ID := Text(id)] - {ENTRY_ID} == payload
  {
  }

  /** A written entry reads back as itself exactly when its actor is non-empty and its id survives. */
  lemma WriteReadExactly(e: Entry, id: nat, show: Json -> string)
    ensures EntryOf(RowOf(e, id), show) == e <==> RoundTrips(e, id)
  {
    var back := EntryOf(RowOf(e, id), show);
    if ENTRY_ID !in e.payload {
      StashRemoved(e.payload, e.entryId);
      assert e.entryId == "" ==> ENTRY_ID in back.payload;
    } else if Truthy(e.payload[ENTRY_ID]) {
      assert ENTRY_ID !in back.payload;
    }
  }

  /** Whatever happens to the id, every other column comes back; only an empty actor changes, to "system". */
  lemma OtherFieldsSurvive(e: Entry, id: nat, show: Json -> string)
    ensures var back := EntryOf(RowOf(e, id), show);
            && back.ts == e.ts && back.action == e.action && back.resourceType == e.resourceType
            && back.resourceId == e.resourceId && back.ip == e.ip
            && back.actor == (if e.actor == "" then SYSTEM else e.actor)
            && forall k :: k != ENTRY_ID ==>
                 (k in back.payload <==> k in e.payload) && (k in e.payload ==> back.payload[k] == e.payload[k])
  {
    var stashed := RowOf(e, id).payload.json.fields;
    assert forall k :: k != ENTRY_ID ==>
      (k in stashed <==> k in e.payload) && (k in e.payload ==> stashed[k] == e.payload[k]);
  }

  // ---------- queries ----------

  datatype Query = Query(
    actor: Option<string>, action: Option<string>, resourceType: Option<string>, since: Option<real>, limit: int)

  const MAX_LIMIT: nat := 5000

  function Limit(q: Query): nat {
    var capped := if q.limit < MAX_LIMIT then q.limit else MAX_LIMIT;
    if capped < 1 then 1 else capped
  }

  /** A limit between 1 and 5000 is taken as it is; others are moved to the nearer end. */
  lemma LimitExactly(q: Query)
    ensures 1 <= Limit(q) <= 5000
    ensures 1 <= q.limit <= 5000 ==> Limit(q) == q.limit
    ensures (q.limit < 1 ==> Limit(q) == 1) && (q.limit > 5000 ==> Limit(q) == 5000)
  {
  }

  predicate Is<T(==)>(filter: Option<T>, value: T) {
    filter.None? || filter.value == value
  }

  predicate Matches(q: Query, row: Row) {
    && (q.actor.None? || row.user == if q.actor.value == SYSTEM then None else q.actor)
    && Is(q.action, row.action)
    && Is(q.resourceType, row.resourceType)
    && (q.since.None? || row.ts >= q.since.value)
  }

  function Matching(rows: set<Row>, q: Query): set<Row> {
    set row | row in rows && Matches(q, row)
  }

  ghost predicate NewestFirst(answer: seq<Row>) {
    forall i, j :: 0 <= i < j < |answer| ==> answer[i].ts >= answer[j].ts && answer[i] != answer[j]
  }

  ghost predicate NothingNewerOutside(matching: set<Row>, answer: seq<Row>) {
    forall x, y :: x in matching && x !in answer && y in answer ==> x.ts <= y.ts
  }

  /** The newest `limit` rows of a set, ties in any order. */
  ghost predicate IsTop(matching: set<Row>, limit: nat, answer: seq<Row>) {
    && NewestFirst(answer)
    && Elems(answer) <= matching
    && |answer| == (if |matching| < limit then |matching| else limit)
    && NothingNewerOutside(matching, answer)
  }

  /** What the engine may fetch for a query. */
  ghost predicate IsAnswer(rows: set<Row>, q: Query, answer: seq<Row>) {
    IsTop(Matching(rows, q), Limit(q), answer)
  }

  /** Filters on the columns are filters on the entry that was written. */
  lemma FiltersSeeTheEntry(e: Entry, id: nat, q: Query)
    ensures Matches(q, RowOf(e, id)) <==>
            && Is(q.actor, e.actor) && Is(q.action, e.action) && Is(q.resourceType, e.resourceType)
            && (q.since.None? || e.ts >= q.since.value)
  {
  }

  // ---------- the store ----------

  function Kept(rows: set<Row>, cutoff: real): set<Row> {
    set row | row in rows && row.ts >= cutoff
  }

  const DAY: real := 86400.0

  class AuditStore {
    var rows: set<Row>
    var nextId: nat

    ghost predicate Valid()
      reads this
    {
      forall row :: row in rows ==> row.id < nextId
    }

    constructor ()
      ensures Valid() && rows == {} && nextId == 1
    {
      rows := {};
      nextId := 1;
    }

    /** An engine error drops the entry. */
    method Write(e: Entry, engineFails: bool)
      requires Valid()
      modifies this
      ensures Valid()
      ensures engineFails ==> rows == old(rows) && nextId == old(nextId)
      ensures !engineFails ==> rows == old(rows) + {RowOf(e, old(nextId))} && nextId == old(nextId) + 1
    {
      if engineFails {
        return;
      }
      var stashed := e.payload;
      if ENTRY_ID !in stashed {
        stashed := stashed[ENTRY_ID := Text(e.entryId)];
      }
      var user := if e.actor != SYSTEM then Some(e.actor) else None;
      rows := rows + {Row(nextId, user, e.action, e.resourceType, Some(e.resourceId), e.ts, e.ip,
                          Parsed(Object(stashed)))};
      nextId := nextId + 1;
    }

    /** `answer` is what the engine fetched. */
    method Find(ghost q: Query, answer: seq<Row>, show: Json -> string) returns (out: seq<Entry>)
      requires IsAnswer(rows, q, answer)
      ensures |out| == |answer| && forall i :: 0 <= i < |out| ==> out[i] == EntryOf(answer[i], show)
    {
      out := [];
      for k := 0 to |answer|
        invariant |out| == k && forall i :: 0 <= i < k ==> out[i] == EntryOf(answer[i], show)
      {
        var row := answer[k];
        var payload := PayloadOf(row.payload);
        var resourceId := if row.resourceId.None? then "" else row.resourceId.value;
        var entry := Entry(Decimal(row.id), row.ts, ActorOf(row.user), row.action, row.resourceType, resourceId,
                           payload, row.ip);
        if ENTRY_ID in payload && Truthy(payload[ENTRY_ID]) {
          entry := entry.(entryId := Shown(payload[ENTRY_ID], show), payload := payload - {ENTRY_ID});
        }
        out := out + [entry];
      }
    }

    /** None when the retention is not positive. */
    method RetentionPrune(days: int, now: real) returns (deleted: Option<nat>)
      requires Valid()
      modifies this`rows
      ensures Valid()
      ensures deleted.None? <==> days <= 0
      ensures rows == if days <= 0 then old(rows) else Kept(old(rows), now - days as real * DAY)
      ensures days > 0 ==>
                forall row :: row in rows <==> row in old(rows) && row.ts >= now - days as real * 86400.0
      ensures deleted.Some? ==> deleted.value == |old(rows)| - |rows|
    {
      if days <= 0 {
        return None;
      }
      var all := rows;
      var cutoff := now - days as real * DAY;
      rows := Kept(rows, cutoff);
      SubsetSize(rows, all);
      deleted := Some(|all| - |rows|);
    }
  }

  lemma {:induction false} SubsetSize<T>(a: set<T>, b: set<T>)
    requires a <= b
    ensures |a| <= |b|
  {
    if a != {} {
      var x :| x in a;
      SubsetSize(a - {x}, b - {x});
    }
  }

  // ---------- written entries are found ----------

  lemma SameSize<T>(a: set<T>, b: set<T>)
    requires a <= b && |a| == |b|
    ensures a == b
  {
    if x :| x in b && x !in a {
      SubsetSize(a, b - {x});
    }
  }

  /** Within the limit, an answer lists every matching row. */
  lemma AnswerIsComplete(rows: set<Row>, q: Query, answer: seq<Row>)
    requires IsAnswer(rows, q, answer) && |Matching(rows, q)| <= Limit(q)
    ensures Elems(answer) == Matching(rows, q)
  {
    DistinctSize(answer);
    SameSize(Elems(answer), Matching(rows, q));
  }

  /** A freshly written entry is in every answer of a query it satisfies while the limit has room for it. */
  lemma WrittenIsFound(rows: set<Row>, e: Entry, id: nat, q: Query, answer: seq<Row>, show: Json -> string)
    requires RoundTrips(e, id)
    requires var after := rows + {RowOf(e, id)};
             IsAnswer(after, q, answer) && |Matching(after, q)| <= Limit(q)
    requires Is(q.actor, e.actor) && Is(q.action, e.action) && Is(q.resourceType, e.resourceType)
    requires q.since.None? || e.ts >= q.since.value
    ensures exists i :: 0 <= i < |answer| && EntryOf(answer[i], show) == e
  {
    var row := RowOf(e, id);
    FiltersSeeTheEntry(e, id, q);
    AnswerIsComplete(rows + {row}, q, answer);
    assert row in Elems(answer);
    var i :| 0 <= i < |answer| && answer[i] == row;
    WriteReadExactly(e, id, show);
  }

  // ---------- pruning and queries commute ----------

  /** When enough rows are recent, the newest ones are all recent. */
  lemma TopIsRecent(matching: set<Row>, limit: nat, answer: seq<Row>, cutoff: real, y: Row)
    requires IsTop(matching, limit, answer) && limit <= |Kept(matching, cutoff)| && y in answer
    ensures y.ts >= cutoff
  {
    if y.ts < cutoff {
      assert Kept(matching, cutoff) <= Elems(answer) - {y};
      DistinctSize(answer);
      SubsetSize(Kept(matching, cutoff), Elems(answer) - {y});
    }
  }

  /** `fewer` is `more` without some rows older than the cutoff. */
  ghost predicate LosesOnlyOld(more: set<Row>, fewer: set<Row>, cutoff: real) {
    fewer <= more && forall row :: row in more - fewer ==> row.ts < cutoff
  }

  lemma TopAgrees(more: set<Row>, fewer: set<Row>, cutoff: real, limit: nat, answer: seq<Row>)
    requires LosesOnlyOld(more, fewer, cutoff) && limit <= |Kept(fewer, cutoff)|
    ensures IsTop(more, limit, answer) <==> IsTop(fewer, limit, answer)
  {
    assert Kept(more, cutoff) == Kept(fewer, cutoff);
    SubsetSize(Kept(fewer, cutoff), fewer);
    SubsetSize(fewer, more);
    if IsTop(more, limit, answer) {
      forall y | y in answer ensures y in fewer {
        TopIsRecent(more, limit, answer, cutoff, y);
      }
      assert Elems(answer) <= fewer;
    } else if IsTop(fewer, limit, answer) {
      forall x, y | x in more && x !in answer && y in answer ensures x.ts <= y.ts {
        TopIsRecent(fewer, limit, answer, cutoff, y);
      }
      assert NothingNewerOutside(more, answer);
    }
  }

  lemma MatchingLosesOnlyOld(more: set<Row>, fewer: set<Row>, cutoff: real, q: Query)
    requires LosesOnlyOld(more, fewer, cutoff)
    ensures LosesOnlyOld(Matching(more, q), Matching(fewer, q), cutoff)
    ensures q.since.Some? && q.since.value >= cutoff ==> Matching(more, q) == Matching(fewer, q)
  {
    if q.since.Some? && q.since.value >= cutoff {
      assert forall row :: row in more && Matches(q, row) ==> row.ts >= cutoff;
      assert forall row :: row in Matching(more, q) ==> row in Matching(fewer, q);
    }
  }

  /** Losing rows older than a cutoff is invisible to queries from the cutoff on, and to queries that recent rows
      fill. */
  lemma OldRowsAreInvisible(more: set<Row>, fewer: set<Row>, cutoff: real, q: Query, answer: seq<Row>)
    requires LosesOnlyOld(more, fewer, cutoff)
    requires (q.since.Some? && q.since.value >= cutoff) || Limit(q) <= |Kept(Matching(fewer, q), cutoff)|
    ensures IsAnswer(more, q, answer) <==> IsAnswer(fewer, q, answer)
  {
    MatchingLosesOnlyOld(more, fewer, cutoff, q);
    if !(q.since.Some? && q.since.value >= cutoff) {
      TopAgrees(Matching(more, q), Matching(fewer, q), cutoff, Limit(q), answer);
    }
  }

  /** The two ways a prune can miss a query: nothing it wants is deleted, or what is kept fills the limit. */
  ghost predicate PruneMisses(rows: set<Row>, cutoff: real, q: Query) {
    || Limit(q) <= |Matching(Kept(rows, cutoff), q)|
    || forall row :: row in rows && Matches(q, row) ==> row.ts >= cutoff
  }

  /** A prune leaves a query's answers alone exactly when it misses the query; otherwise every answer gets shorter. */
  lemma PruneInvisibleExactly(rows: set<Row>, cutoff: real, q: Query, before: seq<Row>, after: seq<Row>)
    ensures PruneMisses(rows, cutoff, q) ==>
              (IsAnswer(rows, q, before) <==> IsAnswer(Kept(rows, cutoff), q, before))
    ensures !PruneMisses(rows, cutoff, q) && IsAnswer(rows, q, before) && IsAnswer(Kept(rows, cutoff), q, after) ==>
              |after| < |before|
  {
    var all, kept := Matching(rows, q), Matching(Kept(rows, cutoff), q);
    assert kept == Kept(all, cutoff) == Kept(kept, cutoff);
    if forall row :: row in rows && Matches(q, row) ==> row.ts >= cutoff {
      assert all == kept;
    } else if Limit(q) <= |kept| {
      TopAgrees(all, kept, cutoff, Limit(q), before);
    } else {
      var row :| row in rows && Matches(q, row) && row.ts < cutoff;
      assert row in all && kept <= all - {row};
      SubsetSize(kept, all - {row});
    }
  }

  // ---------- whole runs ----------

  datatype Log = Log(rows: set<Row>, nextId: nat)

  datatype Action = Insert(entry: Entry) | Delete(cutoff: real)

  function Step(log: Log, a: Action, pruning: bool): Log {
    match a
    case Insert(e) => Log(log.rows + {RowOf(e, log.nextId)}, log.nextId + 1)
    case Delete(cutoff) => if pruning then log.(rows := Kept(log.rows, cutoff)) else log
  }

  function Run(actions: seq<Action>, pruning: bool): Log {
    if actions == [] then Log({}, 1)
    else Step(Run(actions[..|actions| - 1], pruning), actions[|actions| - 1], pruning)
  }

  ghost predicate CutoffsUpTo(actions: seq<Action>, cutoff: real) {
    forall i :: 0 <= i < |actions| && actions[i].Delete? ==> actions[i].cutoff <= cutoff
  }

  lemma {:induction false} RunsDifferByOldRows(actions: seq<Action>, cutoff: real)
    requires CutoffsUpTo(actions, cutoff)
    ensures Run(actions, true).nextId == Run(actions, false).nextId
    ensures LosesOnlyOld(Run(actions, false).rows, Run(actions, true).rows, cutoff)
  {
    if actions != [] {
      var init, a := actions[..|actions| - 1], actions[|actions| - 1];
      assert forall i :: 0 <= i < |init| ==> init[i] == actions[i];
      RunsDifferByOldRows(init, cutoff);
    }
  }

  /** After any writes and prunes, a query from the latest cutoff on, or one that rows since then fill, cannot tell
      the pruned store from one that never deletes. */
  lemma RunsAnswerAlike(actions: seq<Action>, cutoff: real, q: Query, answer: seq<Row>)
    requires CutoffsUpTo(actions, cutoff)
    requires (q.since.Some? && q.since.value >= cutoff)
             || Limit(q) <= |Kept(Matching(Run(actions, true).rows, q), cutoff)|
    ensures IsAnswer(Run(actions, false).rows, q, answer) <==> IsAnswer(Run(actions, true).rows, q, answer)
  {
    RunsDifferByOldRows(actions, cutoff);
    OldRowsAreInvisible(Run(actions, false).rows, Run(actions, true).rows, cutoff, q, answer);
  }
}
