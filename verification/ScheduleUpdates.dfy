/** Which updates of the schedules file survive: every writer puts back the whole file it has read, so an update is
    undone by a writer that read before it and wrote after it. */
module ScheduleUpdates {
  import opened Wrappers
  import opened Schedules
  import opened SchedulerRuns

  // ---------- versions made from versions ----------

  /** `bases[i]` is the version that version i + 1 was made from. */
  ghost predicate Based(bases: seq<nat>) {
    forall i :: 0 <= i < |bases| ==> bases[i] <= i
  }

  /** Version v was made from version k, directly or not. */
  ghost predicate Kept(bases: seq<nat>, v: nat, k: nat)
    requires Based(bases) && v <= |bases|
    decreases v
  {
    v == k || (v > 0 && Kept(bases, bases[v - 1], k))
  }

  /** The writer of version m read its file before version k was written. */
  predicate Overtakes(bases: seq<nat>, m: nat, k: nat)
    requires 0 < m <= |bases|
  {
    bases[m - 1] < k < m
  }

  lemma {:induction false} NotKeptBefore(bases: seq<nat>, v: nat, k: nat)
    requires Based(bases) && v <= |bases| && v < k
    ensures !Kept(bases, v, k)
    decreases v
  {
    if v > 0 {
      NotKeptBefore(bases, bases[v - 1], k);
    }
  }

  lemma {:induction false} KeptUnlessOvertaken(bases: seq<nat>, v: nat, k: nat)
    requires Based(bases) && k <= v <= |bases|
    requires forall m :: k < m <= v ==> !Overtakes(bases, m, k)
    ensures Kept(bases, v, k)
    decreases v
  {
    if k < v {
      assert !Overtakes(bases, v, k);
      KeptUnlessOvertaken(bases, bases[v - 1], k);
    }
  }

  lemma OvertakenIsLost(bases: seq<nat>, m: nat, k: nat)
    requires Based(bases) && 0 < m <= |bases| && Overtakes(bases, m, k)
    ensures !Kept(bases, m, k)
  {
    NotKeptBefore(bases, bases[m - 1], k);
  }

  /** Every later version keeps version k exactly when no writer that read before it wrote after it. */
  lemma KeptExactly(bases: seq<nat>, k: nat)
    requires Based(bases) && k <= |bases|
    ensures (forall v :: k <= v <= |bases| ==> Kept(bases, v, k)) <==>
            (forall m :: k < m <= |bases| ==> !Overtakes(bases, m, k))
  {
    if forall m :: k < m <= |bases| ==> !Overtakes(bases, m, k) {
      forall v | k <= v <= |bases| ensures Kept(bases, v, k) {
        KeptUnlessOvertaken(bases, v, k);
      }
    } else {
      var m :| k < m <= |bases| && Overtakes(bases, m, k);
      OvertakenIsLost(bases, m, k);
    }
  }

  /** One version lacks version k exactly when some version it was made from overtook it. */
  lemma {:induction false} LostExactly(bases: seq<nat>, v: nat, k: nat)
    requires Based(bases) && k <= v <= |bases|
    ensures !Kept(bases, v, k) <==> exists m :: 0 < m <= |bases| && Overtakes(bases, m, k) && Kept(bases, v, m)
    decreases v
  {
    if k < v {
      var b := bases[v - 1];
      if b < k {
        OvertakenIsLost(bases, v, k);
        assert Overtakes(bases, v, k) && Kept(bases, v, v);
      } else {
        LostExactly(bases, b, k);
        assert Kept(bases, v, k) <==> Kept(bases, b, k);
        if !Kept(bases, v, k) {
          var m :| 0 < m <= |bases| && Overtakes(bases, m, k) && Kept(bases, b, m);
          assert Kept(bases, v, m);
        }
      }
    } else {
      forall m | 0 < m <= |bases| && Overtakes(bases, m, k) ensures !Kept(bases, v, m) {
        NotKeptBefore(bases, v, m);
      }
    }
  }

  // ---------- the versions of the schedules file ----------

  /** The version a file was made from; a wiped file, and one written after a read that failed, was made from
      nothing, so it overtakes every update. */
  function Bases(writes: seq<Write>): (bases: seq<nat>)
    ensures |bases| == |writes|
  {
    seq(|writes|, i requires 0 <= i < |writes| => Base(writes[i]))
  }

  function Base(w: Write): nat {
    if w.Write? && w.base.Seen? then w.base.version else 0
  }

  lemma HistoryIsBased(first: File, writes: seq<Write>)
    requires HistoryInv(first, writes)
    ensures Based(Bases(writes))
  {
    forall i | 0 <= i < |writes| ensures Bases(writes)[i] <= i {
      assert WriteOk(first, writes, i);
    }
  }

  datatype Origin = FromStart | Gone | From(k: nat)

  /** Where the entry of an install in version v comes from: the last update of it that the version keeps. */
  ghost function OriginOf(writes: seq<Write>, v: nat, x: string): Origin
    requires Based(Bases(writes)) && v <= |writes|
    decreases v
  {
    if v == 0 then FromStart
    else
      var w := writes[v - 1];
      if w.Wipe? then Gone
      else if w.install == x then From(v)
      else if w.base.Blind? then Gone
      else assert w.base.version == Bases(writes)[v - 1]; OriginOf(writes, w.base.version, x)
  }

  function EntryOf(file: File, x: string): Option<Raw> {
    if x in file then Some(file[x]) else None
  }

  /** A version holds, for each install, exactly the last update it keeps; an update it does not keep has no part
      in it. */
  lemma {:induction false} EntryComesFrom(first: File, writes: seq<Write>, v: nat, x: string)
    requires HistoryInv(first, writes) && v <= |writes| && Based(Bases(writes))
    ensures match OriginOf(writes, v, x)
            case FromStart => EntryOf(FileAt(first, writes, v), x) == EntryOf(first, x)
            case Gone => EntryOf(FileAt(first, writes, v), x) == None
            case From(k) =>
              && 0 < k <= v && Kept(Bases(writes), v, k) && writes[k - 1].Write? && writes[k - 1].install == x
              && EntryOf(FileAt(first, writes, v), x) == Some(writes[k - 1].entry)
              && forall m :: k < m <= v && Kept(Bases(writes), v, m) ==>
                   writes[m - 1].Write? && writes[m - 1].install != x
    decreases v
  {
    if v > 0 && writes[v - 1].Write? && writes[v - 1].install != x && writes[v - 1].base.Seen? {
      assert WriteOk(first, writes, v - 1);
      var b := writes[v - 1].base.version;
      assert b == Bases(writes)[v - 1];
      EntryComesFrom(first, writes, b, x);
      forall m: nat | m <= v && Kept(Bases(writes), v, m) ensures m == v || (m <= b && Kept(Bases(writes), b, m)) {
        if b < m {
          NotKeptBefore(Bases(writes), b, m);
        }
      }
    } else if v > 0 {
      assert WriteOk(first, writes, v - 1);
    }
  }

  /** Version `v` keeps the k-th update and no later one of the same install. */
  ghost predicate KeepsLatest(writes: seq<Write>, v: nat, k: nat)
    requires Based(Bases(writes)) && v <= |writes| && 0 < k <= |writes| && writes[k - 1].Write?
  {
    && Kept(Bases(writes), v, k)
    && forall m :: k < m <= v && Kept(Bases(writes), v, m) ==>
         writes[m - 1].Write? && writes[m - 1].install != writes[k - 1].install
  }

  lemma LatestKeptIsThere(first: File, writes: seq<Write>, v: nat, k: nat)
    requires HistoryInv(first, writes) && Based(Bases(writes)) && v <= |writes|
    requires 0 < k <= |writes| && writes[k - 1].Write? && KeepsLatest(writes, v, k)
    ensures EntryOf(FileAt(first, writes, v), writes[k - 1].install) == Some(writes[k - 1].entry)
  {
    LatestKeptIsOrigin(first, writes, v, k);
    EntryComesFrom(first, writes, v, writes[k - 1].install);
  }

  lemma ReachedHistory(file: File, clock: real, actions: seq<Action>)
    requires Exec(file, clock, actions).Some?
    ensures var s := Exec(file, clock, actions).value;
            s.first == file && HistoryInv(file, s.writes) && Based(Bases(s.writes))
  {
    BeginInv(file, clock);
    ReachableInv(Begin(file, clock), actions);
    RunKeepsFirst(Begin(file, clock), actions);
    HistoryIsBased(file, Exec(file, clock, actions).value.writes);
  }

  /** In every run, the k-th update stays part of every later file exactly when no writer that read before it, or
      whose read failed, and no loss of the file came after it; and as long as the file keeps it, and keeps no later
      update of the same install, its entry is there as it was written. */
  lemma UpdateSurvivesExactly(file: File, clock: real, actions: seq<Action>, k: nat)
    requires Exec(file, clock, actions).Some?
    requires var s := Exec(file, clock, actions).value; 0 < k <= |s.writes| && s.writes[k - 1].Write?
    ensures var writes := Exec(file, clock, actions).value.writes;
            && Based(Bases(writes))
            && ((forall v :: k <= v <= |writes| ==> Kept(Bases(writes), v, k)) <==>
                (forall m :: k < m <= |writes| ==> !Overtakes(Bases(writes), m, k)))
            && forall v :: k <= v <= |writes| && KeepsLatest(writes, v, k) ==>
                 EntryOf(FileAt(file, writes, v), writes[k - 1].install) == Some(writes[k - 1].entry)
  {
    ReachedHistory(file, clock, actions);
    var writes := Exec(file, clock, actions).value.writes;
    KeptExactly(Bases(writes), k);
    forall v | k <= v <= |writes| && KeepsLatest(writes, v, k)
      ensures EntryOf(FileAt(file, writes, v), writes[k - 1].install) == Some(writes[k - 1].entry)
    {
      LatestKeptIsThere(file, writes, v, k);
    }
  }

  lemma {:induction false} RunKeepsFirst(s: System, actions: seq<Action>)
    requires Run(s, actions).Some?
    ensures Run(s, actions).value.first == s.first
  {
    if actions != [] {
      RunKeepsFirst(s, actions[..|actions| - 1]);
    }
  }

  lemma {:induction false} LatestKeptIsOrigin(first: File, writes: seq<Write>, v: nat, k: nat)
    requires HistoryInv(first, writes) && Based(Bases(writes)) && 0 < k <= |writes| && v <= |writes|
    requires writes[k - 1].Write?
    ensures KeepsLatest(writes, v, k) ==> OriginOf(writes, v, writes[k - 1].install) == From(k)
    decreases v
  {
    var bases := Bases(writes);
    if v > k && Kept(bases, v, k) {
      var b := bases[v - 1];
      assert Kept(bases, v, v);
      if writes[v - 1].Write? && writes[v - 1].base.Seen? {
        assert b == writes[v - 1].base.version;
        LatestKeptIsOrigin(first, writes, b, k);
        assert forall m :: Kept(bases, b, m) ==> Kept(bases, v, m);
      } else {
        NotKeptBefore(bases, b, k);
      }
    } else if v < k {
      NotKeptBefore(bases, v, k);
    }
  }
}
