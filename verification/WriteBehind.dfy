/** The registry persistence of backend/data_sources.py and backend/ingest.py: an in-memory map with a
    dirty flag, a debounce timer, forced flushes, and a temp file that is moved over the real one. */
module WriteBehind {
  import opened Wrappers

  type Snapshot<V> = map<string, V>

  datatype TempFile<V> = Absent | Torn | Whole(content: Snapshot<V>)

  /** What the file system does to one atomic write. */
  datatype Attempt = Succeeds | Denied | Fails
  datatype TempWrite = Written | FailsBefore | FailsHalfway
  datatype Io = Io(temp: TempWrite, attempts: seq<Attempt>)

  const ATTEMPTS: nat := 5

  /** The registry as a value.  `live` holds the timers whose callback will still run, `late` the
      cancelled ones whose callback may have passed the point of no return and be waiting for the lock. */
  datatype Registry<V> = Registry(
    store: Snapshot<V>, dirty: bool, timer: Option<nat>,
    disk: Option<Snapshot<V>>, temp: TempFile<V>,
    live: set<nat>, late: set<nat>, nextTimer: nat)
  {
    function OnDisk(): Snapshot<V> {
      if disk.Some? then disk.value else map[]
    }
  }

  // ---------- one write ----------

  datatype Outcome = Moved | GaveUp | Raised

  /** The result of trying to move the temp file, at most five times. */
  function Move(attempts: seq<Attempt>, tried: nat): Outcome
    requires tried <= ATTEMPTS <= |attempts|
    decreases ATTEMPTS - tried
  {
    if tried == ATTEMPTS then GaveUp
    else match attempts[tried]
      case Succeeds => Moved
      case Fails => Raised
      case Denied => Move(attempts, tried + 1)
  }

  predicate ValidIo(io: Io) {
    |io.attempts| == ATTEMPTS
  }

  function OutcomeOf(io: Io): Outcome
    requires ValidIo(io)
  {
    if io.temp.Written? then Move(io.attempts, 0) else Raised
  }

  function TempAfter<V>(r: Registry<V>, io: Io): TempFile<V>
    requires ValidIo(io)
  {
    match io.temp
    case FailsBefore => r.temp
    case FailsHalfway => Torn
    case Written => if OutcomeOf(io) == Moved then Absent else Whole(r.store)
  }

  /** The dirty flag is cleared unless an exception escapes, even when all five moves are denied. */
  function Write<V>(r: Registry<V>, io: Io): Registry<V>
    requires ValidIo(io)
  {
    var outcome := OutcomeOf(io);
    r.(disk := if outcome == Moved then Some(r.store) else r.disk,
       temp := TempAfter(r, io),
       dirty := r.dirty && outcome == Raised)
  }

  function Cancel<V>(r: Registry<V>): Registry<V> {
    match r.timer
    case None => r
    case Some(t) => r.(timer := None, live := r.live - {t}, late := r.late + {t})
  }

  function PersistNow<V>(r: Registry<V>, io: Io): Registry<V>
    requires ValidIo(io)
  {
    Write(Cancel(r.(dirty := true)), io)
  }

  function PersistSoon<V>(r: Registry<V>): Registry<V> {
    if r.timer.Some? then r.(dirty := true)
    else r.(dirty := true, timer := Some(r.nextTimer), live := r.live + {r.nextTimer}, nextTimer := r.nextTimer + 1)
  }

  /** A timer callback; it forgets whatever timer is recorded, also when that is a newer one. */
  function Flush<V>(r: Registry<V>, t: nat, io: Io): Registry<V>
    requires ValidIo(io)
  {
    var woken := r.(timer := None, live := r.live - {t}, late := r.late - {t});
    if r.dirty then Write(woken, io) else woken
  }

  const DISK_WORKS: Io := Io(Written, [Succeeds, Succeeds, Succeeds, Succeeds, Succeeds])
  const DISK_DENIES: Io := Io(Written, [Denied, Denied, Denied, Denied, Denied])

  // ---------- the module globals and the functions over them ----------

  class DataSources<V(==)> {
    var store: Snapshot<V>
    var dirty: bool
    var timer: Option<nat>
    var disk: Option<Snapshot<V>>
    var temp: TempFile<V>
    var live: set<nat>
    var late: set<nat>
    var nextTimer: nat

    function State(): Registry<V>
      reads this
    {
      Registry(store, dirty, timer, disk, temp, live, late, nextTimer)
    }

    /** Loads the file row by row and drops the rows that do not validate. */
    constructor (content: Option<Snapshot<V>>, sound: set<string>)
      ensures State() == Start(content, sound)
      ensures forall id :: id in store <==> content.Some? && id in content.value && id in sound
      ensures forall id :: id in store ==> store[id] == content.value[id]
    {
      var loaded: Snapshot<V> := map[];
      if content.Some? {
        var keys := content.value.Keys;
        while keys != {}
          invariant keys <= content.value.Keys
          invariant loaded == map k | k in content.value && k in sound && k !in keys :: content.value[k]
          decreases keys
        {
          var k :| k in keys;
          keys := keys - {k};
          if k in sound {
            loaded := loaded[k := content.value[k]];
          }
        }
        assert loaded == Readable(content.value, sound);
      }
      store := loaded;
      dirty := false;
      timer := None;
      disk := content;
      temp := Absent;
      live := {};
      late := {};
      nextTimer := 0;
    }

    /** Writes the temp file, then tries to move it; returns whether an exception escaped. */
    method AtomicWrite(data: Snapshot<V>, io: Io) returns (raised: bool)
      requires ValidIo(io)
      modifies this`disk, this`temp
      ensures raised == (OutcomeOf(io) == Raised)
      ensures disk == if OutcomeOf(io) == Moved then Some(data) else old(disk)
      ensures temp == TempAfter(old(State()).(store := data), io)
    {
      if io.temp.FailsBefore? {
        return true;
      }
      if io.temp.FailsHalfway? {
        temp := Torn;
        return true;
      }
      temp := Whole(data);
      for i := 0 to ATTEMPTS
        invariant Move(io.attempts, 0) == Move(io.attempts, i)
        invariant temp == Whole(data) && disk == old(disk)
      {
        match io.attempts[i]
        case Succeeds =>
          disk := Some(data);
          temp := Absent;
          return false;
        case Fails =>
          return true;
        case Denied =>
      }
      raised := false;
    }

    method WriteNow(io: Io) returns (raised: bool)
      requires ValidIo(io)
      modifies this`disk, this`temp, this`dirty
      ensures State() == Write(old(State()), io)
      ensures raised == (OutcomeOf(io) == Raised)
    {
      raised := AtomicWrite(store, io);
      if !raised {
        dirty := false;
      }
    }

    method FlushFromTimer(t: nat, io: Io)
      requires ValidIo(io)
      modifies this`timer, this`live, this`late, this`disk, this`temp, this`dirty
      ensures State() == Flush(old(State()), t, io)
    {
      live, late := live - {t}, late - {t};
      timer := None;
      if dirty {
        var _ := WriteNow(io);
      }
    }

    method Persist(force: bool, io: Io) returns (raised: bool)
      requires ValidIo(io)
      modifies this`dirty, this`timer, this`live, this`late, this`nextTimer, this`disk, this`temp
      ensures State() == if force then PersistNow(old(State()), io) else PersistSoon(old(State()))
      ensures raised == (force && OutcomeOf(io) == Raised)
    {
      dirty := true;
      if force {
        if timer.Some? {
          live, late := live - {timer.value}, late + {timer.value};
          timer := None;
        }
        raised := WriteNow(io);
        return;
      }
      raised := false;
      if timer.None? {
        timer := Some(nextTimer);
        live := live + {nextTimer};
        nextTimer := nextTimer + 1;
      }
    }

    method CreateSource(id: string, entry: V, io: Io) returns (raised: bool)
      requires ValidIo(io)
      modifies this
      ensures State() == Step(old(State()), Create(id, entry, io))
      ensures store == old(store)[id := entry]
    {
      store := store[id := entry];
      raised := Persist(true, io);
    }

    method DeleteSource(id: string, io: Io) returns (raised: bool)
      requires ValidIo(io)
      modifies this
      ensures State() == Step(old(State()), Delete(id, io))
      ensures store == old(store) - {id}
    {
      raised := false;
      if id in store {
        store := store - {id};
        raised := Persist(true, io);
      }
    }

    /** `tested` is the entry with its last-tested timestamp replaced. */
    method MarkTested(id: string, tested: V)
      modifies this
      ensures State() == Step(old(State()), Touch(id, tested))
      ensures store == if id in old(store) then old(store)[id := tested] else old(store)
    {
      if id !in store {
        return;
      }
      store := store[id := tested];
      var _ := Persist(false, DISK_WORKS);  // writes nothing now
    }

    /** The ingest registry's update: a forced flush, and nothing at all for an unknown job or a record that does
        not validate. */
    method UpdateJob(id: string, updated: Option<V>, io: Io) returns (raised: bool)
      requires ValidIo(io)
      modifies this
      ensures State() == Step(old(State()), Update(id, updated, io))
      ensures store == if id in old(store) && updated.Some? then old(store)[id := updated.value] else old(store)
    {
      raised := false;
      if id !in store || updated.None? {
        return;
      }
      store := store[id := updated.value];
      raised := Persist(true, io);
    }
  }

  // ---------- runs ----------

  /** Every step is made with the registry lock held.  An `Update` without an entry is one that did not validate;
      `Expire` is a cancelled callback that never ran. */
  datatype Action<V> =
    | Create(id: string, entry: V, io: Io)
    | Delete(id: string, io: Io)
    | Touch(id: string, entry: V)
    | Update(id: string, updated: Option<V>, io: Io)
    | Callback(t: nat, io: Io)
    | Expire(t: nat)

  predicate Enabled<V>(r: Registry<V>, a: Action<V>) {
    match a
    case Create(_, _, io) => ValidIo(io)
    case Delete(_, io) => ValidIo(io)
    case Touch(_, _) => true
    case Update(_, _, io) => ValidIo(io)
    case Callback(t, io) => ValidIo(io) && t in r.live + r.late
    case Expire(t) => t in r.late
  }

  function Step<V>(r: Registry<V>, a: Action<V>): Registry<V>
    requires a.Touch? || a.Expire? || ValidIo(a.io)
  {
    match a
    case Create(id, entry, io) => PersistNow(r.(store := r.store[id := entry]), io)
    case Delete(id, io) => if id in r.store then PersistNow(r.(store := r.store - {id}), io) else r
    case Touch(id, entry) => if id in r.store then PersistSoon(r.(store := r.store[id := entry])) else r
    case Update(id, updated, io) =>
      if id in r.store && updated.Some? then PersistNow(r.(store := r.store[id := updated.value]), io) else r
    case Callback(t, io) => Flush(r, t, io)
    case Expire(t) => r.(late := r.late - {t})
  }

  /** The rows of the file that validate. */
  function Readable<V>(content: Snapshot<V>, sound: set<string>): Snapshot<V> {
    map k | k in content && k in sound :: content[k]
  }

  /** A file that does not parse is one with no sound row. */
  function Start<V>(content: Option<Snapshot<V>>, sound: set<string>): Registry<V> {
    Registry(if content.Some? then Readable(content.value, sound) else map[], false, None, content, Absent, {}, {}, 0)
  }

  /** A run: the registry; the file as it was found and every memory content since, and which of them the disk
      holds; how the last write ended; and whether a write has raised since the last time a timer was started or a
      write completed. */
  datatype Run<V> = Run(
    now: Registry<V>, past: seq<Snapshot<V>>, diskAt: nat, lastWrite: Option<Outcome>, stranded: bool)

  /** Whether the step writes, and how that ends. */
  function WriteIn<V>(r: Registry<V>, a: Action<V>): Option<Outcome>
    requires Enabled(r, a)
  {
    match a
    case Create(_, _, io) => Some(OutcomeOf(io))
    case Delete(id, io) => if id in r.store then Some(OutcomeOf(io)) else None
    case Touch(_, _) => None
    case Update(id, updated, io) => if id in r.store && updated.Some? then Some(OutcomeOf(io)) else None
    case Callback(_, io) => if r.dirty then Some(OutcomeOf(io)) else None
    case Expire(_) => None
  }

  function Next<V>(run: Run<V>, a: Action<V>): Run<V>
    requires Enabled(run.now, a)
  {
    var next := Step(run.now, a);
    var write := WriteIn(run.now, a);
    Run(next,
        run.past + [next.store],
        if write == Some(Moved) then |run.past| else run.diskAt,
        if write.Some? then write else run.lastWrite,
        if write.Some? then write == Some(Raised)
        else run.stranded && !(a.Touch? && a.id in run.now.store))
  }

  /** The run of a sequence of steps, if each is enabled when its turn comes. */
  function Exec<V>(content: Option<Snapshot<V>>, sound: set<string>, actions: seq<Action<V>>): Option<Run<V>> {
    if actions == [] then
      var r := Start(content, sound);
      Some(Run(r, [r.OnDisk(), r.store], 0, None, false))
    else
      var before := Exec(content, sound, actions[..|actions| - 1]);
      var last := actions[|actions| - 1];
      if before.Some? && Enabled(before.value.now, last) then Some(Next(before.value, last)) else None
  }

  /** What is saved of a clean registry, by the way its last write ended. */
  ghost predicate CleanIsSaved<V>(run: Run<V>) {
    var r := run.now;
    match run.lastWrite
    case None => |run.past| > 1 && run.diskAt == 0 && r.store == run.past[1]
    case Some(Moved) => r.OnDisk() == r.store
    case Some(GaveUp) => r.temp == Whole(r.store)
    case Some(Raised) => false
  }

  /** What every reachable state satisfies. */
  ghost predicate Inv<V>(run: Run<V>) {
    var r := run.now;
    && |run.past| > 1 && run.past[|run.past| - 1] == r.store
    && run.diskAt < |run.past| && run.past[run.diskAt] == r.OnDisk()
    && (r.timer.Some? ==> r.timer.value in r.live)
    && (forall t :: t in r.live ==> t < r.nextTimer && t !in r.late)
    && (forall t :: t in r.late ==> t < r.nextTimer)
    && (!r.dirty ==> CleanIsSaved(run))
    && (r.dirty && !run.stranded ==> r.live != {})
  }

  lemma StepKeepsInv<V>(run: Run<V>, a: Action<V>)
    requires Inv(run) && Enabled(run.now, a)
    ensures Inv(Next(run, a))
    ensures Next(run, a).diskAt >= run.diskAt
  {
  }

  lemma {:induction false} ReachableInv<V>(content: Option<Snapshot<V>>, sound: set<string>, actions: seq<Action<V>>)
    requires Exec(content, sound, actions).Some?
    ensures Inv(Exec(content, sound, actions).value)
  {
    if actions != [] {
      ReachableInv(content, sound, actions[..|actions| - 1]);
      StepKeepsInv(Exec(content, sound, actions[..|actions| - 1]).value, actions[|actions| - 1]);
    }
  }

  // ---------- the promises ----------

  lemma {:induction false} RunKeepsStart<V>(
      content: Option<Snapshot<V>>, sound: set<string>, actions: seq<Action<V>>)
    requires Exec(content, sound, actions).Some?
    ensures var past := Exec(content, sound, actions).value.past; var r := Start(content, sound);
            |past| > 1 && past[0] == r.OnDisk() && past[1] == r.store
  {
    if actions != [] {
      RunKeepsStart(content, sound, actions[..|actions| - 1]);
    }
  }

  /** A clean registry is on disk, unless its last write gave up, which leaves it whole in the temp file, or nothing
      was ever written, which leaves it as loaded from the file. */
  lemma CleanMeansSaved<V>(content: Option<Snapshot<V>>, sound: set<string>, actions: seq<Action<V>>)
    requires Exec(content, sound, actions).Some? && !Exec(content, sound, actions).value.now.dirty
    ensures var run := Exec(content, sound, actions).value; var r := run.now;
            r.OnDisk() != r.store ==>
              || (run.lastWrite == Some(GaveUp) && r.temp == Whole(r.store))
              || (run.lastWrite == None && r.store == Readable(r.OnDisk(), sound))
  {
    ReachableInv(content, sound, actions);
    RunKeepsStart(content, sound, actions);
  }

  /** A dirty registry has a timer that will still fire, unless the last write raised. */
  lemma DirtyMeansPending<V>(content: Option<Snapshot<V>>, sound: set<string>, actions: seq<Action<V>>)
    requires Exec(content, sound, actions).Some? && Exec(content, sound, actions).value.now.dirty
    ensures var run := Exec(content, sound, actions).value;
            run.stranded || run.now.live != {}
  {
    ReachableInv(content, sound, actions);
  }

  /** Once every timer has run and no write has raised, nothing is left to save. */
  lemma QuiescentMeansSaved<V>(content: Option<Snapshot<V>>, sound: set<string>, actions: seq<Action<V>>)
    requires Exec(content, sound, actions).Some?
    requires var run := Exec(content, sound, actions).value; !run.stranded && run.now.live == {}
    ensures var r := Exec(content, sound, actions).value.now;
            !r.dirty && CleanIsSaved(Exec(content, sound, actions).value)
  {
    ReachableInv(content, sound, actions);
  }

  /** Any callback, live or late, that meets a dirty registry and a working disk saves everything. */
  lemma AnyCallbackSaves<V>(r: Registry<V>, t: nat, io: Io)
    requires ValidIo(io) && OutcomeOf(io) == Moved && r.dirty
    ensures var after := Flush(r, t, io);
            !after.dirty && after.disk == Some(r.store) && after.temp == Absent && after.store == r.store
  {
  }

  /** The disk always holds the file as found or one whole earlier content of memory, and never an older one than
      before. */
  lemma {:induction false} DiskIsPastSnapshot<V>(
      content: Option<Snapshot<V>>, sound: set<string>, actions: seq<Action<V>>, n: nat)
    requires Exec(content, sound, actions).Some? && n <= |actions|
    ensures Exec(content, sound, actions[..n]).Some?
    ensures var before, now := Exec(content, sound, actions[..n]).value, Exec(content, sound, actions).value;
            && before.diskAt <= now.diskAt < |now.past|
            && before.past <= now.past
            && now.now.OnDisk() == now.past[now.diskAt]
    decreases |actions| - n
  {
    ReachableInv(content, sound, actions);
    if n == |actions| {
      assert actions[..n] == actions;
    } else {
      DiskIsPastSnapshot(content, sound, actions, n + 1);
      StepAppends(content, sound, actions, n);
    }
  }

  lemma StepAppends<V>(content: Option<Snapshot<V>>, sound: set<string>, actions: seq<Action<V>>, n: nat)
    requires n < |actions| && Exec(content, sound, actions[..n + 1]).Some?
    ensures Exec(content, sound, actions[..n]).Some?
    ensures var before, after := Exec(content, sound, actions[..n]).value, Exec(content, sound, actions[..n + 1]).value;
            before.diskAt <= after.diskAt && before.past <= after.past
  {
    assert actions[..n + 1][..n] == actions[..n];
    var before := Exec(content, sound, actions[..n]).value;
    ReachableInv(content, sound, actions[..n]);
    StepKeepsInv(before, actions[n]);
    assert before.past <= Next(before, actions[n]).past;
  }

  lemma IoOutcomes()
    ensures OutcomeOf(DISK_WORKS) == Moved && OutcomeOf(DISK_DENIES) == GaveUp
  {
    GaveUpExactly(DISK_DENIES);
  }

  lemma {:induction false} AllDenied(attempts: seq<Attempt>, tried: nat)
    requires tried <= ATTEMPTS == |attempts|
    ensures Move(attempts, tried) == GaveUp <==> forall i :: tried <= i < ATTEMPTS ==> attempts[i].Denied?
    decreases ATTEMPTS - tried
  {
    if tried < ATTEMPTS && attempts[tried].Denied? {
      AllDenied(attempts, tried + 1);
    }
  }

  /** A write gives up exactly when the temp file was written and every move was denied. */
  lemma GaveUpExactly(io: Io)
    requires ValidIo(io)
    ensures OutcomeOf(io) == GaveUp <==> io.temp.Written? && forall i :: 0 <= i < ATTEMPTS ==> io.attempts[i].Denied?
  {
    AllDenied(io.attempts, 0);
  }

  /** A registry that counts as saved while the file is behind. */
  predicate Forgotten<V(==)>(r: Registry<V>) {
    !r.dirty && r.OnDisk() != r.store
  }

  /** Whatever the registry, a forced write forgets its content exactly when it gives up with the file behind; and so
      does a callback's write. */
  lemma DeniedWriteIsForgotten<V>(r: Registry<V>, t: nat, io: Io)
    requires ValidIo(io)
    ensures Forgotten(PersistNow(r, io)) <==> OutcomeOf(io) == GaveUp && r.OnDisk() != r.store
    ensures r.dirty ==> (Forgotten(Flush(r, t, io)) <==> OutcomeOf(io) == GaveUp && r.OnDisk() != r.store)
  {
  }

  predicate IsTimerStep<V>(a: Action<V>) {
    a.Callback? || a.Expire?
  }

  /** No timer ever catches up with what was forgotten: the file stays behind until the next change of memory. */
  lemma {:induction false} ForgottenStaysBehind<V>(
      content: Option<Snapshot<V>>, sound: set<string>, actions: seq<Action<V>>, timers: seq<Action<V>>)
    requires Exec(content, sound, actions + timers).Some? && forall i :: 0 <= i < |timers| ==> IsTimerStep(timers[i])
    requires Exec(content, sound, actions).Some? && Forgotten(Exec(content, sound, actions).value.now)
    ensures var before := Exec(content, sound, actions).value.now;
            var now := Exec(content, sound, actions + timers).value.now;
            Forgotten(now) && now.disk == before.disk && now.store == before.store
  {
    if timers == [] {
      assert actions + timers == actions;
    } else {
      var init := timers[..|timers| - 1];
      assert forall i :: 0 <= i < |init| ==> init[i] == timers[i];
      assert (actions + timers)[..|actions + timers| - 1] == actions + init;
      ForgottenStaysBehind(content, sound, actions, init);
      assert IsTimerStep(timers[|timers| - 1]);
    }
  }

  /** A late callback clears a newer timer's reference: two timers end up pending, and nothing is lost. */
  lemma LateCallbackClearsNewerTimer()
    ensures var r1 := Step(Start(None, {}), Create("a", 1, DISK_WORKS));
            var r2 := Step(r1, Touch("a", 2));
            var r3 := Step(r2, Create("b", 1, DISK_WORKS));
            var r4 := Step(r3, Touch("a", 3));
            var r5 := Step(r4, Callback(0, DISK_WORKS));
            var r6 := Step(r5, Touch("a", 4));
            && r4.timer == Some(1) && 0 in r4.late
            && r5.timer == None && 1 in r5.live && !r5.dirty
            && r6.dirty && r6.live == {1, 2}
            && Step(r6, Callback(1, DISK_WORKS)).OnDisk() == map["a" := 4, "b" := 1]
  {
    IoOutcomes();
    var r1 := Step(Start(None, {}), Create("a", 1, DISK_WORKS));
    assert r1.store == map["a" := 1] && r1.timer == None;
    var r2 := Step(r1, Touch("a", 2));
    assert r2.store == map["a" := 2] && r2.timer == Some(0);
    var r3 := Step(r2, Create("b", 1, DISK_WORKS));
    assert r3.store == map["a" := 2, "b" := 1] && r3.late == {0} && r3.live == {};
    var r4 := Step(r3, Touch("a", 3));
    assert r4.store == map["a" := 3, "b" := 1];
    var r5 := Step(r4, Callback(0, DISK_WORKS));
    var r6 := Step(r5, Touch("a", 4));
    assert r6.store == map["a" := 4, "b" := 1];
  }
}
