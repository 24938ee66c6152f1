/** Backup schedules of backend/backup.py: the schedules file and the functions that read and write it. */
module Schedules {
  import opened Wrappers

  datatype Kind = Metadata | Full

  /** A timestamp field of a raw entry. */
  datatype Stamp = Missing | At(time: real) | Garbled

  datatype Settings = Settings(enabled: bool, intervalHours: int, kind: Kind)

  const DEFAULTS: Settings := Settings(false, 24, Metadata)

  /** A raw entry of the file: not a dictionary at all, or a dictionary whose settings may fail validation. */
  datatype Raw = NotDict | Dict(settings: Option<Settings>, last: Stamp, next: Stamp)

  type File = map<string, Raw>

  datatype Schedule = Schedule(install: string, settings: Settings, last: Option<real>, next: Option<real>)

  predicate ValidSettings(s: Settings) {
    1 <= s.intervalHours <= 168
  }

  function Interval(s: Settings): real {
    s.intervalHours as real * 3600.0
  }

  predicate Loads(raw: Raw) {
    raw.Dict? && raw.settings.Some? && ValidSettings(raw.settings.value) && !raw.last.Garbled? && !raw.next.Garbled?
  }

  function AsTime(s: Stamp): Option<real> {
    if s.At? then Some(s.time) else None
  }

  function AsStamp(t: Option<real>): Stamp {
    if t.Some? then At(t.value) else Missing
  }

  function Parse(install: string, raw: Raw): Schedule
    requires Loads(raw)
  {
    Schedule(install, raw.settings.value, AsTime(raw.last), AsTime(raw.next))
  }

  /** The saved schedule, or a disabled default for a missing or malformed entry. */
  function LoadSchedule(file: File, install: string): Schedule {
    if install in file && Loads(file[install]) then Parse(install, file[install])
    else Schedule(install, DEFAULTS, None, None)
  }

  // ---------- saving ----------

  /** The fields a caller may change. */
  datatype Update = Update(enabled: Option<bool>, intervalHours: Option<int>, kind: Option<Kind>)

  function Merge(s: Settings, u: Update): Settings {
    Settings(if u.enabled.Some? then u.enabled.value else s.enabled,
             if u.intervalHours.Some? then u.intervalHours.value else s.intervalHours,
             if u.kind.Some? then u.kind.value else s.kind)
  }

  /** The loaded schedule with the caller's fields and a recomputed next run; None if validation fails. */
  function Rescheduled(current: Schedule, u: Update, now: real): Option<Schedule> {
    var merged := Merge(current.settings, u);
    if !ValidSettings(merged) then None
    else Some(Schedule(current.install, merged, current.last,
                       if merged.enabled then Some(now + Interval(merged)) else None))
  }

  function Saved(file: File, install: string, u: Update, now: real): Option<Schedule> {
    Rescheduled(LoadSchedule(file, install), u, now)
  }

  function Dump(s: Schedule): Raw {
    Dict(Some(s.settings), AsStamp(s.last), AsStamp(s.next))
  }

  /** The file a save writes, given the file it read; a rejected update writes nothing. */
  function SaveInto(file: File, install: string, u: Update, now: real): File {
    var saved := Saved(file, install, u, now);
    if saved.None? then file else file[install := Dump(saved.value)]
  }

  // ---------- the run update ----------

  /** The file after a successful run, given the file that was read: only the two stamps of one dictionary change. */
  function RunUpdate(file: File, install: string, last: real, next: Option<real>): File {
    if install !in file || file[install].NotDict? then file
    else file[install := file[install].(last := At(last), next := AsStamp(next))]
  }

  // ---------- the file and the functions over it ----------

  class ScheduleFile {
    var content: File

    constructor ()
      ensures content == map[]
    {
      content := map[];
    }

    method Save(install: string, u: Update, now: real) returns (saved: Option<Schedule>)
      modifies this
      ensures saved == Saved(old(content), install, u, now)
      ensures content == SaveInto(old(content), install, u, now)
    {
      var current := LoadSchedule(content, install);
      var merged := current.settings;
      if u.enabled.Some? {
        merged := merged.(enabled := u.enabled.value);
      }
      if u.intervalHours.Some? {
        merged := merged.(intervalHours := u.intervalHours.value);
      }
      if u.kind.Some? {
        merged := merged.(kind := u.kind.value);
      }
      if !ValidSettings(merged) {
        return None;
      }
      var schedule := Schedule(install, merged, current.last, None);
      if merged.enabled {
        schedule := schedule.(next := Some(now + Interval(merged)));
      }
      content := content[install := Dump(schedule)];
      saved := Some(schedule);
    }

    /** Every entry that loads, once each, in the order the keys are met. */
    method ListAll() returns (schedules: seq<Schedule>)
      ensures IsListing(content, schedules)
    {
      schedules := [];
      var keys := content.Keys;
      while keys != {}
        invariant keys <= content.Keys
        invariant IsListing(map k | k in content && k !in keys :: content[k], schedules)
        decreases keys
      {
        var k :| k in keys;
        ghost var seen := map j | j in content && j !in keys :: content[j];
        ListingGrows(seen, schedules, k, content[k]);
        keys := keys - {k};
        assert seen[k := content[k]] == map j | j in content && j !in keys :: content[j];
        if Loads(content[k]) {
          schedules := schedules + [Parse(k, content[k])];
        }
      }
      assert (map k | k in content && k !in keys :: content[k]) == content;
    }

    /** `failing` is set when writing the file raises, in which case it is left as it was. */
    method PersistRunUpdate(install: string, last: real, next: Option<real>, failing: bool) returns (raised: bool)
      modifies this
      ensures content == if failing then old(content) else RunUpdate(old(content), install, last, next)
      ensures raised ==> failing
    {
      raised := false;
      if install !in content {
        return;
      }
      var entry := content[install];
      if entry.NotDict? {
        return;
      }
      if failing {
        return true;
      }
      entry := entry.(last := At(last));
      if next.None? {
        entry := entry.(next := Missing);
      } else {
        entry := entry.(next := At(next.value));
      }
      content := content[install := entry];
    }
  }

  ghost predicate IsListing(file: File, schedules: seq<Schedule>) {
    && (forall i :: 0 <= i < |schedules| ==>
          var x := schedules[i].install; x in file && Loads(file[x]) && schedules[i] == Parse(x, file[x]))
    && (forall x :: x in file && Loads(file[x]) ==> Parse(x, file[x]) in schedules)
    && (forall i, j :: 0 <= i < j < |schedules| ==> schedules[i].install != schedules[j].install)
  }

  lemma ListingGrows(file: File, schedules: seq<Schedule>, k: string, raw: Raw)
    requires IsListing(file, schedules) && k !in file
    ensures IsListing(file[k := raw], if Loads(raw) then schedules + [Parse(k, raw)] else schedules)
  {
    if Loads(raw) {
      var more := schedules + [Parse(k, raw)];
      assert more[|schedules|] == Parse(k, raw);
      forall x | x in file && Loads(file[x]) ensures Parse(x, file[x]) in more {
        assert Parse(x, file[x]) in schedules;
      }
    }
  }

  /** A loaded schedule is the entry as it stands; an entry that is missing, malformed or outside 1 to 168 hours reads
      as a disabled daily metadata schedule that never ran. */
  lemma LoadedExactly(file: File, x: string)
    ensures var s := LoadSchedule(file, x);
            && s.install == x
            && if x in file && file[x].Dict? && file[x].settings.Some?
                  && 1 <= file[x].settings.value.intervalHours <= 168
                  && !file[x].last.Garbled? && !file[x].next.Garbled?
               then s.settings == file[x].settings.value
                    && (forall t :: s.last == Some(t) <==> file[x].last == At(t))
                    && (forall t :: s.next == Some(t) <==> file[x].next == At(t))
               else s == Schedule(x, Settings(false, 24, Metadata), None, None)
  {
  }

  function Given<T>(update: Option<T>, current: T): T {
    if update.Some? then update.value else current
  }

  /** A save is refused exactly when the interval it would have lies outside 1 to 168 hours; otherwise the entry has
      the caller's fields, the others as loaded, and its next run that many hours from now if it is enabled. */
  lemma SavedExactly(file: File, x: string, u: Update, now: real)
    ensures var before := LoadSchedule(file, x);
            var enabled, hours := Given(u.enabled, before.settings.enabled),
                                  Given(u.intervalHours, before.settings.intervalHours);
            var settings := Settings(enabled, hours, Given(u.kind, before.settings.kind));
            var last := if before.last.Some? then At(before.last.value) else Missing;
            var next := if enabled then At(now + hours as real * 3600.0) else Missing;
            if 1 <= hours <= 168
            then SaveInto(file, x, u, now) == file[x := Dict(Some(settings), last, next)]
                 && Saved(file, x, u, now)
                    == Some(Schedule(x, settings, before.last,
                                     if enabled then Some(now + hours as real * 3600.0) else None))
            else SaveInto(file, x, u, now) == file && Saved(file, x, u, now) == None
  {
  }

  /** What is saved reads back as it was saved. */
  lemma SavedReadsBack(file: File, x: string, u: Update, now: real)
    requires Saved(file, x, u, now).Some?
    ensures LoadSchedule(SaveInto(file, x, u, now), x) == Saved(file, x, u, now).value
  {
  }

  /** The run update sets the two stamps, leaves enabled, interval and kind alone, and every other install's entry. */
  lemma RunUpdateIsFocused(file: File, install: string, last: real, next: Option<real>, x: string)
    ensures RunUpdate(file, install, last, next).Keys == file.Keys
    ensures x in file && x != install ==> RunUpdate(file, install, last, next)[x] == file[x]
    ensures x in file && file[x].Dict? ==>
              var after := RunUpdate(file, install, last, next)[x]; after.Dict? && after.settings == file[x].settings
    ensures install in file && file[install].Dict? ==>
              var after := RunUpdate(file, install, last, next)[install];
              after.last == At(last) && after.next == (if next.Some? then At(next.value) else Missing)
  {
  }
}
