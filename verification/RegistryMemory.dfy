/** What the debounced registries of WriteBehind hold in memory, and so on disk, after any run: for each id the entry
    last given to it, and nothing once it is deleted. */
module RegistryMemory {
  import opened Wrappers
  import opened WriteBehind

  function Held<V>(store: Snapshot<V>, id: string): Option<V> {
    if id in store then Some(store[id]) else None
  }

  /** What memory holds of an id after a step, said of the step alone. */
  lemma StepMemory<V>(r: Registry<V>, a: Action<V>, id: string)
    requires Enabled(r, a)
    ensures var before, after := Held(r.store, id), Held(Step(r, a).store, id);
            match a
            case Create(x, entry, _) => after == if x == id then Some(entry) else before
            case Delete(x, _) => after == if x == id then None else before
            case Touch(x, entry) => after == if x == id && before.Some? then Some(entry) else before
            case Update(x, updated, _) => after == if x == id && before.Some? && updated.Some? then updated else before
            case Callback(_, _) => after == before
            case Expire(_) => after == before
  {
  }

  // ---------- the states of one run ----------

  lemma {:induction false} RunPrefix<V>(
      content: Option<Snapshot<V>>, sound: set<string>, actions: seq<Action<V>>, n: nat)
    requires Exec(content, sound, actions).Some? && n <= |actions|
    ensures Exec(content, sound, actions[..n]).Some?
  {
    if n == |actions| {
      assert actions[..n] == actions;
    } else {
      assert actions[..|actions| - 1][..n] == actions[..n];
      RunPrefix(content, sound, actions[..|actions| - 1], n);
    }
  }

  /** The registry after the first `n` steps. */
  ghost function After<V>(content: Option<Snapshot<V>>, sound: set<string>, actions: seq<Action<V>>, n: nat)
      : Registry<V>
    requires Exec(content, sound, actions).Some? && n <= |actions|
  {
    RunPrefix(content, sound, actions, n);
    Exec(content, sound, actions[..n]).value.now
  }

  lemma AfterNext<V>(content: Option<Snapshot<V>>, sound: set<string>, actions: seq<Action<V>>, n: nat)
    requires Exec(content, sound, actions).Some? && n < |actions|
    ensures Enabled(After(content, sound, actions, n), actions[n])
    ensures After(content, sound, actions, n + 1) == Step(After(content, sound, actions, n), actions[n])
  {
    RunPrefix(content, sound, actions, n + 1);
    assert actions[..n + 1][..n] == actions[..n];
  }

  lemma AfterAll<V>(content: Option<Snapshot<V>>, sound: set<string>, actions: seq<Action<V>>)
    requires Exec(content, sound, actions).Some?
    ensures After(content, sound, actions, |actions|) == Exec(content, sound, actions).value.now
  {
    assert actions[..|actions|] == actions;
  }

  // ---------- the last change wins ----------

  predicate Gives<V>(a: Action<V>, id: string) {
    || (a.Create? && a.id == id) || (a.Touch? && a.id == id)
    || (a.Update? && a.id == id && a.updated.Some?)
  }

  function Given<V>(a: Action<V>, id: string): V
    requires Gives(a, id)
  {
    if a.Update? then a.updated.value else a.entry
  }

  predicate Changes<V>(a: Action<V>, id: string) {
    Gives(a, id) || (a.Delete? && a.id == id)
  }

  lemma UnchangedNext<V>(content: Option<Snapshot<V>>, sound: set<string>, actions: seq<Action<V>>, n: nat, id: string)
    requires Exec(content, sound, actions).Some? && n < |actions| && !Changes(actions[n], id)
    ensures Held(After(content, sound, actions, n + 1).store, id) == Held(After(content, sound, actions, n).store, id)
  {
    AfterNext(content, sound, actions, n);
    StepMemory(After(content, sound, actions, n), actions[n], id);
  }

  lemma {:induction false} UnchangedSince<V>(
      content: Option<Snapshot<V>>, sound: set<string>, actions: seq<Action<V>>, k: nat, n: nat, id: string)
    requires Exec(content, sound, actions).Some? && k <= n <= |actions|
    requires forall i :: k <= i < n ==> !Changes(actions[i], id)
    ensures Held(After(content, sound, actions, n).store, id) == Held(After(content, sound, actions, k).store, id)
  {
    if k < n {
      UnchangedSince(content, sound, actions, k, n - 1, id);
      UnchangedNext(content, sound, actions, n - 1, id);
    }
  }

  /** An id that was created, or changed while it was there, and not changed since, has the entry it was given. */
  lemma LastEntryHeld<V>(content: Option<Snapshot<V>>, sound: set<string>, actions: seq<Action<V>>, k: nat, id: string)
    requires Exec(content, sound, actions).Some? && k < |actions| && Gives(actions[k], id)
    requires actions[k].Create? || id in After(content, sound, actions, k).store
    requires forall i :: k < i < |actions| ==> !Changes(actions[i], id)
    ensures Held(Exec(content, sound, actions).value.now.store, id) == Some(Given(actions[k], id))
  {
    AfterNext(content, sound, actions, k);
    StepMemory(After(content, sound, actions, k), actions[k], id);
    UnchangedSince(content, sound, actions, k + 1, |actions|, id);
    AfterAll(content, sound, actions);
  }

  /** An id that no step changed has what was loaded. */
  lemma LoadedHeld<V>(content: Option<Snapshot<V>>, sound: set<string>, actions: seq<Action<V>>, id: string)
    requires Exec(content, sound, actions).Some? && forall i :: 0 <= i < |actions| ==> !Changes(actions[i], id)
    ensures Held(Exec(content, sound, actions).value.now.store, id) ==
            if content.Some? && id in content.value && id in sound then Some(content.value[id]) else None
  {
    UnchangedSince(content, sound, actions, 0, |actions|, id);
    AfterAll(content, sound, actions);
    assert actions[..0] == [];
  }

  lemma AbsentNext<V>(content: Option<Snapshot<V>>, sound: set<string>, actions: seq<Action<V>>, n: nat, id: string)
    requires Exec(content, sound, actions).Some? && n < |actions| && !(actions[n].Create? && actions[n].id == id)
    requires id !in After(content, sound, actions, n).store
    ensures id !in After(content, sound, actions, n + 1).store
  {
    AfterNext(content, sound, actions, n);
    StepMemory(After(content, sound, actions, n), actions[n], id);
  }

  lemma {:induction false} AbsentSince<V>(
      content: Option<Snapshot<V>>, sound: set<string>, actions: seq<Action<V>>, k: nat, n: nat, id: string)
    requires Exec(content, sound, actions).Some? && k <= n <= |actions|
    requires id !in After(content, sound, actions, k).store
    requires forall i :: k <= i < n ==> !(actions[i].Create? && actions[i].id == id)
    ensures id !in After(content, sound, actions, n).store
  {
    if k < n {
      AbsentSince(content, sound, actions, k, n - 1, id);
      AbsentNext(content, sound, actions, n - 1, id);
    }
  }

  /** A deleted id is gone until it is created again, whatever is touched or updated meanwhile. */
  lemma DeletedIsGone<V>(content: Option<Snapshot<V>>, sound: set<string>, actions: seq<Action<V>>, k: nat, id: string)
    requires Exec(content, sound, actions).Some? && k < |actions| && actions[k].Delete? && actions[k].id == id
    requires forall i :: k < i < |actions| ==> !(actions[i].Create? && actions[i].id == id)
    ensures id !in Exec(content, sound, actions).value.now.store
  {
    AfterNext(content, sound, actions, k);
    StepMemory(After(content, sound, actions, k), actions[k], id);
    AbsentSince(content, sound, actions, k + 1, |actions|, id);
    AfterAll(content, sound, actions);
  }

  // ---------- and so does the file ----------

  /** Clean, and the last write went through. */
  predicate IsSaved<V>(run: Run<V>) {
    !run.now.dirty && run.lastWrite == Some(Moved)
  }

  /** Then the file has the entry an id was last given. */
  lemma LastEntrySaved<V>(content: Option<Snapshot<V>>, sound: set<string>, actions: seq<Action<V>>, k: nat, id: string)
    requires Exec(content, sound, actions).Some? && k < |actions| && Gives(actions[k], id)
    requires actions[k].Create? || id in After(content, sound, actions, k).store
    requires forall i :: k < i < |actions| ==> !Changes(actions[i], id)
    requires IsSaved(Exec(content, sound, actions).value)
    ensures Held(Exec(content, sound, actions).value.now.OnDisk(), id) == Some(Given(actions[k], id))
  {
    CleanMeansSaved(content, sound, actions);
    LastEntryHeld(content, sound, actions, k, id);
  }

  /** And nothing of one that is deleted. */
  lemma DeletedIsGoneFromDisk<V>(
      content: Option<Snapshot<V>>, sound: set<string>, actions: seq<Action<V>>, k: nat, id: string)
    requires Exec(content, sound, actions).Some? && k < |actions| && actions[k].Delete? && actions[k].id == id
    requires forall i :: k < i < |actions| ==> !(actions[i].Create? && actions[i].id == id)
    requires IsSaved(Exec(content, sound, actions).value)
    ensures id !in Exec(content, sound, actions).value.now.OnDisk()
  {
    CleanMeansSaved(content, sound, actions);
    DeletedIsGone(content, sound, actions, k, id);
  }
}
