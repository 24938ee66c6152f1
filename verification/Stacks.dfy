/** What the two compatibility engines share: stacks and their vocabularies, carts, and choosing the best stack. */
module Stacks {
  import opened Wrappers
  import opened Collections
  import EnvText

  /** A lock file: component ids, status, and the combinations its incompatible[] block lists. */
  datatype Lock = Lock(components: seq<string>, status: Option<string>, incompatible: seq<seq<string>>)

  datatype Stack = Stack(id: string, lock: Lock)

  datatype RecommendedSet = RecommendedSet(stackId: Option<string>, components: seq<string>)

  /** A catalog row; the empty category stands for none. */
  datatype Component = Component(category: string, compatibleWith: seq<string>)

  /** Everything the engines read: the stacks in listing order, the recommended sets, the component index, and the
      required categories. */
  datatype World = World(
    stacks: seq<Stack>, sets: seq<RecommendedSet>, index: map<string, Component>, required: seq<string>)

  /** Stack ids come from distinct file names. */
  ghost predicate Proper(w: World) {
    && (forall i :: 0 <= i < |w.stacks| ==> w.stacks[i].id != "")
    && (forall i, j :: 0 <= i < j < |w.stacks| ==> w.stacks[i].id != w.stacks[j].id)
  }

  // ---------- string order ----------

  /** Code-point order. */
  predicate Before(a: string, b: string) {
    if b == "" then false
    else if a == "" then true
    else if a[0] != b[0] then a[0] < b[0]
    else Before(a[1..], b[1..])
  }

  lemma {:induction false} BeforeIsTotal(a: string, b: string)
    ensures Before(a, b) || Before(b, a) || a == b
    ensures !(Before(a, b) && Before(b, a)) && !Before(a, a)
  {
    if a != "" {
      BeforeIsTotal(a[1..], a[1..]);
      if b != "" && a[0] == b[0] {
        BeforeIsTotal(a[1..], b[1..]);
        assert a[1..] == b[1..] ==> a == [a[0]] + a[1..] == b;
      }
    }
  }

  /** One string comes before another exactly when it is a proper beginning of it, or has the smaller character where
      they first differ. */
  lemma {:induction false} BeforeExactly(a: string, b: string)
    ensures Before(a, b) <==>
            || (|a| < |b| && b[..|a|] == a)
            || exists k :: 0 <= k < |a| && k < |b| && a[..k] == b[..k] && a[k] < b[k]
  {
    if a != "" && b != "" && a[0] == b[0] {
      BeforeExactly(a[1..], b[1..]);
      ShorterBeginning(a, b);
      FirstDifference(a, b);
    } else if a != "" && b != "" {
      assert a[..0] == b[..0];
      assert |a| < |b| ==> b[..|a|][0] == b[0];
      forall k | 0 < k < |a| && k < |b| ensures a[..k] != b[..k] {
        assert a[..k][0] == a[0] && b[..k][0] == b[0];
      }
    }
  }

  lemma ShorterBeginning(a: string, b: string)
    requires a != "" && b != "" && a[0] == b[0]
    ensures |a| < |b| && b[..|a|] == a <==> |a[1..]| < |b[1..]| && b[1..][..|a[1..]|] == a[1..]
  {
    if |a| < |b| {
      assert b[..|a|] == [b[0]] + b[1..][..|a| - 1] && a == [a[0]] + a[1..];
    }
  }

  predicate DiffersFirstAt(a: string, b: string, k: nat) {
    k < |a| && k < |b| && a[..k] == b[..k] && a[k] < b[k]
  }

  lemma DifferenceShifts(a: string, b: string, k: nat)
    requires a != "" && b != "" && a[0] == b[0]
    ensures DiffersFirstAt(a, b, k + 1) <==> DiffersFirstAt(a[1..], b[1..], k)
  {
    if k + 1 < |a| && k + 1 < |b| {
      assert a[..k + 1] == [a[0]] + a[1..][..k] && b[..k + 1] == [b[0]] + b[1..][..k];
    }
  }

  lemma FirstDifference(a: string, b: string)
    requires a != "" && b != "" && a[0] == b[0]
    ensures (exists k :: 0 <= k < |a| && k < |b| && a[..k] == b[..k] && a[k] < b[k]) <==>
            (exists k :: 0 <= k < |a[1..]| && k < |b[1..]| && a[1..][..k] == b[1..][..k] && a[1..][k] < b[1..][k])
  {
    if k :| 0 <= k < |a| && k < |b| && a[..k] == b[..k] && a[k] < b[k] {
      DifferenceShifts(a, b, k - 1);
      assert DiffersFirstAt(a[1..], b[1..], k - 1);
    }
    if k :| 0 <= k < |a[1..]| && k < |b[1..]| && a[1..][..k] == b[1..][..k] && a[1..][k] < b[1..][k] {
      DifferenceShifts(a, b, k);
      assert DiffersFirstAt(a[1..], b[1..], k);
      assert DiffersFirstAt(a, b, k + 1);
    }
  }

  lemma {:induction false} BeforeIsTransitive(a: string, b: string, c: string)
    requires Before(a, b) && Before(b, c)
    ensures Before(a, c)
  {
    if a != "" && a[0] == b[0] == c[0] {
      BeforeIsTransitive(a[1..], b[1..], c[1..]);
    }
  }

  // ---------- vocabularies ----------

  function NonEmptyIds(ids: seq<string>): set<string> {
    set c | c in ids && c != ""
  }

  function SetVocabulary(sets: seq<RecommendedSet>, stackId: string): set<string> {
    set i, c | 0 <= i < |sets| && sets[i].stackId == Some(stackId) && c in sets[i].components && c != "" :: c
  }

  /** The lock's ids together with those of every recommended set for the stack. */
  function Vocabulary(w: World, s: Stack): set<string> {
    NonEmptyIds(s.lock.components) + SetVocabulary(w.sets, s.id)
  }

  lemma SetVocabularyOneMore(sets: seq<RecommendedSet>, i: nat, stackId: string)
    requires i < |sets|
    ensures SetVocabulary(sets[..i + 1], stackId) ==
            SetVocabulary(sets[..i], stackId)
            + if sets[i].stackId == Some(stackId) then NonEmptyIds(sets[i].components) else {}
  {
    var before, after := sets[..i], sets[..i + 1];
    assert forall k :: 0 <= k < i ==> before[k] == after[k];
    assert after[i] == sets[i];
    forall c ensures c in SetVocabulary(after, stackId) <==>
                     c in SetVocabulary(before, stackId)
                     || (sets[i].stackId == Some(stackId) && c in NonEmptyIds(sets[i].components))
    {
      if c in SetVocabulary(before, stackId) {
        var k :| 0 <= k < |before| && before[k].stackId == Some(stackId) && c in before[k].components && c != "";
        assert after[k] == before[k];
      }
      if sets[i].stackId == Some(stackId) && c in NonEmptyIds(sets[i].components) {
        assert c in after[i].components;
      }
    }
  }

  lemma NonEmptyOneMore(ids: seq<string>, i: nat)
    requires i < |ids|
    ensures NonEmptyIds(ids[..i + 1]) == NonEmptyIds(ids[..i]) + if ids[i] != "" then {ids[i]} else {}
  {
    assert ids[..i + 1] == ids[..i] + [ids[i]];
  }

  method AddIds(start: set<string>, ids: seq<string>) returns (vocab: set<string>)
    ensures vocab == start + NonEmptyIds(ids)
  {
    vocab := start;
    for i := 0 to |ids|
      invariant vocab == start + NonEmptyIds(ids[..i])
    {
      NonEmptyOneMore(ids, i);
      if ids[i] != "" {
        vocab := vocab + {ids[i]};
      }
    }
    assert ids[..|ids|] == ids;
  }

  method StackVocabulary(w: World, s: Stack) returns (vocab: set<string>)
    ensures vocab == Vocabulary(w, s)
  {
    vocab := AddIds({}, s.lock.components);
    ghost var own := vocab;
    for i := 0 to |w.sets|
      invariant vocab == own + SetVocabulary(w.sets[..i], s.id)
    {
      SetVocabularyOneMore(w.sets, i, s.id);
      if w.sets[i].stackId == Some(s.id) {
        vocab := AddIds(vocab, w.sets[i].components);
      }
    }
    assert w.sets[..|w.sets|] == w.sets;
  }

  /** A stack as the engines see it. */
  datatype Entry = Entry(
    id: string, vocab: set<string>, status: string, incompatible: seq<seq<string>>, recommended: seq<string>)

  /** The components of the last recommended set that names the stack. */
  function LastRecommended(sets: seq<RecommendedSet>, stackId: string): seq<string> {
    if sets == [] then []
    else if sets[|sets| - 1].stackId == Some(stackId) && stackId != "" then sets[|sets| - 1].components
    else LastRecommended(sets[..|sets| - 1], stackId)
  }

  function EntryOf(w: World, s: Stack): Entry {
    Entry(s.id, Vocabulary(w, s), if s.lock.status.Some? then s.lock.status.value else "", s.lock.incompatible,
          LastRecommended(w.sets, s.id))
  }

  function Catalog(w: World): (entries: seq<Entry>)
    ensures |entries| == |w.stacks|
  {
    seq(|w.stacks|, i requires 0 <= i < |w.stacks| => EntryOf(w, w.stacks[i]))
  }

  ghost predicate DistinctIds(entries: seq<Entry>) {
    forall i, j :: 0 <= i < j < |entries| ==> entries[i].id != entries[j].id
  }

  lemma CatalogIsDistinct(w: World)
    requires Proper(w)
    ensures DistinctIds(Catalog(w))
  {
  }

  method AllStacks(w: World) returns (entries: seq<Entry>)
    ensures entries == Catalog(w)
  {
    entries := [];
    for i := 0 to |w.stacks|
      invariant entries == Catalog(w)[..i]
    {
      var s := w.stacks[i];
      var vocab := StackVocabulary(w, s);
      var recommended: seq<string> := [];
      for k := 0 to |w.sets|
        invariant recommended == LastRecommended(w.sets[..k], s.id)
      {
        assert w.sets[..k + 1][..k] == w.sets[..k];
        if w.sets[k].stackId == Some(s.id) && s.id != "" {
          recommended := w.sets[k].components;
        }
      }
      assert w.sets[..|w.sets|] == w.sets;
      var status := if s.lock.status.Some? then s.lock.status.value else "";
      entries := entries + [Entry(s.id, vocab, status, s.lock.incompatible, recommended)];
    }
  }

  // ---------- carts ----------

  /** Blanks cut off, empty names and repetitions dropped, order kept. */
  function Normalized(ids: seq<string>): seq<string> {
    if ids == [] then []
    else
      var before, c := Normalized(ids[..|ids| - 1]), EnvText.Strip(ids[|ids| - 1]);
      if c == "" || c in before then before else before + [c]
  }

  /** The names a request mentions, whatever their order or repetition. */
  function Mentioned(ids: seq<string>): set<string> {
    set i | 0 <= i < |ids| && EnvText.Strip(ids[i]) != "" :: EnvText.Strip(ids[i])
  }

  method NormalizeCart(ids: seq<string>) returns (cart: seq<string>)
    ensures cart == Normalized(ids)
  {
    cart := [];
    var seen: set<string> := {};
    for i := 0 to |ids|
      invariant cart == Normalized(ids[..i]) && seen == Elems(cart)
    {
      assert ids[..i + 1][..i] == ids[..i];
      var c := EnvText.Strip(ids[i]);
      if c != "" && c !in seen {
        seen := seen + {c};
        ElemsSnoc(cart, c);
        cart := cart + [c];
      }
    }
    assert ids[..|ids|] == ids;
  }

  lemma MentionedOneMore(ids: seq<string>)
    requires ids != []
    ensures var c := EnvText.Strip(ids[|ids| - 1]);
            Mentioned(ids) == Mentioned(ids[..|ids| - 1]) + if c != "" then {c} else {}
  {
    var init, last := ids[..|ids| - 1], |ids| - 1;
    assert forall i :: 0 <= i < last ==> init[i] == ids[i];
    forall c ensures c in Mentioned(ids) <==>
                     c in Mentioned(init) || (c != "" && c == EnvText.Strip(ids[last]))
    {
      if c in Mentioned(init) {
        var i :| 0 <= i < |init| && EnvText.Strip(init[i]) != "" && c == EnvText.Strip(init[i]);
        assert ids[i] == init[i];
      }
    }
  }

  /** A normalised cart lists exactly the names mentioned, each once. */
  lemma {:induction false} NormalizedExactly(ids: seq<string>)
    ensures Elems(Normalized(ids)) == Mentioned(ids) && Distinct(Normalized(ids)) && "" !in Normalized(ids)
    ensures Normalized(ids) == [] <==> Mentioned(ids) == {}
  {
    if ids != [] {
      var init, c := ids[..|ids| - 1], EnvText.Strip(ids[|ids| - 1]);
      NormalizedExactly(init);
      MentionedOneMore(ids);
      ElemsSnoc(Normalized(init), c);
      assert c in Normalized(init) <==> c in Elems(Normalized(init));
    }
    assert Normalized(ids) != [] ==> Normalized(ids)[0] in Elems(Normalized(ids));
  }

  lemma {:induction false} NormalizedIsTrimmed(ids: seq<string>, c: string)
    requires c in Normalized(ids)
    ensures EnvText.Strip(c) == c && c != ""
  {
    var last := ids[|ids| - 1];
    if c in Normalized(ids[..|ids| - 1]) {
      NormalizedIsTrimmed(ids[..|ids| - 1], c);
    } else {
      EnvText.StripEnds(last);
      EnvText.TrimmedStays(c);
    }
  }

  /** Normalising a normalised cart changes nothing that counts. */
  lemma NormalizedAgain(ids: seq<string>)
    ensures Mentioned(Normalized(ids)) == Mentioned(ids)
  {
    var cart := Normalized(ids);
    NormalizedExactly(ids);
    forall c ensures c in Mentioned(cart) <==> c in Elems(cart) {
      if c in Elems(cart) {
        NormalizedIsTrimmed(ids, c);
        var i :| 0 <= i < |cart| && cart[i] == c;
        assert EnvText.Strip(cart[i]) == c;
      } else if c in Mentioned(cart) {
        var i :| 0 <= i < |cart| && EnvText.Strip(cart[i]) != "" && c == EnvText.Strip(cart[i]);
        NormalizedIsTrimmed(ids, cart[i]);
      }
    }
  }

  // ---------- the best stack ----------

  /** Ranks first by priority, then by a small vocabulary, then by name. */
  predicate Better(a: Entry, b: Entry, priority: string -> nat) {
    || priority(a.status) > priority(b.status)
    || (priority(a.status) == priority(b.status)
        && (|a.vocab| < |b.vocab| || (|a.vocab| == |b.vocab| && Before(a.id, b.id))))
  }

  lemma BetterIsTotal(a: Entry, b: Entry, priority: string -> nat)
    ensures Better(a, b, priority) || Better(b, a, priority) || a.id == b.id
    ensures !(Better(a, b, priority) && Better(b, a, priority))
  {
    BeforeIsTotal(a.id, b.id);
  }

  lemma BetterIsTransitive(a: Entry, b: Entry, c: Entry, priority: string -> nat)
    requires Better(a, b, priority) && Better(b, c, priority)
    ensures Better(a, c, priority)
  {
    if |a.vocab| == |b.vocab| == |c.vocab| && Before(a.id, b.id) && Before(b.id, c.id) {
      BeforeIsTransitive(a.id, b.id, c.id);
    }
  }

  /** Nothing among the candidates, or the one that ranks before all the others. */
  ghost predicate IsBest(candidates: seq<Entry>, priority: string -> nat, best: Option<Entry>) {
    match best
    case None => candidates == []
    case Some(e) => e in candidates && forall f :: f in candidates && f != e ==> Better(e, f, priority)
  }

  /** The head of the list sorted by rank. */
  function BestOf(candidates: seq<Entry>, priority: string -> nat): Option<Entry> {
    if candidates == [] then None
    else
      var before, e := BestOf(candidates[..|candidates| - 1], priority), candidates[|candidates| - 1];
      if before.None? || Better(e, before.value, priority) then Some(e) else before
  }

  method First(candidates: seq<Entry>, priority: string -> nat) returns (best: Option<Entry>)
    ensures best == BestOf(candidates, priority)
  {
    best := None;
    for i := 0 to |candidates|
      invariant best == BestOf(candidates[..i], priority)
    {
      assert candidates[..i + 1][..i] == candidates[..i];
      if best.None? || Better(candidates[i], best.value, priority) {
        best := Some(candidates[i]);
      }
    }
    assert candidates[..|candidates|] == candidates;
  }

  lemma LastIsNew(entries: seq<Entry>)
    requires DistinctIds(entries) && entries != []
    ensures DistinctIds(entries[..|entries| - 1])
    ensures forall e :: e in entries[..|entries| - 1] ==> e.id != entries[|entries| - 1].id
  {
    var init := entries[..|entries| - 1];
    assert forall i :: 0 <= i < |init| ==> init[i] == entries[i];
  }

  lemma {:induction false} BestOfIsBest(candidates: seq<Entry>, priority: string -> nat)
    requires DistinctIds(candidates)
    ensures IsBest(candidates, priority, BestOf(candidates, priority))
  {
    if candidates != [] {
      var init, e := candidates[..|candidates| - 1], candidates[|candidates| - 1];
      assert candidates == init + [e];
      LastIsNew(candidates);
      BestOfIsBest(init, priority);
      var before := BestOf(init, priority);
      if before.Some? {
        var b := before.value;
        BetterIsTotal(e, b, priority);
        forall f | f in init && f != b && Better(e, b, priority) ensures Better(e, f, priority) {
          BetterIsTransitive(e, b, f, priority);
        }
      }
    }
  }

  /** The best candidate does not depend on the order of the list. */
  lemma BestIsUnique(a: seq<Entry>, b: seq<Entry>, priority: string -> nat, best: Option<Entry>, other: Option<Entry>)
    requires IsBest(a, priority, best) && IsBest(b, priority, other)
    requires forall e :: e in a <==> e in b
    ensures best == other
  {
    if best.Some? && other.Some? && best.value != other.value {
      BetterIsTotal(best.value, other.value, priority);
    }
    if a != [] {
      assert a[0] in b;
    }
    if b != [] {
      assert b[0] in a;
    }
  }

  /** The entries that pass a test, in listing order. */
  function Where(entries: seq<Entry>, test: Entry -> bool): seq<Entry> {
    if entries == [] then []
    else
      var e := entries[|entries| - 1];
      Where(entries[..|entries| - 1], test) + if test(e) then [e] else []
  }

  lemma {:induction false} WhereExactly(entries: seq<Entry>, test: Entry -> bool, e: Entry)
    ensures e in Where(entries, test) <==> e in entries && test(e)
  {
    if entries != [] {
      WhereExactly(entries[..|entries| - 1], test, e);
      assert entries == entries[..|entries| - 1] + [entries[|entries| - 1]];
    }
  }

  lemma DistinctSnoc(entries: seq<Entry>, e: Entry)
    requires DistinctIds(entries) && forall f :: f in entries ==> f.id != e.id
    ensures DistinctIds(entries + [e])
  {
  }

  lemma {:induction false} WhereDistinct(entries: seq<Entry>, test: Entry -> bool)
    requires DistinctIds(entries)
    ensures DistinctIds(Where(entries, test))
  {
    if entries != [] {
      var init, e := entries[..|entries| - 1], entries[|entries| - 1];
      LastIsNew(entries);
      WhereDistinct(init, test);
      if test(e) {
        forall f | f in Where(init, test) ensures f.id != e.id {
          WhereExactly(init, test, f);
        }
        DistinctSnoc(Where(init, test), e);
      }
    }
  }

  /** The best of the entries that pass: none passes, or it ranks before every other that does. */
  lemma BestWhereExactly(entries: seq<Entry>, test: Entry -> bool, priority: string -> nat)
    requires DistinctIds(entries)
    ensures match BestOf(Where(entries, test), priority)
            case None => forall f :: f in entries ==> !test(f)
            case Some(e) =>
              && e in entries && test(e)
              && forall f :: f in entries && test(f) && f != e ==> Better(e, f, priority)
  {
    WhereDistinct(entries, test);
    BestOfIsBest(Where(entries, test), priority);
    forall f ensures f in Where(entries, test) <==> f in entries && test(f) {
      WhereExactly(entries, test, f);
    }
  }

  /** It does not depend on the order the entries are listed in. */
  lemma BestWhereOrderFree(a: seq<Entry>, b: seq<Entry>, test: Entry -> bool, priority: string -> nat)
    requires DistinctIds(a) && DistinctIds(b) && forall e :: e in a <==> e in b
    ensures BestOf(Where(a, test), priority) == BestOf(Where(b, test), priority)
  {
    WhereDistinct(a, test);
    WhereDistinct(b, test);
    BestOfIsBest(Where(a, test), priority);
    BestOfIsBest(Where(b, test), priority);
    forall e ensures e in Where(a, test) <==> e in Where(b, test) {
      WhereExactly(a, test, e);
      WhereExactly(b, test, e);
    }
    BestIsUnique(Where(a, test), Where(b, test), priority, BestOf(Where(a, test), priority),
                 BestOf(Where(b, test), priority));
  }
}
