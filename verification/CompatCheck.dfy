/** The marriage check of backend/compat_check.py: the certified stack a cart belongs to, the incompatible
    combinations it triggers, and one-component swaps. */
module CompatCheck {
  import opened Wrappers
  import opened Collections
  import opened Stacks
  import EnvText
  import MemberNames

  function Priority(status: string): nat {
    if status == "production" then 4
    else if status == "linux-stable" then 3
    else if status == "pilot-stable" then 2
    else if status == "candidate" then 1
    else 0
  }

  /** At least three components, and 60% of the vocabulary. */
  function Floor(size: nat): nat {
    if size * 3 / 5 < 3 then 3 else size * 3 / 5
  }

  predicate Marries(e: Entry, cart: set<string>) {
    cart <= e.vocab && |cart| >= Floor(|e.vocab|)
  }

  function BestMatch(entries: seq<Entry>, cart: set<string>): Option<Entry> {
    if cart == {} then None else BestOf(Where(entries, e => Marries(e, cart)), Priority)
  }

  method SelectBestMatch(cart: set<string>, entries: seq<Entry>) returns (m: Option<Entry>)
    ensures m == BestMatch(entries, cart)
  {
    if cart == {} {
      return None;
    }
    var marries := e => Marries(e, cart);
    var candidates: seq<Entry> := [];
    for i := 0 to |entries|
      invariant candidates == Where(entries[..i], marries)
    {
      assert entries[..i + 1][..i] == entries[..i];
      var e := entries[i];
      if cart <= e.vocab && |cart| >= Floor(|e.vocab|) {
        candidates := candidates + [e];
      }
    }
    assert entries[..|entries|] == entries;
    m := First(candidates, Priority);
    assert m == BestMatch(entries, cart);
  }

  /** The match is the lexicographic minimum of negated priority, vocabulary size and id over the admissible stacks. */
  lemma BestMatchExactly(entries: seq<Entry>, cart: set<string>)
    requires DistinctIds(entries) && cart != {}
    ensures match BestMatch(entries, cart)
            case None => forall f :: f in entries ==> !Marries(f, cart)
            case Some(e) =>
              && e in entries && Marries(e, cart)
              && forall f :: f in entries && Marries(f, cart) && f != e ==> Better(e, f, Priority)
  {
    BestWhereExactly(entries, e => Marries(e, cart), Priority);
  }

  /** Listing the stacks in another order selects the same one. */
  lemma BestMatchOrderFree(a: seq<Entry>, b: seq<Entry>, cart: set<string>)
    requires DistinctIds(a) && DistinctIds(b) && forall e :: e in a <==> e in b
    ensures BestMatch(a, cart) == BestMatch(b, cart)
  {
    BestWhereOrderFree(a, b, e => Marries(e, cart), Priority);
  }

  // ---------- incompatible combinations ----------

  /** An item of a combination as an id and a tag; text with a blank is kept whole. */
  function SplitItem(item: string): (string, Option<string>) {
    var s := EnvText.Strip(item);
    var colon := MemberNames.NextOf(s, 0, {':'});
    if ' ' in s then (s, None)
    else if colon < |s| then (EnvText.Strip(s[..colon]), Some(EnvText.Strip(s[colon + 1..])))
    else (s, None)
  }

  /** The ids of a combination of bare ids; None when an item is free text or carries a tag. */
  function BareIds(combo: seq<string>): Option<seq<string>> {
    if combo == [] then Some([])
    else
      var before, (id, tag) := BareIds(combo[..|combo| - 1]), SplitItem(combo[|combo| - 1]);
      if before.None? || ' ' in id || tag.Some? then None else Some(before.value + [id])
  }

  predicate AllIn(ids: seq<string>, cart: set<string>) {
    forall k :: 0 <= k < |ids| ==> ids[k] in cart
  }

  predicate IsHit(combo: seq<string>, cart: set<string>) {
    BareIds(combo).Some? && BareIds(combo).value != [] && AllIn(BareIds(combo).value, cart)
  }

  function Hits(combos: seq<seq<string>>, cart: set<string>): seq<seq<string>> {
    if combos == [] then []
    else
      var last := combos[|combos| - 1];
      Hits(combos[..|combos| - 1], cart) + if IsHit(last, cart) then [BareIds(last).value] else []
  }

  lemma {:induction false} BareIdsStops(combo: seq<string>, n: nat)
    requires n <= |combo| && BareIds(combo[..n]).None?
    ensures BareIds(combo).None?
  {
    if n == |combo| {
      assert combo[..n] == combo;
    } else {
      assert combo[..|combo| - 1][..n] == combo[..n];
      BareIdsStops(combo[..|combo| - 1], n);
    }
  }

  method ParseCombination(combo: seq<string>) returns (ids: Option<seq<string>>)
    ensures ids == BareIds(combo)
  {
    var found: seq<string> := [];
    for i := 0 to |combo|
      invariant BareIds(combo[..i]) == Some(found)
    {
      assert combo[..i + 1][..i] == combo[..i];
      var (id, tag) := SplitItem(combo[i]);
      if ' ' in id || tag.Some? {
        BareIdsStops(combo, i + 1);
        return None;
      }
      found := found + [id];
    }
    assert combo[..|combo|] == combo;
    ids := Some(found);
  }

  method CheckIncompatible(combos: seq<seq<string>>, cart: set<string>) returns (hits: seq<seq<string>>)
    ensures hits == Hits(combos, cart)
  {
    hits := [];
    for i := 0 to |combos|
      invariant hits == Hits(combos[..i], cart)
    {
      assert combos[..i + 1][..i] == combos[..i];
      var ids := ParseCombination(combos[i]);
      if ids.Some? && ids.value != [] && AllIn(ids.value, cart) {
        hits := hits + [ids.value];
      }
    }
    assert combos[..|combos|] == combos;
  }

  predicate Yields(combo: seq<string>, cart: set<string>, hit: seq<string>) {
    IsHit(combo, cart) && BareIds(combo).value == hit
  }

  /** Every reported hit is a combination of bare ids that are all in the cart, and every such one is reported. */
  lemma {:induction false} HitsExactly(combos: seq<seq<string>>, cart: set<string>, hit: seq<string>)
    ensures hit in Hits(combos, cart) <==> exists combo :: combo in combos && Yields(combo, cart, hit)
  {
    if combos != [] {
      var init, last := combos[..|combos| - 1], combos[|combos| - 1];
      HitsExactly(init, cart, hit);
      assert forall combo :: combo in combos <==> combo in init || combo == last by {
        assert combos == init + [last];
      }
      assert hit in Hits(combos, cart) <==> hit in Hits(init, cart) || Yields(last, cart, hit);
    }
  }

  // ---------- the verdict ----------

  datatype Overall = Compatible | Warning | Incompatible

  datatype Verdict = Verdict(overall: Overall, matched: Option<Entry>, hits: seq<seq<string>>)

  function VerdictOf(w: World, ids: seq<string>): Verdict {
    var cart := Elems(Normalized(ids));
    var m := BestMatch(Catalog(w), cart);
    if m.None? then Verdict(if cart == {} then Warning else Incompatible, None, [])
    else
      var hits := Hits(m.value.incompatible, cart);
      Verdict(if hits != [] then Incompatible else if m.value.status == "candidate" then Warning else Compatible,
              m, hits)
  }

  method CheckCart(w: World, ids: seq<string>) returns (v: Verdict)
    ensures v == VerdictOf(w, ids)
  {
    var cart := NormalizeCart(ids);
    var names := Elems(cart);
    var entries := AllStacks(w);
    var m := SelectBestMatch(names, entries);
    if m.None? {
      NormalizedExactly(ids);
      return Verdict(if cart == [] then Warning else Incompatible, None, []);
    }
    var hits := CheckIncompatible(m.value.incompatible, names);
    var overall := if hits != [] then Incompatible else if m.value.status == "candidate" then Warning else Compatible;
    v := Verdict(overall, m, hits);
  }

  /** The whole verdict depends only on which names a request mentions, not on their order or repetition. */
  lemma VerdictDependsOnSet(w: World, ids: seq<string>, others: seq<string>)
    requires Mentioned(ids) == Mentioned(others)
    ensures VerdictOf(w, ids) == VerdictOf(w, others)
  {
    NormalizedExactly(ids);
    NormalizedExactly(others);
  }

  // ---------- swaps ----------

  /** The running choice over stacks that cover a cart: a smaller vocabulary of no lower priority replaces it. */
  function Running(entries: seq<Entry>, cart: set<string>): Option<Entry> {
    if entries == [] then None
    else
      var before, e := Running(entries[..|entries| - 1], cart), entries[|entries| - 1];
      if !(cart <= e.vocab) then before
      else if before.None? then Some(e)
      else if |e.vocab| < |before.value.vocab| && Priority(e.status) >= Priority(before.value.status) then Some(e)
      else before
  }

  /** The components of the first recommended set that names the stack. */
  function FirstRecommended(sets: seq<RecommendedSet>, stackId: string): seq<string> {
    if sets == [] then []
    else if sets[0].stackId == Some(stackId) then sets[0].components
    else FirstRecommended(sets[1..], stackId)
  }

  /** The named components a cart lacks, each once. */
  function Lacking(components: seq<string>, cart: set<string>): seq<string> {
    if components == [] then []
    else
      var before, c := Lacking(components[..|components| - 1], cart), components[|components| - 1];
      if c == "" || c in cart || c in before then before else before + [c]
  }

  datatype Swap = Swap(remove: string, add: seq<string>, stack: Entry)

  /** What dropping one component leads to. */
  function SwapFor(w: World, cart: set<string>, x: string): Option<Swap> {
    var rest := cart - {x};
    var e := Running(Catalog(w), rest);
    if rest == {} || e.None? then None
    else Some(Swap(x, Lacking(FirstRecommended(w.sets, e.value.id), rest), e.value))
  }

  predicate Sooner(a: Swap, b: Swap) {
    Better(a.stack, b.stack, Priority) || (a.stack == b.stack && Before(a.remove, b.remove))
  }

  /** The first, by priority, vocabulary size, stack id and removed name, of the swaps that drop one of `xs`. */
  ghost predicate IsSwap(w: World, cart: set<string>, xs: seq<string>, best: Option<Swap>) {
    match best
    case None => forall x :: x in xs ==> SwapFor(w, cart, x).None?
    case Some(s) =>
      && s.remove in xs && SwapFor(w, cart, s.remove) == best
      && forall x :: x in xs && x != s.remove ==> NotSooner(w, cart, s, x)
  }

  ghost predicate NotSooner(w: World, cart: set<string>, s: Swap, x: string) {
    SwapFor(w, cart, x).Some? ==> Sooner(s, SwapFor(w, cart, x).value)
  }

  method RunningChoice(entries: seq<Entry>, cart: set<string>) returns (m: Option<Entry>)
    ensures m == Running(entries, cart)
  {
    m := None;
    for i := 0 to |entries|
      invariant m == Running(entries[..i], cart)
    {
      assert entries[..i + 1][..i] == entries[..i];
      var e := entries[i];
      if cart <= e.vocab {
        if m.None? || |e.vocab| < |m.value.vocab| {
          if Priority(e.status) >= (if m.Some? then Priority(m.value.status) else 0) {
            m := Some(e);
          }
        }
      }
    }
    assert entries[..|entries|] == entries;
  }

  method MissingFor(sets: seq<RecommendedSet>, stackId: string, cart: set<string>) returns (missing: seq<string>)
    ensures missing == Lacking(FirstRecommended(sets, stackId), cart)
  {
    missing := [];
    for k := 0 to |sets|
      invariant FirstRecommended(sets, stackId) == FirstRecommended(sets[k..], stackId) && missing == []
    {
      assert sets[k..][1..] == sets[k + 1..];
      if sets[k].stackId == Some(stackId) {
        var components := sets[k].components;
        for i := 0 to |components|
          invariant missing == Lacking(components[..i], cart)
        {
          assert components[..i + 1][..i] == components[..i];
          var c := components[i];
          if c != "" && c !in cart && c !in missing {
            missing := missing + [c];
          }
        }
        assert components[..|components|] == components;
        return;
      }
    }
  }

  lemma {:induction false} RunningFound(entries: seq<Entry>, cart: set<string>)
    ensures Running(entries, cart).None? <==> forall e :: e in entries ==> !(cart <= e.vocab)
    ensures Running(entries, cart).Some? ==>
              Running(entries, cart).value in entries && cart <= Running(entries, cart).value.vocab
  {
    if entries != [] {
      RunningFound(entries[..|entries| - 1], cart);
      assert entries == entries[..|entries| - 1] + [entries[|entries| - 1]];
    }
  }

  lemma SwapForFacts(w: World, cart: set<string>, x: string)
    requires SwapFor(w, cart, x).Some?
    ensures var s := SwapFor(w, cart, x).value;
            && s.remove == x && s.stack in Catalog(w) && cart - {x} <= s.stack.vocab && cart - {x} != {}
            && s.add == Lacking(FirstRecommended(w.sets, s.stack.id), cart - {x})
  {
    RunningFound(Catalog(w), cart - {x});
  }

  lemma SameIdSameEntry(w: World, a: Entry, b: Entry)
    requires Proper(w) && a in Catalog(w) && b in Catalog(w) && a.id == b.id
    ensures a == b
  {
    CatalogIsDistinct(w);
  }

  lemma SoonerIsTotal(w: World, a: Swap, b: Swap)
    requires Proper(w) && a.stack in Catalog(w) && b.stack in Catalog(w) && a.remove != b.remove
    ensures Sooner(a, b) || Sooner(b, a)
  {
    BetterIsTotal(a.stack, b.stack, Priority);
    if a.stack.id == b.stack.id {
      SameIdSameEntry(w, a.stack, b.stack);
    }
    BeforeIsTotal(a.remove, b.remove);
  }

  lemma SoonerIsTransitive(a: Swap, b: Swap, c: Swap)
    requires Sooner(a, b) && Sooner(b, c)
    ensures Sooner(a, c)
  {
    if Better(a.stack, b.stack, Priority) && Better(b.stack, c.stack, Priority) {
      BetterIsTransitive(a.stack, b.stack, c.stack, Priority);
    } else if a.stack == b.stack == c.stack {
      BeforeIsTransitive(a.remove, b.remove, c.remove);
    }
  }

  method SwapWithout(w: World, entries: seq<Entry>, cart: set<string>, x: string) returns (swap: Option<Swap>)
    requires entries == Catalog(w)
    ensures swap == SwapFor(w, cart, x)
  {
    var rest := cart - {x};
    if rest == {} {
      return None;
    }
    var m := RunningChoice(entries, rest);
    if m.None? {
      return None;
    }
    var missing := MissingFor(w.sets, m.value.id, rest);
    swap := Some(Swap(x, missing, m.value));
  }

  lemma ReplacementIsSooner(w: World, cart: set<string>, b: Swap, s: Swap, x: string)
    requires Sooner(s, b) && (x == b.remove || NotSooner(w, cart, b, x)) && SwapFor(w, cart, b.remove) == Some(b)
    ensures NotSooner(w, cart, s, x)
  {
    if x != b.remove && SwapFor(w, cart, x).Some? {
      SoonerIsTransitive(s, b, SwapFor(w, cart, x).value);
    }
  }

  lemma StepSwap(w: World, cart: set<string>, xs: seq<string>, x: string, best: Option<Swap>, swap: Option<Swap>)
    requires Proper(w) && x !in xs && IsSwap(w, cart, xs, best) && SwapFor(w, cart, x) == swap
    ensures IsSwap(w, cart, xs + [x],
                   if swap.Some? && (best.None? || Sooner(swap.value, best.value)) then swap else best)
  {
    if best.Some? && swap.Some? {
      var b := best.value;
      SwapForFacts(w, cart, x);
      SwapForFacts(w, cart, b.remove);
      SoonerIsTotal(w, swap.value, b);
      if Sooner(swap.value, b) {
        forall y | y in xs ensures NotSooner(w, cart, swap.value, y) {
          ReplacementIsSooner(w, cart, b, swap.value, y);
        }
      }
    } else if swap.Some? {
      SwapForFacts(w, cart, x);
    }
  }

  method BestRemoval(w: World, entries: seq<Entry>, cart: seq<string>) returns (best: Option<Swap>)
    requires Proper(w) && entries == Catalog(w) && Distinct(cart)
    ensures IsSwap(w, Elems(cart), cart, best)
  {
    best := None;
    for i := 0 to |cart|
      invariant IsSwap(w, Elems(cart), cart[..i], best)
    {
      assert cart[..i + 1] == cart[..i] + [cart[i]];
      var swap := SwapWithout(w, entries, Elems(cart), cart[i]);
      StepSwap(w, Elems(cart), cart[..i], cart[i], best, swap);
      if swap.Some? && (best.None? || Sooner(swap.value, best.value)) {
        best := swap;
      }
    }
    assert cart[..|cart|] == cart;
  }

  /** None for a cart of one, for one that already matches, and when no single removal helps. */
  ghost predicate IsSuggested(w: World, ids: seq<string>, best: Option<Swap>) {
    var cart := Normalized(ids);
    if |cart| < 2 || VerdictOf(w, ids).matched.Some? then best == None
    else IsSwap(w, Elems(cart), cart, best)
  }

  method SuggestSwap(w: World, ids: seq<string>) returns (best: Option<Swap>)
    requires Proper(w)
    ensures IsSuggested(w, ids, best)
  {
    var cart := NormalizeCart(ids);
    if |cart| < 2 {
      return None;
    }
    var v := CheckCart(w, cart);
    NormalizedAgain(ids);
    VerdictDependsOnSet(w, cart, ids);
    if v.matched.Some? {
      return None;
    }
    var entries := AllStacks(w);
    NormalizedExactly(ids);
    best := BestRemoval(w, entries, cart);
  }

  // ---------- what a swap is worth ----------

  /** For an unmatched cart of two or more, there is no swap exactly when no single removal fits any vocabulary. */
  lemma SwapComplete(w: World, cart: seq<string>, best: Option<Swap>)
    requires Distinct(cart) && |cart| >= 2 && IsSwap(w, Elems(cart), cart, best)
    ensures best.None? <==> forall x, e :: x in cart && e in Catalog(w) ==> !(Elems(cart) - {x} <= e.vocab)
  {
    DistinctSize(cart);
    forall x | x in cart
      ensures SwapFor(w, Elems(cart), x).None? <==> forall e :: e in Catalog(w) ==> !(Elems(cart) - {x} <= e.vocab)
    {
      assert |Elems(cart) - {x}| == |Elems(cart)| - 1;
      RunningFound(Catalog(w), Elems(cart) - {x});
    }
  }

  lemma {:induction false} LackingExactly(components: seq<string>, cart: set<string>)
    ensures Elems(Lacking(components, cart)) == NonEmptyIds(components) - cart
    ensures Distinct(Lacking(components, cart))
  {
    if components != [] {
      var before := Lacking(components[..|components| - 1], cart);
      LackingExactly(components[..|components| - 1], cart);
      NonEmptyOneMore(components, |components| - 1);
      assert components[..|components| - 1 + 1] == components;
      ElemsSnoc(before, components[|components| - 1]);
      assert components[|components| - 1] in before <==> components[|components| - 1] in Elems(before);
    }
  }

  lemma {:induction false} FirstInVocabulary(sets: seq<RecommendedSet>, stackId: string, c: string)
    requires c in FirstRecommended(sets, stackId) && c != ""
    ensures c in SetVocabulary(sets, stackId)
  {
    if sets[0].stackId == Some(stackId) {
      assert c in sets[0].components;
    } else {
      FirstInVocabulary(sets[1..], stackId, c);
      var i :| 0 <= i < |sets[1..]| && sets[1..][i].stackId == Some(stackId) && c in sets[1..][i].components;
      assert sets[i + 1] == sets[1..][i];
    }
  }

  function Swapped(cart: set<string>, s: Swap): set<string> {
    (cart - {s.remove}) + Elems(s.add)
  }

  lemma AddedFits(w: World, e: Entry, rest: set<string>)
    requires e in Catalog(w)
    ensures Elems(Lacking(FirstRecommended(w.sets, e.id), rest)) <= e.vocab
  {
    LackingExactly(FirstRecommended(w.sets, e.id), rest);
    forall c | c in NonEmptyIds(FirstRecommended(w.sets, e.id)) ensures c in e.vocab {
      FirstInVocabulary(w.sets, e.id, c);
    }
  }

  /** The swapped cart fits the suggested stack and has all of its first recommended set. */
  lemma SwapSound(w: World, cart: seq<string>, s: Swap)
    requires IsSwap(w, Elems(cart), cart, Some(s))
    ensures s.remove in cart && s.stack in Catalog(w) && Swapped(Elems(cart), s) != {}
    ensures Swapped(Elems(cart), s) <= s.stack.vocab
    ensures NonEmptyIds(FirstRecommended(w.sets, s.stack.id)) <= Swapped(Elems(cart), s)
  {
    var rest := Elems(cart) - {s.remove};
    SwapForFacts(w, Elems(cart), s.remove);
    LackingExactly(FirstRecommended(w.sets, s.stack.id), rest);
    AddedFits(w, s.stack, rest);
    assert rest <= Swapped(Elems(cart), s);
  }

  lemma MatchAtLeast(entries: seq<Entry>, cart: set<string>, e: Entry)
    requires DistinctIds(entries) && cart != {} && e in entries && Marries(e, cart)
    ensures BestMatch(entries, cart).Some? && Priority(BestMatch(entries, cart).value.status) >= Priority(e.status)
  {
    BestMatchExactly(entries, cart);
  }

  /** When the swapped cart also reaches the stack's floor, the check matches it to a stack of at least its priority. */
  lemma SwapMatches(w: World, cart: seq<string>, s: Swap)
    requires Proper(w) && IsSwap(w, Elems(cart), cart, Some(s))
    requires |Swapped(Elems(cart), s)| >= Floor(|s.stack.vocab|)
    ensures var m := BestMatch(Catalog(w), Swapped(Elems(cart), s));
            m.Some? && Priority(m.value.status) >= Priority(s.stack.status)
  {
    SwapSound(w, cart, s);
    CatalogIsDistinct(w);
    MatchAtLeast(Catalog(w), Swapped(Elems(cart), s), s.stack);
  }

  lemma AddedBackIsRecommended(w: World, cart: seq<string>, s: Swap)
    requires IsSwap(w, Elems(cart), cart, Some(s)) && "" !in cart
    ensures s.remove in s.add <==> s.remove in FirstRecommended(w.sets, s.stack.id)
  {
    SwapForFacts(w, Elems(cart), s.remove);
    LackingExactly(FirstRecommended(w.sets, s.stack.id), Elems(cart) - {s.remove});
    assert s.remove in s.add <==> s.remove in Elems(s.add);
  }

  /** The running choice per removal depends on the order stacks are listed in. */
  lemma RunningChoiceNeedsOrder(large: Entry, small: Entry, cart: set<string>)
    requires cart <= large.vocab && cart <= small.vocab && |small.vocab| < |large.vocab|
    requires Priority(small.status) < Priority(large.status)
    ensures Running([large, small], cart) == Some(large) && Running([small, large], cart) == Some(small)
  {
    RunningOfTwo(large, small, cart);
    RunningOfTwo(small, large, cart);
  }

  lemma RunningOfTwo(first: Entry, second: Entry, cart: set<string>)
    requires cart <= first.vocab && cart <= second.vocab
    ensures Running([first, second], cart) ==
            if |second.vocab| < |first.vocab| && Priority(second.status) >= Priority(first.status)
            then Some(second) else Some(first)
  {
    var one, two := [first], [first, second];
    assert one[..0] == [] && two[..1] == one;
    assert Running(one, cart) == Some(first);
  }

  /** `e` beats `f` wherever it is listed. */
  predicate Beats(e: Entry, f: Entry) {
    |e.vocab| < |f.vocab| && Priority(e.status) >= Priority(f.status)
  }

  /** A covering stack that beats every other covering one. */
  ghost predicate Dominates(e: Entry, entries: seq<Entry>, cart: set<string>) {
    && e in entries && cart <= e.vocab
    && forall f :: f in entries && cart <= f.vocab && f != e ==> Beats(e, f)
  }

  ghost predicate OrderFree(entries: seq<Entry>, cart: set<string>) {
    forall p: seq<Entry> :: multiset(p) == multiset(entries) ==> Running(p, cart) == Running(entries, cart)
  }

  lemma {:induction false} DominantIsChosen(entries: seq<Entry>, cart: set<string>, e: Entry)
    requires Dominates(e, entries, cart)
    ensures Running(entries, cart) == Some(e)
  {
    var init, last := entries[..|entries| - 1], entries[|entries| - 1];
    assert entries == init + [last];
    RunningFound(init, cart);
    if e in init {
      DominantIsChosen(init, cart, e);
    }
  }

  lemma {:induction false} NeverChosenLater(front: seq<Entry>, rest: seq<Entry>, cart: set<string>, e: Entry)
    requires Running(front, cart).Some? && Running(front, cart) != Some(e) && e !in rest
    ensures Running(front + rest, cart).Some? && Running(front + rest, cart) != Some(e)
  {
    if rest == [] {
      assert front + rest == front;
    } else {
      var init := rest[..|rest| - 1];
      assert (front + rest)[..|front + rest| - 1] == front + init;
      NeverChosenLater(front, init, cart, e);
    }
  }

  lemma MovedToFront(entries: seq<Entry>, e: Entry) returns (rest: seq<Entry>)
    requires e in entries
    ensures multiset([e] + rest) == multiset(entries)
    ensures DistinctIds(entries) ==> DistinctIds(rest) && e !in rest
    ensures forall f :: f in entries && f != e ==> f in rest
  {
    var i :| 0 <= i < |entries| && entries[i] == e;
    rest := entries[..i] + entries[i + 1..];
    assert entries == entries[..i] + [e] + entries[i + 1..];
    if DistinctIds(entries) {
      WithoutOneDistinct(entries, i);
    }
  }

  lemma WithoutOneDistinct(entries: seq<Entry>, i: nat)
    requires DistinctIds(entries) && i < |entries|
    ensures DistinctIds(entries[..i] + entries[i + 1..]) && entries[i] !in entries[..i] + entries[i + 1..]
  {
    var rest := entries[..i] + entries[i + 1..];
    forall j | 0 <= j < |rest| ensures rest[j].id != entries[i].id && rest[j] == entries[if j < i then j else j + 1] {
    }
  }

  /** When `e` does not beat `f`, listing `f` and then `e` first keeps `e` from being chosen. */
  lemma ListedLater(entries: seq<Entry>, cart: set<string>, e: Entry, f: Entry) returns (p: seq<Entry>)
    requires DistinctIds(entries) && e in entries && f in entries && e != f
    requires cart <= e.vocab && cart <= f.vocab && !Beats(e, f)
    ensures multiset(p) == multiset(entries) && Running(p, cart) != Some(e)
  {
    var others := MovedToFront(entries, f);
    var rest := MovedToFront(others, e);
    p := [f, e] + rest;
    assert p == [f] + ([e] + rest);
    RunningOfTwo(f, e, cart);
    NeverChosenLater([f, e], rest, cart, e);
  }

  lemma PermutationMembers(p: seq<Entry>, entries: seq<Entry>)
    requires multiset(p) == multiset(entries)
    ensures forall e :: e in p <==> e in entries
  {
    forall e ensures e in p <==> e in entries {
      assert e in p <==> e in multiset(p);
      assert e in entries <==> e in multiset(entries);
    }
  }

  lemma DominantIsOrderFree(entries: seq<Entry>, cart: set<string>, e: Entry)
    requires Dominates(e, entries, cart)
    ensures OrderFree(entries, cart)
  {
    DominantIsChosen(entries, cart, e);
    forall p: seq<Entry> | multiset(p) == multiset(entries) ensures Running(p, cart) == Running(entries, cart) {
      PermutationMembers(p, entries);
      DominantIsChosen(p, cart, e);
    }
  }

  lemma NoneIsOrderFree(entries: seq<Entry>, cart: set<string>)
    requires Running(entries, cart).None?
    ensures OrderFree(entries, cart)
  {
    RunningFound(entries, cart);
    forall p: seq<Entry> | multiset(p) == multiset(entries) ensures Running(p, cart) == Running(entries, cart) {
      PermutationMembers(p, entries);
      RunningFound(p, cart);
    }
  }

  /** The choice for one removal is the same in every listing order exactly when no stack covers the rest of the cart,
      or one that does has a strictly smaller vocabulary and no lower priority than every other. */
  lemma RunningOrderFreeExactly(entries: seq<Entry>, cart: set<string>)
    requires DistinctIds(entries)
    ensures OrderFree(entries, cart) <==>
            (forall f :: f in entries ==> !(cart <= f.vocab)) || (exists e :: Dominates(e, entries, cart))
  {
    RunningFound(entries, cart);
    if Running(entries, cart).None? {
      NoneIsOrderFree(entries, cart);
    } else if e :| Dominates(e, entries, cart) {
      DominantIsOrderFree(entries, cart, e);
    } else {
      var e := Running(entries, cart).value;
      assert !Dominates(e, entries, cart);
      var f :| f in entries && cart <= f.vocab && f != e && !Beats(e, f);
      var p := ListedLater(entries, cart, e, f);
      assert multiset(p) == multiset(entries) && Running(p, cart) != Running(entries, cart);
    }
  }
}
