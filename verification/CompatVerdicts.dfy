/** The verdicts of the two compatibility engines, said of the cart, the stacks and the catalog alone. */
module CompatVerdicts {
  import opened Wrappers
  import opened Collections
  import opened Stacks
  import opened CompatExplainer
  import CompatCheck
  import EnvText
  import MemberNames

  // ---------- what a stack asks for ----------

  /** The k-th set names the stack, and no later one does. */
  predicate LastNaming(sets: seq<RecommendedSet>, k: nat, id: string) {
    k < |sets| && sets[k].stackId == Some(id) && forall j :: k < j < |sets| ==> sets[j].stackId != Some(id)
  }

  /** The recommended ids of a stack are those of the last recommended set that names it, if one does. */
  lemma {:induction false} LastRecommendedExactly(sets: seq<RecommendedSet>, id: string, k: nat)
    requires id != ""
    ensures LastNaming(sets, k, id) ==> LastRecommended(sets, id) == sets[k].components
    ensures (forall j :: 0 <= j < |sets| ==> sets[j].stackId != Some(id)) ==> LastRecommended(sets, id) == []
  {
    if sets != [] && sets[|sets| - 1].stackId != Some(id) {
      var init := sets[..|sets| - 1];
      assert forall j :: 0 <= j < |init| ==> init[j] == sets[j];
      LastRecommendedExactly(init, id, k);
    }
  }

  /** A stack is listed with its id, the status and the combinations of its lock, and as its vocabulary the named ids of
      the lock and of every recommended set that names the stack. */
  lemma CatalogExactly(w: World, i: nat)
    requires i < |w.stacks|
    ensures var e, s := Catalog(w)[i], w.stacks[i];
            && e.id == s.id && e.incompatible == s.lock.incompatible
            && e.status == (if s.lock.status.Some? then s.lock.status.value else "")
            && e.recommended == LastRecommended(w.sets, s.id)
            && forall c :: c in e.vocab <==>
                 && c != ""
                 && (c in s.lock.components
                     || exists k :: 0 <= k < |w.sets| && w.sets[k].stackId == Some(s.id) && c in w.sets[k].components)
  {
  }

  /** A component of this name, or a detail component of it. */
  predicate Details(c: string, r: string) {
    |c| > |r| && c[..|r|] == r && c[|r|] == '-'
  }

  lemma DetailsExactly(c: string, r: string)
    ensures HasPrefix(c, r + "-") <==> Details(c, r)
  {
    if |c| > |r| {
      assert c[..|r| + 1] == c[..|r|] + [c[|r|]];
    }
  }

  /** The cart names every component the stack recommends, or a detail component of it that the stack knows. */
  ghost predicate FullCart(e: Entry, cart: set<string>) {
    forall r :: r in e.recommended ==> r in cart || exists c :: c in cart && c in e.vocab && Details(c, r)
  }

  lemma FullMatchExactly(e: Entry, cart: set<string>)
    ensures IsFullMatch(e, cart) <==> FullCart(e, cart)
  {
    forall r | r in e.recommended
      ensures Filled(e, cart, r) <==> r in cart || exists c :: c in cart && c in e.vocab && Details(c, r)
    {
      forall c ensures HasPrefix(c, r + "-") <==> Details(c, r) {
        DetailsExactly(c, r);
      }
    }
  }

  /** The component has a catalog row of the category. */
  predicate HasRow(w: World, c: string, category: string) {
    c in w.index && w.index[c].category == category
  }

  /** The component has no row of its own, but the first recommended component it details has one of the category. */
  ghost predicate StandsIn(w: World, e: Entry, c: string, category: string) {
    c !in w.index && c in e.vocab &&
    exists k :: 0 <= k < |e.recommended| && FirstSibling(e.recommended, k, c) && HasRow(w, e.recommended[k], category)
  }

  predicate FirstSibling(recommended: seq<string>, k: nat, c: string)
    requires k < |recommended|
  {
    && (c == recommended[k] || Details(c, recommended[k]))
    && forall j :: 0 <= j < k ==> c != recommended[j] && !Details(c, recommended[j])
  }

  ghost predicate Serves(w: World, e: Entry, cart: set<string>, category: string) {
    exists c :: c in cart && (HasRow(w, c, category) || StandsIn(w, e, c, category))
  }

  /** One of the components the stack recommends has the category. */
  predicate Offers(w: World, e: Entry, category: string) {
    exists r :: r in e.recommended && HasRow(w, r, category)
  }

  lemma {:induction false} SiblingExactly(recommended: seq<string>, c: string)
    ensures match Sibling(recommended, c)
            case None => forall k :: 0 <= k < |recommended| ==> !FirstSibling(recommended, k, c)
            case Some(r) => exists k :: 0 <= k < |recommended| && FirstSibling(recommended, k, c) && recommended[k] == r
  {
    if recommended != [] {
      DetailsExactly(c, recommended[0]);
      var rest := recommended[1..];
      SiblingExactly(rest, c);
      if c == recommended[0] || Details(c, recommended[0]) {
        assert FirstSibling(recommended, 0, c);
      } else {
        forall k | 0 <= k < |rest| ensures FirstSibling(rest, k, c) <==> FirstSibling(recommended, k + 1, c) {
          ShiftSibling(recommended, k, c);
        }
        if Sibling(rest, c).Some? {
          var k :| 0 <= k < |rest| && FirstSibling(rest, k, c) && rest[k] == Sibling(rest, c).value;
          assert FirstSibling(recommended, k + 1, c) && recommended[k + 1] == rest[k];
        } else {
          forall k | 0 <= k < |recommended| ensures !FirstSibling(recommended, k, c) {
            if k > 0 {
              assert !FirstSibling(rest, k - 1, c);
            }
          }
        }
      }
    }
  }

  lemma ShiftSibling(recommended: seq<string>, k: nat, c: string)
    requires k + 1 < |recommended| && c != recommended[0] && !Details(c, recommended[0])
    ensures FirstSibling(recommended[1..], k, c) <==> FirstSibling(recommended, k + 1, c)
  {
    var rest := recommended[1..];
    assert forall j :: 0 <= j < |rest| ==> rest[j] == recommended[j + 1];
    if FirstSibling(rest, k, c) {
      forall j | 0 <= j < k + 1 ensures c != recommended[j] && !Details(c, recommended[j]) {
        assert j > 0 ==> rest[j - 1] == recommended[j];
      }
    }
  }

  lemma OnlyFirst(recommended: seq<string>, i: nat, j: nat, c: string)
    requires i < |recommended| && j < |recommended|
    requires FirstSibling(recommended, i, c) && FirstSibling(recommended, j, c)
    ensures i == j
  {
  }

  lemma FilledByExactly(w: World, e: Entry, c: string, category: string)
    requires category != ""
    ensures FilledBy(w, Some(e), c) == category <==> HasRow(w, c, category) || StandsIn(w, e, c, category)
  {
    if c !in w.index && c in e.vocab {
      SiblingExactly(e.recommended, c);
      var s := Sibling(e.recommended, c);
      if s.Some? {
        var k :| 0 <= k < |e.recommended| && FirstSibling(e.recommended, k, c) && e.recommended[k] == s.value;
        forall i | 0 <= i < |e.recommended| && FirstSibling(e.recommended, i, c) ensures i == k {
          OnlyFirst(e.recommended, i, k, c);
        }
      }
    }
  }

  /** Every required category that the stack offers is served by the cart. */
  ghost predicate NothingMissing(w: World, e: Entry, cart: set<string>) {
    forall category :: category in w.required && category != "" && Offers(w, e, category) ==>
      Serves(w, e, cart, category)
  }

  lemma FillsExactly(w: World, e: Entry, cart: set<string>, category: string)
    requires category != ""
    ensures Fills(w, Some(e), cart, category) <==> Serves(w, e, cart, category)
    ensures Fills(w, None, Elems(e.recommended), category) <==> Offers(w, e, category)
  {
    forall c ensures FilledBy(w, Some(e), c) == category <==> HasRow(w, c, category) || StandsIn(w, e, c, category) {
      FilledByExactly(w, e, c, category);
    }
    forall r ensures FilledBy(w, None, r) == category <==> HasRow(w, r, category) {
    }
  }

  lemma MissingCategoryExactly(w: World, e: Entry, cart: set<string>, category: string)
    ensures category in Missing(w, w.required, Some(e), cart) <==>
            category in w.required && category != "" && Offers(w, e, category) && !Serves(w, e, cart, category)
  {
    MissingExactly(w, w.required, Some(e), cart, category);
    if category != "" {
      FillsExactly(w, e, cart, category);
    }
  }

  lemma MissingNothingExactly(w: World, e: Entry, cart: set<string>)
    ensures Missing(w, w.required, Some(e), cart) == [] <==> NothingMissing(w, e, cart)
  {
    var missing := Missing(w, w.required, Some(e), cart);
    forall category
      ensures category in missing <==>
              category in w.required && category != "" && Offers(w, e, category) && !Serves(w, e, cart, category)
    {
      MissingCategoryExactly(w, e, cart, category);
    }
    if missing != [] {
      assert missing[0] in missing;
    }
  }

  // ---------- what a cart triggers ----------

  /** The first word of a text, and it is not empty. */
  predicate StartsWithWord(s: string, id: string) {
    && id != "" && ' ' !in id && |id| <= |s| && s[..|id|] == id
    && (|id| == |s| || s[|id|] == ' ')
  }

  /** An item names a component as such: without a tag, or with one that reads like free text. */
  ghost predicate AdvisedAs(item: string, id: string) {
    var s := EnvText.Strip(item);
    if ':' !in s then StartsWithWord(s, id) else exists k: nat :: TaggedAs(s, k, id)
  }

  /** The first colon stands at `k`, with a free text after it and the component before it. */
  predicate TaggedAs(s: string, k: nat, id: string) {
    && k < |s| && s[k] == ':' && ':' !in s[..k]
    && ' ' in EnvText.Strip(s[k + 1..]) && StartsWithWord(EnvText.Strip(s[..k]), id)
  }

  lemma FirstWordExactly(s: string, id: string)
    ensures FirstWord(s) == id && id != "" <==> StartsWithWord(s, id)
  {
    var e := MemberNames.NextOf(s, 0, {' '});
    assert forall k :: 0 <= k < e ==> s[k] != ' ';
    if StartsWithWord(s, id) {
      assert forall k :: 0 <= k < |id| ==> s[k] == id[k];
      assert e == |id|;
    }
  }

  lemma FirstColon(s: string, k: nat)
    requires k < |s| && s[k] == ':' && ':' !in s[..k]
    ensures MemberNames.NextOf(s, 0, {':'}) == k
  {
    var e := MemberNames.NextOf(s, 0, {':'});
    assert forall i :: 0 <= i < k ==> s[..k][i] == s[i];
  }

  lemma UntaggedExactly(item: string, id: string)
    requires ':' !in EnvText.Strip(item)
    ensures SplitItem(item) == (FirstWord(EnvText.Strip(item)), None)
    ensures FirstWord(EnvText.Strip(item)) == id && id != "" <==> AdvisedAs(item, id)
  {
    FirstWordExactly(EnvText.Strip(item), id);
  }

  lemma ColonAt(s: string) returns (k: nat)
    requires ':' in s
    ensures k < |s| && s[k] == ':' && ':' !in s[..k] && MemberNames.NextOf(s, 0, {':'}) == k
  {
    k := MemberNames.NextOf(s, 0, {':'});
    assert forall i :: 0 <= i < k ==> s[..k][i] == s[i];
  }

  lemma TaggedExactly(item: string, id: string)
    requires ':' in EnvText.Strip(item)
    ensures var (first, tag) := SplitItem(item);
            tag.Some? && (first == id && id != "" && ' ' in tag.value <==> AdvisedAs(item, id))
  {
    var s := EnvText.Strip(item);
    var colon := ColonAt(s);
    FirstWordExactly(EnvText.Strip(s[..colon]), id);
    forall k: nat | TaggedAs(s, k, id) ensures k == colon {
      FirstColon(s, k);
    }
    assert TaggedAs(s, colon, id) <==>
           ' ' in EnvText.Strip(s[colon + 1..]) && StartsWithWord(EnvText.Strip(s[..colon]), id);
  }

  lemma AdvisedExactly(item: string, id: string)
    ensures var (first, tag) := SplitItem(item);
            first == id && id != "" && (tag.Some? ==> ' ' in tag.value) <==> AdvisedAs(item, id)
  {
    if ':' in EnvText.Strip(item) {
      TaggedExactly(item, id);
    } else {
      UntaggedExactly(item, id);
    }
  }

  ghost predicate AllAdvised(combo: seq<string>, ids: seq<string>) {
    |ids| == |combo| && forall i :: 0 <= i < |combo| ==> AdvisedAs(combo[i], ids[i])
  }

  lemma AllAdvisedSnoc(combo: seq<string>, ids: seq<string>)
    requires combo != [] && ids != []
    ensures AllAdvised(combo, ids) <==>
            AllAdvised(combo[..|combo| - 1], ids[..|ids| - 1]) && AdvisedAs(combo[|combo| - 1], ids[|ids| - 1])
  {
    if |ids| == |combo| && AllAdvised(combo[..|combo| - 1], ids[..|ids| - 1]) {
      forall i | 0 <= i < |combo| - 1 ensures AdvisedAs(combo[i], ids[i]) {
        assert combo[..|combo| - 1][i] == combo[i] && ids[..|ids| - 1][i] == ids[i];
      }
    }
  }

  /** The item splits off this id, and its tag, if any, reads like free text. */
  predicate Splits(item: string, id: string) {
    var (first, tag) := SplitItem(item);
    first == id && id != "" && (tag.Some? ==> ' ' in tag.value)
  }

  lemma SnocExactly<T>(init: seq<T>, last: T, s: seq<T>)
    requires s != []
    ensures init + [last] == s <==> init == s[..|s| - 1] && last == s[|s| - 1]
  {
    assert s == s[..|s| - 1] + [s[|s| - 1]];
  }

  lemma AdvisedIdsSnoc(combo: seq<string>, ids: seq<string>)
    requires combo != [] && ids != []
    ensures AdvisedIds(combo) == Some(ids) <==>
            AdvisedIds(combo[..|combo| - 1]) == Some(ids[..|ids| - 1]) && Splits(combo[|combo| - 1], ids[|ids| - 1])
  {
    var before := AdvisedIds(combo[..|combo| - 1]);
    if before.Some? {
      SnocExactly(before.value, SplitItem(combo[|combo| - 1]).0, ids);
    }
  }

  /** A combination speaks of these components exactly when each of its items does. */
  lemma {:induction false} AdvisedIdsExactly(combo: seq<string>, ids: seq<string>)
    ensures AdvisedIds(combo) == Some(ids) <==> AllAdvised(combo, ids)
  {
    if combo != [] && ids != [] {
      AdvisedIdsExactly(combo[..|combo| - 1], ids[..|ids| - 1]);
      AdvisedIdsSnoc(combo, ids);
      AdvisedExactly(combo[|combo| - 1], ids[|ids| - 1]);
      AllAdvisedSnoc(combo, ids);
    }
  }

  /** A bare item for the marriage check: neither blanks nor a tag. */
  predicate BareAs(item: string, id: string) {
    var s := EnvText.Strip(item);
    ' ' !in s && ':' !in s && id == s
  }

  lemma {:induction false} BareIdsExactly(combo: seq<string>, ids: seq<string>)
    ensures CompatCheck.BareIds(combo) == Some(ids) <==>
            |ids| == |combo| && forall i :: 0 <= i < |combo| ==> BareAs(combo[i], ids[i])
  {
    if combo != [] {
      var init, last := combo[..|combo| - 1], combo[|combo| - 1];
      BareExactly(last);
      if ids != [] {
        BareIdsExactly(init, ids[..|ids| - 1]);
        assert ids == ids[..|ids| - 1] + [ids[|ids| - 1]];
      }
    }
  }

  lemma BareExactly(item: string)
    ensures var (id, tag) := CompatCheck.SplitItem(item);
            ' ' !in id && tag.None? <==> BareAs(item, id)
    ensures var (id, tag) := CompatCheck.SplitItem(item); forall other :: BareAs(item, other) ==> other == id
  {
    var s := EnvText.Strip(item);
    var colon := MemberNames.NextOf(s, 0, {':'});
    if colon < |s| {
      assert s[colon] in s;
    }
  }

  /** All components of a combination of two or more stand in the cart. */
  ghost predicate Contains(cart: set<string>, combo: seq<string>) {
    |combo| >= 2 && forall i :: 0 <= i < |combo| ==> exists id :: id in cart && AdvisedAs(combo[i], id)
  }

  lemma AdvisedOnce(item: string, a: string, b: string)
    requires AdvisedAs(item, a) && AdvisedAs(item, b)
    ensures a == b
  {
    AdvisedExactly(item, a);
    AdvisedExactly(item, b);
  }

  lemma TriggeredExactly(combo: seq<string>, cart: set<string>)
    ensures IsTriggered(combo, cart) <==> Contains(cart, combo)
  {
    if IsTriggered(combo, cart) {
      var ids := AdvisedIds(combo).value;
      AdvisedIdsExactly(combo, ids);
      forall i | 0 <= i < |combo| ensures exists id :: id in cart && AdvisedAs(combo[i], id) {
        assert ids[i] in cart && AdvisedAs(combo[i], ids[i]);
      }
    } else if Contains(cart, combo) {
      var ids := seq(|combo|, i requires 0 <= i < |combo| => Named(cart, combo[i]));
      AdvisedIdsExactly(combo, ids);
    }
  }

  ghost function Named(cart: set<string>, item: string): (id: string)
    requires exists id :: id in cart && AdvisedAs(item, id)
    ensures id in cart && AdvisedAs(item, id)
  {
    var id :| id in cart && AdvisedAs(item, id);
    id
  }

  /** Some lock's combination stands in the cart, or two of its components bind directly by category, are linked by
      neither catalog row and are hosted together by no stack. */
  ghost predicate Refused(w: World, cart: set<string>) {
    || (exists e, combo :: e in Catalog(w) && combo in e.incompatible && Contains(cart, combo))
    || (exists a, b :: a in cart && b in cart && NeverTogether(w, a, b))
  }

  /** Two categories that talk to each other on the wire. */
  predicate Binds(a: string, b: string) {
    || (a == "table_format" && (b == "catalog" || b == "processing"))
    || (a == "catalog" && (b == "processing" || b == "serving"))
  }

  lemma BindsExactly(a: string, b: string)
    ensures {a, b} in DIRECT_BINDINGS <==> Binds(a, b) || Binds(b, a)
  {
    PairExactly(a, b, "table_format", "catalog");
    PairExactly(a, b, "table_format", "processing");
    PairExactly(a, b, "catalog", "processing");
    PairExactly(a, b, "catalog", "serving");
  }

  lemma PairExactly(a: string, b: string, x: string, y: string)
    ensures {a, b} == {x, y} <==> (a == x && b == y) || (a == y && b == x)
  {
    if {a, b} == {x, y} {
      assert a in {x, y} && b in {x, y} && x in {a, b} && y in {a, b};
    }
  }

  predicate NeverTogether(w: World, a: string, b: string) {
    && (Binds(Category(w, a), Category(w, b)) || Binds(Category(w, b), Category(w, a)))
    && !Linked(w.index, a, b)
    && forall e :: e in Catalog(w) ==> !(a in e.vocab && b in e.vocab)
  }

  lemma RefusedExactly(w: World, cart: set<string>)
    ensures Refused(w, cart) <==> HasConflict(Catalog(w), cart) || HasClash(w, Catalog(w), cart)
  {
    forall combo ensures IsTriggered(combo, cart) <==> Contains(cart, combo) {
      TriggeredExactly(combo, cart);
    }
    forall a, b ensures NeverTogether(w, a, b) <==> Classify(w, Catalog(w), a, b) == Clash {
      ClashExactly(w, Catalog(w), a, b);
      BindsExactly(Category(w, a), Category(w, b));
    }
  }

  /** A production, linux-stable or pilot-stable stack is more trusted than a candidate, and a candidate than any
      other. */
  lemma TrustLevels(status: string)
    ensures Trust(status) == if status == "production" || status == "linux-stable" || status == "pilot-stable" then 2
                             else if status == "candidate" then 1 else 0
  {
  }

  /** The stack covers the cart and ranks before every other one that does. */
  ghost predicate BestCovering(w: World, cart: set<string>, e: Entry) {
    && e in Catalog(w) && cart <= e.vocab
    && forall f :: f in Catalog(w) && cart <= f.vocab && f != e ==> Better(e, f, Trust)
  }

  lemma MatchIsBestCovering(w: World, cart: set<string>, e: Entry)
    requires Proper(w) && cart != {}
    ensures ExactMatch(Catalog(w), cart) == Some(e) <==> BestCovering(w, cart, e)
  {
    CatalogIsDistinct(w);
    ExactMatchExactly(Catalog(w), cart);
    var m := ExactMatch(Catalog(w), cart);
    if BestCovering(w, cart, e) && m.Some? && m.value != e {
      BetterIsTotal(m.value, e, Trust);
    }
  }

  // ---------- the explainer's verdict ----------

  /** A cart will work exactly when it is not empty and not refused, and its best covering stack has all it recommends
      from the cart and no category it offers is missing. */
  lemma WillWorkExactly(w: World, cart: set<string>)
    requires Proper(w)
    ensures KindOf(w, cart) == WillWork <==>
            && cart != {} && !Refused(w, cart)
            && exists e :: BestCovering(w, cart, e) && FullCart(e, cart) && NothingMissing(w, e, cart)
  {
    RefusedExactly(w, cart);
    if cart != {} {
      forall e ensures ExactMatch(Catalog(w), cart) == Some(e) <==> BestCovering(w, cart, e) {
        MatchIsBestCovering(w, cart, e);
      }
      var m := ExactMatch(Catalog(w), cart);
      if m.Some? {
        FullMatchExactly(m.value, cart);
        MissingNothingExactly(w, m.value, cart);
        assert BestCovering(w, cart, m.value);
      }
    }
  }

  /** A cart is refused exactly when it triggers something; otherwise it works or is untested. */
  lemma WontWorkExactly(w: World, cart: set<string>)
    ensures KindOf(w, cart) == WontWork <==> Refused(w, cart)
  {
    RefusedExactly(w, cart);
    forall combo ensures IsTriggered(combo, cart) <==> Contains(cart, combo) {
      TriggeredExactly(combo, cart);
    }
    NothingTriggers(w, Catalog(w));
    ReportsNonEmpty(Catalog(w), Elems([]));
    ClashListNonEmpty(w, Catalog(w), []);
    assert cart == {} ==> cart == Elems([]);
  }

  /** What the verdict says of the rest of the explanation. */
  lemma ExplanationAgrees(w: World, ids: seq<string>, x: Explanation)
    requires IsExplanation(w, ids, x)
    ensures x.kind == WontWork <==> x.conflicts != [] || x.clashes != []
    ensures x.kind == WillWork ==> x.matched.Some? && x.conflicts == [] && x.clashes == []
  {
    var cart := Elems(Normalized(ids));
    ReportsNonEmpty(Catalog(w), cart);
    ClashListNonEmpty(w, Catalog(w), Normalized(ids));
    NormalizedExactly(ids);
    WontWorkExactly(w, cart);
    RefusedExactly(w, cart);
  }

  // ---------- the check's verdict ----------

  /** A check calls a cart incompatible exactly when it has hits or is a non-empty cart without a match, and warns
      exactly for an empty cart and for a match with a candidate stack without hits. */
  lemma OverallExactly(w: World, ids: seq<string>)
    ensures var v := CompatCheck.VerdictOf(w, ids);
            && (v.overall == CompatCheck.Incompatible <==>
                  v.hits != [] || (v.matched.None? && Mentioned(ids) != {}))
            && (v.overall == CompatCheck.Warning <==>
                  || Mentioned(ids) == {}
                  || (v.matched.Some? && v.matched.value.status == "candidate" && v.hits == []))
            && (v.matched.None? ==> v.hits == []) && (Mentioned(ids) == {} ==> v.matched.None?)
  {
    NormalizedExactly(ids);
  }

  /** The floor of a match, without rounding: at least three components and 60% of the vocabulary, rounded down. */
  lemma MarriesExactly(e: Entry, cart: set<string>)
    ensures CompatCheck.Marries(e, cart) <==>
            cart <= e.vocab && |cart| >= 3 && 5 * (|cart| + 1) > 3 * |e.vocab|
  {
  }

  /** The check's priorities, highest first: production, linux-stable, pilot-stable, candidate, any other. */
  lemma PriorityLevels(status: string)
    ensures CompatCheck.Priority(status) ==
            if status == "production" then 4 else if status == "linux-stable" then 3
            else if status == "pilot-stable" then 2 else if status == "candidate" then 1 else 0
  {
  }

  /** The check's match, without its ranking: no other admissible stack has a higher priority, and among those of its
      priority none is smaller, and among those of its size none has an earlier id. */
  lemma MatchExactly(w: World, cart: set<string>, e: Entry)
    requires Proper(w) && cart != {} && CompatCheck.BestMatch(Catalog(w), cart) == Some(e)
    ensures e in Catalog(w) && CompatCheck.Marries(e, cart)
    ensures forall f :: f in Catalog(w) && CompatCheck.Marries(f, cart) && f != e ==>
              var p, q := CompatCheck.Priority(e.status), CompatCheck.Priority(f.status);
              || p > q
              || (p == q && |e.vocab| < |f.vocab|)
              || (p == q && |e.vocab| == |f.vocab| && Before(e.id, f.id))
  {
    CatalogIsDistinct(w);
    CompatCheck.BestMatchExactly(Catalog(w), cart);
  }

  /** The same for the explainer's, by trust. */
  lemma ExplainedMatchExactly(w: World, cart: set<string>, e: Entry)
    requires Proper(w) && cart != {} && ExactMatch(Catalog(w), cart) == Some(e)
    ensures e in Catalog(w) && cart <= e.vocab
    ensures forall f :: f in Catalog(w) && cart <= f.vocab && f != e ==>
              || Trust(e.status) > Trust(f.status)
              || (Trust(e.status) == Trust(f.status) && |e.vocab| < |f.vocab|)
              || (Trust(e.status) == Trust(f.status) && |e.vocab| == |f.vocab| && Before(e.id, f.id))
  {
    MatchIsBestCovering(w, cart, e);
  }

  /** The k-th set names the stack, and no earlier one does. */
  predicate FirstNaming(sets: seq<RecommendedSet>, k: nat, id: string) {
    k < |sets| && sets[k].stackId == Some(id) && forall j :: 0 <= j < k ==> sets[j].stackId != Some(id)
  }

  /** A swap asks for the components of the first recommended set that names the stack, if one does. */
  lemma {:induction false} FirstRecommendedExactly(sets: seq<RecommendedSet>, id: string, k: nat)
    ensures FirstNaming(sets, k, id) ==> CompatCheck.FirstRecommended(sets, id) == sets[k].components
    ensures (forall j :: 0 <= j < |sets| ==> sets[j].stackId != Some(id)) ==>
              CompatCheck.FirstRecommended(sets, id) == []
  {
    if sets != [] && sets[0].stackId != Some(id) {
      var rest := sets[1..];
      assert forall j :: 0 <= j < |rest| ==> rest[j] == sets[j + 1];
      FirstRecommendedExactly(rest, id, if k > 0 then k - 1 else 0);
    }
  }

  // ---------- substitutions ----------

  /** What one stack would have a cart give up and take in: the one component outside its vocabulary, for everything it
      recommends that the cart lacks. */
  ghost predicate IsSubstitution(e: Entry, cart: seq<string>, a: Alternative) {
    && a.stackId == e.id && |a.remove| == 1
    && (forall c :: c in a.remove <==> c in cart && c !in e.vocab)
    && a.add != [] && (forall r :: r in a.add <==> r in e.recommended && r !in cart)
  }

  lemma {:induction false} SubstitutionsMean(entries: seq<Entry>, cart: seq<string>, a: Alternative)
    requires a in Substitutions(entries, cart)
    ensures exists e :: e in entries && IsSubstitution(e, cart, a)
  {
    var init, e := entries[..|entries| - 1], entries[|entries| - 1];
    assert entries == init + [e];
    if a in Substitutions(init, cart) {
      SubstitutionsMean(init, cart, a);
    } else {
      OutsideOfStack(e, cart);
      assert IsSubstitution(e, cart, a);
    }
  }

  lemma OutsideOfStack(e: Entry, cart: seq<string>)
    ensures forall c :: c in Outside(cart, e.vocab) <==> c in cart && c !in e.vocab
    ensures forall r :: r in Outside(e.recommended, Elems(cart)) <==> r in e.recommended && r !in cart
  {
    forall c ensures c in Outside(cart, e.vocab) <==> c in cart && c !in e.vocab {
      OutsideExactly(cart, e.vocab, c);
    }
    forall r ensures r in Outside(e.recommended, Elems(cart)) <==> r in e.recommended && r !in cart {
      OutsideExactly(e.recommended, Elems(cart), r);
    }
  }

  lemma SubstitutionKept(entries: seq<Entry>, cart: seq<string>, a: Alternative)
    requires entries != [] && a in Substitutions(entries[..|entries| - 1], cart)
    ensures a in Substitutions(entries, cart)
  {
  }

  lemma LastSubstitution(entries: seq<Entry>, cart: seq<string>)
    requires entries != []
    requires var e := entries[|entries| - 1];
             |Outside(cart, e.vocab)| == 1 && |Outside(e.recommended, Elems(cart))| >= 1
    ensures var e := entries[|entries| - 1];
            Alternative(Outside(cart, e.vocab), Outside(e.recommended, Elems(cart)), e.id)
            in Substitutions(entries, cart)
  {
  }

  lemma StackSubstitutes(e: Entry, cart: seq<string>, c: string, r: string)
    requires Distinct(cart) && r in e.recommended && r !in cart && c in cart && c !in e.vocab
    requires forall d :: d in cart && d !in e.vocab ==> d == c
    ensures |Outside(cart, e.vocab)| == 1 && |Outside(e.recommended, Elems(cart))| >= 1
    ensures IsSubstitution(e, cart, Alternative(Outside(cart, e.vocab), Outside(e.recommended, Elems(cart)), e.id))
  {
    OutsideOfStack(e, cart);
    OutsideIsOne(cart, e.vocab, c);
    assert r in Outside(e.recommended, Elems(cart));
  }

  /** Every stack for which there is one is listed. */
  lemma {:induction false} SubstitutionsListed(entries: seq<Entry>, cart: seq<string>, e: Entry, c: string, r: string)
      returns (a: Alternative)
    requires Distinct(cart) && e in entries && r in e.recommended && r !in cart
    requires c in cart && c !in e.vocab && forall d :: d in cart && d !in e.vocab ==> d == c
    ensures a in Substitutions(entries, cart) && IsSubstitution(e, cart, a)
  {
    var init, last := entries[..|entries| - 1], entries[|entries| - 1];
    assert entries == init + [last];
    if e in init {
      a := SubstitutionsListed(init, cart, e, c, r);
      SubstitutionKept(entries, cart, a);
    } else {
      StackSubstitutes(last, cart, c, r);
      LastSubstitution(entries, cart);
      a := Alternative(Outside(cart, last.vocab), Outside(last.recommended, Elems(cart)), last.id);
    }
  }

  lemma {:induction false} OutsideIsDistinct(cart: seq<string>, vocab: set<string>)
    requires Distinct(cart)
    ensures Distinct(Outside(cart, vocab))
  {
    if cart != [] {
      var init, last := cart[..|cart| - 1], cart[|cart| - 1];
      assert forall i :: 0 <= i < |init| ==> init[i] == cart[i];
      OutsideIsDistinct(init, vocab);
      OutsideExactly(init, vocab, last);
      assert last !in init;
    }
  }

  lemma OutsideIsOne(cart: seq<string>, vocab: set<string>, c: string)
    requires Distinct(cart) && c in cart && c !in vocab && forall d :: d in cart && d !in vocab ==> d == c
    ensures Outside(cart, vocab) == [c]
  {
    var outside := Outside(cart, vocab);
    OutsideIsDistinct(cart, vocab);
    OutsideExactly(cart, vocab, c);
    forall i | 0 <= i < |outside| ensures outside[i] == c {
      assert outside[i] in outside;
      OutsideExactly(cart, vocab, outside[i]);
    }
    assert outside[0] in Elems(outside);
    assert Elems(outside) == {c};
    DistinctSize(outside);
  }
}
