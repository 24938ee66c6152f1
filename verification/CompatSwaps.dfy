/** Swaps of backend/compat_check.py that add back the very component they remove. */
module CompatSwaps {
  import opened Wrappers
  import opened Collections
  import opened Stacks
  import opened CompatCheck
  import EnvText

  // ---------- the removal that is chosen ----------

  /** Dropping `x` leaves a covered cart, and ranks before dropping any other. */
  ghost predicate RanksFirst(w: World, cart: seq<string>, x: string) {
    && x in cart && SwapFor(w, Elems(cart), x).Some?
    && forall y :: y in cart && y != x ==> NotSooner(w, Elems(cart), SwapFor(w, Elems(cart), x).value, y)
  }

  lemma SoonerIsAsymmetric(a: Swap, b: Swap)
    requires Sooner(a, b) && a.remove != b.remove
    ensures !Sooner(b, a)
  {
    BetterIsTotal(a.stack, b.stack, Priority);
    BeforeIsTotal(a.remove, b.remove);
  }

  /** The swap that is chosen is the one for the removal that ranks first. */
  lemma ChosenRanksFirst(w: World, cart: seq<string>, best: Option<Swap>, x: string)
    requires IsSwap(w, Elems(cart), cart, best)
    ensures RanksFirst(w, cart, x) <==> best.Some? && best.value.remove == x
  {
    if RanksFirst(w, cart, x) && best.Some? && best.value.remove != x {
      var s := SwapFor(w, Elems(cart), x).value;
      assert NotSooner(w, Elems(cart), s, best.value.remove) && NotSooner(w, Elems(cart), best.value, x);
      SwapForFacts(w, Elems(cart), x);
      SoonerIsAsymmetric(s, best.value);
    }
  }

  // ---------- when it comes back ----------

  /** The stack running when `x` is dropped names `x` in its first recommended set. */
  predicate Recommends(w: World, cart: set<string>, x: string) {
    var e := Running(Catalog(w), cart - {x});
    e.Some? && x in FirstRecommended(w.sets, e.value.id)
  }

  /** A swap adds back what it removes exactly when the removal that ranks first is of a component that the stack
      running without it recommends. */
  lemma AddsBackExactly(w: World, ids: seq<string>, best: Option<Swap>)
    requires IsSuggested(w, ids, best)
    ensures var cart := Normalized(ids);
            best.Some? && best.value.remove in best.value.add <==>
            && |cart| >= 2 && VerdictOf(w, ids).matched.None?
            && exists x :: RanksFirst(w, cart, x) && Recommends(w, Elems(cart), x)
  {
    var cart := Normalized(ids);
    NormalizedExactly(ids);
    if |cart| >= 2 && VerdictOf(w, ids).matched.None? {
      forall x ensures RanksFirst(w, cart, x) <==> best.Some? && best.value.remove == x {
        ChosenRanksFirst(w, cart, best, x);
      }
      if best.Some? {
        AddedBackIsRecommended(w, cart, best.value);
        SwapForFacts(w, Elems(cart), best.value.remove);
        assert RanksFirst(w, cart, best.value.remove);
      }
    }
  }

  lemma UnmatchedIsBelowFloor(w: World, ids: seq<string>, e: Entry)
    requires Proper(w) && VerdictOf(w, ids).matched.None? && e in Catalog(w)
    requires Elems(Normalized(ids)) != {} && Elems(Normalized(ids)) <= e.vocab
    ensures |Elems(Normalized(ids))| < Floor(|e.vocab|)
  {
    CatalogIsDistinct(w);
    BestMatchExactly(Catalog(w), Elems(Normalized(ids)));
    assert !Marries(e, Elems(Normalized(ids)));
  }

  /** Then the stack covered the whole cart before the swap, and the cart was only too small for it. */
  lemma AddedBackWasTooSmall(w: World, ids: seq<string>, s: Swap)
    requires Proper(w) && IsSuggested(w, ids, Some(s)) && s.remove in s.add
    ensures var cart := Elems(Normalized(ids));
            s.stack in Catalog(w) && cart <= s.stack.vocab && |cart| < Floor(|s.stack.vocab|)
  {
    var cart := Normalized(ids);
    NormalizedExactly(ids);
    SwapForFacts(w, Elems(cart), s.remove);
    AddedFits(w, s.stack, Elems(cart) - {s.remove});
    assert s.remove in Elems(s.add);
    UnmatchedIsBelowFloor(w, ids, s.stack);
  }

  /** For a cart that no vocabulary covers, nothing that is removed is added back. */
  lemma UncoveredStaysOut(w: World, ids: seq<string>, s: Swap)
    requires Proper(w) && IsSuggested(w, ids, Some(s))
    requires forall e :: e in Catalog(w) ==> !(Elems(Normalized(ids)) <= e.vocab)
    ensures s.remove !in s.add
  {
    if s.remove in s.add {
      AddedBackWasTooSmall(w, ids, s);
    }
  }

  // ---------- a family of carts where it happens ----------

  lemma OnlyStackRuns(w: World, cart: set<string>)
    requires |w.stacks| == 1 && cart <= Catalog(w)[0].vocab
    ensures Running(Catalog(w), cart) == Some(Catalog(w)[0])
  {
    assert Catalog(w) == [Catalog(w)[0]];
    RunningFound(Catalog(w), cart);
  }

  /** With one stack, every cart of two or more below its floor that its first recommended set names gets a swap, and
      the swap adds back what it removes. */
  lemma OneStackAddsBack(w: World, ids: seq<string>, best: Option<Swap>)
    requires Proper(w) && |w.stacks| == 1 && IsSuggested(w, ids, best)
    requires var e, cart := Catalog(w)[0], Normalized(ids);
             && 2 <= |cart| < Floor(|e.vocab|)
             && forall c :: c in cart ==> c in FirstRecommended(w.sets, e.id)
    ensures best.Some? && best.value.remove in best.value.add
  {
    var e, cart := Catalog(w)[0], Normalized(ids);
    NormalizedExactly(ids);
    DistinctSize(cart);
    forall c | c in cart ensures c in e.vocab {
      FirstInVocabulary(w.sets, e.id, c);
    }
    CatalogIsDistinct(w);
    BestMatchExactly(Catalog(w), Elems(cart));
    assert !Marries(e, Elems(cart));
    SwapComplete(w, cart, best);
    assert cart[0] in cart && Elems(cart) - {cart[0]} <= e.vocab;
    OnlyStackRuns(w, Elems(cart) - {best.value.remove});
    AddedBackIsRecommended(w, cart, best.value);
  }

  /** Single letters stand for component ids. */
  function Letter(c: char): string {
    [c]
  }

  /** One stack of four components, two of them recommended. */
  function FourOfOne(): World {
    World([Stack("s", Lock([Letter('a'), Letter('b'), Letter('c'), Letter('d')], None, []))],
          [RecommendedSet(Some("s"), [Letter('a'), Letter('b')])], map[], [])
  }

  lemma PairIsNormalized(a: string, b: string)
    requires EnvText.Strip(a) == a != "" && EnvText.Strip(b) == b != "" && a != b
    ensures Normalized([a, b]) == [a, b]
  {
    assert [a, b][..1] == [a] && [a][..0] == [];
    assert Normalized([a]) == [a];
  }

  lemma FourSize(a: string, b: string, c: string, d: string)
    requires Distinct([a, b, c, d])
    ensures |{a, b, c, d}| == 4
  {
    DistinctSize([a, b, c, d]);
    assert Elems([a, b, c, d]) == {a, b, c, d};
  }

  lemma FourVocabulary()
    ensures Proper(FourOfOne()) && |Catalog(FourOfOne())| == 1 && |Catalog(FourOfOne())[0].vocab| == 4
  {
    var ids := [Letter('a'), Letter('b'), Letter('c'), Letter('d')];
    forall i, j | 0 <= i < j < 4 ensures ids[i] != ids[j] {
      assert ids[i][0] != ids[j][0];
    }
    FourSize(Letter('a'), Letter('b'), Letter('c'), Letter('d'));
    assert Catalog(FourOfOne())[0].vocab == {Letter('a'), Letter('b'), Letter('c'), Letter('d')};
  }

  /** It does happen: the cart of the two recommended components gets a swap that adds one of them back. */
  lemma RecommendedPairComesBack(best: Option<Swap>)
    requires IsSuggested(FourOfOne(), [Letter('a'), Letter('b')], best)
    ensures best.Some? && best.value.remove in best.value.add
  {
    FourVocabulary();
    EnvText.TrimmedStays(Letter('a'));
    EnvText.TrimmedStays(Letter('b'));
    assert Letter('a')[0] != Letter('b')[0];
    PairIsNormalized(Letter('a'), Letter('b'));
    OneStackAddsBack(FourOfOne(), [Letter('a'), Letter('b')], best);
  }
}
