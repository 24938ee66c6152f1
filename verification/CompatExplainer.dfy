/** The cart explainer of backend/compat_explainer.py: its own stack matching, the scans for incompatibilities, and
    the verdict; and how it relates to the marriage check. */
module CompatExplainer {
  import opened Wrappers
  import opened Collections
  import opened Stacks
  import EnvText
  import MemberNames
  import CompatCheck

  predicate Trustworthy(status: string) {
    status == "pilot-stable" || status == "linux-stable" || status == "production"
  }

  function Trust(status: string): nat {
    if Trustworthy(status) then 2 else if status == "candidate" then 1 else 0
  }

  predicate Covers(e: Entry, cart: set<string>) {
    cart <= e.vocab
  }

  function ExactMatch(entries: seq<Entry>, cart: set<string>): Option<Entry> {
    if cart == {} then None else BestOf(Where(entries, e => Covers(e, cart)), Trust)
  }

  method FindExactMatch(cart: set<string>, entries: seq<Entry>) returns (m: Option<Entry>)
    ensures m == ExactMatch(entries, cart)
  {
    if cart == {} {
      return None;
    }
    var covers := e => Covers(e, cart);
    var candidates: seq<Entry> := [];
    for i := 0 to |entries|
      invariant candidates == Where(entries[..i], covers)
    {
      assert entries[..i + 1][..i] == entries[..i];
      if cart <= entries[i].vocab {
        candidates := candidates + [entries[i]];
      }
    }
    assert entries[..|entries|] == entries;
    m := First(candidates, Trust);
    assert m == ExactMatch(entries, cart);
  }

  lemma ExactMatchExactly(entries: seq<Entry>, cart: set<string>)
    requires DistinctIds(entries) && cart != {}
    ensures match ExactMatch(entries, cart)
            case None => forall f :: f in entries ==> !Covers(f, cart)
            case Some(e) =>
              && e in entries && Covers(e, cart)
              && forall f :: f in entries && Covers(f, cart) && f != e ==> Better(e, f, Trust)
  {
    BestWhereExactly(entries, e => Covers(e, cart), Trust);
  }

  // ---------- full matches ----------

  predicate HasPrefix(s: string, prefix: string) {
    |prefix| <= |s| && s[..|prefix|] == prefix
  }

  /** The cart names a recommended component, or a detail component of it from the stack's vocabulary. */
  predicate Filled(e: Entry, cart: set<string>, r: string) {
    r in cart || exists c :: c in cart && c in e.vocab && HasPrefix(c, r + "-")
  }

  predicate IsFullMatch(e: Entry, cart: set<string>) {
    forall r :: r in e.recommended ==> Filled(e, cart, r)
  }

  // ---------- the compatibility graph ----------

  type Graph = map<string, set<string>>

  function Links(g: Graph, a: string): set<string> {
    if a in g then g[a] else {}
  }

  /** Either catalog row names the other. */
  predicate Linked(index: map<string, Component>, a: string, b: string) {
    || (a in index && b in index[a].compatibleWith && b != "")
    || (b in index && a in index[b].compatibleWith && a != "")
  }

  predicate LinkedFrom(id: string, partners: seq<string>, a: string, b: string) {
    (a == id && b in partners && b != "") || (b == id && a in partners && a != "")
  }

  function WithLink(g: Graph, id: string, p: string): Graph {
    var one := g[id := Links(g, id) + {p}];
    one[p := Links(one, p) + {id}]
  }

  lemma WithLinkExactly(g: Graph, id: string, p: string, a: string, b: string)
    ensures b in Links(WithLink(g, id, p), a) <==> b in Links(g, a) || (a == id && b == p) || (a == p && b == id)
  {
  }

  lemma LinkedFromSnoc(id: string, partners: seq<string>, p: string, a: string, b: string)
    ensures LinkedFrom(id, partners + [p], a, b) <==>
            LinkedFrom(id, partners, a, b) || (p != "" && ((a == id && b == p) || (a == p && b == id)))
  {
  }

  method AddPartners(g: Graph, id: string, partners: seq<string>) returns (r: Graph)
    ensures forall a, b :: b in Links(r, a) <==> b in Links(g, a) || LinkedFrom(id, partners, a, b)
  {
    r := g[id := Links(g, id)];
    assert partners[..0] == [];
    for k := 0 to |partners|
      invariant forall a, b :: b in Links(r, a) <==> b in Links(g, a) || LinkedFrom(id, partners[..k], a, b)
    {
      assert partners[..k + 1] == partners[..k] + [partners[k]];
      var p := partners[k];
      ghost var was := r;
      if p != "" {
        r := r[id := Links(r, id) + {p}];
        r := r[p := Links(r, p) + {id}];
        assert r == WithLink(was, id, p);
      }
      forall a, b ensures b in Links(r, a) <==> b in Links(g, a) || LinkedFrom(id, partners[..k + 1], a, b) {
        LinkedFromSnoc(id, partners[..k], p, a, b);
        WithLinkExactly(was, id, p, a, b);
        assert b in Links(was, a) <==> b in Links(g, a) || LinkedFrom(id, partners[..k], a, b);
      }
    }
    assert partners[..|partners|] == partners;
  }

  /** Links between components, one of them among those already read. */
  predicate LinkedVia(index: map<string, Component>, done: set<string>, a: string, b: string)
    requires done <= index.Keys
  {
    || (a in done && b in index[a].compatibleWith && b != "")
    || (b in done && a in index[b].compatibleWith && a != "")
  }

  lemma LinkedViaOneMore(index: map<string, Component>, done: set<string>, id: string, a: string, b: string)
    requires done <= index.Keys && id in index
    ensures LinkedVia(index, done + {id}, a, b) <==>
            LinkedVia(index, done, a, b) || LinkedFrom(id, index[id].compatibleWith, a, b)
  {
  }

  /** The graph links two components exactly when either catalog row names the other, so it is symmetric. */
  method CompatibilityGraph(index: map<string, Component>) returns (g: Graph)
    ensures forall a, b :: b in Links(g, a) <==> Linked(index, a, b)
  {
    g := map[];
    var todo := index.Keys;
    while todo != {}
      invariant todo <= index.Keys
      invariant forall a, b :: b in Links(g, a) <==> LinkedVia(index, index.Keys - todo, a, b)
      decreases |todo|
    {
      var id :| id in todo;
      ghost var was := g;
      g := AddPartners(g, id, index[id].compatibleWith);
      assert index.Keys - (todo - {id}) == (index.Keys - todo) + {id};
      forall a, b ensures b in Links(g, a) <==> LinkedVia(index, index.Keys - (todo - {id}), a, b) {
        LinkedViaOneMore(index, index.Keys - todo, id, a, b);
        assert b in Links(was, a) <==> LinkedVia(index, index.Keys - todo, a, b);
      }
      todo := todo - {id};
    }
  }

  // ---------- pairs ----------

  datatype PairKind = Silent | Documented | Clash

  function Category(w: World, c: string): string {
    if c in w.index then w.index[c].category else ""
  }

  const DIRECT_BINDINGS: set<set<string>> := {
    {"table_format", "catalog"}, {"table_format", "processing"}, {"catalog", "processing"}, {"catalog", "serving"}}

  predicate Coexist(entries: seq<Entry>, a: string, b: string) {
    exists e :: e in entries && a in e.vocab && b in e.vocab
  }

  function Classify(w: World, entries: seq<Entry>, a: string, b: string): PairKind {
    var ca, cb := Category(w, a), Category(w, b);
    if ca != "" && cb != "" && ca == cb then Silent
    else if Linked(w.index, a, b) then Documented
    else if ca == "" || cb == "" then Silent
    else if {ca, cb} !in DIRECT_BINDINGS then Silent
    else if Coexist(entries, a, b) then Silent
    else Clash
  }

  lemma ClassifySymmetric(w: World, entries: seq<Entry>, a: string, b: string)
    ensures Classify(w, entries, a, b) == Classify(w, entries, b, a)
  {
    assert {Category(w, a), Category(w, b)} == {Category(w, b), Category(w, a)};
  }

  /** A pair clashes exactly when its two categories bind directly, neither row names the other, and no stack hosts
      both. */
  lemma ClashExactly(w: World, entries: seq<Entry>, a: string, b: string)
    ensures Classify(w, entries, a, b) == Clash <==>
            && {Category(w, a), Category(w, b)} in DIRECT_BINDINGS
            && !Linked(w.index, a, b)
            && forall e :: e in entries ==> !(a in e.vocab && b in e.vocab)
  {
    var ca, cb := Category(w, a), Category(w, b);
    assert {ca, cb} in DIRECT_BINDINGS ==> ca != cb && ca != "" && cb != "" by {
      if {ca, cb} in DIRECT_BINDINGS {
        BindingsAreBetweenTwo({ca, cb}, ca);
        BindingsAreBetweenTwo({ca, cb}, cb);
      }
    }
  }

  lemma BindingsAreBetweenTwo(pair: set<string>, category: string)
    requires pair in DIRECT_BINDINGS && category in pair
    ensures category != "" && pair != {category}
  {
    assert "catalog" in pair || "processing" in pair;
    assert "table_format" in pair || "catalog" in pair;
    assert "serving" in pair || "processing" in pair || "table_format" in pair;
  }

  type Pair = (string, string)

  /** The pair as it is remembered, smaller name first. */
  function Key(p: Pair): Pair {
    if Before(p.0, p.1) then p else (p.1, p.0)
  }

  /** The scan's lists: pairs met, pairs that clash, pairs documented as compatible. */
  datatype Scan = Scan(seen: set<Pair>, clashes: seq<Pair>, documented: seq<Pair>)

  function ScanPair(w: World, entries: seq<Entry>, s: Scan, p: Pair): Scan {
    if Key(p) in s.seen then s
    else
      match Classify(w, entries, p.0, p.1)
      case Silent => s.(seen := s.seen + {Key(p)})
      case Documented => s.(seen := s.seen + {Key(p)}, documented := s.documented + [p])
      case Clash => s.(seen := s.seen + {Key(p)}, clashes := s.clashes + [p])
  }

  function ScanPairs(w: World, entries: seq<Entry>, pairs: seq<Pair>): Scan {
    if pairs == [] then Scan({}, [], [])
    else ScanPair(w, entries, ScanPairs(w, entries, pairs[..|pairs| - 1]), pairs[|pairs| - 1])
  }

  /** The pairs of one element with those after it, up to position `j`. */
  function Row(list: seq<string>, i: nat, j: nat): (r: seq<Pair>)
    requires i < j <= |list|
    ensures |r| == j - i - 1
  {
    seq(j - i - 1, k requires 0 <= k < j - i - 1 => (list[i], list[i + 1 + k]))
  }

  function PairsBefore(list: seq<string>, i: nat): seq<Pair>
    requires i <= |list|
  {
    if i == 0 then [] else PairsBefore(list, i - 1) + Row(list, i - 1, |list|)
  }

  function Indexed(w: World, cart: seq<string>): seq<string> {
    if cart == [] then []
    else
      var c := cart[|cart| - 1];
      Indexed(w, cart[..|cart| - 1]) + if c in w.index then [c] else []
  }

  lemma ScanOneMore(w: World, entries: seq<Entry>, before: seq<Pair>, list: seq<string>, i: nat, j: nat)
    requires i < j < |list|
    ensures ScanPairs(w, entries, before + Row(list, i, j + 1)) ==
            ScanPair(w, entries, ScanPairs(w, entries, before + Row(list, i, j)), (list[i], list[j]))
  {
    var next := before + Row(list, i, j + 1);
    assert next[..|next| - 1] == before + Row(list, i, j);
    assert next[|next| - 1] == (list[i], list[j]);
  }

  method KnownOnly(w: World, cart: seq<string>) returns (list: seq<string>)
    ensures list == Indexed(w, cart)
  {
    list := [];
    for i := 0 to |cart|
      invariant list == Indexed(w, cart[..i])
    {
      assert cart[..i + 1][..i] == cart[..i];
      if cart[i] in w.index {
        list := list + [cart[i]];
      }
    }
    assert cart[..|cart|] == cart;
  }

  method ClassifyPair(w: World, entries: seq<Entry>, graph: Graph, a: string, b: string) returns (kind: PairKind)
    requires b in Links(graph, a) <==> Linked(w.index, a, b)
    requires a in Links(graph, b) <==> Linked(w.index, b, a)
    ensures kind == Classify(w, entries, a, b)
  {
    var ca, cb := Category(w, a), Category(w, b);
    if ca != "" && cb != "" && ca == cb {
      return Silent;
    }
    if b in Links(graph, a) || a in Links(graph, b) {
      return Documented;
    }
    if ca == "" || cb == "" {
      return Silent;
    }
    if {ca, cb} !in DIRECT_BINDINGS {
      return Silent;
    }
    if Coexist(entries, a, b) {
      return Silent;
    }
    kind := Clash;
  }

  method PairReasons(w: World, entries: seq<Entry>, graph: Graph, cart: seq<string>)
      returns (clashes: seq<Pair>, documented: seq<Pair>)
    requires forall a, b :: b in Links(graph, a) <==> Linked(w.index, a, b)
    ensures var scan := ScanPairs(w, entries, PairsBefore(Indexed(w, cart), |Indexed(w, cart)|));
            clashes == scan.clashes && documented == scan.documented
  {
    var list := KnownOnly(w, cart);
    clashes, documented := [], [];
    var seen: set<Pair> := {};
    for i := 0 to |list|
      invariant Scan(seen, clashes, documented) == ScanPairs(w, entries, PairsBefore(list, i))
    {
      assert PairsBefore(list, i) + Row(list, i, i + 1) == PairsBefore(list, i);
      for j := i + 1 to |list|
        invariant Scan(seen, clashes, documented) == ScanPairs(w, entries, PairsBefore(list, i) + Row(list, i, j))
      {
        ScanOneMore(w, entries, PairsBefore(list, i), list, i, j);
        var p := (list[i], list[j]);
        if Key(p) !in seen {
          seen := seen + {Key(p)};
          var kind := ClassifyPair(w, entries, graph, p.0, p.1);
          match kind {
            case Silent =>
            case Documented => documented := documented + [p];
            case Clash => clashes := clashes + [p];
          }
        }
      }
    }
  }

  lemma KeySymmetric(a: string, b: string)
    ensures Key((a, b)) == Key((b, a))
    ensures forall p :: Key(p) == Key((a, b)) ==> p == (a, b) || p == (b, a)
  {
    BeforeIsTotal(a, b);
  }

  predicate Clashes(w: World, entries: seq<Entry>, p: Pair) {
    Classify(w, entries, p.0, p.1) == Clash
  }

  /** Every pair met is remembered, and the clashes listed are those of the pairs met, in one order or the other. */
  ghost predicate ScanHolds(w: World, entries: seq<Entry>, pairs: seq<Pair>, s: Scan) {
    && (forall p :: p in s.clashes ==> p in pairs && Clashes(w, entries, p))
    && (forall p :: p in pairs && Clashes(w, entries, p) ==> p in s.clashes || (p.1, p.0) in s.clashes)
    && (forall k :: k in s.seen ==> exists p :: p in pairs && Key(p) == k)
  }

  lemma StepScan(w: World, entries: seq<Entry>, pairs: seq<Pair>, s: Scan, p: Pair)
    requires ScanHolds(w, entries, pairs, s)
    ensures ScanHolds(w, entries, pairs + [p], ScanPair(w, entries, s, p))
  {
    var next := ScanPair(w, entries, s, p);
    assert forall q :: q in pairs + [p] <==> q in pairs || q == p;
    KeySymmetric(p.0, p.1);
    ClassifySymmetric(w, entries, p.0, p.1);
    if Key(p) in s.seen && Clashes(w, entries, p) {
      var q :| q in pairs && Key(q) == Key(p);
      assert Clashes(w, entries, q);
    }
    assert forall q :: q in next.clashes <==> q in s.clashes || (q == p && q in next.clashes);
  }

  lemma {:induction false} ScanPairsHolds(w: World, entries: seq<Entry>, pairs: seq<Pair>)
    ensures ScanHolds(w, entries, pairs, ScanPairs(w, entries, pairs))
  {
    if pairs != [] {
      var init, last := pairs[..|pairs| - 1], pairs[|pairs| - 1];
      ScanPairsHolds(w, entries, init);
      StepScan(w, entries, init, ScanPairs(w, entries, init), last);
      assert pairs == init + [last];
    }
  }

  /** No pair of names is reported twice, in whatever order. */
  ghost predicate ClashesOnce(s: Scan) {
    && (forall p :: p in s.clashes ==> Key(p) in s.seen)
    && forall i, j :: 0 <= i < j < |s.clashes| ==> Key(s.clashes[i]) != Key(s.clashes[j])
  }

  lemma StepClashesOnce(w: World, entries: seq<Entry>, s: Scan, p: Pair)
    requires ClashesOnce(s)
    ensures ClashesOnce(ScanPair(w, entries, s, p))
  {
    forall i | 0 <= i < |s.clashes| ensures Key(s.clashes[i]) in s.seen {
      assert s.clashes[i] in s.clashes;
    }
  }

  lemma {:induction false} PairsClashOnce(w: World, entries: seq<Entry>, pairs: seq<Pair>)
    ensures ClashesOnce(ScanPairs(w, entries, pairs))
  {
    if pairs != [] {
      PairsClashOnce(w, entries, pairs[..|pairs| - 1]);
      StepClashesOnce(w, entries, ScanPairs(w, entries, pairs[..|pairs| - 1]), pairs[|pairs| - 1]);
    }
  }

  lemma RowExactly(list: seq<string>, i: nat, p: Pair)
    requires i < |list|
    ensures p in Row(list, i, |list|) <==> p.0 == list[i] && exists j :: i < j < |list| && list[j] == p.1
  {
    var row := Row(list, i, |list|);
    if p.0 == list[i] && exists j :: i < j < |list| && list[j] == p.1 {
      var j :| i < j < |list| && list[j] == p.1;
      assert row[j - i - 1] == p;
    }
  }

  lemma {:induction false} PairsExactly(list: seq<string>, n: nat, p: Pair)
    requires n <= |list|
    ensures p in PairsBefore(list, n) <==>
            exists i, j :: 0 <= i < n && i < j < |list| && list[i] == p.0 && list[j] == p.1
  {
    if n > 0 {
      PairsExactly(list, n - 1, p);
      RowExactly(list, n - 1, p);
    }
  }

  lemma {:induction false} IndexedExactly(w: World, cart: seq<string>, c: string)
    ensures c in Indexed(w, cart) <==> c in cart && c in w.index
  {
    if cart != [] {
      IndexedExactly(w, cart[..|cart| - 1], c);
      assert cart == cart[..|cart| - 1] + [cart[|cart| - 1]];
    }
  }

  function ClashList(w: World, entries: seq<Entry>, cart: seq<string>): seq<Pair> {
    ScanPairs(w, entries, PairsBefore(Indexed(w, cart), |Indexed(w, cart)|)).clashes
  }

  /** The same for the pairs documented as compatible. */
  ghost predicate DocumentedHolds(w: World, entries: seq<Entry>, pairs: seq<Pair>, s: Scan) {
    && (forall p :: p in s.documented ==> p in pairs && Documents(w, entries, p))
    && (forall p :: p in pairs && Documents(w, entries, p) ==> p in s.documented || (p.1, p.0) in s.documented)
  }

  predicate Documents(w: World, entries: seq<Entry>, p: Pair) {
    Classify(w, entries, p.0, p.1) == Documented
  }

  lemma StepDocuments(w: World, entries: seq<Entry>, pairs: seq<Pair>, s: Scan, p: Pair)
    requires ScanHolds(w, entries, pairs, s) && DocumentedHolds(w, entries, pairs, s)
    ensures DocumentedHolds(w, entries, pairs + [p], ScanPair(w, entries, s, p))
  {
    var next := ScanPair(w, entries, s, p);
    assert forall q :: q in pairs + [p] <==> q in pairs || q == p;
    KeySymmetric(p.0, p.1);
    ClassifySymmetric(w, entries, p.0, p.1);
    if Key(p) in s.seen && Documents(w, entries, p) {
      var q :| q in pairs && Key(q) == Key(p);
      assert Documents(w, entries, q);
    }
    assert forall q :: q in next.documented <==> q in s.documented || (q == p && q in next.documented);
  }

  lemma {:induction false} PairsDocumented(w: World, entries: seq<Entry>, pairs: seq<Pair>)
    ensures DocumentedHolds(w, entries, pairs, ScanPairs(w, entries, pairs))
  {
    if pairs != [] {
      var init, last := pairs[..|pairs| - 1], pairs[|pairs| - 1];
      PairsDocumented(w, entries, init);
      ScanPairsHolds(w, entries, init);
      StepDocuments(w, entries, init, ScanPairs(w, entries, init), last);
      assert pairs == init + [last];
    }
  }

  lemma PairedInList(list: seq<string>, p: Pair)
    ensures p in PairsBefore(list, |list|) ==> p.0 in list && p.1 in list
    ensures p.0 in list && p.1 in list && p.0 != p.1 ==>
              p in PairsBefore(list, |list|) || (p.1, p.0) in PairsBefore(list, |list|)
  {
    PairsExactly(list, |list|, p);
    PairsExactly(list, |list|, (p.1, p.0));
    if p.0 in list && p.1 in list && p.0 != p.1 {
      var i :| 0 <= i < |list| && list[i] == p.0;
      var j :| 0 <= j < |list| && list[j] == p.1;
      assert i < j || j < i;
    }
  }

  lemma ClashDiffers(w: World, entries: seq<Entry>, p: Pair)
    requires Clashes(w, entries, p)
    ensures p.0 != p.1 && Clashes(w, entries, (p.1, p.0))
  {
    ClassifySymmetric(w, entries, p.0, p.1);
  }

  lemma OneOrder(s: Scan, p: Pair)
    requires ClashesOnce(s) && p.0 != p.1 && p in s.clashes
    ensures (p.1, p.0) !in s.clashes
  {
    KeySymmetric(p.0, p.1);
    var i :| 0 <= i < |s.clashes| && s.clashes[i] == p;
    forall j | 0 <= j < |s.clashes| ensures s.clashes[j] != (p.1, p.0) {
      assert j != i ==> Key(s.clashes[j]) != Key(s.clashes[i]);
    }
  }

  lemma ListedInOneOrder(w: World, entries: seq<Entry>, pairs: seq<Pair>, p: Pair)
    requires Clashes(w, entries, p) && (p in pairs || (p.1, p.0) in pairs)
    ensures var clashes := ScanPairs(w, entries, pairs).clashes; (p in clashes) != ((p.1, p.0) in clashes)
  {
    var s := ScanPairs(w, entries, pairs);
    ClashDiffers(w, entries, p);
    ScanPairsHolds(w, entries, pairs);
    PairsClashOnce(w, entries, pairs);
    assert p in s.clashes || (p.1, p.0) in s.clashes;
    if p in s.clashes {
      OneOrder(s, p);
    }
  }

  /** Two different components are reported as documented exactly when both have catalog rows in the cart, one row
      names the other, and they do not share a category. */
  lemma DocumentedExactly(w: World, entries: seq<Entry>, cart: seq<string>, a: string, b: string)
    requires a != b
    ensures var documented := ScanPairs(w, entries, PairsBefore(Indexed(w, cart), |Indexed(w, cart)|)).documented;
            (a, b) in documented || (b, a) in documented <==>
            && a in cart && b in cart && a in w.index && b in w.index
            && ((b in w.index[a].compatibleWith && b != "") || (a in w.index[b].compatibleWith && a != ""))
            && !(w.index[a].category != "" && w.index[a].category == w.index[b].category)
  {
    var list := Indexed(w, cart);
    PairsDocumented(w, entries, PairsBefore(list, |list|));
    PairedInList(list, (a, b));
    PairedInList(list, (b, a));
    IndexedExactly(w, cart, a);
    IndexedExactly(w, cart, b);
    ClassifySymmetric(w, entries, a, b);
    assert a in list && b in list ==> (Documents(w, entries, (a, b)) <==> Documents(w, entries, (b, a)));
  }

  /** The clashes reported are exactly the clashing pairs of the cart, each in just one order. */
  lemma ClashListExactly(w: World, entries: seq<Entry>, cart: seq<string>, p: Pair)
    ensures p in ClashList(w, entries, cart) ==> p.0 in cart && p.1 in cart && Clashes(w, entries, p)
    ensures p.0 in cart && p.1 in cart && Clashes(w, entries, p) ==>
              (p in ClashList(w, entries, cart)) != ((p.1, p.0) in ClashList(w, entries, cart))
  {
    var list := Indexed(w, cart);
    var pairs := PairsBefore(list, |list|);
    ScanPairsHolds(w, entries, pairs);
    PairedInList(list, p);
    IndexedExactly(w, cart, p.0);
    IndexedExactly(w, cart, p.1);
    if p.0 in cart && p.1 in cart && Clashes(w, entries, p) {
      ClashDiffers(w, entries, p);
      ListedInOneOrder(w, entries, pairs, p);
    }
  }

  predicate HasClash(w: World, entries: seq<Entry>, cart: set<string>) {
    exists a, b :: a in cart && b in cart && Classify(w, entries, a, b) == Clash
  }

  lemma ClashListNonEmpty(w: World, entries: seq<Entry>, cart: seq<string>)
    ensures ClashList(w, entries, cart) != [] <==> HasClash(w, entries, Elems(cart))
  {
    var list := ClashList(w, entries, cart);
    if list != [] {
      ClashListExactly(w, entries, cart, list[0]);
      assert list[0].0 in Elems(cart) && list[0].1 in Elems(cart);
    } else if HasClash(w, entries, Elems(cart)) {
      var a, b :| a in Elems(cart) && b in Elems(cart) && Classify(w, entries, a, b) == Clash;
      ClashListExactly(w, entries, cart, (a, b));
    }
  }

  /** A cart inside one stack's vocabulary never has a clashing pair. */
  lemma VocabularyHasNoClash(w: World, entries: seq<Entry>, cart: seq<string>, e: Entry)
    requires e in entries && Elems(cart) <= e.vocab
    ensures ClashList(w, entries, cart) == []
  {
    ClashListNonEmpty(w, entries, cart);
    forall a, b | a in Elems(cart) && b in Elems(cart) ensures Classify(w, entries, a, b) != Clash {
      assert Coexist(entries, a, b);
    }
  }

  // ---------- incompatible combinations ----------

  function FirstWord(s: string): string {
    s[..MemberNames.NextOf(s, 0, {' '})]
  }

  /** An item of a combination as an id and a tag, free text after the id cut off. */
  function SplitItem(item: string): (string, Option<string>) {
    var s := EnvText.Strip(item);
    var colon := MemberNames.NextOf(s, 0, {':'});
    if colon < |s| then (FirstWord(EnvText.Strip(s[..colon])), Some(EnvText.Strip(s[colon + 1..])))
    else (FirstWord(s), None)
  }

  /** The ids of a combination that speaks of components as such; None when an item is empty or pins a tag. */
  function AdvisedIds(combo: seq<string>): Option<seq<string>> {
    if combo == [] then Some([])
    else
      var before, (id, tag) := AdvisedIds(combo[..|combo| - 1]), SplitItem(combo[|combo| - 1]);
      if before.None? || id == "" || (tag.Some? && ' ' !in tag.value) then None else Some(before.value + [id])
  }

  predicate IsTriggered(combo: seq<string>, cart: set<string>) {
    var ids := AdvisedIds(combo);
    ids.Some? && |ids.value| >= 2 && CompatCheck.AllIn(ids.value, cart)
  }

  /** A report: the lock it comes from and the set of ids. */
  type Report = (string, set<string>)

  function Keys(reports: seq<Report>): set<set<string>> {
    set r | r in reports :: r.1
  }

  function Report1(reports: seq<Report>, lock: string, combo: seq<string>, cart: set<string>): seq<Report> {
    if !IsTriggered(combo, cart) then reports
    else
      var ids := Elems(AdvisedIds(combo).value);
      if ids in Keys(reports) then reports else reports + [(lock, ids)]
  }

  /** One lock's combinations added to the reports so far; an id set already reported is not repeated. */
  function ReportLock(reports: seq<Report>, lock: string, combos: seq<seq<string>>, cart: set<string>): seq<Report> {
    if combos == [] then reports
    else Report1(ReportLock(reports, lock, combos[..|combos| - 1], cart), lock, combos[|combos| - 1], cart)
  }

  function ReportAll(entries: seq<Entry>, cart: set<string>): seq<Report> {
    if entries == [] then []
    else
      var e := entries[|entries| - 1];
      ReportLock(ReportAll(entries[..|entries| - 1], cart), e.id, e.incompatible, cart)
  }

  lemma {:induction false} AdvisedIdsStops(combo: seq<string>, n: nat)
    requires n <= |combo| && AdvisedIds(combo[..n]).None?
    ensures AdvisedIds(combo).None?
  {
    if n == |combo| {
      assert combo[..n] == combo;
    } else {
      assert combo[..|combo| - 1][..n] == combo[..n];
      AdvisedIdsStops(combo[..|combo| - 1], n);
    }
  }

  method ParseCombination(combo: seq<string>) returns (ids: Option<seq<string>>)
    ensures ids == AdvisedIds(combo)
  {
    var found: seq<string> := [];
    for i := 0 to |combo|
      invariant AdvisedIds(combo[..i]) == Some(found)
    {
      assert combo[..i + 1][..i] == combo[..i];
      var (id, tag) := SplitItem(combo[i]);
      if id == "" || (tag.Some? && ' ' !in tag.value) {
        AdvisedIdsStops(combo, i + 1);
        return None;
      }
      found := found + [id];
    }
    assert combo[..|combo|] == combo;
    ids := Some(found);
  }

  lemma KeysSnoc(reports: seq<Report>, r: Report)
    ensures Keys(reports + [r]) == Keys(reports) + {r.1}
  {
  }

  method ScanIncompatibilities(cart: set<string>, entries: seq<Entry>) returns (reports: seq<Report>)
    ensures reports == ReportAll(entries, cart)
  {
    reports := [];
    var seen: set<set<string>> := {};
    for i := 0 to |entries|
      invariant reports == ReportAll(entries[..i], cart) && seen == Keys(reports)
    {
      assert entries[..i + 1][..i] == entries[..i];
      var e := entries[i];
      ghost var before := reports;
      for k := 0 to |e.incompatible|
        invariant reports == ReportLock(before, e.id, e.incompatible[..k], cart) && seen == Keys(reports)
      {
        assert e.incompatible[..k + 1][..k] == e.incompatible[..k];
        var ids := ParseCombination(e.incompatible[k]);
        if ids.Some? && |ids.value| >= 2 && CompatCheck.AllIn(ids.value, cart) {
          var key := Elems(ids.value);
          if key !in seen {
            seen := seen + {key};
            KeysSnoc(reports, (e.id, key));
            reports := reports + [(e.id, key)];
          }
        }
      }
      assert e.incompatible[..|e.incompatible|] == e.incompatible;
    }
    assert entries[..|entries|] == entries;
  }

  predicate TriggersIn(combos: seq<seq<string>>, cart: set<string>, key: set<string>) {
    exists combo :: combo in combos && IsTriggered(combo, cart) && Elems(AdvisedIds(combo).value) == key
  }

  lemma TriggersSnoc(combos: seq<seq<string>>, last: seq<string>, cart: set<string>, key: set<string>)
    ensures TriggersIn(combos + [last], cart, key) <==>
            TriggersIn(combos, cart, key) || (IsTriggered(last, cart) && Elems(AdvisedIds(last).value) == key)
  {
    assert forall combo :: combo in combos + [last] <==> combo in combos || combo == last;
  }

  lemma {:induction false} ReportLockExactly(reports: seq<Report>, lock: string, combos: seq<seq<string>>,
                                             cart: set<string>, key: set<string>)
    ensures key in Keys(ReportLock(reports, lock, combos, cart)) <==>
            key in Keys(reports) || TriggersIn(combos, cart, key)
  {
    if combos != [] {
      var init, last := combos[..|combos| - 1], combos[|combos| - 1];
      ReportLockExactly(reports, lock, init, cart, key);
      assert combos == init + [last];
      TriggersSnoc(init, last, cart, key);
      var before := ReportLock(reports, lock, init, cart);
      if IsTriggered(last, cart) {
        KeysSnoc(before, (lock, Elems(AdvisedIds(last).value)));
      }
    }
  }

  predicate SomeLockTriggers(entries: seq<Entry>, cart: set<string>, key: set<string>) {
    exists e :: e in entries && TriggersIn(e.incompatible, cart, key)
  }

  lemma SomeLockSnoc(entries: seq<Entry>, last: Entry, cart: set<string>, key: set<string>)
    ensures SomeLockTriggers(entries + [last], cart, key) <==>
            SomeLockTriggers(entries, cart, key) || TriggersIn(last.incompatible, cart, key)
  {
    assert forall e :: e in entries + [last] <==> e in entries || e == last;
  }

  /** The id sets reported are exactly those some lock's combination triggers. */
  lemma {:induction false} ReportsExactly(entries: seq<Entry>, cart: set<string>, key: set<string>)
    ensures key in Keys(ReportAll(entries, cart)) <==> SomeLockTriggers(entries, cart, key)
  {
    if entries != [] {
      var init, last := entries[..|entries| - 1], entries[|entries| - 1];
      ReportsExactly(init, cart, key);
      ReportLockExactly(ReportAll(init, cart), last.id, last.incompatible, cart, key);
      assert entries == init + [last];
      SomeLockSnoc(init, last, cart, key);
    }
  }

  /** No id set is reported twice. */
  ghost predicate DistinctKeys(reports: seq<Report>) {
    forall i, j :: 0 <= i < j < |reports| ==> reports[i].1 != reports[j].1
  }

  lemma NewKeyDistinct(reports: seq<Report>, r: Report)
    requires DistinctKeys(reports) && r.1 !in Keys(reports)
    ensures DistinctKeys(reports + [r])
  {
    forall i | 0 <= i < |reports| ensures reports[i].1 != r.1 {
      assert reports[i] in reports;
    }
  }

  lemma {:induction false} ReportLockDistinct(reports: seq<Report>, lock: string, combos: seq<seq<string>>,
                                              cart: set<string>)
    requires DistinctKeys(reports)
    ensures DistinctKeys(ReportLock(reports, lock, combos, cart))
  {
    if combos != [] {
      var init, last := combos[..|combos| - 1], combos[|combos| - 1];
      ReportLockDistinct(reports, lock, init, cart);
      var before := ReportLock(reports, lock, init, cart);
      if IsTriggered(last, cart) && Elems(AdvisedIds(last).value) !in Keys(before) {
        NewKeyDistinct(before, (lock, Elems(AdvisedIds(last).value)));
      }
    }
  }

  lemma {:induction false} ReportsDistinct(entries: seq<Entry>, cart: set<string>)
    ensures DistinctKeys(ReportAll(entries, cart))
  {
    if entries != [] {
      var init, last := entries[..|entries| - 1], entries[|entries| - 1];
      ReportsDistinct(init, cart);
      ReportLockDistinct(ReportAll(init, cart), last.id, last.incompatible, cart);
    }
  }

  predicate HasConflict(entries: seq<Entry>, cart: set<string>) {
    exists e, combo :: e in entries && combo in e.incompatible && IsTriggered(combo, cart)
  }

  lemma ReportsNonEmpty(entries: seq<Entry>, cart: set<string>)
    ensures ReportAll(entries, cart) != [] <==> HasConflict(entries, cart)
  {
    var reports := ReportAll(entries, cart);
    if reports != [] {
      var key := reports[0].1;
      assert key in Keys(reports);
      ReportsExactly(entries, cart, key);
      var e :| e in entries && TriggersIn(e.incompatible, cart, key);
      var combo :| combo in e.incompatible && IsTriggered(combo, cart) && Elems(AdvisedIds(combo).value) == key;
    } else if HasConflict(entries, cart) {
      var e, combo :| e in entries && combo in e.incompatible && IsTriggered(combo, cart);
      var key := Elems(AdvisedIds(combo).value);
      assert TriggersIn(e.incompatible, cart, key);
      ReportsExactly(entries, cart, key);
    }
  }

  // ---------- missing categories ----------

  /** The first recommended component a detail component belongs to. */
  function Sibling(recommended: seq<string>, c: string): Option<string> {
    if recommended == [] then None
    else if c == recommended[0] || HasPrefix(c, recommended[0] + "-") then Some(recommended[0])
    else Sibling(recommended[1..], c)
  }

  /** The category a cart entry fills: its own, or that of its sibling in the matched stack. */
  function FilledBy(w: World, m: Option<Entry>, c: string): string {
    if c in w.index then w.index[c].category
    else if m.Some? && c in m.value.vocab && Sibling(m.value.recommended, c).Some?
    then Category(w, Sibling(m.value.recommended, c).value)
    else ""
  }

  predicate Fills(w: World, m: Option<Entry>, cart: set<string>, category: string) {
    exists c :: c in cart && FilledBy(w, m, c) == category != ""
  }

  /** The required categories a cart leaves empty, but for those the matched stack itself does without. */
  function Missing(w: World, required: seq<string>, m: Option<Entry>, cart: set<string>): seq<string> {
    if required == [] then []
    else
      var before, c := Missing(w, required[..|required| - 1], m, cart), required[|required| - 1];
      if Fills(w, m, cart, c) || (m.Some? && !Fills(w, None, Elems(m.value.recommended), c)) then before
      else before + [c]
  }

  /** A category is reported missing exactly when it is required, the cart does not fill it, and the matched stack,
      if any, would have filled it. */
  lemma {:induction false} MissingExactly(w: World, required: seq<string>, m: Option<Entry>, cart: set<string>,
                                        c: string)
    ensures c in Missing(w, required, m, cart) <==>
            && c in required && !Fills(w, m, cart, c)
            && (m.Some? ==> Fills(w, None, Elems(m.value.recommended), c))
  {
    if required != [] {
      MissingExactly(w, required[..|required| - 1], m, cart, c);
      assert required == required[..|required| - 1] + [required[|required| - 1]];
    }
  }

  function FilledSet(w: World, m: Option<Entry>, cart: seq<string>): set<string> {
    set c | c in cart && FilledBy(w, m, c) != "" :: FilledBy(w, m, c)
  }

  method FilledCategories(w: World, m: Option<Entry>, cart: seq<string>) returns (filled: set<string>)
    ensures filled == FilledSet(w, m, cart)
  {
    filled := {};
    for i := 0 to |cart|
      invariant filled == FilledSet(w, m, cart[..i])
    {
      assert cart[..i + 1] == cart[..i] + [cart[i]];
      FilledSetSnoc(w, m, cart[..i], cart[i]);
      var category := FilledBy(w, m, cart[i]);
      if category != "" {
        filled := filled + {category};
      }
    }
    assert cart[..|cart|] == cart;
  }

  lemma FilledSetSnoc(w: World, m: Option<Entry>, cart: seq<string>, c: string)
    ensures FilledSet(w, m, cart + [c]) ==
            FilledSet(w, m, cart) + if FilledBy(w, m, c) != "" then {FilledBy(w, m, c)} else {}
  {
    assert forall x :: x in cart + [c] <==> x in cart || x == c;
  }

  method MissingCategories(w: World, cart: seq<string>, m: Option<Entry>) returns (missing: seq<string>)
    ensures missing == Missing(w, w.required, m, Elems(cart))
  {
    var filled := FilledCategories(w, m, cart);
    var served: set<string> := {};
    if m.Some? {
      served := FilledCategories(w, None, m.value.recommended);
    }
    missing := [];
    for i := 0 to |w.required|
      invariant missing == Missing(w, w.required[..i], m, Elems(cart))
    {
      assert w.required[..i + 1][..i] == w.required[..i];
      var c := w.required[i];
      assert c in filled <==> Fills(w, m, Elems(cart), c);
      assert m.Some? ==> (c in served <==> Fills(w, None, Elems(m.value.recommended), c));
      if c !in filled && (m.None? || c in served) {
        missing := missing + [c];
      }
    }
    assert w.required[..|w.required|] == w.required;
  }

  // ---------- the verdict ----------

  datatype Kind = WillWork | WontWork | Untested

  /** The verdict, the fully matched stack, and the incompatibilities found. */
  datatype Explanation = Explanation(kind: Kind, matched: Option<Entry>, conflicts: seq<Report>, clashes: seq<Pair>)

  function FullMatch(m: Option<Entry>, cart: set<string>): Option<Entry> {
    if m.Some? && IsFullMatch(m.value, cart) then m else None
  }

  function KindOf(w: World, cart: set<string>): Kind {
    var entries := Catalog(w);
    var m := ExactMatch(entries, cart);
    if cart == {} then Untested
    else if HasConflict(entries, cart) || HasClash(w, entries, cart) then WontWork
    else if m.Some? && Missing(w, w.required, m, cart) == [] && IsFullMatch(m.value, cart) then WillWork
    else Untested
  }

  ghost predicate IsExplanation(w: World, ids: seq<string>, x: Explanation) {
    var cart := Normalized(ids);
    && x.kind == KindOf(w, Elems(cart))
    && x.matched == FullMatch(ExactMatch(Catalog(w), Elems(cart)), Elems(cart))
    && x.conflicts == ReportAll(Catalog(w), Elems(cart))
    && x.clashes == ClashList(w, Catalog(w), cart)
  }

  method ExplainCart(w: World, ids: seq<string>) returns (x: Explanation)
    ensures IsExplanation(w, ids, x)
  {
    var cart := NormalizeCart(ids);
    var names := Elems(cart);
    var entries := AllStacks(w);
    var graph := CompatibilityGraph(w.index);
    if cart == [] {
      NothingTriggers(w, entries);
      return Explanation(Untested, None, [], []);
    }
    assert cart[0] in names;
    var clashes, _ := PairReasons(w, entries, graph, cart);
    var conflicts := ScanIncompatibilities(names, entries);
    ClashListNonEmpty(w, entries, cart);
    ReportsNonEmpty(entries, names);
    var m := FindExactMatch(names, entries);
    var missing := MissingCategories(w, cart, m);
    var full := m.Some? && IsFullMatch(m.value, names);
    if conflicts != [] || clashes != [] {
      return Explanation(WontWork, if full then m else None, conflicts, clashes);
    }
    if m.Some? && missing == [] && full {
      return Explanation(WillWork, m, conflicts, clashes);
    }
    x := Explanation(Untested, if full then m else None, conflicts, clashes);
  }

  lemma NothingTriggers(w: World, entries: seq<Entry>)
    ensures ReportAll(entries, Elems([])) == [] && ClashList(w, entries, []) == []
  {
    ReportsNonEmpty(entries, Elems([]));
    ClashListNonEmpty(w, entries, []);
    forall combo ensures !IsTriggered(combo, Elems([])) {
      if AdvisedIds(combo).Some? && |AdvisedIds(combo).value| >= 2 {
        assert AdvisedIds(combo).value[0] !in Elems<string>([]);
      }
    }
  }

  /** Adding components never takes a wont_work away. */
  lemma WontWorkIsUpwardClosed(w: World, cart: set<string>, larger: set<string>)
    requires KindOf(w, cart) == WontWork && cart <= larger
    ensures KindOf(w, larger) == WontWork
  {
    var entries := Catalog(w);
    if HasConflict(entries, cart) {
      var e, combo :| e in entries && combo in e.incompatible && IsTriggered(combo, cart);
      assert IsTriggered(combo, larger);
    } else {
      var a, b :| a in cart && b in cart && Classify(w, entries, a, b) == Clash;
      assert a in larger && b in larger;
    }
  }

  /** A cart inside some certified vocabulary is refused only for a combination some lock lists as incompatible. */
  lemma CoveredRefusedExactly(w: World, cart: set<string>)
    requires ExactMatch(Catalog(w), cart).Some?
    ensures KindOf(w, cart) == WontWork <==> HasConflict(Catalog(w), cart)
  {
    var test := e => Covers(e, cart);
    var m := ExactMatch(Catalog(w), cart).value;
    BestOfIsListed(Where(Catalog(w), test), Trust);
    WhereExactly(Catalog(w), test, m);
    forall a, b | a in cart && b in cart ensures Classify(w, Catalog(w), a, b) != Clash {
      assert Coexist(Catalog(w), a, b);
    }
  }

  lemma WontWorkStays(w: World, ids: seq<string>, more: seq<string>)
    requires KindOf(w, Elems(Normalized(ids))) == WontWork && Mentioned(ids) <= Mentioned(more)
    ensures KindOf(w, Elems(Normalized(more))) == WontWork
  {
    NormalizedExactly(ids);
    NormalizedExactly(more);
    WontWorkIsUpwardClosed(w, Mentioned(ids), Mentioned(more));
  }

  /** Verdict and matched stack depend only on which names a request mentions, not on their order or repetition. */
  lemma ExplanationDependsOnSet(w: World, ids: seq<string>, others: seq<string>)
    requires Mentioned(ids) == Mentioned(others)
    ensures var cart, other := Elems(Normalized(ids)), Elems(Normalized(others));
            && KindOf(w, cart) == KindOf(w, other)
            && FullMatch(ExactMatch(Catalog(w), cart), cart) == FullMatch(ExactMatch(Catalog(w), other), other)
  {
    NormalizedExactly(ids);
    NormalizedExactly(others);
  }

  /** Nor on the order the stacks are listed in. */
  lemma ExactMatchOrderFree(a: seq<Entry>, b: seq<Entry>, cart: set<string>)
    requires DistinctIds(a) && DistinctIds(b) && forall e :: e in a <==> e in b
    ensures ExactMatch(a, cart) == ExactMatch(b, cart)
  {
    BestWhereOrderFree(a, b, e => Covers(e, cart), Trust);
  }

  // ---------- the two engines ----------

  lemma FirstWordWhole(s: string)
    requires ' ' !in s
    ensures FirstWord(s) == s
  {
    var e := MemberNames.NextOf(s, 0, {' '});
    assert s[..|s|] == s;
  }

  /** A bare id is read the same way by both engines. */
  lemma SplitsAgree(item: string)
    requires var (id, tag) := CompatCheck.SplitItem(item); ' ' !in id && tag.None?
    ensures SplitItem(item) == CompatCheck.SplitItem(item)
  {
    var s := EnvText.Strip(item);
    FirstWordWhole(s);
  }

  lemma {:induction false} IdsAgree(combo: seq<string>)
    requires CompatCheck.BareIds(combo).Some? && "" !in CompatCheck.BareIds(combo).value
    ensures AdvisedIds(combo) == CompatCheck.BareIds(combo)
  {
    if combo != [] {
      var init, last := combo[..|combo| - 1], combo[|combo| - 1];
      var before := CompatCheck.BareIds(init).value;
      assert CompatCheck.BareIds(combo).value == before + [CompatCheck.SplitItem(last).0];
      assert forall id :: id in before ==> id in CompatCheck.BareIds(combo).value;
      assert CompatCheck.SplitItem(last).0 in CompatCheck.BareIds(combo).value;
      IdsAgree(init);
      SplitsAgree(last);
    }
  }

  /** What the check reports for two or more ids, the explainer triggers on too. */
  lemma HitTriggers(combo: seq<string>, cart: set<string>)
    requires CompatCheck.IsHit(combo, cart) && |CompatCheck.BareIds(combo).value| >= 2 && "" !in cart
    ensures IsTriggered(combo, cart)
  {
    var ids := CompatCheck.BareIds(combo).value;
    forall id | id in ids ensures id != "" {
      var k :| 0 <= k < |ids| && ids[k] == id;
    }
    IdsAgree(combo);
  }

  /** A check hit of two or more ids forces the explainer to wont_work. */
  lemma HitForcesWontWork(w: World, ids: seq<string>, hit: seq<string>)
    requires hit in CompatCheck.VerdictOf(w, ids).hits && |hit| >= 2
    ensures KindOf(w, Elems(Normalized(ids))) == WontWork
  {
    var cart := Elems(Normalized(ids));
    var m := CompatCheck.VerdictOf(w, ids).matched.value;
    NormalizedExactly(ids);
    CompatCheck.HitsExactly(m.incompatible, cart, hit);
    var combo :| combo in m.incompatible && CompatCheck.Yields(combo, cart, hit);
    HitTriggers(combo, cart);
    MatchIsListed(Catalog(w), cart);
    assert hit[0] in cart;
  }

  lemma MatchIsListed(entries: seq<Entry>, cart: set<string>)
    requires CompatCheck.BestMatch(entries, cart).Some?
    ensures CompatCheck.BestMatch(entries, cart).value in entries
    ensures CompatCheck.Marries(CompatCheck.BestMatch(entries, cart).value, cart)
  {
    var test := e => CompatCheck.Marries(e, cart);
    BestOfIsListed(Where(entries, test), CompatCheck.Priority);
    WhereExactly(entries, test, CompatCheck.BestMatch(entries, cart).value);
  }

  lemma {:induction false} BestOfIsListed(candidates: seq<Entry>, priority: string -> nat)
    ensures BestOf(candidates, priority).Some? ==> BestOf(candidates, priority).value in candidates
    ensures BestOf(candidates, priority).None? <==> candidates == []
  {
    if candidates != [] {
      BestOfIsListed(candidates[..|candidates| - 1], priority);
    }
  }

  /** A single-id combination is reported by the check but never scanned by the explainer. */
  lemma LoneIdIsNotTriggered(combo: seq<string>, cart: set<string>)
    requires CompatCheck.IsHit(combo, cart) && |CompatCheck.BareIds(combo).value| == 1 && "" !in cart
    ensures !IsTriggered(combo, cart)
  {
    var ids := CompatCheck.BareIds(combo).value;
    assert ids[0] in cart;
    IdsAgree(combo);
  }

  /** The check's priorities refine the explainer's trust. */
  lemma PriorityRefinesTrust(a: string, b: string)
    ensures CompatCheck.Priority(a) >= CompatCheck.Priority(b) ==> Trust(a) >= Trust(b)
    ensures Trust(a) > Trust(b) ==> CompatCheck.Priority(a) > CompatCheck.Priority(b)
  {
  }

  /** Whatever the check matches, the explainer matches as well, and ranks its own choice at least as high: as
      trusted, and no larger among equally trusted stacks. It is more trusted only when the check's floor rules it
      out. */
  lemma CheckMatchIsExactMatch(w: World, ids: seq<string>)
    requires Proper(w) && CompatCheck.VerdictOf(w, ids).matched.Some?
    ensures var cart := Elems(Normalized(ids));
            var e, m := CompatCheck.VerdictOf(w, ids).matched.value, ExactMatch(Catalog(w), cart);
            && m.Some?
            && Trust(m.value.status) >= Trust(e.status)
            && (Trust(m.value.status) == Trust(e.status) ==> |m.value.vocab| <= |e.vocab|)
            && (m.value == e || Better(m.value, e, Trust))
            && (CompatCheck.Marries(m.value, cart) ==> Trust(m.value.status) == Trust(e.status))
  {
    var cart := Elems(Normalized(ids));
    var e := CompatCheck.VerdictOf(w, ids).matched.value;
    MatchIsListed(Catalog(w), cart);
    CatalogIsDistinct(w);
    ExactMatchExactly(Catalog(w), cart);
    var m := ExactMatch(Catalog(w), cart).value;
    if CompatCheck.Marries(m, cart) {
      CompatCheck.MatchAtLeast(Catalog(w), cart, m);
      PriorityRefinesTrust(e.status, m.status);
    }
  }

  // ---------- alternative carts ----------

  datatype Alternative = Alternative(remove: seq<string>, add: seq<string>, stackId: string)

  function Record(out: seq<Alternative>, alternative: Alternative): seq<Alternative> {
    if alternative in out then out else out + [alternative]
  }

  /** The removals after which the rest matches a stack. */
  function Removals(entries: seq<Entry>, cart: set<string>, xs: seq<string>): seq<Alternative> {
    if xs == [] then []
    else
      var before, x := Removals(entries, cart, xs[..|xs| - 1]), xs[|xs| - 1];
      var m := ExactMatch(entries, cart - {x});
      if m.Some? then Record(before, Alternative([x], [], m.value.id)) else before
  }

  function Outside(xs: seq<string>, vocab: set<string>): seq<string> {
    if xs == [] then []
    else Outside(xs[..|xs| - 1], vocab) + if xs[|xs| - 1] !in vocab then [xs[|xs| - 1]] else []
  }

  /** The substitutions of one component outside a stack by what its recommended set still needs. */
  function Substitutions(entries: seq<Entry>, cart: seq<string>): seq<Alternative> {
    if entries == [] then []
    else
      var before, e := Substitutions(entries[..|entries| - 1], cart), entries[|entries| - 1];
      var extras, missing := Outside(cart, e.vocab), Outside(e.recommended, Elems(cart));
      if |extras| == 1 && |missing| >= 1 then Record(before, Alternative(extras, missing, e.id)) else before
  }

  method Without(xs: seq<string>, vocab: set<string>) returns (outside: seq<string>)
    ensures outside == Outside(xs, vocab)
  {
    outside := [];
    for i := 0 to |xs|
      invariant outside == Outside(xs[..i], vocab)
    {
      assert xs[..i + 1][..i] == xs[..i];
      if xs[i] !in vocab {
        outside := outside + [xs[i]];
      }
    }
    assert xs[..|xs|] == xs;
  }

  /** Before sorting and the cut to three. */
  method AlternativeCarts(cart: seq<string>, entries: seq<Entry>) returns (out: seq<Alternative>)
    ensures var removals := Removals(entries, Elems(cart), cart);
            out == if removals != [] then removals else Substitutions(entries, cart)
  {
    var names := Elems(cart);
    out := [];
    for i := 0 to |cart|
      invariant out == Removals(entries, names, cart[..i])
    {
      assert cart[..i + 1][..i] == cart[..i];
      var rest := names - {cart[i]};
      var m := None;
      if rest != {} {
        m := FindExactMatch(rest, entries);
      }
      if m.Some? {
        out := Record(out, Alternative([cart[i]], [], m.value.id));
      }
    }
    assert cart[..|cart|] == cart;
    if out == [] {
      for i := 0 to |entries|
        invariant out == Substitutions(entries[..i], cart)
      {
        assert entries[..i + 1][..i] == entries[..i];
        var e := entries[i];
        if e.recommended != [] {
          var extras := Without(cart, e.vocab);
          var missing := Without(e.recommended, names);
          if |extras| == 1 && |missing| >= 1 {
            out := Record(out, Alternative(extras, missing, e.id));
          }
        }
      }
      assert entries[..|entries|] == entries;
    }
  }

  lemma {:induction false} OutsideExactly(xs: seq<string>, vocab: set<string>, x: string)
    ensures x in Outside(xs, vocab) <==> x in xs && x !in vocab
  {
    if xs != [] {
      OutsideExactly(xs[..|xs| - 1], vocab, x);
      assert xs == xs[..|xs| - 1] + [xs[|xs| - 1]];
    }
  }

  /** A removal is listed exactly when something remains and some vocabulary covers it; the stack is the best such. */
  lemma {:induction false} RemovalsExactly(entries: seq<Entry>, cart: set<string>, xs: seq<string>, a: Alternative)
    ensures a in Removals(entries, cart, xs) <==>
            exists x :: x in xs && IsRemoval(entries, cart, x, a)
  {
    if xs != [] {
      var init, last := xs[..|xs| - 1], xs[|xs| - 1];
      RemovalsExactly(entries, cart, init, a);
      assert forall x :: x in xs <==> x in init || x == last by {
        assert xs == init + [last];
      }
      assert a in Removals(entries, cart, xs) <==>
             a in Removals(entries, cart, init) || IsRemoval(entries, cart, last, a);
    }
  }

  predicate IsRemoval(entries: seq<Entry>, cart: set<string>, x: string, a: Alternative) {
    var m := ExactMatch(entries, cart - {x});
    m.Some? && a == Alternative([x], [], m.value.id)
  }

  lemma CoveredIsMatched(entries: seq<Entry>, cart: set<string>, e: Entry)
    requires e in entries && cart != {} && cart <= e.vocab
    ensures ExactMatch(entries, cart).Some?
  {
    var test := e => Covers(e, cart);
    WhereExactly(entries, test, e);
    BestOfIsListed(Where(entries, test), Trust);
  }

  /** With two or more components, one outside a stack means that dropping it already helps. */
  lemma OneExtraIsRemovable(entries: seq<Entry>, cart: seq<string>, e: Entry)
    requires Distinct(cart) && |cart| >= 2 && e in entries && |Outside(cart, e.vocab)| == 1
    ensures Removals(entries, Elems(cart), cart) != []
  {
    var x := Outside(cart, e.vocab)[0];
    OutsideExactly(cart, e.vocab, x);
    forall c | c in Elems(cart) - {x} ensures c in e.vocab {
      OutsideExactly(cart, e.vocab, c);
    }
    DistinctSize(cart);
    assert |Elems(cart) - {x}| == |Elems(cart)| - 1;
    CoveredIsMatched(entries, Elems(cart) - {x}, e);
    var a := Alternative([x], [], ExactMatch(entries, Elems(cart) - {x}).value.id);
    assert IsRemoval(entries, Elems(cart), x, a);
    RemovalsExactly(entries, Elems(cart), cart, a);
  }

  /** Step 2, the substitutions, can only ever contribute for a cart of one component. */
  lemma {:induction false} SubstitutionsNeedOneComponent(entries: seq<Entry>, all: seq<Entry>, cart: seq<string>)
    requires Distinct(cart) && |cart| != 1 && (forall e :: e in entries ==> e in all)
    requires Removals(all, Elems(cart), cart) == []
    ensures Substitutions(entries, cart) == []
  {
    if entries != [] {
      var init, e := entries[..|entries| - 1], entries[|entries| - 1];
      SubstitutionsNeedOneComponent(init, all, cart);
      if |Outside(cart, e.vocab)| == 1 {
        OutsideExactly(cart, e.vocab, Outside(cart, e.vocab)[0]);
        OneExtraIsRemovable(all, cart, e);
      }
    }
  }

  /** The two engines agree on which carts one removal helps: the check has a swap exactly when the explainer's
      first step has an alternative. */
  lemma SwapsAgree(w: World, cart: seq<string>, best: Option<CompatCheck.Swap>)
    requires Proper(w) && Distinct(cart) && |cart| >= 2 && CompatCheck.IsSwap(w, Elems(cart), cart, best)
    ensures best.Some? <==> Removals(Catalog(w), Elems(cart), cart) != []
  {
    var entries, names := Catalog(w), Elems(cart);
    CompatCheck.SwapComplete(w, cart, best);
    DistinctSize(cart);
    if best.Some? {
      var x, e :| x in cart && e in entries && names - {x} <= e.vocab;
      assert |names - {x}| == |names| - 1;
      CoveredIsMatched(entries, names - {x}, e);
      var a := Alternative([x], [], ExactMatch(entries, names - {x}).value.id);
      assert IsRemoval(entries, names, x, a);
      RemovalsExactly(entries, names, cart, a);
    } else if Removals(entries, names, cart) != [] {
      var a := Removals(entries, names, cart)[0];
      RemovalsExactly(entries, names, cart, a);
      var x :| x in cart && IsRemoval(entries, names, x, a);
      CatalogIsDistinct(w);
      assert names - {x} != {};
      ExactMatchExactly(entries, names - {x});
    }
  }
}
