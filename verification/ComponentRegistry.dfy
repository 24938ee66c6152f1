/** The dependency resolver of backend/component_registry.py, generic over its tables. */
module ComponentRegistry {
  import opened Collections

  datatype Component<Id, Role> = Component(dependsOn: seq<Id>, configRoles: seq<Role>)

  /** The constant data the resolver reads.  `onPrem` are the ids whose presence
      suppresses the automatic addition of the ids in `objectStore`. */
  datatype Tables<!Id, !Role> = Tables(
    components: map<Id, Component<Id, Role>>,
    autoDeps: map<Role, seq<Id>>,
    order: seq<Id>,
    onPrem: set<Id>,
    objectStore: set<Id>)

  // ---------- the tables as a graph ----------

  function RoleDeps<Id, Role>(t: Tables<Id, Role>, role: Role): seq<Id> {
    if role in t.autoDeps then t.autoDeps[role] else []
  }

  /** The dependencies contributed by the first `n` roles of a component. */
  function RolesDeps<Id, Role>(t: Tables<Id, Role>, roles: seq<Role>): seq<Id> {
    if roles == [] then []
    else RolesDeps(t, roles[..|roles| - 1]) + RoleDeps(t, roles[|roles| - 1])
  }

  /** Everything the resolver looks at for one id: explicit dependencies, then role dependencies. */
  function DepSeq<Id, Role>(t: Tables<Id, Role>, c: Id): seq<Id> {
    if c !in t.components then []
    else t.components[c].dependsOn + RolesDeps(t, t.components[c].configRoles)
  }

  lemma {:induction false} RolesDepsMember<Id, Role>(t: Tables<Id, Role>, roles: seq<Role>, d: Id)
    ensures d in RolesDeps(t, roles) <==> exists role :: role in roles && d in RoleDeps(t, role)
  {
    if roles != [] {
      var init, last := roles[..|roles| - 1], roles[|roles| - 1];
      RolesDepsMember(t, init, d);
      assert roles == init + [last];
    }
  }

  function AllDeps<Id, Role>(t: Tables<Id, Role>): set<Id> {
    set c, d | c in t.components.Keys && d in DepSeq(t, c) :: d
  }

  predicate HasOnPrem<Id, Role>(t: Tables<Id, Role>, present: set<Id>) {
    t.onPrem * present != {}
  }

  predicate Suppressed<Id, Role>(t: Tables<Id, Role>, onPrem: bool, d: Id) {
    onPrem && d in t.objectStore
  }

  // ---------- one round, as lists ----------

  function AddOne<Id, Role>(t: Tables<Id, Role>, onPrem: bool, result: seq<Id>, adds: seq<Id>, d: Id): seq<Id> {
    if Suppressed(t, onPrem, d) || d in result || d in adds then adds else adds + [d]
  }

  function AddAll<Id, Role>(t: Tables<Id, Role>, onPrem: bool, result: seq<Id>, adds: seq<Id>, ds: seq<Id>): seq<Id> {
    if ds == [] then adds
    else AddOne(t, onPrem, result, AddAll(t, onPrem, result, adds, ds[..|ds| - 1]), ds[|ds| - 1])
  }

  function AddFrom<Id, Role>(t: Tables<Id, Role>, onPrem: bool, result: seq<Id>, todo: seq<Id>): seq<Id> {
    if todo == [] then []
    else AddAll(t, onPrem, result, AddFrom(t, onPrem, result, todo[..|todo| - 1]), DepSeq(t, todo[|todo| - 1]))
  }

  function Round<Id, Role>(t: Tables<Id, Role>, result: seq<Id>): seq<Id> {
    AddFrom(t, HasOnPrem(t, Elems(result)), result, result)
  }

  // ---------- one round, as a set ----------

  function Wanted<Id, Role>(t: Tables<Id, Role>, onPrem: bool, present: set<Id>): set<Id> {
    set c, d | c in present && d in DepSeq(t, c) && !Suppressed(t, onPrem, d) :: d
  }

  function NewIn<Id, Role>(t: Tables<Id, Role>, onPrem: bool, result: seq<Id>, ds: seq<Id>): set<Id> {
    set d | d in ds && !Suppressed(t, onPrem, d) && d !in result
  }

  lemma {:induction false} AddAllElems<Id, Role>(t: Tables<Id, Role>, onPrem: bool, result: seq<Id>, adds: seq<Id>,
                                            ds: seq<Id>)
    ensures Elems(AddAll(t, onPrem, result, adds, ds))
         == Elems(adds) + NewIn(t, onPrem, result, ds)
  {
    if ds == [] {
      assert NewIn(t, onPrem, result, ds) == {};
    } else {
      var init, last := ds[..|ds| - 1], ds[|ds| - 1];
      var before := AddAll(t, onPrem, result, adds, init);
      AddAllElems(t, onPrem, result, adds, init);
      assert ds == init + [last];
      assert Elems(before + [last]) == Elems(before) + {last};
      assert last in before <==> last in Elems(before);
    }
  }

  lemma {:induction false} AddFromElems<Id, Role>(t: Tables<Id, Role>, onPrem: bool, result: seq<Id>, todo: seq<Id>)
    ensures Elems(AddFrom(t, onPrem, result, todo)) == Wanted(t, onPrem, Elems(todo)) - Elems(result)
  {
    if todo != [] {
      var last := todo[|todo| - 1];
      var init := todo[..|todo| - 1];
      AddFromElems(t, onPrem, result, init);
      AddAllElems(t, onPrem, result, AddFrom(t, onPrem, result, init), DepSeq(t, last));
      assert todo == init + [last];
      assert Elems(todo) == Elems(init) + {last};
    }
  }

  lemma RoundElems<Id, Role>(t: Tables<Id, Role>, result: seq<Id>)
    ensures Elems(Round(t, result)) == Wanted(t, HasOnPrem(t, Elems(result)), Elems(result)) - Elems(result)
    ensures Elems(Round(t, result)) <= AllDeps(t)
    ensures Round(t, result) != [] ==> AllDeps(t) - Elems(result + Round(t, result)) < AllDeps(t) - Elems(result)
  {
    AddFromElems(t, HasOnPrem(t, Elems(result)), result, result);
    var adds := Round(t, result);
    forall d | d in adds ensures d in AllDeps(t) && d !in result {
      assert d in Elems(adds);
    }
    if adds != [] {
      assert adds[0] in AllDeps(t) - Elems(result);
      assert adds[0] in result + adds;
    }
  }

  // ---------- the fixpoint ----------

  /** The list after the last round.  Each round that adds something takes ids out of `AllDeps - result`. */
  function Saturate<Id, Role>(t: Tables<Id, Role>, result: seq<Id>): (r: seq<Id>)
    ensures Elems(result) <= Elems(r) && Round(t, r) == []
    decreases AllDeps(t) - Elems(result)
  {
    RoundElems(t, result);
    var adds := Round(t, result);
    if adds == [] then result
    else
      assert Elems(result) <= Elems(result + adds);
      Saturate(t, result + adds)
  }

  function Grow<Id, Role>(t: Tables<Id, Role>, present: set<Id>): set<Id> {
    present + Wanted(t, HasOnPrem(t, present), present)
  }

  /** The same fixpoint on sets: it never looks at an order or at a multiplicity. */
  function SaturateSet<Id, Role>(t: Tables<Id, Role>, present: set<Id>): set<Id>
    decreases AllDeps(t) - present
  {
    if Grow(t, present) == present then present
    else
      assert Grow(t, present) - present <= AllDeps(t);
      SaturateSet(t, Grow(t, present))
  }

  lemma ElemsConcat<T>(a: seq<T>, b: seq<T>)
    ensures Elems(a + b) == Elems(a) + Elems(b)
  {
  }

  lemma ElemsEmpty<T>(s: seq<T>)
    ensures s == [] <==> Elems(s) == {}
  {
    if s != [] {
      assert s[0] in Elems(s);
    }
  }

  lemma RoundGrows<Id, Role>(t: Tables<Id, Role>, result: seq<Id>)
    ensures Elems(result + Round(t, result)) == Grow(t, Elems(result))
    ensures Round(t, result) == [] <==> Grow(t, Elems(result)) == Elems(result)
  {
    RoundElems(t, result);
    ElemsConcat(result, Round(t, result));
    ElemsEmpty(Round(t, result));
  }

  lemma GrowInDeps<Id, Role>(t: Tables<Id, Role>, present: set<Id>)
    ensures Grow(t, present) - present <= AllDeps(t)
  {
  }

  lemma {:induction false} SaturateElems<Id, Role>(t: Tables<Id, Role>, result: seq<Id>)
    ensures Elems(Saturate(t, result)) == SaturateSet(t, Elems(result))
    decreases AllDeps(t) - Elems(result)
  {
    RoundElems(t, result);
    RoundGrows(t, result);
    if Round(t, result) != [] {
      SaturateElems(t, result + Round(t, result));
    }
  }

  // ---------- closures ----------

  /** `s` contains every dependency of its members; with `suppress`, object-store ids may be missing. */
  ghost predicate Closed<Id, Role>(t: Tables<Id, Role>, s: set<Id>, suppress: bool) {
    forall c, d :: c in s && d in DepSeq(t, c) ==> d in s || Suppressed(t, suppress, d)
  }

  ghost predicate IsLeastClosed<Id(!new), Role>(t: Tables<Id, Role>, base: set<Id>, suppress: bool, s: set<Id>) {
    && base <= s
    && Closed(t, s, suppress)
    && forall other: set<Id> :: base <= other && Closed(t, other, suppress) ==> s <= other
  }

  /** The least superset of `base` closed under dependencies. */
  function Closure<Id, Role>(t: Tables<Id, Role>, base: set<Id>, suppress: bool): set<Id>
    decreases AllDeps(t) - base
  {
    var next := base + Wanted(t, suppress, base);
    if next == base then base
    else
      assert next - base <= AllDeps(t);
      Closure(t, next, suppress)
  }

  lemma WantedClosed<Id, Role>(t: Tables<Id, Role>, flag: bool, present: set<Id>)
    requires Wanted(t, flag, present) <= present
    ensures Closed(t, present, flag)
  {
    forall c, d | c in present && d in DepSeq(t, c) ensures d in present || Suppressed(t, flag, d) {
      if !Suppressed(t, flag, d) {
        assert d in Wanted(t, flag, present);
      }
    }
  }

  lemma WantedWithin<Id, Role>(t: Tables<Id, Role>, flag: bool, present: set<Id>, other: set<Id>)
    requires present <= other && Closed(t, other, false)
    ensures Wanted(t, flag, present) <= other
  {
  }

  lemma {:induction false} ClosureIsLeast<Id(!new), Role>(t: Tables<Id, Role>, base: set<Id>, suppress: bool)
    ensures IsLeastClosed(t, base, suppress, Closure(t, base, suppress))
    decreases AllDeps(t) - base
  {
    var next := base + Wanted(t, suppress, base);
    if next == base {
      WantedClosed(t, suppress, base);
    } else {
      ClosureIsLeast(t, next, suppress);
      forall other: set<Id> | base <= other && Closed(t, other, suppress) ensures next <= other {
      }
    }
  }

  lemma {:induction false} SaturateSetBounds<Id, Role>(t: Tables<Id, Role>, present: set<Id>, other: set<Id>)
    requires present <= other && Closed(t, other, false)
    ensures present <= SaturateSet(t, present) <= other
    ensures Closed(t, SaturateSet(t, present), HasOnPrem(t, SaturateSet(t, present)))
    decreases AllDeps(t) - present
  {
    if Grow(t, present) == present {
      WantedClosed(t, HasOnPrem(t, present), present);
    } else {
      GrowInDeps(t, present);
      WantedWithin(t, HasOnPrem(t, present), present, other);
      SaturateSetBounds(t, Grow(t, present), other);
    }
  }

  /** While the on-prem flag keeps one value, the fixpoint is the closure for that value. */
  lemma {:induction false} SaturateSetFixedFlag<Id, Role>(t: Tables<Id, Role>, present: set<Id>, flag: bool)
    requires if flag then HasOnPrem(t, present) else !HasOnPrem(t, SaturateSet(t, present))
    ensures SaturateSet(t, present) == Closure(t, present, flag)
    decreases AllDeps(t) - present
  {
    if Grow(t, present) != present {
      assert Grow(t, present) - present <= AllDeps(t);
      SaturateSetFixedFlag(t, Grow(t, present), flag);
    }
    SaturateSetGrows(t, present);
  }

  lemma {:induction false} SaturateSetGrows<Id, Role>(t: Tables<Id, Role>, present: set<Id>)
    ensures present <= SaturateSet(t, present)
    decreases AllDeps(t) - present
  {
    if Grow(t, present) != present {
      assert Grow(t, present) - present <= AllDeps(t);
      SaturateSetGrows(t, Grow(t, present));
    }
  }

  // ---------- the final ordering ----------

  /** The ids of `order` that are in `present`, in that order. */
  function Ordered<Id(==)>(order: seq<Id>, present: set<Id>): seq<Id> {
    if order == [] then []
    else
      var last := order[|order| - 1];
      Ordered(order[..|order| - 1], present) + if last in present then [last] else []
  }

  function Without<Id(==)>(s: seq<Id>, gone: seq<Id>): seq<Id> {
    if s == [] then []
    else
      var last := s[|s| - 1];
      Without(s[..|s| - 1], gone) + if last in gone then [] else [last]
  }

  function Reorder<Id, Role>(t: Tables<Id, Role>, result: seq<Id>): seq<Id> {
    var ordered := Ordered(t.order, Elems(result));
    ordered + Without(result, ordered)
  }

  function Resolve<Id, Role>(t: Tables<Id, Role>, selected: seq<Id>): seq<Id> {
    Reorder(t, Saturate(t, selected))
  }

  lemma {:induction false} OrderedElems<Id>(order: seq<Id>, present: set<Id>)
    ensures Elems(Ordered(order, present)) == Elems(order) * present
  {
    if order != [] {
      var init, last := order[..|order| - 1], order[|order| - 1];
      OrderedElems(init, present);
      assert order == init + [last];
      ElemsConcat(init, [last]);
      ElemsConcat(Ordered(init, present), if last in present then [last] else []);
    }
  }

  lemma {:induction false} WithoutElems<Id>(s: seq<Id>, gone: seq<Id>)
    ensures Elems(Without(s, gone)) == Elems(s) - Elems(gone)
  {
    if s != [] {
      var init, last := s[..|s| - 1], s[|s| - 1];
      WithoutElems(init, gone);
      assert s == init + [last];
      ElemsConcat(init, [last]);
      ElemsConcat(Without(init, gone), if last in gone then [] else [last]);
    }
  }

  /** Reordering neither loses nor invents an id. */
  lemma ReorderElems<Id, Role>(t: Tables<Id, Role>, result: seq<Id>)
    ensures Elems(Reorder(t, result)) == Elems(result)
  {
    var ordered := Ordered(t.order, Elems(result));
    OrderedElems(t.order, Elems(result));
    WithoutElems(result, ordered);
    ElemsConcat(ordered, Without(result, ordered));
  }

  // ---------- the resolver ----------

  /** The body shared by the explicit-dependency loop and the role-dependency loop. */
  method Extend<Id(==), Role>(t: Tables<Id, Role>, onPrem: bool, result: seq<Id>, before: seq<Id>, deps: seq<Id>)
    returns (additions: seq<Id>)
    ensures additions == AddAll(t, onPrem, result, before, deps)
  {
    additions := before;
    for j := 0 to |deps|
      invariant additions == AddAll(t, onPrem, result, before, deps[..j])
    {
      assert deps[..j + 1][..j] == deps[..j];
      var dep := deps[j];
      if onPrem && dep in t.objectStore {
        continue;
      }
      if dep !in result && dep !in additions {
        additions := additions + [dep];
      }
    }
    assert deps[..|deps|] == deps;
  }

  lemma {:induction false} AddAllConcat<Id, Role>(t: Tables<Id, Role>, onPrem: bool, result: seq<Id>, adds: seq<Id>,
                                             a: seq<Id>, b: seq<Id>)
    ensures AddAll(t, onPrem, result, adds, a + b) == AddAll(t, onPrem, result, AddAll(t, onPrem, result, adds, a), b)
  {
    if b == [] {
      assert a + b == a;
    } else {
      AddAllConcat(t, onPrem, result, adds, a, b[..|b| - 1]);
      assert (a + b)[..|a + b| - 1] == a + b[..|b| - 1];
    }
  }

  method ExtendFor<Id(==), Role(==)>(t: Tables<Id, Role>, onPrem: bool, result: seq<Id>, before: seq<Id>,
                                     comp: Component<Id, Role>)
    returns (additions: seq<Id>)
    ensures additions == AddAll(t, onPrem, result, before, comp.dependsOn + RolesDeps(t, comp.configRoles))
  {
    additions := Extend(t, onPrem, result, before, comp.dependsOn);
    ghost var explicit := additions;
    var roles := comp.configRoles;
    for j := 0 to |roles|
      invariant additions == AddAll(t, onPrem, result, explicit, RolesDeps(t, roles[..j]))
    {
      assert roles[..j + 1][..j] == roles[..j];
      AddAllConcat(t, onPrem, result, explicit, RolesDeps(t, roles[..j]), RoleDeps(t, roles[j]));
      additions := Extend(t, onPrem, result, additions, RoleDeps(t, roles[j]));
    }
    assert roles[..|roles|] == roles;
    AddAllConcat(t, onPrem, result, before, comp.dependsOn, RolesDeps(t, roles));
  }

  method CollectAdditions<Id(==), Role(==)>(t: Tables<Id, Role>, result: seq<Id>) returns (additions: seq<Id>)
    ensures additions == Round(t, result)
  {
    var onPrem := HasOnPrem(t, Elems(result));
    additions := [];
    for i := 0 to |result|
      invariant additions == AddFrom(t, onPrem, result, result[..i])
    {
      assert result[..i + 1][..i] == result[..i];
      if result[i] in t.components {
        additions := ExtendFor(t, onPrem, result, additions, t.components[result[i]]);
      }
    }
    assert result[..|result|] == result;
  }

  method ResolveDependencies<Id(==), Role(==)>(t: Tables<Id, Role>, selected: seq<Id>) returns (r: seq<Id>)
    ensures r == Resolve(t, selected)
  {
    var result := selected;
    var changed := true;
    while changed
      invariant Saturate(t, result) == Saturate(t, selected)
      invariant !changed ==> Round(t, result) == []
      decreases AllDeps(t) - Elems(result), changed
    {
      changed := false;
      RoundElems(t, result);
      var additions := CollectAdditions(t, result);
      if additions != [] {
        result := result + additions;
        changed := true;
      }
    }
    r := Reorder(t, result);
  }

  // ---------- what the result is ----------

  lemma ResolveElems<Id, Role>(t: Tables<Id, Role>, selected: seq<Id>)
    ensures Elems(Resolve(t, selected)) == SaturateSet(t, Elems(selected))
  {
    SaturateElems(t, selected);
    ReorderElems(t, Saturate(t, selected));
  }

  /** The result contains the selection and every dependency of its members,
      except object-store ids while an on-prem id is present. */
  lemma ResolveClosed<Id(!new), Role>(t: Tables<Id, Role>, selected: seq<Id>)
    ensures var all := Elems(Resolve(t, selected));
            Elems(selected) <= all && Closed(t, all, HasOnPrem(t, all))
  {
    ResolveElems(t, selected);
    ClosureIsLeast(t, Elems(selected), false);
    SaturateSetBounds(t, Elems(selected), Closure(t, Elems(selected), false));
  }

  /** `d` stands in the table row of `c`: as an explicit dependency, or as one of its roles' dependencies. */
  ghost predicate Needs<Id, Role>(t: Tables<Id, Role>, c: Id, d: Id) {
    c in t.components &&
    (d in t.components[c].dependsOn
     || exists role :: role in t.components[c].configRoles && role in t.autoDeps && d in t.autoDeps[role])
  }

  lemma NeedsExactly<Id, Role>(t: Tables<Id, Role>, c: Id, d: Id)
    ensures Needs(t, c, d) <==> d in DepSeq(t, c)
  {
    if c in t.components {
      RolesDepsMember(t, t.components[c].configRoles, d);
    }
  }

  /** Whatever a member of the answer needs is in the answer, but for object-store ids while an on-prem id is. */
  lemma ResolveHasNeeds<Id(!new), Role>(t: Tables<Id, Role>, selected: seq<Id>, c: Id, d: Id)
    requires c in Resolve(t, selected) && Needs(t, c, d)
    ensures d in Resolve(t, selected) ||
            (d in t.objectStore && exists onPrem :: onPrem in t.onPrem && onPrem in Resolve(t, selected))
  {
    ResolveClosed(t, selected);
    NeedsExactly(t, c, d);
    var all := Elems(Resolve(t, selected));
    assert c in all && (d in all ==> d in Resolve(t, selected));
    if d !in all {
      var onPrem :| onPrem in t.onPrem * all;
      assert onPrem in Resolve(t, selected);
    }
  }

  lemma {:induction false} SaturateHasReasons<Id, Role>(t: Tables<Id, Role>, present: set<Id>, d: Id)
    requires d in SaturateSet(t, present) && d !in present
    ensures exists c :: c in SaturateSet(t, present) && d in DepSeq(t, c)
    decreases AllDeps(t) - present
  {
    var grown := Grow(t, present);
    GrowInDeps(t, present);
    if d in grown {
      var c :| c in present && d in DepSeq(t, c);
      SaturateContains(t, present);
      assert c in SaturateSet(t, present);
    } else {
      SaturateHasReasons(t, grown, d);
    }
  }

  lemma {:induction false} SaturateContains<Id, Role>(t: Tables<Id, Role>, present: set<Id>)
    ensures present <= SaturateSet(t, present)
    decreases AllDeps(t) - present
  {
    if Grow(t, present) != present {
      GrowInDeps(t, present);
      SaturateContains(t, Grow(t, present));
    }
  }

  /** And nothing is added without a member that needs it. */
  lemma AddedIsNeeded<Id(!new), Role>(t: Tables<Id, Role>, selected: seq<Id>, d: Id)
    requires d in Resolve(t, selected) && d !in selected
    ensures exists c :: c in Resolve(t, selected) && Needs(t, c, d)
  {
    ResolveElems(t, selected);
    assert d in Elems(Resolve(t, selected)) && d !in Elems(selected);
    SaturateHasReasons(t, Elems(selected), d);
    var c :| c in SaturateSet(t, Elems(selected)) && d in DepSeq(t, c);
    NeedsExactly(t, c, d);
    assert c in Elems(Resolve(t, selected));
  }

  /** Between the two closures, and equal to one of them whenever the on-prem flag never changes. */
  lemma ResolveBetweenClosures<Id(!new), Role>(t: Tables<Id, Role>, selected: seq<Id>)
    ensures var base, all := Elems(selected), Elems(Resolve(t, selected));
            && Closure(t, base, true) <= all <= Closure(t, base, false)
            && (!HasOnPrem(t, all) ==> IsLeastClosed(t, base, false, all))
            && (HasOnPrem(t, base) ==> IsLeastClosed(t, base, true, all))
  {
    var base := Elems(selected);
    var all := SaturateSet(t, base);
    ResolveElems(t, selected);
    ClosureIsLeast(t, base, false);
    SaturateSetBounds(t, base, Closure(t, base, false));
    ClosureBelow(t, base, all);
    if !HasOnPrem(t, all) {
      SaturateSetFixedFlag(t, base, false);
    }
    if HasOnPrem(t, base) {
      SaturateSetFixedFlag(t, base, true);
      ClosureIsLeast(t, base, true);
    }
  }

  lemma ClosedWhenSuppressing<Id, Role>(t: Tables<Id, Role>, s: set<Id>)
    requires Closed(t, s, false)
    ensures Closed(t, s, true)
  {
    forall c, d | c in s && d in DepSeq(t, c) ensures d in s {
      assert d in s || Suppressed(t, false, d);
    }
  }

  lemma ClosureIsBelow<Id(!new), Role>(t: Tables<Id, Role>, base: set<Id>, suppress: bool, other: set<Id>)
    requires base <= other && Closed(t, other, suppress)
    ensures Closure(t, base, suppress) <= other
  {
    ClosureIsLeast(t, base, suppress);
  }

  lemma ClosureBelow<Id(!new), Role>(t: Tables<Id, Role>, base: set<Id>, other: set<Id>)
    requires base <= other && (Closed(t, other, true) || Closed(t, other, false))
    ensures Closure(t, base, true) <= other
  {
    if Closed(t, other, false) {
      ClosedWhenSuppressing(t, other);
    }
    ClosureIsBelow(t, base, true, other);
  }

  /** Neither the order nor the multiplicity of the selection changes the set that comes out. */
  lemma ResolveSetDetermined<Id, Role>(t: Tables<Id, Role>, a: seq<Id>, b: seq<Id>)
    requires Elems(a) == Elems(b)
    ensures Elems(Resolve(t, a)) == Elems(Resolve(t, b))
  {
    ResolveElems(t, a);
    ResolveElems(t, b);
  }

  lemma {:induction false} WithoutConcatSplit<Id>(a: seq<Id>, b: seq<Id>, gone: seq<Id>)
    requires Elems(a) <= Elems(gone) && Elems(b) !! Elems(gone)
    ensures Without(a + b, gone) == b
  {
    if b == [] {
      assert a + b == a;
      WithoutElems(a, gone);
      ElemsEmpty(Without(a, gone));
    } else {
      var init, last := b[..|b| - 1], b[|b| - 1];
      assert b == init + [last] && (a + b)[..|a + b| - 1] == a + init;
      ElemsConcat(init, [last]);
      assert last in Elems(b);
      WithoutConcatSplit(a, init, gone);
    }
  }

  lemma ReorderIdempotent<Id, Role>(t: Tables<Id, Role>, result: seq<Id>)
    ensures Reorder(t, Reorder(t, result)) == Reorder(t, result)
  {
    var ordered := Ordered(t.order, Elems(result));
    var rest := Without(result, ordered);
    ReorderElems(t, result);
    WithoutElems(result, ordered);
    WithoutConcatSplit(ordered, rest, ordered);
  }

  /** Resolving a resolved list gives the very same list. */
  lemma ResolveIdempotent<Id, Role>(t: Tables<Id, Role>, selected: seq<Id>)
    ensures Resolve(t, Resolve(t, selected)) == Resolve(t, selected)
  {
    var full := Saturate(t, selected);
    var once := Reorder(t, full);
    ReorderElems(t, full);
    RoundGrows(t, full);
    RoundGrows(t, once);
    ReorderIdempotent(t, full);
  }

  // ---------- topological order ----------

  function Explicit<Id, Role>(t: Tables<Id, Role>, c: Id): seq<Id> {
    if c in t.components then t.components[c].dependsOn else []
  }

  /** Every explicit dependency that is present stands strictly before its dependant, at all its occurrences. */
  ghost predicate TopoSorted<Id, Role>(t: Tables<Id, Role>, s: seq<Id>) {
    forall i, k :: 0 <= i < |s| && 0 <= k < |s| && s[k] in Explicit(t, s[i]) ==> k < i
  }

  /** What the tables must satisfy: `order` is duplicate free, lists every explicit dependency, and lists it early. */
  ghost predicate OrderRespectsDeps<Id, Role>(t: Tables<Id, Role>) {
    && (forall i, j :: 0 <= i < j < |t.order| ==> t.order[i] != t.order[j])
    && (forall c, d :: c in t.components && d in t.components[c].dependsOn ==> d in t.order)
    && (forall i, d :: 0 <= i < |t.order| && d in Explicit(t, t.order[i]) ==> d in t.order[..i])
  }

  lemma {:induction false} OrderedTopoSorted<Id, Role>(t: Tables<Id, Role>, present: set<Id>, n: nat)
    requires OrderRespectsDeps(t) && n <= |t.order|
    ensures TopoSorted(t, Ordered(t.order[..n], present))
    ensures Elems(Ordered(t.order[..n], present)) == Elems(t.order[..n]) * present
  {
    OrderedElems(t.order[..n], present);
    if n > 0 {
      OrderedTopoSorted(t, present, n - 1);
      assert t.order[..n][..n - 1] == t.order[..n - 1];
      var before, last := Ordered(t.order[..n - 1], present), t.order[n - 1];
      if last in present {
        var s := before + [last];
        assert s == Ordered(t.order[..n], present);
        forall j | 0 <= j < n ensures last !in Explicit(t, t.order[j]) {
          assert last !in t.order[..j];
        }
        forall i | 0 <= i < |s| ensures last !in Explicit(t, s[i]) {
          assert s[i] in Elems(t.order[..n]) by { assert i < |before| ==> s[i] in Elems(before); }
        }
      }
    }
  }

  lemma TopoConcat<Id(!new), Role>(t: Tables<Id, Role>, a: seq<Id>, b: seq<Id>)
    requires TopoSorted(t, a)
    requires forall d, c :: d in b ==> d !in Explicit(t, c)
    ensures TopoSorted(t, a + b)
  {
    var s := a + b;
    forall k | |a| <= k < |s| ensures s[k] in b {
      assert s[k] == b[k - |a|];
    }
  }

  lemma ResolveTopological<Id(!new), Role>(t: Tables<Id, Role>, selected: seq<Id>)
    requires OrderRespectsDeps(t)
    ensures TopoSorted(t, Resolve(t, selected))
  {
    var full := Saturate(t, selected);
    var ordered := Ordered(t.order, Elems(full));
    var rest := Without(full, ordered);
    assert t.order[..|t.order|] == t.order;
    OrderedTopoSorted(t, Elems(full), |t.order|);
    WithoutElems(full, ordered);
    forall d, c | d in rest ensures d !in Explicit(t, c) {
      assert d in Elems(rest);
      assert d in Elems(full) && d !in Elems(t.order) * Elems(full);
    }
    TopoConcat(t, ordered, rest);
  }

  // ---------- on-prem storage suppresses the object store ----------

  /** If an on-prem id is selected, object-store ids appear only if they are selected too. */
  lemma OnPremSelectedSuppresses<Id(!new), Role>(t: Tables<Id, Role>, selected: seq<Id>)
    requires HasOnPrem(t, Elems(selected))
    ensures Elems(Resolve(t, selected)) * t.objectStore <= Elems(selected)
  {
    ResolveElems(t, selected);
    SaturateSetFixedFlag(t, Elems(selected), true);
    SuppressedClosure(t, Elems(selected));
  }

  lemma {:induction false} SuppressedClosure<Id, Role>(t: Tables<Id, Role>, base: set<Id>)
    ensures base <= Closure(t, base, true)
    ensures Closure(t, base, true) * t.objectStore == base * t.objectStore
    decreases AllDeps(t) - base
  {
    var next := base + Wanted(t, true, base);
    if next != base {
      assert next - base <= AllDeps(t);
      SuppressedClosure(t, next);
    }
  }

  /** The ids, not on-prem themselves, with an on-prem dependency. */
  function Pullers<Id, Role>(t: Tables<Id, Role>): set<Id> {
    set c | c in t.components.Keys - t.onPrem && (exists d :: d in DepSeq(t, c) && d in t.onPrem)
  }

  /** On-prem storage is pulled in by a selected component or not at all. */
  ghost predicate PulledInDirectly<Id, Role>(t: Tables<Id, Role>) {
    forall c, d :: c in t.components && d in DepSeq(t, c) ==> d !in Pullers(t)
  }

  ghost predicate Mixed<Id, Role>(t: Tables<Id, Role>, selected: seq<Id>) {
    var all := Elems(Resolve(t, selected));
    HasOnPrem(t, all) && all * t.objectStore - Elems(selected) != {}
  }

  /** Exactly when the suppression is broken: on-prem storage is not selected but pulled in,
      and some selected component asks for an object-store id that is not selected. */
  lemma MixedExactly<Id(!new), Role>(t: Tables<Id, Role>, selected: seq<Id>)
    requires PulledInDirectly(t)
    ensures Mixed(t, selected) <==>
            && !HasOnPrem(t, Elems(selected))
            && Elems(selected) * Pullers(t) != {}
            && Wanted(t, false, Elems(selected)) * t.objectStore - Elems(selected) != {}
  {
    var base := Elems(selected);
    ResolveElems(t, selected);
    if HasOnPrem(t, base) {
      OnPremSelectedSuppresses(t, selected);
    } else if base * Pullers(t) == {} {
      NeverPulledIn(t, base);
    } else {
      var next := Grow(t, base);
      var c :| c in base * Pullers(t);
      var d :| d in DepSeq(t, c) && d in t.onPrem;
      WantedHas(t, false, base, c, d);
      assert d in t.onPrem * next;
      SaturateSetFixedFlag(t, next, true);
      SuppressedClosure(t, next);
      GrowInDeps(t, base);
      assert d !in base by {
        assert d in base ==> d in t.onPrem * base;
      }
      assert SaturateSet(t, base) == SaturateSet(t, next);
      assert d in t.onPrem * SaturateSet(t, base) by { SaturateSetGrows(t, next); }
      assert SaturateSet(t, base) * t.objectStore == next * t.objectStore;
    }
  }

  lemma WantedHas<Id, Role>(t: Tables<Id, Role>, flag: bool, present: set<Id>, c: Id, d: Id)
    requires c in present && d in DepSeq(t, c) && !Suppressed(t, flag, d)
    ensures d in Wanted(t, flag, present)
  {
  }

  lemma {:induction false} NeverPulledIn<Id, Role>(t: Tables<Id, Role>, present: set<Id>)
    requires PulledInDirectly(t) && !HasOnPrem(t, present) && present * Pullers(t) == {}
    ensures !HasOnPrem(t, SaturateSet(t, present))
    decreases AllDeps(t) - present
  {
    var next := Grow(t, present);
    if next != present {
      GrowInDeps(t, present);
      forall c | c in present ensures c !in t.onPrem && c !in Pullers(t) {
        assert c in t.onPrem <==> c in t.onPrem * present;
        assert c in Pullers(t) <==> c in present * Pullers(t);
      }
      forall d | d in Wanted(t, false, present) ensures d !in t.onPrem && d !in Pullers(t) {
        var c :| c in present && d in DepSeq(t, c) && !Suppressed(t, false, d);
        assert c in t.components && c !in Pullers(t);
      }
      NeverPulledIn(t, next);
    }
  }
}
