/** Directory trees, and what extracting archive members does to them. */
module Trees {
  import opened Wrappers
  import opened Collections

  /** The segments of a path below some root; the root itself is not an entry. */
  type Path = seq<string>

  datatype Node<C> = Dir | File(content: C)

  type Tree<C> = map<Path, Node<C>>

  function Parent(p: Path): Path
    requires p != []
  {
    p[..|p| - 1]
  }

  ghost predicate WellFormed<C>(t: Tree<C>) {
    forall p {:trigger StandsInDir(t, p)} :: p in t ==> StandsInDir(t, p)
  }

  ghost predicate StandsInDir<C>(t: Tree<C>, p: Path) {
    p != [] && (|p| > 1 ==> Parent(p) in t && t[Parent(p)].Dir?)
  }

  /** Creates the missing directories above `p`; None if a file is in the way. */
  function MakeParents<C>(t: Tree<C>, p: Path): Option<Tree<C>>
    decreases |p|
  {
    if |p| <= 1 then Some(t)
    else
      var parent := Parent(p);
      var made := MakeParents(t, parent);
      if made.None? then None
      else if parent !in made.value then Some(made.value[parent := Dir])
      else if made.value[parent].Dir? then made
      else None
  }

  /** Extracting one member: a file replaces a file, a directory may exist already, and kinds never mix. */
  function Extract<C>(t: Tree<C>, p: Path, node: Node<C>): Option<Tree<C>> {
    var made := MakeParents(t, p);
    if made.None? then None
    else if p in made.value && made.value[p].Dir? != node.Dir? then None
    else Some(made.value[p := node])
  }

  type Members<C> = seq<(Path, Node<C>)>

  /** Members extracted in order; on a failure the tree stays as the members before it left it. */
  function ExtractAll<C>(t: Tree<C>, members: Members<C>): (Tree<C>, bool) {
    if members == [] then (t, true)
    else
      var (before, ok) := ExtractAll(t, members[..|members| - 1]);
      var (p, node) := members[|members| - 1];
      if !ok then (before, false)
      else
        var after := Extract(before, p, node);
        if after.None? then (before, false) else (after.value, true)
  }

  method ExtractMembers<C>(t: Tree<C>, members: Members<C>) returns (tree: Tree<C>, ok: bool)
    ensures (tree, ok) == ExtractAll(t, members)
  {
    tree := t;
    for i := 0 to |members|
      invariant (tree, true) == ExtractAll(t, members[..i])
    {
      assert members[..i + 1][..i] == members[..i];
      var after := Extract(tree, members[i].0, members[i].1);
      if after.None? {
        FailureStays(t, members, i + 1);
        return tree, false;
      }
      tree := after.value;
    }
    assert members[..|members|] == members;
    ok := true;
  }

  lemma {:induction false} FailureStays<C>(t: Tree<C>, members: Members<C>, n: nat)
    requires n <= |members| && !ExtractAll(t, members[..n]).1
    ensures ExtractAll(t, members) == ExtractAll(t, members[..n])
  {
    if n == |members| {
      assert members[..n] == members;
    } else {
      var init := members[..|members| - 1];
      assert init[..n] == members[..n];
      FailureStays(t, init, n);
    }
  }

  lemma ExtractOneMore<C>(t: Tree<C>, members: Members<C>, n: nat)
    requires 0 < n <= |members|
    ensures var (before, ok) := ExtractAll(t, members[..n - 1]);
            var after := Extract(before, members[n - 1].0, members[n - 1].1);
            ExtractAll(t, members[..n]) ==
            if ok && after.Some? then (after.value, true) else (before, false)
  {
    assert members[..n][..n - 1] == members[..n - 1];
    assert members[..n][n - 1] == members[n - 1];
  }

  // ---------- archives of a tree ----------

  /** `walk` lists a set of entries, each once and every directory before what is in it. */
  ghost predicate IsWalk(walk: seq<Path>, entries: set<Path>) {
    && (forall p :: p in walk <==> p in entries)
    && (forall i, j :: 0 <= i < j < |walk| ==> walk[i] != walk[j])
    && (forall i :: 0 <= i < |walk| ==> ParentFirst(walk, i))
  }

  ghost predicate ParentFirst(walk: seq<Path>, i: nat)
    requires i < |walk|
  {
    walk[i] != [] && (|walk[i]| > 1 ==> Parent(walk[i]) in walk[..i])
  }

  function Pack<C>(t: Tree<C>, walk: seq<Path>): (m: Members<C>)
    requires forall p :: p in walk ==> p in t
    ensures |m| == |walk|
  {
    seq(|walk|, i requires 0 <= i < |walk| => (walk[i], t[walk[i]]))
  }

  function Overlay<C>(live: Tree<C>, t: Tree<C>, entries: set<Path>): Tree<C>
    requires entries <= t.Keys
  {
    live + map p | p in entries :: t[p]
  }

  /** No captured path is a file on one side and a directory on the other. */
  ghost predicate SameKinds<C>(live: Tree<C>, t: Tree<C>, entries: set<Path>)
    requires entries <= t.Keys
  {
    forall p :: p in entries && p in live ==> live[p].Dir? == t[p].Dir?
  }

  /** With its parent already in place, a member fails exactly when the kinds clash. */
  lemma ExtractBelowParent<C>(t: Tree<C>, p: Path, node: Node<C>)
    requires WellFormed(t) && p != [] && (|p| > 1 ==> Parent(p) in t && t[Parent(p)].Dir?)
    ensures Extract(t, p, node) == if p in t && t[p].Dir? != node.Dir? then None else Some(t[p := node])
    ensures Extract(t, p, node).Some? ==> WellFormed(t[p := node])
  {
    ParentsExist(t, p);
    var after := t[p := node];
    forall q | q in after && Extract(t, p, node).Some? ensures StandsInDir(after, q) {
      assert q in t ==> StandsInDir(t, q);
    }
  }

  lemma {:induction false} ParentsExist<C>(t: Tree<C>, p: Path)
    requires WellFormed(t) && (|p| > 1 ==> Parent(p) in t && t[Parent(p)].Dir?)
    ensures MakeParents(t, p) == Some(t)
    decreases |p|
  {
    if |p| > 1 {
      assert StandsInDir(t, Parent(p));
      ParentsExist(t, Parent(p));
    }
  }

  lemma WalkPrefix(walk: seq<Path>, entries: set<Path>, n: nat)
    requires IsWalk(walk, entries) && 0 < n <= |walk|
    ensures var p, before := walk[n - 1], Elems(walk[..n - 1]);
            && Elems(walk[..n]) == before + {p} && p !in before && before + {p} <= entries
            && p != [] && (|p| > 1 ==> Parent(p) in before)
  {
    assert walk[..n] == walk[..n - 1] + [walk[n - 1]];
    assert ParentFirst(walk, n - 1);
  }

  lemma OverlayOneMore<C>(live: Tree<C>, t: Tree<C>, before: set<Path>, p: Path)
    requires before <= t.Keys && p in t && p !in before
    ensures Overlay(live, t, before)[p := t[p]] == Overlay(live, t, before + {p})
    ensures p in Overlay(live, t, before) <==> p in live
    ensures p in live ==> Overlay(live, t, before)[p] == live[p]
    ensures SameKinds(live, t, before + {p}) <==>
            SameKinds(live, t, before) && (p in live ==> live[p].Dir? == t[p].Dir?)
  {
  }

  lemma ExtractOverlay<C>(live: Tree<C>, t: Tree<C>, before: set<Path>, p: Path)
    requires before <= t.Keys && p in t && p !in before && WellFormed(t) && WellFormed(Overlay(live, t, before))
    requires p != [] && (|p| > 1 ==> Parent(p) in before)
    ensures Extract(Overlay(live, t, before), p, t[p]) ==
            if p in live && live[p].Dir? != t[p].Dir? then None else Some(Overlay(live, t, before + {p}))
    ensures (p in live ==> live[p].Dir? == t[p].Dir?) ==> WellFormed(Overlay(live, t, before + {p}))
  {
    var tree := Overlay(live, t, before);
    assert StandsInDir(t, p);
    assert |p| > 1 ==> tree[Parent(p)] == t[Parent(p)];
    ExtractBelowParent(tree, p, t[p]);
    OverlayOneMore(live, t, before, p);
  }

  /** Extracting a packed walk over a live tree lays the packed entries over it, and fails exactly on a clash of
      kinds. */
  lemma {:induction false} ExtractPacked<C>(live: Tree<C>, t: Tree<C>, walk: seq<Path>, entries: set<Path>, n: nat)
    requires WellFormed(live) && WellFormed(t) && entries <= t.Keys && IsWalk(walk, entries) && n <= |walk|
    ensures Elems(walk[..n]) <= entries
    ensures ExtractAll(live, Pack(t, walk)[..n]).1 <==> SameKinds(live, t, Elems(walk[..n]))
    ensures SameKinds(live, t, Elems(walk[..n])) ==>
              && ExtractAll(live, Pack(t, walk)[..n]).0 == Overlay(live, t, Elems(walk[..n]))
              && WellFormed(Overlay(live, t, Elems(walk[..n])))
  {
    if n == 0 {
      assert Elems(walk[..0]) == {};
      assert Overlay(live, t, {}) == live;
    } else {
      ExtractPacked(live, t, walk, entries, n - 1);
      WalkPrefix(walk, entries, n);
      var p, before := walk[n - 1], Elems(walk[..n - 1]);
      ExtractOneMore(live, Pack(t, walk), n);
      assert Pack(t, walk)[n - 1] == (p, t[p]);
      OverlayOneMore(live, t, before, p);
      if SameKinds(live, t, before) {
        ExtractOverlay(live, t, before, p);
      }
    }
  }

  /** Some of the entries are laid over the live tree, and nothing else is changed. */
  ghost predicate PartlyLaid<C>(live: Tree<C>, t: Tree<C>, entries: set<Path>, tree: Tree<C>)
    requires entries <= t.Keys
  {
    exists done: set<Path> :: done <= entries && SameKinds(live, t, done) && tree == Overlay(live, t, done)
  }

  lemma {:induction false} PackedLays<C>(live: Tree<C>, t: Tree<C>, walk: seq<Path>, entries: set<Path>, n: nat)
    requires WellFormed(live) && WellFormed(t) && entries <= t.Keys && IsWalk(walk, entries) && n <= |walk|
    ensures PartlyLaid(live, t, entries, ExtractAll(live, Pack(t, walk)[..n]).0)
  {
    ExtractPacked(live, t, walk, entries, n);
    if ExtractAll(live, Pack(t, walk)[..n]).1 {
      assert SameKinds(live, t, Elems(walk[..n]));
    } else {
      PackedLays(live, t, walk, entries, n - 1);
      ExtractOneMore(live, Pack(t, walk), n);
    }
  }

  lemma ExtractWalk<C>(live: Tree<C>, t: Tree<C>, walk: seq<Path>, entries: set<Path>)
    requires WellFormed(live) && WellFormed(t) && entries <= t.Keys && IsWalk(walk, entries)
    ensures var (tree, ok) := ExtractAll(live, Pack(t, walk));
            && (ok <==> SameKinds(live, t, entries))
            && (ok ==> tree == Overlay(live, t, entries))
            && PartlyLaid(live, t, entries, tree)
  {
    ExtractPacked(live, t, walk, entries, |walk|);
    PackedLays(live, t, walk, entries, |walk|);
    assert walk[..|walk|] == walk && Pack(t, walk)[..|walk|] == Pack(t, walk);
    assert Elems(walk) == entries;
  }

  // ---------- files extracted into an empty directory ----------

  ghost predicate Above(q: Path, p: Path) {
    0 < |q| < |p| && q == p[..|q|]
  }

  function Ancestors(p: Path): set<Path> {
    set n | 0 < n < |p| :: p[..n]
  }

  function WithParents<C>(t: Tree<C>, p: Path): Tree<C> {
    t + map q | q in Ancestors(p) :: Dir
  }

  lemma AncestorsAbove(q: Path, p: Path)
    ensures q in Ancestors(p) <==> Above(q, p)
  {
    if Above(q, p) {
      assert q == p[..|q|];
    }
  }

  lemma AncestorsOneMore(p: Path)
    requires |p| > 1
    ensures Ancestors(p) == Ancestors(Parent(p)) + {Parent(p)} && Parent(p) !in Ancestors(Parent(p))
  {
    forall q ensures Above(q, p) <==> Above(q, Parent(p)) || q == Parent(p) {
      if Above(q, p) || Above(q, Parent(p)) {
        assert Parent(p)[..|q|] == p[..|q|];
      }
    }
    forall q ensures q in Ancestors(p) <==> q in Ancestors(Parent(p)) + {Parent(p)} {
      AncestorsAbove(q, p);
      AncestorsAbove(q, Parent(p));
    }
    AncestorsAbove(Parent(p), Parent(p));
  }

  lemma WithParentsOneMore<C>(t: Tree<C>, p: Path)
    requires |p| > 1
    ensures Parent(p) in t && t[Parent(p)].Dir? ==> WithParents(t, p) == WithParents(t, Parent(p))
    ensures WithParents(t, p) == WithParents(t, Parent(p))[Parent(p) := Dir]
    ensures Parent(p) in WithParents(t, Parent(p)) <==> Parent(p) in t
    ensures Parent(p) in t ==> WithParents(t, Parent(p))[Parent(p)] == t[Parent(p)]
  {
    AncestorsOneMore(p);
  }

  lemma {:induction false} MissingParentsMade<C>(t: Tree<C>, p: Path)
    requires forall q :: q in Ancestors(p) && q in t ==> t[q].Dir?
    ensures MakeParents(t, p) == Some(WithParents(t, p))
    decreases |p|
  {
    if |p| <= 1 {
      assert Ancestors(p) == {};
      assert WithParents(t, p) == t;
    } else {
      AncestorsOneMore(p);
      MissingParentsMade(t, Parent(p));
      WithParentsOneMore(t, p);
    }
  }

  /** The files are at different places, none of them in the way of another. */
  ghost predicate Apart<C>(files: Members<C>) {
    && (forall i :: 0 <= i < |files| ==> files[i].0 != [] && files[i].1.File?)
    && (forall i, j :: 0 <= i < |files| && 0 <= j < |files| && i != j ==> files[i].0 != files[j].0)
    && (forall i, j :: 0 <= i < |files| && 0 <= j < |files| ==> !Above(files[i].0, files[j].0))
  }

  ghost predicate IsPlace<C>(files: Members<C>, q: Path) {
    exists i :: 0 <= i < |files| && files[i].0 == q
  }

  ghost predicate IsAbove<C>(files: Members<C>, q: Path) {
    exists i :: 0 <= i < |files| && Above(q, files[i].0)
  }

  ghost predicate LaidAt<C>(t: Tree<C>, files: Members<C>, q: Path) {
    && (q in t <==> IsPlace(files, q) || IsAbove(files, q))
    && (IsAbove(files, q) && q in t ==> t[q].Dir?)
    && (forall i :: 0 <= i < |files| && files[i].0 == q && q in t ==> t[q] == files[i].1)
  }

  /** A tree of exactly these files and the directories they need. */
  ghost predicate Laid<C>(t: Tree<C>, files: Members<C>) {
    forall q :: LaidAt(t, files, q)
  }

  lemma OneMoreLaid<C>(t: Tree<C>, files: Members<C>, q: Path)
    requires files != [] && Apart(files)
    requires var (p, node) := files[|files| - 1];
             LaidAt(t, files[..|files| - 1], q) && LaidAt(t, files[..|files| - 1], p)
    ensures var (p, node) := files[|files| - 1];
            LaidAt(WithParents(t, p)[p := node], files, q)
  {
    var init, last := files[..|files| - 1], |files| - 1;
    var (p, node) := files[last];
    AncestorsAbove(q, p);
    assert forall i :: 0 <= i < last ==> init[i] == files[i];
    assert IsPlace(files, q) <==> IsPlace(init, q) || q == p by {
      assert files[last].0 == p;
    }
    assert IsAbove(files, q) <==> IsAbove(init, q) || Above(q, p) by {
      assert files[last].0 == p;
    }
  }

  lemma NothingInTheWay<C>(t: Tree<C>, files: Members<C>, q: Path)
    requires files != [] && Apart(files) && LaidAt(t, files[..|files| - 1], q)
    requires q in t && Above(q, files[|files| - 1].0)
    ensures t[q].Dir?
  {
    var init := files[..|files| - 1];
    assert forall i :: 0 <= i < |init| ==> init[i] == files[i];
    assert !IsPlace(init, q);
  }

  lemma LastPlaceIsNew<C>(t: Tree<C>, files: Members<C>)
    requires files != [] && Apart(files) && LaidAt(t, files[..|files| - 1], files[|files| - 1].0)
    ensures files[|files| - 1].0 !in WithParents(t, files[|files| - 1].0)
  {
    var init, p := files[..|files| - 1], files[|files| - 1].0;
    assert forall i :: 0 <= i < |init| ==> init[i] == files[i];
    AncestorsAbove(p, p);
  }

  lemma PrefixApart<C>(files: Members<C>)
    requires files != [] && Apart(files)
    ensures Apart(files[..|files| - 1])
  {
    var init := files[..|files| - 1];
    assert forall i :: 0 <= i < |init| ==> init[i] == files[i];
  }

  /** Files extracted into an empty directory make exactly themselves and their parents, in any order. */
  lemma {:induction false} ExtractFresh<C>(files: Members<C>)
    requires Apart(files)
    ensures ExtractAll(map[], files).1 && Laid(ExtractAll(map[], files).0, files)
  {
    if files != [] {
      PrefixApart(files);
      ExtractFresh(files[..|files| - 1]);
      var t := ExtractAll(map[], files[..|files| - 1]).0;
      var (p, node) := files[|files| - 1];
      assert LaidAt(t, files[..|files| - 1], p);
      forall q | q in Ancestors(p) && q in t ensures t[q].Dir? {
        AncestorsAbove(q, p);
        assert LaidAt(t, files[..|files| - 1], q);
        NothingInTheWay(t, files, q);
      }
      MissingParentsMade(t, p);
      LastPlaceIsNew(t, files);
      var after := WithParents(t, p)[p := node];
      forall q ensures LaidAt(after, files, q) {
        assert LaidAt(t, files[..|files| - 1], q);
        OneMoreLaid(t, files, q);
      }
    }
  }
}
