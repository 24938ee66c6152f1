/** What export and import achieve together: a bundle of a complete install imports as that install
    with its secrets masked. */
module Bundles {
  import opened Wrappers
  import opened Collections
  import opened Trees
  import opened MemberNames
  import opened EnvText
  import opened GitOps

  // ---------- which uploads validate ----------

  ghost predicate HasRegular(members: seq<Member>, name: string) {
    Named(members, name).Some? && Named(members, name).value.kind.Regular?
  }

  ghost predicate AllSafe(members: seq<Member>) {
    forall i :: 0 <= i < |members| ==> SafeMember(members[i])
  }

  ghost predicate AllRequired(members: seq<Member>) {
    forall name :: name in REQUIRED ==> HasRegular(members, name)
  }

  predicate Known(id: Option<string>, catalog: set<string>) {
    id.Some? && id.value != "" && id.value in catalog
  }

  /** What an upload must be, with no order of checking in it. */
  ghost predicate Acceptable(members: seq<Member>, idOf: string -> Option<string>, catalog: set<string>) {
    AllSafe(members) && Size(members) <= MAX_BYTES && AllRequired(members)
    && Known(idOf(TextOf(members, MANIFEST)), catalog)
  }

  lemma {:induction false} ScanExactly(members: seq<Member>)
    ensures Scan(members).None? <==> AllSafe(members) && Size(members) <= MAX_BYTES
  {
    if members != [] {
      var init := members[..|members| - 1];
      ScanExactly(init);
      assert forall i :: 0 <= i < |init| ==> init[i] == members[i];
    }
  }

  lemma MembersOfSnoc<T>(s: seq<T>)
    requires s != []
    ensures forall x :: x in s <==> x in s[..|s| - 1] || x == s[|s| - 1]
  {
    assert s == s[..|s| - 1] + [s[|s| - 1]];
  }

  lemma {:induction false} MissingExactly(members: seq<Member>, required: seq<string>)
    ensures Missing(members, required) == [] <==> forall name :: name in required ==> Named(members, name).Some?
  {
    if required != [] {
      var init, last := required[..|required| - 1], required[|required| - 1];
      MissingExactly(members, init);
      MembersOfSnoc(required);
      assert last in required;
      assert |Missing(members, required)| == |Missing(members, init)| + if Named(members, last).None? then 1 else 0;
    }
  }

  lemma {:induction false} RegularExactly(members: seq<Member>, required: seq<string>)
    requires forall name :: name in required ==> Named(members, name).Some?
    ensures FirstNotRegular(members, required).None? <==> forall name :: name in required ==> HasRegular(members, name)
  {
    if required != [] {
      var init, last := required[..|required| - 1], required[|required| - 1];
      MembersOfSnoc(required);
      assert last in required;
      RegularExactly(members, init);
    }
  }

  /** An upload validates exactly when it is acceptable, and the plan is read off the members. */
  lemma ValidateExactly(members: seq<Member>, idOf: string -> Option<string>, catalog: set<string>)
    ensures var r := Validate(Tarball(members), idOf, catalog);
            && (r.Ok? <==> Acceptable(members, idOf, catalog))
            && (r.Ok? ==> r.value == PlanOf(members, idOf(TextOf(members, MANIFEST)).value))
  {
    ScanExactly(members);
    MissingExactly(members, REQUIRED);
    if Missing(members, REQUIRED) == [] {
      RegularExactly(members, REQUIRED);
    }
  }

  /** A refused import leaves the disk as it was; the only failure after that is a clash between members, which
      leaves what the members before it unpacked to. */
  lemma RefusalTouchesNothing(disk: Disk, upload: Upload, allow: bool, idOf: string -> Option<string>,
                              catalog: set<string>)
    ensures var (after, r) := Import(disk, upload, allow, idOf, catalog);
            && (r.Err? ==>
                  || after == disk
                  || (&& r.error == ExtractionFailed && (disk.Nothing? || disk == Folder(map[])) && upload.Tarball?
                      && !UnpackAll(map[], upload.members).1
                      && after == Folder(UnpackAll(map[], upload.members).0)))
            && (r.Ok? ==>
                  && upload.Tarball? && Acceptable(upload.members, idOf, catalog)
                  && (disk.Nothing? || disk == Folder(map[]))
                  && (r.value.unresolved == [] || allow)
                  && after == Folder(UnpackAll(map[], upload.members).0))
  {
    if upload.Tarball? {
      ValidateExactly(upload.members, idOf, catalog);
    }
  }

  // ---------- a complete install and the files of its bundle ----------

  predicate HasTop(tree: Tree<Data>) {
    && [COMPOSE] in tree && tree[[COMPOSE]].File?
    && [ENV] in tree && tree[[ENV]].File?
  }

  ghost predicate AllReal(paths: set<Path>) {
    forall p :: p in paths ==> RealPath(p)
  }

  ghost predicate Complete(tree: Tree<Data>) {
    WellFormed(tree) && AllReal(tree.Keys) && HasTop(tree)
  }

  function ScriptFiles(tree: Tree<Data>, listing: seq<Path>): Members<Data>
    requires forall p :: p in listing ==> p in tree
  {
    if listing == [] then []
    else
      var p := listing[|listing| - 1];
      ScriptFiles(tree, listing[..|listing| - 1]) + if tree[p].File? then [(p, tree[p])] else []
  }

  datatype Studio = Studio(manifest: Data, lock: Data, readme: Data)

  function TopFiles(tree: Tree<Data>): Members<Data>
    requires HasTop(tree)
  {
    [([COMPOSE], tree[[COMPOSE]]), ([ENV], File(Scrubbed(tree[[ENV]].content)))]
  }

  function StudioFiles(studio: Studio): Members<Data> {
    [([MANIFEST], File(studio.manifest)), ([LOCK], File(studio.lock)), ([README], File(studio.readme))]
  }

  function Files(tree: Tree<Data>, listing: seq<Path>, studio: Studio): Members<Data>
    requires HasTop(tree) && forall p :: p in listing ==> p in tree
  {
    TopFiles(tree) + ScriptFiles(tree, listing) + StudioFiles(studio)
  }

  function Bundle(tree: Tree<Data>, listing: seq<Path>, studio: Studio): seq<Member>
    requires HasTop(tree) && forall p :: p in listing ==> p in tree
  {
    Exported(tree, listing, Some(studio.manifest), Some(studio.lock), studio.readme).value
  }

  predicate IsMemberOf(m: Member, f: (Path, Node<Data>)) {
    f.1.File? && m == FileMember(NameOf(f.0), f.1.content)
  }

  ghost predicate Writes(members: seq<Member>, files: Members<Data>) {
    |members| == |files| && forall i :: 0 <= i < |files| ==> IsMemberOf(members[i], files[i])
  }

  lemma WritesConcat(a: seq<Member>, b: seq<Member>, f: Members<Data>, g: Members<Data>)
    requires Writes(a, f) && Writes(b, g)
    ensures Writes(a + b, f + g)
  {
  }

  lemma {:induction false} ScriptsWritten(tree: Tree<Data>, listing: seq<Path>)
    requires forall p :: p in listing ==> p in tree
    ensures Writes(ScriptMembers(tree, listing), ScriptFiles(tree, listing))
  {
    if listing != [] {
      var p := listing[|listing| - 1];
      ScriptsWritten(tree, listing[..|listing| - 1]);
      if tree[p].File? {
        WritesConcat(ScriptMembers(tree, listing[..|listing| - 1]), [FileMember(NameOf(p), tree[p].content)],
                     ScriptFiles(tree, listing[..|listing| - 1]), [(p, tree[p])]);
      }
    }
  }

  lemma TopWritten(tree: Tree<Data>)
    requires HasTop(tree)
    ensures Writes(TopMembers(tree), TopFiles(tree))
  {
  }

  lemma StudioWritten(studio: Studio)
    ensures Writes(StudioMembers(Some(studio.manifest), Some(studio.lock), studio.readme), StudioFiles(studio))
  {
  }

  lemma WritesAll(a: seq<Member>, b: seq<Member>, c: seq<Member>,
                  f: Members<Data>, g: Members<Data>, h: Members<Data>)
    requires Writes(a, f) && Writes(b, g) && Writes(c, h)
    ensures Writes(a + b + c, f + g + h)
  {
    WritesConcat(a, b, f, g);
    WritesConcat(a + b, c, f + g, h);
  }

  lemma BundleWritten(tree: Tree<Data>, listing: seq<Path>, studio: Studio)
    requires HasTop(tree) && forall p :: p in listing ==> p in tree
    ensures Writes(Bundle(tree, listing, studio), Files(tree, listing, studio))
  {
    ScriptsWritten(tree, listing);
    TopWritten(tree);
    StudioWritten(studio);
    WritesAll(TopMembers(tree), ScriptMembers(tree, listing),
              StudioMembers(Some(studio.manifest), Some(studio.lock), studio.readme),
              TopFiles(tree), ScriptFiles(tree, listing), StudioFiles(studio));
  }

  // ---------- the files do not meet ----------

  const TOPS: set<string> := {COMPOSE, ENV, MANIFEST, LOCK, README}

  /** The five files at the top, in bundle order around `n` scripts. */
  function TopName(i: nat, n: nat): string {
    if i == 0 then COMPOSE else if i == 1 then ENV
    else if i == 2 + n then MANIFEST else if i == 3 + n then LOCK else README
  }

  lemma TopsDiffer()
    ensures |COMPOSE| == 18 && |ENV| == 4 && |MANIFEST| == 19 && |LOCK| == 15 && |README| == 9 && |SCRIPTS| == 7
    ensures SCRIPTS !in TOPS
  {
  }

  lemma TopIsReal(name: string)
    requires name in TOPS
    ensures RealPath([name]) && NameOf([name]) == name && name[0] != '\\' && PortableSegment(name)
  {
    PartsFindUp(name);
    NoDoubleDot(name);
    PlainLetters(name);
  }

  lemma PlainLetters(name: string)
    requires name in TOPS
    ensures ':' !in name && RealSegment(name) && name[0] != '\\'
  {
    if name == COMPOSE {
    } else if name == ENV {
    } else if name == MANIFEST {
    } else if name == LOCK {
    } else {
      assert name == README;
    }
  }

  lemma NoDoubleDot(name: string)
    requires name in TOPS
    ensures !HasUp(name)
  {
    forall k: nat ensures !UpAt(name, k) {
      if name == COMPOSE {
      } else if name == ENV {
      } else if name == MANIFEST {
      } else if name == LOCK {
      } else {
        assert name == README;
      }
    }
  }

  /** A file of the bundle that is a script of the install. */
  ghost predicate IsScriptFile(tree: Tree<Data>, f: (Path, Node<Data>)) {
    UnderScripts(f.0) && f.0 in tree && f.1 == tree[f.0] && f.1.File?
  }

  lemma {:induction false} ScriptFileAt(tree: Tree<Data>, listing: seq<Path>, i: nat)
    requires (forall p :: p in listing ==> p in tree && UnderScripts(p)) && i < |ScriptFiles(tree, listing)|
    ensures IsScriptFile(tree, ScriptFiles(tree, listing)[i]) && ScriptFiles(tree, listing)[i].0 in listing
  {
    var init := listing[..|listing| - 1];
    if i < |ScriptFiles(tree, init)| {
      ScriptFileAt(tree, init, i);
    }
  }

  lemma {:induction false} ScriptFilesDistinct(tree: Tree<Data>, listing: seq<Path>, i: nat, j: nat)
    requires forall p :: p in listing ==> p in tree && UnderScripts(p)
    requires Distinct(listing) && i < j < |ScriptFiles(tree, listing)|
    ensures ScriptFiles(tree, listing)[i].0 != ScriptFiles(tree, listing)[j].0
  {
    var init := listing[..|listing| - 1];
    if j < |ScriptFiles(tree, init)| {
      ScriptFilesDistinct(tree, init, i, j);
    } else {
      ScriptFileAt(tree, init, i);
    }
  }

  lemma {:induction false} ScriptIsPlace(tree: Tree<Data>, listing: seq<Path>, p: Path)
    requires (forall p :: p in listing ==> p in tree) && p in listing && tree[p].File?
    ensures IsPlace(ScriptFiles(tree, listing), p)
  {
    var init, last := listing[..|listing| - 1], listing[|listing| - 1];
    if p == last {
      assert ScriptFiles(tree, listing)[|ScriptFiles(tree, init)|].0 == p;
    } else {
      ScriptIsPlace(tree, init, p);
      var i :| 0 <= i < |ScriptFiles(tree, init)| && ScriptFiles(tree, init)[i].0 == p;
      assert ScriptFiles(tree, listing)[i].0 == p;
    }
  }

  lemma ConcatAt<T>(a: seq<T>, b: seq<T>, c: seq<T>, i: nat)
    requires i < |a + b + c|
    ensures (a + b + c)[i] ==
            if i < |a| then a[i] else if i < |a| + |b| then b[i - |a|] else c[i - |a| - |b|]
  {
  }

  /** What the bundle holds under a name at the top. */
  function TopData(tree: Tree<Data>, studio: Studio, name: string): Data
    requires HasTop(tree)
  {
    if name == COMPOSE then tree[[COMPOSE]].content
    else if name == ENV then Scrubbed(tree[[ENV]].content)
    else if name == MANIFEST then studio.manifest
    else if name == LOCK then studio.lock
    else studio.readme
  }

  ghost predicate IsTopAt(tree: Tree<Data>, studio: Studio, f: (Path, Node<Data>), name: string)
    requires HasTop(tree)
  {
    name in TOPS && f == ([name], File(TopData(tree, studio, name)))
  }

  lemma TopFileAt(tree: Tree<Data>, studio: Studio, i: nat)
    requires HasTop(tree) && i < 2
    ensures IsTopAt(tree, studio, TopFiles(tree)[i], TopName(i, 0))
  {
    TopsDiffer();
  }

  lemma StudioFileAt(tree: Tree<Data>, studio: Studio, i: nat)
    requires HasTop(tree) && i < 3
    ensures IsTopAt(tree, studio, StudioFiles(studio)[i], TopName(2 + i, 0))
  {
    TopsDiffer();
  }

  lemma FilesParts(tree: Tree<Data>, listing: seq<Path>, studio: Studio, i: nat)
    requires HasTop(tree) && (forall p :: p in listing ==> p in tree) && i < |Files(tree, listing, studio)|
    ensures var files, scripts := Files(tree, listing, studio), ScriptFiles(tree, listing);
            && |files| == |scripts| + 5
            && files[i] == if i < 2 then TopFiles(tree)[i]
                           else if i < 2 + |scripts| then scripts[i - 2]
                           else StudioFiles(studio)[i - 2 - |scripts|]
  {
    ConcatAt(TopFiles(tree), ScriptFiles(tree, listing), StudioFiles(studio), i);
  }

  predicate IsTopPlace(i: nat, n: nat) {
    i < 2 || 2 + n <= i < 5 + n
  }

  lemma TopAt(tree: Tree<Data>, listing: seq<Path>, studio: Studio, i: nat)
    requires HasTop(tree) && forall p :: p in listing ==> p in tree
    requires IsTopPlace(i, |ScriptFiles(tree, listing)|)
    ensures i < |Files(tree, listing, studio)|
    ensures IsTopAt(tree, studio, Files(tree, listing, studio)[i], TopName(i, |ScriptFiles(tree, listing)|))
  {
    var n := |ScriptFiles(tree, listing)|;
    FilesParts(tree, listing, studio, i);
    if i < 2 {
      TopFileAt(tree, studio, i);
    } else {
      StudioFileAt(tree, studio, i - 2 - n);
    }
  }

  lemma ScriptAt(tree: Tree<Data>, listing: seq<Path>, studio: Studio, i: nat)
    requires HasTop(tree) && forall p :: p in listing ==> p in tree && UnderScripts(p)
    requires i < |Files(tree, listing, studio)| && !IsTopPlace(i, |ScriptFiles(tree, listing)|)
    ensures 2 <= i < 2 + |ScriptFiles(tree, listing)|
    ensures Files(tree, listing, studio)[i] == ScriptFiles(tree, listing)[i - 2]
    ensures IsScriptFile(tree, Files(tree, listing, studio)[i])
  {
    FilesParts(tree, listing, studio, i);
    ScriptFileAt(tree, listing, i - 2);
  }

  lemma {:induction false} AncestorsAreDirs(tree: Tree<Data>, q: Path, p: Path)
    requires WellFormed(tree) && p in tree && Above(q, p)
    ensures q in tree && tree[q].Dir?
    decreases |p|
  {
    assert StandsInDir(tree, p);
    if |q| < |p| - 1 {
      assert q == Parent(p)[..|q|];
      AncestorsAreDirs(tree, q, Parent(p));
    }
  }

  lemma TopNamesDiffer(i: nat, j: nat, n: nat)
    requires i < j && IsTopPlace(i, n) && IsTopPlace(j, n)
    ensures [TopName(i, n)] != [TopName(j, n)]
  {
    TopsDiffer();
    assert [TopName(i, n)][0] != [TopName(j, n)][0];
  }

  lemma TopsApart(tree: Tree<Data>, listing: seq<Path>, studio: Studio, i: nat, j: nat)
    requires HasTop(tree) && (forall p :: p in listing ==> p in tree) && i < j
    requires IsTopPlace(i, |ScriptFiles(tree, listing)|) && IsTopPlace(j, |ScriptFiles(tree, listing)|)
    ensures j < |Files(tree, listing, studio)|
    ensures Files(tree, listing, studio)[i].0 != Files(tree, listing, studio)[j].0
  {
    TopAt(tree, listing, studio, i);
    TopAt(tree, listing, studio, j);
    TopNamesDiffer(i, j, |ScriptFiles(tree, listing)|);
  }

  lemma ScriptsApart(tree: Tree<Data>, listing: seq<Path>, studio: Studio, i: nat, j: nat)
    requires HasTop(tree) && (forall p :: p in listing ==> p in tree && UnderScripts(p)) && Distinct(listing)
    requires i < j < |Files(tree, listing, studio)|
    requires !IsTopPlace(i, |ScriptFiles(tree, listing)|) && !IsTopPlace(j, |ScriptFiles(tree, listing)|)
    ensures Files(tree, listing, studio)[i].0 != Files(tree, listing, studio)[j].0
  {
    ScriptAt(tree, listing, studio, i);
    ScriptAt(tree, listing, studio, j);
    ScriptFilesDistinct(tree, listing, i - 2, j - 2);
  }

  lemma PlaceLength(tree: Tree<Data>, listing: seq<Path>, studio: Studio, i: nat)
    requires HasTop(tree) && (forall p :: p in listing ==> p in tree && UnderScripts(p))
    requires i < |Files(tree, listing, studio)|
    ensures |Files(tree, listing, studio)[i].0| == 1 <==> IsTopPlace(i, |ScriptFiles(tree, listing)|)
  {
    if IsTopPlace(i, |ScriptFiles(tree, listing)|) {
      TopAt(tree, listing, studio, i);
    } else {
      ScriptAt(tree, listing, studio, i);
    }
  }

  lemma FilesDiffer(tree: Tree<Data>, listing: seq<Path>, studio: Studio, i: nat, j: nat)
    requires HasTop(tree) && (forall p :: p in listing ==> p in tree && UnderScripts(p)) && Distinct(listing)
    requires i < j < |Files(tree, listing, studio)|
    ensures Files(tree, listing, studio)[i].0 != Files(tree, listing, studio)[j].0
  {
    var n := |ScriptFiles(tree, listing)|;
    PlaceLength(tree, listing, studio, i);
    PlaceLength(tree, listing, studio, j);
    if IsTopPlace(i, n) && IsTopPlace(j, n) {
      TopsApart(tree, listing, studio, i, j);
    } else if !IsTopPlace(i, n) && !IsTopPlace(j, n) {
      ScriptsApart(tree, listing, studio, i, j);
    }
  }

  lemma FilesNotAbove(tree: Tree<Data>, listing: seq<Path>, studio: Studio, i: nat, j: nat)
    requires Complete(tree) && IsListing(tree, listing)
    requires i < |Files(tree, listing, studio)| && j < |Files(tree, listing, studio)|
    ensures !Above(Files(tree, listing, studio)[i].0, Files(tree, listing, studio)[j].0)
  {
    var q, p, n := Files(tree, listing, studio)[i].0, Files(tree, listing, studio)[j].0, |ScriptFiles(tree, listing)|;
    if IsTopPlace(j, n) {
      TopAt(tree, listing, studio, j);
    } else {
      ScriptAt(tree, listing, studio, j);
      if IsTopPlace(i, n) {
        TopAt(tree, listing, studio, i);
        TopsDiffer();
        assert q[0] != SCRIPTS;
      } else {
        ScriptAt(tree, listing, studio, i);
        if Above(q, p) {
          AncestorsAreDirs(tree, q, p);
        }
      }
    }
  }

  lemma FileIsFile(tree: Tree<Data>, listing: seq<Path>, studio: Studio, i: nat)
    requires HasTop(tree) && (forall p :: p in listing ==> p in tree && UnderScripts(p))
    requires i < |Files(tree, listing, studio)|
    ensures Files(tree, listing, studio)[i].0 != [] && Files(tree, listing, studio)[i].1.File?
  {
    if IsTopPlace(i, |ScriptFiles(tree, listing)|) {
      TopAt(tree, listing, studio, i);
    } else {
      ScriptAt(tree, listing, studio, i);
    }
  }

  lemma AllFilesDiffer(tree: Tree<Data>, listing: seq<Path>, studio: Studio)
    requires HasTop(tree) && (forall p :: p in listing ==> p in tree && UnderScripts(p)) && Distinct(listing)
    ensures var files := Files(tree, listing, studio);
            && (forall i :: 0 <= i < |files| ==> files[i].0 != [] && files[i].1.File?)
            && forall i, j :: 0 <= i < |files| && 0 <= j < |files| && i != j ==> files[i].0 != files[j].0
  {
    var files := Files(tree, listing, studio);
    forall i | 0 <= i < |files| ensures files[i].0 != [] && files[i].1.File? {
      FileIsFile(tree, listing, studio, i);
    }
    forall i, j | 0 <= i < |files| && 0 <= j < |files| && i != j ensures files[i].0 != files[j].0 {
      FilesDiffer(tree, listing, studio, if i < j then i else j, if i < j then j else i);
    }
  }

  lemma NoFileAboveAnother(tree: Tree<Data>, listing: seq<Path>, studio: Studio)
    requires Complete(tree) && IsListing(tree, listing)
    ensures var files := Files(tree, listing, studio);
            forall i, j :: 0 <= i < |files| && 0 <= j < |files| ==> !Above(files[i].0, files[j].0)
  {
    var files := Files(tree, listing, studio);
    forall i, j | 0 <= i < |files| && 0 <= j < |files| ensures !Above(files[i].0, files[j].0) {
      FilesNotAbove(tree, listing, studio, i, j);
    }
  }

  lemma FilesApart(tree: Tree<Data>, listing: seq<Path>, studio: Studio)
    requires Complete(tree) && IsListing(tree, listing)
    ensures Apart(Files(tree, listing, studio))
  {
    AllFilesDiffer(tree, listing, studio);
    NoFileAboveAnother(tree, listing, studio);
  }

  // ---------- the bundle unpacks to its files ----------

  lemma {:induction false} UnpackWritten(tree: Tree<Data>, members: seq<Member>, files: Members<Data>)
    requires Writes(members, files) && forall i :: 0 <= i < |files| ==> RealPath(files[i].0)
    ensures UnpackAll(tree, members) == ExtractAll(tree, files)
  {
    if members != [] {
      var last := |members| - 1;
      UnpackWritten(tree, members[..last], files[..last]);
      assert IsMemberOf(members[last], files[last]);
      NameRoundTrip(files[last].0);
    }
  }

  lemma FileIsReal(tree: Tree<Data>, listing: seq<Path>, studio: Studio, i: nat)
    requires HasTop(tree) && AllReal(tree.Keys) && (forall p :: p in listing ==> p in tree && UnderScripts(p))
    requires i < |Files(tree, listing, studio)|
    ensures RealPath(Files(tree, listing, studio)[i].0)
  {
    var n := |ScriptFiles(tree, listing)|;
    if IsTopPlace(i, n) {
      TopAt(tree, listing, studio, i);
      TopIsReal(TopName(i, n));
    } else {
      ScriptAt(tree, listing, studio, i);
    }
  }

  /** Some script lies below this directory. */
  ghost predicate HoldsScript(tree: Tree<Data>, q: Path) {
    exists p :: p in tree && UnderScripts(p) && tree[p].File? && Above(q, p)
  }

  /** What an imported bundle has at a path: the five files, the scripts, and the directories scripts need. */
  ghost function Expected(tree: Tree<Data>, studio: Studio, q: Path): Option<Node<Data>>
    requires HasTop(tree)
  {
    if |q| == 1 && q[0] in TOPS then Some(File(TopData(tree, studio, q[0])))
    else if UnderScripts(q) && q in tree && tree[q].File? then Some(tree[q])
    else if HoldsScript(tree, q) then Some(Dir)
    else None
  }

  function At(t: Tree<Data>, q: Path): Option<Node<Data>> {
    if q in t then Some(t[q]) else None
  }

  function PlaceOfTop(name: string, n: nat): nat {
    if name == COMPOSE then 0 else if name == ENV then 1
    else if name == MANIFEST then 2 + n else if name == LOCK then 3 + n else 4 + n
  }

  lemma PlaceOfTopName(name: string, n: nat)
    requires name in TOPS
    ensures IsTopPlace(PlaceOfTop(name, n), n) && TopName(PlaceOfTop(name, n), n) == name
  {
    TopsDiffer();
  }

  lemma TopExpected(tree: Tree<Data>, listing: seq<Path>, studio: Studio, t: Tree<Data>, name: string)
    requires HasTop(tree) && (forall p :: p in listing ==> p in tree) && name in TOPS
    requires LaidAt(t, Files(tree, listing, studio), [name])
    ensures At(t, [name]) == Some(File(TopData(tree, studio, name)))
  {
    var n := |ScriptFiles(tree, listing)|;
    var i := PlaceOfTop(name, n);
    PlaceOfTopName(name, n);
    TopAt(tree, listing, studio, i);
    assert IsPlace(Files(tree, listing, studio), [name]);
  }

  lemma ScriptPlace(tree: Tree<Data>, listing: seq<Path>, studio: Studio, p: Path) returns (i: nat)
    requires HasTop(tree) && IsListing(tree, listing) && UnderScripts(p) && p in tree && tree[p].File?
    ensures i < |Files(tree, listing, studio)| && Files(tree, listing, studio)[i] == (p, tree[p])
  {
    ScriptIsPlace(tree, listing, p);
    var k :| 0 <= k < |ScriptFiles(tree, listing)| && ScriptFiles(tree, listing)[k].0 == p;
    i := k + 2;
    FilesParts(tree, listing, studio, i);
    ScriptAt(tree, listing, studio, i);
  }

  lemma ScriptExpected(tree: Tree<Data>, listing: seq<Path>, studio: Studio, t: Tree<Data>, q: Path)
    requires HasTop(tree) && IsListing(tree, listing) && UnderScripts(q) && q in tree && tree[q].File?
    requires LaidAt(t, Files(tree, listing, studio), q)
    ensures At(t, q) == Some(tree[q])
  {
    var i := ScriptPlace(tree, listing, studio, q);
    assert IsPlace(Files(tree, listing, studio), q);
  }

  lemma AboveExactly(tree: Tree<Data>, listing: seq<Path>, studio: Studio, q: Path)
    requires HasTop(tree) && IsListing(tree, listing)
    ensures IsAbove(Files(tree, listing, studio), q) <==> HoldsScript(tree, q)
  {
    var files := Files(tree, listing, studio);
    if IsAbove(files, q) {
      var i :| 0 <= i < |files| && Above(q, files[i].0);
      PlaceLength(tree, listing, studio, i);
      ScriptAt(tree, listing, studio, i);
    } else if HoldsScript(tree, q) {
      var p :| p in tree && UnderScripts(p) && tree[p].File? && Above(q, p);
      var i := ScriptPlace(tree, listing, studio, p);
    }
  }

  lemma PlaceCases(tree: Tree<Data>, listing: seq<Path>, studio: Studio, q: Path)
    requires HasTop(tree) && IsListing(tree, listing) && IsPlace(Files(tree, listing, studio), q)
    ensures (|q| == 1 && q[0] in TOPS) || (UnderScripts(q) && q in tree && tree[q].File?)
  {
    var files, n := Files(tree, listing, studio), |ScriptFiles(tree, listing)|;
    var i :| 0 <= i < |files| && files[i].0 == q;
    if IsTopPlace(i, n) {
      TopAt(tree, listing, studio, i);
    } else {
      ScriptAt(tree, listing, studio, i);
    }
  }

  lemma LaidAsExpected(tree: Tree<Data>, listing: seq<Path>, studio: Studio, t: Tree<Data>, q: Path)
    requires HasTop(tree) && IsListing(tree, listing) && LaidAt(t, Files(tree, listing, studio), q)
    ensures At(t, q) == Expected(tree, studio, q)
  {
    if |q| == 1 && q[0] in TOPS {
      assert q == [q[0]];
      TopExpected(tree, listing, studio, t, q[0]);
    } else if UnderScripts(q) && q in tree && tree[q].File? {
      ScriptExpected(tree, listing, studio, t, q);
    } else {
      AboveExactly(tree, listing, studio, q);
      if IsPlace(Files(tree, listing, studio), q) {
        PlaceCases(tree, listing, studio, q);
      }
    }
  }

  /** Unpacking a bundle into an empty directory gives, at every path, what is expected there. */
  lemma BundleUnpacks(tree: Tree<Data>, listing: seq<Path>, studio: Studio)
    requires Complete(tree) && IsListing(tree, listing)
    ensures var (t, ok) := UnpackAll(map[], Bundle(tree, listing, studio));
            ok && forall q :: At(t, q) == Expected(tree, studio, q)
  {
    var files := Files(tree, listing, studio);
    BundleWritten(tree, listing, studio);
    forall i | 0 <= i < |files| ensures RealPath(files[i].0) {
      FileIsReal(tree, listing, studio, i);
    }
    UnpackWritten(map[], Bundle(tree, listing, studio), files);
    FilesApart(tree, listing, studio);
    ExtractFresh(files);
    var t := ExtractAll(map[], files).0;
    forall q ensures At(t, q) == Expected(tree, studio, q) {
      assert LaidAt(t, files, q);
      LaidAsExpected(tree, listing, studio, t, q);
    }
  }

  // ---------- when the bundle validates ----------

  lemma {:induction false} NamedUnique(members: seq<Member>, i: nat)
    requires i < |members| && forall j :: i < j < |members| ==> members[j].name != members[i].name
    ensures Named(members, members[i].name) == Some(members[i])
  {
    var last := |members| - 1;
    if i < last {
      assert members[..last][i] == members[i];
      NamedUnique(members[..last], i);
    }
  }

  lemma NamesInjective(p: Path, q: Path)
    requires RealPath(p) && RealPath(q) && NameOf(p) == NameOf(q)
    ensures p == q
  {
    NameRoundTrip(p);
    NameRoundTrip(q);
  }

  lemma NamedInBundle(tree: Tree<Data>, listing: seq<Path>, studio: Studio, name: string)
    requires Complete(tree) && IsListing(tree, listing) && name in TOPS
    ensures Named(Bundle(tree, listing, studio), name) == Some(FileMember(name, TopData(tree, studio, name)))
  {
    var members, files, n := Bundle(tree, listing, studio), Files(tree, listing, studio), |ScriptFiles(tree, listing)|;
    BundleWritten(tree, listing, studio);
    var i := PlaceOfTop(name, n);
    PlaceOfTopName(name, n);
    TopAt(tree, listing, studio, i);
    TopIsReal(name);
    assert IsMemberOf(members[i], files[i]);
    forall j | i < j < |members| ensures members[j].name != name {
      assert IsMemberOf(members[j], files[j]);
      FilesDiffer(tree, listing, studio, i, j);
      FileIsReal(tree, listing, studio, i);
      FileIsReal(tree, listing, studio, j);
      if NameOf(files[j].0) == NameOf(files[i].0) {
        NamesInjective(files[j].0, files[i].0);
      }
    }
    NamedUnique(members, i);
  }

  ghost predicate PortablePath(p: Path) {
    forall k :: 0 <= k < |p| ==> PortableSegment(p[k])
  }

  /** Every script has a name without colons and without `..` between slashes of either kind. */
  ghost predicate PortableScripts(tree: Tree<Data>) {
    forall p :: p in tree && UnderScripts(p) && tree[p].File? ==> PortablePath(p)
  }

  lemma WrittenSafe(m: Member, f: (Path, Node<Data>))
    requires IsMemberOf(m, f) && RealPath(f.0) && f.0[0][0] != '\\'
    ensures SafeMember(m) <==> PortablePath(f.0)
  {
    SafeNameExactly(f.0);
  }

  lemma TopSafe(m: Member, f: (Path, Node<Data>), name: string)
    requires IsMemberOf(m, f) && f.0 == [name] && name in TOPS
    ensures SafeMember(m)
  {
    TopIsReal(name);
    WrittenSafe(m, f);
  }

  lemma ScriptStart(p: Path)
    requires UnderScripts(p)
    ensures p[0][0] != '\\'
  {
  }

  lemma SafeExactly(tree: Tree<Data>, listing: seq<Path>, studio: Studio, i: nat)
    requires Complete(tree) && IsListing(tree, listing) && i < |Bundle(tree, listing, studio)|
    ensures i < |Files(tree, listing, studio)|
    ensures SafeMember(Bundle(tree, listing, studio)[i]) <==>
            IsTopPlace(i, |ScriptFiles(tree, listing)|) || PortablePath(Files(tree, listing, studio)[i].0)
  {
    BundleWritten(tree, listing, studio);
    var m, f, n := Bundle(tree, listing, studio)[i], Files(tree, listing, studio)[i], |ScriptFiles(tree, listing)|;
    assert IsMemberOf(m, f);
    if IsTopPlace(i, n) {
      TopAt(tree, listing, studio, i);
      TopSafe(m, f, TopName(i, n));
    } else {
      FileIsReal(tree, listing, studio, i);
      ScriptAt(tree, listing, studio, i);
      ScriptStart(f.0);
      WrittenSafe(m, f);
    }
  }

  lemma AllSafeExactly(tree: Tree<Data>, listing: seq<Path>, studio: Studio)
    requires Complete(tree) && IsListing(tree, listing)
    ensures var members := Bundle(tree, listing, studio);
            AllSafe(members) <==> PortableScripts(tree)
  {
    var members, files, n := Bundle(tree, listing, studio), Files(tree, listing, studio), |ScriptFiles(tree, listing)|;
    BundleWritten(tree, listing, studio);
    forall i | 0 <= i < |members|
      ensures PortableScripts(tree) ==> SafeMember(members[i])
      ensures SafeMember(members[i]) ==> IsTopPlace(i, n) || PortablePath(files[i].0)
    {
      SafeExactly(tree, listing, studio, i);
      if !IsTopPlace(i, n) {
        ScriptAt(tree, listing, studio, i);
      }
    }
    if AllSafe(members) {
      forall p | p in tree && UnderScripts(p) && tree[p].File? ensures PortablePath(p) {
        var i := ScriptPlace(tree, listing, studio, p);
        PlaceLength(tree, listing, studio, i);
        assert SafeMember(members[i]);
      }
    }
  }

  lemma RequiredPresent(tree: Tree<Data>, listing: seq<Path>, studio: Studio, name: string)
    requires Complete(tree) && IsListing(tree, listing) && name in REQUIRED
    ensures HasRegular(Bundle(tree, listing, studio), name)
  {
    NamedInBundle(tree, listing, studio, name);
  }

  lemma AcceptableOnceComplete(members: seq<Member>, idOf: string -> Option<string>, catalog: set<string>, text: string)
    requires AllRequired(members) && TextOf(members, MANIFEST) == text
    ensures Acceptable(members, idOf, catalog) <==>
            AllSafe(members) && Size(members) <= MAX_BYTES && Known(idOf(text), catalog)
  {
  }

  /** A complete install's bundle validates exactly when its scripts are portable, it is not too large, and its
      stack is known here. */
  lemma ExportValidatesExactly(tree: Tree<Data>, listing: seq<Path>, studio: Studio,
                               idOf: string -> Option<string>, catalog: set<string>)
    requires Complete(tree) && IsListing(tree, listing)
    ensures var members := Bundle(tree, listing, studio);
            Validate(Tarball(members), idOf, catalog).Ok? <==>
            PortableScripts(tree) && Size(members) <= MAX_BYTES && Known(idOf(studio.manifest.text), catalog)
  {
    var members := Bundle(tree, listing, studio);
    forall name | name in REQUIRED ensures HasRegular(members, name) {
      RequiredPresent(tree, listing, studio, name);
    }
    ManifestText(tree, listing, studio);
    AllSafeExactly(tree, listing, studio);
    ValidateExactly(members, idOf, catalog);
    AcceptableOnceComplete(members, idOf, catalog, studio.manifest.text);
  }

  lemma NamedText(members: seq<Member>, name: string, d: Data)
    requires Named(members, name) == Some(FileMember(name, d))
    ensures TextOf(members, name) == d.text
  {
  }

  lemma ManifestText(tree: Tree<Data>, listing: seq<Path>, studio: Studio)
    requires Complete(tree) && IsListing(tree, listing)
    ensures TextOf(Bundle(tree, listing, studio), MANIFEST) == studio.manifest.text
  {
    NamedInBundle(tree, listing, studio, MANIFEST);
    NamedText(Bundle(tree, listing, studio), MANIFEST, studio.manifest);
  }

  lemma EnvTextOf(tree: Tree<Data>, listing: seq<Path>, studio: Studio)
    requires Complete(tree) && IsListing(tree, listing)
    ensures TextOf(Bundle(tree, listing, studio), ENV) == Scrub(ReadText(tree[[ENV]].content.text))
  {
    NamedInBundle(tree, listing, studio, ENV);
    NamedText(Bundle(tree, listing, studio), ENV, Scrubbed(tree[[ENV]].content));
  }

  lemma UnresolvedOfText(members: seq<Member>, id: string, text: string)
    requires TextOf(members, ENV) == Scrub(text)
    ensures PlanOf(members, id).unresolved == SecretKeys(SplitLines(text))
  {
    UnresolvedExactly(text);
  }

  lemma ImportOfUnpackable(disk: Disk, members: seq<Member>, allow: bool, idOf: string -> Option<string>,
                           catalog: set<string>)
    requires UnpackAll(map[], members).1
    ensures var v := Validate(Tarball(members), idOf, catalog);
            var (after, r) := Import(disk, Tarball(members), allow, idOf, catalog);
            && (r.Ok? <==> v.Ok? && (v.value.unresolved == [] || allow) && (disk.Nothing? || disk == Folder(map[])))
            && (r.Ok? ==> r.value == v.value && after == Folder(UnpackAll(map[], members).0))
            && (r.Err? ==> after == disk)
  {
    CheckedOfUnpackable(disk, members, allow, Validate(Tarball(members), idOf, catalog));
  }

  lemma CheckedOfUnpackable(disk: Disk, members: seq<Member>, allow: bool, v: Result<Plan, ImportError>)
    requires UnpackAll(map[], members).1
    ensures var (after, r) := ImportChecked(disk, Tarball(members), allow, v);
            && (r.Ok? <==> v.Ok? && (v.value.unresolved == [] || allow) && (disk.Nothing? || disk == Folder(map[])))
            && (r.Ok? ==> r.value == v.value && after == Folder(UnpackAll(map[], members).0))
            && (r.Err? ==> after == disk)
  {
  }

  /** The plan's secrets, and the exact condition for a bundle of a complete install to validate. */
  lemma ExportPlan(tree: Tree<Data>, listing: seq<Path>, studio: Studio, idOf: string -> Option<string>,
                   catalog: set<string>)
    requires Complete(tree) && IsListing(tree, listing)
    ensures var v := Validate(Tarball(Bundle(tree, listing, studio)), idOf, catalog);
            v.Ok? ==> v.value.unresolved == SecretKeys(SplitLines(ReadText(tree[[ENV]].content.text)))
                      && Some(v.value.stackId) == idOf(studio.manifest.text)
  {
    var members := Bundle(tree, listing, studio);
    ValidateExactly(members, idOf, catalog);
    ManifestText(tree, listing, studio);
    EnvTextOf(tree, listing, studio);
    if Validate(Tarball(members), idOf, catalog).Ok? {
      UnresolvedOfText(members, idOf(TextOf(members, MANIFEST)).value, ReadText(tree[[ENV]].content.text));
    }
  }

  /** The lake, project and environment names reach the import exactly when the lines deciding them are not masked. */
  lemma ExportKeepsMetadata(tree: Tree<Data>, listing: seq<Path>, studio: Studio, id: string)
    requires Complete(tree) && IsListing(tree, listing)
    ensures var plan, lines := PlanOf(Bundle(tree, listing, studio), id),
            SplitLines(ReadText(tree[[ENV]].content.text));
            && (plan.lake == FieldValue(lines, LAKE) <==> !DecidingLineMasked(lines, LAKE))
            && (plan.project == FieldValue(lines, PROJECT) <==> !DecidingLineMasked(lines, PROJECT))
            && (plan.environment == FieldValue(lines, ENVIRONMENT) <==> !DecidingLineMasked(lines, ENVIRONMENT))
  {
    EnvTextOf(tree, listing, studio);
    MetadataOfText(Bundle(tree, listing, studio), id, ReadText(tree[[ENV]].content.text));
  }

  lemma MetadataOfText(members: seq<Member>, id: string, text: string)
    requires TextOf(members, ENV) == Scrub(text)
    ensures var plan, lines := PlanOf(members, id), SplitLines(text);
            && (plan.lake == FieldValue(lines, LAKE) <==> !DecidingLineMasked(lines, LAKE))
            && (plan.project == FieldValue(lines, PROJECT) <==> !DecidingLineMasked(lines, PROJECT))
            && (plan.environment == FieldValue(lines, ENVIRONMENT) <==> !DecidingLineMasked(lines, ENVIRONMENT))
  {
    MetadataSurvivesExactly(text, LAKE);
    MetadataSurvivesExactly(text, PROJECT);
    MetadataSurvivesExactly(text, ENVIRONMENT);
  }

  /** Export then import: it succeeds exactly under these conditions, and then the target holds the exported files
      with the .env masked, and the plan lists the secrets that lost their values. */
  lemma ExportRoundTrip(tree: Tree<Data>, listing: seq<Path>, studio: Studio, disk: Disk, allow: bool,
                        idOf: string -> Option<string>, catalog: set<string>)
    requires Complete(tree) && IsListing(tree, listing)
    ensures var members := Bundle(tree, listing, studio);
            var secrets := SecretKeys(SplitLines(ReadText(tree[[ENV]].content.text)));
            var (after, r) := Import(disk, Tarball(members), allow, idOf, catalog);
            && (r.Ok? <==>
                  && PortableScripts(tree) && Size(members) <= MAX_BYTES && Known(idOf(studio.manifest.text), catalog)
                  && (secrets == [] || allow)
                  && (disk.Nothing? || disk == Folder(map[])))
            && (r.Ok? ==>
                  && r.value.unresolved == secrets
                  && after.Folder? && forall q :: At(after.tree, q) == Expected(tree, studio, q))
            && (r.Err? ==> after == disk)
  {
    BundleUnpacks(tree, listing, studio);
    ImportOfUnpackable(disk, Bundle(tree, listing, studio), allow, idOf, catalog);
    ExportValidatesExactly(tree, listing, studio, idOf, catalog);
    ExportPlan(tree, listing, studio, idOf, catalog);
  }
}
