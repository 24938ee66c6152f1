/** What an import reports, said of the upload and the target alone: the plan, and what each refusal means. */
module ImportReports {
  import opened Wrappers
  import opened Collections
  import opened Trees
  import opened MemberNames
  import opened EnvText
  import opened GitOps
  import opened Bundles

  // ---------- the members of an upload ----------

  /** The k-th member is the one read for its name: the last of that name. */
  predicate ReadAt(members: seq<Member>, k: nat, name: string)
    requires k < |members|
  {
    members[k].name == name && forall j :: k < j < |members| ==> members[j].name != name
  }

  lemma {:induction false} NamedExactly(members: seq<Member>, name: string)
    ensures match Named(members, name)
            case None => forall k :: 0 <= k < |members| ==> members[k].name != name
            case Some(m) => exists k :: 0 <= k < |members| && ReadAt(members, k, name) && members[k] == m
  {
    if members != [] {
      var init, last := members[..|members| - 1], members[|members| - 1];
      if last.name == name {
        assert ReadAt(members, |members| - 1, name);
      } else {
        NamedExactly(init, name);
        assert forall k :: 0 <= k < |init| ==> init[k] == members[k];
        if Named(init, name).Some? {
          var k :| 0 <= k < |init| && ReadAt(init, k, name) && init[k] == Named(init, name).value;
          assert ReadAt(members, k, name);
        }
      }
    }
  }

  ghost predicate ReadsRegular(members: seq<Member>, name: string) {
    exists k :: 0 <= k < |members| && ReadAt(members, k, name) && members[k].kind.Regular?
  }

  lemma HasRegularExactly(members: seq<Member>, name: string)
    ensures HasRegular(members, name) <==> ReadsRegular(members, name)
  {
    NamedExactly(members, name);
  }

  lemma {:induction false} SizeAdds(a: seq<Member>, b: seq<Member>)
    ensures Size(a + b) == Size(a) + Size(b)
    ensures b != [] ==> Size([b[0]]) == b[0].size
  {
    if b == [] {
      assert a + b == a;
    } else {
      SizeAdds(a, b[..|b| - 1]);
      assert (a + b)[..|a + b| - 1] == a + b[..|b| - 1];
      assert [b[0]][..0] == [];
    }
  }

  /** An upload is acceptable exactly when its names are safe and it has no links or devices, its members add up to at
      most two gibibytes, the five files it must have are regular, and its manifest names a stack known here. */
  lemma AcceptableExactly(members: seq<Member>, idOf: string -> Option<string>, catalog: set<string>)
    ensures Acceptable(members, idOf, catalog) <==>
            && (forall i :: 0 <= i < |members| ==>
                  SafeName(members[i].name) && (members[i].kind.Regular? || members[i].kind.Directory?))
            && Size(members) <= 2147483648
            && ReadsRegular(members, "docker-compose.yml") && ReadsRegular(members, ".env")
            && ReadsRegular(members, "stack-manifest.yaml") && ReadsRegular(members, "stack-lock.yaml")
            && ReadsRegular(members, "README.md")
            && Known(idOf(TextOf(members, "stack-manifest.yaml")), catalog)
  {
    RequiredExactly(members);
    SafeMembers(members);
    TopNames();
  }

  lemma RequiredExactly(members: seq<Member>)
    ensures AllRequired(members) <==>
            && ReadsRegular(members, "docker-compose.yml") && ReadsRegular(members, ".env")
            && ReadsRegular(members, "stack-manifest.yaml") && ReadsRegular(members, "stack-lock.yaml")
            && ReadsRegular(members, "README.md")
  {
    TopNames();
    HasRegularExactly(members, COMPOSE);
    HasRegularExactly(members, ENV);
    HasRegularExactly(members, MANIFEST);
    HasRegularExactly(members, LOCK);
    HasRegularExactly(members, README);
    FiveRequired();
  }

  lemma FiveRequired()
    ensures REQUIRED == [COMPOSE, ENV, MANIFEST, LOCK, README]
    ensures forall name :: name in REQUIRED <==> name in {COMPOSE, ENV, MANIFEST, LOCK, README}
  {
  }

  lemma SafeMembers(members: seq<Member>)
    ensures AllSafe(members) <==>
            forall i :: 0 <= i < |members| ==>
              SafeName(members[i].name) && (members[i].kind.Regular? || members[i].kind.Directory?)
  {
    forall i | 0 <= i < |members|
      ensures SafeMember(members[i]) <==>
              SafeName(members[i].name) && (members[i].kind.Regular? || members[i].kind.Directory?)
    {
    }
  }

  // ---------- the plan ----------

  predicate InScripts(name: string) {
    name == "scripts" || (|name| > 7 && name[..7] == "scripts" && name[7] == '/')
  }

  /** The plan lists the names in order, says whether anything lies in scripts, adds up the sizes, and has the fields
      and the placeholders of the .env text. */
  lemma PlanExactly(members: seq<Member>, id: string)
    ensures var plan, lines := PlanOf(members, id), SplitLines(TextOf(members, ".env"));
            && plan.stackId == id
            && |plan.inventory| == |members|
            && (forall i :: 0 <= i < |members| ==> plan.inventory[i] == members[i].name)
            && (plan.hasScripts <==> exists i :: 0 <= i < |members| && InScripts(members[i].name))
            && plan.bytes == Size(members)
            && plan.lake == FieldValue(lines, {"LAKE_NAME", "LHS_LAKE_NAME"})
            && plan.project == FieldValue(lines, {"UDP_PROJECT_NAME"})
            && plan.environment == FieldValue(lines, {"UDP_ENV"})
            && plan.unresolved == Unresolved(lines)
  {
    forall name ensures IsScript(name) <==> InScripts(name) {
      ScriptName(name);
    }
  }

  lemma ScriptName(name: string)
    ensures IsScript(name) <==> InScripts(name)
  {
    assert SCRIPTS == "scripts" && |SCRIPTS| == 7;
  }

  // ---------- the refusals ----------

  /** What a refusal of an upload means. */
  ghost predicate RefusedFor(e: ImportError, members: seq<Member>, idOf: string -> Option<string>,
                             catalog: set<string>)
  {
    match e
    case UnsafeMember(name) => exists i :: 0 <= i < |members| && members[i].name == name && !SafeMember(members[i])
    case TooLarge => Size(members) > 2147483648
    case MissingMembers(names) =>
      names != [] && forall name :: name in names <==>
        name in REQUIRED && forall k :: 0 <= k < |members| ==> members[k].name != name
    case NotRegular(name) =>
      name in REQUIRED && exists k :: 0 <= k < |members| && ReadAt(members, k, name) && !members[k].kind.Regular?
    case BadManifest => var id := idOf(TextOf(members, MANIFEST)); id.None? || id.value == ""
    case UnknownStack(id) => idOf(TextOf(members, MANIFEST)) == Some(id) && id != "" && id !in catalog
    case _ => false
  }

  lemma {:induction false} ScanMeans(members: seq<Member>)
    requires Scan(members).Some?
    ensures Scan(members).value.UnsafeMember? || Scan(members).value == TooLarge
    ensures Scan(members).value.UnsafeMember? ==>
              exists i :: 0 <= i < |members| && members[i].name == Scan(members).value.name && !SafeMember(members[i])
    ensures Scan(members).value == TooLarge ==> Size(members) > 2147483648
  {
    var init, last := members[..|members| - 1], members[|members| - 1];
    if Scan(init).Some? {
      ScanMeans(init);
      if Scan(init).value.UnsafeMember? {
        var i :| 0 <= i < |init| && init[i].name == Scan(init).value.name && !SafeMember(init[i]);
        assert members[i] == init[i];
      }
    }
  }

  lemma {:induction false} MissingMeans(members: seq<Member>, required: seq<string>, name: string)
    ensures name in Missing(members, required) <==> name in required && Named(members, name).None?
  {
    if required != [] {
      MissingMeans(members, required[..|required| - 1], name);
      MembersOfSnoc(required);
    }
  }

  lemma {:induction false} NotRegularMeans(members: seq<Member>, required: seq<string>)
    requires FirstNotRegular(members, required).Some?
    ensures var name := FirstNotRegular(members, required).value;
            name in required && Named(members, name).Some? && !Named(members, name).value.kind.Regular?
  {
    var init := required[..|required| - 1];
    if FirstNotRegular(members, init).Some? {
      NotRegularMeans(members, init);
      MembersOfSnoc(required);
    }
  }

  lemma MissingRefusal(members: seq<Member>, idOf: string -> Option<string>, catalog: set<string>)
    requires Missing(members, REQUIRED) != []
    ensures RefusedFor(MissingMembers(Missing(members, REQUIRED)), members, idOf, catalog)
  {
    forall name
      ensures name in Missing(members, REQUIRED) <==>
              name in REQUIRED && forall k :: 0 <= k < |members| ==> members[k].name != name
    {
      MissingMeans(members, REQUIRED, name);
      NamedExactly(members, name);
    }
  }

  lemma NotRegularRefusal(members: seq<Member>, idOf: string -> Option<string>, catalog: set<string>)
    requires FirstNotRegular(members, REQUIRED).Some?
    ensures RefusedFor(NotRegular(FirstNotRegular(members, REQUIRED).value), members, idOf, catalog)
  {
    NotRegularMeans(members, REQUIRED);
    NamedExactly(members, FirstNotRegular(members, REQUIRED).value);
  }

  /** Whatever a validation reports against a tarball is true of it. */
  lemma ValidationMeans(members: seq<Member>, idOf: string -> Option<string>, catalog: set<string>)
    requires Validate(Tarball(members), idOf, catalog).Err?
    ensures RefusedFor(Validate(Tarball(members), idOf, catalog).error, members, idOf, catalog)
  {
    if Scan(members).Some? {
      ScanMeans(members);
    } else if Missing(members, REQUIRED) != [] {
      MissingRefusal(members, idOf, catalog);
    } else if FirstNotRegular(members, REQUIRED).Some? {
      NotRegularRefusal(members, idOf, catalog);
    }
  }

  /** What the import adds: placeholders without the flag, and a target that is a link, a file or not empty. */
  lemma ImportMeans(disk: Disk, members: seq<Member>, allow: bool, idOf: string -> Option<string>,
                    catalog: set<string>)
    requires Import(disk, Tarball(members), allow, idOf, catalog).1.Err?
    ensures var e := Import(disk, Tarball(members), allow, idOf, catalog).1.error;
            match e
            case StillPlaceholders(keys) =>
              !allow && keys != [] && keys == Unresolved(SplitLines(TextOf(members, ".env")))
            case TargetIsALink => disk.Symlink?
            case TargetIsNotADirectory => disk.PlainFile?
            case TargetIsNotEmpty => disk.Folder? && disk.tree != map[]
            case ExtractionFailed => !UnpackAll(map[], members).1 && (disk.Nothing? || disk == Folder(map[]))
            case _ => RefusedFor(e, members, idOf, catalog)
  {
    if Validate(Tarball(members), idOf, catalog).Err? {
      ValidationMeans(members, idOf, catalog);
    } else {
      ValidateExactly(members, idOf, catalog);
    }
  }

  // ---------- the files of a bundle by name ----------

  /** Unpacked, a bundle has the compose file as it was, the .env masked, and the manifest, the lock and the README. */
  lemma BundleFiles(tree: Tree<Data>, listing: seq<Path>, studio: Studio)
    requires Complete(tree) && IsListing(tree, listing)
    ensures ["docker-compose.yml"] in tree && [".env"] in tree && tree[[".env"]].File?
    ensures var t := UnpackAll(map[], Bundle(tree, listing, studio)).0;
            && At(t, ["docker-compose.yml"]) == Some(tree[["docker-compose.yml"]])
            && At(t, [".env"]) == Some(File(Data(Scrub(ReadText(tree[[".env"]].content.text)),
                                                 Utf8Size(Scrub(ReadText(tree[[".env"]].content.text))))))
            && At(t, ["stack-manifest.yaml"]) == Some(File(studio.manifest))
            && At(t, ["stack-lock.yaml"]) == Some(File(studio.lock))
            && At(t, ["README.md"]) == Some(File(studio.readme))
            && forall q :: q in tree && |q| > 1 && q[0] == "scripts" && tree[q].File? ==> At(t, q) == Some(tree[q])
  {
    BundleUnpacks(tree, listing, studio);
    TopsDiffer();
    var t := UnpackAll(map[], Bundle(tree, listing, studio)).0;
    forall name | name in TOPS ensures At(t, [name]) == Some(File(TopData(tree, studio, name))) {
      assert [name][0] == name;
    }
    TopNames();
    forall q | q in tree && |q| > 1 && q[0] == "scripts" && tree[q].File? ensures At(t, q) == Some(tree[q]) {
      assert UnderScripts(q);
    }
  }

  lemma TopNames()
    ensures COMPOSE == "docker-compose.yml" && ENV == ".env" && MANIFEST == "stack-manifest.yaml"
    ensures LOCK == "stack-lock.yaml" && README == "README.md" && SCRIPTS == "scripts"
  {
  }
}
