/** Exporting an install as a bundle (backend/gitops_export.py) and importing a bundle as a new
    install directory (backend/gitops_import.py). */
module GitOps {
  import opened Wrappers
  import opened Collections
  import opened Trees
  import opened MemberNames
  import opened EnvText

  /** A file's decoded text and its size in bytes. */
  datatype Data = Data(text: string, size: nat)

  datatype Kind = Regular(text: string) | Directory | Link | Device

  datatype Member = Member(name: string, size: nat, kind: Kind)

  const COMPOSE: string := "docker-compose.yml"
  const ENV: string := ".env"
  const SCRIPTS: string := "scripts"
  const MANIFEST: string := "stack-manifest.yaml"
  const LOCK: string := "stack-lock.yaml"
  const README: string := "README.md"

  // ---------- export ----------

  function CharSize(c: char): nat {
    if c < '\U{80}' then 1 else if c < '\U{800}' then 2 else if c < '\U{10000}' then 3 else 4
  }

  function Utf8Size(s: string): nat {
    if s == "" then 0 else CharSize(s[0]) + Utf8Size(s[1..])
  }

  /** The size of a text adds up, and is its length exactly when every character is ASCII. */
  lemma {:induction false} SizeAdds(a: string, b: string)
    ensures Utf8Size(a + b) == Utf8Size(a) + Utf8Size(b)
  {
    if a == "" {
      assert a + b == b;
    } else {
      assert (a + b)[1..] == a[1..] + b;
      SizeAdds(a[1..], b);
    }
  }

  lemma {:induction false} SizeExactly(s: string)
    ensures |s| <= Utf8Size(s) <= 4 * |s|
    ensures Utf8Size(s) == |s| <==> forall c :: c in s ==> c < '\U{80}'
  {
    if s != "" {
      SizeExactly(s[1..]);
      assert s == [s[0]] + s[1..];
      assert s[0] in s && forall c :: c in s[1..] ==> c in s;
      assert CharSize(s[0]) == 1 <==> s[0] < '\U{80}';
    }
  }

  /** One character takes as many bytes as its code point needs at 7, 11, 16 and 21 bits. */
  lemma CharSizeExactly(c: char)
    ensures var code := c as int;
            Utf8Size([c]) == if code < 128 then 1 else if code < 2048 then 2 else if code < 65536 then 3 else 4
  {
    assert [c][1..] == "";
  }

  /** Reading in text mode turns every line end into a newline. */
  function ReadText(raw: string): string {
    if raw == "" then ""
    else if raw[0] == '\r' then "\n" + ReadText(raw[if |raw| > 1 && raw[1] == '\n' then 2 else 1..])
    else [raw[0]] + ReadText(raw[1..])
  }

  lemma {:induction false} ReadTextPrefix(line: string, rest: string)
    requires '\r' !in line
    ensures ReadText(line + rest) == line + ReadText(rest)
  {
    if line == "" {
      assert line + rest == rest;
    } else {
      assert (line + rest)[0] == line[0] && line[0] in line;
      assert (line + rest)[1..] == line[1..] + rest;
      ReadTextPrefix(line[1..], rest);
      assert line == [line[0]] + line[1..];
    }
  }

  lemma ReadTextBreaks(rest: string)
    ensures ReadText("\r\n" + rest) == "\n" + ReadText(rest)
    ensures rest == "" || rest[0] != '\n' ==> ReadText("\r" + rest) == "\n" + ReadText(rest)
  {
    var crlf, cr := "\r\n" + rest, "\r" + rest;
    assert crlf[0] == '\r' && crlf[1] == '\n' && crlf[2..] == rest;
    assert cr[0] == '\r' && cr[1..] == rest && (rest != "" ==> cr[1] == rest[0]);
  }

  lemma ReadTextPlain(line: string)
    requires '\r' !in line
    ensures ReadText(line) == line
  {
    ReadTextPrefix(line, "");
    assert line + "" == line && ReadText("") == "";
  }

  /** Text without a carriage return reads as it is; a carriage return, with the newline after it if there is one,
      reads as a newline. */
  lemma ReadTextExactly(line: string, rest: string)
    requires '\r' !in line
    ensures ReadText(line) == line
    ensures ReadText(line + ("\r\n" + rest)) == line + ("\n" + ReadText(rest))
    ensures rest == "" || rest[0] != '\n' ==> ReadText(line + ("\r" + rest)) == line + ("\n" + ReadText(rest))
  {
    ReadTextPlain(line);
    ReadTextPrefix(line, "\r\n" + rest);
    ReadTextPrefix(line, "\r" + rest);
    ReadTextBreaks(rest);
  }

  function Scrubbed(env: Data): Data {
    var text := Scrub(ReadText(env.text));
    Data(text, Utf8Size(text))
  }

  function FileMember(name: string, d: Data): Member {
    Member(name, d.size, Regular(d.text))
  }

  function TopMember(name: string, node: Node<Data>): Member {
    if node.File? then FileMember(name, node.content) else Member(name, 0, Directory)
  }

  function ScriptMembers(tree: Tree<Data>, listing: seq<Path>): seq<Member>
    requires forall p :: p in listing ==> p in tree
  {
    if listing == [] then []
    else
      var p := listing[|listing| - 1];
      ScriptMembers(tree, listing[..|listing| - 1])
      + if tree[p].File? then [FileMember(NameOf(p), tree[p].content)] else []
  }

  function Optional(name: string, d: Option<Data>): seq<Member> {
    if d.Some? then [FileMember(name, d.value)] else []
  }

  function TopMembers(tree: Tree<Data>): seq<Member>
    requires [ENV] in tree ==> tree[[ENV]].File?
  {
    (if [COMPOSE] in tree then [TopMember(COMPOSE, tree[[COMPOSE]])] else [])
    + if [ENV] in tree then [FileMember(ENV, Scrubbed(tree[[ENV]].content))] else []
  }

  function StudioMembers(manifest: Option<Data>, lock: Option<Data>, readme: Data): seq<Member> {
    Optional(MANIFEST, manifest) + Optional(LOCK, lock) + [FileMember(README, readme)]
  }

  /** The whole bundle; None when the .env cannot be read because it is a directory. */
  function Exported(tree: Tree<Data>, listing: seq<Path>, manifest: Option<Data>, lock: Option<Data>, readme: Data)
      : Option<seq<Member>>
    requires forall p :: p in listing ==> p in tree
  {
    if [ENV] in tree && tree[[ENV]].Dir? then None
    else Some(TopMembers(tree) + ScriptMembers(tree, listing) + StudioMembers(manifest, lock, readme))
  }

  /** The recursive listing names everything below the scripts directory once, in no particular order. */
  ghost predicate IsListing(tree: Tree<Data>, listing: seq<Path>) {
    (forall p :: p in listing <==> p in tree && UnderScripts(p)) && Distinct(listing)
  }

  predicate UnderScripts(p: Path) {
    |p| > 1 && p[0] == SCRIPTS
  }

  method AddTopMembers(tree: Tree<Data>) returns (members: seq<Member>)
    requires [ENV] in tree ==> tree[[ENV]].File?
    ensures members == TopMembers(tree)
  {
    members := [];
    if [COMPOSE] in tree {
      members := [TopMember(COMPOSE, tree[[COMPOSE]])];
    }
    if [ENV] in tree {
      var text := ReadText(tree[[ENV]].content.text);
      var scrubbed := ScrubEnv(text);
      members := members + [FileMember(ENV, Data(scrubbed, Utf8Size(scrubbed)))];
    }
  }

  method AddStudioMembers(bundled: seq<Member>, manifest: Option<Data>, lock: Option<Data>, readme: Data)
      returns (members: seq<Member>)
    ensures members == bundled + StudioMembers(manifest, lock, readme)
  {
    members := bundled;
    if manifest.Some? {
      members := members + [FileMember(MANIFEST, manifest.value)];
    }
    assert members == bundled + Optional(MANIFEST, manifest);
    if lock.Some? {
      members := members + [FileMember(LOCK, lock.value)];
    }
    assert members == bundled + (Optional(MANIFEST, manifest) + Optional(LOCK, lock));
    members := members + [FileMember(README, readme)];
  }

  method BuildExport(tree: Tree<Data>, listing: seq<Path>, manifest: Option<Data>, lock: Option<Data>, readme: Data)
      returns (bundle: Option<seq<Member>>)
    requires forall p :: p in listing ==> p in tree
    ensures bundle == Exported(tree, listing, manifest, lock, readme)
  {
    if [ENV] in tree && tree[[ENV]].Dir? {
      return None;
    }
    var top := AddTopMembers(tree);
    var scripts: seq<Member> := [];
    for i := 0 to |listing|
      invariant scripts == ScriptMembers(tree, listing[..i])
    {
      assert listing[..i + 1][..i] == listing[..i];
      var p := listing[i];
      if tree[p].File? {
        scripts := scripts + [FileMember(NameOf(p), tree[p].content)];
      }
    }
    assert listing[..|listing|] == listing;
    var members := AddStudioMembers(top + scripts, manifest, lock, readme);
    bundle := Some(members);
  }

  // ---------- import: validation ----------

  const REQUIRED: seq<string> := [COMPOSE, ENV, MANIFEST, LOCK, README]

  const MAX_BYTES: nat := 2 * 1024 * 1024 * 1024

  datatype Upload = EmptyUpload | NotATarball | Tarball(members: seq<Member>)

  datatype ImportError =
    | UploadIsEmpty | UploadIsNotATarball | UnsafeMember(name: string) | TooLarge | MissingMembers(names: seq<string>)
    | NotRegular(name: string) | BadManifest | UnknownStack(id: string) | StillPlaceholders(keys: seq<string>)
    | TargetIsALink | TargetIsNotADirectory | TargetIsNotEmpty | ExtractionFailed

  datatype Plan = Plan(
    stackId: string, lake: Option<string>, project: Option<string>, environment: Option<string>,
    inventory: seq<string>, unresolved: seq<string>, hasScripts: bool, bytes: nat)

  predicate SafeMember(m: Member) {
    SafeName(m.name) && (m.kind.Regular? || m.kind.Directory?)
  }

  function Size(members: seq<Member>): nat {
    if members == [] then 0 else Size(members[..|members| - 1]) + members[|members| - 1].size
  }

  /** The first member that stops the scan, unsafe or one too many bytes. */
  function Scan(members: seq<Member>): Option<ImportError> {
    if members == [] then None
    else
      var before, m := Scan(members[..|members| - 1]), members[|members| - 1];
      if before.Some? then before
      else if !SafeMember(m) then Some(UnsafeMember(m.name))
      else if Size(members) > MAX_BYTES then Some(TooLarge)
      else None
  }

  function Names(members: seq<Member>): (names: seq<string>)
    ensures |names| == |members|
  {
    seq(|members|, i requires 0 <= i < |members| => members[i].name)
  }

  predicate IsScript(name: string) {
    name == SCRIPTS || (|name| > |SCRIPTS| && name[..|SCRIPTS|] == SCRIPTS && name[|SCRIPTS|] == '/')
  }

  predicate HasScripts(members: seq<Member>) {
    exists i :: 0 <= i < |members| && IsScript(members[i].name)
  }

  /** The last member of a name, which is the one an archive reader hands out. */
  function Named(members: seq<Member>, name: string): Option<Member> {
    if members == [] then None
    else
      var m := members[|members| - 1];
      if m.name == name then Some(m) else Named(members[..|members| - 1], name)
  }

  function Missing(members: seq<Member>, required: seq<string>): seq<string> {
    if required == [] then []
    else
      var name := required[|required| - 1];
      Missing(members, required[..|required| - 1]) + if Named(members, name).None? then [name] else []
  }

  function FirstNotRegular(members: seq<Member>, required: seq<string>): Option<string> {
    if required == [] then None
    else
      var before, name := FirstNotRegular(members, required[..|required| - 1]), required[|required| - 1];
      if before.Some? then before
      else if Named(members, name).Some? && !Named(members, name).value.kind.Regular? then Some(name)
      else None
  }

  function TextOf(members: seq<Member>, name: string): string {
    var m := Named(members, name);
    if m.Some? && m.value.kind.Regular? then m.value.kind.text else ""
  }

  function PlanOf(members: seq<Member>, id: string): Plan {
    var lines := SplitLines(TextOf(members, ENV));
    Plan(id, FieldValue(lines, LAKE), FieldValue(lines, PROJECT), FieldValue(lines, ENVIRONMENT),
         Names(members), Unresolved(lines), HasScripts(members), Size(members))
  }

  /** `idOf` is the id string a manifest text parses to, if it is a mapping with one; `catalog` the ids known here. */
  function Validate(upload: Upload, idOf: string -> Option<string>, catalog: set<string>): Result<Plan, ImportError> {
    match upload
    case EmptyUpload => Err(UploadIsEmpty)
    case NotATarball => Err(UploadIsNotATarball)
    case Tarball(members) =>
      var id := idOf(TextOf(members, MANIFEST));
      if Scan(members).Some? then Err(Scan(members).value)
      else if Missing(members, REQUIRED) != [] then Err(MissingMembers(Missing(members, REQUIRED)))
      else if FirstNotRegular(members, REQUIRED).Some? then Err(NotRegular(FirstNotRegular(members, REQUIRED).value))
      else if id.None? || id.value == "" then Err(BadManifest)
      else if id.value !in catalog then Err(UnknownStack(id.value))
      else Ok(PlanOf(members, id.value))
  }

  lemma {:induction false} ScanStops(members: seq<Member>, n: nat)
    requires n <= |members| && Scan(members[..n]).Some?
    ensures Scan(members) == Scan(members[..n])
  {
    if n == |members| {
      assert members[..n] == members;
    } else {
      assert members[..|members| - 1][..n] == members[..n];
      ScanStops(members[..|members| - 1], n);
    }
  }

  lemma ScanOneMore(members: seq<Member>, n: nat)
    requires n < |members|
    ensures Scan(members[..n + 1]) ==
            if Scan(members[..n]).Some? then Scan(members[..n])
            else if !SafeMember(members[n]) then Some(UnsafeMember(members[n].name))
            else if Size(members[..n + 1]) > MAX_BYTES then Some(TooLarge)
            else None
    ensures Size(members[..n + 1]) == Size(members[..n]) + members[n].size
    ensures HasScripts(members[..n + 1]) <==> HasScripts(members[..n]) || IsScript(members[n].name)
    ensures Names(members[..n + 1]) == Names(members[..n]) + [members[n].name]
  {
    var next := members[..n + 1];
    assert next[..n] == members[..n] && next[n] == members[n];
    forall i | 0 <= i < n ensures members[..n][i] == next[i] {}
  }

  method ValidateTarball(upload: Upload, idOf: string -> Option<string>, catalog: set<string>)
      returns (r: Result<Plan, ImportError>)
    ensures r == Validate(upload, idOf, catalog)
  {
    match upload
    case EmptyUpload => return Err(UploadIsEmpty);
    case NotATarball => return Err(UploadIsNotATarball);
    case Tarball(members) =>
      var inventory: seq<string>, bytes, hasScripts := [], 0, false;
      for i := 0 to |members|
        invariant Scan(members[..i]).None? && bytes == Size(members[..i])
        invariant inventory == Names(members[..i]) && hasScripts == HasScripts(members[..i])
      {
        ScanOneMore(members, i);
        var m := members[i];
        if !SafeMember(m) {
          ScanStops(members, i + 1);
          return Err(UnsafeMember(m.name));
        }
        inventory := inventory + [m.name];
        bytes := bytes + m.size;
        if bytes > MAX_BYTES {
          ScanStops(members, i + 1);
          return Err(TooLarge);
        }
        if IsScript(m.name) {
          hasScripts := true;
        }
      }
      assert members[..|members|] == members;
      var problem := CheckRequired(members);
      if problem.Some? {
        return Err(problem.value);
      }
      var id := idOf(TextOf(members, MANIFEST));
      if id.None? || id.value == "" {
        return Err(BadManifest);
      }
      if id.value !in catalog {
        return Err(UnknownStack(id.value));
      }
      var lake, project, environment, unresolved := ExtractEnvMetadata(TextOf(members, ENV));
      r := Ok(Plan(id.value, lake, project, environment, inventory, unresolved, hasScripts, bytes));
  }

  lemma {:induction false} NotRegularStays(members: seq<Member>, required: seq<string>, n: nat)
    requires n <= |required| && FirstNotRegular(members, required[..n]).Some?
    ensures FirstNotRegular(members, required) == FirstNotRegular(members, required[..n])
  {
    if n == |required| {
      assert required[..n] == required;
    } else {
      assert required[..|required| - 1][..n] == required[..n];
      NotRegularStays(members, required[..|required| - 1], n);
    }
  }

  method CheckRequired(members: seq<Member>) returns (problem: Option<ImportError>)
    ensures problem ==
            if Missing(members, REQUIRED) != [] then Some(MissingMembers(Missing(members, REQUIRED)))
            else if FirstNotRegular(members, REQUIRED).Some?
            then Some(NotRegular(FirstNotRegular(members, REQUIRED).value))
            else None
  {
    var required := REQUIRED;
    var missing: seq<string> := [];
    for i := 0 to |required|
      invariant missing == Missing(members, required[..i])
    {
      assert required[..i + 1][..i] == required[..i];
      if Named(members, required[i]).None? {
        missing := missing + [required[i]];
      }
    }
    assert required[..|required|] == required;
    if missing != [] {
      return Some(MissingMembers(missing));
    }
    for i := 0 to |required|
      invariant FirstNotRegular(members, required[..i]).None?
    {
      assert required[..i + 1][..i] == required[..i];
      var m := Named(members, required[i]);
      if m.Some? && !m.value.kind.Regular? {
        NotRegularStays(members, required, i + 1);
        return Some(NotRegular(required[i]));
      }
    }
    problem := None;
  }

  // ---------- import: extraction ----------

  function NodeOf(m: Member): Node<Data> {
    if m.kind.Regular? then File(Data(m.kind.text, m.size)) else Dir
  }

  function Unpack(tree: Tree<Data>, m: Member): Option<Tree<Data>> {
    var path := Components(m.name, SLASH);
    if path != [] then Extract(tree, path, NodeOf(m))
    else if m.kind.Directory? then Some(tree)
    else None
  }

  /** Members unpacked in order; on a failure the tree stays as the members before it left it. */
  function UnpackAll(tree: Tree<Data>, members: seq<Member>): (Tree<Data>, bool) {
    if members == [] then (tree, true)
    else
      var (before, ok) := UnpackAll(tree, members[..|members| - 1]);
      if !ok then (before, false)
      else
        var after := Unpack(before, members[|members| - 1]);
        if after.None? then (before, false) else (after.value, true)
  }

  lemma {:induction false} UnpackingStops(tree: Tree<Data>, members: seq<Member>, n: nat)
    requires n <= |members| && !UnpackAll(tree, members[..n]).1
    ensures UnpackAll(tree, members) == UnpackAll(tree, members[..n])
  {
    if n == |members| {
      assert members[..n] == members;
    } else {
      assert members[..|members| - 1][..n] == members[..n];
      UnpackingStops(tree, members[..|members| - 1], n);
    }
  }

  datatype Disk = Nothing | Symlink | PlainFile | Folder(tree: Tree<Data>)

  /** What an import makes of the target, and what it reports. */
  function Import(disk: Disk, upload: Upload, allowPlaceholders: bool, idOf: string -> Option<string>,
                  catalog: set<string>)
      : (Disk, Result<Plan, ImportError>)
  {
    ImportChecked(disk, upload, allowPlaceholders, Validate(upload, idOf, catalog))
  }

  /** The same, given what validation says of the upload. */
  function ImportChecked(disk: Disk, upload: Upload, allowPlaceholders: bool, v: Result<Plan, ImportError>)
      : (Disk, Result<Plan, ImportError>)
  {
    if v.Err? then (disk, Err(v.error))
    else if v.value.unresolved != [] && !allowPlaceholders then (disk, Err(StillPlaceholders(v.value.unresolved)))
    else if disk.Symlink? then (disk, Err(TargetIsALink))
    else if disk.PlainFile? then (disk, Err(TargetIsNotADirectory))
    else if disk.Folder? && disk.tree != map[] then (disk, Err(TargetIsNotEmpty))
    else if upload.Tarball? then
      var (tree, ok) := UnpackAll(map[], upload.members);
      (Folder(tree), if ok then Ok(v.value) else Err(ExtractionFailed))
    else (disk, Err(UploadIsEmpty))
  }

  class ImportTarget {
    var disk: Disk

    constructor (disk: Disk)
      ensures this.disk == disk
    {
      this.disk := disk;
    }

    method ExtractAllMembers(members: seq<Member>) returns (ok: bool)
      requires disk.Folder?
      modifies this
      ensures disk.Folder? && (disk.tree, ok) == UnpackAll(old(disk).tree, members)
    {
      ghost var start := disk.tree;
      for i := 0 to |members|
        invariant disk.Folder? && (disk.tree, true) == UnpackAll(start, members[..i])
      {
        assert members[..i + 1][..i] == members[..i];
        var after := Unpack(disk.tree, members[i]);
        if after.None? {
          UnpackingStops(start, members, i + 1);
          return false;
        }
        disk := Folder(after.value);
      }
      assert members[..|members|] == members;
      ok := true;
    }

    method MaterializeImport(upload: Upload, allowPlaceholders: bool, idOf: string -> Option<string>,
                             catalog: set<string>)
        returns (r: Result<Plan, ImportError>)
      modifies this
      ensures (disk, r) == Import(old(disk), upload, allowPlaceholders, idOf, catalog)
    {
      var v := ValidateTarball(upload, idOf, catalog);
      if v.Err? {
        return Err(v.error);
      }
      if v.value.unresolved != [] && !allowPlaceholders {
        return Err(StillPlaceholders(v.value.unresolved));
      }
      match disk {
        case Symlink => return Err(TargetIsALink);
        case PlainFile => return Err(TargetIsNotADirectory);
        case Folder(tree) =>
          if tree != map[] {
            return Err(TargetIsNotEmpty);
          }
        case Nothing =>
          disk := Folder(map[]);
      }
      var ok := ExtractAllMembers(upload.members);
      r := if ok then v else Err(ExtractionFailed);
    }
  }
}
