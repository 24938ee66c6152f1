/** Creating, restoring and drilling backups, from backend/backup.py. */
module Backups {
  import opened Wrappers
  import opened Trees
  import Schedules

  type Kind = Schedules.Kind

  /** A file's bytes, and the install id found in them when they parse as an install record. */
  datatype Content = Content(data: string, recordOf: Option<string>)

  type Archive = Members<Content>

  const ENTRIES: seq<string> := ["docker-compose.yml", ".env", "scripts"]
  const INSTALL_DIR: string := "install_dir"
  const MINIO_DATA: string := "minio_data"
  const RECORD: string := "install_record.json"

  predicate Below(rel: string, p: Path) {
    p != [] && p[0] == rel
  }

  /** The paths below one entry, and the paths below the first `n` entries. */
  function BelowEntry(t: Tree<Content>, rel: string): set<Path> {
    set p | p in t && Below(rel, p)
  }

  function BelowEntries(t: Tree<Content>, n: nat): set<Path>
    requires n <= |ENTRIES|
  {
    if n == 0 then {} else BelowEntries(t, n - 1) + BelowEntry(t, ENTRIES[n - 1])
  }

  /** The paths a backup captures. */
  function Captured(t: Tree<Content>): set<Path> {
    set p | p in t && p != [] && p[0] in ENTRIES
  }

  lemma CapturedIsBelowEntries(t: Tree<Content>)
    ensures BelowEntries(t, |ENTRIES|) == Captured(t)
  {
    assert BelowEntries(t, 1) == BelowEntry(t, ENTRIES[0]);
    assert BelowEntries(t, 2) == BelowEntry(t, ENTRIES[0]) + BelowEntry(t, ENTRIES[1]);
    assert BelowEntries(t, 3) == BelowEntries(t, 2) + BelowEntry(t, ENTRIES[2]);
    forall p | p in t && p != []
      ensures p[0] in ENTRIES <==> p[0] == ENTRIES[0] || p[0] == ENTRIES[1] || p[0] == ENTRIES[2]
    {
    }
  }

  // ---------- create ----------

  function Prefixed(dir: string, m: Archive): (r: Archive)
    ensures |r| == |m|
  {
    seq(|m|, i requires 0 <= i < |m| => ([dir] + m[i].0, m[i].1))
  }

  /** The outcome of mirroring the bucket into a scratch directory. */
  datatype Mirror = MirrorFailed | Mirrored(scratch: Tree<Content>, walk: seq<Path>)

  /** What the archiver adds for the first `n` entries, given its walk of each. */
  function WalkOf(t: Tree<Content>, listings: seq<seq<Path>>, n: nat): seq<Path>
    requires n <= |ENTRIES| == |listings|
  {
    if n == 0 then []
    else WalkOf(t, listings, n - 1) + if [ENTRIES[n - 1]] in t then listings[n - 1] else []
  }

  function MinioMembers(kind: Kind, mirror: Mirror): Archive
    requires mirror.Mirrored? ==> forall p :: p in mirror.walk ==> p in mirror.scratch
  {
    if kind.Full? && mirror.Mirrored?
    then [([MINIO_DATA], Dir)] + Prefixed(MINIO_DATA, Pack(mirror.scratch, mirror.walk))
    else []
  }

  function Created(t: Tree<Content>, walk: seq<Path>, kind: Kind, mirror: Mirror, record: Content): Archive
    requires forall p :: p in walk ==> p in t
    requires mirror.Mirrored? ==> forall p :: p in mirror.walk ==> p in mirror.scratch
  {
    Prefixed(INSTALL_DIR, Pack(t, walk)) + [([RECORD], File(record))] + MinioMembers(kind, mirror)
  }

  /** Each entry that exists is walked completely, directories first. */
  ghost predicate TrueListings(t: Tree<Content>, listings: seq<seq<Path>>) {
    && |listings| == |ENTRIES|
    && forall n :: 0 <= n < |ENTRIES| ==> IsWalk(listings[n], BelowEntry(t, ENTRIES[n]))
  }

  /** `install` is the tree of the install directory, None if the install or its directory does not exist. */
  method CreateBackup(install: Option<Tree<Content>>, record: Content, kind: Kind,
                      listings: seq<seq<Path>>, mirror: Mirror)
    returns (archive: Option<Archive>)
    requires install.Some? ==> TrueListings(install.value, listings)
    requires mirror.Mirrored? ==> IsWalk(mirror.walk, mirror.scratch.Keys)
    ensures archive.Some? <==> install.Some?
    ensures archive.Some? ==>
              var walk := WalkOf(install.value, listings, |ENTRIES|);
              (forall p :: p in walk ==> p in install.value)
              && archive.value == Created(install.value, walk, kind, mirror, record)
  {
    if install.None? {
      return None;
    }
    var t := install.value;
    var members: Archive := [];
    for n := 0 to |ENTRIES|
      invariant forall p :: p in WalkOf(t, listings, n) ==> p in t
      invariant members == Prefixed(INSTALL_DIR, Pack(t, WalkOf(t, listings, n)))
    {
      assert forall p :: p in listings[n] ==> p in BelowEntry(t, ENTRIES[n]);
      if [ENTRIES[n]] in t {
        PackJoins(t, WalkOf(t, listings, n), listings[n]);
        members := members + Prefixed(INSTALL_DIR, Pack(t, listings[n]));
      }
    }
    members := members + [([RECORD], File(record))];
    if kind.Full? && mirror.Mirrored? {
      members := members + ([([MINIO_DATA], Dir)] + Prefixed(MINIO_DATA, Pack(mirror.scratch, mirror.walk)));
    }
    archive := Some(members);
  }

  lemma PackJoins(t: Tree<Content>, a: seq<Path>, b: seq<Path>)
    requires (forall p :: p in a ==> p in t) && (forall p :: p in b ==> p in t)
    ensures (forall p :: p in a + b ==> p in t)
    ensures Prefixed(INSTALL_DIR, Pack(t, a + b)) ==
            Prefixed(INSTALL_DIR, Pack(t, a)) + Prefixed(INSTALL_DIR, Pack(t, b))
  {
  }

  lemma EntriesDistinct(i: nat, j: nat)
    requires i < j < |ENTRIES|
    ensures ENTRIES[i] != ENTRIES[j]
  {
    assert |ENTRIES[0]| == 18 && |ENTRIES[1]| == 4 && |ENTRIES[2]| == 7;
  }

  lemma {:induction false} BelowDisjoint(t: Tree<Content>, n: nat, m: nat)
    requires n <= m < |ENTRIES|
    ensures BelowEntries(t, n) !! BelowEntry(t, ENTRIES[m])
  {
    if n > 0 {
      BelowDisjoint(t, n - 1, m);
      EntriesDistinct(n - 1, m);
    }
  }

  /** The walks of the entries, joined, are a walk of everything captured. */
  lemma {:induction false} WalkOfCaptured(t: Tree<Content>, listings: seq<seq<Path>>, n: nat)
    requires WellFormed(t) && TrueListings(t, listings) && n <= |ENTRIES|
    ensures IsWalk(WalkOf(t, listings, n), BelowEntries(t, n))
  {
    if n > 0 {
      WalkOfCaptured(t, listings, n - 1);
      BelowDisjoint(t, n - 1, n - 1);
      WalkOfOneMore(t, WalkOf(t, listings, n - 1), BelowEntries(t, n - 1), listings[n - 1], ENTRIES[n - 1]);
    }
  }

  lemma WalkOfOneMore(t: Tree<Content>, before: seq<Path>, entries: set<Path>, listing: seq<Path>, rel: string)
    requires WellFormed(t) && IsWalk(before, entries) && IsWalk(listing, BelowEntry(t, rel))
            && entries !! BelowEntry(t, rel)
    ensures IsWalk(before + if [rel] in t then listing else [], entries + BelowEntry(t, rel))
  {
    if [rel] in t {
      WalksJoin(before, entries, listing, BelowEntry(t, rel));
    } else {
      NothingBelow(t, rel);
      assert entries + {} == entries && before + [] == before;
    }
  }

  lemma NothingBelow(t: Tree<Content>, rel: string)
    requires WellFormed(t) && [rel] !in t
    ensures BelowEntry(t, rel) == {}
  {
    forall p | p in t ensures !Below(rel, p) {
      TopExists(t, p);
    }
  }

  lemma {:induction false} TopExists(t: Tree<Content>, p: Path)
    requires WellFormed(t) && p in t
    ensures p != [] && [p[0]] in t
    decreases |p|
  {
    assert StandsInDir(t, p);
    if |p| == 1 {
      assert p == [p[0]];
    } else {
      TopExists(t, Parent(p));
    }
  }

  lemma WalksJoin(a: seq<Path>, left: set<Path>, b: seq<Path>, right: set<Path>)
    requires IsWalk(a, left) && IsWalk(b, right) && left !! right
    ensures IsWalk(a + b, left + right)
  {
    var c := a + b;
    forall i, j | 0 <= i < j < |c| ensures c[i] != c[j] {
      assert i < |a| ==> c[i] in left;
      assert j >= |a| ==> c[j] in right;
    }
    forall i | 0 <= i < |c| ensures ParentFirst(c, i) {
      if i < |a| {
        assert ParentFirst(a, i) && c[..i] == a[..i];
      } else {
        assert ParentFirst(b, i - |a|) && c[..i] == a + b[..i - |a|];
      }
    }
  }

  // ---------- restore ----------

  /** The members strictly below a top directory, with that directory taken off their names. */
  function Under(dir: string, m: Archive): Archive {
    if m == [] then []
    else
      var (p, node) := m[|m| - 1];
      Under(dir, m[..|m| - 1]) + if |p| > 1 && p[0] == dir then [(p[1..], node)] else []
  }

  type Bucket = map<Path, string>

  /** How far the mirror back into the bucket gets. */
  datatype MirrorBack = Complete | Broken(copied: set<Path>)

  function Files(t: Tree<Content>): Bucket {
    map p | p in t && t[p].File? :: t[p].content.data
  }

  /** Mirroring overwrites and adds, and never removes. */
  function Copied(bucket: Bucket, scratch: Tree<Content>, back: MirrorBack): Bucket {
    if back.Complete? then bucket + Files(scratch)
    else bucket + map p | p in Files(scratch) && p in back.copied :: Files(scratch)[p]
  }

  /** The live side of an install. */
  datatype World = World(tree: Tree<Content>, bucket: Bucket, state: string)

  datatype Request = Request(
    kind: Kind, tarball: Option<Archive>, runningStates: set<string>, taskLive: bool, restoreData: bool,
    back: MirrorBack)

  datatype Outcome = Refused | Failed | Restored

  function NextState(state: string): string {
    if state == "CLEANED" || state == "STOPPED" then "READY" else state
  }

  function RestoreData(w: World, req: Request, archive: Archive): Option<Bucket> {
    var members := Under(MINIO_DATA, archive);
    if members == [] || req.kind.Metadata? || !req.restoreData then Some(w.bucket)
    else
      var (scratch, ok) := ExtractAll(map[], members);
      if ok then Some(Copied(w.bucket, scratch, req.back)) else None
  }

  function Restore(w: World, req: Request): (World, Outcome) {
    if w.state in req.runningStates || req.taskLive then (w, Refused)
    else if req.tarball.None? then (w, Failed)
    else
      var (tree, ok) := ExtractAll(w.tree, Under(INSTALL_DIR, req.tarball.value));
      if !ok then (w.(tree := tree), Failed)
      else
        var bucket := RestoreData(w, req, req.tarball.value);
        if bucket.None? then (w.(tree := tree), Failed)
        else (World(tree, bucket.value, NextState(w.state)), Restored)
  }

  class Install {
    var tree: Tree<Content>
    var bucket: Bucket
    var state: string

    function Now(): World
      reads this
    {
      World(tree, bucket, state)
    }

    constructor (w: World)
      ensures Now() == w
    {
      tree := w.tree;
      bucket := w.bucket;
      state := w.state;
    }

    method SelectUnder(dir: string, archive: Archive) returns (members: Archive)
      ensures members == Under(dir, archive)
    {
      members := [];
      for i := 0 to |archive|
        invariant members == Under(dir, archive[..i])
      {
        assert archive[..i + 1][..i] == archive[..i];
        var (p, node) := archive[i];
        if |p| > 1 && p[0] == dir {
          members := members + [(p[1..], node)];
        }
      }
      assert archive[..|archive|] == archive;
    }

    method RestoreBackup(req: Request) returns (outcome: Outcome)
      modifies this
      ensures (Now(), outcome) == Restore(old(Now()), req)
      ensures outcome.Refused? <==> old(state) in req.runningStates || req.taskLive
      ensures outcome.Refused? || req.tarball.None? ==> tree == old(tree)
      ensures !outcome.Restored? ==> bucket == old(bucket) && state == old(state)
      ensures outcome.Restored? ==>
                state == if old(state) == "CLEANED" || old(state) == "STOPPED" then "READY" else old(state)
    {
      if state in req.runningStates || req.taskLive {
        return Refused;
      }
      if req.tarball.None? {
        return Failed;
      }
      var archive := req.tarball.value;
      var installMembers := SelectUnder(INSTALL_DIR, archive);
      var minioMembers := SelectUnder(MINIO_DATA, archive);
      var ok;
      tree, ok := ExtractMembers(tree, installMembers);
      if !ok {
        return Failed;
      }
      if minioMembers != [] && req.kind.Full? && req.restoreData {
        var scratch;
        scratch, ok := ExtractMembers(map[], minioMembers);
        if !ok {
          return Failed;
        }
        bucket := Copied(bucket, scratch, req.back);
      }
      if state == "CLEANED" || state == "STOPPED" {
        state := "READY";
      }
      outcome := Restored;
    }
  }

  /** A restore is refused exactly while the install is in a running state or has a live task, and then, as without a
      tarball, nothing is touched. */
  lemma RefusedExactly(w: World, req: Request)
    ensures Restore(w, req).1.Refused? <==> w.state in req.runningStates || req.taskLive
    ensures Restore(w, req).1.Refused? || req.tarball.None? ==> Restore(w, req).0 == w && !Restore(w, req).1.Restored?
  {
  }

  /** The state changes exactly when a restore of a cleaned or stopped install succeeds, and then to ready; a restore
      that does not succeed leaves the bucket alone. */
  lemma StateExactly(w: World, req: Request)
    ensures var (w', outcome) := Restore(w, req);
            && (outcome.Restored? && (w.state == "CLEANED" || w.state == "STOPPED") ==> w'.state == "READY")
            && (!outcome.Restored? || (w.state != "CLEANED" && w.state != "STOPPED") ==> w'.state == w.state)
            && (!outcome.Restored? ==> w'.bucket == w.bucket)
  {
  }

  /** After a mirror into the bucket an object is the scratch file of its name, if that was copied, and what it was
      before otherwise. */
  lemma CopiedExactly(bucket: Bucket, scratch: Tree<Content>, back: MirrorBack, p: Path)
    ensures var after := Copied(bucket, scratch, back);
            if p in scratch && scratch[p].File? && (back.Complete? || p in back.copied)
            then p in after && after[p] == scratch[p].content.data
            else (p in after <==> p in bucket) && (p in bucket ==> after[p] == bucket[p])
  {
  }

  /** A backup captures the compose file, .env and everything at or below scripts. */
  lemma CapturedExactly(t: Tree<Content>, p: Path)
    ensures p in Captured(t) <==>
            p in t && p != [] && (p[0] == "docker-compose.yml" || p[0] == ".env" || p[0] == "scripts")
  {
    assert ENTRIES[0] == "docker-compose.yml" && ENTRIES[1] == ".env" && ENTRIES[2] == "scripts";
  }

  // ---------- restoring what was created ----------

  lemma {:induction false} UnderConcat(dir: string, a: Archive, b: Archive)
    ensures Under(dir, a + b) == Under(dir, a) + Under(dir, b)
  {
    if b == [] {
      assert a + b == a;
    } else {
      UnderConcat(dir, a, b[..|b| - 1]);
      assert (a + b)[..|a + b| - 1] == a + b[..|b| - 1];
    }
  }

  lemma {:induction false} UnderPrefixed(dir: string, m: Archive)
    requires forall e :: e in m ==> e.0 != []
    ensures Under(dir, Prefixed(dir, m)) == m
  {
    if m != [] {
      var init, last := m[..|m| - 1], m[|m| - 1];
      assert last in m;
      UnderPrefixed(dir, init);
      assert Prefixed(dir, m)[..|m| - 1] == Prefixed(dir, init);
      assert ([dir] + last.0)[1..] == last.0;
      assert m == init + [last];
    }
  }

  lemma {:induction false} UnderOther(dir: string, other: string, m: Archive)
    requires dir != other
    ensures Under(dir, Prefixed(other, m)) == []
  {
    if m != [] {
      UnderOther(dir, other, m[..|m| - 1]);
      assert Prefixed(other, m)[..|m| - 1] == Prefixed(other, m[..|m| - 1]);
    }
  }

  lemma NamesDiffer()
    ensures INSTALL_DIR != MINIO_DATA
  {
    assert |INSTALL_DIR| != |MINIO_DATA|;
  }

  lemma {:induction false} UnderSingle(dir: string, name: string, node: Node<Content>)
    ensures Under(dir, [([name], node)]) == []
  {
    assert [([name], node)][..0] == [];
  }

  lemma UnderAround(dir: string, head: Archive, name: string, node: Node<Content>, tail: Archive)
    ensures Under(dir, head + [([name], node)] + tail) == Under(dir, head) + Under(dir, tail)
  {
    UnderSingle(dir, name, node);
    UnderConcat(dir, head, [([name], node)]);
    UnderConcat(dir, head + [([name], node)], tail);
  }

  lemma UnderAfter(dir: string, name: string, node: Node<Content>, tail: Archive)
    ensures Under(dir, [([name], node)] + tail) == Under(dir, tail)
  {
    UnderSingle(dir, name, node);
    UnderConcat(dir, [([name], node)], tail);
  }

  /** A walk of captured paths, packed: none of the names is empty. */
  lemma PackedNamesNotEmpty(t: Tree<Content>, walk: seq<Path>)
    requires (forall p :: p in walk ==> p in t && p != [])
    ensures forall e :: e in Pack(t, walk) ==> e.0 != []
  {
    forall e | e in Pack(t, walk) ensures e.0 != [] {
      var i :| 0 <= i < |walk| && Pack(t, walk)[i] == e;
      assert walk[i] in walk;
    }
  }

  lemma CreatedUnder(t: Tree<Content>, walk: seq<Path>, kind: Kind, mirror: Mirror, record: Content)
    requires forall p :: p in walk ==> p in t && p != []
    requires mirror.Mirrored? ==> forall p :: p in mirror.walk ==> p in mirror.scratch && p != []
    ensures var archive := Created(t, walk, kind, mirror, record);
            && Under(INSTALL_DIR, archive) == Pack(t, walk)
            && Under(MINIO_DATA, archive) ==
               if kind.Full? && mirror.Mirrored? then Pack(mirror.scratch, mirror.walk) else []
  {
    NamesDiffer();
    var head := Prefixed(INSTALL_DIR, Pack(t, walk));
    var tail := MinioMembers(kind, mirror);
    PackedNamesNotEmpty(t, walk);
    UnderPrefixed(INSTALL_DIR, Pack(t, walk));
    UnderOther(MINIO_DATA, INSTALL_DIR, Pack(t, walk));
    UnderAround(INSTALL_DIR, head, RECORD, File(record), tail);
    UnderAround(MINIO_DATA, head, RECORD, File(record), tail);
    if kind.Full? && mirror.Mirrored? {
      MinioUnder(mirror);
    }
  }

  lemma MinioUnder(mirror: Mirror)
    requires mirror.Mirrored? && forall p :: p in mirror.walk ==> p in mirror.scratch && p != []
    ensures Under(INSTALL_DIR, MinioMembers(Schedules.Full, mirror)) == []
    ensures Under(MINIO_DATA, MinioMembers(Schedules.Full, mirror)) == Pack(mirror.scratch, mirror.walk)
  {
    NamesDiffer();
    var packed := Pack(mirror.scratch, mirror.walk);
    PackedNamesNotEmpty(mirror.scratch, mirror.walk);
    UnderPrefixed(MINIO_DATA, packed);
    UnderOther(INSTALL_DIR, MINIO_DATA, packed);
    UnderAfter(INSTALL_DIR, MINIO_DATA, Dir, Prefixed(MINIO_DATA, packed));
    UnderAfter(MINIO_DATA, MINIO_DATA, Dir, Prefixed(MINIO_DATA, packed));
  }

  /** A backup made of `t`, whose mirror (if any) is a walk of a well-formed scratch directory. */
  ghost predicate BackupOf(archive: Archive, t: Tree<Content>, kind: Kind, mirror: Mirror, record: Content) {
    && WellFormed(t)
    && (mirror.Mirrored? ==> WellFormed(mirror.scratch) && IsWalk(mirror.walk, mirror.scratch.Keys))
    && exists walk :: IsWalk(walk, Captured(t)) && archive == Created(t, walk, kind, mirror, record)
  }

  /** What `CreateBackup` returns is a backup of the tree. */
  lemma CreatedIsBackupOf(t: Tree<Content>, listings: seq<seq<Path>>, kind: Kind, mirror: Mirror, record: Content)
    requires WellFormed(t) && TrueListings(t, listings)
    requires mirror.Mirrored? ==> WellFormed(mirror.scratch) && IsWalk(mirror.walk, mirror.scratch.Keys)
    ensures var walk := WalkOf(t, listings, |ENTRIES|);
            (forall p :: p in walk ==> p in t) && BackupOf(Created(t, walk, kind, mirror, record), t, kind, mirror,
                record)
  {
    var walk := WalkOf(t, listings, |ENTRIES|);
    WalkOfCaptured(t, listings, |ENTRIES|);
    CapturedIsBelowEntries(t);
    assert IsWalk(walk, Captured(t));
  }

  /** The restore is admitted and finds its tarball. */
  ghost predicate Admitted(w: World, req: Request, archive: Archive) {
    w.state !in req.runningStates && !req.taskLive && req.tarball == Some(archive)
  }

  function RestoredBucket(w: World, req: Request, mirror: Mirror): Bucket {
    if req.kind.Full? && mirror.Mirrored? && req.restoreData then Copied(w.bucket, mirror.scratch, req.back)
    else w.bucket
  }

  /** Restoring a created backup succeeds exactly when no captured path changed between file and directory;
      it then rewrites every captured path to its content at backup time, leaves every other path alone, adds or
      overwrites exactly the mirrored objects if data is restored, and touches the state only if it was idle.  When
      it fails, every captured path has its live or its backup content, and no other path is touched. */
  lemma RestoreOfCreated(w: World, req: Request, archive: Archive, t: Tree<Content>, mirror: Mirror, record: Content)
    requires WellFormed(w.tree) && BackupOf(archive, t, req.kind, mirror, record) && Admitted(w, req, archive)
    ensures var (w', outcome) := Restore(w, req);
            if SameKinds(w.tree, t, Captured(t))
            then outcome.Restored?
                 && w' == World(Overlay(w.tree, t, Captured(t)), RestoredBucket(w, req, mirror), NextState(w.state))
            else
              && outcome.Failed? && w'.bucket == w.bucket && w'.state == w.state
              && PartlyLaid(w.tree, t, Captured(t), w'.tree)
  {
    var walk :| IsWalk(walk, Captured(t)) && archive == Created(t, walk, req.kind, mirror, record);
    WalkNotEmptyNames(walk, Captured(t));
    if mirror.Mirrored? {
      WalkNotEmptyNames(mirror.walk, mirror.scratch.Keys);
    }
    CreatedUnder(t, walk, req.kind, mirror, record);
    RestoreOfMembers(w, req, archive, t, walk, mirror);
  }

  lemma RestoreOfMembers(w: World, req: Request, archive: Archive, t: Tree<Content>, walk: seq<Path>, mirror: Mirror)
    requires WellFormed(w.tree) && WellFormed(t) && IsWalk(walk, Captured(t)) && Admitted(w, req, archive)
    requires mirror.Mirrored? ==> WellFormed(mirror.scratch) && IsWalk(mirror.walk, mirror.scratch.Keys)
    requires Under(INSTALL_DIR, archive) == Pack(t, walk)
    requires Under(MINIO_DATA, archive) ==
             if req.kind.Full? && mirror.Mirrored? then Pack(mirror.scratch, mirror.walk) else []
    ensures var (w', outcome) := Restore(w, req);
            if SameKinds(w.tree, t, Captured(t))
            then outcome.Restored?
                 && w' == World(Overlay(w.tree, t, Captured(t)), RestoredBucket(w, req, mirror), NextState(w.state))
            else
              && outcome.Failed? && w'.bucket == w.bucket && w'.state == w.state
              && PartlyLaid(w.tree, t, Captured(t), w'.tree)
  {
    ExtractWalk(w.tree, t, walk, Captured(t));
    RestoreDataOfCreated(w, req, archive, mirror);
  }

  lemma WalkNotEmptyNames(walk: seq<Path>, entries: set<Path>)
    requires IsWalk(walk, entries)
    ensures forall p :: p in walk ==> p in entries && p != []
  {
    forall p | p in walk ensures p != [] {
      var i :| 0 <= i < |walk| && walk[i] == p;
      assert ParentFirst(walk, i);
    }
  }

  lemma RestoreDataOfCreated(w: World, req: Request, archive: Archive, mirror: Mirror)
    requires mirror.Mirrored? ==> WellFormed(mirror.scratch) && IsWalk(mirror.walk, mirror.scratch.Keys)
    requires Under(MINIO_DATA, archive) ==
             if req.kind.Full? && mirror.Mirrored? then Pack(mirror.scratch, mirror.walk) else []
    ensures RestoreData(w, req, archive) == Some(RestoredBucket(w, req, mirror))
  {
    if req.kind.Full? && mirror.Mirrored? {
      ScratchExtracts(mirror);
      if mirror.walk == [] {
        EmptyScratch(w.bucket, mirror, req.back);
      }
    }
  }

  lemma EmptyScratch(bucket: Bucket, mirror: Mirror, back: MirrorBack)
    requires mirror.Mirrored? && IsWalk(mirror.walk, mirror.scratch.Keys) && mirror.walk == []
    ensures Copied(bucket, mirror.scratch, back) == bucket
  {
    forall p ensures p !in mirror.scratch {
      assert p in mirror.walk <==> p in mirror.scratch.Keys;
    }
  }

  lemma OverlayAll(t: Tree<Content>)
    ensures Overlay(map[], t, t.Keys) == t
  {
  }

  lemma ScratchExtracts(mirror: Mirror)
    requires mirror.Mirrored? && WellFormed(mirror.scratch) && IsWalk(mirror.walk, mirror.scratch.Keys)
    ensures ExtractAll(map[], Pack(mirror.scratch, mirror.walk)) == (mirror.scratch, true)
  {
    var empty: Tree<Content> := map[];
    assert WellFormed(empty) && SameKinds(empty, mirror.scratch, mirror.scratch.Keys);
    ExtractWalk(empty, mirror.scratch, mirror.walk, mirror.scratch.Keys);
    OverlayAll(mirror.scratch);
  }

  /** Without data restore the bucket is untouched, whatever the archive and however the restore ends. */
  lemma BucketUntouched(w: World, req: Request)
    requires !req.restoreData
    ensures Restore(w, req).0.bucket == w.bucket
    ensures Restore(w, req).0.state != w.state ==>
              w.state in {"CLEANED", "STOPPED"} && Restore(w, req).0.state == "READY"
  {
  }

  // ---------- the drill ----------

  datatype DrillError =
    | SidecarMissing | SidecarUnparsable | TarballMissing
    | RecordTooLarge | RecordNotAFile | RecordUnparsable | RecordMismatch | RecordMissing | NoMinioTree

  datatype Sidecar = NoSidecar | BadSidecar | Sidecar(kind: Kind)

  const RECORD_MAX: nat := 1024 * 1024

  datatype DrillResult = DrillResult(
    members: nat, hasRecord: bool, hasMinio: bool, recordOk: bool, errors: seq<DrillError>)

  predicate IsRecord(e: (Path, Node<Content>)) {
    e.0 == ["install_record.json"]
  }

  predicate IsMinioEntry(e: (Path, Node<Content>)) {
    |e.0| > 1 && e.0[0] == "minio_data"
  }

  function RecordError(node: Node<Content>, install: string): Option<DrillError> {
    if node.Dir? then Some(RecordNotAFile)
    else if |node.content.data| > RECORD_MAX then Some(RecordTooLarge)
    else if node.content.recordOf.None? then Some(RecordUnparsable)
    else if node.content.recordOf.value != install then Some(RecordMismatch)
    else None
  }

  /** What each complaint about a record says of it. */
  predicate Blamed(err: DrillError, node: Node<Content>, install: string) {
    match err
    case RecordNotAFile => node.Dir?
    case RecordTooLarge => node.File? && |node.content.data| > 1024 * 1024
    case RecordUnparsable => node.File? && node.content.recordOf.None?
    case RecordMismatch => node.File? && node.content.recordOf.Some? && node.content.recordOf.value != install
    case _ => false
  }

  /** A regular file of at most a megabyte that names the install. */
  predicate Intact(node: Node<Content>, install: string) {
    node.File? && |node.content.data| <= 1024 * 1024 && node.content.recordOf == Some(install)
  }

  lemma RecordErrorExactly(node: Node<Content>, install: string)
    ensures RecordError(node, install) == None <==> Intact(node, install)
    ensures RecordError(node, install).Some? ==> Blamed(RecordError(node, install).value, node, install)
  {
  }

  /** The whole archive is sound: a readable sidecar, at least one install record, every one of them readable
      and of this install, and a MinIO tree if the sidecar says full. */
  ghost predicate Sound(install: string, sidecar: Sidecar, tarball: Option<Archive>) {
    && sidecar.Sidecar? && tarball.Some?
    && (exists e :: e in tarball.value && IsRecord(e))
    && (forall e :: e in tarball.value && IsRecord(e) ==> Intact(e.1, install))
    && (sidecar.kind.Full? ==> exists e :: e in tarball.value && IsMinioEntry(e))
  }

  ghost predicate HasRecordError(err: DrillError, install: string, archive: Archive) {
    exists e :: e in archive && IsRecord(e) && Blamed(err, e.1, install)
  }

  /** What an error says of the backup. */
  ghost predicate ErrorTrue(err: DrillError, install: string, sidecar: Sidecar, tarball: Option<Archive>) {
    match err
    case SidecarMissing => sidecar.NoSidecar?
    case SidecarUnparsable => sidecar.BadSidecar?
    case TarballMissing => tarball.None?
    case RecordMissing => tarball.Some? && forall e :: e in tarball.value ==> !IsRecord(e)
    case NoMinioTree =>
      && sidecar.Sidecar? && sidecar.kind.Full?
      && tarball.Some? && forall e :: e in tarball.value ==> !IsMinioEntry(e)
    case _ => tarball.Some? && HasRecordError(err, install, tarball.value)
  }

  ghost predicate ErrorsTrue(errors: seq<DrillError>, install: string, sidecar: Sidecar, tarball: Option<Archive>) {
    forall err :: err in errors ==> ErrorTrue(err, install, sidecar, tarball)
  }

  lemma ErrorsTrueSnoc(
      errors: seq<DrillError>, err: DrillError, install: string, sidecar: Sidecar, tarball: Option<Archive>)
    requires ErrorsTrue(errors, install, sidecar, tarball) && ErrorTrue(err, install, sidecar, tarball)
    ensures ErrorsTrue(errors + [err], install, sidecar, tarball)
  {
  }

  lemma RecordErrorTrue(install: string, sidecar: Sidecar, archive: Archive, e: (Path, Node<Content>))
    requires e in archive && IsRecord(e) && RecordError(e.1, install).Some?
    ensures ErrorTrue(RecordError(e.1, install).value, install, sidecar, Some(archive))
  {
    RecordErrorExactly(e.1, install);
    assert HasRecordError(RecordError(e.1, install).value, install, archive);
  }

  /** What the drill has found among the members it has read. */
  ghost predicate Scanned(install: string, sidecar: Sidecar, archive: Archive, r: DrillResult) {
    && (r.hasRecord <==> exists e :: e in archive && IsRecord(e))
    && (r.hasMinio <==> exists e :: e in archive && IsMinioEntry(e))
    && (r.recordOk <==> exists e :: e in archive && IsRecord(e) && Intact(e.1, install))
    && (r.errors == [] <==>
          sidecar.Sidecar? && forall e :: e in archive && IsRecord(e) ==> Intact(e.1, install))
    && r.members == |archive|
  }

  function ScanMember(install: string, r: DrillResult, e: (Path, Node<Content>)): DrillResult {
    var counted := r.(members := r.members + 1);
    if IsRecord(e) then
      var problem := RecordError(e.1, install);
      if problem.Some? then counted.(hasRecord := true, errors := r.errors + [problem.value])
      else counted.(hasRecord := true, recordOk := true)
    else if IsMinioEntry(e) then counted.(hasMinio := true)
    else counted
  }

  lemma ScannedOneMore(install: string, sidecar: Sidecar, archive: Archive, r: DrillResult, e: (Path, Node<Content>))
    requires Scanned(install, sidecar, archive, r)
    ensures Scanned(install, sidecar, archive + [e], ScanMember(install, r, e))
  {
    NamesDiffer();
    RecordErrorExactly(e.1, install);
    assert forall x :: x in archive + [e] <==> x in archive || x == e;
  }

  lemma ScanMemberTrue(install: string, sidecar: Sidecar, archive: Archive, r: DrillResult, e: (Path, Node<Content>))
    requires e in archive && ErrorsTrue(r.errors, install, sidecar, Some(archive))
    ensures ErrorsTrue(ScanMember(install, r, e).errors, install, sidecar, Some(archive))
  {
    if IsRecord(e) && RecordError(e.1, install).Some? {
      RecordErrorTrue(install, sidecar, archive, e);
      ErrorsTrueSnoc(r.errors, RecordError(e.1, install).value, install, sidecar, Some(archive));
    }
  }

  ghost predicate ScanHolds(
      install: string, sidecar: Sidecar, archive: Archive, n: nat, r: DrillResult)
    requires n <= |archive|
  {
    Scanned(install, sidecar, archive[..n], r) && ErrorsTrue(r.errors, install, sidecar, Some(archive))
  }

  lemma ScanHoldsNext(install: string, sidecar: Sidecar, archive: Archive, n: nat, r: DrillResult)
    requires n < |archive| && ScanHolds(install, sidecar, archive, n, r)
    ensures ScanHolds(install, sidecar, archive, n + 1, ScanMember(install, r, archive[n]))
  {
    assert archive[..n + 1] == archive[..n] + [archive[n]];
    ScannedOneMore(install, sidecar, archive[..n], r, archive[n]);
    ScanMemberTrue(install, sidecar, archive, r, archive[n]);
  }

  /** Reads the members one by one, adding to what is known from the sidecar. */
  method ScanMembers(install: string, ghost sidecar: Sidecar, archive: Archive, start: DrillResult)
      returns (r: DrillResult)
    requires ScanHolds(install, sidecar, archive, 0, start)
    ensures ScanHolds(install, sidecar, archive, |archive|, r)
  {
    r := start;
    for i := 0 to |archive|
      invariant ScanHolds(install, sidecar, archive, i, r)
    {
      ScanHoldsNext(install, sidecar, archive, i, r);
      var (name, node) := archive[i];
      r := r.(members := r.members + 1);
      if name == [RECORD] {
        r := r.(hasRecord := true);
        var problem := RecordError(node, install);
        if problem.Some? {
          r := r.(errors := r.errors + [problem.value]);
        } else {
          r := r.(recordOk := true);
        }
      } else if |name| > 1 && name[0] == MINIO_DATA {
        r := r.(hasMinio := true);
      }
    }
  }

  method Verify(install: string, sidecar: Sidecar, tarball: Option<Archive>) returns (r: DrillResult)
    ensures r.errors == [] <==> Sound(install, sidecar, tarball)
    ensures forall err :: err in r.errors ==> ErrorTrue(err, install, sidecar, tarball)
    ensures r.hasRecord <==> tarball.Some? && exists e :: e in tarball.value && IsRecord(e)
    ensures r.hasMinio <==> tarball.Some? && exists e :: e in tarball.value && IsMinioEntry(e)
    ensures r.recordOk <==>
              tarball.Some? && exists e :: e in tarball.value && IsRecord(e) && Intact(e.1, install)
    ensures r.members == if tarball.Some? then |tarball.value| else 0
  {
    r := DrillResult(0, false, false, false, []);
    var kind := Schedules.Metadata;
    match sidecar {
      case NoSidecar => r := r.(errors := [SidecarMissing]);
      case BadSidecar => r := r.(errors := [SidecarUnparsable]);
      case Sidecar(k) => kind := k;
    }
    if tarball.None? {
      return r.(errors := r.errors + [TarballMissing]);
    }
    var archive := tarball.value;
    r := ScanMembers(install, sidecar, archive, r);
    assert archive[..|archive|] == archive;
    if !r.hasRecord && r.errors == [] {
      r := r.(errors := [RecordMissing]);
    }
    if kind.Full? && !r.hasMinio && r.errors == [] {
      r := r.(errors := [NoMinioTree]);
    }
  }

  /** An intact created backup, with a record of its own install within the size cap, is sound exactly when it is
      metadata, or full with a mirror that succeeded and holds something. */
  lemma DrillOfCreated(install: string, archive: Archive, t: Tree<Content>, kind: Kind, mirror: Mirror, record: Content)
    requires BackupOf(archive, t, kind, mirror, record)
    requires record.recordOf == Some(install) && |record.data| <= RECORD_MAX
    ensures Sound(install, Sidecar(kind), Some(archive)) <==>
            kind.Metadata? || (mirror.Mirrored? && mirror.scratch != map[])
  {
    var walk :| IsWalk(walk, Captured(t)) && archive == Created(t, walk, kind, mirror, record);
    WalkNotEmptyNames(walk, Captured(t));
    if mirror.Mirrored? {
      WalkNotEmptyNames(mirror.walk, mirror.scratch.Keys);
    }
    forall e | e in archive
      ensures IsRecord(e) ==> e.1 == File(record)
      ensures IsMinioEntry(e) ==> kind.Full? && mirror.Mirrored? && mirror.scratch != map[]
    {
      CreatedMember(t, walk, kind, mirror, record, e);
    }
    RecordIsMember(t, walk, kind, mirror, record);
    if kind.Full? && mirror.Mirrored? && mirror.scratch != map[] {
      MinioIsMember(t, walk, mirror, record);
    }
    SoundMembers(install, kind, archive, record, kind.Full? && mirror.Mirrored? && mirror.scratch != map[]);
  }

  lemma SoundMembers(install: string, kind: Kind, archive: Archive, record: Content, minio: bool)
    requires forall e :: e in archive && IsRecord(e) ==> e.1 == File(record)
    requires exists e :: e in archive && IsRecord(e)
    requires minio <==> exists e :: e in archive && IsMinioEntry(e)
    requires record.recordOf == Some(install) && |record.data| <= RECORD_MAX
    ensures Sound(install, Sidecar(kind), Some(archive)) <==> kind.Metadata? || minio
  {
  }

  lemma RecordIsMember(t: Tree<Content>, walk: seq<Path>, kind: Kind, mirror: Mirror, record: Content)
    requires forall p :: p in walk ==> p in t
    requires mirror.Mirrored? ==> forall p :: p in mirror.walk ==> p in mirror.scratch
    ensures exists e :: e in Created(t, walk, kind, mirror, record) && IsRecord(e)
  {
    var e := Created(t, walk, kind, mirror, record)[|walk|];
    assert e == ([RECORD], File(record)) && IsRecord(e);
  }

  lemma MinioIsMember(t: Tree<Content>, walk: seq<Path>, mirror: Mirror, record: Content)
    requires forall p :: p in walk ==> p in t
    requires mirror.Mirrored? && mirror.scratch != map[]
    requires forall p :: p in mirror.walk <==> p in mirror.scratch
    requires forall p :: p in mirror.walk ==> p != []
    ensures exists e :: e in Created(t, walk, Schedules.Full, mirror, record) && IsMinioEntry(e)
  {
    var p :| p in mirror.scratch;
    var i :| 0 <= i < |mirror.walk| && mirror.walk[i] == p;
    var tail := Prefixed(MINIO_DATA, Pack(mirror.scratch, mirror.walk));
    assert tail[i] == ([MINIO_DATA] + p, mirror.scratch[p]);
    var e := Created(t, walk, Schedules.Full, mirror, record)[|walk| + 2 + i];
    assert e == tail[i] && IsMinioEntry(e);
  }

  /** Where a member of a created backup comes from. */
  lemma CreatedMember(t: Tree<Content>, walk: seq<Path>, kind: Kind, mirror: Mirror, record: Content,
                      e: (Path, Node<Content>))
    requires forall p :: p in walk ==> p in t && p != []
    requires mirror.Mirrored? ==> forall p :: p in mirror.walk ==> p in mirror.scratch && p != []
    requires e in Created(t, walk, kind, mirror, record)
    ensures IsRecord(e) ==> e.1 == File(record)
    ensures IsMinioEntry(e) ==> kind.Full? && mirror.Mirrored? && mirror.scratch != map[]
  {
    var head := Prefixed(INSTALL_DIR, Pack(t, walk));
    assert e in head || e == ([RECORD], File(record)) || e in MinioMembers(kind, mirror);
    if e in head {
      var i :| 0 <= i < |head| && head[i] == e;
      PrefixedMember(INSTALL_DIR, t, walk, i);
    } else if e in MinioMembers(kind, mirror) {
      MinioMember(kind, mirror, e);
    }
  }

  lemma MinioMember(kind: Kind, mirror: Mirror, e: (Path, Node<Content>))
    requires mirror.Mirrored? ==> forall p :: p in mirror.walk ==> p in mirror.scratch && p != []
    requires e in MinioMembers(kind, mirror)
    ensures !IsRecord(e) && (IsMinioEntry(e) ==> kind.Full? && mirror.Mirrored? && mirror.scratch != map[])
  {
    var packed := Prefixed(MINIO_DATA, Pack(mirror.scratch, mirror.walk));
    assert e == ([MINIO_DATA], Dir) || e in packed;
    if e in packed {
      var i :| 0 <= i < |packed| && packed[i] == e;
      PrefixedMember(MINIO_DATA, mirror.scratch, mirror.walk, i);
    } else {
      assert |MINIO_DATA| != |RECORD|;
    }
  }

  /** A member packed below a directory is no record, and a MinIO entry only below the MinIO directory. */
  lemma PrefixedMember(dir: string, t: Tree<Content>, walk: seq<Path>, i: nat)
    requires (forall p :: p in walk ==> p in t && p != []) && i < |walk| && dir in {INSTALL_DIR, MINIO_DATA}
    ensures var e := Prefixed(dir, Pack(t, walk))[i]; !IsRecord(e) && (IsMinioEntry(e) ==> dir == MINIO_DATA)
    ensures walk[i] in t
  {
    NamesDiffer();
    assert walk[i] in walk && Prefixed(dir, Pack(t, walk))[i] == ([dir] + walk[i], t[walk[i]]);
  }
}
