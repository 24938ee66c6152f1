/** Archive member names: what backend/gitops_import.py accepts, and where an accepted name lands on disk. */
module MemberNames {
  import opened Wrappers
  import opened Trees

  const SLASH: set<char> := {'/'}
  const SLASHES: set<char> := {'/', '\\'}

  const UP: string := ".."

  /** The first separator from a position on, or the length. */
  function NextOf(s: string, i: nat, seps: set<char>): (e: nat)
    requires i <= |s|
    ensures i <= e <= |s| && (e < |s| ==> s[e] in seps) && forall k :: i <= k < e ==> s[k] !in seps
    decreases |s| - i
  {
    if i == |s| || s[i] in seps then i else NextOf(s, i + 1, seps)
  }

  /** The end of a run of separators. */
  function RunEnd(s: string, i: nat, seps: set<char>): (e: nat)
    requires i <= |s|
    ensures i <= e <= |s| && (e < |s| ==> s[e] !in seps) && forall k :: i <= k < e ==> s[k] in seps
    decreases |s| - i
  {
    if i == |s| || s[i] !in seps then i else RunEnd(s, i + 1, seps)
  }

  /** A name split at runs of slashes of either kind. */
  function Parts(s: string): seq<string>
    decreases |s|
  {
    var e := NextOf(s, 0, SLASHES);
    if e == |s| then [s] else [s[..e]] + Parts(s[RunEnd(s, e, SLASHES)..])
  }

  predicate SafeName(name: string) {
    && name != "" && name[0] !in SLASHES
    && ':' !in name
    && UP !in Parts(name)
  }

  // ---------- where a name leads ----------

  /** The components an operating system sees between its separators; empty ones and dots lead nowhere. */
  function Components(s: string, seps: set<char>): Path
    decreases |s|
  {
    var e := NextOf(s, 0, seps);
    var head := if s[..e] == "" || s[..e] == "." then [] else [s[..e]];
    head + if e == |s| then [] else Components(s[e + 1..], seps)
  }

  function Walk(at: Path, components: Path): Path
    decreases |components|
  {
    if components == [] then at
    else if components[0] == UP then Walk(if at == [] then [] else Parent(at), components[1..])
    else Walk(at + [components[0]], components[1..])
  }

  /** The place a name denotes below a target directory; None for one on another drive or stream. */
  function Landing(target: Path, name: string, seps: set<char>): Option<Path> {
    if ':' in name && '\\' in seps then None
    else if name != "" && name[0] in seps then Some(Walk([], Components(name, seps)))
    else Some(Walk(target, Components(name, seps)))
  }

  /** Two dots between separators, the ends of the text counting as such. */
  predicate UpAt(s: string, k: nat) {
    && k + 2 <= |s| && s[k] == '.' && s[k + 1] == '.'
    && (k == 0 || s[k - 1] in SLASHES)
    && (k + 2 == |s| || s[k + 2] in SLASHES)
  }

  ghost predicate HasUp(s: string) {
    exists k: nat :: UpAt(s, k)
  }

  lemma UpAtDrop(s: string, i: nat, k: nat)
    requires 0 < i <= |s| && s[i - 1] in SLASHES
    ensures UpAt(s[i..], k) <==> UpAt(s, i + k)
  {
    assert k > 0 && i + k <= |s| ==> s[i..][k - 1] == s[i + k - 1];
  }

  lemma UpIsWhole(s: string)
    requires s == UP
    ensures HasUp(s)
  {
    assert UpAt(s, 0);
  }

  lemma ComponentUpCases(s: string, seps: set<char>)
    requires UP in Components(s, seps)
    ensures var e := NextOf(s, 0, seps);
            s[..e] == UP || (e < |s| && UP in Components(s[e + 1..], seps))
  {
  }

  lemma LeadingUp(s: string, e: nat)
    requires e <= |s| && s[..e] == UP && (e < |s| ==> s[e] in SLASHES)
    ensures UpAt(s, 0)
  {
    assert s[0] == s[..e][0] && s[1] == s[..e][1];
  }

  lemma {:induction false} ComponentUp(s: string, seps: set<char>)
    requires seps <= SLASHES && UP in Components(s, seps)
    ensures HasUp(s)
    decreases |s|
  {
    ComponentUpCases(s, seps);
    var e := NextOf(s, 0, seps);
    if s[..e] == UP {
      LeadingUp(s, e);
    } else {
      ComponentUp(s[e + 1..], seps);
      var k: nat :| UpAt(s[e + 1..], k);
      UpAtDrop(s, e + 1, k);
    }
  }

  /** Splitting at runs finds the `..` segments exactly. */
  lemma {:induction false} PartsFindUp(s: string)
    ensures UP in Parts(s) <==> HasUp(s)
    decreases |s|
  {
    var e := NextOf(s, 0, SLASHES);
    if e == |s| {
      WholePartUp(s);
    } else {
      var next := RunEnd(s, e, SLASHES);
      PartsFindUp(s[next..]);
      FirstPartUp(s, e);
      forall k: nat ensures UpAt(s, k) && k > 0 ==> k >= next && UpAt(s[next..], k - next) {
        if UpAt(s, k) && k > 0 {
          assert e <= k - 1;
          UpAtDrop(s, next, k - next);
        }
      }
      forall k: nat ensures UpAt(s[next..], k) ==> UpAt(s, next + k) {
        UpAtDrop(s, next, k);
      }
    }
  }

  lemma WholePartUp(s: string)
    requires NextOf(s, 0, SLASHES) == |s|
    ensures s == UP <==> HasUp(s)
  {
    assert |s| == 2 ==> s == [s[0], s[1]];
    if s == UP {
      UpIsWhole(s);
    }
  }

  lemma FirstPartUp(s: string, e: nat)
    requires e == NextOf(s, 0, SLASHES) && e < |s|
    ensures s[..e] == UP <==> UpAt(s, 0)
  {
    assert e == 2 ==> s[..e] == [s[0], s[1]];
    if s[..e] == UP {
      LeadingUp(s, e);
    }
  }

  lemma {:induction false} WalkDown(at: Path, components: Path)
    requires UP !in components
    ensures Walk(at, components) == at + components
    decreases |components|
  {
    if components == [] {
      assert at + components == at;
    } else {
      WalkDown(at + [components[0]], components[1..]);
      assert at + [components[0]] + components[1..] == at + components;
    }
  }

  /** An accepted name, joined to any target and normalised, stays under it, whichever slashes separate. */
  lemma AcceptedStaysUnder(target: Path, name: string, seps: set<char>)
    requires SafeName(name) && seps <= SLASHES
    ensures Landing(target, name, seps) == Some(target + Components(name, seps))
    ensures UP !in Components(name, seps)
  {
    PartsFindUp(name);
    if UP in Components(name, seps) {
      ComponentUp(name, seps);
    }
    WalkDown(target, Components(name, seps));
  }

  // ---------- names of paths ----------

  function NameOf(p: Path): string {
    if p == [] then "" else if |p| == 1 then p[0] else p[0] + "/" + NameOf(p[1..])
  }

  /** A file name as the disk holds it. */
  predicate RealSegment(seg: string) {
    seg != "" && seg != "." && seg != UP && '/' !in seg
  }

  predicate RealPath(p: Path) {
    p != [] && forall i :: 0 <= i < |p| ==> RealSegment(p[i])
  }

  lemma {:induction false} NextAfter(a: string, b: string, i: nat)
    requires i <= |a| && '/' !in a && (b != "" ==> b[0] == '/')
    ensures NextOf(a + b, i, SLASH) == |a|
    decreases |a| - i
  {
    if i < |a| {
      assert (a + b)[i] == a[i] && a[i] in a;
      NextAfter(a, b, i + 1);
    } else {
      assert b != "" ==> (a + b)[i] == b[0];
    }
  }

  lemma ComponentsSplit(head: string, rest: string)
    requires RealSegment(head)
    ensures Components(head + "/" + rest, SLASH) == [head] + Components(rest, SLASH)
    ensures Components(head, SLASH) == [head]
  {
    NextAfter(head, "/" + rest, 0);
    NextAfter(head, "", 0);
    var s := head + "/" + rest;
    assert s == head + ("/" + rest) && s[..|head|] == head && s[|head| + 1..] == rest;
    assert head + "" == head && head[..|head|] == head;
  }

  /** A path survives being written as a member name. */
  lemma {:induction false} NameRoundTrip(p: Path)
    requires RealPath(p)
    ensures Components(NameOf(p), SLASH) == p
  {
    assert RealSegment(p[0]);
    if |p| == 1 {
      ComponentsSplit(p[0], "");
    } else {
      assert forall i :: 0 <= i < |p| - 1 ==> p[1..][i] == p[i + 1];
      NameRoundTrip(p[1..]);
      ComponentsSplit(p[0], NameOf(p[1..]));
      assert [p[0]] + p[1..] == p;
    }
  }

  lemma UpAcross(a: string, b: string)
    ensures HasUp(a + "/" + b) <==> HasUp(a) || HasUp(b)
  {
    var s := a + "/" + b;
    assert s[|a|] == '/' && s[|a| + 1..] == b;
    forall k: nat ensures UpAt(b, k) <==> UpAt(s, |a| + 1 + k) {
      UpAtDrop(s, |a| + 1, k);
    }
    forall k: nat | k + 2 <= |a| ensures UpAt(a, k) <==> UpAt(s, k) {
      assert forall i :: 0 <= i < |a| ==> s[i] == a[i];
    }
    if HasUp(s) {
      var k: nat :| UpAt(s, k);
      if k + 2 > |a| {
        assert UpAt(b, k - |a| - 1);
      }
    }
  }

  /** A file name every slash convention reads the same way. */
  predicate PortableSegment(seg: string) {
    ':' !in seg && UP !in Parts(seg)
  }

  lemma {:induction false} PathUpAndColon(p: Path)
    requires p != []
    ensures (UP !in Parts(NameOf(p)) && ':' !in NameOf(p)) <==> forall i :: 0 <= i < |p| ==> PortableSegment(p[i])
  {
    PartsFindUp(NameOf(p));
    PartsFindUp(p[0]);
    if |p| > 1 {
      var tail := p[1..];
      PathUpAndColon(tail);
      PartsFindUp(NameOf(tail));
      UpAcross(p[0], NameOf(tail));
      ColonAcross(p[0], NameOf(tail));
      assert forall i :: 0 <= i < |tail| ==> tail[i] == p[i + 1];
      assert (forall i :: 0 <= i < |p| ==> PortableSegment(p[i])) <==>
             PortableSegment(p[0]) && forall i :: 0 <= i < |tail| ==> PortableSegment(tail[i]);
    }
  }

  lemma ColonAcross(a: string, b: string)
    ensures ':' in a + "/" + b <==> ':' in a || ':' in b
  {
  }

  /** The name of a real path is accepted exactly when each of its segments is portable and it starts with no slash. */
  lemma SafeNameExactly(p: Path)
    requires RealPath(p)
    ensures SafeName(NameOf(p)) <==> p[0][0] != '\\' && forall i :: 0 <= i < |p| ==> PortableSegment(p[i])
  {
    assert RealSegment(p[0]) && p[0][0] in p[0];
    assert NameOf(p)[0] == p[0][0];
    PathUpAndColon(p);
  }
}
