/** Header de-duplication in the CSV preview of backend/ingest.py. */
module Headers {
  import opened Collections
  import opened Decimals

  // ---------- suffixed names ----------

  function Suffixed(name: string, n: nat): string {
    name + "_" + Decimal(n)
  }

  lemma OnlyUnderscore(name: string, n: nat, k: nat)
    requires |name| < k < |Suffixed(name, n)|
    ensures Suffixed(name, n)[k] != '_'
  {
    assert Suffixed(name, n)[k] in Decimal(n);
  }

  /** The last underscore separates the name from the number, so nothing is lost. */
  lemma SuffixedInjective(a: string, m: nat, b: string, n: nat)
    requires Suffixed(a, m) == Suffixed(b, n)
    ensures a == b && m == n
  {
    var s := Suffixed(a, m);
    assert s[|a|] == '_' && s[|b|] == '_';
    assert s[|a| + 1..] == Decimal(m) && s[|b| + 1..] == Decimal(n);
    if |a| < |b| {
      OnlyUnderscore(a, m, |b|);
    } else if |b| < |a| {
      OnlyUnderscore(b, n, |a|);
    }
    assert s[..|a|] == a == b;
    DecimalInjective(m, n);
  }

  // ---------- the de-duplication ----------

  function Count(headers: seq<string>, h: string): nat {
    if headers == [] then 0
    else Count(headers[..|headers| - 1], h) + if headers[|headers| - 1] == h then 1 else 0
  }

  function Renamed(h: string, earlier: nat): string {
    if earlier == 0 then h else Suffixed(h, earlier)
  }

  function Deduped(headers: seq<string>): (r: seq<string>)
    ensures |r| == |headers|
  {
    if headers == [] then []
    else
      var init, last := headers[..|headers| - 1], headers[|headers| - 1];
      Deduped(init) + [Renamed(last, Count(init, last))]
  }

  method Dedup(headers: seq<string>) returns (deduped: seq<string>)
    ensures deduped == Deduped(headers)
  {
    var seen: map<string, nat> := map[];
    deduped := [];
    for i := 0 to |headers|
      invariant deduped == Deduped(headers[..i])
      invariant forall h :: h in seen <==> Count(headers[..i], h) > 0
      invariant forall h :: h in seen ==> seen[h] == Count(headers[..i], h) - 1
    {
      assert headers[..i + 1][..i] == headers[..i];
      var h := headers[i];
      if h in seen {
        seen := seen[h := seen[h] + 1];
        deduped := deduped + [Suffixed(h, seen[h])];
      } else {
        seen := seen[h := 0];
        deduped := deduped + [h];
      }
    }
    assert headers[..|headers|] == headers;
  }

  // ---------- what it achieves ----------

  lemma {:induction false} DedupedAt(headers: seq<string>, i: nat)
    requires i < |headers|
    ensures Deduped(headers)[i] == Renamed(headers[i], Count(headers[..i], headers[i]))
  {
    if i < |headers| - 1 {
      DedupedAt(headers[..|headers| - 1], i);
      assert headers[..|headers| - 1][..i] == headers[..i];
    }
  }

  lemma {:induction false} CountZero(headers: seq<string>, h: string)
    ensures Count(headers, h) == 0 <==> h !in headers
  {
    if headers != [] {
      CountZero(headers[..|headers| - 1], h);
      assert headers == headers[..|headers| - 1] + [headers[|headers| - 1]];
    }
  }

  /** The first occurrence of every name is kept as it is. */
  lemma FirstOccurrenceKept(headers: seq<string>, i: nat)
    requires i < |headers| && headers[i] !in headers[..i]
    ensures Deduped(headers)[i] == headers[i]
  {
    CountZero(headers[..i], headers[i]);
    DedupedAt(headers, i);
  }

  lemma {:induction false} CountGrows(headers: seq<string>, i: nat, j: nat, h: string)
    requires i <= j <= |headers|
    ensures Count(headers[..i], h) <= Count(headers[..j], h)
    ensures i < j && headers[i] == h ==> Count(headers[..i], h) < Count(headers[..j], h)
    decreases j
  {
    if i < j {
      assert headers[..j][..j - 1] == headers[..j - 1];
      CountGrows(headers, i, j - 1, h);
    }
  }

  /** Some occurrence of `h` has exactly `n` occurrences before it. */
  lemma {:induction false} NthOccurrence(headers: seq<string>, h: string, n: nat) returns (i: nat)
    requires n < Count(headers, h)
    ensures i < |headers| && headers[i] == h && Count(headers[..i], h) == n
  {
    var init, last := headers[..|headers| - 1], headers[|headers| - 1];
    if n < Count(init, h) {
      i := NthOccurrence(init, h, n);
      assert init[..i] == headers[..i];
    } else {
      i := |headers| - 1;
    }
  }

  /** A generated name that is also a raw header. */
  ghost predicate Collision(headers: seq<string>, h: string, n: nat) {
    0 < n < Count(headers, h) && Suffixed(h, n) in headers
  }

  lemma CollisionRepeats(headers: seq<string>, h: string, n: nat)
    requires Collision(headers, h, n)
    ensures !Distinct(Deduped(headers))
  {
    var name := Suffixed(h, n);
    CountZero(headers, name);
    var i := NthOccurrence(headers, h, n);
    var j := NthOccurrence(headers, name, 0);
    DedupedAt(headers, i);
    DedupedAt(headers, j);
    assert |name| > |h|;
  }

  /** Equal outputs at two places mean that one is generated and the other a raw header. */
  lemma RepeatCollides(headers: seq<string>, i: nat, j: nat)
    requires i < j < |headers| && Deduped(headers)[i] == Deduped(headers)[j]
    ensures exists h, n :: Collision(headers, h, n)
  {
    var a, b := headers[i], headers[j];
    var m, n := Count(headers[..i], a), Count(headers[..j], b);
    DedupedAt(headers, i);
    DedupedAt(headers, j);
    assert headers[..|headers|] == headers;
    CountGrows(headers, i, |headers|, a);
    CountGrows(headers, j, |headers|, b);
    CountGrows(headers, i, j, a);
    if m > 0 && n > 0 {
      SuffixedInjective(a, m, b, n);
    } else if m > 0 {
      assert Collision(headers, a, m);
    } else if n > 0 {
      assert Collision(headers, b, n);
    }
  }

  /** The names come out pairwise distinct exactly when no generated name is itself a header. */
  lemma DistinctExactly(headers: seq<string>)
    ensures Distinct(Deduped(headers)) <==> forall h, n :: !Collision(headers, h, n)
  {
    if h, n :| Collision(headers, h, n) {
      CollisionRepeats(headers, h, n);
    } else {
      forall i, j | 0 <= i < j < |headers| ensures Deduped(headers)[i] != Deduped(headers)[j] {
        if Deduped(headers)[i] == Deduped(headers)[j] {
          RepeatCollides(headers, i, j);
        }
      }
    }
  }

  /** In particular when no header is another header followed by `_` and digits. */
  lemma DistinctWhenUnsuffixed(headers: seq<string>)
    requires forall a, b, n :: a in headers && b in headers ==> a != Suffixed(b, n)
    ensures Distinct(Deduped(headers))
  {
    DistinctExactly(headers);
    forall h, n | Collision(headers, h, n) ensures false {
      CountZero(headers, h);
    }
  }

  /** The headers a, a, a_1 come out with a_1 twice. */
  lemma GeneratedNameTaken()
    ensures !Distinct(Deduped(["a", "a", "a_1"]))
  {
    var headers := ["a", "a", "a_1"];
    assert headers[..2] == ["a", "a"] && headers[..2][..1] == ["a"] && headers[..2][..1][..0] == [];
    assert "a" != "a_1" by { assert |"a"| != |"a_1"|; }
    assert Suffixed("a", 1) == headers[2];
    assert Collision(headers, "a", 1);
    CollisionRepeats(headers, "a", 1);
  }
}
