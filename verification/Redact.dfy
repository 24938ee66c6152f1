/** Sanitizing and quoting of .env overrides in backend/redact.py, and the .env text that
    backend/runner.py writes from them. */
module Redact {
  import opened Wrappers

  // ---------- what is accepted ----------

  predicate IsLetter(c: char) {
    'a' <= c <= 'z' || 'A' <= c <= 'Z' || c == '_'
  }

  predicate IsNameChar(c: char) {
    IsLetter(c) || '0' <= c <= '9'
  }

  predicate SafeEnvKey(key: string) {
    && 0 < |key| <= 128
    && IsLetter(key[0])
    && forall i :: 0 <= i < |key| ==> IsNameChar(key[i])
  }

  datatype Rejection = InvalidKey | TooLong | Newline | CarriageReturn | NullByte

  /** The first reason to refuse a value, in the order the checks are made. */
  function EnvValueProblem(value: string): Option<Rejection> {
    if |value| > 4096 then Some(TooLong)
    else if '\n' in value then Some(Newline)
    else if '\r' in value then Some(CarriageReturn)
    else if '\0' in value then Some(NullByte)
    else None
  }

  function Problem(key: string, value: string): Option<Rejection> {
    if SafeEnvKey(key) then EnvValueProblem(value) else Some(InvalidKey)
  }

  type Pairs = seq<(string, string)>

  ghost predicate DistinctKeys(raw: Pairs) {
    forall i, j :: 0 <= i < j < |raw| ==> raw[i].0 != raw[j].0
  }

  function Clean(raw: Pairs): map<string, string> {
    if raw == [] then map[]
    else
      var (k, v) := raw[|raw| - 1];
      var before := Clean(raw[..|raw| - 1]);
      if Problem(k, v) == None then before[k := v] else before
  }

  function Rejections(raw: Pairs): seq<(string, Rejection)> {
    if raw == [] then []
    else
      var (k, v) := raw[|raw| - 1];
      var before := Rejections(raw[..|raw| - 1]);
      if Problem(k, v).Some? then before + [(k, Problem(k, v).value)] else before
  }

  method SanitizeEnvOverrides(raw: Pairs) returns (clean: map<string, string>, rejections: seq<(string, Rejection)>)
    ensures clean == Clean(raw) && rejections == Rejections(raw)
  {
    clean := map[];
    rejections := [];
    for i := 0 to |raw|
      invariant clean == Clean(raw[..i]) && rejections == Rejections(raw[..i])
    {
      assert raw[..i + 1][..i] == raw[..i];
      var (k, v) := raw[i];
      if !SafeEnvKey(k) {
        rejections := rejections + [(k, InvalidKey)];
        continue;
      }
      var why := EnvValueProblem(v);
      if why.Some? {
        rejections := rejections + [(k, why.value)];
        continue;
      }
      clean := clean[k := v];
    }
    assert raw[..|raw|] == raw;
  }

  function RejectedKeys(raw: Pairs): set<string> {
    set r | r in Rejections(raw) :: r.0
  }

  function Keys(raw: Pairs): set<string> {
    set p | p in raw :: p.0
  }

  lemma KeysSnoc(init: Pairs, last: (string, string))
    ensures Keys(init + [last]) == Keys(init) + {last.0}
  {
    assert last in init + [last];
    forall k | k in Keys(init) ensures k in Keys(init + [last]) {
      var p :| p in init && p.0 == k;
      assert p in init + [last];
    }
  }

  lemma RejectedSnoc(init: Pairs, last: (string, string))
    ensures RejectedKeys(init + [last]) ==
            RejectedKeys(init) + if Problem(last.0, last.1).Some? then {last.0} else {}
  {
    assert (init + [last])[..|init|] == init;
    if Problem(last.0, last.1).Some? {
      var added := (last.0, Problem(last.0, last.1).value);
      var before := Rejections(init);
      assert added in before + [added];
      forall k | k in RejectedKeys(init) ensures k in RejectedKeys(init + [last]) {
        var r :| r in before && r.0 == k;
        assert r in before + [added];
      }
    }
  }

  lemma CleanSnoc(init: Pairs, last: (string, string))
    ensures Clean(init + [last]) ==
            if Problem(last.0, last.1) == None then Clean(init)[last.0 := last.1] else Clean(init)
    ensures |Rejections(init + [last])| == |Rejections(init)| + if Problem(last.0, last.1) == None then 0 else 1
  {
    assert (init + [last])[..|init|] == init;
  }

  lemma LastKeyIsNew(raw: Pairs)
    requires DistinctKeys(raw) && raw != []
    ensures raw[|raw| - 1].0 !in Keys(raw[..|raw| - 1])
  {
    forall p | p in raw[..|raw| - 1] ensures p.0 != raw[|raw| - 1].0 {
      var i :| 0 <= i < |raw| - 1 && raw[i] == p;
    }
  }

  /** The accepted and the rejected keys split the input keys in two. */
  lemma {:induction false} SanitizePartitions(raw: Pairs)
    requires DistinctKeys(raw)
    ensures Clean(raw).Keys !! RejectedKeys(raw) && Clean(raw).Keys + RejectedKeys(raw) == Keys(raw)
    ensures |Clean(raw)| + |Rejections(raw)| == |raw|
  {
    if raw == [] {
      NothingSplit();
    } else {
      var init, last := raw[..|raw| - 1], raw[|raw| - 1];
      assert raw == init + [last];
      SanitizePartitions(init);
      LastKeyIsNew(raw);
      PartitionSnoc(init, last);
    }
  }

  lemma NothingSplit()
    ensures Clean([]).Keys == RejectedKeys([]) == Keys([]) == {}
  {
  }

  lemma PartitionSnoc(init: Pairs, last: (string, string))
    requires Clean(init).Keys !! RejectedKeys(init) && Clean(init).Keys + RejectedKeys(init) == Keys(init)
    requires last.0 !in Keys(init)
    ensures var raw := init + [last];
            && Clean(raw).Keys !! RejectedKeys(raw) && Clean(raw).Keys + RejectedKeys(raw) == Keys(raw)
            && |Clean(raw)| + |Rejections(raw)| == |Clean(init)| + |Rejections(init)| + 1
  {
    CleanSnoc(init, last);
    KeysSnoc(init, last);
    RejectedSnoc(init, last);
    TwoParts(Clean(init).Keys, RejectedKeys(init), Keys(init), last.0);
    KeysAfterUpdate(Clean(init), last.0, last.1);
  }

  lemma KeysAfterUpdate(m: map<string, string>, k: string, v: string)
    ensures m[k := v].Keys == m.Keys + {k}
    ensures k !in m ==> |m[k := v]| == |m| + 1
  {
  }

  lemma TwoParts<T>(a: set<T>, b: set<T>, all: set<T>, k: T)
    requires a !! b && a + b == all && k !in all
    ensures (a + {k}) !! b && (a + {k}) + b == all + {k}
    ensures a !! (b + {k}) && a + (b + {k}) == all + {k}
  {
  }

  /** A key is accepted, with its own value, exactly when nothing is wrong with it; otherwise its reason is reported. */
  lemma {:induction false} SanitizeSorts(raw: Pairs, i: nat)
    requires DistinctKeys(raw) && i < |raw|
    ensures var (k, v) := raw[i];
            if Problem(k, v) == None then k in Clean(raw) && Clean(raw)[k] == v
            else k !in Clean(raw) && (k, Problem(k, v).value) in Rejections(raw)
  {
    var init := raw[..|raw| - 1];
    if i < |raw| - 1 {
      SanitizeSorts(init, i);
      assert raw[i].0 != raw[|raw| - 1].0;
    } else {
      CleanKeysInRaw(init);
    }
  }

  /** A letter or an underscore, and then letters, digits and underscores, at most 128 in all. */
  predicate IsName(key: string) {
    && 1 <= |key| <= 128 && !('0' <= key[0] <= '9')
    && forall c :: c in key ==> 'a' <= c <= 'z' || 'A' <= c <= 'Z' || '0' <= c <= '9' || c == '_'
  }

  /** At most 4096 characters on one line, without a null byte. */
  predicate IsPlainValue(value: string) {
    |value| <= 4096 && '\n' !in value && '\r' !in value && '\0' !in value
  }

  lemma ProblemExactly(key: string, value: string)
    ensures Problem(key, value) == None <==> IsName(key) && IsPlainValue(value)
    ensures match Problem(key, value)
            case None => true
            case Some(InvalidKey) => !IsName(key)
            case Some(TooLong) => |value| > 4096
            case Some(Newline) => '\n' in value
            case Some(CarriageReturn) => '\r' in value
            case Some(NullByte) => '\0' in value
  {
    assert forall i :: 0 <= i < |key| ==> key[i] in key;
  }

  /** What is accepted are exactly the pairs with a proper name and a plain value, unchanged. */
  lemma AcceptedExactly(raw: Pairs, k: string, v: string)
    requires DistinctKeys(raw)
    ensures k in Clean(raw) && Clean(raw)[k] == v <==> (k, v) in raw && IsName(k) && IsPlainValue(v)
  {
    if (k, v) in raw {
      var i :| 0 <= i < |raw| && raw[i] == (k, v);
      SanitizeSorts(raw, i);
      ProblemExactly(k, v);
    }
    if k in Clean(raw) && Clean(raw)[k] == v {
      CleanKeysInRaw(raw);
      var j :| 0 <= j < |raw| && raw[j].0 == k;
      SanitizeSorts(raw, j);
      ProblemExactly(k, raw[j].1);
      assert raw[j] == (k, v);
    }
  }

  lemma {:induction false} CleanKeysInRaw(raw: Pairs)
    ensures forall k :: k in Clean(raw) ==> exists j :: 0 <= j < |raw| && raw[j].0 == k
  {
    if raw != [] {
      CleanKeysInRaw(raw[..|raw| - 1]);
      forall k | k in Clean(raw) ensures exists j :: 0 <= j < |raw| && raw[j].0 == k {
        if k in Clean(raw[..|raw| - 1]) {
          var j :| 0 <= j < |raw| - 1 && raw[..|raw| - 1][j].0 == k;
          assert raw[j].0 == k;
        }
      }
    }
  }

  // ---------- quoting ----------

  function Escaped(value: string): string {
    if value == [] then []
    else (if value[0] == '\'' then "'\\''" else [value[0]]) + Escaped(value[1..])
  }

  function QuoteEnvValue(value: string): string {
    "'" + Escaped(value) + "'"
  }

  // ---------- the shell's reading of a word ----------

  datatype Mode = Unquoted | SingleQuoted

  /** Characters that section 2.2 of the POSIX.1-2017 Shell Command Language makes special outside quotes,
      other than the backslash, the single quote and the newline, which are read below. */
  predicate NeedsQuoting(c: char) {
    c in "|&;<>()$`\" \t*?[#~=%"
  }

  /** Reads one word and the newline or end of input after it (sections 2.2.1 and 2.2.2):
      the word's value and what follows, or None where other rules of the language would apply. */
  function ReadWord(s: string, mode: Mode): (r: Option<(string, string)>)
    ensures r.Some? ==> |r.value.1| <= |s|
  {
    if s == [] then if mode.Unquoted? then Some(("", "")) else None
    else if mode.SingleQuoted? then
      if s[0] == '\'' then ReadWord(s[1..], Unquoted) else Prepend(s[0], ReadWord(s[1..], SingleQuoted))
    else if s[0] == '\'' then ReadWord(s[1..], SingleQuoted)
    else if s[0] == '\n' then Some(("", s[1..]))
    else if s[0] == '\\' then
      if |s| == 1 then None
      else if s[1] == '\n' then ReadWord(s[2..], Unquoted)
      else Prepend(s[1], ReadWord(s[2..], Unquoted))
    else if NeedsQuoting(s[0]) then None
    else Prepend(s[0], ReadWord(s[1..], Unquoted))
  }

  function Prepend(c: char, r: Option<(string, string)>): Option<(string, string)> {
    if r.Some? then Some(([c] + r.value.0, r.value.1)) else None
  }

  /** Leaving the quotes, an escaped quote, and back: one literal quote. */
  lemma SpliceReads(more: string)
    ensures ReadWord("'\\''" + more, SingleQuoted) == Prepend('\'', ReadWord(more, SingleQuoted))
  {
    var s := "'\\''" + more;
    var t := s[1..];
    assert t[0] == '\\' && t[1] == '\'' && t[2..][0] == '\'' && t[2..][1..] == more;
    assert ReadWord(t[2..], Unquoted) == ReadWord(more, SingleQuoted);
    assert ReadWord(t, Unquoted) == Prepend('\'', ReadWord(t[2..], Unquoted));
  }

  lemma PlainReads(c: char, more: string)
    requires c != '\''
    ensures ReadWord([c] + more, SingleQuoted) == Prepend(c, ReadWord(more, SingleQuoted))
  {
    assert ([c] + more)[1..] == more;
  }

  lemma ClosingReads(rest: string)
    ensures ReadWord("'\n" + rest, SingleQuoted) == Some(("", rest))
  {
    var s := "'\n" + rest;
    assert s[1..][0] == '\n' && s[1..][1..] == rest;
  }

  lemma {:induction false} EscapedConcat(value: string, tail: string)
    requires value != []
    ensures Escaped(value) + tail ==
            (if value[0] == '\'' then "'\\''" else [value[0]]) + (Escaped(value[1..]) + tail)
    ensures [value[0]] + value[1..] == value
  {
    ConcatAssoc(if value[0] == '\'' then "'\\''" else [value[0]], Escaped(value[1..]), tail);
  }

  lemma ConcatAssoc(a: string, b: string, c: string)
    ensures (a + b) + c == a + (b + c)
  {
  }

  lemma {:induction false} EscapedReads(value: string, tail: string, rest: string)
    requires ReadWord(tail, SingleQuoted) == Some(("", rest))
    ensures ReadWord(Escaped(value) + tail, SingleQuoted) == Some((value, rest))
  {
    if value == [] {
      assert Escaped(value) + tail == tail;
    } else {
      EscapedReads(value[1..], tail, rest);
      var more := Escaped(value[1..]) + tail;
      EscapedConcat(value, tail);
      if value[0] == '\'' {
        SpliceReads(more);
      } else {
        PlainReads(value[0], more);
      }
    }
  }

  /** The shell reads a quoted value back as exactly that value, in one word. */
  lemma QuotedReads(value: string, rest: string)
    ensures ReadWord(QuoteEnvValue(value) + "\n" + rest, Unquoted) == Some((value, rest))
  {
    ClosingReads(rest);
    EscapedReads(value, "'\n" + rest, rest);
    var s := QuoteEnvValue(value) + "\n" + rest;
    assert s[1..] == Escaped(value) + ("'\n" + rest);
  }

  lemma QuoteInjective(a: string, b: string)
    requires QuoteEnvValue(a) == QuoteEnvValue(b)
    ensures a == b
  {
    QuotedReads(a, "");
    QuotedReads(b, "");
  }

  // ---------- the .env file ----------

  function EnvLines(pairs: Pairs): string {
    if pairs == [] then "" else pairs[0].0 + "=" + QuoteEnvValue(pairs[0].1) + "\n" + EnvLines(pairs[1..])
  }

  /** The text written to the .env file: the lines joined by newlines, and a final newline. */
  function EnvText(pairs: Pairs): string {
    if pairs == [] then "\n" else EnvLines(pairs)
  }

  function NameEnd(s: string): (n: nat)
    ensures n <= |s| && (forall i :: 0 <= i < n ==> IsNameChar(s[i])) && (n < |s| ==> !IsNameChar(s[n]))
  {
    if s != [] && IsNameChar(s[0]) then 1 + NameEnd(s[1..]) else 0
  }

  /** The assignments the shell makes when it sources the text; empty lines are skipped. */
  function Sourced(s: string): Option<Pairs>
    decreases |s|
  {
    if s == [] then Some([])
    else if s[0] == '\n' then Sourced(s[1..])
    else
      var n := NameEnd(s);
      if n == 0 || !IsLetter(s[0]) || n == |s| || s[n] != '=' then None
      else
        var word := ReadWord(s[n + 1..], Unquoted);
        if word.None? then None
        else
          var more := Sourced(word.value.1);
          if more.None? then None else Some([(s[..n], word.value.0)] + more.value)
  }

  /** One line of the file is one assignment. */
  lemma LineSourced(k: string, v: string, rest: string)
    requires SafeEnvKey(k)
    ensures var more := Sourced(rest);
            Sourced(k + "=" + QuoteEnvValue(v) + "\n" + rest) ==
            if more.None? then None else Some([(k, v)] + more.value)
  {
    var after := QuoteEnvValue(v) + "\n" + rest;
    var s := k + "=" + QuoteEnvValue(v) + "\n" + rest;
    assert s == k + ("=" + after);
    assert s[|k|] == '=' && s[|k| + 1..] == after && s[..|k|] == k;
    assert s[0] == k[0];
    NameEnds(s, |k|);
    QuotedReads(v, rest);
  }

  lemma {:induction false} LinesSourced(pairs: Pairs)
    requires forall p :: p in pairs ==> SafeEnvKey(p.0)
    ensures Sourced(EnvLines(pairs)) == Some(pairs)
  {
    if pairs != [] {
      assert pairs[0] in pairs;
      LinesSourced(pairs[1..]);
      LineSourced(pairs[0].0, pairs[0].1, EnvLines(pairs[1..]));
      assert [pairs[0]] + pairs[1..] == pairs;
    }
  }

  lemma NameEnds(s: string, n: nat)
    requires n < |s| && !IsNameChar(s[n]) && forall i :: 0 <= i < n ==> IsNameChar(s[i])
    ensures NameEnd(s) == n
  {
    var m := NameEnd(s);
    assert !(m < n) && !(n < m);
  }

  /** Sourcing the .env written from any overrides with safe keys gives back the same assignments, in order. */
  lemma EnvTextRoundTrip(pairs: Pairs)
    requires forall p :: p in pairs ==> SafeEnvKey(p.0)
    ensures Sourced(EnvText(pairs)) == Some(pairs)
  {
    LinesSourced(pairs);
    assert "\n"[1..] == "";
  }
}
