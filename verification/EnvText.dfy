/** The text of .env files as backend/gitops_export.py masks it and backend/gitops_import.py reads it back. */
module EnvText {
  import opened Wrappers

  // ---------- lines and blanks, as Python's splitlines and strip see them ----------

  predicate IsBreak(c: char) {
    || '\n' <= c <= '\r' || '\U{1C}' <= c <= '\U{1E}' || c == '\U{85}' || c == '\U{2028}' || c == '\U{2029}'
  }

  predicate IsSpace(c: char) {
    || '\t' <= c <= '\r' || '\U{1C}' <= c <= ' ' || c == '\U{85}' || c == '\U{A0}' || c == '\U{1680}'
    || '\U{2000}' <= c <= '\U{200A}' || c == '\U{2028}' || c == '\U{2029}' || c == '\U{202F}' || c == '\U{205F}'
    || c == '\U{3000}'
  }

  /** The code points that end a line, and those that strip takes away. */
  lemma BlanksExactly(c: char)
    ensures var code := c as int;
            IsBreak(c) <==> 10 <= code <= 13 || 28 <= code <= 30 || code in {133, 8232, 8233}
    ensures var code := c as int;
            IsSpace(c) <==>
            || 9 <= code <= 13 || 28 <= code <= 32 || 8192 <= code <= 8202
            || code in {133, 160, 5760, 8232, 8233, 8239, 8287, 12288}
  {
  }

  predicate IsLine(s: string) {
    forall i :: 0 <= i < |s| ==> !IsBreak(s[i])
  }

  function LineEnd(t: string): (n: nat)
    ensures n <= |t| && IsLine(t[..n]) && (n < |t| ==> IsBreak(t[n]))
  {
    if t == "" || IsBreak(t[0]) then 0 else
      var n := 1 + LineEnd(t[1..]);
      assert t[..n] == [t[0]] + t[1..][..n - 1];
      n
  }

  /** A carriage return and the newline after it are one break; a break at the very end starts no line. */
  function SplitLines(t: string): (lines: seq<string>)
    ensures forall i :: 0 <= i < |lines| ==> IsLine(lines[i])
  {
    if t == "" then []
    else
      var n := LineEnd(t);
      if n == |t| then [t]
      else
        var next := if t[n] == '\r' && n + 1 < |t| && t[n + 1] == '\n' then n + 2 else n + 1;
        [t[..n]] + SplitLines(t[next..])
  }

  function JoinLines(lines: seq<string>): string {
    if lines == [] then ""
    else if |lines| == 1 then lines[0]
    else lines[0] + "\n" + JoinLines(lines[1..])
  }

  function StripLeft(s: string): string {
    if s != "" && IsSpace(s[0]) then StripLeft(s[1..]) else s
  }

  function StripRight(s: string): string {
    if s != "" && IsSpace(s[|s| - 1]) then StripRight(s[..|s| - 1]) else s
  }

  function Strip(s: string): string {
    StripRight(StripLeft(s))
  }

  lemma {:induction false} StripLeftSlice(s: string) returns (a: nat)
    ensures a <= |s| && StripLeft(s) == s[a..] && forall i :: 0 <= i < a ==> IsSpace(s[i])
    ensures a < |s| ==> !IsSpace(s[a])
  {
    a := 0;
    if s != "" && IsSpace(s[0]) {
      var n := StripLeftSlice(s[1..]);
      a := n + 1;
      assert s[1..][n..] == s[a..];
      forall i | 0 <= i < a ensures IsSpace(s[i]) {
        if i > 0 { assert s[i] == s[1..][i - 1]; }
      }
    }
  }

  lemma {:induction false} StripRightSlice(s: string) returns (b: nat)
    ensures b <= |s| && StripRight(s) == s[..b] && forall i :: b <= i < |s| ==> IsSpace(s[i])
    ensures b > 0 ==> !IsSpace(s[b - 1])
  {
    b := |s|;
    if s != "" && IsSpace(s[|s| - 1]) {
      var init := s[..|s| - 1];
      b := StripRightSlice(init);
      assert init[..b] == s[..b];
      forall i | b <= i < |s| ensures IsSpace(s[i]) {
        if i < |init| { assert s[i] == init[i]; }
      }
    }
  }

  /** Stripping cuts away exactly the blanks at the two ends. */
  lemma StripSlice(s: string) returns (a: nat, b: nat)
    ensures a <= b <= |s| && Strip(s) == s[a..b]
    ensures forall i :: 0 <= i < a || b <= i < |s| ==> IsSpace(s[i])
    ensures a < b ==> !IsSpace(s[a]) && !IsSpace(s[b - 1])
  {
    a := StripLeftSlice(s);
    var n := StripRightSlice(s[a..]);
    b := a + n;
    assert s[a..][..n] == s[a..b];
    forall i | b <= i < |s| ensures IsSpace(s[i]) {
      assert s[i] == s[a..][i - a];
    }
    assert n > 0 ==> s[a..][n - 1] == s[b - 1];
  }

  lemma StripEnds(s: string)
    ensures var t := Strip(s); t != "" ==> !IsSpace(t[0]) && !IsSpace(t[|t| - 1])
  {
    var a, b := StripSlice(s);
  }

  lemma StripKeepsLine(s: string)
    requires IsLine(s)
    ensures IsLine(Strip(s))
  {
    var a, b := StripSlice(s);
  }

  lemma {:induction false} StripLeftConcat(a: string, b: string)
    requires StripLeft(a) != ""
    ensures StripLeft(a + b) == StripLeft(a) + b
  {
    assert (a + b)[0] == a[0];
    if IsSpace(a[0]) {
      assert (a + b)[1..] == a[1..] + b;
      StripLeftConcat(a[1..], b);
      assert StripLeft(a + b) == StripLeft(a[1..] + b);
    }
  }

  // ---------- the secret-key pattern ----------

  /** Case-insensitive matching of a pattern's capital letter. */
  function Fold(c: char): char {
    if 'a' <= c <= 'z' then c - 'a' + 'A'
    else if c == '\U{17F}' then 'S'
    else if c == '\U{212A}' then 'K'
    else if c == '\U{130}' || c == '\U{131}' then 'I'
    else c
  }

  predicate WordAt(s: string, i: nat, word: string) {
    i + |word| <= |s| && forall k :: 0 <= k < |word| ==> Fold(s[i + k]) == word[k]
  }

  const WORDS: seq<string> := ["PASSWORD", "SECRET", "TOKEN", "KEY", "CREDENTIAL"]

  /** The length of the first word of a list that stands at a position, 0 when none does. */
  function WordIn(s: string, i: nat, words: seq<string>): (n: nat)
    ensures n > 0 ==> i + n <= |s|
  {
    if words == [] then 0
    else if WordAt(s, i, words[0]) then |words[0]|
    else WordIn(s, i, words[1..])
  }

  function KeywordAt(s: string, i: nat): nat {
    WordIn(s, i, WORDS)
  }

  /** The first `=` from a position on, or the length. */
  function NextEquals(s: string, i: nat): (e: nat)
    requires i <= |s|
    ensures i <= e <= |s| && (e < |s| ==> s[e] == '=') && forall k :: i <= k < e ==> s[k] != '='
    decreases |s| - i
  {
    if i == |s| || s[i] == '=' then i else NextEquals(s, i + 1)
  }

  lemma {:induction false} NextEqualsAt(s: string, i: nat, f: nat)
    requires i <= f < |s| && s[f] == '=' && forall k :: i <= k < f ==> s[k] != '='
    ensures NextEquals(s, i) == f
    decreases f - i
  {
    if i < f {
      NextEqualsAt(s, i + 1, f);
    }
  }

  /** The greedy match with at most `i` characters before the keyword: the longest prefix that works wins. */
  function MatchUpTo(s: string, i: nat): (e: Option<nat>)
    requires i <= |s|
    ensures e.Some? ==> e.value < |s|
  {
    var n := KeywordAt(s, i);
    if n > 0 && NextEquals(s, i + n) < |s| then Some(NextEquals(s, i + n))
    else if i == 0 then None
    else MatchUpTo(s, i - 1)
  }

  /** Group 1 and group 2 of the pattern on a line. */
  function Match(s: string): Option<(string, string)> {
    var e := MatchUpTo(s, |s|);
    if e.Some? then Some((s[..e.value], s[e.value + 1..])) else None
  }

  /** The keyword at `i` and the `=` at `e` lie in the same segment between `=` signs. */
  ghost predicate KeywordBefore(s: string, i: nat, e: nat) {
    && e < |s| && s[e] == '=' && KeywordAt(s, i) > 0 && i + KeywordAt(s, i) <= e
    && forall k :: i <= k < e ==> s[k] != '='
  }

  ghost predicate SecretEquals(s: string, e: nat) {
    exists i: nat :: KeywordBefore(s, i, e)
  }

  ghost predicate IsLastSecret(s: string, e: nat) {
    SecretEquals(s, e) && forall f: nat :: e < f ==> !SecretEquals(s, f)
  }

  lemma WordLetter(s: string, i: nat, word: string, k: nat)
    requires WordAt(s, i, word) && i <= k < i + |word|
    ensures Fold(s[k]) == word[k - i]
  {
    assert Fold(s[i + (k - i)]) == word[k - i];
  }

  lemma {:induction false} WordFound(s: string, i: nat, words: seq<string>) returns (word: string)
    requires WordIn(s, i, words) > 0
    ensures word in words && WordAt(s, i, word) && |word| == WordIn(s, i, words)
  {
    if WordAt(s, i, words[0]) {
      word := words[0];
    } else {
      word := WordFound(s, i, words[1..]);
    }
  }

  /** The keywords are in capitals and start with five different letters. */
  lemma KeywordShapes(word: string, other: string)
    requires word in WORDS && other in WORDS
    ensures word != "" && forall k :: 0 <= k < |word| ==> 'A' <= word[k] <= 'Z'
    ensures other != "" && (word[0] == other[0] ==> word == other)
  {
  }

  lemma WordIsKeyword(s: string, i: nat, word: string)
    requires word in WORDS && WordAt(s, i, word)
    ensures KeywordAt(s, i) == |word| > 0
  {
    KeywordShapes(word, word);
    WordInFinds(s, i, word, WORDS);
    var found := WordFound(s, i, WORDS);
    KeywordShapes(word, found);
    WordLetter(s, i, word, i);
    WordLetter(s, i, found, i);
  }

  lemma {:induction false} WordInFinds(s: string, i: nat, word: string, words: seq<string>)
    requires word in words && WordAt(s, i, word)
    requires forall w :: w in words ==> w != ""
    ensures WordIn(s, i, words) > 0
  {
    assert words[0] in words && forall w :: w in words[1..] ==> w in words;
    if !WordAt(s, i, words[0]) {
      WordInFinds(s, i, word, words[1..]);
    }
  }

  /** A secret key is one with one of five words in it, in capitals or not. */
  lemma KeywordExactly(s: string, i: nat)
    ensures KeywordAt(s, i) > 0 <==>
            || WordAt(s, i, "PASSWORD") || WordAt(s, i, "SECRET") || WordAt(s, i, "TOKEN") || WordAt(s, i, "KEY")
            || WordAt(s, i, "CREDENTIAL")
  {
    FiveWords();
    if KeywordAt(s, i) > 0 {
      var word := WordFound(s, i, WORDS);
    }
    forall word | word in WORDS && WordAt(s, i, word) ensures KeywordAt(s, i) > 0 {
      WordIsKeyword(s, i, word);
    }
  }

  lemma FiveWords()
    ensures forall word :: word in WORDS <==>
              word == "PASSWORD" || word == "SECRET" || word == "TOKEN" || word == "KEY" || word == "CREDENTIAL"
  {
    assert WORDS[0] == "PASSWORD" && WORDS[1] == "SECRET" && WORDS[2] == "TOKEN" && WORDS[3] == "KEY";
    assert WORDS[4] == "CREDENTIAL";
  }

  lemma KeywordHasNoEquals(s: string, i: nat, k: nat)
    requires i <= k < i + KeywordAt(s, i)
    ensures k < |s| && s[k] != '=' && !IsSpace(s[k])
  {
    var word := WordFound(s, i, WORDS);
    WordLetter(s, i, word, k);
    KeywordShapes(word, word);
  }

  lemma KeywordToNextEquals(s: string, i: nat)
    requires KeywordAt(s, i) > 0 && NextEquals(s, i + KeywordAt(s, i)) < |s|
    ensures KeywordBefore(s, i, NextEquals(s, i + KeywordAt(s, i)))
  {
    var n := KeywordAt(s, i);
    var e := NextEquals(s, i + n);
    forall k | i <= k < e ensures s[k] != '=' {
      if k < i + n { KeywordHasNoEquals(s, i, k); }
    }
  }

  lemma {:induction false} MatchUpToIsSecret(s: string, i: nat)
    requires i <= |s| && MatchUpTo(s, i).Some?
    ensures SecretEquals(s, MatchUpTo(s, i).value)
  {
    var n := KeywordAt(s, i);
    if n > 0 && NextEquals(s, i + n) < |s| {
      KeywordToNextEquals(s, i);
    } else {
      MatchUpToIsSecret(s, i - 1);
    }
  }

  lemma SameSegment(s: string, i: nat, e: nat)
    requires KeywordBefore(s, i, e)
    ensures NextEquals(s, i + KeywordAt(s, i)) == e
  {
    NextEqualsAt(s, i + KeywordAt(s, i), e);
  }

  /** The first try that works leaves no secret `=` further right. */
  lemma {:induction false} MatchUpToIsLast(s: string, i: nat, j: nat, e: nat)
    requires j <= i <= |s| && KeywordBefore(s, j, e)
    ensures MatchUpTo(s, i).Some? && e <= MatchUpTo(s, i).value
  {
    var n := KeywordAt(s, i);
    if j == i {
      SameSegment(s, i, e);
    } else if n > 0 && NextEquals(s, i + n) < |s| {
      var last := NextEquals(s, i + n);
      assert s[last] == '=';
    } else {
      MatchUpToIsLast(s, i - 1, j, e);
    }
  }

  /** The regular expression splits a line at the last `=` that has a keyword between it and the `=` before it. */
  lemma MatchExactly(s: string, e: nat)
    ensures IsLastSecret(s, e) <==> MatchUpTo(s, |s|) == Some(e)
    ensures Match(s).None? ==> !SecretEquals(s, e)
  {
    if MatchUpTo(s, |s|).Some? {
      MatchUpToIsSecret(s, |s|);
    }
    forall f: nat, j: nat | KeywordBefore(s, j, f)
      ensures MatchUpTo(s, |s|).Some? && f <= MatchUpTo(s, |s|).value
    {
      MatchUpToIsLast(s, |s|, j, f);
    }
  }

  lemma MatchAt(s: string, e: nat)
    requires IsLastSecret(s, e)
    ensures e < |s| && Match(s) == Some((s[..e], s[e + 1..]))
  {
    MatchExactly(s, e);
  }

  lemma MatchSplits(s: string) returns (e: nat)
    requires Match(s).Some?
    ensures IsLastSecret(s, e) && e < |s| && s[e] == '=' && Match(s).value == (s[..e], s[e + 1..])
  {
    e := MatchUpTo(s, |s|).value;
    MatchExactly(s, e);
  }

  lemma KeywordPrefix(s: string, t: string, i: nat, e: nat)
    requires e <= |s| && e <= |t| && s[..e] == t[..e]
    requires KeywordAt(s, i) > 0 && i + KeywordAt(s, i) <= e
    ensures KeywordAt(t, i) == KeywordAt(s, i)
  {
    var word := WordFound(s, i, WORDS);
    WordPrefix(s, t, i, e, word);
    WordIsKeyword(t, i, word);
  }

  lemma WordPrefix(s: string, t: string, i: nat, e: nat, word: string)
    requires e <= |s| && e <= |t| && s[..e] == t[..e] && WordAt(s, i, word) && i + |word| <= e
    ensures WordAt(t, i, word)
  {
    forall k | 0 <= k < |word| ensures Fold(t[i + k]) == word[k] {
      assert t[i + k] == t[..e][i + k] == s[..e][i + k] == s[i + k];
    }
  }

  // ---------- masking ----------

  const PLACEHOLDER: string := "<rotate-me>"
  const MASK: string := "=<rotate-me>"

  predicate Masks(line: string) {
    var m := Match(Strip(line));
    m.Some? && Strip(m.value.1) != "" && Strip(m.value.1) != PLACEHOLDER
  }

  function Mask(line: string): string {
    if Masks(line) then Match(Strip(line)).value.0 + MASK else line
  }

  function Masked(lines: seq<string>): (r: seq<string>)
    ensures |r| == |lines|
  {
    seq(|lines|, i requires 0 <= i < |lines| => Mask(lines[i]))
  }

  predicate EndsLine(text: string) {
    text != "" && text[|text| - 1] == '\n'
  }

  function Scrub(text: string): string {
    JoinLines(Masked(SplitLines(text))) + if EndsLine(text) then "\n" else ""
  }

  lemma MaskedSnoc(lines: seq<string>, i: nat)
    requires i < |lines|
    ensures Masked(lines[..i + 1]) == Masked(lines[..i]) + [Mask(lines[i])]
  {
  }

  method ScrubEnv(text: string) returns (scrubbed: string)
    ensures scrubbed == Scrub(text)
  {
    var lines := SplitLines(text);
    var out: seq<string> := [];
    for i := 0 to |lines|
      invariant out == Masked(lines[..i])
    {
      MaskedSnoc(lines, i);
      var m := Match(Strip(lines[i]));
      if m.Some? && Strip(m.value.1) !in ["", PLACEHOLDER] {
        out := out + [m.value.0 + MASK];
      } else {
        out := out + [lines[i]];
      }
    }
    assert lines[..|lines|] == lines;
    scrubbed := JoinLines(out) + if EndsLine(text) then "\n" else "";
  }

  lemma LastSecretKept(s: string, e: nat)
    requires IsLastSecret(s, e)
    ensures e <= |s| && IsLastSecret(s[..e] + MASK, e)
  {
    var t := s[..e] + MASK;
    var i: nat :| KeywordBefore(s, i, e);
    assert s[..e] == t[..e];
    KeywordPrefix(s, t, i, e);
    assert t[e] == '=';
    assert forall k :: i <= k < e ==> t[k] == s[k];
    assert KeywordBefore(t, i, e);
    forall f: nat | e < f ensures !SecretEquals(t, f) {
      if f < |t| {
        assert t[f] == MASK[f - e] != '=';
      }
    }
  }

  lemma TrimmedStays(t: string)
    requires t != "" && !IsSpace(t[0]) && !IsSpace(t[|t| - 1])
    ensures Strip(t) == t
  {
  }

  lemma MaskedTextStays(s: string, e: nat)
    requires 0 < e <= |s| && !IsSpace(s[0])
    ensures var t := s[..e] + MASK; Strip(t) == t && t[0] == s[0] && t[..e] == s[..e] && t[e + 1..] == PLACEHOLDER
  {
    var t := s[..e] + MASK;
    assert t[|t| - 1] == '>';
    TrimmedStays(t);
  }

  lemma SecretNotFirst(s: string, e: nat)
    requires IsLastSecret(s, e)
    ensures e > 0
  {
    var i: nat :| KeywordBefore(s, i, e);
  }

  /** A masked line still matches, with the same key and the placeholder as its value. */
  lemma MaskedRematches(line: string)
    requires Masks(line)
    ensures Strip(Mask(line)) == Mask(line)
    ensures Match(Mask(line)) == Some((Match(Strip(line)).value.0, PLACEHOLDER))
    ensures Strip(line) != "" && Mask(line)[0] == Strip(line)[0] && !Masks(Mask(line))
  {
    StripEnds(line);
    var e := MatchSplits(Strip(line));
    SecretNotFirst(Strip(line), e);
    MaskedTextStays(Strip(line), e);
    LastSecretKept(Strip(line), e);
    MatchAt(Mask(line), e);
    TrimmedStays(PLACEHOLDER);
  }

  lemma MaskIdempotent(line: string)
    ensures Mask(Mask(line)) == Mask(line)
  {
    if Masks(line) {
      MaskedRematches(line);
    }
  }

  lemma MaskKeepsLine(line: string)
    requires IsLine(line)
    ensures IsLine(Mask(line))
  {
    if Masks(line) {
      StripKeepsLine(line);
      var e := MatchSplits(Strip(line));
      assert forall k :: 0 <= k < |MASK| ==> !IsBreak(MASK[k]);
    }
  }

  // ---------- lines of joined lines ----------

  ghost predicate AllLines(lines: seq<string>) {
    forall i :: 0 <= i < |lines| ==> IsLine(lines[i])
  }

  lemma {:induction false} LineEndsAtBreak(line: string, rest: string)
    requires IsLine(line) && (rest != "" ==> IsBreak(rest[0]))
    ensures LineEnd(line + rest) == |line|
  {
    if line == "" {
      assert line + rest == rest;
    } else {
      assert !IsBreak(line[0]);
      assert (line + rest)[1..] == line[1..] + rest;
      LineEndsAtBreak(line[1..], rest);
    }
  }

  lemma FirstLineSplits(line: string, rest: string)
    requires IsLine(line)
    ensures SplitLines(line + "\n" + rest) == [line] + SplitLines(rest)
  {
    var t := line + "\n" + rest;
    assert t == line + ("\n" + rest);
    LineEndsAtBreak(line, "\n" + rest);
    assert t[|line|] == '\n' && t[..|line|] == line && t[|line| + 1..] == rest;
  }

  lemma {:induction false} TerminatedSplits(lines: seq<string>)
    requires AllLines(lines) && lines != []
    ensures SplitLines(JoinLines(lines) + "\n") == lines
  {
    var first := lines[0];
    if |lines| == 1 {
      assert first + "\n" == first + "\n" + "";
      FirstLineSplits(first, "");
      assert SplitLines("") == [];
    } else {
      TerminatedSplits(lines[1..]);
      var rest := JoinLines(lines[1..]) + "\n";
      assert JoinLines(lines) + "\n" == first + "\n" + rest;
      FirstLineSplits(first, rest);
    }
  }

  lemma {:induction false} JoinedSplits(lines: seq<string>)
    requires AllLines(lines) && lines != [] && lines[|lines| - 1] != ""
    ensures SplitLines(JoinLines(lines)) == lines
    ensures JoinLines(lines) != "" && !EndsLine(JoinLines(lines))
  {
    var first := lines[0];
    if |lines| == 1 {
      LineEndsAtBreak(first, "");
      assert first + "" == first;
      assert first[..|first|] == first;
      assert !IsBreak(first[|first| - 1]);
    } else {
      JoinedSplits(lines[1..]);
      var rest := JoinLines(lines[1..]);
      FirstLineSplits(first, rest);
      assert JoinLines(lines)[|JoinLines(lines)| - 1] == rest[|rest| - 1];
    }
  }

  lemma {:induction false} BlankLastJoins(lines: seq<string>)
    requires |lines| > 1 && lines[|lines| - 1] == ""
    ensures JoinLines(lines) == JoinLines(lines[..|lines| - 1]) + "\n"
  {
    var init := lines[..|lines| - 1];
    if |lines| == 2 {
      assert JoinLines(lines[1..]) == "";
    } else {
      BlankLastJoins(lines[1..]);
      assert lines[1..][..|lines| - 2] == init[1..];
    }
  }

  /** The lines of the scrubbed text, apart from a blank last one that had no newline of its own. */
  ghost predicate UpToBlankLast(actual: seq<string>, lines: seq<string>) {
    || actual == lines
    || (lines != [] && lines[|lines| - 1] == "" && actual == lines[..|lines| - 1])
  }

  lemma LinesOfScrubbed(text: string)
    ensures var masked := Masked(SplitLines(text));
            && UpToBlankLast(SplitLines(Scrub(text)), masked)
            && Scrub(text) == JoinLines(SplitLines(Scrub(text))) + if EndsLine(Scrub(text)) then "\n" else ""
  {
    var lines := SplitLines(text);
    var masked := Masked(lines);
    forall i | 0 <= i < |masked| ensures IsLine(masked[i]) {
      MaskKeepsLine(lines[i]);
    }
    if EndsLine(text) {
      TerminatedSplits(masked);
    } else {
      assert Scrub(text) == JoinLines(masked);
      if masked != [] && masked[|masked| - 1] != "" {
        JoinedSplits(masked);
      } else if |masked| > 1 {
        BlankLastJoins(masked);
        TerminatedSplits(masked[..|masked| - 1]);
      }
    }
  }

  lemma MaskedTwice(lines: seq<string>, actual: seq<string>)
    requires UpToBlankLast(actual, Masked(lines))
    ensures Masked(actual) == actual
  {
    forall i | 0 <= i < |actual| ensures Mask(actual[i]) == actual[i] {
      assert actual[i] == Mask(lines[i]);
      MaskIdempotent(lines[i]);
    }
  }

  /** Scrubbing a scrubbed file changes nothing. */
  lemma ScrubIdempotent(text: string)
    ensures Scrub(Scrub(text)) == Scrub(text)
  {
    LinesOfScrubbed(text);
    MaskedTwice(SplitLines(text), SplitLines(Scrub(text)));
  }

  lemma LineOfMasked(lines: seq<string>, actual: seq<string>, i: nat)
    requires UpToBlankLast(actual, Masked(lines)) && i < |actual|
    ensures i < |lines| && actual[i] == Mask(lines[i])
  {
  }

  /** On a scrubbed line the pattern finds no value but blank or the placeholder; a line it does not match at all is
      as it was.  The pattern's value begins at the last secret `=`, not at the first one. */
  lemma ScrubbedHoldsNoSecret(text: string, i: nat)
    requires i < |SplitLines(Scrub(text))|
    ensures var line := SplitLines(Scrub(text))[i];
            && (Match(Strip(line)).Some? ==> Strip(Match(Strip(line)).value.1) in {"", "<rotate-me>"})
            && i < |SplitLines(text)| && (Match(Strip(SplitLines(text)[i])).None? ==> line == SplitLines(text)[i])
  {
    LinesOfScrubbed(text);
    LineOfMasked(SplitLines(text), SplitLines(Scrub(text)), i);
    var line := SplitLines(text)[i];
    if Masks(line) {
      MaskedRematches(line);
    }
    assert !Masks(Mask(line));
  }

  // ---------- what the import reads ----------

  predicate Active(s: string) {
    s != "" && s[0] != '#' && '=' in s
  }

  predicate IsUnresolved(line: string) {
    var s := Strip(line);
    Active(s) && Match(s).Some? && Strip(Match(s).value.1) == PLACEHOLDER
  }

  function KeyOf(line: string): string {
    var m := Match(Strip(line));
    if m.Some? then Strip(m.value.0) else ""
  }

  function Unresolved(lines: seq<string>): seq<string> {
    if lines == [] then []
    else
      var last := lines[|lines| - 1];
      Unresolved(lines[..|lines| - 1]) + if IsUnresolved(last) then [KeyOf(last)] else []
  }

  const LAKE: set<string> := {"LAKE_NAME", "LHS_LAKE_NAME"}
  const PROJECT: set<string> := {"UDP_PROJECT_NAME"}
  const ENVIRONMENT: set<string> := {"UDP_ENV"}

  predicate Assigns(line: string, names: set<string>) {
    var s := Strip(line);
    Active(s) && Strip(s[..NextEquals(s, 0)]) in names
  }

  function NonEmpty(v: string): Option<string> {
    if v == "" then None else Some(v)
  }

  function AssignedValue(line: string): Option<string> {
    var s := Strip(line);
    var f := NextEquals(s, 0);
    if f < |s| then NonEmpty(Strip(s[f + 1..])) else None
  }

  /** The last assignment wins, an empty one included. */
  function FieldValue(lines: seq<string>, names: set<string>): Option<string> {
    if lines == [] then None
    else
      var last := lines[|lines| - 1];
      if Assigns(last, names) then AssignedValue(last) else FieldValue(lines[..|lines| - 1], names)
  }

  /** The line sets the field: it is no comment, and what stands before its first `=` is one of the names. */
  ghost predicate Sets(line: string, names: set<string>, value: string) {
    var s := Strip(line);
    && s != "" && s[0] != '#'
    && exists f :: 0 <= f < |s| && s[f] == '=' && '=' !in s[..f] && Strip(s[..f]) in names && Strip(s[f + 1..]) == value
  }

  lemma FirstEqualsAt(s: string, f: nat)
    requires f < |s| && s[f] == '=' && '=' !in s[..f]
    ensures NextEquals(s, 0) == f && '=' in s
  {
    assert forall k :: 0 <= k < f ==> s[..f][k] == s[k];
    assert s[f] in s;
    NextEqualsAt(s, 0, f);
  }

  lemma EqualsAtFirst(s: string)
    requires '=' in s
    ensures var f := NextEquals(s, 0); f < |s| && s[f] == '=' && '=' !in s[..f]
  {
    ActiveHasEquals(s);
    var f := NextEquals(s, 0);
    assert forall k :: 0 <= k < f ==> s[..f][k] == s[k];
  }

  lemma SetsExactly(line: string, names: set<string>, value: string)
    ensures Sets(line, names, value) <==>
            && Assigns(line, names)
            && var s := Strip(line); Strip(s[NextEquals(s, 0) + 1..]) == value
  {
    var s := Strip(line);
    if Sets(line, names, value) {
      var f :| 0 <= f < |s| && s[f] == '=' && '=' !in s[..f] && Strip(s[..f]) in names && Strip(s[f + 1..]) == value;
      FirstEqualsAt(s, f);
    } else if Assigns(line, names) {
      EqualsAtFirst(s);
    }
  }

  ghost predicate SetsIt(line: string, names: set<string>) {
    exists value :: Sets(line, names, value)
  }

  lemma SetsItExactly(line: string, names: set<string>)
    ensures SetsIt(line, names) <==> Assigns(line, names)
  {
    var s := Strip(line);
    if Assigns(line, names) {
      SetsExactly(line, names, Strip(s[NextEquals(s, 0) + 1..]));
    } else if value :| Sets(line, names, value) {
      SetsExactly(line, names, value);
    }
  }

  /** A field is what the last line that sets it sets it to, and nothing if that is empty. */
  lemma {:induction false} FieldExactly(lines: seq<string>, names: set<string>, i: nat, value: string)
    requires i < |lines| && Sets(lines[i], names, value)
    requires forall j :: i < j < |lines| ==> !SetsIt(lines[j], names)
    ensures FieldValue(lines, names) == if value == "" then None else Some(value)
  {
    var init, last := lines[..|lines| - 1], lines[|lines| - 1];
    if i == |lines| - 1 {
      SetsExactly(last, names, value);
      ActiveHasEquals(Strip(last));
    } else {
      SetsItExactly(last, names);
      FieldExactly(init, names, i, value);
    }
  }

  /** And nothing if no line sets it. */
  lemma {:induction false} FieldUnset(lines: seq<string>, names: set<string>)
    requires forall i :: 0 <= i < |lines| ==> !SetsIt(lines[i], names)
    ensures FieldValue(lines, names) == None
  {
    if lines != [] {
      SetsItExactly(lines[|lines| - 1], names);
      FieldUnset(lines[..|lines| - 1], names);
    }
  }

  lemma ActiveHasEquals(s: string)
    requires '=' in s
    ensures NextEquals(s, 0) < |s|
  {
  }

  lemma FieldOneMore(lines: seq<string>, i: nat, names: set<string>)
    requires i < |lines|
    ensures FieldValue(lines[..i + 1], names) ==
            if Assigns(lines[i], names) then AssignedValue(lines[i]) else FieldValue(lines[..i], names)
  {
    assert lines[..i + 1][..i] == lines[..i];
  }

  lemma UnresolvedOneMore(lines: seq<string>, i: nat)
    requires i < |lines|
    ensures Unresolved(lines[..i + 1]) ==
            Unresolved(lines[..i]) + if IsUnresolved(lines[i]) then [KeyOf(lines[i])] else []
  {
    assert lines[..i + 1][..i] == lines[..i];
  }

  lemma AssignsTo(line: string, key: string, value: string)
    requires var s := Strip(line);
             && Active(s) && NextEquals(s, 0) < |s|
             && key == Strip(s[..NextEquals(s, 0)]) && value == Strip(s[NextEquals(s, 0) + 1..])
    ensures Assigns(line, LAKE) <==> key == "LAKE_NAME" || key == "LHS_LAKE_NAME"
    ensures Assigns(line, PROJECT) <==> key == "UDP_PROJECT_NAME"
    ensures Assigns(line, ENVIRONMENT) <==> key == "UDP_ENV"
    ensures AssignedValue(line) == NonEmpty(value)
  {
  }

  method ExtractEnvMetadata(text: string)
      returns (lake: Option<string>, project: Option<string>, environment: Option<string>, unresolved: seq<string>)
    ensures var lines := SplitLines(text);
            && lake == FieldValue(lines, LAKE) && project == FieldValue(lines, PROJECT)
            && environment == FieldValue(lines, ENVIRONMENT) && unresolved == Unresolved(lines)
  {
    lake, project, environment, unresolved := None, None, None, [];
    var lines := SplitLines(text);
    for i := 0 to |lines|
      invariant lake == FieldValue(lines[..i], LAKE) && project == FieldValue(lines[..i], PROJECT)
      invariant environment == FieldValue(lines[..i], ENVIRONMENT) && unresolved == Unresolved(lines[..i])
    {
      FieldOneMore(lines, i, LAKE);
      FieldOneMore(lines, i, PROJECT);
      FieldOneMore(lines, i, ENVIRONMENT);
      UnresolvedOneMore(lines, i);
      var line := Strip(lines[i]);
      if Active(line) {
        ActiveHasEquals(line);
        var f := NextEquals(line, 0);
        var key, value := Strip(line[..f]), Strip(line[f + 1..]);
        AssignsTo(lines[i], key, value);
        if key == "LAKE_NAME" || key == "LHS_LAKE_NAME" {
          lake := NonEmpty(value);
        } else if key == "UDP_PROJECT_NAME" {
          project := NonEmpty(value);
        } else if key == "UDP_ENV" {
          environment := NonEmpty(value);
        }
        var m := Match(line);
        if m.Some? && Strip(m.value.1) == PLACEHOLDER {
          unresolved := unresolved + [Strip(m.value.0)];
        }
      }
    }
    assert lines[..|lines|] == lines;
  }

  // ---------- scrubbing and reading agree ----------

  /** A live line whose secret has a value. */
  predicate HoldsSecret(line: string) {
    var s := Strip(line);
    s != "" && s[0] != '#' && Match(s).Some? && Strip(Match(s).value.1) != ""
  }

  function SecretKeys(lines: seq<string>): seq<string> {
    if lines == [] then []
    else
      var last := lines[|lines| - 1];
      SecretKeys(lines[..|lines| - 1]) + if HoldsSecret(last) then [KeyOf(last)] else []
  }

  lemma MatchedIsActive(s: string)
    requires s != "" && s[0] != '#' && Match(s).Some?
    ensures Active(s)
  {
    var e := MatchSplits(s);
    assert s[e] in s;
  }

  lemma MaskedIsUnresolved(line: string)
    requires Masks(line)
    ensures IsUnresolved(Mask(line)) <==> HoldsSecret(line)
    ensures KeyOf(Mask(line)) == KeyOf(line)
  {
    MaskedRematches(line);
    TrimmedStays(PLACEHOLDER);
    if Mask(line)[0] != '#' {
      MatchedIsActive(Mask(line));
    }
  }

  lemma MaskUnresolved(line: string)
    ensures IsUnresolved(Mask(line)) <==> HoldsSecret(line)
    ensures HoldsSecret(line) ==> KeyOf(Mask(line)) == KeyOf(line)
  {
    if Masks(line) {
      MaskedIsUnresolved(line);
    } else if HoldsSecret(line) {
      MatchedIsActive(Strip(line));
    }
  }

  lemma {:induction false} UnresolvedOfMasked(lines: seq<string>)
    ensures Unresolved(Masked(lines)) == SecretKeys(lines)
  {
    if lines != [] {
      var init := lines[..|lines| - 1];
      UnresolvedOfMasked(init);
      MaskUnresolved(lines[|lines| - 1]);
      assert Masked(lines)[..|lines| - 1] == Masked(init);
    }
  }

  lemma BlankLastReads(actual: seq<string>, lines: seq<string>, names: set<string>)
    requires UpToBlankLast(actual, lines)
    ensures Unresolved(actual) == Unresolved(lines) && FieldValue(actual, names) == FieldValue(lines, names)
  {
  }

  /** On a scrubbed file the import lists exactly the live keys whose secret had a value, in order. */
  lemma UnresolvedExactly(text: string)
    ensures Unresolved(SplitLines(Scrub(text))) == SecretKeys(SplitLines(text))
  {
    LinesOfScrubbed(text);
    UnresolvedOfMasked(SplitLines(text));
    BlankLastReads(SplitLines(Scrub(text)), Masked(SplitLines(text)), LAKE);
  }

  lemma StripValues(a: string, x: string)
    requires Strip(x) != "" && Strip(x) != PLACEHOLDER && !IsSpace(x[|x| - 1])
    ensures Strip(a + "=" + x) != Strip(a + MASK) && Strip(a + "=" + x) != "" && Strip(a + MASK) != ""
  {
    var head := a + "=";
    HeadNotBlank(a);
    StripLeftConcat(head, x);
    StripLeftConcat(head, PLACEHOLDER);
    assert a + MASK == head + PLACEHOLDER;
    var left := StripLeft(head);
    assert Strip(head + x) == left + x && Strip(head + PLACEHOLDER) == left + PLACEHOLDER;
    assert (left + x)[|left|..] == x && (left + PLACEHOLDER)[|left|..] == PLACEHOLDER;
    assert Strip(PLACEHOLDER) == PLACEHOLDER;
  }

  lemma {:induction false} HeadNotBlank(a: string)
    ensures StripLeft(a + "=") != ""
  {
    if a != "" && IsSpace(a[0]) {
      assert (a + "=")[1..] == a[1..] + "=";
      HeadNotBlank(a[1..]);
    } else {
      assert !IsSpace((a + "=")[0]);
    }
  }

  lemma LastCharacter(s: string, e: nat)
    requires e < |s| && Strip(s[e + 1..]) != ""
    ensures s[e + 1..] != "" && s[|s| - 1] == s[e + 1..][|s[e + 1..]| - 1]
  {
  }

  lemma MaskFacts(line: string) returns (s: string, e: nat)
    requires Masks(line)
    ensures s == Strip(line) && 0 < e < |s| && s[e] == '=' && Mask(line) == s[..e] + MASK
    ensures !IsSpace(s[|s| - 1]) && Strip(s[e + 1..]) != "" && Strip(s[e + 1..]) != PLACEHOLDER
    ensures Strip(Mask(line)) == Mask(line) && Mask(line)[0] == s[0]
  {
    s := Strip(line);
    StripEnds(line);
    e := MatchSplits(s);
    SecretNotFirst(s, e);
    MaskedRematches(line);
  }

  lemma MaskKeepsFirstEquals(s: string, t: string, e: nat)
    requires e < |s| && s[e] == '=' && t == s[..e] + MASK
    ensures var f := NextEquals(s, 0);
            f <= e && NextEquals(t, 0) == f && f < |t| && t[..f] == s[..f] && '=' in s && '=' in t
  {
    assert t[..e] == s[..e] && t[e] == '=' && s[e] in s && t[e] in t;
    var f := NextEquals(s, 0);
    forall k | 0 <= k < e ensures t[k] == s[k] {
      assert t[k] == t[..e][k] == s[..e][k];
    }
    NextEqualsAt(t, 0, f);
    assert t[..f] == t[..e][..f] == s[..e][..f] == s[..f];
  }

  lemma MaskChangesValue(s: string, t: string, f: nat, e: nat)
    requires f <= e < |s| && s[e] == '=' && t == s[..e] + MASK
    requires Strip(s[e + 1..]) != "" && Strip(s[e + 1..]) != PLACEHOLDER && !IsSpace(s[|s| - 1])
    ensures NonEmpty(Strip(t[f + 1..])) != NonEmpty(Strip(s[f + 1..]))
  {
    var x := s[e + 1..];
    LastCharacter(s, e);
    if f < e {
      var a := s[f + 1..e];
      assert s[f + 1..] == a + "=" + x;
      assert t[f + 1..] == a + MASK;
      StripValues(a, x);
    } else {
      assert t[f + 1..] == PLACEHOLDER && Strip(PLACEHOLDER) == PLACEHOLDER;
    }
  }

  lemma MaskKeepsAssignment(line: string, names: set<string>)
    requires Masks(line)
    ensures Assigns(Mask(line), names) <==> Assigns(line, names)
  {
    var s, e := MaskFacts(line);
    MaskKeepsFirstEquals(s, Mask(line), e);
  }

  lemma AssignedAt(line: string, s: string, f: nat)
    requires s == Strip(line) && f == NextEquals(s, 0) && f < |s|
    ensures AssignedValue(line) == NonEmpty(Strip(s[f + 1..]))
  {
  }

  lemma MaskChangesAssigned(line: string)
    requires Masks(line)
    ensures AssignedValue(Mask(line)) != AssignedValue(line)
  {
    var s, e := MaskFacts(line);
    var t := Mask(line);
    MaskKeepsFirstEquals(s, t, e);
    var f := NextEquals(s, 0);
    MaskChangesValue(s, t, f, e);
    AssignedAt(line, s, f);
    AssignedAt(t, t, f);
  }

  /** The line that decides a field gets masked. */
  predicate DecidingLineMasked(lines: seq<string>, names: set<string>) {
    if lines == [] then false
    else
      var last := lines[|lines| - 1];
      if Assigns(last, names) then Masks(last) else DecidingLineMasked(lines[..|lines| - 1], names)
  }

  lemma {:induction false} FieldOfMasked(lines: seq<string>, names: set<string>)
    ensures FieldValue(Masked(lines), names) == FieldValue(lines, names) <==> !DecidingLineMasked(lines, names)
  {
    if lines != [] {
      var init, last := lines[..|lines| - 1], lines[|lines| - 1];
      assert Masked(lines)[..|lines| - 1] == Masked(init);
      FieldOfMasked(init, names);
      if Masks(last) {
        MaskKeepsAssignment(last, names);
        MaskChangesAssigned(last);
      }
    }
  }

  /** A metadata field survives export and import exactly when the line that decides it is not masked. */
  lemma MetadataSurvivesExactly(text: string, names: set<string>)
    ensures FieldValue(SplitLines(Scrub(text)), names) == FieldValue(SplitLines(text), names)
            <==> !DecidingLineMasked(SplitLines(text), names)
  {
    LinesOfScrubbed(text);
    FieldOfMasked(SplitLines(text), names);
    BlankLastReads(SplitLines(Scrub(text)), Masked(SplitLines(text)), names);
  }

  predicate KeywordFree(name: string) {
    forall i :: 0 <= i < |name| ==> KeywordAt(name, i) == 0
  }

  /** No three letters of a field name start a keyword. */
  predicate StartsNoWord(a: char, b: char, c: char) {
    && Fold(a) == a && Fold(b) == b && Fold(c) == c
    && (a == 'P' ==> b != 'A') && a != 'S' && (a == 'T' ==> b != 'O') && (a == 'K' ==> c != 'Y')
    && (a == 'C' ==> b != 'R')
  }

  lemma FieldLetters(name: string, i: nat)
    requires name in LAKE + PROJECT + ENVIRONMENT && i + 3 <= |name|
    ensures name[i] == 'S' ==> name[i + 1] == '_'
    ensures StartsNoWord(name[i], name[i + 1], name[i + 2]) || name[i] == 'S'
    ensures Fold(name[i + 1]) == name[i + 1]
  {
    if name == "LAKE_NAME" {
    } else if name == "LHS_LAKE_NAME" {
    } else if name == "UDP_ENV" {
    } else {
      assert name == "UDP_PROJECT_NAME";
    }
  }

  lemma KeywordLetters(word: string)
    requires word in WORDS
    ensures |word| >= 3 && word[0] in {'P', 'S', 'T', 'K', 'C'}
    ensures (word[0] == 'P' ==> word[1] == 'A') && (word[0] == 'S' ==> word[1] == 'E')
    ensures (word[0] == 'T' ==> word[1] == 'O') && (word[0] == 'K' ==> word[2] == 'Y')
    ensures word[0] == 'C' ==> word[1] == 'R'
  {
  }

  lemma NoWordInFieldName(name: string, i: nat, word: string)
    requires name in LAKE + PROJECT + ENVIRONMENT && word in WORDS && i + |word| <= |name|
    ensures !WordAt(name, i, word)
  {
    KeywordLetters(word);
    FieldLetters(name, i);
    if WordAt(name, i, word) {
      WordLetter(name, i, word, i);
      WordLetter(name, i, word, i + 1);
      WordLetter(name, i, word, i + 2);
    }
  }

  lemma FieldNamesAreKeywordFree(name: string)
    requires name in LAKE + PROJECT + ENVIRONMENT
    ensures KeywordFree(name)
  {
    forall i | 0 <= i < |name| ensures KeywordAt(name, i) == 0 {
      if KeywordAt(name, i) > 0 {
        var word := WordFound(name, i, WORDS);
        NoWordInFieldName(name, i, word);
      }
    }
  }

  lemma WordShift(s: string, a: nat, b: nat, i: nat, word: string)
    requires a <= b <= |s| && a <= i && WordAt(s, i, word) && i + |word| <= b
    ensures WordAt(s[a..b], i - a, word)
  {
    forall k | 0 <= k < |word| ensures Fold(s[a..b][i - a + k]) == word[k] {
      assert s[a..b][i - a + k] == s[i + k];
    }
  }

  lemma KeywordShift(s: string, a: nat, b: nat, i: nat)
    requires a <= b <= |s| && a <= i && KeywordAt(s, i) > 0 && i + KeywordAt(s, i) <= b
    ensures KeywordAt(s[a..b], i - a) > 0 && i - a < b - a
  {
    var word := WordFound(s, i, WORDS);
    WordShift(s, a, b, i, word);
    WordIsKeyword(s[a..b], i - a, word);
  }

  lemma KeywordSurvivesStrip(s: string, i: nat)
    requires KeywordAt(s, i) > 0
    ensures !KeywordFree(Strip(s))
  {
    var n := KeywordAt(s, i);
    var a, b := StripSlice(s);
    KeywordHasNoEquals(s, i, i);
    KeywordHasNoEquals(s, i, i + n - 1);
    assert a <= i && i + n <= b;
    KeywordShift(s, a, b, i);
  }

  /** A line of the form NAME=value with a keyword-free name and no second `=` is never masked. */
  lemma PlainAssignmentUnmasked(line: string, names: set<string>)
    requires names <= LAKE + PROJECT + ENVIRONMENT && Assigns(line, names)
    requires var s := Strip(line); '=' !in s[NextEquals(s, 0) + 1..]
    ensures !Masks(line)
  {
    var s := Strip(line);
    var f := NextEquals(s, 0);
    FieldNamesAreKeywordFree(Strip(s[..f]));
    if Match(s).Some? {
      var e := MatchSplits(s);
      LoneEquals(s, f, e);
      var i: nat :| KeywordBefore(s, i, e);
      KeyHasKeyword(s, f, i);
    }
  }

  lemma LoneEquals(s: string, f: nat, e: nat)
    requires f <= e < |s| && s[e] == '=' && '=' !in s[f + 1..]
    ensures e == f
  {
    assert forall k :: f < k < |s| ==> s[k] == s[f + 1..][k - f - 1];
  }

  lemma KeyHasKeyword(s: string, f: nat, i: nat)
    requires KeywordBefore(s, i, f)
    ensures !KeywordFree(Strip(s[..f]))
  {
    KeywordShift(s, 0, f, i);
    assert s[0..f] == s[..f];
    KeywordSurvivesStrip(s[..f], i);
  }

  ghost predicate PlainAssignments(lines: seq<string>, names: set<string>) {
    forall i :: 0 <= i < |lines| && Assigns(lines[i], names) ==>
      var s := Strip(lines[i]);
      '=' !in s[NextEquals(s, 0) + 1..]
  }

  lemma {:induction false} PlainDecidingLine(lines: seq<string>, names: set<string>)
    requires names <= LAKE + PROJECT + ENVIRONMENT && PlainAssignments(lines, names)
    ensures !DecidingLineMasked(lines, names)
  {
    if lines != [] {
      var init := lines[..|lines| - 1];
      assert forall i :: 0 <= i < |init| ==> init[i] == lines[i];
      PlainDecidingLine(init, names);
      if Assigns(lines[|lines| - 1], names) {
        PlainAssignmentUnmasked(lines[|lines| - 1], names);
      }
    }
  }

  /** Lake, project and environment names survive when their values hold no `=`. */
  lemma PlainMetadataSurvives(text: string, names: set<string>)
    requires names <= LAKE + PROJECT + ENVIRONMENT && PlainAssignments(SplitLines(text), names)
    ensures FieldValue(SplitLines(Scrub(text)), names) == FieldValue(SplitLines(text), names)
  {
    PlainDecidingLine(SplitLines(text), names);
    MetadataSurvivesExactly(text, names);
  }

  const LOSING: string := "LAKE_NAME=my_token=abc"

  lemma LosingLineMatches(line: string)
    requires line == LOSING
    ensures Match(line) == Some((line[..18], "abc"))
  {
    assert WordAt(line, 13, "TOKEN");
    WordIsKeyword(line, 13, "TOKEN");
    assert KeywordBefore(line, 13, 18);
    assert forall k :: 18 < k < |line| ==> line[k] != '=';
    MatchAt(line, 18);
    assert line[19..] == "abc";
  }

  lemma LosingLineIsPlain(line: string)
    requires line == LOSING
    ensures IsLine(line) && Strip(line) == line && line[0] != '#'
  {
    TrimmedStays(line);
  }

  lemma LosingLineSplits(line: string)
    requires line == LOSING
    ensures NextEquals(line, 0) == 9 && line[..9] == "LAKE_NAME" && '=' in line
  {
    assert line[9] in line;
    NextEqualsAt(line, 0, 9);
  }

  lemma LosingLineAssigns(line: string)
    requires line == LOSING
    ensures Assigns(line, LAKE)
  {
    LosingLineIsPlain(line);
    LosingLineSplits(line);
    TrimmedStays("LAKE_NAME");
  }

  lemma MaskedOnlyLineIsLost(line: string, names: set<string>)
    requires IsLine(line) && line != "" && Assigns(line, names) && Masks(line)
    ensures FieldValue(SplitLines(Scrub(line)), names) != FieldValue(SplitLines(line), names)
  {
    LineEndsAtBreak(line, "");
    assert line + "" == line && line[..|line|] == line;
    assert SplitLines(line) == [line];
    MetadataSurvivesExactly(line, names);
  }

  /** A value that reads like a secret assignment is lost: the pattern is not tied to the key of the line. */
  lemma SecretLookingValueIsLost(text: string)
    requires text == LOSING
    ensures FieldValue(SplitLines(Scrub(text)), LAKE) != FieldValue(SplitLines(text), LAKE)
  {
    LosingLineIsPlain(text);
    LosingLineAssigns(text);
    LosingLineMatches(text);
    TrimmedStays("abc");
    MaskedOnlyLineIsLost(text, LAKE);
  }

  // ---------- what a scrubbed line still shows ----------

  predicate Hidden(value: string) {
    Strip(value) in {"", "<rotate-me>"}
  }

  lemma StripKeepsEquals(s: string, i: nat)
    requires i < |s| && s[i] == '='
    ensures '=' in Strip(s)
  {
    var a, b := StripSlice(s);
    assert s[a..b][i - a] == '=';
  }

  lemma EqualsShows(value: string, i: nat)
    requires i < |value| && value[i] == '='
    ensures !Hidden(value)
  {
    StripKeepsEquals(value, i);
  }

  lemma SecretHasLast(s: string, f: nat) returns (e: nat)
    requires SecretEquals(s, f)
    ensures IsLastSecret(s, e) && f <= e < |s| && s[e] == '=' && MatchUpTo(s, |s|) == Some(e)
    ensures Match(s) == Some((s[..e], s[e + 1..]))
  {
    MatchExactly(s, f);
    e := MatchSplits(s);
    MatchExactly(s, e);
  }

  lemma MaskedShows(s: string, t: string, f: nat, e: nat)
    requires f <= e < |s| && s[e] == '=' && t == s[..e] + MASK
    ensures f < |t| && (Hidden(t[f + 1..]) <==> e == f)
  {
    if e == f {
      assert t[f + 1..] == PLACEHOLDER;
      TrimmedStays(PLACEHOLDER);
    } else {
      assert t[f + 1..][e - f - 1] == '=';
      EqualsShows(t[f + 1..], e - f - 1);
    }
  }

  lemma UnmaskedShows(s: string, f: nat, e: nat)
    requires f <= e < |s| && s[e] == '=' && (e == f ==> Hidden(s[f + 1..]))
    ensures Hidden(s[f + 1..]) <==> e == f
  {
    if e > f {
      EqualsShows(s[f + 1..], e - f - 1);
    }
  }

  /** What a stripped line shows after its first `=`, before and after masking. */
  ghost predicate HidesFrom(s: string, t: string, f: nat, e: nat) {
    && f < |s| && f < |t| && NextEquals(t, 0) == f && t[..f] == s[..f]
    && (Hidden(t[f + 1..]) <==> e == f)
  }

  lemma MaskedHides(line: string, s: string, f: nat, e: nat)
    requires Masks(line) && s == Strip(line) && f == NextEquals(s, 0) && f <= e < |s| && s[e] == '='
    requires Mask(line) == s[..e] + MASK
    ensures HidesFrom(s, Strip(Mask(line)), f, e)
  {
    MaskedRematches(line);
    MaskKeepsFirstEquals(s, Mask(line), e);
    MaskedShows(s, Mask(line), f, e);
  }

  lemma UnmaskedHides(line: string, s: string, f: nat, e: nat)
    requires !Masks(line) && s == Strip(line) && f == NextEquals(s, 0) && f <= e < |s| && s[e] == '='
    requires Match(s) == Some((s[..e], s[e + 1..]))
    ensures HidesFrom(s, Strip(Mask(line)), f, e)
  {
    UnmaskedShows(s, f, e);
  }

  lemma MaskHidesExactly(line: string)
    requires var s := Strip(line); SecretEquals(s, NextEquals(s, 0))
    ensures var s, t := Strip(line), Strip(Mask(line));
            var f := NextEquals(s, 0);
            && f < |s| && f < |t| && NextEquals(t, 0) == f && t[..f] == s[..f]
            && (Hidden(t[f + 1..]) <==> MatchUpTo(s, |s|) == Some(f))
  {
    var s := Strip(line);
    var f := NextEquals(s, 0);
    var e := SecretHasLast(s, f);
    if Masks(line) {
      MaskedHides(line, s, f, e);
    } else {
      UnmaskedHides(line, s, f, e);
    }
  }

  lemma MaskKeepsBefore(line: string, g: nat)
    requires SecretEquals(Strip(line), g)
    ensures var s, t := Strip(line), Strip(Mask(line)); g <= |s| && g <= |t| && t[..g] == s[..g]
  {
    var s := Strip(line);
    var e := SecretHasLast(s, g);
    if Masks(line) {
      MaskedRematches(line);
      assert (s[..e] + MASK)[..g] == s[..g];
    }
  }

  /** A secret key's value, taken from the first `=` of the line on, is hidden in the scrubbed file exactly when no
      later `=` looks like that of a secret; everything before such a later `=` ships as it is. */
  lemma SecretHiddenExactly(text: string, i: nat)
    requires i < |SplitLines(Scrub(text))| && i < |SplitLines(text)|
    requires var s := Strip(SplitLines(text)[i]); SecretEquals(s, NextEquals(s, 0))
    ensures var s, t := Strip(SplitLines(text)[i]), Strip(SplitLines(Scrub(text))[i]);
            var f := NextEquals(s, 0);
            && f < |t| && NextEquals(t, 0) == f && t[..f] == s[..f]
            && (Hidden(t[f + 1..]) <==> forall g: nat :: f < g ==> !SecretEquals(s, g))
            && forall g: nat :: f < g && SecretEquals(s, g) ==> g <= |s| && g <= |t| && t[..g] == s[..g]
  {
    var line := SplitLines(text)[i];
    var s := Strip(line);
    var f := NextEquals(s, 0);
    LinesOfScrubbed(text);
    LineOfMasked(SplitLines(text), SplitLines(Scrub(text)), i);
    MaskHidesExactly(line);
    MatchExactly(s, f);
    forall g: nat | f < g && SecretEquals(s, g)
      ensures g <= |s| && g <= |Strip(Mask(line))| && Strip(Mask(line))[..g] == s[..g]
    {
      MaskKeepsBefore(line, g);
    }
  }

  const UNMASKED: string := "DB_PASSWORD=hunter2key="
  const HALF_MASKED: string := "DB_PASSWORD=mykey=abc"

  lemma KeywordEnds(line: string, i: nat, e: nat, word: string)
    requires word in WORDS && WordAt(line, i, word) && i + |word| <= e < |line| && line[e] == '='
    requires forall k :: i <= k < |line| && k != e ==> line[k] != '='
    ensures Match(line) == Some((line[..e], line[e + 1..]))
  {
    WordIsKeyword(line, i, word);
    assert KeywordBefore(line, i, e);
    MatchAt(line, e);
  }

  lemma UnmaskedLetters(line: string)
    requires line == UNMASKED
    ensures |line| == 23 && WordAt(line, 19, "KEY") && line[22] == '=' && IsLine(line)
    ensures !IsSpace(line[0]) && !IsSpace(line[22])
    ensures forall k :: 19 <= k < |line| && k != 22 ==> line[k] != '='
  {
  }

  lemma UnmaskedMatches(line: string)
    requires line == UNMASKED
    ensures Match(line) == Some((line[..22], "")) && Strip(line) == line && IsLine(line)
  {
    UnmaskedLetters(line);
    TrimmedStays(line);
    KeywordEnds(line, 19, 22, "KEY");
    assert line[22 + 1..] == [];
  }

  lemma HalfMaskedLetters(line: string)
    requires line == HALF_MASKED
    ensures |line| == 21 && WordAt(line, 14, "KEY") && line[17] == '=' && IsLine(line)
    ensures !IsSpace(line[0]) && !IsSpace(line[20])
    ensures forall k :: 14 <= k < |line| && k != 17 ==> line[k] != '='
  {
  }

  lemma HalfMaskedValue(line: string)
    requires line == HALF_MASKED
    ensures line[..17] == "DB_PASSWORD=mykey" && line[18..] == "abc"
  {
  }

  lemma HalfMaskedMatches(line: string)
    requires line == HALF_MASKED
    ensures Match(line) == Some((line[..17], line[18..])) && Strip(line) == line && IsLine(line)
  {
    HalfMaskedLetters(line);
    TrimmedStays(line);
    KeywordEnds(line, 14, 17, "KEY");
  }

  lemma OnlyLine(line: string)
    requires IsLine(line) && line != ""
    ensures SplitLines(line) == [line] && Scrub(line) == Mask(line)
  {
    LineEndsAtBreak(line, "");
    assert line + "" == line && line[..|line|] == line;
    assert Masked([line]) == [Mask(line)];
    assert !IsBreak(line[|line| - 1]);
  }

  lemma BlankValueStays(line: string)
    requires var m := Match(Strip(line)); m.Some? && Strip(m.value.1) == ""
    ensures Mask(line) == line && !IsUnresolved(line)
  {
  }

  lemma OneLineResolved(line: string)
    requires !IsUnresolved(line)
    ensures Unresolved([line]) == []
  {
    assert [line][..0] == [];
  }

  /** A password that ends in `key=` ships unmasked and is not listed for rotation. */
  lemma PasswordShips(text: string)
    requires text == UNMASKED
    ensures Scrub(text) == text && Unresolved(SplitLines(Scrub(text))) == []
  {
    UnmaskedMatches(text);
    BlankValueStays(text);
    OnlyLine(text);
    OneLineResolved(text);
  }

  lemma HalfIsMasked(line: string, key: string, value: string)
    requires Strip(line) == line && Match(line) == Some((key, value))
    requires value != "" && !IsSpace(value[0]) && !IsSpace(value[|value| - 1]) && value != PLACEHOLDER
    ensures Mask(line) == key + MASK
  {
    TrimmedStays(value);
  }

  /** A password with `key=` inside keeps what stands before it. */
  lemma PasswordShipsInPart(text: string)
    requires text == HALF_MASKED
    ensures Scrub(text) == text[..17] + "=<rotate-me>" && text[..17] == "DB_PASSWORD=mykey"
  {
    HalfMaskedMatches(text);
    HalfMaskedValue(text);
    HalfIsMasked(text, text[..17], text[18..]);
    OnlyLine(text);
  }
}
