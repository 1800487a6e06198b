/** Selector-group rewriting: `selector.replace(/(.+,.+)/, ':is($1)')` in
    src/css-parser.js and `n.replace(/([\s\S]+,[\s\S]+)/m, ':is($1)')` in the
    v1.0.0 build. The regex is modelled by its JavaScript match semantics
    (leftmost match, greedy quantifiers, first match only) and then shown to
    agree with the plain rule "wrap the whole string iff a comma has at least
    one character on each side". */
module SelectorGroup {
  import opened Text

  /** What the atom of the pattern matches: `.` (no `s` flag) or `[\s\S]`. */
  predicate Dot(c: char, anyChar: bool)
  {
    anyChar || !IsLineTerminator(c)
  }

  /** End of the run of `Dot` characters starting at `i`. */
  function RunEnd(s: string, i: nat, anyChar: bool): (e: nat)
    requires i <= |s|
    ensures i <= e <= |s|
    decreases |s| - i
  {
    if i == |s| || !Dot(s[i], anyChar) then i else RunEnd(s, i + 1, anyChar)
  }

  /** The run is maximal: every character in it matches the atom and the
      one after it does not. */
  lemma {:induction false} RunEndSpec(s: string, i: nat, anyChar: bool)
    requires i <= |s|
    ensures forall k :: i <= k < RunEnd(s, i, anyChar) ==> Dot(s[k], anyChar)
    ensures RunEnd(s, i, anyChar) < |s| ==> !Dot(s[RunEnd(s, i, anyChar)], anyChar)
    decreases |s| - i
  {
    if i < |s| && Dot(s[i], anyChar) {
      RunEndSpec(s, i + 1, anyChar);
    }
  }

  /** The pattern `X+,X+` can match starting at `i`: inside the run of `X`
      characters that starts at `i` there is a comma after `i` with at least
      one character of the run after it. */
  predicate MatchesAt(s: string, i: nat, anyChar: bool)
    requires i <= |s|
  {
    exists c :: i < c < RunEnd(s, i, anyChar) - 1 && s[c] == ','
  }

  /** The leftmost start position at or after `i` where the pattern matches. */
  function FirstMatch(s: string, i: nat, anyChar: bool): (m: Option<nat>)
    requires i <= |s|
    ensures m.Some? ==> i <= m.value <= |s|
    decreases |s| - i
  {
    if MatchesAt(s, i, anyChar) then Some(i)
    else if i == |s| then None
    else FirstMatch(s, i + 1, anyChar)
  }

  /** `FirstMatch` finds the leftmost position where the pattern matches,
      or reports that there is none. */
  lemma {:induction false} FirstMatchSpec(s: string, i: nat, anyChar: bool)
    requires i <= |s|
    ensures var m := FirstMatch(s, i, anyChar);
      && (m.Some? ==> MatchesAt(s, m.value, anyChar))
      && (m.Some? ==> forall k :: i <= k < m.value ==> !MatchesAt(s, k, anyChar))
      && (m.None? ==> forall k :: i <= k <= |s| ==> !MatchesAt(s, k, anyChar))
    decreases |s| - i
  {
    if !MatchesAt(s, i, anyChar) && i < |s| {
      FirstMatchSpec(s, i + 1, anyChar);
    }
  }

  /** `s.replace(re, ':is($1)')` for the non-global group regex: the first
      match, which greedy quantifiers extend to the end of its run, is
      replaced by itself wrapped in `:is(...)`. */
  function GroupReplace(s: string, anyChar: bool): string
  {
    match FirstMatch(s, 0, anyChar)
    case None => s
    case Some(i) =>
      var j := RunEnd(s, i, anyChar);
      s[..i] + ":is(" + s[i..j] + ")" + s[j..]
  }

  /** The language of the pattern `X+,X+`, stated directly. */
  predicate InPattern(t: string, anyChar: bool)
  {
    (forall k :: 0 <= k < |t| ==> Dot(t[k], anyChar))
    && exists c :: 0 < c < |t| - 1 && t[c] == ','
  }

  /** The plain rule: some comma has at least one character on each side. */
  predicate HasInnerComma(s: string)
  {
    exists i :: 0 < i < |s| - 1 && s[i] == ','
  }

  function WrapGroup(s: string): string
  {
    if HasInnerComma(s) then ":is(" + s + ")" else s
  }

  /** A substring in the pattern's language that starts at `i` lies inside
      the run at `i`, so the pattern matches at `i`. */
  lemma {:induction false} InPatternMatchesAt(s: string, i: nat, j: nat, anyChar: bool)
    requires i <= j <= |s|
    requires InPattern(s[i..j], anyChar)
    ensures MatchesAt(s, i, anyChar)
    ensures j <= RunEnd(s, i, anyChar)
  {
    var c :| 0 < c < j - i - 1 && s[i..j][c] == ',';
    assert s[i + c] == ',';
    RunEndSpec(s, i, anyChar);
    if RunEnd(s, i, anyChar) < j {
      assert s[i..j][RunEnd(s, i, anyChar) - i] == s[RunEnd(s, i, anyChar)];
    }
  }

  /** `GroupReplace` wraps the leftmost-longest substring in the pattern's
      language, and leaves `s` alone when no substring is in it: the
      JavaScript semantics of a non-global `replace` with this regex. */
  lemma {:induction false} GroupReplaceIsLeftmostLongest(s: string, anyChar: bool)
    ensures FirstMatch(s, 0, anyChar).None? ==>
      GroupReplace(s, anyChar) == s
      && forall i, j :: 0 <= i <= j <= |s| ==> !InPattern(s[i..j], anyChar)
    ensures FirstMatch(s, 0, anyChar).Some? ==>
      var i := FirstMatch(s, 0, anyChar).value;
      var j := RunEnd(s, i, anyChar);
      && InPattern(s[i..j], anyChar)
      && GroupReplace(s, anyChar) == s[..i] + ":is(" + s[i..j] + ")" + s[j..]
      && (forall i', j' :: 0 <= i' < i && i' <= j' <= |s| ==> !InPattern(s[i'..j'], anyChar))
      && (forall j' :: j < j' <= |s| ==> !InPattern(s[i..j'], anyChar))
  {
    var m := FirstMatch(s, 0, anyChar);
    FirstMatchSpec(s, 0, anyChar);
    forall i, j | 0 <= i <= j <= |s| && InPattern(s[i..j], anyChar)
      ensures m.Some? && m.value <= i
      ensures m.Some? && m.value == i ==> j <= RunEnd(s, i, anyChar)
    {
      InPatternMatchesAt(s, i, j, anyChar);
    }
    if m.Some? {
      var i := m.value;
      var j := RunEnd(s, i, anyChar);
      RunEndSpec(s, i, anyChar);
      var c :| i < c < j - 1 && s[c] == ',';
      assert s[i..j][c - i] == ',';
    }
  }

  lemma {:induction false} RunEndAll(s: string, i: nat, anyChar: bool)
    requires i <= |s|
    requires anyChar || NoLineTerminator(s)
    ensures RunEnd(s, i, anyChar) == |s|
    decreases |s| - i
  {
    if i < |s| {
      RunEndAll(s, i + 1, anyChar);
    }
  }

  /** On a string without line terminators (or with `[\s\S]`) the regex
      rewrite is exactly the plain rule: the whole selector is wrapped iff
      it has a comma with a character on each side. */
  lemma {:induction false} GroupReplaceIsWrapGroup(s: string, anyChar: bool)
    requires anyChar || NoLineTerminator(s)
    ensures GroupReplace(s, anyChar) == WrapGroup(s)
  {
    if |s| > 0 {
      RunEndAll(s, 0, anyChar);
    }
    FirstMatchSpec(s, 0, anyChar);
    if HasInnerComma(s) {
      var c :| 0 < c < |s| - 1 && s[c] == ',';
      assert MatchesAt(s, 0, anyChar);
      assert s[..0] == "" && s[0..|s|] == s && s[|s|..] == "";
    }
  }
}
