/** The whitespace and comment normaliser that `q` of dist/cjs/fusion.js
    applies before tokenising: the `replace` chain over the regexes
    `u c o i`, then `trim()`, then the regexes `l a p`. Each regex pass is a
    left-to-right scan from index `i` that emits what its matches are
    replaced by and copies every other character. */
module FusionNormalise {
  import opened Text

  predicate IsBreak(c: char)
  {
    c == '\r' || c == '\n'
  }

  /** The class `[:;{}]`. */
  predicate IsDelim(c: char)
  {
    c == ':' || c == ';' || c == '{' || c == '}'
  }

  /** `t` has no two neighbouring characters `a`, `b` with `bad(a, b)`
      (`NoPairMeans` states it with indices). */
  predicate NoPair(t: string, bad: (char, char) -> bool)
  {
    |t| < 2 || (!bad(t[0], t[1]) && NoPair(t[1..], bad))
  }

  predicate SpaceSpace(a: char, b: char)
  {
    IsSpace(a) && IsSpace(b)
  }

  /** White space just before or just after one of `: ; { }`. */
  predicate SpaceDelim(a: char, b: char)
  {
    (IsSpace(a) && IsDelim(b)) || (IsDelim(a) && IsSpace(b))
  }

  predicate CloseSemi(a: char, b: char)
  {
    a == '}' && b == ';'
  }

  /** A `}` right after a character outside `[:;{}]`. */
  predicate LooseClose(a: char, b: char)
  {
    b == '}' && !IsDelim(a)
  }

  /** No white space at either end. */
  predicate Trimmed(t: string)
  {
    t != [] ==> !IsSpace(t[0]) && !IsSpace(t[|t| - 1])
  }

  /** A comment opener: a slash and then a star. */
  predicate SlashStar(a: char, b: char)
  {
    a == '/' && b == '*'
  }

  /** No `*\/` inside `s`. */
  predicate NoCloser(s: string)
  {
    forall k :: 0 <= k < |s| - 1 ==> !(s[k] == '*' && s[k + 1] == '/')
  }

  // ---------------------------------------------------------------- u

  /** The end of the run of `\r` and `\n` starting at `i`. */
  function BreakEnd(s: string, i: nat): (k: nat)
    requires i <= |s|
    ensures i <= k <= |s|
    decreases |s| - i
  {
    if i < |s| && IsBreak(s[i]) then BreakEnd(s, i + 1) else i
  }

  /** `replace(/(\r\n|\r|\n)+/g, " ")`: each maximal run of line breaks
      becomes one space. */
  function Breaks(s: string, i: nat): string
    requires i <= |s|
    decreases |s| - i
  {
    if i == |s| then ""
    else if IsBreak(s[i]) then " " + Breaks(s, BreakEnd(s, i + 1))
    else [s[i]] + Breaks(s, i + 1)
  }

  // ---------------------------------------------------------------- c

  /** `replace(/\t/g, " ")`. */
  function Tabs(s: string, i: nat): string
    requires i <= |s|
    decreases |s| - i
  {
    if i == |s| then "" else [if s[i] == '\t' then ' ' else s[i]] + Tabs(s, i + 1)
  }

  // ---------------------------------------------------------------- o

  /** `replace(/\s{2,}/g, " ")`: each run of two or more white-space
      characters becomes one space; a single one is kept as it is. */
  function Squeeze(s: string, i: nat): string
    requires i <= |s|
    decreases |s| - i
  {
    if i == |s| then ""
    else if i + 1 < |s| && IsSpace(s[i]) && IsSpace(s[i + 1]) then " " + Squeeze(s, SkipSpace(s, i + 2))
    else [s[i]] + Squeeze(s, i + 1)
  }

  // ---------------------------------------------------------------- i

  /** The first `*\/` starting at or after `j`. */
  function CloseAt(s: string, j: nat): (r: Option<nat>)
    requires j <= |s|
    ensures r.Some? ==> j <= r.value && r.value + 2 <= |s|
    decreases |s| - j
  {
    if j + 1 >= |s| then None
    else if s[j] == '*' && s[j + 1] == '/' then Some(j)
    else CloseAt(s, j + 1)
  }

  // The regex `i`, replaced by "": a comment opener (slash, star) and
  // everything up to the first closer (star, slash) after it disappear;
  // an opener never closed stays.
  function Strip(s: string, i: nat): string
    requires i <= |s|
    decreases |s| - i
  {
    if i == |s| then ""
    else if i + 1 < |s| && s[i] == '/' && s[i + 1] == '*' && CloseAt(s, i + 2).Some? then
      Strip(s, CloseAt(s, i + 2).value + 2)
    else [s[i]] + Strip(s, i + 1)
  }

  // ---------------------------------------------------------------- l

  /** `replace(/\s*([:;{}])\s*\/g, "$1")`: white space on either side of
      `: ; { }` disappears; other white space stays. */
  function Tighten(s: string, i: nat): string
    requires i <= |s|
    decreases |s| - i
  {
    if i == |s| then ""
    else if IsDelim(s[i]) then [s[i]] + Tighten(s, SkipSpace(s, i + 1))
    else if IsSpace(s[i]) && SkipSpace(s, i) < |s| && IsDelim(s[SkipSpace(s, i)]) then
      var d := SkipSpace(s, i);
      [s[d]] + Tighten(s, SkipSpace(s, d + 1))
    else [s[i]] + Tighten(s, i + 1)
  }

  // ---------------------------------------------------------------- a

  /** The end of the run of `;` starting at `j`. */
  function SemiEnd(s: string, j: nat): (k: nat)
    requires j <= |s|
    ensures j <= k <= |s|
    decreases |s| - j
  {
    if j < |s| && s[j] == ';' then SemiEnd(s, j + 1) else j
  }

  /** `replace(/\};+/g, "}")`. */
  function DropSemis(s: string, i: nat): string
    requires i <= |s|
    decreases |s| - i
  {
    if i == |s| then ""
    else if s[i] == '}' && i + 1 < |s| && s[i + 1] == ';' then "}" + DropSemis(s, SemiEnd(s, i + 2))
    else [s[i]] + DropSemis(s, i + 1)
  }

  // ---------------------------------------------------------------- p

  /** `replace(/([^:;{}])}/g, "$1;}")`. */
  function CloseDecls(s: string, i: nat): string
    requires i <= |s|
    decreases |s| - i
  {
    if i == |s| then ""
    else if i + 1 < |s| && !IsDelim(s[i]) && s[i + 1] == '}' then [s[i], ';', '}'] + CloseDecls(s, i + 2)
    else [s[i]] + CloseDecls(s, i + 1)
  }

  // ------------------------------------------------------------ chain

  /** The text after the three white-space passes `u`, `c` and `o`. */
  function Collapsed(css: string): string
  {
    var broken := Breaks(css, 0);
    var tabbed := Tabs(broken, 0);
    Squeeze(tabbed, 0)
  }

  /** The whole chain, comments removed and the result trimmed after `o`. */
  function Normalise(css: string): string
  {
    var trimmed := Trim(Strip(Collapsed(css), 0));
    var tight := Tighten(trimmed, 0);
    CloseDecls(DropSemis(tight, 0), 0)
  }

  // ============================================================ lemmas

  lemma {:induction false} NoPairCons(c: char, r: string, bad: (char, char) -> bool)
    ensures NoPair([c] + r, bad) <==> NoPair(r, bad) && (r != [] ==> !bad(c, r[0]))
  {
    assert ([c] + r)[1..] == r;
  }

  lemma {:induction false} NoPairAt(t: string, bad: (char, char) -> bool, k: nat)
    requires NoPair(t, bad)
    requires k + 1 < |t|
    ensures !bad(t[k], t[k + 1])
  {
    NoPairMeans(t, bad);
  }

  /** `NoPair` speaks of every pair of neighbours. */
  lemma {:induction false} NoPairMeans(t: string, bad: (char, char) -> bool)
    ensures NoPair(t, bad) <==> forall k :: 0 <= k < |t| - 1 ==> !bad(t[k], t[k + 1])
    decreases |t|
  {
    if |t| >= 2 {
      NoPairMeans(t[1..], bad);
      if forall k :: 1 <= k < |t| - 1 ==> !bad(t[k], t[k + 1]) {
        assert forall k :: 0 <= k < |t[1..]| - 1 ==> !bad(t[1..][k], t[1..][k + 1]) by {
          forall k | 0 <= k < |t[1..]| - 1
            ensures !bad(t[1..][k], t[1..][k + 1])
          {
            assert t[1..][k] == t[k + 1] && t[1..][k + 1] == t[k + 2];
          }
        }
      }
    }
  }

  /** A slice keeps every property of neighbouring pairs. */
  lemma {:induction false} NoPairSlice(t: string, i: nat, j: nat, bad: (char, char) -> bool)
    requires i <= j <= |t|
    requires NoPair(t, bad)
    ensures NoPair(t[i..j], bad)
  {
    NoPairMeans(t, bad);
    NoPairMeans(t[i..j], bad);
    var u := t[i..j];
    forall k | 0 <= k < |u| - 1
      ensures !bad(u[k], u[k + 1])
    {
      assert u[k] == t[i + k] && u[k + 1] == t[i + k + 1];
    }
  }

  // ---------------------------------------------------------------- u c o

  lemma {:induction false} BreaksHead(s: string, i: nat)
    requires i < |s|
    ensures Breaks(s, i) != [] && Breaks(s, i)[0] == (if IsBreak(s[i]) then ' ' else s[i])
  {
  }

  lemma {:induction false} SqueezeHead(s: string, i: nat)
    requires i < |s|
    ensures Squeeze(s, i) != []
    ensures Squeeze(s, i)[0] == s[i] || (Squeeze(s, i)[0] == ' ' && IsSpace(s[i]))
  {
  }

  /** After `o` no two white-space characters are neighbours. */
  lemma {:induction false} SqueezeNoDoubleSpace(s: string, i: nat)
    requires i <= |s|
    ensures NoPair(Squeeze(s, i), SpaceSpace)
    decreases |s| - i
  {
    if i < |s| {
      if i + 1 < |s| && IsSpace(s[i]) && IsSpace(s[i + 1]) {
        var e := SkipSpace(s, i + 2);
        SqueezeNoDoubleSpace(s, e);
        SkipSpaceSpec(s, i + 2);
        if e < |s| {
          SqueezeHead(s, e);
        }
        NoPairCons(' ', Squeeze(s, e), SpaceSpace);
      } else {
        SqueezeNoDoubleSpace(s, i + 1);
        if i + 1 < |s| {
          SqueezeHead(s, i + 1);
        }
        NoPairCons(s[i], Squeeze(s, i + 1), SpaceSpace);
      }
    }
  }

  /** The three white-space passes create no comment opener. */
  lemma {:induction false} BreaksNoOpener(s: string, i: nat)
    requires i <= |s|
    requires NoPair(s, SlashStar)
    ensures NoPair(Breaks(s, i), SlashStar)
    decreases |s| - i
  {
    if i < |s| {
      var j := if IsBreak(s[i]) then BreakEnd(s, i + 1) else i + 1;
      BreaksNoOpener(s, j);
      if j < |s| {
        BreaksHead(s, j);
      }
      if i + 1 < |s| {
        NoPairAt(s, SlashStar, i);
      }
      NoPairCons(Breaks(s, i)[0], Breaks(s, j), SlashStar);
    }
  }

  lemma {:induction false} TabsNoOpener(s: string, i: nat)
    requires i <= |s|
    requires NoPair(s, SlashStar)
    ensures NoPair(Tabs(s, i), SlashStar)
    decreases |s| - i
  {
    if i < |s| {
      TabsNoOpener(s, i + 1);
      if i + 1 < |s| {
        NoPairAt(s, SlashStar, i);
      }
      NoPairCons(Tabs(s, i)[0], Tabs(s, i + 1), SlashStar);
    }
  }

  lemma {:induction false} SqueezeNoOpener(s: string, i: nat)
    requires i <= |s|
    requires NoPair(s, SlashStar)
    ensures NoPair(Squeeze(s, i), SlashStar)
    decreases |s| - i
  {
    if i < |s| {
      var j := if i + 1 < |s| && IsSpace(s[i]) && IsSpace(s[i + 1]) then SkipSpace(s, i + 2) else i + 1;
      SqueezeNoOpener(s, j);
      if j < |s| {
        SqueezeHead(s, j);
      }
      if i + 1 < |s| {
        NoPairAt(s, SlashStar, i);
      }
      NoPairCons(Squeeze(s, i)[0], Squeeze(s, j), SlashStar);
    }
  }

  // ---------------------------------------------------------------- i

  lemma {:induction false} CloseAtFirst(s: string, j: nat, m: nat)
    requires j <= m && m + 1 < |s|
    requires s[m] == '*' && s[m + 1] == '/'
    requires forall k :: j <= k < m ==> !(s[k] == '*' && s[k + 1] == '/')
    ensures CloseAt(s, j) == Some(m)
    decreases m - j
  {
    if j < m {
      CloseAtFirst(s, j + 1, m);
    }
  }

  /** With no comment opener the pass changes nothing. */
  lemma {:induction false} StripNothing(s: string, i: nat)
    requires i <= |s|
    requires NoPair(s, SlashStar)
    ensures Strip(s, i) == s[i..]
    decreases |s| - i
  {
    if i < |s| {
      if i + 1 < |s| {
        NoPairAt(s, SlashStar, i);
      }
      StripNothing(s, i + 1);
      assert s[i..] == [s[i]] + s[i + 1..];
    }
  }

  lemma {:induction false} CloseAtShift(p: string, s: string, j: nat)
    requires j <= |s|
    ensures CloseAt(p + s, |p| + j) == (if CloseAt(s, j).Some? then Some(|p| + CloseAt(s, j).value) else None)
    decreases |s| - j
  {
    var t := p + s;
    if j + 1 < |s| {
      assert t[|p| + j] == s[j] && t[|p| + j + 1] == s[j + 1];
      CloseAtShift(p, s, j + 1);
    }
  }

  /** Where the comment pass goes on after index `i`. */
  function StripNext(s: string, i: nat): (j: nat)
    requires i < |s|
    ensures i < j <= |s|
  {
    if i + 1 < |s| && s[i] == '/' && s[i + 1] == '*' && CloseAt(s, i + 2).Some? then CloseAt(s, i + 2).value + 2
    else i + 1
  }

  /** What the comment pass keeps of index `i`. */
  function StripHead(s: string, i: nat): string
    requires i < |s|
  {
    if i + 1 < |s| && s[i] == '/' && s[i + 1] == '*' && CloseAt(s, i + 2).Some? then "" else [s[i]]
  }

  lemma {:induction false} StripStep(s: string, i: nat)
    requires i < |s|
    ensures Strip(s, i) == StripHead(s, i) + Strip(s, StripNext(s, i))
  {
  }

  lemma {:induction false} StripNextShift(p: string, s: string, i: nat)
    requires i < |s|
    ensures StripNext(p + s, |p| + i) == |p| + StripNext(s, i)
    ensures StripHead(p + s, |p| + i) == StripHead(s, i)
  {
    var t := p + s;
    var j := |p| + i;
    assert t[j] == s[i];
    if i + 1 < |s| {
      assert t[j + 1] == s[i + 1];
      CloseAtShift(p, s, i + 2);
    }
  }

  /** The pass reads only what lies at and after `i`. */
  lemma {:induction false} StripShift(p: string, s: string, i: nat)
    requires i <= |s|
    ensures Strip(p + s, |p| + i) == Strip(s, i)
    decreases |s| - i
  {
    if i < |s| {
      var t := p + s;
      var k := StripNext(s, i);
      StripNextShift(p, s, i);
      StripShift(p, s, k);
      assert Strip(t, |p| + k) == Strip(s, k);
      StripStep(t, |p| + i);
      assert Strip(t, |p| + i) == StripHead(s, i) + Strip(t, |p| + k);
      StripStep(s, i);
    }
  }

  // A comment is removed up to the FIRST closer (star, slash) after its
  // opener, whatever follows (the match is lazy), and the pass goes on
  // after it.
  lemma {:induction false} CommentRemoved(body: string, rest: string)
    requires NoCloser(body)
    ensures Strip("/*" + body + "*/" + rest, 0) == Strip(rest, 0)
  {
    var pre := "/*" + body + "*/";
    var t := pre + rest;
    var m := 2 + |body|;
    forall k | 2 <= k < m
      ensures !(t[k] == '*' && t[k + 1] == '/')
    {
      assert t[k] == body[k - 2];
      if k + 1 < m {
        assert t[k + 1] == body[k - 1];
      } else {
        assert t[k + 1] == '*';
      }
    }
    assert t[m] == '*' && t[m + 1] == '/';
    CloseAtFirst(t, 2, m);
    assert t[0] == '/' && t[1] == '*';
    StripShift(pre, rest, 0);
  }

  // An opener with no closer after it is kept as text.
  lemma {:induction false} UnclosedCommentKept(s: string)
    requires |s| >= 2 && s[0] == '/' && s[1] == '*'
    requires NoCloser(s[2..])
    ensures Strip(s, 0) == [s[0]] + Strip(s, 1)
  {
    forall k | 2 <= k < |s| - 1
      ensures !(s[k] == '*' && s[k + 1] == '/')
    {
      assert s[2..][k - 2] == s[k] && s[2..][k - 1] == s[k + 1];
    }
    CloseAtNone(s, 2);
  }

  lemma {:induction false} CloseAtNone(s: string, j: nat)
    requires j <= |s|
    requires forall k :: j <= k < |s| - 1 ==> !(s[k] == '*' && s[k + 1] == '/')
    ensures CloseAt(s, j).None?
    decreases |s| - j
  {
    if j + 1 < |s| {
      CloseAtNone(s, j + 1);
    }
  }

  // ---------------------------------------------------------------- l

  lemma {:induction false} TightenHead(s: string, i: nat)
    requires i < |s|
    ensures Tighten(s, i) != []
    ensures Tighten(s, i)[0] == s[i]
         || (IsSpace(s[i]) && SkipSpace(s, i) < |s| && IsDelim(s[SkipSpace(s, i)]) && Tighten(s, i)[0] == s[SkipSpace(s, i)])
  {
  }

  /** Where the scan resumes after a delimiter, the output does not start
      with white space. */
  lemma {:induction false} TightenAfterDelim(s: string, j: nat)
    requires j <= |s|
    requires j < |s| ==> !IsSpace(s[j])
    ensures Tighten(s, j) != [] ==> !IsSpace(Tighten(s, j)[0])
  {
    if j < |s| {
      TightenHead(s, j);
    }
  }

  /** The index the scan resumes at after index `i`. */
  function TightenNext(s: string, i: nat): (j: nat)
    requires i < |s|
    ensures i < j <= |s|
  {
    if IsDelim(s[i]) then SkipSpace(s, i + 1)
    else if IsSpace(s[i]) && SkipSpace(s, i) < |s| && IsDelim(s[SkipSpace(s, i)]) then SkipSpace(s, SkipSpace(s, i) + 1)
    else i + 1
  }

  lemma {:induction false} TightenStep(s: string, i: nat)
    requires i < |s|
    ensures Tighten(s, i) == [Tighten(s, i)[0]] + Tighten(s, TightenNext(s, i))
    ensures TightenNext(s, i) != i + 1 ==> IsDelim(Tighten(s, i)[0])
    ensures TightenNext(s, i) < |s| && TightenNext(s, i) != i + 1 ==> !IsSpace(s[TightenNext(s, i)])
  {
    var j := TightenNext(s, i);
    if IsDelim(s[i]) {
      assert Tighten(s, i) == [s[i]] + Tighten(s, j);
      SkipSpaceSpec(s, i + 1);
    } else if IsSpace(s[i]) && SkipSpace(s, i) < |s| && IsDelim(s[SkipSpace(s, i)]) {
      var d := SkipSpace(s, i);
      assert Tighten(s, i) == [s[d]] + Tighten(s, j);
      SkipSpaceSpec(s, d + 1);
    } else {
      assert Tighten(s, i) == [s[i]] + Tighten(s, j);
    }
  }

  /** After `l` no white space touches `: ; { }`, in or out of quotes. */
  lemma {:induction false} TightenTight(s: string, i: nat)
    requires i <= |s|
    ensures NoPair(Tighten(s, i), SpaceDelim)
    decreases |s| - i
  {
    if i < |s| {
      var j := TightenNext(s, i);
      TightenStep(s, i);
      TightenTight(s, j);
      if j < |s| {
        TightenHead(s, j);
        if j == i + 1 && IsSpace(s[i]) {
          assert SkipSpace(s, i) == SkipSpace(s, i + 1);
        }
      }
      NoPairCons(Tighten(s, i)[0], Tighten(s, j), SpaceDelim);
    }
  }

  /** `l` keeps a pair property that never involves a delimiter. */
  lemma {:induction false} TightenKeeps(s: string, i: nat, bad: (char, char) -> bool)
    requires i <= |s|
    requires NoPair(s, bad)
    requires forall a, d :: IsDelim(d) ==> !bad(a, d) && !bad(d, a)
    ensures NoPair(Tighten(s, i), bad)
    decreases |s| - i
  {
    if i < |s| {
      var j := TightenNext(s, i);
      TightenStep(s, i);
      TightenKeeps(s, j, bad);
      if j < |s| {
        TightenHead(s, j);
        if j == i + 1 {
          NoPairAt(s, bad, i);
        }
      }
      NoPairCons(Tighten(s, i)[0], Tighten(s, j), bad);
    }
  }

  lemma {:induction false} TightenLast(s: string, i: nat)
    requires i < |s|
    requires !IsSpace(s[|s| - 1])
    ensures Tighten(s, i) != [] && !IsSpace(Tighten(s, i)[|Tighten(s, i)| - 1])
    decreases |s| - i
  {
    var j := TightenNext(s, i);
    TightenStep(s, i);
    if j < |s| {
      TightenLast(s, j);
    }
  }

  // ---------------------------------------------------------------- a

  lemma {:induction false} SemiEndSpec(s: string, j: nat)
    requires j <= |s|
    ensures forall k :: j <= k < SemiEnd(s, j) ==> s[k] == ';'
    ensures SemiEnd(s, j) < |s| ==> s[SemiEnd(s, j)] != ';'
    decreases |s| - j
  {
    if j < |s| && s[j] == ';' {
      SemiEndSpec(s, j + 1);
    }
  }

  /** The index the scan resumes at after index `i`. */
  function DropSemisNext(s: string, i: nat): (j: nat)
    requires i < |s|
    ensures i < j <= |s|
  {
    if s[i] == '}' && i + 1 < |s| && s[i + 1] == ';' then SemiEnd(s, i + 2) else i + 1
  }

  lemma {:induction false} DropSemisStep(s: string, i: nat)
    requires i < |s|
    ensures DropSemis(s, i) == [s[i]] + DropSemis(s, DropSemisNext(s, i))
    ensures DropSemisNext(s, i) != i + 1 ==> s[i] == '}' && s[DropSemisNext(s, i) - 1] == ';'
    ensures DropSemisNext(s, i) < |s| ==> !(s[i] == '}' && s[DropSemisNext(s, i)] == ';')
  {
    if s[i] == '}' && i + 1 < |s| && s[i + 1] == ';' {
      assert DropSemis(s, i) == "}" + DropSemis(s, SemiEnd(s, i + 2));
      SemiEndSpec(s, i + 2);
    } else {
      assert DropSemis(s, i) == [s[i]] + DropSemis(s, i + 1);
    }
  }

  lemma {:induction false} DropSemisHead(s: string, i: nat)
    requires i < |s|
    ensures DropSemis(s, i) != [] && DropSemis(s, i)[0] == s[i]
  {
  }

  /** After `a` no `;` follows a `}`. */
  lemma {:induction false} DropSemisNoCloseSemi(s: string, i: nat)
    requires i <= |s|
    ensures NoPair(DropSemis(s, i), CloseSemi)
    decreases |s| - i
  {
    if i < |s| {
      var j := DropSemisNext(s, i);
      DropSemisStep(s, i);
      DropSemisNoCloseSemi(s, j);
      if j < |s| {
        DropSemisHead(s, j);
      }
      NoPairCons(s[i], DropSemis(s, j), CloseSemi);
    }
  }

  /** `a` keeps a pair property that a `}` breaks only where a `;`
      would. */
  lemma {:induction false} DropSemisKeeps(s: string, i: nat, bad: (char, char) -> bool)
    requires i <= |s|
    requires NoPair(s, bad)
    requires forall x :: bad('}', x) ==> bad(';', x)
    ensures NoPair(DropSemis(s, i), bad)
    decreases |s| - i
  {
    if i < |s| {
      var j := DropSemisNext(s, i);
      DropSemisStep(s, i);
      DropSemisKeeps(s, j, bad);
      if j < |s| {
        DropSemisHead(s, j);
        NoPairAt(s, bad, j - 1);
      }
      NoPairCons(s[i], DropSemis(s, j), bad);
    }
  }

  lemma {:induction false} DropSemisLast(s: string, i: nat)
    requires i < |s|
    requires !IsSpace(s[|s| - 1])
    ensures DropSemis(s, i) != [] && !IsSpace(DropSemis(s, i)[|DropSemis(s, i)| - 1])
    decreases |s| - i
  {
    var j := DropSemisNext(s, i);
    DropSemisStep(s, i);
    if j < |s| {
      DropSemisLast(s, j);
    }
  }

  // ---------------------------------------------------------------- p

  lemma {:induction false} CloseDeclsHead(s: string, i: nat)
    requires i < |s|
    ensures CloseDecls(s, i) != [] && CloseDecls(s, i)[0] == s[i]
  {
  }

  /** What `p` writes for the match of `[^:;{}]` and `}` at `i`. */
  lemma {:induction false} CloseDeclsInserted(s: string, i: nat, bad: (char, char) -> bool)
    requires i + 1 < |s| && !IsDelim(s[i]) && s[i + 1] == '}'
    requires NoPair(CloseDecls(s, i + 2), bad)
    requires !bad(s[i], ';') && !bad(';', '}')
    requires i + 2 < |s| ==> !bad('}', s[i + 2])
    ensures NoPair(CloseDecls(s, i), bad)
  {
    var r := CloseDecls(s, i + 2);
    if i + 2 < |s| {
      CloseDeclsHead(s, i + 2);
    }
    NoPairCons('}', r, bad);
    NoPairCons(';', ['}'] + r, bad);
    NoPairCons(s[i], [';'] + (['}'] + r), bad);
    assert CloseDecls(s, i) == [s[i]] + ([';'] + (['}'] + r));
  }

  /** What `p` makes of the character at `k`: it is kept, and a `;` is
      written after it when it is not one of `: ; { }` and a `}` follows. */
  function ClosedAt(s: string, k: nat): string
    requires k < |s|
  {
    if k + 1 < |s| && !IsDelim(s[k]) && s[k + 1] == '}' then [s[k], ';'] else [s[k]]
  }

  /** `ClosedAt` for every character from `i` on, in order. */
  function ClosedPieces(s: string, i: nat): (r: seq<string>)
    requires i <= |s|
    ensures |r| == |s| - i
  {
    seq(|s| - i, j requires 0 <= j < |s| - i => ClosedAt(s, i + j))
  }

  lemma {:induction false} ConcatCons(x: string, r: seq<string>)
    ensures Concat([x] + r) == x + Concat(r)
  {
    ConcatAppend([x], r);
    assert Concat([x]) == Concat([]) + x;
  }

  /** `p` pointwise: its output is every character of the input in order,
      each followed by a `;` exactly when it is not one of `: ; { }` and the
      next character is `}`; nothing else is added, dropped or reordered. */
  lemma {:induction false} CloseDeclsPointwise(s: string, i: nat)
    requires i <= |s|
    ensures CloseDecls(s, i) == Concat(ClosedPieces(s, i))
    decreases |s| - i
  {
    if i == |s| {
      assert ClosedPieces(s, i) == [];
    } else {
      var ps := ClosedPieces(s, i);
      assert ps == [ClosedAt(s, i)] + ClosedPieces(s, i + 1);
      ConcatCons(ClosedAt(s, i), ClosedPieces(s, i + 1));
      if i + 1 < |s| && !IsDelim(s[i]) && s[i + 1] == '}' {
        var qs := ClosedPieces(s, i + 1);
        assert qs == [ClosedAt(s, i + 1)] + ClosedPieces(s, i + 2);
        assert ClosedAt(s, i + 1) == "}";
        ConcatCons("}", ClosedPieces(s, i + 2));
        CloseDeclsPointwise(s, i + 2);
        Assoc([s[i], ';'], "}", CloseDecls(s, i + 2));
        assert [s[i], ';'] + "}" == [s[i], ';', '}'];
      } else {
        CloseDeclsPointwise(s, i + 1);
      }
    }
  }

  /** After `p` every `}` follows one of `: ; { }` (or starts the text). */
  lemma {:induction false} CloseDeclsNoLooseClose(s: string, i: nat)
    requires i <= |s|
    ensures NoPair(CloseDecls(s, i), LooseClose)
    decreases |s| - i
  {
    if i < |s| {
      if i + 1 < |s| && !IsDelim(s[i]) && s[i + 1] == '}' {
        CloseDeclsNoLooseClose(s, i + 2);
        CloseDeclsInserted(s, i, LooseClose);
      } else {
        CloseDeclsNoLooseClose(s, i + 1);
        if i + 1 < |s| {
          CloseDeclsHead(s, i + 1);
        }
        NoPairCons(s[i], CloseDecls(s, i + 1), LooseClose);
      }
    }
  }

  /** `p` keeps whatever pair property the text had, provided the
      inserted `;` cannot break it. */
  lemma {:induction false} CloseDeclsKeeps(s: string, i: nat, bad: (char, char) -> bool)
    requires i <= |s|
    requires NoPair(s, bad)
    requires forall c :: !IsDelim(c) && !bad(c, '}') ==> !bad(c, ';')
    requires !bad(';', '}')
    ensures NoPair(CloseDecls(s, i), bad)
    decreases |s| - i
  {
    if i < |s| {
      if i + 1 < |s| && !IsDelim(s[i]) && s[i + 1] == '}' {
        CloseDeclsKeeps(s, i + 2, bad);
        NoPairAt(s, bad, i);
        if i + 2 < |s| {
          NoPairAt(s, bad, i + 1);
        }
        CloseDeclsInserted(s, i, bad);
      } else {
        CloseDeclsKeeps(s, i + 1, bad);
        if i + 1 < |s| {
          CloseDeclsHead(s, i + 1);
          NoPairAt(s, bad, i);
        }
        NoPairCons(s[i], CloseDecls(s, i + 1), bad);
      }
    }
  }

  lemma {:induction false} CloseDeclsLast(s: string, i: nat)
    requires i < |s|
    ensures CloseDecls(s, i) != [] && CloseDecls(s, i)[|CloseDecls(s, i)| - 1] == s[|s| - 1]
    decreases |s| - i
  {
    var j := if i + 1 < |s| && !IsDelim(s[i]) && s[i + 1] == '}' then i + 2 else i + 1;
    if j < |s| {
      CloseDeclsLast(s, j);
    }
  }

  // ------------------------------------------------------------ chain

  /** The passes after `trim` keep a trimmed text trimmed. */
  lemma {:induction false} TailTrimmed(trimmed: string)
    requires Trimmed(trimmed)
    ensures Trimmed(CloseDecls(DropSemis(Tighten(trimmed, 0), 0), 0))
  {
    if trimmed != [] {
      var tight := Tighten(trimmed, 0);
      TightenHead(trimmed, 0);
      TightenLast(trimmed, 0);
      var dropped := DropSemis(tight, 0);
      DropSemisHead(tight, 0);
      DropSemisLast(tight, 0);
      CloseDeclsHead(dropped, 0);
      CloseDeclsLast(dropped, 0);
    }
  }

  /** The normalised text has no white space at either end and none next
      to `: ; { }`; no `;` follows a `}`; and every `}` comes right after
      one of `: ; { }`, so a last declaration written without `;` gets
      one. */
  lemma {:induction false} NormaliseSpec(css: string)
    ensures Trimmed(Normalise(css))
    ensures NoPair(Normalise(css), SpaceDelim)
    ensures NoPair(Normalise(css), CloseSemi)
    ensures NoPair(Normalise(css), LooseClose)
  {
    var trimmed := Trim(Strip(Collapsed(css), 0));
    var tight := Tighten(trimmed, 0);
    var dropped := DropSemis(tight, 0);
    TrimSpec(Strip(Collapsed(css), 0));
    TailTrimmed(trimmed);
    TightenTight(trimmed, 0);
    DropSemisKeeps(tight, 0, SpaceDelim);
    CloseDeclsKeeps(dropped, 0, SpaceDelim);
    DropSemisNoCloseSemi(tight, 0);
    CloseDeclsKeeps(dropped, 0, CloseSemi);
    CloseDeclsNoLooseClose(dropped, 0);
  }

  /** For a source text with no comment in it, the normalised text has no
      two neighbouring white-space characters either. */
  lemma {:induction false} NormaliseNoDoubleSpace(css: string)
    requires NoPair(css, SlashStar)
    ensures NoPair(Normalise(css), SpaceSpace)
  {
    var broken := Breaks(css, 0);
    var tabbed := Tabs(broken, 0);
    var collapsed := Squeeze(tabbed, 0);
    BreaksNoOpener(css, 0);
    TabsNoOpener(broken, 0);
    SqueezeNoOpener(tabbed, 0);
    StripNothing(collapsed, 0);
    assert collapsed[0..] == collapsed;
    SqueezeNoDoubleSpace(tabbed, 0);
    var trimmed := Trim(collapsed);
    TrimSpec(collapsed);
    var a, b :| 0 <= a <= b <= |collapsed| && trimmed == collapsed[a..b];
    NoPairSlice(collapsed, a, b, SpaceSpace);
    var tight := Tighten(trimmed, 0);
    TightenKeeps(trimmed, 0, SpaceSpace);
    DropSemisKeeps(tight, 0, SpaceSpace);
    CloseDeclsKeeps(DropSemis(tight, 0), 0, SpaceSpace);
  }

  // ------------------------------------------------- fixed points

  lemma {:induction false} BreaksNone(s: string, i: nat)
    requires i <= |s|
    requires '\r' !in s && '\n' !in s
    ensures Breaks(s, i) == s[i..]
    decreases |s| - i
  {
    if i < |s| {
      BreaksNone(s, i + 1);
      assert s[i..] == [s[i]] + s[i + 1..];
    }
  }

  lemma {:induction false} TabsNone(s: string, i: nat)
    requires i <= |s|
    requires '\t' !in s
    ensures Tabs(s, i) == s[i..]
    decreases |s| - i
  {
    if i < |s| {
      TabsNone(s, i + 1);
      assert s[i..] == [s[i]] + s[i + 1..];
    }
  }

  lemma {:induction false} SqueezeNone(s: string, i: nat)
    requires i <= |s|
    requires NoPair(s, SpaceSpace)
    ensures Squeeze(s, i) == s[i..]
    decreases |s| - i
  {
    if i < |s| {
      if i + 1 < |s| {
        NoPairAt(s, SpaceSpace, i);
      }
      assert Squeeze(s, i) == [s[i]] + Squeeze(s, i + 1);
      SqueezeNone(s, i + 1);
      assert s[i..] == [s[i]] + s[i + 1..];
    }
  }

  lemma {:induction false} TightenNone(s: string, i: nat)
    requires i <= |s|
    requires NoPair(s, SpaceDelim)
    requires i < |s| && IsDelim(s[i]) ==> i + 1 == |s| || !IsSpace(s[i + 1])
    ensures Tighten(s, i) == s[i..]
    decreases |s| - i
  {
    if i < |s| {
      if i + 1 < |s| {
        NoPairAt(s, SpaceDelim, i);
        if i + 2 < |s| {
          NoPairAt(s, SpaceDelim, i + 1);
        }
      }
      if IsSpace(s[i]) {
        assert SkipSpace(s, i) == SkipSpace(s, i + 1);
        if i + 1 < |s| && IsSpace(s[i + 1]) {
          assert SkipSpace(s, i + 1) == SkipSpace(s, i + 2);
        }
        TightenNoneSpace(s, i);
      }
      TightenNone(s, i + 1);
      assert s[i..] == [s[i]] + s[i + 1..];
    }
  }

  /** In a tight text, the white space at `i` does not run into a
      delimiter. */
  lemma {:induction false} TightenNoneSpace(s: string, i: nat)
    requires i < |s| && IsSpace(s[i])
    requires NoPair(s, SpaceDelim)
    ensures !(SkipSpace(s, i) < |s| && IsDelim(s[SkipSpace(s, i)]))
  {
    SkipSpaceSpec(s, i);
    var e := SkipSpace(s, i);
    if e < |s| && IsDelim(s[e]) {
      NoPairAt(s, SpaceDelim, e - 1);
    }
  }

  lemma {:induction false} DropSemisNone(s: string, i: nat)
    requires i <= |s|
    requires NoPair(s, CloseSemi)
    ensures DropSemis(s, i) == s[i..]
    decreases |s| - i
  {
    if i < |s| {
      if i + 1 < |s| {
        NoPairAt(s, CloseSemi, i);
        assert !CloseSemi(s[i], s[i + 1]);
      }
      assert DropSemis(s, i) == [s[i]] + DropSemis(s, i + 1);
      DropSemisNone(s, i + 1);
      assert s[i..] == [s[i]] + s[i + 1..];
    }
  }

  lemma {:induction false} CloseDeclsNone(s: string, i: nat)
    requires i <= |s|
    requires NoPair(s, LooseClose)
    ensures CloseDecls(s, i) == s[i..]
    decreases |s| - i
  {
    if i < |s| {
      if i + 1 < |s| {
        NoPairAt(s, LooseClose, i);
        assert !LooseClose(s[i], s[i + 1]);
      }
      assert CloseDecls(s, i) == [s[i]] + CloseDecls(s, i + 1);
      CloseDeclsNone(s, i + 1);
      assert s[i..] == [s[i]] + s[i + 1..];
    }
  }

  /** The normal form: what `NormaliseSpec` guarantees, together with no
      line break, no tab, no double white space and no comment opener. */
  predicate IsNormal(t: string)
  {
    '\r' !in t && '\n' !in t && '\t' !in t && Trimmed(t)
    && NoPair(t, SpaceSpace) && NoPair(t, SlashStar) && NoPair(t, SpaceDelim)
    && NoPair(t, CloseSemi) && NoPair(t, LooseClose)
  }

  /** A text already in normal form comes out of the chain unchanged. */
  lemma {:induction false} NormalIsFixed(t: string)
    requires IsNormal(t)
    ensures Normalise(t) == t
  {
    BreaksNone(t, 0);
    assert t[0..] == t;
    TabsNone(t, 0);
    SqueezeNone(t, 0);
    StripNothing(t, 0);
    TrimOfTrimmed(t);
    if t != [] && IsDelim(t[0]) && |t| > 1 {
      NoPairAt(t, SpaceDelim, 0);
    }
    TightenNone(t, 0);
    DropSemisNone(t, 0);
    CloseDeclsNone(t, 0);
  }

  // ------------------------------------------------------ characters

  lemma {:induction false} BreaksGone(s: string, i: nat)
    requires i <= |s|
    ensures '\r' !in Breaks(s, i) && '\n' !in Breaks(s, i)
    decreases |s| - i
  {
    if i < |s| {
      BreaksGone(s, if IsBreak(s[i]) then BreakEnd(s, i + 1) else i + 1);
    }
  }

  lemma {:induction false} TabsGone(s: string, i: nat)
    requires i <= |s|
    requires '\r' !in s && '\n' !in s
    ensures '\r' !in Tabs(s, i) && '\n' !in Tabs(s, i) && '\t' !in Tabs(s, i)
    decreases |s| - i
  {
    if i < |s| {
      TabsGone(s, i + 1);
    }
  }

  /** The passes from `o` on write no character other than a space or a
      `;` that was not already in their input. */
  lemma {:induction false} SqueezeLacks(s: string, i: nat, c: char)
    requires i <= |s|
    requires c !in s && c != ' '
    ensures c !in Squeeze(s, i)
    decreases |s| - i
  {
    if i < |s| {
      SqueezeLacks(s, if i + 1 < |s| && IsSpace(s[i]) && IsSpace(s[i + 1]) then SkipSpace(s, i + 2) else i + 1, c);
    }
  }

  lemma {:induction false} StripLacks(s: string, i: nat, c: char)
    requires i <= |s|
    requires c !in s
    ensures c !in Strip(s, i)
    decreases |s| - i
  {
    if i < |s| {
      if i + 1 < |s| && s[i] == '/' && s[i + 1] == '*' && CloseAt(s, i + 2).Some? {
        StripLacks(s, CloseAt(s, i + 2).value + 2, c);
      } else {
        StripLacks(s, i + 1, c);
      }
    }
  }

  lemma {:induction false} TightenLacks(s: string, i: nat, c: char)
    requires i <= |s|
    requires c !in s
    ensures c !in Tighten(s, i)
    decreases |s| - i
  {
    if i < |s| {
      TightenStep(s, i);
      TightenHead(s, i);
      TightenLacks(s, TightenNext(s, i), c);
    }
  }

  lemma {:induction false} DropSemisLacks(s: string, i: nat, c: char)
    requires i <= |s|
    requires c !in s
    ensures c !in DropSemis(s, i)
    decreases |s| - i
  {
    if i < |s| {
      DropSemisStep(s, i);
      DropSemisLacks(s, DropSemisNext(s, i), c);
    }
  }

  lemma {:induction false} CloseDeclsLacks(s: string, i: nat, c: char)
    requires i <= |s|
    requires c !in s && c != ';'
    ensures c !in CloseDecls(s, i)
    decreases |s| - i
  {
    if i < |s| {
      CloseDeclsLacks(s, if i + 1 < |s| && !IsDelim(s[i]) && s[i + 1] == '}' then i + 2 else i + 1, c);
    }
  }

  /** The chain writes no character other than a space or a `;` that
      was not in the source text; line breaks and tabs never survive. */
  lemma {:induction false} NormaliseLacks(css: string, c: char)
    requires c != ' ' && c != ';'
    ensures c !in css ==> c !in Normalise(css)
    ensures '\r' !in Normalise(css) && '\n' !in Normalise(css) && '\t' !in Normalise(css)
  {
    var broken := Breaks(css, 0);
    var tabbed := Tabs(broken, 0);
    var collapsed := Squeeze(tabbed, 0);
    var stripped := Strip(collapsed, 0);
    var trimmed := Trim(stripped);
    var tight := Tighten(trimmed, 0);
    var dropped := DropSemis(tight, 0);
    BreaksGone(css, 0);
    TabsGone(broken, 0);
    TrimIsSlice(stripped);
    forall x | x in {c, '\r', '\n', '\t'} && x !in tabbed
      ensures x !in Normalise(css)
    {
      SqueezeLacks(tabbed, 0, x);
      StripLacks(collapsed, 0, x);
      TightenLacks(trimmed, 0, x);
      DropSemisLacks(tight, 0, x);
      CloseDeclsLacks(dropped, 0, x);
    }
    if c !in css {
      BreaksLacks(css, 0, c);
      TabsLacks(broken, 0, c);
    }
  }

  lemma {:induction false} BreaksLacks(s: string, i: nat, c: char)
    requires i <= |s|
    requires c !in s && c != ' '
    ensures c !in Breaks(s, i)
    decreases |s| - i
  {
    if i < |s| {
      BreaksLacks(s, if IsBreak(s[i]) then BreakEnd(s, i + 1) else i + 1, c);
    }
  }

  lemma {:induction false} TabsLacks(s: string, i: nat, c: char)
    requires i <= |s|
    requires c !in s && c != ' '
    ensures c !in Tabs(s, i)
    decreases |s| - i
  {
    if i < |s| {
      TabsLacks(s, i + 1, c);
    }
  }

  /** On a source text with no comment opener the chain is idempotent:
      its output is in normal form, which it leaves unchanged. */
  lemma {:induction false} NormaliseIdempotent(css: string)
    requires NoPair(css, SlashStar)
    ensures IsNormal(Normalise(css))
    ensures Normalise(Normalise(css)) == Normalise(css)
  {
    NormaliseSpec(css);
    NormaliseNoDoubleSpace(css);
    NormaliseLacks(css, '\r');
    NormaliseNoOpener(css);
    NormalIsFixed(Normalise(css));
  }

  lemma {:induction false} NormaliseNoOpener(css: string)
    requires NoPair(css, SlashStar)
    ensures NoPair(Normalise(css), SlashStar)
  {
    var broken := Breaks(css, 0);
    var tabbed := Tabs(broken, 0);
    var collapsed := Squeeze(tabbed, 0);
    BreaksNoOpener(css, 0);
    TabsNoOpener(broken, 0);
    SqueezeNoOpener(tabbed, 0);
    StripNothing(collapsed, 0);
    assert collapsed[0..] == collapsed;
    var trimmed := Trim(collapsed);
    TrimSpec(collapsed);
    var a, b :| 0 <= a <= b <= |collapsed| && trimmed == collapsed[a..b];
    NoPairSlice(collapsed, a, b, SlashStar);
    var tight := Tighten(trimmed, 0);
    TightenKeeps(trimmed, 0, SlashStar);
    DropSemisKeeps(tight, 0, SlashStar);
    CloseDeclsKeeps(DropSemis(tight, 0), 0, SlashStar);
  }

  /** Once comments are gone, a text that is trimmed and already
      satisfies what `l`, `a` and `p` establish passes through unchanged. */
  lemma {:induction false} AfterStripFixed(css: string, t: string)
    requires Strip(Collapsed(css), 0) == t
    requires Trimmed(t) && NoPair(t, SpaceDelim) && NoPair(t, CloseSemi) && NoPair(t, LooseClose)
    ensures Normalise(css) == t
  {
    TrimOfTrimmed(t);
    if t != [] && IsDelim(t[0]) && |t| > 1 {
      NoPairAt(t, SpaceDelim, 0);
    }
    TightenNone(t, 0);
    assert t[0..] == t;
    DropSemisNone(t, 0);
    CloseDeclsNone(t, 0);
  }

  /** The white-space passes leave a text with no line break, no tab and
      no double white space unchanged. */
  lemma {:induction false} CollapsedNone(s: string)
    requires '\r' !in s && '\n' !in s && '\t' !in s
    requires forall k :: 0 <= k < |s| - 1 ==> !(IsSpace(s[k]) && IsSpace(s[k + 1]))
    ensures Collapsed(s) == s
  {
    NoPairMeans(s, SpaceSpace);
    BreaksNone(s, 0);
    assert s[0..] == s;
    TabsNone(s, 0);
    SqueezeNone(s, 0);
  }

  /** A character that no pass treats specially. */
  predicate Plain(c: char)
  {
    !IsSpace(c) && !IsDelim(c) && c != '/' && c != '*'
  }

  lemma {:induction false} CommentExampleStrip(x: char, y: char)
    requires Plain(x) && Plain(y)
    ensures Strip([x, ' ', '/', '*', '*', '/', ' ', y], 0) == [x, ' ', ' ', y]
  {
    var s := [x, ' ', '/', '*', '*', '/', ' ', y];
    assert Strip(s, 8) == [];
    assert Strip(s, 7) == [y];
    assert Strip(s, 6) == [' ', y];
    assert CloseAt(s, 4) == Some(4);
    assert Strip(s, 2) == [' ', y];
    assert Strip(s, 1) == [' ', ' ', y];
  }

  /** Four characters whose only delimiter-free neighbours are plain. */
  lemma {:induction false} PlainPairs(x: char, u: char, v: char, y: char)
    requires Plain(x) && Plain(y) && !IsDelim(u) && !IsDelim(v)
    ensures var t := [x, u, v, y];
      Trimmed(t) && NoPair(t, SpaceDelim) && NoPair(t, CloseSemi) && NoPair(t, LooseClose)
  {
    var t := [x, u, v, y];
    NoPairMeans(t, SpaceDelim);
    NoPairMeans(t, CloseSemi);
    NoPairMeans(t, LooseClose);
  }

  /** A comment between two spaces leaves both spaces behind: comments
      are removed after runs of white space have been collapsed. */
  lemma {:induction false} CommentLeavesDoubleSpace(x: char, y: char)
    requires Plain(x) && Plain(y)
    ensures Normalise([x] + " /**/ " + [y]) == [x] + "  " + [y]
  {
    var s := [x, ' ', '/', '*', '*', '/', ' ', y];
    var t := [x, ' ', ' ', y];
    assert [x] + " /**/ " + [y] == s;
    assert [x] + "  " + [y] == t;
    CollapsedNone(s);
    CommentExampleStrip(x, y);
    PlainPairs(x, ' ', ' ', y);
    AfterStripFixed(s, t);
  }

  /** For a trimmed text with no line break, tab, double white space or
      comment opener, only the passes `l`, `a` and `p` do anything. */
  lemma {:induction false} OnlyTailActs(s: string)
    requires '\r' !in s && '\n' !in s && '\t' !in s && Trimmed(s)
    requires forall k :: 0 <= k < |s| - 1 ==> !(IsSpace(s[k]) && IsSpace(s[k + 1]))
    requires forall k :: 0 <= k < |s| - 1 ==> !(s[k] == '/' && s[k + 1] == '*')
    ensures Normalise(s) == CloseDecls(DropSemis(Tighten(s, 0), 0), 0)
  {
    CollapsedNone(s);
    NoPairMeans(s, SlashStar);
    StripNothing(s, 0);
    assert s[0..] == s;
    TrimOfTrimmed(s);
  }

  /** `l` copies a character that is neither white space nor a
      delimiter. */
  lemma {:induction false} TightenPlain(s: string, i: nat)
    requires i < |s| && !IsSpace(s[i]) && !IsDelim(s[i])
    ensures Tighten(s, i) == [s[i]] + Tighten(s, i + 1)
  {
  }

  /** `l` copies a delimiter that no white space follows. */
  lemma {:induction false} TightenDelim(s: string, i: nat)
    requires i < |s| && IsDelim(s[i])
    requires i + 1 < |s| ==> !IsSpace(s[i + 1])
    ensures Tighten(s, i) == [s[i]] + Tighten(s, i + 1)
  {
  }

  /** `l` drops one space on each side of a delimiter. */
  lemma {:induction false} TightenSpaced(s: string, i: nat)
    requires i + 2 < |s| && IsSpace(s[i]) && IsDelim(s[i + 1]) && IsSpace(s[i + 2])
    requires i + 3 < |s| ==> !IsSpace(s[i + 3])
    ensures Tighten(s, i) == [s[i + 1]] + Tighten(s, i + 3)
  {
    assert SkipSpace(s, i) == i + 1;
    assert SkipSpace(s, i + 2) == i + 3;
  }

  lemma {:induction false} TightenEnd(s: string)
    ensures Tighten(s, |s|) == []
  {
  }

  /** `p` copies a character with no `}` right after it. */
  lemma {:induction false} CloseDeclsCopy(s: string, i: nat)
    requires i < |s|
    requires i + 1 < |s| ==> IsDelim(s[i]) || s[i + 1] != '}'
    ensures CloseDecls(s, i) == [s[i]] + CloseDecls(s, i + 1)
  {
  }

  lemma {:induction false} CloseDeclsEnd(s: string)
    ensures CloseDecls(s, |s|) == []
  {
  }

  lemma {:induction false} QuotesTighten(a: char, b: char, q: char)
    requires Plain(a) && Plain(b) && Plain(q)
    ensures Tighten([a, '{', b, ':', q, ' ', ';', ' ', q, '}'], 0) == [a, '{', b, ':', q, ';', q, '}']
  {
    var s := [a, '{', b, ':', q, ' ', ';', ' ', q, '}'];
    TightenEnd(s);
    TightenDelim(s, 9);
    TightenPlain(s, 8);
    TightenSpaced(s, 5);
    TightenPlain(s, 4);
    TightenDelim(s, 3);
    TightenPlain(s, 2);
    TightenDelim(s, 1);
    TightenPlain(s, 0);
  }

  lemma {:induction false} QuotesCloseDecls(a: char, b: char, q: char)
    requires Plain(a) && Plain(b) && Plain(q)
    ensures var t := [a, '{', b, ':', q, ';', q, '}'];
      DropSemis(t, 0) == t && CloseDecls(t, 0) == [a, '{', b, ':', q, ';', q, ';', '}']
  {
    QuotesKeepSemis(a, b, q);
    QuotesGainSemi(a, b, q);
  }

  lemma {:induction false} QuotesKeepSemis(a: char, b: char, q: char)
    requires Plain(a) && Plain(b) && Plain(q)
    ensures var t := [a, '{', b, ':', q, ';', q, '}'];
      DropSemis(t, 0) == t
  {
    var t := [a, '{', b, ':', q, ';', q, '}'];
    NoPairMeans(t, CloseSemi);
    DropSemisNone(t, 0);
    assert t[0..] == t;
  }

  lemma {:induction false} QuotesGainSemi(a: char, b: char, q: char)
    requires Plain(a) && Plain(b) && Plain(q)
    ensures var t := [a, '{', b, ':', q, ';', q, '}'];
      CloseDecls(t, 0) == [a, '{', b, ':', q, ';', q, ';', '}']
  {
    var t := [a, '{', b, ':', q, ';', q, '}'];
    CloseDeclsEnd(t);
    assert CloseDecls(t, 6) == [q, ';', '}'];
    CloseDeclsCopy(t, 5);
    assert CloseDecls(t, 5) == [';', q, ';', '}'];
    CloseDeclsCopy(t, 4);
    CloseDeclsCopy(t, 3);
    CloseDeclsCopy(t, 2);
    assert CloseDecls(t, 2) == [b, ':', q, ';', q, ';', '}'];
    CloseDeclsCopy(t, 1);
    CloseDeclsCopy(t, 0);
  }

  /** Quotes are not special: the white space around a `;` inside a
      quoted string is removed, and a `;` is inserted after the closing
      quote before `}`. */
  lemma {:induction false} QuotesNotSpecial(a: char, b: char, q: char)
    requires Plain(a) && Plain(b) && (q == '\'' || q == '"')
    ensures Normalise([a, '{', b, ':', q, ' ', ';', ' ', q, '}']) == [a, '{', b, ':', q, ';', q, ';', '}']
  {
    var s := [a, '{', b, ':', q, ' ', ';', ' ', q, '}'];
    QuotesOnlyTail(a, b, q);
    QuotesTighten(a, b, q);
    var t := [a, '{', b, ':', q, ';', q, '}'];
    assert Normalise(s) == CloseDecls(DropSemis(t, 0), 0);
    QuotesCloseDecls(a, b, q);
  }

  lemma {:induction false} QuotesOnlyTail(a: char, b: char, q: char)
    requires Plain(a) && Plain(b) && Plain(q)
    ensures var s := [a, '{', b, ':', q, ' ', ';', ' ', q, '}'];
      Normalise(s) == CloseDecls(DropSemis(Tighten(s, 0), 0), 0)
  {
    OnlyTailActs([a, '{', b, ':', q, ' ', ';', ' ', q, '}']);
  }

  lemma {:induction false} LastDeclarationTighten(a: char, b: char, c: char)
    requires Plain(a) && Plain(b) && Plain(c)
    ensures Tighten([a, ' ', '{', b, ' ', ':', ' ', c, '}'], 0) == [a, '{', b, ':', c, '}']
  {
    var s := [a, ' ', '{', b, ' ', ':', ' ', c, '}'];
    TightenEnd(s);
    TightenDelim(s, 8);
    TightenPlain(s, 7);
    TightenSpaced(s, 4);
    TightenPlain(s, 3);
    assert SkipSpace(s, 1) == 2 && SkipSpace(s, 3) == 3;
    assert Tighten(s, 1) == ['{'] + Tighten(s, 3);
    TightenPlain(s, 0);
  }

  lemma {:induction false} LastDeclarationCloseDecls(a: char, b: char, c: char)
    requires Plain(a) && Plain(b) && Plain(c)
    ensures var t := [a, '{', b, ':', c, '}'];
      DropSemis(t, 0) == t && CloseDecls(t, 0) == [a, '{', b, ':', c, ';', '}']
  {
    var t := [a, '{', b, ':', c, '}'];
    NoPairMeans(t, CloseSemi);
    DropSemisNone(t, 0);
    assert t[0..] == t;
    CloseDeclsEnd(t);
    assert CloseDecls(t, 4) == [c, ';', '}'] + CloseDecls(t, 6);
    CloseDeclsCopy(t, 3);
    CloseDeclsCopy(t, 2);
    CloseDeclsCopy(t, 1);
    CloseDeclsCopy(t, 0);
  }

  /** White space around `{` and `:` disappears, and the last declaration
      of a block, written without `;`, gets one. */
  lemma {:induction false} LastDeclarationClosed(a: char, b: char, c: char)
    requires Plain(a) && Plain(b) && Plain(c)
    ensures Normalise([a, ' ', '{', b, ' ', ':', ' ', c, '}']) == [a, '{', b, ':', c, ';', '}']
  {
    var s := [a, ' ', '{', b, ' ', ':', ' ', c, '}'];
    LastDeclarationOnlyTail(a, b, c);
    LastDeclarationTighten(a, b, c);
    var t := [a, '{', b, ':', c, '}'];
    assert Normalise(s) == CloseDecls(DropSemis(t, 0), 0);
    LastDeclarationCloseDecls(a, b, c);
  }

  lemma {:induction false} LastDeclarationOnlyTail(a: char, b: char, c: char)
    requires Plain(a) && Plain(b) && Plain(c)
    ensures var s := [a, ' ', '{', b, ' ', ':', ' ', c, '}'];
      Normalise(s) == CloseDecls(DropSemis(Tighten(s, 0), 0), 0)
  {
    OnlyTailActs([a, ' ', '{', b, ' ', ':', ' ', c, '}']);
  }
}
