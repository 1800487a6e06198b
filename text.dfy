/** Shared string vocabulary: the JavaScript notion of white space
    (`String.prototype.trim` and the regex class `\s`), `trim` itself, and
    the result type used for operations that throw in the source. */
module Text {

  datatype Option<T> = None | Some(value: T)

  datatype Result<T, E> = Ok(value: T) | Err(error: E)

  /** JavaScript WhiteSpace and LineTerminator code points: what `trim()`
      strips and what the regex class `\s` matches. */
  predicate IsSpace(c: char)
  {
    c == ' ' || c == '\t' || c == '\n' || c == '\U{B}' || c == '\U{C}' || c == '\r'
    || c == '\U{A0}' || c == '\U{1680}' || ('\U{2000}' <= c <= '\U{200A}')
    || c == '\U{2028}' || c == '\U{2029}' || c == '\U{202F}' || c == '\U{205F}'
    || c == '\U{3000}' || c == '\U{FEFF}'
  }

  /** The characters the regex `.` does NOT match (no `s` flag). */
  predicate IsLineTerminator(c: char)
  {
    c == '\n' || c == '\r' || c == '\U{2028}' || c == '\U{2029}'
  }

  predicate AllSpace(s: string)
  {
    forall i :: 0 <= i < |s| ==> IsSpace(s[i])
  }

  predicate NoLineTerminator(s: string)
  {
    forall i :: 0 <= i < |s| ==> !IsLineTerminator(s[i])
  }

  predicate StartsWith(s: string, prefix: string)
  {
    |prefix| <= |s| && s[..|prefix|] == prefix
  }

  /** The first index at or after `i` that does not hold white space. */
  function SkipSpace(s: string, i: nat): (k: nat)
    requires i <= |s|
    ensures i <= k <= |s|
    decreases |s| - i
  {
    if i < |s| && IsSpace(s[i]) then SkipSpace(s, i + 1) else i
  }

  /** The end of `s[lo..j]` once its trailing white space is dropped. */
  function DropSpace(s: string, lo: nat, j: nat): (k: nat)
    requires lo <= j <= |s|
    ensures lo <= k <= j
    decreases j
  {
    if j > lo && IsSpace(s[j - 1]) then DropSpace(s, lo, j - 1) else j
  }

  /** `String.prototype.trim`: `s` without its leading and trailing white
      space (`TrimSpec` states it). */
  function Trim(s: string): string
  {
    var i := SkipSpace(s, 0);
    s[i..DropSpace(s, i, |s|)]
  }

  lemma {:induction false} SkipSpaceSpec(s: string, i: nat)
    requires i <= |s|
    ensures forall k :: i <= k < SkipSpace(s, i) ==> IsSpace(s[k])
    ensures SkipSpace(s, i) < |s| ==> !IsSpace(s[SkipSpace(s, i)])
    decreases |s| - i
  {
    if i < |s| && IsSpace(s[i]) {
      SkipSpaceSpec(s, i + 1);
    }
  }

  lemma {:induction false} DropSpaceSpec(s: string, lo: nat, j: nat)
    requires lo <= j <= |s|
    ensures forall k :: DropSpace(s, lo, j) <= k < j ==> IsSpace(s[k])
    ensures DropSpace(s, lo, j) > lo ==> !IsSpace(s[DropSpace(s, lo, j) - 1])
    decreases j
  {
    if j > lo && IsSpace(s[j - 1]) {
      DropSpaceSpec(s, lo, j - 1);
    }
  }

  /** `trim` removes a white-space prefix and a white-space suffix, and what
      it leaves neither starts nor ends with white space. */
  lemma {:induction false} TrimSpec(s: string)
    ensures exists i, j :: 0 <= i <= j <= |s| && AllSpace(s[..i]) && AllSpace(s[j..]) && Trim(s) == s[i..j]
    ensures Trim(s) != [] ==> !IsSpace(Trim(s)[0]) && !IsSpace(Trim(s)[|Trim(s)| - 1])
  {
    var i := SkipSpace(s, 0);
    var j := DropSpace(s, i, |s|);
    var t := s[i..j];
    assert Trim(s) == t;
    SkipSpaceSpec(s, 0);
    DropSpaceSpec(s, i, |s|);
    assert AllSpace(s[..i]) by {
      forall k | 0 <= k < i ensures IsSpace(s[..i][k]) {
        assert s[..i][k] == s[k];
      }
    }
    assert AllSpace(s[j..]) by {
      forall k | 0 <= k < |s| - j ensures IsSpace(s[j..][k]) {
        assert s[j..][k] == s[j + k];
      }
    }
    if t != [] {
      assert t[0] == s[i] && t[|t| - 1] == s[j - 1];
    }
  }

  /** Concatenation is associative; stated once so that long proofs can use
      it without re-deriving it. */
  lemma {:induction false} Assoc(x: string, y: string, z: string)
    ensures (x + y) + z == x + (y + z)
  {
  }

  /** The strings of `parts` joined left to right, as a `reduce` with a
      string accumulator produces them. */
  function Concat(parts: seq<string>): string
  {
    if parts == [] then "" else Concat(parts[..|parts| - 1]) + parts[|parts| - 1]
  }

  lemma {:induction false} ConcatAppend(a: seq<string>, b: seq<string>)
    ensures Concat(a + b) == Concat(a) + Concat(b)
    decreases |b|
  {
    if b == [] {
      assert a + b == a;
    } else {
      var front, last := b[..|b| - 1], b[|b| - 1];
      assert (a + b)[..|a + b| - 1] == a + front;
      ConcatAppend(a, front);
      Assoc(Concat(a), Concat(front), last);
    }
  }

  /** `Array(n + 1).join(c)`: `n` copies of `c`. */
  function Repeat(c: char, n: nat): (r: string)
    ensures |r| == n
    ensures forall i :: 0 <= i < n ==> r[i] == c
  {
    if n == 0 then "" else Repeat(c, n - 1) + [c]
  }

  /** Only characters of `s` survive trimming. */
  lemma {:induction false} TrimIsSlice(s: string)
    ensures forall c :: c in Trim(s) ==> c in s
  {
    TrimSpec(s);
    var i, j :| 0 <= i <= j <= |s| && AllSpace(s[..i]) && AllSpace(s[j..]) && Trim(s) == s[i..j];
    forall c | c in Trim(s) ensures c in s {
      var k :| 0 <= k < |Trim(s)| && Trim(s)[k] == c;
      assert s[i + k] == c;
    }
  }

  /** A string with no white space at either end is its own trim. */
  lemma {:induction false} TrimOfTrimmed(s: string)
    requires s != [] ==> !IsSpace(s[0]) && !IsSpace(s[|s| - 1])
    ensures Trim(s) == s
  {
    assert SkipSpace(s, 0) == 0;
    assert DropSpace(s, 0, |s|) == |s|;
    assert s[0..|s|] == s;
  }

  /** Trimming removes exactly the white space around a trimmed core. */
  lemma {:induction false} TrimAround(pre: string, s: string, post: string)
    requires AllSpace(pre) && AllSpace(post)
    requires s != [] && !IsSpace(s[0]) && !IsSpace(s[|s| - 1])
    ensures Trim(pre + s + post) == s
  {
    var t := pre + s + post;
    var m := |pre| + |s|;
    SkipSpaceTo(t, 0, |pre|);
    DropSpaceTo(t, |pre|, |t|, m);
    assert t[|pre|..m] == s;
  }

  lemma {:induction false} SkipSpaceTo(s: string, i: nat, m: nat)
    requires i <= m < |s|
    requires forall k :: i <= k < m ==> IsSpace(s[k])
    requires !IsSpace(s[m])
    ensures SkipSpace(s, i) == m
    decreases m - i
  {
    if i < m {
      SkipSpaceTo(s, i + 1, m);
    }
  }

  lemma {:induction false} DropSpaceTo(s: string, lo: nat, j: nat, m: nat)
    requires lo < m <= j <= |s|
    requires forall k :: m <= k < j ==> IsSpace(s[k])
    requires !IsSpace(s[m - 1])
    ensures DropSpace(s, lo, j) == m
    decreases j
  {
    if m < j {
      DropSpaceTo(s, lo, j - 1, m);
    }
  }
}
