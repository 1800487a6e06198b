/** Properties of the tokeniser and of `q` in dist/cjs/fusion.js: the
    matches cover the text, blocks get their declarations and children in
    order, a `}` at depth 0 is the only failure, and unclosed blocks are
    dropped. */
module FusionParserFacts {
  import opened Text
  import opened FusionParser
  import Css = CssParser
  import N = FusionNormalise

  // ------------------------------------------------------------ matches

  lemma {:induction false} NextStopSpec(s: string, i: nat)
    requires i <= |s|
    ensures forall k :: i <= k < NextStop(s, i) ==> !IsStop(s[k])
    ensures NextStop(s, i) < |s| ==> IsStop(s[NextStop(s, i)])
    decreases |s| - i
  {
    if i < |s| && !IsStop(s[i]) {
      NextStopSpec(s, i + 1);
    }
  }

  lemma {:induction false} NextStopAt(s: string, i: nat, m: nat)
    requires i <= m <= |s|
    requires forall k :: i <= k < m ==> !IsStop(s[k])
    requires m < |s| ==> IsStop(s[m])
    ensures NextStop(s, i) == m
    decreases m - i
  {
    if i < m {
      NextStopAt(s, i + 1, m);
    }
  }

  /** The text the matches `toks` cover: each group 1 and its delimiter. */
  function Joined(toks: seq<Token>): string
  {
    if toks == [] then "" else toks[0].text + [toks[0].stop] + Joined(toks[1..])
  }

  /** Matches of the regex: group 1 holds no delimiter, group 2 is one. */
  predicate WellFormed(toks: seq<Token>)
  {
    forall j :: 0 <= j < |toks| ==> NoStop(toks[j].text) && IsStop(toks[j].stop)
  }

  /** Where the last match from `i` ends. */
  function TokensEnd(s: string, i: nat): (e: nat)
    requires i <= |s|
    ensures i <= e <= |s|
    decreases |s| - i
  {
    var k := NextStop(s, i);
    if k == |s| then i else TokensEnd(s, k + 1)
  }

  lemma {:induction false} NoStopSlice(s: string, i: nat, k: nat)
    requires i <= k <= |s|
    requires forall j :: i <= j < k ==> !IsStop(s[j])
    ensures NoStop(s[i..k])
  {
    assert forall j :: 0 <= j < k - i ==> s[i..k][j] == s[i + j];
  }

  lemma {:induction false} JoinedCons(t: Token, rest: seq<Token>)
    ensures Joined([t] + rest) == t.text + [t.stop] + Joined(rest)
  {
    assert ([t] + rest)[1..] == rest;
  }

  lemma {:induction false} WellFormedCons(t: Token, rest: seq<Token>)
    requires NoStop(t.text) && IsStop(t.stop) && WellFormed(rest)
    ensures WellFormed([t] + rest)
  {
    assert forall j :: 1 <= j < |rest| + 1 ==> ([t] + rest)[j] == rest[j - 1];
  }

  /** The matches cover the text from `i` without gap or overlap, up to a
      tail holding no delimiter, which no match reaches. */
  lemma {:induction false} TokensCover(s: string, i: nat)
    requires i <= |s|
    ensures WellFormed(Tokens(s, i))
    ensures s[i..TokensEnd(s, i)] == Joined(Tokens(s, i))
    ensures NoStop(s[TokensEnd(s, i)..])
    decreases |s| - i
  {
    var k := NextStop(s, i);
    NextStopSpec(s, i);
    if k == |s| {
      NoStopSlice(s, i, |s|);
    } else {
      TokensCover(s, k + 1);
      var t := Token(s[i..k], s[k]);
      var rest := Tokens(s, k + 1);
      assert Tokens(s, i) == [t] + rest;
      NoStopSlice(s, i, k);
      WellFormedCons(t, rest);
      JoinedCons(t, rest);
      var e := TokensEnd(s, k + 1);
      assert TokensEnd(s, i) == e;
      SliceAround(s, i, k, e);
    }
  }

  lemma {:induction false} SliceAround(s: string, i: nat, k: nat, e: nat)
    requires i <= k < e <= |s|
    ensures s[i..e] == s[i..k] + [s[k]] + s[k + 1..e]
  {
  }

  /** Conversely, the matches of well-formed tokens joined together, with
      a tail holding no delimiter, are those tokens: the tokeniser and
      `Joined` are inverse to each other. */
  lemma {:induction false} TokensOfJoined(toks: seq<Token>, tail: string)
    requires WellFormed(toks) && NoStop(tail)
    ensures Tokens(Joined(toks) + tail, 0) == toks
  {
    TokensAt(Joined(toks) + tail, 0, toks, tail);
  }

  /** The match of one token written out at `i`. */
  lemma {:induction false} TokenAt(s: string, i: nat, t: Token, rest: string)
    requires i <= |s|
    requires NoStop(t.text) && IsStop(t.stop)
    requires s[i..] == t.text + [t.stop] + rest
    ensures NextStop(s, i) == i + |t.text| < |s|
    ensures s[i..i + |t.text|] == t.text && s[i + |t.text|] == t.stop
    ensures s[i + |t.text| + 1..] == rest
  {
    var m := i + |t.text|;
    forall k | i <= k < m
      ensures !IsStop(s[k])
    {
      assert s[k] == s[i..][k - i] == t.text[k - i];
    }
    assert s[m] == s[i..][|t.text|];
    NextStopAt(s, i, m);
    assert s[i..m] == s[i..][..|t.text|];
    assert s[m + 1..] == s[i..][|t.text| + 1..];
  }

  lemma {:induction false} NoMatchIn(s: string, i: nat, tail: string)
    requires i <= |s| && s[i..] == tail && NoStop(tail)
    ensures NextStop(s, i) == |s|
  {
    forall k | i <= k < |s|
      ensures !IsStop(s[k])
    {
      assert s[k] == s[i..][k - i];
    }
    NextStopAt(s, i, |s|);
  }

  lemma {:induction false} WellFormedTail(toks: seq<Token>)
    requires toks != [] && WellFormed(toks)
    ensures NoStop(toks[0].text) && IsStop(toks[0].stop)
    ensures WellFormed(toks[1..])
  {
    assert forall j :: 0 <= j < |toks| - 1 ==> toks[1..][j] == toks[j + 1];
  }

  lemma {:induction false} TokensAt(s: string, i: nat, toks: seq<Token>, tail: string)
    requires i <= |s|
    requires WellFormed(toks) && NoStop(tail)
    requires s[i..] == Joined(toks) + tail
    ensures Tokens(s, i) == toks
    decreases |toks|
  {
    if toks == [] {
      assert s[i..] == tail;
      NoMatchIn(s, i, tail);
      TokensAtEnd(s, i);
    } else {
      var t := toks[0];
      WellFormedTail(toks);
      JoinedSplit(toks, tail);
      TokenAt(s, i, t, Joined(toks[1..]) + tail);
      TokensAt(s, i + |t.text| + 1, toks[1..], tail);
      TokensCons(s, i, toks);
    }
  }

  lemma {:induction false} TokensAtEnd(s: string, i: nat)
    requires i <= |s| && NextStop(s, i) == |s|
    ensures Tokens(s, i) == []
  {
  }

  /** The first token written out at `i`, and the others after it. */
  lemma {:induction false} TokensCons(s: string, i: nat, toks: seq<Token>)
    requires toks != [] && i <= |s|
    requires NextStop(s, i) == i + |toks[0].text| < |s|
    requires s[i..i + |toks[0].text|] == toks[0].text && s[i + |toks[0].text|] == toks[0].stop
    requires Tokens(s, i + |toks[0].text| + 1) == toks[1..]
    ensures Tokens(s, i) == toks
  {
    TokensUnfold(s, i);
    assert toks == [toks[0]] + toks[1..];
  }

  /** One step of the tokeniser. */
  lemma {:induction false} TokensUnfold(s: string, i: nat)
    requires i <= |s| && NextStop(s, i) < |s|
    ensures Tokens(s, i) == [Token(s[i..NextStop(s, i)], s[NextStop(s, i)])] + Tokens(s, NextStop(s, i) + 1)
  {
  }

  lemma {:induction false} JoinedSplit(toks: seq<Token>, tail: string)
    requires toks != []
    ensures Joined(toks) + tail == toks[0].text + [toks[0].stop] + (Joined(toks[1..]) + tail)
  {
    var t := toks[0];
    assert toks == [t] + toks[1..];
    JoinedCons(t, toks[1..]);
    Assoc(t.text + [t.stop], Joined(toks[1..]), tail);
  }

  // ------------------------------------------------------- the callback

  lemma {:induction false} RunAppend(ast: seq<Css.Block>, a: seq<Token>, b: seq<Token>)
    requires |ast| >= 1
    ensures Run(ast, a + b) == if Run(ast, a).Err? then Run(ast, a) else Run(Run(ast, a).value, b)
    decreases |a|
  {
    if a == [] {
      assert a + b == b;
    } else {
      assert (a + b)[0] == a[0] && (a + b)[1..] == a[1..] + b;
      if Apply(ast, a[0]).Ok? {
        RunAppend(Apply(ast, a[0]).value, a[1..], b);
      }
    }
  }

  /** Tokens ended by `;`: declarations. */
  predicate Decls(toks: seq<Token>)
  {
    forall j :: 0 <= j < |toks| ==> toks[j].stop == ';'
  }

  /** Declarations append their text and `;` to the open block's rules, in
      order. */
  lemma {:induction false} RunDecls(ast: seq<Css.Block>, decls: seq<Token>)
    requires |ast| >= 1
    requires Decls(decls)
    ensures Run(ast, decls) == Ok(Css.AddRule(ast, Joined(decls)))
    decreases |decls|
  {
    var top := |ast| - 1;
    if decls == [] {
      assert Joined(decls) == "";
      assert ast[top].rules + "" == ast[top].rules;
      assert ast[top].(rules := ast[top].rules + "") == ast[top];
      assert Css.AddRule(ast, "") == ast;
    } else {
      var t := decls[0];
      var next := Css.AddRule(ast, t.text + [t.stop]);
      assert Decls(decls[1..]) by {
        assert forall j :: 0 <= j < |decls| - 1 ==> decls[1..][j] == decls[j + 1];
      }
      var more := Joined(decls[1..]);
      RunCons(ast, t, decls[1..]);
      assert decls == [t] + decls[1..];
      RunDecls(next, decls[1..]);
      assert Joined(decls) == t.text + [t.stop] + more;
      Assoc(ast[top].rules, t.text + [t.stop], more);
      assert Css.AddRule(next, more) == Css.AddRule(ast, Joined(decls));
    }
  }

  /** `ast[depth].children.push(b)`. */
  function AttachLast(ast: seq<Css.Block>, b: Css.Block): seq<Css.Block>
    requires |ast| >= 1
  {
    var top := |ast| - 1;
    ast[..top] + [ast[top].(children := ast[top].children + [b])]
  }

  /** `{`, matches that leave the pushed block as `b`, then `}`: the block
      `b`, with the text before `}` added to its rules, becomes the last
      child of the block that was open before. */
  lemma {:induction false} RunBlock(ast: seq<Css.Block>, sel: string, inner: seq<Token>, x: string, b: Css.Block)
    requires |ast| >= 1
    requires Run(ast + [Css.Block(sel, "", [])], inner) == Ok(ast + [b])
    ensures Run(ast, [Token(sel, '{')] + inner + [Token(x, '}')]) == Ok(AttachLast(ast, b.(rules := b.rules + x)))
  {
    var pushed := ast + [Css.Block(sel, "", [])];
    RunAppend(ast, [Token(sel, '{')] + inner, [Token(x, '}')]);
    RunAppend(ast, [Token(sel, '{')], inner);
    assert Run(ast, [Token(sel, '{')]) == Ok(pushed);
    var closed := Css.AddRule(ast + [b], x);
    assert closed == ast + [b.(rules := b.rules + x)];
    assert Css.CloseBlock(closed) == AttachLast(ast, b.(rules := b.rules + x));
  }

  /** A block holding only declarations: its rules are each declaration
      followed by `;`, then the text before `}`. */
  lemma {:induction false} LeafBlock(ast: seq<Css.Block>, sel: string, decls: seq<Token>, x: string)
    requires |ast| >= 1
    requires Decls(decls)
    ensures Run(ast, [Token(sel, '{')] + decls + [Token(x, '}')])
         == Ok(AttachLast(ast, Css.Block(sel, Joined(decls) + x, [])))
  {
    var pushed := ast + [Css.Block(sel, "", [])];
    var rules := Joined(decls);
    RunDecls(pushed, decls);
    assert "" + rules == rules;
    assert Css.AddRule(pushed, rules) == ast + [Css.Block(sel, rules, [])];
    RunBlock(ast, sel, decls, x, Css.Block(sel, rules, []));
  }

  // -------------------------------------------------------- failure

  /** How a token changes the depth. */
  function Delta(t: Token): int
  {
    if t.stop == '{' then 1 else if t.stop == '}' then -1 else 0
  }

  /** Opened minus closed blocks over `toks`. */
  function Depth(toks: seq<Token>): int
  {
    if toks == [] then 0 else Delta(toks[0]) + Depth(toks[1..])
  }

  lemma {:induction false} ApplySize(ast: seq<Css.Block>, t: Token)
    requires |ast| >= 1
    requires Apply(ast, t).Ok?
    ensures |Apply(ast, t).value| == |ast| + Delta(t)
  {
  }

  /** A `}` met when only the root is open. */
  predicate StrayAt(ast: seq<Css.Block>, toks: seq<Token>, k: int)
  {
    0 <= k < |toks| && toks[k].stop == '}' && |ast| - 1 + Depth(toks[..k]) == 0
  }

  /** The callback throws exactly when some `}` comes at depth 0. */
  lemma {:induction false} RunFailsIffStray(ast: seq<Css.Block>, toks: seq<Token>)
    requires |ast| >= 1
    ensures Run(ast, toks).Err? <==> exists k :: StrayAt(ast, toks, k)
    decreases |toks|
  {
    if toks == [] {
      assert forall k :: !StrayAt(ast, toks, k);
    } else {
      var t := toks[0];
      var rest := toks[1..];
      assert toks[..0] == [];
      if Apply(ast, t).Err? {
        assert StrayAt(ast, toks, 0);
      } else {
        var next := Apply(ast, t).value;
        assert toks == [t] + rest;
        RunCons(ast, t, rest);
        ApplySize(ast, t);
        RunFailsIffStray(next, rest);
        forall k | 0 < k <= |rest|
          ensures Depth(toks[..k]) == Delta(t) + Depth(rest[..k - 1])
        {
          assert toks[..k][0] == t && toks[..k][1..] == rest[..k - 1];
        }
        if exists k :: StrayAt(ast, toks, k) {
          var k :| StrayAt(ast, toks, k);
          assert k != 0;
          assert toks[k] == rest[k - 1];
          assert StrayAt(next, rest, k - 1);
        }
        if exists k :: StrayAt(next, rest, k) {
          var k :| StrayAt(next, rest, k);
          assert toks[k + 1] == rest[k];
          assert StrayAt(ast, toks, k + 1);
        }
      }
    }
  }

  /** `q` throws exactly when, among the matches of the normalised text,
      some `}` comes while no block is open. */
  lemma {:induction false} ParseFailsIffStrayClose(css: string)
    ensures ParseSpec(css).Err? <==> exists k :: StrayAt([Css.Root], Tokens(N.Normalise(css), 0), k)
  {
    var toks := Tokens(N.Normalise(css), 0);
    RunFailsIffStray([Css.Root], toks);
    assert ParseSpec(css).Err? <==> Run([Css.Root], toks).Err?;
    if ParseSpec(css).Err? {
      var k :| StrayAt([Css.Root], toks, k);
      assert StrayAt([Css.Root], Tokens(N.Normalise(css), 0), k);
      assert exists k :: StrayAt([Css.Root], Tokens(N.Normalise(css), 0), k);
    }
  }

  // -------------------------------------------------- unclosed blocks

  lemma {:induction false} RunWithoutClose(ast: seq<Css.Block>, toks: seq<Token>)
    requires |ast| >= 1
    requires forall j :: 0 <= j < |toks| ==> toks[j].stop != '}'
    ensures Run(ast, toks).Ok?
    ensures Run(ast, toks).value[0].children == ast[0].children
    decreases |toks|
  {
    if toks != [] {
      var next := Apply(ast, toks[0]).value;
      assert next[0].children == ast[0].children;
      RunWithoutClose(next, toks[1..]);
    }
  }

  lemma {:induction false} TokensWithoutClose(s: string, i: nat)
    requires i <= |s|
    requires '}' !in s
    ensures forall j :: 0 <= j < |Tokens(s, i)| ==> Tokens(s, i)[j].stop != '}'
    decreases |s| - i
  {
    var k := NextStop(s, i);
    if k < |s| {
      TokensWithoutClose(s, k + 1);
      assert Tokens(s, i) == [Token(s[i..k], s[k])] + Tokens(s, k + 1);
    }
  }

  /** Text without any `}` parses to no blocks at all: blocks that are
      never closed are dropped, not reported. */
  lemma {:induction false} UnclosedBlocksDropped(css: string)
    requires '}' !in css
    ensures ParseSpec(css) == Ok([])
  {
    N.NormaliseLacks(css, '}');
    TokensWithoutClose(N.Normalise(css), 0);
    RunWithoutClose([Css.Root], Tokens(N.Normalise(css), 0));
  }

  // ---------------------------------------------------- last declarations

  lemma {:induction false} CloseTextsOf(s: string, i: nat)
    requires i <= |s|
    requires N.NoPair(s, N.LooseClose)
    ensures forall j :: 0 <= j < |Tokens(s, i)| && Tokens(s, i)[j].stop == '}' ==>
      Tokens(s, i)[j].text == [] || Tokens(s, i)[j].text[|Tokens(s, i)[j].text| - 1] == ':'
    decreases |s| - i
  {
    var k := NextStop(s, i);
    if k < |s| {
      NextStopSpec(s, i);
      var head := Token(s[i..k], s[k]);
      var rest := Tokens(s, k + 1);
      CloseTextsOf(s, k + 1);
      if s[k] == '}' && k > i {
        N.NoPairAt(s, N.LooseClose, k - 1);
        assert s[i..k][k - 1 - i] == s[k - 1];
      }
      var toks := Tokens(s, i);
      assert toks == [head] + rest;
      forall j | 0 <= j < |toks| && toks[j].stop == '}'
        ensures toks[j].text == [] || toks[j].text[|toks[j].text| - 1] == ':'
      {
        if j > 0 {
          assert toks[j] == rest[j - 1];
        }
      }
    }
  }

  /** After normalisation the text before a `}` is empty or ends in `:`
      (a declaration with no value): the last declaration of a block
      reaches its rules through a `;` match, whether or not the source
      text wrote that `;`. */
  lemma {:induction false} CloseTextIsEmpty(css: string)
    ensures var toks := Tokens(N.Normalise(css), 0);
      forall j :: 0 <= j < |toks| && toks[j].stop == '}' ==>
        toks[j].text == [] || toks[j].text[|toks[j].text| - 1] == ':'
  {
    N.NormaliseSpec(css);
    CloseTextsOf(N.Normalise(css), 0);
  }
}
