/** Properties of the builder `build` of src/css-parser.js and of `C` in the
    v1.0.0 build: output order, selector composition, `:is()` wrapping,
    at-rule handling, and when the two builders agree. */
module CssBuilderFacts {
  import opened Text
  import opened SelectorGroup
  import opened CssParser

  /** The reducer visits blocks left to right: the output for `a + b` is the
      output for `a` followed by the output for `b`, so blocks are emitted in
      source order. */
  lemma {:induction false} BuildAppend(a: seq<Block>, b: seq<Block>, parent: string, d: Dialect)
    ensures Build(a + b, parent, d) == Build(a, parent, d) + Build(b, parent, d)
  {
    EmitsAppend(a, b, parent, d);
    ConcatAppend(Emits(a, parent, d), Emits(b, parent, d));
  }

  lemma {:induction false} EmitsAppend(a: seq<Block>, b: seq<Block>, parent: string, d: Dialect)
    ensures Emits(a + b, parent, d) == Emits(a, parent, d) + Emits(b, parent, d)
  {
    var l, r := Emits(a + b, parent, d), Emits(a, parent, d) + Emits(b, parent, d);
    forall i | 0 <= i < |l| ensures l[i] == r[i] {
      if i < |a| {
        assert (a + b)[i] == a[i];
      } else {
        assert (a + b)[i] == b[i - |a|];
      }
    }
  }

  /** A single block emits exactly what `Emit` says. */
  lemma {:induction false} BuildOne(b: Block, parent: string, d: Dialect)
    ensures Build([b], parent, d) == Emit(b, parent, d)
  {
    assert Emits([b], parent, d) == [Emit(b, parent, d)];
    assert Concat([Emit(b, parent, d)]) == Concat([]) + Emit(b, parent, d);
  }

  /** A list of blocks emits, in order, what each block emits. */
  lemma {:induction false} BuildCons(b: Block, rest: seq<Block>, parent: string, d: Dialect)
    ensures Build([b] + rest, parent, d) == Emit(b, parent, d) + Build(rest, parent, d)
  {
    BuildAppend([b], rest, parent, d);
    BuildOne(b, parent, d);
  }

  /** Selector composition on a selector without line terminators (or with
      the `[\s\S]` regex): `&sel` under a parent is `parent + sel` with no
      space, any other selector under a parent is `parent + ' ' + sel`, and
      without a parent the selector, `&` included, is kept; in each case
      the part taken from the block is wrapped in `:is(...)` exactly when
      it has a comma with a character on each side. */
  lemma {:induction false} ComposeRules(parent: string, selector: string, anyChar: bool)
    requires anyChar || NoLineTerminator(selector)
    ensures parent != "" && |selector| > 0 && selector[0] == '&' ==>
      Compose(parent, selector, anyChar) == parent + WrapGroup(selector[1..])
    ensures parent != "" && (|selector| == 0 || selector[0] != '&') ==>
      Compose(parent, selector, anyChar) == parent + " " + WrapGroup(selector)
    ensures parent == "" ==> Compose(parent, selector, anyChar) == WrapGroup(selector)
  {
    GroupReplaceIsWrapGroup(selector, anyChar);
    if |selector| > 0 {
      GroupReplaceIsWrapGroup(selector[1..], anyChar);
    }
  }

  /** A nested style rule's selector begins with its parent's full effective
      selector. */
  lemma {:induction false} ComposeExtendsParent(parent: string, selector: string, anyChar: bool)
    requires parent != ""
    ensures StartsWith(Compose(parent, selector, anyChar), parent)
  {
    var r := Compose(parent, selector, anyChar);
    if |selector| > 0 && selector[0] == '&' {
      assert r == parent + GroupReplace(selector[1..], anyChar);
    } else {
      assert r == parent + (" " + GroupReplace(selector, anyChar));
    }
    assert r[..|parent|] == parent;
  }

  /** A style block emits `selector{rules}` and then its children, built
      under its effective selector. */
  lemma {:induction false} EmitStyleBlock(b: Block, parent: string, d: Dialect)
    requires !IsAtRule(SelectorOf(b, d))
    ensures var eff := Compose(parent, SelectorOf(b, d), d == Dist);
      Emit(b, parent, d) == eff + "{" + b.rules + "}" + Build(b.children, eff, d)
  {
  }

  /** An at-rule block never emits its own declarations. */
  lemma {:induction false} AtRuleIgnoresRules(b: Block, rules: string, parent: string, d: Dialect)
    requires IsAtRule(SelectorOf(b, d))
    ensures Emit(b.(rules := rules), parent, d) == Emit(b, parent, d)
  {
  }

  /** An at-rule block emits its selector unchanged (never composed, never
      wrapped) and builds its children under the outer parent, as if it
      were not there; the closing `}` comes only when it has children. */
  lemma {:induction false} AtRuleIsTransparent(b: Block, parent: string, d: Dialect)
    requires IsAtRule(SelectorOf(b, d))
    ensures b.children != [] ==>
      Emit(b, parent, d) == SelectorOf(b, d) + "{" + Build(b.children, parent, d) + "}"
    ensures b.children == [] ==> Emit(b, parent, d) == SelectorOf(b, d) + "{"
  {
  }

  /** An at-rule written between two lists of blocks: its selector, `{`,
      the text its children produce under the outer parent, and `}`. Those
      children, spliced in place of the at-rule, would produce the same
      text unwrapped, so the at-rule only wraps its children's rules. */
  lemma {:induction false} AtRuleSplice(pre: seq<Block>, a: Block, post: seq<Block>, parent: string, d: Dialect)
    requires IsAtRule(SelectorOf(a, d)) && a.children != []
    ensures var inner := Build(a.children, parent, d);
      Build(pre + [a] + post, parent, d) == Build(pre, parent, d) + SelectorOf(a, d) + "{" + inner + "}" + Build(post, parent, d)
      && Build(pre + a.children + post, parent, d) == Build(pre, parent, d) + inner + Build(post, parent, d)
  {
    AtRuleWrapped(pre, a, post, parent, d);
    BuildAround(pre, a.children, post, parent, d);
  }

  lemma {:induction false} AtRuleWrapped(pre: seq<Block>, a: Block, post: seq<Block>, parent: string, d: Dialect)
    requires IsAtRule(SelectorOf(a, d)) && a.children != []
    ensures Build(pre + [a] + post, parent, d) ==
      Build(pre, parent, d) + SelectorOf(a, d) + "{" + Build(a.children, parent, d) + "}" + Build(post, parent, d)
  {
    BuildAppend(pre + [a], post, parent, d);
    BuildAppend(pre, [a], parent, d);
    BuildOne(a, parent, d);
    AtRuleIsTransparent(a, parent, d);
    WrapShape(Build(pre + [a] + post, parent, d), Build(pre + [a], parent, d), Build(pre, parent, d),
      Emit(a, parent, d), Build(post, parent, d), SelectorOf(a, d), Build(a.children, parent, d));
  }

  /** The regrouping behind `AtRuleWrapped`, on plain strings. */
  lemma {:induction false} WrapShape(whole: string, left: string, p: string, e: string, q: string, sel: string, inner: string)
    requires whole == left + q && left == p + e && e == sel + "{" + inner + "}"
    ensures whole == p + sel + "{" + inner + "}" + q
  {
    Assoc(p, sel + "{" + inner, "}");
    Assoc(p, sel + "{", inner);
    Assoc(p, sel, "{");
  }

  /** Building `pre + mid + post` is building the three parts in turn. */
  lemma {:induction false} BuildAround(pre: seq<Block>, mid: seq<Block>, post: seq<Block>, parent: string, d: Dialect)
    ensures Build(pre + mid + post, parent, d) == Build(pre, parent, d) + Build(mid, parent, d) + Build(post, parent, d)
  {
    BuildAppend(pre + mid, post, parent, d);
    BuildAppend(pre, mid, parent, d);
  }

  /** A style rule of the output: its effective selector and its
      declarations. */
  datatype StyleRule = StyleRule(selector: string, rules: string)

  /** The style rules of a list of blocks, in the order the builder writes
      them: each style block, then its children's rules under its effective
      selector (depth first); an at-rule's children under the outer parent. */
  function Flatten(bs: seq<Block>, parent: string, d: Dialect): seq<StyleRule>
    decreases bs, 1
  {
    if bs == [] then [] else FlattenBlock(bs[0], parent, d) + Flatten(bs[1..], parent, d)
  }

  function FlattenBlock(b: Block, parent: string, d: Dialect): seq<StyleRule>
    decreases b
  {
    var sel := SelectorOf(b, d);
    if IsAtRule(sel) then Flatten(b.children, parent, d)
    else
      var eff := Compose(parent, sel, d == Dist);
      [StyleRule(eff, b.rules)] + Flatten(b.children, eff, d)
  }

  /** The text of a list of style rules, each written `selector{rules}`. */
  function Css(rs: seq<StyleRule>): string
  {
    if rs == [] then "" else rs[0].selector + "{" + rs[0].rules + "}" + Css(rs[1..])
  }

  lemma {:induction false} CssAppend(a: seq<StyleRule>, b: seq<StyleRule>)
    ensures Css(a + b) == Css(a) + Css(b)
  {
    if a != [] {
      assert (a + b)[1..] == a[1..] + b;
      CssAppend(a[1..], b);
      var r := a[0];
      Assoc(r.selector + "{" + r.rules + "}", Css(a[1..]), Css(b));
    } else {
      assert a + b == b;
    }
  }

  /** No block of the tree is an at-rule. */
  predicate NoAtRules(bs: seq<Block>, d: Dialect)
    decreases bs, 1
  {
    forall i :: 0 <= i < |bs| ==> StyleOnly(bs[i], d)
  }

  predicate StyleOnly(b: Block, d: Dialect)
    decreases b
  {
    !IsAtRule(SelectorOf(b, d)) && NoAtRules(b.children, d)
  }

  /** Without at-rules the output is exactly the flattened style rules, one
      `selector{rules}` after another, in pre-order: every block's
      declarations under its full effective selector, nothing else. */
  lemma {:induction false} BuildIsFlat(bs: seq<Block>, parent: string, d: Dialect)
    requires NoAtRules(bs, d)
    ensures Build(bs, parent, d) == Css(Flatten(bs, parent, d))
    decreases bs, 1
  {
    if bs == [] {
      assert Emits(bs, parent, d) == [];
    } else {
      var rest := bs[1..];
      assert bs == [bs[0]] + rest;
      assert forall i :: 0 <= i < |rest| ==> rest[i] == bs[i + 1];
      BuildCons(bs[0], rest, parent, d);
      EmitIsFlat(bs[0], parent, d);
      BuildIsFlat(rest, parent, d);
      CssAppend(FlattenBlock(bs[0], parent, d), Flatten(rest, parent, d));
    }
  }

  lemma {:induction false} EmitIsFlat(b: Block, parent: string, d: Dialect)
    requires StyleOnly(b, d)
    ensures Emit(b, parent, d) == Css(FlattenBlock(b, parent, d))
    decreases b
  {
    var eff := Compose(parent, SelectorOf(b, d), d == Dist);
    EmitStyleBlock(b, parent, d);
    BuildIsFlat(b.children, eff, d);
    var r := StyleRule(eff, b.rules);
    assert ([r] + Flatten(b.children, eff, d))[1..] == Flatten(b.children, eff, d);
  }

  /** Every rule written under a non-empty parent has a selector that
      begins with that parent, at-rules or not. */
  lemma {:induction false} FlattenUnderParent(bs: seq<Block>, parent: string, d: Dialect)
    requires parent != ""
    ensures forall r :: r in Flatten(bs, parent, d) ==> StartsWith(r.selector, parent)
    decreases bs, 1
  {
    if bs != [] {
      FlattenBlockUnderParent(bs[0], parent, d);
      FlattenUnderParent(bs[1..], parent, d);
    }
  }

  lemma {:induction false} FlattenBlockUnderParent(b: Block, parent: string, d: Dialect)
    requires parent != ""
    ensures forall r :: r in FlattenBlock(b, parent, d) ==> StartsWith(r.selector, parent)
    decreases b
  {
    var sel := SelectorOf(b, d);
    if IsAtRule(sel) {
      FlattenUnderParent(b.children, parent, d);
    } else {
      var eff := Compose(parent, sel, d == Dist);
      ComposeExtendsParent(parent, sel, d == Dist);
      FlattenUnderParent(b.children, eff, d);
      forall r | r in Flatten(b.children, eff, d)
        ensures StartsWith(r.selector, parent)
      {
        assert r.selector[..|eff|] == eff;
        assert r.selector[..|parent|] == eff[..|parent|];
      }
    }
  }

  /** Selectors that trimming leaves alone and that contain no line
      terminator, throughout the tree. */
  predicate Portable(b: Block)
    decreases b
  {
    Trim(b.selector) == b.selector && NoLineTerminator(b.selector)
    && forall c :: c in b.children ==> Portable(c)
  }

  /** On such trees the v1.0.0 builder `C` and the source builder `build`
      produce the same text. */
  lemma {:induction false} BuildDialectsAgree(bs: seq<Block>, parent: string)
    requires forall b :: b in bs ==> Portable(b)
    ensures Build(bs, parent, Src) == Build(bs, parent, Dist)
    decreases bs, 1
  {
    forall i | 0 <= i < |bs|
      ensures Emits(bs, parent, Src)[i] == Emits(bs, parent, Dist)[i]
    {
      EmitDialectsAgree(bs[i], parent);
    }
    assert Emits(bs, parent, Src) == Emits(bs, parent, Dist);
  }

  lemma {:induction false} EmitDialectsAgree(b: Block, parent: string)
    requires Portable(b)
    ensures Emit(b, parent, Src) == Emit(b, parent, Dist)
    decreases b
  {
    assert SelectorOf(b, Src) == SelectorOf(b, Dist);
    var sel := b.selector;
    if !IsAtRule(sel) {
      ComposeRules(parent, sel, false);
      ComposeRules(parent, sel, true);
      var eff := Compose(parent, sel, false);
      BuildDialectsAgree(b.children, eff);
    } else {
      BuildDialectsAgree(b.children, parent);
    }
  }
}
