/** The at-rule example of test/specs/nested-css.js run through `O` of
    dist/cjs/fusion.js, starting from its normalised text: a rule with one
    declaration and a nested at-rule holding a `&` block. */
module FusionExamples {
  import opened Text
  import opened SelectorGroup
  import opened FusionParser
  import opened FusionParserFacts
  import Css = CssParser
  import B = CssBuilderFacts
  import N = FusionNormalise

  /** `sel{decl;at{&{inner;}}}`. */
  function AtRuleText(sel: string, decl: string, at: string, inner: string): string
  {
    (sel + "{" + decl + ";") + (at + "{") + ("&{" + inner + ";}") + "}}"
  }

  /** `sel{decl;}at{sel{inner;}}`. */
  function AtRuleOutput(sel: string, decl: string, at: string, inner: string): string
  {
    (sel + "{" + decl + ";}") + (at + "{") + (sel + "{" + inner + ";}") + "}"
  }

  function AtRuleTokens(sel: string, decl: string, at: string, inner: string): seq<Token>
  {
    [Token(sel, '{'), Token(decl, ';'), Token(at, '{'), Token("&", '{'), Token(inner, ';'),
     Token("", '}'), Token("", '}'), Token("", '}')]
  }

  /** What `q` builds: the rule, holding the at-rule, holding the `&`
      block. */
  function AtRuleTree(sel: string, decl: string, at: string, inner: string): Css.Block
  {
    Css.Block(sel, decl + ";", [Css.Block(at, "", [Css.Block("&", inner + ";", [])])])
  }

  lemma {:induction false} JoinedAt(toks: seq<Token>, k: nat)
    requires k < |toks|
    ensures Joined(toks[k..]) == toks[k].text + [toks[k].stop] + Joined(toks[k + 1..])
  {
    assert toks[k..][1..] == toks[k + 1..];
  }

  lemma {:induction false} AtRuleJoined(sel: string, decl: string, at: string, inner: string)
    ensures Joined(AtRuleTokens(sel, decl, at, inner)) == AtRuleText(sel, decl, at, inner)
  {
    var toks := AtRuleTokens(sel, decl, at, inner);
    var amp := "&{" + inner + ";}";
    AtRuleJoinedTail(sel, decl, at, inner);
    JoinedAt(toks, 2);
    assert Joined(toks[2..]) == at + "{" + (amp + "}}");
    JoinedAt(toks, 1);
    assert Joined(toks[1..]) == decl + ";" + (at + "{" + (amp + "}}"));
    JoinedAt(toks, 0);
    assert toks[0..] == toks;
    Regroup4(sel, decl, at, amp + "}}");
  }

  lemma {:induction false} Regroup4(sel: string, decl: string, at: string, rest: string)
    ensures sel + "{" + (decl + ";" + (at + "{" + rest)) == (sel + "{" + decl + ";") + (at + "{") + rest
  {
  }

  /** The `&` block and the three closing braces. */
  lemma {:induction false} AtRuleJoinedTail(sel: string, decl: string, at: string, inner: string)
    ensures Joined(AtRuleTokens(sel, decl, at, inner)[3..]) == ("&{" + inner + ";}") + "}}"
  {
    var toks := AtRuleTokens(sel, decl, at, inner);
    var close := "}";
    assert Joined(toks[8..]) == "";
    JoinedAt(toks, 7);
    assert Joined(toks[7..]) == close;
    JoinedAt(toks, 6);
    assert Joined(toks[6..]) == close + close;
    JoinedAt(toks, 5);
    assert Joined(toks[5..]) == close + close + close;
    JoinedAt(toks, 4);
    assert Joined(toks[4..]) == inner + ";}" + "}}";
    JoinedAt(toks, 3);
  }

  lemma {:induction false} AtRuleMatches(sel: string, decl: string, at: string, inner: string)
    requires NoStop(sel) && NoStop(decl) && NoStop(at) && NoStop(inner)
    ensures Tokens(AtRuleText(sel, decl, at, inner), 0) == AtRuleTokens(sel, decl, at, inner)
  {
    var toks := AtRuleTokens(sel, decl, at, inner);
    assert WellFormed(toks) by {
      assert NoStop("&") && NoStop("");
    }
    AtRuleJoined(sel, decl, at, inner);
    assert Joined(toks) + "" == Joined(toks);
    TokensOfJoined(toks, "");
  }

  /** One callback step inside a run. */
  lemma {:induction false} RunAt(ast: seq<Css.Block>, toks: seq<Token>, k: nat, next: seq<Css.Block>)
    requires |ast| >= 1 && k < |toks|
    requires Apply(ast, toks[k]) == Ok(next)
    ensures Run(ast, toks[k..]) == Run(next, toks[k + 1..])
  {
    assert toks[k..] == [toks[k]] + toks[k + 1..];
    RunCons(ast, toks[k], toks[k + 1..]);
  }

  /** The stacks after the declarations. */
  lemma {:induction false} DeclStep(ast: seq<Css.Block>, b: Css.Block, text: string)
    ensures Apply(ast + [b], Token(text, ';')) == Ok(ast + [b.(rules := b.rules + (text + ";"))])
  {
    assert (ast + [b])[|ast| := b.(rules := b.rules + (text + ";"))] == ast + [b.(rules := b.rules + (text + ";"))];
  }

  lemma {:induction false} OpenStep(ast: seq<Css.Block>, text: string)
    requires |ast| >= 1
    ensures Apply(ast, Token(text, '{')) == Ok(ast + [Css.Block(text, "", [])])
  {
  }

  lemma {:induction false} CloseStep(ast: seq<Css.Block>, p: Css.Block, b: Css.Block)
    ensures Apply(ast + [p, b], Token("", '}')) == Ok(ast + [p.(children := p.children + [b])])
  {
    var s := ast + [p, b];
    assert b.(rules := b.rules + "") == b;
    assert Css.AddRule(s, "") == s;
    assert s[..|s| - 2] == ast;
  }

  /** The first four matches open the rule, declare, and open the at-rule
      and the `&` block. */
  lemma {:induction false} AtRuleOpens(sel: string, decl: string, at: string, inner: string)
    ensures var toks := AtRuleTokens(sel, decl, at, inner);
      Run([Css.Root], toks) == Run([Css.Root, Css.Block(sel, decl + ";", []), Css.Block(at, "", []), Css.Block("&", "", [])], toks[4..])
  {
    RuleOpens(sel, decl, at, inner);
    AtOpens(sel, decl, at, inner);
  }

  /** The first two matches open the rule and declare in it. */
  lemma {:induction false} RuleOpens(sel: string, decl: string, at: string, inner: string)
    ensures var toks := AtRuleTokens(sel, decl, at, inner);
      Run([Css.Root], toks) == Run([Css.Root, Css.Block(sel, decl + ";", [])], toks[2..])
  {
    var toks := AtRuleTokens(sel, decl, at, inner);
    var r := Css.Root;
    var ruled := Css.Block(sel, decl + ";", []);
    var selOpened := Css.Block(sel, "", []);
    assert "" + (decl + ";") == decl + ";";
    OpenStep([r], sel);
    assert [r] + [selOpened] == [r, selOpened];
    RunAt([r], toks, 0, [r, selOpened]);
    DeclStep([r], selOpened, decl);
    assert [r] + [ruled] == [r, ruled];
    RunAt([r, selOpened], toks, 1, [r, ruled]);
    assert toks[0..] == toks;
  }

  /** The third and fourth matches open the at-rule and the `&` block. */
  lemma {:induction false} AtOpens(sel: string, decl: string, at: string, inner: string)
    ensures var toks := AtRuleTokens(sel, decl, at, inner);
      Run([Css.Root, Css.Block(sel, decl + ";", [])], toks[2..])
      == Run([Css.Root, Css.Block(sel, decl + ";", []), Css.Block(at, "", []), Css.Block("&", "", [])], toks[4..])
  {
    var toks := AtRuleTokens(sel, decl, at, inner);
    var r := Css.Root;
    var ruled := Css.Block(sel, decl + ";", []);
    var atOpened := Css.Block(at, "", []);
    var ampOpened := Css.Block("&", "", []);
    OpenStep([r, ruled], at);
    assert [r, ruled] + [atOpened] == [r, ruled, atOpened];
    RunAt([r, ruled], toks, 2, [r, ruled, atOpened]);
    OpenStep([r, ruled, atOpened], "&");
    assert [r, ruled, atOpened] + [ampOpened] == [r, ruled, atOpened, ampOpened];
    RunAt([r, ruled, atOpened], toks, 3, [r, ruled, atOpened, ampOpened]);
  }

  /** The fifth match declares in the `&` block. */
  lemma {:induction false} AmpDeclares(sel: string, decl: string, at: string, inner: string)
    ensures var toks := AtRuleTokens(sel, decl, at, inner);
      Run([Css.Root, Css.Block(sel, decl + ";", []), Css.Block(at, "", []), Css.Block("&", "", [])], toks[4..])
      == Run([Css.Root, Css.Block(sel, decl + ";", []), Css.Block(at, "", []), Css.Block("&", inner + ";", [])], toks[5..])
  {
    var toks := AtRuleTokens(sel, decl, at, inner);
    var front := [Css.Root, Css.Block(sel, decl + ";", []), Css.Block(at, "", [])];
    var ampOpened := Css.Block("&", "", []);
    assert "" + (inner + ";") == inner + ";";
    DeclStep(front, ampOpened, inner);
    assert front + [ampOpened] == [Css.Root, Css.Block(sel, decl + ";", []), Css.Block(at, "", []), ampOpened];
    assert front + [Css.Block("&", inner + ";", [])]
        == [Css.Root, Css.Block(sel, decl + ";", []), Css.Block(at, "", []), Css.Block("&", inner + ";", [])];
    RunAt(front + [ampOpened], toks, 4, front + [Css.Block("&", inner + ";", [])]);
  }

  /** The sixth match closes the `&` block onto the at-rule. */
  lemma {:induction false} AmpCloses(sel: string, decl: string, at: string, inner: string)
    ensures var toks := AtRuleTokens(sel, decl, at, inner);
      Run([Css.Root, Css.Block(sel, decl + ";", []), Css.Block(at, "", []), Css.Block("&", inner + ";", [])], toks[5..])
      == Run([Css.Root, Css.Block(sel, decl + ";", []), Css.Block(at, "", [Css.Block("&", inner + ";", [])])], toks[6..])
  {
    var toks := AtRuleTokens(sel, decl, at, inner);
    var front := [Css.Root, Css.Block(sel, decl + ";", [])];
    var atOpened := Css.Block(at, "", []);
    var amp := Css.Block("&", inner + ";", []);
    assert [] + [amp] == [amp];
    CloseStep(front, atOpened, amp);
    assert front + [atOpened, amp] == [Css.Root, Css.Block(sel, decl + ";", []), atOpened, amp];
    assert front + [atOpened.(children := [amp])]
        == [Css.Root, Css.Block(sel, decl + ";", []), Css.Block(at, "", [amp])];
    RunAt(front + [atOpened, amp], toks, 5, front + [atOpened.(children := [amp])]);
  }

  /** The last two matches close the at-rule onto the rule and the rule
      onto the root. */
  lemma {:induction false} AtRuleCloses(sel: string, decl: string, at: string, inner: string)
    ensures var toks := AtRuleTokens(sel, decl, at, inner);
      Run([Css.Root, Css.Block(sel, decl + ";", []), Css.Block(at, "", [Css.Block("&", inner + ";", [])])], toks[6..])
      == Ok([Css.Root.(children := [AtRuleTree(sel, decl, at, inner)])])
  {
    var toks := AtRuleTokens(sel, decl, at, inner);
    var r := Css.Root;
    var ruled := Css.Block(sel, decl + ";", []);
    var atBlock := Css.Block(at, "", [Css.Block("&", inner + ";", [])]);
    var tree := AtRuleTree(sel, decl, at, inner);
    assert [] + [atBlock] == [atBlock] && [] + [tree] == [tree];
    CloseStep([r], ruled, atBlock);
    assert [r] + [ruled, atBlock] == [r, ruled, atBlock];
    assert [r] + [tree] == [r, tree];
    RunAt([r, ruled, atBlock], toks, 6, [r, tree]);
    CloseStep([], r, tree);
    assert [] + [r, tree] == [r, tree];
    assert [] + [r.(children := [tree])] == [r.(children := [tree])];
    RunAt([r, tree], toks, 7, [r.(children := [tree])]);
    assert toks[8..] == [];
  }

  lemma {:induction false} AtRuleRun(sel: string, decl: string, at: string, inner: string)
    ensures Run([Css.Root], AtRuleTokens(sel, decl, at, inner))
         == Ok([Css.Root.(children := [AtRuleTree(sel, decl, at, inner)])])
  {
    AtRuleOpens(sel, decl, at, inner);
    AmpDeclares(sel, decl, at, inner);
    AmpCloses(sel, decl, at, inner);
    AtRuleCloses(sel, decl, at, inner);
  }

  lemma {:induction false} AmpEmit(sel: string, inner: string)
    requires sel != ""
    ensures Css.Build([Css.Block("&", inner + ";", [])], sel, Css.Dist) == sel + "{" + inner + ";" + "}"
  {
    var amp := Css.Block("&", inner + ";", []);
    assert Trim("&") == "&" by {
      TrimOfTrimmed("&");
    }
    B.ComposeRules(sel, "&", true);
    assert "&"[1..] == "" && !HasInnerComma("");
    assert Css.Compose(sel, "&", true) == sel;
    B.BuildOne(amp, sel, Css.Dist);
    B.EmitStyleBlock(amp, sel, Css.Dist);
    assert Css.Build([], sel, Css.Dist) == "";
  }

  lemma {:induction false} AtEmit(sel: string, at: string, inner: string)
    requires sel != ""
    requires Trim(at) == at && Css.IsAtRule(at)
    ensures Css.Build([Css.Block(at, "", [Css.Block("&", inner + ";", [])])], sel, Css.Dist)
         == at + "{" + (sel + "{" + inner + ";" + "}") + "}"
  {
    var atBlock := Css.Block(at, "", [Css.Block("&", inner + ";", [])]);
    AmpEmit(sel, inner);
    B.BuildOne(atBlock, sel, Css.Dist);
    B.AtRuleIsTransparent(atBlock, sel, Css.Dist);
  }

  /** `C` on the tree: the rule's own declarations, then the at-rule with
      the `&` block under the rule's selector. */
  lemma {:induction false} AtRuleBuild(sel: string, decl: string, at: string, inner: string)
    requires Trim(sel) == sel && !Css.IsAtRule(sel) && !HasInnerComma(sel) && sel != ""
    requires Trim(at) == at && Css.IsAtRule(at)
    ensures Css.Build([AtRuleTree(sel, decl, at, inner)], "", Css.Dist) == AtRuleOutput(sel, decl, at, inner)
  {
    var tree := AtRuleTree(sel, decl, at, inner);
    B.ComposeRules("", sel, true);
    AtEmit(sel, at, inner);
    B.BuildOne(tree, "", Css.Dist);
    B.EmitStyleBlock(tree, "", Css.Dist);
  }

  /** Any text that normalises to `sel{decl;at{&{inner;}}}` converts to the
      rule's own declarations followed by the at-rule wrapping the rule's
      selector: `&` inside an at-rule refers to the rule around the
      at-rule. */
  lemma {:induction false} AtRuleConverts(css: string, sel: string, decl: string, at: string, inner: string)
    requires NoStop(sel) && NoStop(decl) && NoStop(at) && NoStop(inner)
    requires Trim(sel) == sel && !Css.IsAtRule(sel) && !HasInnerComma(sel) && sel != ""
    requires Trim(at) == at && Css.IsAtRule(at)
    requires N.Normalise(css) == AtRuleText(sel, decl, at, inner)
    ensures ConvertSpec(css) == Ok(AtRuleOutput(sel, decl, at, inner))
  {
    AtRuleMatches(sel, decl, at, inner);
    AtRuleRun(sel, decl, at, inner);
    AtRuleBuild(sel, decl, at, inner);
    assert [Css.Root.(children := [AtRuleTree(sel, decl, at, inner)])][0].children == [AtRuleTree(sel, decl, at, inner)];
  }

  /** The pieces of the test's at-rule example meet the conditions of
      `AtRuleConverts`. */
  lemma {:induction false} TestPieces()
    ensures NoStop(".foo") && NoStop("color:black") && NoStop("@media (max-width:480px)") && NoStop("color:green")
    ensures Trim(".foo") == ".foo" && !Css.IsAtRule(".foo") && !HasInnerComma(".foo")
    ensures Trim("@media (max-width:480px)") == "@media (max-width:480px)" && Css.IsAtRule("@media (max-width:480px)")
  {
    TrimOfTrimmed(".foo");
    TrimOfTrimmed("@media (max-width:480px)");
  }

  lemma {:induction false} TestRule()
    ensures ".foo" + "{" + "color:black" + ";" == ".foo{color:black;"
    ensures ".foo" + "{" + "color:black" + ";}" == ".foo{color:black;}"
  {
  }

  lemma {:induction false} TestAtRule()
    ensures "@media (max-width:480px)" + "{" == "@media (max-width:480px){"
  {
  }

  lemma {:induction false} TestAmp()
    ensures "&{" + "color:green" + ";}" == "&{color:green;}"
    ensures ".foo" + "{" + "color:green" + ";}" == ".foo{color:green;}"
  {
  }

  /** test/specs/nested-css.js, nested CSS with at-rules, from the
      normalised text on: the declarations of `.foo` come first, then the
      media query wrapping `.foo{color:green;}`. */
  lemma {:induction false} NestedAtRuleTest(css: string)
    requires N.Normalise(css) == ".foo{color:black;" + "@media (max-width:480px){" + "&{color:green;}" + "}}"
    ensures ConvertSpec(css) == Ok(".foo{color:black;}" + "@media (max-width:480px){" + ".foo{color:green;}" + "}")
  {
    TestPieces();
    TestRule();
    TestAtRule();
    TestAmp();
    AtRuleConverts(css, ".foo", "color:black", "@media (max-width:480px)", "color:green");
  }
}
