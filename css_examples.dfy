/** The examples of test/specs/nested-css.js that the source compiler
    `convert` of src/css-parser.js must reproduce, proved from the model:
    the input text is written out exactly (its indentation included), read
    piece by piece with the scanner lemmas, and built with the builder
    lemmas. */
module CssExamples {
  import opened Text
  import opened SelectorGroup
  import opened CssParser
  import opened CssParserFacts
  import opened CssBuilderFacts

  /** A line break followed by `n` spaces of indentation. */
  function Indent(n: nat): (r: string)
    ensures |r| == n + 1 && r[0] == '\n'
    ensures forall k :: 1 <= k <= n ==> r[k] == ' '
  {
    "\n" + Repeat(' ', n)
  }

  /** White space the scanner skips between declarations. */
  predicate Blank(w: string)
  {
    forall k :: 0 <= k < |w| ==> w[k] == ' ' || w[k] == '\n'
  }

  /** `ast[depth].children.push(...blocks)`. */
  function Attach(ast: seq<Block>, blocks: seq<Block>): (r: seq<Block>)
    requires |ast| >= 1
    ensures |r| == |ast|
  {
    ast[|ast| - 1 := ast[|ast| - 1].(children := ast[|ast| - 1].children + blocks)]
  }

  /** Reading `text` from any idle scanner attaches `blocks` to the
      innermost open block and leaves the scanner idle. */
  ghost predicate ReadsAs(text: string, blocks: seq<Block>)
  {
    forall st: Scan, escaped: bool {:trigger Feed(st, escaped, text)} ::
      Valid(st) && Idle(st) ==> Feed(st, escaped, text) == Ok(st.(ast := Attach(st.ast, blocks)))
  }

  lemma {:induction false} ReadsNothing()
    ensures ReadsAs("", [])
  {
    forall st: Scan, escaped: bool | Valid(st) && Idle(st)
      ensures Feed(st, escaped, "") == Ok(st.(ast := Attach(st.ast, [])))
    {
      assert st.ast[|st.ast| - 1].children + [] == st.ast[|st.ast| - 1].children;
      assert Attach(st.ast, []) == st.ast;
    }
  }

  /** The opening `head tail{` of a block whose selector is `head tail`. */
  predicate Opening(open: string, head: string, tail: string)
  {
    open == head + " " + tail + "{"
    && head != [] && (forall k :: 0 <= k < |head| ==> NameChar(head[k]) && !IsSpace(head[k]))
    && forall k :: 0 <= k < |tail| ==> ValueChar(tail[k])
  }

  /** A declaration `name value;` with the value left unquoted. */
  predicate Declaration(decl: string, name: string, value: string)
  {
    decl == name + " " + value + ";"
    && name != [] && (forall k :: 0 <= k < |name| ==> NameChar(name[k]) && !IsSpace(name[k]))
    && forall k :: 0 <= k < |value| ==> ValueChar(value[k])
  }

  /** `open` opens a block whose selector is `sel`. */
  predicate OpensAs(open: string, head: string, tail: string, sel: string)
  {
    Opening(open, head, tail) && sel == Trim(head + " " + tail)
  }

  /** `decl` adds `rule` to the rules of the open block. */
  predicate Declares(decl: string, name: string, value: string, rule: string)
  {
    Declaration(decl, name, value) && rule == name + Trim(value) + ";"
  }

  /** One block written `head tail{ name value; ... children ... }`, with
      white space around its parts, reads as that block with its
      declaration and children. */
  lemma {:induction false} ReadsBlock(open: string, head: string, tail: string, b1: string, decl: string, name: string, value: string,
                   b2: string, child: string, children: seq<Block>, b3: string)
    requires Opening(open, head, tail) && Declaration(decl, name, value)
    requires Blank(b1) && Blank(b2) && Blank(b3)
    requires ReadsAs(child, children)
    ensures ReadsAs(open + b1 + decl + b2 + child + b3 + "}",
                    [Block(Trim(head + " " + tail), name + Trim(value) + ";", children)])
  {
    var text := open + b1 + decl + b2 + child + b3 + "}";
    var blk := Block(Trim(head + " " + tail), name + Trim(value) + ";", children);
    forall st: Scan, escaped: bool | Valid(st) && Idle(st)
      ensures Feed(st, escaped, text) == Ok(st.(ast := Attach(st.ast, [blk])))
    {
      ReadBlockFrom(st, escaped, head, tail, b1, name, value, b2, child, children, b3);
    }
  }

  /** A block without nested blocks. */
  lemma {:induction false} ReadsLeaf(open: string, head: string, tail: string, b1: string, decl: string, name: string, value: string,
                  b3: string)
    requires Opening(open, head, tail) && Declaration(decl, name, value)
    requires Blank(b1) && Blank(b3)
    ensures ReadsAs(open + b1 + decl + b3 + "}", [Block(Trim(head + " " + tail), name + Trim(value) + ";", [])])
  {
    ReadsNothing();
    ReadsBlock(open, head, tail, b1, decl, name, value, "", "", [], b3);
    assert open + b1 + decl + "" + "" + b3 + "}" == open + b1 + decl + b3 + "}";
  }

  lemma {:induction false} ReadBlockFrom(st: Scan, escaped: bool, head: string, tail: string, b1: string, name: string, value: string,
                      b2: string, child: string, children: seq<Block>, b3: string)
    requires Valid(st) && Idle(st)
    requires head != [] && forall k :: 0 <= k < |head| ==> NameChar(head[k]) && !IsSpace(head[k])
    requires forall k :: 0 <= k < |tail| ==> ValueChar(tail[k])
    requires name != [] && forall k :: 0 <= k < |name| ==> NameChar(name[k]) && !IsSpace(name[k])
    requires forall k :: 0 <= k < |value| ==> ValueChar(value[k])
    requires Blank(b1) && Blank(b2) && Blank(b3)
    requires ReadsAs(child, children)
    ensures Feed(st, escaped, head + " " + tail + "{" + b1 + (name + " " + value + ";") + b2 + child + b3 + "}") ==
      Ok(st.(ast := Attach(st.ast, [Block(Trim(head + " " + tail), name + Trim(value) + ";", children)])))
  {
    var sel := Trim(head + " " + tail);
    var rules := name + Trim(value) + ";";
    var s2 := st.(ast := st.ast + [Block(sel, rules, [])]);
    var p := head + " " + tail + "{" + b1 + (name + " " + value + ";") + b2;
    ReadOpening(st, escaped, head, tail, b1, name, value, b2);
    ReadClosing(s2, EscapedAfter(p, escaped), child, children, b3);
    Chain(st, escaped, p, child + b3 + "}", s2, s2.(ast := CloseBlock(Attach(s2.ast, children))));
    Assoc(p, child, b3);
    Assoc(p, child + b3, "}");
    assert [] + children == children;
    assert CloseBlock(Attach(s2.ast, children)) == Attach(st.ast, [Block(sel, rules, children)]);
  }

  /** `head tail{ name value;` and the white space around the declaration
      open a block holding that declaration. */
  lemma {:induction false} ReadOpening(st: Scan, escaped: bool, head: string, tail: string, b1: string, name: string, value: string,
                    b2: string)
    requires Valid(st) && Idle(st)
    requires head != [] && forall k :: 0 <= k < |head| ==> NameChar(head[k]) && !IsSpace(head[k])
    requires forall k :: 0 <= k < |tail| ==> ValueChar(tail[k])
    requires name != [] && forall k :: 0 <= k < |name| ==> NameChar(name[k]) && !IsSpace(name[k])
    requires forall k :: 0 <= k < |value| ==> ValueChar(value[k])
    requires Blank(b1) && Blank(b2)
    ensures Feed(st, escaped, head + " " + tail + "{" + b1 + (name + " " + value + ";") + b2) ==
      Ok(st.(ast := st.ast + [Block(Trim(head + " " + tail), name + Trim(value) + ";", [])]))
  {
    var sel := Trim(head + " " + tail);
    var rules := name + Trim(value) + ";";
    var s1 := st.(ast := st.ast + [Block(sel, "", [])]);
    var s2 := st.(ast := st.ast + [Block(sel, rules, [])]);
    var p := head + " " + tail + "{";
    OpenBlock(st, escaped, head, tail);
    BlankIgnored(s1, EscapedAfter(p, escaped), b1);
    Chain(st, escaped, p, b1, s1, s1);
    p := p + b1;
    DeclarationStored(s1, EscapedAfter(p, escaped), name, value);
    assert "" + rules == rules;
    assert AddRule(s1.ast, rules) == s2.ast;
    Chain(st, escaped, p, name + " " + value + ";", s1, s2);
    p := p + (name + " " + value + ";");
    BlankIgnored(s2, EscapedAfter(p, escaped), b2);
    Chain(st, escaped, p, b2, s2, s2);
  }

  /** The children, white space and `}` attach the children and close the
      block. */
  lemma {:induction false} ReadClosing(st: Scan, escaped: bool, child: string, children: seq<Block>, b3: string)
    requires Valid(st) && Idle(st) && |st.ast| >= 2
    requires Blank(b3)
    requires ReadsAs(child, children)
    ensures Feed(st, escaped, child + b3 + "}") == Ok(st.(ast := CloseBlock(Attach(st.ast, children))))
  {
    var s3 := st.(ast := Attach(st.ast, children));
    assert Feed(st, escaped, child) == Ok(s3);
    BlankIgnored(s3, EscapedAfter(child, escaped), b3);
    Chain(st, escaped, child, b3, s3, s3);
    CloseOne(s3, EscapedAfter(child + b3, escaped));
    Chain(st, escaped, child + b3, "}", s3, s3.(ast := CloseBlock(s3.ast)));
  }

  /** Input that reads as `blocks` from the start parses to `blocks`. */
  lemma {:induction false} ParsesAs(text: string, blocks: seq<Block>)
    requires ReadsAs(text, blocks)
    ensures ParseSpec(text) == Ok(blocks)
  {
    assert Feed(Start, false, text) == Ok(Start.(ast := Attach(Start.ast, blocks)));
    assert [] + blocks == blocks;
  }

  /** A block holding one declaration and one nested leaf block, inside
      leading and trailing white space. */
  lemma {:induction false} TwoLevels(lead: string, o1: string, h1: string, t1: string, s1: string, b1: string, d1: string, n1: string,
                  v1: string, r1: string, g1: string, g2: string, o2: string, h2: string, t2: string, s2: string,
                  c1: string, d2: string, n2: string, v2: string, r2: string, c2: string, b2: string, trail: string)
    requires OpensAs(o1, h1, t1, s1) && Declares(d1, n1, v1, r1) && OpensAs(o2, h2, t2, s2) && Declares(d2, n2, v2, r2)
    requires Blank(lead) && Blank(b1) && Blank(g1) && Blank(g2) && Blank(c1) && Blank(c2) && Blank(b2) && Blank(trail)
    ensures ParseSpec(Trim(lead + o1 + b1 + d1 + g1 + g2 + o2 + c1 + d2 + c2 + "}" + b2 + "}" + trail)) ==
      Ok([Block(s1, r1, [Block(s2, r2, [])])])
  {
    var inner := o2 + c1 + d2 + c2 + "}";
    var outer := o1 + b1 + d1 + (g1 + g2) + inner + b2 + "}";
    ReadsLeaf(o2, h2, t2, c1, d2, n2, v2, c2);
    ReadsBlock(o1, h1, t1, b1, d1, n1, v1, g1 + g2, inner, [Block(s2, r2, [])], b2);
    ParsesAs(outer, [Block(s1, r1, [Block(s2, r2, [])])]);
    var m := o1 + b1 + d1 + (g1 + g2);
    Opens(lead, o1, b1, d1, g1, g2);
    Regroup5(lead + m, o2, c1, d2, c2, "}");
    Regroup4(lead, m, inner, b2, "}");
    assert outer[0] == o1[0] == h1[0];
    BlankIsSpace(lead);
    BlankIsSpace(trail);
    TrimAround(lead, outer, trail);
  }

  lemma {:induction false} Regroup4(x: string, a: string, b: string, c: string, d: string)
    ensures x + a + b + c + d == x + (a + b + c + d)
  {
    Assoc(x + a + b, c, d);
    Assoc(x + a, b, c + d);
    Assoc(x, a, b + (c + d));
    Assoc(a, b, c + d);
    Assoc(a + b, c, d);
  }

  lemma {:induction false} Regroup5(x: string, a: string, b: string, c: string, d: string, e: string)
    ensures x + a + b + c + d + e == x + (a + b + c + d + e)
  {
    Regroup4(x, a, b, c, d);
    Assoc(x, a + b + c + d, e);
  }

  lemma {:induction false} BlankIsSpace(w: string)
    requires Blank(w)
    ensures AllSpace(w)
  {
  }

  /** Four blocks nested one in another, each holding one declaration. */
  lemma {:induction false} FourLevels(lead: string,
                   o1: string, h1: string, t1: string, s1: string, b1: string, d1: string, n1: string, v1: string,
                   r1: string, g1: string, g1': string,
                   o2: string, h2: string, t2: string, s2: string, b2: string, d2: string, n2: string, v2: string,
                   r2: string, g2: string, g2': string,
                   o3: string, h3: string, t3: string, s3: string, b3: string, d3: string, n3: string, v3: string,
                   r3: string, g3: string, g3': string,
                   o4: string, h4: string, t4: string, s4: string, b4: string, d4: string, n4: string, v4: string,
                   r4: string, c4: string, c3: string, c2: string, c1: string, trail: string)
    requires OpensAs(o1, h1, t1, s1) && Declares(d1, n1, v1, r1) && OpensAs(o2, h2, t2, s2) && Declares(d2, n2, v2, r2)
    requires OpensAs(o3, h3, t3, s3) && Declares(d3, n3, v3, r3) && OpensAs(o4, h4, t4, s4) && Declares(d4, n4, v4, r4)
    requires Blank(lead) && Blank(b1) && Blank(g1) && Blank(g1') && Blank(b2) && Blank(g2) && Blank(g2')
    requires Blank(b3) && Blank(g3) && Blank(g3') && Blank(b4) && Blank(c4) && Blank(c3) && Blank(c2) && Blank(c1)
    requires Blank(trail)
    ensures ParseSpec(Trim(lead + o1 + b1 + d1 + g1 + g1' + o2 + b2 + d2 + g2 + g2' + o3 + b3 + d3 + g3 + g3'
                           + o4 + b4 + d4 + c4 + "}" + c3 + "}" + c2 + "}" + c1 + "}" + trail)) ==
      Ok([Block(s1, r1, [Block(s2, r2, [Block(s3, r3, [Block(s4, r4, [])])])])])
  {
    var blk4 := Block(s4, r4, []);
    var blk3 := Block(s3, r3, [blk4]);
    var blk2 := Block(s2, r2, [blk3]);
    var blk1 := Block(s1, r1, [blk2]);
    // The openings of the four blocks, and the texts of the blocks.
    var m1 := o1 + b1 + d1 + (g1 + g1');
    var m2 := o2 + b2 + d2 + (g2 + g2');
    var m3 := o3 + b3 + d3 + (g3 + g3');
    var qux := o4 + b4 + d4 + c4 + "}";
    var baz := m3 + qux + c3 + "}";
    var bar := m2 + baz + c2 + "}";
    var foo := m1 + bar + c1 + "}";
    ReadsLeaf(o4, h4, t4, b4, d4, n4, v4, c4);
    ReadsBlock(o3, h3, t3, b3, d3, n3, v3, g3 + g3', qux, [blk4], c3);
    ReadsBlock(o2, h2, t2, b2, d2, n2, v2, g2 + g2', baz, [blk3], c2);
    ReadsBlock(o1, h1, t1, b1, d1, n1, v1, g1 + g1', bar, [blk2], c1);
    ParsesAs(foo, [blk1]);
    // The input, read left to right, regrouped block by block.
    var l1 := lead + o1 + b1 + d1 + g1 + g1';
    Opens(lead, o1, b1, d1, g1, g1');
    var l2 := l1 + o2 + b2 + d2 + g2 + g2';
    Opens(l1, o2, b2, d2, g2, g2');
    var l3 := l2 + o3 + b3 + d3 + g3 + g3';
    Opens(l2, o3, b3, d3, g3, g3');
    Regroup5(l3, o4, b4, d4, c4, "}");
    Regroup4(l2, m3, qux, c3, "}");
    Regroup4(l1, m2, baz, c2, "}");
    Regroup4(lead, m1, bar, c1, "}");
    assert foo[0] == o1[0] == h1[0];
    BlankIsSpace(lead);
    BlankIsSpace(trail);
    TrimAround(lead, foo, trail);
  }

  /** The opening of a block and the white space after its declaration,
      regrouped. */
  lemma {:induction false} Opens(x: string, o: string, b: string, d: string, g: string, g': string)
    ensures x + o + b + d + g + g' == x + (o + b + d + (g + g'))
  {
    Regroup4(x, o, b, d, g + g');
    Assoc(x + o + b + d, g, g');
  }

  /** A style block on its own emits its rule, then its children under its
      effective selector. */
  lemma {:induction false} BuildStyleBlock(selector: string, rules: string, children: seq<Block>, parent: string)
    requires !IsAtRule(selector)
    ensures var eff := Compose(parent, selector, false);
      Build([Block(selector, rules, children)], parent, Src) == eff + "{" + rules + "}" + Build(children, eff, Src)
  {
    BuildOne(Block(selector, rules, children), parent, Src);
    EmitStyleBlock(Block(selector, rules, children), parent, Src);
  }

  lemma {:induction false} BuildNothing(parent: string)
    ensures Build([], parent, Src) == ""
  {
    assert Emits([], parent, Src) == [];
  }

  /** A top-level selector without a comma is kept as written. */
  lemma {:induction false} ComposeTop(selector: string)
    requires selector != [] && selector[0] != '&' && ',' !in selector && NoLineTerminator(selector)
    ensures Compose("", selector, false) == selector
  {
    ComposeRules("", selector, false);
  }

  /** A nested selector without a comma follows its parent after a space. */
  lemma {:induction false} ComposeSpaced(parent: string, selector: string, joined: string)
    requires parent != "" && selector != [] && selector[0] != '&' && ',' !in selector && NoLineTerminator(selector)
    requires joined == parent + " " + selector
    ensures Compose(parent, selector, false) == joined
  {
    ComposeRules(parent, selector, false);
  }

  /** `&rest` without a comma follows its parent directly. */
  lemma {:induction false} ComposeJoined(parent: string, selector: string, rest: string, joined: string)
    requires parent != "" && selector == "&" + rest && ',' !in rest && NoLineTerminator(selector)
    requires joined == parent + rest
    ensures Compose(parent, selector, false) == joined
  {
    assert selector[1..] == rest;
    ComposeRules(parent, selector, false);
  }

  /** Indentation is white space the scanner skips. */
  lemma {:induction false} BlankIndent(n: nat)
    ensures Blank(Indent(n))
  {
  }

  /** `word {` opens a block whose selector is `word`. */
  lemma {:induction false} WordOpening(open: string, word: string)
    requires open == word + " {"
    requires word != [] && forall k :: 0 <= k < |word| ==> NameChar(word[k]) && !IsSpace(word[k])
    ensures OpensAs(open, word, "", word)
  {
    assert word + " " + "" + "{" == word + " {";
    TrimAround("", word, " ");
    assert "" + word + " " == word + " " + "";
  }

  /** `name value;` with a value that has no surrounding white space adds
      `name` and `value` with the space between them dropped. */
  lemma {:induction false} PlainDeclaration(decl: string, name: string, value: string, rule: string)
    requires decl == name + " " + value + ";" && rule == name + value + ";"
    requires name != [] && forall k :: 0 <= k < |name| ==> NameChar(name[k]) && !IsSpace(name[k])
    requires value != [] && forall k :: 0 <= k < |value| ==> ValueChar(value[k]) && !IsSpace(value[k])
    ensures Declares(decl, name, value, rule)
  {
    TrimOfTrimmed(value);
  }

  /** The input of "should support nested CSS with a parent selector"
      (test/specs/nested-css.js:5-12), line by line. */
  const ParentSelectorInput: string :=
    Indent(12) + ".foo {" +
    Indent(16) + "width: 12px;" +
    Indent(8) +
    Indent(16) + "&::before {" +
    Indent(20) + "width: 27px;" +
    Indent(16) + "}" +
    Indent(12) + "}" +
    Indent(8)

  lemma {:induction false} ParentSelectorPieces()
    ensures OpensAs(".foo {", ".foo", "", ".foo") && OpensAs("&::before {", "&::before", "", "&::before")
    ensures Declares("width: 12px;", "width:", "12px", "width:12px;")
    ensures Declares("width: 27px;", "width:", "27px", "width:27px;")
  {
    WordOpening(".foo {", ".foo");
    WordOpening("&::before {", "&::before");
    PlainDeclaration("width: 12px;", "width:", "12px", "width:12px;");
    PlainDeclaration("width: 27px;", "width:", "27px", "width:27px;");
  }

  lemma {:induction false} ParentSelectorParses()
    ensures ParseSpec(Trim(ParentSelectorInput)) ==
      Ok([Block(".foo", "width:12px;", [Block("&::before", "width:27px;", [])])])
  {
    ParentSelectorPieces();
    BlankIndent(8);
    BlankIndent(12);
    BlankIndent(16);
    BlankIndent(20);
    TwoLevels(Indent(12), ".foo {", ".foo", "", ".foo", Indent(16), "width: 12px;", "width:", "12px", "width:12px;",
              Indent(8), Indent(16), "&::before {", "&::before", "", "&::before", Indent(20), "width: 27px;", "width:",
              "27px", "width:27px;", Indent(16), Indent(12), Indent(8));
  }

  lemma {:induction false} ParentSelectorSelectors()
    ensures Compose("", ".foo", false) == ".foo"
    ensures Compose(".foo", "&::before", false) == ".foo::before"
  {
    ComposeTop(".foo");
    BeforeJoined();
  }

  lemma {:induction false} BeforeJoined()
    ensures Compose(".foo", "&::before", false) == ".foo::before"
  {
    ComposeJoined(".foo", "&::before", "::before", ".foo::before");
  }

  lemma {:induction false} ParentSelectorRules()
    ensures ".foo" + "{" + "width:12px;" + "}" == ".foo{width:12px;}"
    ensures ".foo::before" + "{" + "width:27px;" + "}" + "" == ".foo::before{width:27px;}"
  {
  }

  /** "should support nested CSS with a parent selector": `&::before` is
      joined to `.foo` with no space. */
  lemma {:induction false} ParentSelectorConverts()
    ensures ConvertSpec(ParentSelectorInput) == Ok(".foo{width:12px;}" + ".foo::before{width:27px;}")
  {
    ParentSelectorParses();
    ParentSelectorSelectors();
    BuildStyleBlock(".foo", "width:12px;", [Block("&::before", "width:27px;", [])], "");
    BuildStyleBlock("&::before", "width:27px;", [], ".foo");
    BuildNothing(".foo::before");
    ParentSelectorRules();
  }

  /** The input of "should support nested CSS with a child selector"
      (test/specs/nested-css.js:17-24). */
  const ChildSelectorInput: string :=
    Indent(12) + ".foo {" +
    Indent(16) + "width: 4px;" +
    Indent(8) +
    Indent(16) + ".bar {" +
    Indent(20) + "width: 15px;" +
    Indent(16) + "}" +
    Indent(12) + "}" +
    Indent(8)

  lemma {:induction false} ChildSelectorPieces()
    ensures OpensAs(".foo {", ".foo", "", ".foo") && OpensAs(".bar {", ".bar", "", ".bar")
    ensures Declares("width: 4px;", "width:", "4px", "width:4px;")
    ensures Declares("width: 15px;", "width:", "15px", "width:15px;")
  {
    WordOpening(".foo {", ".foo");
    WordOpening(".bar {", ".bar");
    PlainDeclaration("width: 4px;", "width:", "4px", "width:4px;");
    PlainDeclaration("width: 15px;", "width:", "15px", "width:15px;");
  }

  lemma {:induction false} ChildSelectorParses()
    ensures ParseSpec(Trim(ChildSelectorInput)) ==
      Ok([Block(".foo", "width:4px;", [Block(".bar", "width:15px;", [])])])
  {
    ChildSelectorPieces();
    BlankIndent(8);
    BlankIndent(12);
    BlankIndent(16);
    BlankIndent(20);
    TwoLevels(Indent(12), ".foo {", ".foo", "", ".foo", Indent(16), "width: 4px;", "width:", "4px", "width:4px;",
              Indent(8), Indent(16), ".bar {", ".bar", "", ".bar", Indent(20), "width: 15px;", "width:",
              "15px", "width:15px;", Indent(16), Indent(12), Indent(8));
  }

  lemma {:induction false} ChildSelectorSelectors()
    ensures Compose("", ".foo", false) == ".foo"
    ensures Compose(".foo", ".bar", false) == ".foo .bar"
  {
    ComposeTop(".foo");
    ComposeSpaced(".foo", ".bar", ".foo .bar");
  }

  lemma {:induction false} ChildSelectorRules()
    ensures ".foo" + "{" + "width:4px;" + "}" == ".foo{width:4px;}"
    ensures ".foo .bar" + "{" + "width:15px;" + "}" + "" == ".foo .bar{width:15px;}"
  {
  }

  /** "should support nested CSS with a child selector": `.bar` is joined to
      `.foo` with a space. */
  lemma {:induction false} ChildSelectorConverts()
    ensures ConvertSpec(ChildSelectorInput) == Ok(".foo{width:4px;}" + ".foo .bar{width:15px;}")
  {
    ChildSelectorParses();
    ChildSelectorSelectors();
    BuildStyleBlock(".foo", "width:4px;", [Block(".bar", "width:15px;", [])], "");
    BuildStyleBlock(".bar", "width:15px;", [], ".foo");
    BuildNothing(".foo .bar");
    ChildSelectorRules();
  }

  /** The input of "should support nested CSS with multiple parents"
      (test/specs/nested-css.js:43-50). */
  const MultipleParentsInput: string :=
    Indent(12) + ".foo, .bar {" +
    Indent(16) + "width: 10px;" +
    Indent(8) +
    Indent(16) + "&.baz {" +
    Indent(20) + "width: 20px;" +
    Indent(16) + "}" +
    Indent(12) + "}" +
    Indent(8)

  /** `.foo, .bar {` is read as a name `.foo,` and a value `.bar `, which the
      opening brace joins back with one space. */
  lemma {:induction false} ListOpening()
    ensures OpensAs(".foo, .bar {", ".foo,", ".bar ", ".foo, .bar")
  {
    ListOpeningText();
    ListOpeningChars();
    ListOpeningTrim();
  }

  lemma {:induction false} ListOpeningText()
    ensures ".foo, .bar {" == ".foo," + " " + ".bar " + "{"
    ensures "" + ".foo, .bar" + " " == ".foo," + " " + ".bar "
  {
  }

  lemma {:induction false} ListOpeningChars()
    ensures forall k :: 0 <= k < |".foo,"| ==> NameChar(".foo,"[k]) && !IsSpace(".foo,"[k])
    ensures forall k :: 0 <= k < |".bar "| ==> ValueChar(".bar "[k])
  {
  }

  lemma {:induction false} ListOpeningTrim()
    ensures Trim(".foo," + " " + ".bar ") == ".foo, .bar"
  {
    TrimAround("", ".foo, .bar", " ");
    ListOpeningText();
  }

  lemma {:induction false} MultipleParentsPieces()
    ensures OpensAs(".foo, .bar {", ".foo,", ".bar ", ".foo, .bar") && OpensAs("&.baz {", "&.baz", "", "&.baz")
    ensures Declares("width: 10px;", "width:", "10px", "width:10px;")
    ensures Declares("width: 20px;", "width:", "20px", "width:20px;")
  {
    ListOpening();
    WordOpening("&.baz {", "&.baz");
    PlainDeclaration("width: 10px;", "width:", "10px", "width:10px;");
    PlainDeclaration("width: 20px;", "width:", "20px", "width:20px;");
  }

  lemma {:induction false} MultipleParentsParses()
    ensures ParseSpec(Trim(MultipleParentsInput)) ==
      Ok([Block(".foo, .bar", "width:10px;", [Block("&.baz", "width:20px;", [])])])
  {
    MultipleParentsPieces();
    BlankIndent(8);
    BlankIndent(12);
    BlankIndent(16);
    BlankIndent(20);
    TwoLevels(Indent(12), ".foo, .bar {", ".foo,", ".bar ", ".foo, .bar", Indent(16), "width: 10px;", "width:", "10px",
              "width:10px;", Indent(8), Indent(16), "&.baz {", "&.baz", "", "&.baz", Indent(20), "width: 20px;",
              "width:", "20px", "width:20px;", Indent(16), Indent(12), Indent(8));
  }

  /** The list `.foo, .bar` has a comma inside it, so it is wrapped. */
  lemma {:induction false} ListIsWrapped()
    ensures Compose("", ".foo, .bar", false) == ":is(.foo, .bar)"
  {
    ListFacts();
    ComposeTopWrapped(".foo, .bar");
  }

  lemma {:induction false} ListFacts()
    ensures NoLineTerminator(".foo, .bar") && HasInnerComma(".foo, .bar")
    ensures ":is(" + ".foo, .bar" + ")" == ":is(.foo, .bar)"
  {
    var list := ".foo, .bar";
    assert NoLineTerminator(list) by {
      forall k | 0 <= k < |list| ensures !IsLineTerminator(list[k]) {
      }
    }
    assert list[4] == ',';
  }

  /** A top-level selector list with a comma inside it is wrapped. */
  lemma {:induction false} ComposeTopWrapped(selector: string)
    requires NoLineTerminator(selector) && HasInnerComma(selector)
    ensures Compose("", selector, false) == ":is(" + selector + ")"
  {
    ComposeRules("", selector, false);
  }

  lemma {:induction false} MultipleParentsChild()
    ensures Compose(":is(.foo, .bar)", "&.baz", false) == ":is(.foo, .bar).baz"
  {
    ComposeJoined(":is(.foo, .bar)", "&.baz", ".baz", ":is(.foo, .bar).baz");
  }

  lemma {:induction false} MultipleParentsRules()
    ensures ":is(.foo, .bar)" + "{" + "width:10px;" + "}" == ":is(.foo, .bar){width:10px;}"
    ensures ":is(.foo, .bar).baz" + "{" + "width:20px;" + "}" + "" == ":is(.foo, .bar).baz{width:20px;}"
  {
  }

  /** "should support nested CSS with multiple parents": the selector list
      is wrapped in `:is()`, and the nested `&.baz` is joined to the
      wrapped list. */
  lemma {:induction false} MultipleParentsConverts()
    ensures ConvertSpec(MultipleParentsInput) == Ok(":is(.foo, .bar){width:10px;}" + ":is(.foo, .bar).baz{width:20px;}")
  {
    MultipleParentsParses();
    ListIsWrapped();
    MultipleParentsChild();
    MultipleParentsRules();
    BuildStyleBlock(".foo, .bar", "width:10px;", [Block("&.baz", "width:20px;", [])], "");
    BuildStyleBlock("&.baz", "width:20px;", [], ":is(.foo, .bar)");
    BuildNothing(":is(.foo, .bar).baz");
  }

  /** The input of "should support deeply nested CSS"
      (test/specs/nested-css.js:55-70); its two empty lines are bare line
      breaks. */
  const DeepNestingInput: string :=
    Indent(12) + ".foo {" +
    Indent(16) + "width: 10px;" +
    Indent(8) +
    Indent(16) + ".bar {" +
    Indent(20) + "width: 20px;" +
    Indent(0) +
    Indent(20) + ".baz {" +
    Indent(24) + "width: 30px;" +
    Indent(0) +
    Indent(24) + ".qux {" +
    Indent(28) + "width: 40px;" +
    Indent(24) + "}" +
    Indent(20) + "}" +
    Indent(16) + "}" +
    Indent(12) + "}" +
    Indent(8)

  lemma {:induction false} DeepNestingOpenings()
    ensures OpensAs(".foo {", ".foo", "", ".foo") && OpensAs(".bar {", ".bar", "", ".bar")
    ensures OpensAs(".baz {", ".baz", "", ".baz") && OpensAs(".qux {", ".qux", "", ".qux")
  {
    WordOpening(".foo {", ".foo");
    WordOpening(".bar {", ".bar");
    WordOpening(".baz {", ".baz");
    WordOpening(".qux {", ".qux");
  }

  lemma {:induction false} DeepNestingDeclarations()
    ensures Declares("width: 10px;", "width:", "10px", "width:10px;")
    ensures Declares("width: 20px;", "width:", "20px", "width:20px;")
    ensures Declares("width: 30px;", "width:", "30px", "width:30px;")
    ensures Declares("width: 40px;", "width:", "40px", "width:40px;")
  {
    PlainDeclaration("width: 10px;", "width:", "10px", "width:10px;");
    PlainDeclaration("width: 20px;", "width:", "20px", "width:20px;");
    PlainDeclaration("width: 30px;", "width:", "30px", "width:30px;");
    PlainDeclaration("width: 40px;", "width:", "40px", "width:40px;");
  }

  lemma {:induction false} DeepNestingParses()
    ensures ParseSpec(Trim(DeepNestingInput)) ==
      Ok([Block(".foo", "width:10px;", [Block(".bar", "width:20px;",
           [Block(".baz", "width:30px;", [Block(".qux", "width:40px;", [])])])])])
  {
    DeepNestingOpenings();
    DeepNestingDeclarations();
    BlankIndent(0);
    BlankIndent(8);
    BlankIndent(12);
    BlankIndent(16);
    BlankIndent(20);
    BlankIndent(24);
    BlankIndent(28);
    FourLevels(Indent(12),
               ".foo {", ".foo", "", ".foo", Indent(16), "width: 10px;", "width:", "10px", "width:10px;",
               Indent(8), Indent(16),
               ".bar {", ".bar", "", ".bar", Indent(20), "width: 20px;", "width:", "20px", "width:20px;",
               Indent(0), Indent(20),
               ".baz {", ".baz", "", ".baz", Indent(24), "width: 30px;", "width:", "30px", "width:30px;",
               Indent(0), Indent(24),
               ".qux {", ".qux", "", ".qux", Indent(28), "width: 40px;", "width:", "40px", "width:40px;",
               Indent(24), Indent(20), Indent(16), Indent(12), Indent(8));
  }

  lemma {:induction false} DeepNestingSelectors()
    ensures Compose("", ".foo", false) == ".foo"
    ensures Compose(".foo", ".bar", false) == ".foo .bar"
    ensures Compose(".foo .bar", ".baz", false) == ".foo .bar .baz"
    ensures Compose(".foo .bar .baz", ".qux", false) == ".foo .bar .baz .qux"
  {
    ComposeTop(".foo");
    DeepNestingLevel2();
    DeepNestingLevel3();
    DeepNestingLevel4();
  }

  lemma {:induction false} DeepNestingLevel2()
    ensures Compose(".foo", ".bar", false) == ".foo .bar"
  {
    ComposeSpaced(".foo", ".bar", ".foo .bar");
  }

  lemma {:induction false} DeepNestingLevel3()
    ensures Compose(".foo .bar", ".baz", false) == ".foo .bar .baz"
  {
    ComposeSpaced(".foo .bar", ".baz", ".foo .bar .baz");
  }

  lemma {:induction false} DeepNestingLevel4()
    ensures Compose(".foo .bar .baz", ".qux", false) == ".foo .bar .baz .qux"
  {
    ComposeSpaced(".foo .bar .baz", ".qux", ".foo .bar .baz .qux");
  }

  lemma {:induction false} DeepNestingRules()
    ensures ".foo" + "{" + "width:10px;" + "}" == ".foo{width:10px;}"
    ensures ".foo .bar" + "{" + "width:20px;" + "}" == ".foo .bar{width:20px;}"
    ensures ".foo .bar .baz" + "{" + "width:30px;" + "}" == ".foo .bar .baz{width:30px;}"
    ensures ".foo .bar .baz .qux" + "{" + "width:40px;" + "}" + "" == ".foo .bar .baz .qux{width:40px;}"
  {
  }

  /** "should support deeply nested CSS": each level is joined to the full
      selector of the level above it. */
  lemma {:induction false} DeepNestingConverts()
    ensures ConvertSpec(DeepNestingInput) ==
      Ok(".foo{width:10px;}" + (".foo .bar{width:20px;}" + (".foo .bar .baz{width:30px;}" + ".foo .bar .baz .qux{width:40px;}")))
  {
    var qux := Block(".qux", "width:40px;", []);
    var baz := Block(".baz", "width:30px;", [qux]);
    var bar := Block(".bar", "width:20px;", [baz]);
    DeepNestingParses();
    DeepNestingSelectors();
    BuildStyleBlock(".foo", "width:10px;", [bar], "");
    BuildStyleBlock(".bar", "width:20px;", [baz], ".foo");
    BuildStyleBlock(".baz", "width:30px;", [qux], ".foo .bar");
    BuildStyleBlock(".qux", "width:40px;", [], ".foo .bar .baz");
    BuildNothing(".foo .bar .baz .qux");
    DeepNestingRules();
  }
}
