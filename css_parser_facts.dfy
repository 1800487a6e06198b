/** Properties of the scanner `parse` of src/css-parser.js: how declarations
    are stored or dropped, how quotes protect `;`, `{` and `}`, what a
    newline does inside an open quote, when parsing fails, and which blocks
    reach the result. */
module CssParserFacts {
  import opened Text
  import opened CssParser

  /** A character that the scanner in `PROP` mode appends to `buffer`. */
  predicate NameChar(c: char)
  {
    c != ' ' && c != '\n' && c != ';' && c != '{' && c != '}'
  }

  /** A character that the scanner in `VALUE` mode, outside quotes, appends
      to `buffer` without opening a quote or ending the declaration. */
  predicate ValueChar(c: char)
  {
    c != '\n' && c != ';' && c != '{' && c != '}' && c != '\'' && c != '"'
  }

  /** The scanner between declarations: nothing pending, no quote open. */
  predicate Idle(st: Scan)
  {
    st.mode == Prop && st.buffer == "" && st.current == "" && st.quote == ""
  }

  /** In `PROP` mode, name characters accumulate in `buffer`. */
  lemma {:induction false} FeedName(st: Scan, escaped: bool, name: string)
    requires Valid(st) && st.mode == Prop
    requires forall k :: 0 <= k < |name| ==> NameChar(name[k])
    ensures Feed(st, escaped, name) == Ok(st.(buffer := st.buffer + name))
    decreases |name|
  {
    if name == [] {
      assert st.buffer + name == st.buffer;
    } else {
      var next := st.(buffer := st.buffer + [name[0]]);
      assert Step(st, name[0], escaped) == Ok(next);
      FeedName(next, name[0] == '\\', name[1..]);
      assert next.buffer + name[1..] == st.buffer + name;
    }
  }

  /** In `VALUE` mode with no quote open, value characters accumulate in
      `buffer`. */
  lemma {:induction false} FeedValue(st: Scan, escaped: bool, value: string)
    requires Valid(st) && st.mode == Value && st.quote == ""
    requires forall k :: 0 <= k < |value| ==> ValueChar(value[k])
    ensures Feed(st, escaped, value) == Ok(st.(buffer := st.buffer + value))
    decreases |value|
  {
    if value == [] {
      assert st.buffer + value == st.buffer;
    } else {
      var next := st.(buffer := st.buffer + [value[0]]);
      assert Step(st, value[0], escaped) == Ok(next);
      FeedValue(next, value[0] == '\\', value[1..]);
      assert next.buffer + value[1..] == st.buffer + value;
    }
  }

  /** A name followed by a space switches to `VALUE` mode with the name in
      `current`. */
  lemma {:induction false} NameThenSpace(st: Scan, escaped: bool, name: string)
    requires Valid(st) && Idle(st)
    requires name != [] && forall k :: 0 <= k < |name| ==> NameChar(name[k]) && !IsSpace(name[k])
    ensures Feed(st, escaped, name + " ") == Ok(Scan(Value, "", name, "", st.ast))
  {
    var mid := Scan(Prop, name, "", "", st.ast);
    FeedName(st, escaped, name);
    assert st.buffer + name == name;
    assert Feed(st, escaped, name) == Ok(mid);
    TrimOfTrimmed(name);
    SpaceEndsName(name, st.ast, EscapedAfter(name, escaped));
    FeedOne(mid, EscapedAfter(name, escaped), ' ');
    FeedAppend(st, escaped, name, " ");
  }

  lemma {:induction false} FeedOne(st: Scan, escaped: bool, c: char)
    requires Valid(st)
    ensures Feed(st, escaped, [c]) == Step(st, c, escaped)
  {
    assert [c][1..] == [];
  }

  lemma {:induction false} SpaceEndsName(name: string, ast: seq<Block>, escaped: bool)
    requires |ast| >= 1 && name != [] && Trim(name) == name
    ensures Step(Scan(Prop, name, "", "", ast), ' ', escaped) == Ok(Scan(Value, "", name, "", ast))
  {
  }

  /** A value followed by `;` stores the declaration. */
  lemma {:induction false} ValueThenSemicolon(name: string, ast: seq<Block>, value: string)
    requires |ast| >= 1 && name != []
    requires forall k :: 0 <= k < |value| ==> ValueChar(value[k])
    ensures Feed(Scan(Value, "", name, "", ast), false, value + ";") ==
      Ok(Scan(Prop, "", "", "", AddRule(ast, name + Trim(value) + ";")))
  {
    ValueRead(name, ast, value);
    SemicolonStores(name, ast, value, EscapedAfter(value, false));
    FeedThenStep(Scan(Value, "", name, "", ast), false, value, Scan(Value, value, name, "", ast), ';',
      Scan(Prop, "", "", "", AddRule(ast, name + Trim(value) + ";")));
  }

  /** The value's characters fill the empty buffer. */
  lemma {:induction false} ValueRead(name: string, ast: seq<Block>, value: string)
    requires |ast| >= 1
    requires forall k :: 0 <= k < |value| ==> ValueChar(value[k])
    ensures Feed(Scan(Value, "", name, "", ast), false, value) == Ok(Scan(Value, value, name, "", ast))
  {
    var valued := Scan(Value, "", name, "", ast);
    FeedValue(valued, false, value);
    assert valued.buffer + value == value;
  }

  /** Reading `s` and then one more character `c`. */
  lemma {:induction false} FeedThenStep(st: Scan, escaped: bool, s: string, mid: Scan, c: char, fin: Scan)
    requires Valid(st) && Feed(st, escaped, s) == Ok(mid)
    requires Valid(mid) && Step(mid, c, EscapedAfter(s, escaped)) == Ok(fin)
    ensures Feed(st, escaped, s + [c]) == Ok(fin)
  {
    FeedOne(mid, EscapedAfter(s, escaped), c);
    FeedAppend(st, escaped, s, [c]);
  }

  /** The `;` that ends a value stores the declaration. */
  lemma {:induction false} SemicolonStores(name: string, ast: seq<Block>, value: string, escaped: bool)
    requires |ast| >= 1 && name != []
    ensures Step(Scan(Value, value, name, "", ast), ';', escaped) ==
      Ok(Scan(Prop, "", "", "", AddRule(ast, name + Trim(value) + ";")))
  {
    assert name + Trim(value) + "" + ";" == name + Trim(value) + ";";
  }

  /** `name value;` appends `name + trim(value) + ';'` to the rules of the
      innermost open block: the white space between name and value is
      dropped and the scanner is idle again. */
  lemma {:induction false} DeclarationStored(st: Scan, escaped: bool, name: string, value: string)
    requires Valid(st) && Idle(st)
    requires name != [] && forall k :: 0 <= k < |name| ==> NameChar(name[k]) && !IsSpace(name[k])
    requires forall k :: 0 <= k < |value| ==> ValueChar(value[k])
    ensures Feed(st, escaped, name + " " + value + ";") == Ok(st.(ast := AddRule(st.ast, name + Trim(value) + ";")))
  {
    NameThenSpace(st, escaped, name);
    ValueThenSemicolon(name, st.ast, value);
    FeedAppend(st, escaped, name + " ", value + ";");
    assert name + " " + value + ";" == (name + " ") + (value + ";");
  }

  /** Inside an open quote, characters other than that quote and `\n`
      accumulate in `buffer`, `;`, `{` and `}` included. */
  lemma {:induction false} FeedQuoted(st: Scan, escaped: bool, body: string)
    requires Valid(st) && st.mode == Value && |st.quote| == 1
    requires forall k :: 0 <= k < |body| ==> body[k] != st.quote[0] && body[k] != '\n'
    ensures Feed(st, escaped, body) == Ok(st.(buffer := st.buffer + body))
    decreases |body|
  {
    if body == [] {
      assert st.buffer + body == st.buffer;
    } else {
      var next := st.(buffer := st.buffer + [body[0]]);
      assert [body[0]] != st.quote;
      assert Step(st, body[0], escaped) == Ok(next);
      FeedQuoted(next, body[0] == '\\', body[1..]);
      assert next.buffer + body[1..] == st.buffer + body;
    }
  }

  /** In `VALUE` mode a quote character opens a quote. */
  lemma {:induction false} QuoteOpens(name: string, ast: seq<Block>, pre: string, q: char, escaped: bool)
    requires |ast| >= 1 && (q == '\'' || q == '"')
    ensures Feed(Scan(Value, pre, name, "", ast), escaped, [q]) == Ok(Scan(Value, pre + [q], name, [q], ast))
  {
    FeedOne(Scan(Value, pre, name, "", ast), escaped, q);
  }

  /** The open quote, not preceded by a backslash, closes it. */
  lemma {:induction false} QuoteCloses(name: string, ast: seq<Block>, text: string, q: char)
    requires |ast| >= 1 && (q == '\'' || q == '"')
    ensures Feed(Scan(Value, text, name, [q], ast), false, [q]) == Ok(Scan(Value, text + [q], name, "", ast))
  {
    FeedOne(Scan(Value, text, name, [q], ast), false, q);
  }

  /** The characters after the first backslash-free `q` of `q + body + q`
      are never escaped. */
  lemma {:induction false} QuotedNotEscaped(pre: string, q: char, body: string)
    requires q != '\\' && (body == [] || body[|body| - 1] != '\\')
    ensures !EscapedAfter(pre + [q], false)
    ensures !EscapedAfter(pre + [q] + body, false)
    ensures !EscapedAfter(pre + [q] + body + [q], false)
  {
    if body != [] {
      assert (pre + [q] + body)[|pre + [q] + body| - 1] == body[|body| - 1];
    }
  }

  /** A value `pre q body q post` fills the empty buffer: `pre` and `post`
      outside quotes, `body` inside the quote `q`. */
  lemma {:induction false} QuotedValueRead(name: string, ast: seq<Block>, pre: string, q: char, body: string, post: string)
    requires |ast| >= 1 && (q == '\'' || q == '"')
    requires forall k :: 0 <= k < |pre| ==> ValueChar(pre[k])
    requires forall k :: 0 <= k < |body| ==> body[k] != q && body[k] != '\n'
    requires body == [] || body[|body| - 1] != '\\'
    requires forall k :: 0 <= k < |post| ==> ValueChar(post[k])
    ensures Feed(Scan(Value, "", name, "", ast), false, pre + [q] + body + [q] + post) ==
      Ok(Scan(Value, pre + [q] + body + [q] + post, name, "", ast))
  {
    var a1, a2, a3 := pre + [q], pre + [q] + body, pre + [q] + body + [q];
    var s0 := Scan(Value, "", name, "", ast);
    var s1 := Scan(Value, pre, name, "", ast);
    var s2 := Scan(Value, a1, name, [q], ast);
    var s3 := Scan(Value, a2, name, [q], ast);
    var s4 := Scan(Value, a3, name, "", ast);
    var s5 := Scan(Value, a3 + post, name, "", ast);
    QuotedNotEscaped(pre, q, body);
    ValueRead(name, ast, pre);
    QuoteOpens(name, ast, pre, q, EscapedAfter(pre, false));
    Chain(s0, false, pre, [q], s1, s2);
    FeedQuoted(s2, false, body);
    Chain(s0, false, a1, body, s2, s3);
    QuoteCloses(name, ast, a2, q);
    Chain(s0, false, a2, [q], s3, s4);
    FeedValue(s4, false, post);
    Chain(s0, false, a3, post, s4, s5);
  }

  /** `name value;` where the value holds a quoted string: the quote
      protects `;`, `{` and `}` inside it, and the whole declaration is
      stored with its quotes as `name + trim(value) + ';'`. */
  lemma {:induction false} QuotedDeclarationStored(st: Scan, escaped: bool, name: string,
      pre: string, q: char, body: string, post: string)
    requires Valid(st) && Idle(st)
    requires name != [] && forall k :: 0 <= k < |name| ==> NameChar(name[k]) && !IsSpace(name[k])
    requires q == '\'' || q == '"'
    requires forall k :: 0 <= k < |pre| ==> ValueChar(pre[k])
    requires forall k :: 0 <= k < |body| ==> body[k] != q && body[k] != '\n'
    requires body == [] || body[|body| - 1] != '\\'
    requires forall k :: 0 <= k < |post| ==> ValueChar(post[k])
    ensures var value := pre + [q] + body + [q] + post;
      Feed(st, escaped, name + " " + value + ";") == Ok(st.(ast := AddRule(st.ast, name + Trim(value) + ";")))
  {
    var value := pre + [q] + body + [q] + post;
    var s0 := Scan(Value, "", name, "", st.ast);
    NameThenSpace(st, escaped, name);
    QuotedValueRead(name, st.ast, pre, q, body, post);
    SemicolonStores(name, st.ast, value, EscapedAfter(value, false));
    FeedThenStep(s0, false, value, Scan(Value, value, name, "", st.ast), ';',
      Scan(Prop, "", "", "", AddRule(st.ast, name + Trim(value) + ";")));
    Chain(st, escaped, name + " ", value + ";", s0, st.(ast := AddRule(st.ast, name + Trim(value) + ";")));
    assert name + " " + value + ";" == (name + " ") + (value + ";");
  }

  /** A newline ends a value as `;` does: it stores the declaration. */
  lemma {:induction false} NewlineStores(name: string, ast: seq<Block>, value: string, escaped: bool)
    requires |ast| >= 1 && name != []
    ensures Step(Scan(Value, value, name, "", ast), '\n', escaped) ==
      Ok(Scan(Prop, "", "", "", AddRule(ast, name + Trim(value) + ";")))
  {
    assert name + Trim(value) + "" + ";" == name + Trim(value) + ";";
  }

  /** `name value` and a line break, with no `;`, stores the declaration
      just as `name value;` does and leaves the scanner idle. */
  lemma {:induction false} DeclarationEndsAtNewline(st: Scan, escaped: bool, name: string, value: string)
    requires Valid(st) && Idle(st)
    requires name != [] && forall k :: 0 <= k < |name| ==> NameChar(name[k]) && !IsSpace(name[k])
    requires forall k :: 0 <= k < |value| ==> ValueChar(value[k])
    ensures Feed(st, escaped, name + " " + value + "\n") == Ok(st.(ast := AddRule(st.ast, name + Trim(value) + ";")))
  {
    var s0 := Scan(Value, "", name, "", st.ast);
    var fin := Scan(Prop, "", "", "", AddRule(st.ast, name + Trim(value) + ";"));
    NameThenSpace(st, escaped, name);
    ValueRead(name, st.ast, value);
    NewlineStores(name, st.ast, value, EscapedAfter(value, false));
    FeedThenStep(s0, false, value, Scan(Value, value, name, "", st.ast), '\n', fin);
    Chain(st, escaped, name + " ", value + "\n", s0, fin);
    assert name + " " + value + "\n" == (name + " ") + (value + "\n");
  }

  /** Reading `a` and then `b`. */
  lemma {:induction false} Chain(st: Scan, escaped: bool, a: string, b: string, mid: Scan, fin: Scan)
    requires Valid(st) && Feed(st, escaped, a) == Ok(mid)
    requires Valid(mid) && Feed(mid, EscapedAfter(a, escaped), b) == Ok(fin)
    ensures Feed(st, escaped, a + b) == Ok(fin)
  {
    FeedAppend(st, escaped, a, b);
  }

  /** Spaces and newlines between declarations change nothing. */
  lemma {:induction false} BlankIgnored(st: Scan, escaped: bool, w: string)
    requires Valid(st) && Idle(st)
    requires forall k :: 0 <= k < |w| ==> w[k] == ' ' || w[k] == '\n'
    ensures Feed(st, escaped, w) == Ok(st)
    decreases |w|
  {
    if w != [] {
      assert Trim("") == "";
      assert Step(st, w[0], escaped) == Ok(st);
      BlankIgnored(st, w[0] == '\\', w[1..]);
    }
  }

  /** `head tail{` opens a block whose selector is the trimmed text before
      the brace, and leaves the scanner idle. */
  lemma {:induction false} OpenBlock(st: Scan, escaped: bool, head: string, tail: string)
    requires Valid(st) && Idle(st)
    requires head != [] && forall k :: 0 <= k < |head| ==> NameChar(head[k]) && !IsSpace(head[k])
    requires forall k :: 0 <= k < |tail| ==> ValueChar(tail[k])
    ensures Feed(st, escaped, head + " " + tail + "{") ==
      Ok(st.(ast := st.ast + [Block(Trim(head + " " + tail), "", [])]))
  {
    NameThenSpace(st, escaped, head);
    var valued := Scan(Value, "", head, "", st.ast);
    FeedValue(valued, false, tail);
    assert valued.buffer + tail == tail;
    var filled := valued.(buffer := tail);
    var pushed := st.(ast := st.ast + [Block(Trim(head + " " + tail), "", [])]);
    assert Step(filled, '{', EscapedAfter(tail, false)) == Ok(pushed);
    FeedOne(filled, EscapedAfter(tail, false), '{');
    Chain(valued, false, tail, "{", filled, pushed);
    Chain(st, escaped, head + " ", tail + "{", valued, pushed);
    assert head + " " + tail + "{" == (head + " ") + (tail + "{");
  }

  /** `}` with no declaration pending closes the innermost block. */
  lemma {:induction false} CloseOne(st: Scan, escaped: bool)
    requires Valid(st) && Idle(st) && |st.ast| >= 2
    ensures Feed(st, escaped, "}") == Ok(st.(ast := CloseBlock(st.ast)))
  {
    FeedOne(st, escaped, '}');
  }

  /** A declaration written without white space after its name (such as
      `width:12px;`) never sets `current`, so `;` discards it. */
  lemma {:induction false} NoSpaceDeclarationDropped(st: Scan, escaped: bool, text: string)
    requires Valid(st) && Idle(st)
    requires forall k :: 0 <= k < |text| ==> NameChar(text[k])
    ensures Feed(st, escaped, text + ";") == Ok(st)
  {
    FeedName(st, escaped, text);
    FeedAppend(st, escaped, text, ";");
  }

  /** Inside an open quote `;`, `{` and `}` are value text. */
  lemma {:induction false} QuotedDelimiterIsText(st: Scan, c: char, escaped: bool)
    requires Valid(st) && st.mode == Value && (st.quote == "'" || st.quote == "\"")
    requires c == ';' || c == '{' || c == '}'
    ensures Step(st, c, escaped) == Ok(st.(buffer := st.buffer + [c]))
  {
  }

  /** The open quote character closes the quote unless a backslash comes
      right before it; either way it is value text. */
  lemma {:induction false} QuoteClosesUnlessEscaped(st: Scan, escaped: bool)
    requires Valid(st) && st.mode == Value && (st.quote == "'" || st.quote == "\"")
    ensures Step(st, st.quote[0], escaped) ==
      Ok(st.(quote := if escaped then st.quote else "", buffer := st.buffer + st.quote))
  {
    assert [st.quote[0]] == st.quote;
  }

  /** A newline ends a pending declaration even inside an open quote: the
      quote character is appended before the `;` and the quote is reset. */
  lemma {:induction false} NewlineClosesQuote(st: Scan, escaped: bool)
    requires Valid(st) && st.current != "" && (st.quote == "'" || st.quote == "\"")
    ensures Step(st, '\n', escaped) ==
      Ok(Scan(Prop, "", "", "", AddRule(st.ast, st.current + Trim(st.buffer) + st.quote + ";")))
    ensures Step(st, '\n', escaped).value.quote == ""
  {
  }

  /** What the scanner keeps true from its start: a quote is open only in
      `VALUE` mode and is one quote character, and no newline has reached
      `buffer`, `current` or any selector on the stack. */
  predicate Sane(st: Scan)
  {
    && (st.quote == "" || (st.mode == Value && (st.quote == "'" || st.quote == "\"")))
    && '\n' !in st.buffer && '\n' !in st.current
    && forall k :: 0 <= k < |st.ast| ==> NoNewlineSelectors(st.ast[k])
  }

  /** No selector in the tree under `b` contains a newline. */
  predicate NoNewlineSelectors(b: Block)
    decreases b
  {
    '\n' !in b.selector && forall c :: c in b.children ==> NoNewlineSelectors(c)
  }

  /** Only `rules` changes when a declaration is stored. */
  lemma {:induction false} AddRuleKeepsSelectors(ast: seq<Block>, text: string)
    requires |ast| >= 1
    requires forall k :: 0 <= k < |ast| ==> NoNewlineSelectors(ast[k])
    ensures forall k :: 0 <= k < |AddRule(ast, text)| ==> NoNewlineSelectors(AddRule(ast, text)[k])
  {
    var r := AddRule(ast, text);
    forall k | 0 <= k < |r| ensures NoNewlineSelectors(r[k]) {
      assert r[k].selector == ast[k].selector && r[k].children == ast[k].children;
    }
  }

  lemma {:induction false} CloseBlockKeepsSelectors(ast: seq<Block>)
    requires |ast| >= 2
    requires forall k :: 0 <= k < |ast| ==> NoNewlineSelectors(ast[k])
    ensures forall k :: 0 <= k < |CloseBlock(ast)| ==> NoNewlineSelectors(CloseBlock(ast)[k])
  {
    var d := |ast| - 1;
    var p := ast[d - 1].(children := ast[d - 1].children + [ast[d]]);
    assert NoNewlineSelectors(p);
    assert CloseBlock(ast) == ast[..d - 1] + [p];
  }

  lemma {:induction false} StepKeepsSane(st: Scan, c: char, escaped: bool)
    requires Valid(st) && Sane(st)
    ensures Step(st, c, escaped).Ok? ==> Sane(Step(st, c, escaped).value)
  {
    if c == '\n' || ((c == ';' || c == '}') && st.quote == "") {
      if st.current != "" {
        AddRuleKeepsSelectors(st.ast, st.current + Trim(st.buffer) + st.quote + ";");
      }
      var ast := if st.current != "" then AddRule(st.ast, st.current + Trim(st.buffer) + st.quote + ";") else st.ast;
      if c == '}' && |ast| >= 2 {
        CloseBlockKeepsSelectors(ast);
      }
    } else if c == '{' && st.quote == "" {
      assert '\n' !in st.current + " " + st.buffer;
      TrimIsSlice(st.current + " " + st.buffer);
    } else if st.mode == Prop && c == ' ' {
      TrimIsSlice(st.buffer);
    }
  }

  lemma {:induction false} FeedKeepsSane(st: Scan, escaped: bool, s: string)
    requires Valid(st) && Sane(st)
    ensures Feed(st, escaped, s).Ok? ==> Sane(Feed(st, escaped, s).value)
    decreases |s|
  {
    if s != [] {
      StepKeepsSane(st, s[0], escaped);
      match Step(st, s[0], escaped)
      case Err(_) =>
      case Ok(next) => FeedKeepsSane(next, s[0] == '\\', s[1..]);
    }
  }

  /** Every selector `parse` returns is free of newlines, so the selector
      regex, whose `.` stops only at line terminators, sees each one whole
      unless it contains a carriage return or U+2028/U+2029. */
  lemma {:induction false} ParsedSelectorsHaveNoNewline(css: string)
    ensures ParseSpec(css).Ok? ==> forall b :: b in ParseSpec(css).value ==> NoNewlineSelectors(b)
  {
    FeedKeepsSane(Start, false, css);
  }

  /** Only `}` can attach a block to the root. */
  lemma {:induction false} FeedWithoutClose(st: Scan, escaped: bool, s: string)
    requires Valid(st)
    requires '}' !in s
    ensures Feed(st, escaped, s).Ok?
    ensures Feed(st, escaped, s).value.ast[0].children == st.ast[0].children
    decreases |s|
  {
    if s != [] {
      var next := Step(st, s[0], escaped).value;
      assert next.ast[0].children == st.ast[0].children;
      FeedWithoutClose(next, s[0] == '\\', s[1..]);
    }
  }

  /** Input without any `}` parses to no blocks at all: a block that is
      never closed is dropped, not reported. */
  lemma {:induction false} UnclosedBlocksDropped(css: string)
    requires '}' !in css
    ensures ParseSpec(css) == Ok([])
  {
    FeedWithoutClose(Start, false, css);
  }

  /** A `}` read while no block is open and no quote is open. Both are read
      off the scanner's own state after `css[..i]`: whether a quote is open
      depends on the mode and on backslashes, so there is no simpler count
      of braces and quotes to state it by. `FailsByPrefix` therefore locates
      the failing character; it does not relate it to a separate depth
      count. */
  predicate StrayAt(css: string, i: nat)
  {
    i < |css| && css[i] == '}'
    && Feed(Start, false, css[..i]).Ok?
    && |Feed(Start, false, css[..i]).value.ast| == 1
    && Feed(Start, false, css[..i]).value.quote == ""
  }

  lemma {:induction false} FailsByPrefix(css: string, n: nat)
    requires n <= |css|
    ensures Feed(Start, false, css[..n]).Err? <==> exists i :: 0 <= i < n && StrayAt(css, i)
  {
    if n == 0 {
      assert css[..0] == [];
    } else {
      FailsByPrefix(css, n - 1);
      var prev := Feed(Start, false, css[..n - 1]);
      if prev.Err? {
        FeedNext(css, n - 1);
        var i :| 0 <= i < n - 1 && StrayAt(css, i);
        assert 0 <= i < n && StrayAt(css, i);
      } else {
        FailsAtNext(css, n);
        if Feed(Start, false, css[..n]).Err? {
          assert StrayAt(css, n - 1);
        } else {
          forall i | 0 <= i < n ensures !StrayAt(css, i) {
          }
        }
      }
    }
  }

  /** Reading one more character after a prefix that was read fails
      exactly on a stray `}`. */
  lemma {:induction false} FailsAtNext(css: string, n: nat)
    requires 0 < n <= |css| && Feed(Start, false, css[..n - 1]).Ok?
    ensures Feed(Start, false, css[..n]).Err? <==> StrayAt(css, n - 1)
  {
    FeedNext(css, n - 1);
  }

  /** `parse` throws exactly when some `}` is read at depth 0 outside a
      quote (`ast[-1]` is undefined); then no output is produced at all. */
  lemma {:induction false} ParseFailsIffStrayClose(css: string)
    ensures ParseSpec(css).Err? <==> exists i :: 0 <= i < |css| && StrayAt(css, i)
  {
    FailsByPrefix(css, |css|);
    assert css[..|css|] == css;
  }
}
