/** The nested-CSS compiler of src/css-parser.js: a quote-aware character
    scanner (`parse`) that builds a tree of blocks, a recursive builder
    (`build`) that composes effective selectors and emits flat
    `selector{rules}` text, and `convert`, the two chained. The builder is
    shared with the v1.0.0 build (dist/cjs/fusion.js, function `C`), which
    differs only in trimming the selector first and in using `[\s\S]` for
    the selector-group regex; `Dialect` selects between the two. */
module CssParser {
  import opened Text
  import opened SelectorGroup

  /** One `{...}` block: its selector, its own declarations as flat text and
      its nested blocks in source order. */
  datatype Block = Block(selector: string, rules: string, children: seq<Block>)

  /** `PROP` and `VALUE`: whether the scanner is reading a declaration's
      name or its value. */
  datatype Mode = Prop | Value

  /** The scanner's variables: `mode`, `buffer`, `current`, `quote` and the
      stack `ast` of open blocks (the root at index 0; `depth` is
      `|ast| - 1`). `quote` is `""` or the one quote character that is open. */
  datatype Scan = Scan(mode: Mode, buffer: string, current: string, quote: string, ast: seq<Block>)

  /** A `}` with no open block: `ast[--depth]` is `ast[-1]`, which is
      undefined, and reading `.children` of it throws. */
  datatype ParseError = StrayClose

  /** The implicit root. In the source its selector and rules are undefined;
      it is never emitted, so empty strings stand for them. */
  const Root := Block("", "", [])

  const Start := Scan(Prop, "", "", "", [Root])

  predicate Valid(st: Scan)
  {
    |st.ast| >= 1
  }

  /** `ast[depth].rules += text`. */
  function AddRule(ast: seq<Block>, text: string): seq<Block>
    requires |ast| >= 1
  {
    ast[|ast| - 1 := ast[|ast| - 1].(rules := ast[|ast| - 1].rules + text)]
  }

  /** `ast[--depth].children.push(ast.pop())`. */
  function CloseBlock(ast: seq<Block>): seq<Block>
    requires |ast| >= 2
  {
    var d := |ast| - 1;
    ast[..d - 1] + [ast[d - 1].(children := ast[d - 1].children + [ast[d]])]
  }

  /** One iteration of the scanning loop on character `c`; `escaped` says
      whether the character before it in the input is a backslash. */
  function Step(st: Scan, c: char, escaped: bool): (r: Result<Scan, ParseError>)
    requires Valid(st)
    ensures r.Ok? ==> Valid(r.value)
    ensures r.Err? <==> c == '}' && st.quote == "" && |st.ast| == 1
  {
    if c == '\n' || ((c == ';' || c == '}') && st.quote == "") then
      var ast := if st.current != "" then AddRule(st.ast, st.current + Trim(st.buffer) + st.quote + ";") else st.ast;
      if c == '}' then
        if |ast| < 2 then Err(StrayClose) else Ok(Scan(Prop, "", "", "", CloseBlock(ast)))
      else
        Ok(Scan(Prop, "", "", "", ast))
    else if c == '{' && st.quote == "" then
      Ok(Scan(Prop, "", "", st.quote, st.ast + [Block(Trim(st.current + " " + st.buffer), "", [])]))
    else if st.mode == Prop then
      if c == ' ' then
        var cur := Trim(st.buffer);
        Ok(if cur != "" then st.(mode := Value, buffer := "", current := cur) else st.(current := cur))
      else
        Ok(st.(buffer := st.buffer + [c]))
    else
      var q :=
        if st.quote != "" then (if [c] == st.quote && !escaped then "" else st.quote)
        else if c == '\'' || c == '"' then [c]
        else "";
      Ok(st.(quote := q, buffer := st.buffer + [c]))
  }

  /** Whether the character before the next one is a backslash, after `s`
      has been read (`escaped` if `s` is empty). */
  function EscapedAfter(s: string, escaped: bool): bool
  {
    if s == [] then escaped else s[|s| - 1] == '\\'
  }

  /** The scanner run over `s` from state `st`. */
  function Feed(st: Scan, escaped: bool, s: string): (r: Result<Scan, ParseError>)
    requires Valid(st)
    ensures r.Ok? ==> Valid(r.value)
    decreases |s|
  {
    if s == [] then Ok(st)
    else
      match Step(st, s[0], escaped)
      case Err(e) => Err(e)
      case Ok(next) => Feed(next, s[0] == '\\', s[1..])
  }

  /** `parse(css)`: the root's children once every character has been read;
      blocks still open at the end are not attached to anything. */
  function ParseSpec(css: string): Result<seq<Block>, ParseError>
  {
    match Feed(Start, false, css)
    case Err(e) => Err(e)
    case Ok(st) => Ok(st.ast[0].children)
  }

  /** Reading `a + b` is reading `a`, then `b` from where `a` left off. */
  lemma {:induction false} FeedAppend(st: Scan, escaped: bool, a: string, b: string)
    requires Valid(st)
    ensures Feed(st, escaped, a + b) ==
      match Feed(st, escaped, a)
      case Err(e) => Err(e)
      case Ok(mid) => Feed(mid, EscapedAfter(a, escaped), b)
    decreases |a|
  {
    if a == [] {
      assert a + b == b;
    } else {
      assert (a + b)[0] == a[0] && (a + b)[1..] == a[1..] + b;
      match Step(st, a[0], escaped)
      case Err(e) =>
      case Ok(next) =>
        FeedAppend(next, a[0] == '\\', a[1..], b);
        assert EscapedAfter(a[1..], a[0] == '\\') == EscapedAfter(a, escaped);
    }
  }

  /** Reading one more character of `css`. */
  lemma {:induction false} FeedNext(css: string, i: nat)
    requires i < |css|
    ensures Feed(Start, false, css[..i + 1]) ==
      match Feed(Start, false, css[..i])
      case Err(e) => Err(e)
      case Ok(st) => Step(st, css[i], i > 0 && css[i - 1] == '\\')
  {
    assert css[..i + 1] == css[..i] + [css[i]];
    FeedAppend(Start, false, css[..i], [css[i]]);
  }

  /** Once reading fails, reading further input fails the same way. */
  lemma {:induction false} FeedStaysFailed(css: string, i: nat)
    requires i <= |css|
    requires Feed(Start, false, css[..i]).Err?
    ensures Feed(Start, false, css) == Feed(Start, false, css[..i])
  {
    FeedAppend(Start, false, css[..i], css[i..]);
    assert css[..i] + css[i..] == css;
  }

  /** `parse`: the character loop of src/css-parser.js, with the stack of
      open blocks and the scanner's variables as locals. */
  method Parse(css: string) returns (r: Result<seq<Block>, ParseError>)
    ensures r == ParseSpec(css)
  {
    var ast: seq<Block> := [Root];
    var mode := Prop;
    var buffer := "";
    var depth := 0;
    var quote := "";
    var current := "";
    var i := 0;
    while i < |css|
      invariant 0 <= i <= |css|
      invariant |ast| == depth + 1
      invariant Feed(Start, false, css[..i]) == Ok(Scan(mode, buffer, current, quote, ast))
    {
      var ch := css[i];
      ghost var before := Scan(mode, buffer, current, quote, ast);
      FeedNext(css, i);
      if ch == '\n' || ((ch == ';' || ch == '}') && quote == "") {
        if current != "" {
          ast := ast[depth := ast[depth].(rules := ast[depth].rules + (current + Trim(buffer) + quote + ";"))];
        }
        if ch == '}' {
          if depth == 0 {
            FeedStaysFailed(css, i + 1);
            return Err(StrayClose);
          }
          depth := depth - 1;
          var parent := ast[depth];
          ast := ast[..depth] + [parent.(children := parent.children + [ast[depth + 1]])];
        }
        mode := Prop;
        current, buffer, quote := "", "", "";
      } else if ch == '{' && quote == "" {
        ast := ast + [Block(Trim(current + " " + buffer), "", [])];
        depth := depth + 1;
        mode := Prop;
        current, buffer := "", "";
      } else if mode == Prop {
        if ch == ' ' {
          current := Trim(buffer);
          if current != "" {
            mode := Value;
            buffer := "";
          }
        } else {
          buffer := buffer + [ch];
        }
      } else {
        if quote != "" {
          if [ch] == quote && !(i > 0 && css[i - 1] == '\\') {
            quote := "";
          }
        } else if ch == '\'' || ch == '"' {
          quote := [ch];
        }
        buffer := buffer + [ch];
      }
      assert Step(before, ch, i > 0 && css[i - 1] == '\\') == Ok(Scan(mode, buffer, current, quote, ast));
      i := i + 1;
    }
    assert css[..i] == css;
    r := Ok(ast[0].children);
  }

  // ---------------------------------------------------------------------
  // The builder

  /** `Src`: src/css-parser.js `build`; `Dist`: dist/cjs/fusion.js `C`. */
  datatype Dialect = Src | Dist

  predicate IsAtRule(selector: string)
  {
    |selector| > 0 && selector[0] == '@'
  }

  /** The effective selector of a style rule under `parent` (`""` when there
      is none: the source's `undefined` and `''` are both falsy). */
  function Compose(parent: string, selector: string, anyChar: bool): string
  {
    if parent != "" && |selector| > 0 && selector[0] == '&' then
      parent + GroupReplace(selector[1..], anyChar)
    else if parent != "" then
      parent + " " + GroupReplace(selector, anyChar)
    else
      GroupReplace(selector, anyChar)
  }

  /** The selector the builder inspects: `C` trims it, `build` does not. */
  function SelectorOf(b: Block, d: Dialect): string
  {
    if d == Dist then Trim(b.selector) else b.selector
  }

  /** `build(ast, parent)`: the `reduce` over the blocks. Its accumulator is
      only ever appended to, so it is the left-to-right concatenation of
      what each block adds. */
  function Build(bs: seq<Block>, parent: string, d: Dialect): string
    decreases bs, 1
  {
    Concat(Emits(bs, parent, d))
  }

  /** What each block adds to the accumulator, in order. */
  function Emits(bs: seq<Block>, parent: string, d: Dialect): (r: seq<string>)
    ensures |r| == |bs|
    decreases bs, 0
  {
    seq(|bs|, i requires 0 <= i < |bs| => Emit(bs[i], parent, d))
  }

  /** What one block adds to the accumulator in the reducer of `build`. */
  function Emit(b: Block, parent: string, d: Dialect): string
    decreases b
  {
    var sel := SelectorOf(b, d);
    if IsAtRule(sel) then
      sel + "{" + (if |b.children| > 0 then Build(b.children, parent, d) + "}" else "")
    else
      var eff := Compose(parent, sel, d == Dist);
      eff + "{" + b.rules + "}" + (if |b.children| > 0 then Build(b.children, eff, d) else "")
  }

  /** `convert(css)`: `build(parse(css.trim()))`. */
  function ConvertSpec(css: string): Result<string, ParseError>
  {
    match ParseSpec(Trim(css))
    case Err(e) => Err(e)
    case Ok(blocks) => Ok(Build(blocks, "", Src))
  }

  method Convert(css: string) returns (r: Result<string, ParseError>)
    ensures r == ConvertSpec(css)
  {
    var parsed := Parse(Trim(css));
    match parsed
    case Err(e) => r := Err(e);
    case Ok(blocks) => r := Ok(Build(blocks, "", Src));
  }
}
