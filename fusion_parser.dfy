/** `q` (parse), `C` (build) and `O` (convert) of the v1.0.0 build
    dist/cjs/fusion.js. `q` normalises the text, then runs the global regex
    `([^{};]*)([;{}])` over it with `exec` and hands every match to a
    callback that keeps the stack of open blocks; `C` is the builder of
    `CssParser` in its `Dist` dialect. */
module FusionParser {
  import opened Text
  import Css = CssParser
  import FusionNormalise

  /** The class `[;{}]` that ends a match. */
  predicate IsStop(c: char)
  {
    c == ';' || c == '{' || c == '}'
  }

  predicate NoStop(s: string)
  {
    forall k :: 0 <= k < |s| ==> !IsStop(s[k])
  }

  /** One match: group 1, the text before the delimiter, and group 2, the
      delimiter. */
  datatype Token = Token(text: string, stop: char)

  /** The first index at or after `i` holding one of `; { }`, or `|s|`. */
  function NextStop(s: string, i: nat): (k: nat)
    requires i <= |s|
    ensures i <= k <= |s|
    decreases |s| - i
  {
    if i == |s| || IsStop(s[i]) then i else NextStop(s, i + 1)
  }

  /** The matches `exec` returns with `lastIndex` starting at `i`. Group 1
      is greedy and cannot hold a delimiter, so each match starts where the
      previous one ended; text after the last delimiter matches nothing. */
  function Tokens(s: string, i: nat): seq<Token>
    requires i <= |s|
    decreases |s| - i
  {
    var k := NextStop(s, i);
    if k == |s| then [] else [Token(s[i..k], s[k])] + Tokens(s, k + 1)
  }

  /** The callback on one match. `{` pushes a block whose selector is the
      text; `}` appends the text to the open block's rules and attaches
      that block to its parent, which does not exist at depth 0 (`t[-1]`
      is undefined and reading `.children` of it throws); `;` appends the
      text and the `;`. */
  function Apply(ast: seq<Css.Block>, t: Token): (r: Result<seq<Css.Block>, Css.ParseError>)
    requires |ast| >= 1
    ensures r.Ok? ==> |r.value| >= 1
  {
    if t.stop == '{' then Ok(ast + [Css.Block(t.text, "", [])])
    else if t.stop == '}' then
      if |ast| == 1 then Err(Css.StrayClose) else Ok(Css.CloseBlock(Css.AddRule(ast, t.text)))
    else if t.stop == ';' then Ok(Css.AddRule(ast, t.text + [t.stop]))
    else Ok(ast)
  }

  /** The callback applied to the matches in order; the first throw ends
      the parse. */
  function Run(ast: seq<Css.Block>, toks: seq<Token>): (r: Result<seq<Css.Block>, Css.ParseError>)
    requires |ast| >= 1
    ensures r.Ok? ==> |r.value| >= 1
    decreases |toks|
  {
    if toks == [] then Ok(ast)
    else match Apply(ast, toks[0])
      case Err(e) => Err(e)
      case Ok(next) => Run(next, toks[1..])
  }

  lemma {:induction false} RunCons(ast: seq<Css.Block>, t: Token, rest: seq<Token>)
    requires |ast| >= 1
    ensures Apply(ast, t).Err? ==> Run(ast, [t] + rest) == Err(Apply(ast, t).error)
    ensures Apply(ast, t).Ok? ==> Run(ast, [t] + rest) == Run(Apply(ast, t).value, rest)
  {
    assert ([t] + rest)[0] == t && ([t] + rest)[1..] == rest;
  }

  /** Running the callback over the matches from `i` on: none is left when
      no delimiter follows, otherwise the first match is handled first. */
  lemma {:induction false} RunNext(ast: seq<Css.Block>, s: string, i: nat)
    requires |ast| >= 1 && i <= |s|
    ensures NextStop(s, i) == |s| ==> Run(ast, Tokens(s, i)) == Ok(ast)
    ensures NextStop(s, i) < |s| ==>
      var t := Token(s[i..NextStop(s, i)], s[NextStop(s, i)]);
      (Apply(ast, t).Err? ==> Run(ast, Tokens(s, i)) == Err(Apply(ast, t).error)) &&
      (Apply(ast, t).Ok? ==> Run(ast, Tokens(s, i)) == Run(Apply(ast, t).value, Tokens(s, NextStop(s, i) + 1)))
  {
    var k := NextStop(s, i);
    if k < |s| {
      RunCons(ast, Token(s[i..k], s[k]), Tokens(s, k + 1));
    }
  }

  /** What `q(css)` returns: the root's children, or the error it throws. */
  function ParseSpec(css: string): Result<seq<Css.Block>, Css.ParseError>
  {
    match Run([Css.Root], Tokens(FusionNormalise.Normalise(css), 0))
    case Err(e) => Err(e)
    case Ok(ast) => Ok(ast[0].children)
  }

  /** The callback `(e, n) => ...` of `q`, on the stack `t` of depth `r`
      that it shares with `q`; `thrown` when it reads `t[-1]`. */
  method Callback(t0: seq<Css.Block>, r0: nat, e: string, n: char) returns (t: seq<Css.Block>, r: nat, thrown: bool)
    requires |t0| == r0 + 1
    ensures thrown <==> Apply(t0, Token(e, n)).Err?
    ensures !thrown ==> Apply(t0, Token(e, n)) == Ok(t) && |t| == r + 1
  {
    t, r, thrown := t0, r0, false;
    if n == '{' {
      r := r + 1;
      t := t + [Css.Block(e, "", [])];
    } else if n == '}' {
      t := t[r := t[r].(rules := t[r].rules + e)];
      assert t == Css.AddRule(t0, e);
      if r == 0 {
        thrown := true;
        return;
      }
      r := r - 1;
      t := t[..r] + [t[r].(children := t[r].children + [t[r + 1]])];
    } else if n == ';' {
      Assoc(t[r].rules, e, [n]);
      t := t[r := t[r].(rules := t[r].rules + e + [n])];
    }
  }

  /** `q`: the `exec` loop, with `t` the stack of open blocks, `r` its
      depth and `last` the regex's `lastIndex`. */
  method Parse(css: string) returns (result: Result<seq<Css.Block>, Css.ParseError>)
    ensures result == ParseSpec(css)
  {
    var text := FusionNormalise.Normalise(css);
    var t: seq<Css.Block> := [Css.Root];
    var r := 0;
    var last := 0;
    while true
      invariant last <= |text|
      invariant |t| == r + 1
      invariant Run(t, Tokens(text, last)) == Run([Css.Root], Tokens(text, 0))
      decreases |text| - last
    {
      var k := NextStop(text, last);
      if k == |text| {
        RunNext(t, text, last);
        break;
      }
      var e, n := text[last..k], text[k];
      RunNext(t, text, last);
      var thrown;
      t, r, thrown := Callback(t, r, e, n);
      if thrown {
        return Err(Css.StrayClose);
      }
      last := k + 1;
    }
    result := Ok(t[0].children);
  }

  /** What `O(css)` returns: `C` over what `q` returns. */
  function ConvertSpec(css: string): Result<string, Css.ParseError>
  {
    match ParseSpec(css)
    case Err(e) => Err(e)
    case Ok(blocks) => Ok(Css.Build(blocks, "", Css.Dist))
  }

  /** `O`. */
  method Convert(css: string) returns (result: Result<string, Css.ParseError>)
    ensures result == ConvertSpec(css)
  {
    var parsed := Parse(css);
    match parsed {
      case Err(e) => result := Err(e);
      case Ok(blocks) => result := Ok(Css.Build(blocks, "", Css.Dist));
    }
  }
}
