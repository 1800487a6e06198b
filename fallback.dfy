/** `fallback(...values)` of src/fallback.js (and `exports.fallback` of
    dist/cjs/fusion.js, whose reducer differs only in recognising any
    `then`-able as a promise): the arguments folded, left to
    right, into nested `var(--a, var(--b, default))` text. The fold carries
    the text built so far and the closure counter `n`, one more than the
    number of `var(` openers written. */
module Fallback {
  import opened Text

  /** An argument of `fallback`. */
  datatype Value =
    | Str(s: string)        // a string
    | Other(shown: string)  // any other value that is not a function, store or promise, by its string conversion
    | Thunk(result: Value)  // a function, by the value its call returns
    | Reactive(id: nat)     // a store or a promise, as the version's own probe decides, by identity

  /** The generated custom-property name of a store or promise; the name is
      produced outside this model. */
  type PropName = nat -> string

  /** The value a function argument stands for once it has been called,
      and called again while the result is itself a function. */
  function Resolve(v: Value): (r: Value)
    ensures !r.Thunk?
  {
    if v.Thunk? then Resolve(v.result) else v
  }

  /** Whether a (resolved) value opens a `var(`: a store, a promise, or a
      string starting with `--`. */
  predicate Opens(v: Value)
  {
    v.Reactive? || (v.Str? && StartsWith(v.s, "--"))
  }

  /** What a (resolved) value adds to the text before its separator. */
  function Piece(v: Value, prop: PropName): string
  {
    match v
    case Reactive(id) => "var(" + prop(id)
    case Str(s) => if StartsWith(s, "--") then "var(" + s else s
    case Other(shown) => shown
    case Thunk(_) => ""
  }

  /** `Array(n).join(')')`: `n - 1` closing parentheses. */
  function Closers(n: nat): (r: string)
    ensures n >= 1 ==> r == Repeat(')', n - 1)
  {
    if n == 0 then "" else Repeat(')', n - 1)
  }

  /** The reduce accumulator together with the closure counter `n`. */
  datatype Acc = Acc(text: string, n: nat)

  /** The reducer applied to the value at index `i` of `length` values. A
      function is called and the reducer applied again to what it returns,
      at the same index. */
  function Reducer(acc: Acc, v: Value, i: nat, length: nat, prop: PropName): Acc
    decreases v
  {
    if v.Thunk? then Reducer(acc, v.result, i, length, prop)
    else
      var n := if Opens(v) then acc.n + 1 else acc.n;
      Acc(acc.text + Piece(v, prop) + (if i + 1 != length then ", " else Closers(n)), n)
  }

  /** The accumulator after the reduce has visited the first `k` values. */
  function Fold(values: seq<Value>, k: nat, prop: PropName): Acc
    requires k <= |values|
  {
    if k == 0 then Acc("", 1)
    else Reducer(Fold(values, k - 1, prop), values[k - 1], k - 1, |values|, prop)
  }

  /** `fallback(...values)`. */
  function FallbackOf(values: seq<Value>, prop: PropName): string
  {
    Fold(values, |values|, prop).text
  }

  /** How many of the first `k` values open a `var(`. */
  function Openers(values: seq<Value>, k: nat): (r: nat)
    requires k <= |values|
    ensures r <= k
  {
    if k == 0 then 0 else Openers(values, k - 1) + (if Opens(Resolve(values[k - 1])) then 1 else 0)
  }

  /** The pieces of the first `k` values, each followed by `, `. */
  function Listed(values: seq<Value>, k: nat, prop: PropName): string
    requires k <= |values|
  {
    if k == 0 then "" else Listed(values, k - 1, prop) + Piece(Resolve(values[k - 1]), prop) + ", "
  }

  /** Reducing a function is reducing the value it resolves to. */
  lemma {:induction false} ReducerResolves(acc: Acc, v: Value, i: nat, length: nat, prop: PropName)
    ensures Reducer(acc, v, i, length, prop) == Reducer(acc, Resolve(v), i, length, prop)
    decreases v
  {
    if v.Thunk? {
      ReducerResolves(acc, v.result, i, length, prop);
    }
  }

  /** Before the last value, the text is the pieces so far, each followed by
      `, `, and `n` is one more than the number of openers so far. */
  lemma {:induction false} FoldBeforeLast(values: seq<Value>, k: nat, prop: PropName)
    requires k < |values|
    ensures Fold(values, k, prop) == Acc(Listed(values, k, prop), 1 + Openers(values, k))
  {
    if k > 0 {
      FoldBeforeLast(values, k - 1, prop);
      ReducerResolves(Fold(values, k - 1, prop), values[k - 1], k - 1, |values|, prop);
    }
  }

  /** The whole result: every value's piece in order, separated by `, `,
      then one `)` for every `var(` opened, so openers and closers
      balance. No arguments give the empty string. */
  lemma {:induction false} FallbackShape(values: seq<Value>, prop: PropName)
    ensures values == [] ==> FallbackOf(values, prop) == ""
    ensures values != [] ==>
      var last := |values| - 1;
      FallbackOf(values, prop) ==
        Listed(values, last, prop) + Piece(Resolve(values[last]), prop) + Repeat(')', Openers(values, |values|))
  {
    if values != [] {
      var last := |values| - 1;
      FoldBeforeLast(values, last, prop);
      ReducerResolves(Fold(values, last, prop), values[last], last, |values|, prop);
    }
  }

  /** The nesting the output denotes, written right to left: a value that
      opens a `var(` wraps the rest of the list as its fallback. */
  function Nested(values: seq<Value>, prop: PropName): string
    requires values != []
    decreases |values|
  {
    var v := Resolve(values[0]);
    var close := if Opens(v) then ")" else "";
    if |values| == 1 then Piece(v, prop) + close
    else Piece(v, prop) + ", " + Nested(values[1..], prop) + close
  }

  /** Listing a prefix that starts with `v`: `v`'s piece, then the rest. */
  lemma {:induction false} ListedCons(values: seq<Value>, k: nat, prop: PropName)
    requires 1 <= k <= |values|
    ensures Listed(values, k, prop) == Piece(Resolve(values[0]), prop) + ", " + Listed(values[1..], k - 1, prop)
  {
    if k > 1 {
      ListedCons(values, k - 1, prop);
      assert values[1..][k - 2] == values[k - 1];
      var p := Piece(Resolve(values[0]), prop) + ", ";
      Assoc(p + Listed(values[1..], k - 2, prop), Piece(Resolve(values[k - 1]), prop), ", ");
      Assoc(p, Listed(values[1..], k - 2, prop), Piece(Resolve(values[k - 1]), prop) + ", ");
      Assoc(p, Listed(values[1..], k - 2, prop) + Piece(Resolve(values[k - 1]), prop), ", ");
      Assoc(Listed(values[1..], k - 2, prop), Piece(Resolve(values[k - 1]), prop), ", ");
    }
  }

  /** Counting the openers of a prefix that starts with `v`. */
  lemma {:induction false} OpenersCons(values: seq<Value>, k: nat)
    requires 1 <= k <= |values|
    ensures Openers(values, k) == (if Opens(Resolve(values[0])) then 1 else 0) + Openers(values[1..], k - 1)
  {
    if k > 1 {
      OpenersCons(values, k - 1);
      assert values[1..][k - 2] == values[k - 1];
    }
  }

  lemma {:induction false} RepeatSplit(c: char, a: nat, b: nat)
    ensures Repeat(c, a + b) == Repeat(c, b) + Repeat(c, a)
  {
    var l := Repeat(c, b) + Repeat(c, a);
    assert |l| == a + b;
    assert forall i :: 0 <= i < a + b ==> l[i] == c;
  }

  /** The fold builds exactly that nesting: every `var(` is closed after
      the fallbacks that follow it. */
  lemma {:induction false} FallbackIsNested(values: seq<Value>, prop: PropName)
    requires values != []
    ensures FallbackOf(values, prop) == Nested(values, prop)
    decreases |values|
  {
    if |values| == 1 {
      FallbackShape(values, prop);
      NestedSingle(values, prop);
    } else {
      FallbackIsNested(values[1..], prop);
      FallbackNestsOneMore(values, prop);
    }
  }

  /** The step of `FallbackIsNested`: nesting one more value in front. */
  lemma {:induction false} FallbackNestsOneMore(values: seq<Value>, prop: PropName)
    requires |values| >= 2
    requires FallbackOf(values[1..], prop) == Nested(values[1..], prop)
    ensures FallbackOf(values, prop) == Nested(values, prop)
  {
    FallbackShape(values, prop);
    FallbackShape(values[1..], prop);
    NestedCons(values, prop);
  }

  lemma {:induction false} NestedSingle(values: seq<Value>, prop: PropName)
    requires |values| == 1
    ensures Listed(values, 0, prop) + Piece(Resolve(values[0]), prop) + Repeat(')', Openers(values, 1))
      == Nested(values, prop)
  {
    var v := Resolve(values[0]);
    assert Openers(values, 1) == (if Opens(v) then 1 else 0);
    if Opens(v) {
      assert Repeat(')', 1) == ")";
    }
    assert "" + Piece(v, prop) == Piece(v, prop);
  }

  /** One step of the nesting: the first value's piece and separator, the
      text for the rest, then the first value's closer. */
  lemma {:induction false} NestedCons(values: seq<Value>, prop: PropName)
    requires |values| >= 2
    requires var rest := values[1..];
      Nested(rest, prop) == Listed(rest, |rest| - 1, prop) + Piece(Resolve(rest[|rest| - 1]), prop)
        + Repeat(')', Openers(rest, |rest|))
    ensures var last := |values| - 1;
      Listed(values, last, prop) + Piece(Resolve(values[last]), prop) + Repeat(')', Openers(values, |values|))
        == Nested(values, prop)
  {
    var v := Resolve(values[0]);
    var close := if Opens(v) then ")" else "";
    var last := |values| - 1;
    var rest := values[1..];
    var p := Piece(v, prop) + ", ";
    assert rest[|rest| - 1] == values[last];
    NestedUnfold(values, prop);
    ListedCons(values, last, prop);
    ClosersCons(values);
    ConsShape(p, Listed(rest, |rest| - 1, prop), Piece(Resolve(values[last]), prop),
      Repeat(')', Openers(rest, |rest|)), close,
      Listed(values, last, prop), Repeat(')', Openers(values, |values|)),
      Nested(rest, prop), Nested(values, prop));
  }

  lemma {:induction false} NestedUnfold(values: seq<Value>, prop: PropName)
    requires |values| >= 2
    ensures Nested(values, prop) ==
      Piece(Resolve(values[0]), prop) + ", " + Nested(values[1..], prop) + (if Opens(Resolve(values[0])) then ")" else "")
  {
  }

  /** The regrouping behind `NestedCons`, on plain strings. */
  lemma {:induction false} ConsShape(p: string, l: string, t: string, r: string, c: string, a: string, b: string, n: string, m: string)
    requires a == p + l && b == r + c && n == l + t + r && m == p + n + c
    ensures a + t + b == m
  {
    Regroup(p, l, t, r, c);
  }

  /** The closers of a list: those of its tail, then the first value's. */
  lemma {:induction false} ClosersCons(values: seq<Value>)
    requires |values| >= 1
    ensures Repeat(')', Openers(values, |values|)) ==
      Repeat(')', Openers(values[1..], |values| - 1)) + (if Opens(Resolve(values[0])) then ")" else "")
  {
    var close := if Opens(Resolve(values[0])) then ")" else "";
    OpenersCons(values, |values|);
    RepeatSplit(')', |close|, Openers(values[1..], |values| - 1));
    assert Repeat(')', |close|) == close;
  }

  lemma {:induction false} Regroup(p: string, l: string, t: string, r: string, c: string)
    ensures p + l + t + (r + c) == p + (l + t + r) + c
  {
    Assoc(p, l, t);
    Assoc(p + (l + t), r, c);
    Assoc(p, l + t, r);
  }

  /** Replacing an argument by a function returning it changes nothing: a
      function adds no separator and no closer of its own. */
  lemma {:induction false} ThunkIsTransparent(values: seq<Value>, i: nat, prop: PropName)
    requires i < |values|
    ensures FallbackOf(values[i := Thunk(values[i])], prop) == FallbackOf(values, prop)
  {
    var w := values[i := Thunk(values[i])];
    forall k | 0 <= k < |values|
      ensures Resolve(w[k]) == Resolve(values[k])
    {
    }
    FallbackResolves(values, w, prop);
  }

  /** Only what each argument resolves to matters. */
  lemma {:induction false} FallbackResolves(a: seq<Value>, b: seq<Value>, prop: PropName)
    requires |a| == |b|
    requires forall j :: 0 <= j < |a| ==> Resolve(a[j]) == Resolve(b[j])
    ensures FallbackOf(a, prop) == FallbackOf(b, prop)
  {
    FallbackShape(a, prop);
    FallbackShape(b, prop);
    if a != [] {
      var last := |a| - 1;
      assert Resolve(a[last]) == Resolve(b[last]);
      ResolvedAlike(a, b, last, prop);
      ResolvedAlike(a, b, |a|, prop);
    }
  }

  /** Two argument lists whose values resolve alike give the same text. */
  lemma {:induction false} ResolvedAlike(a: seq<Value>, b: seq<Value>, k: nat, prop: PropName)
    requires |a| == |b| && k <= |a|
    requires forall j :: 0 <= j < |a| ==> Resolve(a[j]) == Resolve(b[j])
    ensures Listed(a, k, prop) == Listed(b, k, prop) && Openers(a, k) == Openers(b, k)
  {
    if k > 0 {
      ResolvedAlike(a, b, k - 1, prop);
    }
  }

  /** What a resolved value contributes when it is last: its piece and,
      if it opened a `var(`, the `)` that closes it. */
  function Last(v: Value, prop: PropName): string
  {
    Piece(Resolve(v), prop) + (if Opens(Resolve(v)) then ")" else "")
  }

  /** The custom property a store, a promise or a `--` string refers to. */
  function VarName(v: Value, prop: PropName): string
  {
    match v
    case Reactive(id) => prop(id)
    case Str(s) => s
    case _ => ""
  }

  /** The text after the first value: `, ` and the fallback of the rest, or
      nothing when it is the only value. */
  function Tail(values: seq<Value>, prop: PropName): string
    requires values != []
  {
    if |values| == 1 then "" else ", " + FallbackOf(values[1..], prop)
  }

  /** A first value that is a store, a promise or a `--` string (after
      calling functions) opens `var(` with its name and takes everything
      after it as its fallback, closed by the output's last `)`. */
  lemma {:induction false} OpenerWraps(values: seq<Value>, prop: PropName)
    requires values != [] && Opens(Resolve(values[0]))
    ensures FallbackOf(values, prop) == "var(" + VarName(Resolve(values[0]), prop) + Tail(values, prop) + ")"
  {
    FallbackIsNested(values, prop);
    if |values| > 1 {
      FallbackIsNested(values[1..], prop);
      NestedUnfold(values, prop);
    }
  }

  /** Any other first value (after calling functions) is written verbatim,
      as its string or its string conversion, and opens nothing: the rest
      follows unwrapped and the output closes no parenthesis for it. */
  lemma {:induction false} PlainFront(values: seq<Value>, prop: PropName)
    requires values != [] && !Opens(Resolve(values[0]))
    ensures var v := Resolve(values[0]);
      FallbackOf(values, prop) == (if v.Str? then v.s else v.shown) + Tail(values, prop)
    ensures Openers(values, |values|) == Openers(values[1..], |values| - 1)
  {
    FallbackIsNested(values, prop);
    OpenersCons(values, |values|);
    var v := Resolve(values[0]);
    if |values| > 1 {
      FallbackIsNested(values[1..], prop);
      NestedUnfold(values, prop);
      assert FallbackOf(values, prop) == Piece(v, prop) + ", " + FallbackOf(values[1..], prop) + "";
    } else {
      assert FallbackOf(values, prop) == Piece(v, prop) + "";
    }
  }

  /** A custom property followed by further fallbacks: `var(--a, ...)`. */
  lemma {:induction false} VarAround(a: string, rest: seq<Value>, prop: PropName)
    requires StartsWith(a, "--") && rest != []
    ensures Nested([Str(a)] + rest, prop) == "var(" + a + ", " + Nested(rest, prop) + ")"
  {
    assert ([Str(a)] + rest)[1..] == rest;
  }

  lemma {:induction false} NestedLast(v: Value, prop: PropName)
    ensures Nested([v], prop) == Last(v, prop)
  {
  }

  /** A last plain string is written as it is. */
  lemma {:induction false} PlainLast(s: string, prop: PropName)
    requires s != [] && s[0] != '-'
    ensures Nested([Str(s)], prop) == s
  {
    assert s + "" == s;
  }

  /** A last custom property is written `var(--a)`. */
  lemma {:induction false} VarLast(a: string, prop: PropName)
    requires StartsWith(a, "--")
    ensures Nested([Str(a)], prop) == "var(" + a + ")"
  {
  }

  /** `fallback('--foo', '10px')` (test/specs/fallback.js:6). */
  lemma {:induction false} OneVariable(prop: PropName)
    ensures FallbackOf([Str("--foo"), Str("10px")], prop) == "var(--foo, 10px)"
  {
    FallbackIsNested([Str("--foo"), Str("10px")], prop);
    assert [Str("--foo"), Str("10px")] == [Str("--foo")] + [Str("10px")];
    VarAround("--foo", [Str("10px")], prop);
    PlainLast("10px", prop);
    OneVariableText();
  }

  lemma {:induction false} OneVariableText()
    ensures "var(" + "--foo" + ", " + "10px" + ")" == "var(--foo, 10px)"
  {
  }

  /** `fallback('--foo', '--bar')` (test/specs/fallback.js:7). */
  lemma {:induction false} TwoVariables(prop: PropName)
    ensures FallbackOf([Str("--foo"), Str("--bar")], prop) == "var(--foo, var(--bar))"
  {
    FallbackIsNested([Str("--foo"), Str("--bar")], prop);
    assert [Str("--foo"), Str("--bar")] == [Str("--foo")] + [Str("--bar")];
    VarAround("--foo", [Str("--bar")], prop);
    VarLast("--bar", prop);
    TwoVariablesText();
  }

  lemma {:induction false} TwoVariablesText()
    ensures "var(" + "--foo" + ", " + ("var(" + "--bar" + ")") + ")" == "var(--foo, var(--bar))"
  {
  }

  /** `fallback('--foo', '--bar', '--baz')` (test/specs/fallback.js:8). */
  lemma {:induction false} ThreeVariables(prop: PropName)
    ensures FallbackOf([Str("--foo"), Str("--bar"), Str("--baz")], prop) == "var(--foo, var(--bar, var(--baz)))"
  {
    FallbackIsNested([Str("--foo"), Str("--bar"), Str("--baz")], prop);
    assert [Str("--foo"), Str("--bar"), Str("--baz")] == [Str("--foo")] + [Str("--bar"), Str("--baz")];
    assert [Str("--bar"), Str("--baz")] == [Str("--bar")] + [Str("--baz")];
    VarAround("--foo", [Str("--bar"), Str("--baz")], prop);
    VarAround("--bar", [Str("--baz")], prop);
    VarLast("--baz", prop);
    ThreeVariablesText();
  }

  lemma {:induction false} ThreeVariablesText()
    ensures "var(" + "--foo" + ", " + ("var(" + "--bar" + ", " + ("var(" + "--baz" + ")") + ")") + ")"
      == "var(--foo, var(--bar, var(--baz)))"
  {
  }

  /** `fallback('--foo', '--bar', 'red')` (test/specs/fallback.js:9). */
  lemma {:induction false} TwoVariablesAndDefault(prop: PropName)
    ensures FallbackOf([Str("--foo"), Str("--bar"), Str("red")], prop) == "var(--foo, var(--bar, red))"
  {
    FallbackIsNested([Str("--foo"), Str("--bar"), Str("red")], prop);
    assert [Str("--foo"), Str("--bar"), Str("red")] == [Str("--foo")] + [Str("--bar"), Str("red")];
    assert [Str("--bar"), Str("red")] == [Str("--bar")] + [Str("red")];
    VarAround("--foo", [Str("--bar"), Str("red")], prop);
    VarAround("--bar", [Str("red")], prop);
    PlainLast("red", prop);
    TwoVariablesAndDefaultText();
  }

  lemma {:induction false} TwoVariablesAndDefaultText()
    ensures "var(" + "--foo" + ", " + ("var(" + "--bar" + ", " + "red" + ")") + ")" == "var(--foo, var(--bar, red))"
  {
  }

  /** `fallback('--foo', '--bar', '--baz', '2em')` (test/specs/fallback.js:10). */
  lemma {:induction false} ThreeVariablesAndDefault(prop: PropName)
    ensures FallbackOf([Str("--foo"), Str("--bar"), Str("--baz"), Str("2em")], prop)
      == "var(--foo, var(--bar, var(--baz, 2em)))"
  {
    var vs := [Str("--foo"), Str("--bar"), Str("--baz"), Str("2em")];
    FallbackIsNested(vs, prop);
    assert vs == [Str("--foo")] + [Str("--bar"), Str("--baz"), Str("2em")];
    assert [Str("--bar"), Str("--baz"), Str("2em")] == [Str("--bar")] + [Str("--baz"), Str("2em")];
    assert [Str("--baz"), Str("2em")] == [Str("--baz")] + [Str("2em")];
    VarAround("--foo", [Str("--bar"), Str("--baz"), Str("2em")], prop);
    VarAround("--bar", [Str("--baz"), Str("2em")], prop);
    VarAround("--baz", [Str("2em")], prop);
    PlainLast("2em", prop);
    ThreeVariablesAndDefaultText();
  }

  lemma {:induction false} ThreeVariablesAndDefaultText()
    ensures "var(" + "--foo" + ", " + ("var(" + "--bar" + ", " + ("var(" + "--baz" + ", " + "2em" + ")") + ")") + ")"
      == "var(--foo, var(--bar, var(--baz, 2em)))"
  {
  }

  /** `fallback('--foo', () => () => () => '33px')`
      (test/specs/fallback.js:150): the functions are called until a string
      remains, and that string is the fallback. */
  lemma {:induction false} NestedFunctions(prop: PropName)
    ensures FallbackOf([Str("--foo"), Thunk(Thunk(Thunk(Str("33px"))))], prop) == "var(--foo, 33px)"
  {
    var vs := [Str("--foo"), Thunk(Thunk(Thunk(Str("33px"))))];
    assert Resolve(vs[1]) == Str("33px");
    FallbackResolves(vs, [Str("--foo"), Str("33px")], prop);
    OneVariableAfter("33px", prop);
    NestedFunctionsText();
  }

  lemma {:induction false} NestedFunctionsText()
    ensures "var(" + "--foo" + ", " + "33px" + ")" == "var(--foo, 33px)"
  {
  }

  /** `fallback('--foo', s)` for a plain string `s`. */
  lemma {:induction false} OneVariableAfter(s: string, prop: PropName)
    requires s != [] && s[0] != '-'
    ensures FallbackOf([Str("--foo"), Str(s)], prop) == "var(" + "--foo" + ", " + s + ")"
  {
    FallbackIsNested([Str("--foo"), Str(s)], prop);
    assert [Str("--foo"), Str(s)] == [Str("--foo")] + [Str(s)];
    VarAround("--foo", [Str(s)], prop);
    PlainLast(s, prop);
  }
}
