# fusion: the nested-CSS compiler, in Dafny

This project models the nested-CSS compiler of the `fusion` library. The
compiler turns SCSS-style nested rule blocks into flat CSS text. It also
models the `fallback` helper, which folds values into nested
`var(--a, var(--b, default))` text. The compiler exists in two versions, and
both are modelled.

- **src/css-parser.js.** `parse` is a quote-aware scanner, one character at
  a time. It keeps a block stack, a PROP/VALUE mode, a `buffer`, the
  property name `current` and the open `quote`.
  - `build` walks the block tree recursively. It composes each block's
    effective selector (`&`, descendant, `:is(...)` for selector groups,
    at-rules) and emits `selector{rules}`.
  - `convert` is `build(parse(css.trim()))`.
- **dist/cjs/fusion.js, line 5** (the v1.0.0 build). `q` first rewrites the
  text with a chain of regular expressions: line breaks, tabs, runs of
  white space, comments, `trim`, space around `: ; { }`, `};;`, and a `;`
  before a loose `}`. It then runs the global regex `([^{};]*)([;{}])`
  with `exec`. Every match goes to a callback that keeps the block stack.
  - `C` is the same builder. It trims each selector first, and its group
    regex uses `[\s\S]`.
  - `O` is `C(q(css))`.
  - `exports.fallback` has the same reducer as src/fallback.js, with one
    difference. It recognises a promise as any value with a `then` method,
    where src/fallback.js accepts only native promises (`isPromise`).

Module layout:

- `Text` holds the shared helpers: `Result`, JavaScript white space, `trim`
  and string concatenation.
- `SelectorGroup` models the regex `(.+,.+)` and its `replace`.
- `CssParser` holds the block datatype, the scanner step and `Feed`, the
  `Parse` method, the builder (one definition with a `Dialect` for the two
  versions) and `Convert`.
  - `CssParserFacts` and `CssBuilderFacts` hold the lemmas about them.
  - `CssExamples` proves four of the five tests of test/specs/nested-css.js
    between lines 4 and 71. The fifth, the at-rule test, is proved for the
    v1.0.0 build in `FusionExamples`, starting from its normalised text.
- `FusionNormalise` models the regex chain of `q`.
- `FusionParser` models the tokeniser, the callback and `q` as a method
  with its `exec` loop, plus `O`.
  - `FusionParserFacts` and `FusionExamples` hold the lemmas about them.
- `Fallback` models `fallback`.

Each imperative piece of the source is a method proved against a
specification function:

- the scanner loop of `parse` (`CssParser.Parse` against `ParseSpec`, the
  left fold of `Step`);
- the `exec` loop of `q` (`FusionParser.Parse` against `ParseSpec`, the
  callback `Apply` run over `Tokens`).

The regex passes, the builder and `fallback` are functions. Each one has
lemmas stating what it guarantees.

## Model

| member | source | states |
|---|---|---|
| Text.TrimSpec | dist/cjs/fusion.js:5 | `trim` returns a slice of its input. The slice neither starts nor ends with white space, and everything cut off on either side is white space. |
| Text.TrimIsSlice | src/css-parser.js:25 | A trimmed string contains no character that was not in the original. |
| SelectorGroup.RunEndSpec | src/css-parser.js:3 | `.+` starting at `i` runs greedily over every character that `.` accepts, and stops at the first character it rejects. |
| SelectorGroup.FirstMatchSpec | src/css-parser.js:3 | The match position is the leftmost index at which `(.+,.+)` matches. None is reported only when no index matches. |
| SelectorGroup.GroupReplaceIsLeftmostLongest | src/css-parser.js:64-68 | `replace(SELECTOR_GROUP_RE, ':is($1)')` wraps the leftmost, then longest, substring in the pattern's language. It leaves the selector unchanged when no substring is in the language. |
| SelectorGroup.GroupReplaceIsWrapGroup | src/css-parser.js:3 | On selectors without line terminators (or with the `[\s\S]` regex of the build), the replace wraps the whole selector in `:is(...)` exactly when a comma sits at an index strictly inside it. |
| SelectorGroup.RunEndAll | src/css-parser.js:3 | Without line terminators, `.+` runs to the end of the string. |
| CssParser.Step | src/css-parser.js:14-49 | One iteration of the loop fails exactly on a `}` outside quotes at depth 0, where `ast[--depth]` is `ast[-1]`. Otherwise it keeps a root on the stack. |
| CssParser.Parse | src/css-parser.js:5-52 | The scanner method, with its mutable `mode`, `buffer`, `current`, `quote`, `depth` and `ast`, returns exactly `ParseSpec`, the left fold of `Step` over the text. It reads `css[i - 1]` for the backslash test. |
| CssParser.FeedAppend | src/css-parser.js:12-50 | Scanning `a + b` is scanning `b` from the state `a` leaves. A failure in `a` is final. |
| CssParser.FeedStaysFailed | src/css-parser.js:19 | Once the scan has thrown, the rest of the text does not change the outcome. |
| CssParser.Convert | src/css-parser.js:79-81 | `convert` returns `build` of the parse of the trimmed text, or the parse error. |
| CssParserFacts.DeclarationStored | src/css-parser.js:14-16 | `name value;` appends `name + trim(value) + ';'` to the open block's rules. The space after the name is dropped. |
| CssParserFacts.QuotedDeclarationStored | src/css-parser.js:14-48 | `name pre"body"post;` (or with `'`) stores `name + trim(value) + ';'` with the quotes kept, even when `body` holds `;`, `{` or `}`. This holds when `body` holds no newline and not that quote, and does not end in a backslash. |
| CssParserFacts.DeclarationEndsAtNewline | src/css-parser.js:14-22 | `name value` followed by a line break and no `;` stores `name + trim(value) + ';'` as `name value;` does, and the scanner is idle again. |
| CssParserFacts.NoSpaceDeclarationDropped | src/css-parser.js:31-39 | A declaration whose name is not followed by a space (`width:12px;`) never sets `current`, so its `;` discards it. |
| CssParserFacts.QuotedDelimiterIsText | src/css-parser.js:14 | Inside an open quote, `;`, `{` and `}` are appended to the value as text. |
| CssParserFacts.QuoteClosesUnlessEscaped | src/css-parser.js:41-44 | The quote character closes the quote, unless the character before it is a backslash. |
| CssParserFacts.NewlineClosesQuote | src/css-parser.js:14-16 | A newline ends a pending declaration even inside an open quote. The quote character is appended before `;`, and `quote` is reset. |
| CssParserFacts.OpenBlock | src/css-parser.js:23-30 | `head tail{` pushes a block whose selector is `trim(head + ' ' + tail)`, with no rules and no children. |
| CssParserFacts.CloseOne | src/css-parser.js:18-19 | `}` pops the open block and appends it to its parent's children. |
| CssParserFacts.BlankIgnored | src/css-parser.js:14-36 | Spaces and newlines between declarations leave an idle scanner unchanged. |
| CssParserFacts.FeedKeepsSane | src/css-parser.js:12-50 | The scan keeps its invariant: a quote is open only in VALUE mode and is one quote character, and no newline reaches `buffer`, `current` or any selector on the stack. |
| CssParserFacts.ParsedSelectorsHaveNoNewline | src/css-parser.js:14-25 | No parsed selector contains a newline, so the `.`-based group regex sees the whole selector. |
| CssParserFacts.UnclosedBlocksDropped | src/css-parser.js:51 | Text without any `}` parses to no blocks. Blocks that are never closed are dropped silently. |
| CssParserFacts.FailsByPrefix | src/css-parser.js:18-19 | Scanning a prefix fails exactly when that prefix holds a stray `}` at depth 0. |
| CssParserFacts.ParseFailsIffStrayClose | src/css-parser.js:18-19 | `parse` throws exactly when some `}` outside quotes comes while no block is open. |
| CssBuilderFacts.BuildAppend | src/css-parser.js:55-76 | The reduce only appends, so building `a + b` is building `a` followed by building `b`. |
| CssBuilderFacts.ComposeRules | src/css-parser.js:63-68 | With a parent, `&sel` becomes `parent + sel` and any other selector `parent + ' ' + sel`. Without one, the selector is kept as it is, `&` included. The part taken from the block is `:is(...)`-wrapped exactly when it holds an inner comma. |
| CssBuilderFacts.ComposeExtendsParent | src/css-parser.js:63-66 | A nested style rule's effective selector starts with its parent's full effective selector. |
| CssBuilderFacts.BuildIsFlat | src/css-parser.js:54-77 | Without at-rules, the output is exactly the pre-order list of style blocks, each written once as `effective-selector{rules}`, parents before their children, siblings in source order. Nothing else is written. |
| CssBuilderFacts.FlattenUnderParent | src/css-parser.js:63-73 | Every rule emitted under a non-empty parent, at any depth and through at-rules, has a selector beginning with that parent. |
| CssBuilderFacts.AtRuleIgnoresRules | src/css-parser.js:57-61 | An at-rule block never emits its own rules. |
| CssBuilderFacts.AtRuleSplice | src/css-parser.js:57-61 | An at-rule with children, between any sibling lists, writes its selector, `{`, then exactly the text its children would produce spliced in its place under the same parent, then `}`. The at-rule only wraps; it never changes its children's selectors. |
| CssBuilderFacts.BuildDialectsAgree | dist/cjs/fusion.js:5 | `C` and `build` emit the same text for blocks whose selectors are already trimmed and free of line terminators. |
| CssExamples.ParentSelectorConverts | test/specs/nested-css.js:4-13 | `convert` of the indented parent-selector example is `.foo{width:12px;}.foo::before{width:27px;}`. |
| CssExamples.ChildSelectorConverts | test/specs/nested-css.js:16-25 | `convert` of the child-selector example is `.foo{width:4px;}.foo .bar{width:15px;}`. |
| CssExamples.MultipleParentsConverts | test/specs/nested-css.js:42-51 | `convert` of the selector-list example wraps the list in `:is(...)`, for the parent and for the `&.baz` child. |
| CssExamples.DeepNestingConverts | test/specs/nested-css.js:54-71 | `convert` of the four-level example emits each level with its full descendant selector, in order. |
| Fallback.Resolve | src/fallback.js:8-10 | Calling function arguments until the result is not a function leaves no function. |
| Fallback.Closers | src/fallback.js:20 | `Array(n).join(')')` is `n - 1` closing parentheses. |
| Fallback.Openers | src/fallback.js:11-16 | At most one `var(` is opened per value. |
| Fallback.ReducerResolves | src/fallback.js:8-10 | The reducer on a function argument is the reducer on what it resolves to, at the same index and with no separator of its own. |
| Fallback.FoldBeforeLast | src/fallback.js:5-22 | Before the last value, the accumulator is each value's piece followed by `, `, and the counter is one plus the `var(`s opened. |
| Fallback.FallbackShape | src/fallback.js:20-23 | No arguments give `''`. Otherwise the result is the pieces joined by `, `, then the last piece, then exactly one `)` per `var(` opened. |
| Fallback.OpenerWraps | src/fallback.js:11-20 | A first value that is a store, a promise or a `--` string gives `var(` + its name, then `, ` and the fallback of the remaining values if there are any, then `)`. |
| Fallback.PlainFront | src/fallback.js:17-20 | Any other first value gives that value verbatim, then `, ` and the fallback of the remaining values if there are any. It opens no `var(`, so the closing `)`s are those of the remaining values. |
| Fallback.FallbackIsNested | src/fallback.js:4-24 | The fold builds the nesting its output denotes, `var(--a, var(--b, ... last))`, with every `var(` closed after the last value. |
| Fallback.ThunkIsTransparent | src/fallback.js:8-10 | Replacing an argument by a function returning it does not change the output. |
| Fallback.FallbackResolves | dist/cjs/fusion.js:5 | Two argument lists whose values resolve alike give the same text. This holds for `exports.fallback` too: its reducer differs only in which values count as promises, which decides whether a value is `Reactive`. |
| Fallback.VarAround | src/fallback.js:14-20 | A `--` custom property followed by more values is `var(--a, <rest>)`. |
| Fallback.OneVariable | test/specs/fallback.js:6 | `fallback('--foo', '10px')` is `var(--foo, 10px)`. |
| Fallback.TwoVariables | test/specs/fallback.js:7 | `fallback('--foo', '--bar')` is `var(--foo, var(--bar))`. |
| Fallback.ThreeVariables | test/specs/fallback.js:8 | `fallback('--foo', '--bar', '--baz')` is `var(--foo, var(--bar, var(--baz)))`. |
| Fallback.TwoVariablesAndDefault | test/specs/fallback.js:9 | `fallback('--foo', '--bar', 'red')` is `var(--foo, var(--bar, red))`. |
| Fallback.ThreeVariablesAndDefault | test/specs/fallback.js:10 | `fallback('--foo', '--bar', '--baz', '2em')` is `var(--foo, var(--bar, var(--baz, 2em)))`. |
| Fallback.NestedFunctions | test/specs/fallback.js:147-151 | `fallback('--foo', () => () => () => '33px')` is `var(--foo, 33px)`. |
| FusionNormalise.SqueezeNoDoubleSpace | dist/cjs/fusion.js:5 | After the line-break, tab and `\s{2,}` passes, no two white-space characters are adjacent. |
| FusionNormalise.CommentRemoved | dist/cjs/fusion.js:5 | A comment whose body holds no `*/` is removed. The first `*/` closes it (lazy match). |
| FusionNormalise.UnclosedCommentKept | dist/cjs/fusion.js:5 | A `/*` with no later `*/` is left in the text. |
| FusionNormalise.StripNothing | dist/cjs/fusion.js:5 | Text without a `/*` is not changed by the comment pass. |
| FusionNormalise.TightenTight | dist/cjs/fusion.js:5 | After `\s*([:;{}])\s*` → `$1`, no white space is next to `:`, `;`, `{` or `}`. |
| FusionNormalise.DropSemisNoCloseSemi | dist/cjs/fusion.js:5 | After `};+` → `}`, no `;` follows a `}`. |
| FusionNormalise.CloseDeclsNoLooseClose | dist/cjs/fusion.js:5 | After `([^:;{}])}` → `$1;}`, every `}` follows one of `: ; { }` or starts the text. |
| FusionNormalise.CloseDeclsPointwise | dist/cjs/fusion.js:5 | The `([^:;{}])}` → `$1;}` pass keeps every character in order. It adds a `;` after a character exactly when that character is not one of `: ; { }` and the next one is `}`. Nothing else is added or dropped. |
| FusionNormalise.NormaliseSpec | dist/cjs/fusion.js:5 | The normalised text has no leading or trailing white space, no white space next to `: ; { }`, no `};` and no loose `}`. |
| FusionNormalise.NormaliseNoDoubleSpace | dist/cjs/fusion.js:5 | Text without a comment opener normalises to text with no two adjacent white-space characters. |
| FusionNormalise.CommentLeavesDoubleSpace | dist/cjs/fusion.js:5 | `x /**/ y` normalises to `x  y` with two spaces: comments are removed after white space is collapsed. |
| FusionNormalise.NormalIsFixed | dist/cjs/fusion.js:5 | Text already in normal form passes through the whole chain unchanged. |
| FusionNormalise.NormaliseLacks | dist/cjs/fusion.js:5 | The normaliser adds only spaces and `;`. No `\r`, `\n` or tab survives it. |
| FusionNormalise.NormaliseIdempotent | dist/cjs/fusion.js:5 | For text without a comment opener, the output is in normal form, and normalising it again changes nothing. |
| FusionNormalise.QuotesNotSpecial | dist/cjs/fusion.js:5 | The normaliser is not quote-aware: `a{b:' ; '}` loses the spaces inside the quotes. |
| FusionNormalise.LastDeclarationClosed | dist/cjs/fusion.js:5 | `a {b : c}` normalises to `a{b:c;}`. The last declaration gets its `;`. |
| FusionParser.Callback | dist/cjs/fusion.js:5 | The callback's in-place updates of `t` and `r` throw exactly when `Apply` fails. Otherwise they produce `Apply`'s stack, with `r` its depth. |
| FusionParser.Parse | dist/cjs/fusion.js:5 | The `exec` loop of `q` returns exactly `ParseSpec`: the callback run over the matches of the normalised text, then the root's children. |
| FusionParser.Convert | dist/cjs/fusion.js:5 | `O` returns `C` of what `q` returns, or `q`'s error. |
| FusionParserFacts.NextStopSpec | dist/cjs/fusion.js:5 | Group 1 holds no delimiter, and group 2 is the first delimiter after `lastIndex`. |
| FusionParserFacts.TokensCover | dist/cjs/fusion.js:5 | The matches cover the text without gap or overlap, up to a tail holding no delimiter that no match reaches. |
| FusionParserFacts.TokensOfJoined | dist/cjs/fusion.js:5 | Joining well-formed matches and tokenising the result gives back the same matches. |
| FusionParserFacts.RunAppend | dist/cjs/fusion.js:5 | Running the callback over `a + b` runs it over `b` from the stack `a` leaves. A throw in `a` is final. |
| FusionParserFacts.RunDecls | dist/cjs/fusion.js:5 | `;` matches append each text and its `;` to the open block's rules, in order. |
| FusionParserFacts.RunBlock | dist/cjs/fusion.js:5 | `{`, inner matches, then `}` make the pushed block, with the text before `}` added to its rules, the last child of the block open before. |
| FusionParserFacts.LeafBlock | dist/cjs/fusion.js:5 | A block of declarations gets exactly those declarations as its rules, and is attached to its parent. |
| FusionParserFacts.RunFailsIffStray | dist/cjs/fusion.js:5 | The callback run throws exactly when some `}` match comes while only the root is open. |
| FusionParserFacts.ParseFailsIffStrayClose | dist/cjs/fusion.js:5 | `q` throws exactly when a `}` of the normalised text comes at depth 0. |
| FusionParserFacts.UnclosedBlocksDropped | dist/cjs/fusion.js:5 | Text without any `}` gives no blocks. Unclosed blocks are dropped. |
| FusionParserFacts.CloseTextIsEmpty | dist/cjs/fusion.js:5 | After normalisation, the text before each `}` is empty or ends in `:`. The last declaration of a block always reaches its rules through a `;` match. |
| FusionExamples.AtRuleConverts | dist/cjs/fusion.js:5 | Any text that normalises to `sel{decl;at{&{inner;}}}` converts to `sel{decl;}at{sel{inner;}}`. `&` inside an at-rule refers to the rule around the at-rule. |
| FusionExamples.NestedAtRuleTest | test/specs/nested-css.js:28-39 | From its normalised text, the at-rule example converts to `.foo{color:black;}@media (max-width:480px){.foo{color:green;}}`. |

## Left out

- Reactive stores, media and element queries, keyframes, `style`, the
  CSS-variable binding and the rest of the browser glue are left out. They
  are callbacks, DOM writes and timers around the compiler.
- The older build dist/fusion.cjs.js is left out. It has no parser, and its
  `fallback` is the same reducer as src/fallback.js.
- In `fallback`, a store's or promise's custom-property name comes from an
  abstract function. A function argument is a value that stands for what
  the function returns. The side effects of calling it, and the runtime
  type probing of `isStore`/`isPromise`, are not modelled.
- `Reactive` stands for whatever each version's own probe accepts as a store
  or a promise. The probes differ. src/fallback.js uses `isPromise`
  (src/util.js:9-11), which accepts only native promises.
  `exports.fallback` uses `g`, which accepts any value with a `then`
  method. So `fallback({then(){}}, 'red')` is `[object Object], red` in the
  source version and `var(<name>, red)` in the v1.0.0 build. The model does
  not decide which values are `Reactive`.
- `fallback` values other than strings are shown by an abstract `shown`
  text. JavaScript's conversion of numbers and objects to strings is not
  modelled.
- The root block's `selector` and `rules` are `undefined` in the source. The
  model uses empty strings. The root is never emitted, and `undefined` and
  `''` are both falsy as a parent, so the output is the same.
- The JavaScript `\s` class is modelled as the set of white-space
  characters of ECMAScript: space, tab, vertical tab, form feed, the line
  terminators, NBSP, BOM and the Unicode space separators. `trim` and `\s` use the same set.
- FusionNormalise.NormaliseNoDoubleSpace: proved only for text without a
  comment opener. Comments are removed after white space is collapsed, so
  `x /**/ y` keeps two spaces (CommentLeavesDoubleSpace).
- FusionNormalise.NormaliseIdempotent: proved only for text without a
  comment opener, for the same reason.
- FusionExamples.NestedAtRuleTest: starts from the normalised text. That
  the indented test input normalises to it is not evaluated, because
  running the regex chain on the literal input is beyond the solver's
  budget. The test of nested-css.js:74-83 (selector list with a
  `:not(...)`) is not worked through for the same reason.
- The test of nested-css.js:86-102 (quoted values and commas in values) is
  not worked through as a whole, for either version. For the source version,
  `QuotedDeclarationStored` covers the shape of its quoted declaration,
  `font-family: Times, "Times New Roman", serif;`.
- The `lastIndex` state of the shared global regex is modelled as the loop
  index of `FusionParser.Parse`. `q` resets it to 0 before its loop.
- In the source version, a selector can hold a `\r`, which `.` does not
  match. The group-regex rule is proved for selectors without line
  terminators, and `ParsedSelectorsHaveNoNewline` covers only `\n`.
