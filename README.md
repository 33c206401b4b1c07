# sass-to-emotion, modelled in Dafny

The converter turns a Sass stylesheet into an Emotion module: every `.class`
and `%placeholder` rule becomes a `css` template constant, every `@mixin`
becomes a function that returns one, Sass variables become template
interpolations, and a stable sort by source line plus an import header give
the module text. A Babel plugin rewrites JSX `className` strings to point at
the generated module, and adds the import of it.

This project models that core.

- `strings.dfy`: the JavaScript string operations the code relies on
  (`startsWith`, `indexOf`, `includes`, `split`, `join`, `trim`), with their
  round trips.
- `lodash.dfy`: lodash `camelCase` under a simplified word rule. A word is a
  maximal run of ASCII letters and digits; the first word is lower-cased and
  every later word is capitalised.
- `resolvers.dfy`: `placeHolderToVar`, `handleSassVar`,
  `handleSassVarUnescaped`, `mixinParamsToFunc`, and the parameter rewrites of
  the `@extend` and `@include` walks.
- `include_media.dfy`: the sixteen-case include-media table and its throwing
  default. It is checked against an independent reading: comparison and
  breakpoint decide the query.
- `selector_identifier.dfy`: the BEM identifier rule.
- `tree.dfy`: the postcss tree as a value. Parent links become paths of
  child indices. `root.walk` is a pre-order list of paths. `postcss.stringify`
  is the list of `(text, node, start|end)` calls it hands to its builder.
- `emitter.dfy`: the `root.classes` `Map` as an association list in
  insertion order. It also holds the stable sort by line, the per-entry
  rendering and the import header.
- `transform.dfy`: `processRoot` as a `Root` class whose methods update the
  tree, the table and the two flags. The ancestor climbs and the two
  `contents +=` callbacks are loops. Each method is proved against a
  specification function: `ProcessRootOf`, `RuleContentsOf`,
  `MixinContentsOf`, `NestedInMixin` and the others.
- `transform_facts.dfy`: what those specification functions mean.
  - what each rewriting walk does at every node;
  - which parts of a rule end up in its `contents`;
  - that later registrations replace earlier ones;
  - that the table stays a map;
  - exactly when each file-level flag is set.
- `plugin.dfy`: the `JSXAttribute` visitor, a class whose `value` is replaced
  in place; and the `Program` visitor, a class whose `body` is spliced.

Two behaviours are kept as the code has them. A variable passed to a
non-media `@include` sets no flag (transform.js:73-93, 119), so
`@include foo($x)` can refer to `customVars.x` while the header lacks the
`customVars` import. A non-media `@include` with a body contributes its
call text to a rule's `contents` twice: once as the at-rule's start and once
as its end.

`./selector-to-literal`, which transform.js requires, is not part of this
model. It is assumed to be the rule of selector-to-variable-identifier.js
(`RuleKey` applies that rule to the selector). The crashes of the source are
modelled as an `Err` result carrying a `Failure`:
- a `split('(')` without a parenthesis, whose second part is then undefined;
- the include-media default `throw`;
- a JSX attribute without a value.

The model follows the code where it disagrees with the examples in
transform.test.js. Those examples include `@include %reset-top-margin;`,
`@include reset-top-margin;`, `@mixin reset-top-margin {` and
`@mixin fe-pa-listing__details-container {` (transform.test.js:381-401,
436-450, 510-531), and one test is named "handle mixins without args".
Each of those has no `(`, so transform.js:95-97 and 117-118 throw a
TypeError. `MixinParamsToFunc` and `IncludeCall` give
`Err(MissingParenthesis(..))` for them.

## Model

| member | source | states |
|---|---|---|
| Resolvers.PlaceholderName | transform.js:12-14 | `placeHolderToVar` drops the first character, whatever it is, and camelCases the rest |
| Resolvers.PrefixSplit | transform.js:49 | after `$fe-brary-` the second piece of the split is the text up to the next `$fe-brary-` |
| Resolvers.FeBraryVar | transform.js:49-52 | a fe-brary variable becomes `vars.<field>.<camelCase(rest)>`; `field` is the first hyphen segment, taken as it is |
| Resolvers.HandleSassVar | transform.js:43-71 | `$fe-brary-` values give `${vars...}` and set the fe-brary flag. Other `$` values give `${name}` inside a mixin and otherwise `${customVars.name}`, setting the custom flag. Any other value is returned unchanged |
| Resolvers.WholeValueOnly | transform.js:44-70 | a value with a variable anywhere but at its start (`1px solid $x`) is left untouched and sets no flag |
| Resolvers.HandleSassVarUnescaped | transform.js:73-93 | variable arguments become references without `${}`; quoted literals stay as they are; others are wrapped in single quotes |
| Resolvers.EscapedIsWrappedUnescaped | transform.js:43-93 | outside a mixin the escaped form of a variable is the unescaped form inside `${}` |
| Resolvers.RemoveDollars | transform.js:97 | `replace(/\$/g, '')` removes every `$` and keeps every other character as often as it occurs (the multiset of the result is that of the input without `$`) |
| Resolvers.RemoveDollarsAppend | transform.js:97 | the global replace works character by character: removing from `a + b` is removing from `a`, then from `b` |
| Resolvers.RemoveDollarsFree | transform.js:97 | text without `$` comes back unchanged |
| Resolvers.RemoveDollarsIdempotent | transform.js:97 | removing the `$` twice gives what removing them once gives |
| Resolvers.MixinParamsToFunc | transform.js:95-98 | it fails iff the signature has no `(`; otherwise it gives the camelCased name, `(`, and the text up to any second `(` with no `$` |
| Resolvers.MixinSignature | transform.js:95-98 | `name(args)` becomes `camelCase(name)(` followed by `args)` with the `$` removed |
| Resolvers.ExtendParams | transform.js:104-106 | the new `@extend` params are `${`, an identifier, then `};` |
| Resolvers.ExtendOf | transform.js:104-106 | `@extend %name` becomes `${camelCase(name)};` |
| Resolvers.DropLast | transform.js:118 | `slice(0, -1)` drops the last character; `""` stays `""` |
| Resolvers.IncludeArgs | transform.js:119 | one result per argument, in order; the trimmed argument decides it: a `$fe-brary-` variable gives its `vars.` reference, another `$` variable gives `customVars.<camelCase>` with no `${}`, a quoted literal stays as it is, anything else is put in single quotes |
| Strings.TrimBounds | transform.js:119 | a trimmed argument neither starts nor ends with whitespace and is a slice of the argument |
| Resolvers.IncludeCall | transform.js:117-121 | a non-media `@include` fails iff its params have no `(` |
| Resolvers.IncludeOfCall | transform.js:117-121 | `@include name(a1,...,an)` becomes `${camelCase(name) (r1, ..., rn)}` with each `ri` the resolved argument |
| Resolvers.CallParts | transform.js:117-118 | splitting `name(inner)` at `(` and dropping the last character gives back `name` and `inner` |
| IncludeMedia.TableMatchesReading | include-media.js:20-53 | each of the sixteen expressions maps to the query that the independent reading gives from its comparison and breakpoint |
| IncludeMedia.OnlyExpressionsAccepted | include-media.js:20-55 | a query is returned iff the input is one of the sixteen expressions; anything else fails with the source's message |
| IncludeMedia.AcceptedIsExpression | include-media.js:20-55 | every accepted input is one of the sixteen expressions |
| IncludeMedia.ExactlySixteen | include-media.js:20-55 | exactly sixteen distinct strings are accepted, and no other (no quoting or whitespace variant) |
| IncludeMedia.QueryDecodes | include-media.js:21-53 | comparison and breakpoint can be read back from every generated query |
| IncludeMedia.Injective | include-media.js:21-53 | distinct accepted inputs give distinct queries |
| IncludeMedia.Direction | include-media.js:21-53 | `>` and `>=` give `min-width`, `<` and `<=` give `max-width` |
| IncludeMedia.QueryShape | include-media.js:21-53 | every query starts `media(` and ends `)`, and contains `vars.` iff the breakpoint is not mobile |
| IncludeMedia.MobileReadsNoVariable | include-media.js:21-24 | queries for mobile read no variable |
| IncludeMedia.OthersReadVariable | include-media.js:25-36 | queries for tablet, desktop and lrg-desktop read a fe-brary variable |
| IncludeMedia.CaseGtMobile | include-media.js:21-22 | `>mobile` gives `min-width: 321px` |
| IncludeMedia.CaseGeMobile | include-media.js:23-24 | `>=mobile` gives `min-width: 320px` |
| IncludeMedia.CaseGtTablet | include-media.js:25-26 | `>tablet` gives `tabletMinWidth + 1` |
| IncludeMedia.CaseGeTablet | include-media.js:27-28 | `>=tablet` gives `tabletMinWidth` |
| IncludeMedia.CaseGtDesktop | include-media.js:29-30 | `>desktop` gives `desktopMinWidth + 1` |
| IncludeMedia.CaseGeDesktop | include-media.js:31-32 | `>=desktop` gives `desktopMinWidth` |
| IncludeMedia.CaseGtLrgDesktop | include-media.js:33-34 | `>lrg-desktop` gives `desktopMaxWidth + 1` |
| IncludeMedia.CaseGeLrgDesktop | include-media.js:35-36 | `>=lrg-desktop` gives `desktopMaxWidth` |
| IncludeMedia.CaseLtMobile | include-media.js:38-39 | `<mobile` gives `max-width: 319px` |
| IncludeMedia.CaseLeMobile | include-media.js:40-41 | `<=mobile` gives `max-width: 320px` |
| IncludeMedia.CaseLtTablet | include-media.js:42-43 | `<tablet` gives `tabletMinWidth - 1` |
| IncludeMedia.CaseLeTablet | include-media.js:44-45 | `<=tablet` gives `tabletMinWidth` |
| IncludeMedia.CaseLtDesktop | include-media.js:46-47 | `<desktop` gives `desktopMinWidth - 1` |
| IncludeMedia.CaseLeDesktop | include-media.js:48-49 | `<=desktop` gives `desktopMinWidth` |
| IncludeMedia.CaseLtLrgDesktop | include-media.js:50-51 | `<lrg-desktop` gives `desktopMaxWidth - 1` |
| IncludeMedia.CaseLeLrgDesktop | include-media.js:52-53 | `<=lrg-desktop` gives `desktopMaxWidth` |
| SelectorIdentifier.SelectorToIdentifier | selector-to-variable-identifier.js:4-7 | the identifier is made of letters and digits only |
| SelectorIdentifier.NoSeparator | selector-to-variable-identifier.js:5-6 | with no `__` the whole selector is camelCased |
| SelectorIdentifier.ElementSegment | selector-to-variable-identifier.js:5-6 | with `__` the identifier comes from the piece between the first and second `__`; when that piece is empty, from the piece before the first `__` |
| SelectorIdentifier.NoPunctuation | selector-to-variable-identifier.js:4-7 | the identifier holds no `-`, `_` or `.` |
| SelectorIdentifier.DocumentedExample | selector-to-variable-identifier.js:3 | `email-share__form-group` gives `formGroup` |
| SelectorIdentifier.BlockElement | selector-to-variable-identifier.js:5-6 | `block__element` gives the camelCase of `element` |
| SelectorIdentifier.LaterSegmentsIgnored | selector-to-variable-identifier.js:5 | `block__element__rest` gives the camelCase of `element`, not of the last piece |
| SelectorIdentifier.EmptyElementFallsBack | selector-to-variable-identifier.js:6 | `block__` falls back to the camelCase of `block` |
| SelectorIdentifier.ClassDotIgnored | selector-to-variable-identifier.js:4-7 | a leading `.` makes no difference to the identifier |
| Lodash.CamelCaseOfWord | transform.js:56 | a variable named by one lower-case word keeps its name: `$gap` reads `gap` |
| Lodash.CamelCaseSeparatorFree | transform.js:82 | only the words matter: names joined by any two non-alphanumeric characters, such as `my-gap` and `my_gap`, give the same identifier |
| Lodash.CamelCaseOfSeparators | transform.js:13 | a placeholder name with no letter or digit gives the empty identifier |
| Lodash.CamelCaseOfKebab | transform.js:50-51 | camelCasing lower-case segments joined with `-` lower-cases the first and capitalises the rest |
| Emitter.Lookup | transform.js:169 | a key is found iff it is in the table, and the entry found is stored under it |
| Emitter.MapSet | transform.js:169-173 | after `map.set(k, v)`, `k` gives `v` and every other key gives what it gave before |
| Emitter.MapSetKeys | transform.js:169-173 | `set` keeps a present key in its place and appends a new one |
| Emitter.MapSetUnique | transform.js:169-173 | `set` keeps the keys distinct |
| Emitter.InsertSorted | transform.js:202-203 | inserting an entry into a table sorted by line keeps it sorted |
| Emitter.SortSorted | transform.js:202-203 | the sorted table is ordered by ascending source line |
| Emitter.SortByLine | transform.js:202-203 | the sort is a permutation of the table |
| Emitter.SortStable | transform.js:202-203 | entries on the same line keep their table order (the sort is stable) |
| Emitter.EmitOrder | transform.js:202-203 | an entry on an earlier line is emitted before one on a later line |
| Emitter.RenderForms | transform.js:204-210 | only classes get `export const`, only mixins become `function`, placeholders are plain `const` |
| Emitter.RenderHoldsContents | transform.js:206-209 | every rendered block holds the entry's contents inside a template literal, followed by a newline |
| Emitter.BlocksAppend | transform.js:204-210 | the fold renders the entries one after the other, in order |
| Emitter.HeaderImports | transform.js:212-216 | the header always starts with the `css` import; it has the fe-brary import iff that flag is set, and the `customVars` import iff that flag is set |
| Transform.Root.IsNestedInMixin | transform.js:16-27 | the climb returns true iff some proper ancestor strictly below the root is a `@mixin` |
| Transform.Root.IsNestedInPseudo | transform.js:29-41 | the climb returns true iff some proper ancestor strictly below the root is a rule whose selector starts with `&:` |
| Transform.Root.RuleContents | transform.js:141-167 | the flattening callback, folded over the rule's stringify calls, gives the rule's specified contents |
| Transform.Root.MixinContents | transform.js:180-187 | the mixin callback, folded over the mixin's stringify calls, gives the mixin's specified contents |
| Transform.Root.FlattenRules | transform.js:129-174 | the table becomes the old one with every class and placeholder rule (outside a mixin), in walk order, set into it |
| Transform.Root.RegisterRule | transform.js:130-173 | one callback: a rule outside a mixin is set under its identifier, with its type, contents and line |
| Transform.Root.RegisterMixins | transform.js:176-194 | every mixin is set under its function signature in walk order; the first signature without `(` stops the walk with that failure |
| Transform.Root.ProcessRoot | transform.js:100-195 | on success the tree, table and flags are those `ProcessRootOf` gives; a crash leaves its failure |
| Transform.Convert | transform.js:197-219 | the exported function gives the emitted module text of `processRoot`'s table and flags, or the failure |
| Transform.IncludeResult | transform.js:108-122 | a media include becomes `@media` with the table's query, or fails as the table does; any other include fails iff it has no `(`; the fe-brary flag is set iff the query reads `vars.` |
| Transform.RuleEntry | transform.js:169-173 | a rule's entry is a placeholder iff its selector starts with `%`, and carries the rule's line |
| Transform.MixinFailureSticks | transform.js:176-194 | once the mixin walk has failed, later mixins do not change the outcome |
| TransformFacts.ExtendPassAt | transform.js:104-106 | after the extend walk each `@extend` node has the new params and every other node is unchanged |
| TransformFacts.IncludePassFailure | transform.js:108-122 | the include walk fails iff some walked `@include` fails |
| TransformFacts.IncludePassAt | transform.js:108-122 | after a successful include walk each `@include` carries the callback's result and every other node is unchanged |
| TransformFacts.DeclPassAt | transform.js:124-126 | after the declaration walk each declaration has the value `handleSassVar` gives it at its place |
| TransformFacts.PreOrderMapped | transform.js:104-126 | the rewriting walks keep the tree's shape, so later walks visit the same nodes |
| TransformFacts.ContentsAppend | transform.js:141-167 | `contents +=` over consecutive calls is the concatenation of their contributions |
| TransformFacts.LeafChild | transform.js:161-166 | a direct child printed as it is contributes its text; an `@extend` or `@include` contributes its params and a newline |
| TransformFacts.NestedClassDropped | transform.js:150-159 | a nested `.class` outside any `&:` rule contributes nothing: neither its braces nor its declarations |
| TransformFacts.PseudoClassRef | transform.js:145-147 | a `.class` nested under a `&:` rule is replaced by `${identifier}` |
| TransformFacts.PseudoBlockKept | transform.js:143-166 | a `&:` block directly below the rule keeps its own selector and braces, with nested classes replaced by references |
| TransformFacts.ChildrenKept | transform.js:141-167 | the children of a flattened rule contribute, in order, what each case above says |
| TransformFacts.FlattenedContents | transform.js:141-167 | a rule's contents exclude its own braces and are its children's contributions, in order |
| TransformFacts.KeptVerbatim | transform.js:166 | with nothing to drop or replace the contents are the printed body |
| TransformFacts.MixinBody | transform.js:180-187 | a mixin's contents are its printed body without its own opening and closing text |
| TransformFacts.LastRegistrationWins | transform.js:169-173 | the last rule registered under an identifier decides its entry |
| TransformFacts.RegisteredRulesKeep | transform.js:129-174 | the flattening walk keeps every key already in the table |
| TransformFacts.RegisteredRulesKeys | transform.js:129-174 | every registered rule's identifier is a key afterwards |
| TransformFacts.RegisteredRulesOrigin | transform.js:129-174 | every key afterwards was there before or is the identifier of a registered rule |
| TransformFacts.RegisteredRulesUnique | transform.js:129-174 | the table stays a map: keys are distinct |
| TransformFacts.RegisteredMixinsKeys | transform.js:176-194 | a successful mixin walk keeps the keys, registers every mixin under its signature, and keeps keys distinct |
| TransformFacts.ProcessRootTable | transform.js:100-195 | after `processRoot` the keys are distinct; every registered rule and every mixin has its key |
| TransformFacts.FeBraryFlag | transform.js:44-47 | `usesFeBraryVars` is set iff some include-media query reads `vars.` or some declaration reads a fe-brary variable |
| TransformFacts.CustomFlag | transform.js:58-66 | `usesCustomVars` ends set iff it was set before or some declaration outside every mixin reads another `$` variable |
| Plugin.RewrittenValue | plugin.js:9-17 | a `className` string with no space becomes `styles.<identifier>`; every other attribute value stays |
| Plugin.RewriteIdempotent | plugin.js:8-19 | visiting an attribute again changes nothing more |
| Plugin.PointsAtRegisteredClass | plugin.js:11-16 | the rewritten member is the identifier the converter gives the class `.cls` |
| Plugin.BemExample | plugin.js:11-16 | `email-share__form-group` becomes `styles.formGroup` |
| Plugin.LeftAlone | plugin.js:9-10 | a list of classes, and a namespaced `className`, are left alone |
| Plugin.JsxAttribute.Visit | plugin.js:8-19 | the value is replaced by its rewrite; a missing value crashes and changes nothing |
| Plugin.HasStyleImportAt | plugin.js:28-30 | `some` finds a style import iff one exists anywhere in the body |
| Plugin.LastImportFromEnd | plugin.js:34-37 | the offset from the end of the last import, or -1 iff there is no import |
| Plugin.Basename | plugin.js:39 | the base name holds no `/` |
| Plugin.BasenameOf | plugin.js:39 | `dir/file` has base name `file` |
| Plugin.BasenameTrailingSlash | plugin.js:39 | a trailing slash does not change the base name |
| Plugin.InsertionPoint | plugin.js:34-41 | `body.length - lastImport` is right after the last import, and nothing after it is an import |
| Plugin.StylesImportGuards | plugin.js:22-32 | the body changes iff it imports `react` and imports nothing whose source mentions `style` |
| Plugin.StylesImportSpliced | plugin.js:39-45 | when it changes, the import of `styles` from `../style/<basename>` is spliced in at the insertion point |
| Plugin.StylesImportPlacement | plugin.js:34-45 | the body grows by one; the statements before keep their places; the new statement follows the last import; the rest shift by one in order |
| Plugin.StylesImportIdempotent | plugin.js:21-46 | running the visitor again changes nothing: the new import is itself a style import |
| Plugin.Program.InsertStylesImport | plugin.js:21-46 | the body becomes the guarded, spliced body |

## Left out

- The postcss-scss parser: the tree is an input.
- postcss's own formatting: its `raws`, whitespace and semicolon rules, and the `important` flag. postcss-scss moves ` !important` out of `decl.value` into `decl.important`, and stringify appends it again. A declaration label has no such flag, so `color: $x !important` is not represented: the source resolves `$x` alone and then appends ` !important`. Stringification is a fixed call sequence: a declaration prints `prop: value;`, a block prints `selector {` and `}`, and a body-less at-rule prints `@name params;`.
- prettier-eslint formatting: the model's output is the text before formatting.
- File I/O, the command line, index.js and jscodeshift.js.
- The `console.log` debugging output.
- lodash `camelCase` beyond ASCII words: Unicode, deburring, apostrophes, and the splitting of words at case changes or between letters and digits.
- `trim` removes only the ASCII whitespace characters.
- `path.basename` is modelled for POSIX paths only.
- The emitter's order relies on a stable `Array.prototype.sort`, which ECMAScript guarantees only since ES2019 (V8 7.0, Node 11). The model sorts stably; an older runtime could order entries on the same line differently.
- Node mutation in place by the three rewriting walks: each walk is a map from the old tree to the new one, assigned to `Root.nodes`. The identity and aliasing of postcss nodes are not modelled.
- `usesCustomVars` is never initialised by processRoot. The exported function starts it as `false`, which is how `undefined` behaves in the header.
- `this.filename` is always a string; a missing file name is not modelled.
- Babel AST nodes other than attribute values and top-level statements; how Babel builds them.
- Resolvers.IncludeCall: its own contract states only the error case; the result for a well-formed call is stated by Resolvers.IncludeOfCall, for arguments without `(` or `,`.
- TransformFacts.FlattenedContents: covers rules whose children are declarations, comments, calls, nested classes of declarations and `&:` blocks of those; deeper nestings follow the same callback but are not described by a lemma.
