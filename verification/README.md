# Server rendering and SFC CSS variables: a Dafny model

This project models three pieces of Vue's server-side rendering and
single-file-component tooling, and proves properties of them.

- **The render context** (`RenderContext`, `RenderProperties`) covers the
  server renderer's render-state stack and its non-recursive `next()` loop.
  - There are four kinds of frame. `Element` and `Fragment` frames walk
    their children by a cursor. A `Component` frame restores the previous
    active instance. A `ComponentWithCache` frame commits a cached
    component's buffered output.
  - A commit stores a `{ html, components }` record under the frame's key.
    It then either merges that record into the parent's buffer slot or
    leaves caching mode, and truncates the shared buffers.
  - The module also covers the constructor's check that a user cache
    implements `get` and `set`, and `normalizeAsync`. That function turns a
    cache's `get`/`has` into a `(key, cb)` accessor according to the
    method's arity.
  - Every point where `next()` hands control to a collaborator is returned
    as an `Action` instead of being called: `renderNode`, `write`, `done`
    and `cache.set`.
  - The stack is a sequence whose last element is the top.
  - A `ComponentWithCache` frame's own `buffer` and `componentBuffer`
    references are not kept. The model takes them to be one shared pair,
    held once in a `Writer` record next to `write.caching` (see
    "## Left out").
- **CSS `v-bind()`** (`CssVars`) covers how `<style>` blocks of a
  single-file component publish component state as CSS custom properties:
  - naming a variable: `generateVarName`;
  - reading the bound expression: `normalizeExpression` and the
    parenthesis/quote lexer `lexBinding`;
  - collecting every bound expression of the style blocks without
    duplicates: `parseCssVars`;
  - generating the object handed to `useCssVars`: `genCssVarsFromList`;
  - rewriting each `v-bind(expr)` in a declaration value into
    `var(--name)`: `transformCssValue`.
- **SSR attribute generators** (`SsrModules`) model the optimizing
  compiler's generators. Each classifies its input as static text (a RAW
  segment) or as an expression evaluated at render time (an EXPRESSION
  segment):
  - `c` → `GenAttrSegment`, one attribute;
  - `a` → `GenAttrSegments`, a list of attributes;
  - `b` → `GenDomPropSegments`, DOM properties renamed to attributes,
    minus those an attribute overrides;
  - `d` → `GenClassSegments`, class;
  - `e` → `GenStyleSegments`, style and `v-show`;
  - `o` → `ApplyModelDirective`, the `v-model` fix-up.

  The attribute tables (`isBooleanAttr`, `isEnumeratedAttr`,
  `isRenderableAttr`, `propsToAttrMap`) and `JSON.parse`/`JSON.stringify`
  come in through an `Env` record of functions.

`JsString` holds the JavaScript string built-ins the code relies on:
`trim`, `slice`, `toLowerCase`, and the `\s` and `\w` classes.
`Wrappers` holds `Option` and `Result`.

Where a JavaScript call throws, the model returns `Failure`. This covers
`JSON.parse` on a bad literal and the constructor's cache check.

Several doc comments in `render-context.ts` disagree with its code, and the
model follows the code:

- The comments on the `RenderState` variants (lines 7-45) describe the wrong
  variants. For example, the `Element` comment speaks of a fragment.
- The class comment calls `write` synchronous (line 55). `next()` hands it a
  continuation (line 126).
- The class comment says `done` always requires an Error (line 57). `next()`
  calls it with no argument (line 113).
- The class comment says the constructor throws when the cache lacks `set`
  (line 59). The check also throws when `get` is missing (line 91).
- The comment on `next()` speaks of a FIFO queue (line 104). `next()` works
  on the top of a stack and pops it.

## Model

| member | source | states |
|---|---|---|
| RenderContext.NormalizeAsync | packages/server-renderer/src/render-context.ts:170-179 | no accessor exactly when the cache lacks the method; otherwise it wraps that very method, forwarding `(key, cb)` exactly when the method declares more than one parameter |
| RenderContext.NormalizedAccessorAnswersOnce | packages/server-renderer/src/render-context.ts:170-179 | a forwarding accessor passes key and callback to the method and calls nothing itself; a synchronous one calls the method with the key alone and hands its answer to the callback exactly once |
| RenderContext.NewContext | packages/server-renderer/src/render-context.ts:77-96 | construction fails exactly when a cache is given without `get` or without `set`; otherwise the stack is empty, the options are kept, and `get`/`has` are the normalised accessors (none without a cache, `get` always present with one) |
| RenderContext.ChildAt | packages/server-renderer/src/render-context.ts:119-122 | `children[rendered]` is a child exactly when the cursor is inside the array, and then it is that child |
| RenderContext.Step | packages/server-renderer/src/render-context.ts:110-157 | one iteration: done exactly on an empty stack; an unfinished element or fragment delegates its next child and advances its cursor; a finished element pops and writes its end tag, a finished fragment pops silently; a component frame pops and restores the previous instance; a cached component stores `{buffer[i], componentBuffer[i]}`, then ends caching at slot 0 or merges text and component set into slot `i - 1`, and truncates both buffers to `i`; only a commit changes the writer |
| RenderContext.Next | packages/server-renderer/src/render-context.ts:108-159 | `next()` returns only by finishing (with an empty stack), delegating a child, writing, or the impossible commit |
| RenderContext.NextShape | packages/server-renderer/src/render-context.ts:108-159 | `next()` only pops frames, records at most one commit per popped frame, leaves the rest of the stack as it was, and when it delegates, the frame on top is the element or fragment whose cursor it advanced |
| RenderProperties.NextOnDelegation | packages/server-renderer/src/render-context.ts:117-122 | with children left, `next()` delegates exactly the child under the cursor, commits nothing and advances only the top frame |
| RenderProperties.ChildrenDelegatedInOrder | packages/server-renderer/src/render-context.ts:117-122 | resuming `k` times delegates children `rendered`, `rendered + 1`, … in index order and moves the cursor on by `k`, nothing else on the stack changing |
| RenderProperties.ExhaustedFrameCloses | packages/server-renderer/src/render-context.ts:123-129 | a finished element is popped and its end tag written; a finished fragment is popped and the loop goes on |
| RenderProperties.ElementRendersChildrenThenEndTag | packages/server-renderer/src/render-context.ts:117-129 | an element delegates all its remaining children in order, then writes its end tag once and is gone |
| RenderProperties.StepPreservesCacheConsistency | packages/server-renderer/src/render-context.ts:110-157 | when cached frames own slots 0, 1, … bottom-up and the buffers hold one slot per cached frame, an iteration never meets an impossible commit and keeps that discipline, including caching mode being on exactly while a cached frame is on the stack |
| RenderProperties.CommitKeepsCacheConsistency | packages/server-renderer/src/render-context.ts:134-156 | committing the top cached frame keeps the slot discipline |
| RenderProperties.PopKeepsCacheConsistency | packages/server-renderer/src/render-context.ts:117-133 | every other iteration keeps the slot discipline |
| RenderProperties.NextPreservesCacheConsistency | packages/server-renderer/src/render-context.ts:108-159 | a whole `next()` call keeps the discipline, and when it finishes the writer is out of caching mode with empty buffers |
| RenderProperties.ConcatMergeLast | packages/server-renderer/src/render-context.ts:150 | merging the last slot into the one before keeps the concatenated text |
| RenderProperties.UnionMergeLast | packages/server-renderer/src/render-context.ts:151-152 | merging the last component set into the one before keeps their union |
| RenderProperties.NextOnCommit | packages/server-renderer/src/render-context.ts:134-156 | a commit does not suspend: `next()` records the write and goes on from the popped context |
| RenderProperties.ChainCommitsUnfold | packages/server-renderer/src/render-context.ts:137-153 | the records of a chain of nested cached frames: the innermost slot first, then the chain below with that slot merged into its parent |
| RenderProperties.ChainCommitStep | packages/server-renderer/src/render-context.ts:134-156 | committing the top of a chain of `m` nested cached frames leaves a chain of `m - 1` whose records are the rest |
| RenderProperties.CachedChainCommitsInnermostFirst | packages/server-renderer/src/render-context.ts:134-156 | `m` nested cached components on top commit innermost first within a single `next()` call, each record holding its own slot merged with every deeper one |
| JsString.TrimRemovesOnlySpace | packages/compiler-sfc/src/cssVars.ts:16 | `trim` keeps one window of the input and everything outside it is JavaScript whitespace |
| JsString.TrimHasNoSpaceAtEnds | packages/compiler-sfc/src/cssVars.ts:16 | the trimmed text neither starts nor ends with whitespace |
| JsString.TrimIdempotent | packages/compiler-sfc/src/cssVars.ts:16 | trimming twice is trimming once |
| JsString.ToLowerCase | packages/server-renderer/src/optimizing-compiler/modules.ts:38 | same length, each character lowered, no upper-case letter left |
| CssVars.SanitizeNameReplacesOthers | packages/compiler-sfc/src/cssVars.ts:12 | each character outside `[A-Za-z0-9_-]` becomes `_`, each other character stays in place |
| CssVars.SanitizeNameIsIdempotent | packages/compiler-sfc/src/cssVars.ts:12 | sanitized names hold only name characters, sanitizing twice changes nothing, and a name of name characters is kept |
| CssVars.DevVarNameShape | packages/compiler-sfc/src/cssVars.ts:11-13 | a development name is `id`, `-`, then one name character per character of the expression, the expression's own name characters kept in place |
| CssVars.DevNamesCollideOnlyBySanitizing | packages/compiler-sfc/src/cssVars.ts:11-13 | two expressions get the same development name exactly when they sanitize alike |
| CssVars.NormalizeIsPieceOfInput | packages/compiler-sfc/src/cssVars.ts:15-19 | the normalized expression is a contiguous piece of the written one, starting after the leading whitespace and the opening quote if any; it is the trimmed text less two quotes, or less one for a lone quote |
| CssVars.NormalizeUnquotes | packages/compiler-sfc/src/cssVars.ts:15-19 | an expression wrapped in one kind of quotes is returned without them |
| CssVars.NormalizeKeepsPlainExpression | packages/compiler-sfc/src/cssVars.ts:15-19 | an unquoted expression without surrounding space is returned unchanged |
| CssVars.LexClose | packages/compiler-sfc/src/cssVars.ts:31-57 | a result is the first position where a `)` is read at depth 0 outside quotes; none exactly when no such position exists |
| CssVars.FirstCloseIsLexClose | packages/compiler-sfc/src/cssVars.ts:31-57 | conversely, the first depth-0 unquoted `)` is what the lexer returns |
| CssVars.LexBinding | packages/compiler-sfc/src/cssVars.ts:31-57 | the character loop with its three states returns exactly that position, or null |
| CssVars.QuotedStringIsInert | packages/compiler-sfc/src/cssVars.ts:38-52 | a quoted run leaves depth and state as they were and contains no closing position, whatever parentheses it holds |
| CssVars.SkipSpacesSkipsOnlySpace | packages/compiler-sfc/src/cssVars.ts:23 | the `\s*` of the pattern consumes whitespace only |
| CssVars.FindVBindFindsFirst | packages/compiler-sfc/src/cssVars.ts:23 | the search finds the first `v-bind\s*(` at or after its start |
| CssVars.MatchesDoNotOverlap | packages/compiler-sfc/src/cssVars.ts:23 | no other match starts inside a match |
| CssVars.StripCommentsKeepsCommentFreeText | packages/compiler-sfc/src/cssVars.ts:65 | text without `/*` is unchanged by comment stripping |
| CssVars.StripCommentsRemovesComment | packages/compiler-sfc/src/cssVars.ts:65 | a closed comment is removed with its delimiters and the text before it is kept |
| CssVars.ScanFindsEveryMatch | packages/compiler-sfc/src/cssVars.ts:68-78 | every match whose binding closes contributes its normalized expression |
| CssVars.ScanFindsOnlyMatches | packages/compiler-sfc/src/cssVars.ts:68-78 | every collected expression comes from a match whose binding closes |
| CssVars.AddOne | packages/compiler-sfc/src/cssVars.ts:74-76 | a known expression leaves the list alone, a new one is appended |
| CssVars.AddNewProperties | packages/compiler-sfc/src/cssVars.ts:74-76 | adding keeps the list as a prefix, stays duplicate-free, and holds exactly the old and the added expressions |
| CssVars.DedupKeepsFirstOccurrences | packages/compiler-sfc/src/cssVars.ts:74-76 | the result is duplicate-free, has the same members as the input, and a later repeat adds nothing, so the order is that of first occurrence |
| CssVars.CollectStyle | packages/compiler-sfc/src/cssVars.ts:64-79 | the `while (match = vBindRE.exec(...))` loop over one style adds exactly the scanned bindings |
| CssVars.ParseCssVars | packages/compiler-sfc/src/cssVars.ts:61-82 | the variables are the bindings of all comment-stripped styles in order, duplicate-free, first occurrences kept, and nothing else |
| CssVars.VarEntries | packages/compiler-sfc/src/cssVars.ts:87-89 | one entry per variable, in order, each `"[--]name": (expr)` with `--` exactly when rendering for SSR |
| CssVars.GeneratedObjectDeclaresEveryVar | packages/compiler-sfc/src/cssVars.ts:86-90 | each variable's entry occurs in the generated object at its join offset |
| CssVars.RewriteSkipsUnclosed | packages/compiler-sfc/src/cssVars.ts:133-143 | a match whose binding never closes adds no replacement; its text is copied later with the rest |
| CssVars.AsWrittenNoMatch | packages/compiler-sfc/src/cssVars.ts:145 | as written, with no further match the rest of the value from the copy mark is copied |
| CssVars.AsWrittenSkipsUnclosed | packages/compiler-sfc/src/cssVars.ts:133-143 | as written, a match whose binding never closes adds no piece, and the search goes on after its `(` with the copy mark unchanged |
| CssVars.AsWrittenReplacesClosed | packages/compiler-sfc/src/cssVars.ts:133-143 | as written, a closed binding copies the text since the copy mark and becomes a reference; the copy mark moves past its `)` but the search goes on just after its `(` |
| CssVars.CutValue | packages/compiler-sfc/src/cssVars.ts:127-145 | the loop as written, with `vBindRE.lastIndex` after each `(` and the local `lastIndex` past each replaced `)`, cuts the value into exactly the as-written pieces |
| CssVars.TransformCssValue | packages/compiler-sfc/src/cssVars.ts:127-146 | the result is the value rewritten as written; it is the value itself when the scan finds no closed binding, and it is the corrected rewrite whenever no binding starts inside another |
| CssVars.AsWrittenReplacesWhatScanFinds | packages/compiler-sfc/src/cssVars.ts:68-78 | as written, the bindings `transformCssValue` replaces, normalized, are exactly those the scan of `parseCssVars` collects, in the same order and with the same repeats |
| CssVars.AsWrittenNoBindingsMeansOneCopy | packages/compiler-sfc/src/cssVars.ts:133-145 | as written, replacing nothing means a single copy of the rest of the value |
| CssVars.AsWrittenWithoutBindingsCopies | packages/compiler-sfc/src/cssVars.ts:127-146 | as written, a value in which the scan finds no closed binding comes out unchanged |
| CssVars.AsWrittenVarsAreListed | packages/compiler-sfc/src/cssVars.ts:138-140 | as written, every expression a comment-free style's rewrite refers to is among the collected variables |
| CssVars.AsWrittenVarsAreDeclared | packages/compiler-sfc/src/cssVars.ts:138-140 | as written, every `var(--name)` a comment-free style's rewrite produces is declared by an entry of the generated SSR object |
| CssVars.AsWrittenAgreesWithFix | packages/compiler-sfc/src/cssVars.ts:133-143 | when no match starts inside a closed binding, searching on after the `(` finds the same next match as searching on after the `)`, so both cut the value alike |
| CssVars.AsWrittenIsFixWithoutNesting | packages/compiler-sfc/src/cssVars.ts:127-146 | when no match starts inside a closed binding, the code as written computes the corrected rewrite |
| CssVars.RewriteReplacesClosed | packages/compiler-sfc/src/cssVars.ts:133-143 | in the corrected rewrite, a closed binding copies the text since the last binding, becomes a reference to its normalized expression, and the search resumes after its `)` |
| CssVars.FindVBindNoneRewrite | packages/compiler-sfc/src/cssVars.ts:145 | in the corrected rewrite, with no further match the rest of the value is copied |
| CssVars.CutValueFixed | packages/compiler-sfc/src/cssVars.ts:127-145 | the loop with the search resumed after each replaced `)` cuts the value into exactly the pieces of the corrected rewrite |
| CssVars.TransformCssValueFixed | packages/compiler-sfc/src/cssVars.ts:127-146 | the corrected `transformCssValue` computes the corrected rewrite, and a value with no binding to replace comes back unchanged |
| CssVars.RewriteWithoutBindingsCopies | packages/compiler-sfc/src/cssVars.ts:127-146 | without closed bindings the corrected rewrite is the identity |
| CssVars.RewrittenBindingsAreScanned | packages/compiler-sfc/src/cssVars.ts:68-78 | every binding the corrected rewrite replaces is one that variable collection finds |
| CssVars.RewrittenVarsAreListed | packages/compiler-sfc/src/cssVars.ts:138-140 | every expression a comment-free style's corrected rewrite refers to is among the collected variables |
| CssVars.RewrittenVarsAreDeclared | packages/compiler-sfc/src/cssVars.ts:138-140 | every `var(--name)` the corrected rewrite produces is declared by an entry of the generated SSR object |
| CssVars.ListedVarIsDeclared | packages/compiler-sfc/src/cssVars.ts:86-90 | every listed variable has its entry in the generated object |
| CssVars.NestedBindingRewrittenTwice | packages/compiler-sfc/src/cssVars.ts:133-145 | as written, `v-bind(v-bind(x))` becomes a reference to `v-bind(x)`, then a reference to `x`, then a stray `)` |
| CssVars.NestedBindingRewrittenOnce | packages/compiler-sfc/src/cssVars.ts:133-145 | with the search resumed after the `)`, `v-bind(v-bind(x))` becomes the single reference to `v-bind(x)` |
| SsrModules.LiteralBodyEscapesQuotes | packages/server-renderer/src/optimizing-compiler/modules.ts:14 | inside an accepted literal every occurrence of its own quote is escaped by a `\` |
| SsrModules.ReplaceEdgeQuotesKeepsBody | packages/server-renderer/src/optimizing-compiler/modules.ts:58 | either kind of literal comes out double-quoted around the same body, and a double-quoted one is untouched |
| SsrModules.GenAttrSegment | packages/server-renderer/src/optimizing-compiler/modules.ts:56-75 | only a quoted literal of a non-boolean attribute can fail (where `JSON.parse` throws) |
| SsrModules.LiteralAttrRendersParse | packages/server-renderer/src/optimizing-compiler/modules.ts:57-68 | a non-empty literal of a non-boolean attribute fails exactly when `JSON.parse` rejects the coerced text, and otherwise renders ` m="…"` around the parsed value |
| SsrModules.AttrSegmentKind | packages/server-renderer/src/optimizing-compiler/modules.ts:56-75 | a non-literal value never fails, and the segment is an EXPRESSION exactly when the value is not a quoted literal |
| SsrModules.DynamicValuePassedThrough | packages/server-renderer/src/optimizing-compiler/modules.ts:71-74 | a non-literal value is passed verbatim as the last argument of `_ssrAttr(` … `)` |
| SsrModules.BooleanAttrRendersOwnName | packages/server-renderer/src/optimizing-compiler/modules.ts:64-65 | a boolean attribute with a literal value renders ` m="m"` whatever the value |
| SsrModules.EnumeratedAttrForcedTrue | packages/server-renderer/src/optimizing-compiler/modules.ts:59-61 | an enumerated attribute's literal other than `false` is coerced to `"true"` and rendered as its parse |
| SsrModules.EmptyLiteralRendersBareName | packages/server-renderer/src/optimizing-compiler/modules.ts:66-67 | an empty literal of a plain attribute renders the bare ` m` |
| SsrModules.QuoteStyleIrrelevant | packages/server-renderer/src/optimizing-compiler/modules.ts:57-68 | a body valid in both quote styles renders the same single- or double-quoted |
| SsrModules.AttrSegmentsOnePerAttr | packages/server-renderer/src/optimizing-compiler/modules.ts:29-33 | `a` succeeds exactly when every attribute does, and then gives one segment per attribute, each that attribute's, in order |
| SsrModules.AttrSegmentsFirstFailure | packages/server-renderer/src/optimizing-compiler/modules.ts:29-33 | `a` fails with the first failing attribute's error |
| SsrModules.GenAttrSegments | packages/server-renderer/src/optimizing-compiler/modules.ts:29-33 | the loop computes exactly that list |
| SsrModules.KeptProps | packages/server-renderer/src/optimizing-compiler/modules.ts:35-54 | `b` keeps no more properties than it is given |
| SsrModules.KeptPropsAppend | packages/server-renderer/src/optimizing-compiler/modules.ts:37-52 | the kept properties of a concatenation are those of each part, in order |
| SsrModules.KeptPropsMembers | packages/server-renderer/src/optimizing-compiler/modules.ts:38-50 | an attribute is emitted exactly when some property maps to its name (through `propsToAttrMap`, else lower-cased) with its value, that name is renderable, and no attribute of that name is present |
| SsrModules.FindShadow | packages/server-renderer/src/optimizing-compiler/modules.ts:42-49 | the inner loop skips exactly when an attribute has the name |
| SsrModules.GenDomPropSegments | packages/server-renderer/src/optimizing-compiler/modules.ts:35-54 | the loop yields `a` of exactly the kept, renamed properties |
| SsrModules.GenClassSegments | packages/server-renderer/src/optimizing-compiler/modules.ts:77-81 | only the static form can fail, and only when `JSON.parse` rejects the static class |
| SsrModules.ClassSegmentShape | packages/server-renderer/src/optimizing-compiler/modules.ts:77-81 | one segment, RAW exactly when a static class is present and no dynamic one |
| SsrModules.ClassPlaceholders | packages/server-renderer/src/optimizing-compiler/modules.ts:80 | in the call form an absent static or dynamic class is passed as `null` |
| SsrModules.GenStyleSegments | packages/server-renderer/src/optimizing-compiler/modules.ts:83-94 | always one segment |
| SsrModules.StyleSegmentKind | packages/server-renderer/src/optimizing-compiler/modules.ts:89-93 | the segment is RAW exactly when there is a static style and neither a dynamic style nor `v-show` |
| SsrModules.StyleToggleIffShow | packages/server-renderer/src/optimizing-compiler/modules.ts:92-93 | the `_ssrStyle` call's third argument is a display toggle exactly when `v-show` is given |
| SsrModules.DropValuePropsMembers | packages/server-renderer/src/optimizing-compiler/modules.ts:23 | the filter keeps exactly the properties not named `value` |
| SsrModules.DropValuePropsAppend | packages/server-renderer/src/optimizing-compiler/modules.ts:23 | filtering a concatenation filters each part, so the kept properties stay in their order |
| SsrModules.DropValuePropsKeepsOthers | packages/server-renderer/src/optimizing-compiler/modules.ts:23 | properties none of which is named `value` pass the filter whole |
| SsrModules.ApplyModelDirective | packages/server-renderer/src/optimizing-compiler/modules.ts:16-27 | without a `model` directive the element is untouched; otherwise the first one is handed to the model generator and the textarea fix-up applied |
| SsrModules.TextareaLosesValueProps | packages/server-renderer/src/optimizing-compiler/modules.ts:22-23 | afterwards a textarea with properties has every property the generator left except those named `value` |
| SsrModules.OnlyFirstModelHandled | packages/server-renderer/src/optimizing-compiler/modules.ts:17-25 | only the first `model` directive is handled, so the outcome is unique |

## Left out

- The asynchronous collaborators are not modelled: `renderNode`, `write(text, next)`, `done` and the cache's `set`/`get`/`has` are returned as actions or recorded calls. So are concurrency and re-entrance. Errors thrown by collaborators are not modelled; in the code a throwing `cache.set` escapes `next()` unhandled.
- A commit whose slot lies outside the buffers, or that has no cache, becomes a `Fault` action. The source would read `undefined` or throw there, and `StepPreservesCacheConsistency` shows it cannot happen under the slot discipline.
- The options the constructor only stores are not modelled: `userContext`, `modules`, `directives` and `isUnaryTag`. Neither is the binding of `next`.
- The incremented `rendered` of a frame that is being popped is not modelled, because nothing can observe it.
- Strings are sequences of Unicode scalar values, not UTF-16 code units. Lengths and indices differ from JavaScript for characters outside the basic plane.
- JsString.ToLowerCase: lowers ASCII letters only; JavaScript's full Unicode case mapping is not modelled.
- The production variable name `hash(id + raw)` from `hash-sum` is a function parameter.
- `genCssVarsCode`, `genNormalScriptCssVarsCode` and the PostCSS plugin wiring around `transformCssValue` are not part of this model. Neither is the `prefixIdentifiers` rewrite they use.
- The shared `vBindRE.lastIndex` is modelled as starting at 0 for every scan. `transformCssValue` resets it, and each `parseCssVars` loop runs until `exec` fails, which resets it.
- A `ComponentWithCache` frame's `buffer` and `componentBuffer` array references (render-context.ts:41-43) are not modelled. The commit (render-context.ts:136-155) reads, merges and truncates them. The model assumes that every frame's pair is the same shared pair, held in the `Writer` record. The renderer that pushes the frames sets up those arrays, and it is not part of this model. The slot discipline (`RenderProperties.StepPreservesCacheConsistency` and the lemmas built on it) and `RenderProperties.CachedChainCommitsInnermostFirst` rest on this assumption.
- `JSON.parse` and `JSON.stringify` are abstract functions of the environment. `JSON.parse` returns `None` where it would throw, for example on a single-quoted literal holding a `"`, and the generator then returns `Failure`.
- The attribute tables and `propsToAttrMap` are arbitrary functions. This covers the JavaScript object-lookup quirks of `P[name]`.
- The `v-model` generator `y.directives.model` and its `warn` argument are a function parameter that may rewrite the element.
- The codegen-state and AST types carry only the fields the generators read.
- SsrModules.DynamicValuePassedThrough: states the `_ssrAttr(` prefix and the `value)` suffix, not the JSON text of the name between them, because `JSON.stringify` is abstract.
- SsrModules.EnumeratedAttrForcedTrue: states the rendered text as the environment's parse of `"true"`, not as the literal `true`, because `JSON.parse` is abstract.
- SsrModules.StyleToggleIffShow: identifies the display toggle by its fixed ending ` ? '' : 'none' })` rather than by the whole argument text.
- CssVars.DevVarNameShape: states the shape of a development name, not a concrete name such as `id-v-bind_x_`.
- CssVars.RewriteReplacesClosed: states the corrected resumption after the `)`; the code's resumption after the `(` is stated by CssVars.AsWrittenReplacesClosed.
- CssVars.FindVBindNoneRewrite: is about the corrected rewrite; the code's final copy is stated by CssVars.AsWrittenNoMatch.
- CssVars.CutValueFixed: is the corrected loop; the loop as written is CssVars.CutValue.
- CssVars.TransformCssValueFixed: is the corrected function; the function as written is CssVars.TransformCssValue.
- CssVars.RewriteWithoutBindingsCopies: is about the corrected rewrite; for the code as written see CssVars.AsWrittenWithoutBindingsCopies.
- CssVars.RewrittenBindingsAreScanned: is about the corrected rewrite, which replaces a sub-list of what the scan finds; the code as written replaces exactly what it finds (CssVars.AsWrittenReplacesWhatScanFinds).
- CssVars.RewrittenVarsAreListed: is about the corrected rewrite; for the code as written see CssVars.AsWrittenVarsAreListed.
- CssVars.RewrittenVarsAreDeclared: is about the corrected rewrite; for the code as written see CssVars.AsWrittenVarsAreDeclared.
- CssVars.NestedBindingRewrittenTwice: states the result in terms of the variable references for any id, mode and hash, not as one concrete string.

## Findings

| source | as written | input that shows it | evidently intended | confidence | as-written member | corrected member |
|---|---|---|---|---|---|---|
| packages/compiler-sfc/src/cssVars.ts:133-145 | after replacing a binding, the regular expression searches on from just after `v-bind(`, not after the binding's `)`; so a `v-bind(` inside a replaced binding is found and replaced again, and the text between is copied twice | the value `v-bind(v-bind(x))` in development mode with id `id` gives `var(--id-v-bind_x_)var(--id-x))` | each binding replaced once, searching on after its `)`: `var(--id-v-bind_x_)` | not executed | CssVars.NestedBindingRewrittenTwice | CssVars.NestedBindingRewrittenOnce |

In the as-written form, the second match copies `value.slice(17, 7)`, which
is empty, and the tail copies `value.slice(16)`, which is the outer `)`.
`CssVars.TransformAsWritten`, computed by the loop `CssVars.CutValue` in
`CssVars.TransformCssValue`, models the code as written.
`CssVars.Rewrite` and `CssVars.TransformCssValueFixed` use the corrected
resumption.
`CssVars.AsWrittenIsFixWithoutNesting` proves the two agree on every value
in which no `v-bind(` starts inside a closed binding.

`parseCssVars` resumes its search the same way, just after each `(`. So it
also collects the inner expression of a nested binding. The code as written
replaces that inner binding too: `CssVars.AsWrittenReplacesWhatScanFinds`
shows it replaces exactly what the scan collects. Only under the corrected
rewrite is the inner expression's declaration unused. `parseCssVars` is
modelled as written.
