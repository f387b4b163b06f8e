# domvm-hbs in Dafny

A model of domvm-hbs, a compiler from Handlebars-flavoured HTML templates to
hyperscript render functions for domvm, together with its runtime helpers.

The compiler is `lib/domvm-hbs.js`. `compile(template, {raw: true, pragma})`
works in five steps:

1. It flattens the template: line breaks and tabs are removed, and spaces
   between tags and mustaches are dropped.
2. `parse` hands the template to an HTML tokenizer. The tokenizer's
   callbacks build a tree of tag and text nodes. Text is first cut around
   adjacent `{{…}}` markers.
3. `toJavaScript` and `node2js` turn the first root of that tree into nested
   `options.h(name, {attributes}, [children])` calls. Each text, attribute
   and handlebars expression goes through one of the translators:
   - `block2js` for paths;
   - `injectPartial` for partial calls;
   - `string2js` for text with a directive;
   - `expression2js` for `{{#helper …}}` and `{{/helper}}`;
   - `attrs2js` for attribute values.
4. The result is wrapped in the render-function text.
5. All line breaks are removed, and the source string is returned.

The runtime is `lib/domvm-hbs-runtime.js`. It provides:
- the block helpers `if`, `unless` and `each`;
- `merge`, which copies own properties into a fresh object;
- the helper table that `registerHelper` extends.

The modules follow the program's structure:

| file | module | what it holds |
|---|---|---|
| `js_strings.dfy` | `JsStrings` | The JavaScript string primitives the compiler uses, with their ECMAScript behaviour on strings whose characters all lie in the Basic Multilingual Plane: `indexOf`, `slice`, `substring`, `trim`, `split` on a character, `join`, first-only `replace`, and the literal global regular expressions `/(this).?/` and `/..\//g`. |
| `regex_split.dfy` | `RegexSplit` | `split` with the three capturing regular expressions the compiler uses. Captured text becomes an array element of its own. |
| `segmenter.dfy` | `Segmenter` | The text cutting in `ontext`. It includes the in-place write `text[index+1] = ""` that the running `map` observes. |
| `tree.dfy` | `Tree` | The `parse` handlers: a functional specification over an arena of nodes, the class `TreeBuilder` whose methods update it in place, and the method `Parse`. |
| `translate.dfy` | `Translate` | `block2js`, `injectPartial`, `string2js`, `expression2js`, `attrs2js`, `isHandlebarExpression` and `isHandlebarBlock`. |
| `codegen.dfy` | `Codegen` | `toJavaScript`, `node2js` and `text2js`, with the class `Generator`, whose arrays are overwritten in place as the source overwrites `node.children` and `node.attributes`. Also `compile` itself. |
| `runtime.dfy` | `Runtime` | The runtime helpers and the helper table. |

JavaScript semantics are written out where the code depends on them:
- `s[0]` of the empty string is `undefined`;
- `slice` takes negative indices;
- `replace` with a string pattern replaces the first occurrence only;
- `split` keeps capture groups;
- a missing array element used as a property key is the key `"undefined"`.

The only error the compiler can raise is the missing-partial error of
`injectPartial`. Compiling a template with no root element fails, because
`parse(template)[0]` is `undefined`; this is modelled as `NoRootNode`. Both
are values of `Translate.Result`.

Where the code and its documentation disagree, the model follows the code.
This includes the two path bugs listed under "## Findings": `block2js` and
its callers (`injectPartial`, the argument translation and `expression2js`)
translate paths as written. They take a flag `corrected`, false by default,
that selects the corrected path translation instead; the corrected
properties are stated with the flag set. As another example, `attrs2js` keeps the empty string literals that the split leaves
around each mustache: `btn {{x}}` becomes `'btn '+''+context['x']+''`, not
`'btn '+context['x']` (`Translate.MustacheAttribute`).

## Model

| member | source | states |
|---|---|---|
| JsStrings.IndexOf | lib/domvm-hbs.js:182-183 | `indexOf` returns -1 exactly when the pattern occurs nowhere. Otherwise it returns the first index where the pattern occurs. |
| JsStrings.Slice | lib/domvm-hbs.js:184-185 | `slice` never returns more than the string. It returns `s[a..b]` for in-range arguments. A negative start or end counts from the end of the string. When the end position is not after the start position, the result is empty. |
| JsStrings.Substring | lib/domvm-hbs.js:259 | `substring` clamps its arguments. A negative start reads from 0. |
| JsStrings.TrimStart | lib/domvm-hbs.js:164 | `trim` removes exactly the leading whitespace: the result is a suffix that does not start with whitespace, and everything removed is whitespace. |
| JsStrings.SplitJoin | lib/domvm-hbs.js:141 | Splitting on a character and joining on it again gives the string back. |
| JsStrings.ReplaceFirst | lib/domvm-hbs.js:166 | `replace` with a string pattern changes only the first occurrence. A string without the pattern is returned unchanged. |
| JsStrings.ReplaceAllRemoves | lib/domvm-hbs.js:130-131 | Replacing every occurrence of a character by nothing leaves none of it. |
| JsStrings.EscapeRoundTrip | lib/domvm-hbs.js:72 | Escaping single quotes loses nothing: unescaping gives the original text back. |
| JsStrings.EscapedQuotesPreceded | lib/domvm-hbs.js:72 | After escaping, every single quote has a backslash before it. |
| JsStrings.RemoveFirstThis | lib/domvm-hbs.js:179 | `/(this).?/` leaves text without `this` unchanged. Otherwise it removes the first `this`, which is at the position `indexOf` finds. It also removes the character after it, unless the string ends there or that character is a line terminator. Nothing else is removed. |
| JsStrings.ReplaceParentsStep | lib/domvm-hbs.js:179 | `/..\//g` turns any two characters before a `/` into `parent.`, not only `../`. |
| RegexSplit.SplitRebuild | lib/domvm-hbs.js:46 | A capturing split loses nothing: re-enclosing each capture and concatenating the pieces gives the string back. |
| RegexSplit.SplitNoMatch | lib/domvm-hbs.js:44-64 | Where the expression matches nowhere, the split is the whole string. |
| RegexSplit.BraceCaptures | lib/domvm-hbs.js:46 | Every capture of the brace-group split is `{x}`, where `x` is non-empty and holds no brace. |
| RegexSplit.QuotedSplitHasPiece | lib/domvm-hbs.js:140-141 | A non-empty partial token always leaves a non-empty first piece, so `parameters[0]` exists. |
| RegexSplit.MustacheSplit | lib/domvm-hbs.js:297 | `t{{k}}` splits into `t`, the captured `{{k`, and an empty rest. |
| Segmenter.MappedAt | lib/domvm-hbs.js:47-59 | Slot `k` of the mapped array is the callback applied to what the slot held when the map reached it. |
| Segmenter.LoneOpenBraceDropped | lib/domvm-hbs.js:49 | A lone `{` fragment is dropped. |
| Segmenter.GroupRewrapped | lib/domvm-hbs.js:51-53 | A `{x}` fragment not followed by a lone `}` becomes `{{x}}`. |
| Segmenter.GroupTripled | lib/domvm-hbs.js:54-57 | A `{x}` fragment followed by a lone `}` becomes `{{{x}}}`, and that `}` fragment is erased. |
| Segmenter.CaptureRestored | lib/domvm-hbs.js:44-59 | Every captured group comes back as the directive it was cut from, with double braces or with triple braces. |
| Segmenter.NotBothKeepsAll | lib/domvm-hbs.js:60-62 | The filter `item != "{" \|\| item != "}"` keeps every element. |
| Segmenter.Segments | lib/domvm-hbs.js:44-67 | No fragment a text event produces is empty. |
| Segmenter.PlainTextOneSegment | lib/domvm-hbs.js:63-67 | Non-empty text without adjacent markers stays a single fragment. |
| Segmenter.MapInPlace | lib/domvm-hbs.js:47-59 | The loop over the array being mapped, which blanks the slot after a brace group, computes the `map` specification. |
| Segmenter.SegmentText | lib/domvm-hbs.js:44-67 | The segmenter as the source runs it (split, in-place map, both filters) computes `Segments`. |
| Tree.Open | lib/domvm-hbs.js:26-41 | An open-tag event keeps the tree well formed and makes the new tag current. |
| Tree.AttachedLast | lib/domvm-hbs.js:35-39 | A new node is appended to the open element's children, or to `tree` when no element is open. No other node changes. |
| Tree.AddTexts | lib/domvm-hbs.js:69-79 | Text nodes keep the tree well formed and leave the open element open. There is one new node per fragment. Their indices are appended in order to the open element's children, or to `tree` when nothing is open. No earlier node changes in any other way. |
| Tree.TextNodes | lib/domvm-hbs.js:69-73 | Fragment `k` becomes node `k` of the text event, with its single quotes escaped, in order. |
| Tree.Close | lib/domvm-hbs.js:81-83 | A close tag changes no node. The new open element is the parent of the closed one: it lists the closed one among its children, or the closed one was top level and nothing is open. |
| Tree.OpenThenClose | lib/domvm-hbs.js:81-83 | Closing what was just opened restores the previous open element, whatever the close tag's name. |
| Tree.StrayCloseIgnored | lib/domvm-hbs.js:82 | A close tag with nothing open changes nothing. |
| Tree.StepKeepsNodes | lib/domvm-hbs.js:26-83 | No callback replaces a node. A tag keeps its name, attributes and parent, and its children list only grows at the end. |
| Tree.BuildKeepsSettled | lib/domvm-hbs.js:20-96 | Once nothing before node `n` can change, later callbacks leave those nodes and the top-level list as they are. |
| Tree.Build | lib/domvm-hbs.js:20-96 | Any sequence of callbacks builds a well-formed tree: children come after their parent, parent links agree with children lists, and the open element is a tag. |
| Tree.TreeBuilder.OnOpenTag | lib/domvm-hbs.js:26-41 | The in-place handler, which pushes onto `children` or `tree` and moves `current`, computes `Open`. |
| Tree.TreeBuilder.OnText | lib/domvm-hbs.js:42-80 | The in-place handler computes the text nodes of `Segments`. |
| Tree.TreeBuilder.OnCloseTag | lib/domvm-hbs.js:81-83 | The in-place handler computes `Close`. |
| Tree.Parse | lib/domvm-hbs.js:20-96 | `parse` returns what the callbacks build. |
| Translate.Block2JsSpecial | lib/domvm-hbs.js:176-177 | `this` becomes `context`. A token starting with `@` becomes `options['<token>']`. |
| Translate.Block2Js | lib/domvm-hbs.js:175-198 | `block2js` throws only for a partial token (one starting with `>`), and only the missing-partial error. |
| Translate.InjectPartial | lib/domvm-hbs.js:138-169 | A partial that is unregistered, or has an empty source, is the missing-partial error naming it. Any other error is also a missing-partial error. On success the code starts with the registered source. |
| Translate.String2Js | lib/domvm-hbs.js:205-214 | Text that lacks `{{` or `}}` is quoted as it is. Only the missing-partial error can come out. |
| Translate.ArgumentJs | lib/domvm-hbs.js:265-283 | A helper argument's translation fails only with the missing-partial error. |
| Translate.Expression2Js | lib/domvm-hbs.js:242-289 | Any input containing `{{/` becomes `]})` and never fails. Any other input becomes a `Runtime.` call that ends with the callback opening. Only the missing-partial error can come out. |
| Translate.PlainKeyLookup | lib/domvm-hbs.js:179-197 | A plain key `k` becomes `''+context['k']`. |
| Translate.ParentPathAsWritten | lib/domvm-hbs.js:182-197 | As written, a path that starts with `parent` once rewritten, and that holds a dot, is emitted after `''+` with no context lookup. When the token has a single-dot run, everything from the first dot is dropped. A `../` token is emitted whole. |
| Translate.ParentPathKept | lib/domvm-hbs.js:182-197 | Corrected (see Findings): a path that starts with `parent` once rewritten is emitted whole after `''+`, with no context lookup. |
| Translate.RawHtmlBranch | lib/domvm-hbs.js:189-195 | A key `{k` loses its `{` and is rendered as `options.undefined('div',{'innerHTML':''+context['k']}, [])`: the shadowing suffix string has no `pragma`. |
| Translate.CutThisKey | lib/domvm-hbs.js:179-186 | For `this.k`, the corrected cut leaves `k` whole. As written, the cut falls at index -1. |
| Translate.ThisDotAsWritten | lib/domvm-hbs.js:182-186 | As written, `this.name` becomes `''+context['nam']e`. |
| Translate.ThisPrefixDropped | lib/domvm-hbs.js:179-197 | Corrected, `this.k` translates exactly as `k`. |
| Translate.ParentSuffixAsWritten | lib/domvm-hbs.js:182-186 | As written, `parent.k` is emitted as `''+parent`: the suffix is cut off and dropped. |
| Translate.ParentSuffixKept | lib/domvm-hbs.js:197 | Corrected, `parent.k` is emitted whole. |
| Translate.CutParent | lib/domvm-hbs.js:182-186 | As written, a `parent` path with a dot is cut at its first dot when the token has a single-dot run. Otherwise (a `../` token) it is not cut. The cut loses nothing, and the key still starts with `parent`. |
| Translate.MissingPartialThrows | lib/domvm-hbs.js:142-145 | A partial that is unregistered, or whose source is empty (falsy), is a `MissingPartial` error naming it. |
| Translate.MissingMessageNames | lib/domvm-hbs.js:145 | The error message names the partial. |
| Translate.InjectPartialFound | lib/domvm-hbs.js:138-168 | A partial translates only when it is registered with a non-empty source. The code then starts with that source applied to `Runtime.merge(`. |
| Translate.PartialFound | lib/domvm-hbs.js:178 | The same holds for a `>` token handed to `block2js`. |
| Translate.PartialCallPrefix | lib/domvm-hbs.js:168 | Every partial call starts with the source followed by `(Runtime.merge(`. |
| Translate.PartialCallNoPieces | lib/domvm-hbs.js:168 | Without hash parameters, the call merges the given context, or `context` when none is given. |
| Translate.SimplePartial | lib/domvm-hbs.js:138-168 | `{{> name}}` becomes `source(Runtime.merge(context))`. |
| Translate.PartialWithContext | lib/domvm-hbs.js:148-159 | `{{> name ctx}}` merges the translation of `ctx`, with its leading `''+` dropped. An error in `ctx` is the error of the whole partial. |
| Translate.PartialWords | lib/domvm-hbs.js:140-141 | The name and the context are the words after `>`. |
| Translate.String2JsPlain | lib/domvm-hbs.js:209-213 | Text without both `{{` and `}}` is quoted as it is. |
| Translate.String2JsDirective | lib/domvm-hbs.js:205-212 | `t{{k}}rest` becomes `'t'+` followed by the translation of `k`, or that translation alone when `t` is empty. Whatever follows the first `}}` is dropped, and an error in `k` propagates. |
| Translate.ClosingBlock | lib/domvm-hbs.js:243-245 | Any input containing `{{/` becomes exactly `]})`. |
| Translate.OpeningBlock | lib/domvm-hbs.js:248-288 | `{{#h p}}` becomes `Runtime.h(context, { value: ` followed by the argument's translation and the callback opening. An error in the argument is the error of the block. |
| Translate.OpeningParts | lib/domvm-hbs.js:253-264 | The helper name is the text from index 3 to the first space. For one word, the argument list is that word. |
| Translate.PositionalArgument | lib/domvm-hbs.js:276-282 | An argument without `=` is translated as a path, with its leading `''+` dropped. |
| Translate.WordArgument | lib/domvm-hbs.js:276-282 | The same holds for an argument after the helper name's space. |
| Translate.SanitiseParentBlock | lib/domvm-hbs.js:248-250 | `{{#h ../k}}` is rewritten to `{{#h parent.k}}`. |
| Translate.ParentBlockArgument | lib/domvm-hbs.js:242-288 | Corrected, `{{#each ../items}}` passes `parent.items` as the value. |
| Translate.ParentBlockArgumentAsWritten | lib/domvm-hbs.js:242-288 | As written, `{{#each ../items}}` passes `parent` itself as the value. |
| Translate.MapResults | lib/domvm-hbs.js:299-301 | A `map` whose callback may throw yields one result per element, in order, each the callback's value for that element. It fails exactly when the callback fails on some element. |
| Translate.ArgumentsJs | lib/domvm-hbs.js:265-283 | The arguments are translated one by one, in order. The result is an error exactly when one argument's translation is. |
| Translate.SegmentsJs | lib/domvm-hbs.js:298-300 | The attribute segments are translated one by one, in order. The result is an error exactly when one segment's translation is. |
| Translate.Attrs2Js | lib/domvm-hbs.js:296-303 | An attribute value's translation fails only with the missing-partial error. |
| Translate.LiteralSegment | lib/domvm-hbs.js:299 | A segment without `{` is a quoted literal. |
| Translate.LiteralAttribute | lib/domvm-hbs.js:295-302 | An attribute value without mustaches or brackets becomes one quoted literal, with its single quotes escaped. |
| Translate.MustacheAttribute | lib/domvm-hbs.js:295-302 | `t{{k}}` becomes `'t'+''+context['k']+''`: the literal, the lookup, and the empty literals the split leaves. |
| Translate.DropPlusNoBracket | lib/domvm-hbs.js:302 | The `+'…]` clean-up leaves text without `]` unchanged. |
| Translate.DropPlusFires | lib/domvm-hbs.js:302 | A `+`, any run of single quotes and a `]` become the `]` alone, and the scan goes on after it. |
| Translate.DropPlusDeletes | lib/domvm-hbs.js:302 | The `+'…]` clean-up deletes only `+` and single quotes: every other character occurs as often as in the input. |
| Translate.TidyPlain | lib/domvm-hbs.js:302 | All three clean-ups leave text without brackets unchanged. |
| Codegen.AttributesJs | lib/domvm-hbs.js:335-341 | Each attribute is translated in order, as `string2js(name):attrs2js(value)`. The result is an error exactly when one attribute's translation is. |
| Codegen.NodeCode | lib/domvm-hbs.js:327-356 | A node's code fails only with the missing-partial error. A tag's code is a call `options.<pragma>(`. |
| Codegen.ChildCodesEach | lib/domvm-hbs.js:328-330 | Each child is translated in order. The result is an error exactly when one child's code is. |
| Codegen.Generator.ToJavaScript | lib/domvm-hbs.js:327-356 | The recursive in-place translation returns the node's code. On success it leaves the children text and the attribute object text of node `i` in its arrays, and leaves earlier nodes' slots alone. |
| Codegen.Generator.ChildrenToJavaScript | lib/domvm-hbs.js:328-330 | The loop over the children returns their codes in order. |
| Codegen.Compile | lib/domvm-hbs.js:118-377 | The imperative `compile` with `raw` set returns what `CompileSpec` defines. |
| Codegen.CompileSpec | lib/domvm-hbs.js:118-377 | With no root node, compiling fails with `NoRootNode`. A compiled result holds no line break and starts with the fixed prologue. |
| Codegen.PragmaEmitted | lib/domvm-hbs.js:118-377 | When the first root is a tag, the result continues after the prologue with a call of the pragma option, or of `h` when none is given. |
| Codegen.CompiledShape | lib/domvm-hbs.js:362-369 | A compiled result is the fixed prologue, the root's code with line breaks removed, and the fixed epilogue. It holds no line break. |
| Codegen.NoLineBreaks | lib/domvm-hbs.js:369 | Line-break removal leaves no `\n` and no `\r`. |
| Codegen.LineBreakFree | lib/domvm-hbs.js:369 | It removes nothing else. |
| Codegen.RemoveLineBreaksConcat | lib/domvm-hbs.js:369 | It works piece by piece. |
| Codegen.PreprocessedFlat | lib/domvm-hbs.js:127-131 | The template handed to the tokenizer holds no newline and no tab. |
| Codegen.FirstRootOnly | lib/domvm-hbs.js:359-365 | Only the first root is compiled. Once it is complete and nothing is open, no later callback changes the generated code. |
| Codegen.NodeCodePrefix | lib/domvm-hbs.js:327-356 | Node `i`'s code is unchanged when the nodes after its subtree are dropped. |
| Codegen.LeafTag | lib/domvm-hbs.js:221-226 | A tag with no attributes and no children becomes `options.<pragma>(<name>,{},[])`. |
| Runtime.If | lib/domvm-hbs-runtime.js:34-39 | `if` renders exactly when the value is truthy. It calls back with the value as scope when the value is a plain object, otherwise with the context. |
| Runtime.Unless | lib/domvm-hbs-runtime.js:40-45 | `unless` renders exactly when the value is falsy. |
| Runtime.UnlessKeepsContext | lib/domvm-hbs-runtime.js:40-45 | `unless` renders in the enclosing context, because a falsy value is never a plain object. |
| Runtime.Each | lib/domvm-hbs-runtime.js:46-54 | `each` fails exactly when the value is not an array. Otherwise item `i` of the result is the callback on item `i`, with the context and the options for `i` of `n`, in order and with the same length. |
| Runtime.OptionsAt | lib/domvm-hbs-runtime.js:48-51 | `@index` is `i`. `@first` holds exactly when `i` is 0, and `@last` exactly when `i` is `n-1`. |
| Runtime.EachPrefix | lib/domvm-hbs-runtime.js:46-54 | Items before the end of a longer array are rendered with `@last` false. |
| Runtime.IndexEntriesHas | lib/domvm-hbs-runtime.js:64-65 | Every index of an array or a string is an enumerated key, written in decimal, and holds the element at that index. |
| Runtime.IndexEntriesOnly | lib/domvm-hbs-runtime.js:64-65 | No key other than such a decimal index is enumerated. |
| Runtime.DecimalInjective | lib/domvm-hbs-runtime.js:64 | Different indices give different keys. |
| Runtime.Merge | lib/domvm-hbs-runtime.js:58-71 | The nested loops build the object `Merged` defines. With no arguments they return an empty object. |
| Runtime.MergedKeys | lib/domvm-hbs-runtime.js:63-69 | A key is in the result exactly when some argument owns it. |
| Runtime.MergedLastOwner | lib/domvm-hbs-runtime.js:63-69 | Each key takes its value from the last argument that owns it. |
| Runtime.MergeCopies | lib/domvm-hbs-runtime.js:58-71 | `merge(context)` copies an object. |
| Runtime.MergedArray | lib/domvm-hbs-runtime.js:64-66 | An array merges in under its decimal indices. |
| Runtime.WithHelper | lib/domvm-hbs-runtime.js:28-30 | Registering sets the name to the handler and leaves every other entry unchanged. |
| Runtime.HelperTable.RegisterHelper | lib/domvm-hbs-runtime.js:28-30 | The table becomes `WithHelper` of the old table. The built-in helpers stay registered. |
| Runtime.HelperTable.constructor | lib/domvm-hbs-runtime.js:33-72 | The table starts with `if`, `unless`, `each` and `merge`. |

## Left out

- The HTML tokenizer (htmlparser2, with entity decoding) and `setup`, which installs it. Both are a foreign library. The tokenizer is the parameter `tokenize` of `Parse` and `Compile`: a function from the template to the callbacks it makes.
- `eval` of the generated text when `raw` is not set. Only the source string that `raw` returns is modelled.
- The `console.log` debug output. It is I/O.
- `partial.toString()`: partials are registered as the text of their compiled source, in `Partials`, a `map<string, string>`.
- The partial registry holds only its own string entries. In the source it is a plain object, so a name inherited from `Object.prototype` (`constructor`, `toString`, `valueOf`, `hasOwnProperty`, `__proto__`) finds a truthy function and does not throw; the model reports such a name as a missing partial (`Translate.InjectPartial`, `Translate.MissingPartialThrows`).
- `options.debug` only gates the `console.log` debug output, which is left out; `options.cache` is never read.
- `compile` writes the defaulted `debug`, `raw`, `cache` and `pragma` back into the caller's options object. The model takes the pragma option by value and does not model this write-back.
- The module wrapping: the IIFE, the `prototype` objects and the loader. It is plumbing with no logic.
- `Object.keys` order for integer-like attribute names. JavaScript lists those first. The model keeps attributes in the order the tokenizer reports them.
- Error paths do not model the state of the node objects. `toJavaScript` overwrites `node.children` and `node.attributes` before a throw; the model returns only the error.
- Strings are sequences of Unicode scalar values, not of UTF-16 code units. For characters outside the Basic Multilingual Plane, a JavaScript string has two code units where the model has one character. So `slice` with negative indices, `indexOf` positions, the `.` of `/(this).?/` and `/..\//g` (`JsStrings.RemoveFirstThis`, `JsStrings.ReplaceParents`, and through them `Translate.Block2Js` and `Translate.Expression2Js`), and the index keys a string contributes to `merge` (`Runtime.IndexEntries`) all count differently there. For example, `/(this).?/` on `this😀x` leaves `\uDE00x` in JavaScript but `x` in the model.
- Numbers in the runtime are reals: NaN and other floating-point behaviour are not modelled. Only plain objects (`Obj`) count as `[object Object]`; inherited properties and other object kinds are not modelled.
- Runtime.Merge: arguments are immutable values in the model, so "`merge` never mutates its arguments" follows from the method having no `modifies` clause, not from reasoning about aliasing.
- Translate.ThisPrefixDropped: holds only for the corrected path translation (`corrected` set). As written, `this.k` loses a character (see Findings).
- Translate.ParentSuffixKept: holds only for the corrected path translation. As written, `parent.k` becomes `''+parent`.
- Translate.ParentPathKept: holds only for the corrected path translation. The as-written behaviour is `ParentPathAsWritten`.
- Translate.ParentBlockArgument: holds only for the corrected path translation. The as-written behaviour is `ParentBlockArgumentAsWritten`.
- Runtime.Unless: its own contract states only when it renders. The scope it renders in is stated by `UnlessKeepsContext`.
- Calling a helper that is not in the table, which throws a `TypeError` in the generated code. The generated code is never run.
- The validity of the generated text as JavaScript is not modelled.

## Findings

| source | as written | input that shows it | evidently intended | confidence | as-written member | corrected member |
|---|---|---|---|---|---|---|
| lib/domvm-hbs.js:182-186 | The cut into key and suffix is decided on the original token, but made on the sanitised one. After `/(this).?/` has removed `this.` there is no dot left, so `indexOf('.')` is -1 and `slice(-1)` cuts off the last character. | `{{this.name}}` gives `''+context['nam']e` | `''+context['name']`, the same as `{{name}}` | not executed | Translate.ThisDotAsWritten | Translate.ThisPrefixDropped |
| lib/domvm-hbs.js:182-197 | A `parent` path is cut at its first dot, and then only the key is emitted, so the property suffix is lost. | `{{#each ../items}}` passes `parent` as the value | the value `parent.items`, the parent scope's `items` | not executed | Translate.ParentBlockArgumentAsWritten | Translate.ParentBlockArgument |
