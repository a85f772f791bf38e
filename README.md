# babel-minify: name mangling, sibling-variable merging and console removal

This project models three plugins of babel-minify in Dafny and proves
properties of the models.

- **minify-mangle-names** gives short names to the bindings of every scope.
  - A `Charset` maps ordinals to identifiers in bijective base 54: `a`–`z`, `A`–`Z`, `$`, `_`, least significant digit first. For a long source it first reorders its alphabet by character frequency.
  - A `Mangler` walks the scopes once each. In every scope it decides which names may be mangled, draws the first free candidate from a counter shared by the scope, and renames.
  - `rename` updates the binding table, the declaration, the constant violations and the references.
  - Files: `charset.dfy` (module `Charsets`), `scope_graph.dfy` (module `ScopeGraph`: the scope graph and `rename` as the function `Renamed`), `mangler.dfy` (module `Mangling`: which names change and to what, as functions of the program the loop starts from), `mangle_plugin.dfy` (module `ManglePlugin`: the `Mangler` class and the `rename` loops, each method proved against those functions).
- **transform-merge-sibling-variables** (`merge_siblings.dfy`, module `MergeSiblings`) has three rewrites:
  - it merges adjacent declarations of one kind;
  - it folds a `var` declaration into the `var` initializer of the `for` loop that follows it;
  - it lifts a single declarator at the head of a loop body into the loop's initializer.
  The statement list and the `for` node are classes whose fields the visitors update. Each update is specified by a function on values.
- **transform-remove-console** (`remove_console.dfy`, module `RemoveConsole`):
  - the two shape tests and the decision of each visitor;
  - a path object on which the visitors act;
  - the traversal of a whole tree as the function `Strip`, proved to leave no console call and to leave code without console calls unchanged.

`wrappers.dfy` holds `Option` and `Result`.

The Babel scope graph is index-based.
- Scopes carry a parent id, a binding table, the `hasEval` flag and the names for which `hasGlobal` and `hasReference` answer true.
- A binding table is an insertion-ordered map from names to binding ids, because `Object.keys` enumerates in insertion order.
- Binding records hold the declaration node, the constant violations, the reference paths and the `renamed` flag.
- Identifier nodes are positions in a sequence of names.

## Model

| member | source | states |
|---|---|---|
| Charsets.CharsetSpelledOut | packages/babel-plugin-minify-mangle-names/src/index.js:250-251 | the default alphabet is `a`–`z`, then `A`–`Z`, then `$` and `_` |
| Charsets.CharsetAlphabet | packages/babel-plugin-minify-mangle-names/src/index.js:250-251 | the default alphabet has 54 distinct symbols, each at its own index |
| Charsets.Charset.constructor | packages/babel-plugin-minify-mangle-names/src/index.js:254-260 | a new charset has the default alphabet, a counter of 0 for each of its symbols, and is not finalized |
| Charsets.Charset.Consider | packages/babel-plugin-minify-mangle-names/src/index.js:262-272 | with the optimisation off nothing changes; otherwise the counters become those after counting `str`; alphabet and flag unchanged; the alphabet invariant is kept |
| Charsets.CountedOccurrences | packages/babel-plugin-minify-mangle-names/src/index.js:267-271 | counting adds to each existing counter the number of occurrences of its character and creates no counter for other characters |
| Charsets.CountedAppend | packages/babel-plugin-minify-mangle-names/src/index.js:262-272 | considering `a` and then `b` counts the same as considering `a + b` |
| Charsets.Charset.Sort | packages/babel-plugin-minify-mangle-names/src/index.js:274-282 | `sort` sets `finalized`; with the optimisation on the alphabet becomes the stable sort by decreasing frequency, otherwise it is unchanged; the counters are unchanged and the alphabet stays a permutation of the 54 symbols |
| Charsets.SortByFrequency | packages/babel-plugin-minify-mangle-names/src/index.js:276-278 | the sorted alphabet is a permutation of the input, in non-increasing frequency order |
| Charsets.PermutationDistinct | packages/babel-plugin-minify-mangle-names/src/index.js:276-278 | a permutation of 54 distinct symbols is again 54 distinct symbols, so sorting leaves a usable alphabet |
| Charsets.Charset.CharsAlphabet | packages/babel-plugin-minify-mangle-names/src/index.js:253-282 | the charset's current alphabet is always 54 distinct symbols |
| Charsets.Charset.GetIdentifier | packages/babel-plugin-minify-mangle-names/src/index.js:284-297 | before `sort` the call fails with "Should sort first"; afterwards the do-while loop returns the identifier of ordinal `num` |
| Charsets.IdentDigit | packages/babel-plugin-minify-mangle-names/src/index.js:291-295 | one pass of the do-while loop emits digit `n % 54`, then continues with `n / 54 - 1` while that is non-negative |
| Charsets.IdentSingle | packages/babel-plugin-minify-mangle-names/src/index.js:289-296 | ordinals below 54 are the single symbols in alphabet order |
| Charsets.IdentExamples | packages/babel-plugin-minify-mangle-names/src/index.js:289-296 | with the default alphabet 0 is `a`, 53 is `_`, 54 is `aa` and 55 is `ba` |
| Charsets.IdentOver | packages/babel-plugin-minify-mangle-names/src/index.js:289-296 | every identifier is a non-empty string over the alphabet |
| Charsets.ValueOfIdent | packages/babel-plugin-minify-mangle-names/src/index.js:289-296 | reading an identifier back as a bijective base-54 number gives its ordinal |
| Charsets.IdentOfValue | packages/babel-plugin-minify-mangle-names/src/index.js:289-296 | every non-empty string over the alphabet is the identifier of its value, so the numbering is onto |
| Charsets.IdentInjective | packages/babel-plugin-minify-mangle-names/src/index.js:289-296 | distinct ordinals give distinct identifiers |
| Charsets.IdentLengthMonotone | packages/babel-plugin-minify-mangle-names/src/index.js:289-296 | identifier length never decreases as the ordinal grows |
| ScopeGraph.Put | packages/babel-plugin-minify-mangle-names/src/index.js:187 | `bindings[newName] = binding` maps the new name to the binding and leaves every other key as it was; a new key is enumerated last |
| ScopeGraph.Delete | packages/babel-plugin-minify-mangle-names/src/index.js:188 | `delete bindings[oldName]` removes that key only |
| ScopeGraph.AllBindingsLookup | packages/babel-plugin-minify-mangle-names/src/index.js:122-127 | the `getAllBindings()` snapshot binds each name to the binding `getBinding` resolves from the scope |
| ScopeGraph.Renamed | packages/babel-plugin-minify-mangle-names/src/index.js:180-188 | `rename` leaves every other scope as it was and keeps the program well formed; the scope's table gets the new key for the binding, then loses the old key |
| ScopeGraph.RenamedIdentifiers | packages/babel-plugin-minify-mangle-names/src/index.js:180-228 | after `rename` an identifier node has the new name exactly when it is one of these; every other node keeps its name: the declaration; a node bound by a non-labeled constant violation; a non-label identifier reference; a referenced identifier of that scope named `oldName` inside another reference |
| ScopeGraph.SetNamesAt | packages/babel-plugin-minify-mangle-names/src/index.js:195-200 | the nodes of one violation get the new name; other nodes are unchanged |
| ScopeGraph.RenameViolationsAt | packages/babel-plugin-minify-mangle-names/src/index.js:190-201 | the violation loop renames exactly the nodes of the non-labeled violations |
| ScopeGraph.RenameNestedAt | packages/babel-plugin-minify-mangle-names/src/index.js:217-223 | inside a non-identifier reference only identifiers named `oldName` and belonging to the scope are renamed |
| ScopeGraph.RenameReferencesAt | packages/babel-plugin-minify-mangle-names/src/index.js:203-227 | the reference loop renames exactly the non-label identifier references and the matching nested identifiers |
| ScopeGraph.LabelReferencesKeepName | packages/babel-plugin-minify-mangle-names/src/index.js:312-317 | `isLabelIdentifier` holds for the label child of a labeled, `break` or `continue` statement only; such a reference keeps its name, and any other identifier reference is renamed |
| ScopeGraph.AncestorsClosed | packages/babel-plugin-minify-mangle-names/src/index.js:52-54 | the parent chain from a scope holds that scope and the program scope and is closed under taking the parent |
| ManglePlugin.Mangler.constructor | packages/babel-plugin-minify-mangle-names/src/index.js:13-32 | a mangler holds the charset, the program and the options, with empty unsafe and visited scope sets |
| ManglePlugin.Mangler.MarkUnsafeScopes | packages/babel-plugin-minify-mangle-names/src/index.js:50-55 | the scope and every ancestor up to the program scope are added to `unsafeScopes`; nothing else changes |
| Mangling.BlacklistKept | packages/babel-plugin-minify-mangle-names/src/index.js:46-48 | a name that `isBlacklist` accepts is kept, whatever else holds of it |
| Mangling.FunctionClassKept | packages/babel-plugin-minify-mangle-names/src/index.js:300-310 | `keepFnName` keeps function declarations and function expressions, and `keepClassName` keeps classes; `isFunction` and `isClass` hold for no other kind |
| Mangling.KeptReasons | packages/babel-plugin-minify-mangle-names/src/index.js:130-149 | a name is kept if and only if one of the eight listed reasons holds: renamed, `arguments`, top-level without `topLevel`, not an own binding, a label, blacklisted, a function under `keepFnName`, a class under `keepClassName` |
| Mangling.StaticallyKeptAgree | packages/babel-plugin-minify-mangle-names/src/index.js:128-149 | whether a name is kept for a reason other than `renamed`, and whether it is top-level, does not change while other names are renamed |
| ManglePlugin.Mangler.Collect | packages/babel-plugin-minify-mangle-names/src/index.js:57-82 | with the optimisation on, the counters become those after counting every collected text in order; otherwise nothing changes |
| Mangling.FirstFree | packages/babel-plugin-minify-mangle-names/src/index.js:152-159 | the candidate loop stops at an ordinal at or after the counter whose identifier is not rejected, and always stops |
| Mangling.FirstFreeIsFirst | packages/babel-plugin-minify-mangle-names/src/index.js:152-159 | every ordinal the candidate loop passes over is rejected |
| ManglePlugin.Mangler.NextCandidate | packages/babel-plugin-minify-mangle-names/src/index.js:151-159 | the do-while loop returns the identifier of the first free ordinal and leaves the counter one past it |
| Mangling.PlanNamesSnoc | packages/babel-plugin-minify-mangle-names/src/index.js:125-170 | each name of the snapshot adds at most one rename, keeps the earlier ones, never lowers the counter, and renames only that name |
| Mangling.PlanNamesStays | packages/babel-plugin-minify-mangle-names/src/index.js:130-149 | a kept name changes neither the renames nor the counter |
| Mangling.PlanNamesGrows | packages/babel-plugin-minify-mangle-names/src/index.js:151-169 | a name that is not kept is renamed to the first free candidate from the counter, which moves one past it |
| Mangling.PlanCommitSource | packages/babel-plugin-minify-mangle-names/src/index.js:125-149 | each rename is of a name of the snapshot bound to that binding, neither renamed before nor kept for another reason, with the top-level flag of line 128 |
| Mangling.PlanCommit | packages/babel-plugin-minify-mangle-names/src/index.js:151-159 | each new name is the first free candidate from the counter after the previous rename. It is a valid identifier, not a key of the snapshot, and neither a global nor a reference of the scope. |
| Mangling.PlanOrdered | packages/babel-plugin-minify-mangle-names/src/index.js:103-106 | within one scope the renames use strictly increasing ordinals; distinct renames have distinct old and distinct new names |
| Mangling.PlanRenamedBindings | packages/babel-plugin-minify-mangle-names/src/index.js:125-169 | a binding is renamed in a scope exactly when it was not renamed before and some snapshot name bound to it is not kept for another reason; once renamed, a binding is never renamed again |
| Mangling.MarkRenamed | packages/babel-plugin-minify-mangle-names/src/index.js:169 | `binding.renamed = true` sets that binding's flag only |
| Mangling.ApplyCommit | packages/babel-plugin-minify-mangle-names/src/index.js:164-169 | one rename changes only the scope's and the program scope's tables, by the table step of the rename, and marks the binding renamed |
| Mangling.ReplayKeepsName | packages/babel-plugin-minify-mangle-names/src/index.js:184-188 | the renames of a scope leave the table entries of every other name unchanged |
| Mangling.ReplayCommitted | packages/babel-plugin-minify-mangle-names/src/index.js:186-188 | after all renames of a scope every new name maps to its binding and no old name remains, in the scope and, for top-level bindings, in the program scope |
| Mangling.ApplyCommitted | packages/babel-plugin-minify-mangle-names/src/index.js:164-167 | the same, on the program after the scope's renames |
| Mangling.ApplyKeepsName | packages/babel-plugin-minify-mangle-names/src/index.js:184-188 | a name the renames do not touch resolves the same in every scope afterwards |
| Mangling.ApplyFlags | packages/babel-plugin-minify-mangle-names/src/index.js:169 | after the renames of a scope a binding is flagged renamed exactly when it was before or was renamed now |
| Mangling.LoopSees | packages/babel-plugin-minify-mangle-names/src/index.js:125-149 | the tests on the current program agree with the same tests on the program the loop started from, given the renames made so far. This covers whether the name is kept, whether it is top-level, its binding, and the rejected candidates. |
| Mangling.LoopKeeps | packages/babel-plugin-minify-mangle-names/src/index.js:147-148 | the `continue` of a kept name matches the specification |
| Mangling.LoopRenames | packages/babel-plugin-minify-mangle-names/src/index.js:151-169 | drawing a candidate and renaming a name that is not kept matches the specification's next rename |
| ManglePlugin.Mangler.MangleName | packages/babel-plugin-minify-mangle-names/src/index.js:125-170 | one turn of the loop updates the program and the counter as the specification of the scope's renames prescribes |
| ManglePlugin.RenameBinding | packages/babel-plugin-minify-mangle-names/src/index.js:164-169 | `rename` in the scope, again in the program scope for a top-level binding, then the `renamed` flag |
| Mangling.AfterScope | packages/babel-plugin-minify-mangle-names/src/index.js:88-171 | the visitor for one scope keeps the program well formed and changes no scope other than that scope and the program scope |
| Mangling.Mangled | packages/babel-plugin-minify-mangle-names/src/index.js:122-170 | the renames of one scope keep the program well formed and touch only that scope and the program scope |
| ManglePlugin.Mangler.MangleScope | packages/babel-plugin-minify-mangle-names/src/index.js:88-171 | the `Scopable` visitor skips an `eval` scope (without the option) and a visited one; otherwise it marks the scope visited and performs its renames |
| Mangling.AfterScopeVisited | packages/babel-plugin-minify-mangle-names/src/index.js:91-94 | the visitor adds the scope to `visitedScopes` exactly when it is not skipped for `eval` |
| Mangling.AfterTraversal | packages/babel-plugin-minify-mangle-names/src/index.js:87-172 | the traversal keeps the program well formed and its shape unchanged |
| Mangling.TraversalVisited | packages/babel-plugin-minify-mangle-names/src/index.js:91-94 | after the traversal the visited scopes are those met that are not skipped for `eval` |
| Mangling.TraversalRevisit | packages/babel-plugin-minify-mangle-names/src/index.js:93 | meeting a scope a second time changes nothing: each scope is processed at most once |
| Mangling.TraversalSparesEval | packages/babel-plugin-minify-mangle-names/src/index.js:91 | without the `eval` option, the binding table of an inner scope marked as containing `eval` is never changed |
| Mangling.TopLevelEvalRenamed | packages/babel-plugin-minify-mangle-names/src/index.js:91-166 | the program scope is not spared. In `var x; function f() { eval("x") } function g() {}` with `topLevel` on, the visitor of `g` removes `x` from the program scope's table, although that scope is marked as containing `eval`. |
| ManglePlugin.Mangler.Mangle | packages/babel-plugin-minify-mangle-names/src/index.js:84-178 | `mangle` performs the traversal specified by `AfterTraversal` over the scopes in the order met |
| ManglePlugin.Mangler.Run | packages/babel-plugin-minify-mangle-names/src/index.js:34-39 | `run` counts the collected texts, then sorts and finalizes the charset, then mangles with the sorted alphabet |
| ManglePlugin.MinifyMangleNames | packages/babel-plugin-minify-mangle-names/src/index.js:234-245 | the plugin mangles the program with the default alphabet, which is sorted by frequency exactly when the source is over 70000 characters |
| ManglePlugin.Rename | packages/babel-plugin-minify-mangle-names/src/index.js:180-228 | the method computes `Renamed` |
| ManglePlugin.SetNamesLoop | packages/babel-plugin-minify-mangle-names/src/index.js:195-200 | the loop sets the name of each node of the violation |
| ManglePlugin.RenameViolationsLoop | packages/babel-plugin-minify-mangle-names/src/index.js:191-201 | the loop over the constant violations computes `RenameViolations` |
| ManglePlugin.RenameNestedLoop | packages/babel-plugin-minify-mangle-names/src/index.js:217-223 | the nested traversal computes `RenameNested` |
| ManglePlugin.RenameReferencesLoop | packages/babel-plugin-minify-mangle-names/src/index.js:204-227 | the loop over the references computes `RenameReferences` |
| MergeSiblings.Merged | packages/babel-plugin-transform-merge-sibling-variables/src/index.js:61-69 | after the `while (true)` loop the statement at `key` is still a declaration of its kind and the list has not grown |
| MergeSiblings.MergedShape | packages/babel-plugin-transform-merge-sibling-variables/src/index.js:61-69 | the statements before `key` are unchanged; the declaration keeps its own declarators first; the next sibling is no longer a same-kind declaration |
| MergeSiblings.MergedKeepsDeclared | packages/babel-plugin-transform-merge-sibling-variables/src/index.js:67-68 | merging keeps every declarator of the list, with its kind, in its order |
| MergeSiblings.MergedIdempotent | packages/babel-plugin-transform-merge-sibling-variables/src/index.js:54-70 | merging again changes nothing |
| MergeSiblings.StatementList.ConcatSiblings | packages/babel-plugin-transform-merge-sibling-variables/src/index.js:59-69 | the loop appends each same-kind next sibling's declarators and removes the sibling, until the next sibling is not one |
| MergeSiblings.FoldedIntoForCases | packages/babel-plugin-transform-merge-sibling-variables/src/index.js:80-98 | the fold happens exactly when a `var` declaration is followed by a `for` loop whose init is a `var` declaration. Then the init's declarators are the outer ones followed by its own, and the outer declaration is removed. `let` and `const` are never moved. |
| MergeSiblings.FoldedKeepsDeclared | packages/babel-plugin-transform-merge-sibling-variables/src/index.js:95-98 | the fold keeps every declarator, with its kind, in its order |
| MergeSiblings.StatementList.FoldIntoFor | packages/babel-plugin-transform-merge-sibling-variables/src/index.js:80-98 | the second enter function performs the fold exactly when its tests pass |
| MergeSiblings.EnterDeclaration | packages/babel-plugin-transform-merge-sibling-variables/src/index.js:51-101 | the two enter functions run in order; both do nothing outside a statement list |
| MergeSiblings.EnterKeepsDeclared | packages/babel-plugin-transform-merge-sibling-variables/src/index.js:51-101 | the two enter functions together keep every declarator, with its kind, in its order |
| MergeSiblings.EnterExample | packages/babel-plugin-transform-merge-sibling-variables/src/index.js:51-101 | `var a = 1; var b; for (var i = 0; …)` becomes `for (var a = 1, b, i = 0; …)` |
| MergeSiblings.WithFirst | packages/babel-plugin-transform-merge-sibling-variables/src/index.js:31-35 | replacing `body[0]` puts the new statement first and keeps the rest of the body |
| MergeSiblings.LiftedCases | packages/babel-plugin-transform-merge-sibling-variables/src/index.js:5-37 | `liftDeclaration` changes the loop exactly when all its tests pass: the id joins the end of the init's declarators, and `body[0]` becomes the assignment of the initializer |
| MergeSiblings.LiftedMovesDeclarator | packages/babel-plugin-transform-merge-sibling-variables/src/index.js:27-35 | a lift moves one declarator: it leaves the head of the body's declarators and joins the end of the init's, without its value, which stays behind as an assignment |
| MergeSiblings.LiftedIdempotent | packages/babel-plugin-transform-merge-sibling-variables/src/index.js:5-37 | lifting twice with one kind lifts once |
| MergeSiblings.ForStatement.LiftDeclaration | packages/babel-plugin-transform-merge-sibling-variables/src/index.js:5-37 | the method updates the loop's init and body as `Lifted` prescribes |
| MergeSiblings.VisitedLiftsOnce | packages/babel-plugin-transform-merge-sibling-variables/src/index.js:44-49 | the visitor lifts a `let` declaration only when no `var` declaration was lifted, so it lifts at most one |
| MergeSiblings.ForStatement.Visit | packages/babel-plugin-transform-merge-sibling-variables/src/index.js:42-50 | the `ForStatement` visitor lifts with `var`, then with `let`, on a block body or a single statement |
| RemoveConsole.ConsoleTestExamples | packages/babel-plugin-transform-remove-console/src/index.js:34-51 | `console.x`, `console.x.call` and `console.x.apply` are console members; `console.x.bind`, `a.console.x` and `console.x.foo` are not. `console.x.bind` is a bound console method; `console.bind` and `a.x.bind` are not. |
| RemoveConsole.ConsoleBindExclusive | packages/babel-plugin-transform-remove-console/src/index.js:12-22 | no member expression is both a console member and a bound console method |
| RemoveConsole.Noop | packages/babel-plugin-transform-remove-console/src/index.js:53-55 | the `createNoop` function holds no console call, under any parent |
| RemoveConsole.Void0 | packages/babel-plugin-transform-remove-console/src/index.js:57-59 | `void 0` holds no console call, under any parent |
| RemoveConsole.ReplacementsUnchanged | packages/babel-plugin-transform-remove-console/src/index.js:17-27 | Babel visits a replacement node again; for `createNoop`, `createVoid0` and every replacement the call visitor chooses, that visit changes nothing |
| RemoveConsole.CallDecision | packages/babel-plugin-transform-remove-console/src/index.js:7-23 | the call outcome, by callee: not a member, kept; console member as a statement's expression, removed; console member elsewhere, `void 0`; bound console method, `function () {}`; anything else, kept |
| RemoveConsole.NodePath.VisitCall | packages/babel-plugin-transform-remove-console/src/index.js:7-23 | the `CallExpression` visitor removes or replaces the node exactly as the decision says |
| RemoveConsole.NodePath.ExitMember | packages/babel-plugin-transform-remove-console/src/index.js:24-30 | on exit a console member whose parent is no member expression becomes `function () {}`; any other node is unchanged |
| RemoveConsole.ConsoleTestsKept | packages/babel-plugin-transform-remove-console/src/index.js:34-51 | traversing the children of a member expression changes neither of its console tests |
| RemoveConsole.StripRemoves | packages/babel-plugin-transform-remove-console/src/index.js:12-18 | a call disappears exactly when it is a console call that is a statement's expression, and its statement disappears with it; a node that is neither a call nor an expression statement never disappears |
| RemoveConsole.StripIsClean | packages/babel-plugin-transform-remove-console/src/index.js:7-30 | after the traversal no console call and no bound console method is called. A `console.x` value remains only as the object or property of a larger member expression. |
| RemoveConsole.CleanIsKept | packages/babel-plugin-transform-remove-console/src/index.js:7-30 | code without such calls and values is left unchanged |
| RemoveConsole.RemoveConsoleSpec | packages/babel-plugin-transform-remove-console/src/index.js:4-31 | on a program the plugin leaves clean code; a clean program comes out unchanged |
| RemoveConsole.RemoveConsoleIdempotent | packages/babel-plugin-transform-remove-console/src/index.js:4-31 | running the plugin twice gives the result of running it once |
| RemoveConsole.RemoveConsoleExamples | packages/babel-plugin-transform-remove-console/src/index.js:7-30 | `console.log(x);` is removed; `f(console.log(x))` becomes `f(void 0)`; `f(console.log)` becomes `f(function () {})`; `console.log.bind(console)` becomes `function () {}` |

## Left out

- Babel's traversal, requeueing, path caches, `traverse.clearCache` and `scope.crawl` (`cleanup`) are not modelled. The mangler receives the scopes in the order the traversal meets them, as a sequence; remove-console's traversal is the function `Strip`.
- `markEvalScopes` and `hasEval` come from a helper package that is not part of this model; each scope carries a given `hasEval` flag.
- `t.isValidIdentifier` is a given set of rejected names. `scope.hasGlobal` and `scope.hasReference` are given per-scope sets of names.
- `getAllBindings` is modelled by collecting the tables of a scope and its ancestors, innermost first, with later tables adding only missing keys.
- `getBindingIdentifiers` of a violation is a given list of nodes. The identifiers referenced inside a non-identifier reference are a given list, each with its scope.
- The frequency-collection traversal of `collect` is an input: the property names, object keys and literal strings it meets, in order. `String(node.value)` is part of that input.
- The source length `path.getSource().length` is an input; parsing and printing are not modelled.
- ManglePlugin.Mangler.MarkUnsafeScopes: modelled as written, although nothing in the plugin calls it.
- The commented-out `resetNext` and `updateReferences`, and the `referencesToUpdate` map, which nothing reads, are not modelled.
- Charsets.SortByFrequency: `Array.prototype.sort` is modelled as a stable sort (insertion into a non-increasing list), which is what current JavaScript engines guarantee; an unstable engine could order equal frequencies differently.
- ManglePlugin.Mangler.Mangle: requires the charset to be finalized, as `run` guarantees by calling `sort` first. A `getIdentifier` call before `sort` is modelled by Charsets.Charset.GetIdentifier, which returns the error.
- A binding's declaration kind records only what `isFunction`, `isClass` and `isLabeledStatement` test.
- Mangling.TraversalSparesEval: covers inner scopes and their tables only. With `topLevel` on, the program scope is not spared even when marked as containing `eval`: a direct child of the program scope counts the program's bindings as its own and renames them, as Mangling.TopLevelEvalRenamed exhibits. That the identifier nodes of an `eval` scope's bindings keep their names is not stated.
- MergeSiblings.Lifted: the source appends the identifier node itself to the init's declarator list. The model appends a declarator with that identifier and no initializer, which prints the same.
- MergeSiblings.ForStatement.LiftDeclaration: a declaration with no declarators is an invalid tree on which the source would fail reading `firstNode.id`; the model leaves the loop unchanged.
- The `computed` flag of member expressions is not modelled, because remove-console never reads it: `console[x]` counts as `console.x`. Optional calls and bind expressions (`a::b`) are not modelled.
- RemoveConsole.Strip: Babel's removal hooks are not modelled. A removed statement drops out of whatever list holds it, and the bodies of `if` statements and loops are list children too. So `if (x) console.log();` loses its body, where Babel would leave an empty block. The empty node that `Slot` puts in an expression slot stands for a case that no well-formed tree produces.
- The tree updates of `path.remove()` and `path.replaceWith()` are modelled on values. Each visitor is a method on a path object whose node field it replaces, and the whole traversal returns the new tree; sharing of nodes between paths is not modelled.
