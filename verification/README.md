# await-async-query and prefer-find-by, modelled in Dafny

A model of two ESLint rules of `eslint-plugin-testing-library`, written as pure
functions over an immutable syntax-tree datatype, with their properties proved.

- **await-async-query** reports a call to an asynchronous query
  (`find[All]By<Accessor>`) whose promise is not handled: not awaited, returned
  or used as an arrow function's expression body, not chained with `.then`, and
  not asserted on through `expect(...).resolves` / `expect(...).rejects`. Sites
  are collected while the tree is visited; when the program has been seen, a
  site that initialises a variable is judged by the variable's later references.
- **prefer-find-by** reports `await waitFor(() => [obj.]getByX(args))` (also
  `waitForElement` and `wait`) and suggests the replacement text
  `[obj.]findByX(args)`.

Layout:

| file | module | contents |
|---|---|---|
| `wrappers.dfy` | `Wrappers` | `Option` |
| `strings.dfy` | `Strings` | `includes`, `indexOf`, `split(sep)[1]` and `join` over `seq<char>` |
| `ast.dfy` | `Ast` | the `Node` datatype, ancestor paths, node classifiers, `.then` detection |
| `query_names.dfy` | `QueryNames` | the async and sync query-name grammar and its parser |
| `await_async_query.dfy` | `AwaitAsyncQuery` | rule 1: the three context checks, the collect and finalize phases |
| `prefer_find_by.dfy` | `PreferFindBy` | rule 2: the shape gate, the variant and accessor derivation, the replacement |
| `scenarios.dfy` | `Scenarios` | concrete programs from the rules' documented behaviour |

Parent links are ancestor paths: `p[0]` is a node and `p[i + 1]` is the parent
of `p[i]`; the last element is the root. Every recursion up the tree decreases
the path's length, so it ends at the root.

Where the rules' documented behaviour and the code differ, the model follows the code:

- The selector of rule 1 is `CallExpression > Identifier[name=...]`. It matches
  only an identifier whose parent is the call, so `findByText(...)` is visited
  and `screen.findByText(...)` is not, because there the identifier's parent is a
  member expression. A documented example that uses `screen.findByText` would
  produce no report.
- Rule 2 looks only at `arguments[0]` of the wait call. It never checks that
  this is the only argument, and never looks at the arrow function's parameters.
  `MemberShapeMatches` and `BareShapeMatches` prove that both are ignored.
- `hasClosestExpectResolvesRejects` does not check that the call is the
  argument of `expect`. It decides by the nearest `expect(...)` call, at the node
  itself or above it, whose parent is a member expression.

## Model

| member | source | states |
|---|---|---|
| `QueryNames.ParseAsyncQuery` | lib/rules/await-async-query.ts:21 | On success the name is `find` + optional `All` + `By` + one of the eight accessors, and the parts are returned. On failure no choice of `All` and accessor spells the name. |
| `QueryNames.AsyncQueryNameIff` | lib/rules/await-async-query.ts:21 | A name is recognised exactly when it is `find[All]By<Accessor>` for one of the eight accessors, in both directions. |
| `QueryNames.ParseAsyncQueryName` | lib/rules/await-async-query.ts:21 | Round trip: parsing a built async name returns the `All` flag and accessor it was built from. |
| `Scenarios.NonAsyncNames` | lib/rules/await-async-query.ts:21 | `xfindByText`, `findByFoo` and `getByText` are rejected. |
| `AwaitAsyncQuery.IsAwaited` | lib/rules/await-async-query.ts:15-25 | For a node whose type tag agrees with its shape, the check holds exactly for an await expression, an arrow function or a return statement. |
| `AwaitAsyncQuery.PromiseResolvedCases` | lib/rules/await-async-query.ts:27-37 | Under a call parent, the answer is whether the grandparent is a `.then` member access. Otherwise it is whether the parent is one. The node itself and ancestors above the grandparent never matter. |
| `Scenarios.ThenChainedCallIsNotSuspect` | lib/rules/await-async-query.ts:30-33 | `findByText('x').then(...)` counts as handled. |
| `AwaitAsyncQuery.HasClosestExpectResolvesRejects` | lib/rules/await-async-query.ts:39-42 | A node without a parent answers false. The walk terminates because it recurses on a shorter ancestor path. |
| `AwaitAsyncQuery.ClosestExpectMatchesSpec` | lib/rules/await-async-query.ts:39-58 | The walk answers true exactly when the nearest `expect(...)` call with a member-expression parent, at the node or above but never at the root, is followed by `resolves` or `rejects`. With no such call it answers false. |
| `AwaitAsyncQuery.FindClosestExpectResolvesRejects` | lib/rules/await-async-query.ts:39-58 | The walk written as a loop up the parent chain returns the same answer as the recursion, and so as the nearest-`expect` reading. |
| `Scenarios.ExpectResolvesIsNotSuspect` | lib/rules/await-async-query.ts:44-54 | `expect(findByText('x')).resolves.toBe(...)` is handled, with the `expect` call two levels above the identifier. |
| `Scenarios.AwaitedCallIsNotSuspect` | lib/rules/await-async-query.ts:83-89 | `await findByText('x')` is matched by the selector and is not collected. |
| `AwaitAsyncQuery.Accumulate` | lib/rules/await-async-query.ts:80-90 | The accumulator holds exactly the visited sites that fail all three checks: not awaited at the grandparent, not `.then`-chained, not under `expect(...).resolves/rejects`. |
| `AwaitAsyncQuery.FinalizeSite` | lib/rules/await-async-query.ts:92-133 | With no references left after the first is dropped, the site is reported when it is neither awaited nor chained. Otherwise it is reported when some reference is unsafe, meaning neither awaited at its parent nor chained. The scan stops at the first unsafe reference, so there is at most one report. The report is anchored at the original identifier and carries its name. |
| `AwaitAsyncQuery.SuspectSiteOutcome` | lib/rules/await-async-query.ts:93-131 | A collected site that is not a variable's initialiser is always reported, and so is a declarator site with at most one reference. A site with later references is reported exactly when one of them is unsafe. |
| `AwaitAsyncQuery.Reported` | lib/rules/await-async-query.ts:92-134 | Finalize yields at most one report per accumulated site: no diagnostic occurs more often than there are sites whose diagnostic it is. |
| `AwaitAsyncQuery.ReportedContents` | lib/rules/await-async-query.ts:92-134 | A report is produced exactly when some accumulated site is reported, and it is that site's report. |
| `AwaitAsyncQuery.Finalize` | lib/rules/await-async-query.ts:91-135 | The program-exit loop over the accumulator produces exactly the reports of the reported sites, in order. |
| `AwaitAsyncQuery.Run` | lib/rules/await-async-query.ts:78-135 | Over one file, every report belongs to a visited site that failed all three collect checks and that finalize reports. Every such site has its report. The reports are exactly those of a one-pass walk that decides each site as it is visited, in visiting order, so each visited site gives at most one report. |
| `AwaitAsyncQuery.TwoPhaseIsOnePass` | lib/rules/await-async-query.ts:80-134 | Collecting into the accumulator and deciding at program exit gives the same reports, in the same order, as deciding each site when it is visited. |
| `AwaitAsyncQuery.SiteReports` | lib/rules/await-async-query.ts:80-134 | The one-pass reading gives each visited site at most one report: no diagnostic occurs more often than there are visited sites whose diagnostic it is. |
| `Scenarios.UnawaitedVariableIsReported` | lib/rules/await-async-query.ts:116-131 | `const el = findByText('x'); use(el)` gives exactly one `awaitAsyncQuery` report, anchored at `findByText` and naming it. |
| `Scenarios.SecondReferenceUnawaitedReportsOnce` | lib/rules/await-async-query.ts:116-131 | With two references, the first awaited and the second not, there is exactly one report, anchored at the original call. |
| `PreferFindBy.MatchWaitCall` | lib/rules/prefer-find-by.ts:49-96 | A match requires all of these: the callee is an identifier in `WaitMethods`, the first argument is an arrow function, the arrow's body is a call, and the inner method name is in the sync-query set. For a member callee, its object and property are identifiers, the caller is the object's name and the method is the property's name. Otherwise the callee is an identifier, there is no caller and the method is its name. The inner arguments are returned. |
| `PreferFindBy.MemberShapeMatches` | lib/rules/prefer-find-by.ts:62-66 | `wait(() => obj.m(args), ...)` with a wait helper and a sync name `m` matches as the member shape, whatever the arrow parameters and extra arguments are. |
| `PreferFindBy.BareShapeMatches` | lib/rules/prefer-find-by.ts:80-83 | `wait(() => m(args), ...)` matches as the bare shape, whatever the arrow parameters and extra arguments are. |
| `Scenarios.BlockBodyIsNotMatched` | lib/rules/prefer-find-by.ts:58-60 | An arrow function with a block body gives no report. |
| `PreferFindBy.Check` | lib/rules/prefer-find-by.ts:36-48 | A report is made exactly when the node is a call whose parent is an `await` (the selector `AwaitExpression > CallExpression`) and the shape matches, so there is at most one per wait call. It is anchored at the wait call, uses message `preferFindBy`, and its `fullQuery` is the wait call's text. |
| `PreferFindBy.CheckRewritesSyncQuery` | lib/rules/prefer-find-by.ts:62-95 | For an awaited wait call wrapping `[obj.]get|query[All]By<A>(args)`, the report has variant `findAllBy` for the `All` form and `findBy` otherwise, method `A`, and replacement `[obj.]find[All]By<A>(args)`, with `obj` and the argument texts taken from the inner call. |
| `Scenarios.UnawaitedWaitIsNotReported` | lib/rules/prefer-find-by.ts:48 | `waitFor(() => getByText('x'))` as a plain statement gives no report, although its shape matches. |
| `Strings.SecondField` | lib/rules/prefer-find-by.ts:68 | `split(sep)[1]` is absent exactly when the separator does not occur. Otherwise it is the text after the first occurrence, up to the next occurrence or the end, with no occurrence starting inside it, and it contains no separator. |
| `Strings.SecondFieldUnique` | lib/rules/prefer-find-by.ts:68 | Any text that starts right after the first occurrence and runs, with no occurrence starting inside it, to the next occurrence or the end is the second field. |
| `QueryNames.SyncQueryNameAccessor` | lib/rules/prefer-find-by.ts:85 | For `get|query[All]By<Accessor>`, the second field of the split on `By` is the accessor. |
| `QueryNames.SyncQueryNameContainsAll` | lib/rules/prefer-find-by.ts:102-104 | A sync query name contains `All` exactly when it is an `All` variant. |
| `PreferFindBy.SyncQueryRewrite` | lib/rules/prefer-find-by.ts:102-104 | For a sync name `get|query[All]By<Accessor>`, the variant is `findAllBy` for the `All` form and `findBy` otherwise. The method is the accessor, and the two together spell `find[All]By<Accessor>`, which rule 1 recognises. |
| `PreferFindBy.ReplacementOfSyncQuery` | lib/rules/prefer-find-by.ts:62-95 | The replacement for a wrapped sync query is `caller.` (member shape only), then the matching async name, then `(`, the original argument texts joined by `, `, and `)`. |
| `Scenarios.MemberWaitSuggestsFindBy` | lib/rules/prefer-find-by.ts:62-78 | `await waitFor(() => screen.getByText('x'))` suggests `screen.findByText('x')`, with variant `findBy` and method `Text`. |
| `Scenarios.BareWaitSuggestsFindAllBy` | lib/rules/prefer-find-by.ts:80-95 | `await waitFor(() => getAllByRole('button'))` suggests `findAllByRole('button')`. |
| `PreferFindBy.RewriteIsAwaited` | lib/rules/prefer-find-by.ts:73-76 | The fix replaces the wait call itself, so the new call is the direct argument of the `await`. No identifier directly under it is ever collected by rule 1. |
| `PreferFindBy.BareRewriteIsVisited` | lib/rules/prefer-find-by.ts:90-93 | The bare rewrite's callee is an async query identifier under a call, so rule 1's selector does visit it. |
| `PreferFindBy.RewriteIsNeverReported` | lib/rules/prefer-find-by.ts:90-93 | Re-running rule 1 after the rewrite gives no report anchored at an identifier directly under the rewritten call. |

## Left out

- ESLint plumbing is not modelled: `RuleCreator`, `meta`, the docs URL, `context.report`, and the suggestion and fixer objects. Reports and replacement texts are returned as values, and applying a text edit is not modelled.
- The scope manager (`context.getDeclaredVariables`) is not modelled. Each visited site carries the first declared variable's reference list as an input, and only the `slice(1)` drop is modelled. A declarator that declares no variable makes the source index `[0]` of an empty list. That case is outside the model.
- `sourceCode.getText` is a parameter `getText: Node -> string`.
- `SYNC_QUERIES_COMBINATIONS` (`lib/utils`) is not part of this model. It is a parameter `syncQueries: set<string>`. The rewrite properties are proved for names of the form `get|query[All]By<Accessor>`.
- The classifiers and `hasThenProperty` (`lib/node-utils`) are not part of this model. They are read as tag checks, and `hasThenProperty` as "a member expression whose property is the identifier `then`".
- esquery selector dispatch and traversal order are not modelled. Rule 1's selector is a precondition on each visited site's ancestor path, and its visits are a sequence given in traversal order. Rule 2's selector is checked by `Check` on the node's ancestor path (a call whose parent is an `await`).
- The JavaScript regular-expression engine is replaced by an explicit prefix/suffix decomposition.
- A call expression is never the program root, so the model requires a matched identifier to have a grandparent. The source would throw otherwise.
