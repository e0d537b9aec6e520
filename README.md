# nextjs-middleware-registry, modelled in Dafny

`MiddlewareRegistry` is a per-request route table for Next.js middleware.
`add(route, middleware, config?)` stores a handler, or an array of handlers,
under a route pattern. The optional config carries a `methods` list and a
`transparent` flag. `execute()` then walks the table in insertion order. It
runs the handlers of every entry whose pattern matches the request path and
whose `methods` list is absent or contains the request method. It stops after
the first such entry that is not transparent, and it stops as soon as a
handler resolves to `EXIT`.

The model has these modules:

- `Wrappers` (`wrappers.dfy`): `Option`, standing for a property or value that may be `undefined`.
- `ExitCodes` (`exit_codes.dfy`): the `NEXT | EXIT` vocabulary, and how `|| NEXT` turns a falsy result into `NEXT`.
- `Config` (`config.dfy`): the stored entry `{ middleware, methods?, transparent? }` and the `add` options. It also holds the spread `{ ...config, middleware }`, the array-or-single payload, the transparency test and the method test.
- `OrderedMap` (`ordered_map.dfy`): the JavaScript `Map` behind the table. It is a sequence of key/value pairs with distinct keys, in iteration order. `Set` is `Map.set`: it replaces the value of an existing key in place, or appends a new key.
- `Chain` (`chain.dfy`): `composeMiddlewareChain` as a pure function. It gives the generator's whole output: every yielded handler, then the `EXIT` sentinel it returns. The module also has an independent three-stage reference (filter, cut after the first non-transparent entry, flatten) and the lemmas relating the two.
- `Execution` (`execution.dfy`): what the do-while loop of `execute` invokes, as a function of the chain and of what each handler resolves to.
- `Registry` (`registry.dfy`): the class `MiddlewareRegistry`. Its `registry` field is updated in place by `Add`. `Execute` is a `while` loop proved against `Execution.Invoked` and `Chain.Compose`.
- `Scenarios` (`scenarios.dfy`): the registrations of the repository's tests, with the consequences the code gives them. It also has two scenarios of its own: an `EXIT` inside an array, and one handler reused on two routes.

The model takes these things as parameters:

- The path matcher `pathToRegexp(route).test(path)` is a function parameter `matches(route, path)`. The general lemmas assume nothing about it. Each scenario lemma states which routes the matcher accepts for its request.
- Handlers are opaque ids. What the handler at chain position `k` resolves to is an oracle `results(k, id): Option<ExitCode>`, where `None` is `undefined` or another falsy value.
- `execute` returns the ids it invoked, in order, and the number of loop iterations.

Where the code and the repository's tests disagree, the model follows the code:

- The table is keyed by the route string alone (`src/MiddlewareRegistry.ts:10,36`).
  - There is no (route, methods) composite key. Adding `/api/a` for `GET` and then for `POST` overwrites the `GET` entry. So a `GET` request then runs nothing (`Scenarios.SameRouteOtherMethodOverwrites`).
  - `src/tests/methods.spec.ts:11-19` and `src/tests/compositeKey.spec.ts:17-38` expect the method-specific entries to coexist. Under the code the `GET` handler runs only when its addition came last (`Scenarios.LastAdditionWins`).
- There is a single exit code. A handler that resolves to `EXIT` stops everything after it, including later members of its own array (`Scenarios.ExitInsideArrayStopsEverything`). There is no array-scoped exit code.
- There is no `debug` flag and no duplicate-registration warning. `add` silently replaces the stored config, and the entry keeps its position.
- The request path is passed to the matcher as it is. Nothing strips a query string. Whether `/api/a?test=123` matches `/api/a` is up to the external matcher, so the model claims nothing about it.

## Model

| member | source | states |
|---|---|---|
| `ExitCodes.Normalize` | src/MiddlewareRegistry.ts:47 | `await h(req) \|\| NEXT` is `EXIT` exactly when the handler resolved to `EXIT`; a falsy result becomes `NEXT` |
| `OrderedMap.SetAbsent` | src/MiddlewareRegistry.ts:36 | setting a route not yet present appends exactly one entry at the end; the size grows by one |
| `OrderedMap.SetPresent` | src/MiddlewareRegistry.ts:36 | setting a route already present replaces that entry's whole value at its own position; the size and every other entry are unchanged |
| `OrderedMap.SetKeepsDistinct` | src/MiddlewareRegistry.ts:10 | the table never holds a route twice |
| `OrderedMap.GetSet` | src/MiddlewareRegistry.ts:36 | after `set(route, v)` the route reads `v` and every other route reads as before |
| `OrderedMap.SetTwice` | src/MiddlewareRegistry.ts:36 | of two `set`s of one route only the second survives |
| `Config.Spread` | src/MiddlewareRegistry.ts:36 | `{...config, middleware}` keeps the new payload; without a `config` the stored entry has neither `methods` nor a true `transparent`; with one, both come from it alone, so nothing of an earlier entry survives |
| `Config.Members` | src/MiddlewareRegistry.ts:63 | definition: an array payload yields its members in order, a single handler yields itself |
| `Config.IsTransparent` | src/MiddlewareRegistry.ts:64 | an absent or false `transparent` is not transparent |
| `Config.AllowsMethod` | src/MiddlewareRegistry.ts:61 | an absent `methods` admits every method; a present empty list admits none; a request without a method is admitted only when `methods` is absent |
| `OrderedMap.Set` | src/MiddlewareRegistry.ts:36 | definition of `Map.set`; its properties are the `SetAbsent`, `SetPresent`, `GetSet` and `SetTwice` rows |
| `Chain.Selected` | src/MiddlewareRegistry.ts:59-61 | a selected entry's route matches the request path; an entry with an empty `methods` list is never selected |
| `Chain.Compose` | src/MiddlewareRegistry.ts:57-69 | the generator's output is a run of handlers closed by exactly one `EXIT` sentinel, both after a non-transparent match (line 64) and at exhaustion (line 68) |
| `Chain.Matching` | src/MiddlewareRegistry.ts:58-61 | an entry is kept iff its route matches the path and its `methods` is absent or contains the method |
| `Chain.MatchingAppend` | src/MiddlewareRegistry.ts:58 | filtering keeps registry order: the kept entries of `a + b` are those of `a` followed by those of `b` |
| `Chain.ThroughFirstOpaque` | src/MiddlewareRegistry.ts:64 | the kept entries are cut right after the first one whose `transparent` is not true (absent counts as false); if all are transparent nothing is cut |
| `Chain.FlattenAppend` | src/MiddlewareRegistry.ts:63 | an array payload contributes its members consecutively, entries in order |
| `Chain.ComposeIsPipeline` | src/MiddlewareRegistry.ts:57-69 | the one-pass generator yields exactly filter, then cut after the first non-transparent entry, then flatten |
| `Chain.ComposeAppend` | src/MiddlewareRegistry.ts:58-68 | insertion order: the chain of `a + b` is the chain of `a` if `a` already stops the walk, else `a`'s handlers followed by `b`'s chain |
| `Chain.LaterEntriesIgnored` | src/MiddlewareRegistry.ts:64 | nothing registered after the first matching non-transparent entry affects the chain |
| `Chain.NoMatchOnlySentinel` | src/MiddlewareRegistry.ts:66-68 | with no matching entry the chain is the sentinel alone |
| `Chain.AllTransparentRunAll` | src/MiddlewareRegistry.ts:58-68 | if every matching entry is transparent, the chain holds all of their handlers in order |
| `Chain.EmptyMethodsRunNothing` | src/MiddlewareRegistry.ts:61 | a table made only of entries with a present but empty `methods` list yields no handler |
| `Chain.EmptyMethodsEntryIgnored` | src/MiddlewareRegistry.ts:61 | an entry with a present but empty `methods` list contributes nothing wherever it stands among other entries: the chain is the one without it |
| `Execution.StopAt` | src/MiddlewareRegistry.ts:46-49 | the loop runs handlers up to and including the first that resolves to `EXIT`, or all of them |
| `Execution.Invoked` | src/MiddlewareRegistry.ts:42-50 | the invoked handlers are a prefix of the chain; every one but the last continued; the run is cut short only by an `EXIT`; with no `EXIT` all run |
| `Execution.SameResultsSameTrace` | src/MiddlewareRegistry.ts:42-69 | the trace depends only on the chain and on what the handlers it invokes resolve to: two runs that agree on the first run's trace invoke the same handlers |
| `Registry.MiddlewareRegistry.constructor` | src/MiddlewareRegistry.ts:10-15 | a registry starts empty and keeps its request |
| `Registry.MiddlewareRegistry.Add` | src/MiddlewareRegistry.ts:31-37 | the table becomes `set(route, {...config, middleware})`: a new route is appended and the size grows by one; an existing route keeps its place and size, and its whole config, old `methods`/`transparent` included, is replaced; every other route is unchanged; keys stay distinct |
| `Registry.MiddlewareRegistry.Execute` | src/MiddlewareRegistry.ts:42-50 | the do-while loop invokes exactly `Invoked` of the composed chain, a prefix of the filter-cut-flatten reference; it runs at most handlers + 1 iterations, one more than the trace exactly when no invoked handler returned `EXIT` |
| `Scenarios.AddTwoRoutes` | src/tests/add.spec.ts:12-22 | two routes added, a request to the first: only its handler runs, once, and the table has two entries |
| `Scenarios.AllTransparentRoutesRun` | src/tests/transparent.spec.ts:14-24 | three matching transparent routes: all three handlers run once, in insertion order |
| `Scenarios.OpaqueRouteStopsTheChain` | src/tests/transparent.spec.ts:36-46 | a non-transparent match stops the walk: the later matching route's handler never runs |
| `Scenarios.SameRouteOtherMethodOverwrites` | src/MiddlewareRegistry.ts:36 | adding one route for `GET` then `POST` leaves only the `POST` entry, so a `GET` request runs nothing |
| `Scenarios.AddAllSameRoute` | src/MiddlewareRegistry.ts:36 | any run of additions to one route amounts to the last one |
| `Scenarios.LastAdditionWins` | src/tests/compositeKey.spec.ts:17-38 | in any addition order only the last survives; the `GET` handler runs exactly when its addition came last |
| `Scenarios.ExitInsideArrayStopsEverything` | src/MiddlewareRegistry.ts:47-49 | `EXIT` from the second member of a transparent array stops the third member and the later route's handler |
| `Scenarios.SameHandlerOnTwoRoutesRunsTwice` | src/MiddlewareRegistry.ts:58-64 | one handler on a matching transparent route and on a matching later route is invoked twice |

## Left out

- `pathToRegexp` (src/MiddlewareRegistry.ts:1, 60) is a foreign library. It is the parameter `matches`, and no regex or query-string behaviour is claimed.
- `isNextRequest` and `getRequestPath` (src/MiddlewareRegistry.ts:21-23, 77-83) only choose between `nextUrl.pathname` and `url`. The request is given directly as its path and method. A request without a method is `None`, and `includes(undefined)` on a present list is false.
- `async`/`await`: each awaited handler is one sequential step. A handler that throws aborts `execute` in the source; faults are not modelled.
- Handler side effects and the request object passed to handlers are not modelled. A handler is an id, and its result comes from the oracle.
- Handler results are `NEXT`, `EXIT` or falsy. A truthy value outside the vocabulary also continues the loop in the source; the model has no such value.
- `Registry.MiddlewareRegistry.Execute` and `Chain.Compose` select entries using the request and the stored arrays as they are when `execute` starts. The chain is built once, before the first handler runs. The source's generator is lazy and reads this state live. So three behaviours of the source are not captured:
  - The generator reads `this.getRequestPath()` and `this.request.method` (src/MiddlewareRegistry.ts:60-61) only when it resumes at line 48. By then earlier handlers have run with the same request object. A transparent handler that rewrites the request's `url` or `method` changes which later routes are selected.
  - `{...config, middleware}` (line 36) is a shallow copy. The stored `methods` array and handler array are the caller's own arrays, and `includes` and `yield*` read them at execute time. A change made to them after `add` changes the chain. `Config.Spread` stores plain values.
  - After an `EXIT`, the source calls `next()` once more (line 48). That runs `pathToRegexp` on later routes, which can throw. The model's `matches` is total and is never called for that step.
- `src/Middleware.ts` (an abstract class with an `options` getter and a static factory) has no logic and is not part of this model.
- `src/tests/utils/shuffle.ts` is randomised test plumbing. `Scenarios.LastAdditionWins` covers every order instead.
- `src/tests/execute.spec.ts` asserts nothing, because its inner function is never called.
- `src/tests/queryString.spec.ts` depends entirely on the external matcher.
