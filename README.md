# chains router — a Dafny model

This project models the routing engine of `chains` (`route.js`). The engine is a
trie over path segments. Each trie node has:

- literal children, keyed by the exact segment;
- one variable child, shared by every `:name` segment at that depth;
- handlers keyed by HTTP method.

A handler carries a middleware chain. `execute` drives that chain through a `next`
continuation.

Modules and files:

- `wrappers.dfy` — `Option`, standing for JavaScript's `undefined` results.
- `paths.dfy` — `splitPath` and the `split`/`join` pair it rests on.
- `steps.dfy` — middleware steps and `flattenArray`. A step is abstracted to an id
  and whether it calls `next`.
- `handler.dfy` — `Handler`: `bind`, the parameter dictionary, and `execute`.
  - The chain is a `Chain` object whose `steps` field `execute` shifts. Handlers
    made by `bind` hold the same object.
- `trie.dfy` — `Node`: `register` and `match`, with the lemmas that pin them down.
  - Paths through the trie are described by edge sequences (`At`, `MethodsAt`).
  - The literal-first walk is stated declaratively (`Chosen`).
  - `WellFormed` is the invariant that names and captured arguments agree.
- `router.dfy` — the `Router` class: `add`, `get`/`put`/`post`/`delete`, `route`.
- `scenarios.dfy` — what the repository's test driver (`test/route.js`) would find,
  plus worked examples: precedence, no backtracking, parameters, short circuit, and
  running a route twice.

Points where the code behaves differently from what a reader of the API might expect (the model follows the code):

- Empty segments are kept, not rejected. `"/test//echo"` splits into
  `["test", "", "echo"]`, and a variable segment captures `""` when no literal child
  `""` exists.
- The "scoped prefix" registration cannot be reached (see Left out). The prefix that
  `add` puts in front of every path is always empty.
- `route` has no failure case of its own: `splitPath` never fails, so the
  `parts === null` branch is dead.
- Route chains are consumed by execution (see Findings).

## Model

| member | source | states |
|---|---|---|
| `Paths.Split` | route.js:204 | the pieces of `split("/")` contain no `/`, there is at least one, and joining them with `/` gives the input back |
| `Paths.SplitJoin` | route.js:204 | splitting the `/`-join of slash-free pieces returns exactly those pieces (the other half of the round trip) |
| `Paths.SplitPath` | route.js:192-205 | the result is empty exactly for `"/"`; otherwise it is the trimmed path (one leading and one trailing `/` removed) split on `/`, empty pieces kept, with no piece holding a `/` |
| `Paths.PathRoundTrip` | route.js:192-205 | `"/"` followed by the `/`-join of slash-free segments, the last one non-empty, splits back into exactly those segments |
| `Steps.FlattenArray` | route.js:208-224 | the loop-and-recursion `flattenArray` returns `Flatten` of its argument: a non-array gives a one-step chain, and arrays give their leaves left to right, depth first |
| `Steps.FlattenAllAppend` | route.js:214-221 | flattening a concatenation of step arguments is the concatenation of their flattenings |
| `Steps.FlattenInline` | route.js:215-216 | a nested array contributes its steps exactly where it stands, as if written inline |
| `Steps.FlattenSingles` | route.js:218-219 | an array of plain steps flattens to exactly those steps, in order |
| `Steps.FlattenLength` | route.js:208-224 | the flattened chain has exactly one entry per leaf step of the argument |
| `Handlers.Chain.constructor` | route.js:151 | a registration's chain object starts holding the flattened steps |
| `Handlers.Chain.Shift` | route.js:41 | `chain.shift()` removes and returns the front step, or returns nothing and leaves an empty chain empty |
| `Handlers.Bind` | route.js:51-60 | the bound handler keeps method, path and names, carries the given args, and refers to the SAME chain object |
| `Handlers.BuildParams` | route.js:27-31 | the parameter dictionary has exactly the declared names as keys |
| `Handlers.ParamsLastWins` | route.js:29-31 | each name maps to the argument at its last occurrence, so a repeated name keeps the later value |
| `Handlers.InvokedIsFirstStopPrefix` | route.js:39-47 | one run invokes a prefix of the chain, in order: it is non-empty when the chain is, every invoked step but the last calls `next`, and a run that stops early stops right after a step that does not call `next` |
| `Handlers.FillParams` | route.js:27-31 | the filling loop builds exactly `BuildParams(names, args)` |
| `Handlers.Drain` | route.js:39-47 | the `next` loop invokes `Invoked(chain)` and leaves in the chain exactly the steps it did not invoke |
| `Handlers.Execute` | route.js:26-48 | the state's params are `BuildParams(names, args)` and its query is the request's (or empty); the steps run are `Invoked` of the chain; the shared chain afterwards holds only the steps not run |
| `Handlers.RunWithCursor` | route.js:39-47 | walking the chain with a private index invokes `Invoked(chain)` without changing anything |
| `Handlers.ExecuteWithCursor` | route.js:26-48 | corrected execute: the same params and the same steps as `Execute` on an unconsumed chain, with the chain left untouched |
| `Handlers.RerunFindsChainConsumed` | route.js:39-45 | when every step calls `next`, the first run invokes the whole chain and leaves it empty, so a second run invokes nothing |
| `Trie.Register` | route.js:76-94 | `register` itself; it has no contract of its own, and `Trie.RegisterTarget`, `Trie.RegisterFrame`, `Trie.RegisterAddsOnlyPath` and `Trie.RegisterWellFormed` state what it does |
| `Trie.Match` | route.js:97-116 | `match` itself: a bound result's arguments are the starting ones followed by at most one captured segment per path segment; `Trie.MatchFollowsChosen`, `Trie.MatchNeedsChosen` and `Trie.MatchArgsAgree` state which handler it returns |
| `Trie.RegisterTarget` | route.js:76-94 | after `register`, the node on the segments' path exists and holds a new handler for the method; its path and chain are the ones given and its names are the `:` names, colon dropped, in root-to-leaf order; any earlier handler for that method is replaced, and the node's other methods are kept |
| `Trie.RegisterFrame` | route.js:76-94 | `register` leaves the handlers of every other node unchanged |
| `Trie.RegisterAddsOnlyPath` | route.js:82-93 | a node exists after `register` exactly when it existed before or lies on the registered path: only the missing children along the path are created |
| `Trie.ReregistrationReplaces` | route.js:77-79 | registering the same method on a path of the same shape replaces the handler (last registration wins); `:a` and `:b` at one depth take the same shared variable child |
| `Trie.MatchFollowsChosen` | route.js:97-116 | along the walk the literal-first rule dictates (literal child if it exists, else the variable child), `match` returns the handler stored for the method at the walk's end, bound to the segments captured at variable steps, or nothing if no handler is stored there |
| `Trie.MatchNeedsChosen` | route.js:97-116 | `match` succeeds only when such a literal-first walk over all the segments exists; a failure deeper in a literal branch is not retried through the variable child |
| `Trie.ChosenUnique` | route.js:103-109 | the literal-first rule leaves no choice: there is at most one such walk |
| `Trie.RegisterWellFormed` | route.js:85-93 | `register` keeps the invariant that handlers `d` variable levels deep have exactly `d` parameter names |
| `Trie.MatchArgsAgree` | route.js:97-116 | on a well-formed trie every successful match captures exactly as many arguments as the handler has names |
| `Trie.RegisterThenMatchLiteral` | route.js:76-116 | after registering an all-literal path, matching the same segments returns the handler just stored |
| `Trie.LiteralWalkChosen` | route.js:103-108 | where the node of an all-literal path exists, the literal-first walk is exactly that path |
| `Trie.LiteralMatchFindsStored` | route.js:97-116 | on any trie, an all-literal path whose node holds a handler for the method is matched to that handler, whatever variable children exist |
| `Trie.LiteralMatchSurvives` | route.js:76-116 | a later `register` that is not for the same method on the same edge shape keeps an all-literal route's handler in place and still matched, so the route survives any sequence of such registrations |
| `Routing.Router.constructor` | route.js:125-129 | a new router has an empty root, no saved prefixes and an empty prefix |
| `Routing.Router.Add` | route.js:147-152 | `add` registers the method under the prefix plus the path's segments, with a fresh chain of the flattened steps, and returns true; the trie invariant is kept |
| `Routing.Router.AddFor` | route.js:156 | the method sugar passes its steps to `add` as one array, which gives the same chain as passing them directly |
| `Routing.Router.Get` | route.js:155-157 | `get` is `add` with method `GET` |
| `Routing.Router.Put` | route.js:160-162 | `put` is `add` with method `PUT` |
| `Routing.Router.Post` | route.js:165-167 | `post` is `add` with method `POST` |
| `Routing.Router.Delete` | route.js:170-172 | `delete` is `add` with method `DELETE` |
| `Routing.Router.Route` | route.js:175-182 | every handler `route` returns is bound to exactly as many arguments as it has names |
| `Routing.RouteFindsLiteralRoute` | route.js:147-151 | after an all-literal path is added, routing that method and path returns a handler with that path and chain |
| `Routing.LiteralRouteSurvives` | route.js:147-182 | after an all-literal route and then another route are added, routing the first returns its handler unless the second is for the same method on a path of the same shape (which overwrites it) |
| `Scenarios.DriverOutcomes` | test/route.js:7-50 | in the driver's trie, `/`, `/test`, `/test/two`, `/chain` and `/early` are found; `/nothing` is not; `/test/yep/echo` reaches `/test/:var/echo` with `yep` captured; `/test/yep` is not found |
| `Scenarios.DriverVariableOutcomes` | test/route.js:47-48 | `/test/yep/echo` reaches `/test/:var/echo` with `yep` captured, and `/test/yep` is not found |
| `Scenarios.SplitTest` | test/route.js:8 | `/test` splits into `test` |
| `Scenarios.SplitNothing` | test/route.js:45 | `/nothing` splits into `nothing` |
| `Scenarios.SplitChain` | test/route.js:15 | `/chain` splits into `chain` |
| `Scenarios.SplitEarly` | test/route.js:25 | `/early` splits into `early` |
| `Scenarios.SplitTestTwo` | test/route.js:9 | `/test/two` splits into `test`, `two` |
| `Scenarios.SplitTestYep` | test/route.js:48 | `/test/yep` splits into `test`, `yep` |
| `Scenarios.SplitEchoPattern` | test/route.js:11 | `/test/:var/echo` splits into `test`, `:var`, `echo` |
| `Scenarios.SplitEcho` | test/route.js:47 | `/test/yep/echo` splits into `test`, `yep`, `echo` |
| `Scenarios.NoBacktracking` | route.js:103-115 | `/a/b/c` matches `/a/:x/c` alone; once `/a/b/d` is added the walk takes literal `b`, fails, and does not retry `:x` |
| `Scenarios.LiteralPrecedence` | route.js:103-108 | with `/users/admin` and `/users/:id`, `/users/admin` finds the literal route and `/users/42` the variable one, capturing `42` |
| `Scenarios.PostsPatternMatched` | route.js:86-87 | `/users/42/posts/7` against `/users/:id/posts/:postId` returns the handler with names `id`, `postId` bound to args `42`, `7` |
| `Scenarios.ParamsInDeclarationOrder` | route.js:86-87 | `/users/42/posts/7` against `/users/:id/posts/:postId` gives names `id`, `postId`, args `42`, `7`, and params `{id: 42, postId: 7}` |
| `Scenarios.RepeatedNameLaterWins` | route.js:29-31 | names `x`, `x` with args `1`, `2` give params `{x: 2}` |
| `Scenarios.DriverChainFlattens` | test/route.js:15-23 | steps 1, 2, an array of 3 and 4, then 5 flatten to the chain 1 to 5 |
| `Scenarios.ShortCircuit` | route.js:40-47 | in `[s1, s2, s3]` where `s2` does not call `next`, only `s1` and `s2` run; in the driver's `/early` chain only the first step runs |
| `Scenarios.ChainRouteRunsOnce` | route.js:39-55 | on a router, `/chain` is routed and executed, then routed again: the second `route` hands out a handler sharing the same, now empty, chain, so the first execution runs steps 1 to 5 and the second runs nothing |
| `Scenarios.ChainRouteRunsEveryTime` | route.js:26-48 | with the cursor-based execute, `/chain` routed and executed, then routed and executed again, runs steps 1 to 5 both times |

## Left out

- `app.js`: HTTP server, stream and buffer plumbing, option merging, unfinished stubs, and a static-path resolver that would throw. None of it is routing logic.
- `Router.prototype.prefix` (route.js:132-144): the constructor's `prefix` field shadows it, so it cannot be called. It is also broken: it pushes the split prefix as one element and mutates the array it saved. The `prefix` and `prefixes` fields are modelled. `Router.Valid` records that `prefix` stays empty, so nested prefix scopes are not modelled.
- The `parts === null` branch of `route` (route.js:177-179): dead code, since `splitPath` always returns an array.
- Step bodies: arbitrary closures (with `console.log`) become `Step(id, callsNext)`. The model does not cover a step that calls `next` more than once, calls it later (asynchronously), does work after calling it, or throws; nor a falsy chain entry (such as `undefined` passed as a step), at which `if (fn)` (route.js:42) stops the run and leaves the rest of the chain in place.
- The request and response handles in the state passed to steps are not modelled. `req.url.query` is modelled as an opaque optional map of strings. In the source it is any parsed query object (`url.parse(raw.url, true)` at app.js:29, whose values may also be arrays of strings), which the router copies without reading; the `|| {}` fallback never fires for the requests app.js builds. Since the value is only copied, the simpler type changes no result.
- `Handlers.Execute` and `Handlers.ExecuteWithCursor` require a bound handler with at least as many arguments as names. On an unbound handler that has names, `this.args[i]` would throw; with no names the loop never reads `this.args`, and with too few arguments it gives `undefined` values. The requirement holds wherever the source calls `execute`, because `route` always binds the handler first (route.js:100). `Routing.Router.Route` is proved to return only handlers that meet this requirement.
- The `true` that `Node.register` returns from every call is the `ok` result of `Routing.Router.Add`. `get`/`put`/`post`/`delete` discard it, as the source does.
- Trie nodes are updated in place in the source. Here they are values that `Register` rebuilds. Nodes are never shared outside the trie, so the two are indistinguishable. The chain, which *is* shared, is a heap object.
- The `parts` array that `register`/`match` consume with `shift()` is fresh per call and never seen afterwards. The `params` and `args` arrays they fill with `push` are stored in the handler (route.js:78, 21 and 58) but never mutated after the call that fills them. All three are modelled as sequence values.
- JavaScript plain-object keys (`__proto__`, `constructor`, ...): `values` and `methods` are modelled as maps.
- Concurrency, and the test driver's printing and its `handler.execute()` call without a request (which would throw at `req.url`).

## Findings

| source | as written | input that shows it | evidently intended | confidence | as-written member | corrected member |
|---|---|---|---|---|---|---|
| route.js:39-45 | `execute` shifts each invoked step off `this.chain`, which `bind` shares with the registered handler (route.js:55), so serving a route consumes its chain | register `GET /chain` with five steps that all call `next`, then route and execute it twice: the second execution runs no step | every execution runs the registered chain from its first step, using a cursor private to that execution | medium, not executed | `Scenarios.ChainRouteRunsOnce` | `Handlers.ExecuteWithCursor` |

`Scenarios.ChainRouteRunsOnce` shows the defect end to end on a router, and
`Scenarios.ChainRouteRunsEveryTime` shows the corrected behaviour. `Handlers.Execute`
stays as written so that the model keeps the source's behaviour.
