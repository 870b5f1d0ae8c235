# trout router: a Dafny model of its routing core

trout is a small HTTP router for Go. A `Router` holds URL templates
registered with `Endpoint` (matches the whole path) and `Prefix` (matches the
path and anything below it). Pieces written `{name}` are parameters, and each
template gets handlers per HTTP method, with `*` as the catch-all. For an
incoming request, `getHandler` takes the following steps:

1. It strips the router prefix from the path, trims and lower-cases it, and
   splits it at slashes.
2. It asks the route trie for the candidate endpoints.
3. `pickNode` picks the best candidate using `scoreNode`.
4. The request is served by that endpoint's handler, or answered 404
   (nothing found) or 405 (found, but not for this method).

trie.go has a second, self-contained trie of branches with its own search
(`trie.match`), parameter extraction (`vars`), priorities (`score`) and path
rendering (`pathString`).

The model has six modules:

- `Common`: `Option`, which stands for Go's nil.
- `Strings`: the parts of Go's `strings` package the router uses. These are
  `Trim`, `TrimPrefix`, ASCII `ToLower`, `Split` and `Join`, with the
  round trips between `Split` and `Join` proved.
- `RouteKeys`: `keysFromString` and the prefix marking of `Router.Prefix`.
- `RouteScore`: the route trie's node arena, `scoreNode` and `pickNode`.
- `Router`: `route`, the 404/405/serve decision of `getHandler`, and the
  `Router` class with its registration methods.
- `BranchTrie`: the branch trie of trie.go.

Both tries are arenas: a sequence of node values addressed by index, where
every parent has a smaller index than its child. The state the Go code
updates in place becomes classes:

- `BranchTrie.Trie` holds the branches.
- `Router.Router` holds the prefix, whether the trie exists yet, and the node
  arena.

Handlers are values of a type parameter `H`.

## Model

| member | source | states |
|---|---|---|
| Strings.JoinSplit | route.go:215 | joining the pieces of `strings.Split` with the separator gives back the string |
| Strings.SplitJoin | route.go:215 | splitting a join of separator-free pieces gives back the pieces |
| RouteKeys.KeysFromString | route.go:298-314 | the loop builds exactly `TemplateKeys`: one key per slash-separated piece of the trimmed, lower-cased template, in order |
| RouteKeys.RenderKeyOf | route.go:304-310 | writing a piece's key back out (adding braces to a dynamic key) gives the piece |
| RouteKeys.KeyOfRender | route.go:304-310 | reading a written-out key gives the same key, for every key keysFromString can produce |
| RouteKeys.TemplateKeysRoundTrip | route.go:298-314 | a template yields at least one key, and joining the written-out keys with `/` gives the trimmed, lower-cased template |
| RouteKeys.TemplatePiecesAreLowerSlashFree | route.go:299-301 | no piece of a template contains a slash or an upper-case ASCII letter |
| RouteKeys.RootTemplate | route_test.go:73-75 | the template `/` yields the single static key with the empty value |
| RouteKeys.ParamTemplate | route_test.go:67-69 | `/{name}/` yields the single dynamic key `name`, for any lower-case, slash-free name |
| RouteKeys.PrefixKeys | route.go:357-360 | in the keys `Prefix` registers, exactly the last key is a prefix key, and every key keeps its value and kind |
| RouteScore.ScoreIsDigits | route.go:184-199 | scoreNode reads the weights from the root down as the decimal digits of a number |
| RouteScore.ScoreBelowPenalty | route.go:156-162 | every raw score is below the 10^(len(pieces)+1) penalty, so a candidate lacking the method always scores below zero |
| RouteScore.EarlierSegmentsDominate | route.go:183 | of two equally deep nodes, the one with the higher weight at the first segment where they differ scores higher |
| RouteScore.PickNode | route.go:142-172 | pickNode returns nil exactly when no candidate is a non-nil node with a terminator; otherwise it returns the terminator of the first candidate with the highest penalised score. The penalty rule is a parameter: `ExactMethodOnly` is the code as written, `MethodOrCatchAll` the corrected rule (see Findings) |
| RouteScore.UnpenalisedWins | route.go:158-162 | if any eligible candidate escapes the penalty, the endpoint picked escapes it too. As written this means having the exact method; under the corrected rule it means having the method or `*` |
| RouteScore.LongerChainScoresHigher | route.go:177-178 | a node with more ancestors scores higher than one with fewer, whatever the keys, when the root key is not nul |
| RouteScore.StaticPrefixTiesDynamicPrefix | route.go:179 | a static prefix key and a dynamic prefix key under the same parent score the same: the dynamic one is not lower |
| RouteScore.PrefixTiesDynamic | route.go:181-182 | a prefix key and a dynamic endpoint key under the same parent score the same: the prefix is not lower |
| RouteScore.PickOfTwo | route.go:163-166 | of two eligible candidates, the second is picked only when it scores strictly higher |
| RouteScore.TieGoesToFirst | route.go:163-166 | of two candidates that tie and both serve the method, pickNode returns the one listed first |
| RouteScore.CatchAllLoses | route.go:156-166 | with `/v1` registered for POST only and `/{id}` for `*` only, GET /v1 picks `/v1` as written (-78 against -79), although `/v1` has neither GET nor `*` and `/{id}` has `*` |
| RouteScore.CatchAllWinsIntended | route.go:114-116 | under the corrected penalty, the same request picks `/{id}` |
| RouteScore.V1Example | route_test.go:23-46 | with endpoints `/v1` (GET) and `/{id}` (GET, POST), GET /v1 picks the static endpoint and POST /v1 the dynamic one |
| Router.FindRoute | route.go:117-138 | route is nil exactly when no candidate is eligible; otherwise, for the endpoint pickNode picks under the given penalty rule, it carries the picked endpoint's handler for the method and lists each of its methods exactly once |
| Router.DecideOnRoute | route.go:232-245 | for a found route: 404 exactly when the endpoint has no methods; 405 exactly when it has some but neither the method nor `*`; otherwise the method's handler, else the `*` handler |
| Router.CatchAllAnswered405 | route.go:114-136 | as written, getHandler answers GET /v1 with 405 in the case of RouteScore.CatchAllLoses, although the `/{id}` endpoint has a handler for GET through `*` |
| Router.IntendedRouteServes | route.go:114-116 | under the corrected penalty, when some eligible candidate can serve the method (its own entry or `*`), the route found is served with the picked endpoint's handler, never answered 404 or 405 |
| Router.GetPostEndpoint | route_examples_test.go:122-145 | an endpoint whose GET and POST share one handler serves GET and POST with it and answers PUT with 405 |
| Router.RequestLikeTemplate | route.go:213-215 | each key of a template, written out, equals the request piece at its position when the request spells the template out |
| Router.AssignAll | route.go:414-418 | every listed method maps to the new handler; other methods keep their handlers; no other method is added |
| Router.Router.constructor | route.go:68-73 | the zero Router has no prefix and no trie |
| Router.Router.SetPrefix | route.go:262-264 | only the prefix changes |
| Router.Router.Endpoint | route.go:284-295 | creates the trie with its zero root if absent, keeps an existing trie, and returns the template's keys |
| Router.Router.Prefix | route.go:349-363 | as Endpoint, but with the last key marked as a prefix key |
| Router.Router.Handler | route.go:322-324 | only the node's `*` entry changes, to the handler |
| Router.Router.MethodsHandler | route.go:414-418 | only the node's table changes, to `AssignAll` of the listed methods |
| Router.Router.GetHandler | route.go:201-246 | no trie, or no eligible candidate, is a 404; otherwise for the endpoint pickNode picks under the penalty as written: 404 exactly when it has no methods, 405 exactly when it has neither the method nor `*`, else its handler for the method |
| BranchTrie.WildcardCheck | trie.go:170-185 | for a wildcard child of a trie built by addChild (always a parameter), check accepts any piece when the child's name is non-empty and only the empty piece otherwise, except that a last piece never matches a child without handlers |
| BranchTrie.MatchSpecMembers | trie.go:125-147 | a branch is a result of branch.match exactly when the input is non-empty and the branch is the static child for the first piece, or a wildcard child that accepts it |
| BranchTrie.BranchMatch | trie.go:125-147 | branch.match returns the static child, then the accepting wildcard children in order, and reports one piece matched exactly when there is a result |
| BranchTrie.Search | trie.go:64-94 | the worklist loop ends, and it collects exactly the leaves of the search tree of `Reach`, in the order of the Go stack |
| BranchTrie.SearchFindsExactlyLeaves | trie.go:71-94 | a branch is collected exactly when it lies at depth len(input) and the walk from the root to it matches every piece |
| BranchTrie.ServingLeavesMembers | trie.go:98-112 | a leaf is kept for selection exactly when it has the method or `*` |
| BranchTrie.Select | trie.go:96-122 | the result is the first serving leaf of highest priority when one has a positive priority; otherwise the last leaf, or nil when there are none |
| BranchTrie.SelectedPicksServing | trie.go:96-122 | when some leaf serves the method, a serving leaf of maximal priority is returned; otherwise the last leaf is returned (the 405 signal) |
| BranchTrie.MatchPicksServingLeaf | trie.go:63-123 | trie.match returns a matching leaf that serves the method with the highest priority when one exists, else the last matching leaf, else nil |
| BranchTrie.PriorityIncreases | trie.go:201-211 | priorities are non-negative, every branch but the root is positive, and a child's priority is above its parent's |
| BranchTrie.VarsAreParamValues | trie.go:187-199 | vars maps each parameter name to the input pieces at that name's parameter branches on the path, in root-to-leaf order, and holds no other names |
| BranchTrie.RepeatedParamExample | route_examples_test.go:173-181 | for `/posts/{id}/comments/{id}` and `/posts/foo/comments/bar`, vars gives `id` the values `foo` then `bar` |
| BranchTrie.PathStringJoins | trie.go:213-227 | pathString is `/` followed by the written-out keys from the root down, joined by `/` |
| BranchTrie.PathStringSplits | trie.go:213-227 | with slash-free keys, splitting pathString after its leading slash gives back the written-out keys |
| BranchTrie.TopLevelPathString | trie.go:213-227 | the root's empty key still contributes `/`, so a branch directly under the root renders as `//` followed by its segment |
| BranchTrie.Trie.constructor | trie.go:13-16 | the zero trie has no root branch |
| BranchTrie.Trie.AddChild | trie.go:153-166 | appends a child one deeper with priority weight/(depth+1) plus the parent's. A parameter child goes to the end of the wildcard children, a static child replaces `staticChildren[key]`. Nothing else changes, and the trie stays well formed |
| BranchTrie.AddChildKeepsWellFormed | trie.go:153-166 | adding a child keeps every parent link, depth, priority and child index consistent |
| BranchTrie.Trie.SetHandler | trie.go:230-235 | only `methods[method]` of the branch changes |
| BranchTrie.Trie.Match | trie.go:63-123 | creates the root if there is none, and returns the selection over the leaves of the search for the input |

## Left out

- ServeHTTP and the default 404 and 405 handlers (route.go:16-26, 250-252) write to an HTTP response. The model stops at the `Decision` getHandler makes (`NotFound`, `MethodNotAllowed`, `Serve`). The 405 response's Allow header is not modelled.
- The custom Handle404 and Handle405 handlers (route.go:75-91) only choose which handler answers a 404 or 405. The model stops at the decision.
- The diagnostic headers getHandler writes (Trout-Methods, Trout-Pattern, Trout-Param-*) and RequestVars (route.go:29-51, 225-230) are request I/O.
- The Trout-Timer header (route.go:202-206) reads the clock.
- The trie's RWMutex and the concurrency rules are not modelled: the model is sequential.
- debug and debugWalk (trie.go:34-54) only format text for debugging.
- route_go1_22.go is not part of this model. It adapts the router to the standard library's pattern syntax.
- The route trie's own code is not part of this model: the node type, findNodes, trie.add, trie.vars and trie.pathString. Because of this:
  - the candidates that findNodes returns are an input to FindRoute and GetHandler, required only to be nodes of the arena whose ancestors fit in the pieces;
  - Endpoint and Prefix return the keys trie.add would insert, and a registered node is referred to by its index;
  - Router.Router therefore never holds an endpoint node: its arena is empty or the root alone, and the root has no terminator. Handler and MethodsHandler, which take a node index, can reach only the root, and GetHandler, reached through the class, always decides 404. The contracts of Router.FindRoute, Router.Router.GetHandler, Router.Router.Handler and Router.Router.MethodsHandler are stated over any well-formed arena, as trie.add would build;
  - Router.Route has no pattern and no parameters.
- Router.FindRoute lists the endpoint's methods in some order. Go's map iteration order is unspecified, so the model states only that each method appears exactly once.
- Handlers are opaque values. Registering a nil `http.Handler` cannot be expressed, so the route's handler is `None` only when the table has no entry.
- Endpoint.Methods and Prefix.Methods (route.go:390-406) only pair a node with a list of methods. Router.Router.MethodsHandler takes that pair as its arguments.
- Strings.ToLower lower-cases ASCII letters only. Go's `strings.ToLower` folds all of Unicode.
- RouteScore.ScoreNode computes with exact integers, and the branch priorities of trie.go are exact reals. The Go code uses float64, whose rounding is not modelled: for very long paths, `math.Pow10` and the sums lose precision.
- BranchTrie.Trie.SetHandler does not model the lazy creation of the `methods` map, which is the same as an empty map.
- Router.Router.GetHandler follows the code: pickNode penalises an endpoint that lacks the exact method even if it has a `*` handler. The promise at route.go:114-116 therefore does not hold of it; see Findings.
- BranchTrie.PathString follows the code, including the `//` at the start of every path below the root (BranchTrie.TopLevelPathString). No file of this model's sources calls branch.pathString (route.go:128 calls the route trie's pathString, which is not part of this model), so this is recorded as a quirk, not a finding.
- RouteScore.ScoreNode follows the code where two of the promises at route.go:179-182 do not hold. A dynamic prefix key weighs the same as a static prefix key (RouteScore.StaticPrefixTiesDynamicPrefix), so `Prefix("/prefix/static")` and `Prefix("/prefix/{id}")` both score 221 on GET /prefix/static. A prefix key weighs the same as a dynamic key at the same depth (RouteScore.PrefixTiesDynamic), so `Prefix("/a")` and `Endpoint("/{id}")` both score 21 on GET /a. pickNode then returns the candidate findNodes lists first (RouteScore.TieGoesToFirst). findNodes is not part of this model, so the handler that route_test.go:35 expects cannot be derived here; this is recorded as a quirk, not a finding.

## Findings

| source | as written | input that shows it | evidently intended | confidence | as-written member | corrected member |
|---|---|---|---|---|---|---|
| route.go:114-116, 160 | pickNode penalises an endpoint that lacks the exact request method, even when it has a `*` handler that `route` serves (route.go:133-136) | `/v1` registered for POST only, `/{id}` with `Handler` only (`*`); GET /v1. Scores are 22 - 100 for `/v1` and 21 - 100 for `/{id}`, so `/v1` is picked and the answer is 405 | the penalty applies only when the endpoint has neither the method nor `*`, so a route that can serve the method is always chosen over one that cannot | not executed; proved on the model | RouteScore.CatchAllLoses, Router.CatchAllAnswered405 | Router.IntendedRouteServes, RouteScore.UnpenalisedWins, RouteScore.CatchAllWinsIntended |
