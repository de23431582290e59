# A verified model of the tide web framework core

This project models the request-handling core of tide, the Rust web
framework of the http-rs organisation, across the generations of the
code base that live side by side in the repository. Each module follows
one area of the framework:

- `PathTable` (path_table.dfy): the segment trie behind routing (`PathTable`).
  `src/url_table.rs` is the same algorithm under another name, so it is not
  modelled a second time.
- `Routers` (routers.dfy): the method router, which tries the verb's table,
  then the all-methods table, lets HEAD fall back to GET, and answers 405 or
  404 with built-in endpoints. The four older routers share one cascade
  without the all-methods table or 405, and `LegacyRoute` models it once.
- `Params` (params.dfy): layered route parameters, `Request::param` and the
  path rest that prefix-stripped endpoints see.
- `Routes` (routes.dfy): `Route::at`, `nest`, `strip_prefix`, the verb
  helpers and `StripPrefixEndpoint`.
- `Middleware` (middleware.dfy): the `Next` cursor and the onion-shaped run of
  a middleware chain around an endpoint. Each middleware either answers
  itself or calls `next` once and post-processes the response.
- `Combinators` (combinators.dfy): `Before`/`After`, the error handler, the
  default-headers middleware and the log middleware.
- `Server` (server.dfy): `Server`, the older `Server` builder with its
  `Service`, and `App`, dispatching through router, middleware and endpoint,
  and nesting one server inside another.
- `Subdomains` (subdomains.dfy): the subdomain holder, the subdomain router
  and the namespace.
- `Cors` (cors.dfy): the three CORS middlewares.
- `Compression` (compression.dfy): the older compression middleware and the
  `tide-compression` compression and decompression middlewares.
- `Stores` (stores.dfy): `TypeMap`, `State` extensions, the configuration
  stores and `ConfigurationBuilder`.
- `Responses` (responses.dfy): `IntoResponse`, `WithStatus`, the `Response`
  builder methods, `Redirect` and `ResponseBuilder`.
- `Extractors` (extract.dfy): tide-core's `Error` and `ResultExt`, and the
  header, path, named-segment and query extractors.
- `Cookies` (cookies.dfy): `Cookie`/`CookieBuilder` and the `Cookies`
  extractor.
- `Sessions` (sessions.dfy): the signed-cookie session middleware and the
  older `tide-sessions` middleware with its `SessionMap`.
- `StaticFiles` (static_files.dfy): `ServeDir` and the static-file example
  server.
- `ServerTest` (server_test.dfy): the `ServerTest` request helpers.
- `Forms` (forms.dfy): form and multipart body extraction and the `form`
  response.

`Wrappers`, `Text` and `Http` hold the shared vocabulary: `Option` and
`Result`, string splitting and trimming, and the HTTP request and response
records with their header map.

Several things the framework delegates to other crates are function
parameters of the model:
- the route recognizer;
- percent-decoding;
- the compression codecs;
- the HMAC, key derivation and base64 of the session signer;
- the file system;
- the URL parser and header validation of `http-types`;
- serde encoding and decoding;
- the order in which a `HashMap` is iterated.

A lemma that needs one of these to behave in a certain way, for example a
decoder that inverts its encoder, says so in its `requires`.

## Model

| member | source | states |
|---|---|---|
| PathTable.EmptyHasOnlyRoot | path_table/src/lib.rs:77-83 | a new table has exactly one node, its root, and no resource anywhere |
| PathTable.Route | path_table/src/lib.rs:106-140 | whatever a lookup returns is the resource stored at some node of the table |
| PathTable.DescendSkipsEmpty | path_table/src/lib.rs:106-140 | empty segments, from leading, trailing or doubled slashes, never influence the walk |
| PathTable.SameSegmentsSameRoute | path_table/src/lib.rs:273-290 | two paths with the same non-empty segments, such as "foo" and "//foo//", route identically |
| PathTable.RootAliases | path_table/src/lib.rs:260-271 | "", "/" and "//" all reach the root; they match iff the root holds a resource, and then with no captures |
| PathTable.LiteralFirst | path_table/src/lib.rs:117-121 | a literal child named by the segment is always taken, even when a wildcard child exists |
| PathTable.WildcardOtherwise | path_table/src/lib.rs:122-130 | with no literal child the wildcard child is taken and captures the segment, under its name if it has one; with no wildcard the lookup fails |
| PathTable.DescendSomeIffGreedy | path_table/src/lib.rs:106-140 | the walk succeeds iff a literal-before-wildcard step sequence exists for the segments |
| PathTable.DescendFollowsGreedy | path_table/src/lib.rs:106-140 | the walk ends at the node that sequence leads to, having captured exactly the wildcard segments in order |
| PathTable.DescendNamesGreedy | path_table/src/lib.rs:106-140 | along the greedy walk the named captures are the names of the wildcards passed, bound in path order to the segments they consumed; unnamed wildcards bind nothing |
| PathTable.GreedyUnique | path_table/src/lib.rs:106-140 | there is at most one such sequence, so the lookup never backtracks |
| PathTable.RouteIsGreedyWalk | path_table/src/lib.rs:106-140 | a lookup matches iff the literal-first walk ends at a node holding a resource, and returns that resource with the captured segments in `vec` and, in `map`, each named wildcard passed bound to its segment, a later binding of a name overriding an earlier one |
| PathTable.Install | path_table/src/lib.rs:149-183 | after installing a pattern, the node its segments name exists |
| PathTable.SetupTable | path_table/src/lib.rs:149-183 | `setup_table` creates the node for the path, or reports a wildcard name conflict |
| PathTable.Setup | path_table/src/lib.rs:188-196 | `setup` leaves a resource at the pattern's node: the one already there, otherwise the default |
| PathTable.EmptyAcceptsNothing | path_table/src/lib.rs:249-258 | an empty table matches no path |
| PathTable.InstallAccepts | path_table/src/lib.rs:149-196 | installing changes the resource at the pattern's node only, keeping an existing one, otherwise storing the default |
| PathTable.InstallFailsIffConflict | path_table/src/lib.rs:159-168 | installing fails iff some `{name}` segment meets a wildcard already registered at that node under another name |
| PathTable.InstallIdempotent | path_table/src/lib.rs:149-183 | installing the same pattern twice gives the table the first install gave |
| PathTable.SetupTwice | path_table/src/lib.rs:188-196 | setting up a path a second time returns the first resource and leaves the table as it was |
| PathTable.InstallSameOnStored | path_table/src/lib.rs:188-196 | once a node holds a resource, the default offered by a later setup is irrelevant |
| PathTable.DescendLiteral | path_table/src/lib.rs:106-140 | a wildcard-free path whose node exists is reached with nothing captured |
| PathTable.SetupThenRouteLiteral | path_table/src/lib.rs:293-318 | after setting up a wildcard-free path, routing that path returns the resource stored there and no captures |
| PathTable.FallbackSetup | path_table/src/lib.rs:392-405 | setting up "foo", "foo/bar" and "foo/{}/bar" builds the table of the wildcard-fallback fixture |
| PathTable.FallbackInstalls | path_table/src/lib.rs:392-405 | the fixture's three registrations, step by step, yield exactly that table |
| PathTable.FallbackWalks | path_table/src/lib.rs:392-405 | the fixture's walks: "foo/bar/bar" dead-ends at the literal "bar", "foo/baz/bar" takes the wildcard |
| PathTable.WildcardFallbackNoBacktrack | path_table/src/lib.rs:392-405 | "foo/bar/bar" does not match, because the literal "bar" is preferred and the walk does not back up to the wildcard |
| PathTable.WildcardFallbackCapture | path_table/src/lib.rs:392-405 | "foo/baz/bar" matches the third resource and captures "baz" |
| PathTable.NamedInstalls | path_table/src/lib.rs:407-428 | registering "a/{x}", "a/{x}/{y}" and "{}" step by step yields the named-wildcard fixture table |
| PathTable.NamedSetup | path_table/src/lib.rs:407-428 | `setup` of those three paths on a new table succeeds and builds that table |
| PathTable.NamedWildcardSetup | path_table/src/lib.rs:407-412 | the named_wildcard test's registrations "foo/{foo}", "foo/{foo}/{bar}" and "{}" build that table |
| PathTable.NamedWalks | path_table/src/lib.rs:407-428 | the fixture's walks: a segment under `a` binds `x`, a second one binds `y` too, and a lone segment takes the unnamed root wildcard and binds nothing |
| PathTable.NamedWildcardRoutes | path_table/src/lib.rs:414-427 | "foo/a" captures ["a"] with foo=a; "foo/a/b" captures ["a","b"] with foo=a and bar=b; "c" captures ["c"] with an empty map |
| PathTable.ConflictingWildcard | path_table/src/lib.rs:430-436 | after "foo/{foo}", setting up "foo/{bar}" fails with a conflict naming both wildcards |
| PathTable.PositionsExist | path_table/src/lib.rs:207-218 | the positions iteration walks are exactly the nodes that exist in the table |
| PathTable.PushChildren | path_table/src/lib.rs:207-218 | each literal child is pushed on the iterator's stack exactly once, whatever order the child map yields |
| PathTable.Resources | path_table/src/lib.rs:207-218 | iteration yields every stored resource exactly once, each from its own node, and nothing else: the values yielded are exactly the resources stored somewhere in the table |
| Routers.SelectionComponents | src/router/router.rs:63-72 | `into_components` splits a selection into endpoint and parameters and loses nothing |
| Routers.BuiltinStatus | src/router.rs:90-100 | only the two built-in endpoints answer by themselves, with 404 and 405 |
| Routers.NewRouterEmpty | src/router.rs:26-31 | `NewRouter`: a new router has an empty table for every method and an empty all-methods table |
| Routers.Add | src/router.rs:33-43 | `add` appends the route to its method's table and leaves the other methods and the all-methods table alone |
| Routers.AddAll | src/router.rs:45-47 | `add_all` appends to the all-methods table only |
| Routers.Route | src/router.rs:49-87 | the built-in endpoints are selected with no parameters |
| Routers.RouteSelectsRegistered | src/router.rs:49-87 | with a sound recognizer, a selected endpoint was registered for the method, for all methods, or for GET when the verb is HEAD |
| Routers.RouteOwnMethodFirst | src/router.rs:50-55 | a match in the verb's own table (`Lookup`, which asks the recognizer only when the verb has a table) wins over everything else |
| Routers.RouteAllMethodsSecond | src/router.rs:56-61 | otherwise a match in the all-methods table is selected |
| Routers.RouteHeadAsGet | src/router.rs:62-67 | a HEAD request no table claims is routed exactly as the same GET request |
| Routers.RouteMissStatus | src/router.rs:68-86 | an unmatched request gets 405 iff another method's table knows the path, and 404 iff none does, with no parameters |
| Routers.NewRouterNotFound | src/router.rs:26-31 | a fresh router answers every request with the not-found endpoint |
| Routers.LegacyAdd | src/router/router.rs:37-42 | the older routers append the route to its method's table only |
| Routers.LegacyRoute | src/router/router.rs:44-60 | the older routers never answer 405, and their not-found carries no parameters |
| Routers.LegacyRouteCases | src/router/router.rs:44-60 | the verb's own match wins, HEAD falls back to GET, and 404 is chosen iff neither matches |
| Routers.RouteRefinesLegacy | src/router.rs:49-87 | without all-methods routes, the newer router selects what the older one selects, except where it answers 405 |
| Routers.LegacyNewNotFound | tide-router/src/router.rs:28-61 | a new older router has no table for any method and answers every request with the 404 endpoint and no parameters |
| Routers.LegacyRouteSelectsRegistered | src/router/core.rs:34-56 | with a sound recognizer, a selected endpoint was added under the request's method, or under GET for a HEAD request |
| Routers.LegacyAddKeepsOtherMethods | tide/src/router.rs:33-61 | adding a route under one method leaves the routing of every other method as it was, except that HEAD may fall back to a new GET route |
| Params.Find | src/request.rs:256-271 | a key is found iff some parameter layer holds it |
| Params.FindInnermost | src/request.rs:256-271 | the value found is the one of the innermost layer holding the key |
| Params.PushShadows | src/request.rs:256-271 | a pushed nested layer shadows the outer ones for its own keys and leaves other keys untouched |
| Params.Param | src/request.rs:264-271 | `param` reports a missing key iff no layer holds it, and otherwise returns exactly the parse of the innermost value, success or error |
| Params.Rest | src/request.rs:497-501 | the path rest comes only from the innermost layer |
| Params.RestIsInnermost | src/request.rs:497-501 | when the innermost layer holds the rest key, the rest agrees with parameter lookup |
| Params.IsEmpty | src/request.rs:397-399 | emptiness is unknown iff the body length is, and otherwise holds iff the length is 0 |
| Routes.JoinPath | src/server/route.rs:32-48 | joining with "/" keeps the base, and every join starts with the base |
| Routes.JoinPathSegments | src/server/route.rs:32-48 | a joined path's non-empty segments are the base's followed by the suffix's |
| Routes.JoinPathOneSeparator | src/server/route.rs:35-45 | exactly one '/' is inserted between base and suffix when neither side has one, and none is added otherwise |
| Routes.NewRoute | src/server/route.rs:23-29 | a new route sits at its path without prefix stripping |
| Routes.At | src/server/route.rs:32-48 | `at` moves to the joined path and does not inherit prefix stripping |
| Routes.StripPrefixRoute | src/server/route.rs:57-60 | `strip_prefix` marks the route without moving it |
| Routes.RestPath | src/server/route.rs:77-87 | a prefix route's catch-all pattern is the path joined with the wildcard that captures the rest |
| Routes.RegisterMethod | src/server/route.rs:77-87 | registering a verb appends one entry, or two catch-all entries wrapped in `StripPrefixEndpoint` for a prefix route, to that verb's table only |
| Routes.RegisterAll | src/server/route.rs:92-102 | `all` appends the same entries to the all-methods table only |
| Routes.Nest | src/server/route.rs:65-74 | nesting registers the inner server for all methods at the path and at its catch-all, prefix-stripped, and returns the route unstripped |
| Routes.PrefixAddsCatchAll | src/server/route.rs:77-87 | a prefix route registers the plain path and its catch-all where a plain route registers only the path |
| Routes.HelpersOneToOne | src/server/route.rs:105-156 | each verb helper registers its own method, and the helper names and methods correspond one to one |
| Routes.LegacyRegister | tide/src/route.rs:46-49 | the older `method` appends the endpoint to that verb's table only |
| Routes.NestSamePath | tide/src/route.rs:40-43 | `at("/")` stays at the current path, so the older `nest` works on the same route |
| Routes.LegacyHelpersOwnVerb | src/route.rs:43-100 | each verb helper of that generation extends its own verb's table by exactly (current path, endpoint) and no other table |
| Routes.StripPrefixUrl | src/server/route.rs:177-197 | the stripped URL keeps scheme, authority and query, and its path is "/" followed by the path rest, or just "/" |
| Routes.StripPrefixIdempotent | src/server/route.rs:177-197 | stripping twice gives the same URL as stripping once |
| Middleware.NewNext | src/middleware/mod.rs:52-63 | a new `Next` starts at the first middleware of the chain, before the endpoint |
| Middleware.RunShape | tide-core/src/middleware.rs:31-38 | `Run` (`Next::run`): a run enters middlewares in order from the cursor, reaches the endpoint iff every one calls `next`, and exits them in reverse order |
| Middleware.RunCounts | tide-core/src/middleware.rs:31-38 | in one run each middleware from the cursor up to the run's depth is entered once and exited once, no other is, and the endpoint is called once exactly when every entered middleware calls `next` |
| Middleware.RunOnce | tide-core/src/middleware.rs:31-38 | the endpoint runs at most once, and exactly once iff every middleware calls `next` |
| Middleware.RunEntersOnce | tide-core/src/middleware.rs:31-38 | each middleware is entered at most once per run, because `Next` is consumed when it is run |
| Middleware.RunBalanced | tide-core/src/middleware.rs:31-38 | each middleware exits exactly as often as it is entered |
| Middleware.ShortCircuit | tide-core/src/middleware.rs:12-19 | a middleware that answers itself ends the run with its answer, and nothing after it runs |
| Middleware.EmptyChain | src/middleware/mod.rs:66-73 | with no middleware the run is the endpoint call alone |
| Middleware.RunSplit | tide-core/src/middleware.rs:31-38 | running a chain a+b equals running a around an endpoint that runs b |
| Middleware.RunShift | tide-core/src/middleware.rs:31-38 | a cursor inside the second part of a chain behaves like the same cursor on that part alone |
| Combinators.BeforeRuns | src/utils.rs:34-41 | `Before` transforms the request and then runs the rest of the chain on it |
| Combinators.AfterRuns | src/utils.rs:73-80 | `After` runs the rest of the chain and transforms its response |
| Combinators.HandleOutcome | src/error/error_handler.rs:89-102 | success and errors of other kinds pass through; an error of the handled kind is replaced by the mapper's result |
| Combinators.ErrorHandlerRuns | src/error/error_handler.rs:89-102 | inside a chain the error handler changes exactly the outcomes of its kind |
| Combinators.ErrorHandlerName | src/error/error_handler.rs:107-109 | the name is the fixed prefix followed by the handled error type's name |
| Combinators.ErrorHandlerNameInjective | src/error/error_handler.rs:107-109 | handlers with the same name handle the same error type |
| Combinators.NewDefaultHeaders | src/middleware/default_headers.rs:20-23 | the middleware starts with no default headers |
| Combinators.AddDefault | src/middleware/default_headers.rs:27-39 | adding a default fails iff the value is not a valid header value, and otherwise appends it |
| Combinators.FillDefaults | src/middleware/default_headers.rs:43-50 | headers the response sets are kept; each missing one with a default gets its first default value; nothing else is added |
| Combinators.FillDefaultsIdempotent | src/middleware/default_headers.rs:43-50 | filling defaults twice is filling them once, and no defaults change nothing |
| Combinators.DefaultHeadersRuns | src/middleware/default_headers.rs:43-50 | in a chain the middleware keeps status and body and fills the default headers into the inner response |
| Combinators.DefaultHeadersPresent | tide-headers/src/lib.rs:52-61 | after the chain, headers the inner response had keep their values and every default name is present |
| Combinators.LogLevel | src/log/middleware.rs:27-74 | errors and 5xx responses are logged as errors, 4xx as warnings, everything else as info |
| Combinators.LogTransparent | src/log/middleware.rs:27-74 | the log middleware never changes the outcome of the chain |
| Combinators.LogLevelOfReply | src/log/middleware.rs:27-74 | the level logged for what `next.run` returns is the level of the reply sent: error iff a failure or a 5xx is sent, warn iff a 4xx, info otherwise |
| Server.Execute | src/router.rs:90-100 | a selected endpoint is executed as registered |
| Server.BuiltinAnswers | src/router.rs:90-100 | the built-in endpoints answer with an empty 404 or 405 response |
| Server.StripPrefixCall | src/server/route.rs:177-197 | a prefix-stripped endpoint sees the same state, verb and parameters, with the URL path replaced by "/" plus the path rest |
| Server.DispatchOnce | src/server.rs:422-447 | `Dispatch` (the routing and chain call of `respond`): it runs the endpoint at most once, exactly when every middleware calls `next`, and runs each middleware at most once |
| Server.DispatchBare | src/server.rs:433-445 | without middleware the selected endpoint answers, and its parameters shadow the request's earlier layers |
| Server.DispatchNotFound | src/server.rs:433-445 | a path no table knows gets an empty 404 |
| Server.WithStateFresh | src/server.rs:201-207 | a new server has an empty router, no middleware and the given state |
| Server.AddMiddleware | src/server.rs:290-299 | middleware is appended at the end of the chain, and adding fails iff the server has already been shared |
| Server.Register | src/server.rs:275-279 | routes are registered through the route builder, and registering fails iff the server has already been shared |
| Server.CloneServer | src/server.rs:449-457 | a clone shares router, state and middleware with the original |
| Server.MiddlewareInOrder | src/server.rs:290-299 | two middlewares added one after the other run in the order added |
| Server.NoRegistrationAfterClone | src/server.rs:290-299 | while a clone is alive neither middleware nor routes can be added, because `Arc::get_mut` fails on a shared router or chain |
| Server.ServerRespond | src/server.rs:422-447 | `respond` always succeeds with what dispatch on a fresh parameter stack yields |
| Server.RespondOneLayer | src/server.rs:433-436 | `respond` gives the endpoint exactly one parameter layer, the router's |
| Server.CallNested | src/server.rs:459-486 | a nested server dispatches the request through its own router and middleware, keeping the outer parameter layers |
| Server.NestedKeepsOuterParams | src/server.rs:459-486 | inside a nested server, keys the inner route does not capture still resolve to the outer parameters |
| Server.TransientKinds | src/server.rs:136-140 | exactly connection refused, aborted and reset are transient accept errors |
| Server.BuilderWithStateFresh | src/server/mod.rs:202-210 | a new server of this generation starts with the cookies middleware alone |
| Server.BuilderMiddleware | src/server/mod.rs:272-275 | middleware is appended to the chain |
| Server.CookiesFirst | src/server/mod.rs:202-210 | the cookies middleware stays first, ahead of every middleware added later |
| Server.AddAllInOrder | src/server/mod.rs:272-275 | adding a list of middlewares appends them in order |
| Server.IntoHttpService | src/server/mod.rs:281-287 | the service carries the server's router, state and middleware |
| Server.Connect | src/server/mod.rs:504-520 | connecting to the service always succeeds |
| Server.ServiceRespond | src/server/mod.rs:523-527 | the service always answers, with what its call on a fresh parameter stack yields |
| Server.ServiceOfBuilder | src/server/mod.rs:530-556 | a service answers as dispatch through the server's router and middleware |
| Server.AppWithStateFresh | src/app.rs:153-159 | a new `App` has no routes, no middleware and the given state |
| Server.AppMiddleware | src/app.rs:223-226 | `App::middleware` appends to the chain |
| Server.AppIntoHttpService | src/app.rs:232-238 | the service carries the app's router, state and middleware |
| Server.AppRespond | src/app.rs:277-292 | the app's service always answers |
| Server.AppRespondBare | src/app.rs:277-292 | without middleware the app answers with the legacy router's selection, and 404 for unknown paths |
| Server.AppFirstMiddlewareAnswers | tide/src/app.rs:272-293 | when the first middleware answers by itself, that answer is the app's response whatever the router selected |
| Server.NestedStaticTable | src/app.rs:336-376 | the nested-static fixture registers its GET routes at the joined paths |
| Server.NestedStaticMisses | src/app.rs:336-376 | "/", "/a/a" and "/a/b/a" are not found in that fixture |
| Server.NestedStaticHitsA | src/app.rs:336-376 | "/a", "/a/a/a", "/a/a/b", "/a/b" and "/b" reach their own endpoints |
| Server.NestedStaticHitsB | src/app.rs:336-376 | "/b/a", "/b/b", "/b/c/a", "/b/c/b" and "/b/d" reach their own endpoints |
| Server.NestedStaticRoute | src/app.rs:336-376 | in the nested-static fixture a GET is 404 exactly when no registration has the path, and otherwise reaches the endpoint named after that path |
| Server.NestedStaticApp | src/app.rs:336-376 | the app built through nested `at` calls routes as the flat table does |
| Server.MultipleMethodsRoutes | src/app.rs:377-391 | GET and POST on the same path reach different endpoints |
| Subdomains.ParsePart | src/subdomain_router/holder.rs:11-24 | a label starting with ':' is a capture named by the rest, any other label a literal |
| Subdomains.NewHolder | src/subdomain_router/holder.rs:11-24 | the holder keeps the data and the domain's labels in reverse order, parsed |
| Subdomains.Compare | src/subdomain_router/holder.rs:28-60 | a match carries the holder's data and needs as many labels as the pattern has |
| Subdomains.BindSpec | src/subdomain_router/holder.rs:28-60 | binding succeeds iff every label fits its part; it binds exactly the capture names, each to the label of its last capture |
| Subdomains.CompareSpec | src/subdomain_router/holder.rs:28-60 | a domain matches iff the label count agrees and every literal equals its label; the parameters are the captures |
| Subdomains.ApexMatchesLiterals | src/subdomain_router/holder.rs:28-60 | the empty domain matches a one-label pattern iff that label is a literal |
| Subdomains.AddSubdomain | src/subdomain_router/router.rs:16-21 | adding a subdomain stores a new holder only if it is new, and returns the data stored |
| Subdomains.AddFirstWins | src/subdomain_router/router.rs:16-21 | adding the same subdomain again keeps the first data |
| Subdomains.Labels | src/subdomain_router/router.rs:23-31 | the domain is split into its dot-separated labels |
| Subdomains.Recognize | src/subdomain_router/router.rs:23-31 | recognition returns the first matching holder in iteration order, and nothing iff none matches |
| Subdomains.RecognizeAnyOrder | src/subdomain_router/router.rs:23-31 | whatever the map's iteration order, some holder is found iff some holder matches |
| Subdomains.AddNamespace | src/namespace.rs:33-38 | a namespace registers a subdomain's router only if the subdomain is new |
| Subdomains.RouteNamespace | src/namespace.rs:47-57 | an unknown domain is not found; a known one is routed by its own router |
| Subdomains.NamespaceRegistered | src/namespace.rs:47-57 | after registering a router under a domain, requests for that domain are routed by it |
| Cors.OriginFrom | src/security/cors.rs:215-228 | "*" means any origin, any other string exactly that origin |
| Cors.OriginFromList | src/security/cors.rs:230-244 | a one-element list is read as a single origin, a longer or empty one as a list |
| Cors.NewConfig | src/security/cors.rs:37-46 | the defaults allow any origin, any headers and the default methods and max age, with credentials and exposed headers unset |
| Cors.AllowCredentials | src/security/cors.rs:49-56 | only the credentials flag changes, to "true" or "false" |
| Cors.SetAllowHeaders | src/security/cors.rs:58-62 | only the allowed headers change |
| Cors.SetMaxAge | src/security/cors.rs:64-68 | only the max age changes |
| Cors.SetAllowMethods | src/security/cors.rs:70-74 | only the allowed methods change |
| Cors.SetAllowOrigin | src/security/cors.rs:76-80 | only the allowed origin changes |
| Cors.SetExposeHeaders | src/security/cors.rs:82-85 | only the exposed headers change |
| Cors.ResponseOrigin | src/security/cors.rs:124-133 | an origin is echoed iff it is valid; under "any origin" the echo is "*", otherwise the request's origin |
| Cors.OriginFromListAccepts | src/security/cors.rs:136-144 | with an origin list configured, an origin is valid iff the list is ["*"] or contains it |
| Cors.InsertIf | src/security/cors.rs:87-121 | optional headers are set only when configured |
| Cors.Preflight | src/security/cors.rs:87-121 | a preflight answer is 200 with the origin, methods, headers and max age, credentials and exposed headers iff configured, and nothing else |
| Cors.Decorate | src/security/cors.rs:147-196 | decorating keeps status and body |
| Cors.CorsDecision | src/security/cors.rs:147-196 | no Origin header passes through; an invalid origin gets 401; OPTIONS gets the preflight; otherwise the inner response gains the echoed origin and errors pass unchanged |
| Cors.CorsShortCircuits | src/security/cors.rs:147-196 | for invalid origins and preflights the rest of the chain never runs |
| Cors.SplitPreflight | tide-cors/src/middleware.rs:133-162 | the tide-cors preflight answers 200 with the single request origin and the configured values |
| Cors.SplitDecorate | tide-cors/src/middleware.rs:192-229 | decorating keeps status and body and adds exposed headers only if already present |
| Cors.SplitCorsDecision | tide-cors/src/middleware.rs:192-229 | a missing Origin gets 400; an invalid or non-visible-ASCII one gets 401; OPTIONS gets the preflight; otherwise the echoed origin is appended |
| Cors.SplitRefusesInvisible | tide-cors/src/middleware.rs:178-189 | an Origin value that is not visible ASCII is refused with 401 |
| Cors.DefaultBlanket | examples/cors/mod.rs:33-46 | the example's defaults are "*" origin and headers and the default methods and max age |
| Cors.BlanketPreflight | examples/cors/mod.rs:54-81 | the example's preflight is 200 with exactly its four headers |
| Cors.BlanketDecision | examples/cors/mod.rs:54-81 | OPTIONS is answered at once; other responses gain the allow-origin header only if they lack one, and are otherwise unchanged |
| Compression.ParseCoding | src/middleware/compression.rs:17-25 | exactly "gzip", "deflate" and "identity" are known codings |
| Compression.CodingNameRoundTrip | src/middleware/compression.rs:17-34 | parsing a coding's header value gives it back, and a parsed name is that coding's header value |
| Compression.AcceptTokens | src/middleware/compression.rs:55-63 | the tokens come from visible-ASCII Accept-Encoding values split at ',' |
| Compression.FirstCoding | src/middleware/compression.rs:55-63 | the preferred coding is the first known token, and there is none iff no token is known |
| Compression.PreferredConcat | src/middleware/compression.rs:55-63 | a known coding in an earlier header value wins over later values |
| Compression.PreferredSingle | src/middleware/compression.rs:55-63 | a single Accept-Encoding value is negotiated as the first known coding among its ','-tokens, and a value with invisible characters offers none |
| Compression.PreferredList | src/middleware/compression.rs:196-203 | "gzip,deflate,identity" negotiates gzip, the first token |
| Compression.PreferredExamples | src/middleware/compression.rs:196-203 | the test table: no header, "gzip", "unknown" and "gzip,deflate,identity" give none, gzip, none and gzip |
| Compression.PreferredLaterValue | src/middleware/compression.rs:55-63 | two Accept-Encoding header values "unknown" and then "deflate" give deflate: `get_all` reaches the second value when the first names no known coding |
| Compression.PreferredDeflate | src/middleware/compression.rs:55-63 | a single "deflate" value negotiates deflate |
| Compression.TestHeaderMap | src/middleware/compression.rs:179-185 | the test's `header_map` keeps only the last value given, because `insert` replaces the earlier one |
| Compression.TestHeaderMaps | src/middleware/compression.rs:179-185 | each row of the test table builds a map with one value; for ["unknown", "deflate"] it holds "deflate" alone |
| Compression.PreferredEncodingTest | src/middleware/compression.rs:196-203 | the `preferred_encoding` test through its own fixture: none, gzip, none, gzip, and deflate from the map holding only "deflate" |
| Compression.PreferredUntrimmed | src/middleware/compression.rs:55-63 | tokens are not trimmed, so "br, deflate" yields no known coding |
| Compression.NewCompressor | src/middleware/compression.rs:45-49 | the default coding is gzip |
| Compression.CompressorWithDefault | src/middleware/compression.rs:51-53 | the default coding is the one given |
| Compression.Apply | src/middleware/compression.rs:65-82 | identity compresses nothing; other codings use their codec |
| Compression.CompressorDecision | src/middleware/compression.rs:93-109 | the response body is replaced by its compression under the preferred coding, or the default, and the coding is appended to Content-Encoding; identity leaves the response alone |
| Compression.DefaultEncodeSettings | tide-compression/src/lib.rs:42-51 | brotli level 11 and zstd level 3 by default |
| Compression.NewCompression | tide-compression/src/lib.rs:70-78 | the default encoding is identity with the default settings |
| Compression.CompressionWithDefault | tide-compression/src/lib.rs:80-85 | the default encoding is the one given |
| Compression.PreferredEncoding | tide-compression/src/lib.rs:94-100 | an unparsable Accept-Encoding is a 400; otherwise the negotiated encoding or the default |
| Compression.EncodeSpec | tide-compression/src/lib.rs:103-130 | `Encode`: an already encoded response or the identity encoding is left alone; otherwise the body is encoded and the encoding appended, and encoding never applies twice |
| Compression.CompressionDecision | tide-compression/src/lib.rs:134-143 | a negotiation failure answers 400 at once; otherwise the inner response is encoded |
| Compression.ParseEncoding | tide-compression/src/lib.rs:158-167 | the five encoding names parse and any other name is a 415 |
| Compression.EncodingNameRoundTrip | tide-compression/src/lib.rs:158-167 | names and encodings correspond one to one |
| Compression.TrimAll | tide-compression/src/lib.rs:176-177 | each listed encoding is trimmed of whitespace |
| Compression.ParseAll | tide-compression/src/lib.rs:176-180 | the list parses iff every token does, element by element; otherwise 415 |
| Compression.Decode | tide-compression/src/lib.rs:169-214 | without Content-Encoding the request is unchanged; a failure is 400 or 415; a success removes the header and changes only the body |
| Compression.DecodeRejectsUnknown | tide-compression/src/lib.rs:169-214 | one unknown encoding in the list rejects the request with 415 |
| Compression.DecodeRoundTrip | tide-compression/src/lib.rs:169-214 | `DecodeBody`: a body encoded in the listed order is restored by decoding, given decoders that invert the encoders |
| Compression.DecompressionDecision | tide-compression/src/lib.rs:218-230 | a decode failure answers at once with 400 or 415; otherwise the decoded request goes on and the response is untouched |
| Stores.NewTypeMapEmpty | src/typemap.rs:46-50 | a new type map holds no value of any type |
| Stores.Insert | src/typemap.rs:66-78 | insert stores the value under its type, so `Get` then finds it, returns the previous one and touches no other type |
| Stores.Update | src/typemap.rs:113-120 | mutable access changes only the value of that type, and only if present |
| Stores.Remove | src/typemap.rs:136-148 | remove returns the value of its type, leaves none, and touches no other type |
| Stores.Clear | src/typemap.rs:163-167 | clear leaves no value of any type |
| Stores.InsertRemove | src/typemap.rs:66-148 | removing what was just inserted restores the map and returns the value |
| Stores.TypeMapExamples | src/typemap.rs:66-148 | insert returns the displaced value, remove returns the value and other types are untouched |
| Stores.NewStateEmpty | src/state.rs:38-46 | a new state wraps the server state and holds no extension |
| Stores.ContainsIffGet | src/state.rs:59-72 | `contains` holds exactly when `get` finds a value |
| Stores.StateInsert | src/state.rs:51-56 | insert stores the extension, returns the previous one and changes nothing else |
| Stores.StateUpdate | src/state.rs:75-80 | mutable access changes only that extension |
| Stores.StateRemove | src/state.rs:85-90 | remove returns the extension and leaves none of that type |
| Stores.StateClear | src/state.rs:94-96 | clear removes every extension and keeps the server state |
| Stores.Deref | src/state.rs:24-30 | dereferencing gives the server state |
| Stores.DerefMut | src/state.rs:32-36 | mutating through the dereference leaves the extensions alone |
| Stores.StateExample | src/state.rs:122-140 | the extensions test: values of other types survive removal, and the server state is unchanged |
| Stores.NewStoreEmpty | src/configuration/mod.rs:50-57 | a new configuration store holds nothing |
| Stores.Write | src/configuration/mod.rs:68-71 | writing stores the value under its type and touches no other type |
| Stores.Merge | src/configuration/mod.rs:60-66 | `Read` of a merged store prefers the local value and falls back to the base store |
| Stores.MergeLaws | src/configuration/mod.rs:60-66 | merging is associative and idempotent, and the empty store is neutral |
| Stores.StoreExamples | src/configuration/mod.rs:103-133 | the read/write and clone tests: a written copy does not change the original |
| Stores.WriteOverwrites | src/configuration.rs:51-63 | a second write of the same type replaces the first entirely, and a read returns the second value |
| Stores.DefaultConfiguration | src/configuration/default_config.rs:23-31 | development mode on 127.0.0.1:8181 |
| Stores.NewBuilder | src/configuration/default_config.rs:39-48 | the builder starts from the default configuration |
| Stores.SetEnv | src/configuration/default_config.rs:50-53 | only the environment changes |
| Stores.SetAddress | src/configuration/default_config.rs:55-58 | only the address changes |
| Stores.SetPort | src/configuration/default_config.rs:60-63 | only the port changes |
| Stores.FinalizeFields | src/configuration/default_config.rs:65-73 | finalizing copies the fields, an untouched builder gives the default, and each setter changes its own field only |
| Responses.IntoResponseSpec | tide/src/response.rs:35-101 | unit is an empty 200, bytes and strings are 200 with their content type, a status is an empty response with it, `Ok` and `Err` convert their content with errors kept non-2xx, and a panic arises exactly as the source's unwraps do |
| Responses.WithStatusExample | tide/src/response.rs:121-128 | "foo" with status 404 keeps its body and answers 404 |
| Responses.WithStatusInto | src/response/into_response.rs:98-102 | `with_status` replaces the status and keeps headers and body |
| Responses.SetStatus | src/response.rs:104-107 | only the status changes |
| Responses.WithStatusOuterWins | src/response/into_response.rs:15-20 | nested `with_status` calls answer with the outermost status |
| Responses.NewResponse | src/response.rs:29-35 | a new response is empty with the given status and no cookie events |
| Responses.SetHeader | src/response.rs:115-126 | `set_header` replaces the header's values and changes nothing else |
| Responses.AddHeader | src/response.rs:128-138 | `append_header` adds a value after the existing ones and changes nothing else |
| Responses.SetVersusAppend | src/response.rs:115-138 | append keeps earlier values, set discards them, and a second set undoes the first |
| Responses.RedirectPermanent | src/response.rs:70-73 | a permanent redirect is 308 with only the Location header |
| Responses.RedirectTemporary | src/response.rs:93-96 | a temporary redirect is 307 with only the Location header |
| Responses.BodyString | src/response.rs:152-155 | a string body is UTF-8 with a text/plain content type, status and cookies kept |
| Responses.BodyBytes | src/response.rs:162-169 | a byte body sets application/octet-stream, status and cookies kept |
| Responses.SetCookie | src/response.rs:227-231 | a set cookie is recorded as the latest event, after the earlier ones |
| Responses.RemoveCookie | src/response.rs:233-236 | a removed cookie is recorded as the latest event, after the earlier ones |
| Responses.CookieEventsInOrder | src/response.rs:227-236 | a sequence of cookie calls is recorded in call order and leaves the response itself alone |
| Responses.FromText | src/response.rs:264-286 | a string becomes a 200 text/plain response |
| Responses.FromHttp | src/response.rs:255-262 | an http response is wrapped without cookie events |
| Responses.NewRedirect | src/redirect.rs:50-55 | `Redirect::new` uses 302 Found |
| Responses.PermanentRedirectTo | src/redirect.rs:60-65 | `Redirect::permanent` uses 308 as the code does |
| Responses.TemporaryRedirectTo | src/redirect.rs:70-75 | `Redirect::temporary` uses 307 |
| Responses.SeeOtherTo | src/redirect.rs:80-85 | `Redirect::see_other` uses 303 |
| Responses.RedirectResponse | src/redirect.rs:98-108 | a redirect turns into its status and a Location header |
| Responses.RedirectCall | src/redirect.rs:88-96 | as an endpoint a redirect always answers |
| Responses.RedirectAgrees | src/redirect.rs:88-108 | the endpoint ignores the request and agrees with the `Response` redirect constructors |
| Responses.NewResponseBuilder | src/response_builder.rs:35-38 | a new builder holds an empty 200 |
| Responses.BuilderStatus | src/response_builder.rs:56-69 | an unknown status code is the builder's panic; a known one only changes the status |
| Responses.BuilderHeader | src/response_builder.rs:71-74 | a header call sets that header |
| Responses.BuilderContentType | src/response_builder.rs:82-93 | a content-type call sets Content-Type |
| Responses.BuilderBody | src/response_builder.rs:95-98 | a body call replaces only the body |
| Responses.Unwrap | src/response_builder.rs:40-42 | unwrapping yields the response built so far |
| Responses.BuilderResult | src/response_builder.rs:107-111 | a builder converts to a successful result |
| Responses.BuilderExample | src/response_builder.rs:44-54 | the doc example builds a 203 with its body and custom header |
| Extractors.ErrorResponse | tide-core/src/error.rs:32-40 | an error converts back to its response |
| Extractors.ErrCause | tide-core/src/error.rs:100-104 | the cause is what the response carries |
| Extractors.ErrorRoundTrip | tide-core/src/error.rs:23-74 | wrapping a response and converting back returns it; a status error is the empty response with that status |
| Extractors.WithErrStatus | tide-core/src/error.rs:152-171 | success passes through; an error becomes an empty response with the status and the error as cause; an invalid status is the builder's panic |
| Extractors.ClientErr | tide-core/src/error.rs:106-113 | an error becomes a 400 carrying its cause |
| Extractors.ServerErr | tide-core/src/error.rs:115-119 | an error becomes a 500 carrying its cause |
| Extractors.WithErrStatusAgrees | tide-core/src/error.rs:126-171 | the error's response is the status error's response and its cause is the original error |
| Extractors.ExtractHeader | src/head.rs:66-80 | a header is extracted iff present with a value, as its first value; otherwise 400 |
| Extractors.ExtractOptionalHeader | src/head.rs:82-96 | the optional extractor never fails and has a value iff the plain one would |
| Extractors.ExtractPath | src/head.rs:143-161 | each path extractor consumes the next wildcard index; no match is a 500, a missing index the source's panic, and a bad parse a 400 |
| Extractors.PathSequence | src/head.rs:143-161 | successive path extractors read successive wildcard segments |
| Extractors.ExtractSegment | src/head.rs:253-274 | a named segment is extracted iff captured and parsable, otherwise 400 |
| Extractors.ExtractNamed | src/head.rs:225-246 | `Named` succeeds iff its segment is captured and parses, otherwise 400 |
| Extractors.NamedIsSegment | src/head.rs:225-274 | `Named` and `SegmentName` extract identically |
| Extractors.ExtractQuery | src/head.rs:280-296 | the query is extracted iff present and parsable, otherwise 400 |
| Cookies.NewCookieBuilder | src/cookie.rs:200-212 | a new builder is host-only, HTTP-only, secure and not persistent, with no name and an empty value |
| Cookies.Build | src/cookie.rs:245-258 | building fails iff no name was set, and otherwise copies every field |
| Cookies.IntoBuilder | src/cookie.rs:117-129 | converting a cookie to a builder keeps its name |
| Cookies.BuilderRoundTrip | src/cookie.rs:117-258 | a cookie converted to a builder builds back to itself, and a named builder survives the round trip |
| Cookies.SettersCommute | src/cookie.rs:261-312 | setters of different fields commute, and of the same field the later wins |
| Cookies.SetFields | src/cookie.rs:261-312 | each builder method changes its own parameter and no other |
| Cookies.NameOfChain | src/cookie.rs:261-312 | after a chain of setters the name is the last one set, or the original if none was set |
| Cookies.CookieExamples | src/cookie.rs:61-88 | building with a name gives the documented defaults, building without one fails, and renaming an existing cookie keeps its other fields |
| Cookies.ParsePiecesSpec | src/cookies.rs:38-48 | `ParsePieces`: the cookie header parses iff every trimmed ';'-piece parses, cookie by cookie |
| Cookies.AddAllKeeps | src/cookies.rs:38-48 | cookies of other names leave an existing jar entry alone |
| Cookies.AddAllSpec | src/cookies.rs:38-48 | `AddAll`: the jar holds exactly the names parsed, each with its last cookie |
| Cookies.ExtractCookies | src/cookies.rs:24-35 | no header gives an empty jar; a non-visible-ASCII header is the source's panic; a parse failure is 400 |
| Cookies.ExtractCookiesSpec | src/cookies.rs:24-48 | a valid header is extracted iff every piece parses, and the jar maps each name to its last cookie |
| Cookies.GetCookie | src/cookies.rs:15-17 | `get` finds a cookie iff the jar holds the name |
| Sessions.NewSessionMiddleware | src/sessions/middleware.rs:173-184 | a secret shorter than 32 bytes is refused; otherwise path "/", name "tide.sid", a day's TTL, save unchanged and strict same-site |
| Sessions.WithCookiePath | src/sessions/middleware.rs:188-196 | only the cookie path changes |
| Sessions.WithSessionTtl | src/sessions/middleware.rs:198-206 | only the TTL changes |
| Sessions.WithCookieName | src/sessions/middleware.rs:208-218 | only the cookie name changes |
| Sessions.WithoutSaveUnchanged | src/sessions/middleware.rs:220-227 | only saving unchanged sessions is turned off |
| Sessions.WithSameSitePolicy | src/sessions/middleware.rs:229-233 | only the same-site policy changes |
| Sessions.WithCookieDomain | src/sessions/middleware.rs:235-238 | only the cookie domain changes |
| Sessions.CustomizationExample | src/sessions/middleware.rs:137-171 | the documented customisation chain yields exactly the listed configuration |
| Sessions.Sign | src/sessions/middleware.rs:277-286 | a signed value is the encoded MAC digest followed by the value |
| Sessions.ByteBoundary | src/sessions/middleware.rs:293-308 | a split point, if any, falls where exactly n UTF-8 bytes precede it |
| Sessions.AsciiBoundary | src/sessions/middleware.rs:293-308 | in ASCII text the split after n bytes is at character n |
| Sessions.VerifySignature | src/sessions/middleware.rs:293-308 | values shorter than a digest are rejected, a verified value is what follows a digest that checks, and ASCII input never panics |
| Sessions.SignVerifyRoundTrip | src/sessions/middleware.rs:277-308 | verifying a signed value returns the value |
| Sessions.TamperedRejected | src/sessions/middleware.rs:277-308 | a digest paired with a value of a different MAC is rejected |
| Sessions.LoadOrCreate | src/sessions/middleware.rs:242-251 | no cookie, a failed or empty load, or a loaded session that `validate` rejects as expired creates a fresh session; a loaded, still valid session is resumed |
| Sessions.BuildCookie | src/sessions/middleware.rs:253-272 | the cookie carries the signed value, the configured name, path, domain and same-site, HTTP-only, the scheme's secure flag, and expiry now+TTL iff a TTL is set |
| Sessions.RemovalCookie | src/sessions/middleware.rs:109-112 | the removal cookie is the incoming one with path "/" |
| Sessions.VerifiedValue | src/sessions/middleware.rs:85-88 | the session id is used iff the incoming cookie verifies |
| Sessions.HandleSpec | src/sessions/middleware.rs:84-126 | `Handle` (`handle`): a destroyed session removes the incoming cookie; an unchanged one is not stored unless configured; a store error is a 500; a stored id is set as a signed cookie that verifies |
| Sessions.SessionResumes | src/sessions/middleware.rs:84-126 | a cookie the middleware sets is accepted on the next request and yields the same session id |
| Sessions.NewSessionMap | tide-sessions/src/session_map.rs:24-29 | a new session map is clean and empty |
| Sessions.Rotate | tide-sessions/src/session_map.rs:20-22 | rotating marks the map dirty and keeps its data |
| Sessions.EditData | tide-sessions/src/session_map.rs:40-47 | editing the data leaves the dirty flag alone |
| Sessions.DirtyOnlyByRotate | tide-sessions/src/session_map.rs:16-29 | only rotation makes a map dirty, and it commutes with edits |
| Sessions.HandleMapSpec | tide-sessions/src/lib.rs:43-100 | `HandleMap` (the map-store `handle`): a session is committed iff it ends dirty; the response changes only by a Set-Cookie, set iff the session is new and the commit and header value succeed |
| Sessions.KnownKeyNoCookie | tide-sessions/src/lib.rs:43-100 | a request with a session cookie never gets a new Set-Cookie |
| StaticFiles.PathOf | src/fs/serve_dir.rs:26 | the directory as `PathBuf` parses it: absolute iff it starts with '/'; a leading "." of "." or "./…" is kept as a component of its own, every other "." and empty piece is dropped |
| StaticFiles.NewServeDir | src/fs/serve_dir.rs:23-28 | the endpoint keeps its prefix and its directory as `PathBuf` parses it, leading "." included |
| StaticFiles.ResolvePath | src/fs/serve_dir.rs:34-59 | a resolved path starts with the directory, and resolution succeeds iff the walked path does |
| StaticFiles.WalkClean | src/fs/serve_dir.rs:40-52 | the walk never brings a ".." into the directory's part of the path |
| StaticFiles.ResolveSafe | src/fs/serve_dir.rs:34-59 | a resolved path lies lexically inside the directory, and a path without ".." resolves to the directory plus its components |
| StaticFiles.ServeDirCall | src/fs/serve_dir.rs:62-77 | the endpoint always answers; 403 iff the path does not resolve; a 200 carries the file's bytes |
| StaticFiles.ResolveName | src/fs/serve_dir.rs:41-54 | a request naming one file below the directory resolves to the directory followed by that name |
| StaticFiles.ServeDirDocExample | src/fs/serve_dir.rs:8-12 | the doc example: under "./build/assets" mounted at "/static", "/static/index.html" resolves to ./build/assets/index.html |
| StaticFiles.DotDirParentRefusedFrom | src/fs/serve_dir.rs:41-57 | under ".", a lone ".." pops the leading "." and the empty path left does not start with ".", so it is refused |
| StaticFiles.DotDirParentRefused | src/fs/serve_dir.rs:34-57 | under "." mounted at "/s", the request "/s.." is refused |
| StaticFiles.DotDirParentForbidden | src/fs/serve_dir.rs:62-74 | under "." mounted at "/s", the endpoint answers "/s.." with 403 |
| StaticFiles.PopThroughDotRefusedFrom | src/fs/serve_dir.rs:41-57 | under "./<d>", components "../../<d>/<x>" lose the leading "." and are refused, although they name a file below <d> |
| StaticFiles.PopThroughDotRefused | src/fs/serve_dir.rs:34-57 | under "./build" mounted at "/s", the request "/s/../../build/x" is refused |
| StaticFiles.NormalizeAsWrittenParent | examples/staticfile.rs:30-53 | as written, a component that decodes to ".." is pushed as a literal ".." |
| StaticFiles.EncodedParentEscapesFrom | examples/staticfile.rs:200-210 | as written, "/%2E%2E/b" under root r1/r2 gives r1/r2/../b, which passes the component-wise prefix guard yet lies outside the root |
| StaticFiles.EncodedParentEscapes | examples/staticfile.rs:205-210 | the concrete request "/%2E%2E/secret" under "examples/static" passes the guard and escapes the root |
| StaticFiles.Normalize | examples/staticfile.rs:30-53 | the corrected normalisation yields a relative path of plain names only |
| StaticFiles.GetPath | examples/staticfile.rs:200-202 | with the correction, the served path is the root followed by the normalised components (the as-written `get_path` is `GetPathAsWritten`, see Findings) |
| StaticFiles.NormalizedStaysInside | examples/staticfile.rs:200-210 | with the correction, every request path stays inside the root, both component-wise and lexically |
| StaticFiles.EncodedParentContainedFrom | examples/staticfile.rs:30-53 | with the correction, an encoded ".." pops instead of escaping, so "/%2E%2E/b" serves root/b |
| StaticFiles.EncodedParentContained | examples/staticfile.rs:30-53 | with the correction, "/%2E%2E/secret" serves examples/static/secret |
| StaticFiles.NewStaticFile | examples/staticfile.rs:55-71 | with the correction, the server's root is the normalised directory |
| StaticFiles.NotFoundResponse | examples/staticfile.rs:191-197 | the not-found answer is a 404 with its fixed body |
| StaticFiles.FileResponse | examples/staticfile.rs:74-95 | a file answer is 200 with the file's bytes and its length as Content-Length |
| StaticFiles.ServePathSpec | examples/staticfile.rs:208-241 | `ServePath`, the body of `handle_path` once the request is mapped to a path that passes the guard: 404 iff nothing is there, 301 with Location path+"/" iff a directory is asked without a trailing slash, 500 only when a directory without index.html fails to list |
| StaticFiles.ServeStaticFileSpec | examples/staticfile.rs:205-253 | `ServeStaticFile` and `HandlePath` with the correction, at the corrected path `GetPath`: 404 iff nothing is there; 301 to path+"/" iff a directory is asked without a trailing slash; 500 only for a directory with no index whose listing fails |
| StaticFiles.ServeStaticFileInside | examples/staticfile.rs:205-241 | with the correction, both the path served and its index.html lie inside the root |
| StaticFiles.ServeStaticFileAsWrittenSpec | examples/staticfile.rs:205-253 | `ServeStaticFileAsWritten` and `HandlePathAsWritten`, the handler as written: 404 iff the as-written path fails the `starts_with(root)` guard or nothing is there; 301 to path+"/" iff a directory passing the guard is asked without a trailing slash; 500 only for such a directory with no index whose listing fails |
| StaticFiles.AsWrittenServesOutside | examples/staticfile.rs:200-241 | as written, the request "/%2E%2E/secret" under "examples/static" streams the file at examples/static/../secret with 200, a path outside the root |
| ServerTest.TestUrl | src/server_test/mod.rs:228-232 | absolute URLs are kept; others hang below http://localhost/ with their leading '/'s removed |
| ServerTest.TrimSlashPattern | src/server_test/mod.rs:228-232 | trimming the "/" pattern removes exactly the leading '/' characters |
| ServerTest.TestUrlRelative | src/server_test/mod.rs:228-232 | a relative path appears after the base exactly as written, minus its leading run of '/' |
| ServerTest.TestUrlLeadingSlash | src/server_test/mod.rs:228-232 | "/p" and "p" address the same URL |
| ServerTest.TestUrlIdempotent | src/server_test/mod.rs:228-232 | completing a completed URL changes nothing |
| ServerTest.TestUrlRooted | src/server_test/mod.rs:228-232 | "/name" becomes http://localhost/name |
| ServerTest.InsertHeaders | src/server_test/mod.rs:240-244 | headers go in iff every pair is valid; otherwise the first invalid pair is the error |
| ServerTest.LastValue | src/server_test/mod.rs:240-244 | a name has a last value iff some pair carries it |
| ServerTest.InsertHeadersSpec | src/server_test/mod.rs:240-244 | each named header ends with the value of its last pair, and others are untouched |
| ServerTest.BuildRequest | src/server_test/mod.rs:222-247 | building fails on an unparsable URL or an invalid header, and otherwise carries verb, URL, body or empty, no parameters and the given headers |
| ServerTest.TestMethodAsWritten | src/server_test/mod.rs:74-85 | as written, the HEAD helper builds a GET request |
| ServerTest.HeadHelperSendsGet | src/server_test/mod.rs:70-85 | as written, the HEAD and GET helpers build identical requests |
| ServerTest.TestMethodInjective | src/server_test/mod.rs:52-200 | distinct helpers send distinct verbs |
| ServerTest.RunHelper | src/server_test/mod.rs:203-218 | for a verb map given as a parameter (the as-written `TestMethodAsWritten` or the corrected `TestMethod`): a build error is returned without reaching the server; otherwise the server's answer, for a request with the helper's mapped verb and, for PUT, POST and PATCH only, the body |
| ServerTest.HeadHelperRunsGet | src/server_test/mod.rs:74-85 | as written, running the HEAD helper gives exactly what running the GET helper gives; with the correction its request is a HEAD |
| ServerTest.NoHeadersOnlyUrlFails | src/server_test/mod.rs:222-247 | without headers a helper's request fails only on its URL |
| Forms.Boundary | tide-forms/src/lib.rs:41-58 | a boundary exists iff the content type is visible ASCII and contains "boundary="; it is everything after the first occurrence |
| Forms.BoundaryRoundTrip | tide-forms/src/lib.rs:41-58 | a content type built as prefix + "boundary=" + b yields b |
| Forms.BodyMultipart | tide-forms/src/lib.rs:41-58 | success iff the body reads and a boundary exists; every failure is an empty 400 whose cause is the read error or "no boundary found" |
| Forms.BodyForm | tide-forms/src/lib.rs:31-39 | success iff the body reads and decodes; every failure is an empty 400 whose cause is the read error or the decode error |
| Forms.Form | tide-forms/src/lib.rs:62-71 | a serialisable value becomes a 200 urlencoded response of its encoding; a serialisation failure is the source's panic |
| Forms.FormRoundTrip | tide/src/forms.rs:20-56 | a value sent with `form` is read back by `body_form`, given a decoder that inverts the encoder |

## Left out

- The listeners, TCP and Unix socket handling, `serve`/`listen` and all concurrency are left out: they are I/O.
- `src/url_table.rs` is the same algorithm as `path_table/src/lib.rs` with renamed types. `PathTable` models both, and its rows cite the latter.
- `src/router/core.rs`, `tide-router/src/router.rs` and `tide/src/router.rs` are the same code as `src/router/router.rs`: `Routers.LegacyAdd`, `Routers.LegacyRoute` and `Routers.LegacyRouteCases` model all four.
- `src/route.rs` is `tide/src/route.rs` with a renamed type parameter: `Routes.LegacyRegister` and `Routes.NestSamePath` model both.
- `tide/src/app.rs` is `src/app.rs` of the previous generation: the `Server.App*` and `Server.NestedStatic*` members model both, and its routing tests are the same fixtures.
- `tide-headers/src/lib.rs` is `src/middleware/default_headers.rs` again: the `Combinators` default-header members model both.
- `src/configuration.rs` is `src/configuration/mod.rs` without `merge`: `Stores.Read` and `Stores.Write` model both.
- The route recognizer, the compression codecs, percent-decoding, the session HMAC, key derivation and base64, the file system, the URL parser, header validation, the multipart reader and serde are parameters of the model. Their own behaviour is not modelled.
- Header names are compared as given. The case-insensitive header names of the HTTP libraries are not modelled.
- Panics are modelled as `Failure` values or a `Panicked` outcome, never as preconditions.
- The header parse and `expect` panics inside `Response::set_header` and `append_header` are not modelled: the setters accept any value.
- `Responses.PermanentRedirectTo`: uses 308, as the code does, not the 301 its doc comment names.
- `Extractors.ExtractPath`: a failed parse answers 400, as the code does, not the 404 its doc comment names.
- `Next::run` in `src/middleware/mod.rs:66-73` calls `current.handle(req, self, state)`, passing `next` and the state in swapped positions. The model hands each middleware (request, state, next), the order `Middleware::handle` and its `Fn` impl at lines 23-38 declare.
- Gzip and deflate compression levels are parameters of the encoder. Only the brotli and zstd defaults are stated.
- The directory-listing HTML of the static-file example is a parameter `listing`. Its markup is not modelled.
- The incoming session cookie is assumed ASCII (`requires` on `Sessions.HandleSpec` and `Sessions.VerifiedValue`). A non-ASCII cookie hits a split panic in the source, which `Sessions.VerifySignature` models as `SplitPanic` but the handler does not pursue.
- `Server.CloneServer`: a clone marks the server shared for good. The model has no drop, so it never regains the exclusive access `Arc::get_mut` (src/server.rs:276, 295) gives back once every clone is dropped.
- The session-store calls that only log (`destroy_session` errors) are left out.
- `StaticFiles.ServeStaticFileSpec`: states the handler with the corrected `normalize` (see Findings), not the source's path for an encoded "..". The handler as written is `ServeStaticFileAsWritten`, stated by `StaticFiles.ServeStaticFileAsWrittenSpec`.
- `StaticFiles.Push`: a decoded "./…" pushed onto the empty buffer of the example's `normalize` loses the leading "." that `PathBuf::push` would keep there. Joining to the root drops an inner "." anyway, so the served paths are the same.
- `StaticFiles.Normalize`: like the source, drops a leading root component, so a request path is always joined below the root.
- The `ServerTest` helpers are `async` over a real server. Here the server is a parameter `respond`, and the async test bodies are not modelled.
- The body-reading futures of `body_form` and `body_multipart` are `Result` parameters. Stream reading is not modelled.
- Response bodies are modelled as already-read bytes, so the compression middleware's reply read with `expect("failed to read reply")` (src/middleware/compression.rs:98) cannot fail, and its panic is not modelled.
- JSON bodies (`json`, `body_json`) and request logging output text are left out: they are serde and logging back ends.
- `Request` accessors that only forward to `http-types` (`header`, `method`, `url`, `peer_addr`) are not modelled beyond the request record's fields.

## Findings

| source | as written | input that shows it | evidently intended | confidence | as-written member | corrected member |
|---|---|---|---|---|---|---|
| examples/staticfile.rs:30-53 | `normalize` percent-decodes each normal component and pushes the decoded text, so "%2E%2E" becomes a literal ".." component; the `starts_with(root)` guard at line 210 compares components and lets it through | root "examples/static", request "/%2E%2E/secret": the served path examples/static/../secret lies outside the root | a decoded ".." pops like a literal one, keeping every served path inside the root | high; not executed | StaticFiles.AsWrittenServesOutside | StaticFiles.NormalizedStaysInside |
| src/server_test/mod.rs:74-85 | `test_head_with_headers` builds its request with `Method::Get`, so `test_head` and `test_head_with_headers` send GET | any path: `test_head("/")` reaches the GET route, not the HEAD route | the HEAD helpers send HEAD, like every other helper sends its own verb | high; not executed | ServerTest.HeadHelperSendsGet | ServerTest.TestMethodInjective |
