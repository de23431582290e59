/** Servers and apps: a router, a state value and a middleware list, and the
    dispatch that ties them together. A request is routed once on its path
    and method; the selected route parameters are pushed as the innermost
    layer of the request's parameter stack; the middleware chain then runs
    from its first element with the selected endpoint at its end.

    Endpoints are abstract: the caller supplies `call`, which says what a
    registered endpoint answers for a request and a state. The two built-in
    endpoints answer 404 and 405 with an empty body.
 */
module Server {
  import opened Wrappers
  import opened Http
  import opened Routers
  import opened Middleware
  import Params
  import Routes

  /** What an endpoint and every middleware sees: the request (with its
      route-parameter stack) and the server's state. */
  datatype Ctx<S> = Ctx(req: Request, state: S)

  type Chain<!S> = seq<Mw<Ctx<S>, Response>>

  /** The function run at the end of the chain for a selected target. */
  function Execute<E, S>(call: E -> Ctx<S> -> Response, t: Target<E>): (f: Ctx<S> -> Response)
    ensures t.Endpoint? ==> f == call(t.e)
  {
    match t
    case Endpoint(e) => call(e)
    case NotFoundEndpoint => (c: Ctx<S>) => EmptyResponse(NotFound)
    case MethodNotAllowedEndpoint => (c: Ctx<S>) => EmptyResponse(MethodNotAllowed)
  }

  /** A built-in target answers its own status whatever the request. */
  lemma BuiltinAnswers<E, S>(call: E -> Ctx<S> -> Response, t: Target<E>, c: Ctx<S>)
    requires !t.Endpoint?
    ensures Execute(call, t)(c) == EmptyResponse(BuiltinStatus(t).value)
  {
  }

  /** Endpoints of the current generation: a `StripPrefix` endpoint hands
      the wrapped one a request whose URI is reduced to the unmatched rest. */
  function CallHandler<E, S>(call: E -> Ctx<S> -> Response): (f: Routes.Handler<E> -> Ctx<S> -> Response)
  {
    (h: Routes.Handler<E>) => (c: Ctx<S>) =>
      match h
      case Direct(e) => call(e)(c)
      case StripPrefix(e) =>
        call(e)(c.(req := c.req.(url := Routes.StripPrefixUrl(c.req.url, c.req.params))))
  }

  /** What the wrapped endpoint of a prefix route sees: the same request and
      state except for the URI, whose path is "/" followed by the rest. */
  lemma StripPrefixCall<E, S>(call: E -> Ctx<S> -> Response, e: E, c: Ctx<S>)
    ensures var c' := c.(req := c.req.(url := Routes.StripPrefixUrl(c.req.url, c.req.params)));
      && CallHandler(call)(Routes.StripPrefix(e))(c) == call(e)(c')
      && c'.state == c.state && c'.req.verb == c.req.verb && c'.req.params == c.req.params
      && c'.req.url.path == "/" + Params.Rest(c.req.params).GetOr("")
    ensures CallHandler(call)(Routes.Direct(e))(c) == call(e)(c)
  {
  }

  /** The common dispatch: route once, push the selection's parameters on
      the incoming stack, run the chain from the start. Returns the response
      and the trace of the chain. */
  function Dispatch<E, S>(router: Router<E>, rec: Recognizer<E>, call: E -> Ctx<S> -> Response,
                          middleware: Chain<S>, state: S, req: Request): (r: (Response, seq<Event>))
  {
    var sel := Route(router, rec, req.url.path, req.verb);
    Run(NewNext(middleware, Execute(call, sel.endpoint)), Ctx(req.(params := req.params + [sel.params]), state))
  }

  /** Dispatch runs the endpoint at most once, exactly when every middleware
      passes the request on, and enters each middleware at most once. */
  lemma DispatchOnce<E, S>(router: Router<E>, rec: Recognizer<E>, call: E -> Ctx<S> -> Response,
                           middleware: Chain<S>, state: S, req: Request, i: nat)
    ensures var sel := Route(router, rec, req.url.path, req.verb);
            var n := NewNext(middleware, Execute(call, sel.endpoint));
            var c := Ctx(req.(params := req.params + [sel.params]), state);
            var t := Dispatch(router, rec, call, middleware, state, req).1;
      && Count(t, EndpointCalled) == (if AllCallNext(n, c) then 1 else 0)
      && Count(t, Enter(i)) <= 1 && Count(t, Enter(i)) == Count(t, Exit(i))
  {
    var sel := Route(router, rec, req.url.path, req.verb);
    var n := NewNext(middleware, Execute(call, sel.endpoint));
    var c := Ctx(req.(params := req.params + [sel.params]), state);
    RunOnce(n, c);
    RunEntersOnce(n, c, i);
    RunBalanced(n, c, i);
  }

  /** With no middleware, dispatch is the selected endpoint applied to the
      request with the selection's parameters as the innermost layer: they
      shadow the incoming layers, which stay visible for other keys. */
  lemma DispatchBare<E, S>(router: Router<E>, rec: Recognizer<E>, call: E -> Ctx<S> -> Response,
                           state: S, req: Request, key: string)
    ensures var sel := Route(router, rec, req.url.path, req.verb);
            var c := Ctx(req.(params := req.params + [sel.params]), state);
      && Dispatch(router, rec, call, [], state, req).0 == Execute(call, sel.endpoint)(c)
      && Params.Find(c.req.params, key) ==
           (if key in sel.params then Some(sel.params[key]) else Params.Find(req.params, key))
  {
    var sel := Route(router, rec, req.url.path, req.verb);
    Params.PushShadows(req.params, sel.params, key);
  }

  /** A request no table recognizes, in any method, is answered 404 by a
      server without middleware. */
  lemma DispatchNotFound<E, S>(router: Router<E>, rec: Recognizer<E>, call: E -> Ctx<S> -> Response,
                               state: S, req: Request)
    requires forall m :: Lookup(router.methods, rec, m, req.url.path).None?
    requires rec(router.all, req.url.path).None?
    ensures Dispatch(router, rec, call, [], state, req).0 == EmptyResponse(NotFound)
  {
    var path := req.url.path;
    forall m' | m' in router.methods ensures rec(router.methods[m'], path).None? {
      assert Lookup(router.methods, rec, m', path).None?;
    }
    if req.verb == Head {
      RouteHeadAsGet(router, rec, path);
      assert Lookup(router.methods, rec, Get, path).None?;
      RouteMissStatus(router, rec, path, Get);
    } else {
      RouteMissStatus(router, rec, path, req.verb);
    }
  }

  // ---------------------------------------------------------------------------
  // src/server.rs

  /** `Server`: `shared` records that the router and middleware are shared
      with a clone, after which registration panics. */
  datatype Server<E, !S> = Server(router: Router<Routes.Handler<E>>, state: S, middleware: Chain<S>, shared: bool)

  /** `Server::with_state`. */
  function WithState<E, S>(state: S): Server<E, S>
  {
    Server(NewRouter(), state, [], false)
  }

  /** A new server has an empty router, no middleware and the given state,
      and is not yet shared. */
  lemma WithStateFresh<E, S>(state: S)
    ensures var s := WithState<E, S>(state);
      s.router == NewRouter<Routes.Handler<E>>() && s.middleware == [] && s.state == state && !s.shared
  {
  }

  /** `Server::middleware`: appends, or panics once the server is shared. */
  function AddMiddleware<E, S>(s: Server<E, S>, m: Mw<Ctx<S>, Response>): (r: Result<Server<E, S>, string>)
    ensures r.Failure? <==> s.shared
    ensures r.Success? ==> r.value.middleware == s.middleware + [m]
                           && r.value.router == s.router && r.value.state == s.state
  {
    if s.shared then Failure("Registering middleware is not possible after the Server has started")
    else Success(s.(middleware := s.middleware + [m]))
  }

  /** `Server::at(path).method(m, e)`: registers through a route handle, or
      panics once the server is shared. */
  function Register<E, S>(s: Server<E, S>, r: Routes.Route, m: Method, e: E): (res: Result<Server<E, S>, string>)
    ensures res.Failure? <==> s.shared
    ensures res.Success? ==> res.value.router == Routes.RegisterMethod(s.router, r, m, e)
                             && res.value.middleware == s.middleware && res.value.state == s.state
  {
    if s.shared then Failure("Registering routes is not possible after the Server has started")
    else Success(s.(router := Routes.RegisterMethod(s.router, r, m, e)))
  }

  /** `Clone`: both copies share router, state and middleware. */
  function CloneServer<E, S>(s: Server<E, S>): (r: (Server<E, S>, Server<E, S>))
    ensures r.0 == r.1 && r.0.shared
    ensures r.0.router == s.router && r.0.state == s.state && r.0.middleware == s.middleware
  {
    var t := s.(shared := true);
    (t, t)
  }

  /** Middleware added in sequence end up in call order, as long as the
      server is not shared. */
  lemma MiddlewareInOrder<E, S>(s: Server<E, S>, a: Mw<Ctx<S>, Response>, b: Mw<Ctx<S>, Response>)
    requires !s.shared
    ensures AddMiddleware(s, a).Success?
    ensures AddMiddleware(AddMiddleware(s, a).value, b) == Success(s.(middleware := s.middleware + [a, b]))
  {
    assert s.middleware + [a] + [b] == s.middleware + [a, b];
  }

  /** After a clone no further middleware or route can be registered. */
  lemma NoRegistrationAfterClone<E, S>(s: Server<E, S>, m: Mw<Ctx<S>, Response>, r: Routes.Route, verb: Method, e: E)
    ensures AddMiddleware(CloneServer(s).0, m).Failure?
    ensures Register(CloneServer(s).0, r, verb, e).Failure?
  {
  }

  /** `Server::respond`: the route-parameter stack starts as the one layer
      of the selection, and the result is always `Ok`. */
  function ServerRespond<E, S>(s: Server<E, S>, rec: Recognizer<Routes.Handler<E>>, call: E -> Ctx<S> -> Response,
                         req: Request): (r: Result<Response, HttpError>)
    ensures r.Success?
    ensures r.value == Dispatch(s.router, rec, CallHandler(call), s.middleware, s.state, req.(params := [])).0
  {
    Success(Dispatch(s.router, rec, CallHandler(call), s.middleware, s.state, req.(params := [])).0)
  }

  /** The parameter stack `respond` hands to the chain holds exactly one
      layer, the selection's. */
  lemma RespondOneLayer<E, S>(s: Server<E, S>, rec: Recognizer<Routes.Handler<E>>, req: Request)
    ensures var sel := Route(s.router, rec, req.url.path, req.verb);
      req.(params := []).params + [sel.params] == [sel.params]
  {
  }

  /** `Endpoint for Server`: a nested server keeps the incoming parameter
      stack and pushes its own selection on top; the result is always `Ok`. */
  function CallNested<E, S, S0>(s: Server<E, S>, rec: Recognizer<Routes.Handler<E>>, call: E -> Ctx<S> -> Response,
                                outer: Ctx<S0>): (r: Result<Response, HttpError>)
    ensures r.Success?
    ensures r.value == Dispatch(s.router, rec, CallHandler(call), s.middleware, s.state, outer.req).0
  {
    Success(Dispatch(s.router, rec, CallHandler(call), s.middleware, s.state, outer.req).0)
  }

  /** A bare nested server sees the outer layers under its own: a key it
      did not capture resolves as it did outside. */
  lemma NestedKeepsOuterParams<E, S, S0>(s: Server<E, S>, rec: Recognizer<Routes.Handler<E>>,
                                         call: E -> Ctx<S> -> Response, outer: Ctx<S0>, key: string)
    requires s.middleware == []
    ensures var sel := Route(s.router, rec, outer.req.url.path, outer.req.verb);
            var inner := Ctx(outer.req.(params := outer.req.params + [sel.params]), s.state);
      && CallNested(s, rec, call, outer).value == Execute(CallHandler(call), sel.endpoint)(inner)
      && (key !in sel.params ==> Params.Find(inner.req.params, key) == Params.Find(outer.req.params, key))
  {
    DispatchBare(s.router, rec, CallHandler(call), s.state, outer.req, key);
  }

  /** The I/O error kinds distinguished by the accept loop. */
  datatype IoErrorKind = NotFoundKind | PermissionDenied | ConnectionRefused | ConnectionReset
                       | ConnectionAborted | NotConnected | AddrInUse | AddrNotAvailable | BrokenPipe
                       | AlreadyExists | WouldBlock | InvalidInput | InvalidData | TimedOut
                       | WriteZero | Interrupted | UnexpectedEof | Other

  /** `is_transient_error`: the connection-level failures after which the
      accept loop keeps going. */
  predicate IsTransient(k: IoErrorKind) {
    k == ConnectionRefused || k == ConnectionAborted || k == ConnectionReset
  }

  /** Exactly three kinds are transient. */
  lemma TransientKinds()
    ensures (set k: IoErrorKind | IsTransient(k)) == {ConnectionRefused, ConnectionAborted, ConnectionReset}
  {
  }

  // ---------------------------------------------------------------------------
  // src/server/mod.rs: builder `Server` and `Service`

  datatype Builder<E, !S> = Builder(router: Router<Routes.Handler<E>>, state: S, middleware: Chain<S>)

  datatype Service<E, !S> = Service(router: Router<Routes.Handler<E>>, state: S, middleware: Chain<S>)

  /** `Server::with_state` of this generation: the cookie middleware is
      installed as the only middleware. */
  function BuilderWithState<E, S>(state: S, cookies: Mw<Ctx<S>, Response>): Builder<E, S>
  {
    Builder(NewRouter(), state, [cookies])
  }

  /** A new builder has an empty router, the given state and the cookie
      middleware alone. */
  lemma BuilderWithStateFresh<E, S>(state: S, cookies: Mw<Ctx<S>, Response>)
    ensures var b := BuilderWithState<E, S>(state, cookies);
      b.router == NewRouter<Routes.Handler<E>>() && b.state == state && b.middleware == [cookies]
  {
  }

  function BuilderMiddleware<E, S>(b: Builder<E, S>, m: Mw<Ctx<S>, Response>): (b': Builder<E, S>)
    ensures b'.middleware == b.middleware + [m] && b'.router == b.router && b'.state == b.state
  {
    b.(middleware := b.middleware + [m])
  }

  /** User middleware always runs after the cookie middleware. */
  lemma CookiesFirst<E, S>(state: S, cookies: Mw<Ctx<S>, Response>, ms: Chain<S>)
    ensures var b := AddAllMiddleware(BuilderWithState<E, S>(state, cookies), ms);
      b.middleware == [cookies] + ms && b.middleware[0] == cookies
  {
    AddAllInOrder(BuilderWithState<E, S>(state, cookies), ms);
  }

  /** Repeated `middleware` calls. */
  function AddAllMiddleware<E, S>(b: Builder<E, S>, ms: Chain<S>): (b': Builder<E, S>)
    decreases |ms|
  {
    if |ms| == 0 then b else AddAllMiddleware(BuilderMiddleware(b, ms[0]), ms[1..])
  }

  lemma {:induction false} AddAllInOrder<E, S>(b: Builder<E, S>, ms: Chain<S>)
    ensures AddAllMiddleware(b, ms) == b.(middleware := b.middleware + ms)
    decreases |ms|
  {
    if |ms| > 0 {
      AddAllInOrder(BuilderMiddleware(b, ms[0]), ms[1..]);
      assert b.middleware + [ms[0]] + ms[1..] == b.middleware + ms;
    } else {
      assert b.middleware + ms == b.middleware;
    }
  }

  /** `into_http_service`. */
  function IntoHttpService<E, S>(b: Builder<E, S>): (s: Service<E, S>)
    ensures s.router == b.router && s.state == b.state && s.middleware == b.middleware
  {
    Service(b.router, b.state, b.middleware)
  }

  /** `HttpService::connect`: always ready with `Ok`. */
  function Connect(): (r: Result<(), string>)
    ensures r.Success?
  {
    Success(())
  }

  /** `HttpService::respond`: starts from an empty parameter stack and
      answers `Ok` of the call. */
  function ServiceRespond<E, S>(s: Service<E, S>, rec: Recognizer<Routes.Handler<E>>, call: E -> Ctx<S> -> Response,
                                req: Request): (r: Result<Response, string>)
    ensures r.Success?
    ensures r.value == ServiceCall(s, rec, call, req.(params := []))
  {
    Success(ServiceCall(s, rec, call, req.(params := [])))
  }

  /** `Endpoint for Service`: pushes the service's selection on the incoming
      stack and runs the service's whole middleware list. */
  function ServiceCall<E, S>(s: Service<E, S>, rec: Recognizer<Routes.Handler<E>>, call: E -> Ctx<S> -> Response,
                             req: Request): (r: Response)
  {
    Dispatch(s.router, rec, CallHandler(call), s.middleware, s.state, req).0
  }

  /** A service built from a builder behaves as dispatch over the builder's
      own router, state and middleware. */
  lemma ServiceOfBuilder<E, S>(b: Builder<E, S>, rec: Recognizer<Routes.Handler<E>>, call: E -> Ctx<S> -> Response,
                               req: Request)
    ensures ServiceRespond(IntoHttpService(b), rec, call, req).value
         == Dispatch(b.router, rec, CallHandler(call), b.middleware, b.state, req.(params := [])).0
  {
  }

  // ---------------------------------------------------------------------------
  // src/app.rs, tide/src/app.rs: apps over the older routers

  datatype App<E, !S> = App(router: LegacyRouter<E>, state: S, middleware: Chain<S>)

  /** `App::with_state`: no routes, no middleware. */
  function AppWithState<E, S>(state: S): App<E, S>
  {
    App(map[], state, [])
  }

  /** A new app has no routes, no middleware and the given state. */
  lemma AppWithStateFresh<E, S>(state: S)
    ensures var a := AppWithState<E, S>(state);
      a.router == map[] && a.middleware == [] && a.state == state
  {
  }

  /** `App::middleware`: the same append as `BuilderMiddleware`, kept apart
      because an `App` holds the older `LegacyRouter`, so the two records
      share no type to define it on once. */
  function AppMiddleware<E, S>(a: App<E, S>, m: Mw<Ctx<S>, Response>): (a': App<E, S>)
    ensures a'.middleware == a.middleware + [m] && a'.router == a.router && a'.state == a.state
  {
    a.(middleware := a.middleware + [m])
  }

  /** `App::into_http_service` is a plain repackaging; the resulting server
      is modelled by the same record. */
  function AppIntoHttpService<E, S>(a: App<E, S>): (s: App<E, S>)
    ensures s.router == a.router && s.state == a.state && s.middleware == a.middleware
  {
    App(a.router, a.state, a.middleware)
  }

  /** `HttpService::respond` of an app: routes by URI path and method with
      the older cascade, makes the selection's parameters the request's only
      layer, runs the whole chain, and answers `Ok`. */
  function AppRespond<E, S>(a: App<E, S>, rec: Recognizer<E>, call: E -> Ctx<S> -> Response,
                            req: Request): (r: Result<Response, string>)
    ensures r.Success?
  {
    var sel := LegacyRoute(a.router, rec, req.url.path, req.verb);
    Success(Run(NewNext(a.middleware, Execute(call, sel.endpoint)), Ctx(req.(params := [sel.params]), a.state)).0)
  }

  /** An app's response comes from the endpoint the older cascade selects,
      passed through the middleware; without middleware it is that
      endpoint's answer, and a miss is answered 404. */
  lemma AppRespondBare<E, S>(a: App<E, S>, rec: Recognizer<E>, call: E -> Ctx<S> -> Response, req: Request)
    requires a.middleware == []
    ensures var sel := LegacyRoute(a.router, rec, req.url.path, req.verb);
      && AppRespond(a, rec, call, req).value == Execute(call, sel.endpoint)(Ctx(req.(params := [sel.params]), a.state))
      && (sel.endpoint.NotFoundEndpoint? ==> AppRespond(a, rec, call, req).value == EmptyResponse(NotFound))
  {
  }

  /** When the app's first middleware answers by itself, that answer is the
      response, whatever the router selected: the endpoint is not reached. */
  lemma AppFirstMiddlewareAnswers<E, S>(a: App<E, S>, rec: Recognizer<E>, call: E -> Ctx<S> -> Response, req: Request)
    requires |a.middleware| > 0
    requires var sel := LegacyRoute(a.router, rec, req.url.path, req.verb);
      a.middleware[0](Ctx(req.(params := [sel.params]), a.state)).Respond?
    ensures var sel := LegacyRoute(a.router, rec, req.url.path, req.verb);
      AppRespond(a, rec, call, req).value == a.middleware[0](Ctx(req.(params := [sel.params]), a.state)).out
  {
  }

  // ---------------------------------------------------------------------------
  // The nested-routing fixtures of src/app.rs and tide/src/app.rs

  /** A recognizer for parameter-free paths: the first registration whose
      path is the request path, with no parameters. */
  function ExactRecognize<E>(regs: Registrations<E>, path: string): (r: Option<Match<E>>)
    ensures r.Some? ==> r.value.params == map[]
    decreases |regs|
  {
    if |regs| == 0 then None
    else if regs[0].0 == path then Some(Match(regs[0].1, map[]))
    else ExactRecognize(regs[1..], path)
  }

  /** The exact recognizer finds a registration exactly when one has the
      requested path, and it returns the first such. */
  lemma {:induction false} ExactRecognizeFirst<E>(regs: Registrations<E>, path: string)
    ensures ExactRecognize(regs, path).None? <==> forall i :: 0 <= i < |regs| ==> regs[i].0 != path
    ensures ExactRecognize(regs, path).Some? ==>
      exists i :: 0 <= i < |regs| && regs[i] == (path, ExactRecognize(regs, path).value.handler)
                  && forall j :: 0 <= j < i ==> regs[j].0 != path
    decreases |regs|
  {
    if |regs| > 0 && regs[0].0 != path {
      ExactRecognizeFirst(regs[1..], path);
      assert forall i :: 1 <= i < |regs| ==> regs[i] == regs[1..][i - 1];
      if ExactRecognize(regs, path).Some? {
        var i :| 0 <= i < |regs[1..]| && regs[1..][i] == (path, ExactRecognize(regs, path).value.handler)
                 && forall j :: 0 <= j < i ==> regs[1..][j].0 != path;
        assert regs[i + 1] == regs[1..][i];
        assert forall j :: 1 <= j < i + 1 ==> regs[j] == regs[1..][j - 1];
      }
    } else if |regs| > 0 {
      assert regs[0] == (path, ExactRecognize(regs, path).value.handler);
    }
  }

  /** The exact recognizer is sound: it returns only registered handlers. */
  lemma ExactRecognizeSound<E(!new)>()
    ensures Sound<E>(ExactRecognize)
  {
    forall regs: Registrations<E>, path: string | ExactRecognize(regs, path).Some?
      ensures Registered(regs, ExactRecognize(regs, path).value.handler)
    {
      ExactRecognizeFirst(regs, path);
    }
  }

  /** The registrations of the `nested_static` test: `App::at` takes the
      path as given, `Route::at` joins, and `nest` works on the same handle.
      Each endpoint answers its own full path. */
  function NestedStatic(): (r: LegacyRouter<string>)
  {
    var b := "/b";
    var bc := Routes.JoinPath(b, "/c");
    var r := Routes.LegacyRegister(map[], "/a", Get, "/a");
    var r := Routes.LegacyRegister(r, Routes.JoinPath(b, "/"), Get, "/b");
    var r := Routes.LegacyRegister(r, Routes.JoinPath(b, "/a"), Get, "/b/a");
    var r := Routes.LegacyRegister(r, Routes.JoinPath(b, "/b"), Get, "/b/b");
    var r := Routes.LegacyRegister(r, Routes.JoinPath(bc, "/a"), Get, "/b/c/a");
    var r := Routes.LegacyRegister(r, Routes.JoinPath(bc, "/b"), Get, "/b/c/b");
    var r := Routes.LegacyRegister(r, Routes.JoinPath(b, "/d"), Get, "/b/d");
    var r := Routes.LegacyRegister(r, Routes.JoinPath("/a/a", "/a"), Get, "/a/a/a");
    var r := Routes.LegacyRegister(r, Routes.JoinPath("/a/a", "/b"), Get, "/a/a/b");
    Routes.LegacyRegister(r, Routes.JoinPath("/a/b", "/"), Get, "/a/b")
  }

  /** `at` with a suffix that starts with its own '/' appends it as is. */
  lemma JoinRooted(base: string, suffix: string, full: string)
    requires suffix != "/" && |suffix| > 0 && suffix[0] == '/' && base + suffix == full
    ensures Routes.JoinPath(base, suffix) == full
  {
    assert suffix[..1] == "/";
    Routes.JoinPathOneSeparator(base, suffix);
  }

  /** The registrations `NestedStatic` makes, written out. */
  const NestedStaticGet: Registrations<string> :=
    [("/a", "/a"), ("/b", "/b"), ("/b/a", "/b/a"), ("/b/b", "/b/b"), ("/b/c/a", "/b/c/a"),
     ("/b/c/b", "/b/c/b"), ("/b/d", "/b/d"), ("/a/a/a", "/a/a/a"), ("/a/a/b", "/a/a/b"), ("/a/b", "/a/b")]

  /** Nesting concatenates paths: the fixture registers exactly the GET
      table above and nothing under any other method. */
  lemma NestedStaticTable()
    ensures NestedStatic() == map[Get := NestedStaticGet]
  {
    JoinRooted("/b", "/c", "/b/c");
    JoinRooted("/b", "/a", "/b/a");
    JoinRooted("/b", "/b", "/b/b");
    JoinRooted("/b", "/d", "/b/d");
    JoinRooted("/b/c", "/a", "/b/c/a");
    JoinRooted("/b/c", "/b", "/b/c/b");
    JoinRooted("/a/a", "/a", "/a/a/a");
    JoinRooted("/a/a", "/b", "/a/a/b");
    var r := NestedStatic();
    assert Get in r && r[Get] == NestedStaticGet;
    assert forall m :: m != Get ==> m !in r;
  }

  /** In the fixture a GET is 404 when no registration has the path, and
      otherwise reaches the endpoint answering that very path. */
  lemma NestedStaticRoute(path: string)
    ensures (forall i :: 0 <= i < |NestedStaticGet| ==> NestedStaticGet[i].0 != path) ==>
      LegacyRoute(map[Get := NestedStaticGet], ExactRecognize, path, Get).endpoint == NotFoundEndpoint
    ensures (exists i :: 0 <= i < |NestedStaticGet| && NestedStaticGet[i].0 == path) ==>
      LegacyRoute(map[Get := NestedStaticGet], ExactRecognize, path, Get).endpoint == Endpoint(path)
  {
    ExactRecognizeFirst(NestedStaticGet, path);
    var found := ExactRecognize(NestedStaticGet, path);
    if found.Some? {
      var j :| 0 <= j < |NestedStaticGet| && NestedStaticGet[j] == (path, found.value.handler);
      NestedStaticSelfNamed(j);
    }
  }

  /** Every registration of the fixture answers its own path. */
  lemma NestedStaticSelfNamed(j: int)
    requires 0 <= j < |NestedStaticGet|
    ensures NestedStaticGet[j].1 == NestedStaticGet[j].0
  {
  }

  /** No registration of the fixture has the paths the test expects to miss. */
  lemma NestedStaticUnregistered()
    ensures forall i :: 0 <= i < |NestedStaticGet| ==> NestedStaticGet[i].0 != "/"
    ensures forall i :: 0 <= i < |NestedStaticGet| ==> NestedStaticGet[i].0 != "/a/a"
    ensures forall i :: 0 <= i < |NestedStaticGet| ==> NestedStaticGet[i].0 != "/a/b/a"
  {
  }

  /** Unregistered paths get the 404 endpoint, a client error. */
  lemma NestedStaticMisses()
    ensures LegacyRoute(map[Get := NestedStaticGet], ExactRecognize, "/", Get).endpoint == NotFoundEndpoint
    ensures LegacyRoute(map[Get := NestedStaticGet], ExactRecognize, "/a/a", Get).endpoint == NotFoundEndpoint
    ensures LegacyRoute(map[Get := NestedStaticGet], ExactRecognize, "/a/b/a", Get).endpoint == NotFoundEndpoint
    ensures IsClientError(BuiltinStatus<string>(NotFoundEndpoint).value)
  {
    NestedStaticUnregistered();
    NestedStaticRoute("/");
    NestedStaticRoute("/a/a");
    NestedStaticRoute("/a/b/a");
  }

  /** Registered paths, first half: each gets the endpoint answering that very path. */
  lemma NestedStaticHitsA()
    ensures LegacyRoute(map[Get := NestedStaticGet], ExactRecognize, "/a", Get).endpoint == Endpoint("/a")
    ensures LegacyRoute(map[Get := NestedStaticGet], ExactRecognize, "/a/a/a", Get).endpoint == Endpoint("/a/a/a")
    ensures LegacyRoute(map[Get := NestedStaticGet], ExactRecognize, "/a/a/b", Get).endpoint == Endpoint("/a/a/b")
    ensures LegacyRoute(map[Get := NestedStaticGet], ExactRecognize, "/a/b", Get).endpoint == Endpoint("/a/b")
    ensures LegacyRoute(map[Get := NestedStaticGet], ExactRecognize, "/b", Get).endpoint == Endpoint("/b")
  {
    NestedStaticRoute("/a");
    assert NestedStaticGet[0].0 == "/a";
    NestedStaticRoute("/a/a/a");
    assert NestedStaticGet[7].0 == "/a/a/a";
    NestedStaticRoute("/a/a/b");
    assert NestedStaticGet[8].0 == "/a/a/b";
    NestedStaticRoute("/a/b");
    assert NestedStaticGet[9].0 == "/a/b";
    NestedStaticRoute("/b");
    assert NestedStaticGet[1].0 == "/b";
  }

  /** Registered paths, second half. */
  lemma NestedStaticHitsB()
    ensures LegacyRoute(map[Get := NestedStaticGet], ExactRecognize, "/b/a", Get).endpoint == Endpoint("/b/a")
    ensures LegacyRoute(map[Get := NestedStaticGet], ExactRecognize, "/b/b", Get).endpoint == Endpoint("/b/b")
    ensures LegacyRoute(map[Get := NestedStaticGet], ExactRecognize, "/b/c/a", Get).endpoint == Endpoint("/b/c/a")
    ensures LegacyRoute(map[Get := NestedStaticGet], ExactRecognize, "/b/c/b", Get).endpoint == Endpoint("/b/c/b")
    ensures LegacyRoute(map[Get := NestedStaticGet], ExactRecognize, "/b/d", Get).endpoint == Endpoint("/b/d")
  {
    NestedStaticRoute("/b/a");
    assert NestedStaticGet[2].0 == "/b/a";
    NestedStaticRoute("/b/b");
    assert NestedStaticGet[3].0 == "/b/b";
    NestedStaticRoute("/b/c/a");
    assert NestedStaticGet[4].0 == "/b/c/a";
    NestedStaticRoute("/b/c/b");
    assert NestedStaticGet[5].0 == "/b/c/b";
    NestedStaticRoute("/b/d");
    assert NestedStaticGet[6].0 == "/b/d";
  }

  /** The fixture app itself routes like the written-out table. */
  lemma NestedStaticApp(path: string, m: Method)
    ensures LegacyRoute(NestedStatic(), ExactRecognize, path, m) == LegacyRoute(map[Get := NestedStaticGet], ExactRecognize, path, m)
  {
    NestedStaticTable();
  }

  /** The `multiple_methods` test: GET through a nested handle and POST at
      the same path select their own endpoints. */
  function MultipleMethods(): (r: LegacyRouter<string>)
  {
    var r := Routes.LegacyRegister(map[], Routes.JoinPath("/a", "/b"), Get, "/a/b GET");
    Routes.LegacyRegister(r, "/a/b", Post, "/a/b POST")
  }

  lemma MultipleMethodsRoutes()
    ensures LegacyRoute(MultipleMethods(), ExactRecognize, "/a/b", Get).endpoint == Endpoint("/a/b GET")
    ensures LegacyRoute(MultipleMethods(), ExactRecognize, "/a/b", Post).endpoint == Endpoint("/a/b POST")
  {
    JoinRooted("/a", "/b", "/a/b");
    assert TableOf(MultipleMethods(), Get) == [("/a/b", "/a/b GET")];
    assert TableOf(MultipleMethods(), Post) == [("/a/b", "/a/b POST")];
  }
}
