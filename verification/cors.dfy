/** Cross-origin resource sharing (the CORS protocol, section 3.2 of the
    WHATWG Fetch Standard) as three middleware: the current one
    (src/security/cors.rs), the one of the split crates
    (tide-cors/src/middleware.rs) and the blanket example
    (examples/cors/mod.rs). Each decides between passing the request on,
    refusing it, and answering a preflight request itself.
 */
module Cors {
  import opened Wrappers
  import opened Http
  import opened Middleware

  const OriginHeader: string := "origin"
  const AllowOriginHeader: string := "access-control-allow-origin"
  const AllowMethodsHeader: string := "access-control-allow-methods"
  const AllowHeadersHeader: string := "access-control-allow-headers"
  const MaxAgeHeader: string := "access-control-max-age"
  const AllowCredentialsHeader: string := "access-control-allow-credentials"
  const ExposeHeadersHeader: string := "access-control-expose-headers"

  const DefaultMaxAge: string := "86400"
  const DefaultMethods: string := "GET, POST, OPTIONS"
  const Wildcard: string := "*"

  /** The origins a middleware accepts. */
  datatype Origin = Any | Exact(origin: string) | List(origins: seq<string>)

  /** `Origin::from(String)`: "*" is any origin. */
  function OriginFrom(s: string): (o: Origin)
    ensures o == Any <==> s == Wildcard
    ensures o != Any ==> o == Exact(s)
  {
    if s == Wildcard then Any else Exact(s)
  }

  /** `Origin::from(Vec<String>)`: a one-element list collapses to the
      single-string conversion. */
  function OriginFromList(list: seq<string>): (o: Origin)
    ensures |list| == 1 ==> o == OriginFrom(list[0])
    ensures |list| != 1 ==> o == List(list)
  {
    if |list| == 1 then OriginFrom(list[0]) else List(list)
  }

  datatype Config = Config(allowCredentials: Option<string>, allowHeaders: string, allowMethods: string,
                           allowOrigin: Origin, exposeHeaders: Option<string>, maxAge: string)

  /** `CorsMiddleware::new`, the same in both crates. */
  function NewConfig(): (c: Config)
    ensures c.allowCredentials.None? && c.exposeHeaders.None?
    ensures c.allowHeaders == Wildcard && c.allowMethods == DefaultMethods
    ensures c.allowOrigin == Any && c.maxAge == DefaultMaxAge
  {
    Config(None, Wildcard, DefaultMethods, Any, None, DefaultMaxAge)
  }

  /** `allow_credentials(b)`: stores the text of the boolean, which is always
      a valid header value. */
  function AllowCredentials(c: Config, b: bool): (c': Config)
    ensures c'.allowCredentials == Some(if b then "true" else "false")
    ensures c' == c.(allowCredentials := c'.allowCredentials)
  {
    c.(allowCredentials := Some(if b then "true" else "false"))
  }

  /** The other setters each replace their own field only. */
  function SetAllowHeaders(c: Config, v: string): (c': Config)
    ensures c'.allowHeaders == v && c' == c.(allowHeaders := v)
  {
    c.(allowHeaders := v)
  }

  function SetMaxAge(c: Config, v: string): (c': Config)
    ensures c'.maxAge == v && c' == c.(maxAge := v)
  {
    c.(maxAge := v)
  }

  function SetAllowMethods(c: Config, v: string): (c': Config)
    ensures c'.allowMethods == v && c' == c.(allowMethods := v)
  {
    c.(allowMethods := v)
  }

  function SetAllowOrigin(c: Config, o: Origin): (c': Config)
    ensures c'.allowOrigin == o && c' == c.(allowOrigin := o)
  {
    c.(allowOrigin := o)
  }

  function SetExposeHeaders(c: Config, v: string): (c': Config)
    ensures c'.exposeHeaders == Some(v) && c' == c.(exposeHeaders := Some(v))
  {
    c.(exposeHeaders := Some(v))
  }

  /** `is_valid_origin` of the current middleware. */
  predicate IsValidOrigin(c: Config, origin: string) {
    match c.allowOrigin
    case Any => true
    case Exact(s) => s == origin
    case List(l) => origin in l
  }

  /** `response_origin`: nothing for a refused origin; "*" when any origin
      is accepted; otherwise the request's own origin. */
  function ResponseOrigin(c: Config, origin: string): (r: Option<string>)
    ensures r.None? <==> !IsValidOrigin(c, origin)
    ensures r.Some? && c.allowOrigin.Any? ==> r.value == Wildcard
    ensures r.Some? && !c.allowOrigin.Any? ==> r.value == origin
  {
    if !IsValidOrigin(c, origin) then None
    else if c.allowOrigin.Any? then Some(Wildcard)
    else Some(origin)
  }

  /** The converted origin setting accepts exactly the listed origins, or
      everything when "*" was given alone. */
  lemma OriginFromListAccepts(c: Config, list: seq<string>, origin: string)
    ensures var c' := SetAllowOrigin(c, OriginFromList(list));
      IsValidOrigin(c', origin) <==> (list == [Wildcard] || origin in list)
  {
  }

  /** Sets or adds `name` only when `v` holds a value. */
  function InsertIf(h: Headers, name: string, v: Option<string>): (r: Headers)
    ensures v.None? ==> r == h
    ensures v.Some? ==> r == InsertHeader(h, name, v.value)
  {
    if v.Some? then InsertHeader(h, name, v.value) else h
  }

  // ---------------------------------------------------------------------------
  // src/security/cors.rs

  /** `build_preflight_response`: 200 with every value of the request's
      Origin header echoed back, the configured methods, headers and max
      age, and credentials and expose headers when configured. */
  function Preflight(c: Config, origins: seq<string>): (r: Response)
    ensures r.status == OK && r.body == []
    ensures AllowOriginHeader in r.headers && r.headers[AllowOriginHeader] == origins
    ensures AllowMethodsHeader in r.headers && r.headers[AllowMethodsHeader] == [c.allowMethods]
    ensures AllowHeadersHeader in r.headers && r.headers[AllowHeadersHeader] == [c.allowHeaders]
    ensures MaxAgeHeader in r.headers && r.headers[MaxAgeHeader] == [c.maxAge]
    ensures AllowCredentialsHeader in r.headers <==> c.allowCredentials.Some?
    ensures c.allowCredentials.Some? ==> r.headers[AllowCredentialsHeader] == [c.allowCredentials.value]
    ensures ExposeHeadersHeader in r.headers <==> c.exposeHeaders.Some?
    ensures c.exposeHeaders.Some? ==> r.headers[ExposeHeadersHeader] == [c.exposeHeaders.value]
    ensures r.headers.Keys <= {AllowOriginHeader, AllowMethodsHeader, AllowHeadersHeader, MaxAgeHeader,
                               AllowCredentialsHeader, ExposeHeadersHeader}
  {
    var h := map[AllowOriginHeader := origins, AllowMethodsHeader := [c.allowMethods],
                 AllowHeadersHeader := [c.allowHeaders], MaxAgeHeader := [c.maxAge]];
    var h := InsertIf(h, AllowCredentialsHeader, c.allowCredentials);
    Response(OK, InsertIf(h, ExposeHeadersHeader, c.exposeHeaders), [])
  }

  /** The headers added to a downstream response for an accepted origin. */
  function Decorate(c: Config, origin: string, res: Response): (r: Response)
    ensures r.status == res.status && r.body == res.body
  {
    var h := InsertHeader(res.headers, AllowOriginHeader, if c.allowOrigin.Any? then Wildcard else origin);
    var h := InsertIf(h, AllowCredentialsHeader, c.allowCredentials);
    res.(headers := InsertIf(h, ExposeHeadersHeader, c.exposeHeaders))
  }

  /** What the middleware does with a request. Errors from downstream are
      passed on untouched. */
  function CorsMw(c: Config): (mw: Mw<Request, Result<Response, HttpError>>)
  {
    (req: Request) =>
      var origins := if OriginHeader in req.headers then req.headers[OriginHeader] else [];
      if |origins| == 0 then CallNext(req, (o: Result<Response, HttpError>) => o)
      else if !IsValidOrigin(c, origins[0]) then Respond(Success(EmptyResponse(Unauthorized)))
      else if req.verb == Options then Respond(Success(Preflight(c, origins)))
      else CallNext(req, (o: Result<Response, HttpError>) =>
        if o.Success? then Success(Decorate(c, origins[0], o.value)) else o)
  }

  /** The four outcomes of `handle`, in the order the source checks them:
      no Origin header passes the request on unchanged; a refused origin is
      answered 401; an accepted preflight is answered directly; anything else
      is passed on and the response decorated, with the allow-origin header
      carrying the response origin. */
  lemma CorsDecision(c: Config, req: Request)
    ensures var origins := if OriginHeader in req.headers then req.headers[OriginHeader] else [];
            var a := CorsMw(c)(req);
      && (|origins| == 0 ==> a.CallNext? && a.input == req && forall o :: a.post(o) == o)
      && (|origins| > 0 && !IsValidOrigin(c, origins[0]) ==> a == Respond(Success(EmptyResponse(Unauthorized))))
      && (|origins| > 0 && IsValidOrigin(c, origins[0]) && req.verb == Options ==>
            a == Respond(Success(Preflight(c, origins))))
      && (|origins| > 0 && IsValidOrigin(c, origins[0]) && req.verb != Options ==>
            a.CallNext? && a.input == req
            && (forall e: HttpError :: a.post(Failure(e)) == Failure(e))
            && (forall res: Response :: a.post(Success(res)).Success?
                 && a.post(Success(res)).value.headers[AllowOriginHeader] == [ResponseOrigin(c, origins[0]).value]))
  {
  }

  /** In a chain, a refused origin or a preflight never reaches the rest:
      the trace is the middleware's own entry and exit. */
  lemma CorsShortCircuits(c: Config, rest: seq<Mw<Request, Result<Response, HttpError>>>,
                          endpoint: Request -> Result<Response, HttpError>, req: Request)
    requires OriginHeader in req.headers && |req.headers[OriginHeader]| > 0
    requires !IsValidOrigin(c, req.headers[OriginHeader][0]) || req.verb == Options
    ensures Run(Next([CorsMw(c)] + rest, 0, endpoint), req).1 == [Enter(0), Exit(0)]
  {
    ShortCircuit(Next([CorsMw(c)] + rest, 0, endpoint), req);
  }

  // ---------------------------------------------------------------------------
  // tide-cors/src/middleware.rs

  /** `is_valid_origin` of the split crate: a value that is not a visible
      string is refused before the configured origins are consulted. */
  predicate SplitIsValidOrigin(c: Config, origin: string) {
    VisibleAscii(origin) && IsValidOrigin(c, origin)
  }

  /** The preflight response of the split crate: 200 with the request's
      first origin and the configured values. */
  function SplitPreflight(c: Config, origin: string): (r: Response)
    ensures r.status == OK && r.body == []
    ensures AllowOriginHeader in r.headers && r.headers[AllowOriginHeader] == [origin]
    ensures AllowMethodsHeader in r.headers && r.headers[AllowMethodsHeader] == [c.allowMethods]
    ensures AllowHeadersHeader in r.headers && r.headers[AllowHeadersHeader] == [c.allowHeaders]
    ensures MaxAgeHeader in r.headers && r.headers[MaxAgeHeader] == [c.maxAge]
    ensures AllowCredentialsHeader in r.headers <==> c.allowCredentials.Some?
    ensures ExposeHeadersHeader in r.headers <==> c.exposeHeaders.Some?
  {
    Preflight(c, [origin])
  }

  /** The headers the split crate appends to a downstream response: the
      response origin and, when configured, the credentials flag; expose
      headers are not added here. */
  function SplitDecorate(c: Config, origin: string, res: Response): (r: Response)
    ensures r.status == res.status && r.body == res.body
    ensures ExposeHeadersHeader in r.headers <==> ExposeHeadersHeader in res.headers
  {
    var h := AppendHeader(res.headers, AllowOriginHeader, if c.allowOrigin.Any? then Wildcard else origin);
    var h := if c.allowCredentials.Some? then AppendHeader(h, AllowCredentialsHeader, c.allowCredentials.value) else h;
    res.(headers := h)
  }

  function SplitCorsMw(c: Config): (mw: Mw<Request, Response>)
  {
    (req: Request) =>
      match HeaderValue(req.headers, OriginHeader)
      case None => Respond(EmptyResponse(BadRequest))
      case Some(origin) =>
        if !SplitIsValidOrigin(c, origin) then Respond(EmptyResponse(Unauthorized))
        else if req.verb == Options then Respond(SplitPreflight(c, origin))
        else CallNext(req, (res: Response) => SplitDecorate(c, origin, res))
  }

  /** The split crate refuses a request without an Origin header with 400
      and a refused origin with 401; it answers an accepted preflight itself
      and otherwise passes the request on and appends the response origin
      after the values the response already had. */
  lemma SplitCorsDecision(c: Config, req: Request)
    ensures var a := SplitCorsMw(c)(req);
            var origin := HeaderValue(req.headers, OriginHeader);
      && (origin.None? ==> a == Respond(EmptyResponse(BadRequest)))
      && (origin.Some? && !SplitIsValidOrigin(c, origin.value) ==> a == Respond(EmptyResponse(Unauthorized)))
      && (origin.Some? && SplitIsValidOrigin(c, origin.value) && req.verb == Options ==>
            a == Respond(SplitPreflight(c, origin.value)))
      && (origin.Some? && SplitIsValidOrigin(c, origin.value) && req.verb != Options ==>
            a.CallNext? && a.input == req
            && forall res: Response :: var h := a.post(res).headers;
                 var before := if AllowOriginHeader in res.headers then res.headers[AllowOriginHeader] else [];
                 AllowOriginHeader in h && h[AllowOriginHeader] == before + [ResponseOrigin(c, origin.value).value])
  {
  }

  /** A non-visible origin is refused whatever the configuration. */
  lemma SplitRefusesInvisible(c: Config, req: Request)
    requires HeaderValue(req.headers, OriginHeader).Some?
    requires !VisibleAscii(HeaderValue(req.headers, OriginHeader).value)
    ensures SplitCorsMw(c)(req) == Respond(EmptyResponse(Unauthorized))
  {
  }

  // ---------------------------------------------------------------------------
  // examples/cors/mod.rs

  datatype Blanket = Blanket(maxAge: string, methods: string, origin: string, headers: string)

  /** `CorsBlanket::default`. */
  function DefaultBlanket(): (b: Blanket)
    ensures b.maxAge == DefaultMaxAge && b.methods == DefaultMethods
    ensures b.origin == Wildcard && b.headers == Wildcard
  {
    Blanket(DefaultMaxAge, DefaultMethods, Wildcard, Wildcard)
  }

  function BlanketPreflight(b: Blanket): (r: Response)
    ensures r.status == OK && r.body == []
    ensures r.headers == map[AllowOriginHeader := [b.origin], AllowMethodsHeader := [b.methods],
                             AllowHeadersHeader := [b.headers], MaxAgeHeader := [b.maxAge]]
  {
    Response(OK, map[AllowOriginHeader := [b.origin], AllowMethodsHeader := [b.methods],
                     AllowHeadersHeader := [b.headers], MaxAgeHeader := [b.maxAge]], [])
  }

  function BlanketMw(b: Blanket): (mw: Mw<Request, Response>)
  {
    (req: Request) =>
      if req.verb == Options then Respond(BlanketPreflight(b))
      else CallNext(req, (res: Response) =>
        if AllowOriginHeader in res.headers then res
        else res.(headers := res.headers[AllowOriginHeader := [b.origin]]))
  }

  /** OPTIONS is answered directly; any other request is passed on once and
      the allow-origin header is added only when the response lacks it. */
  lemma BlanketDecision(b: Blanket, req: Request)
    ensures req.verb == Options ==> BlanketMw(b)(req) == Respond(BlanketPreflight(b))
    ensures req.verb != Options ==>
      var a := BlanketMw(b)(req);
      a.CallNext? && a.input == req
      && forall res: Response :: (AllowOriginHeader in res.headers ==> a.post(res) == res)
                       && (AllowOriginHeader !in res.headers ==>
                             a.post(res).headers == InsertHeader(res.headers, AllowOriginHeader, b.origin)
                             && a.post(res).status == res.status && a.post(res).body == res.body)
  {
  }
}
