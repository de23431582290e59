/** The method-indexed routers. Each keeps one recognizer per HTTP method
    (and, in the current generation, one more for all methods); a recognizer
    is the external `route_recognizer::Router`, modelled as the list of its
    registrations together with an abstract recognition function `rec` that
    every routing function takes as a parameter.

    `Route` is the current cascade (own method, all-method table, HEAD as
    GET, 405, 404); `LegacyRoute` is the cascade shared by the four older
    routers (own method, HEAD as GET, 404).
 */
module Routers {
  import opened Wrappers
  import opened Http

  /** Route parameters produced by a recognizer (`route_recognizer::Params`). */
  type Params = map<string, string>

  /** The registrations of one recognizer, in registration order. */
  type Registrations<E> = seq<(string, E)>

  datatype Match<E> = Match(handler: E, params: Params)

  /** An abstract path recognizer over a list of registrations. */
  type Recognizer<!E> = (Registrations<E>, string) -> Option<Match<E>>

  /** A recognizer is sound when every handler it returns was registered. */
  ghost predicate Sound<E(!new)>(rec: Recognizer<E>) {
    forall regs, path :: rec(regs, path).Some? ==> Registered(regs, rec(regs, path).value.handler)
  }

  ghost predicate Registered<E>(regs: Registrations<E>, e: E) {
    exists i :: 0 <= i < |regs| && regs[i].1 == e
  }

  /** What a selection runs: a registered endpoint, or one of the two
      built-in endpoints answering 404 and 405. */
  datatype Target<E> = Endpoint(e: E) | NotFoundEndpoint | MethodNotAllowedEndpoint

  datatype Selection<E> = Selection(endpoint: Target<E>, params: Params) {
    /** `Selection::into_components`. */
    function IntoComponents(): (Target<E>, Params) {
      (endpoint, params)
    }
  }

  /** `Selection::new` and `into_components` are inverse. */
  lemma SelectionComponents<E>(e: Target<E>, ps: Params)
    ensures Selection(e, ps).IntoComponents() == (e, ps)
    ensures var (e', ps') := Selection(e, ps).IntoComponents(); Selection(e', ps') == Selection(e, ps)
  {
  }

  /** The status the built-in endpoints answer with; registered endpoints
      answer whatever they answer. */
  function BuiltinStatus<E>(t: Target<E>): (r: Option<int>)
    ensures r.Some? <==> !t.Endpoint?
    ensures t.NotFoundEndpoint? ==> r == Some(NotFound)
    ensures t.MethodNotAllowedEndpoint? ==> r == Some(MethodNotAllowed)
  {
    match t
    case Endpoint(_) => None
    case NotFoundEndpoint => Some(NotFound)
    case MethodNotAllowedEndpoint => Some(MethodNotAllowed)
  }

  /** The registrations of `m` in a method map; a missing method has none. */
  function TableOf<E>(tables: map<Method, Registrations<E>>, m: Method): (r: Registrations<E>)
    ensures m !in tables ==> r == []
    ensures m in tables ==> r == tables[m]
  {
    if m in tables then tables[m] else []
  }

  /** `method_map.get(&method).and_then(|r| r.recognize(path).ok())`. */
  function Lookup<E>(tables: map<Method, Registrations<E>>, rec: Recognizer<E>, m: Method, path: string): (r: Option<Match<E>>)
    ensures m !in tables ==> r == None
    ensures m in tables ==> r == rec(tables[m], path)
  {
    if m in tables then rec(tables[m], path) else None
  }

  // ---------------------------------------------------------------------------
  // src/router.rs

  datatype Router<E> = Router(methods: map<Method, Registrations<E>>, all: Registrations<E>)

  function NewRouter<E>(): Router<E>
  {
    Router(map[], [])
  }

  /** A new router has an empty table for every method and no all-method
      registration. */
  lemma NewRouterEmpty<E>(m: Method)
    ensures TableOf(NewRouter<E>().methods, m) == [] && NewRouter<E>().all == []
  {
  }

  /** `add`: registers under `m` only; every other table is unchanged. */
  function Add<E>(r: Router<E>, path: string, m: Method, e: E): (r': Router<E>)
    ensures TableOf(r'.methods, m) == TableOf(r.methods, m) + [(path, e)]
    ensures forall m' :: m' != m ==> (m' in r'.methods <==> m' in r.methods)
    ensures forall m' :: m' != m && m' in r.methods ==> r'.methods[m'] == r.methods[m']
    ensures r'.all == r.all
  {
    Router(r.methods[m := TableOf(r.methods, m) + [(path, e)]], r.all)
  }

  /** `add_all`: registers in the all-method table only. */
  function AddAll<E>(r: Router<E>, path: string, e: E): (r': Router<E>)
    ensures r'.methods == r.methods
    ensures r'.all == r.all + [(path, e)]
  {
    Router(r.methods, r.all + [(path, e)])
  }

  /** Some table other than `m`'s recognizes `path`. */
  predicate OtherMethodMatches<E>(r: Router<E>, rec: Recognizer<E>, path: string, m: Method) {
    exists m' | m' in r.methods :: m' != m && rec(r.methods[m'], path).Some?
  }

  function FromMatch<E>(mt: Match<E>): Selection<E> {
    Selection(Endpoint(mt.handler), mt.params)
  }

  /** `route`: own method, then the all-method table, then HEAD as GET, then
      405 when another method knows the path, then 404. */
  function Route<E>(r: Router<E>, rec: Recognizer<E>, path: string, m: Method): (s: Selection<E>)
    ensures !s.endpoint.Endpoint? ==> s.params == map[]
    decreases if m == Head then 1 else 0
  {
    var own := Lookup(r.methods, rec, m, path);
    if own.Some? then FromMatch(own.value)
    else if rec(r.all, path).Some? then FromMatch(rec(r.all, path).value)
    else if m == Head then Route(r, rec, path, Get)
    else if OtherMethodMatches(r, rec, path, m) then Selection(MethodNotAllowedEndpoint, map[])
    else Selection(NotFoundEndpoint, map[])
  }

  /** A selected endpoint was registered, under the request's method, under
      GET for a HEAD request, or in the all-method table. */
  lemma RouteSelectsRegistered<E(!new)>(r: Router<E>, rec: Recognizer<E>, path: string, m: Method)
    requires Sound(rec)
    ensures var s := Route(r, rec, path, m);
      s.endpoint.Endpoint? ==>
        Registered(TableOf(r.methods, m), s.endpoint.e) || Registered(r.all, s.endpoint.e)
        || (m == Head && Registered(TableOf(r.methods, Get), s.endpoint.e))
  {
  }

  /** The cascade, case by case: each case says when it applies, in terms of
      what the recognizers report, and what it selects. */
  lemma RouteOwnMethodFirst<E>(r: Router<E>, rec: Recognizer<E>, path: string, m: Method)
    requires m in r.methods && rec(r.methods[m], path).Some?
    ensures Route(r, rec, path, m) == FromMatch(rec(r.methods[m], path).value)
  {
  }

  lemma RouteAllMethodsSecond<E>(r: Router<E>, rec: Recognizer<E>, path: string, m: Method)
    requires Lookup(r.methods, rec, m, path).None? && rec(r.all, path).Some?
    ensures Route(r, rec, path, m) == FromMatch(rec(r.all, path).value)
  {
  }

  lemma RouteHeadAsGet<E>(r: Router<E>, rec: Recognizer<E>, path: string)
    requires Lookup(r.methods, rec, Head, path).None? && rec(r.all, path).None?
    ensures Route(r, rec, path, Head) == Route(r, rec, path, Get)
  {
  }

  /** A miss answers 405 exactly when another method's table knows the path,
      and 404 otherwise (for a method other than HEAD). */
  lemma RouteMissStatus<E>(r: Router<E>, rec: Recognizer<E>, path: string, m: Method)
    requires m != Head && Lookup(r.methods, rec, m, path).None? && rec(r.all, path).None?
    ensures Route(r, rec, path, m).endpoint == MethodNotAllowedEndpoint <==>
            exists m' :: m' in r.methods && m' != m && rec(r.methods[m'], path).Some?
    ensures Route(r, rec, path, m).endpoint == NotFoundEndpoint <==>
            forall m' :: m' in r.methods && m' != m ==> rec(r.methods[m'], path).None?
    ensures Route(r, rec, path, m).params == map[]
  {
  }

  /** A fresh router answers 404 for every path and method as long as the
      recognizer finds nothing in an empty registration list. */
  lemma NewRouterNotFound<E>(rec: Recognizer<E>, path: string, m: Method)
    requires rec([], path).None?
    ensures Route(NewRouter<E>(), rec, path, m) == Selection(NotFoundEndpoint, map[])
  {
  }

  // ---------------------------------------------------------------------------
  // src/router/router.rs, src/router/core.rs, tide-router/src/router.rs,
  // tide/src/router.rs: one table per method, no all-method table, no 405

  type LegacyRouter<E> = map<Method, Registrations<E>>

  function LegacyAdd<E>(r: LegacyRouter<E>, path: string, m: Method, e: E): (r': LegacyRouter<E>)
    ensures TableOf(r', m) == TableOf(r, m) + [(path, e)]
    ensures forall m' :: m' != m ==> (m' in r' <==> m' in r) && TableOf(r', m') == TableOf(r, m')
  {
    r[m := TableOf(r, m) + [(path, e)]]
  }

  function LegacyRoute<E>(r: LegacyRouter<E>, rec: Recognizer<E>, path: string, m: Method): (s: Selection<E>)
    ensures !s.endpoint.MethodNotAllowedEndpoint?
    ensures s.endpoint.NotFoundEndpoint? ==> s.params == map[]
    decreases if m == Head then 1 else 0
  {
    var own := Lookup(r, rec, m, path);
    if own.Some? then FromMatch(own.value)
    else if m == Head then LegacyRoute(r, rec, path, Get)
    else Selection(NotFoundEndpoint, map[])
  }

  /** The older cascade selects a registered endpoint exactly when the
      method's own table, or for HEAD the GET table, recognizes the path;
      everything else is 404. */
  lemma LegacyRouteCases<E>(r: LegacyRouter<E>, rec: Recognizer<E>, path: string, m: Method)
    ensures var s := LegacyRoute(r, rec, path, m);
      && (Lookup(r, rec, m, path).Some? ==> s == FromMatch(Lookup(r, rec, m, path).value))
      && (Lookup(r, rec, m, path).None? && m == Head ==> s == LegacyRoute(r, rec, path, Get))
      && (s.endpoint.NotFoundEndpoint? <==>
            Lookup(r, rec, m, path).None? && (m == Head ==> Lookup(r, rec, Get, path).None?))
  {
  }

  /** A new older router has no table at all, so it answers 404 for every
      path and method whatever the recognizer. */
  lemma LegacyNewNotFound<E>(rec: Recognizer<E>, path: string, m: Method)
    ensures forall m' :: TableOf<E>(map[], m') == []
    ensures LegacyRoute(map[], rec, path, m) == Selection(NotFoundEndpoint, map[])
  {
  }

  /** With a sound recognizer, an endpoint the older cascade selects was
      registered under the request's method, or under GET for a HEAD
      request. */
  lemma LegacyRouteSelectsRegistered<E(!new)>(r: LegacyRouter<E>, rec: Recognizer<E>, path: string, m: Method)
    requires Sound(rec)
    ensures var s := LegacyRoute(r, rec, path, m);
      s.endpoint.Endpoint? ==>
        Registered(TableOf(r, m), s.endpoint.e) || (m == Head && Registered(TableOf(r, Get), s.endpoint.e))
  {
  }

  /** Adding a route under `m` changes the routing of no other method,
      except that a HEAD request may now fall back to a new GET route. */
  lemma LegacyAddKeepsOtherMethods<E>(r: LegacyRouter<E>, rec: Recognizer<E>, p: string, m: Method, e: E,
                                      path: string, m': Method)
    requires m' != m && !(m' == Head && m == Get)
    ensures LegacyRoute(LegacyAdd(r, p, m, e), rec, path, m') == LegacyRoute(r, rec, path, m')
  {
    var r' := LegacyAdd(r, p, m, e);
    assert Lookup(r', rec, m', path) == Lookup(r, rec, m', path);
    if m' == Head {
      assert Lookup(r', rec, Get, path) == Lookup(r, rec, Get, path);
    }
  }

  /** Without an all-method table, the current router routes exactly like
      the older one except that a miss known to another method becomes 405. */
  lemma RouteRefinesLegacy<E>(r: LegacyRouter<E>, rec: Recognizer<E>, path: string, m: Method)
    requires rec([], path).None?
    ensures var s := Route(Router(r, []), rec, path, m);
            var l := LegacyRoute(r, rec, path, m);
      s.endpoint.MethodNotAllowedEndpoint? || s == l
    decreases if m == Head then 1 else 0
  {
    if m == Head && Lookup(r, rec, m, path).None? {
      RouteRefinesLegacy(r, rec, path, Get);
    }
  }
}
