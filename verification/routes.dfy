/** Route handles: a path under construction, extended with `at`, and the
    registrations a handle makes in a router. In the current generation a
    handle can be marked as a prefix; its endpoints are then wrapped so that
    they see only the rest of the path, and registered twice, at the path
    and at the path followed by a catch-all segment.
 */
module Routes {
  import opened Wrappers
  import opened Text
  import opened Http
  import opened Routers
  import Params

  // ---------------------------------------------------------------------------
  // Route::at (src/server/route.rs, src/route.rs, tide/src/route.rs)

  /** `at`: appends `suffix` to `base`, inserting one '/' when neither side
      supplies one; the suffix "/" adds nothing. */
  function JoinPath(base: string, suffix: string): (p: string)
    ensures suffix == "/" ==> p == base
    ensures StartsWith(p, base)
  {
    var sep := if !EndsWith(base, "/") && !StartsWith(suffix, "/") then "/" else "";
    base + sep + (if suffix != "/" then suffix else "")
  }

  /** Splitting on a separator distributes over a separator-joined
      concatenation. */
  lemma SplitConcat(a: string, b: string, c: char)
    ensures Split(a + [c] + b, c) == Split(a, c) + Split(b, c)
  {
    var parts := Split(a, c) + Split(b, c);
    JoinAppend(Split(a, c), Split(b, c), c);
    JoinSplit(a, c);
    JoinSplit(b, c);
    SplitJoin(parts, c);
  }

  /** Joining a concatenation puts one separator between the two joins. */
  lemma {:induction false} JoinAppend(p: seq<string>, q: seq<string>, c: char)
    requires |p| >= 1 && |q| >= 1
    ensures Join(p + q, c) == Join(p, c) + [c] + Join(q, c)
    decreases |p|
  {
    if |p| > 1 {
      JoinAppend(p[1..], q, c);
      assert (p + q)[1..] == p[1..] + q;
    } else {
      assert (p + q)[1..] == q;
    }
  }

  /** The non-empty segments of `a + "/" + b` are those of `a` then `b`. */
  lemma SegmentsAcrossSeparator(a: string, b: string)
    ensures NonEmpty(Split(a + ['/'] + b, '/')) == NonEmpty(Split(a, '/')) + NonEmpty(Split(b, '/'))
  {
    SplitConcat(a, b, '/');
    NonEmptyAppend(Split(a, '/'), Split(b, '/'));
  }

  /** A lone "/" has no non-empty segment. */
  lemma SlashSegments()
    ensures NonEmpty(Split("/", '/')) == []
  {
    assert "/" == "" + ['/'] + "";
    SplitConcat("", "", '/');
    assert Split("/", '/') == ["", ""];
    assert NonEmpty(["", ""]) == [];
  }

  /** A trailing '/' adds no non-empty segment. */
  lemma TrailingSlashSegments(a: string)
    ensures NonEmpty(Split(a + ['/'], '/')) == NonEmpty(Split(a, '/'))
  {
    assert a + ['/'] == a + ['/'] + "";
    SegmentsAcrossSeparator(a, "");
    assert Split("", '/') == [""];
    assert NonEmpty([""]) == [];
  }

  /** A leading '/' adds no non-empty segment. */
  lemma LeadingSlashSegments(b: string)
    ensures NonEmpty(Split(['/'] + b, '/')) == NonEmpty(Split(b, '/'))
  {
    assert ['/'] + b == "" + ['/'] + b;
    SegmentsAcrossSeparator("", b);
    assert Split("", '/') == [""];
    assert NonEmpty([""]) == [];
  }

  /** The path segments of a joined path are the base's segments followed by
      the suffix's segments (empty segments, which routing skips, aside). */
  lemma JoinPathSegments(base: string, suffix: string)
    ensures NonEmpty(Split(JoinPath(base, suffix), '/')) ==
            NonEmpty(Split(base, '/')) + NonEmpty(Split(suffix, '/'))
  {
    var p := JoinPath(base, suffix);
    if suffix == "/" {
      SlashSegments();
    } else if !EndsWith(base, "/") && !StartsWith(suffix, "/") {
      assert p == base + ['/'] + suffix;
      SegmentsAcrossSeparator(base, suffix);
    } else if EndsWith(base, "/") {
      var b' := base[..|base| - 1];
      assert base == b' + ['/'];
      assert p == b' + ['/'] + suffix;
      SegmentsAcrossSeparator(b', suffix);
      TrailingSlashSegments(b');
    } else {
      var s' := suffix[1..];
      assert suffix == ['/'] + s';
      assert p == base + ['/'] + s';
      SegmentsAcrossSeparator(base, s');
      LeadingSlashSegments(s');
    }
  }

  /** `at` with a suffix that brings no separator of its own onto a base that
      has none adds exactly one '/'. */
  lemma JoinPathOneSeparator(base: string, suffix: string)
    requires suffix != "/"
    ensures !EndsWith(base, "/") && !StartsWith(suffix, "/") ==> JoinPath(base, suffix) == base + "/" + suffix
    ensures EndsWith(base, "/") || StartsWith(suffix, "/") ==> JoinPath(base, suffix) == base + suffix
  {
  }

  // ---------------------------------------------------------------------------
  // src/server/route.rs: prefix routes

  /** Endpoints as the current router stores them: as given, or wrapped in
      `StripPrefixEndpoint`. */
  datatype Handler<E> = Direct(e: E) | StripPrefix(e: E)

  datatype Route = Route(path: string, prefix: bool)

  /** `Route::new`. */
  function NewRoute(path: string): (r: Route)
    ensures r.path == path && !r.prefix
  {
    Route(path, false)
  }

  /** `Route::at`: every derived handle starts out as a non-prefix route. */
  function At(r: Route, suffix: string): (r': Route)
    ensures r'.path == JoinPath(r.path, suffix)
    ensures !r'.prefix
  {
    Route(JoinPath(r.path, suffix), false)
  }

  /** `strip_prefix`. */
  function StripPrefixRoute(r: Route): (r': Route)
    ensures r'.path == r.path && r'.prefix
  {
    Route(r.path, true)
  }

  /** The catch-all path registered beside a prefix route. */
  function RestPath(path: string): (p: string)
    ensures p == JoinPath(path, "*" + Params.PathRest)
  {
    At(Route(path, true), "*" + Params.PathRest).path
  }

  /** `method`: a prefix route registers the wrapped endpoint at its path and
      at its catch-all path; otherwise the endpoint is registered once, as
      given. Only `m`'s table changes. */
  function RegisterMethod<E>(rt: Router<Handler<E>>, r: Route, m: Method, e: E): (rt': Router<Handler<E>>)
    ensures TableOf(rt'.methods, m) == TableOf(rt.methods, m) +
      (if r.prefix then [(r.path, StripPrefix(e)), (RestPath(r.path), StripPrefix(e))] else [(r.path, Direct(e))])
    ensures forall m' :: m' != m ==> (m' in rt'.methods <==> m' in rt.methods)
    ensures forall m' :: m' != m && m' in rt.methods ==> rt'.methods[m'] == rt.methods[m']
    ensures rt'.all == rt.all
  {
    if r.prefix then
      var rt1 := Add(rt, r.path, m, StripPrefix(e));
      Add(rt1, RestPath(r.path), m, StripPrefix(e))
    else Add(rt, r.path, m, Direct(e))
  }

  /** `all`: the same two-registration rule, in the all-method table. */
  function RegisterAll<E>(rt: Router<Handler<E>>, r: Route, e: E): (rt': Router<Handler<E>>)
    ensures rt'.methods == rt.methods
    ensures rt'.all == rt.all +
      (if r.prefix then [(r.path, StripPrefix(e)), (RestPath(r.path), StripPrefix(e))] else [(r.path, Direct(e))])
  {
    if r.prefix then
      var rt1 := AddAll(rt, r.path, StripPrefix(e));
      AddAll(rt1, RestPath(r.path), StripPrefix(e))
    else AddAll(rt, r.path, Direct(e))
  }

  /** `nest`: registers the nested service for all methods as a prefix route
      and leaves the handle a non-prefix route. */
  function Nest<E>(rt: Router<Handler<E>>, r: Route, service: E): (res: (Router<Handler<E>>, Route))
    ensures res.0.methods == rt.methods
    ensures res.0.all == rt.all + [(r.path, StripPrefix(service)), (RestPath(r.path), StripPrefix(service))]
    ensures res.1 == Route(r.path, false)
  {
    (RegisterAll(rt, StripPrefixRoute(r), service), Route(r.path, false))
  }

  /** A prefix registration and a plain one differ only in the wrapping and
      the extra catch-all entry. */
  lemma PrefixAddsCatchAll<E>(rt: Router<Handler<E>>, path: string, m: Method, e: E)
    ensures TableOf(RegisterMethod(rt, Route(path, true), m, e).methods, m)
         == TableOf(RegisterMethod(rt, Route(path, false), m, e).methods, m)[..|TableOf(rt.methods, m)|]
            + [(path, StripPrefix(e)), (RestPath(path), StripPrefix(e))]
  {
  }

  /** The verb helpers (`get`, `head`, ...) by name; each one calls `method`
      with its own HTTP method. */
  function HelperMethod(name: string): (m: Option<Method>)
  {
    if name == "get" then Some(Get)
    else if name == "head" then Some(Head)
    else if name == "put" then Some(Put)
    else if name == "post" then Some(Post)
    else if name == "delete" then Some(Delete)
    else if name == "options" then Some(Options)
    else if name == "connect" then Some(Connect)
    else if name == "patch" then Some(Patch)
    else if name == "trace" then Some(Trace)
    else None
  }

  /** The name of the helper for each method. */
  function HelperName(m: Method): string {
    match m
    case Get => "get"
    case Head => "head"
    case Put => "put"
    case Post => "post"
    case Delete => "delete"
    case Options => "options"
    case Connect => "connect"
    case Patch => "patch"
    case Trace => "trace"
  }

  /** The helpers are in one-to-one correspondence with the methods. */
  lemma HelpersOneToOne(m: Method, name: string)
    ensures HelperMethod(HelperName(m)) == Some(m)
    ensures HelperMethod(name).Some? ==> HelperName(HelperMethod(name).value) == name
  {
  }

  // ---------------------------------------------------------------------------
  // tide/src/route.rs, src/route.rs: no prefix routes

  /** `method` in the older generations: exactly (current path, method). */
  function LegacyRegister<E>(rt: LegacyRouter<E>, path: string, m: Method, e: E): (rt': LegacyRouter<E>)
    ensures TableOf(rt', m) == TableOf(rt, m) + [(path, e)]
    ensures forall m' :: m' != m ==> (m' in rt' <==> m' in rt) && TableOf(rt', m') == TableOf(rt, m')
  {
    LegacyAdd(rt, path, m, e)
  }

  /** Each older verb helper is `method` with its own verb: it extends that
      verb's table and no other. */
  lemma LegacyHelpersOwnVerb<E>(rt: LegacyRouter<E>, path: string, m: Method, e: E)
    ensures HelperMethod(HelperName(m)) == Some(m)
    ensures var rt' := LegacyRegister(rt, path, HelperMethod(HelperName(m)).value, e);
      TableOf(rt', m) == TableOf(rt, m) + [(path, e)]
      && forall m' :: m' != m ==> TableOf(rt', m') == TableOf(rt, m')
  {
  }

  /** `nest` in the older generations runs the closure on the same handle, so
      `at("/")` inside it names the handle's own path. */
  lemma NestSamePath(path: string)
    ensures JoinPath(path, "/") == path
  {
  }

  // ---------------------------------------------------------------------------
  // StripPrefixEndpoint::call (src/server/route.rs)

  /** The URI the wrapped endpoint sees: "/" followed by the rest of the path
      ("" when there is none), with the query, scheme and authority kept. */
  function StripPrefixUrl(u: Url, layers: seq<Params.Layer>): (u': Url)
    ensures u'.scheme == u.scheme && u'.authority == u.authority && u'.query == u.query
    ensures StartsWith(u'.path, "/")
    ensures Params.Rest(layers).None? ==> u'.path == "/"
    ensures Params.Rest(layers).Some? ==> u'.path[1..] == Params.Rest(layers).value
  {
    Url(u.scheme, u.authority, "/" + Params.Rest(layers).GetOr(""), u.query)
  }

  /** Stripping is idempotent: a second strip with the same parameters gives
      the same URI. */
  lemma StripPrefixIdempotent(u: Url, layers: seq<Params.Layer>)
    ensures StripPrefixUrl(StripPrefixUrl(u, layers), layers) == StripPrefixUrl(u, layers)
  {
  }
}
