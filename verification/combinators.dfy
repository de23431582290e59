/** Ready-made middleware, each expressed as a `Middleware.Mw`: `Before`
    and `After` (src/utils.rs), `ErrorHandler`, `DefaultHeaders` (two
    generations) and the logging middleware. Every one of them calls the
    rest of the chain exactly once; they differ in what they do to the input
    before and to the output after.
 */
module Combinators {
  import opened Wrappers
  import opened Http
  import opened Middleware

  /** `Before(f)`: applies `f` to the input, then runs the rest on the result
      and returns its output untouched. */
  function Before<In, Out>(f: In -> In): (mw: Mw<In, Out>)
  {
    x => CallNext(f(x), o => o)
  }

  /** `After(f)`: runs the rest on the input unchanged, then returns `f` of
      its output, which may turn a response into an error. */
  function After<In, Out>(f: Out -> Out): (mw: Mw<In, Out>)
  {
    x => CallNext(x, f)
  }

  /** Placed first in a chain, `Before(f)` makes the chain behave as the rest
      of the chain applied to `f` of the input. */
  lemma BeforeRuns<In, Out>(f: In -> In, rest: seq<Mw<In, Out>>, endpoint: In -> Out, x: In)
    ensures Run(Next([Before<In, Out>(f)] + rest, 0, endpoint), x).0 == Run(Next(rest, 0, endpoint), f(x)).0
  {
    assert ([Before<In, Out>(f)] + rest)[0] == Before(f);
    RunShift([Before<In, Out>(f)], rest, endpoint, 0, f(x));
  }

  /** Placed first in a chain, `After(f)` makes the chain behave as `f`
      applied to the output of the rest of the chain on the same input. */
  lemma AfterRuns<In, Out>(f: Out -> Out, rest: seq<Mw<In, Out>>, endpoint: In -> Out, x: In)
    ensures Run(Next([After<In, Out>(f)] + rest, 0, endpoint), x).0 == f(Run(Next(rest, 0, endpoint), x).0)
  {
    assert ([After<In, Out>(f)] + rest)[0] == After(f);
    RunShift([After<In, Out>(f)], rest, endpoint, 0, x);
  }

  /** Output of the error-handling generation. */
  type Outcome = Result<Response, HttpError>

  // ---------------------------------------------------------------------------
  // ErrorHandler (src/error/error_handler.rs)

  /** `ErrorHandler::<E>::new(mapper)`: `kind` names the error type `E`. */
  datatype ErrorHandler = ErrorHandler(kind: string, mapper: HttpError -> Outcome)

  /** What the handler makes of the downstream outcome: an error of its own
      kind is replaced by the mapper's result; anything else passes through. */
  function HandleOutcome(h: ErrorHandler, o: Outcome): (r: Outcome)
    ensures o.Success? ==> r == o
    ensures o.Failure? && o.error.kind != h.kind ==> r == o
    ensures o.Failure? && o.error.kind == h.kind ==> r == h.mapper(o.error)
  {
    match o
    case Success(_) => o
    case Failure(e) => if e.kind == h.kind then h.mapper(e) else o
  }

  function ErrorHandlerMw<In>(h: ErrorHandler): (mw: Mw<In, Outcome>)
  {
    x => CallNext(x, o => HandleOutcome(h, o))
  }

  /** The handler always runs the rest of the chain, on the same input, and
      changes only errors of its own kind. */
  lemma ErrorHandlerRuns<In>(h: ErrorHandler, rest: seq<Mw<In, Outcome>>, endpoint: In -> Outcome, x: In)
    ensures var inner := Run(Next(rest, 0, endpoint), x).0;
            var outer := Run(Next([ErrorHandlerMw<In>(h)] + rest, 0, endpoint), x).0;
      (inner.Success? || inner.error.kind != h.kind ==> outer == inner)
      && (inner.Failure? && inner.error.kind == h.kind ==> outer == h.mapper(inner.error))
  {
    AfterRuns(o => HandleOutcome(h, o), rest, endpoint, x);
    assert ErrorHandlerMw<In>(h) == After(o => HandleOutcome(h, o));
  }

  const ErrorHandlerPrefix: string := "ErrorHandler for "

  /** `ErrorHandler::name`. */
  function ErrorHandlerName(h: ErrorHandler): (s: string)
    ensures |s| == |ErrorHandlerPrefix| + |h.kind|
    ensures s[..|ErrorHandlerPrefix|] == ErrorHandlerPrefix && s[|ErrorHandlerPrefix|..] == h.kind
  {
    ErrorHandlerPrefix + h.kind
  }

  /** Distinct error types give distinct names. */
  lemma ErrorHandlerNameInjective(h1: ErrorHandler, h2: ErrorHandler)
    requires ErrorHandlerName(h1) == ErrorHandlerName(h2)
    ensures h1.kind == h2.kind
  {
    assert h1.kind == ErrorHandlerName(h1)[|ErrorHandlerPrefix|..];
  }

  // ---------------------------------------------------------------------------
  // DefaultHeaders (src/middleware/default_headers.rs, tide-headers/src/lib.rs)

  /** `DefaultHeaders::new`. */
  function NewDefaultHeaders(): (d: Headers)
    ensures d == map[]
  {
    map[]
  }

  /** `DefaultHeaders::header`: appends the value, and panics (`Failure`)
      when it is not a valid header value. */
  function AddDefault(d: Headers, name: string, value: string): (r: Result<Headers, string>)
    ensures r.Failure? <==> !ValidHeaderValue(value)
    ensures r.Success? ==> r.value == AppendHeader(d, name, value)
  {
    if ValidHeaderValue(value) then Success(AppendHeader(d, name, value))
    else Failure("Cannot create default header")
  }

  /** The response headers after `handle`: every default header the response
      lacks is inserted with its first default value; headers already present
      are kept as they are. */
  function FillDefaults(h: Headers, d: Headers): (r: Headers)
    ensures forall k :: k in h ==> k in r && r[k] == h[k]
    ensures forall k :: k !in h ==> (k in r <==> k in d && |d[k]| > 0)
    ensures forall k :: k !in h && k in r ==> r[k] == [d[k][0]]
  {
    map k | k in h.Keys + (set k | k in d && |d[k]| > 0) :: if k in h then h[k] else [d[k][0]]
  }

  /** Filling is idempotent, and the empty default set changes nothing. */
  lemma FillDefaultsIdempotent(h: Headers, d: Headers)
    ensures FillDefaults(FillDefaults(h, d), d) == FillDefaults(h, d)
    ensures FillDefaults(h, map[]) == h
  {
  }

  function DefaultHeadersMw<In>(d: Headers): (mw: Mw<In, Response>)
  {
    x => CallNext(x, (res: Response) => res.(headers := FillDefaults(res.headers, d)))
  }

  /** The middleware runs the rest once on the same input and only fills in
      missing default headers; status and body are untouched. */
  lemma DefaultHeadersRuns<In>(d: Headers, rest: seq<Mw<In, Response>>, endpoint: In -> Response, x: In)
    ensures var inner := Run(Next(rest, 0, endpoint), x).0;
            var outer := Run(Next([DefaultHeadersMw<In>(d)] + rest, 0, endpoint), x).0;
      outer.status == inner.status && outer.body == inner.body
      && outer.headers == FillDefaults(inner.headers, d)
  {
    AfterRuns((res: Response) => res.(headers := FillDefaults(res.headers, d)), rest, endpoint, x);
    assert DefaultHeadersMw<In>(d) == After((res: Response) => res.(headers := FillDefaults(res.headers, d)));
  }

  /** In a chain (the `tide-headers` generation is the same middleware),
      every header the inner response has keeps its values, and every
      default name ends up present. */
  lemma DefaultHeadersPresent<In>(d: Headers, rest: seq<Mw<In, Response>>, endpoint: In -> Response, x: In)
    ensures var inner := Run(Next(rest, 0, endpoint), x).0;
            var outer := Run(Next([DefaultHeadersMw<In>(d)] + rest, 0, endpoint), x).0;
      && (forall k :: k in inner.headers ==> k in outer.headers && outer.headers[k] == inner.headers[k])
      && (forall k :: k in d && |d[k]| > 0 ==> k in outer.headers)
  {
    DefaultHeadersRuns(d, rest, endpoint, x);
  }

  // ---------------------------------------------------------------------------
  // LogMiddleware (src/log/middleware.rs)

  datatype Level = Info | Warn | Error

  /** The level the response line is logged at: errors and 5xx at error, 4xx
      at warn, everything else at info. */
  function LogLevel(o: Outcome): (l: Level)
    ensures l == Error <==> o.Failure? || IsServerError(o.value.status)
    ensures l == Warn <==> o.Success? && IsClientError(o.value.status)
  {
    match o
    case Failure(_) => Error
    case Success(res) =>
      if IsServerError(res.status) then Error
      else if IsClientError(res.status) then Warn
      else Info
  }

  function LogMw<In>(): (mw: Mw<In, Outcome>)
  {
    x => CallNext(x, o => o)
  }

  /** Logging is transparent: the chain with the logger in front yields
      exactly what the rest of the chain yields. */
  lemma LogTransparent<In>(rest: seq<Mw<In, Outcome>>, endpoint: In -> Outcome, x: In)
    ensures Run(Next([LogMw<In>()] + rest, 0, endpoint), x).0 == Run(Next(rest, 0, endpoint), x).0
  {
    assert ([LogMw<In>()] + rest)[0] == LogMw();
    RunShift([LogMw<In>()], rest, endpoint, 0, x);
  }

  /** The level the logger picks from what `next.run` hands it is the level
      of the reply the chain sends: error exactly for a failure or a 5xx
      sent, warn exactly for a 4xx sent. */
  lemma LogLevelOfReply<In>(rest: seq<Mw<In, Outcome>>, endpoint: In -> Outcome, x: In)
    ensures var seen := Run(Next(rest, 0, endpoint), x).0;
            var sent := Run(Next([LogMw<In>()] + rest, 0, endpoint), x).0;
      && LogLevel(seen) == LogLevel(sent)
      && (LogLevel(seen) == Error <==> sent.Failure? || IsServerError(sent.value.status))
      && (LogLevel(seen) == Warn <==> sent.Success? && IsClientError(sent.value.status))
      && (LogLevel(seen) == Info <==> sent.Success? && !IsServerError(sent.value.status) && !IsClientError(sent.value.status))
  {
    LogTransparent(rest, endpoint, x);
  }
}
