/** Endpoint errors of the core crate and the request extractors of the
    context-era crate. An extractor either produces its value, rejects the
    request with a response, or panics; the three outcomes are kept apart.
 */
module Extractors {
  import opened Wrappers
  import opened Http
  import opened PathTable

  // ---------------------------------------------------------------------------
  // tide-core/src/error.rs

  /** A status code the HTTP library accepts: three digits. */
  predicate ValidStatus(s: int) { 100 <= s <= 999 }

  type StatusCode = s: int | ValidStatus(s) witness 200

  /** `Error`: a response, and the cause recorded in its extensions when
      there is one. */
  datatype Error<E> = Error(res: Response, cause: Option<E>)

  /** `Error::new` and `From<Response>`: no cause. */
  function ErrorNew<E>(res: Response): Error<E>
  {
    Error(res, None)
  }

  /** `From<StatusCode>`: an empty response with the status, no cause. */
  function ErrorFromStatus<E>(status: StatusCode): Error<E>
  {
    Error(EmptyResponse(status), None)
  }

  /** `into_response` and `response_ref`: the stored response. */
  function ErrorResponse<E>(e: Error<E>): (r: Response)
    ensures r == e.res
  {
    e.res
  }

  /** `err_cause`: the recorded cause. */
  function ErrCause<E>(e: Error<E>): (c: Option<E>)
    ensures c == e.cause
  {
    e.cause
  }

  /** Wrapping a response in an error and taking it out again is the
      identity, and neither constructor records a cause. */
  lemma ErrorRoundTrip<E>(res: Response, status: StatusCode)
    ensures ErrorResponse(ErrorNew<E>(res)) == res
    ensures ErrCause(ErrorNew<E>(res)).None? && ErrCause(ErrorFromStatus<E>(status)).None?
    ensures ErrorResponse(ErrorFromStatus<E>(status)) == EmptyResponse(status)
  {
  }

  /** `with_err_status`: `Ok` passes through untouched whatever the status;
      an `Err` becomes an empty response with the status and the error as
      its cause. The response builder rejects an invalid status, and the
      `unwrap` on it panics: the outer `Failure`. */
  function WithErrStatus<T, E>(r: Result<T, E>, status: int): (o: Result<Result<T, Error<E>>, string>)
    ensures o.Failure? <==> r.Failure? && !ValidStatus(status)
    ensures r.Success? ==> o == Success(Success(r.value))
    ensures r.Failure? && ValidStatus(status) ==>
      o == Success(Failure(Error(EmptyResponse(status), Some(r.error))))
  {
    match r
    case Success(t) => Success(Success(t))
    case Failure(e) =>
      if ValidStatus(status) then Success(Failure(Error(EmptyResponse(status), Some(e))))
      else Failure("invalid status code")
  }

  /** `client_err`: 400. */
  function ClientErr<T, E>(r: Result<T, E>): (o: Result<T, Error<E>>)
    ensures r.Success? ==> o == Success(r.value)
    ensures r.Failure? ==> o.Failure? && o.error.res.status == BadRequest && o.error.cause == Some(r.error)
  {
    WithErrStatus(r, BadRequest).value
  }

  /** `server_err`: 500. */
  function ServerErr<T, E>(r: Result<T, E>): (o: Result<T, Error<E>>)
    ensures r.Success? ==> o == Success(r.value)
    ensures r.Failure? ==> o.Failure? && o.error.res.status == InternalServerError && o.error.cause == Some(r.error)
  {
    WithErrStatus(r, InternalServerError).value
  }

  /** The error of `with_err_status` converts into exactly the response of
      `From<StatusCode>`; only the recorded cause tells them apart. */
  lemma WithErrStatusAgrees<T, E>(e: E, status: StatusCode)
    ensures var o := WithErrStatus<T, E>(Failure(e), status);
      o.Success? && o.value.Failure?
      && ErrorResponse(o.value.error) == ErrorResponse(ErrorFromStatus<E>(status))
      && ErrCause(o.value.error) == Some(e)
  {
  }

  // ---------------------------------------------------------------------------
  // src/head.rs

  /** What an extractor does with a request. */
  datatype Outcome<T> = Extracted(value: T) | Rejected(response: Response) | Panicked(message: string)

  /** `StatusCode::into_response`: the rejection an extractor answers with. */
  function Reject<T>(status: int): Outcome<T>
  {
    Rejected(EmptyResponse(status))
  }

  /** `NamedHeader` extracting `Header<T>`: the first value of the header,
      or 400 when the request has none. */
  function ExtractHeader(req: Request, name: string): (o: Outcome<string>)
    ensures o.Extracted? <==> name in req.headers && |req.headers[name]| > 0
    ensures o.Extracted? ==> o.value == req.headers[name][0]
    ensures !o.Extracted? ==> o == Reject(BadRequest)
  {
    match HeaderValue(req.headers, name)
    case Some(v) => Extracted(v)
    case None => Reject(BadRequest)
  }

  /** `NamedHeader` extracting `Option<Header<T>>`: never rejects. */
  function ExtractOptionalHeader(req: Request, name: string): (o: Outcome<Option<string>>)
    ensures o.Extracted?
    ensures o.value.Some? <==> ExtractHeader(req, name).Extracted?
    ensures o.value.Some? ==> o.value.value == ExtractHeader(req, name).value
  {
    Extracted(HeaderValue(req.headers, name))
  }

  /** `Path<T>`: `idx` is the `PathIdx` stored in the request's extensions
      (absent means 0), and the index stored afterwards is returned with
      the outcome; it advances even when the extraction fails. `parse` is
      the segment type's `FromStr`. Indexing past the wildcard segments
      panics. */
  function ExtractPath<T>(idx: Option<nat>, params: Option<RouteMatch>, parse: string -> Option<T>): (r: (Outcome<T>, nat))
    ensures r.1 == idx.GetOr(0) + 1
    ensures params.None? ==> r.0 == Reject(InternalServerError)
    ensures params.Some? && idx.GetOr(0) >= |params.value.vec| ==> r.0.Panicked?
    ensures params.Some? && idx.GetOr(0) < |params.value.vec| ==>
      var seg := params.value.vec[idx.GetOr(0)];
      r.0 == (if parse(seg).Some? then Extracted(parse(seg).value) else Reject(BadRequest))
  {
    var i := idx.GetOr(0);
    var o := match params
      case None => Reject(InternalServerError)
      case Some(m) =>
        if i >= |m.vec| then Panicked("index out of bounds")
        else match parse(m.vec[i])
          case Some(t) => Extracted(t)
          case None => Reject(BadRequest);
    (o, i + 1)
  }

  /** Several `Path` arguments of one endpoint, extracted in order, starting
      from the index `idx`. */
  function ExtractPaths<T>(n: nat, idx: Option<nat>, params: Option<RouteMatch>, parse: string -> Option<T>): (r: (seq<Outcome<T>>, nat))
    decreases n
  {
    if n == 0 then ([], idx.GetOr(0))
    else
      var (o, next) := ExtractPath(idx, params, parse);
      var (rest, last) := ExtractPaths(n - 1, Some(next), params, parse);
      ([o] + rest, last)
  }

  /** The `k`-th `Path` argument of an endpoint reads the `k`-th wildcard
      segment: with a fresh request, `n` arguments over a match with at
      least `n` segments parse segments 0 to n - 1 in order and leave the
      index at n. */
  lemma {:induction false} PathSequence<T>(n: nat, start: nat, m: RouteMatch, parse: string -> Option<T>)
    requires start + n <= |m.vec|
    ensures var (os, last) := ExtractPaths(n, Some(start), Some(m), parse);
      && |os| == n && last == start + n
      && forall k :: 0 <= k < n ==>
           os[k] == (if parse(m.vec[start + k]).Some? then Extracted(parse(m.vec[start + k]).value) else Reject(BadRequest))
    decreases n
  {
    if n > 0 {
      PathSequence(n - 1, start + 1, m, parse);
      var (os, last) := ExtractPaths(n, Some(start), Some(m), parse);
      var (rest, _) := ExtractPaths(n - 1, Some(start + 1), Some(m), parse);
      assert os == [ExtractPath(Some(start), Some(m), parse).0] + rest;
      assert forall k :: 1 <= k < n ==> os[k] == rest[k - 1];
    }
  }

  /** `SegmentName` seeding `Named<T>`: the named segment, parsed; 400 when
      there is no match, no such segment or it does not parse. */
  function ExtractSegment<T>(name: string, params: Option<RouteMatch>, parse: string -> Option<T>): (o: Outcome<T>)
    ensures o.Extracted? <==>
      params.Some? && name in params.value.named && parse(params.value.named[name]).Some?
    ensures o.Extracted? ==> o.value == parse(params.value.named[name]).value
    ensures !o.Extracted? ==> o == Reject(BadRequest)
  {
    match params
    case None => Reject(BadRequest)
    case Some(m) =>
      if name in m.named && parse(m.named[name]).Some? then Extracted(parse(m.named[name]).value)
      else Reject(BadRequest)
  }

  /** `Named<T>`: the segment named by the type's `NAME` constant. */
  datatype NamedSegment<T> = NamedSegment(name: string, parse: string -> Option<T>)

  function ExtractNamed<T>(seg: NamedSegment<T>, params: Option<RouteMatch>): (o: Outcome<T>)
    ensures o.Extracted? <==>
      params.Some? && seg.name in params.value.named && seg.parse(params.value.named[seg.name]).Some?
    ensures !o.Extracted? ==> o == Reject(BadRequest)
  {
    match params
    case None => Reject(BadRequest)
    case Some(m) =>
      if seg.name in m.named then
        match seg.parse(m.named[seg.name])
        case Some(t) => Extracted(t)
        case None => Reject(BadRequest)
      else Reject(BadRequest)
  }

  /** The typed extractor and the seeded one agree: `Named<T>` is
      `SegmentName(T::NAME)`. */
  lemma NamedIsSegment<T>(seg: NamedSegment<T>, params: Option<RouteMatch>)
    ensures ExtractNamed(seg, params) == ExtractSegment(seg.name, params, seg.parse)
  {
  }

  /** `UrlQuery<T>`: the query string, parsed; 400 without a query or when
      it does not parse. */
  function ExtractQuery<T>(req: Request, parse: string -> Option<T>): (o: Outcome<T>)
    ensures o.Extracted? <==> req.url.query.Some? && parse(req.url.query.value).Some?
    ensures o.Extracted? ==> o.value == parse(req.url.query.value).value
    ensures !o.Extracted? ==> o == Reject(BadRequest)
  {
    match req.url.query
    case None => Reject(BadRequest)
    case Some(q) =>
      match parse(q)
      case Some(t) => Extracted(t)
      case None => Reject(BadRequest)
  }
}
