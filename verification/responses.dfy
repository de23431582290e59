/** Building responses: the `IntoResponse` conversions of the context-era
    crate, `WithStatus`, the request-era `Response` wrapper with its cookie
    events, `Redirect` endpoints (section 6.4 of RFC 7231, and RFC 7538 for
    308) and `ResponseBuilder`. A panic is modelled as a `Failure` carrying
    the panic message.
 */
module Responses {
  import opened Wrappers
  import opened Http

  const ContentTypeHeader: string := "content-type"
  const LocationHeader: string := "location"

  /** The content type `http_types::mime::PLAIN` prints as. */
  const PlainUtf8: string := "text/plain;charset=utf-8"

  // ---------------------------------------------------------------------------
  // tide/src/response.rs

  /** The values the context-era crate converts into a response: `()`,
      `Vec<u8>`, `String` and `&str`, a bare status code, `Ok`/`Err` of
      convertible values, a `WithStatus` wrapper, and an `http::Response`. */
  datatype Value =
    | Unit
    | ByteVec(bytes: Bytes)
    | Text(text: string)
    | Status(code: int)
    | OkValue(ok: Value)
    | ErrValue(err: Value)
    | WithStatus(inner: Value, status: int)
    | Raw(response: Response)

  /** `into_response`. Converting `Err(r)` panics when `r` converts to a
      success status. */
  function IntoResponse(v: Value): (r: Result<Response, string>)
    decreases v
  {
    match v
    case Unit => Success(EmptyResponse(OK))
    case ByteVec(b) => Success(Response(OK, map[ContentTypeHeader := [OctetStream]], b))
    case Text(s) => Success(Response(OK, map[ContentTypeHeader := [TextPlainUtf8]], Utf8(s)))
    case Status(s) => Success(EmptyResponse(s))
    case OkValue(inner) => IntoResponse(inner)
    case ErrValue(inner) =>
      (match IntoResponse(inner)
       case Failure(m) => Failure(m)
       case Success(res) =>
         if IsSuccess(res.status) then Failure("Attempted to yield error response with success code")
         else Success(res))
    case WithStatus(inner, s) =>
      (match IntoResponse(inner)
       case Failure(m) => Failure(m)
       case Success(res) => Success(res.(status := s)))
    case Raw(res) => Success(res)
  }

  /** The status a value stands for: 200 for the bodies, the code itself,
      the outermost `WithStatus`, and the status of a raw response. */
  function StatusOf(v: Value): int
    decreases v
  {
    match v
    case Status(s) => s
    case OkValue(inner) => StatusOf(inner)
    case ErrValue(inner) => StatusOf(inner)
    case WithStatus(_, s) => s
    case Raw(res) => res.status
    case _ => OK
  }

  /** Does the value contain an `Err` standing for a success status? */
  predicate Panics(v: Value)
    decreases v
  {
    match v
    case OkValue(inner) => Panics(inner)
    case ErrValue(inner) => Panics(inner) || IsSuccess(StatusOf(inner))
    case WithStatus(inner, _) => Panics(inner)
    case _ => false
  }

  /** The conversions of the leaves: `()` is an empty 200, bytes are a 200
      octet stream, text is a 200 plain UTF-8 body and a status code is an
      empty response with that status. A conversion fails exactly when some
      `Err` on the way converts to a success status; `Ok` is transparent;
      `WithStatus` changes only the status of what the inner value converts
      to. */
  lemma {:induction false} IntoResponseSpec(v: Value)
    ensures IntoResponse(v).Failure? <==> Panics(v)
    ensures IntoResponse(v).Success? ==> IntoResponse(v).value.status == StatusOf(v)
    ensures v.Unit? ==> IntoResponse(v) == Success(Response(OK, map[], []))
    ensures v.ByteVec? ==>
      (IntoResponse(v).Success? && IntoResponse(v).value.status == OK
       && IntoResponse(v).value.body == v.bytes
       && HeaderValue(IntoResponse(v).value.headers, ContentTypeHeader) == Some(OctetStream))
    ensures v.Text? ==>
      (IntoResponse(v).Success? && IntoResponse(v).value.status == OK
       && IntoResponse(v).value.body == Utf8(v.text)
       && HeaderValue(IntoResponse(v).value.headers, ContentTypeHeader) == Some(TextPlainUtf8))
    ensures v.Status? ==> IntoResponse(v) == Success(Response(v.code, map[], []))
    ensures v.OkValue? ==> IntoResponse(v) == IntoResponse(v.ok)
    ensures v.ErrValue? && IntoResponse(v).Success? ==>
      IntoResponse(v) == IntoResponse(v.err) && !IsSuccess(IntoResponse(v).value.status)
    ensures v.WithStatus? && !Panics(v) ==>
      IntoResponse(v).value == IntoResponse(v.inner).value.(status := v.status)
    decreases v
  {
    match v
    case OkValue(inner) => IntoResponseSpec(inner);
    case ErrValue(inner) => IntoResponseSpec(inner);
    case WithStatus(inner, _) => IntoResponseSpec(inner);
    case _ =>
  }

  /** `with_status`: the example of the source's documentation and test, a
      string sent with 404. */
  lemma WithStatusExample()
    ensures IntoResponse(WithStatus(Text("foo"), NotFound)).value.status == NotFound
    ensures IntoResponse(WithStatus(Text("foo"), NotFound)).value.body == Utf8("foo")
  {
  }

  // ---------------------------------------------------------------------------
  // src/response/into_response.rs

  /** `WithStatus::into_response` of the request-era crate, for any
      conversion `into` of the inner value: the inner response with its
      status replaced. */
  function WithStatusInto<T>(into: T -> Response, inner: T, status: int): (r: Response)
    ensures r.status == status
    ensures r.headers == into(inner).headers && r.body == into(inner).body
  {
    SetStatus(into(inner), status)
  }

  /** `Response::set_status`. */
  function SetStatus(res: Response, status: int): (r: Response)
    ensures r.status == status && r.headers == res.headers && r.body == res.body
  {
    res.(status := status)
  }

  /** Wrapping twice keeps the outer status only. */
  lemma WithStatusOuterWins<T>(into: T -> Response, inner: T, s1: int, s2: int)
    ensures WithStatusInto(x => WithStatusInto(into, x, s1), inner, s2) == WithStatusInto(into, inner, s2)
  {
  }

  // ---------------------------------------------------------------------------
  // src/response.rs

  /** The same-site policy of a cookie. */
  datatype SameSite = Strict | Lax | NoRestriction

  /** The cookie a response carries (`http_types::Cookie`), with the
      attributes the server sets; an attribute left unset is `None`. */
  datatype Cookie = Cookie(
    name: string,
    value: string,
    httpOnly: bool,
    sameSite: Option<SameSite>,
    secure: Option<bool>,
    path: Option<string>,
    expires: Option<nat>,
    domain: Option<string>)

  /** What happened to a cookie while the response was built. */
  datatype CookieEvent = Added(cookie: Cookie) | Removed(cookie: Cookie)

  /** The request-era response: the HTTP response and the cookie events, in
      the order they were recorded. */
  datatype TideResponse = TideResponse(res: Response, events: seq<CookieEvent>)

  /** `Response::new`. */
  function NewResponse(status: int): (r: TideResponse)
    ensures r.res == EmptyResponse(status) && r.events == []
  {
    TideResponse(EmptyResponse(status), [])
  }

  /** `set_header`: the header has exactly the new value. */
  function SetHeader(r: TideResponse, name: string, value: string): (r': TideResponse)
    ensures r'.res.headers == InsertHeader(r.res.headers, name, value)
    ensures r'.res.status == r.res.status && r'.res.body == r.res.body && r'.events == r.events
  {
    r.(res := r.res.(headers := InsertHeader(r.res.headers, name, value)))
  }

  /** `append_header`: the new value follows the existing ones. */
  function AddHeader(r: TideResponse, name: string, value: string): (r': TideResponse)
    ensures r'.res.headers == AppendHeader(r.res.headers, name, value)
    ensures r'.res.status == r.res.status && r'.res.body == r.res.body && r'.events == r.events
  {
    r.(res := r.res.(headers := AppendHeader(r.res.headers, name, value)))
  }

  /** Setting replaces every earlier value, appending keeps them: after a
      set and an append the header has exactly the two values, while two
      sets leave only the second. */
  lemma SetVersusAppend(r: TideResponse, name: string, a: string, b: string)
    ensures AddHeader(SetHeader(r, name, a), name, b).res.headers[name] == [a, b]
    ensures SetHeader(SetHeader(r, name, a), name, b).res.headers[name] == [b]
    ensures SetHeader(SetHeader(r, name, a), name, b) == SetHeader(r, name, b)
  {
  }

  /** `redirect_permanent`: 308 with the location. */
  function RedirectPermanent(location: string): (r: TideResponse)
    ensures r.res.status == PermanentRedirect
    ensures r.res.headers == map[LocationHeader := [location]] && r.res.body == [] && r.events == []
  {
    SetHeader(NewResponse(PermanentRedirect), LocationHeader, location)
  }

  /** `redirect_temporary`: 307 with the location. */
  function RedirectTemporary(location: string): (r: TideResponse)
    ensures r.res.status == TemporaryRedirect
    ensures r.res.headers == map[LocationHeader := [location]] && r.res.body == [] && r.events == []
  {
    SetHeader(NewResponse(TemporaryRedirect), LocationHeader, location)
  }

  /** `body_string`: the UTF-8 body and a plain-text content type. */
  function BodyString(r: TideResponse, s: string): (r': TideResponse)
    ensures r'.res.body == Utf8(s) && ContentTypeHeader in r'.res.headers && r'.res.headers[ContentTypeHeader] == [TextPlainUtf8]
    ensures r'.res.status == r.res.status && r'.events == r.events
  {
    SetHeader(r.(res := r.res.(body := Utf8(s))), ContentTypeHeader, TextPlainUtf8)
  }

  /** `body`: the bytes and an octet-stream content type. */
  function BodyBytes(r: TideResponse, b: Bytes): (r': TideResponse)
    ensures r'.res.body == b && ContentTypeHeader in r'.res.headers && r'.res.headers[ContentTypeHeader] == [OctetStream]
    ensures r'.res.status == r.res.status && r'.events == r.events
  {
    SetHeader(r.(res := r.res.(body := b)), ContentTypeHeader, OctetStream)
  }

  /** `set_cookie`. */
  function SetCookie(r: TideResponse, c: Cookie): (r': TideResponse)
    ensures r'.res == r.res && |r'.events| == |r.events| + 1
    ensures r'.events[..|r.events|] == r.events && r'.events[|r.events|] == Added(c)
  {
    r.(events := r.events + [Added(c)])
  }

  /** `remove_cookie`. */
  function RemoveCookie(r: TideResponse, c: Cookie): (r': TideResponse)
    ensures r'.res == r.res && |r'.events| == |r.events| + 1
    ensures r'.events[..|r.events|] == r.events && r'.events[|r.events|] == Removed(c)
  {
    r.(events := r.events + [Removed(c)])
  }

  /** A sequence of `set_cookie` (true) and `remove_cookie` (false) calls. */
  function ApplyCookieCalls(r: TideResponse, calls: seq<(bool, Cookie)>): (r': TideResponse)
    decreases |calls|
  {
    if |calls| == 0 then r
    else
      var last := calls[|calls| - 1];
      var before := ApplyCookieCalls(r, calls[..|calls| - 1]);
      if last.0 then SetCookie(before, last.1) else RemoveCookie(before, last.1)
  }

  /** The events record the calls in call order, one event per call, after
      the events already there; the HTTP response is untouched. */
  lemma {:induction false} CookieEventsInOrder(r: TideResponse, calls: seq<(bool, Cookie)>)
    ensures var r' := ApplyCookieCalls(r, calls);
      && r'.res == r.res
      && |r'.events| == |r.events| + |calls|
      && r'.events[..|r.events|] == r.events
      && forall i :: 0 <= i < |calls| ==>
           r'.events[|r.events| + i] == (if calls[i].0 then Added(calls[i].1) else Removed(calls[i].1))
    decreases |calls|
  {
    if |calls| > 0 {
      var init := calls[..|calls| - 1];
      CookieEventsInOrder(r, init);
      var before := ApplyCookieCalls(r, init);
      assert forall i :: 0 <= i < |init| ==> init[i] == calls[i];
      var r' := ApplyCookieCalls(r, calls);
      assert r'.events[..|before.events|] == before.events;
      assert forall i :: 0 <= i < |r.events| + |init| ==> r'.events[i] == before.events[i];
    }
  }

  /** `From<String>` and `From<&str>`: 200, a plain content type, the text
      as body and no cookie events. */
  function FromText(s: string): (r: TideResponse)
    ensures r.res.status == OK && r.res.body == Utf8(s) && r.events == []
    ensures r.res.headers == map[ContentTypeHeader := [PlainUtf8]]
  {
    TideResponse(Response(OK, map[ContentTypeHeader := [PlainUtf8]], Utf8(s)), [])
  }

  /** Wrapping a response of the HTTP library: the response itself, with
      no cookie events; unwrapping gives it back. */
  function FromHttp(http: Response): (r: TideResponse)
    ensures r.res == http && r.events == []
  {
    TideResponse(http, [])
  }

  // ---------------------------------------------------------------------------
  // src/redirect.rs

  datatype Redirect = Redirect(status: int, location: string)

  /** `Redirect::new`: 302 Found. */
  function NewRedirect(location: string): (r: Redirect)
    ensures r.status == Found && r.location == location
  {
    Redirect(Found, location)
  }

  /** `Redirect::permanent`: 308 Permanent Redirect. */
  function PermanentRedirectTo(location: string): (r: Redirect)
    ensures r.status == PermanentRedirect && r.location == location
  {
    Redirect(PermanentRedirect, location)
  }

  /** `Redirect::temporary`: 307 Temporary Redirect. */
  function TemporaryRedirectTo(location: string): (r: Redirect)
    ensures r.status == TemporaryRedirect && r.location == location
  {
    Redirect(TemporaryRedirect, location)
  }

  /** `Redirect::see_other`: 303 See Other. */
  function SeeOtherTo(location: string): (r: Redirect)
    ensures r.status == SeeOther && r.location == location
  {
    Redirect(SeeOther, location)
  }

  /** `Into<Response>`, by value and by reference alike. */
  function RedirectResponse(r: Redirect): (out: TideResponse)
    ensures out.res.status == r.status
    ensures HeaderValue(out.res.headers, LocationHeader) == Some(r.location)
    ensures out.events == []
  {
    SetHeader(NewResponse(r.status), LocationHeader, r.location)
  }

  /** `Endpoint::call`: the request is ignored and the answer is always `Ok`. */
  function RedirectCall(r: Redirect, req: Request): (out: Result<TideResponse, HttpError>)
    ensures out.Success?
  {
    Success(RedirectResponse(r))
  }

  /** The redirect endpoints agree with the response constructors: a
      permanent redirect answers exactly like `redirect_permanent`, a
      temporary one like `redirect_temporary`, whatever the request. */
  lemma RedirectAgrees(location: string, req1: Request, req2: Request)
    ensures RedirectCall(PermanentRedirectTo(location), req1) == Success(RedirectPermanent(location))
    ensures RedirectCall(TemporaryRedirectTo(location), req1) == Success(RedirectTemporary(location))
    ensures RedirectCall(NewRedirect(location), req1) == RedirectCall(NewRedirect(location), req2)
    ensures RedirectCall(SeeOtherTo(location), req1).value.res.status == SeeOther
  {
  }

  // ---------------------------------------------------------------------------
  // src/response_builder.rs

  datatype ResponseBuilder = ResponseBuilder(inner: TideResponse)

  /** `ResponseBuilder::new`: 200 OK. */
  function NewResponseBuilder(): (b: ResponseBuilder)
    ensures b.inner == NewResponse(OK)
  {
    ResponseBuilder(NewResponse(OK))
  }

  /** `status`: the status conversion `known` belongs to the HTTP library;
      an unknown code panics. */
  function BuilderStatus(b: ResponseBuilder, status: int, known: int -> bool): (r: Result<ResponseBuilder, string>)
    ensures r.Failure? <==> !known(status)
    ensures r.Success? ==> r.value.inner.res == SetStatus(b.inner.res, status) && r.value.inner.events == b.inner.events
  {
    if known(status) then Success(ResponseBuilder(b.inner.(res := SetStatus(b.inner.res, status))))
    else Failure("invalid status code")
  }

  /** `header`: sets the header on the inner response. */
  function BuilderHeader(b: ResponseBuilder, name: string, value: string): (r: ResponseBuilder)
    ensures r.inner == SetHeader(b.inner, name, value)
  {
    ResponseBuilder(SetHeader(b.inner, name, value))
  }

  /** `content_type`. */
  function BuilderContentType(b: ResponseBuilder, mime: string): (r: ResponseBuilder)
    ensures r.inner == SetHeader(b.inner, ContentTypeHeader, mime)
  {
    BuilderHeader(b, ContentTypeHeader, mime)
  }

  /** `body`. */
  function BuilderBody(b: ResponseBuilder, body: Bytes): (r: ResponseBuilder)
    ensures r.inner.res.body == body && r.inner.res.status == b.inner.res.status
    ensures r.inner.res.headers == b.inner.res.headers && r.inner.events == b.inner.events
  {
    ResponseBuilder(b.inner.(res := b.inner.res.(body := body)))
  }

  /** `unwrap` and `Into<Response>`: the inner response. */
  function Unwrap(b: ResponseBuilder): (r: TideResponse)
    ensures r == b.inner
  {
    b.inner
  }

  /** `Into<tide::Result>`: always `Ok`. */
  function BuilderResult(b: ResponseBuilder): (r: Result<TideResponse, HttpError>)
    ensures r == Success(b.inner)
  {
    Success(b.inner)
  }

  /** The example of the source's documentation: body, status 203 and a
      custom header come out as set; without any call the response is an
      empty 200. */
  lemma BuilderExample(known: int -> bool)
    requires known(203)
    ensures var b := BuilderStatus(BuilderBody(NewResponseBuilder(), Utf8("body")), 203, known);
      b.Success?
      && var r := Unwrap(BuilderHeader(b.value, "custom-header", "value"));
      r.res.status == 203 && r.res.body == Utf8("body") && HeaderValue(r.res.headers, "custom-header") == Some("value")
    ensures Unwrap(NewResponseBuilder()).res == EmptyResponse(OK)
  {
  }
}
