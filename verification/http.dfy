/** The HTTP vocabulary shared by the routing, middleware and response
    modules: methods, status codes, header maps, URLs, requests and responses.
    Header names are taken to be already in canonical lower case; a header
    maps to the non-empty list of its values in insertion order.
 */
module Http {
  import opened Wrappers

  newtype byte = x: int | 0 <= x < 256

  type Bytes = seq<byte>

  datatype Method = Get | Head | Post | Put | Delete | Connect | Options | Trace | Patch

  /** Status codes used by the modelled code (RFC 7231 section 6, RFC 7538). */
  const OK: int := 200
  const MovedPermanently: int := 301
  const Found: int := 302
  const SeeOther: int := 303
  const TemporaryRedirect: int := 307
  const PermanentRedirect: int := 308
  const BadRequest: int := 400
  const Unauthorized: int := 401
  const Forbidden: int := 403
  const NotFound: int := 404
  const MethodNotAllowed: int := 405
  const UnsupportedMediaType: int := 415
  const InternalServerError: int := 500

  predicate IsSuccess(status: int) { 200 <= status < 300 }
  predicate IsClientError(status: int) { 400 <= status < 500 }
  predicate IsServerError(status: int) { 500 <= status < 600 }

  /** Content types written by the modelled code. */
  const TextPlainUtf8: string := "text/plain; charset=utf-8"
  const OctetStream: string := "application/octet-stream"
  const TextHtml: string := "text/html"
  const FormUrlEncoded: string := "application/x-www-form-urlencoded"

  type Headers = map<string, seq<string>>

  /** The UTF-8 encoding of one character (section 3 of RFC 3629). */
  function CharUtf8(c: char): (b: Bytes)
    ensures 1 <= |b| <= 4
    ensures (c as int) < 0x80 <==> |b| == 1
    ensures (c as int) < 0x80 ==> b == [c as int as byte]
  {
    var n := c as int;
    if n < 0x80 then [n as byte]
    else if n < 0x800 then [(0xC0 + n / 0x40) as byte, (0x80 + n % 0x40) as byte]
    else if n < 0x10000 then
      [(0xE0 + n / 0x1000) as byte, (0x80 + n / 0x40 % 0x40) as byte, (0x80 + n % 0x40) as byte]
    else
      [(0xF0 + n / 0x40000) as byte, (0x80 + n / 0x1000 % 0x40) as byte,
       (0x80 + n / 0x40 % 0x40) as byte, (0x80 + n % 0x40) as byte]
  }

  /** The UTF-8 bytes of a string (`String::into_bytes`): at least one byte
      per character, exactly one for ASCII. */
  function Utf8(s: string): (b: Bytes)
    ensures |b| >= |s|
    ensures (forall i :: 0 <= i < |s| ==> (s[i] as int) < 0x80) ==>
      |b| == |s| && forall i :: 0 <= i < |s| ==> b[i] == s[i] as int as byte
  {
    if |s| == 0 then [] else CharUtf8(s[0]) + Utf8(s[1..])
  }

  /** Characters `HeaderValue::to_str` accepts: visible ASCII, space and tab. */
  predicate VisibleAscii(s: string) {
    forall i :: 0 <= i < |s| ==> s[i] == '\t' || (' ' <= s[i] <= '~')
  }

  /** A header value accepted by `HeaderValue::from_str` and `try_from`: tab or any
      character from space upwards except DEL. */
  predicate ValidHeaderValue(v: string) {
    forall i :: 0 <= i < |v| ==> (v[i] >= ' ' && v[i] != '\U{7F}') || v[i] == '\t'
  }

  /** The first value of header `name`, if any. */
  function HeaderValue(h: Headers, name: string): (r: Option<string>)
    ensures r.Some? <==> name in h && |h[name]| > 0
    ensures r.Some? ==> r.value == h[name][0]
  {
    if name in h && |h[name]| > 0 then Some(h[name][0]) else None
  }

  /** Sets header `name` to exactly one value, replacing any previous values;
      every other header is unchanged. */
  function InsertHeader(h: Headers, name: string, value: string): (r: Headers)
    ensures name in r && r[name] == [value]
    ensures forall n :: n != name ==> (n in r <==> n in h) && (n in h ==> r[n] == h[n])
  {
    h[name := [value]]
  }

  /** Adds a value after the existing values of header `name`; every other
      header is unchanged. */
  function AppendHeader(h: Headers, name: string, value: string): (r: Headers)
    ensures name in r && r[name] == (if name in h then h[name] else []) + [value]
    ensures forall n :: n != name ==> (n in r <==> n in h) && (n in h ==> r[n] == h[n])
  {
    h[name := (if name in h then h[name] else []) + [value]]
  }

  /** Removes header `name`; every other header is unchanged. */
  function RemoveHeader(h: Headers, name: string): (r: Headers)
    ensures name !in r
    ensures forall n :: n != name ==> (n in r <==> n in h) && (n in h ==> r[n] == h[n])
  {
    h - {name}
  }

  datatype Url = Url(scheme: string, authority: string, path: string, query: Option<string>)

  /** A request: the route-parameter stack `params` holds one layer per
      router that matched the request, outermost first. */
  datatype Request = Request(verb: Method, url: Url, headers: Headers, body: Bytes,
                             params: seq<map<string, string>>)

  datatype Response = Response(status: int, headers: Headers, body: Bytes)

  /** An error travelling through the middleware chain in place of a
      response: the status it answers with and the name of its concrete
      error type, which is what a downcast inspects. */
  datatype HttpError = HttpError(status: int, kind: string, message: string)

  /** A response with the given status, no headers and an empty body. */
  function EmptyResponse(status: int): (r: Response)
    ensures r.status == status && r.headers == map[] && r.body == []
  {
    Response(status, map[], [])
  }
}
