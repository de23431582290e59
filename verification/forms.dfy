/** Form bodies: reading a URL-encoded form or a multipart body from a
    request, and answering with a URL-encoded form. The two generations of
    the crate (the `tide-forms` crate and `tide/src/forms.rs`) behave alike.
    The URL-encoded codec is a parameter, and so is the body read, which can
    fail.
 */
module Forms {
  import opened Wrappers
  import opened Text
  import opened Http
  import opened Extractors

  const ContentType: string := "content-type"
  const BoundaryKey: string := "boundary="
  const NoBoundary: string := "no boundary found"
  const DecodeFailed: string := "could not decode form: "

  /** The multipart boundary `body_multipart` reads: the text after the
      first "boundary=" in the first Content-Type value, when that value is
      visible ASCII. */
  function Boundary(headers: Headers): (b: Option<string>)
    ensures b.Some? <==>
      (HeaderValue(headers, ContentType).Some? && VisibleAscii(HeaderValue(headers, ContentType).value)
       && Find(HeaderValue(headers, ContentType).value, BoundaryKey).Some?)
    ensures b.Some? ==>
      var ct := HeaderValue(headers, ContentType).value;
      exists i :: (0 <= i <= |ct| && ct == ct[..i] + BoundaryKey + b.value
                   && forall j :: 0 <= j < i ==> !OccursAt(ct, BoundaryKey, j))
  {
    match HeaderValue(headers, ContentType)
    case None => None
    case Some(ct) =>
      if !VisibleAscii(ct) then None
      else
        match Find(ct, BoundaryKey)
        case None => None
        case Some(i) =>
          var b := ct[i + |BoundaryKey|..];
          assert ct == ct[..i] + ct[i..i + |BoundaryKey|] + b;
          Some(b)
  }

  /** A Content-Type written as a parameter-free prefix, "boundary=" and
      the boundary gives that boundary back. */
  lemma BoundaryRoundTrip(headers: Headers, prefix: string, b: string)
    requires 'b' !in prefix
    requires VisibleAscii(prefix + BoundaryKey + b)
    requires ContentType in headers && |headers[ContentType]| > 0
    requires headers[ContentType][0] == prefix + BoundaryKey + b
    ensures Boundary(headers) == Some(b)
  {
    var ct := prefix + BoundaryKey + b;
    assert OccursAt(ct, BoundaryKey, |prefix|) by {
      assert ct[|prefix|..|prefix| + |BoundaryKey|] == BoundaryKey;
    }
    forall j | 0 <= j < |prefix|
      ensures !OccursAt(ct, BoundaryKey, j)
    {
      assert ct[j] == prefix[j] && prefix[j] != 'b';
      assert j + |BoundaryKey| <= |ct| ==> ct[j..j + |BoundaryKey|][0] == ct[j];
    }
    var i := Find(ct, BoundaryKey).value;
    assert i == |prefix|;
    assert ct[i + |BoundaryKey|..] == b;
  }

  /** What `body_multipart` hands to the multipart reader. */
  datatype Multipart = Multipart(body: Bytes, boundary: string)

  /** `body_multipart`: the body is read first, then the boundary is
      required; either failure is a client error (400) carrying its cause. */
  function BodyMultipart(headers: Headers, body: Result<Bytes, string>): (r: Result<Multipart, Error<string>>)
    ensures r.Success? <==> body.Success? && Boundary(headers).Some?
    ensures r.Success? ==> r.value == Multipart(body.value, Boundary(headers).value)
    ensures r.Failure? ==> r.error.res == EmptyResponse(BadRequest)
    ensures body.Failure? ==> r.Failure? && r.error.cause == Some(body.error)
    ensures body.Success? && Boundary(headers).None? ==> r.Failure? && r.error.cause == Some(NoBoundary)
  {
    match ClientErr(body)
    case Failure(e) => Failure(e)
    case Success(bytes) =>
      match ClientErr(Boundary(headers).ToResult(NoBoundary))
      case Failure(e) => Failure(e)
      case Success(b) => Success(Multipart(bytes, b))
  }

  /** `body_form`: the body is read and decoded as a URL-encoded form;
      either failure is a client error (400), a decode failure described
      as "could not decode form: " and the codec's message. */
  function BodyForm<T>(body: Result<Bytes, string>, decode: Bytes -> Result<T, string>): (r: Result<T, Error<string>>)
    ensures r.Success? <==> body.Success? && decode(body.value).Success?
    ensures r.Success? ==> r.value == decode(body.value).value
    ensures r.Failure? ==> r.error.res == EmptyResponse(BadRequest)
    ensures body.Failure? ==> r.Failure? && r.error.cause == Some(body.error)
    ensures body.Success? && decode(body.value).Failure? ==>
      r.Failure? && r.error.cause == Some(DecodeFailed + decode(body.value).error)
  {
    match ClientErr(body)
    case Failure(e) => Failure(e)
    case Success(bytes) =>
      match decode(bytes)
      case Success(t) => Success(t)
      case Failure(e) => ClientErr<T, string>(Failure(DecodeFailed + e))
  }

  /** `form`: 200 with the URL-encoded value as body; the encoder's `unwrap`
      panics when the value cannot be encoded. */
  function Form<T>(t: T, encode: T -> Result<string, string>): (r: Result<Response, string>)
    ensures r.Success? <==> encode(t).Success?
    ensures r.Success? ==>
      (r.value.status == OK && HeaderValue(r.value.headers, ContentType) == Some(FormUrlEncoded)
       && r.value.body == Utf8(encode(t).value))
  {
    match encode(t)
    case Failure(e) => Failure(e)
    case Success(s) => Success(Response(OK, map[ContentType := [FormUrlEncoded]], Utf8(s)))
  }

  /** A form response read back with `body_form` gives the value, whenever
      the codec decodes what it encodes. */
  lemma FormRoundTrip<T>(t: T, encode: T -> Result<string, string>, decode: Bytes -> Result<T, string>)
    requires encode(t).Success? && decode(Utf8(encode(t).value)) == Success(t)
    ensures Form(t, encode).Success?
    ensures BodyForm(Success(Form(t, encode).value.body), decode) == Success(t)
  {
  }
}
