/** Content-coding negotiation (sections 3.1.2.2 and 5.3.4 of RFC 7231) in
    two generations: the context-era `Compression` middleware, which picks
    the first Accept-Encoding token it knows, and the split crate's
    `Compression`/`Decompression` pair. The codecs themselves are
    uninterpreted functions passed in as parameters; only the decisions
    around them (which coding, whether to encode, which header to write or
    remove) are modelled.
 */
module Compression {
  import opened Wrappers
  import opened Text
  import opened Http
  import opened Middleware

  const AcceptEncodingHeader: string := "accept-encoding"
  const ContentEncodingHeader: string := "content-encoding"

  // ---------------------------------------------------------------------------
  // src/middleware/compression.rs

  /** The codings of the context-era middleware. */
  datatype Coding = GzipCoding | DeflateCoding | IdentityCoding

  /** `Encoding::header_value`. */
  function CodingName(e: Coding): (s: string)
  {
    match e
    case GzipCoding => "gzip"
    case DeflateCoding => "deflate"
    case IdentityCoding => "identity"
  }

  /** `Encoding::parse`: exactly the three coding names, compared verbatim. */
  function ParseCoding(s: string): (r: Option<Coding>)
    ensures r.Some? <==> s == "gzip" || s == "deflate" || s == "identity"
  {
    if s == "gzip" then Some(GzipCoding)
    else if s == "deflate" then Some(DeflateCoding)
    else if s == "identity" then Some(IdentityCoding)
    else None
  }

  /** `parse` and `header_value` are inverse: every coding is recovered from
      its name, and a name that parses is the name of what it parses to. */
  lemma CodingNameRoundTrip(e: Coding, s: string)
    ensures ParseCoding(CodingName(e)) == Some(e)
    ensures ParseCoding(s) == Some(e) ==> CodingName(e) == s
  {
  }

  /** The Accept-Encoding tokens in order: each value that is a visible
      string is split on ',', with no trimming; other values are skipped. */
  function AcceptTokens(values: seq<string>): (ts: seq<string>)
    ensures forall t :: t in ts ==> exists v :: v in values && VisibleAscii(v) && t in Split(v, ',')
  {
    if |values| == 0 then []
    else
      var rest := AcceptTokens(values[1..]);
      assert forall t :: t in rest ==> exists v :: v in values && VisibleAscii(v) && t in Split(v, ',') by {
        forall t | t in rest ensures exists v :: v in values && VisibleAscii(v) && t in Split(v, ',') {
          var v :| v in values[1..] && VisibleAscii(v) && t in Split(v, ',');
          assert v in values;
        }
      }
      (if VisibleAscii(values[0]) then Split(values[0], ',') else []) + rest
  }

  /** The first token, in order, that names a known coding. */
  function FirstCoding(tokens: seq<string>): (r: Option<Coding>)
    ensures r.None? <==> forall i :: 0 <= i < |tokens| ==> ParseCoding(tokens[i]).None?
    ensures r.Some? ==> exists i :: 0 <= i < |tokens| && ParseCoding(tokens[i]) == r
                          && forall j :: 0 <= j < i ==> ParseCoding(tokens[j]).None?
    decreases |tokens|
  {
    if |tokens| == 0 then None
    else if ParseCoding(tokens[0]).Some? then ParseCoding(tokens[0])
    else
      var r := FirstCoding(tokens[1..]);
      assert forall i :: 1 <= i < |tokens| ==> tokens[i] == tokens[1..][i - 1];
      if r.Some? then
        var i :| 0 <= i < |tokens[1..]| && ParseCoding(tokens[1..][i]) == r
                 && forall j :: 0 <= j < i ==> ParseCoding(tokens[1..][j]).None?;
        assert ParseCoding(tokens[i + 1]) == r;
        r
      else r
  }

  /** `Compression::preferred_encoding` over all Accept-Encoding values. */
  function PreferredCoding(h: Headers): (r: Option<Coding>)
  {
    FirstCoding(AcceptTokens(if AcceptEncodingHeader in h then h[AcceptEncodingHeader] else []))
  }

  /** Earlier header values take precedence: the preference over two lists
      of values is the first list's, if it has one. */
  lemma {:induction false} PreferredConcat(a: seq<string>, b: seq<string>)
    ensures FirstCoding(AcceptTokens(a + b)) ==
      (if FirstCoding(AcceptTokens(a)).Some? then FirstCoding(AcceptTokens(a)) else FirstCoding(AcceptTokens(b)))
    decreases |a|
  {
    if |a| == 0 {
      assert a + b == b;
    } else {
      assert (a + b)[1..] == a[1..] + b;
      PreferredConcat(a[1..], b);
      var head := if VisibleAscii(a[0]) then Split(a[0], ',') else [];
      assert AcceptTokens(a + b) == head + AcceptTokens(a[1..] + b);
      FirstCodingConcat(head, AcceptTokens(a[1..]));
      FirstCodingConcat(head, AcceptTokens(a[1..] + b));
    }
  }

  lemma {:induction false} FirstCodingConcat(a: seq<string>, b: seq<string>)
    ensures FirstCoding(a + b) == (if FirstCoding(a).Some? then FirstCoding(a) else FirstCoding(b))
    decreases |a|
  {
    if |a| == 0 {
      assert a + b == b;
    } else {
      assert (a + b)[1..] == a[1..] + b;
      FirstCodingConcat(a[1..], b);
    }
  }

  /** The preference of a single header value. */
  lemma {:induction false} PreferredSingle(v: string)
    ensures PreferredCoding(map[AcceptEncodingHeader := [v]]) ==
      FirstCoding(if VisibleAscii(v) then Split(v, ',') else [])
  {
    var ts := if VisibleAscii(v) then Split(v, ',') else [];
    assert AcceptTokens([v]) == ts + AcceptTokens([]);
    assert ts + [] == ts;
  }

  /** A single lower-case word splits to itself. */
  lemma SplitWord(s: string)
    requires Lower(s)
    ensures VisibleAscii(s) && Split(s, ',') == [s]
  {
    LowerFacts(s);
  }

  /** The cases of the source's table of examples: no header, one known
      coding, one unknown coding, and the first of a list. */
  lemma PreferredExamples()
    ensures PreferredCoding(map[]) == None
    ensures PreferredCoding(map[AcceptEncodingHeader := ["gzip"]]) == Some(GzipCoding)
    ensures PreferredCoding(map[AcceptEncodingHeader := ["unknown"]]) == None
    ensures PreferredCoding(map[AcceptEncodingHeader := ["gzip,deflate,identity"]]) == Some(GzipCoding)
  {
    assert AcceptTokens([]) == [];
    assert Lower("gzip") by { assert "gzip" == ['g', 'z', 'i', 'p']; }
    SplitWord("gzip");
    PreferredSingle("gzip");
    assert Lower("unknown") by { assert "unknown" == ['u', 'n', 'k', 'n', 'o', 'w', 'n']; }
    SplitWord("unknown");
    PreferredSingle("unknown");
    PreferredList();
  }

  lemma PreferredList()
    ensures PreferredCoding(map[AcceptEncodingHeader := ["gzip,deflate,identity"]]) == Some(GzipCoding)
  {
    var v := "gzip,deflate,identity";
    NameFacts(Gzip);
    NameFacts(Deflate);
    NameFacts(Identity);
    assert v == "gzip" + [','] + "deflate" + [','] + "identity";
    assert VisibleAscii([',']);
    VisibleConcat("gzip", [',']);
    VisibleConcat("gzip" + [','], "deflate");
    VisibleConcat("gzip" + [','] + "deflate", [',']);
    VisibleConcat("gzip" + [','] + "deflate" + [','], "identity");
    SplitThree("gzip", "deflate", "identity", ',');
    PreferredSingle(v);
  }

  lemma VisibleConcat(a: string, b: string)
    requires VisibleAscii(a) && VisibleAscii(b)
    ensures VisibleAscii(a + b)
  {
    assert forall i :: 0 <= i < |a + b| ==> (a + b)[i] == if i < |a| then a[i] else b[i - |a|];
  }

  /** A value of two comma-free tokens, neither a coding name, prefers
      nothing. */
  lemma TwoUnknownTokens(a: string, b: string)
    requires VisibleAscii(a) && VisibleAscii(b) && ',' !in a && ',' !in b
    requires ParseCoding(a).None? && ParseCoding(b).None?
    ensures PreferredCoding(map[AcceptEncodingHeader := [a + [','] + b]]) == None
  {
    assert VisibleAscii([',']);
    VisibleConcat(a, [',']);
    VisibleConcat(a + [','], b);
    SplitTwo(a, b, ',');
    PreferredSingle(a + [','] + b);
  }

  /** Tokens are not trimmed: in "br, deflate" the second token is
      " deflate", which is not a coding name, so nothing is preferred. */
  lemma PreferredUntrimmed()
    ensures PreferredCoding(map[AcceptEncodingHeader := ["br, deflate"]]) == None
  {
    var a, b := "br", " deflate";
    assert a == ['b', 'r'] && b == [' ', 'd', 'e', 'f', 'l', 'a', 't', 'e'];
    assert "br, deflate" == a + [','] + b;
    TwoUnknownTokens(a, b);
  }

  /** A later value decides only when the earlier ones name no known
      coding: two header values "unknown" and then "deflate" prefer
      deflate. */
  lemma PreferredLaterValue()
    ensures PreferredCoding(map[AcceptEncodingHeader := ["unknown", "deflate"]]) == Some(DeflateCoding)
  {
    assert Lower("unknown") by { assert "unknown" == ['u', 'n', 'k', 'n', 'o', 'w', 'n']; }
    assert Lower("deflate") by { assert "deflate" == ['d', 'e', 'f', 'l', 'a', 't', 'e']; }
    SplitWord("unknown");
    SplitWord("deflate");
    PreferredConcat(["unknown"], ["deflate"]);
    assert ["unknown", "deflate"] == ["unknown"] + ["deflate"];
    assert AcceptTokens(["unknown"]) == ["unknown"] + AcceptTokens([]);
    assert AcceptTokens(["deflate"]) == ["deflate"] + AcceptTokens([]);
  }

  /** The test table's `header_map`: each value is `insert`ed under
      Accept-Encoding, and `insert` replaces, so only the last value is left. */
  function TestHeaderMap(encodings: seq<string>): (h: Headers)
    ensures encodings == [] ==> h == map[]
    ensures encodings != [] ==> h == map[AcceptEncodingHeader := [encodings[|encodings| - 1]]]
  {
    if encodings == [] then map[]
    else TestHeaderMap(encodings[..|encodings| - 1])[AcceptEncodingHeader := [encodings[|encodings| - 1]]]
  }

  /** The maps the test table builds: one value each, the last given. */
  lemma TestHeaderMaps()
    ensures TestHeaderMap(["gzip"]) == map[AcceptEncodingHeader := ["gzip"]]
    ensures TestHeaderMap(["unknown"]) == map[AcceptEncodingHeader := ["unknown"]]
    ensures TestHeaderMap(["gzip,deflate,identity"]) == map[AcceptEncodingHeader := ["gzip,deflate,identity"]]
    ensures TestHeaderMap(["unknown", "deflate"]) == map[AcceptEncodingHeader := ["deflate"]]
  {
  }

  /** The `preferred_encoding` test as written: its last row builds a map
      holding "deflate" alone, which prefers deflate. */
  lemma PreferredEncodingTest()
    ensures PreferredCoding(TestHeaderMap([])) == None
    ensures PreferredCoding(TestHeaderMap(["gzip"])) == Some(GzipCoding)
    ensures PreferredCoding(TestHeaderMap(["unknown"])) == None
    ensures PreferredCoding(TestHeaderMap(["gzip,deflate,identity"])) == Some(GzipCoding)
    ensures TestHeaderMap(["unknown", "deflate"]) == map[AcceptEncodingHeader := ["deflate"]]
    ensures PreferredCoding(TestHeaderMap(["unknown", "deflate"])) == Some(DeflateCoding)
  {
    TestHeaderMaps();
    PreferredExamples();
    PreferredDeflate();
  }

  lemma PreferredDeflate()
    ensures PreferredCoding(map[AcceptEncodingHeader := ["deflate"]]) == Some(DeflateCoding)
  {
    assert Lower("deflate") by { assert "deflate" == ['d', 'e', 'f', 'l', 'a', 't', 'e']; }
    SplitWord("deflate");
    PreferredSingle("deflate");
  }

  /** The context-era middleware: the default coding is used when no token
      names a known coding. */
  datatype Compressor = Compressor(default: Coding)

  /** `Compression::new`: gzip by default. */
  function NewCompressor(): (c: Compressor)
    ensures c.default == GzipCoding
  {
    Compressor(GzipCoding)
  }

  /** `Compression::with_default`. */
  function CompressorWithDefault(e: Coding): (c: Compressor)
    ensures c.default == e
  {
    Compressor(e)
  }

  /** `Compression::apply`: the identity coding compresses nothing; the
      other codings run the codec, which may fail. */
  function Apply(codec: (Coding, Bytes) -> Option<Bytes>, body: Bytes, e: Coding): (r: Option<Bytes>)
    ensures e == IdentityCoding ==> r.None?
    ensures e != IdentityCoding ==> r == codec(e, body)
  {
    if e == IdentityCoding then None else codec(e, body)
  }

  /** What `handle` does to the downstream response once the coding is
      chosen. */
  function Compress(codec: (Coding, Bytes) -> Option<Bytes>, res: Response, e: Coding): (r: Response)
  {
    match Apply(codec, res.body, e)
    case Some(compressed) =>
      res.(body := compressed, headers := AppendHeader(res.headers, ContentEncodingHeader, CodingName(e)))
    case None => res
  }

  function CompressorMw(c: Compressor, codec: (Coding, Bytes) -> Option<Bytes>): (mw: Mw<Request, Response>)
  {
    (req: Request) =>
      var e := PreferredCoding(req.headers).GetOr(c.default);
      CallNext(req, (res: Response) => Compress(codec, res, e))
  }

  /** The context-era middleware always runs the rest of the chain on the
      unchanged request. When the coding it chose compresses, the body is the
      codec's output and exactly one Content-Encoding value naming the coding
      is added after any existing ones; otherwise the response is returned as
      it came. */
  lemma CompressorDecision(c: Compressor, codec: (Coding, Bytes) -> Option<Bytes>, req: Request, res: Response)
    ensures var a := CompressorMw(c, codec)(req);
            var e := PreferredCoding(req.headers).GetOr(c.default);
            var ce := if ContentEncodingHeader in res.headers then res.headers[ContentEncodingHeader] else [];
      && a.CallNext? && a.input == req
      && (Apply(codec, res.body, e).None? ==> a.post(res) == res)
      && (Apply(codec, res.body, e).Some? ==>
            a.post(res).status == res.status
            && a.post(res).body == Apply(codec, res.body, e).value
            && a.post(res).headers[ContentEncodingHeader] == ce + [CodingName(e)])
    ensures NewCompressor().default == GzipCoding
    ensures PreferredCoding(req.headers).None? && c == NewCompressor() ==>
      CompressorMw(c, codec)(req).post(res) == Compress(codec, res, GzipCoding)
    ensures PreferredCoding(req.headers) == Some(IdentityCoding) ==> CompressorMw(c, codec)(req).post(res) == res
  {
  }

  // ---------------------------------------------------------------------------
  // tide-compression/src/lib.rs

  /** The codings of the split crate (`accept_encoding::Encoding`). */
  datatype Encoding = Gzip | Deflate | Brotli | Zstd | Identity

  /** `Encoding::to_header_value`. */
  function EncodingName(e: Encoding): (s: string)
  {
    match e
    case Gzip => "gzip"
    case Deflate => "deflate"
    case Brotli => "br"
    case Zstd => "zstd"
    case Identity => "identity"
  }

  /** `EncodeSettings`: the brotli quality and zstd level (the flate2 levels
      are the codec library's defaults and are not modelled). */
  datatype EncodeSettings = EncodeSettings(brotli: int, zstd: int)

  /** `EncodeSettings::default`. */
  function DefaultEncodeSettings(): (s: EncodeSettings)
    ensures s.brotli == 11 && s.zstd == 3
  {
    EncodeSettings(11, 3)
  }

  datatype Compression = Compression(defaultEncoding: Encoding, settings: EncodeSettings)

  /** `Compression::new`: no encoding unless the client asks for one. */
  function NewCompression(): (c: Compression)
    ensures c.defaultEncoding == Identity && c.settings == DefaultEncodeSettings()
  {
    Compression(Identity, DefaultEncodeSettings())
  }

  /** `Compression::with_default`. */
  function CompressionWithDefault(e: Encoding): (c: Compression)
    ensures c.defaultEncoding == e && c.settings == DefaultEncodeSettings()
  {
    Compression(e, DefaultEncodeSettings())
  }

  /** The result of `accept_encoding::parse`, a library call: an error when
      the header is malformed, else the client's preferred encoding, if
      any. */
  type Negotiated = Result<Option<Encoding>, string>

  /** `preferred_encoding`: a malformed header is a 400 error; no preference
      falls back to the default encoding. */
  function PreferredEncoding(c: Compression, parsed: Negotiated): (r: Result<Encoding, HttpError>)
    ensures parsed.Failure? <==> r.Failure?
    ensures r.Failure? ==> r.error.status == BadRequest
    ensures parsed.Success? && parsed.value.Some? ==> r == Success(parsed.value.value)
    ensures parsed.Success? && parsed.value.None? ==> r == Success(c.defaultEncoding)
  {
    match parsed
    case Failure(_) => Failure(HttpError(BadRequest, "StatusCode", ""))
    case Success(p) => Success(p.GetOr(c.defaultEncoding))
  }

  /** The encoding streams of the codec library. */
  type Encoder = (Encoding, EncodeSettings, Bytes) -> Bytes

  /** A response that carries a Content-Encoding already. */
  predicate Encoded(res: Response) {
    HeaderValue(res.headers, ContentEncodingHeader).Some?
  }

  /** `Compression::encode`. */
  function Encode(c: Compression, encoder: Encoder, res: Response, e: Encoding): (r: Response)
  {
    if Encoded(res) || e == Identity then res
    else
      res.(body := encoder(e, c.settings, res.body),
           headers := AppendHeader(res.headers, ContentEncodingHeader, EncodingName(e)))
  }

  /** `encode` never encodes twice: a response that already carries a
      Content-Encoding, or the identity encoding, leaves the response as it
      is; otherwise the body is encoded with the configured settings and
      exactly one Content-Encoding naming the encoding is added, no other
      header changing. Either way the result is encoded or identity, so a
      second `encode` changes nothing. */
  lemma EncodeSpec(c: Compression, encoder: Encoder, res: Response, e: Encoding, e2: Encoding)
    ensures Encoded(res) || e == Identity ==> Encode(c, encoder, res, e) == res
    ensures !Encoded(res) && e != Identity ==>
      var r := Encode(c, encoder, res, e);
      && r.status == res.status
      && r.body == encoder(e, c.settings, res.body)
      && r.headers == res.headers[ContentEncodingHeader := (if ContentEncodingHeader in res.headers then res.headers[ContentEncodingHeader] else []) + [EncodingName(e)]]
    ensures e != Identity ==> Encode(c, encoder, Encode(c, encoder, res, e), e2) == Encode(c, encoder, res, e)
  {
  }

  /** `Compression::handle`: a malformed Accept-Encoding is answered 400
      without running the rest; otherwise the rest runs on the same request
      and its response is encoded. */
  function CompressionMw(c: Compression, negotiate: Headers -> Negotiated, encoder: Encoder): (mw: Mw<Request, Response>)
  {
    (req: Request) =>
      match PreferredEncoding(c, negotiate(req.headers))
      case Failure(err) => Respond(EmptyResponse(err.status))
      case Success(e) => CallNext(req, (res: Response) => Encode(c, encoder, res, e))
  }

  lemma CompressionDecision(c: Compression, negotiate: Headers -> Negotiated, encoder: Encoder, req: Request, res: Response)
    ensures var a := CompressionMw(c, negotiate, encoder)(req);
      && (negotiate(req.headers).Failure? ==> a == Respond(EmptyResponse(BadRequest)))
      && (negotiate(req.headers).Success? ==>
            var e := negotiate(req.headers).value.GetOr(c.defaultEncoding);
            a.CallNext? && a.input == req && a.post(res) == Encode(c, encoder, res, e))
    ensures negotiate(req.headers) == Success(None) && c == NewCompression() ==>
      CompressionMw(c, negotiate, encoder)(req).post(res) == res
  {
  }

  /** `Decompression::parse_encoding`: the five names, anything else is
      415 Unsupported Media Type. */
  function ParseEncoding(s: string): (r: Result<Encoding, HttpError>)
    ensures r.Failure? ==> r.error.status == UnsupportedMediaType
    ensures r.Failure? <==> s !in {"gzip", "deflate", "br", "zstd", "identity"}
  {
    if s == "gzip" then Success(Gzip)
    else if s == "deflate" then Success(Deflate)
    else if s == "br" then Success(Brotli)
    else if s == "zstd" then Success(Zstd)
    else if s == "identity" then Success(Identity)
    else Failure(HttpError(UnsupportedMediaType, "StatusCode", ""))
  }

  /** `parse_encoding` inverts `to_header_value`, in both directions. */
  lemma EncodingNameRoundTrip(e: Encoding, s: string)
    ensures ParseEncoding(EncodingName(e)) == Success(e)
    ensures ParseEncoding(s) == Success(e) ==> EncodingName(e) == s
  {
  }

  /** Each piece trimmed. */
  function TrimAll(parts: seq<string>): (r: seq<string>)
    ensures |r| == |parts| && forall i :: 0 <= i < |parts| ==> r[i] == Trim(parts[i])
  {
    seq(|parts|, i requires 0 <= i < |parts| => Trim(parts[i]))
  }

  /** Collecting the parsed tokens into a `Result<Vec<_>, _>`: the first
      failure wins; otherwise every token parsed, in order. */
  function ParseAll(tokens: seq<string>): (r: Result<seq<Encoding>, HttpError>)
    ensures r.Success? <==> forall i :: 0 <= i < |tokens| ==> ParseEncoding(tokens[i]).Success?
    ensures r.Success? ==> |r.value| == |tokens|
    ensures r.Success? ==> forall i :: 0 <= i < |tokens| ==> ParseEncoding(tokens[i]) == Success(r.value[i])
    ensures r.Failure? ==> r.error == HttpError(UnsupportedMediaType, "StatusCode", "")
    decreases |tokens|
  {
    if |tokens| == 0 then Success([])
    else
      match ParseEncoding(tokens[0])
      case Failure(err) => Failure(err)
      case Success(e) =>
        var rest := ParseAll(tokens[1..]);
        assert forall i :: 1 <= i < |tokens| ==> tokens[i] == tokens[1..][i - 1];
        match rest
        case Failure(err) => Failure(err)
        case Success(es) => Success([e] + es)
  }

  /** The decoding streams of the codec library. */
  type Decoder = (Encoding, Bytes) -> Bytes

  /** The body after applying each decoding in turn; identity does nothing. */
  function DecodeBody(decoder: Decoder, es: seq<Encoding>, body: Bytes): (b: Bytes)
    decreases |es|
  {
    if |es| == 0 then body
    else DecodeBody(decoder, es[1..], if es[0] == Identity then body else decoder(es[0], body))
  }

  /** `Decompression::decode`. Without a Content-Encoding the request is
      kept; a value that is not a visible string is 400; otherwise the value
      is split on ',', each piece trimmed, the list reversed and parsed, and
      only if every piece parsed is the body decoded and the header removed. */
  function Decode(decoder: Decoder, req: Request): (r: Result<Request, HttpError>)
    ensures HeaderValue(req.headers, ContentEncodingHeader).None? ==> r == Success(req)
    ensures r.Failure? ==> r.error.status == BadRequest || r.error.status == UnsupportedMediaType
    ensures r.Success? && HeaderValue(req.headers, ContentEncodingHeader).Some? ==>
      ContentEncodingHeader !in r.value.headers
      && r.value == req.(body := r.value.body, headers := RemoveHeader(req.headers, ContentEncodingHeader))
  {
    match HeaderValue(req.headers, ContentEncodingHeader)
    case None => Success(req)
    case Some(v) =>
      if !VisibleAscii(v) then Failure(HttpError(BadRequest, "StatusCode", ""))
      else
        match ParseAll(Reverse(TrimAll(Split(v, ','))))
        case Failure(err) => Failure(err)
        case Success(es) =>
          Success(req.(body := DecodeBody(decoder, es, req.body),
                       headers := RemoveHeader(req.headers, ContentEncodingHeader)))
  }

  /** One unknown coding anywhere in the list fails the whole decode with
      415, and the request body is never touched. */
  lemma DecodeRejectsUnknown(decoder: Decoder, req: Request, i: int)
    requires HeaderValue(req.headers, ContentEncodingHeader).Some?
    requires VisibleAscii(HeaderValue(req.headers, ContentEncodingHeader).value)
    requires var parts := Split(HeaderValue(req.headers, ContentEncodingHeader).value, ',');
      0 <= i < |parts| && ParseEncoding(Trim(parts[i])).Failure?
    ensures Decode(decoder, req) == Failure(HttpError(UnsupportedMediaType, "StatusCode", ""))
  {
    var v := HeaderValue(req.headers, ContentEncodingHeader).value;
    var parts := Split(v, ',');
    var tokens := Reverse(TrimAll(parts));
    assert tokens[|parts| - 1 - i] == Trim(parts[i]);
    assert ParseAll(tokens) == Failure(HttpError(UnsupportedMediaType, "StatusCode", ""));
    assert Decode(decoder, req) == ParseAll(tokens).PropagateFailure();
  }

  /** A body as a client produces it: the codings applied in the order the
      Content-Encoding lists them, identity doing nothing. */
  function EncodeBody(encoder: Encoding -> Bytes -> Bytes, es: seq<Encoding>, body: Bytes): (b: Bytes)
    decreases |es|
  {
    if |es| == 0 then body
    else
      var inner := EncodeBody(encoder, es[..|es| - 1], body);
      if es[|es| - 1] == Identity then inner else encoder(es[|es| - 1])(inner)
  }

  /** The Content-Encoding value listing the codings in order. */
  function EncodingList(es: seq<Encoding>): (v: string)
    requires |es| > 0
  {
    Join(seq(|es|, i requires 0 <= i < |es| => EncodingName(es[i])), ',')
  }

  /** Decoding inverts the client's encoding: with codecs whose decoders
      invert their encoders, a request whose body was encoded with the codings
      its Content-Encoding lists decodes to the original body, and the header
      is gone. */
  lemma DecodeRoundTrip(encoder: Encoding -> Bytes -> Bytes, decoder: Decoder, req: Request, es: seq<Encoding>, body: Bytes)
    requires forall e, b :: e != Identity ==> decoder(e, encoder(e)(b)) == b
    requires |es| > 0
    requires ContentEncodingHeader in req.headers && |req.headers[ContentEncodingHeader]| > 0
    requires req.headers[ContentEncodingHeader][0] == EncodingList(es)
    requires req.body == EncodeBody(encoder, es, body)
    ensures Decode(decoder, req) == Success(req.(body := body, headers := RemoveHeader(req.headers, ContentEncodingHeader)))
  {
    var v := EncodingList(es);
    var tokens := Reverse(TrimAll(Split(v, ',')));
    ListTokens(es);
    ParseNames(es);
    DecodeEncodeBody(encoder, decoder, es, body);
  }

  /** The names of a list of codings. */
  function Names(es: seq<Encoding>): (ns: seq<string>)
    ensures |ns| == |es| && forall i :: 0 <= i < |es| ==> ns[i] == EncodingName(es[i])
  {
    seq(|es|, i requires 0 <= i < |es| => EncodingName(es[i]))
  }

  /** A listed Content-Encoding value is a visible string whose trimmed
      pieces are the names, in order. */
  lemma ListTokens(es: seq<Encoding>)
    requires |es| > 0
    ensures VisibleAscii(EncodingList(es))
    ensures TrimAll(Split(EncodingList(es), ',')) == Names(es)
  {
    var names := Names(es);
    assert EncodingList(es) == Join(names, ',');
    forall i | 0 <= i < |names| ensures ',' !in names[i] && VisibleAscii(names[i]) && Trim(names[i]) == names[i] {
      NameFacts(es[i]);
    }
    SplitJoin(names, ',');
    VisibleJoin(names);
  }

  /** Parsing the reversed names gives the reversed codings. */
  lemma ParseNames(es: seq<Encoding>)
    ensures ParseAll(Reverse(Names(es))) == Success(Reverse(es))
  {
    var tokens := Reverse(Names(es));
    forall i | 0 <= i < |tokens| ensures ParseEncoding(tokens[i]) == Success(Reverse(es)[i]) {
      assert tokens[i] == EncodingName(es[|es| - 1 - i]);
      EncodingNameRoundTrip(es[|es| - 1 - i], tokens[i]);
    }
    var r := ParseAll(tokens);
    assert r.Success?;
    assert r.value == Reverse(es);
  }

  /** Coding names are visible strings without commas or padding. */
  lemma NameFacts(e: Encoding)
    ensures ',' !in EncodingName(e) && VisibleAscii(EncodingName(e))
    ensures Trim(EncodingName(e)) == EncodingName(e)
  {
    var s := EncodingName(e);
    assert Lower(s) by {
      match e {
        case Gzip => assert s == ['g', 'z', 'i', 'p'];
        case Deflate => assert s == ['d', 'e', 'f', 'l', 'a', 't', 'e'];
        case Brotli => assert s == ['b', 'r'];
        case Zstd => assert s == ['z', 's', 't', 'd'];
        case Identity => assert s == ['i', 'd', 'e', 'n', 't', 'i', 't', 'y'];
      }
    }
    LowerFacts(s);
  }

  predicate Lower(s: string) {
    |s| > 0 && forall i :: 0 <= i < |s| ==> 'a' <= s[i] <= 'z'
  }

  lemma LowerFacts(s: string)
    requires Lower(s)
    ensures ',' !in s && VisibleAscii(s) && Trim(s) == s
  {
    TrimUnpadded(s);
  }

  /** A string that neither starts nor ends with whitespace trims to itself. */
  lemma TrimUnpadded(s: string)
    requires |s| > 0 && !IsSpace(s[0]) && !IsSpace(s[|s| - 1])
    ensures Trim(s) == s
  {
    assert TrimStart(s) == s;
  }

  lemma {:induction false} VisibleJoin(names: seq<string>)
    requires forall i :: 0 <= i < |names| ==> VisibleAscii(names[i])
    ensures VisibleAscii(Join(names, ','))
    decreases |names|
  {
    if |names| > 1 {
      VisibleJoin(names[1..]);
      var tail := Join(names[1..], ',');
      var s := names[0] + [','] + tail;
      assert Join(names, ',') == s;
      forall i | 0 <= i < |s| ensures s[i] == '\t' || (' ' <= s[i] <= '~') {
        if i < |names[0]| {
          assert s[i] == names[0][i];
        } else if i > |names[0]| {
          assert s[i] == tail[i - |names[0]| - 1];
        }
      }
    }
  }

  /** Decoding in reverse order undoes encoding in order. */
  lemma {:induction false} DecodeEncodeBody(encoder: Encoding -> Bytes -> Bytes, decoder: Decoder, es: seq<Encoding>, body: Bytes)
    requires forall e, b :: e != Identity ==> decoder(e, encoder(e)(b)) == b
    ensures DecodeBody(decoder, Reverse(es), EncodeBody(encoder, es, body)) == body
    decreases |es|
  {
    if |es| > 0 {
      var init := es[..|es| - 1];
      var last := es[|es| - 1];
      assert Reverse(es) == [last] + Reverse(init);
      assert Reverse(es)[1..] == Reverse(init);
      DecodeEncodeBody(encoder, decoder, init, body);
    }
  }

  /** `Decompression::handle`: a failed decode is answered with its status
      without running the rest; otherwise the rest runs on the decoded
      request. */
  function DecompressionMw(decoder: Decoder): (mw: Mw<Request, Response>)
  {
    (req: Request) =>
      match Decode(decoder, req)
      case Failure(err) => Respond(EmptyResponse(err.status))
      case Success(req') => CallNext(req', (res: Response) => res)
  }

  lemma DecompressionDecision(decoder: Decoder, req: Request, res: Response)
    ensures var a := DecompressionMw(decoder)(req);
      && (Decode(decoder, req).Failure? ==> a.Respond? && a.out.status in {BadRequest, UnsupportedMediaType})
      && (Decode(decoder, req).Success? ==> a.CallNext? && a.input == Decode(decoder, req).value && a.post(res) == res)
      && (HeaderValue(req.headers, ContentEncodingHeader).None? ==> a.CallNext? && a.input == req)
  {
  }
}
