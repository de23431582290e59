/** Cookies: the `Cookie` value and its `CookieBuilder`, and the `Cookies`
    extractor that parses a request's Cookie header (section 5.4 of
    RFC 6265) into a jar. The parser of one cookie belongs to the cookie
    library and is a parameter.
 */
module Cookies {
  import opened Wrappers
  import opened Text
  import opened Http
  import opened Extractors

  // ---------------------------------------------------------------------------
  // src/cookie.rs

  /** A cookie. An expiry is a duration since the Unix epoch, in
      nanoseconds. */
  datatype Cookie = Cookie(
    domain: Option<string>,
    expiresAt: Option<nat>,
    hostOnly: bool,
    httpOnly: bool,
    persistent: bool,
    secure: bool,
    name: string,
    path: Option<string>,
    value: string)

  /** The builder holds the same parameters, with the name optional. */
  datatype CookieBuilder = CookieBuilder(
    domain: Option<string>,
    expiresAt: Option<nat>,
    hostOnly: bool,
    httpOnly: bool,
    persistent: bool,
    secure: bool,
    name: Option<string>,
    path: Option<string>,
    value: string)

  /** `CookieBuilder::new`: the conservative defaults — host-only,
      HTTP-only, secure, not persistent, no domain, path or expiry, an empty
      value and no name. */
  function NewCookieBuilder(): (b: CookieBuilder)
    ensures b.domain.None? && b.expiresAt.None? && b.path.None? && b.name.None?
    ensures b.hostOnly && b.httpOnly && !b.persistent && b.secure
    ensures b.value == ""
  {
    CookieBuilder(None, None, true, true, false, true, None, None, "")
  }

  /** `build`: panics unless a name was given; otherwise the cookie with
      every parameter of the builder. */
  function Build(b: CookieBuilder): (r: Result<Cookie, string>)
    ensures r.Failure? <==> b.name.None?
    ensures r.Success? ==>
      && r.value.name == b.name.value && r.value.value == b.value
      && r.value.domain == b.domain && r.value.path == b.path && r.value.expiresAt == b.expiresAt
      && r.value.hostOnly == b.hostOnly && r.value.httpOnly == b.httpOnly
      && r.value.persistent == b.persistent && r.value.secure == b.secure
  {
    match b.name
    case None => Failure("The `name` method must be used")
    case Some(n) =>
      Success(Cookie(b.domain, b.expiresAt, b.hostOnly, b.httpOnly, b.persistent, b.secure, n, b.path, b.value))
  }

  /** `into_builder`: a builder holding every parameter, the name set. */
  function IntoBuilder(c: Cookie): (b: CookieBuilder)
    ensures b.name == Some(c.name)
  {
    CookieBuilder(c.domain, c.expiresAt, c.hostOnly, c.httpOnly, c.persistent, c.secure, Some(c.name), c.path, c.value)
  }

  /** Converting a cookie into a builder and building it again gives the
      cookie back; a named builder survives the trip the other way. */
  lemma BuilderRoundTrip(c: Cookie, b: CookieBuilder)
    ensures Build(IntoBuilder(c)) == Success(c)
    ensures b.name.Some? ==> IntoBuilder(Build(b).value) == b
  {
  }

  /** One call of a builder method. */
  datatype Setter =
    | SetDomain(domain: string)
    | SetExpiresAt(at: nat)
    | SetHostOnly(hostOnly: bool)
    | SetHttpOnly(httpOnly: bool)
    | SetPersistent(persistent: bool)
    | SetSecure(secure: bool)
    | SetName(name: string)
    | SetPath(path: string)
    | SetValue(value: string)

  /** The builder methods: each replaces exactly its own parameter. */
  function Set(b: CookieBuilder, s: Setter): (r: CookieBuilder)
  {
    match s
    case SetDomain(d) => b.(domain := Some(d))
    case SetExpiresAt(t) => b.(expiresAt := Some(t))
    case SetHostOnly(x) => b.(hostOnly := x)
    case SetHttpOnly(x) => b.(httpOnly := x)
    case SetPersistent(x) => b.(persistent := x)
    case SetSecure(x) => b.(secure := x)
    case SetName(n) => b.(name := Some(n))
    case SetPath(p) => b.(path := Some(p))
    case SetValue(v) => b.(value := v)
  }

  /** A chain of builder calls, in order. */
  function SetAll(b: CookieBuilder, calls: seq<Setter>): (r: CookieBuilder)
    decreases |calls|
  {
    if |calls| == 0 then b else SetAll(Set(b, calls[0]), calls[1..])
  }

  /** The two setters touch the same parameter. */
  predicate SameField(s: Setter, t: Setter) {
    (s.SetDomain? && t.SetDomain?) || (s.SetExpiresAt? && t.SetExpiresAt?)
    || (s.SetHostOnly? && t.SetHostOnly?) || (s.SetHttpOnly? && t.SetHttpOnly?)
    || (s.SetPersistent? && t.SetPersistent?) || (s.SetSecure? && t.SetSecure?)
    || (s.SetName? && t.SetName?) || (s.SetPath? && t.SetPath?) || (s.SetValue? && t.SetValue?)
  }

  /** Calls on different parameters commute, and of two calls on the same
      parameter the later one wins. */
  lemma SettersCommute(b: CookieBuilder, s: Setter, t: Setter)
    ensures !SameField(s, t) ==> Set(Set(b, s), t) == Set(Set(b, t), s)
    ensures SameField(s, t) ==> Set(Set(b, s), t) == Set(b, t)
  {
    if SameField(s, t) {
      SetFields(b, s);
      SetFields(b, t);
      SetFields(Set(b, s), t);
    } else {
      SettersCommuteDistinct(b, s, t);
    }
  }

  lemma SettersCommuteDistinct(b: CookieBuilder, s: Setter, t: Setter)
    requires !SameField(s, t)
    ensures Set(Set(b, s), t) == Set(Set(b, t), s)
  {
    var st, ts := Set(Set(b, s), t), Set(Set(b, t), s);
    SetFields(b, s);
    SetFields(b, t);
    SetFields(Set(b, s), t);
    SetFields(Set(b, t), s);
    assert st.domain == ts.domain;
    assert st.expiresAt == ts.expiresAt;
    assert st.hostOnly == ts.hostOnly;
    assert st.httpOnly == ts.httpOnly;
    assert st.persistent == ts.persistent;
    assert st.secure == ts.secure;
    assert st.name == ts.name;
    assert st.path == ts.path;
    assert st.value == ts.value;
  }

  /** Each builder method changes its own parameter and leaves the others. */
  lemma SetFields(b: CookieBuilder, s: Setter)
    ensures Set(b, s).domain == if s.SetDomain? then Some(s.domain) else b.domain
    ensures Set(b, s).expiresAt == if s.SetExpiresAt? then Some(s.at) else b.expiresAt
    ensures Set(b, s).hostOnly == if s.SetHostOnly? then s.hostOnly else b.hostOnly
    ensures Set(b, s).httpOnly == if s.SetHttpOnly? then s.httpOnly else b.httpOnly
    ensures Set(b, s).persistent == if s.SetPersistent? then s.persistent else b.persistent
    ensures Set(b, s).secure == if s.SetSecure? then s.secure else b.secure
    ensures Set(b, s).name == if s.SetName? then Some(s.name) else b.name
    ensures Set(b, s).path == if s.SetPath? then Some(s.path) else b.path
    ensures Set(b, s).value == if s.SetValue? then s.value else b.value
  {
  }

  /** A chain of calls builds exactly when the builder had a name or some
      call sets one; the name is then that of the last such call. */
  lemma {:induction false} NameOfChain(b: CookieBuilder, calls: seq<Setter>)
    ensures SetAll(b, calls).name.Some? <==> b.name.Some? || exists i :: 0 <= i < |calls| && calls[i].SetName?
    ensures forall i :: 0 <= i < |calls| && calls[i].SetName? && (forall j :: i < j < |calls| ==> !calls[j].SetName?) ==>
      SetAll(b, calls).name == Some(calls[i].name)
    ensures (forall i :: 0 <= i < |calls| ==> !calls[i].SetName?) ==> SetAll(b, calls).name == b.name
    decreases |calls|
  {
    if |calls| > 0 {
      var rest := calls[1..];
      NameOfChain(Set(b, calls[0]), rest);
      assert forall i :: 1 <= i < |calls| ==> calls[i] == rest[i - 1];
      if exists i :: 0 <= i < |calls| && calls[i].SetName? {
        var i :| 0 <= i < |calls| && calls[i].SetName?;
        if i > 0 { assert rest[i - 1].SetName?; }
      }
      forall i | 0 <= i < |calls| && calls[i].SetName? && (forall j :: i < j < |calls| ==> !calls[j].SetName?)
        ensures SetAll(b, calls).name == Some(calls[i].name)
      {
        if i > 0 {
          assert forall j :: i - 1 < j < |rest| ==> !rest[j].SetName?;
        } else {
          assert forall j :: 0 <= j < |rest| ==> !rest[j].SetName?;
        }
      }
    }
  }

  /** The examples of the source's documentation: a builder given only a
      name builds a cookie with the defaults; an unnamed one panics; a
      cookie renamed through its builder keeps its other parameters. */
  lemma CookieExamples()
    ensures Build(Set(NewCookieBuilder(), SetName("foo"))) ==
      Success(Cookie(None, None, true, true, false, true, "foo", None, ""))
    ensures Build(NewCookieBuilder()).Failure?
    ensures var c := Cookie(None, None, true, true, false, true, "foo", None, "bar");
      Build(Set(Set(IntoBuilder(c), SetName("another-foo")), SetPath("/a-path"))) ==
      Success(c.(name := "another-foo", path := Some("/a-path")))
  {
  }

  // ---------------------------------------------------------------------------
  // src/cookies.rs

  const CookieHeader: string := "cookie"

  /** A jar keeps one cookie per name; the cookie type `C` and its name
      belong to the cookie library. */
  type Jar<C> = map<string, C>

  /** One ';'-piece of the header: trimmed, then parsed. */
  function ParsePiece<C>(piece: string, parse: string -> Option<C>): Option<C> {
    parse(Trim(piece))
  }

  /** The cookies of the ';'-pieces, each trimmed and parsed, or `None`
      at the first piece that does not parse. */
  function ParsePieces<C>(pieces: seq<string>, parse: string -> Option<C>): (r: Option<seq<C>>)
    decreases |pieces|
  {
    if |pieces| == 0 then Some([])
    else
      match ParsePiece(pieces[0], parse)
      case None => None
      case Some(c) =>
        match ParsePieces(pieces[1..], parse)
        case None => None
        case Some(cs) => Some([c] + cs)
  }

  /** Adds the cookies in order; a cookie replaces an earlier one of the
      same name. */
  function AddAll<C>(jar: Jar<C>, cs: seq<C>, nameOf: C -> string): (r: Jar<C>)
    decreases |cs|
  {
    if |cs| == 0 then jar else AddAll(jar[nameOf(cs[0]) := cs[0]], cs[1..], nameOf)
  }

  /** `parse_from_header`: split on ';', trim and parse every piece into a
      fresh jar; a piece that does not parse is an error. */
  function ParseFromHeader<C>(s: string, parse: string -> Option<C>, nameOf: C -> string): (r: Option<Jar<C>>)
  {
    match ParsePieces(Split(s, ';'), parse)
    case None => None
    case Some(cs) => Some(AddAll(map[], cs, nameOf))
  }

  /** Every piece parses exactly when the whole does. */
  lemma {:induction false} ParsePiecesSome<C>(pieces: seq<string>, parse: string -> Option<C>)
    ensures ParsePieces(pieces, parse).Some? <==> forall i :: 0 <= i < |pieces| ==> ParsePiece(pieces[i], parse).Some?
    decreases |pieces|
  {
    if |pieces| > 0 {
      var rest := pieces[1..];
      ParsePiecesSome(rest, parse);
      if ParsePieces(pieces, parse).Some? {
        forall i | 0 <= i < |pieces|
          ensures ParsePiece(pieces[i], parse).Some?
        {
          if i > 0 {
            assert pieces[i] == rest[i - 1];
          }
        }
      } else if ParsePiece(pieces[0], parse).Some? {
        var k :| 0 <= k < |rest| && !ParsePiece(rest[k], parse).Some?;
        assert pieces[k + 1] == rest[k];
      }
    }
  }

  /** The cookies come out in the order of the pieces, one per piece. */
  lemma {:induction false} ParsePiecesValues<C>(pieces: seq<string>, parse: string -> Option<C>)
    requires ParsePieces(pieces, parse).Some?
    ensures |ParsePieces(pieces, parse).value| == |pieces|
    ensures forall i :: 0 <= i < |pieces| ==> ParsePiece(pieces[i], parse) == Some(ParsePieces(pieces, parse).value[i])
    decreases |pieces|
  {
    if |pieces| > 0 {
      var rest := pieces[1..];
      var c := ParsePiece(pieces[0], parse).value;
      var cs := ParsePieces(rest, parse).value;
      ParsePiecesValues(rest, parse);
      assert ParsePieces(pieces, parse).value == [c] + cs;
      assert forall i :: 1 <= i < |pieces| ==> pieces[i] == rest[i - 1];
    }
  }

  /** Every piece parses exactly when the whole does, and the cookies come
      out in the order of the pieces. */
  lemma ParsePiecesSpec<C>(pieces: seq<string>, parse: string -> Option<C>)
    ensures ParsePieces(pieces, parse).Some? <==> forall i :: 0 <= i < |pieces| ==> ParsePiece(pieces[i], parse).Some?
    ensures ParsePieces(pieces, parse).Some? ==>
      && |ParsePieces(pieces, parse).value| == |pieces|
      && forall i :: 0 <= i < |pieces| ==> ParsePieces(pieces, parse).value[i] == ParsePiece(pieces[i], parse).value
  {
    ParsePiecesSome(pieces, parse);
    if ParsePieces(pieces, parse).Some? {
      ParsePiecesValues(pieces, parse);
    }
  }

  /** Cookie `i` is the last of its name. */
  predicate LastOfName<C>(cs: seq<C>, nameOf: C -> string, i: int) {
    0 <= i < |cs| && forall j :: i < j < |cs| ==> nameOf(cs[j]) != nameOf(cs[i])
  }

  /** A name none of the added cookies carries keeps its cookie. */
  lemma {:induction false} AddAllKeeps<C>(jar: Jar<C>, cs: seq<C>, nameOf: C -> string, n: string)
    requires n in jar
    requires forall j :: 0 <= j < |cs| ==> nameOf(cs[j]) != n
    ensures n in AddAll(jar, cs, nameOf) && AddAll(jar, cs, nameOf)[n] == jar[n]
    decreases |cs|
  {
    if |cs| > 0 {
      assert nameOf(cs[0]) != n;
      assert forall j :: 0 <= j < |cs[1..]| ==> cs[1..][j] == cs[j + 1];
      AddAllKeeps(jar[nameOf(cs[0]) := cs[0]], cs[1..], nameOf, n);
    }
  }

  /** The jar holds the earlier names and the names of the cookies added,
      each bound to the last cookie of that name. */
  lemma {:induction false} AddAllSpec<C>(jar: Jar<C>, cs: seq<C>, nameOf: C -> string)
    ensures forall n :: n in AddAll(jar, cs, nameOf) <==> n in jar || exists i :: 0 <= i < |cs| && nameOf(cs[i]) == n
    ensures forall i :: LastOfName(cs, nameOf, i) ==>
      nameOf(cs[i]) in AddAll(jar, cs, nameOf) && AddAll(jar, cs, nameOf)[nameOf(cs[i])] == cs[i]
    decreases |cs|
  {
    if |cs| > 0 {
      var rest := cs[1..];
      var jar' := jar[nameOf(cs[0]) := cs[0]];
      AddAllSpec(jar', rest, nameOf);
      var r := AddAll(jar, cs, nameOf);
      assert r == AddAll(jar', rest, nameOf);
      forall n ensures n in r <==> n in jar || exists i :: 0 <= i < |cs| && nameOf(cs[i]) == n {
        if exists i :: 0 <= i < |cs| && nameOf(cs[i]) == n {
          var i :| 0 <= i < |cs| && nameOf(cs[i]) == n;
          if i > 0 { assert nameOf(rest[i - 1]) == n; }
        }
      }
      forall i | LastOfName(cs, nameOf, i) ensures nameOf(cs[i]) in r && r[nameOf(cs[i])] == cs[i] {
        if i > 0 {
          assert LastOfName(rest, nameOf, i - 1);
        } else {
          forall j | 0 <= j < |rest| ensures nameOf(rest[j]) != nameOf(cs[0]) {
            assert rest[j] == cs[j + 1];
          }
          AddAllKeeps(jar', rest, nameOf, nameOf(cs[0]));
        }
      }
    }
  }

  /** `Cookies::extract`: no Cookie header gives an empty jar; a header that
      is not visible ASCII panics on `to_str`; a piece that does not parse
      rejects the request with 400. */
  function ExtractCookies<C>(req: Request, parse: string -> Option<C>, nameOf: C -> string): (o: Outcome<Jar<C>>)
    ensures HeaderValue(req.headers, CookieHeader).None? ==> o == Extracted(map[])
    ensures o.Panicked? <==> HeaderValue(req.headers, CookieHeader).Some? && !VisibleAscii(HeaderValue(req.headers, CookieHeader).value)
    ensures o.Rejected? ==> o == Reject(BadRequest)
  {
    match HeaderValue(req.headers, CookieHeader)
    case None => Extracted(map[])
    case Some(raw) =>
      if !VisibleAscii(raw) then Panicked("header value is not visible ASCII")
      else
        match ParseFromHeader(raw, parse, nameOf)
        case Some(jar) => Extracted(jar)
        case None => Reject(BadRequest)
  }

  /** The extractor accepts a visible header exactly when every ';'-piece
      parses, and then every cookie of the header can be read back by its
      name (the last one when a name repeats). */
  lemma ExtractCookiesSpec<C>(req: Request, parse: string -> Option<C>, nameOf: C -> string)
    requires HeaderValue(req.headers, CookieHeader).Some?
    requires VisibleAscii(HeaderValue(req.headers, CookieHeader).value)
    ensures var pieces := Split(HeaderValue(req.headers, CookieHeader).value, ';');
      ExtractCookies(req, parse, nameOf).Extracted? <==> forall i :: 0 <= i < |pieces| ==> ParsePiece(pieces[i], parse).Some?
    ensures ExtractCookies(req, parse, nameOf).Extracted? ==>
      var pieces := Split(HeaderValue(req.headers, CookieHeader).value, ';');
      var cs := ParsePieces(pieces, parse).value;
      && |cs| == |pieces|
      && (forall i :: 0 <= i < |pieces| ==> cs[i] == ParsePiece(pieces[i], parse).value)
      && (forall n :: n in ExtractCookies(req, parse, nameOf).value <==> exists i :: 0 <= i < |cs| && nameOf(cs[i]) == n)
      && (forall i :: LastOfName(cs, nameOf, i) ==> GetCookie(ExtractCookies(req, parse, nameOf).value, nameOf(cs[i])) == Some(cs[i]))
  {
    var pieces := Split(HeaderValue(req.headers, CookieHeader).value, ';');
    ParsePiecesSpec(pieces, parse);
    if ParsePieces(pieces, parse).Some? {
      AddAllSpec(map[], ParsePieces(pieces, parse).value, nameOf);
    }
  }

  /** `Cookies::get`. */
  function GetCookie<C>(jar: Jar<C>, name: string): (r: Option<C>)
    ensures r.Some? <==> name in jar
    ensures r.Some? ==> r.value == jar[name]
  {
    if name in jar then Some(jar[name]) else None
  }
}
