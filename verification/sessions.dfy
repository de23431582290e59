/** Sessions. The current `SessionMiddleware` keeps the session id in a
    cookie signed with HMAC-SHA256 (RFC 2104) and base64 (section 4 of
    RFC 4648), loads the session from a store before the rest of the chain
    runs, and afterwards destroys it, stores it or leaves it alone. The
    cryptography, the session type and the store are parameters. The older
    `tide-sessions` crate commits a dirty `SessionMap` and sets a cookie for
    a new session.
 */
module Sessions {
  import opened Wrappers
  import opened Http
  import opened Responses

  // ---------------------------------------------------------------------------
  // src/sessions/middleware.rs: configuration

  /** Length of the base64 text of a SHA-256 MAC: 32 bytes give 44 characters. */
  const DigestLength: nat := 44

  /** The shortest secret `Key::derive_from` accepts. */
  const MinSecretLength: nat := 32

  const DefaultCookiePath: string := "/"
  const DefaultCookieName: string := "tide.sid"

  /** One day, in seconds. */
  const DefaultTtl: nat := 24 * 60 * 60

  /** The settings of the middleware; the signing key is derived from
      `secret`. The time to live is in seconds. */
  datatype SessionConfig = SessionConfig(
    cookiePath: string,
    cookieName: string,
    cookieDomain: Option<string>,
    ttl: Option<nat>,
    saveUnchanged: bool,
    sameSite: SameSite,
    secret: Bytes)

  /** `SessionMiddleware::new`: the defaults, and a panic (deriving the key)
      when the secret is shorter than 32 bytes. */
  function NewSessionMiddleware(secret: Bytes): (r: Result<SessionConfig, string>)
    ensures r.Failure? <==> |secret| < MinSecretLength
    ensures r.Success? ==>
      && r.value.cookiePath == "/" && r.value.cookieName == "tide.sid" && r.value.cookieDomain.None?
      && r.value.ttl == Some(86400) && r.value.saveUnchanged && r.value.sameSite == Strict
      && r.value.secret == secret
  {
    if |secret| < MinSecretLength then Failure("master key must be at least 32 bytes")
    else Success(SessionConfig(DefaultCookiePath, DefaultCookieName, None, Some(DefaultTtl), true, Strict, secret))
  }

  /** `with_cookie_path`. */
  function WithCookiePath(c: SessionConfig, path: string): (r: SessionConfig)
    ensures r == c.(cookiePath := path)
  {
    c.(cookiePath := path)
  }

  /** `with_session_ttl`. */
  function WithSessionTtl(c: SessionConfig, ttl: Option<nat>): (r: SessionConfig)
    ensures r == c.(ttl := ttl)
  {
    c.(ttl := ttl)
  }

  /** `with_cookie_name`. */
  function WithCookieName(c: SessionConfig, name: string): (r: SessionConfig)
    ensures r == c.(cookieName := name)
  {
    c.(cookieName := name)
  }

  /** `without_save_unchanged`. */
  function WithoutSaveUnchanged(c: SessionConfig): (r: SessionConfig)
    ensures r == c.(saveUnchanged := false)
  {
    c.(saveUnchanged := false)
  }

  /** `with_same_site_policy`. */
  function WithSameSitePolicy(c: SessionConfig, policy: SameSite): (r: SessionConfig)
    ensures r == c.(sameSite := policy)
  {
    c.(sameSite := policy)
  }

  /** `with_cookie_domain`. */
  function WithCookieDomain(c: SessionConfig, domain: string): (r: SessionConfig)
    ensures r == c.(cookieDomain := Some(domain))
  {
    c.(cookieDomain := Some(domain))
  }

  /** The customisation example of the source's documentation: every
      setting is overridden, the secret is kept. */
  lemma CustomizationExample(secret: Bytes)
    requires |secret| >= MinSecretLength
    ensures var c := NewSessionMiddleware(secret).value;
      var custom := WithoutSaveUnchanged(WithSessionTtl(WithSameSitePolicy(
        WithCookieDomain(WithCookiePath(WithCookieName(c, "custom.cookie.name"), "/some/path"), "www.rust-lang.org"),
        Lax), Some(1)));
      custom == SessionConfig("/some/path", "custom.cookie.name", Some("www.rust-lang.org"), Some(1), false, Lax, secret)
  {
  }

  // ---------------------------------------------------------------------------
  // src/sessions/middleware.rs: signing

  /** The cryptographic primitives: key derivation, the MAC of a key and a
      message, and base64 in both directions. */
  datatype Crypto = Crypto(
    derive: Bytes -> Bytes,
    mac: (Bytes, Bytes) -> Bytes,
    encode: Bytes -> string,
    decode: string -> Option<Bytes>)

  function SigningKey(c: SessionConfig, cr: Crypto): Bytes {
    cr.derive(c.secret)
  }

  /** The base64 MAC of a value under the middleware's key. */
  function Digest(c: SessionConfig, cr: Crypto, value: string): string {
    cr.encode(cr.mac(SigningKey(c, cr), Utf8(value)))
  }

  /** `sign_cookie`: the MAC, in base64, followed by the value. */
  function Sign(c: SessionConfig, cr: Crypto, value: string): (s: string)
    ensures s == Digest(c, cr, value) + value
  {
    Digest(c, cr, value) + value
  }

  /** The number of characters whose UTF-8 encoding is exactly `n` bytes
      long, if `n` falls on a character boundary. */
  function ByteBoundary(s: string, n: nat): (r: Option<nat>)
    ensures r.Some? ==> r.value <= |s| && |Utf8(s[..r.value])| == n
    decreases |s|
  {
    if n == 0 then Some(0)
    else if |s| == 0 then None
    else
      var w := |CharUtf8(s[0])|;
      if w > n then None
      else
        match ByteBoundary(s[1..], n - w)
        case None => None
        case Some(k) =>
          assert s[..k + 1] == [s[0]] + s[1..][..k];
          assert Utf8(s[..k + 1]) == CharUtf8(s[0]) + Utf8(s[1..][..k]);
          Some(k + 1)
  }

  predicate Ascii(s: string) {
    forall i :: 0 <= i < |s| ==> (s[i] as int) < 0x80
  }

  /** Within an ASCII prefix, byte `n` is character `n`. */
  lemma {:induction false} AsciiBoundary(s: string, n: nat)
    requires n <= |s| && Ascii(s[..n])
    ensures ByteBoundary(s, n) == Some(n)
    decreases n
  {
    if n > 0 {
      assert (s[0] as int) < 0x80 by { assert s[..n][0] == s[0]; }
      assert s[1..][..n - 1] == s[..n][1..];
      AsciiBoundary(s[1..], n - 1);
    }
  }

  /** The outcome of `verify_signature`; splitting inside a character
      panics. */
  datatype Verified = Verified(value: string) | Unverified(reason: string) | SplitPanic

  /** `verify_signature`: the first 44 bytes must be the base64 MAC of the
      rest. */
  function VerifySignature(c: SessionConfig, cr: Crypto, s: string): (r: Verified)
    ensures |Utf8(s)| < DigestLength ==> r.Unverified?
    ensures r.Verified? ==>
      exists k :: (0 <= k <= |s| && |Utf8(s[..k])| == DigestLength && r.value == s[k..]
                   && cr.decode(s[..k]) == Some(cr.mac(SigningKey(c, cr), Utf8(s[k..]))))
    ensures Ascii(s) ==> !r.SplitPanic?
  {
    if |Utf8(s)| < DigestLength then Unverified("length of value is <= BASE64_DIGEST_LEN")
    else
      assert Ascii(s) ==> ByteBoundary(s, DigestLength) == Some(DigestLength) by {
        if Ascii(s) { AsciiBoundary(s, DigestLength); }
      }
      match ByteBoundary(s, DigestLength)
      case None => SplitPanic
      case Some(k) =>
        match cr.decode(s[..k])
        case None => Unverified("bad base64 digest")
        case Some(d) =>
          if d == cr.mac(SigningKey(c, cr), Utf8(s[k..])) then Verified(s[k..])
          else Unverified("value did not verify")
  }

  /** What the primitives must do for signing to be checkable: the base64
      of a MAC is 44 ASCII characters and decodes back to the MAC. */
  predicate DigestWellFormed(c: SessionConfig, cr: Crypto, value: string) {
    var m := cr.mac(SigningKey(c, cr), Utf8(value));
    |cr.encode(m)| == DigestLength && Ascii(cr.encode(m)) && cr.decode(cr.encode(m)) == Some(m)
  }

  /** Verification inverts signing: a signed value verifies to itself. */
  lemma SignVerifyRoundTrip(c: SessionConfig, cr: Crypto, value: string)
    requires DigestWellFormed(c, cr, value)
    ensures VerifySignature(c, cr, Sign(c, cr, value)) == Verified(value)
  {
    var d := Digest(c, cr, value);
    var s := Sign(c, cr, value);
    assert s[..DigestLength] == d && s[DigestLength..] == value;
    AsciiBoundary(s, DigestLength);
    assert |Utf8(s)| >= |s| >= DigestLength;
  }

  /** A signature does not carry over to another value: a digest followed
      by a value whose MAC differs from the digest's is rejected. */
  lemma TamperedRejected(c: SessionConfig, cr: Crypto, value: string, other: string)
    requires DigestWellFormed(c, cr, value)
    requires cr.mac(SigningKey(c, cr), Utf8(other)) != cr.mac(SigningKey(c, cr), Utf8(value))
    ensures VerifySignature(c, cr, Digest(c, cr, value) + other).Unverified?
  {
    var d := Digest(c, cr, value);
    var s := d + other;
    assert s[..DigestLength] == d && s[DigestLength..] == other;
    AsciiBoundary(s, DigestLength);
    assert |Utf8(s)| >= |s| >= DigestLength;
  }

  // ---------------------------------------------------------------------------
  // src/sessions/middleware.rs: handle

  /** The session type and the store: `load` and `store` may fail,
      `validate` drops an expired session, `initial` is `Session::default`. */
  datatype SessionOps<!S> = SessionOps(
    load: string -> Result<Option<S>, string>,
    validate: S -> Option<S>,
    initial: S,
    expireIn: (S, nat) -> S,
    destroyed: S -> bool,
    changed: S -> bool,
    store: S -> Result<Option<string>, string>)

  /** `load_or_create`: the stored session for the cookie's value when it
      loads and is still valid; a fresh one when there is no cookie, the
      load fails or finds nothing, or the loaded session has expired. */
  function LoadOrCreate<S>(ops: SessionOps<S>, cookieValue: Option<string>): (s: S)
    ensures cookieValue.None? ==> s == ops.initial
    ensures (cookieValue.Some? && ops.load(cookieValue.value).Success? && ops.load(cookieValue.value).value.Some?
             && ops.validate(ops.load(cookieValue.value).value.value).Some?) ==>
      s == ops.validate(ops.load(cookieValue.value).value.value).value
    ensures cookieValue.Some? && (ops.load(cookieValue.value).Failure? || ops.load(cookieValue.value).value.None?) ==>
      s == ops.initial
    ensures (cookieValue.Some? && ops.load(cookieValue.value).Success? && ops.load(cookieValue.value).value.Some?
             && ops.validate(ops.load(cookieValue.value).value.value).None?) ==>
      s == ops.initial
  {
    match cookieValue
    case None => ops.initial
    case Some(v) =>
      match ops.load(v)
      case Failure(_) => ops.initial
      case Success(None) => ops.initial
      case Success(Some(loaded)) => ops.validate(loaded).GetOr(ops.initial)
  }

  /** `build_cookie`: HTTP-only, the configured same-site policy and path,
      `secure` as given, an expiry `ttl` after `now` when there is a ttl,
      the configured domain, and the signed value. */
  function BuildCookie(c: SessionConfig, cr: Crypto, secure: bool, value: string, now: nat): (k: Cookie)
    ensures k.name == c.cookieName && k.value == Sign(c, cr, value)
    ensures k.httpOnly && k.sameSite == Some(c.sameSite) && k.secure == Some(secure) && k.path == Some(c.cookiePath)
    ensures k.expires.Some? <==> c.ttl.Some?
    ensures c.ttl.Some? ==> k.expires.value == now + c.ttl.value
    ensures k.domain == c.cookieDomain
  {
    var expires := match c.ttl case Some(t) => Some(now + t) case None => None;
    Cookie(c.cookieName, Sign(c, cr, value), true, Some(c.sameSite), Some(secure), Some(c.cookiePath), expires, c.cookieDomain)
  }

  /** The request's session cookie, with its path set to "/", as handed to
      `remove_cookie`. */
  function RemovalCookie(c: SessionConfig, raw: string): (k: Cookie)
    ensures k.name == c.cookieName && k.value == raw && k.path == Some("/")
  {
    Cookie(c.cookieName, raw, false, None, None, Some("/"), None, None)
  }

  /** What the middleware did with the store after the chain ran. */
  datatype StoreCall = DestroyCalled | StoreCalled | NoStoreCall

  /** The cookie's value when its signature verifies. */
  function VerifiedValue(c: SessionConfig, cr: Crypto, incoming: Option<string>): (v: Option<string>)
    requires incoming.Some? ==> Ascii(incoming.value)
    ensures v.Some? <==> incoming.Some? && VerifySignature(c, cr, incoming.value).Verified?
    ensures v.Some? ==> v.value == VerifySignature(c, cr, incoming.value).value
  {
    match incoming
    case None => None
    case Some(raw) =>
      match VerifySignature(c, cr, raw)
      case Verified(v) => Some(v)
      case _ => None
  }

  /** `handle`. `incoming` is the raw value of the request's session cookie
      (request headers are ASCII, so splitting it never panics), `now` the
      clock, and `next` runs the rest of the chain on the session and
      returns the response and the session as the chain left it. A failure
      to destroy is only logged; a failure to store is a 500 error. */
  function Handle<S>(c: SessionConfig, cr: Crypto, ops: SessionOps<S>, req: Request, incoming: Option<string>, now: nat,
                     next: S -> (TideResponse, S)): (r: (Result<TideResponse, HttpError>, StoreCall))
    requires incoming.Some? ==> Ascii(incoming.value)
  {
    var loaded := LoadOrCreate(ops, VerifiedValue(c, cr, incoming));
    var session := match c.ttl case Some(t) => ops.expireIn(loaded, t) case None => loaded;
    var secure := req.url.scheme == "https";
    var (resp, after) := next(session);
    if ops.destroyed(after) then
      (Success(if incoming.Some? then RemoveCookie(resp, RemovalCookie(c, incoming.value)) else resp), DestroyCalled)
    else if c.saveUnchanged || ops.changed(after) then
      match ops.store(after)
      case Failure(e) => (Failure(HttpError(InternalServerError, "String", e)), StoreCalled)
      case Success(None) => (Success(resp), StoreCalled)
      case Success(Some(v)) => (Success(SetCookie(resp, BuildCookie(c, cr, secure, v, now))), StoreCalled)
    else (Success(resp), NoStoreCall)
  }

  /** The three outcomes of `handle`, against the downstream response:
      a destroyed session is destroyed in the store and its cookie (if the
      request had one) removed; a session stored under a new cookie value
      gets exactly one added cookie, secure exactly on https, whose value
      verifies back to the store's value; an unchanged session with
      `save_unchanged` off leaves the response as it was. */
  lemma HandleSpec<S>(c: SessionConfig, cr: Crypto, ops: SessionOps<S>, req: Request, incoming: Option<string>, now: nat,
                      next: S -> (TideResponse, S))
    requires incoming.Some? ==> Ascii(incoming.value)
    ensures var loaded := LoadOrCreate(ops, VerifiedValue(c, cr, incoming));
      var session := match c.ttl case Some(t) => ops.expireIn(loaded, t) case None => loaded;
      var (resp, after) := next(session);
      var (r, call) := Handle(c, cr, ops, req, incoming, now, next);
      && (ops.destroyed(after) ==>
            call == DestroyCalled && r.Success? && r.value.res == resp.res
            && r.value.events == resp.events + (if incoming.Some? then [Removed(RemovalCookie(c, incoming.value))] else []))
      && (!ops.destroyed(after) && !c.saveUnchanged && !ops.changed(after) ==> call == NoStoreCall && r == Success(resp))
      && (!ops.destroyed(after) && (c.saveUnchanged || ops.changed(after)) ==>
            && call == StoreCalled
            && (ops.store(after).Failure? <==> r.Failure?)
            && (r.Failure? ==> r.error.status == InternalServerError)
            && (ops.store(after) == Success(None) ==> r == Success(resp))
            && (ops.store(after).Success? && ops.store(after).value.Some? ==>
                  && r.Success? && r.value.res == resp.res && |r.value.events| == |resp.events| + 1
                  && var k := r.value.events[|resp.events|].cookie;
                  && r.value.events[|resp.events|].Added?
                  && k.name == c.cookieName
                  && k.secure == Some(req.url.scheme == "https")
                  && (DigestWellFormed(c, cr, ops.store(after).value.value) ==>
                        VerifySignature(c, cr, k.value) == Verified(ops.store(after).value.value))))
  {
    var loaded := LoadOrCreate(ops, VerifiedValue(c, cr, incoming));
    var session := match c.ttl case Some(t) => ops.expireIn(loaded, t) case None => loaded;
    var (resp, after) := next(session);
    if !ops.destroyed(after) && (c.saveUnchanged || ops.changed(after)) && ops.store(after).Success? && ops.store(after).value.Some? {
      var v := ops.store(after).value.value;
      if DigestWellFormed(c, cr, v) {
        SignVerifyRoundTrip(c, cr, v);
      }
    }
  }

  /** The session survives a round trip through the client: when the next
      request carries the cookie the middleware set for a store value,
      that request loads the session stored under that value. */
  lemma SessionResumes<S>(c: SessionConfig, cr: Crypto, ops: SessionOps<S>, value: string, secure: bool, now: nat)
    requires DigestWellFormed(c, cr, value) && Ascii(value)
    ensures Ascii(BuildCookie(c, cr, secure, value, now).value)
    ensures VerifiedValue(c, cr, Some(BuildCookie(c, cr, secure, value, now).value)) == Some(value)
  {
    SignVerifyRoundTrip(c, cr, value);
    var d := Digest(c, cr, value);
    assert forall i :: 0 <= i < |d + value| ==> (d + value)[i] == if i < |d| then d[i] else value[i - |d|];
  }

  // ---------------------------------------------------------------------------
  // tide-sessions/src/session_map.rs

  /** A session: its data and whether it must be committed. */
  datatype SessionMap = SessionMap(dirty: bool, data: map<string, string>)

  /** `SessionMap::new`: empty and clean. */
  function NewSessionMap(): (m: SessionMap)
    ensures !m.dirty && m.data == map[]
  {
    SessionMap(false, map[])
  }

  /** `rotate`: marks the session for commit; the data is kept. */
  function Rotate(m: SessionMap): (r: SessionMap)
    ensures r.dirty && r.data == m.data
  {
    m.(dirty := true)
  }

  /** `deref_mut`: an edit `f` of the data, which does not touch the flag. */
  function EditData(m: SessionMap, f: map<string, string> -> map<string, string>): (r: SessionMap)
    ensures r.dirty == m.dirty && r.data == f(m.data)
  {
    m.(data := f(m.data))
  }

  /** Editing the data never makes a session dirty; only `rotate` does, and
      a rotated session stays dirty through later edits. */
  lemma DirtyOnlyByRotate(m: SessionMap, f: map<string, string> -> map<string, string>, g: map<string, string> -> map<string, string>)
    ensures EditData(EditData(NewSessionMap(), f), g).dirty == false
    ensures EditData(Rotate(m), f).dirty
    ensures Rotate(EditData(m, f)) == EditData(Rotate(m), f)
  {
  }

  // ---------------------------------------------------------------------------
  // tide-sessions/src/lib.rs

  const SetCookieHeader: string := "set-cookie"

  /** The store of the older crate: `commit` is given the key the request
      arrived with, if any, and returns the session id. */
  datatype MapStore = MapStore(
    load: string -> SessionMap,
    create: SessionMap,
    commit: (Option<string>, SessionMap) -> Result<string, string>)

  /** The result of the older `handle`: the response and whether `commit`
      was called. */
  datatype Committed = Committed(res: Response, committed: bool)

  /** `handle` of the older crate. `cookie` is what `get_cookie` returned
      (an error reading the cookie counts as no cookie), `render` gives the
      text of the configured cookie for a session id, and `next` runs the
      rest of the chain on the session. */
  function HandleMap(store: MapStore, cookie: Result<Option<string>, string>, render: string -> string,
                     next: SessionMap -> (Response, SessionMap)): (r: Committed)
  {
    var key := match cookie case Success(k) => k case Failure(_) => None;
    var session := match key case Some(k) => store.load(k) case None => store.create;
    var (res, after) := next(session);
    if !after.dirty then Committed(res, false)
    else
      match store.commit(key, after)
      case Failure(_) => Committed(res, true)
      case Success(sid) =>
        if key.None? && ValidHeaderValue(render(sid)) then
          Committed(res.(headers := InsertHeader(res.headers, SetCookieHeader, render(sid))), true)
        else Committed(res, true)
  }

  /** A clean session is never committed and the response passes through;
      a Set-Cookie header is added (replacing any other) only for a request
      without a session cookie whose dirty session commits, and it carries
      the cookie for the committed id. Nothing else of the response
      changes. */
  lemma HandleMapSpec(store: MapStore, cookie: Result<Option<string>, string>, render: string -> string,
                      next: SessionMap -> (Response, SessionMap))
    ensures var key := match cookie case Success(k) => k case Failure(_) => None;
      var session := match key case Some(k) => store.load(k) case None => store.create;
      var (res, after) := next(session);
      var r := HandleMap(store, cookie, render, next);
      && r.committed == after.dirty
      && r.res.status == res.status && r.res.body == res.body
      && (r.res != res <==>
            after.dirty && key.None? && store.commit(None, after).Success?
            && ValidHeaderValue(render(store.commit(None, after).value))
            && InsertHeader(res.headers, SetCookieHeader, render(store.commit(None, after).value)) != res.headers)
      && (r.res != res ==> r.res.headers == InsertHeader(res.headers, SetCookieHeader, render(store.commit(None, after).value)))
  {
  }

  /** With a session cookie present the older middleware never sets a
      cookie, whatever the session does. */
  lemma KnownKeyNoCookie(store: MapStore, key: string, render: string -> string, next: SessionMap -> (Response, SessionMap))
    ensures HandleMap(store, Success(Some(key)), render, next).res == next(store.load(key)).0
  {
  }
}
