/** The in-process test client: `build_http_request` turns a path, an
    optional body and a header list into a request, and the `test_*`
    helpers send it to the server without a listener. URL parsing and the
    header-name and header-value conversions belong to the HTTP library and
    are parameters.
 */
module ServerTest {
  import opened Wrappers
  import opened Text
  import opened Http

  const LocalBase: string := "http://localhost/"

  /** A path the helpers use verbatim as the URL. */
  predicate IsAbsoluteUrl(path: string) {
    StartsWith(path, "http://") || StartsWith(path, "https://")
  }

  /** The URL text of a test request: an absolute URL as given, anything
      else relative to the local host with its leading '/'s removed. */
  function TestUrl(path: string): (u: string)
    ensures IsAbsoluteUrl(path) ==> u == path
    ensures !IsAbsoluteUrl(path) ==> StartsWith(u, LocalBase) && !StartsWith(u[|LocalBase|..], "/")
  {
    if IsAbsoluteUrl(path) then path
    else
      var rest := TrimStartMatches(path, "/");
      assert (LocalBase + rest)[|LocalBase|..] == rest;
      LocalBase + rest
  }

  /** Trimming the pattern "/" is trimming the character '/'. */
  lemma {:induction false} TrimSlashPattern(s: string)
    ensures TrimStartMatches(s, "/") == TrimStartChar(s, '/')
    decreases |s|
  {
    if |s| > 0 && s[0] == '/' {
      assert StartsWith(s, "/");
      TrimSlashPattern(s[1..]);
    } else {
      assert !StartsWith(s, "/");
    }
  }

  /** A relative path becomes the local base followed by the path after its
      run of leading '/'s: nothing but '/'s is dropped. */
  lemma TestUrlRelative(path: string)
    requires !IsAbsoluteUrl(path)
    ensures exists k :: (0 <= k <= |path| && TestUrl(path) == LocalBase + path[k..]
                         && (forall i :: 0 <= i < k ==> path[i] == '/')
                         && (k == |path| || path[k] != '/'))
  {
    TrimSlashPattern(path);
    var rest := TrimStartChar(path, '/');
    var k := |path| - |rest|;
    assert path[k..] == rest;
  }

  /** Leading '/'s do not matter: "/a" and "a" address the same URL. */
  lemma TestUrlLeadingSlash(path: string)
    requires !IsAbsoluteUrl(path)
    ensures TestUrl("/" + path) == TestUrl(path)
  {
    var p := "/" + path;
    assert !StartsWith(p, "http://") && !StartsWith(p, "https://") by {
      assert p[0] == '/';
    }
    assert StartsWith(p, "/") && p[1..] == path;
  }

  /** A URL the helpers built is used verbatim when given back to them. */
  lemma TestUrlIdempotent(path: string)
    ensures TestUrl(TestUrl(path)) == TestUrl(path)
  {
    if !IsAbsoluteUrl(path) {
      assert StartsWith(LocalBase, "http://") by {
        assert LocalBase[..7] == "http://";
      }
      StartsWithTrans(TestUrl(path), LocalBase, "http://");
    }
  }

  /** A rooted path whose first name does not start with 'h' (so it is
      not an absolute URL) is requested from the local host: "/anything"
      from "http://localhost/anything". */
  lemma TestUrlRooted(name: string)
    requires |name| > 0 && name[0] != '/' && name[0] != 'h'
    ensures TestUrl("/" + name) == LocalBase + name
  {
    assert !IsAbsoluteUrl(name) by {
      assert name[0] != "http://"[0];
    }
    assert !StartsWith(name, "/") by {
      assert name[0] != "/"[0];
    }
    TestUrlLeadingSlash(name);
  }

  /** The conversions of the HTTP library that can fail: parsing the URL,
      and turning a name and a value into a header name and header values. */
  datatype HttpTypes = HttpTypes(
    parseUrl: string -> Option<Url>,
    validName: string -> bool,
    validValue: string -> bool)

  /** Why building a test request failed. */
  datatype BuildError = InvalidUrl(url: string) | InvalidHeader(name: string, value: string)

  predicate ValidPair(env: HttpTypes, pair: (string, string)) {
    env.validName(pair.0) && env.validValue(pair.1)
  }

  /** The loop of `build_http_request` over the header list: each pair is
      inserted in turn, replacing what an earlier pair of the same name
      set, and the first pair the library refuses aborts the build. */
  function InsertHeaders(h: Headers, pairs: seq<(string, string)>, env: HttpTypes): (r: Result<Headers, BuildError>)
    ensures r.Success? <==> forall i :: 0 <= i < |pairs| ==> ValidPair(env, pairs[i])
    ensures r.Failure? ==>
      exists i :: (0 <= i < |pairs| && !ValidPair(env, pairs[i])
                   && (forall j :: 0 <= j < i ==> ValidPair(env, pairs[j]))
                   && r.error == InvalidHeader(pairs[i].0, pairs[i].1))
    decreases |pairs|
  {
    if |pairs| == 0 then Success(h)
    else if !ValidPair(env, pairs[0]) then Failure(InvalidHeader(pairs[0].0, pairs[0].1))
    else
      var r := InsertHeaders(InsertHeader(h, pairs[0].0, pairs[0].1), pairs[1..], env);
      assert forall i :: 1 <= i < |pairs| ==> pairs[i] == pairs[1..][i - 1];
      if r.Failure? then
        var i :| 0 <= i < |pairs[1..]| && !ValidPair(env, pairs[1..][i])
          && (forall j :: 0 <= j < i ==> ValidPair(env, pairs[1..][j]))
          && r.error == InvalidHeader(pairs[1..][i].0, pairs[1..][i].1);
        assert pairs[i + 1] == pairs[1..][i];
        assert forall j :: 0 <= j < i + 1 ==> ValidPair(env, pairs[j]) by {
          forall j | 0 <= j < i + 1 ensures ValidPair(env, pairs[j]) {
            if j > 0 { assert pairs[j] == pairs[1..][j - 1]; }
          }
        }
        r
      else r
  }

  /** The value the last pair named `name` carries, if any. */
  function LastValue(pairs: seq<(string, string)>, name: string): (v: Option<string>)
    ensures v.Some? <==> exists i :: 0 <= i < |pairs| && pairs[i].0 == name
    decreases |pairs|
  {
    if |pairs| == 0 then None
    else if pairs[|pairs| - 1].0 == name then Some(pairs[|pairs| - 1].1)
    else
      var v := LastValue(pairs[..|pairs| - 1], name);
      assert forall i :: 0 <= i < |pairs| - 1 ==> pairs[..|pairs| - 1][i] == pairs[i];
      v
  }

  /** The header map a successful build holds: every header named in the
      list carries exactly the value of its last pair; the others are as
      before. */
  lemma {:induction false} InsertHeadersSpec(h: Headers, pairs: seq<(string, string)>, env: HttpTypes)
    requires InsertHeaders(h, pairs, env).Success?
    ensures var r := InsertHeaders(h, pairs, env).value;
      forall n :: (n in r <==> n in h || LastValue(pairs, n).Some?)
        && (n in r ==> r[n] == (if LastValue(pairs, n).Some? then [LastValue(pairs, n).value] else h[n]))
    decreases |pairs|
  {
    if |pairs| > 0 {
      var h' := InsertHeader(h, pairs[0].0, pairs[0].1);
      InsertHeadersSpec(h', pairs[1..], env);
      forall n ensures LastValue(pairs, n) == (if LastValue(pairs[1..], n).Some? then LastValue(pairs[1..], n)
                                              else if n == pairs[0].0 then Some(pairs[0].1) else None) {
        LastValueCons(pairs, n);
      }
    }
  }

  /** The last pair of a name is in the tail, or else it is the head. */
  lemma {:induction false} LastValueCons(pairs: seq<(string, string)>, name: string)
    requires |pairs| > 0
    ensures LastValue(pairs, name) == (if LastValue(pairs[1..], name).Some? then LastValue(pairs[1..], name)
                                       else if name == pairs[0].0 then Some(pairs[0].1) else None)
    decreases |pairs|
  {
    if |pairs| > 1 && pairs[|pairs| - 1].0 != name {
      var init := pairs[..|pairs| - 1];
      LastValueCons(init, name);
      assert init[1..] == pairs[1..][..|pairs[1..]| - 1];
    }
  }

  /** `build_http_request`: the URL is parsed first, then the body is set
      if there is one, then the headers are inserted in order. */
  function BuildRequest(verb: Method, path: string, body: Option<Bytes>, headers: Option<seq<(string, string)>>,
                        env: HttpTypes): (r: Result<Request, BuildError>)
    ensures env.parseUrl(TestUrl(path)).None? ==> r == Failure(InvalidUrl(TestUrl(path)))
    ensures r.Success? <==>
      (env.parseUrl(TestUrl(path)).Some?
       && (headers.Some? ==> forall i :: 0 <= i < |headers.value| ==> ValidPair(env, headers.value[i])))
    ensures r.Success? ==>
      && r.value.verb == verb
      && r.value.url == env.parseUrl(TestUrl(path)).value
      && r.value.body == body.GetOr([])
      && r.value.params == []
      && r.value.headers == (if headers.Some? then InsertHeaders(map[], headers.value, env).value else map[])
  {
    match env.parseUrl(TestUrl(path))
    case None => Failure(InvalidUrl(TestUrl(path)))
    case Some(url) =>
      var req := Request(verb, url, map[], body.GetOr([]), []);
      match headers
      case None => Success(req)
      case Some(pairs) =>
        match InsertHeaders(req.headers, pairs, env)
        case Failure(e) => Failure(e)
        case Success(h) => Success(req.(headers := h))
  }

  /** The `ServerTest` helpers. */
  datatype Helper = TestGet | TestHead | TestPut | TestPost | TestDelete | TestOptions | TestPatch

  /** The helpers that send a body. */
  predicate TakesBody(c: Helper) {
    c.TestPut? || c.TestPost? || c.TestPatch?
  }

  /** The method each helper sends, as written: `test_head_with_headers`
      builds a GET request. */
  function TestMethodAsWritten(c: Helper): (m: Method)
    ensures c != TestHead ==> m == TestMethod(c)
    ensures c == TestHead ==> m == Get
  {
    match c
    case TestGet => Get
    case TestHead => Get
    case TestPut => Put
    case TestPost => Post
    case TestDelete => Delete
    case TestOptions => Options
    case TestPatch => Patch
  }

  /** As written, `test_head` and `test_get` send the same request. */
  lemma HeadHelperSendsGet(path: string, headers: seq<(string, string)>, env: HttpTypes)
    ensures TestMethodAsWritten(TestHead) == TestMethodAsWritten(TestGet)
    ensures BuildRequest(TestMethodAsWritten(TestHead), path, None, Some(headers), env)
         == BuildRequest(TestMethodAsWritten(TestGet), path, None, Some(headers), env)
  {
  }

  /** The method each helper evidently means to send: the one it is named
      after. */
  function TestMethod(c: Helper): (m: Method)
  {
    match c
    case TestGet => Get
    case TestHead => Head
    case TestPut => Put
    case TestPost => Post
    case TestDelete => Delete
    case TestOptions => Options
    case TestPatch => Patch
  }

  /** Corrected, distinct helpers send distinct methods, so every helper's
      request is told apart by the router. */
  lemma TestMethodInjective(c1: Helper, c2: Helper)
    ensures TestMethod(c1) == TestMethod(c2) <==> c1 == c2
  {
  }

  /** What a helper call produces: the server's response, the error of a
      request that could not be built, or the error the server answered
      with. */
  datatype TestFailure = BuildFailed(build: BuildError) | ServerFailed(error: HttpError)

  /** A `test_*_with_headers` helper, for a map `verbs` from helpers to the
      method they send (`TestMethodAsWritten` or the corrected
      `TestMethod`): the request is built from the path, the body when the
      helper takes one, and the headers, then handed to `respond`; a build
      error is returned without reaching the server. */
  function RunHelper(verbs: Helper -> Method, c: Helper, path: string, body: Bytes, headers: seq<(string, string)>,
                     env: HttpTypes, respond: Request -> Result<Response, HttpError>): (r: Result<Response, TestFailure>)
    ensures var b := BuildRequest(verbs(c), path, if TakesBody(c) then Some(body) else None, Some(headers), env);
      && (b.Failure? ==> r == Failure(BuildFailed(b.error)))
      && (b.Success? ==> r.Success? == respond(b.value).Success?)
      && (b.Success? && r.Success? ==> r.value == respond(b.value).value)
      && (b.Success? ==>
            (b.value.verb == verbs(c)
             && (TakesBody(c) ==> b.value.body == body) && (!TakesBody(c) ==> b.value.body == [])))
  {
    var b := BuildRequest(verbs(c), path, if TakesBody(c) then Some(body) else None, Some(headers), env);
    match b
    case Failure(e) => Failure(BuildFailed(e))
    case Success(req) =>
      match respond(req)
      case Success(res) => Success(res)
      case Failure(e) => Failure(ServerFailed(e))
  }

  /** As written, running the HEAD helper is running the GET helper: any
      request it builds is a GET. With the corrected map it is a HEAD. */
  lemma HeadHelperRunsGet(path: string, body: Bytes, headers: seq<(string, string)>, env: HttpTypes,
                          respond: Request -> Result<Response, HttpError>)
    ensures RunHelper(TestMethodAsWritten, TestHead, path, body, headers, env, respond)
         == RunHelper(TestMethodAsWritten, TestGet, path, body, headers, env, respond)
    ensures var b := BuildRequest(TestMethod(TestHead), path, None, Some(headers), env);
      b.Success? ==> b.value.verb == Head
  {
    HeadHelperSendsGet(path, headers, env);
  }

  /** The helpers without `_with_headers` send no headers, so only the URL
      can make them fail, and a request built from them carries none. */
  lemma NoHeadersOnlyUrlFails(c: Helper, path: string, body: Bytes, env: HttpTypes)
    ensures var b := BuildRequest(TestMethod(c), path, if TakesBody(c) then Some(body) else None, Some([]), env);
      && (b.Success? <==> env.parseUrl(TestUrl(path)).Some?)
      && (b.Success? ==> b.value.headers == map[])
  {
  }
}
