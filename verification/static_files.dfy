/** Serving files from a directory: the request-era `ServeDir` endpoint and
    the static-file handler of the example application. A file-system path
    is a list of components; ".." stays a component until the operating
    system resolves it, which `Lexical` models. The file system itself, the
    percent decoder and the MIME guess are parameters.
 */
module StaticFiles {
  import opened Wrappers
  import opened Text
  import opened Http

  const ParentDir: string := ".."
  const CurDir: string := "."

  /** A `PathBuf`: whether it starts at the root, and its components. */
  datatype PathBuf = PathBuf(absolute: bool, comps: seq<string>)

  /** A component as `Path::components` yields it for a normal name. */
  predicate NormalComp(c: string) {
    c != "" && c != CurDir && c != ParentDir && '/' !in c
  }

  /** The pieces of a path that are neither empty nor ".". */
  function DropTrivial(parts: seq<string>): (r: seq<string>)
    ensures forall i :: 0 <= i < |r| ==> r[i] != "" && r[i] != CurDir && r[i] in parts
    ensures forall p :: p in parts && p != "" && p != CurDir ==> p in r
    decreases |parts|
  {
    if |parts| == 0 then []
    else if parts[0] == "" || parts[0] == CurDir then DropTrivial(parts[1..])
    else [parts[0]] + DropTrivial(parts[1..])
  }

  /** Pieces that are neither empty nor "." all survive. */
  lemma {:induction false} DropTrivialNames(parts: seq<string>)
    requires forall i :: 0 <= i < |parts| ==> parts[i] != "" && parts[i] != CurDir
    ensures DropTrivial(parts) == parts
    decreases |parts|
  {
    if |parts| > 0 {
      DropTrivialNames(parts[1..]);
      assert [parts[0]] + parts[1..] == parts;
    }
  }

  /** `Path::components` without the root: the '/'-separated pieces, with
      empty pieces and "." dropped. */
  function Components(s: string): (r: seq<string>)
    ensures forall i :: 0 <= i < |r| ==> r[i] != "" && r[i] != CurDir && '/' !in r[i]
  {
    var parts := Split(s, '/');
    var r := DropTrivial(parts);
    assert forall i :: 0 <= i < |r| ==> '/' !in r[i] by {
      forall i | 0 <= i < |r| ensures '/' !in r[i] {
        var j :| 0 <= j < |parts| && parts[j] == r[i];
      }
    }
    r
  }

  /** A relative path written "." or "./…" begins with a `CurDir`
      component: the one "." that `Path::components` keeps. */
  predicate LeadingCurDir(s: string) {
    s == CurDir || StartsWith(s, "./")
  }

  /** `Path::new(s)` as an owned path: a leading "." of a relative path is
      a component of its own, every other "." is dropped. */
  function PathOf(s: string): (p: PathBuf)
    ensures p.absolute <==> StartsWith(s, "/")
    ensures LeadingCurDir(s) <==> |p.comps| > 0 && p.comps[0] == CurDir
    ensures forall i :: 0 < i < |p.comps| ==> p.comps[i] != CurDir
    ensures p.comps[(if LeadingCurDir(s) then 1 else 0)..] == Components(s)
  {
    PathBuf(StartsWith(s, "/"), (if LeadingCurDir(s) then [CurDir] else []) + Components(s))
  }

  /** `PathBuf::push`: an absolute path replaces the buffer, a relative one
      is appended. */
  function Push(p: PathBuf, s: string): (r: PathBuf)
    ensures StartsWith(s, "/") ==> r == PathOf(s)
    ensures !StartsWith(s, "/") ==> r == PathBuf(p.absolute, p.comps + Components(s))
  {
    if StartsWith(s, "/") then PathOf(s) else PathBuf(p.absolute, p.comps + Components(s))
  }

  /** `PathBuf::pop`: drops the last component; a path without one is
      unchanged. */
  function Pop(p: PathBuf): (r: PathBuf)
    ensures r.absolute == p.absolute
    ensures |p.comps| > 0 ==> r.comps == p.comps[..|p.comps| - 1]
    ensures |p.comps| == 0 ==> r == p
  {
    if |p.comps| > 0 then p.(comps := p.comps[..|p.comps| - 1]) else p
  }

  /** `PathBuf::join`. */
  function JoinPath(base: PathBuf, p: PathBuf): (r: PathBuf)
    ensures p.absolute ==> r == p
    ensures !p.absolute ==> r == PathBuf(base.absolute, base.comps + p.comps)
  {
    if p.absolute then p else PathBuf(base.absolute, base.comps + p.comps)
  }

  /** `Path::starts_with`: a whole-component prefix. */
  predicate PathStartsWith(p: PathBuf, base: PathBuf) {
    p.absolute == base.absolute && |base.comps| <= |p.comps| && p.comps[..|base.comps|] == base.comps
  }

  /** How the operating system resolves ".." (no symbolic links): it
      removes the previous name; above the root it stays at the root, and
      at the start of a relative path it is kept. */
  function LexicalComps(absolute: bool, acc: seq<string>, comps: seq<string>): (r: seq<string>)
    decreases |comps|
  {
    if |comps| == 0 then acc
    else if comps[0] == ParentDir then
      var acc' := if |acc| > 0 && acc[|acc| - 1] != ParentDir then acc[..|acc| - 1]
                  else if absolute then acc
                  else acc + [ParentDir];
      LexicalComps(absolute, acc', comps[1..])
    else LexicalComps(absolute, acc + [comps[0]], comps[1..])
  }

  function Lexical(p: PathBuf): PathBuf {
    PathBuf(p.absolute, LexicalComps(p.absolute, [], p.comps))
  }

  /** A path without ".." resolves to itself. */
  lemma {:induction false} LexicalPlain(absolute: bool, acc: seq<string>, comps: seq<string>)
    requires forall i :: 0 <= i < |comps| ==> comps[i] != ParentDir
    ensures LexicalComps(absolute, acc, comps) == acc + comps
    decreases |comps|
  {
    if |comps| > 0 {
      LexicalPlain(absolute, acc + [comps[0]], comps[1..]);
      assert acc + [comps[0]] + comps[1..] == acc + comps;
    }
  }

  /** The file a path names lies inside the directory `root`. */
  predicate Inside(p: PathBuf, root: PathBuf) {
    PathStartsWith(Lexical(p), Lexical(root))
  }

  /** A path that extends `root` by names alone stays inside it, whatever
      `root` itself contains. */
  lemma PlainExtensionInside(root: PathBuf, names: seq<string>)
    requires forall i :: 0 <= i < |names| ==> names[i] != ParentDir
    ensures Inside(PathBuf(root.absolute, root.comps + names), root)
  {
    LexicalAppend(root.absolute, [], root.comps, names);
    var base := LexicalComps(root.absolute, [], root.comps);
    LexicalPlain(root.absolute, base, names);
    assert (base + names)[..|base|] == base;
  }

  /** Resolution proceeds left to right. */
  lemma {:induction false} LexicalAppend(absolute: bool, acc: seq<string>, a: seq<string>, b: seq<string>)
    ensures LexicalComps(absolute, acc, a + b) == LexicalComps(absolute, LexicalComps(absolute, acc, a), b)
    decreases |a|
  {
    if |a| == 0 {
      assert a + b == b;
    } else {
      assert (a + b)[0] == a[0] && (a + b)[1..] == a[1..] + b;
      var acc' := if a[0] == ParentDir then
                    (if |acc| > 0 && acc[|acc| - 1] != ParentDir then acc[..|acc| - 1]
                     else if absolute then acc
                     else acc + [ParentDir])
                  else acc + [a[0]];
      LexicalAppend(absolute, acc', a[1..], b);
    }
  }

  // ---------------------------------------------------------------------------
  // src/fs/serve_dir.rs

  datatype ServeDir = ServeDir(prefix: string, dir: PathBuf)

  /** `ServeDir::new`. */
  function NewServeDir(prefix: string, dir: string): (s: ServeDir)
    ensures s.prefix == prefix && s.dir == PathOf(dir)
  {
    ServeDir(prefix, PathOf(dir))
  }

  /** The loop of `resolve_path`: "." is skipped (`Components` has dropped
      it), ".." pops, which also removes a leading "." of `dir`, and a name
      is pushed. */
  function Walk(p: PathBuf, comps: seq<string>): (r: PathBuf)
    requires forall i :: 0 <= i < |comps| ==> '/' !in comps[i]
    ensures r.absolute == p.absolute
    decreases |comps|
  {
    if |comps| == 0 then p
    else if comps[0] == ParentDir then Walk(Pop(p), comps[1..])
    else Walk(p.(comps := p.comps + [comps[0]]), comps[1..])
  }

  /** The request path with the mount prefix (every leading repetition of
      it) and then the leading '/'s removed. */
  function RelativePath(s: ServeDir, urlPath: string): string {
    TrimStartChar(TrimStartMatches(urlPath, s.prefix), '/')
  }

  /** `resolve_path`: the walk from `dir`, refused unless it ends below
      `dir`. */
  function ResolvePath(s: ServeDir, urlPath: string): (r: Option<PathBuf>)
    ensures r.Some? ==> PathStartsWith(r.value, s.dir)
    ensures r.Some? <==> PathStartsWith(Walk(s.dir, Components(RelativePath(s, urlPath))), s.dir)
  {
    var fp := Walk(s.dir, Components(RelativePath(s, urlPath)));
    if PathStartsWith(fp, s.dir) then Some(fp) else None
  }

  /** A walk over names alone appends them. */
  lemma {:induction false} WalkPlain(p: PathBuf, comps: seq<string>)
    requires forall i :: 0 <= i < |comps| ==> '/' !in comps[i] && comps[i] != ParentDir
    ensures Walk(p, comps) == PathBuf(p.absolute, p.comps + comps)
    decreases |comps|
  {
    if |comps| > 0 {
      WalkPlain(p.(comps := p.comps + [comps[0]]), comps[1..]);
      assert p.comps + [comps[0]] + comps[1..] == p.comps + comps;
    }
  }

  /** From index `n` on, a path has no "..". */
  predicate CleanFrom(p: PathBuf, n: nat) {
    forall i :: n <= i < |p.comps| ==> p.comps[i] != ParentDir
  }

  /** A walk never pushes "..", so a path clean from `n` stays clean from
      `n` however far the walk pops and pushes. */
  lemma {:induction false} WalkClean(p: PathBuf, comps: seq<string>, n: nat)
    requires forall i :: 0 <= i < |comps| ==> '/' !in comps[i]
    requires CleanFrom(p, n)
    ensures CleanFrom(Walk(p, comps), n)
    decreases |comps|
  {
    if |comps| > 0 {
      if comps[0] == ParentDir {
        WalkClean(Pop(p), comps[1..], n);
      } else {
        WalkClean(p.(comps := p.comps + [comps[0]]), comps[1..], n);
      }
    }
  }

  /** What `resolve_path` hands out is safe: below `dir`, with no ".."
      after `dir`'s own components, so the file lies inside `dir`. A
      request path without ".." always resolves, to `dir` followed by its
      names. */
  lemma ResolveSafe(s: ServeDir, urlPath: string)
    ensures ResolvePath(s, urlPath).Some? ==> Inside(ResolvePath(s, urlPath).value, s.dir)
    ensures (forall i :: 0 <= i < |Components(RelativePath(s, urlPath))| ==> Components(RelativePath(s, urlPath))[i] != ParentDir) ==>
      ResolvePath(s, urlPath) == Some(PathBuf(s.dir.absolute, s.dir.comps + Components(RelativePath(s, urlPath))))
  {
    var comps := Components(RelativePath(s, urlPath));
    if ResolvePath(s, urlPath).Some? {
      WalkInside(s.dir, comps);
    }
    if forall i :: 0 <= i < |comps| ==> comps[i] != ParentDir {
      WalkPlain(s.dir, comps);
      assert (s.dir.comps + comps)[..|s.dir.comps|] == s.dir.comps;
    }
  }

  /** A walk from `dir` that ends below `dir` ends inside it. */
  lemma WalkInside(dir: PathBuf, comps: seq<string>)
    requires forall i :: 0 <= i < |comps| ==> '/' !in comps[i]
    requires PathStartsWith(Walk(dir, comps), dir)
    ensures Inside(Walk(dir, comps), dir)
  {
    var r := Walk(dir, comps);
    WalkClean(dir, comps, |dir.comps|);
    var names := r.comps[|dir.comps|..];
    assert r.comps == dir.comps + names;
    PlainExtensionInside(dir, names);
  }

  /** Below its mount prefix, a request path loses the prefix and then its
      leading '/'s. */
  lemma RelativeAfterPrefix(s: ServeDir, rest: string)
    requires s.prefix != "" && !StartsWith(rest, s.prefix)
    ensures RelativePath(s, s.prefix + rest) == TrimStartChar(rest, '/')
  {
    TrimStartMatchesOnce(s.prefix, rest);
  }

  /** Below its mount prefix and one '/', a relative rest is what is
      walked. */
  lemma RelativeAfterSlash(s: ServeDir, rel: string)
    requires s.prefix != "" && !StartsWith("/" + rel, s.prefix)
    requires |rel| > 0 && rel[0] != '/'
    ensures RelativePath(s, s.prefix + ("/" + rel)) == rel
  {
    RelativeAfterPrefix(s, "/" + rel);
    assert ("/" + rel)[1..] == rel;
  }

  /** The components of "<a>/<b>/<c>/<d>" for names or "..". */
  lemma FourComponents(a: string, b: string, c: string, d: string)
    requires NormalComp(a) || a == ParentDir
    requires NormalComp(b) || b == ParentDir
    requires NormalComp(c) && NormalComp(d)
    ensures Components(a + "/" + b + "/" + c + "/" + d) == [a, b, c, d]
  {
    assert '/' !in ParentDir;
    SplitFour(a, b, c, d, '/');
    DropTrivialNames([a, b, c, d]);
  }

  /** "." is a directory of one `CurDir` component. */
  lemma PathOfCurDir()
    ensures PathOf(CurDir) == PathBuf(false, [CurDir])
  {
    assert '/' !in CurDir;
    assert Split(CurDir, '/') == [CurDir];
    assert DropTrivial([CurDir]) == DropTrivial([]);
    assert Components(CurDir) == [];
    assert !StartsWith(CurDir, "/") by { assert CurDir[..1][0] != "/"[0]; }
  }

  /** "./<d>" keeps its leading "." before the name. */
  lemma PathOfDotName(d: string)
    requires NormalComp(d)
    ensures PathOf("./" + d) == PathBuf(false, [CurDir, d])
  {
    var u := "./" + d;
    assert u == CurDir + ['/'] + d;
    SplitTwo(CurDir, d, '/');
    assert u[..2] == "./";
    PathOfDotSplit(u, [d]);
  }

  /** "./<d1>/<d2>" keeps its leading "." before the names. */
  lemma PathOfDotNames(d1: string, d2: string)
    requires NormalComp(d1) && NormalComp(d2)
    ensures PathOf("./" + d1 + "/" + d2) == PathBuf(false, [CurDir, d1, d2])
  {
    var u := "./" + d1 + "/" + d2;
    DotNamesSplit(d1, d2);
    assert u[..2] == "./";
    PathOfDotSplit(u, [d1, d2]);
  }

  lemma DotNamesSplit(d1: string, d2: string)
    requires NormalComp(d1) && NormalComp(d2)
    ensures Split("./" + d1 + "/" + d2, '/') == [CurDir, d1, d2]
  {
    assert "./" + d1 + "/" + d2 == CurDir + ['/'] + d1 + ['/'] + d2;
    SplitThree(CurDir, d1, d2, '/');
  }

  /** A path "./…" whose other pieces are names is "." and those names. */
  lemma PathOfDotSplit(u: string, names: seq<string>)
    requires StartsWith(u, "./")
    requires Split(u, '/') == [CurDir] + names
    requires forall i :: 0 <= i < |names| ==> NormalComp(names[i])
    ensures PathOf(u) == PathBuf(false, [CurDir] + names)
  {
    DropTrivialNames(names);
    assert ([CurDir] + names)[1..] == names;
    assert !StartsWith(u, "/") by { assert u[..1][0] != "/"[0]; }
  }

  /** Under ".", a lone ".." pops the "." and leaves the empty path, which
      does not start with "."; the walk is refused. */
  lemma DotDirParentRefusedFrom(prefix: string)
    requires prefix != "" && !StartsWith(ParentDir, prefix)
    ensures NewServeDir(prefix, CurDir).dir == PathBuf(false, [CurDir])
    ensures ResolvePath(NewServeDir(prefix, CurDir), prefix + ParentDir) == None
  {
    var s := NewServeDir(prefix, CurDir);
    PathOfCurDir();
    RelativeAfterPrefix(s, ParentDir);
    ComponentsOfName(ParentDir);
    assert Walk(s.dir, [ParentDir]) == Walk(PathBuf(false, []), []);
  }

  /** Under a directory "./<d>", a request whose components are
      "../../<d>/<x>" climbs out through the leading "." and back into <d>.
      The result no longer starts with ".", so it is refused although it
      names a file below <d>. */
  lemma PopThroughDotRefusedFrom(s: ServeDir, urlPath: string, d: string, x: string)
    requires NormalComp(d) && NormalComp(x)
    requires s.dir == PathBuf(false, [CurDir, d])
    requires Components(RelativePath(s, urlPath)) == [ParentDir, ParentDir, d, x]
    ensures ResolvePath(s, urlPath) == None
  {
    DotWalkOut(d, x);
    var r := Walk(s.dir, [ParentDir, ParentDir, d, x]);
    assert r.comps[0] != s.dir.comps[0];
    assert !PathStartsWith(r, s.dir);
  }

  /** The walk of "../../<d>/<x>" from "./<d>". */
  lemma DotWalkOut(d: string, x: string)
    requires NormalComp(d) && NormalComp(x)
    ensures Walk(PathBuf(false, [CurDir, d]), [ParentDir, ParentDir, d, x]) == PathBuf(false, [d, x])
  {
    var dir := PathBuf(false, [CurDir, d]);
    var cs := [ParentDir, ParentDir, d, x];
    ParentWalk(dir, cs);
    var top := PathBuf(false, [CurDir]);
    assert Pop(dir) == top;
    ParentWalk(top, cs[1..]);
    assert Pop(top) == PathBuf(false, []);
    assert cs[1..][1..] == [d, x];
    WalkPlain(PathBuf(false, []), [d, x]);
  }

  /** A walk starting with ".." pops first. */
  lemma ParentWalk(p: PathBuf, comps: seq<string>)
    requires |comps| > 0 && comps[0] == ParentDir
    requires forall i :: 0 <= i < |comps| ==> '/' !in comps[i]
    ensures Walk(p, comps) == Walk(Pop(p), comps[1..])
  {
  }

  /** The example of the doc comment: under "./build/assets" mounted at
      "/static", "/static/index.html" is build/assets/index.html below the
      working directory, the leading "." kept. */
  lemma ServeDirDocExample()
    ensures NewServeDir("/static", "./build/assets").dir == PathBuf(false, [CurDir, "build", "assets"])
    ensures ResolvePath(NewServeDir("/static", "./build/assets"), "/static/index.html")
      == Some(PathBuf(false, [CurDir, "build", "assets", "index.html"]))
  {
    var s := NewServeDir("/static", "./build/assets");
    DocExampleDir();
    DocExampleRelative(s);
    ComponentsOfName("index.html");
    ResolveName(s, "/static/index.html", "index.html");
    assert [CurDir, "build", "assets"] + ["index.html"] == [CurDir, "build", "assets", "index.html"];
  }

  /** A request naming one file below the directory resolves to it. */
  lemma ResolveName(s: ServeDir, urlPath: string, f: string)
    requires NormalComp(f) && Components(RelativePath(s, urlPath)) == [f]
    ensures ResolvePath(s, urlPath) == Some(PathBuf(s.dir.absolute, s.dir.comps + [f]))
  {
    WalkPlain(s.dir, [f]);
    assert (s.dir.comps + [f])[..|s.dir.comps|] == s.dir.comps;
  }

  lemma DocExampleDir()
    ensures PathOf("./build/assets") == PathBuf(false, [CurDir, "build", "assets"])
  {
    assert NormalComp("build") && NormalComp("assets");
    PathOfDotNames("build", "assets");
    assert "./build/assets" == "./" + "build" + "/" + "assets";
  }

  lemma DocExampleRelative(s: ServeDir)
    requires s.prefix == "/static"
    ensures RelativePath(s, "/static/index.html") == "index.html"
    ensures NormalComp("index.html")
  {
    assert NormalComp("index.html");
    DocExampleUrl();
    RelativeAfterSlash(s, "index.html");
  }

  lemma DocExampleUrl()
    ensures "/static/index.html" == "/static" + ("/" + "index.html")
    ensures !StartsWith("/" + "index.html", "/static")
  {
    assert ("/" + "index.html")[..7][1] != "/static"[1];
  }

  /** Under ".", the request "/s.." mounted at "/s" is refused. */
  lemma DotDirParentRefused()
    ensures ResolvePath(NewServeDir("/s", CurDir), "/s..") == None
  {
    assert !StartsWith(ParentDir, "/s") by { assert ParentDir[..2][0] != "/s"[0]; }
    DotDirParentRefusedFrom("/s");
    assert "/s" + ParentDir == "/s..";
  }

  /** So the endpoint under "." answers "/s.." with 403. */
  lemma DotDirParentForbidden(req: Request, read: PathBuf -> Option<Bytes>, guess: PathBuf -> string)
    requires req.url.path == "/s.."
    ensures ServeDirCall(NewServeDir("/s", CurDir), req, read, guess).value.status == Forbidden
  {
    DotDirParentRefused();
  }

  /** Under "./build", the request "/s/../../build/x" mounted at "/s" is
      refused. */
  lemma PopThroughDotRefused()
    ensures NewServeDir("/s", "./build").dir == PathBuf(false, [CurDir, "build"])
    ensures ResolvePath(NewServeDir("/s", "./build"), "/s/../../build/x") == None
  {
    var s := NewServeDir("/s", "./build");
    PopThroughDir();
    PopThroughRelative(s);
    PopThroughComponents();
    PopThroughDotRefusedFrom(s, "/s/../../build/x", "build", "x");
  }

  lemma PopThroughDir()
    ensures PathOf("./build") == PathBuf(false, [CurDir, "build"])
    ensures NormalComp("build") && NormalComp("x")
  {
    assert NormalComp("build") && NormalComp("x");
    PathOfDotName("build");
    assert "./build" == "./" + "build";
  }

  lemma PopThroughRelative(s: ServeDir)
    requires s.prefix == "/s"
    ensures RelativePath(s, "/s/../../build/x") == "../../build/x"
  {
    PopThroughUrl();
    RelativeAfterSlash(s, "../../build/x");
  }

  lemma PopThroughUrl()
    ensures "/s/../../build/x" == "/s" + ("/" + "../../build/x")
    ensures !StartsWith("/" + "../../build/x", "/s")
  {
    assert ("/" + "../../build/x")[..2][1] != "/s"[1];
  }

  lemma PopThroughComponents()
    ensures Components("../../build/x") == [ParentDir, ParentDir, "build", "x"]
  {
    assert NormalComp("build") && NormalComp("x");
    FourComponents(ParentDir, ParentDir, "build", "x");
    assert "../../build/x" == ParentDir + "/" + ParentDir + "/" + "build" + "/" + "x";
  }

  /** `Endpoint::call`: 403 for a refused path, 404 when the file cannot
      be read, otherwise 200 with the file as body and the content type
      the body guesses from the name. */
  function ServeDirCall(s: ServeDir, req: Request, read: PathBuf -> Option<Bytes>, guess: PathBuf -> string): (r: Result<Response, HttpError>)
    ensures r.Success?
    ensures ResolvePath(s, req.url.path).None? <==> r.value.status == Forbidden
    ensures r.value.status == OK ==>
      (ResolvePath(s, req.url.path).Some? && read(ResolvePath(s, req.url.path).value).Some?
       && r.value.body == read(ResolvePath(s, req.url.path).value).value)
  {
    match ResolvePath(s, req.url.path)
    case None => Success(EmptyResponse(Forbidden))
    case Some(p) =>
      match read(p)
      case None => Success(EmptyResponse(NotFound))
      case Some(b) => Success(Response(OK, map["content-type" := [guess(p)]], b))
  }

  // ---------------------------------------------------------------------------
  // examples/staticfile.rs

  /** `normalize` as written: each normal component is percent-decoded and
      the decoded text pushed, so an encoded "..", or a decoded '/', takes
      effect only after the ".." handling. */
  function NormalizeAsWritten(path: string, decode: string -> string): (r: PathBuf)
  {
    FoldAsWritten(PathBuf(false, []), Components(path), decode)
  }

  function FoldAsWritten(acc: PathBuf, comps: seq<string>, decode: string -> string): PathBuf
    decreases |comps|
  {
    if |comps| == 0 then acc
    else if comps[0] == ParentDir then FoldAsWritten(Pop(acc), comps[1..], decode)
    else FoldAsWritten(Push(acc, decode(comps[0])), comps[1..], decode)
  }

  /** `get_path` as written. */
  function GetPathAsWritten(root: PathBuf, path: string, decode: string -> string): PathBuf {
    JoinPath(root, NormalizeAsWritten(path, decode))
  }

  /** A single name is its own only component. */
  lemma ComponentsOfName(c: string)
    requires NormalComp(c) || c == ParentDir
    ensures Components(c) == [c]
  {
    assert Split(c, '/') == [c];
    assert DropTrivial([c]) == [c] + DropTrivial([]);
  }

  /** A two-name absolute request path has those two names as components. */
  lemma TwoComponents(a: string, b: string)
    requires NormalComp(a) && NormalComp(b)
    ensures Components("/" + a + "/" + b) == [a, b]
  {
    assert "/" + a + "/" + b == "" + ['/'] + a + ['/'] + b;
    SplitThree("", a, b, '/');
    var parts := ["", a, b];
    assert parts[1..] == [a, b];
    assert parts[1..][1..] == [b];
    assert DropTrivial([b]) == [b] + DropTrivial([]);
    assert DropTrivial([a, b]) == [a] + DropTrivial([b]);
  }

  /** As written, a component that decodes to ".." is pushed as "..", and
      a following name after it. */
  lemma NormalizeAsWrittenParent(a: string, b: string, decode: string -> string)
    requires NormalComp(a) && NormalComp(b)
    requires decode(a) == ParentDir && decode(b) == b
    ensures NormalizeAsWritten("/" + a + "/" + b, decode) == PathBuf(false, [ParentDir, b])
  {
    TwoComponents(a, b);
    ComponentsOfName(ParentDir);
    ComponentsOfName(b);
    assert !StartsWith(ParentDir, "/") && !StartsWith(b, "/");
    var n1 := Push(PathBuf(false, []), ParentDir);
    assert n1 == PathBuf(false, [ParentDir]);
    var n2 := Push(n1, b);
    assert n2 == PathBuf(false, [ParentDir, b]);
    var comps := [a, b];
    assert comps[1..] == [b] && comps[1..][1..] == [];
    assert FoldAsWritten(PathBuf(false, []), comps, decode) == FoldAsWritten(n1, [b], decode);
    assert FoldAsWritten(n1, [b], decode) == FoldAsWritten(n2, [], decode);
  }

  /** A root of two names, joined with "../b", resolves to the sibling `b`
      of the root's last name. */
  lemma SiblingLexical(r1: string, r2: string, b: string)
    requires NormalComp(r1) && NormalComp(r2) && NormalComp(b)
    ensures LexicalComps(false, [], [r1, r2]) == [r1, r2]
    ensures LexicalComps(false, [], [r1, r2, ParentDir, b]) == [r1, b]
  {
    LexicalPlain(false, [], [r1, r2]);
    LexicalAppend(false, [], [r1, r2], [ParentDir, b]);
    assert [r1, r2] + [ParentDir, b] == [r1, r2, ParentDir, b];
    var c := [ParentDir, b];
    assert c[1..] == [b] && c[1..][1..] == [];
    var acc := [r1, r2];
    assert acc[..|acc| - 1] == [r1];
    assert LexicalComps(false, [r1], [b]) == LexicalComps(false, [r1, b], []);
  }

  /** The escape in general: a root of two names, and a request
      "/<a>/<b>" whose `a` decodes to "..". The joined path starts with the
      root component by component, yet resolves outside it. */
  lemma {:induction false} EncodedParentEscapesFrom(r1: string, r2: string, a: string, b: string, decode: string -> string)
    requires NormalComp(r1) && NormalComp(r2) && NormalComp(a) && NormalComp(b) && r2 != b
    requires decode(a) == ParentDir && decode(b) == b
    ensures var root := PathBuf(false, [r1, r2]);
      var p := GetPathAsWritten(root, "/" + a + "/" + b, decode);
      && p == PathBuf(false, [r1, r2, ParentDir, b])
      && PathStartsWith(p, root)
      && Lexical(p) == PathBuf(false, [r1, b])
      && !Inside(p, root)
  {
    NormalizeAsWrittenParent(a, b, decode);
    SiblingLexical(r1, r2, b);
    var root := PathBuf(false, [r1, r2]);
    var p := GetPathAsWritten(root, "/" + a + "/" + b, decode);
    assert p.comps == [r1, r2] + [ParentDir, b];
    assert [r1, r2, ParentDir, b][..2] == [r1, r2];
    assert [r1, b][..2] != [r1, r2] by {
      assert [r1, b][..2][1] == b;
    }
  }

  /** The guard of `handle_path` does not keep requests inside the root:
      with the example's root "examples/static", "/%2E%2E/secret"
      normalizes to "../secret", passes the guard, and the operating system
      resolves it to "examples/secret", outside the root. */
  lemma EncodedParentEscapes(decode: string -> string)
    requires decode("%2E%2E") == ".." && decode("secret") == "secret"
    ensures var root := PathBuf(false, ["examples", "static"]);
      var p := GetPathAsWritten(root, "/%2E%2E/secret", decode);
      && p == PathBuf(false, ["examples", "static", ParentDir, "secret"])
      && PathStartsWith(p, root)
      && !Inside(p, root)
  {
    assert NormalComp("examples") && NormalComp("static") && NormalComp("%2E%2E") && NormalComp("secret");
    assert "static" != "secret";
    assert "/%2E%2E/secret" == "/" + "%2E%2E" + "/" + "secret";
    EncodedParentEscapesFrom("examples", "static", "%2E%2E", "secret", decode);
  }

  /** The normalization the comment in `handle_path` evidently intends:
      decode first, then apply "." and ".." to the decoded components, and
      never let a decoded '/' make the path absolute. */
  function Normalize(path: string, decode: string -> string): (r: PathBuf)
    ensures !r.absolute
    ensures forall i :: 0 <= i < |r.comps| ==> NormalComp(r.comps[i])
  {
    Fold([], Components(path), decode)
  }

  function Fold(acc: seq<string>, comps: seq<string>, decode: string -> string): (r: PathBuf)
    requires forall i :: 0 <= i < |acc| ==> NormalComp(acc[i])
    ensures !r.absolute
    ensures forall i :: 0 <= i < |r.comps| ==> NormalComp(r.comps[i])
    decreases |comps|
  {
    if |comps| == 0 then PathBuf(false, acc)
    else
      var acc' := if comps[0] == ParentDir then (if |acc| > 0 then acc[..|acc| - 1] else acc)
                  else Apply(acc, Components(decode(comps[0])));
      Fold(acc', comps[1..], decode)
  }

  /** Applies decoded components: ".." pops, names are pushed. */
  function Apply(acc: seq<string>, comps: seq<string>): (r: seq<string>)
    requires forall i :: 0 <= i < |acc| ==> NormalComp(acc[i])
    requires forall i :: 0 <= i < |comps| ==> comps[i] != "" && comps[i] != CurDir && '/' !in comps[i]
    ensures forall i :: 0 <= i < |r| ==> NormalComp(r[i])
    decreases |comps|
  {
    if |comps| == 0 then acc
    else if comps[0] == ParentDir then Apply(if |acc| > 0 then acc[..|acc| - 1] else acc, comps[1..])
    else Apply(acc + [comps[0]], comps[1..])
  }

  /** `get_path` with the corrected normalization. */
  function GetPath(root: PathBuf, path: string, decode: string -> string): (p: PathBuf)
    ensures p == PathBuf(root.absolute, root.comps + Normalize(path, decode).comps)
  {
    JoinPath(root, Normalize(path, decode))
  }

  /** With the corrected normalization every request path, encoded or not,
      names a file inside the root, and the guard of `handle_path` always
      passes. */
  lemma NormalizedStaysInside(root: PathBuf, path: string, decode: string -> string)
    ensures PathStartsWith(GetPath(root, path, decode), root)
    ensures Inside(GetPath(root, path, decode), root)
  {
    var n := Normalize(path, decode).comps;
    assert (root.comps + n)[..|root.comps|] == root.comps;
    PlainExtensionInside(root, n);
  }

  /** The same request under the corrected normalization stays put: the
      decoded ".." has nothing to remove, and the request names `b` inside
      the root. */
  lemma EncodedParentContainedFrom(root: PathBuf, a: string, b: string, decode: string -> string)
    requires NormalComp(a) && NormalComp(b)
    requires decode(a) == ParentDir && decode(b) == b
    ensures GetPath(root, "/" + a + "/" + b, decode) == PathBuf(root.absolute, root.comps + [b])
  {
    TwoComponents(a, b);
    ComponentsOfName(ParentDir);
    ComponentsOfName(b);
    var c1 := [ParentDir];
    assert c1[1..] == [];
    assert Apply([], [ParentDir]) == [];
    var c2 := [b];
    assert c2[1..] == [];
    assert Apply([], [b]) == [b];
    var comps := [a, b];
    assert comps[1..] == [b] && comps[1..][1..] == [];
    assert Fold([], comps, decode) == Fold([], [b], decode);
    assert Fold([], [b], decode) == Fold([b], [], decode);
  }

  /** The example request under the corrected normalization. */
  lemma EncodedParentContained(decode: string -> string)
    requires decode("%2E%2E") == ".." && decode("secret") == "secret"
    ensures GetPath(PathBuf(false, ["examples", "static"]), "/%2E%2E/secret", decode) ==
      PathBuf(false, ["examples", "static", "secret"])
  {
    assert NormalComp("%2E%2E") && NormalComp("secret");
    assert "/%2E%2E/secret" == "/" + "%2E%2E" + "/" + "secret";
    EncodedParentContainedFrom(PathBuf(false, ["examples", "static"]), "%2E%2E", "secret", decode);
    assert ["examples", "static"] + ["secret"] == ["examples", "static", "secret"];
  }

  /** `StaticFile`: the root, normalized like every request path. */
  datatype StaticFile = StaticFile(root: PathBuf)

  function NewStaticFile(path: string, decode: string -> string): (s: StaticFile)
    ensures s.root == Normalize(path, decode)
  {
    StaticFile(Normalize(path, decode))
  }

  /** What the file system says about a path. */
  datatype Meta = Meta(isDir: bool, len: nat)

  /** The file system and the helpers that read it: `listing` renders a
      directory page and may fail with an I/O error, `guess` is the MIME
      guess from the file name. */
  datatype FileSystem = FileSystem(
    meta: PathBuf -> Option<Meta>,
    read: PathBuf -> Bytes,
    listing: (string, PathBuf) -> Result<Bytes, string>,
    guess: PathBuf -> string)

  const NotFoundBody: string := "Oops! I can't find what you're looking for..."
  const ServerErrorBody: string := "I'm broken, apparently."
  const IndexFile: string := "index.html"

  /** The bytes of an ASCII page, one per character (a character beyond
      one byte, which the pages do not contain, becomes 0). */
  function AsciiPage(s: string): Bytes {
    seq(|s|, i requires 0 <= i < |s| => if (s[i] as int) < 256 then s[i] as int as byte else 0)
  }

  /** For ASCII text the page bytes are its UTF-8 encoding. */
  lemma AsciiPageUtf8(s: string)
    requires forall i :: 0 <= i < |s| ==> (s[i] as int) < 0x80
    ensures AsciiPage(s) == Utf8(s)
  {
    var a, b := AsciiPage(s), Utf8(s);
    assert |a| == |b|;
    forall i | 0 <= i < |s| ensures a[i] == b[i] {
    }
  }

  /** `not_found_res`. */
  function NotFoundResponse(): (r: Response)
    ensures r.status == NotFound && r.body == AsciiPage(NotFoundBody)
  {
    Response(NotFound, map["content-type" := [TextHtml]], AsciiPage(NotFoundBody))
  }

  /** `file_stream_res`: 200 with the guessed type and the size. */
  function FileResponse(fs: FileSystem, m: Meta, p: PathBuf): (r: Response)
    ensures r.status == OK && r.body == fs.read(p)
    ensures HeaderValue(r.headers, "content-length") == Some(Decimal(m.len))
  {
    Response(OK, map["content-type" := [fs.guess(p)], "content-length" := [Decimal(m.len)]], fs.read(p))
  }

  /** `handle_path`: outside the root or missing is 404; a directory asked
      for without a trailing '/' is redirected to it with 301; a directory
      serves its index.html if there is one and its listing otherwise; a
      file is streamed. Only the listing can fail. */
  function HandlePath(s: StaticFile, fs: FileSystem, actual: string, decode: string -> string): (r: Result<Response, string>)
  {
    ServePath(s, fs, actual, GetPath(s.root, actual, decode))
  }

  /** The body of `handle_path` once the request has been mapped to `p`. */
  function ServePath(s: StaticFile, fs: FileSystem, actual: string, p: PathBuf): (r: Result<Response, string>)
  {
    if !PathStartsWith(p, s.root) || fs.meta(p).None? then Success(NotFoundResponse())
    else
      var m := fs.meta(p).value;
      if m.isDir then
        if !EndsWith(actual, "/") then
          Success(Response(MovedPermanently, map["location" := [actual + "/"]], []))
        else
          var index := p.(comps := p.comps + [IndexFile]);
          match fs.meta(index)
          case Some(im) => Success(FileResponse(fs, im, index))
          case None =>
            match fs.listing(actual, p)
            case Success(html) => Success(Response(OK, map["content-type" := [TextHtml]], html))
            case Failure(e) => Failure(e)
      else Success(FileResponse(fs, m, p))
  }

  /** `serve_static_file` around a handler outcome: an I/O error becomes
      the 500 page. */
  function OrServerError(h: Result<Response, string>): Response {
    match h
    case Success(res) => res
    case Failure(_) => Response(InternalServerError, map["content-type" := [TextHtml]], AsciiPage(ServerErrorBody))
  }

  /** `serve_static_file` with the corrected normalization. */
  function ServeStaticFile(s: StaticFile, fs: FileSystem, actual: string, decode: string -> string): (r: Response)
  {
    OrServerError(HandlePath(s, fs, actual, decode))
  }

  /** `handle_path` as written, through the as-written `get_path`. */
  function HandlePathAsWritten(s: StaticFile, fs: FileSystem, actual: string, decode: string -> string): (r: Result<Response, string>)
  {
    ServePath(s, fs, actual, GetPathAsWritten(s.root, actual, decode))
  }

  /** `serve_static_file` as written. */
  function ServeStaticFileAsWritten(s: StaticFile, fs: FileSystem, actual: string, decode: string -> string): (r: Response)
  {
    OrServerError(HandlePathAsWritten(s, fs, actual, decode))
  }

  /** The handler's outcomes for a path below the root. */
  lemma ServePathSpec(s: StaticFile, fs: FileSystem, actual: string, p: PathBuf)
    requires PathStartsWith(p, s.root)
    ensures var r := OrServerError(ServePath(s, fs, actual, p));
      && (r.status == NotFound <==> fs.meta(p).None?)
      && (r.status == MovedPermanently <==> fs.meta(p).Some? && fs.meta(p).value.isDir && !EndsWith(actual, "/"))
      && (r.status == MovedPermanently ==> HeaderValue(r.headers, "location") == Some(actual + "/"))
      && (r.status == InternalServerError ==>
            fs.meta(p).Some? && fs.meta(p).value.isDir
            && fs.meta(p.(comps := p.comps + [IndexFile])).None? && fs.listing(actual, p).Failure?)
  {
    var h := ServePath(s, fs, actual, p);
    if fs.meta(p).None? {
      assert h == Success(NotFoundResponse());
    } else if fs.meta(p).value.isDir && !EndsWith(actual, "/") {
      assert h == Success(Response(MovedPermanently, map["location" := [actual + "/"]], []));
    } else if fs.meta(p).value.isDir {
      var index := p.(comps := p.comps + [IndexFile]);
      if fs.meta(index).Some? {
        assert h == Success(FileResponse(fs, fs.meta(index).value, index));
      } else if fs.listing(actual, p).Success? {
        assert h.Success? && h.value.status == OK;
      } else {
        assert h.Failure?;
      }
    } else {
      assert h == Success(FileResponse(fs, fs.meta(p).value, p));
    }
  }

  /** The handler's outcomes: it redirects exactly the directories asked
      for without a trailing '/', to the same path with one; it answers 404
      exactly for what the file system does not know; and it answers 500
      only when a directory listing fails. */
  lemma ServeStaticFileSpec(s: StaticFile, fs: FileSystem, actual: string, decode: string -> string)
    ensures var p := GetPath(s.root, actual, decode);
      var r := ServeStaticFile(s, fs, actual, decode);
      && (r.status == NotFound <==> fs.meta(p).None?)
      && (r.status == MovedPermanently <==> fs.meta(p).Some? && fs.meta(p).value.isDir && !EndsWith(actual, "/"))
      && (r.status == MovedPermanently ==> HeaderValue(r.headers, "location") == Some(actual + "/"))
      && (r.status == InternalServerError ==>
            fs.meta(p).Some? && fs.meta(p).value.isDir
            && fs.meta(p.(comps := p.comps + [IndexFile])).None? && fs.listing(actual, p).Failure?)
  {
    NormalizedStaysInside(s.root, actual, decode);
    ServePathSpec(s, fs, actual, GetPath(s.root, actual, decode));
  }

  /** Every file the handler reads, the requested one or a directory's
      index.html, lies inside the root. */
  lemma ServeStaticFileInside(s: StaticFile, actual: string, decode: string -> string)
    ensures var p := GetPath(s.root, actual, decode);
      Inside(p, s.root) && Inside(p.(comps := p.comps + [IndexFile]), s.root)
  {
    var p := GetPath(s.root, actual, decode);
    NormalizedStaysInside(s.root, actual, decode);
    var n := Normalize(actual, decode).comps;
    PlainExtensionInside(s.root, n + [IndexFile]);
    assert p.(comps := p.comps + [IndexFile]) == PathBuf(s.root.absolute, s.root.comps + (n + [IndexFile]));
  }

  /** The handler as written: 404 for a path that fails the guard or that
      the file system does not know, and otherwise the same outcomes as
      below the root. */
  lemma ServeStaticFileAsWrittenSpec(s: StaticFile, fs: FileSystem, actual: string, decode: string -> string)
    ensures var p := GetPathAsWritten(s.root, actual, decode);
      var r := ServeStaticFileAsWritten(s, fs, actual, decode);
      && (r.status == NotFound <==> !PathStartsWith(p, s.root) || fs.meta(p).None?)
      && (r.status == MovedPermanently <==>
            PathStartsWith(p, s.root) && fs.meta(p).Some? && fs.meta(p).value.isDir && !EndsWith(actual, "/"))
      && (r.status == MovedPermanently ==> HeaderValue(r.headers, "location") == Some(actual + "/"))
      && (r.status == InternalServerError ==>
            PathStartsWith(p, s.root) && fs.meta(p).Some? && fs.meta(p).value.isDir
            && fs.meta(p.(comps := p.comps + [IndexFile])).None? && fs.listing(actual, p).Failure?)
  {
    var p := GetPathAsWritten(s.root, actual, decode);
    if PathStartsWith(p, s.root) {
      ServePathSpec(s, fs, actual, p);
    } else {
      assert HandlePathAsWritten(s, fs, actual, decode) == Success(NotFoundResponse());
    }
  }

  /** The escape end to end: with the example's root, a file system that
      has a plain file at examples/static/../secret gets it streamed with
      200, although that path lies outside the root. */
  lemma AsWrittenServesOutside(fs: FileSystem, decode: string -> string, len: nat)
    requires decode("%2E%2E") == ".." && decode("secret") == "secret"
    requires fs.meta(PathBuf(false, ["examples", "static", ParentDir, "secret"])) == Some(Meta(false, len))
    ensures var root := PathBuf(false, ["examples", "static"]);
      var p := PathBuf(false, ["examples", "static", ParentDir, "secret"]);
      var r := ServeStaticFileAsWritten(StaticFile(root), fs, "/%2E%2E/secret", decode);
      && r.status == OK && r.body == fs.read(p)
      && !Inside(p, root)
  {
    var root := PathBuf(false, ["examples", "static"]);
    var p := PathBuf(false, ["examples", "static", ParentDir, "secret"]);
    EncodedParentEscapes(decode);
    assert HandlePathAsWritten(StaticFile(root), fs, "/%2E%2E/secret", decode) == Success(FileResponse(fs, Meta(false, len), p));
  }
}
