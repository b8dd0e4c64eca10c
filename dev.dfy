/**
  The dev server's HTTP routes and its file watcher. A request is answered by
  the first route that matches it; the answer is the sequence of calls the
  handler makes on the response object (set a header, send a body), and the
  disk is a map from absolute file name to contents.
*/
module Dev {
  import opened Wrappers
  import opened Text
  import opened Paths
  import opened Transform
  import Css
  import opened Protocol
  import opened WebSocketServer

  /** `req.path` and the names of the query parameters present in `req.query`. */
  datatype Request = Request(path: string, query: set<string>)

  /** The route that answers a request and, under `/target/`, the branch its handler takes. */
  datatype Handler =
    | IndexPage      // GET /
    | ClientRuntime  // GET /@vite/client
    | ImportStub     // GET under /target/ with an `import` query parameter
    | Script         // GET under /target/ ending in .js or .jsx
    | Svg            // GET under /target/ ending in .svg
    | Style          // GET under /target/ ending in .css
    | Unhandled      // GET under /target/ with any other extension
    | NoRoute        // no route matches

  const ClientPath: string := "/@vite/client"
  const TargetPrefix: string := "/target/"
  const JsType: string := "application/javascript"

  /** The branch of the `switch (extname(req.path))` in the `/target/` prefix handler. */
  function TargetHandler(ext: string): Handler {
    if ext == ".js" || ext == ".jsx" then Script
    else if ext == ".svg" then Svg
    else if ext == ".css" then Style
    else Unhandled
  }

  function Route(req: Request): Handler {
    if req.path == "/" then IndexPage
    else if req.path == ClientPath then ClientRuntime
    else if StartsWith(req.path, TargetPrefix) then
      if "import" in req.query then ImportStub else TargetHandler(Extname(req.path))
    else NoRoute
  }

  /** The handlers of the `/target/` prefix route. */
  predicate UnderTarget(h: Handler) {
    h == ImportStub || h == Script || h == Svg || h == Style || h == Unhandled
  }

  /**
    The `/target/` prefix route answers exactly the paths under `/target/`; the
    `import` flag takes precedence over the extension; scripts are the `.js`
    and `.jsx` files.
  */
  lemma RouteSpec(req: Request)
    ensures UnderTarget(Route(req)) <==> StartsWith(req.path, TargetPrefix)
    ensures Route(req) == ImportStub <==> StartsWith(req.path, TargetPrefix) && "import" in req.query
    ensures Route(req) == Script <==>
      StartsWith(req.path, TargetPrefix) && "import" !in req.query && (Extname(req.path) == ".js" || Extname(req.path) == ".jsx")
    ensures Route(req) == NoRoute <==> req.path != "/" && req.path != ClientPath && !StartsWith(req.path, TargetPrefix)
  {
    assert !StartsWith("/", TargetPrefix);
    assert !StartsWith(ClientPath, TargetPrefix) by {
      assert ClientPath[1] != TargetPrefix[1];
    }
  }

  // ---------------------------------------------------------------------------
  // Responses

  /** A call the handler makes on the response: `res.set(name, value)` or `res.send(body)`. */
  datatype Effect = SetHeader(name: string, value: string) | SendBody(body: Option<string>)

  /**
    How a handler ends other than normally: `readFileSync` throws on a missing
    file, the transpiler or the import rewriter throws, or no route matches (the framework's
    not-found answer).
  */
  datatype ServerError = ReadFailed(file: string) | TransformFailed | NotFound

  /** The calls made on the response, in order, and the error the handler ended with, if any. */
  datatype Response = Response(effects: seq<Effect>, error: Option<ServerError>)

  function ContentType(value: string): Effect {
    SetHeader("Content-Type", value)
  }

  /** The `target` directory next to the server's own directory `dir`. */
  function TargetRoot(dir: string): string {
    JoinAll([dir, "../target"])
  }

  /** The repository root: the directory above the server's own. */
  function RepoRoot(dir: string): string {
    JoinAll([dir, ".."])
  }

  /** `join(__dirname, '..', req.path.slice(1))`: the file a `/target/` prefix request reads. */
  function ServedFile(dir: string, path: string): string {
    JoinAll([dir, "..", Drop1(path)])
  }

  const ClientTag: string := "<script type=\"module\" src=\"" + ClientPath + "\"></script>"
  const HeadInsert: string := "<head>" + "\n  " + ClientTag

  /** The index page with the client runtime's script tag right after its first `<head>`, then trimmed. */
  function InjectClient(html: string): string {
    Trim(ReplaceFirst(html, "<head>", HeadInsert))
  }

  const StubPrefix: string := "export default \""

  /** The module an `?import` request gets: its default export is the request path. */
  function ImportStubBody(path: string): string {
    StubPrefix + path + "\""
  }

  /** The context the `/target/` prefix handler passes to the import rewriter: `appRoot` is the `target` directory. */
  function ScriptContext(dir: string, path: string, fs: map<string, string>): Context {
    Context(TargetRoot(dir), path, fs.Keys)
  }

  /**
    The context as intended: `appRoot` is the repository root, the directory
    the request paths, which start with `/target/`, are relative to.
  */
  function IntendedContext(dir: string, path: string, fs: map<string, string>): Context {
    Context(RepoRoot(dir), path, fs.Keys)
  }

  /** What the transpiler makes of the script a `/target/` prefix request reads. */
  function ScriptTranspiled(dir: string, fs: map<string, string>, transpile: (string, string) -> Option<Transpiled>,
                            req: Request): Option<Transpiled>
    requires ServedFile(dir, req.path) in fs
  {
    transpile(Drop1(Extname(req.path)), fs[ServedFile(dir, req.path)])
  }

  /** The import rewriter's pass over a script the disk holds and the transpiler accepts. */
  function ScriptScan(dir: string, fs: map<string, string>, transpile: (string, string) -> Option<Transpiled>,
                      seen: set<string>, req: Request): ScanState
    requires ServedFile(dir, req.path) in fs && ScriptTranspiled(dir, fs, transpile, req).Some?
  {
    Scan(ScriptContext(dir, req.path, fs), seen, ScriptTranspiled(dir, fs, transpile, req).value.segments)
  }

  /**
    The answer to `req` when the package map holds `seen`: what each route's
    handler does, step by step, up to the first error.
  */
  function Respond(dir: string, fs: map<string, string>, transpile: (string, string) -> Option<Transpiled>,
                   seen: set<string>, req: Request): Response
  {
    match Route(req)
    case IndexPage =>
      var f := Join(TargetRoot(dir), "index.html");
      if f !in fs then Response([], Some(ReadFailed(f)))
      else Response([ContentType("text/html"), SendBody(Some(InjectClient(fs[f])))], None)
    case ClientRuntime =>
      var f := Join(dir, "client.js");
      if f !in fs then Response([ContentType(JsType)], Some(ReadFailed(f)))
      else if transpile("js", fs[f]).None? then Response([ContentType(JsType)], Some(TransformFailed))
      else Response([ContentType(JsType), SendBody(Some(RenderAll(transpile("js", fs[f]).value.segments)))], None)
    case ImportStub =>
      Response([ContentType(JsType), SendBody(Some(ImportStubBody(req.path)))], None)
    case Script =>
      var f := ServedFile(dir, req.path);
      if f !in fs then Response([ContentType(JsType)], Some(ReadFailed(f)))
      else if ScriptTranspiled(dir, fs, transpile, req).None? then Response([ContentType(JsType)], Some(TransformFailed))
      else
        var st := ScriptScan(dir, fs, transpile, seen, req);
        if st.failed then Response([ContentType(JsType)], Some(TransformFailed))
        else Response([ContentType(JsType), SendBody(Some(RenderAll(st.out)))], None)
    case Svg =>
      var f := ServedFile(dir, req.path);
      if f !in fs then Response([ContentType("image/svg+xml")], Some(ReadFailed(f)))
      else Response([ContentType("image/svg+xml"), SendBody(Some(fs[f]))], None)
    case Style =>
      var f := ServedFile(dir, req.path);
      if f !in fs then Response([ContentType(JsType)], Some(ReadFailed(f)))
      else Response([ContentType(JsType), SendBody(Some(Css.TransformCssAsWritten(fs[f]))), SendBody(None)], None)
    case Unhandled => Response([], None)
    case NoRoute => Response([], Some(NotFound))
  }

  /** The request is a script on disk that the transpiler accepts, so the import rewriter runs. */
  predicate Rewrites(dir: string, fs: map<string, string>, transpile: (string, string) -> Option<Transpiled>, req: Request) {
    Route(req) == Script && ServedFile(dir, req.path) in fs && ScriptTranspiled(dir, fs, transpile, req).Some?
  }

  /** The package map after answering `req`: only a script request can add to it. */
  function SeenAfter(dir: string, fs: map<string, string>, transpile: (string, string) -> Option<Transpiled>,
                     seen: set<string>, req: Request): set<string>
  {
    if Rewrites(dir, fs, transpile, req) then ScriptScan(dir, fs, transpile, seen, req).seen
    else seen
  }

  /** The package lists a request hands to the bundler: none, or the new packages of one script. */
  function BatchesAfter(dir: string, fs: map<string, string>, transpile: (string, string) -> Option<Transpiled>,
                        seen: set<string>, req: Request): seq<seq<string>>
  {
    if Rewrites(dir, fs, transpile, req) then
      var st := ScriptScan(dir, fs, transpile, seen, req);
      if st.failed || st.queued == [] then [] else [st.queued]
    else []
  }

  // ---------------------------------------------------------------------------
  // Properties of the answers

  /** The content type each handler declares. */
  function MediaType(h: Handler): string {
    if h == IndexPage then "text/html" else if h == Svg then "image/svg+xml" else JsType
  }

  /**
    Every handler that sends anything sets the content type for its kind of file
    first, and only the CSS handler sends more than once; a path under
    `/target/` with an unknown extension is never answered.
  */
  lemma HeaderBeforeBody(dir: string, fs: map<string, string>, transpile: (string, string) -> Option<Transpiled>,
                         seen: set<string>, req: Request)
    ensures var r := Respond(dir, fs, transpile, seen, req);
      && (forall i :: 0 <= i < |r.effects| && r.effects[i].SendBody? ==> 0 < i && r.effects[0] == ContentType(MediaType(Route(req))))
      && (|r.effects| > 2 ==> Route(req) == Style)
      && (Route(req) == Unhandled ==> r == Response([], None))
  {
    var r := Respond(dir, fs, transpile, seen, req);
    match Route(req)
    case Script =>
      var f := ServedFile(dir, req.path);
      if f in fs && ScriptTranspiled(dir, fs, transpile, req).Some? {
        var st := ScriptScan(dir, fs, transpile, seen, req);
        assert r.effects == if st.failed then [ContentType(JsType)] else [ContentType(JsType), SendBody(Some(RenderAll(st.out)))];
      }
    case Style =>
    case _ =>
  }

  /** `path` can stand between double quotes in a script unescaped. */
  predicate PathLiteralSafe(path: string) {
    forall i :: 0 <= i < |path| ==> path[i] != '"' && path[i] != '\\' && path[i] != '\n' && path[i] != '\r'
  }

  lemma {:induction false} EscapeCssSafe(s: string)
    requires PathLiteralSafe(s)
    ensures Css.EscapeCss(s) == s
  {
    if s != [] {
      EscapeCssSafe(s[1..]);
      assert [s[0]] + s[1..] == s;
    }
  }

  /**
    An asset requested with `?import` is answered, whatever the disk holds, with
    a module whose default export is a string literal denoting the request path.
  */
  lemma ImportStubExportsPath(dir: string, fs: map<string, string>, transpile: (string, string) -> Option<Transpiled>,
                              seen: set<string>, req: Request)
    requires Route(req) == ImportStub && PathLiteralSafe(req.path)
    ensures var r := Respond(dir, fs, transpile, seen, req);
      && r.error.None? && |r.effects| == 2 && r.effects[0] == ContentType(JsType) && r.effects[1].SendBody?
      && r.effects[1].body.Some?
      && var b := r.effects[1].body.value;
         StartsWith(b, StubPrefix) && Css.ReadLiteral(b[|StubPrefix|..]) == Some((req.path, |b| - |StubPrefix|))
  {
    var p := req.path;
    var b := ImportStubBody(p);
    EscapeCssSafe(p);
    Css.ReadEscaped(p, "\"");
    Text.RemoveAllAbsent(p, '\n');
    ConcatAssoc(StubPrefix, p, "\"");
    DropPrefix(StubPrefix, p + "\"", 0);
    assert b[|StubPrefix|..] == p + "\"";
    assert b[..|StubPrefix|] == StubPrefix;
  }

  /** A `"<head>"` in the page survives with the client's script tag right after it, trimming or not. */
  lemma InjectKeepsInsert(html: string, k: nat)
    requires OccursAt(html, "<head>", k)
    ensures exists j: nat :: OccursAt(InjectClient(html), HeadInsert, j)
  {
    var k0 := IndexOf(html, "<head>").value;
    var s := html[..k0] + HeadInsert + html[k0 + 6..];
    assert ReplaceFirst(html, "<head>", HeadInsert) == s;
    var e := k0 + |HeadInsert|;
    assert s[k0..e] == HeadInsert;
    assert HeadInsert[0] == '<' && HeadInsert[|HeadInsert| - 1] == '>';
    var j := TrimKeepsInner(s, k0, e);
    assert OccursAt(Trim(s), HeadInsert, j);
    assert InjectClient(html) == Trim(s);
  }

  /**
    The index page is served as HTML holding the script tag of the client
    runtime, and the tag's source is the path the client route answers.
  */
  lemma IndexPageLoadsClient(dir: string, fs: map<string, string>, transpile: (string, string) -> Option<Transpiled>,
                             seen: set<string>, req: Request, k: nat)
    requires Route(req) == IndexPage
    requires Join(TargetRoot(dir), "index.html") in fs
    requires OccursAt(fs[Join(TargetRoot(dir), "index.html")], "<head>", k)
    ensures var r := Respond(dir, fs, transpile, seen, req);
      && r.error.None? && r.effects[0] == ContentType("text/html")
      && r.effects[1].SendBody? && r.effects[1].body.Some?
      && (exists j: nat :: OccursAt(r.effects[1].body.value, HeadInsert, j))
    ensures Route(Request(ClientPath, {})) == ClientRuntime
  {
    InjectKeepsInsert(fs[Join(TargetRoot(dir), "index.html")], k);
  }

  /**
    A stylesheet is served as the module the template builds around it, with
    its line feeds removed, and the handler then sends a second, empty body.
    When the stylesheet holds no `"`, `\\` or `\\r`, the module's default export
    is the stylesheet with its line feeds removed.
  */
  lemma StyleExportsStylesheet(dir: string, fs: map<string, string>, transpile: (string, string) -> Option<Transpiled>,
                               seen: set<string>, req: Request)
    requires Route(req) == Style && ServedFile(dir, req.path) in fs
    ensures var r := Respond(dir, fs, transpile, seen, req);
      var code := fs[ServedFile(dir, req.path)];
      && r.error.None? && |r.effects| == 3 && r.effects[0] == ContentType(JsType)
      && r.effects[1] == SendBody(Some(Css.Prefix + RemoveAll(code, '\n') + Css.Suffix)) && r.effects[2] == SendBody(None)
      && (Css.LiteralSafe(code) ==>
            var b := r.effects[1].body.value;
            Css.ReadLiteral(b[|Css.Prefix|..]).Some? && Css.ReadLiteral(b[|Css.Prefix|..]).value.0 == RemoveAll(code, '\n'))
  {
    var code := fs[ServedFile(dir, req.path)];
    if Css.LiteralSafe(code) {
      Css.AsWrittenExportedValue(code);
    }
  }

  /**
    A script is served rewritten: every matched double-quoted import carries its
    new specifier and everything else is unchanged. The request fails exactly
    when the transpiler rejects the script or the script has a matched
    single-quoted import.
  */
  lemma ScriptServesRewritten(dir: string, fs: map<string, string>, transpile: (string, string) -> Option<Transpiled>,
                              seen: set<string>, req: Request)
    requires Route(req) == Script && ServedFile(dir, req.path) in fs
    ensures var r := Respond(dir, fs, transpile, seen, req);
      var t := ScriptTranspiled(dir, fs, transpile, req);
      && |r.effects| > 0 && r.effects[0] == ContentType(JsType)
      && (t.None? ==> r == Response([ContentType(JsType)], Some(TransformFailed)))
      && (t.Some? ==>
            var segs := t.value.segments;
            && (r.error == Some(TransformFailed) <==> exists i :: 0 <= i < |segs| && Throws(segs[i]))
            && (r.error.None? ==>
                  r.effects == [ContentType(JsType), SendBody(Some(RenderAll(RewriteAll(ScriptContext(dir, req.path, fs), segs))))]))
  {
    ScriptAnswer(dir, fs, transpile, seen, req);
    var t := ScriptTranspiled(dir, fs, transpile, req);
    if t.Some? {
      var segs := t.value.segments;
      var ctx := ScriptContext(dir, req.path, fs);
      assert ScriptScan(dir, fs, transpile, seen, req) == Scan(ctx, seen, segs);
      ScanIsReference(ctx, seen, segs);
      ThrowsIff(segs);
    }
  }

  // ---------------------------------------------------------------------------
  // Which directory the `.js` fallback looks in

  /** `target/` followed by a clean relative path is itself clean. */
  lemma TargetRestClean(rest: string)
    requires IsCleanRelative(rest)
    ensures IsCleanRelative("target/" + rest)
    ensures var st := Split(rest); Split("target/" + rest) == ["target"] + st
  {
    assert "target/" + rest == "target" + "/" + rest;
    SplitConcat("target", rest);
    SplitNoSlashIsSingleton("target");
  }

  /**
    With the repository root as `appRoot`, the rewriter's existence checks look
    at exactly the files the `/target/` prefix route would serve: the `.js` fallback
    is taken when nothing, file or directory, is where the route would serve
    `from` from, and something is where it would serve `from + ".js"` from.
  */
  lemma FallbackChecksServedFiles(dir: string, path: string, fs: map<string, string>, from: string)
    requires IsAbsolute(dir) && IsAbsolute(from) && |from| > 1
    requires var st := Split(from[1..]); IsName(st[|st| - 1])
    ensures JsFallback(IntendedContext(dir, path, fs), from) <==>
      !Exists(fs.Keys, ServedFile(dir, from)) && Exists(fs.Keys, ServedFile(dir, from + ".js"))
  {
    var t := from[1..];
    var served := ServedFile(dir, from);
    assert Join(RepoRoot(dir), from) == served by {
      JoinParentAbsolute(dir, from);
    }
    assert ServedFile(dir, from + ".js") == served + ".js" by {
      assert Drop1(from + ".js") == t + ".js";
      JoinParentAppend(dir, t, ".js");
    }
    var ctx := IntendedContext(dir, path, fs);
    assert ctx.appRoot == RepoRoot(dir) && ctx.files == fs.Keys;
  }

  /**
    As written, the existence check for `/target/<rest>` looks at
    `<target>/target/<rest>`, while the route serves `/target/<rest>` from
    `<target>/<rest>`.
  */
  lemma AsWrittenChecksNestedTarget(dir: string, rest: string)
    requires IsAbsolute(dir) && IsCleanRelative(rest)
    ensures IsCleanAbsolute(TargetRoot(dir))
    ensures Join(ScriptContext(dir, "", map[]).appRoot, "/target/" + rest) == TargetRoot(dir) + "/target/" + rest
    ensures ServedFile(dir, "/target/" + rest) == TargetRoot(dir) + "/" + rest
  {
    ServedBelowTarget(dir, rest);
    var root := TargetRoot(dir);
    TargetRestClean(rest);
    JoinRootAbsolute(root, "target/" + rest);
    SlashTarget(rest);
    ConcatAssoc(root, "/", "target/" + rest);
  }

  lemma SlashTarget(rest: string)
    ensures "/" + ("target/" + rest) == "/target/" + rest
  {
    assert "/" + "target/" == "/target/";
  }

  /** The route serves `/target/<rest>` from `<rest>` below the `target` directory. */
  lemma ServedBelowTarget(dir: string, rest: string)
    requires IsAbsolute(dir) && IsCleanRelative(rest)
    ensures IsCleanAbsolute(TargetRoot(dir))
    ensures ServedFile(dir, "/target/" + rest) == TargetRoot(dir) + "/" + rest
  {
    assert "../target" == "../" + "target";
    JoinBelowSibling(dir, "target", rest, false);
    DropConcat("/target/", rest, 1);
    assert "/target/"[1..] == "target" + "/";
  }

  /**
    The consequence for an import of `./App` when only `App.js` exists under
    `target`: the intended context takes the `.js` fallback, the context the
    handler passes does not, so the browser is sent to a URL with no
    extension that the `/target/` prefix route leaves unanswered.
  */
  lemma AsWrittenSkipsJsFallback(dir: string, path: string, fs: map<string, string>, rest: string)
    requires IsAbsolute(dir) && IsCleanRelative(rest)
    requires !Exists(fs.Keys, ServedFile(dir, "/target/" + rest)) && ServedFile(dir, "/target/" + rest + ".js") in fs
    requires forall f :: f in fs ==> !StartsWith(f, TargetRoot(dir) + "/target/")
    ensures JsFallback(IntendedContext(dir, path, fs), "/target/" + rest)
    ensures !JsFallback(ScriptContext(dir, path, fs), "/target/" + rest)
  {
    CorrectedTakesJsFallback(dir, path, fs, rest);
    AsWrittenMissesJsFile(dir, path, fs, rest);
  }

  lemma CorrectedTakesJsFallback(dir: string, path: string, fs: map<string, string>, rest: string)
    requires IsAbsolute(dir) && IsCleanRelative(rest)
    requires !Exists(fs.Keys, ServedFile(dir, "/target/" + rest)) && ServedFile(dir, "/target/" + rest + ".js") in fs
    ensures JsFallback(IntendedContext(dir, path, fs), "/target/" + rest)
  {
    var x := "target/" + rest;
    var from := "/target/" + rest;
    TargetRestClean(rest);
    SlashTarget(rest);
    DropPrefix("/", x, 0);
    LastOfConcat(["target"], Split(rest));
    FallbackChecksServedFiles(dir, path, fs, from);
  }

  lemma AsWrittenMissesJsFile(dir: string, path: string, fs: map<string, string>, rest: string)
    requires IsAbsolute(dir) && IsCleanRelative(rest)
    requires forall f :: f in fs ==> !StartsWith(f, TargetRoot(dir) + "/target/")
    ensures !JsFallback(ScriptContext(dir, path, fs), "/target/" + rest)
  {
    AsWrittenChecksNestedTarget(dir, rest);
    var root := TargetRoot(dir);
    var base := root + "/target/";
    var p := base + rest + ".js";
    ConcatAssoc(base, rest, ".js");
    StartsWithConcat(base, rest + ".js");
    assert p + "/" == base + (rest + ".js" + "/");
    forall f | f in fs.Keys
      ensures !StartsWith(f, p + "/")
    {
      StartsWithShorter(f, base, rest + ".js" + "/");
    }
  }

  /** The answer to a script request, its new package map and its bundler batches, by the transpiler's outcome. */
  lemma ScriptAnswer(dir: string, fs: map<string, string>, transpile: (string, string) -> Option<Transpiled>,
                     seen: set<string>, req: Request)
    requires Route(req) == Script && ServedFile(dir, req.path) in fs
    ensures ScriptTranspiled(dir, fs, transpile, req).None? ==>
      && Respond(dir, fs, transpile, seen, req) == Response([ContentType(JsType)], Some(TransformFailed))
      && SeenAfter(dir, fs, transpile, seen, req) == seen
      && BatchesAfter(dir, fs, transpile, seen, req) == []
    ensures ScriptTranspiled(dir, fs, transpile, req).Some? ==>
      var st := ScriptScan(dir, fs, transpile, seen, req);
      && Respond(dir, fs, transpile, seen, req)
           == (if st.failed then Response([ContentType(JsType)], Some(TransformFailed))
               else Response([ContentType(JsType), SendBody(Some(RenderAll(st.out)))], None))
      && SeenAfter(dir, fs, transpile, seen, req) == st.seen
      && BatchesAfter(dir, fs, transpile, seen, req) == (if st.failed || st.queued == [] then [] else [st.queued])
  {
  }

  // ---------------------------------------------------------------------------
  // The server

  /** The running dev server: the package map of the rewriter and the HMR socket server. */
  class DevServer {
    /** `__dirname`: the directory holding the server's own modules. */
    const dir: string
    const cache: ModuleCache
    const ws: HmrSocketServer

    ghost predicate Valid()
      reads this, cache, ws
    {
      IsAbsolute(dir) && cache.Valid() && ws.Valid() && cache.appRoot == RepoRoot(dir)
    }

    /** `dev()`: the routes, the socket server with no connections, and an empty package map. */
    constructor (moduleDir: string)
      requires IsAbsolute(moduleDir)
      ensures Valid() && dir == moduleDir
      ensures fresh(cache) && fresh(ws)
      ensures cache.seen == {} && cache.bundled == [] && ws.clients == [] && ws.outbox == []
    {
      dir := moduleDir;
      cache := new ModuleCache(moduleDir);
      ws := new HmrSocketServer();
    }

    /**
      Answers one request with the disk in state `fs`. Only a script request
      touches the package map, and it bundles the packages it is the first to
      import.
    */
    method Handle(transpile: (string, string) -> Option<Transpiled>, fs: map<string, string>, req: Request)
      returns (resp: Response)
      requires Valid()
      modifies cache
      ensures Valid()
      ensures resp == Respond(dir, fs, transpile, old(cache.seen), req)
      ensures cache.seen == SeenAfter(dir, fs, transpile, old(cache.seen), req)
      ensures cache.bundled == old(cache.bundled) + BatchesAfter(dir, fs, transpile, old(cache.seen), req)
    {
      if Route(req) == Script && ServedFile(dir, req.path) in fs {
        ScriptAnswer(dir, fs, transpile, cache.seen, req);
        var r := cache.TransformJSX(transpile, TargetRoot(dir), req.path, fs[ServedFile(dir, req.path)], fs.Keys);
        match r
        case Failure(_) =>
          resp := Response([ContentType(JsType)], Some(TransformFailed));
        case Success(t) =>
          resp := Response([ContentType(JsType), SendBody(Some(t.code))], None);
      } else {
        resp := Respond(dir, fs, transpile, cache.seen, req);
      }
    }

    /** The watcher's `change` handler: the update for `file` goes to every open connection. */
    method OnChange(file: string, now: nat)
      requires Valid()
      modifies ws`outbox
      ensures Valid()
      ensures ws.outbox == old(ws.outbox) + Broadcast(ws.clients, Stringify(HmrUpdate(file, TargetRoot(dir), now)))
    {
      ws.HandleHmrUpdate(file, TargetRoot(dir), now);
    }
  }
}
