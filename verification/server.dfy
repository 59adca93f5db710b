/** `src/server.ts`: the middleware and route order of the application and
    its error middleware. One request is served against an `Environment`
    holding everything the handlers read from the outside world. */
module Server {
  import opened Wrappers
  import opened Text
  import opened PosixPath
  import opened Json
  import opened Http
  import opened JsNumber
  import opened Constants
  import opened ImageController
  import opened UploadController
  import opened AddTimestamps
  import opened TimeHandler
  import opened Metrics
  import opened Routes

  /** What the routes look at. `bodyError` is the failure `express.json()`
      reports for a malformed JSON body. */
  datatype Request = Request(verb: Method, path: string, query: ImageQuery, bodyError: Option<string>)

  /** What multer and the filesystem report for an upload request, and the
      `Math.random()` values that name the file. */
  datatype UploadInputs = UploadInputs(
    multerError: Option<string>, secret: QueryValue, file: Option<string>,
    draws: Draws, appendError: Option<string>)

  /** The outside world as one request sees it: the clock read by the
      timestamp wrapper, the two reads of `getTime`, the upload root and the
      files under it, the image library, the upload's inputs and the system
      figures of `/metrics`. */
  datatype Environment = Environment(
    now: int, timeIsoRead: int, timeUnixRead: int,
    root: string, entries: set<string>, sharp: Sharp,
    upload: UploadInputs, metrics: MetricsInputs)

  /** The upload handler's answer: the `filename` callback's stem is
      `generateRandomString(stringLength)` over the request's draws, and the
      secret is compared with the configured `secretKey`. */
  function UploadReply(env: Environment): Reply
  {
    var u := env.upload;
    HandleUpload(u.multerError, u.secret, u.file, Stem(u.draws), u.appendError, SecretKey).reply
  }

  /** The routes in registration order, the first match answering: GET
      `/metrics`, GET `/time`, the `/upload` router, then the image router
      (GET only). */
  function Dispatch(req: Request, env: Environment): (reply: Reply)
    ensures req.verb == Get && AtRoute(req.path, "/metrics") ==> reply == GetMetrics(env.metrics)
    ensures req.verb == Get && AtRoute(req.path, "/time") ==> reply == GetTime(env.timeIsoRead, env.timeUnixRead)
  {
    if req.verb == Get && AtRoute(req.path, "/metrics") then GetMetrics(env.metrics)
    else if req.verb == Get && AtRoute(req.path, "/time") then GetTime(env.timeIsoRead, env.timeUnixRead)
    else
      var fromUpload := match UploadMountPath(req.path)
        case Some(rest) => UploadRoute(req.verb, rest, UploadReply(env))
        case None => None;
      if fromUpload.Some? then fromUpload.value
      else if req.verb == Get && MatchImage(req.path).Some? then
        HandleImage(MatchImage(req.path).value, req.query, env.root, env.entries, env.sharp)
      else Unrouted
  }

  /** Some route accepts the request: a fixed GET route, the upload
      router's root (GET or POST), or the image pattern (GET). */
  predicate Routed(req: Request)
  {
    || (req.verb == Get && (AtRoute(req.path, "/metrics") || AtRoute(req.path, "/time")))
    || (UploadMountPath(req.path) == Some("/") && !req.verb.OtherMethod?)
    || (req.verb == Get && MatchImage(req.path).Some?)
  }

  /** A request goes unanswered exactly when no route accepts it: every
      handler that runs answers. */
  lemma UnroutedIffNoRoute(req: Request, env: Environment)
    ensures Dispatch(req, env) == Unrouted <==> !Routed(req)
  {
    if Routed(req) {
      RoutedAnswered(req, env);
    } else {
      UnroutedUnanswered(req, env);
    }
  }

  lemma RoutedAnswered(req: Request, env: Environment)
    requires Routed(req)
    ensures Dispatch(req, env) != Unrouted
  {
    if req.verb == Get && MatchImage(req.path).Some? {
      ImageAlwaysAnswers(MatchImage(req.path).value, req.query, env);
    }
    UploadAlwaysAnswers(env);
  }

  lemma UnroutedUnanswered(req: Request, env: Environment)
    requires !Routed(req)
    ensures Dispatch(req, env) == Unrouted
  {
  }

  lemma ImageAlwaysAnswers(params: ImageParams, query: ImageQuery, env: Environment)
    ensures HandleImage(params, query, env.root, env.entries, env.sharp) != Unrouted
  {
  }

  lemma UploadAlwaysAnswers(env: Environment)
    ensures UploadReply(env) != Unrouted
  {
  }

  /** The error middleware's answer. */
  function ErrorReply(err: string): Reply
  {
    JsonReply(500, map["error" := JBool(true), "status" := Str("Internal Server Error"),
                       "message" := Str(err)])
  }

  /** A request through the whole application: `express.json()` first; its
      error skips `addTimestamps` and every route and reaches the error
      middleware; otherwise the timestamp wrapper is installed and the routes
      are tried. */
  function Serve(req: Request, env: Environment): (reply: Reply)
    ensures req.bodyError.Some? ==> reply == ErrorReply(req.bodyError.value)
    ensures req.bodyError.None? && reply.JsonReply? ==>
      "timestamp" in reply.body && reply.body["timestamp"] == TimestampAt(env.now)
    ensures req.bodyError.None? && !reply.JsonReply? ==> reply == Dispatch(req, env)
  {
    if req.bodyError.Some? then ErrorReply(req.bodyError.value)
    else StampReply(Dispatch(req, env), env.now)
  }

  /** The body-parser error is the one JSON answer without a timestamp. */
  lemma BodyErrorUnstamped(req: Request, env: Environment)
    requires req.bodyError.Some?
    ensures Serve(req, env).JsonReply? && Serve(req, env).status == 500
    ensures "timestamp" !in Serve(req, env).body
  {
  }

  /** Every JSON answer of a route, the error bodies of the image and upload
      handlers included, carries the wrapper's timestamp and otherwise the
      handler's own keys and values. */
  lemma RouteJsonStamped(req: Request, env: Environment)
    requires req.bodyError.None? && Dispatch(req, env).JsonReply?
    ensures Serve(req, env) == JsonReply(Dispatch(req, env).status, Stamp(Dispatch(req, env).body, env.now))
  {
  }

  /** `/metrics` also fits the image pattern (as the name `metrics`), but its
      own route is registered first; it answers with `res.send`, so its
      `timestamp` is its own unshifted clock read. */
  lemma MetricsRouteFirst(req: Request, env: Environment)
    requires req.verb == Get && req.path == "/metrics" && req.bodyError.None?
    ensures MatchImage(req.path) == Some(ImageParams(None, "metrics"))
    ensures Serve(req, env) == GetMetrics(env.metrics)
    ensures env.metrics.failure.None? ==>
      Serve(req, env).payload.document["timestamp"] == JText([IsoTime(env.metrics.isoRead)])
  {
    assert req.path == ImagePath(ImageParams(None, "metrics"));
    MatchImageComplete(ImageParams(None, "metrics"));
  }

  /** GET `/time` answers through the wrapped `res.json`: its `timestamp` is
      the wrapper's reading plus one hour, while `timestamp_unix` is the
      handler's own reading. */
  lemma TimeRouteRestamped(req: Request, env: Environment)
    requires req.verb == Get && req.path == "/time" && req.bodyError.None?
    ensures Serve(req, env).JsonReply?
    ensures Serve(req, env).body["timestamp"] == JText([IsoTime(env.now + 3600000)])
    ensures Serve(req, env).body["timestamp_unix"] == JInt(UnixSeconds(env.timeUnixRead))
  {
  }

  /** The random router is never mounted: GET `/random` is the image route
      with no segment, answered 400 without looking at the files. */
  lemma RandomRouteUnmounted(req: Request, env: Environment)
    requires req.verb == Get && req.path == "/random" && req.bodyError.None?
    ensures Serve(req, env) == StampReply(NoImageReply(), env.now)
  {
    SingleNamePathRoutes(req.path, "random");
  }

  /** The `/upload` router answers at its root: GET redirects to `/`, which
      no route answers; POST uploads with the shipped key. */
  lemma UploadRoot(req: Request, env: Environment)
    requires req.path == "/upload"
    ensures req.verb == Get ==> Dispatch(req, env) == Redirect("/")
    ensures req.verb == Post ==> Dispatch(req, env) == UploadReply(env)
    ensures Dispatch(Request(Get, "/", req.query, None), env) == Unrouted
  {
    RootDoesNotMatch();
    assert !("/upload/" <= "/");
  }

  /** `/upload//` is the mount root too: GET redirects to `/` and POST
      uploads, exactly as for `/upload`. */
  lemma UploadDoubleSlashRoot(req: Request, env: Environment)
    requires req.path == "/upload//"
    ensures req.verb == Get ==> Dispatch(req, env) == Redirect("/")
    ensures req.verb == Post ==> Dispatch(req, env) == UploadReply(env)
    ensures !req.verb.OtherMethod? ==> Routed(req)
  {
    UploadMountDoubleSlash();
  }

  /** Below the mount root the upload router does not answer, and GET reaches
      the image handlers with the segment `upload`. */
  lemma UploadSubpathIsImage(req: Request, env: Environment, x: string)
    requires x != "" && '/' !in x && req.path == "/upload/" + x && req.verb == Get
    ensures Dispatch(req, env) == HandleImage(ImageParams(Some("upload"), x), req.query, env.root, env.entries, env.sharp)
  {
    UploadSubpathFallsThrough(x, Get, UploadReply(env));
    assert req.path != "/metrics" && req.path != "/time";
  }

  /** A GET of three segments `/a/b/name` reaches the image handlers with
      the segment `a/b`. */
  lemma NestedPathIsImage(req: Request, env: Environment, a: string, b: string, name: string)
    requires a != "" && a[0] != '/' && SingleLine(a) && SingleLine(b)
    requires name != "" && '/' !in name
    requires req.path == "/" + a + "/" + b + "/" + name && req.verb == Get
    ensures Dispatch(req, env) == HandleImage(ImageParams(Some(a + "/" + b), name), req.query, env.root, env.entries, env.sharp)
  {
    NestedPathRoutes(req.path, a, b, name);
  }

  /** A path whose first segment is empty (`//x.png`) reaches no handler,
      whatever the method. */
  lemma LeadingDoubleSlashUnrouted(req: Request, env: Environment, x: string)
    requires req.path == "//" + x
    ensures Dispatch(req, env) == Unrouted
  {
    LeadingDoubleSlashRoutes(req.path, x);
  }

  /** The URL an upload answers with is served back. Asked for with GET, its
      path `/i/<name>` reaches the image handlers with the segment `i`; the
      file they look up is the one multer stored, so the check passes and
      `sharp` reads that file. The URL is never escaped, so this holds only
      when the extension has no `?` or `#` (which would end the path) and
      no `%` (which Express would decode). */
  lemma UploadedUrlIsServed(req: Request, env: Environment, rs: seq<string>,
                            stem: string, originalName: string)
    requires |rs| >= 1 && AllPlain(rs) && env.root == AbsolutePath(rs)
    requires stem != "" && forall i :: 0 <= i < |stem| ==> IsStemChar(stem[i])
    requires var ext := ExtName(originalName); '?' !in ext && '#' !in ext && '%' !in ext
    requires StoredPath(env.root, StoredName(stem, originalName)) in env.entries
    requires req.verb == Get && FileUrl(StoredName(stem, originalName)) == "https://example.com" + req.path
    ensures Location(env.root, "i", StoredName(stem, originalName)) == StoredPath(env.root, StoredName(stem, originalName))
    ensures Dispatch(req, env) ==
      ResizeImage(ImageParams(Some("i"), StoredName(stem, originalName)), req.query, env.root, env.sharp)
  {
    var name := StoredName(stem, originalName);
    StoredNamePlain(stem, originalName);
    FileUrlOnOrigin(name);
    PathAfterOrigin(req.path, "/i/" + name);
    SharexLocation(rs, name);
    SharexRequest(req, env, name);
  }

  /** The path of a URL on the public origin. */
  lemma PathAfterOrigin(p: string, q: string)
    requires "https://example.com" + p == "https://example.com" + q
    ensures p == q
  {
    var o := "https://example.com";
    assert p == (o + p)[|o|..];
    assert q == (o + q)[|o|..];
  }

  /** After the first upload the index file exists, and GET
      `/i/uploads-i.txt` passes the existence check and goes to `sharp`;
      only before it is there is the answer the 404 whose `path` is
      `-i.txt`. */
  lemma IndexFileIsServed(req: Request, env: Environment, rs: seq<string>)
    requires |rs| >= 1 && AllPlain(rs) && env.root == AbsolutePath(rs) && SingleLine(env.root)
    requires req.verb == Get && req.path == "/i/uploads-i.txt"
    ensures IndexPath(env.root) in env.entries ==>
      Dispatch(req, env) == ResizeImage(ImageParams(Some("i"), "uploads-i.txt"), req.query, env.root, env.sharp)
    ensures IndexPath(env.root) !in env.entries ==> Dispatch(req, env) == NotFoundReply("-i.txt")
  {
    IndexLocation(rs);
    IndexErrorPath(rs);
    IndexRequest(req, env);
  }

  /** The 404 `path` for the index file is what follows its `uploads`. */
  lemma IndexErrorPath(rs: seq<string>)
    requires |rs| >= 1 && AllPlain(rs) && SingleLine(AbsolutePath(rs))
    ensures StripUploads(Location(AbsolutePath(rs), "i", "uploads-i.txt")) == "-i.txt"
  {
    assert "uploads-i.txt" == "uploads" + "-i.txt";
    assert SingleLine("i") && SingleLine("-i.txt");
    ErrorPathOfUploadsPrefixedName(rs, "i", "-i.txt");
  }

  /** The image handlers' location for `i/<name>` is the file multer stores
      as `<name>`. */
  lemma SharexLocation(rs: seq<string>, name: string)
    requires |rs| >= 1 && AllPlain(rs) && IsPlainSegment(name)
    ensures Location(AbsolutePath(rs), "i", name) == StoredPath(AbsolutePath(rs), name)
  {
    StoredInSharexDir(rs, name);
    LocationInSharexDir(rs, name);
  }

  /** The image handlers' location for `i/uploads-i.txt` is the index file. */
  lemma IndexLocation(rs: seq<string>)
    requires |rs| >= 1 && AllPlain(rs)
    ensures IndexPath(AbsolutePath(rs)) == Location(AbsolutePath(rs), "i", "uploads-i.txt")
  {
    IndexInSharexDir(rs);
    assert IsPlainSegment("uploads-i.txt");
    LocationInSharexDir(rs, "uploads-i.txt");
  }

  lemma LocationInSharexDir(rs: seq<string>, name: string)
    requires |rs| >= 1 && AllPlain(rs) && IsPlainSegment(name)
    ensures Location(AbsolutePath(rs), "i", name) == AbsolutePath(rs + ["i", name])
  {
    LocationUnderRoot(rs, "i", name);
    AbsoluteAppend(rs, "i");
    AbsoluteAppend(rs + ["i"], name);
    assert rs + ["i"] + [name] == rs + ["i", name];
  }

  /** GET `/i/uploads-i.txt` is a request for the name `uploads-i.txt`. */
  lemma IndexRequest(req: Request, env: Environment)
    requires req.verb == Get && req.path == "/i/uploads-i.txt"
    ensures var loc := Location(env.root, "i", "uploads-i.txt");
      && (loc in env.entries ==>
        Dispatch(req, env) == ResizeImage(ImageParams(Some("i"), "uploads-i.txt"), req.query, env.root, env.sharp))
      && (loc !in env.entries ==> Dispatch(req, env) == NotFoundReply(StripUploads(loc)))
  {
    assert IsPlainSegment("uploads-i.txt");
    assert req.path == "/i/" + "uploads-i.txt";
    SharexRequest(req, env, "uploads-i.txt");
  }

  /** GET `/i/<name>` reaches the image handlers with the segment `i`, which
      is not blank: they look up `i/<name>` and, when it exists, resize it. */
  lemma SharexRequest(req: Request, env: Environment, name: string)
    requires IsPlainSegment(name) && req.verb == Get && req.path == "/i/" + name
    ensures var loc := Location(env.root, "i", name);
      && (loc in env.entries ==>
        Dispatch(req, env) == ResizeImage(ImageParams(Some("i"), name), req.query, env.root, env.sharp))
      && (loc !in env.entries ==> Dispatch(req, env) == NotFoundReply(StripUploads(loc)))
  {
    SharexPathRoutes(req.path, name);
    assert "i"[0] == 'i';
    NonBlankPresent("i");
  }

  /** A segment that does not start with white space is not blank. */
  lemma NonBlankPresent(s: string)
    requires |s| > 0 && !IsJsWhitespace(s[0])
    ensures !IsMissingSegment(Some(s))
  {
    TrimEmptyIffBlank(s);
  }

  /** A path that neither fixed route, nor the upload router's root, nor the
      image pattern accepts is answered by no route. */
  lemma UnroutedPath(req: Request, env: Environment)
    requires !AtRoute(req.path, "/metrics") && !AtRoute(req.path, "/time")
    requires UploadMountPath(req.path) != Some("/") && MatchImage(req.path).None?
    ensures Dispatch(req, env) == Unrouted
  {
    UnroutedIffNoRoute(req, env);
  }

  /** The image route answers GET only. */
  lemma ImageRouteGetOnly(req: Request, env: Environment)
    requires req.verb == Post && MatchImage(req.path).Some? && UploadMountPath(req.path) != Some("/")
    ensures Dispatch(req, env) == Unrouted
  {
  }
}
