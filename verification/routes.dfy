/** `src/routes/imageRoutes.ts` and `src/routes/uploadRoutes.ts`: which paths
    the two routers answer, with their patterns compiled as Express 4's
    path-to-regexp 0.1 compiles them. Case-insensitive matching and the
    percent-decoding of the extracted parameters are not modelled. */
module Routes {
  import opened Wrappers
  import opened Text
  import opened PosixPath
  import opened Http
  import opened ImageController

  // ---------------------------------------------------------------------
  // fixed routes
  // ---------------------------------------------------------------------

  /** `app.get(route, …)` without strict routing: the route itself or the
      route followed by one slash. */
  predicate AtRoute(p: string, route: string)
  {
    p == route || p == route + "/"
  }

  /** No slash strictly between the first and the last character. */
  predicate NoInnerSlash(s: string)
  {
    forall i :: 1 <= i <= |s| - 2 ==> s[i] != '/'
  }

  /** A path with a slash strictly inside differs from every path without. */
  lemma DiffersFromSlashFree(p: string, k: nat, q: string)
    requires 1 <= k <= |p| - 2 && p[k] == '/' && NoInnerSlash(q)
    ensures p != q
  {
  }

  // ---------------------------------------------------------------------
  // the image route: /:path([^\/]*)?/:imageName
  // ---------------------------------------------------------------------

  /** What `.` admits in the compiled segment group `[^\/](.*)`: a
      non-empty text whose first character is not a slash and whose
      remaining characters are no line terminators. Slashes after the first
      character are allowed. */
  predicate ValidSegment(s: string)
  {
    s != "" && s[0] != '/' && SingleLine(s[1..])
  }

  /** The route as compiled, `^(?:\/([^\/](.*)))?\/(?:([^\/]+?))\/?$`: the
      `*` of `[^\/]*` becomes the group `(.*)`, so the optional parameter
      `path` is one non-slash character followed by anything on one line.
      After setting aside one trailing slash, the name is what follows the
      last slash and must not be empty; when that slash is the first
      character, `path` is undefined, and otherwise `path` is everything
      between the first and the last slash and must be a valid segment. */
  function MatchImage(p: string): (r: Option<ImageParams>)
    ensures r.Some? ==> Matchable(r.value)
  {
    if |p| == 0 || p[0] != '/' then None
    else MatchBody(if |p| >= 2 && p[|p| - 1] == '/' then p[..|p| - 1] else p)
  }

  /** The match of a path without its tolerated trailing slash. */
  function MatchBody(body: string): (r: Option<ImageParams>)
    requires |body| > 0 && body[0] == '/'
    ensures r.Some? ==> Matchable(r.value)
  {
    var k := LastSlash(body);
    var name := body[k + 1..];
    if name == "" then None
    else if k == 0 then Some(ImageParams(None, name))
    else if ValidSegment(body[1..k]) then Some(ImageParams(Some(body[1..k]), name))
    else None
  }

  /** The index of the last slash of a path that starts with one. */
  function LastSlash(s: string): (k: nat)
    requires |s| > 0 && s[0] == '/'
    ensures k < |s| && s[k] == '/' && '/' !in s[k + 1..]
  {
    if s[|s| - 1] == '/' then |s| - 1
    else
      var k := LastSlash(s[..|s| - 1]);
      assert s[k + 1..] == s[..|s| - 1][k + 1..] + [s[|s| - 1]];
      k
  }

  /** Parameters the pattern can produce: a non-empty name without a slash
      and, when present, a valid segment. */
  predicate Matchable(params: ImageParams)
  {
    params.name != "" && '/' !in params.name
    && (params.segment.Some? ==> ValidSegment(params.segment.value))
  }

  /** The path spelled by a pair of parameters. */
  function ImagePath(params: ImageParams): string
  {
    match params.segment
    case None => "/" + params.name
    case Some(seg) => "/" + seg + "/" + params.name
  }

  /** The last slash of `u/v`, when `v` has none, is the one after `u`. */
  lemma {:induction false} LastSlashAfter(u: string, v: string)
    requires u == "" || u[0] == '/'
    requires '/' !in v
    ensures LastSlash(u + "/" + v) == |u|
  {
    var s := u + "/" + v;
    if |v| > 0 {
      var w := v[..|v| - 1];
      assert v[|v| - 1] in v;
      assert s[..|s| - 1] == u + "/" + w;
      LastSlashAfter(u, w);
    }
  }

  /** Whatever the pattern extracts is matchable and spells the path back,
      up to the trailing slash the pattern tolerates. */
  lemma MatchImageSound(p: string)
    requires MatchImage(p).Some?
    ensures Matchable(MatchImage(p).value)
    ensures p == ImagePath(MatchImage(p).value) || p == ImagePath(MatchImage(p).value) + "/"
  {
    var body := if |p| >= 2 && p[|p| - 1] == '/' then p[..|p| - 1] else p;
    assert p == body || p == body + "/";
    var k := LastSlash(body);
    if k == 0 {
      assert body == "/" + body[1..];
    } else {
      assert body == "/" + body[1..k] + "/" + body[k + 1..];
    }
  }

  /** Every matchable pair of parameters is extracted from its own path, with
      or without a trailing slash: with `MatchImageSound`, the pattern
      matches exactly the paths `/name` and `/seg/name`, `seg` a valid
      segment, each optionally followed by one slash. */
  lemma MatchImageComplete(params: ImageParams)
    requires Matchable(params)
    ensures MatchImage(ImagePath(params)) == Some(params)
    ensures MatchImage(ImagePath(params) + "/") == Some(params)
  {
    var p := ImagePath(params);
    MatchBodyOfPath(params);
    PathEndsInName(params);
    assert MatchImage(p) == MatchBody(p);
    var q := p + "/";
    assert q[..|q| - 1] == p;
    assert MatchImage(q) == MatchBody(p);
  }

  /** The path a pair of parameters spells ends with the name's last
      character, which is not a slash. */
  lemma PathEndsInName(params: ImageParams)
    requires params.name != "" && '/' !in params.name
    ensures var p := ImagePath(params); |p| >= 2 && p[|p| - 1] != '/'
  {
    var name := params.name;
    var p := ImagePath(params);
    assert p == (if params.segment.Some? then "/" + params.segment.value + "/" else "/") + name;
    assert p[|p| - 1] == name[|name| - 1];
    assert name[|name| - 1] in name;
  }

  /** The pattern, without its trailing slash, reads the parameters back
      from the path they spell. */
  lemma MatchBodyOfPath(params: ImageParams)
    requires Matchable(params)
    ensures var p := ImagePath(params); |p| > 0 && p[0] == '/' && MatchBody(p) == Some(params)
  {
    var p := ImagePath(params);
    match params.segment
    case None =>
      assert p == "" + "/" + params.name;
      LastSlashAfter("", params.name);
      assert p[1..] == params.name;
    case Some(seg) =>
      assert p == ("/" + seg) + "/" + params.name;
      LastSlashAfter("/" + seg, params.name);
      assert p[1..|seg| + 1] == seg;
      assert p[|seg| + 2..] == params.name;
  }

  /** A path of three segments `/a/b/name` is an image path whose `path`
      parameter is `a/b`: the segment group runs on to the last slash. */
  lemma NestedSegmentMatches(a: string, b: string, name: string)
    requires a != "" && a[0] != '/' && SingleLine(a) && SingleLine(b)
    requires name != "" && '/' !in name
    ensures MatchImage("/" + a + "/" + b + "/" + name) == Some(ImageParams(Some(a + "/" + b), name))
  {
    var seg := a + "/" + b;
    SingleLineConcat(a[1..], "/");
    SingleLineConcat(a[1..] + "/", b);
    assert seg[1..] == a[1..] + "/" + b;
    assert "/" + a + "/" + b + "/" + name == ImagePath(ImageParams(Some(seg), name));
    MatchImageComplete(ImageParams(Some(seg), name));
  }

  /** An empty first segment matches nothing: after the leading slash the
      segment group needs a non-slash character, and so does the name. */
  lemma LeadingDoubleSlashDoesNotMatch(x: string)
    ensures MatchImage("//" + x) == None
  {
    var p := "//" + x;
    var body := if |p| >= 2 && p[|p| - 1] == '/' then p[..|p| - 1] else p;
    if |body| >= 2 {
      assert body[1] == '/';
      var k := LastSlash(body);
      if k > 1 {
        assert body[1..k][0] == '/';
      }
    }
  }

  /** `/a/b/name` is no fixed route and not the upload router's root, and
      the image pattern reads it with the segment `a/b`. */
  lemma NestedPathRoutes(p: string, a: string, b: string, name: string)
    requires a != "" && a[0] != '/' && SingleLine(a) && SingleLine(b)
    requires name != "" && '/' !in name
    requires p == "/" + a + "/" + b + "/" + name
    ensures MatchImage(p) == Some(ImageParams(Some(a + "/" + b), name))
    ensures !AtRoute(p, "/metrics") && !AtRoute(p, "/time") && UploadMountPath(p) != Some("/")
  {
    NestedSegmentMatches(a, b, name);
    assert p[|a| + 1] == '/';
    assert p[|p| - 1] == name[|name| - 1] && name[|name| - 1] in name;
    InnerSlashNotFixed(p, |a| + 1);
  }

  /** A path with a slash strictly inside is no fixed route, and, unless it
      is `/upload//`, not the upload router's root. */
  lemma InnerSlashNotFixed(p: string, k: nat)
    requires 1 <= k <= |p| - 2 && p[k] == '/' && p != "/upload//"
    ensures !AtRoute(p, "/metrics") && !AtRoute(p, "/time") && UploadMountPath(p) != Some("/")
  {
    FixedPathsHaveNoInnerSlash();
    DiffersFromSlashFree(p, k, "/upload");
    DiffersFromSlashFree(p, k, "/upload/");
    DiffersFromSlashFree(p, k, "/metrics");
    DiffersFromSlashFree(p, k, "/metrics/");
    DiffersFromSlashFree(p, k, "/time");
    DiffersFromSlashFree(p, k, "/time/");
  }

  lemma FixedPathsHaveNoInnerSlash()
    ensures NoInnerSlash("/upload") && NoInnerSlash("/upload/")
    ensures NoInnerSlash("/metrics") && NoInnerSlash("/metrics/")
    ensures NoInnerSlash("/time") && NoInnerSlash("/time/")
  {
  }

  /** `//x` is no fixed route, not under `/upload` and no image path. */
  lemma LeadingDoubleSlashRoutes(p: string, x: string)
    requires p == "//" + x
    ensures MatchImage(p) == None && UploadMountPath(p) == None
    ensures !AtRoute(p, "/metrics") && !AtRoute(p, "/time")
  {
    LeadingDoubleSlashDoesNotMatch(x);
    assert p[1] == '/';
    SecondSlashNotFixed(p);
  }

  /** A path whose second character is a slash is no fixed route and not
      under `/upload`. */
  lemma SecondSlashNotFixed(p: string)
    requires |p| >= 2 && p[1] == '/'
    ensures UploadMountPath(p) == None
    ensures !AtRoute(p, "/metrics") && !AtRoute(p, "/time")
  {
    NotUploadPath(p);
    assert "/metrics/"[1] != '/' && "/time/"[1] != '/';
  }

  /** `/name`, for a name that does not start with `u`, is not under
      `/upload` and is the image `name` without a segment. */
  lemma SingleNamePathRoutes(p: string, name: string)
    requires name != "" && '/' !in name && p == "/" + name && name[0] != 'u'
    ensures MatchImage(p) == Some(ImageParams(None, name))
    ensures UploadMountPath(p) == None
  {
    assert p == ImagePath(ImageParams(None, name));
    MatchImageComplete(ImageParams(None, name));
    assert p[1] == name[0];
    NotUploadPath(p);
  }

  /** A path `/i/<name>`, the path of every uploaded file's URL, reaches
      only the image route, as the name `<name>` in the segment `i`. */
  lemma SharexPathRoutes(p: string, name: string)
    requires name != "" && '/' !in name && p == "/i/" + name
    ensures MatchImage(p) == Some(ImageParams(Some("i"), name))
    ensures !AtRoute(p, "/metrics") && !AtRoute(p, "/time") && UploadMountPath(p) == None
  {
    SharexPathMatches(name);
    SharexPathNotFixed(p);
  }

  lemma SharexPathMatches(name: string)
    requires name != "" && '/' !in name
    ensures MatchImage("/i/" + name) == Some(ImageParams(Some("i"), name))
  {
    assert "/i/" + name == ImagePath(ImageParams(Some("i"), name));
    assert SingleLine("i"[1..]);
    MatchImageComplete(ImageParams(Some("i"), name));
  }

  /** A path starting `/i/` and longer than that is no fixed route and not
      under `/upload`. */
  lemma SharexPathNotFixed(p: string)
    requires |p| >= 4 && p[1] == 'i' && p[2] == '/'
    ensures !AtRoute(p, "/metrics") && !AtRoute(p, "/time") && UploadMountPath(p) == None
  {
    NotUploadPath(p);
    assert p != "/upload//" by { assert "/upload//"[1] == 'u'; }
    InnerSlashNotFixed(p, 2);
  }

  /** A path whose second character is not `u` is not under `/upload`. */
  lemma NotUploadPath(p: string)
    requires |p| >= 2 && p[1] != 'u'
    ensures UploadMountPath(p) == None
  {
    assert "/upload/"[1] == 'u' && "/upload"[1] == 'u';
  }

  /** The root path has no name and matches nothing. */
  lemma RootDoesNotMatch()
    ensures MatchImage("/") == None
  {
    assert LastSlash("/") == 0;
  }

  // ---------------------------------------------------------------------
  // the /upload router
  // ---------------------------------------------------------------------

  /** The path the `/upload` mount hands its router, when `p` is under it.
      Express 4 compiles the mount (neither strict nor anchored at the end)
      to `^\/upload\/?(?=\/|$)`: the greedy `\/?` also takes the slash after
      `/upload` when another slash or the end follows it. The matched
      prefix is removed, and an empty rest becomes `/`. So `/upload/` and
      `/upload//` both reach the router's root, and `/upload//x` hands it
      `/x`. */
  function UploadMountPath(p: string): (r: Option<string>)
    ensures r.Some? <==> p == "/upload" || "/upload/" <= p
    ensures r.Some? && "/upload//" <= p ==> "/upload/" + r.value == p
    ensures r.Some? && p != "/upload" && p != "/upload/" && !("/upload//" <= p) ==> "/upload" + r.value == p
    ensures r == Some("/") <==> p == "/upload" || p == "/upload/" || p == "/upload//"
  {
    if p == "/upload" || p == "/upload/" then Some("/")
    else if "/upload//" <= p then Some(p[8..])
    else if "/upload/" <= p then Some(p[7..])
    else None
  }

  /** A doubled slash after the mount is absorbed by the mount's optional
      slash: `/upload//` is the router's root and `/upload///` hands it
      `//`, which its root route does not accept. */
  lemma UploadMountDoubleSlash()
    ensures UploadMountPath("/upload//") == Some("/")
    ensures UploadMountPath("/upload///") == Some("//")
  {
    assert "/upload//" <= "/upload///";
  }

  /** The routes of the `/upload` router: at its root GET redirects to `/`
      and POST answers with the upload's reply; every other request falls
      through (`None`). */
  function UploadRoute(m: Method, rest: string, upload: Reply): (r: Option<Reply>)
    ensures r.Some? <==> rest == "/" && !m.OtherMethod?
    ensures r.Some? && m == Get ==> r.value == Redirect("/")
    ensures r.Some? && m == Post ==> r.value == upload
  {
    if rest != "/" then None
    else
      match m
      case Get => Some(Redirect("/"))
      case Post => Some(upload)
      case OtherMethod(_) => None
  }

  /** Only the mount root is handled: `/upload/x` falls through to the image
      router, where it is the segment `upload` and the name `x`. */
  lemma UploadSubpathFallsThrough(x: string, m: Method, upload: Reply)
    requires x != "" && '/' !in x
    ensures UploadMountPath("/upload/" + x) == Some("/" + x)
    ensures UploadRoute(m, UploadMountPath("/upload/" + x).value, upload) == None
    ensures MatchImage("/upload/" + x) == Some(ImageParams(Some("upload"), x))
  {
    var p := "/upload/" + x;
    assert "/upload/" <= p;
    assert p[8] == x[0] != '/' by { assert x[0] in x; }
    assert p[7..] == "/" + x;
    assert p == ImagePath(ImageParams(Some("upload"), x));
    MatchImageComplete(ImageParams(Some("upload"), x));
  }
}
