/** `src/controllers/imageController.ts`: the two handlers of the image
    route, `checkImageExists` (blank-path guard, location, 404) and
    `resizeImage` (`r`/`a` query parsing, the `sharp` call, Content-Type). */
module ImageController {
  import opened Wrappers
  import opened Text
  import opened JsNumber
  import opened PosixPath
  import opened Json
  import opened Http

  /** The route parameters: `path` (absent when its optional group did not
      take part in the match) and `imageName`. */
  datatype ImageParams = ImageParams(segment: Option<string>, name: string)

  datatype ImageQuery = ImageQuery(r: QueryValue, a: QueryValue)

  /** sharp's `fit` option: `inside` for aspect `fit`, `cover` for `fill`. */
  datatype Fit = Inside | Cover

  datatype Resize = Resize(width: int, height: int, fit: Fit)

  /** What the `r`/`a` parameters ask for. */
  datatype ResizeRequest = Unchanged | Resized(spec: Resize) | InvalidSize

  /** The `sharp` library, which the model does not look into: whether
      `resize` throws for the given arguments (sharp validates them eagerly,
      e.g. rejecting non-positive sizes) and what `toBuffer` yields for a file
      and an optional resize. */
  datatype Sharp = Sharp(
    resizeError: Resize -> Option<string>,
    toBuffer: (string, Option<Resize>) -> Result<seq<byte>>)

  // ---------------------------------------------------------------------
  // replies
  // ---------------------------------------------------------------------

  function NoImageReply(): Reply
  {
    JsonReply(400, map["error" := JBool(true), "status" := Str("Bad Request"),
                       "message" := Str("No image file specified")])
  }

  function NotFoundReply(errorPath: string): Reply
  {
    JsonReply(404, map["error" := JBool(true), "status" := Str("Image not found"),
                       "path" := Str(errorPath)])
  }

  function InvalidSizeReply(): Reply
  {
    JsonReply(400, map["error" := JBool(true), "status" := Str("Bad Request"),
                       "message" := Str("Invalid width or height")])
  }

  function CodecErrorReply(message: string): Reply
  {
    JsonReply(500, map["error" := JBool(true), "status" := Str("Internal Server Error"),
                       "message" := Str(message)])
  }

  // ---------------------------------------------------------------------
  // checkImageExists
  // ---------------------------------------------------------------------

  /** `!imagePath || imagePath.trim() === ""`: the segment is absent, empty
      or white space only. */
  predicate IsMissingSegment(segment: Option<string>)
  {
    segment.None? || Trim(segment.value) == ""
  }

  /** `path.join(uploadsDir, imagePath, imageName)`: a non-empty path,
      absolute under an absolute upload directory. */
  function Location(root: string, segment: string, name: string): (r: string)
    ensures r != ""
    ensures root != "" && root[0] == '/' ==> r[0] == '/'
  {
    JoinPaths([root, segment, name])
  }

  datatype Check = Continue | Halt(reply: Reply)

  /** `checkImageExists`: a missing or blank segment is answered 400 before
      the filesystem is consulted; otherwise a location not among the
      existing `entries` is answered 404 with the location cut after its
      first-line `/uploads`; otherwise control passes to the next handler. */
  function CheckImageExists(params: ImageParams, root: string, entries: set<string>): (c: Check)
    ensures IsMissingSegment(params.segment) <==> c == Halt(NoImageReply())
    ensures c.Continue? <==>
      !IsMissingSegment(params.segment) && Location(root, params.segment.value, params.name) in entries
    ensures c.Halt? && !IsMissingSegment(params.segment) ==>
      c.reply == NotFoundReply(StripUploads(Location(root, params.segment.value, params.name)))
  {
    if IsMissingSegment(params.segment) then Halt(NoImageReply())
    else
      var location := Location(root, params.segment.value, params.name);
      if location !in entries then Halt(NotFoundReply(StripUploads(location)))
      else Continue
  }

  /** The blank-path guard runs before any filesystem check: its answer does
      not depend on which files exist. */
  lemma BlankPathIgnoresFilesystem(params: ImageParams, root: string, e1: set<string>, e2: set<string>)
    requires IsMissingSegment(params.segment)
    ensures CheckImageExists(params, root, e1) == CheckImageExists(params, root, e2) == Halt(NoImageReply())
  {
  }

  // ---------------------------------------------------------------------
  // the 404 path: requestedPath.replace(/.*\/uploads/, "")
  // ---------------------------------------------------------------------

  const Marker: string := "/uploads"

  /** The end of the line that starts at or contains index `i`. */
  function LineEnd(s: string, i: nat): (k: nat)
    requires i <= |s|
    decreases |s| - i
    ensures i <= k <= |s|
    ensures k < |s| ==> IsLineTerminator(s[k])
    ensures forall j :: i <= j < k ==> !IsLineTerminator(s[j])
  {
    if i == |s| || IsLineTerminator(s[i]) then i else LineEnd(s, i + 1)
  }

  /** The first match of `/.*\/uploads/` removed from `s`, scanning the lines
      from index `i` on: the match starts at the first line that contains
      `/uploads` and, `.*` being greedy and not crossing line terminators,
      ends after that line's last `/uploads`. */
  function StripFrom(s: string, i: nat): (r: string)
    requires i <= |s|
    decreases |s| - i
    ensures (forall j :: i <= j ==> !OccursAt(s, j, Marker)) ==> r == s
  {
    var k := LineEnd(s, i);
    match LastOccurrence(s, Marker, i, k)
    case Some(j) => s[..i] + s[j + |Marker|..]
    case None => if k == |s| then s else StripFrom(s, k + 1)
  }

  /** `s.replace(/.*\/uploads/, "")`. */
  function StripUploads(s: string): (r: string)
    ensures (forall j :: 0 <= j ==> !OccursAt(s, j, Marker)) ==> r == s
  {
    StripFrom(s, 0)
  }

  predicate SingleLine(s: string)
  {
    forall i :: 0 <= i < |s| ==> !IsLineTerminator(s[i])
  }

  /** No `/uploads` starts at index `lo` or later. */
  predicate MarkerFreeFrom(s: string, lo: nat)
  {
    forall j :: lo <= j < |s| ==> !OccursAt(s, j, Marker)
  }

  /** On a single line, the replacement keeps exactly what follows the last
      `/uploads`. */
  lemma StripAfterLastMarker(s: string, a: string, t: string)
    requires s == a + Marker + t && SingleLine(s)
    requires MarkerFreeFrom(s, |a| + 1)
    ensures StripUploads(s) == t
  {
    assert OccursAt(s, |a|, Marker);
    assert LineEnd(s, 0) == |s|;
    var last := LastOccurrence(s, Marker, 0, |s|);
    assert last == Some(|a|);
    assert s[|a| + |Marker|..] == t;
  }

  /** `prefix/uploads` followed by slash-free text on one line is cut to that
      text. */
  lemma StripAfterRestNoSlash(s: string, a: string, rest: string)
    requires s == a + Marker + rest && SingleLine(s) && '/' !in rest
    ensures StripUploads(s) == rest
  {
    MarkerFreeOverNoSlash(s, |a| + 1, |s|);
    StripAfterLastMarker(s, a, rest);
  }

  /** Indices without a slash cannot start `/uploads`. */
  lemma MarkerFreeOverNoSlash(s: string, lo: nat, hi: nat)
    requires lo <= hi && MarkerFreeFrom(s, hi)
    requires forall j :: lo <= j < hi && j < |s| ==> s[j] != '/'
    ensures MarkerFreeFrom(s, lo)
  {
    forall j | lo <= j < hi && j < |s|
      ensures !OccursAt(s, j, Marker)
    {
      if j + |Marker| <= |s| {
        assert s[j..j + |Marker|][0] == s[j];
      }
    }
  }

  /** A slash not followed by `uploads` cannot start `/uploads`. */
  lemma MarkerFreeOverSlash(s: string, j0: nat)
    requires MarkerFreeFrom(s, j0 + 1)
    requires j0 < |s| && !("uploads" <= s[j0 + 1..])
    ensures MarkerFreeFrom(s, j0)
  {
    if j0 + 8 <= |s| {
      assert s[j0 + 1..j0 + 8] == s[j0..j0 + 8][1..];
    }
  }

  /** The upload root's path string: the segments before the final `uploads`
      (as an absolute path, or nothing), then `/uploads`. */
  function RootPrefix(rs: seq<string>): string
  {
    if |rs| <= 1 then "" else AbsolutePath(rs[..|rs| - 1])
  }

  lemma RootEndsWithMarker(rs: seq<string>)
    requires |rs| >= 1 && rs[|rs| - 1] == "uploads"
    ensures AbsolutePath(rs) == RootPrefix(rs) + Marker
  {
    if |rs| > 1 {
      assert rs == rs[..|rs| - 1] + ["uploads"];
      AbsoluteAppend(rs[..|rs| - 1], "uploads");
    }
  }

  /** On one line, `prefix/uploads/segment/name` is cut to `/segment/name`
      when neither segment begins with `uploads`. */
  lemma StripBeforeTwoSegments(s: string, a: string, segment: string, name: string)
    requires s == a + Marker + ("/" + segment + "/" + name)
    requires SingleLine(s) && '/' !in segment && '/' !in name
    requires !("uploads" <= segment) && !("uploads" <= name)
    ensures StripUploads(s) == "/" + segment + "/" + name
  {
    var t := "/" + segment + "/" + name;
    var q1 := |a| + |Marker|;
    var q2 := q1 + 1 + |segment|;
    assert s[q1 + 1..] == segment + "/" + name;
    assert s[q2 + 1..] == name;
    assert s[q2] == '/';
    MarkerFreeOverNoSlash(s, q2 + 1, |s|);
    MarkerFreeOverSlash(s, q2);
    MarkerFreeOverNoSlash(s, q1 + 1, q2);
    MarkerFreeOverSlash(s, q1);
    MarkerFreeOverNoSlash(s, |a| + 1, q1);
    StripAfterLastMarker(s, a, t);
  }

  /** The location under a root of plain segments is the root string
      followed by `/segment/name`. */
  lemma LocationUnderRoot(rs: seq<string>, segment: string, name: string)
    requires |rs| >= 1 && AllPlain(rs)
    requires IsPlainSegment(segment) && IsPlainSegment(name)
    ensures Location(AbsolutePath(rs), segment, name) == AbsolutePath(rs) + ("/" + segment + "/" + name)
  {
    JoinPlainStaysUnder(rs, segment, name);
  }

  lemma SingleLineConcat(a: string, b: string)
    requires SingleLine(a) && SingleLine(b)
    ensures SingleLine(a + b)
  {
    assert forall i :: 0 <= i < |a + b| ==> (a + b)[i] == if i < |a| then a[i] else b[i - |a|];
  }

  /** For ordinary names the 404 `path` is `/imagePath/imageName`: the upload
      root, whose last segment is `uploads`, is cut off, provided neither
      segment itself begins with `uploads`. */
  lemma ErrorPathOfOrdinaryName(rs: seq<string>, segment: string, name: string)
    requires |rs| >= 1 && AllPlain(rs) && rs[|rs| - 1] == "uploads"
    requires IsPlainSegment(segment) && IsPlainSegment(name)
    requires !("uploads" <= segment) && !("uploads" <= name)
    requires SingleLine(AbsolutePath(rs)) && SingleLine(segment) && SingleLine(name)
    ensures StripUploads(Location(AbsolutePath(rs), segment, name)) == "/" + segment + "/" + name
  {
    var t := "/" + segment + "/" + name;
    LocationUnderRoot(rs, segment, name);
    RootEndsWithMarker(rs);
    SingleLineConcat("/", segment);
    SingleLineConcat("/" + segment, "/");
    SingleLineConcat("/" + segment + "/", name);
    SingleLineConcat(AbsolutePath(rs), t);
    StripBeforeTwoSegments(AbsolutePath(rs) + t, RootPrefix(rs), segment, name);
  }

  /** A name beginning with `uploads` is cut after that `uploads` too: the
      404 `path` for `i/uploads-i.txt` is `-i.txt`. */
  lemma ErrorPathOfUploadsPrefixedName(rs: seq<string>, segment: string, rest: string)
    requires |rs| >= 1 && AllPlain(rs)
    requires IsPlainSegment(segment) && '/' !in rest
    requires SingleLine(AbsolutePath(rs)) && SingleLine(segment) && SingleLine(rest)
    ensures StripUploads(Location(AbsolutePath(rs), segment, "uploads" + rest)) == rest
  {
    var root := AbsolutePath(rs);
    var name := "uploads" + rest;
    assert '/' !in name;
    LocationUnderRoot(rs, segment, name);
    var a := root + "/" + segment;
    var s := a + Marker + rest;
    assert root + ("/" + segment + "/" + name) == s;
    SingleLineConcat(root, "/");
    SingleLineConcat(root + "/", segment);
    SingleLineConcat(a, Marker);
    SingleLineConcat(a + Marker, rest);
    StripAfterRestNoSlash(s, a, rest);
  }

  // ---------------------------------------------------------------------
  // resizeImage
  // ---------------------------------------------------------------------

  /** `a && (a === "fill" || a === "fit") ? a : "fit"`, then `fill` to
      `cover` and `fit` to `inside`. */
  function FitFor(a: QueryValue): (f: Fit)
    ensures f == Cover <==> a == QStr("fill")
    ensures a == QStr("fit") || a == Absent ==> f == Inside
  {
    if a == QStr("fill") then Cover else Inside
  }

  /** The `r`/`a` parameters: only a non-empty string `r` asks for a resize;
      its first two `x`-separated pieces go through `parseInt(…, 10)` (a
      missing second piece is `undefined`, which parses as NaN) and only NaN
      is refused. */
  function ParseResize(r: QueryValue, a: QueryValue): (req: ResizeRequest)
    ensures req == Unchanged <==> !(r.QStr? && r.s != "")
    ensures req.Resized? ==> req.spec.fit == FitFor(a)
  {
    if r.QStr? && r.s != "" then
      var pieces := Split(r.s, 'x');
      var width := ParseInt(pieces[0]);
      var height := ParseInt(if |pieces| >= 2 then pieces[1] else "undefined");
      if width.Some? && height.Some? then Resized(Resize(width.value, height.value, FitFor(a)))
      else InvalidSize
    else Unchanged
  }

  /** A size written `<w>x<h>` with two `x`-free pieces is read piece by
      piece: accepted exactly when both pieces parse. */
  lemma ParseResizeOfPieces(w: string, h: string, a: QueryValue)
    requires 'x' !in w && 'x' !in h
    ensures ParseResize(QStr(w + "x" + h), a)
         == if ParseInt(w).Some? && ParseInt(h).Some?
            then Resized(Resize(ParseInt(w).value, ParseInt(h).value, FitFor(a)))
            else InvalidSize
  {
    SplitPieces(w, h);
  }

  /** Every pair of safe integers written as `<w>x<h>` is accepted as
      exactly that size, zero and negative sizes included. */
  lemma ParseResizeRoundTrip(w: int, h: int, a: QueryValue)
    requires -MaxSafeInteger <= w <= MaxSafeInteger && -MaxSafeInteger <= h <= MaxSafeInteger
    ensures ParseResize(QStr(ToSignedDecimal(w) + "x" + ToSignedDecimal(h)), a)
         == Resized(Resize(w, h, FitFor(a)))
  {
    SignedDecimalHasNoX(w);
    SignedDecimalHasNoX(h);
    ParseResizeOfPieces(ToSignedDecimal(w), ToSignedDecimal(h), a);
    ParseIntRoundTrip(w);
    ParseIntRoundTrip(h);
  }

  lemma SignedDecimalHasNoX(n: int)
    ensures 'x' !in ToSignedDecimal(n)
  {
    if n < 0 {
      assert forall i :: 1 <= i < |ToSignedDecimal(n)| ==> ToSignedDecimal(n)[i] == ToDecimal(-n)[i - 1];
    }
  }

  lemma SplitPieces(w: string, h: string)
    requires 'x' !in w && 'x' !in h
    ensures Split(w + "x" + h, 'x') == [w, h]
  {
    SplitConcat(w, h, 'x');
    SplitNoSeparator(w, 'x');
    SplitNoSeparator(h, 'x');
  }

  /** Pieces after the second `x` are ignored: `1x2x3` is 1 by 2. */
  lemma ParseResizeIgnoresExtraPieces(w: string, h: string, rest: string, a: QueryValue)
    requires 'x' !in w && 'x' !in h
    ensures ParseResize(QStr(w + "x" + h + "x" + rest), a) == ParseResize(QStr(w + "x" + h), a)
  {
    var long := w + "x" + (h + "x" + rest);
    assert w + "x" + h + "x" + rest == long;
    SplitConcat(w, h + "x" + rest, 'x');
    SplitConcat(h, rest, 'x');
    SplitNoSeparator(w, 'x');
    SplitNoSeparator(h, 'x');
    SplitPieces(w, h);
    assert Split(long, 'x')[0] == w && Split(long, 'x')[1] == h;
  }

  /** A non-empty `r` without a lower-case `x` (`100`, `100X50`) is refused:
      its height is `parseInt(undefined)`. */
  lemma ParseResizeNeedsSeparator(s: string, a: QueryValue)
    requires s != "" && 'x' !in s
    ensures ParseResize(QStr(s), a) == InvalidSize
  {
    SplitNoSeparator(s, 'x');
    ParseIntOfUndefined();
  }

  /** Each piece keeps only its leading digits: `r=12abcx7` is 12 by 7. */
  lemma ParseResizeDigitPrefixes(w: string, wTail: string, h: string, hTail: string, a: QueryValue)
    requires |w| >= 1 && AllDigits(w) && |h| >= 1 && AllDigits(h)
    requires DigitsValue(w) <= MaxSafeInteger && DigitsValue(h) <= MaxSafeInteger
    requires wTail == "" || !IsDigit(wTail[0])
    requires hTail == "" || !IsDigit(hTail[0])
    requires 'x' !in wTail && 'x' !in hTail
    ensures ParseResize(QStr(w + wTail + "x" + h + hTail), a)
         == Resized(Resize(DigitsValue(w), DigitsValue(h), FitFor(a)))
  {
    DigitsHaveNoX(w, wTail);
    DigitsHaveNoX(h, hTail);
    assert w + wTail + "x" + h + hTail == (w + wTail) + "x" + (h + hTail);
    ParseResizeOfPieces(w + wTail, h + hTail, a);
    ParseIntDigits(w, wTail);
    ParseIntDigits(h, hTail);
  }

  lemma DigitsHaveNoX(ds: string, tail: string)
    requires AllDigits(ds) && 'x' !in tail
    ensures 'x' !in ds + tail
  {
    assert forall i :: 0 <= i < |ds + tail| ==> (ds + tail)[i] == if i < |ds| then ds[i] else tail[i - |ds|];
  }

  /** The aspect only matters for `fill`; any other value, or none, is `fit`,
      and without a size the aspect is ignored. */
  lemma AspectDefaultsToFit(r: QueryValue, a: QueryValue)
    requires a != QStr("fill")
    ensures ParseResize(r, a) == ParseResize(r, Absent)
    ensures !(r.QStr? && r.s != "") ==> ParseResize(r, QStr("fill")) == Unchanged
  {
  }

  /** The Content-Type: `image/` and the lower-cased extension of the name
      without its dot. */
  function ContentType(name: string): (r: string)
    ensures "image/" <= r && '/' !in r[6..] && '.' !in r[6..]
  {
    var ext := ExtName(name);
    var format := ToLowerAscii(if ext == "" then "" else ext[1..]);
    assert forall i :: 0 <= i < |format| ==> format[i] != '/' && format[i] != '.';
    "image/" + format
  }

  lemma ContentTypeOf(stem: string, e: string)
    requires '/' !in stem && '/' !in e && '.' !in e
    requires stem != "" && (stem != "." || e != "")
    ensures ContentType(stem + "." + e) == "image/" + ToLowerAscii(e)
  {
    ExtNameOf(stem, e);
    assert ("." + e)[1..] == e;
  }

  lemma ContentTypeWithoutExtension(name: string)
    requires '/' !in name && '.' !in name
    ensures ContentType(name) == "image/"
  {
    ExtNameWithoutDot(name);
  }

  /** `await image.toBuffer()` and the reply built from its outcome. */
  function Encode(location: string, spec: Option<Resize>, name: string, sharp: Sharp): (reply: Reply)
    ensures sharp.toBuffer(location, spec).Ok? <==> reply.SendReply?
    ensures reply.SendReply? ==> reply == SendReply(200, ContentType(name), Bytes(sharp.toBuffer(location, spec).value))
    ensures reply.JsonReply? ==> reply == CodecErrorReply(sharp.toBuffer(location, spec).error)
  {
    match sharp.toBuffer(location, spec)
    case Ok(data) => SendReply(200, ContentType(name), Bytes(data))
    case Err(e) => CodecErrorReply(e)
  }

  /** `resizeImage`. A missing segment defaults to "" (so `path.join` skips
      it). `path.join` always returns a string, so the `typeof` 404 branch
      of the source has no counterpart. A resize whose arguments `sharp`
      refuses throws outside the `try`, rejecting the handler's promise. */
  function ResizeImage(params: ImageParams, query: ImageQuery, root: string, sharp: Sharp): (reply: Reply)
    ensures ParseResize(query.r, query.a) == InvalidSize <==> reply == InvalidSizeReply()
    ensures reply.Rejected? <==>
      ParseResize(query.r, query.a).Resized? && sharp.resizeError(ParseResize(query.r, query.a).spec).Some?
    ensures reply.SendReply? ==> reply.status == 200 && reply.contentType == ContentType(params.name)
    ensures ParseResize(query.r, query.a) == Unchanged ==>
      reply == Encode(Location(root, params.segment.GetOr(""), params.name), None, params.name, sharp)
    ensures ParseResize(query.r, query.a).Resized? && sharp.resizeError(ParseResize(query.r, query.a).spec).None? ==>
      reply == Encode(Location(root, params.segment.GetOr(""), params.name),
                      Some(ParseResize(query.r, query.a).spec), params.name, sharp)
  {
    var location := Location(root, params.segment.GetOr(""), params.name);
    match ParseResize(query.r, query.a)
    case InvalidSize => InvalidSizeReply()
    case Unchanged => Encode(location, None, params.name, sharp)
    case Resized(spec) =>
      match sharp.resizeError(spec)
      case Some(e) => Rejected(e)
      case None => Encode(location, Some(spec), params.name, sharp)
  }

  /** The image route's handler chain: `checkImageExists`, then
      `resizeImage` when it calls `next`. */
  function HandleImage(params: ImageParams, query: ImageQuery, root: string,
                       entries: set<string>, sharp: Sharp): (reply: Reply)
    ensures IsMissingSegment(params.segment) ==> reply == NoImageReply()
    ensures !IsMissingSegment(params.segment) ==>
      var location := Location(root, params.segment.value, params.name);
      (location !in entries ==> reply == NotFoundReply(StripUploads(location)))
      && (location in entries ==> reply == ResizeImage(params, query, root, sharp))
  {
    match CheckImageExists(params, root, entries)
    case Halt(r) => r
    case Continue => ResizeImage(params, query, root, sharp)
  }

  /** Through the route, `resizeImage` runs only on a present, non-blank
      segment, so its empty-segment default is never used and the file it
      hands to `sharp` is the one `checkImageExists` found. */
  lemma ResizeReadsCheckedFile(params: ImageParams, root: string, entries: set<string>)
    requires CheckImageExists(params, root, entries) == Continue
    ensures params.segment.Some? && params.segment.value != ""
    ensures Location(root, params.segment.GetOr(""), params.name) in entries
  {
  }
}
