/** `src/controllers/uploadController.ts`: the random file name, the
    stored-name rule, and `handleUpload`'s decisions, URL and index line. */
module UploadController {
  import opened Wrappers
  import opened Text
  import opened JsNumber
  import opened PosixPath
  import opened Json
  import opened Http
  import opened Constants

  /** The successive values `Math.random()` returns, the i-th call giving
      `draws(i)`. */
  type Draws = nat -> UnitReal

  /** `stringCharacters.charAt(Math.floor(d * stringCharacters.length))`. */
  function CharFor(d: UnitReal): (c: char)
    ensures c in StringCharacters
  {
    StringCharacters[FloorIndex(d, |StringCharacters|)]
  }

  /** `generateRandomString(length)`: one character per draw, in order. */
  function RandomString(length: nat, draws: Draws): (r: string)
    ensures |r| == length
    ensures forall i :: 0 <= i < length ==> r[i] == CharFor(draws(i))
  {
    if length == 0 then "" else RandomString(length - 1, draws) + [CharFor(draws(length - 1))]
  }

  /** The loop of `generateRandomString`, appending one character per
      iteration. */
  method GenerateRandomString(length: nat, draws: Draws) returns (result: string)
    ensures |result| == length
    ensures forall i :: 0 <= i < |result| ==> result[i] in StringCharacters
    ensures result == RandomString(length, draws)
  {
    result := "";
    var i := 0;
    while i < length
      invariant 0 <= i <= length
      invariant result == RandomString(i, draws)
    {
      result := result + [CharFor(draws(i))];
      i := i + 1;
    }
  }

  predicate IsStemChar(c: char)
  {
    'a' <= c <= 'z' || '0' <= c <= '9'
  }

  /** The position of an alphabet character. */
  function AlphabetIndex(c: char): (k: nat)
    requires IsStemChar(c)
    ensures k < |StringCharacters| && StringCharacters[k] == c
  {
    if 'a' <= c <= 'z' then
      var k := c as int - 'a' as int;
      AlphabetLayout(k);
      k
    else
      var k := c as int - '0' as int + 26;
      AlphabetLayout(k);
      k
  }

  /** A draw that selects the k-th alphabet character. */
  function DrawFor(k: nat): (d: UnitReal)
    requires k < |StringCharacters|
    ensures CharFor(d) == StringCharacters[k]
  {
    FloorIndexReaches(k, |StringCharacters|);
    k as real / |StringCharacters| as real
  }

  /** Draws that spell `w`. */
  function DrawsFor(w: string): Draws
  {
    (i: nat) => if i < |w| && IsStemChar(w[i]) then DrawFor(AlphabetIndex(w[i])) else 0.0
  }

  /** Every string over the alphabet is the outcome of some sequence of
      draws: the generator can produce every possible stem, and only those. */
  lemma EveryStemIsReachable(w: string)
    requires forall i :: 0 <= i < |w| ==> IsStemChar(w[i])
    ensures RandomString(|w|, DrawsFor(w)) == w
  {
    DrawsSpell(w);
    SpelledBy(w, DrawsFor(w));
  }

  /** Each draw for `w` selects the matching character of `w`. */
  lemma DrawsSpell(w: string)
    requires forall i :: 0 <= i < |w| ==> IsStemChar(w[i])
    ensures forall i :: 0 <= i < |w| ==> CharFor(DrawsFor(w)(i)) == w[i]
  {
    forall i | 0 <= i < |w| ensures CharFor(DrawsFor(w)(i)) == w[i] {
      DrawSpells(w, i);
    }
  }

  /** Draws whose characters are those of `w` generate `w`. */
  lemma SpelledBy(w: string, draws: Draws)
    requires forall i :: 0 <= i < |w| ==> CharFor(draws(i)) == w[i]
    ensures RandomString(|w|, draws) == w
  {
  }

  /** The i-th draw for `w` selects `w`'s i-th character. */
  lemma DrawSpells(w: string, i: nat)
    requires i < |w| && IsStemChar(w[i])
    ensures CharFor(DrawsFor(w)(i)) == w[i]
  {
    assert DrawsFor(w)(i) == DrawFor(AlphabetIndex(w[i]));
  }

  /** The stem of a stored file: `generateRandomString(stringLength)`. */
  function Stem(draws: Draws): (r: string)
    ensures |r| == StringLength
    ensures forall i :: 0 <= i < |r| ==> IsStemChar(r[i])
  {
    var r := RandomString(StringLength, draws);
    AlphabetShape();
    r
  }

  /** The multer `filename` callback: the stem followed by the original
      name's extension (with its dot). */
  function StoredName(stem: string, originalName: string): (r: string)
    ensures |r| >= |stem| && r[..|stem|] == stem
    ensures r[|stem|..] == ExtName(originalName)
  {
    stem + ExtName(originalName)
  }

  /** The stored name keeps the original extension, or has none when the
      original had none; it is never a dot file and never contains a slash. */
  lemma StoredNameKeepsExtension(stem: string, originalName: string)
    requires stem != "" && forall i :: 0 <= i < |stem| ==> IsStemChar(stem[i])
    ensures ExtName(StoredName(stem, originalName)) == ExtName(originalName)
    ensures StoredName(stem, originalName)[..|stem|] == stem
    ensures '/' !in StoredName(stem, originalName)
  {
    assert '/' !in stem && '.' !in stem;
    ExtNameAfterStem(stem, ExtName(originalName));
  }

  /** A dot-free stem followed by an extension (or nothing) has that
      extension. */
  lemma ExtNameAfterStem(stem: string, ext: string)
    requires stem != "" && '/' !in stem && '.' !in stem
    requires ext == "" || (ext[0] == '.' && '/' !in ext && '.' !in ext[1..])
    ensures ExtName(stem + ext) == ext
    ensures (stem + ext)[..|stem|] == stem && '/' !in stem + ext
  {
    if ext == "" {
      assert stem + ext == stem;
      ExtNameWithoutDot(stem);
    } else {
      var e := ext[1..];
      assert ext == "." + e;
      assert stem + ext == stem + "." + e;
      ExtNameOf(stem, e);
    }
  }

  /** The line recorded in `uploads-i.txt` for a stored file. */
  function IndexLine(name: string): (line: string)
    ensures line != name
    ensures |line| == |name| + 5 && line[..|name|] == name
    ensures line[|name|..] == ".png\n"
  {
    name + ".png\n"
  }

  /** `${domainUrl}${sharexDir}${filename}`. */
  function FileUrl(name: string): (url: string)
    ensures "https://example.com/i/" <= url
    ensures |url| == |"https://example.com/i/"| + |name| && url[|url| - |name|..] == name
  {
    DomainUrl + SharexDir + name
  }

  /** The shapes of the two constants put exactly one slash at each join
      point: the URL's slash-separated parts are the scheme, the empty part of
      `//`, the host, the upload directory and the name. */
  lemma FileUrlParts(name: string)
    requires '/' !in name
    ensures Split(FileUrl(name), '/') == ["https:", "", "example.com", "i", name]
  {
    assert FileUrl(name) == "https:" + "/" + ("" + "/" + ("example.com" + "/" + ("i" + "/" + name)));
    SplitFiveParts("https:", "", "example.com", "i", name);
  }

  lemma SplitFiveParts(a: string, b: string, c: string, e: string, f: string)
    requires '/' !in a && '/' !in b && '/' !in c && '/' !in e && '/' !in f
    ensures Split(a + "/" + (b + "/" + (c + "/" + (e + "/" + f))), '/') == [a, b, c, e, f]
  {
    SplitConcat(a, b + "/" + (c + "/" + (e + "/" + f)), '/');
    SplitConcat(b, c + "/" + (e + "/" + f), '/');
    SplitConcat(c, e + "/" + f, '/');
    SplitConcat(e, f, '/');
    SplitNoSeparator(a, '/');
    SplitNoSeparator(b, '/');
    SplitNoSeparator(c, '/');
    SplitNoSeparator(e, '/');
    SplitNoSeparator(f, '/');
  }

  /** The URL is the public origin followed by the path `/i/<name>`. */
  lemma FileUrlOnOrigin(name: string)
    ensures FileUrl(name) == "https://example.com" + ("/i/" + name)
  {
    assert DomainUrl + SharexDir == "https://example.com" + "/i/";
  }

  /** The file multer's disk storage writes: `path.join(destination,
      filename)`, where the `destination` callback gives
      `path.join(uploadsDir, sharexDir)`. */
  function StoredPath(root: string, name: string): string
  {
    JoinPaths([JoinPaths([root, SharexDir]), name])
  }

  /** `path.resolve(uploadsDir, sharexDir, 'uploads-i.txt')`. The upload
      directory is absolute, and for an absolute first argument
      `path.resolve` is `path.join` without a trailing slash. */
  function IndexPath(root: string): string
  {
    JoinPaths([root, SharexDir, "uploads-i.txt"])
  }

  /** Under an upload directory of plain segments, a stored file lies in its
      `i` sub-directory, with no doubled or trailing slash although
      `sharexDir` ends in one. */
  lemma StoredInSharexDir(rs: seq<string>, name: string)
    requires |rs| >= 1 && AllPlain(rs) && IsPlainSegment(name)
    ensures StoredPath(AbsolutePath(rs), name) == AbsolutePath(rs + ["i", name])
  {
    assert SharexDir == "i" + "/";
    JoinIntoSlashedDirectory(rs, "i", name);
  }

  /** The index file lies in the same sub-directory. */
  lemma IndexInSharexDir(rs: seq<string>)
    requires |rs| >= 1 && AllPlain(rs)
    ensures IndexPath(AbsolutePath(rs)) == AbsolutePath(rs + ["i", "uploads-i.txt"])
  {
    assert SharexDir == "i" + "/";
    assert IsPlainSegment("uploads-i.txt");
    JoinIntoSlashedDirectory(rs, "i", "uploads-i.txt");
  }

  /** A stored name begins with a stem character, so it is a plain path
      segment: neither empty, `.`, `..`, nor containing a slash. */
  lemma StoredNamePlain(stem: string, originalName: string)
    requires stem != "" && forall i :: 0 <= i < |stem| ==> IsStemChar(stem[i])
    ensures IsPlainSegment(StoredName(stem, originalName))
  {
    StoredNameKeepsExtension(stem, originalName);
    var name := StoredName(stem, originalName);
    assert name[0] == stem[0];
  }

  /** `!secret || secret !== secretKey`: only a non-empty text field equal
      to the key passes. */
  predicate SecretAccepted(secret: QueryValue, key: string)
  {
    secret.QStr? && secret.s != "" && secret.s == key
  }

  /** What happened to the upload directory, the index file and the client:
      `stored` is the name of the file left in the upload directory,
      `appended` the line handed to `fs.appendFile` (whether or not the
      append then succeeded) and `reply` the answer. */
  datatype UploadOutcome = UploadOutcome(stored: Option<string>, appended: Option<string>, reply: Reply)

  function UploadErrorReply(err: string): Reply
  {
    JsonReply(500, map["error" := Str("Error uploading file: " + err)])
  }

  function BadSecretReply(): Reply
  {
    JsonReply(403, map["error" := Str("Invalid Secret Key")])
  }

  function NoFileReply(): Reply
  {
    JsonReply(400, map["error" := Str("No file uploaded")])
  }

  function IndexErrorReply(message: string): Reply
  {
    JsonReply(500, map["error" := Str("Error updating text file"), "message" := Str(message)])
  }

  /** `handleUpload`. multer first parses the request: it reports
      `multerError` (after removing whatever it stored) or stores the
      `sharex` part under the name its `filename` callback gives, built from
      the generated `stem` (`file` is the part's original name). Its
      completion callback then decides, in this order: the multer error, the
      secret, the presence of a file. Only then is the index line appended
      (`appendError` is the append's outcome), and only after the append
      succeeds is the URL sent. */
  function HandleUpload(multerError: Option<string>, secret: QueryValue, file: Option<string>,
                        stem: string, appendError: Option<string>, key: string): (o: UploadOutcome)
    ensures multerError.Some? ==> o == UploadOutcome(None, None, UploadErrorReply(multerError.value))
    ensures multerError.None? && file.Some? ==> o.stored == Some(StoredName(stem, file.value))
    ensures multerError.None? && file.None? ==> o.stored.None?
    ensures multerError.None? && !SecretAccepted(secret, key) ==> o.reply == BadSecretReply()
    ensures multerError.None? && SecretAccepted(secret, key) && file.None? ==> o.reply == NoFileReply()
    ensures o.appended.Some? <==> multerError.None? && SecretAccepted(secret, key) && file.Some?
    ensures o.appended.Some? ==> o.appended.value == IndexLine(o.stored.value)
    ensures o.reply.SendReply? <==> o.appended.Some? && appendError.None?
    ensures o.appended.Some? && appendError.Some? ==> o.reply == IndexErrorReply(appendError.value)
    ensures o.reply.SendReply? ==> o.reply.payload == Text(FileUrl(o.stored.value)) && o.reply.status == 200
  {
    if multerError.Some? then UploadOutcome(None, None, UploadErrorReply(multerError.value))
    else
      var stored := if file.Some? then Some(StoredName(stem, file.value)) else None;
      if !SecretAccepted(secret, key) then UploadOutcome(stored, None, BadSecretReply())
      else if stored.None? then UploadOutcome(None, None, NoFileReply())
      else
        var name := stored.value;
        var reply := match appendError
          case Some(m) => IndexErrorReply(m)
          case None => SendReply(200, "text/html; charset=utf-8", Text(FileUrl(name)));
        UploadOutcome(stored, Some(IndexLine(name)), reply)
  }

  /** An empty or missing secret is refused whatever key is configured. */
  lemma EmptySecretRejected(secret: QueryValue, file: Option<string>, stem: string,
                            appendError: Option<string>, key: string)
    requires secret == QStr("") || secret == Absent
    ensures HandleUpload(None, secret, file, stem, appendError, key).reply == BadSecretReply()
  {
  }

  /** A bad secret is answered 403 even without a file, and a file that was
      sent is stored all the same. */
  lemma BadSecretKeepsStoredFile(secret: QueryValue, file: Option<string>, stem: string,
                                 appendError: Option<string>, key: string)
    requires !SecretAccepted(secret, key)
    ensures HandleUpload(None, secret, file, stem, appendError, key).reply == BadSecretReply()
    ensures file.Some? ==> HandleUpload(None, secret, file, stem, appendError, key).stored.Some?
    ensures HandleUpload(None, secret, file, stem, appendError, key).appended == None
  {
  }

  /** With the right key, a successful upload's URL ends in the stored name
      `<stem><ext>` and the index records that name with `.png` appended
      (`xxxxx.png.png` for a PNG). */
  lemma SuccessfulUpload(originalName: string, draws: Draws, key: string)
    requires key != ""
    ensures var o := HandleUpload(None, QStr(key), Some(originalName), Stem(draws), None, key);
      var name := Stem(draws) + ExtName(originalName);
      && o.stored == Some(name)
      && o.appended == Some(name + ".png\n")
      && o.reply == SendReply(200, "text/html; charset=utf-8", Text(FileUrl(name)))
      && ExtName(name) == ExtName(originalName)
  {
    StoredNameKeepsExtension(Stem(draws), originalName);
  }
}
