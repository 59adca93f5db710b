# A Dafny model of a small Express image host

The modelled server is a small Node/Express image host. Screenshot clients
POST files to `/upload` with a shared secret. Stored images are served back
from `/<path>/<imageName>`, optionally resized through `?r=<w>x<h>&a=fit|fill`.
The host also answers `/metrics` and `/time`. Every JSON answer of a route
is stamped with a Berlin-offset `timestamp`; the error middleware's answer
to a malformed JSON body is not. The model covers the decision
logic of that code as pure Dafny functions over strings, sequences, maps and
reals. The filesystem, `sharp`, `multer`, the shell, `Math.random()` and the
clock are explicit parameters.

Modules, one per source component:

- `Wrappers`: `Option` and `Result`.
- `Text`: the string operations the code relies on:
  - `String.prototype.split` with a one-character separator, and its inverse `Join`;
  - `filter(Boolean)`;
  - ECMAScript `trim`;
  - lower-casing;
  - the substring search behind the `/.*\/uploads/` replacement.
- `JsNumber`: the digit scanning of `parseInt(s, 10)` (section 19.2.5 of
  ECMA-262). It skips leading whitespace, takes an optional sign and the
  longest decimal prefix, and gives NaN (`None`) when no digit follows. The
  value is an exact integer, which equals JavaScript's double up to
  2^53 - 1 in magnitude. It also holds `Math.floor(Math.random() * n)`.
- `PosixPath`: Node's POSIX `path.join`/`path.normalize`, written as a fold
  over segments, plus `path.extname`.
- `Json`, `Http`: JSON values and the replies a handler can produce. These
  are a JSON body, a `res.send` body with its content type, a redirect, a
  rejected handler promise, or "no route matched".
- `Constants`: `src/utils/constants.ts`.
- `ImageController`, `Routes`, `UploadController`, `RandomRoutes`,
  `AddTimestamps`, `TimeHandler`, `FormatBytes`, `Metrics`, `Server`: one
  module per source file.

Behaviours of the code that the model proves:

- **`.png` in the index file.** An upload's index line is the stored name
  followed by `.png`. So the random-route cache reads back `abcde.png.png`
  for an upload stored as `abcde.png` (`RandomRoutes.IndexReadBack`).
- **The 404 path.** The 404 body's `path` strips everything up to the LAST
  `/uploads` on the first line. For `/i/uploads-i.txt`, asked for before the
  first upload has created the index file, it is therefore `-i.txt`
  (`ImageController.ErrorPathOfUploadsPrefixedName`). Once the index file
  exists, that request passes the existence check and goes to `sharp`
  (`Server.IndexFileIsServed`).
- **Uploaded files are served back.** multer stores the file as
  `path.join(path.join(uploadsDir, sharexDir), name)`, and the URL in the
  reply has the path `/i/<name>`. A GET of that path reaches the image
  handlers, which find exactly the stored file and resize it, as long as
  the extension has no `?`, `#` or `%`, which the unescaped URL would
  mangle (`Server.UploadedUrlIsServed`).
- **Nested image paths.** Express 4 compiles the image route
  `/:path([^\/]*)?/:imageName` so that its `*` becomes a group `(.*)`. The
  `path` parameter is therefore everything between the first and the last
  slash: `/a/b/info` is the image `info` in the segment `a/b`, while
  `//x.png` matches nothing (`Routes.NestedSegmentMatches`,
  `Routes.LeadingDoubleSlashDoesNotMatch`).
- **`/random`.** The random router of `src/routes/randomRoutes.ts` is never
  mounted by `src/server.ts`. `GET /random` is an image request with no
  path segment and is answered 400 (`Server.RandomRouteUnmounted`).

## Model

| member | source | states |
|---|---|---|
| Text.Split | src/controllers/imageController.ts:59 | `split` on one character gives at least one piece, and no piece contains the separator |
| Text.Join | src/controllers/imageController.ts:24 | joining no pieces gives ""; a join starts with its first piece and is at least one character longer than it per further piece; `Text.JoinSplit` and `Text.SplitJoin` make it the inverse of `Split` |
| Text.JoinSplit | src/controllers/imageController.ts:59 | joining the pieces of a split with the separator gives back the original string |
| Text.SplitJoin | src/controllers/imageController.ts:59 | splitting a join of separator-free pieces gives back the pieces |
| Text.NonEmpty | src/routes/randomRoutes.ts:19 | `filter(Boolean)` keeps exactly the non-empty pieces and never adds one |
| Text.NonEmptySingle | src/routes/randomRoutes.ts:19 | a single piece survives exactly when it is not empty |
| Text.NonEmptyConcat | src/routes/randomRoutes.ts:19 | filtering a concatenation is the concatenation of the filtered parts, so survivors keep their order and repetitions |
| Text.TrimStart | src/controllers/imageController.ts:14 | the result is a suffix that starts with a non-whitespace character, and every removed character is ECMAScript whitespace |
| Text.TrimEnd | src/controllers/imageController.ts:14 | the result is a prefix that ends with a non-whitespace character, and every removed character is ECMAScript whitespace |
| Text.Trim | src/controllers/imageController.ts:14 | `trim()` is no longer than its input and neither starts nor ends with whitespace |
| Text.TrimEmptyIffBlank | src/controllers/imageController.ts:14 | `trim()` is empty exactly when every character is whitespace or line terminator |
| Text.ToLowerAscii | src/controllers/imageController.ts:84 | keeps the length; each ASCII capital becomes its lower-case letter and every other character is kept |
| Text.LastOccurrence | src/controllers/imageController.ts:25 | the result is a start of the pattern within the bounds, and no later start exists; `None` means no start exists at all |
| JsNumber.DigitPrefix | src/controllers/imageController.ts:60-61 | the longest prefix made only of decimal digits |
| JsNumber.ParseInt | src/controllers/imageController.ts:60-61 | `parseInt(s, 10)` is NaN exactly when, after leading whitespace and one sign, no decimal digit follows |
| JsNumber.ParseIntDigits | src/controllers/imageController.ts:60-61 | digits of value at most 2^53 - 1 followed by any non-digit tail parse as that value; the tail is ignored |
| JsNumber.ParseIntMinusDigits | src/controllers/imageController.ts:60-61 | a minus sign, digits of value at most 2^53 - 1 and a non-digit tail parse as the negated value |
| JsNumber.ParseIntRoundTrip | src/controllers/imageController.ts:60-61 | every safe integer (magnitude at most 2^53 - 1) written in decimal parses back to itself |
| JsNumber.ParseIntSignedDecimal | src/controllers/imageController.ts:60-61 | a safe integer's decimal text followed by a non-digit tail parses to that integer |
| JsNumber.ParseIntOfUndefined | src/controllers/imageController.ts:61 | the text "undefined" of a missing height piece parses as NaN |
| JsNumber.ToDecimal | src/controllers/imageController.ts:60-61 | the decimal text of a natural number is all digits and has that value |
| JsNumber.FloorIndex | src/routes/randomRoutes.ts:38 | `Math.floor(Math.random() * n)` is an index below `n` when `n > 0` |
| JsNumber.FloorIndexReaches | src/controllers/uploadController.ts:11 | every index `k < n` is produced by the draw `k / n` |
| PosixPath.FoldConcat | src/controllers/imageController.ts:24 | normalizing two segment lists in turn equals normalizing their concatenation |
| PosixPath.Normalize | src/controllers/imageController.ts:24 | `path.normalize` never returns "", is absolute exactly when its input is, and keeps a trailing slash |
| PosixPath.JoinPaths | src/controllers/imageController.ts:24 | `path.join` never returns "" and is absolute when its first argument is |
| PosixPath.NormalizeAbsolutePlain | src/controllers/imageController.ts:24 | an absolute path of ordinary segments is already normal |
| PosixPath.JoinPlainStaysUnder | src/controllers/imageController.ts:24 | joining the root with two ordinary segments gives `root/a/b`, which lies under the root |
| PosixPath.FoldLoose | src/controllers/uploadController.ts:18 | folding plain and empty segments appends exactly the non-empty ones, in order |
| PosixPath.NormalizeAbsoluteLoose | src/controllers/uploadController.ts:18 | normalizing an absolute path drops its empty segments (doubled slashes) |
| PosixPath.NormalizeAbsoluteLooseTrailing | src/controllers/uploadController.ts:18 | a path ending in a slash keeps exactly one trailing slash after normalizing |
| PosixPath.JoinIntoSlashedDirectory | src/controllers/uploadController.ts:18 | `path.join(root, "i/")` keeps its trailing slash, and joining a name onto it, or passing the name as a third argument, gives `root/i/name` with no doubled slash |
| PosixPath.JoinDotDotEscapes | src/controllers/imageController.ts:24 | a `..` path segment resolves to a sibling of the root, outside the root |
| PosixPath.ExtName | src/controllers/uploadController.ts:21 | `path.extname` is empty or a dot followed by text with no dot or slash |
| PosixPath.ExtNameOf | src/controllers/uploadController.ts:21 | a name `stem.e` with a non-empty stem has extension `.e` |
| PosixPath.ExtNameWithoutDot | src/controllers/uploadController.ts:21 | a name without a dot has no extension |
| Constants.ConstantShapes | src/utils/constants.ts:9-22 | the name length is positive; the alphabet has 36 characters; `sharexDir` ends, and does not start, with a slash; `domainUrl` starts with `https://` and ends with a slash |
| Constants.AlphabetLayout | src/utils/constants.ts:22 | the alphabet is `a`..`z` followed by `0`..`9`, position by position |
| Constants.AlphabetShape | src/utils/constants.ts:22 | the 36 alphabet characters are distinct and each is a lower-case letter or a digit |
| Constants.UploadsDirShape | src/utils/constants.ts:23 | for a normal absolute module directory, the upload root is its grandparent followed by `public/uploads`: plain segments ending in `uploads` |
| ImageController.CheckImageExists | src/controllers/imageController.ts:7-33 | a missing or blank segment gives 400 "No image file specified", whatever the filesystem holds; otherwise a location missing from the filesystem gives 404 with the stripped path; otherwise control passes on |
| ImageController.BlankPathIgnoresFilesystem | src/controllers/imageController.ts:14-22 | the blank-path answer is the same for every set of existing files |
| ImageController.Location | src/controllers/imageController.ts:24 | the location is never empty and is absolute under an absolute upload directory |
| ImageController.LineEnd | src/controllers/imageController.ts:25 | the first line terminator at or after a position, or the end of the string |
| ImageController.StripFrom | src/controllers/imageController.ts:25 | scanning from a position, a text with no later `/uploads` is left unchanged |
| ImageController.StripUploads | src/controllers/imageController.ts:25 | a string with no `/uploads` is left unchanged |
| ImageController.StripAfterLastMarker | src/controllers/imageController.ts:25 | on one line, the replacement leaves what follows the last `/uploads` |
| ImageController.StripAfterRestNoSlash | src/controllers/imageController.ts:25 | when the text after a `/uploads` has no slash, that text is the result |
| ImageController.StripBeforeTwoSegments | src/controllers/imageController.ts:25 | `…/uploads/seg/name` with no `uploads` at the start of either part strips to `/seg/name` |
| ImageController.LocationUnderRoot | src/controllers/imageController.ts:24 | with ordinary segments, the location is `root/seg/name` |
| ImageController.ErrorPathOfOrdinaryName | src/controllers/imageController.ts:24-30 | for ordinary segments under an `…/uploads` root, the 404 path is `/seg/name` |
| ImageController.ErrorPathOfUploadsPrefixedName | src/controllers/imageController.ts:24-30 | for a name `uploads<rest>` the 404 path is just `<rest>` (e.g. `-i.txt` for `i/uploads-i.txt`) |
| ImageController.ParseResizeOfPieces | src/controllers/imageController.ts:58-79 | for `r = w + "x" + h`, the size is accepted exactly when both pieces parse, and then it is those two numbers |
| ImageController.FitFor | src/controllers/imageController.ts:64-70 | the aspect `fill` gives `cover`; `fit`, an absent aspect and every other value give `inside` |
| ImageController.ParseResize | src/controllers/imageController.ts:58-80 | without a non-empty string `r` nothing is resized; an accepted size carries the fit chosen by the aspect |
| ImageController.ParseResizeRoundTrip | src/controllers/imageController.ts:58-63 | every pair of safe integers written `<w>x<h>`, zero and negatives included, is accepted as exactly that size |
| ImageController.ParseResizeDigitPrefixes | src/controllers/imageController.ts:58-63 | digits of value at most 2^53 - 1 followed by junk on both sides of the `x` are read as the digit values (`12abcx7` is 12 by 7) |
| ImageController.ParseResizeIgnoresExtraPieces | src/controllers/imageController.ts:59 | pieces after the second `x` are ignored (`1x2x3` is 1 by 2) |
| ImageController.ParseResizeNeedsSeparator | src/controllers/imageController.ts:59-63 | a non-empty `r` without a lower-case `x` (`100`, `100X50`) is refused as an invalid size |
| ImageController.AspectDefaultsToFit | src/controllers/imageController.ts:64-70 | every aspect except `fill` behaves like an absent one (`inside`); without a non-empty `r` the aspect has no effect |
| ImageController.ContentType | src/controllers/imageController.ts:84-86 | the content type is `image/` followed by text with no slash or dot |
| ImageController.ContentTypeOf | src/controllers/imageController.ts:84-86 | for `stem.e` the content type is `image/` followed by the lower-cased `e` |
| ImageController.ContentTypeWithoutExtension | src/controllers/imageController.ts:84-86 | a name without a dot gets the bare `image/` |
| ImageController.Encode | src/controllers/imageController.ts:82-96 | the buffer is sent with status 200 and the derived type exactly when `sharp` produced it; otherwise 500 with the error text |
| ImageController.ResizeImage | src/controllers/imageController.ts:35-97 | 400 "Invalid width or height" exactly when the size is invalid; the promise rejects exactly when `sharp` refuses the requested size; otherwise the checked location is encoded, unchanged without a size and resized with one |
| ImageController.HandleImage | src/routes/imageRoutes.ts:6 | `checkImageExists` runs first; `resizeImage` runs only on an existing location under a present, non-blank segment |
| ImageController.ResizeReadsCheckedFile | src/controllers/imageController.ts:43-54 | through the route, `resizeImage` always sees a non-empty segment, so its empty-path default is unused and it reads the file that was checked |
| Routes.MatchImageSound | src/routes/imageRoutes.ts:6 | whatever the compiled pattern extracts is matchable and spells the path back, up to one trailing slash |
| Routes.MatchImage | src/routes/imageRoutes.ts:6 | an extracted name is non-empty without a slash, and an extracted segment is non-empty, does not start with a slash and has no line terminator after its first character |
| Routes.MatchImageComplete | src/routes/imageRoutes.ts:6 | every matchable pair is extracted from the path it spells, with or without a trailing slash; `/name` leaves the segment undefined |
| Routes.NestedSegmentMatches | src/routes/imageRoutes.ts:6 | `/a/b/name` is the image `name` in the segment `a/b` |
| Routes.LeadingDoubleSlashDoesNotMatch | src/routes/imageRoutes.ts:6 | a path starting with `//` matches nothing |
| Routes.NestedPathRoutes | src/server.ts:16-23 | `/a/b/name` is no fixed route and not the upload root, and is the image `name` in segment `a/b` |
| Routes.LeadingDoubleSlashRoutes | src/server.ts:16-23 | a path starting with `//` is no fixed route, is not under `/upload` and is no image path |
| Routes.InnerSlashNotFixed | src/server.ts:16-22 | a path with a slash strictly inside is neither `/metrics` nor `/time` (with or without a trailing slash), and, unless it is `/upload//`, not the upload root |
| Routes.RootDoesNotMatch | src/routes/uploadRoutes.ts:7 | the redirect target `/` has no image name and matches no image route |
| Routes.UploadMountPath | src/server.ts:22 | the `/upload` mount takes `/upload` and paths under `/upload/`; its optional slash absorbs a slash followed by another slash or the end, so `/upload`, `/upload/` and `/upload//` (and only these) reach the router's root, and otherwise the rest after the removed prefix is passed on |
| Routes.UploadMountDoubleSlash | src/server.ts:22 | `/upload//` reaches the router's root, while `/upload///` hands it `//` |
| Routes.UploadRoute | src/routes/uploadRoutes.ts:6-10 | the router answers only its root: GET redirects to `/`, POST runs the upload handler |
| Routes.SharexPathRoutes | src/server.ts:15-23 | `/i/<name>` matches the image route as segment `i` and no fixed route or upload path |
| Routes.UploadSubpathFallsThrough | src/routes/uploadRoutes.ts:6-10 | `/upload/x` is left unanswered by the upload router and matches the image route as segment `upload`, name `x` |
| UploadController.CharFor | src/controllers/uploadController.ts:11 | each draw picks a character of the alphabet |
| UploadController.RandomString | src/controllers/uploadController.ts:7-14 | the generated string has the requested length, and its i-th character is the one the i-th draw picks |
| UploadController.GenerateRandomString | src/controllers/uploadController.ts:7-14 | the loop builds exactly the characters the successive draws pick, all from the alphabet |
| UploadController.EveryStemIsReachable | src/controllers/uploadController.ts:7-14 | every string over the alphabet is generated by some sequence of draws |
| UploadController.Stem | src/controllers/uploadController.ts:22 | the stem has 5 characters, each a lower-case letter or digit |
| UploadController.StoredName | src/controllers/uploadController.ts:20-24 | the stored name is the stem followed by exactly the original name's extension |
| UploadController.StoredNameKeepsExtension | src/controllers/uploadController.ts:20-24 | the stored name starts with the stem, has the original name's extension (or none), and contains no slash |
| UploadController.IndexLine | src/controllers/uploadController.ts:48 | the index line is the stored name followed by `.png` and a newline, so it never equals the name |
| UploadController.FileUrl | src/controllers/uploadController.ts:45 | the URL starts with `https://example.com/i/` and ends with the stored name |
| UploadController.FileUrlOnOrigin | src/controllers/uploadController.ts:45 | the URL is the public origin followed by the path `/i/<name>` |
| UploadController.StoredInSharexDir | src/controllers/uploadController.ts:18 | multer's storage location for a plain name is `uploadsDir/i/<name>` |
| UploadController.IndexInSharexDir | src/controllers/uploadController.ts:47 | the index file is `uploadsDir/i/uploads-i.txt` |
| UploadController.StoredNamePlain | src/controllers/uploadController.ts:20-24 | a stored name is a plain path segment: not empty, `.` or `..`, and without a slash |
| UploadController.FileUrlParts | src/controllers/uploadController.ts:45 | the constants' shapes put exactly one slash at each join point of the URL |
| UploadController.HandleUpload | src/controllers/uploadController.ts:16-55 | multer error gives 500 with nothing stored; otherwise a bad secret gives 403, then a missing file gives 400; a sent file is stored under the stem plus its extension whatever the secret, and nothing is stored when no file was sent; a line is appended only on full success; a failed append gives 500 with its message; the URL is sent only after the append succeeds |
| UploadController.EmptySecretRejected | src/controllers/uploadController.ts:37 | a missing or empty secret is refused whatever the configured key |
| UploadController.BadSecretKeepsStoredFile | src/controllers/uploadController.ts:30-38 | a bad secret gives 403 even without a file, keeps a stored file, and appends nothing |
| UploadController.SuccessfulUpload | src/controllers/uploadController.ts:45-53 | with the right key the reply is the URL of `<stem><ext>`, and the index records that name with `.png` appended |
| RandomRoutes.ListedNames | src/routes/randomRoutes.ts:19 | cached names are never empty and contain no newline |
| RandomRoutes.Refresh | src/routes/randomRoutes.ts:15-24 | a successful read replaces the list and stamps the completion time; a failed read changes nothing |
| RandomRoutes.Pick | src/routes/randomRoutes.ts:38 | a non-empty list yields one of its names; an empty one yields "undefined" |
| RandomRoutes.PickReachesEveryName | src/routes/randomRoutes.ts:38 | every cached name is picked by some draw |
| RandomRoutes.HandleRandom | src/routes/randomRoutes.ts:30-45 | a refresh starts exactly when more than an hour has passed; the redirect is `/i/` plus a cached name, or `/i/undefined` for an empty cache |
| RandomRoutes.StalenessIsStrict | src/routes/randomRoutes.ts:13 | exactly one hour after a refresh the cache is fresh; one millisecond later it is stale |
| RandomRoutes.RefreshNotAwaited | src/routes/randomRoutes.ts:32-38 | the request that starts a refresh picks from the old list, whatever the refresh reads |
| RandomRoutes.Listed | src/controllers/uploadController.ts:48 | each stored name is listed with `.png` appended, in order |
| RandomRoutes.IndexFileLines | src/routes/randomRoutes.ts:19 | the index file's lines are the listed names followed by one empty line |
| RandomRoutes.NonEmptyDropsLast | src/routes/randomRoutes.ts:19 | `filter(Boolean)` removes only the trailing empty line from such a list |
| RandomRoutes.IndexReadBack | src/routes/randomRoutes.ts:17-20 | reading back the file the uploads appended to caches every stored name, in order, with `.png` appended |
| AddTimestamps.Stamp | src/middlewares/addTimestamps.ts:11-14 | the stamped body has the original keys plus `timestamp`, set to now + 1 h; every other key keeps its value |
| AddTimestamps.StampIdempotent | src/middlewares/addTimestamps.ts:11-14 | stamping twice at the same instant equals stamping once |
| AddTimestamps.StampOverwrites | src/middlewares/addTimestamps.ts:11-14 | an existing `timestamp` is overwritten; without one, removing it again gives the original body |
| AddTimestamps.StampReply | src/middlewares/addTimestamps.ts:6-17 | only `res.json` bodies are stamped; status and every other reply are unchanged |
| TimeHandler.UnixSeconds | src/middlewares/time.ts:5 | the result is the floor of milliseconds over 1000 |
| TimeHandler.GetTime | src/middlewares/time.ts:3-8 | status 200 with exactly `timestamp` (first clock read) and `timestamp_unix` (floor seconds of the second read) |
| TimeHandler.StampedTimeDisagrees | src/middlewares/time.ts:7 | after stamping, `timestamp` is now + 1 h while `timestamp_unix` is unshifted: they differ by one hour plus under a second |
| FormatBytes.Scale | src/utils/formatBytes.ts:5-8 | the magnitude is below 1024 and times `1024^unit` gives back the input; inputs below 1024 (0 and negatives included) stay in unit 0 |
| FormatBytes.ScaleBrackets | src/utils/formatBytes.ts:5-8 | for b ≥ 1 the unit k satisfies `1024^k ≤ b < 1024^(k+1)` |
| FormatBytes.ScaleUnitOf | src/utils/formatBytes.ts:5-8 | conversely, a value between `1024^k` and `1024^(k+1)` gets unit k |
| FormatBytes.ScaleMonotone | src/utils/formatBytes.ts:5-8 | a larger value never gets a smaller unit |
| FormatBytes.PowMonotone | src/utils/formatBytes.ts:5-8 | powers of 1024 grow with the exponent |
| FormatBytes.ScaleBeyondUnits | src/utils/formatBytes.ts:2-10 | from `1024^9` on, the unit index is past the nine suffixes and renders as "undefined" |
| FormatBytes.FormatBytes | src/utils/formatBytes.ts:1-11 | the loop ends with the scaled magnitude and its unit suffix; a value below 1024 is shown in `B` unchanged |
| Metrics.ScaleStorage | src/middlewares/metrics.ts:44-48 | after the loop both figures are below 1024 |
| Metrics.ScaleStorageExact | src/middlewares/metrics.ts:45-47 | both figures were divided by the same power of 1024 |
| Metrics.StorageUnitOfMax | src/middlewares/metrics.ts:44-48 | the shared unit is the one the larger figure alone would get |
| Metrics.StorageRatioKept | src/middlewares/metrics.ts:45-47 | the ratio of used to total is preserved |
| Metrics.StorageUnitBrackets | src/middlewares/metrics.ts:44-48 | the unit k is the least with `max(used, total) / 1024^k < 1024` |
| Metrics.StorageText | src/middlewares/metrics.ts:41-50 | both figures are the scaled ones with two decimals, each followed by the storage suffix of the shared unit, joined by " of " |
| Metrics.StorageSuffixesDiffer | src/middlewares/metrics.ts:41 | from the second unit on, storage suffixes (`KB`…) differ from `formatBytes`'s (`KiB`…) |
| Metrics.RamUsage | src/middlewares/metrics.ts:29-35 | the `/1024` cancels: the percentage is `(total - available) / total * 100`, within [0, 100] when available ≤ total; zero total gives NaN or -Infinity |
| Metrics.Fahrenheit | src/middlewares/metrics.ts:57 | converting the result back to Celsius gives the input |
| Metrics.CpuTemperature | src/middlewares/metrics.ts:53-59 | the strings end in `°C` and `°F`; without a `Tctl` reading both show `N/A`; with one, Celsius shows the reading and Fahrenheit its conversion |
| Metrics.MetricsBody | src/middlewares/metrics.ts:87-110 | the body has exactly the four base keys, the four optional ones and both timestamps, each holding the corresponding reading; only the Celsius text is included |
| Metrics.GetMetrics | src/middlewares/metrics.ts:87-113 | a failed system read rejects the promise with its error; otherwise the body is sent with status 200 as `application/json; charset=utf-8` through `res.send` |
| Metrics.FahrenheitDiscarded | src/middlewares/metrics.ts:90-99 | two readings with the same Celsius text give the same body, whatever their Fahrenheit text |
| Server.Dispatch | src/server.ts:15-23 | GET `/metrics` and GET `/time`, with or without a trailing slash, always reach their own handlers, before the image router |
| Server.UnroutedIffNoRoute | src/server.ts:15-23 | a GET or POST goes unanswered exactly when no registered route accepts it; every other method goes unanswered |
| Server.UploadedUrlIsServed | src/controllers/uploadController.ts:18-23 | a GET of the path in an upload's URL reaches the image handlers as `i/<name>`, whose location is the file multer stored, so the stored file is resized and sent |
| Server.IndexFileIsServed | src/controllers/uploadController.ts:47 | GET `/i/uploads-i.txt` goes to `sharp` once the index file exists, and gets the 404 with `path` `-i.txt` before that |
| Server.SharexLocation | src/controllers/uploadController.ts:18-23 | the image handlers' location for `i/<name>` is multer's storage location for `<name>` |
| Server.IndexLocation | src/controllers/uploadController.ts:47 | the image handlers' location for `i/uploads-i.txt` is the index file |
| Server.SharexRequest | src/server.ts:23 | GET `/i/<name>` resizes the file `i/<name>` when it exists and is answered 404 with its stripped location otherwise |
| Server.Serve | src/server.ts:11-29 | a body-parser error gives the error middleware's 500; otherwise every JSON answer carries the stamp and every other answer is the route's own |
| Server.BodyErrorUnstamped | src/server.ts:12-29 | the body-parser error skips the timestamp wrapper: its 500 body has no `timestamp` |
| Server.RouteJsonStamped | src/server.ts:13 | every route's JSON answer, errors included, is the route's body stamped |
| Server.MetricsRouteFirst | src/server.ts:16 | `/metrics` would match the image route, but its own handler answers first, and, when every system read succeeds, its body keeps its own timestamp |
| Server.TimeRouteRestamped | src/server.ts:19 | `/time`'s own timestamp is replaced by the wrapper's, while `timestamp_unix` is kept |
| Server.RandomRouteUnmounted | src/server.ts:1-23 | GET `/random` reaches the image router with no path segment and gets the stamped 400 |
| Server.UploadRoot | src/server.ts:22 | GET `/upload` redirects to `/`, POST runs the upload handler, and the redirect target answers nothing |
| Server.UploadDoubleSlashRoot | src/server.ts:22 | GET `/upload//` redirects to `/` and POST runs the upload handler, as for `/upload` |
| Server.UploadSubpathIsImage | src/server.ts:22-23 | GET `/upload/x` is served as the image `x` in segment `upload` |
| Server.NestedPathIsImage | src/server.ts:15-23 | GET `/a/b/name` is served by the image handlers as the image `name` in segment `a/b` |
| Server.LeadingDoubleSlashUnrouted | src/server.ts:15-23 | a path starting with `//` is answered by no route, whatever the method |
| Server.UnroutedPath | src/server.ts:15-23 | a path that no fixed route, upload root or image pattern accepts is answered by no route |
| Server.ImageRouteGetOnly | src/server.ts:23 | a POST to an image path outside the upload root is answered by no route |

## Left out

- File contents, `fs.existsSync`, `readFile` and `appendFile` are parameters: a set of existing locations, a read result and an append outcome.
- `sharp` is an opaque `Sharp` value. It can refuse a resize, and its `toBuffer` returns bytes or an error. Pixel geometry of `inside` and `cover` is not modelled.
- multer's multipart parsing is left out: its outcome (an error, or the original name of a `sharex` part) is a parameter. Where the file is written is modelled (`UploadController.StoredPath`, multer's `path.join(destination, filename)`), but that the file then exists is not: the set of existing files is a separate parameter.
- The index file's `path.resolve(uploadsDir, sharexDir, 'uploads-i.txt')` is modelled as `path.join` of the same arguments (`UploadController.IndexPath`). The two agree because the upload directory is absolute; for a relative first argument `path.resolve` would also prepend the working directory.
- `Math.random()` is a sequence of draws in [0, 1). `Date.now()` and `new Date()` are integer clock readings. `setInterval` and the asynchronous interleaving of refreshes are replaced by explicit `Refresh` steps.
- `toFixed`, `toISOString` and number-to-string conversion are opaque pieces (`Fixed`, `IsoTime`) of a JSON text, not rendered characters.
- Floating point is modelled with exact reals. Division by 1024 is exact in binary floating point, but the model does not track rounding elsewhere (the RAM percentage, Fahrenheit).
- FormatBytes.FormatBytes: NaN and Infinity inputs are not modelled. The source's loop never ends on Infinity.
- Metrics.CpuTemperature: the `sensors` output, the `Tctl` regular expression and `parseFloat` are left out; the reading is given as an optional real.
- Metrics.RamUsage: `/proc/meminfo` parsing is left out; the two figures are given as naturals. A missing line is a read failure of `Metrics.GetMetrics`.
- Metrics.GetMetrics: which system read fails, and the order in which the reads run, are not modelled; the first failure's error is a parameter.
- Shell-outs (`top`, `nproc`, `df`, `lsb_release`, `systemd-detect-virt`, `timedatectl`) and the ipinfo.io `fetch` are I/O. Their outputs are opaque strings.
- `src/utils/formatTime.ts` is not part of this model. Nothing in the modelled code calls it.
- What Express does with a rejected handler promise (a `Rejected` reply) depends on its major version and is not modelled.
- `resizeImage`'s `typeof requestedPath !== "string"` 404 branch has no counterpart, because `path.join` always returns a string.
- The random route's `catch` branch is left out, because nothing in its `try` throws in the model.
- Express matching details are left out: case-insensitive paths, HEAD requests answered by GET routes, and percent-decoding of parameters. The optional trailing slash of the fixed routes and of the image route, and the `/upload` mount's optional slash (which makes `/upload//` the router's root), are modelled.
- Server.UnroutedIffNoRoute: Express 4's automatic OPTIONS answer is not modelled. When some route matches the path under another method (`OPTIONS /time`, `OPTIONS /upload`, `OPTIONS /a/b`), Express answers 200 with an `Allow` list, but the model counts every method other than GET and POST as unanswered. The same holds for `Server.Dispatch` and `Server.UnroutedPath`.
- JSON key order and serialization (`JSON.stringify`) are left out: bodies are maps.
- Strings are sequences of characters, not UTF-16 code units.
- Text.ToLowerAscii: only ASCII capitals are lower-cased. JavaScript's `toLowerCase` also lowers other letters (`É`), turns `İ` into two code units and lowers a final sigma by context.
- JsNumber.ParseInt: the value is an exact integer. JavaScript rounds it to the nearest double beyond 2^53 - 1, gives Infinity for about 309 digits or more, and gives -0 for `-0`.
- JsNumber.ParseIntDigits: stated only for values up to 2^53 - 1, where the exact value is JavaScript's.
- JsNumber.ParseIntMinusDigits: stated only for values up to 2^53 - 1, as above.
- JsNumber.ParseIntRoundTrip: stated only for safe integers, as above.
- JsNumber.ParseIntSignedDecimal: stated only for safe integers, as above.
- ImageController.ParseResizeRoundTrip: stated only for safe integers, as above.
- ImageController.ParseResizeDigitPrefixes: stated only for digit values up to 2^53 - 1, as above.
- `app.listen` and the `PORT` constant are process bootstrap.
