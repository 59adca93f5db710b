/** `src/routes/randomRoutes.ts`: the cache of names read from
    `uploads-i.txt` and the `GET /` handler that redirects to a random one.
    The module-level variables are the `Cache` value; `Date.now()`, the file
    read and `Math.random()` are parameters. */
module RandomRoutes {
  import opened Wrappers
  import opened Text
  import opened JsNumber
  import opened Http
  import opened UploadController

  /** `cachedFilenames` and `lastCachedTime`. */
  datatype Cache = Cache(names: seq<string>, lastCached: int)

  /** The state at module load: an empty list, cached at time 0. */
  const InitialCache: Cache := Cache([], 0)

  /** `60 * 60 * 1000`: one hour in milliseconds. */
  const CacheDuration: int := 3600000

  /** The names listed in the index file's text: its `\n`-separated lines
      with the empty ones dropped. */
  function ListedNames(data: string): (names: seq<string>)
    ensures forall i :: 0 <= i < |names| ==> names[i] != "" && '\n' !in names[i]
  {
    NonEmpty(Split(data, '\n'))
  }

  /** `cacheFilenames`: a successful read replaces the list and stamps the
      completion time `now`; a failed read is only logged. */
  function Refresh(c: Cache, read: Result<string>, now: int): (c': Cache)
    ensures read.Err? ==> c' == c
    ensures read.Ok? ==> c'.lastCached == now && c'.names == ListedNames(read.value)
  {
    match read
    case Ok(data) => Cache(ListedNames(data), now)
    case Err(_) => c
  }

  /** `Date.now() - lastCachedTime > cacheDuration`. */
  predicate IsStale(c: Cache, now: int)
  {
    now - c.lastCached > CacheDuration
  }

  /** The name at `Math.floor(Math.random() * length)`; indexing an empty
      array gives `undefined`, which the template literal renders as
      "undefined". */
  function Pick(names: seq<string>, draw: UnitReal): (name: string)
    ensures names != [] ==> name in names
    ensures names == [] ==> name == "undefined"
  {
    if names == [] then "undefined" else names[FloorIndex(draw, |names|)]
  }

  /** Every cached name can be picked. */
  lemma PickReachesEveryName(names: seq<string>, k: nat)
    requires k < |names|
    ensures Pick(names, k as real / |names| as real) == names[k]
  {
    FloorIndexReaches(k, |names|);
  }

  /** What one `GET /` does: the reply, and whether it started a refresh. */
  datatype RandomStep = RandomStep(reply: Reply, refreshStarted: bool)

  /** The handler. A stale cache starts `cacheFilenames()` without awaiting
      it, so the pick is made from the list as it was when the request
      arrived. */
  function HandleRandom(c: Cache, now: int, draw: UnitReal): (step: RandomStep)
    ensures step.refreshStarted <==> now - c.lastCached > CacheDuration
    ensures c.names == [] ==> step.reply == Redirect("/i/undefined")
    ensures c.names != [] ==> exists k :: 0 <= k < |c.names| && step.reply == Redirect("/i/" + c.names[k])
  {
    var name := Pick(c.names, draw);
    assert "/i/" + "undefined" == "/i/undefined";
    RandomStep(Redirect("/i/" + name), IsStale(c, now))
  }

  /** The staleness test is strict: exactly one hour after a refresh the
      cache is still fresh, one millisecond later it is stale. */
  lemma StalenessIsStrict(c: Cache)
    ensures !HandleRandom(c, c.lastCached + CacheDuration, 0.0).refreshStarted
    ensures HandleRandom(c, c.lastCached + CacheDuration + 1, 0.0).refreshStarted
  {
  }

  /** The request that triggers a refresh answers from the old list, whatever
      the refresh will read. */
  lemma RefreshNotAwaited(c: Cache, now: int, draw: UnitReal, read: Result<string>, later: int)
    requires IsStale(c, now)
    ensures HandleRandom(c, now, draw).reply == Redirect("/i/" + Pick(c.names, draw))
    ensures read.Ok? ==> Refresh(c, read, later).names == ListedNames(read.value)
  {
  }

  // ---------------------------------------------------------------------
  // the index file written by uploads, read back by the cache
  // ---------------------------------------------------------------------

  /** The text of `uploads-i.txt` after the given uploads, starting from an
      empty file: one index line per stored name, in order. */
  function IndexFile(stored: seq<string>): string
  {
    if stored == [] then "" else IndexLine(stored[0]) + IndexFile(stored[1..])
  }

  /** What the cache lists for a stored name: the name with `.png`. */
  function Listed(stored: seq<string>): (r: seq<string>)
    ensures |r| == |stored|
    ensures forall i :: 0 <= i < |r| ==> r[i] == stored[i] + ".png"
  {
    if stored == [] then [] else [stored[0] + ".png"] + Listed(stored[1..])
  }

  predicate LineFree(stored: seq<string>)
  {
    forall i :: 0 <= i < |stored| ==> '\n' !in stored[i]
  }

  /** The lines of the index file are the listed names and a final empty
      line after the last newline. */
  lemma {:induction false} IndexFileLines(stored: seq<string>)
    requires LineFree(stored)
    ensures Split(IndexFile(stored), '\n') == Listed(stored) + [""]
  {
    if stored != [] {
      var entry := stored[0] + ".png";
      assert '\n' !in entry;
      assert IndexFile(stored) == entry + "\n" + IndexFile(stored[1..]);
      assert LineFree(stored[1..]) by {
        forall i | 0 <= i < |stored[1..]| ensures '\n' !in stored[1..][i] {
          assert stored[1..][i] == stored[i + 1];
        }
      }
      IndexFileLines(stored[1..]);
      SplitConcat(entry, IndexFile(stored[1..]), '\n');
      SplitNoSeparator(entry, '\n');
      assert Listed(stored) + [""] == [entry] + (Listed(stored[1..]) + [""]);
    }
  }

  /** Dropping empty pieces from a list whose only empty piece is the last. */
  lemma {:induction false} NonEmptyDropsLast(xs: seq<string>)
    requires forall i :: 0 <= i < |xs| ==> xs[i] != ""
    ensures NonEmpty(xs + [""]) == xs
  {
    if xs != [] {
      assert (xs + [""])[1..] == xs[1..] + [""];
      NonEmptyDropsLast(xs[1..]);
      assert xs == [xs[0]] + xs[1..];
    }
  }

  /** Reading back the index file the uploads wrote lists every stored name,
      in order, with `.png` appended: a `.png` upload `abcde.png` is listed
      as `abcde.png.png`, and the random route then redirects to a name no
      upload was stored under. */
  lemma IndexReadBack(stored: seq<string>, c: Cache, now: int)
    requires LineFree(stored)
    ensures Refresh(c, Ok(IndexFile(stored)), now) == Cache(Listed(stored), now)
  {
    IndexFileLines(stored);
    NonEmptyDropsLast(Listed(stored));
  }
}
