/** Node's POSIX `path` functions the service calls: `path.join` (with
    `path.normalize`) and `path.extname`. */
module PosixPath {
  import opened Wrappers
  import opened Text

  // ---------------------------------------------------------------------
  // normalize and join
  // ---------------------------------------------------------------------

  /** How one `/`-separated segment acts on the segments kept so far:
      empty and `.` segments vanish, `..` drops the last kept segment (when
      there is one that is not itself `..`; otherwise a relative path keeps
      the `..` and an absolute one discards it), anything else is kept. */
  function Step(kept: seq<string>, seg: string, relative: bool): seq<string>
  {
    if seg == "" || seg == "." then kept
    else if seg == ".." then
      if |kept| > 0 && kept[|kept| - 1] != ".." then kept[..|kept| - 1]
      else if relative then kept + [".."]
      else kept
    else kept + [seg]
  }

  /** The segments left after applying `segs` in order. */
  function Fold(kept: seq<string>, segs: seq<string>, relative: bool): seq<string>
    decreases |segs|
  {
    if |segs| == 0 then kept else Fold(Step(kept, segs[0], relative), segs[1..], relative)
  }

  /** Folding slash-free segments keeps only non-empty, slash-free ones. */
  lemma {:induction false} FoldSegments(kept: seq<string>, segs: seq<string>, relative: bool)
    requires forall i :: 0 <= i < |kept| ==> kept[i] != "" && '/' !in kept[i]
    requires forall i :: 0 <= i < |segs| ==> '/' !in segs[i]
    ensures forall i :: 0 <= i < |Fold(kept, segs, relative)| ==>
      Fold(kept, segs, relative)[i] != "" && '/' !in Fold(kept, segs, relative)[i]
    decreases |segs|
  {
    if |segs| > 0 {
      var next := Step(kept, segs[0], relative);
      FoldSegments(next, segs[1..], relative);
      assert Fold(kept, segs, relative) == Fold(next, segs[1..], relative);
    }
  }

  /** `path.normalize(p)`: never empty, absolute exactly when `p` is, and
      ending in a slash when `p` does. */
  function Normalize(p: string): (r: string)
    ensures r != ""
    ensures |p| > 0 ==> (r[0] == '/' <==> p[0] == '/')
    ensures |p| > 0 && p[|p| - 1] == '/' ==> r[|r| - 1] == '/'
  {
    if |p| == 0 then "."
    else
      var absolute := p[0] == '/';
      var trailing := p[|p| - 1] == '/';
      var segs := Fold([], Split(p, '/'), !absolute);
      if |segs| == 0 then (if absolute then "/" else if trailing then "./" else ".")
      else
        FoldSegments([], Split(p, '/'), !absolute);
        var j := Join(segs, '/');
        assert segs[0] != "" && '/' !in segs[0];
        assert j[0] == segs[0][0] != '/';
        var r := (if absolute then "/" else "") + j + (if trailing then "/" else "");
        assert r[0] == (if absolute then '/' else j[0]);
        r
  }

  /** `path.join(...args)`: the non-empty arguments joined with `/`, then
      normalized; `"."` when every argument is empty. The result is never
      empty and is absolute when the first argument is. */
  function JoinPaths(args: seq<string>): (r: string)
    ensures r != ""
    ensures |args| > 0 && args[0] != "" && args[0][0] == '/' ==> r[0] == '/'
  {
    var joined := Join(NonEmpty(args), '/');
    if joined == "" then "." else Normalize(joined)
  }

  /** A segment that normalization keeps as it is. */
  predicate IsPlainSegment(s: string)
  {
    s != "" && s != "." && s != ".." && '/' !in s
  }

  predicate AllPlain(segs: seq<string>)
  {
    forall i :: 0 <= i < |segs| ==> IsPlainSegment(segs[i])
  }

  /** The absolute path with the given segments. */
  function AbsolutePath(segs: seq<string>): string
  {
    "/" + Join(segs, '/')
  }

  /** `p` lies strictly inside directory `dir`. */
  predicate IsUnder(dir: string, p: string)
  {
    dir + "/" <= p
  }

  lemma {:induction false} FoldConcat(kept: seq<string>, xs: seq<string>, ys: seq<string>, relative: bool)
    ensures Fold(kept, xs + ys, relative) == Fold(Fold(kept, xs, relative), ys, relative)
    decreases |xs|
  {
    if |xs| > 0 {
      assert (xs + ys)[1..] == xs[1..] + ys;
      FoldConcat(Step(kept, xs[0], relative), xs[1..], ys, relative);
    } else {
      assert xs + ys == ys;
    }
  }

  /** Plain segments are kept unchanged and in order. */
  lemma {:induction false} FoldPlain(kept: seq<string>, segs: seq<string>, relative: bool)
    requires AllPlain(segs)
    ensures Fold(kept, segs, relative) == kept + segs
    decreases |segs|
  {
    if |segs| > 0 {
      FoldPlain(kept + [segs[0]], segs[1..], relative);
      assert kept + [segs[0]] + segs[1..] == kept + segs;
    }
  }

  lemma SplitAbsolute(segs: seq<string>)
    requires |segs| >= 1
    requires forall i :: 0 <= i < |segs| ==> '/' !in segs[i]
    ensures Split(AbsolutePath(segs), '/') == [""] + segs
  {
    assert AbsolutePath(segs) == "" + ['/'] + Join(segs, '/');
    SplitConcat("", Join(segs, '/'), '/');
    SplitJoin(segs, '/');
  }

  /** A join ends with the last character of its last (non-empty) part. */
  lemma JoinLastChar(segs: seq<string>, d: char)
    requires |segs| >= 1 && segs[|segs| - 1] != ""
    ensures var j := Join(segs, d); |j| > 0 && j[|j| - 1] == segs[|segs| - 1][|segs[|segs| - 1]| - 1]
  {
    if |segs| > 1 {
      var init := segs[..|segs| - 1];
      assert segs == init + [segs[|segs| - 1]];
      JoinAppend(init, segs[|segs| - 1], d);
    }
  }

  /** Reading off `path.normalize` for an absolute path without a trailing
      slash once its kept segments are known. */
  lemma NormalizeOfParts(p: string, segs: seq<string>)
    requires |p| > 0 && p[0] == '/' && p[|p| - 1] != '/'
    requires Fold([], Split(p, '/'), false) == segs && |segs| > 0
    ensures Normalize(p) == AbsolutePath(segs)
  {
  }

  /** Reading off `path.join` once the joined string is known. */
  lemma JoinPathsOf(args: seq<string>, joined: string)
    requires Join(NonEmpty(args), '/') == joined && joined != ""
    ensures JoinPaths(args) == Normalize(joined)
  {
  }

  /** An absolute path of plain segments is already normal. */
  lemma NormalizeAbsolutePlain(segs: seq<string>)
    requires |segs| >= 1 && AllPlain(segs)
    ensures Normalize(AbsolutePath(segs)) == AbsolutePath(segs)
  {
    var p := AbsolutePath(segs);
    SplitAbsolute(segs);
    JoinLastChar(segs, '/');
    assert p[|p| - 1] != '/';
    FoldPlain([], segs, false);
    assert Fold([], [""] + segs, false) == Fold([], segs, false);
    NormalizeOfParts(p, segs);
  }

  /** Appending a segment to an absolute path. */
  lemma AbsoluteAppend(segs: seq<string>, last: string)
    requires |segs| >= 1
    ensures AbsolutePath(segs + [last]) == AbsolutePath(segs) + "/" + last
  {
    JoinAppend(segs, last, '/');
  }

  lemma JoinArgs(x: string, a: string, b: string)
    requires x != "" && a != "" && b != ""
    ensures Join(NonEmpty([x, a, b]), '/') == x + "/" + a + "/" + b
  {
    assert [x, a, b][1..] == [a, b];
    assert [a, b][1..] == [b];
    assert NonEmpty([b]) == [b];
    assert NonEmpty([a, b]) == [a, b];
    assert NonEmpty([x, a, b]) == [x, a, b];
    assert Join([a, b], '/') == a + "/" + b;
  }

  /** `path.join(root, a, b)` with a normal absolute `root` and three-argument
      parts that are non-empty. */
  lemma JoinThree(rs: seq<string>, a: string, b: string)
    requires |rs| >= 1
    requires a != "" && b != ""
    ensures JoinPaths([AbsolutePath(rs), a, b]) == Normalize(AbsolutePath(rs + [a, b]))
  {
    var root := AbsolutePath(rs);
    var all := AbsolutePath(rs + [a, b]);
    JoinArgs(root, a, b);
    AbsoluteAppend(rs, a);
    AbsoluteAppend(rs + [a], b);
    assert rs + [a] + [b] == rs + [a, b];
    assert root + "/" + a + "/" + b == all;
    JoinPathsOf([root, a, b], all);
  }

  /** Joining two plain segments onto a normal absolute directory gives the
      directory, `/`, the first, `/`, the second: the result stays inside the
      directory. */
  lemma JoinPlainStaysUnder(rs: seq<string>, a: string, b: string)
    requires |rs| >= 1 && AllPlain(rs)
    requires IsPlainSegment(a) && IsPlainSegment(b)
    ensures JoinPaths([AbsolutePath(rs), a, b]) == AbsolutePath(rs) + "/" + a + "/" + b
    ensures IsUnder(AbsolutePath(rs), JoinPaths([AbsolutePath(rs), a, b]))
  {
    JoinThree(rs, a, b);
    assert AllPlain(rs + [a, b]);
    NormalizeAbsolutePlain(rs + [a, b]);
    AbsoluteAppend(rs, a);
    AbsoluteAppend(rs + [a], b);
    assert rs + [a] + [b] == rs + [a, b];
  }

  /** Applying `..` and a plain segment after the plain segments `rs`. */
  lemma FoldDotDot(rs: seq<string>, b: string)
    requires |rs| >= 1 && AllPlain(rs)
    requires IsPlainSegment(b)
    ensures Fold([], [""] + (rs + ["..", b]), false) == rs[..|rs| - 1] + [b]
  {
    var all := rs + ["..", b];
    var init := rs[..|rs| - 1];
    assert ([""] + all)[1..] == all;
    assert Fold([], [""] + all, false) == Fold([], all, false);
    FoldPlain([], rs, false);
    assert [] + rs == rs;
    FoldConcat([], rs, ["..", b], false);
    assert Fold([], all, false) == Fold(rs, ["..", b], false);
    assert IsPlainSegment(rs[|rs| - 1]);
    assert Step(rs, "..", false) == init;
    assert ["..", b][1..] == [b];
    assert Fold(rs, ["..", b], false) == Fold(init, [b], false);
    assert Fold(init, [b], false) == Fold(init + [b], [], false);
  }

  /** A path next to `dir` (same parent, other last segment) is not inside `dir`. */
  lemma SiblingNotUnder(rs: seq<string>, b: string)
    requires |rs| >= 1 && AllPlain(rs)
    requires IsPlainSegment(b)
    ensures !IsUnder(AbsolutePath(rs), AbsolutePath(rs[..|rs| - 1] + [b]))
  {
    var root := AbsolutePath(rs);
    var init := rs[..|rs| - 1];
    var last := rs[|rs| - 1];
    var result := AbsolutePath(init + [b]);
    var prefix := if |init| == 0 then "/" else AbsolutePath(init) + "/";
    assert rs == init + [last];
    if |init| == 0 {
      assert result == prefix + b;
      assert root == prefix + last;
    } else {
      AbsoluteAppend(init, b);
      AbsoluteAppend(init, last);
    }
    assert result == prefix + b;
    // the character after `last` is the slash in `root + "/"`, but a
    // character of the slash-free `b` in the result
    var u := root + "/";
    assert u == prefix + last + "/";
    if |last| < |b| {
      var k := |prefix| + |last|;
      assert u[k] == '/';
      assert result[k] == b[|last|];
      assert b[|last|] in b;
      NotPrefixAt(u, result, k);
    }
  }

  /** Two strings that differ at an index both reach are not prefix-related. */
  lemma NotPrefixAt(u: string, v: string, k: nat)
    requires k < |u| && k < |v| && u[k] != v[k]
    ensures !(u <= v)
  {
  }

  /** A `..` path segment climbs out of the directory: `path.join(dir, "..", b)`
      is the parent of `dir` followed by `b`, and it is not inside `dir`. */
  lemma JoinDotDotEscapes(rs: seq<string>, b: string)
    requires |rs| >= 1 && AllPlain(rs)
    requires IsPlainSegment(b)
    ensures JoinPaths([AbsolutePath(rs), "..", b]) == AbsolutePath(rs[..|rs| - 1] + [b])
    ensures !IsUnder(AbsolutePath(rs), JoinPaths([AbsolutePath(rs), "..", b]))
  {
    var all := rs + ["..", b];
    JoinThree(rs, "..", b);
    assert forall i :: 0 <= i < |all| ==> '/' !in all[i];
    SplitAbsolute(all);
    FoldDotDot(rs, b);
    JoinLastChar(all, '/');
    NormalizeOfParts(AbsolutePath(all), rs[..|rs| - 1] + [b]);
    SiblingNotUnder(rs, b);
  }

  /** A segment that is plain or empty (the gap a doubled slash leaves). */
  predicate IsLooseSegment(s: string)
  {
    s == "" || IsPlainSegment(s)
  }

  /** Empty segments vanish and plain ones are kept: folding such segments
      appends exactly the non-empty ones, in order. */
  lemma {:induction false} FoldLoose(kept: seq<string>, segs: seq<string>, relative: bool)
    requires forall i :: 0 <= i < |segs| ==> IsLooseSegment(segs[i])
    ensures Fold(kept, segs, relative) == kept + NonEmpty(segs)
    decreases |segs|
  {
    if |segs| > 0 {
      var next := Step(kept, segs[0], relative);
      assert Fold(kept, segs, relative) == Fold(next, segs[1..], relative);
      FoldLoose(next, segs[1..], relative);
      if segs[0] == "" {
        assert next == kept;
        assert NonEmpty(segs) == NonEmpty(segs[1..]);
      } else {
        assert next == kept + [segs[0]];
        assert NonEmpty(segs) == [segs[0]] + NonEmpty(segs[1..]);
        assert kept + [segs[0]] + NonEmpty(segs[1..]) == kept + ([segs[0]] + NonEmpty(segs[1..]));
      }
    }
  }

  /** Reading off `path.normalize` for an absolute path with a trailing
      slash once its kept segments are known. */
  lemma NormalizeOfPartsTrailing(p: string, segs: seq<string>)
    requires |p| > 0 && p[0] == '/' && p[|p| - 1] == '/'
    requires Fold([], Split(p, '/'), false) == segs && |segs| > 0
    ensures Normalize(p) == AbsolutePath(segs) + "/"
  {
  }

  /** `path.normalize` of an absolute path whose segments after the plain
      `rs` may include empty ones and whose last segment is not empty: the
      empty segments disappear. */
  lemma NormalizeAbsoluteLoose(rs: seq<string>, tail: seq<string>)
    requires |rs| >= 1 && AllPlain(rs)
    requires forall i :: 0 <= i < |tail| ==> IsLooseSegment(tail[i])
    requires |tail| > 0 && tail[|tail| - 1] != ""
    ensures Normalize(AbsolutePath(rs + tail)) == AbsolutePath(rs + NonEmpty(tail))
  {
    var all := rs + tail;
    var p := AbsolutePath(all);
    var segs := rs + NonEmpty(tail);
    FoldOfLoose(rs, tail);
    LooseSlashFree(rs, tail);
    EndsInName(all);
    assert p[0] == '/';
    NormalizeOfParts(p, segs);
  }

  /** The same with a last segment that is empty: the path ends in a slash,
      and so does its normal form. */
  lemma NormalizeAbsoluteLooseTrailing(rs: seq<string>, tail: seq<string>)
    requires |rs| >= 1 && AllPlain(rs)
    requires forall i :: 0 <= i < |tail| ==> IsLooseSegment(tail[i])
    requires |tail| > 0 && tail[|tail| - 1] == ""
    ensures Normalize(AbsolutePath(rs + tail)) == AbsolutePath(rs + NonEmpty(tail)) + "/"
  {
    var all := rs + tail;
    var p := AbsolutePath(all);
    var segs := rs + NonEmpty(tail);
    FoldOfLoose(rs, tail);
    EndsInSlash(all);
    assert p[0] == '/';
    NormalizeOfPartsTrailing(p, segs);
  }

  /** An absolute path whose last segment is empty ends in a slash. */
  lemma EndsInSlash(all: seq<string>)
    requires |all| >= 2 && all[|all| - 1] == ""
    ensures var p := AbsolutePath(all); p[|p| - 1] == '/'
  {
    var init := all[..|all| - 1];
    assert all == init + [""];
    AbsoluteAppend(init, "");
  }

  /** An absolute path whose last segment is not empty ends in it. */
  lemma EndsInName(all: seq<string>)
    requires |all| >= 1 && all[|all| - 1] != ""
    requires forall i :: 0 <= i < |all| ==> '/' !in all[i]
    ensures var p := AbsolutePath(all); p[|p| - 1] != '/'
  {
    JoinLastChar(all, '/');
    var last := all[|all| - 1];
    assert last[|last| - 1] in last;
  }

  /** The segments `path.normalize` keeps from the absolute path of plain
      segments followed by plain or empty ones. */
  lemma FoldOfLoose(rs: seq<string>, tail: seq<string>)
    requires |rs| >= 1 && AllPlain(rs)
    requires forall i :: 0 <= i < |tail| ==> IsLooseSegment(tail[i])
    ensures Fold([], Split(AbsolutePath(rs + tail), '/'), false) == rs + NonEmpty(tail)
  {
    var all := rs + tail;
    LooseSlashFree(rs, tail);
    SplitAbsolute(all);
    FoldSkipsRoot(all);
    FoldPlainThenLoose(rs, tail);
  }

  lemma LooseSlashFree(rs: seq<string>, tail: seq<string>)
    requires AllPlain(rs)
    requires forall i :: 0 <= i < |tail| ==> IsLooseSegment(tail[i])
    ensures forall i :: 0 <= i < |rs + tail| ==> '/' !in (rs + tail)[i]
  {
    forall i | 0 <= i < |rs + tail| ensures '/' !in (rs + tail)[i] {
      if i < |rs| {
        assert (rs + tail)[i] == rs[i];
      } else {
        assert (rs + tail)[i] == tail[i - |rs|];
      }
    }
  }

  /** The empty segment before the root slash is dropped. */
  lemma FoldSkipsRoot(segs: seq<string>)
    ensures Fold([], [""] + segs, false) == Fold([], segs, false)
  {
    assert ([""] + segs)[1..] == segs;
  }

  lemma FoldPlainThenLoose(rs: seq<string>, tail: seq<string>)
    requires AllPlain(rs)
    requires forall i :: 0 <= i < |tail| ==> IsLooseSegment(tail[i])
    ensures Fold([], rs + tail, false) == rs + NonEmpty(tail)
  {
    FoldConcat([], rs, tail, false);
    FoldPlain([], rs, false);
    assert [] + rs == rs;
    FoldLoose(rs, tail, false);
  }

  /** `path.join` with a directory argument `d/` that ends in a slash:
      joining it onto a normal absolute root keeps the slash, and joining a
      plain name onto that result, or passing the name as a third argument,
      gives the same file `root/d/name` as `path.join(root, d, name)`. */
  lemma JoinIntoSlashedDirectory(rs: seq<string>, d: string, name: string)
    requires |rs| >= 1 && AllPlain(rs)
    requires IsPlainSegment(d) && IsPlainSegment(name)
    ensures JoinPaths([AbsolutePath(rs), d + "/"]) == AbsolutePath(rs + [d]) + "/"
    ensures JoinPaths([JoinPaths([AbsolutePath(rs), d + "/"]), name]) == AbsolutePath(rs + [d, name])
    ensures JoinPaths([AbsolutePath(rs), d + "/", name]) == AbsolutePath(rs + [d, name])
  {
    var root := AbsolutePath(rs);
    var dir := AbsolutePath(rs + [d]);
    AbsoluteAppend(rs, d);
    AbsoluteAppend(rs + [d], "");
    assert rs + [d] + [""] == rs + [d, ""];
    JoinTwo(root, d + "/");
    assert root + "/" + (d + "/") == AbsolutePath(rs + [d, ""]);
    NormalizeAbsoluteLooseTrailing(rs, [d, ""]);
    NonEmptyLoose(d, name);
    JoinPathsOf([root, d + "/"], AbsolutePath(rs + [d, ""]));
    assert JoinPaths([root, d + "/"]) == dir + "/";

    AbsoluteAppend(rs + [d, ""], name);
    assert rs + [d, ""] + [name] == rs + [d, "", name];
    var joined := AbsolutePath(rs + [d, "", name]);
    assert joined == dir + "/" + "/" + name;
    NormalizeAbsoluteLoose(rs, [d, "", name]);
    assert Normalize(joined) == AbsolutePath(rs + [d, name]);
    JoinTwo(dir + "/", name);
    JoinPathsOf([dir + "/", name], joined);
    JoinArgs(root, d + "/", name);
    assert root + "/" + (d + "/") + "/" + name == joined;
    JoinPathsOf([root, d + "/", name], joined);
  }

  lemma JoinTwo(x: string, y: string)
    requires x != "" && y != ""
    ensures Join(NonEmpty([x, y]), '/') == x + "/" + y
  {
    assert [x, y][1..] == [y];
    assert NonEmpty([y]) == [y];
    assert NonEmpty([x, y]) == [x, y];
  }

  lemma NonEmptyLoose(d: string, name: string)
    requires d != "" && name != ""
    ensures NonEmpty([d, ""]) == [d]
    ensures NonEmpty([d, "", name]) == [d, name]
  {
    NonEmptySingle(d);
    NonEmptySingle("");
    NonEmptySingle(name);
    assert [d, ""] == [d] + [""];
    NonEmptyConcat([d], [""]);
    assert [d, "", name] == [d] + [""] + [name];
    NonEmptyConcat([d] + [""], [name]);
  }

  // ---------------------------------------------------------------------
  // extname
  // ---------------------------------------------------------------------

  /** `p` without its trailing slashes. */
  function TrimTrailingSlashes(p: string): (r: string)
    ensures |r| <= |p| && r == p[..|r|]
    ensures |r| > 0 ==> r[|r| - 1] != '/'
  {
    if |p| > 0 && p[|p| - 1] == '/' then TrimTrailingSlashes(p[..|p| - 1]) else p
  }

  /** The text after the last `/` of `p` (all of `p` when it has none). */
  function LastSegment(p: string): (r: string)
    ensures '/' !in r
  {
    var parts := Split(p, '/');
    parts[|parts| - 1]
  }

  /** The index of the last `c` in `s`, if any. */
  function LastIndexOf(s: string, c: char): (r: Option<nat>)
    ensures r.Some? ==> r.value < |s| && s[r.value] == c && c !in s[r.value + 1..]
    ensures r.None? ==> c !in s
  {
    if |s| == 0 then None
    else if s[|s| - 1] == c then Some(|s| - 1)
    else
      var r := LastIndexOf(s[..|s| - 1], c);
      assert s == s[..|s| - 1] + [s[|s| - 1]];
      r
  }

  /** `path.extname(p)`: from the last `.` of the last segment to its end,
      except that a segment without a `.`, one whose only `.` is its first
      character, and the segment `..` have no extension. */
  function ExtName(p: string): (r: string)
    ensures r == "" || (r[0] == '.' && '/' !in r && '.' !in r[1..])
  {
    var base := LastSegment(TrimTrailingSlashes(p));
    match LastIndexOf(base, '.')
    case None => ""
    case Some(i) => if i == 0 || base == ".." then "" else base[i..]
  }

  /** A slash-free name `stem.e`, with `e` free of dots and `stem` neither
      empty nor (with `e` empty) a lone dot, has extension `.e`. */
  lemma ExtNameOf(stem: string, e: string)
    requires '/' !in stem && '/' !in e && '.' !in e
    requires stem != "" && (stem != "." || e != "")
    ensures ExtName(stem + "." + e) == "." + e
  {
    var name := stem + "." + e;
    assert '/' !in name;
    assert TrimTrailingSlashes(name) == name;
    SplitNoSeparator(name, '/');
    var i := |stem|;
    assert name[i] == '.' && name[i + 1..] == e;
    assert LastIndexOf(name, '.') == Some(i);
  }

  /** A slash-free name without a dot has no extension. */
  lemma ExtNameWithoutDot(name: string)
    requires '/' !in name && '.' !in name
    ensures ExtName(name) == ""
  {
    SplitNoSeparator(name, '/');
  }
}
