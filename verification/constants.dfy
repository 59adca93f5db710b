/** The configuration constants of `src/utils/constants.ts`. */
module Constants {
  import opened Text
  import opened PosixPath

  /** The shared upload secret as shipped (a placeholder of 64 `X`s). */
  const SecretKey: string := "XXXXXXXXXXXXXXXXXXXXXXXXXXXXXXXXXXXXXXXXXXXXXXXXXXXXXXXXXXXXXXXX"

  /** The upload sub-directory; documented to end with a slash. */
  const SharexDir: string := "i/"

  /** The public domain; documented to start with `https://` and end with a slash. */
  const DomainUrl: string := "https://example.com/"

  /** The length of a generated file name stem. */
  const StringLength: nat := 5

  /** The alphabet of generated file name stems. */
  const StringCharacters: string := "abcdefghijklmnopqrstuvwxyz0123456789"

  /** `path.join(__dirname, '../../public/uploads')` for the directory
      `dirname` the compiled module lives in. */
  function UploadsDir(dirname: string): string
  {
    JoinPaths([dirname, "../../public/uploads"])
  }

  /** The segments `..` leaves of an absolute path. */
  function Parent(segs: seq<string>): seq<string>
  {
    if |segs| == 0 then [] else segs[..|segs| - 1]
  }

  /** For a normal absolute `dirname` the upload root is the grandparent of
      `dirname` followed by `public/uploads` (the root itself when `dirname`
      is less than two levels deep): an absolute path of plain segments whose
      last segment is `uploads`. */
  lemma UploadsDirShape(ds: seq<string>)
    requires |ds| >= 1 && AllPlain(ds)
    ensures UploadsDir(AbsolutePath(ds)) == AbsolutePath(Parent(Parent(ds)) + ["public", "uploads"])
    ensures AllPlain(Parent(Parent(ds)) + ["public", "uploads"])
  {
    var all := ds + ["..", "..", "public", "uploads"];
    var result := Parent(Parent(ds)) + ["public", "uploads"];
    UploadsDirJoined(ds);
    JoinPathsOf([AbsolutePath(ds), "../../public/uploads"], AbsolutePath(all));
    UploadsDirKept(ds);
    JoinLastChar(all, '/');
    NormalizeOfParts(AbsolutePath(all), result);
    assert forall i :: 0 <= i < |Parent(Parent(ds))| ==> Parent(Parent(ds))[i] == ds[i];
  }

  /** The string `path.join` normalizes for the upload root. */
  lemma UploadsDirJoined(ds: seq<string>)
    requires |ds| >= 1
    ensures Join(NonEmpty([AbsolutePath(ds), "../../public/uploads"]), '/')
         == AbsolutePath(ds + ["..", "..", "public", "uploads"])
  {
    var dir := AbsolutePath(ds);
    var rel := "../../public/uploads";
    var tail := ["..", "..", "public", "uploads"];
    NonEmptyPair(dir, rel);
    RelativeUploadsPath();
    JoinPair(dir, rel);
    JoinConcat(ds, tail, '/');
  }

  lemma NonEmptyPair(x: string, y: string)
    requires x != "" && y != ""
    ensures NonEmpty([x, y]) == [x, y]
  {
    assert [x, y][1..] == [y];
    assert [y][1..] == [];
  }

  lemma JoinPair(x: string, y: string)
    ensures Join([x, y], '/') == x + "/" + y
  {
    assert [x, y][1..] == [y];
  }

  /** The relative part of the upload root, segment by segment. */
  lemma RelativeUploadsPath()
    ensures Join(["..", "..", "public", "uploads"], '/') == "../../public/uploads"
  {
    var tail := ["..", "..", "public", "uploads"];
    assert tail[1..] == ["..", "public", "uploads"];
    assert tail[1..][1..] == ["public", "uploads"];
    assert tail[1..][1..][1..] == ["uploads"];
  }

  /** The segments normalization keeps for the upload root. */
  lemma UploadsDirKept(ds: seq<string>)
    requires |ds| >= 1 && AllPlain(ds)
    ensures Fold([], Split(AbsolutePath(ds + ["..", "..", "public", "uploads"]), '/'), false)
         == Parent(Parent(ds)) + ["public", "uploads"]
  {
    var tail := ["..", "..", "public", "uploads"];
    var all := ds + tail;
    assert forall i :: 0 <= i < |all| ==> '/' !in all[i];
    SplitAbsolute(all);
    assert ([""] + all)[1..] == all;
    FoldPlain([], ds, false);
    assert [] + ds == ds;
    FoldConcat([], ds, tail, false);
    assert forall i :: 0 <= i < |ds| ==> ds[i] != ".." by {
      forall i | 0 <= i < |ds| ensures ds[i] != ".." {
        assert IsPlainSegment(ds[i]);
      }
    }
    FoldUploadsTail(ds);
  }

  /** Normalizing `../../public/uploads` after the kept segments `kept`. */
  lemma FoldUploadsTail(kept: seq<string>)
    requires forall i :: 0 <= i < |kept| ==> kept[i] != ".."
    ensures Fold(kept, ["..", "..", "public", "uploads"], false) == Parent(Parent(kept)) + ["public", "uploads"]
  {
    assert ["..", "..", "public", "uploads"] == [".."] + ([".."] + ["public", "uploads"]);
    FoldParentStep(kept, [".."] + ["public", "uploads"]);
    FoldParentStep(Parent(kept), ["public", "uploads"]);
    PublicUploadsPlain();
    FoldPlain(Parent(Parent(kept)), ["public", "uploads"], false);
  }

  lemma PublicUploadsPlain()
    ensures AllPlain(["public", "uploads"])
  {
    assert IsPlainSegment("public");
    assert IsPlainSegment("uploads");
  }

  /** In an absolute path `..` drops the last kept segment. */
  lemma FoldParentStep(kept: seq<string>, rest: seq<string>)
    requires forall i :: 0 <= i < |kept| ==> kept[i] != ".."
    ensures forall i :: 0 <= i < |Parent(kept)| ==> Parent(kept)[i] != ".."
    ensures Fold(kept, [".."] + rest, false) == Fold(Parent(kept), rest, false)
  {
    assert ([".."] + rest)[1..] == rest;
    assert Step(kept, "..", false) == Parent(kept);
  }

  /** The documented shapes of the constants. */
  lemma ConstantShapes()
    ensures StringLength > 0
    ensures |StringCharacters| == 36
    ensures |SharexDir| > 0 && SharexDir[|SharexDir| - 1] == '/' && SharexDir[0] != '/'
    ensures "https://" <= DomainUrl && DomainUrl[|DomainUrl| - 1] == '/'
  {
  }

  /** The i-th character of the alphabet: the 26 lower-case letters, then the
      ten digits. */
  lemma AlphabetLayout(i: nat)
    requires i < 36
    ensures i < 26 ==> StringCharacters[i] as int == 'a' as int + i
    ensures 26 <= i ==> StringCharacters[i] as int == '0' as int + (i - 26)
  {
  }

  /** The alphabet has 36 distinct characters, each a lower-case ASCII letter
      or a decimal digit. */
  lemma AlphabetShape()
    ensures forall i :: 0 <= i < |StringCharacters| ==>
      'a' <= StringCharacters[i] <= 'z' || '0' <= StringCharacters[i] <= '9'
    ensures forall i, j :: 0 <= i < j < |StringCharacters| ==> StringCharacters[i] != StringCharacters[j]
  {
    forall i | 0 <= i < |StringCharacters|
      ensures 'a' <= StringCharacters[i] <= 'z' || '0' <= StringCharacters[i] <= '9'
    {
      AlphabetLayout(i);
    }
    forall i, j | 0 <= i < j < |StringCharacters|
      ensures StringCharacters[i] != StringCharacters[j]
    {
      AlphabetLayout(i);
      AlphabetLayout(j);
    }
  }
}
