/**
 * The two parts of Python's `pathlib.PurePosixPath` the download loops use:
 * `Path(p).name` and `Path(p).suffix`.
 */
module Paths {
  import opened Text

  /**
   * `Path(p).name`: the last component of the path that is neither empty nor
   * `.` (pathlib drops those when it splits), or "" when there is none.
   */
  function PathName(p: string): (r: string)
    ensures '/' !in r && r != "."
    ensures |r| <= |p|
    decreases |p|
  {
    var seg := LastSegment(p, '/');
    if seg != "" && seg != "." then seg
    else if |seg| == |p| then ""
    else PathName(p[..|p| - |seg| - 1])
  }

  /** The text after the last separator of `d + [sep] + f` is `f` when `f` holds no separator. */
  lemma {:induction false} LastSegmentAfter(d: string, f: string, sep: char)
    requires sep !in f
    ensures LastSegment(d + [sep] + f, sep) == f
  {
    if f == [] {
      assert d + [sep] + f == d + [sep];
    } else {
      var s := d + [sep] + f;
      assert s[..|s| - 1] == d + [sep] + f[..|f| - 1];
      LastSegmentAfter(d, f[..|f| - 1], sep);
      assert f == f[..|f| - 1] + [f[|f| - 1]];
    }
  }

  /** A file name at the end of a path is its name, however many directories precede it. */
  lemma PathNameOfFile(dir: string, file: string)
    requires '/' !in file && file != "" && file != "."
    ensures PathName(dir + "/" + file) == file
  {
    LastSegmentAfter(dir, file, '/');
  }

  /** A path ending in `/` names its last non-empty component: the trailing separator does not empty the name. */
  lemma PathNameTrailingSlash(dir: string, file: string)
    requires '/' !in file && file != "" && file != "."
    ensures PathName(dir + "/" + file + "/") == file
  {
    var p := dir + "/" + file + "/";
    assert LastSegment(p, '/') == "";
    assert p[..|p| - 1] == dir + "/" + file;
    PathNameOfFile(dir, file);
  }

  /**
   * `PurePath.suffix` of a name: from its last `.` to the end, when that dot
   * is neither the first nor the last character; "" otherwise.
   */
  function Suffix(name: string): (r: string)
    ensures r != "" ==> |r| >= 2 && |r| < |name| && r[0] == '.' && EndsWith(name, r) && '.' !in r[1..]
  {
    var ext := LastSegment(name, '.');
    if ext != "" && |ext| + 1 < |name| then
      assert ("." + ext)[1..] == ext;
      assert name[|name| - |ext| - 1..] == "." + ext;
      "." + ext
    else ""
  }

  /** `stem.ext` has suffix `.ext` for a non-empty stem and an extension without dots. */
  lemma SuffixOf(stem: string, ext: string)
    requires stem != "" && ext != "" && '.' !in ext
    ensures Suffix(stem + "." + ext) == "." + ext
  {
    LastSegmentAfter(stem, ext, '.');
  }

  /** A name without a dot, or whose only dot is its first character (a hidden file), has no suffix. */
  lemma NoSuffix(name: string)
    requires '.' !in name || (name != [] && name[0] == '.' && '.' !in name[1..])
    ensures Suffix(name) == ""
  {
    if name != [] && name[0] == '.' && '.' !in name[1..] {
      LastSegmentAfter([], name[1..], '.');
      assert [] + ['.'] + name[1..] == name;
    } else {
      LastSegmentWhole(name);
    }
  }

  /** Without a separator, the last segment is the whole text. */
  lemma {:induction false} LastSegmentWhole(s: string)
    requires '.' !in s
    ensures LastSegment(s, '.') == s
  {
    if s != [] {
      LastSegmentWhole(s[..|s| - 1]);
      assert s == s[..|s| - 1] + [s[|s| - 1]];
    }
  }
}
