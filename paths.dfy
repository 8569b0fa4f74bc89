/**
 * File-system paths as the Python code manipulates them with `os.path`.
 * A `Path` is the list of its segments below the file-system root; `join`
 * appends segments, `basename`/`dirname` split off the last one, and
 * `relpath` walks up with ".." segments where the two paths part.
 */
module Paths {
  import opened Wrappers
  import opened Text

  type Path = seq<string>

  /** `os.path.basename`: the last segment ("" for the root). */
  function Basename(p: Path): string {
    if p == [] then "" else p[|p| - 1]
  }

  /** `os.path.dirname`: everything but the last segment. */
  function Dirname(p: Path): Path {
    if p == [] then [] else p[..|p| - 1]
  }

  /** One `(root, dirs, files)` triple of `os.walk`: a directory and the names
      of the files in it, in listing order. */
  datatype WalkEntry = WalkEntry(root: Path, files: seq<string>)

  /** `n` parent-directory segments. */
  function Ups(n: nat): (r: Path)
    ensures |r| == n && forall i :: 0 <= i < n ==> r[i] == ".."
  {
    seq(n, _ => "..")
  }

  /** `os.path.relpath(p, base)` for two absolute paths: climb out of the part of
      `base` that is not shared with `p`, then descend into the rest of `p`. */
  function RelPath(p: Path, base: Path): Path
    decreases |p|
  {
    if p != [] && base != [] && p[0] == base[0] then RelPath(p[1..], base[1..])
    else Ups(|base|) + p
  }

  /** Below its base a path is addressed without any "..": the part of `p` after `base`. */
  lemma {:induction false} RelPathBelow(p: Path, base: Path)
    requires base <= p
    ensures RelPath(p, base) == p[|base|..]
    decreases |p|
  {
    if base != [] {
      assert p[0] == base[0];
      RelPathBelow(p[1..], base[1..]);
      assert p[1..][|base| - 1..] == p[|base|..];
    }
  }

  // -----------------------------------------------------------------------
  // os.path.splitext
  // -----------------------------------------------------------------------

  /** Position of the last '.' of `s`, if there is one. */
  function LastDot(s: string): (r: Option<nat>)
    ensures r.Some? ==> r.value < |s| && s[r.value] == '.'
    ensures r.Some? ==> forall j :: r.value < j < |s| ==> s[j] != '.'
    ensures r.None? ==> forall j :: 0 <= j < |s| ==> s[j] != '.'
    decreases |s|
  {
    if s == [] then None
    else if s[|s| - 1] == '.' then Some(|s| - 1)
    else LastDot(s[..|s| - 1])
  }

  predicate AllDots(s: string) {
    forall j :: 0 <= j < |s| ==> s[j] == '.'
  }

  /** `os.path.splitext(name)` for a name without separators: the extension runs
      from the last '.' to the end, unless every character before that '.' is a
      dot too (".bashrc", "..x"), in which case there is no extension. */
  function SplitExt(name: string): (r: (string, string))
    ensures r.0 + r.1 == name
    ensures r.1 == "" || (r.1[0] == '.' && forall j :: 1 <= j < |r.1| ==> r.1[j] != '.')
    ensures r.1 != "" ==> !AllDots(r.0)
    ensures r.1 == "" ==> forall j :: 0 <= j < |name| && name[j] == '.' ==> AllDots(name[..j])
  {
    match LastDot(name)
    case None => (name, "")
    case Some(i) => if AllDots(name[..i]) then (name, "") else (name[..i], name[i..])
  }

  /** Position just after the last path separator ('\' or '/') of `s`, or 0. */
  function AfterLastSeparator(s: string): (r: nat)
    ensures r <= |s|
    ensures r > 0 ==> s[r - 1] == '\\' || s[r - 1] == '/'
    ensures forall j :: r <= j < |s| ==> s[j] != '\\' && s[j] != '/'
    decreases |s|
  {
    if s == [] then 0
    else if s[|s| - 1] == '\\' || s[|s| - 1] == '/' then |s|
    else AfterLastSeparator(s[..|s| - 1])
  }

  /** `os.path.splitext(path)[1]` for a path written as one string (Windows
      separators '\' and '/'): the extension of its last component. */
  function Extension(path: string): (ext: string)
    ensures EndsWith(path, ext)
    ensures ext == "" || (ext[0] == '.' && forall j :: 1 <= j < |ext| ==> ext[j] != '.' && ext[j] != '\\' && ext[j] != '/')
    ensures ext == "" ==> forall j :: AfterLastSeparator(path) <= j < |path| && path[j] == '.' ==>
                            AllDots(path[AfterLastSeparator(path)..j])
    ensures ext != "" ==> AfterLastSeparator(path) <= |path| - |ext|
                          && !AllDots(path[AfterLastSeparator(path)..|path| - |ext|])
  {
    var a := AfterLastSeparator(path);
    var name := path[a..];
    var ext := SplitExt(name).1;
    SuffixPrefixes(path, a);
    assert SplitExt(name).0 == name[..|name| - |ext|];
    ext
  }

  /** A prefix of the suffix `s[a..]` is a slice of `s`. */
  lemma SuffixPrefixes(s: string, a: nat)
    requires a <= |s|
    ensures forall j :: a <= j <= |s| ==> s[a..j] == s[a..][..j - a]
  {
    forall j | a <= j <= |s| ensures s[a..j] == s[a..][..j - a] {
      assert |s[a..j]| == |s[a..][..j - a]|;
    }
  }
}
