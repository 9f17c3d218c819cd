/** `pathlib` paths as sequences of components, with the few operations the core uses. */
module Paths {
  import opened Wrappers
  import opened Strings

  /** A path is its list of components (`Path.parts` without the anchor). */
  type Path = seq<string>

  /** `Path(s)` for a '/'-separated string: empty and "." components are dropped. */
  function FromSlashed(s: string): (p: Path)
    ensures forall i :: 0 <= i < |p| ==> p[i] != "" && p[i] != "."
  {
    Normalize(Split(s, '/'))
  }

  function Normalize(parts: seq<string>): (p: Path)
    ensures forall i :: 0 <= i < |p| ==> p[i] != "" && p[i] != "."
    ensures |p| <= |parts|
  {
    if parts == [] then []
    else if parts[0] == "" || parts[0] == "." then Normalize(parts[1..])
    else [parts[0]] + Normalize(parts[1..])
  }

  /** `p.parent`; the parent of the root is the root itself. */
  function Parent(p: Path): (r: Path)
    ensures r <= p
    ensures |p| > 0 ==> |r| == |p| - 1
  {
    if p == [] then [] else p[..|p| - 1]
  }

  /** `n` applications of `.parent`. */
  function Climb(p: Path, n: nat): (r: Path)
    ensures r <= p
    ensures |r| == if n <= |p| then |p| - n else 0
  {
    if n == 0 then p else Climb(Parent(p), n - 1)
  }

  /** `p.relative_to(root)`: the components after `root`, or ValueError when `p` is not under it. */
  function RelativeTo(p: Path, root: Path): (r: Result<Path, PyError>)
    ensures r.Success? <==> root <= p
    ensures r.Success? ==> root + r.value == p
  {
    if root <= p then Success(p[|root|..]) else Failure(ValueError("path is not under the repository root"))
  }

  /** Index of the last occurrence of `c`, or -1 (`str.rfind`). */
  function RFind(s: string, c: char): (i: int)
    ensures -1 <= i < |s|
    ensures i >= 0 ==> s[i] == c
    ensures forall k :: i < k < |s| ==> s[k] != c
  {
    if s == [] then -1
    else if s[|s| - 1] == c then |s| - 1
    else RFind(s[..|s| - 1], c)
  }

  /** `PurePath(name).suffix`: from the last dot, unless that dot leads or ends the name. */
  function Suffix(name: string): (sfx: string)
    ensures sfx != [] ==> sfx[0] == '.' && |sfx| >= 2 && |sfx| < |name|
    ensures name[|name| - |sfx|..] == sfx
  {
    var i := RFind(name, '.');
    if 0 < i < |name| - 1 then name[i..] else []
  }

  /** The name with its suffix removed, as `with_suffix("")` leaves it. */
  function StripSuffix(name: string): (stem: string)
    ensures stem + Suffix(name) == name
  {
    name[..|name| - |Suffix(name)|]
  }

  /** `p.with_suffix(sfx)`: ValueError on a path with an empty name. */
  function WithSuffix(p: Path, sfx: string): (r: Result<Path, PyError>)
    ensures r.Success? <==> |p| > 0 && p[|p| - 1] != ""
    ensures r.Success? ==> |r.value| == |p| && r.value[..|p| - 1] == p[..|p| - 1]
    ensures r.Success? ==> r.value[|p| - 1] == StripSuffix(p[|p| - 1]) + sfx
  {
    if |p| == 0 || p[|p| - 1] == "" then Failure(ValueError("path has an empty name"))
    else Success(p[..|p| - 1] + [StripSuffix(p[|p| - 1]) + sfx])
  }

  /** `".".join(rel.with_suffix("").parts)` for a path with at least one component ("" for the empty path). */
  function DottedName(rel: Path): string {
    if rel == [] then "" else Join(rel[..|rel| - 1] + [StripSuffix(rel[|rel| - 1])], '.')
  }

  /** The dotted module name of a repository-relative file; ValueError when the path has an empty name. */
  function ModuleName(rel: Path): (r: Result<string, PyError>)
    ensures r.Success? <==> |rel| > 0 && rel[|rel| - 1] != ""
    ensures r.Success? ==> r.value == DottedName(rel)
  {
    var stripped :- WithSuffix(rel, "");
    assert StripSuffix(rel[|rel| - 1]) + "" == StripSuffix(rel[|rel| - 1]);
    assert stripped == rel[..|rel| - 1] + [StripSuffix(rel[|rel| - 1])];
    Success(Join(stripped, '.'))
  }

  /** A name ending in ".py" with a non-empty stem loses exactly those three characters. */
  lemma PySuffixStripped(name: string)
    requires EndsWith(name, ".py") && |name| > 3
    ensures StripSuffix(name) == name[..|name| - 3]
  {
    assert name[|name| - 3] == '.';
    assert RFind(name, '.') == |name| - 3 by {
      assert name[|name| - 1] == 'y' && name[|name| - 2] == 'p';
      assert name[..|name| - 1][..|name| - 2] == name[..|name| - 2];
    }
  }

  /** Relative paths computed for files under the root give back the file when re-joined. */
  lemma RelativeToRoundTrip(root: Path, rel: Path)
    ensures RelativeTo(root + rel, root) == Success(rel)
  {
    assert root <= root + rel;
    assert (root + rel)[|root|..] == rel;
  }
}
