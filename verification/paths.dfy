/** Paths as pathlib's `parts`: a sequence of components, where an absolute
    path starts with the component "/". */
module Paths {
  import opened Text

  type Path = seq<string>

  const Root := "/"

  predicate Absolute(p: Path) {
    |p| > 0 && p[0] == Root
  }

  /** `os.path.abspath` without `.`/`..` normalisation: a relative path is
      resolved against the working directory `cwd`. */
  function AbsForm(cwd: Path, p: Path): Path {
    if Absolute(p) then p else cwd + p
  }

  /** `os.path.basename(str(p))`: "." for the empty path, "" for the root. */
  function Basename(p: Path): string {
    if |p| == 0 then "."
    else if p == [Root] then ""
    else p[|p| - 1]
  }

  function CommonPrefixLength(a: Path, b: Path): (n: nat)
    ensures n <= |a| && n <= |b|
    ensures a[..n] == b[..n]
  {
    if |a| == 0 || |b| == 0 || a[0] != b[0] then 0
    else 1 + CommonPrefixLength(a[1..], b[1..])
  }

  function Ups(n: nat): Path {
    if n == 0 then [] else [".."] + Ups(n - 1)
  }

  /** `os.path.relpath(p)` against the working directory `cwd`: drop the common
      prefix, climb out of the rest of `cwd`, "." when nothing remains. */
  function RelPath(cwd: Path, p: Path): string {
    var a := AbsForm(cwd, p);
    var n := CommonPrefixLength(cwd, a);
    var rel := Ups(|cwd| - n) + a[n..];
    if |rel| == 0 then "." else Join(rel, "/")
  }
}
