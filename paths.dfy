/** Filesystem paths as `pathlib` treats them, without touching a disk. */
module Paths {

  /** A path: whether it starts at the root, and its components
      (`Path("a/b.tsv")` is `Path(false, ["a", "b.tsv"])`; `Path(".")` has
      no components). */
  datatype Path = Path(absolute: bool, parts: seq<string>)

  /** `p.name`: the last component, or the empty string. */
  function Name(p: Path): string {
    if p.parts == [] then "" else p.parts[|p.parts| - 1]
  }

  /** `p.parent`: the path without its last component; the root and `.`
      are their own parents. */
  function Parent(p: Path): Path {
    if p.parts == [] then p else Path(p.absolute, p.parts[..|p.parts| - 1])
  }

  /** `base.joinpath(p)`: an absolute `p` replaces `base`, a relative one
      is appended to it. */
  function JoinPath(base: Path, p: Path): (r: Path)
    ensures |r.parts| >= |p.parts|
    ensures p.parts != [] ==> Name(r) == Name(p)
  {
    if p.absolute then p else Path(base.absolute, base.parts + p.parts)
  }

  /** Joining a bare file name onto a directory and taking the parent gives
      the directory back, and the name is kept. */
  lemma JoinNameParent(dir: Path, name: string)
    requires name != ""
    ensures Name(JoinPath(dir, Path(false, [name]))) == name
    ensures Parent(JoinPath(dir, Path(false, [name]))) == dir
  {
    assert (dir.parts + [name])[..|dir.parts|] == dir.parts;
  }
}
