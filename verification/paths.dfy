/** File-system paths as sequences of name segments. The file-system root
    `/` is the empty sequence; `/a/b` is `["a", "b"]`. */
module Paths {
  import opened Wrappers

  type Path = seq<string>

  /** `Path.getParent`: `None` (Java's `null`) for the root, which has no parent. */
  function Parent(p: Path): (r: Option<Path>)
    ensures r.None? <==> |p| == 0
    ensures r.Some? ==> r.value + [p[|p| - 1]] == p
  {
    if |p| == 0 then None else Some(p[..|p| - 1])
  }

  /** `Path.getFileName`: the last segment. */
  function FileName(p: Path): string
    requires |p| > 0
  {
    p[|p| - 1]
  }

  /** `Path.resolve` with a single name segment. */
  function Resolve(p: Path, name: string): (r: Path)
    ensures Parent(r) == Some(p) && FileName(r) == name
  {
    p + [name]
  }

  /** `base` is `p` itself or one of its ancestors. */
  predicate IsPrefix(base: Path, p: Path)
  {
    |base| <= |p| && p[..|base|] == base
  }

  /** `base.relativize(p)` for a `p` at or below `base`: the segments of `p`
      that follow `base`. */
  function Relativize(base: Path, p: Path): (r: Path)
    requires IsPrefix(base, p)
    ensures base + r == p
    ensures |r| == |p| - |base|
  {
    p[|base|..]
  }

  /** Relativizing is the only way to split `p` after `base`. */
  lemma RelativizeResolves(base: Path, rel: Path)
    ensures IsPrefix(base, base + rel)
    ensures Relativize(base, base + rel) == rel
  {
    assert (base + rel)[..|base|] == base;
  }
}
