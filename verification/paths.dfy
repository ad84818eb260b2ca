/**
 * Canonical absolute paths as sequences of components: `/home/u/.bashrc` is
 * `["home", "u", ".bashrc"]` and the filesystem root `/` is the empty sequence.
 * Paths are assumed already expanded and resolved, so no component is `.` or `..`.
 */
module Paths {

  type Component = string

  type Path = seq<Component>

  /** `a` is `p` itself or one of its ancestors. */
  predicate IsPrefix(a: Path, p: Path) {
    |a| <= |p| && p[..|a|] == a
  }

  /** `a` is one of pathlib's `p.parents`: a strict ancestor of `p`. */
  predicate IsAncestor(a: Path, p: Path) {
    |a| < |p| && p[..|a|] == a
  }

  /** `p` ends with the components of `rel`. */
  predicate IsSuffix(rel: Path, p: Path) {
    |rel| <= |p| && p[|p| - |rel|..] == rel
  }

  function Parent(p: Path): Path
    requires |p| > 0
  {
    p[..|p| - 1]
  }

  /** `root.joinpath(rel)`; joining the empty relative path (pathlib's `.`) gives `root`. */
  function Join(root: Path, rel: Path): Path {
    root + rel
  }

  /** `p.relative_to(root)`. */
  function RelativeTo(p: Path, root: Path): Path
    requires IsPrefix(root, p)
  {
    p[|root|..]
  }

  /** Joining and taking the relative path are inverse to each other. */
  lemma JoinRelativeRoundTrip(root: Path, rel: Path)
    ensures IsPrefix(root, Join(root, rel))
    ensures IsSuffix(rel, Join(root, rel))
    ensures RelativeTo(Join(root, rel), root) == rel
  {
  }

  lemma PrefixTransitive(a: Path, b: Path, c: Path)
    requires IsPrefix(a, b) && IsPrefix(b, c)
    ensures IsPrefix(a, c)
  {
  }

  /** Two ancestors of the same path are nested one inside the other. */
  lemma PrefixesNested(a: Path, b: Path, p: Path)
    requires IsPrefix(a, p) && IsPrefix(b, p)
    ensures IsPrefix(a, b) || IsPrefix(b, a)
  {
  }
}
