/**
 * Path utilities shared by both tree realizations: splitting a path into
 * its parent prefix and last key, and the parent/child relation on paths
 * that insertion into a container checks.
 */
module Paths {
  import opened Base
  import opened Keys

  /**
   * `splitPath`: a non-empty path splits into everything but the last key,
   * and the last key; the empty path is refused.
   */
  function SplitPath(path: Path): (r: Result<(Path, Key)>)
    ensures r.Ok? <==> |path| > 0
    ensures r.Ok? ==> r.value.0 + [r.value.1] == path
    ensures r.Err? ==> r.error == EmptyPath
  {
    if |path| == 0 then Err(EmptyPath)
    else Ok((path[..|path| - 1], path[|path| - 1]))
  }

  /** `q` is `path` or a path below it: it starts with every key of `path`. */
  predicate Within(path: Path, q: Path) {
    |q| >= |path| && q[..|path|] == path
  }

  /** `node` is `parent` with exactly one key appended. */
  predicate ChildPath(parent: Path, node: Path) {
    |node| == |parent| + 1 && node[..|parent|] == parent
  }

  /**
   * `isParentOf`, compared key by key as the source's loop does: lengths
   * first, then every key of the parent's path against the node's.
   */
  method IsParentOf(parent: Path, node: Path) returns (b: bool)
    ensures b <==> ChildPath(parent, node)
  {
    if |node| != |parent| + 1 {
      return false;
    }
    var i := 0;
    while i < |parent|
      invariant 0 <= i <= |parent|
      invariant node[..i] == parent[..i]
    {
      if node[i] != parent[i] {
        return false;
      }
      i := i + 1;
    }
    return true;
  }

  /** `expectParentOf`: a structural violation unless `node` is a child path of `parent`. */
  method ExpectParentOf(parent: Path, node: Path) returns (r: Outcome)
    ensures r == if ChildPath(parent, node) then Pass else Fail(StructuralViolation)
  {
    var ok := IsParentOf(parent, node);
    r := if ok then Pass else Fail(StructuralViolation);
  }
}
