/** Path strings: the checks of `fs-protocol/src/path.rs` and the string helpers of the
    client cache. A path is a string; the component view is in `PathComponents`. */
module Paths {
  type Path = string

  /** The pieces between slashes, as `str::split('/')` yields them: never an empty list. */
  function Split(s: string): (pieces: seq<string>)
    ensures |pieces| >= 1
    ensures forall c :: c in pieces ==> '/' !in c
  {
    if s == "" then [""]
    else
      var rest := Split(s[1..]);
      if s[0] == '/' then [""] + rest else [[s[0]] + rest[0]] + rest[1..]
  }

  predicate Reserved(component: string) {
    component == "" || component == "." || component == ".."
  }

  predicate ValidPath(value: string) {
    && value != "" && value[0] == '/' && '\0' !in value
    && (value == "/" || forall i :: 1 <= i < |Split(value)| ==> !Reserved(Split(value)[i]))
  }

  predicate ValidNonRoot(value: string) {
    ValidPath(value) && value != "/"
  }

  /** The string test for "`path` is `root` or lies below it". */
  predicate InSubtree(path: string, root: string) {
    root != "" && (path == root || (root < path && path[|root|] == '/'))
  }

  predicate Disjoint(a: string, b: string) {
    a != "" && b != "" && !InSubtree(a, b) && !InSubtree(b, a)
  }

  predicate ValidRename(oldPath: string, newPath: string) {
    && ValidNonRoot(oldPath) && ValidNonRoot(newPath)
    && !(InSubtree(oldPath, newPath) || InSubtree(newPath, oldPath))
  }

  /** What is left of `path` after `root`; empty when `root` is not a prefix. */
  function Suffix(path: string, root: string): string {
    if root <= path then path[|root|..] else ""
  }

  /** `path` with its prefix `oldRoot` replaced by `newRoot`. */
  function Rebase(path: string, oldRoot: string, newRoot: string): string {
    newRoot + Suffix(path, oldRoot)
  }

  /** Index of the last slash, or -1. */
  function LastSlash(s: string): (i: int)
    ensures -1 <= i < |s|
    ensures i >= 0 ==> s[i] == '/'
    ensures forall j :: i < j < |s| ==> s[j] != '/'
  {
    if s == "" then -1
    else if s[|s| - 1] == '/' then |s| - 1
    else LastSlash(s[..|s| - 1])
  }

  function ParentPath(path: string): string {
    var i := LastSlash(path);
    if i <= 0 then "/" else path[..i]
  }

  predicate ValidChildName(name: string) {
    name != "" && '/' !in name && '\0' !in name
  }

  function JoinChild(parent: string, name: string): string {
    if parent == "/" then "/" + name else parent + "/" + name
  }

  /** Two roots with a common descendant are nested. */
  lemma CommonDescendant(path: string, a: string, b: string)
    requires InSubtree(path, a) && InSubtree(path, b)
    ensures InSubtree(a, b) || InSubtree(b, a)
  {
    var s, l := if |a| <= |b| then a else b, if |a| <= |b| then b else a;
    assert s == path[..|s|] && l == path[..|l|];
    assert s <= l;
    if |s| == |l| {
      assert s == l;
    } else {
      assert l[|s|] == path[|s|] == '/';
    }
  }

  /** A path cannot lie below two disjoint roots. */
  lemma DisjointSubtrees(path: string, a: string, b: string)
    requires Disjoint(a, b)
    ensures !(InSubtree(path, a) && InSubtree(path, b))
  {
    if InSubtree(path, a) && InSubtree(path, b) {
      CommonDescendant(path, a, b);
    }
  }

  /** Replacing the prefix moves a path into the new subtree, and replacing it back undoes it. */
  lemma RebaseInverse(path: string, oldRoot: string, newRoot: string)
    requires InSubtree(path, oldRoot) && newRoot != ""
    ensures InSubtree(Rebase(path, oldRoot, newRoot), newRoot)
    ensures Rebase(Rebase(path, oldRoot, newRoot), newRoot, oldRoot) == path
  {
    var moved := Rebase(path, oldRoot, newRoot);
    assert moved[..|newRoot|] == newRoot;
    assert moved[|newRoot|..] == path[|oldRoot|..];
    assert path == oldRoot + path[|oldRoot|..];
  }
}
