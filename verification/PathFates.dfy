/** What one change, and a list of changes, make of a single cached path. The fate of a path looks
    at no cache and no tree; both the cache and the server's tree are shown to follow it. */
module PathFates {
  import opened Wrappers
  import opened Paths
  import opened PathComponents
  import opened PathIndex
  import opened Invalidations
  import opened KernelState

  /** Nothing when the change drops the path from a cache (a removal above it, a rename onto it, a
      creation in its place, a resync), its new place when a rename moves it, else the path. */
  function FateOf(path: Path, inv: Invalidation): Option<Path>
    requires ValidInvalidation(inv)
  {
    match inv.Kind().value
    case Create =>
      if (if inv.inode == 0 then InSubtree(path, inv.path) else path == inv.path) then None else Some(path)
    case Delete => if InSubtree(path, inv.path) then None else Some(path)
    case Rename =>
      if InSubtree(path, inv.newPath) then None else Some(Followed(path, inv.oldPath, inv.newPath))
    case FullResync => None
    case _ => Some(path)
  }

  predicate ValidChanges(changes: seq<Invalidation>) {
    forall i :: 0 <= i < |changes| ==> ValidInvalidation(changes[i])
  }

  /** The fate over several changes in order. */
  function Fate(path: Path, changes: seq<Invalidation>): Option<Path>
    requires ValidChanges(changes)
  {
    if changes == [] then Some(path)
    else
      match Fate(path, changes[..|changes| - 1])
      case None => None
      case Some(p) => FateOf(p, changes[|changes| - 1])
  }

  predicate Makes(inv: Invalidation, path: Path) {
    inv.Kind() == Some(Create) && inv.inode != 0 && path == inv.path
  }

  /** A cached pair goes where its path's fate says. */
  lemma PairKept(k: Kernel, inv: Invalidation, p: Path)
    requires ValidInvalidation(inv) && p in k.cache.inodes && FateOf(p, inv).Some?
    ensures var m, q := ApplyNext(k, inv).cache.inodes, FateOf(p, inv).value;
            q in m && m[q] == k.cache.inodes[p]
  {
    if inv.Kind().value == Rename {
      if InSubtree(p, inv.oldPath) {
        RebaseInverse(p, inv.oldPath, inv.newPath);
        RenamedAt(k.cache.inodes, inv.oldPath, inv.newPath, Rebase(p, inv.oldPath, inv.newPath));
      } else {
        RenamedAt(k.cache.inodes, inv.oldPath, inv.newPath, p);
      }
    }
  }

  /** Every pair after the change was made by it or came along from a pair before it. */
  lemma PairOrigin(k: Kernel, inv: Invalidation, q: Path) returns (p: Path)
    requires ValidInvalidation(inv) && inv.Kind().value != FullResync && q in ApplyNext(k, inv).cache.inodes
    ensures var m := ApplyNext(k, inv).cache.inodes;
            || (Makes(inv, q) && m[q] == inv.inode)
            || (p in k.cache.inodes && FateOf(p, inv) == Some(q) && m[q] == k.cache.inodes[p])
  {
    p := q;
    if inv.Kind().value == Rename {
      RenamedAt(k.cache.inodes, inv.oldPath, inv.newPath, q);
      if InSubtree(q, inv.newPath) {
        p := Rebase(q, inv.newPath, inv.oldPath);
        RebaseInverse(q, inv.newPath, inv.oldPath);
        DisjointSubtrees(p, inv.oldPath, inv.newPath);
      }
    }
  }

  /** A path's fate, over any changes, is again a non-root protocol path. */
  lemma {:induction false} FateStaysValid(path: Path, changes: seq<Invalidation>)
    requires ValidChanges(changes) && ValidNonRoot(path) && Fate(path, changes).Some?
    ensures ValidNonRoot(Fate(path, changes).value)
  {
    if changes == [] {
    } else {
      var init := changes[..|changes| - 1];
      FateStaysValid(path, init);
      FateValid(Fate(path, init).value, changes[|changes| - 1]);
    }
  }

  lemma FateValid(path: Path, inv: Invalidation)
    requires ValidInvalidation(inv) && ValidNonRoot(path) && FateOf(path, inv).Some?
    ensures ValidNonRoot(FateOf(path, inv).value)
  {
    if inv.Kind().value == Rename && InSubtree(path, inv.oldPath) {
      RebaseComponents(path, inv.oldPath, inv.newPath);
    }
  }
}
