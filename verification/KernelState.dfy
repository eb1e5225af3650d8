/** The cache kernel as a value: the path cache together with the open-handle table, and what
    `CacheKernel::apply_invalidation` in `fs-fuse/src/cache.rs` does to both. */
module KernelState {
  import opened Wrappers
  import opened Paths
  import opened PathIndex
  import opened CacheState
  import opened Invalidations

  datatype FuseError = Response | Transport | StaleCache | Protocol | UnexpectedPayload

  datatype HandleKey = HandleKey(inode: Inode, handle: nat)

  type Handles = map<HandleKey, Path>

  /** `full_resync` of the source's outcome record, or the error. */
  type ApplyResult = Result<bool, FuseError>

  datatype Kernel = Kernel(cache: Cache, handles: Handles)
  {
    function Poison(): Kernel {
      this.(cache := cache.Poison())
    }
  }

  const EmptyKernel: Kernel := Kernel(EmptyCache, map[])

  /** Where a path is found after a rename. */
  function Followed(path: Path, oldPath: Path, newPath: Path): Path {
    if InSubtree(path, oldPath) then Rebase(path, oldPath, newPath) else path
  }

  function RenameHandles(handles: Handles, oldPath: Path, newPath: Path): Handles {
    map k | k in handles :: Followed(handles[k], oldPath, newPath)
  }

  /** The change of a valid invalidation that directly follows the cache's sequence. */
  function ApplyNext(k: Kernel, inv: Invalidation): Kernel
    requires ValidInvalidation(inv)
  {
    var kept := k.cache.(lastSequence := inv.sequence);
    match inv.Kind().value
    case Create =>
      k.(cache := if inv.inode == 0 then kept.RemovePath(inv.path) else kept.Insert(inv.path, inv.inode))
    case Delete => k.(cache := kept.RemovePath(inv.path))
    case Rename =>
      Kernel(kept.Rename(inv.oldPath, inv.newPath), RenameHandles(k.handles, inv.oldPath, inv.newPath))
    case _ => k.(cache := kept)
  }

  function Apply(k: Kernel, namespace: string, inv: Invalidation, allowBaseline: bool): (Kernel, ApplyResult) {
    if inv.namespace == "" then (k.Poison(), Err(Protocol))
    else if inv.namespace != namespace then (k, Ok(false))
    else if !ValidInvalidation(inv) then (k.Poison(), Err(Protocol))
    else if inv.Kind().value == FullResync then (k.(cache := k.cache.Reset(inv.sequence)), Ok(true))
    else if inv.sequence == k.cache.lastSequence + 1 then (ApplyNext(k, inv), Ok(false))
    else
      var followed := if inv.Kind().value == Rename
        then k.(handles := RenameHandles(k.handles, inv.oldPath, inv.newPath)) else k;
      if inv.sequence == 0 || !allowBaseline || followed.handles != map[]
         || !k.cache.CanAcceptNoncontiguousSequence()
      then (followed.Poison(), Err(StaleCache))
      else (ApplyNext(followed, inv), Ok(false))
  }

  /** Applying it reports a protocol error. */
  predicate Malformed(namespace: string, inv: Invalidation) {
    inv.namespace == "" || (inv.namespace == namespace && !ValidInvalidation(inv))
  }

  /** An own change that neither follows the cache's sequence nor finds it empty. */
  predicate Gap(k: Kernel, namespace: string, inv: Invalidation, allowBaseline: bool) {
    && ValidInvalidation(inv) && inv.namespace == namespace && inv.Kind().value != FullResync
    && inv.sequence != k.cache.lastSequence + 1
    && (inv.sequence == 0 || !allowBaseline || k.handles != map[] || !k.cache.CanAcceptNoncontiguousSequence())
  }

  /** The cache after an application: poisoned, untouched, reset, or changed. */
  lemma CacheAfter(k: Kernel, namespace: string, inv: Invalidation, allowBaseline: bool)
    ensures Apply(k, namespace, inv, allowBaseline).0.cache
         == if Malformed(namespace, inv) || Gap(k, namespace, inv, allowBaseline) then k.cache.Poison()
            else if inv.namespace != namespace then k.cache
            else if inv.Kind().value == FullResync then k.cache.Reset(inv.sequence)
            else ApplyNext(k, inv).cache
  {
    if ValidInvalidation(inv) && inv.Kind().value == Rename {
      assert RenameHandles(k.handles, inv.oldPath, inv.newPath).Keys == k.handles.Keys;
    }
  }

  /** An application fails only by poisoning the cache, and a success poisons nothing. */
  lemma FailureIsPoison(k: Kernel, namespace: string, inv: Invalidation, allowBaseline: bool)
    ensures var (k', r) := Apply(k, namespace, inv, allowBaseline);
            && (r.Err? ==> k'.cache.poisoned)
            && (r == Ok(true) <==> IsResync(namespace, inv))
            && (r == Ok(true) ==> !k'.cache.poisoned && k'.cache.lastSequence == inv.sequence)
            && (r == Ok(false) ==> k'.cache.poisoned == k.cache.poisoned)
  {
  }

  /** A malformed invalidation is a protocol error; the only other error is a stale cache. */
  lemma ErrorKinds(k: Kernel, namespace: string, inv: Invalidation, allowBaseline: bool)
    ensures var (k', r) := Apply(k, namespace, inv, allowBaseline);
            && (r.Err? && r.error != StaleCache <==> Malformed(namespace, inv))
            && (Malformed(namespace, inv) ==> k'.cache.poisoned)
  {
  }

  lemma ApplyKeepsHandles(k: Kernel, namespace: string, inv: Invalidation, allowBaseline: bool)
    ensures Apply(k, namespace, inv, allowBaseline).0.handles.Keys == k.handles.Keys
  {
  }

  /** An own, valid invalidation that leaves the cache healthy was applied: in order, or onto a
      cache that knows nothing but the root. */
  lemma HealthyMeansApplied(k: Kernel, namespace: string, inv: Invalidation, allowBaseline: bool)
    requires ValidInvalidation(inv) && inv.namespace == namespace && inv.Kind().value != FullResync
    requires !Apply(k, namespace, inv, allowBaseline).0.cache.poisoned
    ensures var after := Apply(k, namespace, inv, allowBaseline).0.cache;
            && !k.cache.poisoned && inv.sequence >= 1 && after.lastSequence == inv.sequence
            && after.inodes == ApplyNext(k, inv).cache.inodes
            && (inv.sequence == k.cache.lastSequence + 1
                || (allowBaseline && k.handles == map[] && k.cache.CanAcceptNoncontiguousSequence()))
  {
    if inv.Kind().value == Rename {
      assert RenameHandles(k.handles, inv.oldPath, inv.newPath).Keys == k.handles.Keys;
    }
  }

  /** When an own change is taken: it has the next number, or it may start a cache that is healthy
      and knows nothing but the root while no handle is open. */
  lemma TakenIff(k: Kernel, namespace: string, inv: Invalidation, allowBaseline: bool)
    requires k.cache.WellFormed()
    requires ValidInvalidation(inv) && inv.namespace == namespace && inv.Kind().value != FullResync
    ensures Apply(k, namespace, inv, allowBaseline).1.Ok? <==>
              || inv.sequence == k.cache.lastSequence + 1
              || (&& allowBaseline && inv.sequence >= 1 && k.handles == map[]
                  && !k.cache.poisoned && k.cache.inodes == map["/" := ROOT_INODE])
    ensures Apply(k, namespace, inv, allowBaseline).1.Ok? <==> !Gap(k, namespace, inv, allowBaseline)
  {
    BaselineIff(k.cache);
    if inv.Kind().value == Rename {
      assert RenameHandles(k.handles, inv.oldPath, inv.newPath).Keys == k.handles.Keys;
    }
  }

  /** Applying keeps the cache well formed. */
  lemma ApplyKeepsWellFormed(k: Kernel, namespace: string, inv: Invalidation, allowBaseline: bool)
    requires k.cache.WellFormed()
    ensures Apply(k, namespace, inv, allowBaseline).0.cache.WellFormed()
  {
    EmptiedWellFormed(k.cache, true, k.cache.lastSequence);
    EmptiedWellFormed(k.cache, false, inv.sequence);
    if ValidInvalidation(inv) {
      NextKeepsWellFormed(k, inv);
    }
  }

  lemma NextKeepsWellFormed(k: Kernel, inv: Invalidation)
    requires k.cache.WellFormed() && ValidInvalidation(inv)
    ensures ApplyNext(k, inv).cache.WellFormed()
  {
    var kept := k.cache.(lastSequence := inv.sequence);
    match inv.Kind().value
    case Create =>
      InsertKeepsWellFormed(kept, inv.path, inv.inode);
      RemovePathKeepsWellFormed(kept, inv.path);
    case Delete => RemovePathKeepsWellFormed(kept, inv.path);
    case Rename => RenameKeepsWellFormed(kept, inv.oldPath, inv.newPath);
    case _ =>
  }

  /** Following a rename a second time changes nothing. */
  lemma FollowedTwice(path: Path, oldPath: Path, newPath: Path)
    requires Disjoint(oldPath, newPath)
    ensures Followed(Followed(path, oldPath, newPath), oldPath, newPath) == Followed(path, oldPath, newPath)
  {
    if InSubtree(path, oldPath) {
      RebaseInverse(path, oldPath, newPath);
      DisjointSubtrees(Rebase(path, oldPath, newPath), oldPath, newPath);
    }
  }
}
