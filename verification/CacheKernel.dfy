/** The cache kernel as an object that owns a `PathCache` and the open-handle table. */
module CacheKernels {
  import opened Wrappers
  import opened Paths
  import opened PathIndex
  import opened PathCaches
  import opened Invalidations
  import opened KernelState

  class CacheKernel {
    const cache: PathCache
    var handles: Handles

    function State(): Kernel
      reads this, cache
    {
      Kernel(cache.State(), handles)
    }

    ghost predicate Valid()
      reads this, cache
    {
      cache.Valid()
    }

    constructor ()
      ensures Valid() && State() == EmptyKernel && fresh(cache)
    {
      cache := new PathCache();
      handles := map[];
    }

    method ApplyInvalidation(namespace: string, inv: Invalidation, allowBaseline: bool)
      returns (result: ApplyResult)
      requires Valid()
      modifies this, cache
      ensures Valid()
      ensures (State(), result) == Apply(old(State()), namespace, inv, allowBaseline)
    {
      if inv.namespace == "" {
        cache.Poison();
        return Err(Protocol);
      }
      if inv.namespace != namespace {
        return Ok(false);
      }
      if !ValidInvalidation(inv) {
        cache.Poison();
        return Err(Protocol);
      }
      var kind := inv.Kind().value;
      if kind == FullResync {
        cache.ResetWithSequence(inv.sequence);
        return Ok(true);
      }
      if inv.sequence != cache.lastSequence + 1 {
        if kind == Rename {
          RenameHandlePaths(inv.oldPath, inv.newPath);
        }
        if inv.sequence == 0 || !allowBaseline || handles != map[]
           || !cache.State().CanAcceptNoncontiguousSequence() {
          cache.Poison();
          return Err(StaleCache);
        }
        cache.lastSequence := inv.sequence - 1;
      }
      ApplyChange(inv);
      return Ok(false);
    }

    /** The change itself, once the sequence number has been accepted. */
    method ApplyChange(inv: Invalidation)
      requires Valid() && ValidInvalidation(inv) && inv.Kind().value != FullResync
      modifies this, cache
      ensures Valid() && State() == ApplyNext(old(State()), inv)
    {
      match inv.Kind().value {
        case Create =>
          if inv.inode == 0 {
            cache.RemovePath(inv.path);
          } else {
            cache.Insert(inv.path, inv.inode);
          }
        case Delete =>
          cache.RemovePath(inv.path);
        case Rename =>
          var ok := cache.Rename(inv.oldPath, inv.newPath);
          if !ok {
            // The failure branch of the source cannot be reached: the paths were validated.
            assert false;
          }
          RenameHandlePaths(inv.oldPath, inv.newPath);
        case _ =>
      }
      cache.lastSequence := inv.sequence;
    }

    method RenameHandlePaths(oldPath: Path, newPath: Path)
      modifies this
      ensures handles == RenameHandles(old(handles), oldPath, newPath)
    {
      var todo := handles.Keys;
      while todo != {}
        invariant handles.Keys == old(handles).Keys && todo <= handles.Keys
        invariant forall k :: k in todo ==> handles[k] == old(handles)[k]
        invariant forall k :: k in handles && k !in todo ==>
                    handles[k] == Followed(old(handles)[k], oldPath, newPath)
      {
        var k :| k in todo;
        todo := todo - {k};
        if InSubtree(handles[k], oldPath) {
          handles := handles[k := Rebase(handles[k], oldPath, newPath)];
        }
      }
    }

    method RememberHandlePath(key: HandleKey, path: Path)
      requires Valid()
      modifies this
      ensures Valid() && State() == old(State()).(handles := old(handles)[key := path])
    {
      handles := handles[key := path];
    }

    method ForgetHandlePath(key: HandleKey)
      requires Valid()
      modifies this
      ensures Valid() && State() == old(State()).(handles := old(handles) - {key})
    {
      handles := handles - {key};
    }

    method PathForInode(inode: Inode) returns (path: Result<Path, FuseError>)
      requires Valid()
      ensures path.Ok? ==> !cache.poisoned && path.value in cache.inodes && cache.inodes[path.value] == inode
      ensures path.Err? <==> cache.poisoned || inode !in cache.paths
      ensures path.Err? ==> path.error == StaleCache
    {
      if cache.poisoned {
        return Err(StaleCache);
      }
      var found := cache.RepresentativePath(inode);
      match found
      case Some(p) => return Ok(p);
      case None => return Err(StaleCache);
    }

    method ChildPath(parent: Inode, name: string) returns (path: Result<Path, FuseError>)
      requires Valid()
      ensures path.Ok? ==> !cache.poisoned && ValidChildName(name)
      ensures path.Ok? ==>
                exists p :: p in cache.inodes && cache.inodes[p] == parent && path.value == JoinChild(p, name)
      ensures path.Err? <==> !ValidChildName(name) || cache.poisoned || parent !in cache.paths
      ensures path.Err? ==> path.error == if ValidChildName(name) then StaleCache else Protocol
    {
      if !ValidChildName(name) {
        return Err(Protocol);
      }
      var parentPath := PathForInode(parent);
      match parentPath
      case Err(e) => return Err(e);
      case Ok(p) => return Ok(JoinChild(p, name));
    }

    /** The remembered path of an open handle, even from a poisoned cache; otherwise a cached one. */
    method PathForHandleBoundCall(key: HandleKey) returns (path: Result<Path, FuseError>)
      requires Valid()
      ensures key in handles ==> path == Ok(handles[key])
      ensures key !in handles && path.Ok? ==>
                !cache.poisoned && path.value in cache.inodes && cache.inodes[path.value] == key.inode
      ensures path.Err? <==> key !in handles && (cache.poisoned || key.inode !in cache.paths)
      ensures path.Err? ==> path.error == StaleCache
    {
      if key in handles {
        return Ok(handles[key]);
      }
      if !cache.poisoned {
        var found := cache.RepresentativePath(key.inode);
        if found.Some? {
          return Ok(found.value);
        }
      }
      return Err(StaleCache);
    }
  }
}
