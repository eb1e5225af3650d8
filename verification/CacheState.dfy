/** The client path cache as a value: what each operation of `PathCache` in
    `fs-fuse/src/cache.rs` means, stated on the forward index alone. */
module CacheState {
  import opened Paths
  import opened PathIndex
  import PathComponents

  const U64_MAX: nat := 0xFFFF_FFFF_FFFF_FFFF
  const ROOT_INODE: Inode := 1

  function SaturatingAdd(a: nat, b: nat): nat {
    if a + b > U64_MAX then U64_MAX else a + b
  }

  datatype Cache = Cache(
    inodes: Index,
    paths: map<Inode, set<Path>>,
    lookups: map<Inode, nat>,
    poisoned: bool,
    lastSequence: nat)
  {
    /** The two directions of the index agree, and lookup counts are positive and kept only for
        indexed inodes other than the root. */
    ghost predicate Consistent() {
      && paths == Inverse(inodes)
      && 0 !in inodes.Values
      && (forall i :: i in lookups ==> i in inodes.Values && i != ROOT_INODE && 1 <= lookups[i] <= U64_MAX)
    }

    /** Additionally the root is cached as itself and every cached path is a protocol path. */
    ghost predicate WellFormed() {
      && Consistent()
      && "/" in inodes && inodes["/"] == ROOT_INODE
      && (forall p :: p in inodes ==> ValidPath(p))
    }

    /** The cache whose forward index is `m`: the inverse follows, and so do the lookup counts,
        which are dropped for inodes that `m` no longer mentions. */
    function Reindexed(m: Index): Cache {
      this.(inodes := m, paths := Inverse(m), lookups := Restrict(lookups, m.Values))
    }

    function Insert(path: Path, inode: Inode): Cache {
      if inode == 0 then this else Reindexed(inodes[path := inode])
    }

    function AddLookup(inode: Inode, count: nat): Cache {
      if inode == 0 || inode == ROOT_INODE || count == 0 || inode !in paths then this
      else
        var current := if inode in lookups then lookups[inode] else 0;
        this.(lookups := lookups[inode := SaturatingAdd(current, count)])
    }

    function InsertLookup(path: Path, inode: Inode, count: nat): Cache {
      Insert(path, inode).AddLookup(inode, count)
    }

    function RemoveInode(inode: Inode): Cache {
      if inode == ROOT_INODE then this
      else Reindexed(WithoutInode(inodes, inode))
    }

    function Forget(inode: Inode, nlookup: nat): Cache {
      if inode == ROOT_INODE || nlookup == 0 then this
      else if inode in lookups && lookups[inode] > nlookup then
        this.(lookups := lookups[inode := lookups[inode] - nlookup])
      else RemoveInode(inode)
    }

    function Rename(oldPath: Path, newPath: Path): Cache
      requires Disjoint(oldPath, newPath)
    {
      Reindexed(Renamed(inodes, oldPath, newPath))
    }

    function RemovePath(path: Path): Cache {
      if path == "" || path == "/" then this else Reindexed(WithoutSubtree(inodes, path))
    }

    function Emptied(poisoned': bool, sequence: nat): Cache {
      Cache(map["/" := ROOT_INODE], map[ROOT_INODE := {"/"}], map[], poisoned', sequence)
    }

    function Poison(): Cache {
      Emptied(true, lastSequence)
    }

    function Reset(sequence: nat): Cache {
      Emptied(false, sequence)
    }

    predicate CanAcceptNoncontiguousSequence() {
      && !poisoned
      && |inodes| == 1 && "/" in inodes && inodes["/"] == ROOT_INODE
      && |paths| == 1 && ROOT_INODE in paths
      && |paths[ROOT_INODE]| == 1 && "/" in paths[ROOT_INODE]
      && lookups == map[]
    }
  }

  const EmptyCache: Cache := Cache(map["/" := ROOT_INODE], map[ROOT_INODE := {"/"}], map[], false, 0)

  lemma EmptiedWellFormed(c: Cache, poisoned: bool, sequence: nat)
    ensures c.Emptied(poisoned, sequence).WellFormed()
  {
    var e := c.Emptied(poisoned, sequence);
    InverseIff(e.inodes, e.paths);
  }

  lemma ReindexedConsistent(c: Cache, m: Index)
    requires c.Consistent() && 0 !in m.Values
    ensures c.Reindexed(m).Consistent()
  {
  }

  lemma InsertKeepsWellFormed(c: Cache, path: Path, inode: Inode)
    requires c.WellFormed() && ValidNonRoot(path)
    ensures c.Insert(path, inode).WellFormed()
  {
    if inode != 0 {
      ReindexedConsistent(c, c.inodes[path := inode]);
    }
  }

  lemma InsertLookupKeepsWellFormed(c: Cache, path: Path, inode: Inode, count: nat)
    requires c.WellFormed() && ValidNonRoot(path)
    ensures c.InsertLookup(path, inode, count).WellFormed()
  {
    InsertKeepsWellFormed(c, path, inode);
    AddLookupKeepsWellFormed(c.Insert(path, inode), inode, count);
  }

  lemma AddLookupKeepsWellFormed(c: Cache, inode: Inode, count: nat)
    requires c.WellFormed()
    ensures c.AddLookup(inode, count).WellFormed()
  {
    InverseHolds(c.inodes);
  }

  lemma ForgetKeepsWellFormed(c: Cache, inode: Inode, nlookup: nat)
    requires c.WellFormed()
    ensures c.Forget(inode, nlookup).WellFormed()
  {
    var kept := WithoutInode(c.inodes, inode);
    assert forall i :: i in kept.Values ==> i in c.inodes.Values;
    ReindexedConsistent(c, kept);
  }

  lemma RemovePathKeepsWellFormed(c: Cache, path: Path)
    requires c.WellFormed() && ValidPath(path)
    ensures c.RemovePath(path).WellFormed()
  {
    var kept := WithoutSubtree(c.inodes, path);
    assert forall i :: i in kept.Values ==> i in c.inodes.Values;
    ReindexedConsistent(c, kept);
  }

  lemma RenameKeepsWellFormed(c: Cache, oldPath: Path, newPath: Path)
    requires c.WellFormed() && ValidRename(oldPath, newPath)
    ensures c.Rename(oldPath, newPath).WellFormed()
  {
    var m := Renamed(c.inodes, oldPath, newPath);
    forall q | q in m
      ensures ValidPath(q) && m[q] in c.inodes.Values
    {
      RenamedAt(c.inodes, oldPath, newPath, q);
      if InSubtree(q, newPath) {
        var p := Rebase(q, newPath, oldPath);
        RebaseInverse(q, newPath, oldPath);
        PathComponents.RebaseComponents(p, oldPath, newPath);
      }
    }
    RenamedAt(c.inodes, oldPath, newPath, "/");
    ReindexedConsistent(c, m);
  }

  /** The size tests of the source say exactly that nothing but the root is cached. */
  lemma BaselineIff(c: Cache)
    requires c.WellFormed()
    ensures c.CanAcceptNoncontiguousSequence() <==>
            !c.poisoned && c.inodes == map["/" := ROOT_INODE]
  {
    if c.inodes == map["/" := ROOT_INODE] {
      InverseIff(c.inodes, map[ROOT_INODE := {"/"}]);
    }
    if c.CanAcceptNoncontiguousSequence() {
      assert c.inodes.Keys == {"/"} by {
        SingletonSet(c.inodes.Keys, "/");
      }
    }
  }

  lemma SingletonSet<T>(s: set<T>, x: T)
    requires |s| == 1 && x in s
    ensures s == {x}
  {
    assert |s - {x}| == 0;
  }

  /** A rename and its reverse restore the whole cache, lookup counts included, when nothing was
      cached below the target. */
  lemma RenameBack(c: Cache, oldPath: Path, newPath: Path)
    requires c.Consistent() && Disjoint(oldPath, newPath)
    requires NoneBelow(c.inodes, newPath)
    ensures c.Rename(oldPath, newPath).Rename(newPath, oldPath) == c
  {
    RenamedBack(c.inodes, oldPath, newPath);
    ReindexAndBack(c, Renamed(c.inodes, oldPath, newPath));
  }

  /** A moved path keeps its inode, and a moved inode its lookup count. */
  lemma MovedKeepCounts(c: Cache, oldPath: Path, newPath: Path, p: Path)
    requires c.Consistent() && Disjoint(oldPath, newPath)
    requires p in c.inodes && InSubtree(p, oldPath)
    ensures var d, q, i := c.Rename(oldPath, newPath), Rebase(p, oldPath, newPath), c.inodes[p];
            && q in d.inodes && d.inodes[q] == i
            && (i in d.lookups <==> i in c.lookups)
            && (i in c.lookups ==> d.lookups[i] == c.lookups[i])
  {
    RebaseInverse(p, oldPath, newPath);
    RenamedAt(c.inodes, oldPath, newPath, Rebase(p, oldPath, newPath));
  }

  lemma ReindexAndBack(c: Cache, m: Index)
    requires c.Consistent() && m.Values == c.inodes.Values
    ensures c.Reindexed(m).Reindexed(c.inodes) == c
  {
    assert Restrict(c.lookups, m.Values) == c.lookups;
  }
}
