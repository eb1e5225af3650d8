/** The client path cache as the source keeps it: two indexes, lookup counts, a poison flag and
    a sequence number, updated entry by entry. Each method is proved to compute the operation of
    `CacheState` that gives its meaning, whatever order the entries are visited in. */
module PathCaches {
  import opened Wrappers
  import opened Paths
  import opened PathIndex
  import opened CacheState
  import LexOrder

  class PathCache {
    var inodes: Index
    var paths: map<Inode, set<Path>>
    var lookups: map<Inode, nat>
    var poisoned: bool
    var lastSequence: nat

    function State(): Cache
      reads this
    {
      Cache(inodes, paths, lookups, poisoned, lastSequence)
    }

    ghost predicate Valid()
      reads this
    {
      State().Consistent()
    }

    constructor ()
      ensures Valid() && State() == EmptyCache
    {
      inodes, paths, lookups := map["/" := ROOT_INODE], map[ROOT_INODE := {"/"}], map[];
      poisoned, lastSequence := false, 0;
      new;
      EmptiedWellFormed(EmptyCache, false, 0);
    }

    method Insert(path: Path, inode: Inode)
      requires Valid()
      modifies this
      ensures Valid() && State() == old(State()).Insert(path, inode)
    {
      if inode == 0 {
        return;
      }
      ghost var before := State();
      if path in inodes && inodes[path] != inode {
        RemoveInodePath(inodes[path], path);
        InverseRemove(before.inodes, path);
        LookupsAfterUnlink(before, path);
      }
      ghost var rest := if path in inodes && inodes[path] != inode then inodes - {path} else inodes;
      inodes := inodes[path := inode];
      paths := Attach(paths, inode, path);
      InverseAdd(rest, path, inode);
      assert rest[path := inode] == inodes;
      LookupsAfterInsert(before, path, inode);
      ReindexedConsistent(before, inodes);
    }

    method AddLookup(inode: Inode, count: nat)
      requires Valid()
      modifies this
      ensures Valid() && State() == old(State()).AddLookup(inode, count)
    {
      if inode == 0 || inode == ROOT_INODE || count == 0 || inode !in paths {
        return;
      }
      var current := if inode in lookups then lookups[inode] else 0;
      lookups := lookups[inode := SaturatingAdd(current, count)];
      InverseHolds(inodes);
    }

    method InsertLookup(path: Path, inode: Inode, count: nat)
      requires Valid()
      modifies this
      ensures Valid() && State() == old(State()).InsertLookup(path, inode, count)
    {
      Insert(path, inode);
      AddLookup(inode, count);
    }

    method Forget(inode: Inode, nlookup: nat)
      requires Valid()
      modifies this
      ensures Valid() && State() == old(State()).Forget(inode, nlookup)
    {
      if inode == ROOT_INODE || nlookup == 0 {
        return;
      }
      if inode !in lookups {
        RemoveInode(inode);
        return;
      }
      if lookups[inode] > nlookup {
        lookups := lookups[inode := lookups[inode] - nlookup];
        return;
      }
      RemoveInode(inode);
    }

    method RemoveInode(inode: Inode)
      requires Valid()
      modifies this
      ensures Valid() && State() == old(State()).RemoveInode(inode)
    {
      if inode == ROOT_INODE {
        return;
      }
      ghost var before := State();
      RemovedInode(before, inode);
      if inode in paths {
        var todo := paths[inode];
        paths := paths - {inode};
        while todo != {}
          invariant todo <= before.paths[inode]
          invariant inodes == before.inodes - (before.paths[inode] - todo)
          invariant State() == before.(inodes := inodes, paths := before.paths - {inode})
        {
          var path :| path in todo;
          inodes := inodes - {path};
          todo := todo - {path};
          assert before.paths[inode] - todo == before.paths[inode] - (todo + {path}) + {path};
        }
        assert before.paths[inode] - todo == before.paths[inode];
      }
      lookups := lookups - {inode};
      assert WithoutInode(before.inodes, inode) == inodes;
      ReindexedConsistent(before, inodes);
    }

    /** Unlinks one cached path: the pair of statements that every removal loop repeats. */
    method Unlink(path: Path, inode: Inode)
      requires Valid() && path in inodes && inodes[path] == inode
      modifies this
      ensures Valid() && State() == old(State()).Reindexed(old(inodes) - {path})
    {
      ghost var before := State();
      inodes := inodes - {path};
      RemoveInodePath(inode, path);
      InverseRemove(before.inodes, path);
      LookupsAfterUnlink(before, path);
      ReindexedConsistent(before, inodes);
    }

    method RemovePath(path: Path)
      requires Valid()
      modifies this
      ensures Valid() && State() == old(State()).RemovePath(path)
    {
      if path == "" || path == "/" {
        return;
      }
      ghost var before := State();
      var doomed := PathsInSubtree(path);
      ReindexedSame(before);
      for k := 0 to |doomed|
        invariant Valid()
        invariant State() == before.Reindexed(before.inodes - Listed(doomed[..k]))
      {
        var (inode, cached) := doomed[k];
        ListedNext(doomed, k);
        ghost var left := before.inodes - Listed(doomed[..k]);
        ReindexedTwice(before, left, left - {cached});
        assert left - {cached} == before.inodes - Listed(doomed[..k + 1]);
        Unlink(cached, inode);
      }
      assert doomed[..|doomed|] == doomed;
    }

    /** Rejects anything but a rename between disjoint non-root subtrees. */
    method Rename(oldPath: Path, newPath: Path) returns (ok: bool)
      requires Valid()
      modifies this
      ensures Valid() && ok == ValidRename(oldPath, newPath)
      ensures State() == if ok then old(State()).Rename(oldPath, newPath) else old(State())
    {
      ok := ValidRename(oldPath, newPath);
      if !ok {
        return;
      }
      ghost var before := State();
      var moved := PathsInSubtree(oldPath);
      RemoveSubtreeExcept(newPath, moved);
      ghost var base := WithoutSubtree(before.inodes, newPath);
      DisjointRemoval(before.inodes, oldPath, newPath);
      MoveAll(moved, oldPath, newPath);
      MoveKeepsInodes(base, SubtreePaths(base, oldPath), oldPath, newPath);
      ReindexedTwice(before, base, inodes);
      ReindexedSameInodes(before.Reindexed(base), inodes);
      ReindexedConsistent(before, inodes);
    }

    /** The loop of a rename. While one entry is on its way the inverse index has lost it and a
        lookup count may belong to no indexed inode; after every round both are right again. */
    method MoveAll(moved: seq<(Inode, Path)>, oldPath: Path, newPath: Path)
      requires Valid() && Disjoint(oldPath, newPath) && NoneBelow(inodes, newPath)
      requires ListsSubtree(moved, inodes, oldPath)
      modifies this
      ensures inodes == MovePaths(old(inodes), Listed(moved), oldPath, newPath)
      ensures State() == old(State()).(inodes := inodes, paths := Inverse(inodes))
    {
      ghost var before := State();
      MoveNone(inodes, oldPath, newPath);
      for k := 0 to |moved|
        invariant Listed(moved[..k]) <= SubtreePaths(before.inodes, oldPath)
        invariant inodes == MovePaths(before.inodes, Listed(moved[..k]), oldPath, newPath)
        invariant State() == before.(inodes := inodes, paths := Inverse(inodes))
      {
        MoveNext(before.inodes, moved, k, oldPath, newPath);
        MoveEntry(moved[k].0, moved[k].1, Rebase(moved[k].1, oldPath, newPath));
      }
      assert moved[..|moved|] == moved;
    }

    method MoveEntry(inode: Inode, path: Path, renamed: Path)
      requires paths == Inverse(inodes)
      requires path in inodes && inodes[path] == inode && renamed !in inodes - {path}
      modifies this
      ensures inodes == (old(inodes) - {path})[renamed := inode]
      ensures State() == old(State()).(inodes := inodes, paths := Inverse(inodes))
    {
      InverseRemove(inodes, path);
      inodes := inodes - {path};
      DetachInodePathForRename(inode, path);
      InverseAdd(inodes, renamed, inode);
      inodes := inodes[renamed := inode];
      paths := Attach(paths, inode, renamed);
    }

    method RemoveSubtreeExcept(path: Path, except: seq<(Inode, Path)>)
      requires Valid()
      modifies this
      ensures Valid()
      ensures State() == old(State()).Reindexed(
                           old(inodes) - (SubtreePaths(old(inodes), path) - Listed(except)))
    {
      ghost var before := State();
      var exceptPaths := Listed(except);
      var doomed := PathsInSubtree(path);
      ReindexedSame(before);
      for k := 0 to |doomed|
        invariant Valid()
        invariant State() == before.Reindexed(before.inodes - (Listed(doomed[..k]) - exceptPaths))
      {
        var (inode, cached) := doomed[k];
        ListedNext(doomed, k);
        if cached in exceptPaths {
          assert Listed(doomed[..k + 1]) - exceptPaths == Listed(doomed[..k]) - exceptPaths;
          continue;
        }
        var left := before.inodes - (Listed(doomed[..k]) - exceptPaths);
        ReindexedTwice(before, left, left - {cached});
        assert left - {cached} == before.inodes - (Listed(doomed[..k + 1]) - exceptPaths);
        Unlink(cached, inode);
      }
      assert doomed[..|doomed|] == doomed;
    }

    method Poison()
      modifies this
      ensures Valid() && State() == old(State()).Poison()
      ensures poisoned && lastSequence == old(lastSequence)
      ensures inodes == map["/" := ROOT_INODE] && lookups == map[]
    {
      poisoned := true;
      inodes, paths, lookups := map[], map[], map[];
      ClearedWithRoot(true, lastSequence);
      Insert("/", ROOT_INODE);
    }

    method ResetWithSequence(sequence: nat)
      modifies this
      ensures Valid() && State() == old(State()).Reset(sequence)
      ensures !poisoned && lastSequence == sequence
      ensures inodes == map["/" := ROOT_INODE] && lookups == map[]
    {
      poisoned := false;
      inodes, paths, lookups := map[], map[], map[];
      lastSequence := sequence;
      ClearedWithRoot(false, lastSequence);
      Insert("/", ROOT_INODE);
    }

    /** The cached entries at or below `root`, in no particular order. */
    method PathsInSubtree(root: Path) returns (entries: seq<(Inode, Path)>)
      ensures ListsSubtree(entries, inodes, root)
    {
      entries := [];
      var todo := inodes.Keys;
      while todo != {}
        invariant todo <= inodes.Keys
        invariant Listed(entries) == set p | p in inodes.Keys - todo && InSubtree(p, root)
        invariant forall e :: e in entries ==> e.1 in inodes && inodes[e.1] == e.0 && e.1 !in todo
        invariant forall i, j :: 0 <= i < j < |entries| ==> entries[i].1 != entries[j].1
      {
        var path :| path in todo;
        todo := todo - {path};
        if InSubtree(path, root) {
          ListedAppend(entries, (inodes[path], path));
          entries := entries + [(inodes[path], path)];
        }
      }
    }

    /** The least cached path of an inode. */
    method RepresentativePath(inode: Inode) returns (path: Option<Path>)
      requires Valid()
      ensures path.None? <==> inode !in paths
      ensures path.Some? ==> path.value in inodes && inodes[path.value] == inode
      ensures path.Some? ==> forall q :: q in inodes && inodes[q] == inode ==> LexOrder.Le(path.value, q)
    {
      if inode !in paths {
        return None;
      }
      var todo := paths[inode];
      InverseHolds(inodes);
      var least :| least in todo;
      LexOrder.Reflexive(least);
      while todo != {}
        invariant todo <= paths[inode] && least in paths[inode]
        invariant forall q :: q in paths[inode] - todo ==> LexOrder.Le(least, q)
      {
        var q :| q in todo;
        todo := todo - {q};
        ghost var was := least;
        LexOrder.Total(least, q);
        LexOrder.Reflexive(q);
        if !LexOrder.Le(least, q) {
          least := q;
          forall r | r in paths[inode] - todo && LexOrder.Le(was, r) {
            LexOrder.Transitive(q, was, r);
          }
        }
      }
      return Some(least);
    }

    method RemoveInodePath(inode: Inode, path: Path)
      modifies this
      ensures paths == Detach(old(paths), inode, path)
      ensures lookups == if inode in paths then old(lookups) else old(lookups) - {inode}
      ensures inodes == old(inodes) && poisoned == old(poisoned) && lastSequence == old(lastSequence)
    {
      if inode !in paths {
        lookups := lookups - {inode};
        return;
      }
      paths := paths[inode := paths[inode] - {path}];
      if paths[inode] == {} {
        paths := paths - {inode};
        lookups := lookups - {inode};
      }
      assert paths == Detach(old(paths), inode, path);
    }

    method DetachInodePathForRename(inode: Inode, path: Path)
      modifies this
      ensures paths == Detach(old(paths), inode, path)
      ensures inodes == old(inodes) && lookups == old(lookups)
      ensures poisoned == old(poisoned) && lastSequence == old(lastSequence)
    {
      if inode !in paths {
        return;
      }
      paths := paths[inode := paths[inode] - {path}];
      if paths[inode] == {} {
        paths := paths - {inode};
      }
      assert paths == Detach(old(paths), inode, path);
    }
  }

  function Listed(entries: seq<(Inode, Path)>): set<Path> {
    set e | e in entries :: e.1
  }

  /** Every path of the subtree once, with its inode. */
  ghost predicate ListsSubtree(entries: seq<(Inode, Path)>, m: Index, root: Path) {
    && Listed(entries) == SubtreePaths(m, root)
    && (forall e :: e in entries ==> e.1 in m && m[e.1] == e.0)
    && (forall i, j :: 0 <= i < j < |entries| ==> entries[i].1 != entries[j].1)
  }

  /** One more entry of a rename moved. */
  lemma MoveNext(m: Index, moved: seq<(Inode, Path)>, k: nat, oldPath: Path, newPath: Path)
    requires Disjoint(oldPath, newPath) && NoneBelow(m, newPath) && ListsSubtree(moved, m, oldPath) && k < |moved|
    ensures Listed(moved[..k]) <= SubtreePaths(m, oldPath) && Listed(moved[..k + 1]) <= SubtreePaths(m, oldPath)
    ensures var before := MovePaths(m, Listed(moved[..k]), oldPath, newPath);
            var (inode, path) := moved[k];
            var target := Rebase(path, oldPath, newPath);
            && path in before && before[path] == inode && target !in before - {path}
            && MovePaths(m, Listed(moved[..k + 1]), oldPath, newPath) == (before - {path})[target := inode]
  {
    ListedNext(moved, k);
    MoveOne(m, Listed(moved[..k]), moved[k].1, oldPath, newPath);
  }

  lemma ListedAppend(entries: seq<(Inode, Path)>, e: (Inode, Path))
    ensures Listed(entries + [e]) == Listed(entries) + {e.1}
  {
    assert forall x :: x in entries + [e] <==> x in entries || x == e;
  }

  /** The entry after the first `k` adds its own, new, path. */
  lemma ListedNext(entries: seq<(Inode, Path)>, k: nat)
    requires k < |entries|
    requires forall i, j :: 0 <= i < j < |entries| ==> entries[i].1 != entries[j].1
    ensures Listed(entries[..k + 1]) == Listed(entries[..k]) + {entries[k].1}
    ensures entries[k].1 !in Listed(entries[..k])
    ensures entries[k] in entries && entries[k].1 in Listed(entries)
    ensures Listed(entries[..k + 1]) <= Listed(entries)
  {
    assert entries[..k + 1] == entries[..k] + [entries[k]];
    ListedAppend(entries[..k], entries[k]);
    forall e | e in entries[..k + 1]
      ensures e in entries
    {
    }
  }

  lemma ReindexedSame(c: Cache)
    requires c.Consistent()
    ensures forall none: set<Path> :: none == {} ==> c.Reindexed(c.inodes - none) == c
  {
    assert c.inodes - {} == c.inodes;
    assert Restrict(c.lookups, c.inodes.Values) == c.lookups;
  }

  lemma MoveNone(m: Index, oldPath: Path, newPath: Path)
    requires newPath != ""
    ensures forall none: set<Path> :: none == {} ==> MovePaths(m, none, oldPath, newPath) == m
  {
    assert m.Keys - {} + Targets({}, oldPath, newPath) == m.Keys;
  }

  lemma ReindexedSameInodes(c: Cache, m: Index)
    requires c.Consistent() && m.Values == c.inodes.Values
    ensures c.Reindexed(m) == c.(inodes := m, paths := Inverse(m))
  {
    assert Restrict(c.lookups, m.Values) == c.lookups;
  }

  /** Sparing the paths below `oldPath` spares nothing when `newPath` is cleared. */
  lemma DisjointRemoval(m: Index, oldPath: Path, newPath: Path)
    requires Disjoint(oldPath, newPath)
    ensures m - (SubtreePaths(m, newPath) - SubtreePaths(m, oldPath)) == WithoutSubtree(m, newPath)
    ensures SubtreePaths(WithoutSubtree(m, newPath), oldPath) == SubtreePaths(m, oldPath)
    ensures NoneBelow(WithoutSubtree(m, newPath), newPath)
  {
    forall p | p in m {
      DisjointSubtrees(p, oldPath, newPath);
    }
  }

  lemma ReindexedTwice(c: Cache, m: Index, n: Index)
    requires n.Values <= m.Values
    ensures c.Reindexed(m).Reindexed(n) == c.Reindexed(n)
  {
  }

  lemma LookupsAfterUnlink(c: Cache, path: Path)
    requires c.Consistent() && path in c.inodes
    ensures Restrict(c.lookups, (c.inodes - {path}).Values)
         == (if c.inodes[path] in Inverse(c.inodes - {path}) then c.lookups
             else c.lookups - {c.inodes[path]})
  {
    ValuesWithout(c.inodes, path);
    InverseHolds(c.inodes - {path});
  }

  lemma LookupsAfterInsert(c: Cache, path: Path, inode: Inode)
    requires c.Consistent()
    ensures Restrict(c.lookups, c.inodes[path := inode].Values)
         == (if path in c.inodes && c.inodes[path] != inode
             then Restrict(c.lookups, (c.inodes - {path}).Values) else c.lookups)
  {
    var m := c.inodes[path := inode];
    if path in c.inodes && c.inodes[path] != inode {
      ValuesWithout(c.inodes, path);
      ValuesWithout(m, path);
      assert m - {path} == c.inodes - {path};
      assert m[path] in m.Values;
    } else {
      forall p | p in c.inodes
        ensures c.inodes[p] in m.Values
      {
        assert m[p] == c.inodes[p];
      }
    }
  }

  lemma RemovedInode(c: Cache, inode: Inode)
    requires c.Consistent()
    ensures c.Reindexed(WithoutInode(c.inodes, inode))
         == c.(inodes := (if inode in c.paths then c.inodes - c.paths[inode] else c.inodes),
               paths := c.paths - {inode}, lookups := c.lookups - {inode})
  {
    InverseWithoutInode(c.inodes, inode);
    assert Restrict(c.lookups, c.inodes.Values - {inode}) == c.lookups - {inode};
  }

  /** Inserting the root into a cleared cache gives the cache that holds nothing but the root. */
  lemma ClearedWithRoot(poisoned: bool, sequence: nat)
    ensures Cache(map[], map[], map[], poisoned, sequence).Consistent()
    ensures Cache(map[], map[], map[], poisoned, sequence).Insert("/", ROOT_INODE)
         == EmptyCache.Emptied(poisoned, sequence)
  {
    InverseIff(map[], map[]);
    var m: Index := map[];
    assert m["/" := ROOT_INODE] == map["/" := ROOT_INODE];
    InverseIff(map["/" := ROOT_INODE], map[ROOT_INODE := {"/"}]);
  }
}

/** Byte-wise lexicographic order on strings, the order of the source's sorted path sets. */
module LexOrder {
  predicate Le(a: string, b: string) {
    a == "" || (b != "" && (a[0] < b[0] || (a[0] == b[0] && Le(a[1..], b[1..]))))
  }

  lemma {:induction false} Reflexive(a: string)
    ensures Le(a, a)
  {
    if a == "" {
    } else {
      Reflexive(a[1..]);
    }
  }

  lemma {:induction false} Total(a: string, b: string)
    ensures Le(a, b) || Le(b, a)
  {
    if a != "" && b != "" {
      Total(a[1..], b[1..]);
    }
  }

  lemma {:induction false} Transitive(a: string, b: string, c: string)
    requires Le(a, b) && Le(b, c)
    ensures Le(a, c)
  {
    if a != "" && a[0] == b[0] && b[0] == c[0] {
      Transitive(a[1..], b[1..], c[1..]);
    }
  }
}
