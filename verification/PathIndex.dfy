/** A path-to-inode index as a plain map, its inverse, and what removing, adding and renaming
    subtrees mean on it. The client cache keeps both directions by hand; this module is the
    simple form it is measured against. */
module PathIndex {
  import opened Paths

  type Inode = nat
  type Index = map<Path, Inode>

  /** The inverse index: for every inode that occurs, the set of its paths. */
  function Inverse(m: Index): map<Inode, set<Path>> {
    map i | i in m.Values :: set p | p in m && m[p] == i
  }

  /** `inv` lists, for every inode of `m` and no other, exactly its paths. */
  ghost predicate IsInverse(m: Index, inv: map<Inode, set<Path>>) {
    && (forall i :: i in inv ==> inv[i] != {})
    && (forall i, p :: i in inv && p in inv[i] ==> p in m && m[p] == i)
    && (forall p :: p in m ==> m[p] in inv && p in inv[m[p]])
  }

  /** The inverse is the one and only two-way partner without empty path sets. */
  lemma InverseIff(m: Index, inv: map<Inode, set<Path>>)
    ensures IsInverse(m, inv) <==> inv == Inverse(m)
  {
    InverseHolds(m);
    if IsInverse(m, inv) {
      forall i | i in inv
        ensures i in Inverse(m) && inv[i] == Inverse(m)[i]
      {
        var p :| p in inv[i];
        assert m[p] in m.Values;
      }
      forall i | i in Inverse(m)
        ensures i in inv
      {
        var p :| p in m && m[p] == i;
      }
    }
  }

  lemma InverseHolds(m: Index)
    ensures IsInverse(m, Inverse(m))
    ensures Inverse(m).Keys == m.Values
  {
    var inv := Inverse(m);
    forall i | i in inv
      ensures inv[i] != {}
    {
      var p :| p in m && m[p] == i;
      assert p in inv[i];
    }
    forall p | p in m
      ensures m[p] in inv && p in inv[m[p]]
    {
      assert m[p] in m.Values;
    }
  }

  function Detach(inv: map<Inode, set<Path>>, i: Inode, p: Path): map<Inode, set<Path>> {
    if i !in inv then inv
    else if inv[i] - {p} == {} then inv - {i}
    else inv[i := inv[i] - {p}]
  }

  function Attach(inv: map<Inode, set<Path>>, i: Inode, p: Path): map<Inode, set<Path>> {
    inv[i := (if i in inv then inv[i] else {}) + {p}]
  }

  lemma InverseRemove(m: Index, p: Path)
    requires p in m
    ensures Inverse(m - {p}) == Detach(Inverse(m), m[p], p)
  {
    InverseHolds(m);
    DetachInverse(m, Inverse(m), p);
    InverseIff(m - {p}, Detach(Inverse(m), m[p], p));
  }

  lemma DetachInverse(m: Index, inv: map<Inode, set<Path>>, p: Path)
    requires IsInverse(m, inv) && p in m
    ensures IsInverse(m - {p}, Detach(inv, m[p], p))
  {
  }

  lemma InverseAdd(m: Index, p: Path, i: Inode)
    requires p in m ==> m[p] == i
    ensures Inverse(m[p := i]) == Attach(Inverse(m), i, p)
  {
    InverseHolds(m);
    AttachInverse(m, Inverse(m), i, p);
    InverseIff(m[p := i], Attach(Inverse(m), i, p));
  }

  lemma AttachInverse(m: Index, inv: map<Inode, set<Path>>, i: Inode, p: Path)
    requires IsInverse(m, inv) && (p in m ==> m[p] == i)
    ensures IsInverse(m[p := i], Attach(inv, i, p))
  {
  }

  function WithoutInode(m: Index, inode: Inode): Index {
    map p | p in m && m[p] != inode :: m[p]
  }

  lemma InverseWithoutInode(m: Index, inode: Inode)
    ensures Inverse(WithoutInode(m, inode)) == Inverse(m) - {inode}
    ensures WithoutInode(m, inode).Values == m.Values - {inode}
    ensures WithoutInode(m, inode)
         == if inode in Inverse(m) then m - Inverse(m)[inode] else m
  {
    InverseHolds(m);
    InverseIff(WithoutInode(m, inode), Inverse(m) - {inode});
    InverseHolds(WithoutInode(m, inode));
  }

  /** Entries of `counts` for the inodes in `live`. */
  function Restrict(counts: map<Inode, nat>, live: set<Inode>): map<Inode, nat> {
    map i | i in counts && i in live :: counts[i]
  }

  /** Removing one path removes at most its own inode. */
  lemma ValuesWithout(m: Index, p: Path)
    requires p in m
    ensures (m - {p}).Values == if exists q :: q in m && q != p && m[q] == m[p]
                                then m.Values else m.Values - {m[p]}
  {
    var rest := m - {p};
    forall i | i in m.Values && i != m[p]
      ensures i in rest.Values
    {
      var q :| q in m && m[q] == i;
      assert q in rest && rest[q] == i;
    }
    if q :| q in m && q != p && m[q] == m[p] {
      assert q in rest && rest[q] == m[p];
    }
  }

  function SubtreePaths(m: Index, root: Path): set<Path> {
    set p | p in m && InSubtree(p, root)
  }

  predicate NoneBelow(m: Index, root: Path) {
    forall p :: p in m ==> !InSubtree(p, root)
  }

  function WithoutSubtree(m: Index, root: Path): Index {
    m - SubtreePaths(m, root)
  }

  /** Where the paths in `done` end up. */
  function Targets(done: set<Path>, oldRoot: Path, newRoot: Path): set<Path> {
    set p | p in done :: Rebase(p, oldRoot, newRoot)
  }

  /** `m` with the paths in `done` moved from below `oldRoot` to below `newRoot`. */
  function MovePaths(m: Index, done: set<Path>, oldRoot: Path, newRoot: Path): Index
    requires done <= SubtreePaths(m, oldRoot) && newRoot != ""
  {
    TargetsBack(done, oldRoot, newRoot);
    map q | q in (m.Keys - done) + Targets(done, oldRoot, newRoot) ::
      if q in m.Keys - done then m[q] else m[Rebase(q, newRoot, oldRoot)]
  }

  lemma TargetsBack(done: set<Path>, oldRoot: Path, newRoot: Path)
    requires forall p :: p in done ==> InSubtree(p, oldRoot)
    requires newRoot != ""
    ensures forall q :: q in Targets(done, oldRoot, newRoot) ==>
              Rebase(q, newRoot, oldRoot) in done && InSubtree(q, newRoot)
  {
    forall p | p in done {
      RebaseInverse(p, oldRoot, newRoot);
    }
  }

  /** One more path moved: unlink it, link its target. */
  lemma MoveOne(m: Index, done: set<Path>, p: Path, oldRoot: Path, newRoot: Path)
    requires Disjoint(oldRoot, newRoot) && NoneBelow(m, newRoot)
    requires done + {p} <= SubtreePaths(m, oldRoot) && p !in done
    ensures var before := MovePaths(m, done, oldRoot, newRoot);
            var target := Rebase(p, oldRoot, newRoot);
            && p in before && before[p] == m[p] && target !in before - {p}
            && MovePaths(m, done + {p}, oldRoot, newRoot) == (before - {p})[target := m[p]]
  {
    var before, after := MovePaths(m, done, oldRoot, newRoot), MovePaths(m, done + {p}, oldRoot, newRoot);
    var target := Rebase(p, oldRoot, newRoot);
    TargetIsNew(m, done, p, oldRoot, newRoot);
    TargetsAdd(done, p, oldRoot, newRoot);
    assert after.Keys == before.Keys - {p} + {target};
  }

  /** The path to move is still where it was, and its target is free. */
  lemma TargetIsNew(m: Index, done: set<Path>, p: Path, oldRoot: Path, newRoot: Path)
    requires Disjoint(oldRoot, newRoot) && NoneBelow(m, newRoot)
    requires done + {p} <= SubtreePaths(m, oldRoot) && p !in done
    ensures var target := Rebase(p, oldRoot, newRoot);
            && target !in m && target !in Targets(done, oldRoot, newRoot) && p !in Targets(done, oldRoot, newRoot)
            && Rebase(target, newRoot, oldRoot) == p
  {
    TargetsBack(done, oldRoot, newRoot);
    RebaseInverse(p, oldRoot, newRoot);
    DisjointSubtrees(p, oldRoot, newRoot);
  }

  lemma TargetsAdd(done: set<Path>, p: Path, oldRoot: Path, newRoot: Path)
    ensures Targets(done + {p}, oldRoot, newRoot)
         == Targets(done, oldRoot, newRoot) + {Rebase(p, oldRoot, newRoot)}
  {
  }

  /** Moving paths neither loses nor invents an inode. */
  lemma MoveKeepsInodes(m: Index, done: set<Path>, oldRoot: Path, newRoot: Path)
    requires Disjoint(oldRoot, newRoot) && NoneBelow(m, newRoot)
    requires done <= SubtreePaths(m, oldRoot)
    ensures MovePaths(m, done, oldRoot, newRoot).Values == m.Values
  {
    var after := MovePaths(m, done, oldRoot, newRoot);
    TargetsBack(done, oldRoot, newRoot);
    forall q | q in after
      ensures after[q] in m.Values
    {
    }
    forall p | p in m
      ensures m[p] in after.Values
    {
      if p in done {
        var t := Rebase(p, oldRoot, newRoot);
        RebaseInverse(p, oldRoot, newRoot);
        assert t in Targets(done, oldRoot, newRoot);
        assert after[t] == m[p];
      } else {
        assert after[p] == m[p];
      }
    }
  }

  /** The meaning of a rename on an index: whatever was below `newRoot` is gone, the subtree of
      `oldRoot` is found below `newRoot` suffix by suffix, everything else is as before. */
  function Renamed(m: Index, oldRoot: Path, newRoot: Path): Index
    requires Disjoint(oldRoot, newRoot)
  {
    var base := WithoutSubtree(m, newRoot);
    MovePaths(base, SubtreePaths(base, oldRoot), oldRoot, newRoot)
  }

  lemma RenamedAt(m: Index, oldRoot: Path, newRoot: Path, q: Path)
    requires Disjoint(oldRoot, newRoot)
    ensures InSubtree(q, newRoot) ==>
              (q in Renamed(m, oldRoot, newRoot) <==> Rebase(q, newRoot, oldRoot) in m)
    ensures InSubtree(q, newRoot) && q in Renamed(m, oldRoot, newRoot) ==>
              Renamed(m, oldRoot, newRoot)[q] == m[Rebase(q, newRoot, oldRoot)]
    ensures InSubtree(q, oldRoot) ==> q !in Renamed(m, oldRoot, newRoot)
    ensures !InSubtree(q, newRoot) && !InSubtree(q, oldRoot) ==>
              (q in Renamed(m, oldRoot, newRoot) <==> q in m)
    ensures !InSubtree(q, newRoot) && q in Renamed(m, oldRoot, newRoot) ==>
              q in m && Renamed(m, oldRoot, newRoot)[q] == m[q]
  {
    var base := WithoutSubtree(m, newRoot);
    var done := SubtreePaths(base, oldRoot);
    TargetsBack(done, oldRoot, newRoot);
    DisjointSubtrees(q, oldRoot, newRoot);
    if InSubtree(q, newRoot) {
      var p := Rebase(q, newRoot, oldRoot);
      RebaseInverse(q, newRoot, oldRoot);
      DisjointSubtrees(p, oldRoot, newRoot);
      if p in m {
        assert p in done;
        assert q in Targets(done, oldRoot, newRoot);
      }
    }
  }

  lemma RenamedKeepsInodes(m: Index, oldRoot: Path, newRoot: Path)
    requires Disjoint(oldRoot, newRoot)
    ensures Renamed(m, oldRoot, newRoot).Values == WithoutSubtree(m, newRoot).Values
  {
    var base := WithoutSubtree(m, newRoot);
    MoveKeepsInodes(base, SubtreePaths(base, oldRoot), oldRoot, newRoot);
  }

  /** When nothing was below `newRoot`, the reverse rename is the inverse. */
  lemma RenamedBack(m: Index, oldRoot: Path, newRoot: Path)
    requires Disjoint(oldRoot, newRoot) && NoneBelow(m, newRoot)
    ensures Renamed(m, oldRoot, newRoot).Values == m.Values
    ensures Renamed(Renamed(m, oldRoot, newRoot), newRoot, oldRoot) == m
  {
    RenamedKeepsAll(m, oldRoot, newRoot);
    var there := Renamed(m, oldRoot, newRoot);
    var back := Renamed(there, newRoot, oldRoot);
    forall q: Path
      ensures q in back <==> q in m
      ensures q in m ==> back[q] == m[q]
    {
      BackAt(m, there, back, oldRoot, newRoot, q);
    }
  }

  lemma RenamedKeepsAll(m: Index, oldRoot: Path, newRoot: Path)
    requires Disjoint(oldRoot, newRoot) && NoneBelow(m, newRoot)
    ensures Renamed(m, oldRoot, newRoot).Values == m.Values
  {
    RenamedKeepsInodes(m, oldRoot, newRoot);
    assert WithoutSubtree(m, newRoot) == m;
  }

  lemma BackAt(m: Index, there: Index, back: Index, oldRoot: Path, newRoot: Path, q: Path)
    requires Disjoint(oldRoot, newRoot) && NoneBelow(m, newRoot)
    requires there == Renamed(m, oldRoot, newRoot) && back == Renamed(there, newRoot, oldRoot)
    ensures q in back <==> q in m
    ensures q in m ==> back[q] == m[q]
  {
    RenamedAt(there, newRoot, oldRoot, q);
    if InSubtree(q, oldRoot) {
      RebaseInverse(q, oldRoot, newRoot);
      RenamedAt(m, oldRoot, newRoot, Rebase(q, oldRoot, newRoot));
    } else {
      RenamedAt(m, oldRoot, newRoot, q);
    }
  }
}
