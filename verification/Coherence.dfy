/** Cache coherence over whole runs: whatever is lost, duplicated, reordered or resynced, an
    unpoisoned cache never disagrees with the server's namespace at the cache's own sequence.
    The server is described on component lists, the cache works on path strings. */
module Coherence {
  import opened Wrappers
  import opened Paths
  import opened PathComponents
  import opened PathIndex
  import opened CacheState
  import opened Invalidations
  import opened KernelState
  import opened PathFates
  import opened CacheRuns

  /** The server's name tree: component lists to inodes, the root being the empty list. */
  type Namespace = map<seq<string>, Inode>

  /** One server's mutation log and its name tree after each entry. `spaces[n]` is the tree as of
      sequence number `n`. */
  datatype Server = Server(namespace: string, log: seq<Invalidation>, spaces: seq<Namespace>)
  {
    ghost predicate Legal() {
      && namespace != ""
      && |spaces| == |log| + 1
      && (forall n :: 0 <= n <= |log| ==> Rooted(n))
      && (forall n :: 0 <= n < |log| ==> Logged(n))
    }

    predicate Rooted(n: nat)
      requires n < |spaces|
    {
      IsRooted(spaces[n])
    }

    /** Entry `n` is valid, has the next number, and tells the change of the tree. */
    ghost predicate Logged(n: nat)
      requires n < |log| < |spaces|
    {
      && ValidInvalidation(log[n]) && log[n].namespace == namespace && log[n].sequence == n + 1
      && Changes(spaces[n], log[n], spaces[n + 1])
    }
  }

  predicate IsRooted(space: Namespace) {
    [] in space && space[[]] == ROOT_INODE
  }

  // Changes of a tree. They say what is sure to be there afterwards, not what is gone.

  ghost predicate Kept(before: Namespace, after: Namespace) {
    forall x :: x in before ==> x in after && after[x] == before[x]
  }

  ghost predicate Added(before: Namespace, after: Namespace, x: seq<string>, inode: Inode) {
    && x in after && after[x] == inode
    && forall y :: y in before && y != x ==> y in after && after[y] == before[y]
  }

  ghost predicate Moved(before: Namespace, after: Namespace, o: seq<string>, n: seq<string>) {
    forall x :: x in before ==>
      && (o <= x ==> n + x[|o|..] in after && after[n + x[|o|..]] == before[x])
      && (!(o <= x) && !(n <= x) ==> x in after && after[x] == before[x])
  }

  ghost predicate KeptOutside(before: Namespace, after: Namespace, root: seq<string>) {
    forall x :: x in before && !(root <= x) ==> x in after && after[x] == before[x]
  }

  /** What a logged mutation guarantees about the tree after it. A full resync guarantees nothing. */
  ghost predicate Changes(before: Namespace, inv: Invalidation, after: Namespace)
    requires ValidInvalidation(inv)
  {
    match inv.Kind().value
    case Create =>
      if inv.inode == 0 then KeptOutside(before, after, Components(inv.path))
      else Added(before, after, Components(inv.path), inv.inode)
    case Delete => KeptOutside(before, after, Components(inv.path))
    case Rename => Moved(before, after, Components(inv.oldPath), Components(inv.newPath))
    case FullResync => true
    case _ => Kept(before, after)
  }

  /** The tree has the path, with this inode. */
  predicate Names(space: Namespace, path: Path, inode: Inode) {
    Components(path) in space && space[Components(path)] == inode
  }

  predicate AgreesAt(m: Index, space: Namespace, p: Path)
    requires p in m
  {
    Names(space, p, m[p])
  }

  /** Every cached pair is a pair of the tree, except perhaps the one at `wrong`. */
  ghost predicate AgreesBut(m: Index, space: Namespace, wrong: Option<Path>) {
    forall p :: p in m && wrong != Some(p) ==> AgreesAt(m, space, p)
  }

  ghost predicate Agrees(m: Index, space: Namespace) {
    AgreesBut(m, space, None)
  }

  ghost predicate CoherentCache(server: Server, c: Cache) {
    && c.WellFormed()
    && (!c.poisoned ==> c.lastSequence < |server.spaces| && Agrees(c.inodes, server.spaces[c.lastSequence]))
  }

  ghost predicate Coherent(server: Server, k: Kernel) {
    CoherentCache(server, k.cache)
  }

  /** Anything the broker may hand over: entries of the log any number of times and in any order,
      whoever requested them; full resyncs at any sequence the server has reached, including the
      start-up one at 0; malformed messages; messages of other namespaces. */
  ghost predicate Deliverable(server: Server, inv: Invalidation) {
    || inv.namespace != server.namespace
    || !ValidInvalidation(inv)
    || (IsResync(server.namespace, inv) && inv.sequence <= |server.log|)
    || (1 <= inv.sequence <= |server.log| && inv.Anonymous() == server.log[inv.sequence - 1].Anonymous())
  }

  ghost predicate Permitted(server: Server, k: Kernel, e: Event) {
    && (e.Deliver? ==> Deliverable(server, e.inv))
    && (e.Answer? ==> ValidNonRoot(e.path) && AnsweredAtOwnSequence(server, k, e.path, e.inode))
  }

  /** The answer is what the server's tree says as of the cache's own sequence. */
  ghost predicate AnsweredAtOwnSequence(server: Server, k: Kernel, path: Path, inode: Inode) {
    || k.cache.poisoned || inode == 0
    || (k.cache.lastSequence < |server.spaces| && Names(server.spaces[k.cache.lastSequence], path, inode))
  }

  ghost predicate PermittedRun(server: Server, events: seq<Event>) {
    forall i :: 0 <= i < |events| ==>
      Permitted(server, Run(server.namespace, EmptyKernel, events[..i]), events[i])
  }

  /** Main theorem. */
  lemma {:induction false} CoherentAlways(server: Server, events: seq<Event>)
    requires server.Legal() && PermittedRun(server, events)
    ensures Coherent(server, Run(server.namespace, EmptyKernel, events))
  {
    if events == [] {
      EmptiedWellFormed(EmptyCache, false, 0);
      OnlyRootAgrees(server, 0);
    } else {
      var init, e := events[..|events| - 1], events[|events| - 1];
      forall i | 0 <= i < |init|
        ensures Permitted(server, Run(server.namespace, EmptyKernel, init[..i]), init[i])
      {
        assert init[..i] == events[..i];
      }
      CoherentAlways(server, init);
      StepCoherent(server, Run(server.namespace, EmptyKernel, init), e);
    }
  }

  lemma StepCoherent(server: Server, k: Kernel, e: Event)
    requires server.Legal() && Coherent(server, k) && Permitted(server, k, e)
    ensures Coherent(server, Step(server.namespace, k, e))
  {
    StepKeepsWellFormed(server.namespace, k, e);
    match e
    case Deliver(inv, allowBaseline) => DeliveryCoherent(server, k, inv, allowBaseline);
    case _ =>
  }

  lemma OnlyRootAgrees(server: Server, n: nat)
    requires server.Legal() && n < |server.spaces|
    ensures Agrees(map["/" := ROOT_INODE], server.spaces[n])
  {
    assert server.Rooted(n) && Components("/") == [];
  }

  lemma DeliveryCoherent(server: Server, k: Kernel, inv: Invalidation, allowBaseline: bool)
    requires server.Legal() && Coherent(server, k) && Deliverable(server, inv)
    ensures Coherent(server, Apply(k, server.namespace, inv, allowBaseline).0)
  {
    CacheAfter(k, server.namespace, inv, allowBaseline);
    EmptiedCoherent(server, k.cache, true, k.cache.lastSequence);
    if inv.namespace == server.namespace && ValidInvalidation(inv) {
      DeliverableNumber(server, inv);
      if inv.Kind().value == FullResync {
        EmptiedCoherent(server, k.cache, false, inv.sequence);
      } else if !Gap(k, server.namespace, inv, allowBaseline) {
        BaselineIff(k.cache);
        NextCoherent(server, k, inv);
      }
    }
  }

  /** What can be delivered of a valid own change is an entry of the log; a resync carries a number
      the server has reached. */
  lemma DeliverableNumber(server: Server, inv: Invalidation)
    requires server.Legal() && Deliverable(server, inv)
    requires inv.namespace == server.namespace && ValidInvalidation(inv)
    ensures inv.sequence <= |server.log|
    ensures inv.Kind().value != FullResync ==>
              1 <= inv.sequence && inv.Anonymous() == server.log[inv.sequence - 1].Anonymous()
  {
  }

  lemma EmptiedCoherent(server: Server, c: Cache, poisoned: bool, n: nat)
    requires server.Legal() && (poisoned || n <= |server.log|)
    ensures CoherentCache(server, c.Emptied(poisoned, n))
  {
    EmptiedWellFormed(c, poisoned, n);
    if !poisoned {
      OnlyRootAgrees(server, n);
    }
  }

  lemma NextCoherent(server: Server, k: Kernel, inv: Invalidation)
    requires server.Legal() && Coherent(server, k)
    requires ValidInvalidation(inv) && inv.Kind().value != FullResync
    requires 1 <= inv.sequence <= |server.log| && inv.Anonymous() == server.log[inv.sequence - 1].Anonymous()
    requires inv.sequence == k.cache.lastSequence + 1 || OnlyRoot(k.cache)
    ensures CoherentCache(server, ApplyNext(k, inv).cache)
  {
    NextKeepsWellFormed(k, inv);
    NextNumber(k, inv);
    if !k.cache.poisoned {
      AgreesBefore(server, k.cache, inv.sequence);
      LoggedChangeAgrees(server, k, inv);
    }
  }

  lemma NextNumber(k: Kernel, inv: Invalidation)
    requires ValidInvalidation(inv)
    ensures ApplyNext(k, inv).cache.lastSequence == inv.sequence
    ensures ApplyNext(k, inv).cache.poisoned == k.cache.poisoned
  {
  }

  predicate OnlyRoot(c: Cache) {
    c.inodes == map["/" := ROOT_INODE]
  }

  /** A cache that takes up number `n` agrees with the tree just before it. */
  lemma AgreesBefore(server: Server, c: Cache, n: nat)
    requires server.Legal() && CoherentCache(server, c) && !c.poisoned && 1 <= n <= |server.log|
    requires n == c.lastSequence + 1 || OnlyRoot(c)
    ensures Agrees(c.inodes, server.spaces[n - 1])
  {
    if n != c.lastSequence + 1 {
      OnlyRootAgrees(server, n - 1);
    }
  }

  lemma LoggedChangeAgrees(server: Server, k: Kernel, inv: Invalidation)
    requires server.Legal() && k.cache.WellFormed() && ValidInvalidation(inv) && inv.Kind().value != FullResync
    requires 1 <= inv.sequence <= |server.log| && inv.Anonymous() == server.log[inv.sequence - 1].Anonymous()
    requires Agrees(k.cache.inodes, server.spaces[inv.sequence - 1])
    ensures Agrees(ApplyNext(k, inv).cache.inodes, server.spaces[inv.sequence])
  {
    var before, after := server.spaces[inv.sequence - 1], server.spaces[inv.sequence];
    assert server.Logged(inv.sequence - 1);
    SameChange(before, inv, server.log[inv.sequence - 1], after);
    NextAgrees(k, inv, before, after);
  }

  lemma SameChange(before: Namespace, a: Invalidation, b: Invalidation, after: Namespace)
    requires ValidInvalidation(a) && ValidInvalidation(b) && a.Anonymous() == b.Anonymous()
    requires Changes(before, b, after)
    ensures Changes(before, a, after)
  {
  }

  /** One change keeps agreement with the tree. */
  lemma NextAgrees(k: Kernel, inv: Invalidation, before: Namespace, after: Namespace)
    requires k.cache.WellFormed() && ValidInvalidation(inv) && inv.Kind().value != FullResync
    requires Agrees(k.cache.inodes, before) && Changes(before, inv, after)
    ensures Agrees(ApplyNext(k, inv).cache.inodes, after)
  {
    forall q | q in ApplyNext(k, inv).cache.inodes
      ensures AgreesAt(ApplyNext(k, inv).cache.inodes, after, q)
    {
      PairAgrees(k, inv, before, after, None, q);
    }
  }

  /** A pair after the change agrees with the tree after it, unless it came from the path that
      was wrong before. */
  lemma PairAgrees(k: Kernel, inv: Invalidation, before: Namespace, after: Namespace, wrong: Option<Path>, q: Path)
    requires k.cache.WellFormed() && ValidInvalidation(inv) && inv.Kind().value != FullResync
    requires AgreesBut(k.cache.inodes, before, wrong) && Changes(before, inv, after)
    requires q in ApplyNext(k, inv).cache.inodes && (wrong.Some? ==> FateOf(wrong.value, inv) != Some(q))
    ensures AgreesAt(ApplyNext(k, inv).cache.inodes, after, q)
  {
    var p := PairOrigin(k, inv, q);
    if !Makes(inv, q) || ApplyNext(k, inv).cache.inodes[q] != inv.inode {
      assert AgreesAt(k.cache.inodes, before, p);
      TreeFollowsFate(before, inv, after, p);
    }
  }

  /** The server's tree follows the fate of paths too: string subtrees against component prefixes. */
  lemma TreeFollowsFate(before: Namespace, inv: Invalidation, after: Namespace, p: Path)
    requires ValidInvalidation(inv) && Changes(before, inv, after) && ValidPath(p)
    requires Components(p) in before && FateOf(p, inv).Some?
    ensures var q := FateOf(p, inv).value;
            Components(q) in after && after[Components(q)] == before[Components(p)]
  {
    match inv.Kind().value
    case Create =>
      if inv.inode == 0 {
        SubtreeIsPrefix(p, inv.path);
      } else {
        DifferentComponents(p, inv.path);
      }
    case Delete => SubtreeIsPrefix(p, inv.path);
    case Rename =>
      SubtreeIsPrefix(p, inv.newPath);
      SubtreeIsPrefix(p, inv.oldPath);
      if InSubtree(p, inv.oldPath) {
        RebaseComponents(p, inv.oldPath, inv.newPath);
      }
    case _ =>
  }

  lemma DifferentComponents(p: Path, q: Path)
    requires ValidPath(p) && ValidPath(q)
    ensures Components(p) == Components(q) <==> p == q
  {
    ValidPathIsRendered(p);
    ValidPathIsRendered(q);
  }
}
