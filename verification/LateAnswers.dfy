/** Lookup answers that are newer than the cache: when they do lasting harm and when not. */
module LateAnswers {
  import opened Wrappers
  import opened Paths
  import opened PathComponents
  import opened PathIndex
  import opened CacheState
  import opened Invalidations
  import opened KernelState
  import opened PathFates
  import opened CacheRuns
  import opened Coherence

  /** These invalidations delivered in order. */
  function Deliveries(invs: seq<Invalidation>, allowBaseline: bool): seq<Event> {
    if invs == [] then []
    else Deliveries(invs[..|invs| - 1], allowBaseline) + [Deliver(invs[|invs| - 1], allowBaseline)]
  }

  /** The entries of the log after number `s` up to number `n`. */
  ghost function Between(server: Server, s: nat, n: nat): (changes: seq<Invalidation>)
    requires server.Legal() && s <= n <= |server.log|
    ensures ValidChanges(changes)
  {
    LogValid(server, s, n);
    server.log[s..n]
  }

  lemma LogValid(server: Server, s: nat, n: nat)
    requires server.Legal() && s <= n <= |server.log|
    ensures ValidChanges(server.log[s..n])
  {
    forall i | 0 <= i < n - s
      ensures ValidInvalidation(server.log[s..n][i])
    {
      assert server.Logged(s + i);
    }
  }

  /** Healthy at `n` and right everywhere but at `wrong`, where the answered inode is cached. */
  ghost predicate RightBut(server: Server, k: Kernel, n: nat, wrong: Option<Path>, inode: Inode) {
    && k.cache.WellFormed() && !k.cache.poisoned && k.cache.lastSequence == n < |server.spaces|
    && AgreesBut(k.cache.inodes, server.spaces[n], wrong)
    && (wrong.Some? ==> wrong.value in k.cache.inodes && k.cache.inodes[wrong.value] == inode)
  }

  /** An answer from any time, inserted into a coherent cache, followed by the server's log in
      order: the cache ends healthy and up to date, and it ends coherent if and only if the log
      has dropped the answered path, or the path's fate is a path that the server's tree now
      gives the answered inode. */
  lemma LateAnswerIff(server: Server, k: Kernel, path: Path, inode: Inode, count: nat, n: nat, allowBaseline: bool)
    requires server.Legal() && Coherent(server, k) && !k.cache.poisoned
    requires k.cache.lastSequence <= n <= |server.log| && ValidNonRoot(path) && inode != 0
    ensures var changes := Between(server, k.cache.lastSequence, n);
            var end := Run(server.namespace, k, [Answer(path, inode, count)] + Deliveries(changes, allowBaseline));
            && !end.cache.poisoned && end.cache.lastSequence == n
            && (Fate(path, changes).Some? ==> ValidNonRoot(Fate(path, changes).value))
            && (Coherent(server, end) <==>
                  || Fate(path, changes).None?
                  || Names(server.spaces[n], Fate(path, changes).value, inode))
  {
    FollowsLog(server, k, path, inode, count, n, allowBaseline);
    if Fate(path, Between(server, k.cache.lastSequence, n)).Some? {
      FateStaysValid(path, Between(server, k.cache.lastSequence, n));
    }
  }

  lemma {:induction false} FollowsLog(server: Server, k: Kernel, path: Path, inode: Inode, count: nat, n: nat,
                                      allowBaseline: bool)
    requires server.Legal() && Coherent(server, k) && !k.cache.poisoned
    requires k.cache.lastSequence <= n <= |server.log| && ValidNonRoot(path) && inode != 0
    ensures var changes := Between(server, k.cache.lastSequence, n);
            var end := Run(server.namespace, k, [Answer(path, inode, count)] + Deliveries(changes, allowBaseline));
            RightBut(server, end, n, Fate(path, changes), inode)
  {
    var s, answer := k.cache.lastSequence, Answer(path, inode, count);
    if n == s {
      RunAppend(server.namespace, k, [], answer);
      assert [] + [answer] == [answer] + [];
      InsertedIsRightBut(server, k, path, inode, count);
    } else {
      FollowsLog(server, k, path, inode, count, n - 1, allowBaseline);
      OneMoreEntry(server, k, answer, s, n, allowBaseline);
      OneMoreFate(server, path, s, n);
      var changes := Between(server, s, n - 1);
      var before := Run(server.namespace, k, [answer] + Deliveries(changes, allowBaseline));
      NextIsRightBut(server, before, n - 1, Fate(path, changes), inode, allowBaseline);
    }
  }

  lemma OneMoreEntry(server: Server, k: Kernel, answer: Event, s: nat, n: nat, allowBaseline: bool)
    requires server.Legal() && s < n <= |server.log|
    ensures Run(server.namespace, k, [answer] + Deliveries(Between(server, s, n), allowBaseline))
         == Step(server.namespace,
                 Run(server.namespace, k, [answer] + Deliveries(Between(server, s, n - 1), allowBaseline)),
                 Deliver(server.log[n - 1], allowBaseline))
  {
    var changes, earlier := Between(server, s, n), Between(server, s, n - 1);
    assert changes[..|changes| - 1] == earlier;
    var events, next := [answer] + Deliveries(earlier, allowBaseline), Deliver(server.log[n - 1], allowBaseline);
    assert [answer] + Deliveries(changes, allowBaseline) == events + [next];
    RunAppend(server.namespace, k, events, next);
  }

  lemma OneMoreFate(server: Server, path: Path, s: nat, n: nat)
    requires server.Legal() && s < n <= |server.log|
    ensures ValidInvalidation(server.log[n - 1])
    ensures Fate(path, Between(server, s, n)) == NextFate(Fate(path, Between(server, s, n - 1)), server.log[n - 1])
  {
    var changes := Between(server, s, n);
    assert server.Logged(n - 1) && changes[..|changes| - 1] == Between(server, s, n - 1);
  }

  lemma InsertedIsRightBut(server: Server, k: Kernel, path: Path, inode: Inode, count: nat)
    requires server.Legal() && Coherent(server, k) && !k.cache.poisoned && ValidNonRoot(path) && inode != 0
    ensures RightBut(server, Step(server.namespace, k, Answer(path, inode, count)), k.cache.lastSequence,
                     Some(path), inode)
  {
    InsertLookupKeepsWellFormed(k.cache, path, inode, count);
    var m := k.cache.inodes;
    assert k.cache.InsertLookup(path, inode, count).inodes == m[path := inode];
    forall p | p in m && p != path
      ensures AgreesAt(m[path := inode], server.spaces[k.cache.lastSequence], p)
    {
      assert AgreesAt(m, server.spaces[k.cache.lastSequence], p);
    }
  }

  function NextFate(wrong: Option<Path>, inv: Invalidation): Option<Path>
    requires ValidInvalidation(inv)
  {
    if wrong.None? then None else FateOf(wrong.value, inv)
  }

  lemma NextIsRightBut(server: Server, k: Kernel, n: nat, wrong: Option<Path>, inode: Inode, allowBaseline: bool)
    requires server.Legal() && n < |server.log| && RightBut(server, k, n, wrong, inode)
    ensures ValidInvalidation(server.log[n])
    ensures RightBut(server, Step(server.namespace, k, Deliver(server.log[n], allowBaseline)), n + 1,
                     NextFate(wrong, server.log[n]), inode)
  {
    var inv := server.log[n];
    assert server.Logged(n);
    CacheAfter(k, server.namespace, inv, allowBaseline);
    if inv.Kind().value == FullResync {
      EmptiedWellFormed(k.cache, false, inv.sequence);
      OnlyRootAgrees(server, n + 1);
    } else {
      NextKeepsWellFormed(k, inv);
      ChangeIsRightBut(k, inv, server.spaces[n], server.spaces[n + 1], wrong, inode);
    }
  }

  lemma ChangeIsRightBut(k: Kernel, inv: Invalidation, before: Namespace, after: Namespace,
                         wrong: Option<Path>, inode: Inode)
    requires k.cache.WellFormed() && ValidInvalidation(inv) && inv.Kind().value != FullResync
    requires AgreesBut(k.cache.inodes, before, wrong) && Changes(before, inv, after)
    requires wrong.Some? ==> wrong.value in k.cache.inodes && k.cache.inodes[wrong.value] == inode
    ensures var m, fate := ApplyNext(k, inv).cache.inodes, NextFate(wrong, inv);
            && AgreesBut(m, after, fate)
            && (fate.Some? ==> fate.value in m && m[fate.value] == inode)
  {
    var m, fate := ApplyNext(k, inv).cache.inodes, NextFate(wrong, inv);
    forall q | q in m && fate != Some(q)
      ensures AgreesAt(m, after, q)
    {
      PairAgrees(k, inv, before, after, wrong, q);
    }
    if fate.Some? {
      PairKept(k, inv, wrong.value);
    }
  }

  /** No rename among these moves the path. */
  predicate NeverMoved(path: Path, changes: seq<Invalidation>) {
    forall i :: 0 <= i < |changes| ==> !(changes[i].Kind() == Some(Rename) && InSubtree(path, changes[i].oldPath))
  }

  lemma {:induction false} UnmovedFate(path: Path, changes: seq<Invalidation>)
    requires ValidChanges(changes) && NeverMoved(path, changes)
    ensures Fate(path, changes).None? || Fate(path, changes) == Some(path)
  {
    if changes == [] {
    } else {
      UnmovedFate(path, changes[..|changes| - 1]);
    }
  }

  /** An answer that is right as of `n` does no harm to a cache that follows the log to `n`,
      unless a rename on the way moves the path. */
  lemma UnmovedAnswerIsHarmless(server: Server, k: Kernel, path: Path, inode: Inode, count: nat, n: nat,
                                allowBaseline: bool)
    requires server.Legal() && Coherent(server, k) && !k.cache.poisoned
    requires k.cache.lastSequence <= n <= |server.log| && ValidNonRoot(path) && inode != 0
    requires Names(server.spaces[n], path, inode)
    requires NeverMoved(path, Between(server, k.cache.lastSequence, n))
    ensures var changes := Between(server, k.cache.lastSequence, n);
            var events := [Answer(path, inode, count)] + Deliveries(changes, allowBaseline);
            Coherent(server, Run(server.namespace, k, events))
  {
    UnmovedFate(path, Between(server, k.cache.lastSequence, n));
    LateAnswerIff(server, k, path, inode, count, n, allowBaseline);
  }

  // An answer that does harm.

  function MoveOf(a: Path, b: Path): Invalidation {
    Invalidation("ns", 1, Rename.WireValue(), "", a, b, 0, "")
  }

  function RemakeOf(a: Path, inode: Inode): Invalidation {
    Invalidation("ns", 2, Create.WireValue(), a, "", "", inode, "")
  }

  /** A server that moves file `a` to `b` (1) and then makes a new file `a` (2). */
  function MovingServer(a: Path, b: Path, first: Inode, second: Inode): Server {
    var s0 := map[[] := ROOT_INODE, Components(a) := first];
    var s1 := map[[] := ROOT_INODE, Components(b) := first];
    Server("ns", [MoveOf(a, b), RemakeOf(a, second)], [s0, s1, s1[Components(a) := second]])
  }

  lemma MovingServerLegal(a: Path, b: Path, first: Inode, second: Inode)
    requires ValidRename(a, b) && second != 0
    ensures MovingServer(a, b, first, second).Legal()
  {
    var server := MovingServer(a, b, first, second);
    ValidPathIsRendered(a);
    ValidPathIsRendered(b);
    MoveAnnounced(a, b, first);
    RemakeAnnounced(a, second, server.spaces[1]);
    assert server.Logged(0) && server.Logged(1);
  }

  lemma RemakeAnnounced(a: Path, inode: Inode, before: Namespace)
    requires ValidNonRoot(a) && inode != 0
    ensures ValidInvalidation(RemakeOf(a, inode))
    ensures Changes(before, RemakeOf(a, inode), before[Components(a) := inode])
  {
  }

  lemma MoveAnnounced(a: Path, b: Path, first: Inode)
    requires ValidRename(a, b)
    ensures ValidInvalidation(MoveOf(a, b))
    ensures Changes(map[[] := ROOT_INODE, Components(a) := first], MoveOf(a, b),
                    map[[] := ROOT_INODE, Components(b) := first])
  {
    RenameAcceptedIff(a, b);
    var o, n := Components(a), Components(b);
    assert n + o[|o|..] == n;
  }

  /** A client at sequence 0 looks up `a` and is answered by the moving server at sequence 2. It
      then applies both invalidations in order and ends healthy and up to date, and wrong for
      good: `b` is cached as the new file. */
  lemma LateAnswerBreaksCoherence(a: Path, b: Path, first: Inode, second: Inode)
    requires ValidRename(a, b) && first != second && second > ROOT_INODE
    ensures var server := MovingServer(a, b, first, second);
            var end := Run("ns", EmptyKernel, [Answer(a, second, 1)] + Deliveries(server.log, true));
            && server.Legal() && Names(server.spaces[2], a, second)
            && !end.cache.poisoned && end.cache.lastSequence == |server.log|
            && !Coherent(server, end)
  {
    var server := MovingServer(a, b, first, second);
    MovingServerLegal(a, b, first, second);
    EmptiedWellFormed(EmptyCache, false, 0);
    OnlyRootAgrees(server, 0);
    LateAnswerIff(server, EmptyKernel, a, second, 1, 2, true);
    assert Between(server, 0, 2) == server.log;
    MovedFate(a, b, second);
    RenameAcceptedIff(a, b);
  }

  lemma MovedFate(a: Path, b: Path, second: Inode)
    requires ValidRename(a, b) && second != 0
    ensures ValidInvalidation(MoveOf(a, b)) && ValidInvalidation(RemakeOf(a, second))
    ensures Fate(a, [MoveOf(a, b), RemakeOf(a, second)]) == Some(b)
  {
    MoveAnnounced(a, b, 2);
    var log := [MoveOf(a, b), RemakeOf(a, second)];
    assert log[..1] == [MoveOf(a, b)] && log[..1][..0] == [];
    assert Rebase(a, a, b) == b;
    assert Fate(a, log[..1]) == Some(b);
  }
}
