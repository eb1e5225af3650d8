/** Whether the path that a client keeps for an open handle still names the opened file in the
    server's tree. The handle follows every rename the client gets to see, also those the server
    had made before the file was opened. */
module HandleNames {
  import opened Wrappers
  import opened Paths
  import opened PathComponents
  import opened PathIndex
  import opened Invalidations
  import opened KernelState
  import opened PathFates
  import opened CacheRuns
  import opened OpenHandles
  import opened Coherence
  import opened LateAnswers

  /** The path after the renames among these changes. */
  function Trail(path: Path, changes: seq<Invalidation>): Path {
    if changes == [] then path
    else
      var before, inv := Trail(path, changes[..|changes| - 1]), changes[|changes| - 1];
      if inv.Kind() == Some(Rename) then Followed(before, inv.oldPath, inv.newPath) else before
  }

  lemma {:induction false} TrailConcat(path: Path, a: seq<Invalidation>, b: seq<Invalidation>)
    ensures Trail(path, a + b) == Trail(Trail(path, a), b)
  {
    if b == [] {
      assert a + b == a;
    } else {
      assert (a + b)[..|a + b| - 1] == a + b[..|b| - 1];
      TrailConcat(path, a, b[..|b| - 1]);
    }
  }

  lemma {:induction false} TrailValid(path: Path, changes: seq<Invalidation>)
    requires ValidPath(path) && ValidChanges(changes)
    ensures ValidPath(Trail(path, changes))
  {
    if changes == [] {
    } else {
      var init, inv := changes[..|changes| - 1], changes[|changes| - 1];
      TrailValid(path, init);
      if inv.Kind() == Some(Rename) && InSubtree(Trail(path, init), inv.oldPath) {
        RebaseComponents(Trail(path, init), inv.oldPath, inv.newPath);
      }
    }
  }

  /** A path that no change drops goes along its trail. */
  lemma {:induction false} FateIsTrail(path: Path, changes: seq<Invalidation>)
    requires ValidChanges(changes) && Fate(path, changes).Some?
    ensures Fate(path, changes) == Some(Trail(path, changes))
  {
    if changes == [] {
    } else {
      FateIsTrail(path, changes[..|changes| - 1]);
    }
  }

  /** The handle's path after these deliveries is its trail. */
  lemma {:induction false} HandleKeepsTrail(namespace: string, k: Kernel, changes: seq<Invalidation>,
                                            allowBaseline: bool, key: HandleKey)
    requires key in k.handles && ValidChanges(changes)
    requires forall i :: 0 <= i < |changes| ==> changes[i].namespace == namespace
    ensures var end := Run(namespace, k, Deliveries(changes, allowBaseline));
            key in end.handles && end.handles[key] == Trail(k.handles[key], changes)
  {
    if changes == [] {
    } else {
      var init, inv := changes[..|changes| - 1], changes[|changes| - 1];
      HandleKeepsTrail(namespace, k, init, allowBaseline, key);
      RunAppend(namespace, k, Deliveries(init, allowBaseline), Deliver(inv, allowBaseline));
      OneEvent(namespace, Run(namespace, k, Deliveries(init, allowBaseline)), Deliver(inv, allowBaseline), key);
    }
  }

  /** The server's tree keeps naming a file along the fate of its path. */
  lemma {:induction false} TreeKeepsName(server: Server, n: nat, m: nat, path: Path, inode: Inode)
    requires server.Legal() && n <= m <= |server.log| && ValidPath(path)
    requires Names(server.spaces[n], path, inode) && Fate(path, Between(server, n, m)).Some?
    ensures Names(server.spaces[m], Fate(path, Between(server, n, m)).value, inode)
  {
    if n == m {
    } else {
      OneMoreFate(server, path, n, m);
      TreeKeepsName(server, n, m - 1, path, inode);
      FateIsTrail(path, Between(server, n, m - 1));
      TrailValid(path, Between(server, n, m - 1));
      assert server.Logged(m - 1);
      TreeFollowsFate(server.spaces[m - 1], server.log[m - 1], server.spaces[m],
                      Fate(path, Between(server, n, m - 1)).value);
    }
  }

  /** No other name of the tree has this inode. */
  predicate NamedOnce(space: Namespace, inode: Inode) {
    forall x, y :: x in space && y in space && space[x] == inode && space[y] == inode ==> x == y
  }

  /** A handle is opened at a path that names its file as of number `n`, by a client that has
      followed the log only to `s`. When the client has followed it to `m`, and the log has not
      taken the file from its name since `n`, the handle's path names the file if and only if the
      renames since `s` lead to the same place as those since `n`. */
  lemma HandleNamesIff(server: Server, k: Kernel, key: HandleKey, s: nat, n: nat, m: nat, inode: Inode,
                       allowBaseline: bool)
    requires server.Legal() && s <= n <= m <= |server.log|
    requires key in k.handles && ValidPath(k.handles[key]) && Names(server.spaces[n], k.handles[key], inode)
    requires Fate(k.handles[key], Between(server, n, m)).Some? && NamedOnce(server.spaces[m], inode)
    ensures var path := k.handles[key];
            var end := Run(server.namespace, k, Deliveries(Between(server, s, m), allowBaseline));
            && key in end.handles
            && (Names(server.spaces[m], end.handles[key], inode)
                <==> Trail(path, Between(server, s, m)) == Trail(path, Between(server, n, m)))
  {
    var path := k.handles[key];
    FollowsFromOpening(server, k, key, s, m, allowBaseline);
    TreeKeepsName(server, n, m, path, inode);
    FateIsTrail(path, Between(server, n, m));
    TrailValid(path, Between(server, s, m));
    TrailValid(path, Between(server, n, m));
    DifferentComponents(Trail(path, Between(server, s, m)), Trail(path, Between(server, n, m)));
  }

  lemma FollowsFromOpening(server: Server, k: Kernel, key: HandleKey, s: nat, m: nat, allowBaseline: bool)
    requires server.Legal() && s <= m <= |server.log| && key in k.handles
    ensures var end := Run(server.namespace, k, Deliveries(Between(server, s, m), allowBaseline));
            key in end.handles && end.handles[key] == Trail(k.handles[key], Between(server, s, m))
  {
    var changes := Between(server, s, m);
    forall i | 0 <= i < |changes|
      ensures changes[i].namespace == server.namespace
    {
      assert server.Logged(s + i);
    }
    HandleKeepsTrail(server.namespace, k, changes, allowBaseline, key);
  }

  /** So right after catching up with the opening the handle is right exactly when the renames in
      between leave its path alone. */
  lemma HandleRightIffNotMoved(server: Server, k: Kernel, key: HandleKey, s: nat, n: nat, inode: Inode,
                               allowBaseline: bool)
    requires server.Legal() && s <= n <= |server.log| && NamedOnce(server.spaces[n], inode)
    requires key in k.handles && ValidPath(k.handles[key]) && Names(server.spaces[n], k.handles[key], inode)
    ensures var end := Run(server.namespace, k, Deliveries(Between(server, s, n), allowBaseline));
            && key in end.handles
            && (Names(server.spaces[n], end.handles[key], inode)
                <==> Trail(k.handles[key], Between(server, s, n)) == k.handles[key])
  {
    HandleNamesIff(server, k, key, s, n, n, inode, allowBaseline);
  }

  /** And then it stays right, hard links or not, for as long as the log does not take the file
      from its name. */
  lemma HandleStaysRight(server: Server, k: Kernel, key: HandleKey, s: nat, n: nat, m: nat, inode: Inode,
                         allowBaseline: bool)
    requires server.Legal() && s <= n <= m <= |server.log|
    requires key in k.handles && ValidPath(k.handles[key]) && Names(server.spaces[n], k.handles[key], inode)
    requires Trail(k.handles[key], Between(server, s, n)) == k.handles[key]
    requires Fate(k.handles[key], Between(server, n, m)).Some?
    ensures var end := Run(server.namespace, k, Deliveries(Between(server, s, m), allowBaseline));
            key in end.handles && Names(server.spaces[m], end.handles[key], inode)
  {
    var path := k.handles[key];
    FollowsFromOpening(server, k, key, s, m, allowBaseline);
    TrailConcat(path, Between(server, s, n), Between(server, n, m));
    assert Between(server, s, n) + Between(server, n, m) == Between(server, s, m);
    TreeKeepsName(server, n, m, path, inode);
    FateIsTrail(path, Between(server, n, m));
  }

  /** A handle that the moving server opens at `a` as of 2, for a client still at 0, is taken to
      `b` by the rename numbered 1, where the tree has another file; a resync does not repair it. */
  lemma StaleHandleStaysWrong(a: Path, b: Path, first: Inode, second: Inode, k: Kernel, key: HandleKey)
    requires ValidRename(a, b) && first != second && second != 0
    requires key in k.handles && k.handles[key] == a
    ensures var server := MovingServer(a, b, first, second);
            var resync := Deliver(FullResyncInvalidation("ns", "", 2), true);
            var end := Run("ns", k, Deliveries(server.log, true) + [resync]);
            && server.Legal() && Names(server.spaces[2], a, second)
            && key in end.handles && end.handles[key] == b && !Names(server.spaces[2], b, second)
  {
    var server := MovingServer(a, b, first, second);
    var resync := Deliver(FullResyncInvalidation("ns", "", 2), true);
    MovingServerLegal(a, b, first, second);
    assert Between(server, 0, 2) == server.log;
    FollowsFromOpening(server, k, key, 0, 2, true);
    MovedFate(a, b, second);
    FateIsTrail(a, server.log);
    RunAppend("ns", k, Deliveries(server.log, true), resync);
    OneEvent("ns", Run("ns", k, Deliveries(server.log, true)), resync, key);
    RenameAcceptedIff(a, b);
  }
}
