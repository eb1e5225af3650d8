/** What becomes of an open handle's path over a whole run. */
module OpenHandles {
  import opened Paths
  import opened Wrappers
  import opened Invalidations
  import opened KernelState
  import opened CacheRuns

  predicate DeliversRename(namespace: string, e: Event) {
    && e.Deliver? && ValidInvalidation(e.inv) && e.inv.namespace == namespace
    && e.inv.Kind() == Some(Rename)
  }

  /** The path that follows every delivered valid rename once, and nothing else. It looks neither
      at the cache nor at sequence numbers. */
  function FollowRenames(namespace: string, path: Path, events: seq<Event>): Path {
    if events == [] then path
    else
      var before := FollowRenames(namespace, path, events[..|events| - 1]);
      var e := events[|events| - 1];
      if DeliversRename(namespace, e) then Followed(before, e.inv.oldPath, e.inv.newPath) else before
  }

  predicate Leaves(key: HandleKey, e: Event) {
    e == ReleaseHandle(key) || (e.OpenHandle? && e.key == key)
  }

  /** From its opening until its release a handle stays in the table, through gaps, poisonings,
      resyncs, deletes and forgets, and its path is the one that follows the delivered renames. */
  lemma {:induction false} HandleFollowsRenames(namespace: string, k: Kernel, events: seq<Event>, key: HandleKey)
    requires key in k.handles
    requires forall e :: e in events ==> !Leaves(key, e)
    ensures key in Run(namespace, k, events).handles
    ensures Run(namespace, k, events).handles[key] == FollowRenames(namespace, k.handles[key], events)
  {
    if events == [] {
    } else {
      var init, e := events[..|events| - 1], events[|events| - 1];
      assert e in events;
      HandleFollowsRenames(namespace, k, init, key);
      OneEvent(namespace, Run(namespace, k, init), e, key);
    }
  }

  lemma OneEvent(namespace: string, k: Kernel, e: Event, key: HandleKey)
    requires key in k.handles && !Leaves(key, e)
    ensures key in Step(namespace, k, e).handles
    ensures Step(namespace, k, e).handles[key]
         == if DeliversRename(namespace, e) then Followed(k.handles[key], e.inv.oldPath, e.inv.newPath)
            else k.handles[key]
  {
  }

  /** A handle leaves the table only by its release. */
  lemma {:induction false} OnlyReleaseDropsHandle(namespace: string, k: Kernel, events: seq<Event>, key: HandleKey)
    requires key in k.handles && key !in Run(namespace, k, events).handles
    ensures ReleaseHandle(key) in events
  {
    var init, e := events[..|events| - 1], events[|events| - 1];
    var before := Run(namespace, k, init);
    if key !in before.handles {
      OnlyReleaseDropsHandle(namespace, k, init, key);
    } else if !Leaves(key, e) {
      OneEvent(namespace, before, e, key);
    }
  }

  /** In any state, a delivered rename leaves a handle where it is exactly when the handle's path
      is not in the subtree that the rename moves. */
  lemma RenameMovesIff(namespace: string, k: Kernel, e: Event, key: HandleKey)
    requires DeliversRename(namespace, e) && key in k.handles
    ensures Step(namespace, k, e).handles[key] == k.handles[key] <==> !InSubtree(k.handles[key], e.inv.oldPath)
  {
    var path, o, n := k.handles[key], e.inv.oldPath, e.inv.newPath;
    OneEvent(namespace, k, e, key);
    if InSubtree(path, o) {
      RebaseInverse(path, o, n);
      DisjointSubtrees(path, o, n);
    }
  }

  /** A rename redelivered after any events moves exactly the handles that are below its old path
      by then: none that it moved before, unless another rename took it back or it was opened
      there since. */
  lemma RenameRedelivered(namespace: string, k: Kernel, e: Event, between: seq<Event>, again: Event, key: HandleKey)
    requires DeliversRename(namespace, e) && again.Deliver? && again.inv.Anonymous() == e.inv.Anonymous()
    requires key in Run(namespace, Step(namespace, k, e), between).handles
    ensures var before := Run(namespace, Step(namespace, k, e), between);
            Step(namespace, before, again).handles[key] == before.handles[key]
            <==> !InSubtree(before.handles[key], e.inv.oldPath)
  {
    RenameMovesIff(namespace, Run(namespace, Step(namespace, k, e), between), again, key);
  }

  /** Redelivered at once it moves none. */
  lemma RenameRepeated(namespace: string, k: Kernel, e: Event, again: Event)
    requires DeliversRename(namespace, e) && again.Deliver? && again.inv.Anonymous() == e.inv.Anonymous()
    ensures var once := Step(namespace, k, e); Step(namespace, once, again).handles == once.handles
  {
    var once := Step(namespace, k, e);
    forall key | key in k.handles
      ensures Step(namespace, once, again).handles[key] == once.handles[key]
    {
      OneEvent(namespace, k, e, key);
      OneEvent(namespace, once, again, key);
      FollowedTwice(k.handles[key], e.inv.oldPath, e.inv.newPath);
    }
  }

  /** A handle opened at `a` between two deliveries of the rename from `a` to `b` is moved by the
      second one. */
  lemma RedeliveryMovesNewHandle(namespace: string, k: Kernel, e: Event, again: Event, key: HandleKey)
    requires DeliversRename(namespace, e) && again.Deliver? && again.inv.Anonymous() == e.inv.Anonymous()
    ensures var a, b := e.inv.oldPath, e.inv.newPath;
            var end := Run(namespace, k, [e, OpenHandle(key, a), again]);
            key in end.handles && end.handles[key] == b && b != a
  {
    var opening := OpenHandle(key, e.inv.oldPath);
    var middle := Run(namespace, k, [e, opening]);
    RunAppend(namespace, k, [e], opening);
    RunAppend(namespace, k, [e, opening], again);
    assert [e] + [opening] == [e, opening] && [e, opening] + [again] == [e, opening, again];
    OneEvent(namespace, middle, again, key);
    assert Rebase(e.inv.oldPath, e.inv.oldPath, e.inv.newPath) == e.inv.newPath;
  }
}
