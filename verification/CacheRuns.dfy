/** Runs of the cache kernel: everything that can happen to one client's cache, in any order,
    and what holds after every such run. */
module CacheRuns {
  import opened Paths
  import opened PathIndex
  import opened CacheState
  import opened Invalidations
  import opened KernelState
  import PathComponents
  import P = Payloads

  datatype Event =
    | Deliver(inv: Invalidation, allowBaseline: bool)   // an invalidation is applied
    | Answer(path: Path, inode: Inode, count: nat)      // a lookup answer is inserted
    | Forget(inode: Inode, nlookup: nat)                // the kernel drops lookup references
    | Distrust                                          // the adapter poisons the cache
    | OpenHandle(key: HandleKey, path: Path)
    | ReleaseHandle(key: HandleKey)
    | Send(resolved: bool, id: nat, payload: P.RequestPayload)
      // a request leaves; `resolved`: its paths came from the cache
    | Unsettled                                         // a path mutation ended without a covered success

  function Step(namespace: string, k: Kernel, e: Event): Kernel {
    match e
    case Deliver(inv, allowBaseline) => Apply(k, namespace, inv, allowBaseline).0
    case Answer(path, inode, count) => k.(cache := k.cache.InsertLookup(path, inode, count))
    case Forget(inode, nlookup) => k.(cache := k.cache.Forget(inode, nlookup))
    case Distrust => k.Poison()
    case OpenHandle(key, path) => k.(handles := k.handles[key := path])
    case ReleaseHandle(key) => k.(handles := k.handles - {key})
    case Send(_, _, _) => k
    case Unsettled => k
  }

  function Run(namespace: string, k: Kernel, events: seq<Event>): Kernel {
    if events == [] then k
    else Step(namespace, Run(namespace, k, events[..|events| - 1]), events[|events| - 1])
  }

  lemma RunAppend(namespace: string, k: Kernel, events: seq<Event>, e: Event)
    ensures Run(namespace, k, events + [e]) == Step(namespace, Run(namespace, k, events), e)
  {
    assert (events + [e])[..|events|] == events;
  }

  lemma {:induction false} RunConcat(namespace: string, k: Kernel, a: seq<Event>, b: seq<Event>)
    ensures Run(namespace, k, a + b) == Run(namespace, Run(namespace, k, a), b)
  {
    if b == [] {
      assert a + b == a;
    } else {
      var b', e := b[..|b| - 1], b[|b| - 1];
      RunConcat(namespace, k, a, b');
      assert a + b == (a + b') + [e];
      RunAppend(namespace, k, a + b', e);
    }
  }

  /** Lookup answers are inserted, and handles remembered, under paths that passed the protocol's
      path check. */
  predicate ProperEvents(events: seq<Event>) {
    forall e :: e in events ==> Proper(e)
  }

  predicate Proper(e: Event) {
    (e.Answer? ==> ValidNonRoot(e.path)) && (e.OpenHandle? ==> ValidPath(e.path))
  }

  /** The two-way index, lookup-count, root and path-validity invariant in every reachable state. */
  lemma {:induction false} WellFormedAlways(namespace: string, events: seq<Event>)
    requires ProperEvents(events)
    ensures Run(namespace, EmptyKernel, events).cache.WellFormed()
  {
    if events == [] {
      EmptiedWellFormed(EmptyCache, false, 0);
    } else {
      var init, e := events[..|events| - 1], events[|events| - 1];
      assert e in events;
      WellFormedAlways(namespace, init);
      StepKeepsWellFormed(namespace, Run(namespace, EmptyKernel, init), e);
    }
  }

  lemma StepKeepsWellFormed(namespace: string, k: Kernel, e: Event)
    requires k.cache.WellFormed() && (e.Answer? ==> ValidNonRoot(e.path))
    ensures Step(namespace, k, e).cache.WellFormed()
  {
    match e
    case Deliver(inv, allowBaseline) => ApplyKeepsWellFormed(k, namespace, inv, allowBaseline);
    case Answer(path, inode, count) => InsertLookupKeepsWellFormed(k.cache, path, inode, count);
    case Forget(inode, nlookup) => ForgetKeepsWellFormed(k.cache, inode, nlookup);
    case Distrust => EmptiedWellFormed(k.cache, true, k.cache.lastSequence);
    case _ =>
  }

  ghost predicate ValidHandlePaths(handles: Handles) {
    forall key :: key in handles ==> ValidPath(handles[key])
  }

  /** Every remembered handle path stays a protocol path, however often it is renamed. */
  lemma {:induction false} HandlePathsValidAlways(namespace: string, events: seq<Event>)
    requires ProperEvents(events)
    ensures ValidHandlePaths(Run(namespace, EmptyKernel, events).handles)
  {
    if events == [] {
    } else {
      var init, e := events[..|events| - 1], events[|events| - 1];
      assert e in events;
      HandlePathsValidAlways(namespace, init);
      var k := Run(namespace, EmptyKernel, init);
      if e.Deliver? && ValidInvalidation(e.inv) && e.inv.Kind().value == Rename {
        RenamedHandlesValid(k.handles, e.inv.oldPath, e.inv.newPath);
      }
    }
  }

  lemma RenamedHandlesValid(handles: Handles, oldPath: Path, newPath: Path)
    requires ValidHandlePaths(handles) && ValidNonRoot(oldPath) && ValidNonRoot(newPath)
    ensures ValidHandlePaths(RenameHandles(handles, oldPath, newPath))
  {
    forall key | key in handles && InSubtree(handles[key], oldPath)
      ensures ValidPath(Rebase(handles[key], oldPath, newPath))
    {
      PathComponents.RebaseComponents(handles[key], oldPath, newPath);
    }
  }

  predicate Resyncs(namespace: string, e: Event) {
    e.Deliver? && IsResync(namespace, e.inv)
  }

  /** Poison is sticky: nothing but a valid full resync of this namespace lifts it. */
  lemma {:induction false} HealedByResync(namespace: string, k: Kernel, events: seq<Event>)
    requires k.cache.poisoned && !Run(namespace, k, events).cache.poisoned
    ensures exists r :: 0 <= r < |events| && Resyncs(namespace, events[r])
  {
    var init, e := events[..|events| - 1], events[|events| - 1];
    var before := Run(namespace, k, init);
    if before.cache.poisoned {
      if e.Deliver? {
        FailureIsPoison(before, namespace, e.inv, e.allowBaseline);
      }
      assert Resyncs(namespace, events[|events| - 1]);
    } else {
      HealedByResync(namespace, k, init);
      var r :| 0 <= r < |init| && Resyncs(namespace, init[r]);
      assert Resyncs(namespace, events[r]);
    }
  }

  /** What the adapter promises of its own history: a request whose path was resolved from the
      cache leaves only while the cache is healthy, and a path mutation never ends unsettled
      without the cache being poisoned. */
  ghost predicate FailsClosed(namespace: string, history: seq<Event>) {
    forall i :: 0 <= i < |history| ==> GuardedAt(namespace, history, i)
  }

  ghost predicate GuardedAt(namespace: string, history: seq<Event>, i: nat)
    requires i < |history|
  {
    GuardHolds(Run(namespace, EmptyKernel, history[..i]), history[i])
  }

  predicate GuardHolds(k: Kernel, e: Event) {
    && (e.Send? && e.resolved ==> !k.cache.poisoned)
    && (e.Unsettled? ==> k.cache.poisoned)
  }

  /** Between a poisoning (an unsettled path mutation in particular) and the next request
      resolved from the cache there is always a valid full resync of this namespace. */
  lemma NoResolvedSendWhilePoisoned(namespace: string, history: seq<Event>, i: nat, j: nat)
    requires FailsClosed(namespace, history) && i <= j < |history|
    requires Run(namespace, EmptyKernel, history[..i]).cache.poisoned || history[i].Unsettled?
    requires history[j].Send? && history[j].resolved
    ensures exists r :: i <= r < j && Resyncs(namespace, history[r])
  {
    var between := history[i..j];
    assert history[..j] == history[..i] + between;
    RunConcat(namespace, EmptyKernel, history[..i], between);
    assert GuardedAt(namespace, history, i) && GuardedAt(namespace, history, j);
    HealedByResync(namespace, Run(namespace, EmptyKernel, history[..i]), between);
    var d :| 0 <= d < |between| && Resyncs(namespace, between[d]);
    assert Resyncs(namespace, history[i + d]);
  }

  lemma FailsClosedAppend(namespace: string, history: seq<Event>, e: Event)
    requires FailsClosed(namespace, history)
    requires GuardHolds(Run(namespace, EmptyKernel, history), e)
    ensures FailsClosed(namespace, history + [e])
  {
    var longer := history + [e];
    forall i | 0 <= i < |longer|
      ensures GuardedAt(namespace, longer, i)
    {
      if i == |history| {
        assert longer[..i] == history;
      } else {
        assert GuardedAt(namespace, history, i) && longer[..i] == history[..i];
      }
    }
  }
}
