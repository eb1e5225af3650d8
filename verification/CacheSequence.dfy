/** The number a cache has reached, over whole runs: it moves with the invalidations the cache takes
    and with nothing else. A poisoning keeps it, so a poisoned cache goes on following the server. */
module CacheSequence {
  import opened Wrappers
  import opened Invalidations
  import opened KernelState
  import opened CacheRuns
  import opened Batches
  import FuseAdapters

  /** The cache loses its trust: the adapter says so, or a delivery is malformed or leaves a gap. */
  predicate Distrusts(namespace: string, k: Kernel, e: Event) {
    e.Distrust? || (e.Deliver? && (Malformed(namespace, e.inv) || Gap(k, namespace, e.inv, e.allowBaseline)))
  }

  /** An own invalidation that is neither malformed nor behind a gap. */
  predicate Takes(namespace: string, k: Kernel, e: Event) {
    && e.Deliver? && e.inv.namespace == namespace
    && !Malformed(namespace, e.inv) && !Gap(k, namespace, e.inv, e.allowBaseline)
  }

  /** The number of the last invalidation taken, or the one the cache started with. */
  function NumberReached(namespace: string, k: Kernel, events: seq<Event>): nat {
    if events == [] then k.cache.lastSequence
    else
      var init, e := events[..|events| - 1], events[|events| - 1];
      if Takes(namespace, Run(namespace, k, init), e) then e.inv.sequence else NumberReached(namespace, k, init)
  }

  /** In every run the cache is at that number: answers, forgets, handles, sends, other namespaces,
      gaps, malformed messages and poisonings all leave it where it was. */
  lemma {:induction false} AtNumberReached(namespace: string, k: Kernel, events: seq<Event>)
    ensures Run(namespace, k, events).cache.lastSequence == NumberReached(namespace, k, events)
  {
    if events == [] {
    } else {
      var init, e := events[..|events| - 1], events[|events| - 1];
      AtNumberReached(namespace, k, init);
      OneEventMoves(namespace, Run(namespace, k, init), e);
    }
  }

  lemma OneEventMoves(namespace: string, k: Kernel, e: Event)
    ensures Step(namespace, k, e).cache.lastSequence
         == if Takes(namespace, k, e) then e.inv.sequence else k.cache.lastSequence
    ensures Distrusts(namespace, k, e) ==> Step(namespace, k, e).cache.poisoned
  {
    if e.Deliver? {
      CacheAfter(k, namespace, e.inv, e.allowBaseline);
    }
  }

  /** Whatever a cache is like, own invalidations with the numbers that follow its own are all
      taken, and only a resync among them changes its health. */
  lemma {:induction false} FollowsInOrder(namespace: string, k: Kernel, rest: seq<Invalidation>)
    requires Consecutive(rest, k.cache.lastSequence + 1)
    requires forall inv :: inv in rest ==> ValidInvalidation(inv) && inv.namespace == namespace
    ensures var after := AfterBatch(namespace, k, rest, true);
            && after.cache.lastSequence == k.cache.lastSequence + |rest|
            && (after.cache.poisoned <==> k.cache.poisoned && forall inv :: inv in rest ==> !IsResync(namespace, inv))
            && (forall r :: r in Outcomes(namespace, k, rest) ==> r.Ok?)
  {
    if rest == [] {
    } else {
      var init, inv := rest[..|rest| - 1], rest[|rest| - 1];
      FollowsInOrder(namespace, k, init);
      assert rest == init + [inv] && inv in rest;
      NextInOrder(namespace, AfterBatch(namespace, k, init, true), inv, true);
    }
  }

  /** A cache that has just lost its trust takes the changes that follow its old number without an
      error, so the drain that brings them goes through; it stays poisoned until a resync. */
  lemma FollowsAfterPoisoning(namespace: string, k: Kernel, e: Event, rest: seq<Invalidation>)
    requires Distrusts(namespace, k, e) && Consecutive(rest, k.cache.lastSequence + 1)
    requires forall inv :: inv in rest ==> ValidInvalidation(inv) && inv.namespace == namespace
    ensures var poisoned := Step(namespace, k, e);
            var after := AfterBatch(namespace, poisoned, rest, true);
            && after.cache.lastSequence == k.cache.lastSequence + |rest|
            && (after.cache.poisoned <==> forall inv :: inv in rest ==> !IsResync(namespace, inv))
            && (forall r :: r in Outcomes(namespace, poisoned, rest) ==> r.Ok?)
            && FuseAdapters.Drains(namespace, poisoned, Ok(rest))
  {
    OneEventMoves(namespace, k, e);
    FollowsInOrder(namespace, Step(namespace, k, e), rest);
    var outcomes := Outcomes(namespace, Step(namespace, k, e), rest);
    assert forall i :: 0 <= i < |outcomes| ==> outcomes[i] in outcomes;
  }
}
