/** What a drained batch of invalidations does to the cache kernel, item by item, and what the
    drain reports for it. */
module Batches {
  import opened Wrappers
  import opened Invalidations
  import opened KernelState

  /** The kernel after a list of invalidations, each applied to what the ones before it left. */
  function AfterBatch(namespace: string, k: Kernel, batch: seq<Invalidation>, allowBaseline: bool): Kernel {
    if batch == [] then k
    else
      var before := AfterBatch(namespace, k, batch[..|batch| - 1], allowBaseline);
      Apply(before, namespace, batch[|batch| - 1], allowBaseline).0
  }

  function Outcomes(namespace: string, k: Kernel, batch: seq<Invalidation>): (outcomes: seq<ApplyResult>)
    ensures |outcomes| == |batch|
  {
    if batch == [] then []
    else
      var init := batch[..|batch| - 1];
      var before := AfterBatch(namespace, k, init, true);
      Outcomes(namespace, k, init) + [Apply(before, namespace, batch[|batch| - 1], true).1]
  }

  /** A resync was applied after item `i`. */
  predicate HealedAfter(outcomes: seq<ApplyResult>, i: nat) {
    exists j :: i < j < |outcomes| && outcomes[j] == Ok(true)
  }

  /** Item `i` failed and no later resync made up for it. */
  predicate Stands(outcomes: seq<ApplyResult>, i: nat) {
    i < |outcomes| && outcomes[i].Err? && !HealedAfter(outcomes, i)
  }

  /** The error a batch with these outcomes has: the first one that stands, if any does. */
  predicate IsBatchError(outcomes: seq<ApplyResult>, failed: Option<FuseError>) {
    match failed
    case None => forall i :: 0 <= i < |outcomes| ==> !Stands(outcomes, i)
    case Some(error) =>
      exists i :: 0 <= i < |outcomes| && Stands(outcomes, i) && outcomes[i] == Err(error)
        && forall j :: 0 <= j < i ==> !Stands(outcomes, j)
  }

  /** Which items stand once `next` is added. */
  lemma StandsNext(outcomes: seq<ApplyResult>, next: ApplyResult, i: nat)
    requires i <= |outcomes|
    ensures Stands(outcomes + [next], i)
            <==> if i == |outcomes| then next.Err? else Stands(outcomes, i) && next != Ok(true)
  {
    var longer := outcomes + [next];
    assert longer[|outcomes|] == next;
    if i < |outcomes| && HealedAfter(outcomes, i) {
      var j :| i < j < |outcomes| && outcomes[j] == Ok(true);
      assert longer[j] == Ok(true);
    }
    if i < |outcomes| && HealedAfter(longer, i) && next != Ok(true) {
      var j :| i < j < |longer| && longer[j] == Ok(true);
      assert outcomes[j] == Ok(true);
    }
  }

  /** One more item: a resync clears the error, another success keeps it, and a failure is taken
      only if there is none yet. */
  lemma BatchErrorNext(outcomes: seq<ApplyResult>, failed: Option<FuseError>, next: ApplyResult)
    requires next == Ok(true) || IsBatchError(outcomes, failed)
    ensures IsBatchError(outcomes + [next],
              if next == Ok(true) then None
              else if next.Err? && failed.None? then Some(next.error) else failed)
  {
    var longer := outcomes + [next];
    forall i | 0 <= i < |longer|
      ensures Stands(longer, i) <==> if i == |outcomes| then next.Err? else Stands(outcomes, i) && next != Ok(true)
    {
      StandsNext(outcomes, next, i);
    }
    if next.Err? && failed.None? {
      assert Stands(longer, |outcomes|) && longer[|outcomes|] == Err(next.error);
    } else if next != Ok(true) && failed.Some? {
      var i :| 0 <= i < |outcomes| && Stands(outcomes, i) && outcomes[i] == Err(failed.value)
        && forall j :: 0 <= j < i ==> !Stands(outcomes, j);
      assert Stands(longer, i) && longer[i] == Err(failed.value);
    }
  }

  /** After a batch the cache is poisoned exactly when the batch has an error, or it was poisoned
      before and the batch held no resync. */
  lemma {:induction false} PoisonedAfterBatch(namespace: string, k: Kernel, batch: seq<Invalidation>,
                                              failed: Option<FuseError>)
    requires IsBatchError(Outcomes(namespace, k, batch), failed)
    ensures AfterBatch(namespace, k, batch, true).cache.poisoned
            <==> failed.Some? || (k.cache.poisoned && Ok(true) !in Outcomes(namespace, k, batch))
  {
    if batch == [] {
    } else {
      var init, inv := batch[..|batch| - 1], batch[|batch| - 1];
      var outcomes := Outcomes(namespace, k, init);
      var before := AfterBatch(namespace, k, init, true);
      var next := Apply(before, namespace, inv, true).1;
      FailureIsPoison(before, namespace, inv, true);
      var earlier := FirstStanding(outcomes);
      PoisonedAfterBatch(namespace, k, init, earlier);
      BatchErrorNext(outcomes, earlier, next);
    }
  }

  /** Every list of outcomes has a batch error. */
  ghost function FirstStanding(outcomes: seq<ApplyResult>): (failed: Option<FuseError>)
    ensures IsBatchError(outcomes, failed)
  {
    if outcomes == [] then None
    else
      var init, next := outcomes[..|outcomes| - 1], outcomes[|outcomes| - 1];
      var failed := FirstStanding(init);
      BatchErrorNext(init, failed, next);
      assert init + [next] == outcomes;
      if next == Ok(true) then None
      else if next.Err? && failed.None? then Some(next.error) else failed
  }

  /** The next number in order is taken by every cache, poisoned or not; only a resync heals. */
  lemma NextInOrder(namespace: string, k: Kernel, inv: Invalidation, allowBaseline: bool)
    requires ValidInvalidation(inv) && inv.namespace == namespace
    requires IsResync(namespace, inv) || inv.sequence == k.cache.lastSequence + 1
    ensures var (k', result) := Apply(k, namespace, inv, allowBaseline);
            && result.Ok? && k'.cache.lastSequence == inv.sequence
            && k'.cache.poisoned == (k.cache.poisoned && !IsResync(namespace, inv))
  {
  }

  /** A batch of anything at all, then a resync at `s`, then valid invalidations numbered
      `s + 1`, `s + 2`, …: whatever the cache was like, it ends healthy at the last number. */
  lemma {:induction false} ResyncHealsBatch(namespace: string, k: Kernel, garbage: seq<Invalidation>,
                                            resync: Invalidation, rest: seq<Invalidation>)
    requires IsResync(namespace, resync) && Consecutive(rest, resync.sequence + 1)
    requires forall inv :: inv in rest ==> ValidInvalidation(inv) && inv.namespace == namespace
    ensures var batch := garbage + [resync] + rest;
            var after := AfterBatch(namespace, k, batch, true);
            && !after.cache.poisoned
            && after.cache.lastSequence == resync.sequence + |rest|
            && IsBatchError(Outcomes(namespace, k, batch), None)
  {
    var batch := garbage + [resync] + rest;
    if rest == [] {
      assert batch[..|batch| - 1] == garbage;
      NextInOrder(namespace, AfterBatch(namespace, k, garbage, true), resync, true);
      FailureIsPoison(AfterBatch(namespace, k, garbage, true), namespace, resync, true);
      BatchErrorNext(Outcomes(namespace, k, garbage), None, Ok(true));
    } else {
      var shorter, inv := rest[..|rest| - 1], rest[|rest| - 1];
      var init := garbage + [resync] + shorter;
      assert batch == init + [inv] && batch[..|batch| - 1] == init;
      ResyncHealsBatch(namespace, k, garbage, resync, shorter);
      var before := AfterBatch(namespace, k, init, true);
      NextInOrder(namespace, before, inv, true);
      BatchErrorNext(Outcomes(namespace, k, init), None, Apply(before, namespace, inv, true).1);
    }
  }
}
