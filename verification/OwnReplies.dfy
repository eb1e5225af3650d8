/** When a client's own success costs it its cache although nothing was lost: a reply is applied
    without the empty-cache allowance, so it must carry the very next number. */
module OwnReplies {
  import opened KernelState
  import opened Batches
  import opened Dispatching
  import opened SequenceNumbers
  import opened Coverage
  import Inv = Invalidations
  import Observers

  /** The invalidations of a namespace that the server has issued so far. */
  function IssuedIn(limits: Limits, served: seq<ServerEvent>, namespace: string): seq<Inv.Invalidation> {
    Inv.OfNamespace(Issued(limits, served), namespace)
  }

  /** What the client applies of a reply, under its own request id. */
  function Restored(limits: Limits, served: seq<ServerEvent>, call: ServedCall, callerId: string)
    : seq<Inv.Invalidation>
  {
    var reply := Dispatching.Response(limits, Counted(limits, served), call);
    RestoreCallerRequestId(reply, callerId, call.request.requestId).invalidations
  }

  /** A healthy client applies the reply to its own announced call: the cache is poisoned if and
      only if some number that the server had issued before is still undrained; otherwise the
      client is at the reply's number. */
  lemma OwnReplyPoisonsIff(limits: Limits, served: seq<ServerEvent>, call: ServedCall, callerId: string, k: Kernel)
    requires Announced(limits, call) && !k.cache.poisoned
    requires k.cache.lastSequence <= |IssuedIn(limits, served, call.request.namespace)|
    ensures var issued := |IssuedIn(limits, served, call.request.namespace)|;
            var after := AfterBatch(call.request.namespace, k, Restored(limits, served, call, callerId), false).cache;
            && (after.poisoned <==> k.cache.lastSequence < issued)
            && (!after.poisoned ==> after.lastSequence == issued + 1)
  {
    RestoredOne(limits, served, call, callerId);
    OneReply(call.request.namespace, k, Restored(limits, served, call, callerId)[0]);
  }

  /** It is one valid change with the number after all issued ones. */
  lemma RestoredOne(limits: Limits, served: seq<ServerEvent>, call: ServedCall, callerId: string)
    requires Announced(limits, call)
    ensures var invs := Restored(limits, served, call, callerId);
            && |invs| == 1 && invs == [invs[0]]
            && Inv.ValidInvalidation(invs[0]) && invs[0].namespace == call.request.namespace
            && invs[0].Kind().value != Inv.FullResync
            && invs[0].sequence == |IssuedIn(limits, served, call.request.namespace)| + 1
  {
    var namespace, next := call.request.namespace, Counted(limits, served);
    NoNumberLeaked(limits, served, namespace);
    EventValid(limits, next, Serve(call));
    AnnouncedPaths(call.request.payload);
    var invs, issued := Restored(limits, served, call, callerId), IssuedBy(limits, next, Serve(call));
    assert issued[0] in issued && invs[0].Anonymous() == issued[0].Anonymous();
    SameValidity(invs[0], issued[0]);
  }

  lemma OneReply(namespace: string, k: Kernel, inv: Inv.Invalidation)
    requires Inv.ValidInvalidation(inv) && inv.namespace == namespace && inv.Kind().value != Inv.FullResync
    requires !k.cache.poisoned
    ensures var after := AfterBatch(namespace, k, [inv], false).cache;
            && (after.poisoned <==> inv.sequence != k.cache.lastSequence + 1)
            && (!after.poisoned ==> after.lastSequence == inv.sequence)
  {
    assert [inv][..0] == [];
    CacheAfter(k, namespace, inv, false);
  }

  /** The only mutator of a namespace that applies all its replies in order is never poisoned, and
      its sequence is the number of its announced calls. */
  lemma SoleMutatorNeverPoisoned(limits: Limits, served: seq<ServerEvent>, namespace: string)
    requires forall e :: e in served ==> e.Serve?
    ensures var after := AfterBatch(namespace, EmptyKernel, Issued(limits, served), false).cache;
            !after.poisoned && after.lastSequence == |IssuedIn(limits, served, namespace)|
  {
    IssuedValid(limits, served);
    NoNumberLeaked(limits, served, namespace);
    Observers.FollowsStream(namespace, Issued(limits, served), false);
  }
}
