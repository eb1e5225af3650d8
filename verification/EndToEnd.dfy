/** At most once from the kernel's callback to the server's handler: the adapter's request ids, the
    client's scoping and retry loop, the broker, and the server's admission put together. */
module EndToEnd {
  import opened Wrappers
  import opened Sequences
  import opened Envelopes
  import opened KernelState
  import opened Admission
  import opened AtMostOnce
  import opened Batches
  import opened Coverage
  import opened RetryingClients
  import CacheState
  import Dispatching
  import FuseAdapters
  import Rpc
  import P = Payloads

  /** However the broker repeats, delays or loses its messages, a registered request is executed
      at most as often as the retry loop allows, and at most once if its effects are ambiguous. */
  lemma ExchangeExecuted(maxTtl: nat, events: seq<Event>, maxRetries: nat, x: Exchange)
    requires Restrained(maxRetries, x)
    requires forall m :: Arrived(events, m) && m.requestId == x.request.requestId ==> m in x.published
    ensures var executed := |ExecutionsOf(Run(maxTtl, events).executions, x.request.requestId)|;
            executed <= maxRetries + 1 && (HasAmbiguousEffects(x.request) ==> executed <= 1)
  {
    ExecutedAtMostAsPublished(maxTtl, events, x.request.requestId, x.published);
  }

  /** These are exchanges of adapter calls numbered `ids`, under one client's scope. */
  predicate OfAdapter(scope: string, ids: seq<nat>, exchanges: seq<Exchange>) {
    |ids| == |exchanges| && forall i :: 0 <= i < |ids| ==> OfCall(scope, ids[i], exchanges[i])
  }

  predicate OfCall(scope: string, id: nat, x: Exchange) {
    x.request.requestId == ScopeRequestId(scope, FuseAdapters.RequestId(id))
  }

  predicate PublishedIn(exchanges: seq<Exchange>, m: Message) {
    exists j :: 0 <= j < |exchanges| && m in exchanges[j].published
  }

  /** Increasing numbers below `next`. */
  predicate Below(ids: seq<nat>, next: nat) {
    ids != [] ==> ids[|ids| - 1] < next && Below(ids[..|ids| - 1], ids[|ids| - 1])
  }

  lemma {:induction false} BelowDiffer(ids: seq<nat>, next: nat)
    requires Below(ids, next)
    ensures NoRepeats(ids) && forall id :: id in ids ==> id < next
  {
    if ids == [] {
    } else {
      var init, last := ids[..|ids| - 1], ids[|ids| - 1];
      BelowDiffer(init, last);
      AppendUnique(init, last);
      assert ids == init + [last];
    }
  }

  /** A request that is sent is recorded, as one more exchange. */
  predicate Grown(before: seq<Exchange>, after: seq<Exchange>, sent: bool, scoped: RequestEnvelope) {
    if sent then |after| == |before| + 1 && after[..|before|] == before && after[|before|].request == scoped
    else after == before
  }

  lemma OneMore(scope: string, ids: seq<nat>, before: seq<Exchange>, after: seq<Exchange>, id: nat)
    requires OfAdapter(scope, ids, before) && Below(ids, id)
    requires |after| == |before| + 1 && after[..|before|] == before && OfCall(scope, id, after[|before|])
    ensures OfAdapter(scope, ids + [id], after) && Below(ids + [id], id + 1)
  {
    assert (ids + [id])[..|ids|] == ids;
    assert forall i :: 0 <= i < |before| ==> after[i] == after[..|before|][i];
  }

  /** The request is valid, and the cache healthy if it has to be. */
  predicate Sendable(request: RequestEnvelope, requireHealthyCache: bool, poisoned: bool) {
    !(requireHealthyCache && poisoned) && ValidRequestEnvelope(request)
  }

  /** An adapter whose calls go through a client. */
  class Mount {
    const adapter: FuseAdapters.FuseAdapter
    const client: FileSystemClient
    ghost var ids: seq<nat>

    /** The client's exchanges are those of the adapter's requests, under their ever new ids. */
    ghost predicate Valid()
      reads this, adapter, adapter.kernel, adapter.kernel.cache, client, client.own
    {
      && adapter.Valid() && client.Valid()
      && OfAdapter(client.scope, ids, client.exchanges) && Below(ids, adapter.nextRequestId)
    }

    constructor (namespace: string, scope: string, maxRetries: nat, maxFrameBytes: nat, timeout: nat)
      ensures Valid() && ids == []
    {
      adapter := new FuseAdapters.FuseAdapter(namespace);
      client := new FileSystemClient(scope, maxRetries, maxFrameBytes, timeout);
      ids := [];
    }

    /** A callback's request: built by the adapter, sent by the client, settled by the adapter. It
        is sent exactly when the cache is healthy enough and the request valid; then the broker's
        answer decides: it is settled under the adapter's own id, and a success is applied to the
        cache. Without an answer the outcome is in doubt. */
    method Call(payload: P.RequestPayload, requireHealthyCache: bool, now: nat, frameBytes: nat, connected: bool,
                broker: nat -> Outcome)
      returns (result: Result<ResponseEnvelope, FuseError>, ghost reply: FuseAdapters.Reply)
      requires Valid()
      modifies this, adapter, adapter.kernel, adapter.kernel.cache, client, client.own
      ensures Valid()
      ensures var request := FuseAdapters.RequestFor(adapter.namespace, old(adapter.nextRequestId), payload);
              var scoped := Scoped(request, client.scope, now, client.timeout);
              var sent := frameBytes <= client.maxFrameBytes && connected;
              if Sendable(request, requireHealthyCache, old(adapter.kernel.cache.poisoned)) then
                && Grown(old(client.exchanges), client.exchanges, sent, scoped)
                && Decided(reply, sent, request.requestId, scoped, client.maxRetries, broker)
                && FuseAdapters.Settled(request, reply, result)
                && (result.Ok? ==>
                      adapter.kernel.State() == AfterBatch(adapter.namespace, old(adapter.kernel.State()),
                                                           result.value.invalidations, false))
              else result.Err? && client.exchanges == old(client.exchanges)
    {
      var request := FuseAdapters.RequestFor(adapter.namespace, adapter.nextRequestId, payload);
      var got: FuseAdapters.Reply := Err(Rpc.ConnectionClosed);
      if Sendable(request, requireHealthyCache, adapter.kernel.cache.poisoned) {
        got := Exchanged(request, now, frameBytes, connected, broker);
      }
      reply := got;
      result := Settle(payload, requireHealthyCache, got);
    }

    method Settle(payload: P.RequestPayload, requireHealthyCache: bool, reply: FuseAdapters.Reply)
      returns (result: Result<ResponseEnvelope, FuseError>)
      requires adapter.Valid() && client.Valid() && OfAdapter(client.scope, ids, client.exchanges)
      requires var request := FuseAdapters.RequestFor(adapter.namespace, adapter.nextRequestId, payload);
               var sendable := Sendable(request, requireHealthyCache, adapter.kernel.cache.poisoned);
               Below(ids, adapter.nextRequestId + if sendable then 1 else 0)
      modifies adapter, adapter.kernel, adapter.kernel.cache
      ensures Valid()
      ensures var request := FuseAdapters.RequestFor(adapter.namespace, old(adapter.nextRequestId), payload);
              if Sendable(request, requireHealthyCache, old(adapter.kernel.cache.poisoned)) then
                && FuseAdapters.Settled(request, reply, result)
                && (result.Ok? ==>
                      adapter.kernel.State() == AfterBatch(adapter.namespace, old(adapter.kernel.State()),
                                                           result.value.invalidations, false))
              else result.Err?
    {
      result := adapter.CallWithCachePolicy(payload, requireHealthyCache, reply);
    }

    method Exchanged(request: RequestEnvelope, now: nat, frameBytes: nat, connected: bool, broker: nat -> Outcome)
      returns (reply: FuseAdapters.Reply)
      requires Valid() && request.requestId == FuseAdapters.RequestId(adapter.nextRequestId)
      requires ValidRequestEnvelope(request)
      modifies this, client, client.own
      ensures adapter.Valid() && client.Valid()
      ensures OfAdapter(client.scope, ids, client.exchanges) && Below(ids, adapter.nextRequestId + 1)
      ensures var scoped := Scoped(request, client.scope, now, client.timeout);
              var sent := frameBytes <= client.maxFrameBytes && connected;
              && Grown(old(client.exchanges), client.exchanges, sent, scoped)
              && Decided(reply, sent, request.requestId, scoped, client.maxRetries, broker)
    {
      ghost var before := client.exchanges;
      reply := client.Call(request, now, frameBytes, connected, broker);
      if frameBytes <= client.maxFrameBytes && connected {
        OneMore(client.scope, ids, before, client.exchanges, adapter.nextRequestId);
        ids := ids + [adapter.nextRequestId];
      }
    }
  }

  /** Round trip with a correct server: when the broker hands over what the dispatcher answered to
      the scoped request, on an attempt that is made, the caller gets that answer under its own id,
      settled: a success exactly if nothing spoke against the call, with the service's payload. */
  lemma ServedCallSettles(limits: Dispatching.Limits, next: Dispatching.Counters, served: Dispatching.ServedCall,
                          request: RequestEnvelope, scope: string, now: nat, timeout: nat,
                          maxRetries: nat, broker: nat -> Outcome, n: nat)
    requires ValidRequestEnvelope(request) && served.request == Scoped(request, scope, now, timeout)
    requires (served.handler.Err? ==> served.handler.error >= 0) && (served.denied.Some? ==> served.denied.value >= 0)
    requires Reaches(served.request, maxRetries, broker, n)
    requires broker(n) == Reply(Dispatching.Response(limits, next, served))
    ensures var reply := Dispatching.Response(limits, next, served);
            var answer := RestoreCallerRequestId(reply, request.requestId, served.request.requestId);
            && Returned(request.requestId, served.request, maxRetries, broker, answer)
            && FuseAdapters.Settles(request, Ok(answer))
            && (answer.ok <==> Dispatching.Answerable(limits, served))
            && (answer.ok ==> answer.payload == Some(served.handler.value))
  {
    var reply := Dispatching.Response(limits, next, served);
    var answer := RestoreCallerRequestId(reply, request.requestId, served.request.requestId);
    CorrectServerIsAccepted(limits, next, served, request, scope, CacheState.SaturatingAdd(now, timeout));
    Dispatching.OkIff(limits, next, served);
    RestoredIsSame(reply, answer, served.request.requestId, request.requestId);
    assert Answered(served.request, maxRetries, broker, reply);
  }

  /** All calls of a mount: if whatever reaches the server under the id of one of them was published
      by this client, a call is executed at most as often as the retry loop allows, and at most
      once if its effects are ambiguous. */
  lemma CallsExecutedAtMostOnce(maxTtl: nat, events: seq<Event>, mount: Mount, i: nat)
    requires mount.Valid() && i < |mount.client.exchanges|
    requires forall m :: Arrived(events, m) && m.requestId == mount.client.exchanges[i].request.requestId ==>
               PublishedIn(mount.client.exchanges, m)
    ensures var x := mount.client.exchanges[i];
            var executed := |ExecutionsOf(Run(maxTtl, events).executions, x.request.requestId)|;
            executed <= mount.client.maxRetries + 1 && (HasAmbiguousEffects(x.request) ==> executed <= 1)
  {
    var client, ids := mount.client, mount.ids;
    var x := client.exchanges[i];
    BelowDiffer(ids, mount.adapter.nextRequestId);
    forall m | Arrived(events, m) && m.requestId == x.request.requestId
      ensures m in x.published
    {
      var j :| 0 <= j < |client.exchanges| && m in client.exchanges[j].published;
      OwnPublication(client.scope, client.maxRetries, ids, client.exchanges, i, j, m);
    }
    ExchangeExecuted(maxTtl, events, client.maxRetries, x);
  }

  /** A message with the id of call `i` was published by call `i`. */
  lemma OwnPublication(scope: string, maxRetries: nat, ids: seq<nat>, exchanges: seq<Exchange>,
                       i: nat, j: nat, m: Message)
    requires OfAdapter(scope, ids, exchanges) && NoRepeats(ids) && i < |ids| && j < |ids|
    requires Restrained(maxRetries, exchanges[j])
    requires m in exchanges[j].published && m.requestId == exchanges[i].request.requestId
    ensures i == j
  {
    assert OfCall(scope, ids[i], exchanges[i]) && OfCall(scope, ids[j], exchanges[j]);
    ScopedIdsDiffer(scope, FuseAdapters.RequestId(ids[i]), FuseAdapters.RequestId(ids[j]));
    FuseAdapters.RequestIdsDiffer(ids[i], ids[j]);
  }
}
