/** The adapter between kernel callbacks and the RPC client: the invalidation drain, the call
    policy, and the callbacks that show every way of using the cache (`fs-fuse/src/lib.rs`).
    What the network answers is a parameter of each call. */
module FuseAdapters {
  import opened Wrappers
  import opened Paths
  import opened PathIndex
  import opened Invalidations
  import opened KernelState
  import opened CacheKernels
  import opened CacheRuns
  import opened Batches
  import P = Payloads
  import opened Envelopes
  import opened Coverage
  import opened Sequences
  import PathComponents
  import Rpc

  /** What the transport hands back for a request, and for a drain. */
  type Reply = Result<ResponseEnvelope, Rpc.RpcError>
  type Drained = Result<seq<Invalidation>, Rpc.RpcError>

  function Decimal(n: nat): (digits: string)
    ensures digits != "" && (|digits| == 1 <==> n < 10)
  {
    var digit := ["0123456789"[n % 10]];
    if n < 10 then digit else Decimal(n / 10) + digit
  }

  function RequestId(id: nat): string {
    "fuse-" + Decimal(id)
  }

  function RequestFor(namespace: string, id: nat, payload: P.RequestPayload): RequestEnvelope {
    RequestEnvelope(PROTOCOL_VERSION, RequestId(id), P.RequestOperation(payload), namespace, 0, payload)
  }

  /** No two calls of an adapter share a request id. */
  lemma RequestIdsDiffer(m: nat, n: nat)
    requires RequestId(m) == RequestId(n)
    ensures m == n
  {
    assert RequestId(m)[5..] == Decimal(m) && RequestId(n)[5..] == Decimal(n);
    DecimalsDiffer(m, n);
  }

  lemma {:induction false} DecimalsDiffer(m: nat, n: nat)
    requires Decimal(m) == Decimal(n)
    ensures m == n
  {
    var d := Decimal(m);
    assert d[|d| - 1] == "0123456789"[m % 10] == "0123456789"[n % 10];
    if m >= 10 {
      assert Decimal(m / 10) == d[..|d| - 1] == Decimal(n / 10);
      DecimalsDiffer(m / 10, n / 10);
    }
  }

  /** The reply leaves no doubt about the outcome: a well-formed refusal, or a success that
      answers this request, whose invalidations are in order and cover what was asked for. */
  predicate Settles(request: RequestEnvelope, reply: Reply) {
    && reply.Ok?
    && (if reply.value.ok then
          && ValidIdentityAndPayloadFor(reply.value, request)
          && (forall inv :: inv in reply.value.invalidations ==> !Malformed(request.namespace, inv))
          && Covered(request, reply.value)
        else ValidFor(reply.value, request))
  }

  /** Anything but a success or the server's own refusal. */
  predicate InDoubt(result: Result<ResponseEnvelope, FuseError>) {
    result.Err? && result.error != Response
  }

  /** What is wrong with a reply that is no settled success. */
  function Trouble(request: RequestEnvelope, reply: Reply): FuseError {
    if reply.Err? then Transport
    else if !reply.value.ok then if ValidFor(reply.value, request) then Response else Protocol
    else if !ValidIdentityAndPayloadFor(reply.value, request) then Protocol
    else if exists inv :: inv in reply.value.invalidations && Malformed(request.namespace, inv) then Protocol
    else StaleCache
  }

  /** The result tells the settled from the doubtful, and a settled success is passed on. */
  predicate Settled(request: RequestEnvelope, reply: Reply, result: Result<ResponseEnvelope, FuseError>) {
    && (Settles(request, reply) <==> !InDoubt(result))
    && (result.Ok? <==> Settles(request, reply) && reply.value.ok)
    && (result.Ok? ==> result.value == reply.value)
    && (result.Err? ==> result.error == Trouble(request, reply))
  }

  /** The payload has the variant the request calls for, with the attributes that come with it:
      the unexpected-payload branches of the callbacks are never taken. */
  predicate AnswersTo(payload: P.RequestPayload, answer: Option<P.ResponsePayload>) {
    && answer.Some?
    && (payload.LookupRequest? ==> answer.value.LookupResponse? && KnownInode(answer.value.attr))
    && (payload.CreateRequest? ==> answer.value.CreateResponse? && KnownInode(answer.value.attr))
    && (payload.OpenRequest? ==> answer.value.OpenResponse?)
    && (payload.WriteRequest? ==> answer.value.WriteResponse? && answer.value.bytesWritten <= |payload.data|)
  }

  predicate KnownInode(attr: Option<P.FileAttr>) {
    attr.Some? && attr.value.inode != 0
  }

  lemma SettledAnswers(request: RequestEnvelope, reply: Reply)
    requires Settles(request, reply) && reply.value.ok
    ensures AnswersTo(request.payload, reply.value.payload)
  {
  }

  /** The drain goes through without an error that stands. */
  ghost predicate Drains(namespace: string, k: Kernel, drained: Drained) {
    drained.Ok? && IsBatchError(Outcomes(namespace, k, drained.value), None)
  }

  // What a request's path has to do with the cache it was resolved in.

  predicate IsPathOf(k: Kernel, inode: Inode, path: Path) {
    !k.cache.poisoned && path in k.cache.inodes && k.cache.inodes[path] == inode
  }

  ghost predicate IsChild(k: Kernel, parent: Inode, name: string, path: Path) {
    ValidChildName(name) && exists p :: IsPathOf(k, parent, p) && path == JoinChild(p, name)
  }

  /** The cache is healthy and knows the inode. */
  ghost predicate Knows(k: Kernel, inode: Inode) {
    exists path :: IsPathOf(k, inode, path)
  }

  /** A child of that name can be addressed. */
  ghost predicate HasChild(k: Kernel, parent: Inode, name: string) {
    Knows(k, parent) && ValidChildName(name) && name != "." && name != ".."
  }

  /** The handle is open, or the healthy cache knows its inode. */
  ghost predicate HasPath(k: Kernel, key: HandleKey) {
    key in k.handles || Knows(k, key.inode)
  }

  /** The kernel once a drain went through. */
  function Caught(namespace: string, k: Kernel, drained: Drained): Kernel {
    if drained.Ok? then AfterBatch(namespace, k, drained.value, true) else k
  }

  /** The answer names this inode and this handle. */
  predicate CreatedAs(answer: Option<P.ResponsePayload>, key: HandleKey) {
    && answer.Some? && answer.value.CreateResponse? && answer.value.handle == key.handle
    && answer.value.attr.Some? && answer.value.attr.value.inode == key.inode
  }

  /** The reply settles request number `id` as a success. */
  predicate Grants(namespace: string, id: nat, payload: P.RequestPayload, reply: Reply) {
    Settles(RequestFor(namespace, id, payload), reply) && reply.value.ok
  }

  predicate IsHandlePath(k: Kernel, key: HandleKey, path: Path) {
    if key in k.handles then path == k.handles[key] else IsPathOf(k, key.inode, path)
  }

  /** Events were added, and none of them sent a request. */
  ghost predicate Quietly(before: seq<Event>, after: seq<Event>) {
    before <= after && forall i :: |before| <= i < |after| ==> !after[i].Send?
  }

  /** `e` was sent right after `before`, and nothing else has been sent since. */
  ghost predicate SentNext(before: seq<Event>, after: seq<Event>, e: Event) {
    Quietly(before + [e], after)
  }

  lemma StillQuiet(before: seq<Event>, after: seq<Event>, next: Event)
    requires Quietly(before, after) && !next.Send?
    ensures Quietly(before, after + [next])
  {
  }

  /** One more event that is no request. */
  lemma StillSent(before: seq<Event>, after: seq<Event>, e: Event, next: Event)
    requires SentNext(before, after, e) && !next.Send?
    ensures SentNext(before, after + [next], e) && after + [next] != before
  {
    assert before + [e] <= after;
  }

  ghost predicate EndsUnsettled(history: seq<Event>) {
    history != [] && history[|history| - 1].Unsettled?
  }

  /** The requests sent carry increasing ids below `next`. */
  predicate Numbered(history: seq<Event>, next: nat) {
    history != [] ==>
      var init, last := history[..|history| - 1], history[|history| - 1];
      if last.Send? then last.id < next && Numbered(init, last.id) else Numbered(init, next)
  }

  lemma {:induction false} StillNumbered(history: seq<Event>, next: nat, later: nat)
    requires Numbered(history, next) && next <= later
    ensures Numbered(history, later)
  {
    if history == [] {
    } else if !history[|history| - 1].Send? {
      StillNumbered(history[..|history| - 1], next, later);
    }
  }

  function SentIds(history: seq<Event>): seq<nat> {
    if history == [] then []
    else
      var last := history[|history| - 1];
      SentIds(history[..|history| - 1]) + if last.Send? then [last.id] else []
  }

  /** No two requests of an adapter share their number. */
  lemma {:induction false} SentIdsDiffer(history: seq<Event>, next: nat)
    requires Numbered(history, next)
    ensures NoRepeats(SentIds(history)) && forall id :: id in SentIds(history) ==> id < next
  {
    if history == [] {
    } else {
      var init, last := history[..|history| - 1], history[|history| - 1];
      SentIdsDiffer(init, if last.Send? then last.id else next);
      if last.Send? {
        AppendUnique(SentIds(init), last.id);
      }
    }
  }

  lemma HistoryGrows(namespace: string, history: seq<Event>, e: Event)
    requires FailsClosed(namespace, history) && ProperEvents(history)
    requires GuardHolds(Run(namespace, EmptyKernel, history), e) && Proper(e)
    ensures FailsClosed(namespace, history + [e]) && ProperEvents(history + [e])
    ensures Run(namespace, EmptyKernel, history + [e]) == Step(namespace, Run(namespace, EmptyKernel, history), e)
  {
    RunAppend(namespace, EmptyKernel, history, e);
    FailsClosedAppend(namespace, history, e);
  }

  class FuseAdapter {
    const namespace: string
    const kernel: CacheKernel
    var nextRequestId: nat
    ghost var history: seq<Event>

    ghost predicate Valid()
      reads this, kernel, kernel.cache
    {
      && kernel.Valid()
      && kernel.State() == Run(namespace, EmptyKernel, history)
      && FailsClosed(namespace, history)
      && ProperEvents(history)
      && Numbered(history, nextRequestId)
    }

    constructor (namespace: string)
      ensures Valid() && history == [] && this.namespace == namespace
      ensures fresh(kernel) && fresh(kernel.cache)
    {
      this.namespace := namespace;
      kernel := new CacheKernel();
      nextRequestId := 1;
      history := [];
    }

    /** After a path mutation ended in doubt, and after any other poisoning, the next request
        resolved from the cache comes only after a valid full resync of this namespace. */
    lemma ResyncComesFirst(i: nat, j: nat)
      requires Valid() && i <= j < |history| && history[j].Send? && history[j].resolved
      requires history[i].Unsettled? || Run(namespace, EmptyKernel, history[..i]).cache.poisoned
      ensures exists r :: i <= r < j && Resyncs(namespace, history[r])
    {
      NoResolvedSendWhilePoisoned(namespace, history, i, j);
    }

    ghost method Record(e: Event)
      requires kernel.Valid()
      requires FailsClosed(namespace, history) && ProperEvents(history)
      requires kernel.State() == Step(namespace, Run(namespace, EmptyKernel, history), e)
      requires GuardHolds(Run(namespace, EmptyKernel, history), e)
      requires Proper(e)
      requires if e.Send? then e.id < nextRequestId && Numbered(history, e.id) else Numbered(history, nextRequestId)
      modifies this`history
      ensures Valid() && history == old(history) + [e]
    {
      HistoryGrows(namespace, history, e);
      assert (history + [e])[..|history|] == history;
      history := history + [e];
    }

    method Deliver(inv: Invalidation, allowBaseline: bool) returns (result: ApplyResult)
      requires Valid()
      modifies this`history, kernel, kernel.cache
      ensures Valid() && history == old(history) + [CacheRuns.Deliver(inv, allowBaseline)]
      ensures (kernel.State(), result) == Apply(old(kernel.State()), namespace, inv, allowBaseline)
      ensures kernel.handles.Keys == old(kernel.handles.Keys)
    {
      ApplyKeepsHandles(kernel.State(), namespace, inv, allowBaseline);
      result := kernel.ApplyInvalidation(namespace, inv, allowBaseline);
      Record(CacheRuns.Deliver(inv, allowBaseline));
    }

    method Poison()
      requires Valid()
      modifies this`history, kernel.cache
      ensures Valid() && history == old(history) + [Distrust]
      ensures kernel.State() == old(kernel.State()).Poison()
    {
      kernel.cache.Poison();
      Record(Distrust);
    }

    /** Applies a drained batch. The error reported is the first one after the batch's last full
        resync, if there is one; the cache ends poisoned exactly when an error is reported or the
        cache was poisoned already and the batch held no resync. */
    method DrainRemoteInvalidations(drained: Drained) returns (failed: Option<FuseError>)
      requires Valid()
      modifies this`history, kernel, kernel.cache
      ensures Valid() && Quietly(old(history), history)
      ensures drained.Err? ==> failed == Some(Transport) && kernel.State() == old(kernel.State()).Poison()
      ensures drained.Ok? ==> kernel.State() == AfterBatch(namespace, old(kernel.State()), drained.value, true)
      ensures drained.Ok? ==> IsBatchError(Outcomes(namespace, old(kernel.State()), drained.value), failed)
      ensures kernel.handles.Keys == old(kernel.handles.Keys)
    {
      match drained {
        case Err(_) =>
          Poison();
          return Some(Transport);
        case Ok(batch) =>
          failed := ApplyBatch(batch);
      }
    }

    method ApplyBatch(batch: seq<Invalidation>) returns (failed: Option<FuseError>)
      requires Valid()
      modifies this`history, kernel, kernel.cache
      ensures Valid() && Quietly(old(history), history)
      ensures kernel.State() == AfterBatch(namespace, old(kernel.State()), batch, true)
      ensures IsBatchError(Outcomes(namespace, old(kernel.State()), batch), failed)
      ensures kernel.handles.Keys == old(kernel.handles.Keys)
    {
      ghost var before := kernel.State();
      failed := None;
      for i := 0 to |batch|
        invariant Valid() && Quietly(old(history), history)
        invariant kernel.State() == AfterBatch(namespace, before, batch[..i], true)
        invariant IsBatchError(Outcomes(namespace, before, batch[..i]), failed)
        invariant kernel.handles.Keys == old(kernel.handles.Keys)
      {
        ghost var outcomes := Outcomes(namespace, before, batch[..i]);
        var result := Deliver(batch[i], true);
        assert batch[..i + 1][..i] == batch[..i];
        assert Outcomes(namespace, before, batch[..i + 1]) == outcomes + [result];
        BatchErrorNext(outcomes, failed, result);
        match result
        case Ok(fullResync) =>
          if fullResync {
            failed := None;
          }
        case Err(error) =>
          if failed.None? {
            failed := Some(error);
          }
      }
      assert batch[..|batch|] == batch;
    }

    /** Sends one request and settles the cache afterwards. Nothing is sent from a poisoned cache
        when a healthy one is required; and when a path mutation was sent and its outcome is in
        doubt, the cache ends poisoned. */
    method CallWithCachePolicy(payload: P.RequestPayload, requireHealthyCache: bool, reply: Reply)
      returns (result: Result<ResponseEnvelope, FuseError>)
      requires Valid()
      modifies this, kernel, kernel.cache
      ensures Valid() && old(history) <= history
      ensures kernel.handles.Keys == old(kernel.handles.Keys)
      ensures nextRequestId == old(nextRequestId) || nextRequestId == old(nextRequestId) + 1
      ensures history != old(history) ==> nextRequestId == old(nextRequestId) + 1
      ensures var request := RequestFor(namespace, old(nextRequestId), payload);
              if (requireHealthyCache && old(kernel.cache.poisoned)) || !ValidRequestEnvelope(request) then
                && result == Err(if requireHealthyCache && old(kernel.cache.poisoned) then StaleCache else Protocol)
                && history == old(history) && kernel.State() == old(kernel.State())
              else
                && SentNext(old(history), history, Send(requireHealthyCache, old(nextRequestId), payload))
                && Settled(request, reply, result)
                && (result.Ok? ==>
                      kernel.State() == AfterBatch(namespace, old(kernel.State()), reply.value.invalidations, false))
                && (result == Err(Response) ==> kernel.State() == old(kernel.State()))
                && (RequiresPathInvalidation(payload) && InDoubt(result) ==>
                      kernel.cache.poisoned && EndsUnsettled(history))
    {
      if requireHealthyCache && kernel.cache.poisoned {
        return Err(StaleCache);
      }
      var request := RequestFor(namespace, nextRequestId, payload);
      StillNumbered(history, nextRequestId, nextRequestId + 1);
      nextRequestId := nextRequestId + 1;
      if !ValidRequestEnvelope(request) {
        return Err(Protocol);
      }
      result := SendAndSettle(request, requireHealthyCache, nextRequestId - 1, reply);
    }

    /** The part of a call from its sending on. */
    method SendAndSettle(request: RequestEnvelope, resolved: bool, id: nat, reply: Reply)
      returns (result: Result<ResponseEnvelope, FuseError>)
      requires Valid() && request.namespace == namespace && id < nextRequestId && Numbered(history, id)
      requires resolved ==> !kernel.cache.poisoned
      modifies this`history, kernel, kernel.cache
      ensures Valid() && SentNext(old(history), history, Send(resolved, id, request.payload))
      ensures kernel.handles.Keys == old(kernel.handles.Keys)
      ensures Settled(request, reply, result)
      ensures result.Ok? ==>
                kernel.State() == AfterBatch(namespace, old(kernel.State()), reply.value.invalidations, false)
      ensures result == Err(Response) ==> kernel.State() == old(kernel.State())
      ensures RequiresPathInvalidation(request.payload) && InDoubt(result) ==>
                kernel.cache.poisoned && EndsUnsettled(history)
    {
      Record(Send(resolved, id, request.payload));
      result := SettleReply(request, reply);
    }

    /** `call`, `call_handle_bound` and `call_release`. */
    method Call(payload: P.RequestPayload, requireHealthyCache: bool, reply: Reply)
      returns (result: Result<P.ResponsePayload, FuseError>)
      requires Valid()
      modifies this, kernel, kernel.cache
      ensures Valid()
      ensures kernel.handles.Keys == old(kernel.handles.Keys)
      ensures history == old(history)
              || SentNext(old(history), history, Send(requireHealthyCache, old(nextRequestId), payload))
      ensures history == old(history) <==>
                || (requireHealthyCache && old(kernel.cache.poisoned))
                || namespace == "" || !P.ValidRequest(payload)
      ensures result.Ok? <==>
                !(requireHealthyCache && old(kernel.cache.poisoned))
                && Grants(namespace, old(nextRequestId), payload, reply)
      ensures result.Ok? ==> history != old(history) && reply.value.payload == Some(result.value)
      ensures result.Ok? ==> AnswersTo(payload, Some(result.value))
    {
      ghost var request := RequestFor(namespace, nextRequestId, payload);
      var response := CallWithCachePolicy(payload, requireHealthyCache, reply);
      match response
      case Err(error) => return Err(error);
      case Ok(envelope) =>
        SettledAnswers(request, reply);
        return Ok(envelope.payload.value);
    }

    /** What is done with the reply once the request is out. */
    method SettleReply(request: RequestEnvelope, reply: Reply) returns (result: Result<ResponseEnvelope, FuseError>)
      requires Valid() && request.namespace == namespace
      modifies this`history, kernel, kernel.cache
      ensures Valid() && Quietly(old(history), history)
      ensures kernel.handles.Keys == old(kernel.handles.Keys)
      ensures Settled(request, reply, result)
      ensures result.Ok? ==>
                kernel.State() == AfterBatch(namespace, old(kernel.State()), reply.value.invalidations, false)
      ensures result == Err(Response) ==> kernel.State() == old(kernel.State())
      ensures RequiresPathInvalidation(request.payload) && InDoubt(result) ==>
                kernel.cache.poisoned && EndsUnsettled(history)
    {
      match reply
      case Err(_) =>
        PoisonAfterUncertainPathMutation(request.payload);
        return Err(Transport);
      case Ok(response) =>
        if response.ok {
          result := SettleSuccess(request, response);
          return;
        }
        if !ValidFor(response, request) {
          PoisonAfterUncertainPathMutation(request.payload);
          return Err(Protocol);
        }
        return Err(Response);
    }

    method SettleSuccess(request: RequestEnvelope, response: ResponseEnvelope)
      returns (result: Result<ResponseEnvelope, FuseError>)
      requires Valid() && request.namespace == namespace && response.ok
      modifies this`history, kernel, kernel.cache
      ensures Valid() && Quietly(old(history), history)
      ensures kernel.handles.Keys == old(kernel.handles.Keys)
      ensures result == Ok(response) || InDoubt(result)
      ensures result.Ok? <==> Settles(request, Ok(response))
      ensures result.Err? ==> result.error == Trouble(request, Ok(response))
      ensures result.Ok? ==>
                kernel.State() == AfterBatch(namespace, old(kernel.State()), response.invalidations, false)
      ensures RequiresPathInvalidation(request.payload) && InDoubt(result) ==>
                kernel.cache.poisoned && EndsUnsettled(history)
    {
      if !ValidIdentityAndPayloadFor(response, request) {
        PoisonAfterUncertainPathMutation(request.payload);
        return Err(Protocol);
      }
      var malformed := ApplyResponseInvalidations(response.invalidations);
      if malformed {
        NoteUnsettled(request.payload);
        return Err(Protocol);
      }
      if !Covered(request, response) {
        StillQuiet(old(history), history, Distrust);
        StillQuiet(old(history), history + [Distrust], Unsettled);
        Poison();
        NoteUnsettled(request.payload);
        return Err(StaleCache);
      }
      return Ok(response);
    }

    /** Applies the invalidations of a success in order, stopping at the first malformed one. A
        gap poisons the cache but is not an error of the call. */
    method ApplyResponseInvalidations(invalidations: seq<Invalidation>) returns (malformed: bool)
      requires Valid()
      modifies this`history, kernel, kernel.cache
      ensures Valid() && Quietly(old(history), history)
      ensures malformed <==> exists inv :: inv in invalidations && Malformed(namespace, inv)
      ensures !malformed ==> kernel.State() == AfterBatch(namespace, old(kernel.State()), invalidations, false)
      ensures malformed ==> kernel.cache.poisoned
      ensures kernel.handles.Keys == old(kernel.handles.Keys)
    {
      for i := 0 to |invalidations|
        invariant Valid() && Quietly(old(history), history)
        invariant forall j :: 0 <= j < i ==> !Malformed(namespace, invalidations[j])
        invariant kernel.State() == AfterBatch(namespace, old(kernel.State()), invalidations[..i], false)
        invariant kernel.handles.Keys == old(kernel.handles.Keys)
      {
        assert invalidations[..i + 1][..i] == invalidations[..i];
        StillQuiet(old(history), history, CacheRuns.Deliver(invalidations[i], false));
        var stop := ApplyResponseInvalidation(invalidations[i]);
        if stop {
          assert invalidations[i] in invalidations;
          return true;
        }
      }
      assert invalidations[..|invalidations|] == invalidations;
      return false;
    }

    /** A gap is not an error here; only a malformed invalidation is. */
    method ApplyResponseInvalidation(inv: Invalidation) returns (malformed: bool)
      requires Valid()
      modifies this`history, kernel, kernel.cache
      ensures Valid() && history == old(history) + [CacheRuns.Deliver(inv, false)]
      ensures kernel.State() == Apply(old(kernel.State()), namespace, inv, false).0
      ensures malformed <==> Malformed(namespace, inv)
      ensures malformed ==> kernel.cache.poisoned
      ensures kernel.handles.Keys == old(kernel.handles.Keys)
    {
      ErrorKinds(kernel.State(), namespace, inv, false);
      var result := Deliver(inv, false);
      malformed := result.Err? && result.error != StaleCache;
    }

    method PoisonAfterUncertainPathMutation(payload: P.RequestPayload)
      requires Valid()
      modifies this`history, kernel.cache
      ensures Valid() && Quietly(old(history), history)
      ensures RequiresPathInvalidation(payload) ==>
                kernel.cache.poisoned && EndsUnsettled(history)
      ensures !RequiresPathInvalidation(payload) ==> kernel.State() == old(kernel.State())
    {
      if RequiresPathInvalidation(payload) {
        Poison();
        NoteUnsettled(payload);
      }
    }

    ghost method NoteUnsettled(payload: P.RequestPayload)
      requires Valid() && kernel.cache.poisoned
      modifies this`history
      ensures Valid()
      ensures history == if RequiresPathInvalidation(payload) then old(history) + [Unsettled] else old(history)
    {
      if RequiresPathInvalidation(payload) {
        Record(Unsettled);
      }
    }

    /** The drain that precedes every callback but `release` and `forget`. */
    method DrainFirst(drained: Drained) returns (result: Result<bool, FuseError>)
      requires Valid()
      modifies this`history, kernel, kernel.cache
      ensures Valid() && Quietly(old(history), history)
      ensures kernel.handles.Keys == old(kernel.handles.Keys)
      ensures result.Ok? <==> Drains(namespace, old(kernel.State()), drained)
      ensures result.Ok? ==> kernel.State() == Caught(namespace, old(kernel.State()), drained)
    {
      var failed := DrainRemoteInvalidations(drained);
      match failed
      case Some(error) => return Err(error);
      case None => return Ok(true);
    }

    /** A name joined to a cached path of its parent, as a valid protocol path; there is one exactly
        if the healthy cache knows the parent and the name is not empty, a dot name or compound. */
    method ResolveChild(parent: Inode, name: string) returns (path: Result<Path, FuseError>)
      requires Valid()
      ensures path.Ok? <==> HasChild(kernel.State(), parent, name)
      ensures path.Ok? ==> IsChild(kernel.State(), parent, name, path.value) && ValidNonRoot(path.value)
    {
      KnowsIff(parent);
      path := kernel.ChildPath(parent, name);
      if path.Ok? {
        WellFormedAlways(namespace, history);
        ghost var p :| IsPathOf(kernel.State(), parent, p) && path.value == JoinChild(p, name);
        PathComponents.JoinThenParent(p, name);
        if !ValidPath(path.value) {
          return Err(Protocol);
        }
      }
    }

    lemma KnowsIff(inode: Inode)
      requires Valid()
      ensures Knows(kernel.State(), inode) <==> !kernel.cache.poisoned && inode in kernel.cache.paths
    {
      InverseHolds(kernel.cache.inodes);
      if !kernel.cache.poisoned && inode in kernel.cache.paths {
        var path :| path in kernel.cache.paths[inode];
        assert IsPathOf(kernel.State(), inode, path);
      }
    }

    /** The drain, then the child's path. */
    method ReadyChild(parent: Inode, name: string, drained: Drained) returns (path: Result<Path, FuseError>)
      requires Valid()
      modifies this`history, kernel, kernel.cache
      ensures Valid() && Quietly(old(history), history)
      ensures kernel.handles.Keys == old(kernel.handles.Keys)
      ensures path.Ok? <==>
                && Drains(namespace, old(kernel.State()), drained)
                && HasChild(Caught(namespace, old(kernel.State()), drained), parent, name)
      ensures path.Ok? ==> IsChild(kernel.State(), parent, name, path.value) && ValidNonRoot(path.value)
    {
      var ready := DrainFirst(drained);
      if ready.Err? {
        return Err(ready.error);
      }
      path := ResolveChild(parent, name);
    }

    /** The drain, then two children's paths from the same cache. */
    method ReadyChildren(a: Inode, nameA: string, b: Inode, nameB: string, drained: Drained)
      returns (paths: Result<(Path, Path), FuseError>)
      requires Valid()
      modifies this`history, kernel, kernel.cache
      ensures Valid() && Quietly(old(history), history)
      ensures kernel.handles.Keys == old(kernel.handles.Keys)
      ensures paths.Ok? <==>
                && Drains(namespace, old(kernel.State()), drained)
                && HasChild(Caught(namespace, old(kernel.State()), drained), a, nameA)
                && HasChild(Caught(namespace, old(kernel.State()), drained), b, nameB)
      ensures paths.Ok? ==>
                && !kernel.cache.poisoned
                && IsChild(kernel.State(), a, nameA, paths.value.0) && IsChild(kernel.State(), b, nameB, paths.value.1)
    {
      var ready := DrainFirst(drained);
      if ready.Err? {
        return Err(ready.error);
      }
      var first := ResolveChild(a, nameA);
      if first.Err? {
        return Err(first.error);
      }
      var second := ResolveChild(b, nameB);
      if second.Err? {
        return Err(second.error);
      }
      return Ok((first.value, second.value));
    }

    method InsertLookup(path: Path, inode: Inode)
      requires Valid() && ValidNonRoot(path)
      modifies this`history, kernel.cache
      ensures Valid() && history == old(history) + [Answer(path, inode, 1)]
      ensures inode != 0 ==> path in kernel.cache.inodes && kernel.cache.inodes[path] == inode
      ensures kernel.handles == old(kernel.handles)
    {
      kernel.cache.InsertLookup(path, inode, 1);
      Record(Answer(path, inode, 1));
    }

    method RememberHandle(key: HandleKey, path: Path)
      requires Valid() && ValidPath(path)
      modifies this`history, kernel
      ensures Valid() && history == old(history) + [OpenHandle(key, path)]
      ensures kernel.handles == old(kernel.handles)[key := path]
    {
      kernel.RememberHandlePath(key, path);
      Record(OpenHandle(key, path));
    }

    method EnterNewFile(key: HandleKey, path: Path)
      requires Valid() && ValidNonRoot(path) && key.inode != 0
      modifies this`history, kernel, kernel.cache
      ensures Valid() && Quietly(old(history), history)
      ensures kernel.handles == old(kernel.handles)[key := path]
      ensures path in kernel.cache.inodes && kernel.cache.inodes[path] == key.inode
    {
      InsertLookup(path, key.inode);
      RememberHandle(key, path);
    }

    /** `lookup`: the request names a child of the parent as the drained cache has it, and the
        answered inode is cached under the path that was asked for. `at` is the history when the
        path was resolved. */
    method Lookup(parent: Inode, name: string, drained: Drained, reply: Reply)
      returns (result: Result<P.FileAttr, FuseError>, ghost at: seq<Event>, ghost path: Path)
      requires Valid()
      modifies this, kernel, kernel.cache
      ensures Valid() && Quietly(old(history), at)
      ensures history == at || (IsChild(Run(namespace, EmptyKernel, at), parent, name, path)
                                && SentNext(at, history, Send(true, old(nextRequestId), P.LookupRequest(Some(path)))))
      ensures result.Ok? <==>
                && Drains(namespace, old(kernel.State()), drained)
                && HasChild(Caught(namespace, old(kernel.State()), drained), parent, name)
                && Grants(namespace, old(nextRequestId), P.LookupRequest(Some(path)), reply)
      ensures result.Ok? ==>
                && history != at && reply.value.payload == Some(P.LookupResponse(Some(result.value)))
                && path in kernel.cache.inodes && kernel.cache.inodes[path] == result.value.inode
    {
      path := "";
      var child := ReadyChild(parent, name, drained);
      at := history;
      if child.Err? {
        return Err(child.error), at, path;
      }
      path := child.value;
      var answer := Call(P.LookupRequest(Some(child.value)), true, reply);
      if answer.Err? {
        return Err(answer.error), at, path;
      }
      var attr := answer.value.attr.value;
      StillSent(at, history, Send(true, old(nextRequestId), P.LookupRequest(Some(path))),
                Answer(path, attr.inode, 1));
      InsertLookup(child.value, attr.inode);
      return Ok(attr), at, path;
    }

    /** `create`: the new file is cached, and its handle remembered, under the path sent. */
    method Create(parent: Inode, name: string, drained: Drained, reply: Reply)
      returns (result: Result<HandleKey, FuseError>, ghost at: seq<Event>, ghost path: Path)
      requires Valid()
      modifies this, kernel, kernel.cache
      ensures Valid() && Quietly(old(history), at)
      ensures history == at || (IsChild(Run(namespace, EmptyKernel, at), parent, name, path)
                                && SentNext(at, history, Send(true, old(nextRequestId), P.CreateRequest(Some(path)))))
      ensures result.Ok? <==>
                && Drains(namespace, old(kernel.State()), drained)
                && HasChild(Caught(namespace, old(kernel.State()), drained), parent, name)
                && Grants(namespace, old(nextRequestId), P.CreateRequest(Some(path)), reply)
      ensures result.Ok? ==>
                && history != at && CreatedAs(reply.value.payload, result.value)
                && result.value in kernel.handles && kernel.handles[result.value] == path
                && path in kernel.cache.inodes && kernel.cache.inodes[path] == result.value.inode
    {
      path := "";
      var child := ReadyChild(parent, name, drained);
      at := history;
      if child.Err? {
        return Err(child.error), at, path;
      }
      path := child.value;
      var answer := Call(P.CreateRequest(Some(child.value)), true, reply);
      if answer.Err? {
        return Err(answer.error), at, path;
      }
      var key := HandleKey(answer.value.attr.value.inode, answer.value.handle);
      EnterNewFile(key, child.value);
      return Ok(key), at, path;
    }

    /** `open` and `opendir`: the request names a cached path of the inode, and the handle is
        remembered under it. */
    method Open(inode: Inode, flags: nat, openKind: int, drained: Drained, reply: Reply)
      returns (result: Result<HandleKey, FuseError>, ghost at: seq<Event>, ghost path: Path)
      requires Valid()
      modifies this, kernel, kernel.cache
      ensures Valid() && Quietly(old(history), at)
      ensures history == at || (IsPathOf(Run(namespace, EmptyKernel, at), inode, path)
                                && SentNext(at, history, Send(true, old(nextRequestId),
                                                              P.OpenRequest(Some(path), flags, openKind))))
      ensures result.Ok? <==>
                && Drains(namespace, old(kernel.State()), drained)
                && Knows(Caught(namespace, old(kernel.State()), drained), inode)
                && Grants(namespace, old(nextRequestId), P.OpenRequest(Some(path), flags, openKind), reply)
      ensures result.Ok? ==>
                && history != at && result.value.inode == inode
                && reply.value.payload == Some(P.OpenResponse(result.value.handle))
                && result.value in kernel.handles && kernel.handles[result.value] == path
    {
      path := "";
      var ready := DrainFirst(drained);
      at := history;
      if ready.Err? {
        return Err(ready.error), at, path;
      }
      KnowsIff(inode);
      var cached := kernel.PathForInode(inode);
      if cached.Err? {
        return Err(cached.error), at, path;
      }
      path := cached.value;
      WellFormedAlways(namespace, history);
      var answer := Call(P.OpenRequest(Some(cached.value), flags, openKind), true, reply);
      if answer.Err? {
        return Err(answer.error), at, path;
      }
      var key := HandleKey(inode, answer.value.handle);
      StillSent(at, history, Send(true, old(nextRequestId), P.OpenRequest(Some(path), flags, openKind)),
                OpenHandle(key, path));
      RememberHandle(key, cached.value);
      return Ok(key), at, path;
    }

    /** `rename`: both paths come from one snapshot of the drained cache. */
    method Rename(oldParent: Inode, oldName: string, newParent: Inode, newName: string,
                  drained: Drained, reply: Reply)
      returns (result: Result<bool, FuseError>, ghost at: seq<Event>, ghost oldPath: Path, ghost newPath: Path)
      requires Valid()
      modifies this, kernel, kernel.cache
      ensures Valid() && Quietly(old(history), at)
      ensures history == at || (&& IsChild(Run(namespace, EmptyKernel, at), oldParent, oldName, oldPath)
                                && IsChild(Run(namespace, EmptyKernel, at), newParent, newName, newPath)
                                && SentNext(at, history, Send(true, old(nextRequestId),
                                                              P.RenameRequest(Some(oldPath), Some(newPath)))))
      ensures result.Ok? <==>
                && Drains(namespace, old(kernel.State()), drained)
                && HasChild(Caught(namespace, old(kernel.State()), drained), oldParent, oldName)
                && HasChild(Caught(namespace, old(kernel.State()), drained), newParent, newName)
                && Grants(namespace, old(nextRequestId), P.RenameRequest(Some(oldPath), Some(newPath)), reply)
      ensures result.Ok? ==> history != at
      ensures kernel.handles.Keys == old(kernel.handles.Keys)
    {
      oldPath, newPath := "", "";
      var paths := ReadyChildren(oldParent, oldName, newParent, newName, drained);
      at := history;
      if paths.Err? {
        return Err(paths.error), at, oldPath, newPath;
      }
      var (from, to) := paths.value;
      oldPath, newPath := from, to;
      var answer := Call(P.RenameRequest(Some(from), Some(to)), true, reply);
      if answer.Err? {
        return Err(answer.error), at, oldPath, newPath;
      }
      return Ok(true), at, oldPath, newPath;
    }

    /** `write`, standing for every handle-bound call: it names the path the handle has by then,
        and an open handle is enough to send it, whatever the health of the cache. */
    method Write(key: HandleKey, data: Bytes, drained: Drained, reply: Reply)
      returns (result: Result<nat, FuseError>, ghost at: seq<Event>, ghost path: Path)
      requires Valid()
      modifies this, kernel, kernel.cache
      ensures Valid() && Quietly(old(history), at)
      ensures history == at || (IsHandlePath(Run(namespace, EmptyKernel, at), key, path)
                                && SentNext(at, history, Send(false, old(nextRequestId),
                                                              P.WriteRequest(Some(path), data))))
      ensures namespace != "" && key in old(kernel.handles) && Drains(namespace, old(kernel.State()), drained) ==>
                history != at
      ensures result.Ok? <==>
                && Drains(namespace, old(kernel.State()), drained)
                && HasPath(Caught(namespace, old(kernel.State()), drained), key)
                && Grants(namespace, old(nextRequestId), P.WriteRequest(Some(path), data), reply)
      ensures result.Ok? ==>
                history != at && reply.value.payload == Some(P.WriteResponse(result.value)) && result.value <= |data|
      ensures kernel.handles.Keys == old(kernel.handles.Keys)
    {
      path := "";
      var ready := DrainFirst(drained);
      at := history;
      if ready.Err? {
        return Err(ready.error), at, path;
      }
      var found := HandlePath(key);
      if found.Err? {
        return Err(found.error), at, path;
      }
      path := found.value;
      var answer := Call(P.WriteRequest(Some(found.value), data), false, reply);
      if answer.Err? {
        return Err(answer.error), at, path;
      }
      return Ok(answer.value.bytesWritten), at, path;
    }

    /** The path of a handle-bound request; the path check that follows it cannot fail. */
    method HandlePath(key: HandleKey) returns (path: Result<Path, FuseError>)
      requires Valid()
      ensures path.Ok? ==> IsHandlePath(kernel.State(), key, path.value) && ValidPath(path.value)
      ensures path.Ok? <==> HasPath(kernel.State(), key)
    {
      KnowsIff(key.inode);
      path := kernel.PathForHandleBoundCall(key);
      WellFormedAlways(namespace, history);
      HandlePathsValidAlways(namespace, history);
    }

    /** `release`: sent without a drain; whatever the server answers, this handle is gone
        afterwards and no other is. */
    method Release(key: HandleKey, flags: nat, reply: Reply)
      returns (result: Result<bool, FuseError>, ghost path: Path)
      requires Valid()
      modifies this, kernel, kernel.cache
      ensures Valid()
      ensures history == old(history)
              || history == old(history) + [ReleaseHandle(key)]
              || (IsHandlePath(old(kernel.State()), key, path)
                  && SentNext(old(history), history, Send(false, old(nextRequestId),
                                                          P.ReleaseRequest(Some(path), key.handle, flags))))
      ensures namespace != "" && key in old(kernel.handles) ==>
                && path == old(kernel.handles)[key]
                && SentNext(old(history), history, Send(false, old(nextRequestId),
                                                        P.ReleaseRequest(Some(path), key.handle, flags)))
      ensures kernel.handles.Keys == old(kernel.handles.Keys) - {key}
      ensures result.Ok? <==>
                && old(HasPath(kernel.State(), key))
                && Grants(namespace, old(nextRequestId), P.ReleaseRequest(Some(path), key.handle, flags), reply)
    {
      path := "";
      var found := HandlePath(key);
      if found.Err? {
        return Err(found.error), path;
      }
      path := found.value;
      var answer := Call(P.ReleaseRequest(Some(found.value), key.handle, flags), false, reply);
      if history != old(history) {
        ghost var sent := Send(false, old(nextRequestId), P.ReleaseRequest(Some(path), key.handle, flags));
        StillSent(old(history), history, sent, ReleaseHandle(key));
      }
      ForgetHandle(key);
      if answer.Err? {
        return Err(answer.error), path;
      }
      return Ok(true), path;
    }

    method ForgetHandle(key: HandleKey)
      requires Valid()
      modifies this`history, kernel
      ensures Valid() && history == old(history) + [ReleaseHandle(key)]
      ensures kernel.handles == old(kernel.handles) - {key}
    {
      kernel.ForgetHandlePath(key);
      Record(ReleaseHandle(key));
    }

    /** `forget`: goes to the cache at once, without a request. */
    method ForgetInode(inode: Inode, nlookup: nat)
      requires Valid()
      modifies this`history, kernel.cache
      ensures Valid() && history == old(history) + [Forget(inode, nlookup)]
    {
      kernel.cache.Forget(inode, nlookup);
      Record(Forget(inode, nlookup));
    }
  }
}
