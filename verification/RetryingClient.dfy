/** The client of the RPC layer, `fabricfs-transport/src/client.rs`: the retry loop, the filter
    around it, and the invalidation drain. What the broker does is a parameter. */
module RetryingClients {
  import opened Wrappers
  import opened Operations
  import opened Rpc
  import opened Sequences
  import opened Envelopes
  import opened OwnInvalidationReplays
  import opened ReplayFilter
  import Admission
  import CacheState
  import Coverage
  import Inv = Invalidations

  /** What becomes of one attempt. */
  datatype Outcome =
    | NotConnected
    | CannotSubscribe
    | PublishFails            // the bytes may still have reached the broker
    | TimesOut
    | ReceiveFails
    | EmptyReply
    | OversizedReply
    | UndecodableReply
    | Reply(response: ResponseEnvelope)
  {
    predicate Published() {
      !NotConnected? && !CannotSubscribe?
    }

    /** The failures after which another attempt is considered. */
    predicate Retryable() {
      PublishFails? || TimesOut? || ReceiveFails?
    }
  }

  predicate HasAmbiguousEffects(request: RequestEnvelope) {
    request.operation != Release && SpecFor(request.operation).effect != ReadOnly
  }

  predicate CanRetryAfterPublish(request: RequestEnvelope) {
    !HasAmbiguousEffects(request)
  }

  /** A request whose success must be covered by an invalidation is never sent a second time. */
  lemma PathMutationsAreAmbiguous(request: RequestEnvelope)
    requires ValidRequestEnvelope(request) && Coverage.RequiresPathInvalidation(request.payload)
    ensures HasAmbiguousEffects(request)
  {
  }

  /** What may be sent again: the operations that only read, and the release of a handle. */
  lemma RetriableIff(request: RequestEnvelope)
    requires ValidRequestEnvelope(request)
    ensures CanRetryAfterPublish(request) <==>
              var p := request.payload;
              || p.LookupRequest? || p.GetattrRequest? || p.ReaddirRequest? || p.ReadRequest? || p.StatfsRequest?
              || p.GetxattrRequest? || p.ListxattrRequest? || p.ReadlinkRequest? || p.GetlkRequest?
              || p.ReleaseRequest?
  {
  }

  // What the broker's outcomes make of a call.

  /** What one attempt's outcome means for the caller if there is no further attempt. */
  function Verdict(request: RequestEnvelope, outcome: Outcome): Result<ResponseEnvelope, RpcError> {
    match outcome
    case NotConnected => Err(ConnectionClosed)
    case CannotSubscribe => Err(Transport)
    case PublishFails => Err(Transport)
    case TimesOut => Err(Timeout)
    case ReceiveFails => Err(Transport)
    case EmptyReply => Err(ConnectionClosed)
    case OversizedReply => Err(FrameTooLarge)
    case UndecodableReply => Err(Malformed)
    case Reply(response) => if ValidFor(response, request) then Ok(response) else Err(Malformed)
  }

  /** Attempt `n` is made: all before it failed in a way that lets the request be sent again. */
  predicate Reaches(request: RequestEnvelope, maxRetries: nat, broker: nat -> Outcome, n: nat) {
    && n <= maxRetries && (n > 0 ==> CanRetryAfterPublish(request))
    && forall i :: 0 <= i < n ==> broker(i).Retryable()
  }

  /** Attempt `n` is made and is the last one. */
  predicate Decides(request: RequestEnvelope, maxRetries: nat, broker: nat -> Outcome, n: nat) {
    && Reaches(request, maxRetries, broker, n)
    && (broker(n).Retryable() ==> n == maxRetries || !CanRetryAfterPublish(request))
  }

  /** The broker hands over a valid reply to an attempt that is made. */
  ghost predicate Answered(request: RequestEnvelope, maxRetries: nat, broker: nat -> Outcome, r: ResponseEnvelope) {
    ValidFor(r, request) && exists n :: Reaches(request, maxRetries, broker, n) && broker(n) == Reply(r)
  }

  /** A call succeeds with exactly the reply that answers it, if one does. */
  lemma OkIffAnswered(request: RequestEnvelope, maxRetries: nat, broker: nat -> Outcome, n: nat, r: ResponseEnvelope)
    requires Decides(request, maxRetries, broker, n)
    ensures Verdict(request, broker(n)) == Ok(r) <==> Answered(request, maxRetries, broker, r)
  {
    if Answered(request, maxRetries, broker, r) {
      var k: nat :| Reaches(request, maxRetries, broker, k) && broker(k) == Reply(r);
      assert k < n ==> broker(k).Retryable();
      assert n < k ==> broker(n).Retryable();
    }
  }

  /** The reply as the caller is to get it: the same but for the scoped id, which has become the
      caller's in the reply and in each of its invalidations that had it. */
  ghost predicate SameReply(r: ResponseEnvelope, answer: ResponseEnvelope, scopedId: string, callerId: string) {
    && answer == r.(requestId := answer.requestId, invalidations := answer.invalidations)
    && answer.requestId == (if r.requestId == scopedId then callerId else r.requestId)
    && |answer.invalidations| == |r.invalidations|
    && forall i :: 0 <= i < |r.invalidations| ==>
         var inv := r.invalidations[i];
         answer.invalidations[i] == if inv.requestId == scopedId then inv.(requestId := callerId) else inv
  }

  /** The broker answers the scoped request, and this is what the caller gets. */
  ghost predicate Returned(callerId: string, scoped: RequestEnvelope, maxRetries: nat, broker: nat -> Outcome,
                           answer: ResponseEnvelope) {
    exists r :: Answered(scoped, maxRetries, broker, r) && SameReply(r, answer, scoped.requestId, callerId)
  }

  /** The caller gets an answer exactly if the request was sent and the broker answers it. */
  ghost predicate Decided(result: Result<ResponseEnvelope, RpcError>, sent: bool, callerId: string,
                          scoped: RequestEnvelope, maxRetries: nat, broker: nat -> Outcome) {
    forall answer :: result == Ok(answer) <==> sent && Returned(callerId, scoped, maxRetries, broker, answer)
  }

  lemma RestoredIsSame(r: ResponseEnvelope, answer: ResponseEnvelope, scopedId: string, callerId: string)
    ensures SameReply(r, answer, scopedId, callerId)
            <==> answer == Coverage.RestoreCallerRequestId(r, callerId, scopedId)
  {
    var restored := Coverage.RestoreCallerRequestId(r, callerId, scopedId);
    if SameReply(r, answer, scopedId, callerId) {
      assert answer.invalidations == restored.invalidations;
    }
  }

  /** A broker answers with one reply at most, and its restored form is what the caller gets. */
  lemma ReturnedIff(callerId: string, scoped: RequestEnvelope, maxRetries: nat, broker: nat -> Outcome,
                    reply: Result<ResponseEnvelope, RpcError>, answer: ResponseEnvelope)
    requires forall r :: reply == Ok(r) <==> Answered(scoped, maxRetries, broker, r)
    ensures Returned(callerId, scoped, maxRetries, broker, answer)
            <==> reply.Ok? && answer == Coverage.RestoreCallerRequestId(reply.value, callerId, scoped.requestId)
  {
    if reply.Ok? {
      RestoredIsSame(reply.value, answer, scoped.requestId, callerId);
      assert Answered(scoped, maxRetries, broker, reply.value);
    }
  }

  /** A request that was registered, and every message handed to the broker for it. */
  datatype Exchange = Exchange(request: RequestEnvelope, published: seq<Admission.Message>)

  /** A message of this request, with its deadline. */
  predicate IsFor(request: RequestEnvelope, m: Admission.Message) {
    m.requestId == request.requestId && m.deadline == request.deadline
  }

  /** One message was published for each attempt made, except for one that could not be published. */
  ghost predicate Complete(maxRetries: nat, broker: nat -> Outcome, x: Exchange) {
    exists last: nat :: Decides(x.request, maxRetries, broker, last)
      && |x.published| == last + if broker(last).Published() then 1 else 0
  }

  /** At most one publication for ambiguous effects, never more than the attempts, all of them for
      this request. */
  predicate Restrained(maxRetries: nat, x: Exchange) {
    && |x.published| <= (if HasAmbiguousEffects(x.request) then 1 else maxRetries + 1)
    && forall i :: 0 <= i < |x.published| ==> IsFor(x.request, x.published[i])
  }

  /** The request as it leaves a client at clock `now`. */
  function Scoped(request: RequestEnvelope, scope: string, now: nat, timeout: nat): RequestEnvelope {
    Coverage.WithTransportScope(request, scope, CacheState.SaturatingAdd(now, timeout))
  }

  /** A message waiting on the invalidation subscription. */
  datatype Incoming = Oversized | Undecodable | Decoded(inv: Inv.Invalidation)

  predicate Readable(message: Incoming) {
    message.Decoded? && Inv.ValidInvalidation(message.inv)
  }

  /** The messages of one namespace that satisfy `p`, in order. Others are read and thrown away. */
  function Select(messages: seq<Incoming>, namespace: string, p: Inv.Invalidation -> bool): seq<Inv.Invalidation> {
    if messages == [] then []
    else
      var last := messages[|messages| - 1];
      Select(messages[..|messages| - 1], namespace, p)
      + if last.Decoded? && last.inv.namespace == namespace && p(last.inv) then [last.inv] else []
  }

  /** Not an invalidation of one of these own requests. */
  function Foreign(own: set<string>): Inv.Invalidation -> bool {
    (inv: Inv.Invalidation) => inv.requestId == "" || inv.requestId !in own
  }

  function Of(id: string): Inv.Invalidation -> bool {
    (inv: Inv.Invalidation) => inv.requestId == id
  }

  /** What a drain does to the filter: recovered invalidations of the namespace leave it, and each
      pending request holds back its own messages. */
  ghost predicate DrainedFilter(namespace: string, before: Filter, messages: seq<Incoming>, after: Filter) {
    && after == before.Take(namespace).0.(deferred := after.deferred)
    && forall id :: id in before.pending ==>
         after.Deferred(id) == before.Deferred(id) + Select(messages, namespace, Of(id))
  }

  lemma SelectNext(messages: seq<Incoming>, namespace: string, p: Inv.Invalidation -> bool, i: nat)
    requires i < |messages| && messages[i].Decoded?
    ensures Select(messages[..i + 1], namespace, p)
         == Select(messages[..i], namespace, p)
            + if messages[i].inv.namespace == namespace && p(messages[i].inv) then [messages[i].inv] else []
  {
    assert messages[..i + 1][..i] == messages[..i];
  }

  /** One more message of the drained namespace goes through the filter. */
  lemma FilterNext(namespace: string, f: Filter, messages: seq<Incoming>, i: nat, now: Filter)
    requires i < |messages| && messages[i].Decoded? && messages[i].inv.namespace == namespace
    requires f.Consistent() && DrainedFilter(namespace, f, messages[..i], now)
    ensures DrainedFilter(namespace, f, messages[..i + 1], now.Handle(messages[i].inv).0)
  {
    forall id | id in f.pending
      ensures now.Handle(messages[i].inv).0.Deferred(id)
           == f.Deferred(id) + Select(messages[..i + 1], namespace, Of(id))
    {
      SelectNext(messages, namespace, Of(id), i);
      HoldsBackOwn(now, messages[i].inv, id);
      Associative(f.Deferred(id), Select(messages[..i], namespace, Of(id)), [messages[i].inv]);
    }
  }

  lemma HoldsBackOwn(f: Filter, inv: Inv.Invalidation, id: string)
    requires id in f.pending && id != "" && id !in f.completed
    ensures f.Handle(inv).0.Deferred(id) == if inv.requestId == id then f.Deferred(id) + [inv] else f.Deferred(id)
  {
  }

  lemma FilterSkips(namespace: string, f: Filter, messages: seq<Incoming>, i: nat, now: Filter)
    requires i < |messages| && messages[i].Decoded? && messages[i].inv.namespace != namespace
    requires DrainedFilter(namespace, f, messages[..i], now)
    ensures DrainedFilter(namespace, f, messages[..i + 1], now)
  {
    forall id | id in f.pending
      ensures Select(messages[..i + 1], namespace, Of(id)) == Select(messages[..i], namespace, Of(id))
    {
      SelectNext(messages, namespace, Of(id), i);
    }
  }

  class FileSystemClient {
    const scope: string
    const maxRetries: nat
    const maxFrameBytes: nat
    const timeout: nat
    const own: OwnInvalidationReplay
    var nextInbox: nat
    ghost var exchanges: seq<Exchange>

    ghost predicate Valid()
      reads this, own
    {
      own.Valid() && forall i :: 0 <= i < |exchanges| ==> Restrained(maxRetries, exchanges[i])
    }

    constructor (scope: string, maxRetries: nat, maxFrameBytes: nat, timeout: nat)
      ensures this.scope == scope && this.maxRetries == maxRetries
      ensures this.maxFrameBytes == maxFrameBytes && this.timeout == timeout
      ensures Valid() && own.State() == EmptyFilter && exchanges == [] && fresh(own)
    {
      this.scope, this.maxRetries, this.maxFrameBytes, this.timeout := scope, maxRetries, maxFrameBytes, timeout;
      own := new OwnInvalidationReplay();
      nextInbox := 0;
      exchanges := [];
    }

    /** Publishes until something other than a retryable failure comes back or the attempts are
        used up, and returns the verdict on the last attempt: a success for exactly the brokers
        that answer. `published` lists every message handed to the broker, failed publishes
        included. */
    method RoundTripRegistered(request: RequestEnvelope, broker: nat -> Outcome)
      returns (result: Result<ResponseEnvelope, RpcError>, published: seq<Admission.Message>, ghost last: nat)
      modifies this`nextInbox
      ensures Decides(request, maxRetries, broker, last) && result == Verdict(request, broker(last))
      ensures forall r :: result == Ok(r) <==> Answered(request, maxRetries, broker, r)
      ensures |published| == last + if broker(last).Published() then 1 else 0
      ensures HasAmbiguousEffects(request) ==> |published| <= 1
      ensures forall i :: 0 <= i < |published| ==> IsFor(request, published[i])
      ensures forall i :: 0 <= i < |published| ==> published[i].inbox == old(nextInbox) + i
      ensures nextInbox == old(nextInbox) + last + if broker(last).NotConnected? then 0 else 1
    {
      var attempts := maxRetries + 1;
      published := [];
      var attempt := 0;
      while attempt < attempts
        invariant 0 <= attempt < attempts && |published| == attempt && nextInbox == old(nextInbox) + attempt
        invariant Reaches(request, maxRetries, broker, attempt)
        invariant forall i :: 0 <= i < attempt ==>
                    IsFor(request, published[i]) && published[i].inbox == old(nextInbox) + i
      {
        var outcome := broker(attempt);
        last := attempt;
        if !(outcome.Retryable() && CanRetryAfterPublish(request) && attempt < maxRetries) {
          forall r
            ensures Verdict(request, outcome) == Ok(r) <==> Answered(request, maxRetries, broker, r)
          {
            OkIffAnswered(request, maxRetries, broker, last, r);
          }
        }
        if outcome.NotConnected? {
          return Err(ConnectionClosed), published, last;
        }
        var inbox := nextInbox;
        nextInbox := nextInbox + 1;
        if outcome.CannotSubscribe? {
          return Err(Transport), published, last;
        }
        published := published + [Admission.Message(request.requestId, inbox, request.deadline)];
        match outcome {
          case PublishFails =>
            if !(CanRetryAfterPublish(request) && attempt + 1 < attempts) {
              return Err(Transport), published, last;
            }
          case TimesOut =>
            if !(CanRetryAfterPublish(request) && attempt + 1 < attempts) {
              return Err(Timeout), published, last;
            }
          case ReceiveFails =>
            if !CanRetryAfterPublish(request) || attempt + 1 == attempts {
              return Err(Transport), published, last;
            }
          case EmptyReply => return Err(ConnectionClosed), published, last;
          case OversizedReply => return Err(FrameTooLarge), published, last;
          case UndecodableReply => return Err(Malformed), published, last;
          case Reply(response) =>
            if !ValidFor(response, request) {
              return Err(Malformed), published, last;
            }
            return Ok(response), published, last;
        }
        attempt := attempt + 1;
      }
      // Unreachable: the last attempt always returns.
      assert false;
    }

    /** Refuses what cannot be sent before anything is registered; otherwise registers the
        request's own invalidations around the round trip: a success suppresses the echo, a
        failure hands what was held back to the next drain. */
    method RoundTrip(request: RequestEnvelope, frameBytes: nat, connected: bool, broker: nat -> Outcome)
      returns (result: Result<ResponseEnvelope, RpcError>)
      requires Valid()
      modifies this, own
      ensures Valid()
      ensures frameBytes > maxFrameBytes || !connected ==>
                && result == Err(if frameBytes > maxFrameBytes then FrameTooLarge else ConnectionClosed)
                && own.State() == old(own.State()) && exchanges == old(exchanges)
      ensures frameBytes <= maxFrameBytes && connected ==>
                var begun := old(own.State()).Begin(request.requestId);
                && own.State() == (if result.Ok? then begun.Complete(request.requestId)
                                   else begun.Abandon(request.requestId))
                && |exchanges| == |old(exchanges)| + 1 && exchanges[..|old(exchanges)|] == old(exchanges)
                && exchanges[|old(exchanges)|].request == request
                && Complete(maxRetries, broker, exchanges[|old(exchanges)|])
      ensures forall r :: result == Ok(r) <==>
                frameBytes <= maxFrameBytes && connected && Answered(request, maxRetries, broker, r)
    {
      if frameBytes > maxFrameBytes {
        return Err(FrameTooLarge);
      }
      if !connected {
        return Err(ConnectionClosed);
      }
      own.Begin(request.requestId);
      var published;
      ghost var last;
      result, published, last := RoundTripRegistered(request, broker);
      exchanges := exchanges + [Exchange(request, published)];
      if result.Ok? {
        own.Complete(request.requestId);
      } else {
        own.Abandon(request.requestId);
      }
    }

    /** A call is scoped to this client before it leaves, its deadline no later than the timeout
        allows from now on; its reply is given back under the caller's own request id, checked
        against the caller's request. */
    method Call(request: RequestEnvelope, now: nat, frameBytes: nat, connected: bool, broker: nat -> Outcome)
      returns (result: Result<ResponseEnvelope, RpcError>)
      requires Valid()
      modifies this, own
      ensures Valid()
      ensures if ValidRequestEnvelope(Scoped(request, scope, now, timeout)) && frameBytes <= maxFrameBytes && connected
              then
                && |exchanges| == |old(exchanges)| + 1 && exchanges[..|old(exchanges)|] == old(exchanges)
                && exchanges[|old(exchanges)|].request == Scoped(request, scope, now, timeout)
                && Complete(maxRetries, broker, exchanges[|old(exchanges)|])
              else exchanges == old(exchanges)
      ensures result.Ok? && ValidRequestEnvelope(request) ==> ValidFor(result.value, request)
      ensures Decided(result, frameBytes <= maxFrameBytes && connected, request.requestId,
                      Scoped(request, scope, now, timeout), maxRetries, broker)
    {
      var outbound := Scoped(request, scope, now, timeout);
      if !ValidRequestEnvelope(outbound) {
        return Err(Malformed);
      }
      var reply := RoundTrip(outbound, frameBytes, connected, broker);
      if frameBytes <= maxFrameBytes && connected {
        forall answer
          ensures Returned(request.requestId, outbound, maxRetries, broker, answer)
                  <==> reply.Ok? && answer == Coverage.RestoreCallerRequestId(reply.value, request.requestId,
                                                                              outbound.requestId)
        {
          ReturnedIff(request.requestId, outbound, maxRetries, broker, reply, answer);
        }
      }
      match reply
      case Err(error) => return Err(error);
      case Ok(response) =>
        if ValidRequestEnvelope(request) {
          Coverage.RestoredIsValid(request, outbound, response);
        }
        return Ok(Coverage.RestoreCallerRequestId(response, request.requestId, outbound.requestId));
    }

    /** A drain takes what was recovered and then, in order, the messages of its namespace that
        belong to no pending or completed request of this client, up to the first message that
        cannot be read. With no such message it delivers all it took; otherwise it fails, and what
        it took is lost, while what it held back stays held back. */
    method DrainInvalidations(namespace: string, connected: bool, messages: seq<Incoming>)
      returns (result: Result<seq<Inv.Invalidation>, RpcError>, ghost read: nat, ghost lost: seq<Inv.Invalidation>)
      requires own.Valid()
      modifies own
      ensures own.Valid()
      ensures !connected ==> result == Err(ConnectionClosed) && lost == [] && own.State() == old(own.State())
      ensures read <= |messages| && forall j :: 0 <= j < read ==> Readable(messages[j])
      ensures connected && read < |messages| ==>
                && !Readable(messages[read])
                && result == Err(if messages[read].Oversized? then FrameTooLarge else Malformed)
      ensures connected ==> (result.Ok? <==> read == |messages|)
      ensures connected ==>
                && (if result.Ok? then result.value else lost)
                   == Inv.OfNamespace(old(own.recovered), namespace)
                      + Select(messages[..read], namespace, Foreign(old(own.pending + own.completed)))
                && DrainedFilter(namespace, old(own.State()), messages[..read], own.State())
      ensures result.Ok? ==> lost == []
    {
      read, lost := 0, [];
      if !connected {
        return Err(ConnectionClosed), read, lost;
      }
      ghost var f := own.State();
      var invalidations := own.TakeRecovered(namespace);
      ghost var recovered := invalidations;
      for i := 0 to |messages|
        invariant read == i && own.Valid()
        invariant DrainedFilter(namespace, f, messages[..i], own.State())
        invariant invalidations == recovered + Select(messages[..i], namespace, Foreign(f.pending + f.completed))
        invariant forall j :: 0 <= j < i ==> Readable(messages[j])
      {
        if !Readable(messages[i]) {
          return Err(if messages[i].Oversized? then FrameTooLarge else Malformed), read, invalidations;
        }
        invalidations := Accept(namespace, f, messages, i, recovered, invalidations);
        read := i + 1;
      }
      return Ok(invalidations), read, lost;
    }

    /** One readable message: of the drained namespace, it passes through the filter. */
    method Accept(namespace: string, ghost f: Filter, messages: seq<Incoming>, i: nat,
                  ghost recovered: seq<Inv.Invalidation>, before: seq<Inv.Invalidation>)
      returns (after: seq<Inv.Invalidation>)
      requires own.Valid() && f.Consistent() && i < |messages| && messages[i].Decoded?
      requires DrainedFilter(namespace, f, messages[..i], own.State())
      requires before == recovered + Select(messages[..i], namespace, Foreign(f.pending + f.completed))
      modifies own
      ensures own.Valid() && DrainedFilter(namespace, f, messages[..i + 1], own.State())
      ensures after == recovered + Select(messages[..i + 1], namespace, Foreign(f.pending + f.completed))
    {
      SelectNext(messages, namespace, Foreign(f.pending + f.completed), i);
      after := before;
      if messages[i].inv.namespace != namespace {
        FilterSkips(namespace, f, messages, i, own.State());
      } else {
        FilterNext(namespace, f, messages, i, own.State());
        var delivered := own.HandleInvalidation(messages[i].inv);
        if delivered.Some? {
          after := before + [delivered.value];
        }
      }
    }
  }
}
