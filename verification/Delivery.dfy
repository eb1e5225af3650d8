/** Delivery of a prepared response (`fabricfs-transport/src/policy.rs`, `server.rs`) and the
    release of a handle whose response could not be delivered (`fs-core/src/lib.rs`). */
module Delivery {
  import opened Wrappers
  import opened Operations
  import opened Payloads
  import opened Envelopes
  import opened Rpc
  import Inv = Invalidations

  datatype Prepared = Prepared(request: RequestEnvelope, response: ResponseEnvelope, dispatched: bool)

  /** What the delivery does to the outside, in order; a publish counts whether or not it fails,
      and a release says whether the backend did it. */
  datatype Effect =
    | Broadcast(inv: Inv.Invalidation)
    | Reply
    | ReleaseHandle(release: RequestPayload, done: bool)

  /** How the environment reacts, with the two clock readings. */
  datatype Environment = Environment(
    broadcastFails: nat -> bool,
    replyFails: bool,
    releaseFails: bool,
    beforeReply: nat,
    afterReply: nat)

  predicate ReturnsBackendHandle(response: ResponseEnvelope) {
    && response.ok && response.payload.Some?
    && (response.payload.value.OpenResponse? || response.payload.value.CreateResponse?)
  }

  predicate HandleExpired(prepared: Prepared, now: nat) {
    && ReturnsBackendHandle(prepared.response)
    && prepared.request.deadline != 0 && prepared.request.deadline <= now
  }

  function ReleaseForHandleResponse(request: RequestEnvelope, response: ResponseEnvelope): Option<RequestPayload> {
    if !response.ok || !SpecFor(request.operation).opensObject then None
    else if response.payload.None? || OpenedHandle(response.payload.value).None? then None
    else Some(ReleaseRequest(PathForRole(request.payload, Target), OpenedHandle(response.payload.value).value, 0))
  }

  function Max(a: nat, b: nat): nat {
    if a < b then b else a
  }

  /** The backend calls one cleanup makes: none, or the one release. */
  function Releases(prepared: Prepared, env: Environment): seq<Effect> {
    var release := ReleaseForHandleResponse(prepared.request, prepared.response);
    if prepared.dispatched && release.Some? then [ReleaseHandle(release.value, !env.releaseFails)] else []
  }

  /** What is reported when a handle expired: the timeout, unless its release fails. */
  function ExpiredError(prepared: Prepared, env: Environment): RpcError {
    if Releases(prepared, env) != [] && env.releaseFails then Transport else Timeout
  }

  /** The first `attempted` invalidations in order, then the reply if it was tried. */
  function Sent(invalidations: seq<Inv.Invalidation>, attempted: nat, replied: bool): seq<Effect>
    requires attempted <= |invalidations|
  {
    seq(attempted, i requires 0 <= i < attempted => Broadcast(invalidations[i])) + if replied then [Reply] else []
  }

  predicate Undisturbed(prepared: Prepared, env: Environment) {
    && (forall i :: 0 <= i < |prepared.response.invalidations| ==> !env.broadcastFails(i))
    && !env.replyFails
    && !HandleExpired(prepared, env.beforeReply) && !HandleExpired(prepared, env.afterReply)
  }

  predicate PublishesAll(prepared: Prepared, env: Environment) {
    (forall i :: 0 <= i < |prepared.response.invalidations| ==> !env.broadcastFails(i)) && !env.replyFails
  }

  /** The response gives out no handle, or the request has no deadline, or both clock readings are
      before it. */
  predicate BeforeDeadline(prepared: Prepared, env: Environment) {
    var deadline := prepared.request.deadline;
    || !ReturnsBackendHandle(prepared.response) || deadline == 0
    || (env.beforeReply < deadline && env.afterReply < deadline)
  }

  /** Succeeds exactly when nothing went wrong, and then cleans up nothing; on any failure it
      cleans up exactly once, after everything it sent. All invalidations precede the reply. */
  method DeliverPreparedResponse(prepared: Prepared, env: Environment)
    returns (result: Result<bool, RpcError>, log: seq<Effect>, cleanups: nat, attempted: nat, replied: bool)
    ensures result.Ok? <==> Undisturbed(prepared, env)
    ensures result.Ok? <==> PublishesAll(prepared, env) && BeforeDeadline(prepared, env)
    ensures PublishesAll(prepared, env) && result.Err? ==>
              result.error == ExpiredError(prepared, env)
    ensures result == Err(Timeout) ==>
              && ReturnsBackendHandle(prepared.response)
              && 0 < prepared.request.deadline <= Max(env.beforeReply, env.afterReply)
    ensures cleanups == if result.Ok? then 0 else 1
    ensures attempted <= |prepared.response.invalidations|
    ensures log == Sent(prepared.response.invalidations, attempted, replied)
                   + if result.Ok? then [] else Releases(prepared, env)
    ensures !prepared.dispatched ==> log == Sent(prepared.response.invalidations, attempted, replied)
    ensures replied ==> attempted == |prepared.response.invalidations|
    ensures forall i :: 0 <= i < attempted && (i + 1 < attempted || replied) ==> !env.broadcastFails(i)
    ensures !replied ==> (attempted > 0 && env.broadcastFails(attempted - 1))
                         || (attempted == |prepared.response.invalidations| && HandleExpired(prepared, env.beforeReply))
  {
    var invalidations := prepared.response.invalidations;
    log, cleanups, attempted, replied := [], 0, 0, false;
    while attempted < |invalidations|
      invariant 0 <= attempted <= |invalidations| && log == Sent(invalidations, attempted, false)
      invariant forall i :: 0 <= i < attempted ==> !env.broadcastFails(i)
    {
      log := log + [Broadcast(invalidations[attempted])];
      attempted := attempted + 1;
      if env.broadcastFails(attempted - 1) {
        log, cleanups := log + Releases(prepared, env), cleanups + 1;
        return Err(Transport), log, cleanups, attempted, replied;
      }
    }
    if HandleExpired(prepared, env.beforeReply) {
      log, cleanups := log + Releases(prepared, env), cleanups + 1;
      return Err(ExpiredError(prepared, env)), log, cleanups, attempted, replied;
    }
    log, replied := log + [Reply], true;
    if env.replyFails {
      log, cleanups := log + Releases(prepared, env), cleanups + 1;
      return Err(Transport), log, cleanups, attempted, replied;
    }
    if HandleExpired(prepared, env.afterReply) {
      log, cleanups := log + Releases(prepared, env), cleanups + 1;
      return Err(ExpiredError(prepared, env)), log, cleanups, attempted, replied;
    }
    return Ok(true), log, cleanups, attempted, replied;
  }

  /** The transport's test for a backend handle and the dispatcher's agree on every checked
      response, and the release they lead to is a valid request for that handle and path. */
  lemma ReleaseIffHandle(request: RequestEnvelope, response: ResponseEnvelope)
    requires ValidFor(response, request)
    ensures ReleaseForHandleResponse(request, response).Some? <==> ReturnsBackendHandle(response)
    ensures ReturnsBackendHandle(response) ==>
              var release := ReleaseForHandleResponse(request, response).value;
              && ValidRequest(release)
              && release.path == PrimaryPath(request.payload)
              && Some(release.handle) == OpenedHandle(response.payload.value)
  {
    if response.ok {
      assert ResponseOperation(response.payload.value) == RequestOperation(request.payload);
      match request.payload
      case OpenRequest(_, _, _) =>
      case CreateRequest(_) =>
      case _ =>
    }
  }

  /** The releases asked for. */
  function ReleasesIn(log: seq<Effect>): nat {
    if log == [] then 0 else ReleasesIn(log[..|log| - 1]) + if log[|log| - 1].ReleaseHandle? then 1 else 0
  }

  /** The releases the backend did. */
  function ReleasesDoneIn(log: seq<Effect>): nat {
    if log == [] then 0
    else
      var last := log[|log| - 1];
      ReleasesDoneIn(log[..|log| - 1]) + if last.ReleaseHandle? && last.done then 1 else 0
  }

  lemma {:induction false} SentReleasesNothing(invalidations: seq<Inv.Invalidation>, attempted: nat, replied: bool)
    requires attempted <= |invalidations|
    ensures ReleasesIn(Sent(invalidations, attempted, replied)) == 0
    ensures ReleasesDoneIn(Sent(invalidations, attempted, replied)) == 0
  {
    var log := Sent(invalidations, attempted, replied);
    if replied {
      SentReleasesNothing(invalidations, attempted, false);
      assert log[..|log| - 1] == Sent(invalidations, attempted, false);
    } else if attempted > 0 {
      SentReleasesNothing(invalidations, attempted - 1, false);
      assert log[..|log| - 1] == Sent(invalidations, attempted - 1, false);
    }
  }

  /** A failed delivery of a dispatched response asks for exactly one release if the response
      carried a handle, and for none otherwise; the release is done unless the backend fails. */
  lemma ReleasedExactlyOnce(prepared: Prepared, env: Environment, attempted: nat, replied: bool)
    requires ValidFor(prepared.response, prepared.request) && prepared.dispatched
    requires attempted <= |prepared.response.invalidations|
    ensures var log := Sent(prepared.response.invalidations, attempted, replied) + Releases(prepared, env);
            && ReleasesIn(log) == (if ReturnsBackendHandle(prepared.response) then 1 else 0)
            && ReleasesDoneIn(log) == (if ReturnsBackendHandle(prepared.response) && !env.releaseFails then 1 else 0)
  {
    ReleaseIffHandle(prepared.request, prepared.response);
    var sent := Sent(prepared.response.invalidations, attempted, replied);
    SentReleasesNothing(prepared.response.invalidations, attempted, replied);
    var log := sent + Releases(prepared, env);
    if Releases(prepared, env) == [] {
      assert log == sent;
    } else {
      assert log[..|log| - 1] == sent;
    }
  }

  /** Replied and no release asked for, or asked to release exactly once. */
  predicate HandleSettled(result: Result<bool, RpcError>, log: seq<Effect>) {
    if result.Ok? then Reply in log && ReleasesIn(log) == 0 else ReleasesIn(log) == 1
  }

  /** Replied and no release asked for, or released exactly once. */
  predicate HandleAccounted(result: Result<bool, RpcError>, log: seq<Effect>) {
    if result.Ok? then Reply in log && ReleasesIn(log) == 0 else ReleasesIn(log) == ReleasesDoneIn(log) == 1
  }

  /** From the dispatcher's response to the end of its delivery: a response that does not fit the
      frame is dropped without a cleanup. For a handle that the response carries, the right number
      of releases is asked for exactly when the response fits; and the handle is accounted for
      exactly when, in addition, nothing goes wrong or the backend does the release. */
  method ServeDispatched(request: RequestEnvelope, response: ResponseEnvelope, fits: bool, env: Environment)
    returns (result: Result<bool, RpcError>, log: seq<Effect>)
    ensures !fits ==> result == Err(FrameTooLarge) && log == []
    ensures ValidFor(response, request) && ReturnsBackendHandle(response) ==> (HandleSettled(result, log) <==> fits)
    ensures ValidFor(response, request) && ReturnsBackendHandle(response) ==>
              (HandleAccounted(result, log) <==>
                 fits && (Undisturbed(Prepared(request, response, true), env) || !env.releaseFails))
  {
    if !fits {
      return Err(FrameTooLarge), [];
    }
    var prepared := Prepared(request, response, true);
    var cleanups, attempted, replied;
    result, log, cleanups, attempted, replied := DeliverPreparedResponse(prepared, env);
    if result.Ok? {
      SentReleasesNothing(response.invalidations, attempted, replied);
      assert log == Sent(response.invalidations, attempted, true);
      assert log[|log| - 1] == Reply;
    } else if ValidFor(response, request) {
      ReleasedExactlyOnce(prepared, env, attempted, replied);
    }
  }
}
