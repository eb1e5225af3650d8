/** The client's covering-invalidation check (`RequiredPathInvalidation` in
    `fs-fuse/src/cache.rs`), request-id scoping (`fabricfs-transport/src/client.rs`), and the
    proof that the dispatcher's responses always pass. */
module Coverage {
  import opened Wrappers
  import opened Paths
  import opened Operations
  import opened Payloads
  import opened Envelopes
  import opened Dispatching
  import Inv = Invalidations

  datatype Required =
    | CreateOf(path: Path, inode: nat)
    | DeleteOf(path: Path)
    | RenameOf(oldPath: Path, newPath: Path)
    | UpdateOf(path: Path, kind: Inv.InvalidationKind)
  {
    predicate Matches(request: RequestEnvelope, inv: Invalidation) {
      && inv.namespace == request.namespace
      && inv.requestId == request.requestId
      && inv.Kind().Some?
      && (inv.Kind().value == Inv.FullResync
          || match this
             case CreateOf(path, inode) =>
               inv.Kind().value == Inv.Create && inv.path == path && inv.inode == inode
             case DeleteOf(path) => inv.Kind().value == Inv.Delete && inv.path == path
             case RenameOf(o, n) => inv.Kind().value == Inv.Rename && inv.oldPath == o && inv.newPath == n
             case UpdateOf(path, kind) => inv.Kind().value == kind && inv.path == path)
    }
  }

  function RequiredUpdate(request: RequestPayload, kind: Option<Inv.InvalidationKind>): Option<Required> {
    if kind.Some? && PrimaryPath(request).Some?
    then Some(UpdateOf(PrimaryPath(request).value, kind.value)) else None
  }

  function RequiredFor(request: RequestPayload, response: ResponsePayload): Option<Required> {
    if request.OpenRequest? then
      if Truncates(request) then RequiredUpdate(request, Some(Inv.Modify)) else None
    else
      match SpecFor(RequestOperation(request)).effect
      case CreateNode =>
        if PrimaryPath(request).Some? && CreatedInode(response).Some?
        then Some(CreateOf(PrimaryPath(request).value, CreatedInode(response).value)) else None
      case DeleteNode =>
        if PrimaryPath(request).Some? then Some(DeleteOf(PrimaryPath(request).value)) else None
      case RenameNode =>
        if PathForRole(request, Source).Some? && PathForRole(request, Target).Some?
        then Some(RenameOf(PathForRole(request, Source).value, PathForRole(request, Target).value)) else None
      case effect => RequiredUpdate(request, KindForEffect(effect))
  }

  predicate Covered(request: RequestEnvelope, response: ResponseEnvelope) {
    response.payload.Some? && RequiredFor(request.payload, response.payload.value).Some? ==>
      exists inv :: inv in response.invalidations
        && RequiredFor(request.payload, response.payload.value).value.Matches(request, inv)
  }

  predicate RequiresPathInvalidation(payload: RequestPayload) {
    Truncates(payload) || SpecFor(RequestOperation(payload)).effect.RequiresPathInvalidation()
  }

  // Request ids as the broker sees them.

  function ScopeRequestId(scope: string, requestId: string): string {
    scope + ":" + requestId
  }

  /** The earlier of the caller's deadline, if it has one, and the one of the timeout. */
  function EffectiveDeadline(existing: nat, timeoutDeadline: nat): (deadline: nat)
    ensures deadline <= timeoutDeadline && (existing != 0 ==> deadline <= existing)
    ensures deadline == timeoutDeadline || (deadline == existing && existing != 0)
  {
    if existing == 0 then timeoutDeadline
    else if existing < timeoutDeadline then existing else timeoutDeadline
  }

  function WithTransportScope(request: RequestEnvelope, scope: string, timeoutDeadline: nat): RequestEnvelope {
    request.(requestId := ScopeRequestId(scope, request.requestId),
             deadline := EffectiveDeadline(request.deadline, timeoutDeadline))
  }

  function Renamed(id: string, from: string, to: string): string {
    if id == from then to else id
  }

  function RestoreCallerRequestId(response: ResponseEnvelope, callerId: string, scopedId: string): ResponseEnvelope {
    response.(
      requestId := Renamed(response.requestId, scopedId, callerId),
      invalidations := seq(|response.invalidations|, i requires 0 <= i < |response.invalidations| =>
        response.invalidations[i].(requestId := Renamed(response.invalidations[i].requestId, scopedId, callerId))))
  }

  /** A mutation needs a covering invalidation exactly when the server announces it: the client's
      and the server's tables agree on every valid request. */
  lemma NeededIffAnnounced(request: RequestPayload, response: ResponsePayload)
    requires ValidRequest(request) && ValidResponseFor(response, request)
    ensures RequiresPathInvalidation(request) <==> KindForRequest(request).Some?
    ensures RequiresPathInvalidation(request) <==> RequiredFor(request, response).Some?
  {
    MutationsAnnounced(request);
    if SpecFor(RequestOperation(request)).effect == CreateNode {
      CreationsAnswerInode(request, response);
    }
    if KindForRequest(request).Some? {
      AnnouncedPaths(request);
    }
  }

  lemma CreationsAnswerInode(request: RequestPayload, response: ResponsePayload)
    requires ValidResponseFor(response, request) && SpecFor(RequestOperation(request)).effect == CreateNode
    ensures CreatedInode(response).Some?
  {
  }

  lemma MutationsAnnounced(request: RequestPayload)
    ensures RequiresPathInvalidation(request) <==> KindForRequest(request).Some?
  {
  }

  /** Whatever a correct server answers to a scoped request, after restoring the caller's id the
      client accepts it: a success passes the identity and payload checks, carries only valid
      invalidations and is covered; a failure passes the full response check. */
  lemma CorrectServerIsAccepted(limits: Limits, next: Counters, call: ServedCall,
                                request: RequestEnvelope, scope: string, timeoutDeadline: nat)
    requires ValidRequestEnvelope(request)
    requires call.request == WithTransportScope(request, scope, timeoutDeadline)
    requires (call.handler.Err? ==> call.handler.error >= 0) && (call.denied.Some? ==> call.denied.value >= 0)
    ensures var reply := Response(limits, next, call);
            var restored := RestoreCallerRequestId(reply, request.requestId, call.request.requestId);
            && ValidFor(reply, call.request)
            && ValidFor(restored, request)
            && restored.ok == reply.ok && restored.payload == reply.payload
            && (restored.ok ==> Covered(request, restored))
  {
    var reply := Response(limits, next, call);
    var restored := RestoreCallerRequestId(reply, request.requestId, call.request.requestId);
    if Succeeds(limits, call) {
      SuccessNeverRefused(limits, next, call);
      NeededIffAnnounced(request.payload, call.handler.value);
      if KindForRequest(request.payload).Some? {
        AnnouncementCovers(request, call.request, call.handler.value, NextFor(next, request.namespace));
        assert restored.invalidations[0] in restored.invalidations;
      }
    }
    RestoredIsValid(request, call.request, reply);
  }

  /** Giving the caller's id back to a checked reply makes it a checked reply to the caller. */
  lemma RestoredIsValid(request: RequestEnvelope, scoped: RequestEnvelope, reply: ResponseEnvelope)
    requires ValidRequestEnvelope(request) && ValidFor(reply, scoped)
    requires scoped == request.(requestId := scoped.requestId, deadline := scoped.deadline)
    ensures ValidFor(RestoreCallerRequestId(reply, request.requestId, scoped.requestId), request)
  {
    var restored := RestoreCallerRequestId(reply, request.requestId, scoped.requestId);
    forall inv | inv in restored.invalidations
      ensures Inv.ValidInvalidation(inv)
    {
      var i :| 0 <= i < |restored.invalidations| && restored.invalidations[i] == inv;
      assert reply.invalidations[i] in reply.invalidations;
      SameValidity(inv, reply.invalidations[i]);
    }
  }

  /** Scoped ids of one client differ when the callers' ids do. */
  lemma ScopedIdsDiffer(scope: string, a: string, b: string)
    requires ScopeRequestId(scope, a) == ScopeRequestId(scope, b)
    ensures a == b
  {
    assert ScopeRequestId(scope, a)[|scope| + 1..] == a && ScopeRequestId(scope, b)[|scope| + 1..] == b;
  }

  /** Scoped ids of any two clients are equal only for the same scope and the same caller's id, as
      long as the callers' ids hold no colon. */
  lemma ScopedIdsIff(scope: string, id: string, scope': string, id': string)
    requires ':' !in id && ':' !in id'
    ensures ScopeRequestId(scope, id) == ScopeRequestId(scope', id') <==> scope == scope' && id == id'
  {
    var a, b := ScopeRequestId(scope, id), ScopeRequestId(scope', id');
    assert a[|scope|] == ':' && b[|scope'|] == ':';
    assert forall i :: |scope| < i < |a| ==> a[i] == id[i - |scope| - 1];
    assert forall i :: |scope'| < i < |b| ==> b[i] == id'[i - |scope'| - 1];
    if a == b {
      assert |scope| == |scope'|;
      assert a[..|scope|] == scope && b[..|scope'|] == scope';
      assert a[|scope| + 1..] == id && b[|scope'| + 1..] == id';
    }
  }

  lemma SameValidity(a: Invalidation, b: Invalidation)
    requires a.Anonymous() == b.Anonymous()
    ensures Inv.ValidInvalidation(a) == Inv.ValidInvalidation(b)
  {
  }

  lemma AnnouncementCovers(request: RequestEnvelope, scoped: RequestEnvelope, payload: ResponsePayload, sequence: nat)
    requires ValidRequestEnvelope(request) && ValidResponseFor(payload, request.payload)
    requires scoped.payload == request.payload && scoped.namespace == request.namespace
    requires KindForRequest(request.payload).Some? && RequiredFor(request.payload, payload).Some?
    ensures var kind := KindForRequest(request.payload).value;
            var inv := Announcement(scoped, payload, kind, sequence).(requestId := request.requestId);
            RequiredFor(request.payload, payload).value.Matches(request, inv)
  {
    RequiredAsAnnounced(request.payload, payload);
    var kind := KindForRequest(request.payload).value;
    assert Inv.KindOf(kind.WireValue()) == Some(kind);
  }

  /** What the client requires is what the server's tables announce. */
  lemma RequiredAsAnnounced(request: RequestPayload, response: ResponsePayload)
    requires ValidRequest(request) && KindForRequest(request).Some? && RequiredFor(request, response).Some?
    ensures var kind := KindForRequest(request).value;
            match RequiredFor(request, response).value
            case CreateOf(path, inode) =>
              && kind == Inv.Create && !request.RenameRequest?
              && PrimaryPath(request) == Some(path) && CreatedInode(response) == Some(inode)
            case DeleteOf(path) => kind == Inv.Delete && !request.RenameRequest? && PrimaryPath(request) == Some(path)
            case RenameOf(o, n) =>
              kind == Inv.Rename && request.RenameRequest? && request.oldPath == Some(o) && request.newPath == Some(n)
            case UpdateOf(path, k) => kind == k && !request.RenameRequest? && PrimaryPath(request) == Some(path)
  {
    AnnouncedPaths(request);
  }
}
