/** The server's dispatcher, `fs-core/src/lib.rs`: which successes are announced, how sequence
    numbers are handed out per namespace, and the proof that none is ever lost. */
module Dispatching {
  import opened Wrappers
  import opened Paths
  import opened Operations
  import opened Payloads
  import Inv = Invalidations
  import opened Envelopes

  type Invalidation = Inv.Invalidation

  // Which successful requests are announced, and how.

  function KindForEffect(effect: OperationEffect): Option<Inv.InvalidationKind> {
    match effect
    case ContentMutation => Some(Inv.Modify)
    case CreateNode => Some(Inv.Create)
    case RenameNode => Some(Inv.Rename)
    case DeleteNode => Some(Inv.Delete)
    case MetadataMutation => Some(Inv.Metadata)
    case XattrMutation => Some(Inv.Xattr)
    case _ => None
  }

  function KindForRequest(payload: RequestPayload): Option<Inv.InvalidationKind> {
    if Truncates(payload) then Some(Inv.Modify)
    else KindForEffect(SpecFor(RequestOperation(payload)).effect)
  }

  function OrEmpty(path: Option<Path>): string {
    if path.Some? then path.value else ""
  }

  function Announcement(request: RequestEnvelope, payload: ResponsePayload, kind: Inv.InvalidationKind, sequence: nat)
    : Invalidation
  {
    var inode := if CreatedInode(payload).Some? then CreatedInode(payload).value else 0;
    if request.payload.RenameRequest? then
      Inv.Invalidation(request.namespace, sequence, kind.WireValue(), "",
        OrEmpty(request.payload.oldPath), OrEmpty(request.payload.newPath), inode, request.requestId)
    else
      Inv.Invalidation(request.namespace, sequence, kind.WireValue(),
        OrEmpty(PrimaryPath(request.payload)), "", "", inode, request.requestId)
  }

  // Sequence numbers.

  type Counters = map<string, nat>

  function NextFor(next: Counters, namespace: string): nat {
    if namespace in next then next[namespace] else 1
  }

  // One dispatch, with the parts of the environment it consults.

  datatype Limits = Limits(envelope: nat, read: nat, write: nat, entries: nat, xattr: nat, target: nat)

  datatype Metadata = Metadata(requestId: string, namespace: string, payloadLen: nat)

  datatype ServedCall = ServedCall(
    request: RequestEnvelope,
    metadata: Metadata,
    now: nat,
    denied: Option<Errno>,                        // the authorizer's verdict
    handler: Result<ResponsePayload, Errno>)      // what the filesystem service answers

  function LimitError(limits: Limits, request: RequestPayload, payloadLen: nat): Option<Errno> {
    if payloadLen > limits.envelope then Some(MESSAGE_TOO_LARGE)
    else match request
      case ReadRequest(_, size) => if size > limits.read then Some(NO_BUFFER_SPACE) else None
      case WriteRequest(_, data) => if |data| > limits.write then Some(MESSAGE_TOO_LARGE) else None
      case ReaddirRequest(_, max) => if max > limits.entries then Some(NO_BUFFER_SPACE) else None
      case GetxattrRequest(_, _, size) => if size > limits.xattr then Some(NO_BUFFER_SPACE) else None
      case ListxattrRequest(_, size) => if size > limits.xattr then Some(NO_BUFFER_SPACE) else None
      case SetxattrRequest(_, _, value) => if |value| > limits.xattr then Some(MESSAGE_TOO_LARGE) else None
      case SymlinkRequest(_, target) => if |target| > limits.target then Some(MESSAGE_TOO_LARGE) else None
      case _ => None
  }

  predicate Expired(request: RequestEnvelope, now: nat) {
    request.deadline != 0 && request.deadline <= now
  }

  /** Why the handler is not called, if it is not. */
  function Rejection(limits: Limits, call: ServedCall): Option<Errno> {
    if !ValidRequestEnvelope(call.request) then Some(INVALID_ARGUMENT)
    else if call.metadata.requestId != call.request.requestId then Some(INVALID_ARGUMENT)
    else if call.metadata.namespace != call.request.namespace then Some(INVALID_ARGUMENT)
    else if Expired(call.request, call.now) then Some(TIMED_OUT)
    else if LimitError(limits, call.request.payload, call.metadata.payloadLen).Some?
      then LimitError(limits, call.request.payload, call.metadata.payloadLen)
    else call.denied
  }

  /** The handler is called, succeeds, and answers what the request asked for. */
  predicate Succeeds(limits: Limits, call: ServedCall) {
    && Rejection(limits, call).None?
    && call.handler.Ok?
    && ValidResponseFor(call.handler.value, call.request.payload)
  }

  predicate Announced(limits: Limits, call: ServedCall) {
    Succeeds(limits, call) && KindForRequest(call.request.payload).Some?
  }

  // The same, said of the call without the order in which the dispatcher tests it.

  /** The request carries more than the server takes. */
  predicate SendsTooMuch(limits: Limits, call: ServedCall) {
    var payload := call.request.payload;
    || call.metadata.payloadLen > limits.envelope
    || (payload.WriteRequest? && |payload.data| > limits.write)
    || (payload.SetxattrRequest? && |payload.value| > limits.xattr)
    || (payload.SymlinkRequest? && |payload.target| > limits.target)
  }

  /** The request asks for more than the server gives. */
  predicate AsksTooMuch(limits: Limits, payload: RequestPayload) {
    || (payload.ReadRequest? && payload.size > limits.read)
    || (payload.ReaddirRequest? && payload.maxEntries > limits.entries)
    || (payload.GetxattrRequest? && payload.size > limits.xattr)
    || (payload.ListxattrRequest? && payload.size > limits.xattr)
  }

  predicate WellAddressed(call: ServedCall) {
    && ValidRequestEnvelope(call.request)
    && call.metadata.requestId == call.request.requestId && call.metadata.namespace == call.request.namespace
  }

  predicate InTime(call: ServedCall) {
    call.request.deadline == 0 || call.now < call.request.deadline
  }

  /** Nothing speaks against the call, and the service answers what was asked. */
  predicate Answerable(limits: Limits, call: ServedCall) {
    && WellAddressed(call) && InTime(call)
    && !SendsTooMuch(limits, call) && !AsksTooMuch(limits, call.request.payload)
    && call.denied.None?
    && call.handler.Ok? && ValidResponseFor(call.handler.value, call.request.payload)
  }

  /** The error of a call that is not answerable: that of the first thing against it. */
  function Refusal(limits: Limits, call: ServedCall): Errno {
    if !WellAddressed(call) then INVALID_ARGUMENT
    else if !InTime(call) then TIMED_OUT
    else if SendsTooMuch(limits, call) then MESSAGE_TOO_LARGE
    else if AsksTooMuch(limits, call.request.payload) then NO_BUFFER_SPACE
    else if call.denied.Some? then call.denied.value
    else if call.handler.Err? then call.handler.error
    else INVALID_ARGUMENT
  }

  class Dispatcher {
    const limits: Limits
    var next: Counters

    constructor (limits: Limits)
      ensures next == map[] && this.limits == limits
    {
      this.limits := limits;
      next := map[];
    }

    method NextInvalidationSequence(namespace: string) returns (sequence: nat)
      modifies this
      ensures sequence == NextFor(old(next), namespace)
      ensures next == old(next)[namespace := sequence + 1]
    {
      if namespace !in next {
        next := next[namespace := 1];
      }
      sequence := next[namespace];
      next := next[namespace := sequence + 1];
    }

    method InvalidationsForSuccess(request: RequestEnvelope, payload: ResponsePayload)
      returns (invalidations: seq<Invalidation>)
      modifies this
      ensures KindForRequest(request.payload).None? ==> invalidations == [] && next == old(next)
      ensures KindForRequest(request.payload).Some? ==>
                var sequence := NextFor(old(next), request.namespace);
                && invalidations == [Announcement(request, payload, KindForRequest(request.payload).value, sequence)]
                && next == old(next)[request.namespace := sequence + 1]
    {
      match KindForRequest(request.payload)
      case None =>
        return [];
      case Some(kind) =>
        var sequence := NextInvalidationSequence(request.namespace);
        return [Announcement(request, payload, kind, sequence)];
    }

    /** A number is taken from this namespace's counter exactly when the response is a success
        that carries it; every other counter stays, and every response passes its own checks. The
        response is a success exactly for answerable calls; a refusal moves no counter. */
    method Dispatch(call: ServedCall) returns (response: ResponseEnvelope)
      modifies this
      ensures response == Response(limits, old(next), call)
      ensures next == if Announced(limits, call) then Advance(old(next), call.request.namespace) else old(next)
      ensures response.ok <==> Answerable(limits, call)
      ensures response.ok ==> response.payload == Some(call.handler.value)
      ensures !response.ok ==> next == old(next) && response.invalidations == []
    {
      OkIff(limits, next, call);
      match Rejection(limits, call)
      case Some(errno) =>
        return FailureFor(call.request, errno);
      case None =>
        match call.handler
        case Err(errno) =>
          return FailureFor(call.request, errno);
        case Ok(payload) =>
          if !ValidResponseFor(payload, call.request.payload) {
            return FailureFor(call.request, INVALID_ARGUMENT);
          }
          var invalidations := InvalidationsForSuccess(call.request, payload);
          if KindForRequest(call.request.payload).Some? {
            AnnouncementValid(call.request, payload, NextFor(old(next), call.request.namespace));
          }
          var success := SuccessFor(call.request, payload, invalidations);
          match success
          case Some(envelope) =>
            return envelope;
          case None =>
            // Unreachable: everything that `success_for` checks has been established.
            assert false;
            return FailureFor(call.request, INVALID_ARGUMENT);
    }

    method FullResync(namespace: string, requestId: string) returns (inv: Invalidation)
      modifies this
      ensures inv == Inv.FullResyncInvalidation(namespace, requestId, NextFor(old(next), namespace))
      ensures next == Advance(old(next), namespace)
    {
      var sequence := NextInvalidationSequence(namespace);
      return Inv.FullResyncInvalidation(namespace, requestId, sequence);
    }
  }

  function Advance(next: Counters, namespace: string): Counters {
    next[namespace := NextFor(next, namespace) + 1]
  }

  /** The invalidations a success carries. */
  function Carried(next: Counters, request: RequestEnvelope, payload: ResponsePayload): seq<Invalidation> {
    match KindForRequest(request.payload)
    case None => []
    case Some(kind) => [Announcement(request, payload, kind, NextFor(next, request.namespace))]
  }

  function Response(limits: Limits, next: Counters, call: ServedCall): ResponseEnvelope {
    if Succeeds(limits, call) then
      ResponseEnvelope(PROTOCOL_VERSION, call.request.requestId, call.request.operation,
        call.request.namespace, call.request.deadline, true, None, Some(call.handler.value),
        Carried(next, call.request, call.handler.value))
    else
      var errno := match Rejection(limits, call)
        case Some(e) => e
        case None => if call.handler.Err? then call.handler.error else INVALID_ARGUMENT;
      FailureFor(call.request, errno)
  }

  /** The response is a success exactly when nothing speaks against the call; a refusal carries the
      error of the first thing that does, the authorizer's own if it is only the denial. */
  lemma OkIff(limits: Limits, next: Counters, call: ServedCall)
    ensures var response := Response(limits, next, call);
            && (response.ok <==> Answerable(limits, call))
            && response.deadline == call.request.deadline
            && (response.ok ==> response.payload == Some(call.handler.value) && response.errno.None?)
            && (!response.ok ==>
                  && !Announced(limits, call) && response.payload.None? && response.invalidations == []
                  && var refusal := Refusal(limits, call);
                     response.errno == Some(if refusal == SUCCESS then INVALID_ARGUMENT else refusal))
  {
    LimitsMet(limits, call);
  }

  /** A call against which only the authorizer speaks is refused with the authorizer's error. */
  lemma DeniedOnly(limits: Limits, next: Counters, call: ServedCall)
    requires call.denied.Some? && call.denied.value != SUCCESS && Answerable(limits, call.(denied := None))
    ensures Response(limits, next, call) == FailureFor(call.request, call.denied.value)
    ensures Response(limits, next, call).errno == call.denied && !Announced(limits, call)
  {
    OkIff(limits, next, call);
    LimitsMet(limits, call);
  }

  lemma LimitsMet(limits: Limits, call: ServedCall)
    ensures LimitError(limits, call.request.payload, call.metadata.payloadLen)
         == if SendsTooMuch(limits, call) then Some(MESSAGE_TOO_LARGE)
            else if AsksTooMuch(limits, call.request.payload) then Some(NO_BUFFER_SPACE) else None
  {
  }

  /** The table's policy for a path: any valid path, or any but the root. */
  predicate MeetsPolicy(path: Option<Path>, policy: RootPolicy) {
    if policy == Any then ValidPathField(path) else ValidNonRootField(path)
  }

  predicate RolesMet(payload: RequestPayload) {
    forall i :: 0 <= i < |SpecFor(RequestOperation(payload)).pathRoles| ==> RoleMet(payload, i)
  }

  predicate RoleMet(payload: RequestPayload, i: nat)
    requires i < |SpecFor(RequestOperation(payload)).pathRoles|
  {
    var spec := SpecFor(RequestOperation(payload)).pathRoles[i];
    MeetsPolicy(PathForRole(payload, spec.role), spec.root)
  }

  /** Requests of which nothing but the paths is checked. */
  predicate PathsOnly(payload: RequestPayload) {
    match payload
    case OpenRequest(_, _, _) => false
    case RenameRequest(_, _) => false
    case GetxattrRequest(_, _, _) => false
    case SetxattrRequest(_, _, _) => false
    case RemovexattrRequest(_, _) => false
    case SymlinkRequest(_, _) => false
    case HardlinkRequest(_, _) => false
    case SetattrRequest(_, _, _, _, _) => false
    case GetlkRequest(_, _, _, _) => false
    case SetlkRequest(_, _, _, _) => false
    case FlockRequest(_, _) => false
    case CopyFileRangeRequest(_, _, _, _, _, _) => false
    case FallocateRequest(_, _, _, _) => false
    case LseekRequest(_, _, _) => false
    case _ => true
  }

  /** A valid request meets the table's root policy in every path role, and a request that has
      nothing else to check is valid exactly then. */
  lemma ValidRequestMeetsRoles(payload: RequestPayload)
    ensures ValidRequest(payload) ==> RolesMet(payload)
    ensures PathsOnly(payload) ==> (ValidRequest(payload) <==> RolesMet(payload))
  {
    if ValidRequest(payload) {
      forall i | 0 <= i < |SpecFor(RequestOperation(payload)).pathRoles|
        ensures RoleMet(payload, i)
      {
        ValidRequestMeetsEach(payload, i);
      }
    }
    if PathsOnly(payload) {
      TargetPolicy(payload);
      assert RolesMet(payload) ==> RoleMet(payload, 0);
    }
  }

  lemma ValidRequestMeetsEach(payload: RequestPayload, i: nat)
    requires ValidRequest(payload) && i < |SpecFor(RequestOperation(payload)).pathRoles|
    ensures RoleMet(payload, i)
  {
    if PathsOnly(payload) {
      TargetPolicy(payload);
    }
  }

  /** A request with nothing else to check has one path, in the target role. */
  lemma TargetPolicy(payload: RequestPayload)
    requires PathsOnly(payload)
    ensures var roles := SpecFor(RequestOperation(payload)).pathRoles;
            && |roles| == 1 && roles[0].role == Target
            && (ValidRequest(payload) <==> MeetsPolicy(PathForRole(payload, Target), roles[0].root))
  {
  }

  /** The operation table and the request checks agree: what is announced as a creation or a
      removal has a non-root primary path, every other announcement a valid one. */
  lemma AnnouncedPaths(payload: RequestPayload)
    requires ValidRequest(payload) && KindForRequest(payload).Some?
    ensures var kind := KindForRequest(payload).value;
            && kind != Inv.FullResync
            && (kind == Inv.Rename <==> payload.RenameRequest?)
            && (kind == Inv.Create || kind == Inv.Delete ==> ValidNonRootField(PrimaryPath(payload)))
            && (kind != Inv.Rename ==> ValidPathField(PrimaryPath(payload)))
  {
    AnnouncedKind(payload);
    if payload.CreateRequest? || payload.MkdirRequest? || payload.SymlinkRequest? || payload.HardlinkRequest?
       || payload.UnlinkRequest? || payload.RmdirRequest? {
      NamedPath(payload);
    } else if !payload.RenameRequest? {
      UpdatedPath(payload);
    }
  }

  lemma AnnouncedKind(payload: RequestPayload)
    requires KindForRequest(payload).Some?
    ensures var kind := KindForRequest(payload).value;
            && kind != Inv.FullResync
            && (kind == Inv.Rename <==> payload.RenameRequest?)
            && (kind == Inv.Create <==> payload.CreateRequest? || payload.MkdirRequest? || payload.SymlinkRequest?
                                        || payload.HardlinkRequest?)
            && (kind == Inv.Delete <==> payload.UnlinkRequest? || payload.RmdirRequest?)
  {
  }

  lemma NamedPath(payload: RequestPayload)
    requires ValidRequest(payload)
    requires payload.CreateRequest? || payload.MkdirRequest? || payload.SymlinkRequest? || payload.HardlinkRequest?
             || payload.UnlinkRequest? || payload.RmdirRequest?
    ensures ValidNonRootField(PrimaryPath(payload))
  {
  }

  lemma UpdatedPath(payload: RequestPayload)
    requires ValidRequest(payload) && !payload.RenameRequest? && KindForRequest(payload).Some?
    ensures ValidPathField(PrimaryPath(payload))
  {
  }

  lemma AnnouncementValid(request: RequestEnvelope, payload: ResponsePayload, sequence: nat)
    requires ValidRequestEnvelope(request) && KindForRequest(request.payload).Some?
    ensures Inv.ValidInvalidation(Announcement(request, payload, KindForRequest(request.payload).value, sequence))
  {
    AnnouncedPaths(request.payload);
    var kind := KindForRequest(request.payload).value;
    assert Inv.KindOf(kind.WireValue()) == Some(kind);
  }

  /** Once a number has been taken, `success_for` cannot fail. */
  lemma SuccessNeverRefused(limits: Limits, next: Counters, call: ServedCall)
    requires Succeeds(limits, call)
    ensures SuccessFor(call.request, call.handler.value, Carried(next, call.request, call.handler.value))
         == Some(Response(limits, next, call))
  {
    if KindForRequest(call.request.payload).Some? {
      AnnouncementValid(call.request, call.handler.value, NextFor(next, call.request.namespace));
    }
  }
}
