/** Request and response envelopes: `fs-protocol/src/envelope.rs`. Trace, caller, observations
    and error texts are not modelled. */
module Envelopes {
  import opened Wrappers
  import opened Operations
  import opened Payloads
  import opened Invalidations

  const PROTOCOL_VERSION: nat := 2

  type Errno = int
  const SUCCESS: Errno := 0
  const INVALID_ARGUMENT: Errno := 22
  const MESSAGE_TOO_LARGE: Errno := 90
  const NO_BUFFER_SPACE: Errno := 105
  const TIMED_OUT: Errno := 110

  datatype RequestEnvelope = RequestEnvelope(
    protocolVersion: nat,
    requestId: string,
    operation: Operation,
    namespace: string,
    deadline: nat,
    payload: RequestPayload)

  predicate ValidRequestEnvelope(request: RequestEnvelope) {
    && request.protocolVersion == PROTOCOL_VERSION
    && request.requestId != "" && request.namespace != ""
    && request.operation == RequestOperation(request.payload)
    && ValidRequest(request.payload)
  }

  datatype ResponseEnvelope = ResponseEnvelope(
    protocolVersion: nat,
    requestId: string,
    operation: Operation,
    namespace: string,
    deadline: nat,
    ok: bool,
    errno: Option<Errno>,
    payload: Option<ResponsePayload>,
    invalidations: seq<Invalidation>)

  predicate ValidIdentityAndPayload(response: ResponseEnvelope) {
    && response.protocolVersion == PROTOCOL_VERSION
    && response.requestId != "" && response.namespace != ""
    && (if response.ok then
          && response.errno.None?
          && response.payload.Some?
          && ResponseOperation(response.payload.value) == response.operation
          && ValidResponse(response.payload.value)
        else response.payload.None? && response.errno.Some? && response.errno.value > 0)
  }

  predicate ValidIdentityAndPayloadFor(response: ResponseEnvelope, request: RequestEnvelope) {
    && ValidRequestEnvelope(request)
    && ValidIdentityAndPayload(response)
    && response.requestId == request.requestId
    && response.namespace == request.namespace
    && response.operation == request.operation
    && (response.payload.Some? ==> ValidResponseFor(response.payload.value, request.payload))
  }

  predicate ValidInvalidations(invalidations: seq<Invalidation>) {
    forall inv :: inv in invalidations ==> ValidInvalidation(inv)
  }

  predicate ValidFor(response: ResponseEnvelope, request: RequestEnvelope) {
    ValidIdentityAndPayloadFor(response, request) && ValidInvalidations(response.invalidations)
  }

  /** `success_for`: the checked success, or nothing when a check fails. */
  function SuccessFor(request: RequestEnvelope, payload: ResponsePayload, invalidations: seq<Invalidation>)
    : (response: Option<ResponseEnvelope>)
    ensures response.Some? ==> response.value.ok && ValidFor(response.value, request)
    ensures response.Some? ==>
              response.value.invalidations == invalidations && response.value.payload == Some(payload)
  {
    if !ValidRequestEnvelope(request) || request.operation != ResponseOperation(payload)
       || !ValidResponseFor(payload, request.payload)
    then None
    else
      var envelope := ResponseEnvelope(PROTOCOL_VERSION, request.requestId, request.operation,
        request.namespace, request.deadline, true, None, Some(payload), invalidations);
      if ValidFor(envelope, request) then Some(envelope) else None
  }

  function FailureFor(request: RequestEnvelope, errno: Errno): ResponseEnvelope {
    ResponseEnvelope(
      PROTOCOL_VERSION,
      if request.requestId == "" then "malformed-request" else request.requestId,
      request.operation,
      if request.namespace == "" then "malformed-namespace" else request.namespace,
      request.deadline, false, Some(if errno == SUCCESS then INVALID_ARGUMENT else errno), None, [])
  }
}
