/** No sequence number is leaked: over every run of the dispatcher, each namespace's issued
    invalidations are numbered 1, 2, 3, ... without gap or repetition. */
module SequenceNumbers {
  import opened Wrappers
  import opened Dispatching
  import Inv = Invalidations

  datatype ServerEvent =
    | Serve(call: ServedCall)
    | ExternalResync(namespace: string, requestId: string)

  function CountersAfter(limits: Limits, next: Counters, e: ServerEvent): Counters {
    match e
    case Serve(call) => if Announced(limits, call) then Advance(next, call.request.namespace) else next
    case ExternalResync(namespace, _) => Advance(next, namespace)
  }

  /** What leaves the dispatcher: the invalidations of the response, whatever its status. */
  function IssuedBy(limits: Limits, next: Counters, e: ServerEvent): seq<Inv.Invalidation> {
    match e
    case Serve(call) => Response(limits, next, call).invalidations
    case ExternalResync(namespace, requestId) =>
      [Inv.FullResyncInvalidation(namespace, requestId, NextFor(next, namespace))]
  }

  function Counted(limits: Limits, events: seq<ServerEvent>): Counters {
    if events == [] then map[]
    else CountersAfter(limits, Counted(limits, events[..|events| - 1]), events[|events| - 1])
  }

  function Issued(limits: Limits, events: seq<ServerEvent>): seq<Inv.Invalidation> {
    if events == [] then []
    else
      var init := events[..|events| - 1];
      Issued(limits, init) + IssuedBy(limits, Counted(limits, init), events[|events| - 1])
  }

  lemma {:induction false} NoNumberLeaked(limits: Limits, events: seq<ServerEvent>, namespace: string)
    ensures var own := Inv.OfNamespace(Issued(limits, events), namespace);
            Inv.Consecutive(own, 1) && NextFor(Counted(limits, events), namespace) == |own| + 1
  {
    if events == [] {
    } else {
      var init, e := events[..|events| - 1], events[|events| - 1];
      NoNumberLeaked(limits, init, namespace);
      var next := Counted(limits, init);
      Inv.OfNamespaceConcat(Issued(limits, init), IssuedBy(limits, next, e), namespace);
      OneEventIssues(limits, next, e, namespace);
    }
  }

  /** One event issues at most one invalidation, with the next number of its namespace, and
      advances exactly that namespace's counter. */
  lemma OneEventIssues(limits: Limits, next: Counters, e: ServerEvent, namespace: string)
    ensures var own := Inv.OfNamespace(IssuedBy(limits, next, e), namespace);
            && |own| <= 1 && Inv.Consecutive(own, NextFor(next, namespace))
            && NextFor(CountersAfter(limits, next, e), namespace) == NextFor(next, namespace) + |own|
  {
    var issued := IssuedBy(limits, next, e);
    assert |issued| <= 1;
    if |issued| == 1 {
      assert issued[..0] == [];
    }
  }

  /** Everything issued in a namespace with a name is a valid invalidation. */
  lemma {:induction false} IssuedValid(limits: Limits, events: seq<ServerEvent>)
    requires forall e :: e in events && e.ExternalResync? ==> e.namespace != ""
    ensures Envelopes.ValidInvalidations(Issued(limits, events))
  {
    if events == [] {
    } else {
      var init, e := events[..|events| - 1], events[|events| - 1];
      assert e in events;
      IssuedValid(limits, init);
      EventValid(limits, Counted(limits, init), e);
    }
  }

  lemma EventValid(limits: Limits, next: Counters, e: ServerEvent)
    requires e.ExternalResync? ==> e.namespace != ""
    ensures Envelopes.ValidInvalidations(IssuedBy(limits, next, e))
  {
    if e.Serve? && Announced(limits, e.call) {
      AnnouncementValid(e.call.request, e.call.handler.value, NextFor(next, e.call.request.namespace));
    } else if e.ExternalResync? {
      assert Inv.FullResyncInvalidation(e.namespace, e.requestId, 0).Kind() == Some(Inv.FullResync);
    }
  }
}
