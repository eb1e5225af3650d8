/** What the replay filter does over whole runs. */
module ReplayFilterRuns {
  import opened Invalidations
  import opened ReplayFilter
  import opened Sequences

  datatype Event =
    | Begun(id: string)
    | Completed(id: string)
    | Abandoned(id: string)
    | Received(inv: Invalidation)
    | Drained(namespace: string)

  function Step(f: Filter, e: Event): Filter {
    match e
    case Begun(id) => f.Begin(id)
    case Completed(id) => f.Complete(id)
    case Abandoned(id) => f.Abandon(id)
    case Received(inv) => f.Handle(inv).0
    case Drained(namespace) => f.Take(namespace).0
  }

  function Run(events: seq<Event>): Filter {
    Continue(EmptyFilter, events)
  }

  function Continue(f: Filter, events: seq<Event>): Filter {
    if events == [] then f else Step(Continue(f, events[..|events| - 1]), events[|events| - 1])
  }

  lemma {:induction false} RunContinues(a: seq<Event>, b: seq<Event>)
    ensures Run(a + b) == Continue(Run(a), b)
  {
    if b == [] {
      assert a + b == a;
    } else {
      assert (a + b)[..|a + b| - 1] == a + b[..|b| - 1];
      RunContinues(a, b[..|b| - 1]);
    }
  }

  lemma {:induction false} ConsistentAlways(events: seq<Event>)
    ensures Run(events).Consistent()
  {
    if events == [] {
    } else {
      var init := events[..|events| - 1];
      ConsistentAlways(init);
      StepKeepsConsistent(Run(init), events[|events| - 1]);
    }
  }

  lemma StepKeepsConsistent(f: Filter, e: Event)
    requires f.Consistent()
    ensures Step(f, e).Consistent()
  {
    match e
    case Begun(id) => BeginKeepsConsistent(f, id);
    case Completed(id) => CompleteKeepsConsistent(f, id);
    case _ =>
  }

  // Conservation.

  /** What an event lets through to the client. */
  function DeliveredBy(f: Filter, e: Event): seq<Invalidation> {
    match e
    case Received(inv) => if f.Handle(inv).1.Some? then [inv] else []
    case Drained(namespace) => f.Take(namespace).1
    case _ => []
  }

  /** What an event suppresses for good: an echo of a completed request. */
  function DroppedBy(f: Filter, e: Event): seq<Invalidation> {
    match e
    case Received(inv) => if inv.requestId in f.completed then [inv] else []
    case Completed(id) => f.Deferred(id)
    case _ => []
  }

  function Arrivals(events: seq<Event>): seq<Invalidation> {
    if events == [] then []
    else
      var e := events[|events| - 1];
      Arrivals(events[..|events| - 1]) + if e.Received? then [e.inv] else []
  }

  function Delivered(events: seq<Event>): seq<Invalidation> {
    if events == [] then []
    else
      var init := events[..|events| - 1];
      Delivered(init) + DeliveredBy(Run(init), events[|events| - 1])
  }

  function Dropped(events: seq<Event>): seq<Invalidation> {
    if events == [] then []
    else
      var init := events[..|events| - 1];
      Dropped(init) + DroppedBy(Run(init), events[|events| - 1])
  }

  function Held(f: Filter, x: Invalidation): nat {
    multiset(f.Deferred(x.requestId))[x] + multiset(f.recovered)[x]
  }

  /** Every received invalidation has been delivered, has been dropped as the echo of a completed
      request, or is still held back: none is lost and none is multiplied. */
  lemma {:induction false} Conservation(events: seq<Event>, x: Invalidation)
    ensures multiset(Arrivals(events))[x]
         == multiset(Delivered(events))[x] + multiset(Dropped(events))[x] + Held(Run(events), x)
  {
    if events == [] {
    } else {
      var init, e := events[..|events| - 1], events[|events| - 1];
      Conservation(init, x);
      ConsistentAlways(init);
      OneEventConserves(Run(init), e, x);
    }
  }

  lemma OneEventConserves(f: Filter, e: Event, x: Invalidation)
    requires f.Consistent()
    ensures Held(f, x) + (if e == Received(x) then 1 else 0)
         == Held(Step(f, e), x) + multiset(DeliveredBy(f, e))[x] + multiset(DroppedBy(f, e))[x]
  {
    match e
    case Begun(_) =>
    case Completed(id) => ClosingConserves(f, id, x);
    case Abandoned(id) => ClosingConserves(f, id, x);
    case Received(inv) => ReceivingConserves(f, inv, x);
    case Drained(namespace) => SplitLosesNothing(f.recovered, namespace, x);
  }

  lemma ClosingConserves(f: Filter, id: string, x: Invalidation)
    requires f.Consistent()
    ensures Held(f, x) == Held(f.Complete(id), x) + multiset(f.Deferred(id))[x]
    ensures Held(f, x) == Held(f.Abandon(id), x)
  {
    NotAmong(f, id, x);
  }

  lemma ReceivingConserves(f: Filter, inv: Invalidation, x: Invalidation)
    requires f.Consistent()
    ensures Held(f, x) + (if inv == x then 1 else 0)
         == Held(f.Handle(inv).0, x) + (if inv == x && inv.requestId !in f.pending then 1 else 0)
  {
  }

  lemma NotAmong(f: Filter, id: string, x: Invalidation)
    requires f.Consistent()
    ensures x.requestId != id ==> multiset(f.Deferred(id))[x] == 0
  {
    assert x in f.Deferred(id) ==> x.requestId == id;
  }

  /** Only echoes of requests that this client completed are ever dropped. */
  lemma {:induction false} OnlyCompletedDropped(events: seq<Event>, x: Invalidation)
    requires x in Dropped(events)
    ensures x.requestId != "" && Completed(x.requestId) in events
  {
    var init, e := events[..|events| - 1], events[|events| - 1];
    if x in Dropped(init) {
      OnlyCompletedDropped(init, x);
    } else {
      ConsistentAlways(init);
      if e.Received? {
        CompletedById(init, x.requestId);
      }
    }
  }

  lemma {:induction false} CompletedById(events: seq<Event>, id: string)
    requires id in Run(events).completed
    ensures Completed(id) in events
  {
    var init, e := events[..|events| - 1], events[|events| - 1];
    if id in Run(init).completed {
      CompletedById(init, id);
    } else if e.Completed? {
      ConsistentAlways(init);
      CompletesOne(Run(init), e.id, id);
    }
  }

  lemma CompletesOne(f: Filter, id: string, x: string)
    requires f.Consistent() && x in f.Complete(id).completed
    ensures x == id || x in f.completed
  {
    assert x in f.order + [id];
  }

  // Recovery in order, against a reference that never looks at the filter.

  predicate Pending(events: seq<Event>, id: string) {
    events != [] &&
    match events[|events| - 1]
    case Begun(i) => (i == id && id != "") || Pending(events[..|events| - 1], id)
    case Completed(i) => i != id && Pending(events[..|events| - 1], id)
    case Abandoned(i) => i != id && Pending(events[..|events| - 1], id)
    case _ => Pending(events[..|events| - 1], id)
  }

  /** What arrived for `id` while it was pending, in order. */
  function Waiting(events: seq<Event>, id: string): seq<Invalidation> {
    if events == [] then []
    else
      var init := events[..|events| - 1];
      match events[|events| - 1]
      case Received(inv) =>
        if inv.requestId == id && Pending(init, id) then Waiting(init, id) + [inv] else Waiting(init, id)
      case Completed(i) => if i == id then [] else Waiting(init, id)
      case Abandoned(i) => if i == id then [] else Waiting(init, id)
      case _ => Waiting(init, id)
  }

  /** What abandoned requests had waiting, request by request. */
  function Rescued(events: seq<Event>): seq<Invalidation> {
    if events == [] then []
    else
      var init, e := events[..|events| - 1], events[|events| - 1];
      Rescued(init) + if e.Abandoned? then Waiting(init, e.id) else []
  }

  function TakenFor(events: seq<Event>, namespace: string): seq<Invalidation> {
    if events == [] then []
    else
      var init, e := events[..|events| - 1], events[|events| - 1];
      TakenFor(init, namespace) + if e == Drained(namespace) then Run(init).Take(namespace).1 else []
  }

  lemma {:induction false} HoldsWhatWaits(events: seq<Event>, id: string)
    ensures id in Run(events).pending <==> Pending(events, id)
    ensures Run(events).Deferred(id) == Waiting(events, id)
  {
    if events == [] {
    } else {
      var init := events[..|events| - 1];
      HoldsWhatWaits(init, id);
      ConsistentAlways(init);
    }
  }

  /** What abandoned requests had waiting comes out once, in arrival order, namespace by
      namespace: drains have taken a prefix of it and the filter still holds the rest. */
  lemma {:induction false} RescuedInOrder(events: seq<Event>, namespace: string)
    ensures OfNamespace(Rescued(events), namespace)
         == TakenFor(events, namespace) + OfNamespace(Run(events).recovered, namespace)
  {
    if events == [] {
    } else {
      var init, e := events[..|events| - 1], events[|events| - 1];
      RescuedInOrder(init, namespace);
      RescuedNext(init, e, namespace);
      RecoveredChanges(Run(init), e, namespace);
      assert events == init + [e];
      var taken, held := TakenFor(init, namespace), OfNamespace(Run(init).recovered, namespace);
      if e.Abandoned? {
        Associative(taken, held, OfNamespace(Run(init).Deferred(e.id), namespace));
      }
      TakenNext(init, e, namespace);
    }
  }

  lemma TakenNext(init: seq<Event>, e: Event, namespace: string)
    ensures TakenFor(init + [e], namespace)
         == if e == Drained(namespace) then TakenFor(init, namespace) + OfNamespace(Run(init).recovered, namespace)
            else TakenFor(init, namespace)
  {
    assert (init + [e])[..|init|] == init;
  }

  lemma RescuedNext(init: seq<Event>, e: Event, namespace: string)
    ensures OfNamespace(Rescued(init + [e]), namespace)
         == OfNamespace(Rescued(init), namespace)
            + if e.Abandoned? then OfNamespace(Run(init).Deferred(e.id), namespace) else []
  {
    assert (init + [e])[..|init|] == init;
    if e.Abandoned? {
      HoldsWhatWaits(init, e.id);
      OfNamespaceConcat(Rescued(init), Waiting(init, e.id), namespace);
    } else {
      assert Rescued(init + [e]) == Rescued(init);
    }
  }

  /** What an event does to the recovered invalidations of a namespace. */
  lemma RecoveredChanges(f: Filter, e: Event, namespace: string)
    ensures OfNamespace(Step(f, e).recovered, namespace)
         == if e.Abandoned? then OfNamespace(f.recovered, namespace) + OfNamespace(f.Deferred(e.id), namespace)
            else if e == Drained(namespace) then [] else OfNamespace(f.recovered, namespace)
  {
    match e
    case Abandoned(id) => OfNamespaceConcat(f.recovered, f.Deferred(id), namespace);
    case Drained(other) => SplitKeepsOrder(f.recovered, other, namespace);
    case _ =>
  }

  /** Once its namespace is drained nothing rescued is left behind. */
  lemma DrainEmpties(events: seq<Event>, namespace: string)
    ensures TakenFor(events + [Drained(namespace)], namespace) == OfNamespace(Rescued(events), namespace)
  {
    RescuedInOrder(events, namespace);
    assert (events + [Drained(namespace)])[..|events|] == events;
  }

  // The window of completed ids.

  /** `id` is among the newest `n + 1` entries. */
  predicate Recent(order: seq<string>, id: string, n: nat) {
    exists p :: 0 <= p < |order| && order[p] == id && |order| - p <= n + 1
  }

  function Completions(events: seq<Event>): nat {
    if events == [] then 0
    else Completions(events[..|events| - 1]) + if events[|events| - 1].Completed? then 1 else 0
  }

  /** An id completed while pending is suppressed through the next 1023 completions, unless it is
      begun again. */
  lemma StaysSuppressed(before: seq<Event>, id: string, after: seq<Event>)
    requires Pending(before, id) && Begun(id) !in after && Completions(after) < MAX_OWN_REQUEST_IDS
    ensures id in Run(before + [Completed(id)] + after).completed
  {
    var f := Run(before + [Completed(id)]);
    JustCompleted(before, id);
    ConsistentAlways(before + [Completed(id)]);
    AgesByCompletions(f, id, after);
    RunContinues(before + [Completed(id)], after);
    ConsistentAlways(before + [Completed(id)] + after);
    InOrder(Run(before + [Completed(id)] + after), id, Completions(after));
  }

  /** The echo of an own request is not delivered while the request is pending, nor through the
      next 1023 completions after its own. */
  lemma EchoNotDelivered(before: seq<Event>, inv: Invalidation, after: seq<Event>)
    requires Pending(before, inv.requestId) && Begun(inv.requestId) !in after
    requires Completions(after) < MAX_OWN_REQUEST_IDS
    ensures DeliveredBy(Run(before), Received(inv)) == []
    ensures DeliveredBy(Run(before + [Completed(inv.requestId)] + after), Received(inv)) == []
  {
    HoldsWhatWaits(before, inv.requestId);
    ConsistentAlways(before);
    StaysSuppressed(before, inv.requestId, after);
    ConsistentAlways(before + [Completed(inv.requestId)] + after);
  }

  lemma InOrder(f: Filter, id: string, n: nat)
    requires f.Consistent() && Recent(f.order, id, n)
    ensures id in f.completed
  {
    assert id in f.order;
  }

  lemma {:induction false} AgesByCompletions(f: Filter, id: string, after: seq<Event>)
    requires f.Consistent() && Recent(f.order, id, 0)
    requires Begun(id) !in after && Completions(after) < MAX_OWN_REQUEST_IDS
    ensures Continue(f, after).Consistent()
    ensures Recent(Continue(f, after).order, id, Completions(after))
  {
    if after == [] {
    } else {
      var init, e := after[..|after| - 1], after[|after| - 1];
      assert e in after;
      AgesByCompletions(f, id, init);
      StepKeepsConsistent(Continue(f, init), e);
      StaysRecent(Continue(f, init), e, id, Completions(init));
    }
  }

  lemma JustCompleted(before: seq<Event>, id: string)
    requires Pending(before, id)
    ensures Recent(Run(before + [Completed(id)]).order, id, 0)
  {
    HoldsWhatWaits(before, id);
    ConsistentAlways(before);
    assert (before + [Completed(id)])[..|before|] == before;
    var order := Run(before).Complete(id).order;
    assert order[|order| - 1] == id;
  }

  lemma StaysRecent(f: Filter, e: Event, id: string, n: nat)
    requires f.Consistent() && Recent(f.order, id, n) && e != Begun(id)
    requires e.Completed? ==> n + 1 < MAX_OWN_REQUEST_IDS
    ensures Recent(Step(f, e).order, id, if e.Completed? then n + 1 else n)
  {
    var p :| 0 <= p < |f.order| && f.order[p] == id && |f.order| - p <= n + 1;
    match e
    case Begun(other) => RecentWithout(f.order, id, n, other);
    case Completed(other) => RecentAfterCompletion(f, other, id, n);
    case _ =>
      assert Step(f, e).order[p] == id;
  }

  lemma RecentAfterCompletion(f: Filter, other: string, id: string, n: nat)
    requires Recent(f.order, id, n) && n + 1 < MAX_OWN_REQUEST_IDS
    ensures Recent(f.Complete(other).order, id, n + 1)
  {
    var p :| 0 <= p < |f.order| && f.order[p] == id && |f.order| - p <= n + 1;
    RecentInWindow(f.order + [other], id, n + 1, p);
    assert f.Complete(other).order == f.order ==> f.Complete(other).order[p] == id;
  }

  lemma RecentInWindow(order: seq<string>, id: string, n: nat, p: nat)
    requires p < |order| && order[p] == id && |order| - p <= n + 1 && n < MAX_OWN_REQUEST_IDS
    ensures Recent(Last(order, MAX_OWN_REQUEST_IDS), id, n)
  {
    var window := Last(order, MAX_OWN_REQUEST_IDS);
    assert window[p - (|order| - |window|)] == id;
  }

  lemma {:induction false} RecentWithout(order: seq<string>, id: string, n: nat, other: string)
    requires Recent(order, id, n) && other != id
    ensures Recent(Without(order, other), id, n)
  {
    var init, last := order[..|order| - 1], order[|order| - 1];
    var kept := Without(order, other);
    if last == id {
      assert kept[|kept| - 1] == id;
    } else {
      var p :| 0 <= p < |order| && order[p] == id && |order| - p <= n + 1;
      assert init[p] == id;
      RecentWithout(init, id, n - 1, other);
      var shorter := Without(init, other);
      var q :| 0 <= q < |shorter| && shorter[q] == id && |shorter| - q <= n;
      assert kept[q] == id;
    }
  }
}
