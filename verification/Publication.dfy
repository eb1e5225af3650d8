/** Publication of invalidations by concurrent message workers, as a state machine: the namespace
    lock (`NamespaceLocks` in `fabricfs-transport/src/policy.rs`) is held from before the dispatch
    until after the delivery (`fabricfs-transport/src/server.rs`). */
module Publication {
  import opened Dispatching
  import opened SequenceNumbers
  import Inv = Invalidations

  datatype Phase =
    | Entered(call: ServedCall)
    | Delivering(namespace: string, unsent: seq<Invalidation>)
  {
    function Namespace(): string {
      match this
      case Entered(call) => call.request.namespace
      case Delivering(namespace, _) => namespace
    }
  }

  datatype State = State(
    next: Counters,
    active: set<string>,
    workers: map<nat, Phase>,
    broadcasts: seq<Invalidation>)

  const Start: State := State(map[], {}, map[], [])

  datatype Event =
    | Enter(worker: nat, call: ServedCall)
    | Dispatch(worker: nat)
    | DispatchLost(worker: nat)                    // dispatched, but the response could not be framed
    | Publish(worker: nat)
    | PublishFails(worker: nat, reached: bool)     // the bytes may have reached the broker
    | Leave(worker: nat)

  predicate Fails(e: Event) {
    e.DispatchLost? || e.PublishFails?
  }

  function Gone(s: State, worker: nat): State
    requires worker in s.workers
  {
    s.(active := s.active - {s.workers[worker].Namespace()}, workers := s.workers - {worker})
  }

  predicate CanPublish(s: State, worker: nat) {
    worker in s.workers && s.workers[worker].Delivering? && s.workers[worker].unsent != []
  }

  function Published(s: State, worker: nat): State
    requires CanPublish(s, worker)
  {
    var unsent := s.workers[worker].unsent;
    s.(broadcasts := s.broadcasts + [unsent[0]],
       workers := s.workers[worker := Delivering(s.workers[worker].namespace, unsent[1..])])
  }

  function PublishFailed(s: State, worker: nat, reached: bool): State
    requires CanPublish(s, worker)
  {
    Gone(s, worker).(broadcasts := s.broadcasts + if reached then [s.workers[worker].unsent[0]] else [])
  }

  function Step(limits: Limits, s: State, e: Event): State {
    match e
    case Enter(w, call) =>
      if w !in s.workers && call.request.namespace !in s.active
      then s.(active := s.active + {call.request.namespace}, workers := s.workers[w := Entered(call)]) else s
    case Dispatch(w) =>
      if w in s.workers && s.workers[w].Entered? then
        var call := s.workers[w].call;
        s.(next := CountersAfter(limits, s.next, Serve(call)),
           workers := s.workers[w := Delivering(call.request.namespace, IssuedBy(limits, s.next, Serve(call)))])
      else s
    case DispatchLost(w) =>
      if w in s.workers && s.workers[w].Entered?
      then Gone(s, w).(next := CountersAfter(limits, s.next, Serve(s.workers[w].call))) else s
    case Publish(w) =>
      if CanPublish(s, w) then Published(s, w) else s
    case PublishFails(w, reached) =>
      if CanPublish(s, w) then PublishFailed(s, w, reached) else s
    case Leave(w) =>
      if w in s.workers && s.workers[w].Delivering? && s.workers[w].unsent == [] then Gone(s, w) else s
  }

  function Run(limits: Limits, events: seq<Event>): State {
    if events == [] then Start else Step(limits, Run(limits, events[..|events| - 1]), events[|events| - 1])
  }

  // Mutual exclusion.

  predicate Holds(s: State, w: nat, namespace: string) {
    w in s.workers && s.workers[w].Namespace() == namespace
  }

  /** A namespace is locked while a worker is inside it, and there is only one. */
  ghost predicate Exclusive(s: State) {
    && (forall w :: w in s.workers ==> s.workers[w].Namespace() in s.active)
    && (forall v, w, n :: Holds(s, v, n) && Holds(s, w, n) ==> v == w)
    && (forall w :: w in s.workers ==> OwnOnly(s.workers[w]))
  }

  /** A worker publishes only for the namespace it holds. */
  predicate OwnOnly(phase: Phase) {
    phase.Delivering? ==> forall inv :: inv in phase.unsent ==> inv.namespace == phase.namespace
  }

  lemma StepKeepsExclusive(limits: Limits, s: State, e: Event)
    requires Exclusive(s)
    ensures Exclusive(Step(limits, s, e))
  {
    var t := Step(limits, s, e);
    forall v, n | Holds(t, v, n)
      ensures n in t.active && (Holds(s, v, n) || (e.Enter? && v == e.worker && n !in s.active))
    {
      if e.worker in s.workers {
        assert Holds(s, e.worker, s.workers[e.worker].Namespace());
      }
      if v in s.workers {
        assert Holds(s, v, s.workers[v].Namespace());
      }
    }
    forall w | w in t.workers
      ensures t.workers[w].Namespace() in t.active && OwnOnly(t.workers[w])
    {
      assert Holds(t, w, t.workers[w].Namespace());
      assert w in s.workers ==> OwnOnly(s.workers[w]);
    }
    assert forall v, n :: Holds(s, v, n) ==> n in s.active;
  }

  // Numbers in flight.

  predicate StrictlyIncreasing(invs: seq<Invalidation>) {
    forall i, j :: 0 <= i < j < |invs| ==> invs[i].sequence < invs[j].sequence
  }

  predicate AllBelow(invs: seq<Invalidation>, bound: nat) {
    forall i :: 0 <= i < |invs| ==> invs[i].sequence < bound
  }

  /** What worker `w` has still to publish for `namespace`. */
  function InFlight(s: State, w: nat, namespace: string): seq<Invalidation> {
    if w in s.workers && s.workers[w].Delivering? && s.workers[w].namespace == namespace then s.workers[w].unsent
    else []
  }

  /** It is at most one invalidation, the one with the newest number. */
  predicate Newest(s: State, w: nat, namespace: string) {
    var unsent := InFlight(s, w, namespace);
    |unsent| <= 1 &&
    (unsent != [] ==>
      && unsent[0].namespace == namespace && Inv.ValidInvalidation(unsent[0])
      && unsent[0].sequence + 1 == NextFor(s.next, namespace)
      && AllBelow(Inv.OfNamespace(s.broadcasts, namespace), unsent[0].sequence))
  }

  ghost predicate Ordered(s: State, namespace: string) {
    && StrictlyIncreasing(Inv.OfNamespace(s.broadcasts, namespace))
    && AllBelow(Inv.OfNamespace(s.broadcasts, namespace), NextFor(s.next, namespace))
    && (forall w :: Newest(s, w, namespace))
    && (forall inv :: inv in s.broadcasts && inv.namespace == namespace ==> Inv.ValidInvalidation(inv))
  }

  /** In every interleaving, failures included, a namespace's broadcasts leave in strictly
      increasing order, and every one of them is valid. */
  lemma {:induction false} OrderedAlways(limits: Limits, events: seq<Event>, namespace: string)
    ensures Exclusive(Run(limits, events)) && Ordered(Run(limits, events), namespace)
  {
    if events == [] {
    } else {
      var init, e := events[..|events| - 1], events[|events| - 1];
      OrderedAlways(limits, init, namespace);
      var s := Run(limits, init);
      StepKeepsExclusive(limits, s, e);
      StepKeepsOrdered(limits, s, e, namespace);
    }
  }

  lemma StepKeepsOrdered(limits: Limits, s: State, e: Event, namespace: string)
    requires Exclusive(s) && Ordered(s, namespace)
    ensures Ordered(Step(limits, s, e), namespace)
  {
    match e
    case Dispatch(w) => NumbersStep(limits, s, e, namespace);
    case DispatchLost(w) => NumbersStep(limits, s, e, namespace);
    case Publish(w) =>
      if CanPublish(s, w) {
        PublishingStep(s, Published(s, w), w, [s.workers[w].unsent[0]], namespace);
      }
    case PublishFails(w, reached) =>
      if CanPublish(s, w) {
        var sent := if reached then [s.workers[w].unsent[0]] else [];
        PublishingStep(s, PublishFailed(s, w, reached), w, sent, namespace);
      }
    case _ => QuietStep(limits, s, e, namespace);
  }

  lemma QuietStep(limits: Limits, s: State, e: Event, namespace: string)
    requires Ordered(s, namespace) && (e.Enter? || e.Leave?)
    ensures Ordered(Step(limits, s, e), namespace)
  {
    forall w
      ensures Newest(Step(limits, s, e), w, namespace)
    {
      assert Newest(s, w, namespace);
    }
  }

  /** A dispatch takes the next number, if any, for the namespace its worker holds. */
  lemma NumbersStep(limits: Limits, s: State, e: Event, namespace: string)
    requires Exclusive(s) && Ordered(s, namespace) && (e.Dispatch? || e.DispatchLost?)
    ensures Ordered(Step(limits, s, e), namespace)
  {
    var t := Step(limits, s, e);
    if e.worker in s.workers && s.workers[e.worker].Entered? {
      var call := s.workers[e.worker].call;
      var issued := IssuedBy(limits, s.next, Serve(call));
      IssuedNext(limits, s.next, call, namespace);
      assert Holds(s, e.worker, call.request.namespace);
      forall w
        ensures Newest(t, w, namespace)
      {
        assert Newest(s, w, namespace);
        assert InFlight(s, w, namespace) != [] ==> Holds(s, w, namespace);
        assert InFlight(t, w, namespace) == InFlight(s, w, namespace)
            || (InFlight(t, w, namespace) == issued && call.request.namespace == namespace)
            || InFlight(t, w, namespace) == [];
      }
    }
  }

  /** What a dispatch issues: at most one valid invalidation with the next number. */
  lemma IssuedNext(limits: Limits, next: Counters, call: ServedCall, namespace: string)
    ensures var issued := IssuedBy(limits, next, Serve(call));
            var next' := CountersAfter(limits, next, Serve(call));
            && |issued| <= 1
            && (issued != [] ==>
                  && Inv.ValidInvalidation(issued[0]) && issued[0].namespace == call.request.namespace
                  && issued[0].sequence == NextFor(next, call.request.namespace))
            && NextFor(next', namespace)
               == NextFor(next, namespace) + if call.request.namespace == namespace then |issued| else 0
  {
    EventValid(limits, next, Serve(call));
    var issued := IssuedBy(limits, next, Serve(call));
    assert issued != [] ==> issued[0] in issued;
  }

  /** A worker tries to publish: what got out is `sent`, and at most the rest is still in flight. */
  lemma PublishingStep(s: State, t: State, worker: nat, sent: seq<Invalidation>, namespace: string)
    requires Exclusive(s) && Ordered(s, namespace) && CanPublish(s, worker)
    requires t.next == s.next && t.broadcasts == s.broadcasts + sent
    requires |sent| <= 1 && forall x :: x in sent ==> x == s.workers[worker].unsent[0]
    requires forall w :: w != worker ==> InFlight(t, w, namespace) == InFlight(s, w, namespace)
    requires InFlight(s, worker, namespace) != [] ==>
               || InFlight(t, worker, namespace) == []
               || InFlight(t, worker, namespace) == InFlight(s, worker, namespace)[1..]
    requires InFlight(s, worker, namespace) == [] ==> InFlight(t, worker, namespace) == []
    ensures Ordered(t, namespace)
  {
    var unsent := s.workers[worker].unsent;
    assert OwnOnly(s.workers[worker]) && unsent[0] in unsent;
    if unsent[0].namespace == namespace {
      assert Newest(s, worker, namespace);
      OwnPublishing(s, t, worker, namespace, sent);
    } else {
      OtherPublishing(s, t, namespace, sent);
    }
  }

  lemma OtherPublishing(s: State, t: State, namespace: string, sent: seq<Invalidation>)
    requires Ordered(s, namespace) && t.next == s.next && t.broadcasts == s.broadcasts + sent
    requires |sent| <= 1 && forall x :: x in sent ==> x.namespace != namespace
    requires forall w :: InFlight(t, w, namespace) == InFlight(s, w, namespace)
    ensures Ordered(t, namespace)
  {
    Inv.OfNamespaceConcat(s.broadcasts, sent, namespace);
    assert sent != [] ==> sent[0] in sent && Inv.OfNamespace(sent[..0], namespace) == [];
    forall w
      ensures Newest(t, w, namespace)
    {
      assert Newest(s, w, namespace);
    }
  }

  /** The one worker inside the namespace publishes, or tries to. */
  lemma OwnPublishing(s: State, t: State, worker: nat, namespace: string, sent: seq<Invalidation>)
    requires Exclusive(s) && Ordered(s, namespace)
    requires InFlight(s, worker, namespace) != []
    requires t.next == s.next && t.broadcasts == s.broadcasts + sent
    requires |sent| <= 1 && forall x :: x in sent ==> x == InFlight(s, worker, namespace)[0]
    requires forall w :: w != worker ==> InFlight(t, w, namespace) == InFlight(s, w, namespace)
    requires InFlight(t, worker, namespace) == []
    ensures Ordered(t, namespace)
  {
    assert Newest(s, worker, namespace) && Holds(s, worker, namespace);
    var own := Inv.OfNamespace(s.broadcasts, namespace);
    Inv.OfNamespaceConcat(s.broadcasts, sent, namespace);
    AppendNewest(own, sent, InFlight(s, worker, namespace)[0], namespace);
    forall w
      ensures Newest(t, w, namespace)
    {
      assert InFlight(s, w, namespace) != [] ==> Holds(s, w, namespace);
    }
  }

  lemma AppendNewest(own: seq<Invalidation>, sent: seq<Invalidation>, newest: Invalidation, namespace: string)
    requires StrictlyIncreasing(own) && AllBelow(own, newest.sequence) && newest.namespace == namespace
    requires |sent| <= 1 && forall x :: x in sent ==> x == newest
    ensures Inv.OfNamespace(sent, namespace) == sent
    ensures StrictlyIncreasing(own + sent) && AllBelow(own + sent, newest.sequence + 1)
  {
    if sent != [] {
      assert sent[0] in sent && sent == [newest] && sent[..0] == [];
    }
  }

  // Runs in which nothing fails.

  ghost predicate Idle(s: State, namespace: string) {
    forall w :: InFlight(s, w, namespace) == []
  }

  /** Every number handed out has been broadcast, except the one in flight. */
  ghost predicate Complete(s: State, namespace: string) {
    var own := Inv.OfNamespace(s.broadcasts, namespace);
    && Inv.Consecutive(own, 1)
    && (Idle(s, namespace) ==> NextFor(s.next, namespace) == |own| + 1)
    && (!Idle(s, namespace) ==> NextFor(s.next, namespace) == |own| + 2)
  }

  /** As long as nothing fails, a namespace's broadcasts are numbered exactly 1, 2, 3, … */
  lemma {:induction false} CompleteAlways(limits: Limits, events: seq<Event>, namespace: string)
    requires forall e :: e in events ==> !Fails(e)
    ensures Complete(Run(limits, events), namespace)
  {
    if events == [] {
    } else {
      var init, e := events[..|events| - 1], events[|events| - 1];
      assert e in events;
      CompleteAlways(limits, init, namespace);
      OrderedAlways(limits, init, namespace);
      StepKeepsComplete(limits, Run(limits, init), e, namespace);
    }
  }

  lemma StepKeepsComplete(limits: Limits, s: State, e: Event, namespace: string)
    requires Exclusive(s) && Ordered(s, namespace) && Complete(s, namespace) && !Fails(e)
    ensures Complete(Step(limits, s, e), namespace)
  {
    var t := Step(limits, s, e);
    match e
    case Dispatch(w) =>
      if w in s.workers && s.workers[w].Entered? {
        DispatchKeepsComplete(limits, s, w, namespace);
      }
    case Publish(w) =>
      if CanPublish(s, w) {
        PublishKeepsComplete(s, w, namespace);
      }
    case Enter(_, _) =>
      assert forall v :: InFlight(t, v, namespace) == InFlight(s, v, namespace);
    case Leave(_) =>
      assert forall v :: InFlight(t, v, namespace) == InFlight(s, v, namespace);
    case DispatchLost(_) =>
    case PublishFails(_, _) =>
  }

  lemma DispatchKeepsComplete(limits: Limits, s: State, w: nat, namespace: string)
    requires Exclusive(s) && Complete(s, namespace) && w in s.workers && s.workers[w].Entered?
    ensures Complete(Step(limits, s, Dispatch(w)), namespace)
  {
    var t := Step(limits, s, Dispatch(w));
    assert forall v :: v != w ==> InFlight(t, v, namespace) == InFlight(s, v, namespace);
    var call := s.workers[w].call;
    if call.request.namespace == namespace {
      assert Holds(s, w, namespace);
      assert forall v :: InFlight(s, v, namespace) != [] ==> Holds(s, v, namespace);
      assert Idle(s, namespace);
      assert InFlight(t, w, namespace) == IssuedBy(limits, s.next, Serve(call));
    }
    IssuedNext(limits, s.next, call, namespace);
  }

  lemma PublishKeepsComplete(s: State, w: nat, namespace: string)
    requires Exclusive(s) && Ordered(s, namespace) && Complete(s, namespace) && CanPublish(s, w)
    ensures Complete(Published(s, w), namespace)
  {
    var t := Published(s, w);
    var inv := s.workers[w].unsent[0];
    assert OwnOnly(s.workers[w]) && inv in s.workers[w].unsent;
    assert t.broadcasts[..|s.broadcasts|] == s.broadcasts;
    if inv.namespace == namespace {
      OwnPublished(s, t, w, namespace);
    } else {
      assert forall v :: InFlight(t, v, namespace) == InFlight(s, v, namespace);
    }
  }

  lemma OwnPublished(s: State, t: State, w: nat, namespace: string)
    requires Exclusive(s) && Newest(s, w, namespace) && Complete(s, namespace)
    requires InFlight(s, w, namespace) != [] && InFlight(t, w, namespace) == InFlight(s, w, namespace)[1..]
    requires forall v :: v != w ==> InFlight(t, v, namespace) == InFlight(s, v, namespace)
    requires t.next == s.next
    requires Inv.OfNamespace(t.broadcasts, namespace)
          == Inv.OfNamespace(s.broadcasts, namespace) + [InFlight(s, w, namespace)[0]]
    ensures Complete(t, namespace)
  {
    NowIdle(s, t, w, namespace);
  }

  /** Once the one worker inside has nothing left, nothing is in flight. */
  lemma NowIdle(s: State, t: State, w: nat, namespace: string)
    requires Exclusive(s) && InFlight(s, w, namespace) != [] && InFlight(t, w, namespace) == []
    requires forall v :: v != w ==> InFlight(t, v, namespace) == InFlight(s, v, namespace)
    ensures !Idle(s, namespace) && Idle(t, namespace)
  {
    assert Holds(s, w, namespace);
    assert forall v :: InFlight(s, v, namespace) != [] ==> Holds(s, v, namespace);
  }
}
