/** The namespace lock is given back, and what is served gets out: the other side of exclusion and
    order in `Publication`. */
module LockProgress {
  import opened Dispatching
  import opened SequenceNumbers
  import opened Publication
  import ServedTree
  import Inv = Invalidations

  predicate Occupied(s: State, namespace: string) {
    exists w :: w in s.workers && Holds(s, w, namespace)
  }

  /** In every reachable state a namespace is locked if and only if a worker is inside it. */
  lemma {:induction false} LockedIffHeld(limits: Limits, events: seq<Event>, namespace: string)
    ensures namespace in Run(limits, events).active <==> Occupied(Run(limits, events), namespace)
  {
    if events == [] {
    } else {
      var init, e := events[..|events| - 1], events[|events| - 1];
      LockedIffHeld(limits, init, namespace);
      OrderedAlways(limits, init, namespace);
      StepKeepsLocks(limits, Run(limits, init), e, namespace);
    }
  }

  lemma StepKeepsLocks(limits: Limits, s: State, e: Event, namespace: string)
    requires Exclusive(s) && (namespace in s.active <==> Occupied(s, namespace))
    ensures var t := Step(limits, s, e); namespace in t.active <==> Occupied(t, namespace)
  {
    var t := Step(limits, s, e);
    forall w
      ensures Holds(t, w, namespace) ==> namespace in t.active
    {
      if e.worker in s.workers {
        assert Holds(s, e.worker, s.workers[e.worker].Namespace());
      }
      assert w in s.workers ==> Holds(s, w, s.workers[w].Namespace());
    }
    if namespace in t.active {
      if namespace in s.active {
        var w :| w in s.workers && Holds(s, w, namespace);
        assert Holds(t, w, namespace);
      } else {
        assert Holds(t, e.worker, namespace);
      }
    }
  }

  /** After any run, a new worker gets inside at once if and only if nobody holds its namespace;
      otherwise it waits and nothing changes. */
  lemma EntersIff(limits: Limits, events: seq<Event>, worker: nat, call: ServedCall)
    requires worker !in Run(limits, events).workers
    ensures var s, namespace := Run(limits, events), call.request.namespace;
            var t := Run(limits, events + [Enter(worker, call)]);
            && (worker in t.workers <==> !Occupied(s, namespace))
            && (if Occupied(s, namespace) then t == s
                else t == s.(active := s.active + {namespace}, workers := s.workers[worker := Entered(call)]))
  {
    LockedIffHeld(limits, events, call.request.namespace);
    RunAppend(limits, events, Enter(worker, call));
  }

  lemma RunAppend(limits: Limits, events: seq<Event>, e: Event)
    ensures Run(limits, events + [e]) == Step(limits, Run(limits, events), e)
  {
    assert (events + [e])[..|events|] == events;
  }

  /** A worker's way out, whatever it is doing. */
  function Finish(worker: nat): seq<Event> {
    [Dispatch(worker), Publish(worker), Leave(worker)]
  }

  /** Nobody is locked out for good: after any run the holder of a namespace can leave by its own
      steps, no other worker being touched, and then a new worker gets inside. */
  lemma HolderMakesWay(limits: Limits, events: seq<Event>, holder: nat, worker: nat, call: ServedCall)
    requires Holds(Run(limits, events), holder, call.request.namespace) && worker !in Run(limits, events).workers
    ensures var s, t := Run(limits, events), Run(limits, events + Finish(holder));
            && t.workers == s.workers - {holder} && !Occupied(t, call.request.namespace)
            && worker in Run(limits, events + Finish(holder) + [Enter(worker, call)]).workers
  {
    var namespace := call.request.namespace;
    var dispatched := events + [Dispatch(holder)];
    var published := dispatched + [Publish(holder)];
    RunAppend(limits, events, Dispatch(holder));
    RunAppend(limits, dispatched, Publish(holder));
    RunAppend(limits, published, Leave(holder));
    assert events + Finish(holder) == published + [Leave(holder)];
    OrderedAlways(limits, dispatched, namespace);
    OnePublishIsEnough(limits, Run(limits, dispatched), holder, namespace);
    OrderedAlways(limits, published, namespace);
    LockedIffHeld(limits, events + Finish(holder), namespace);
    EntersIff(limits, events + Finish(holder), worker, call);
  }

  lemma OnePublishIsEnough(limits: Limits, s: State, worker: nat, namespace: string)
    requires Ordered(s, namespace) && Holds(s, worker, namespace) && s.workers[worker].Delivering?
    ensures var t := Step(limits, Step(limits, s, Publish(worker)), Leave(worker));
            t.workers == s.workers - {worker} && namespace !in t.active
  {
    assert Newest(s, worker, namespace);
  }

  // What gets out.

  /** The calls that workers had dispatched, in order; a lost response was dispatched too. */
  function Served(limits: Limits, events: seq<Event>): seq<ServerEvent> {
    if events == [] then []
    else
      var init, e := events[..|events| - 1], events[|events| - 1];
      Served(limits, init) + ServedBy(Run(limits, init), e)
  }

  function ServedBy(s: State, e: Event): seq<ServerEvent> {
    if (e.Dispatch? || e.DispatchLost?) && e.worker in s.workers && s.workers[e.worker].Entered?
    then [Serve(s.workers[e.worker].call)] else []
  }

  /** Over every run the numbers are those of a dispatcher that served these calls one by one. */
  lemma {:induction false} CountsServed(limits: Limits, events: seq<Event>)
    ensures Run(limits, events).next == Counted(limits, Served(limits, events))
  {
    if events == [] {
    } else {
      var init, e := events[..|events| - 1], events[|events| - 1];
      CountsServed(limits, init);
      CountsOne(limits, Run(limits, init), e);
      CountedNext(limits, Served(limits, init), ServedBy(Run(limits, init), e));
    }
  }

  lemma CountsOne(limits: Limits, s: State, e: Event)
    ensures var served := ServedBy(s, e);
            Step(limits, s, e).next == if served == [] then s.next else CountersAfter(limits, s.next, served[0])
  {
  }

  lemma CountedNext(limits: Limits, earlier: seq<ServerEvent>, served: seq<ServerEvent>)
    requires |served| <= 1
    ensures Counted(limits, earlier + served)
         == if served == [] then Counted(limits, earlier)
            else CountersAfter(limits, Counted(limits, earlier), served[0])
  {
    if served == [] {
      assert earlier + served == earlier;
    } else {
      assert (earlier + served)[..|earlier|] == earlier;
    }
  }

  function IssuedFor(limits: Limits, events: seq<Event>, namespace: string): seq<Invalidation> {
    Inv.OfNamespace(Issued(limits, Served(limits, events)), namespace)
  }

  /** What an event adds to it. */
  function AddedBy(limits: Limits, s: State, e: Event, namespace: string): seq<Invalidation> {
    var served := ServedBy(s, e);
    if served == [] then [] else Inv.OfNamespace(IssuedBy(limits, s.next, served[0]), namespace)
  }

  lemma IssuedForNext(limits: Limits, init: seq<Event>, e: Event, namespace: string)
    ensures IssuedFor(limits, init + [e], namespace)
         == IssuedFor(limits, init, namespace) + AddedBy(limits, Run(limits, init), e, namespace)
  {
    var earlier, served := Served(limits, init), ServedBy(Run(limits, init), e);
    assert (init + [e])[..|init|] == init;
    assert Served(limits, init + [e]) == earlier + served;
    if served == [] {
      assert earlier + served == earlier;
    } else {
      CountsServed(limits, init);
      ServedTree.LogNext(limits, namespace, earlier, served[0]);
    }
  }

  /** What was issued has been broadcast, except for what a worker has in flight. */
  ghost predicate Outstanding(s: State, namespace: string, issued: seq<Invalidation>) {
    var own := Inv.OfNamespace(s.broadcasts, namespace);
    && (Idle(s, namespace) ==> own == issued)
    && (forall w :: InFlight(s, w, namespace) != [] ==> own + InFlight(s, w, namespace) == issued)
  }

  /** As long as nothing fails, what a namespace's observers get is exactly what the dispatcher
      issued for the served calls, in that order, up to the one in flight. */
  lemma {:induction false} BroadcastsWhatIsServed(limits: Limits, events: seq<Event>, namespace: string)
    requires forall e :: e in events ==> !Fails(e)
    ensures Outstanding(Run(limits, events), namespace, IssuedFor(limits, events, namespace))
  {
    if events == [] {
    } else {
      var init, e := events[..|events| - 1], events[|events| - 1];
      assert events == init + [e] && e in events;
      BroadcastsWhatIsServed(limits, init, namespace);
      OrderedAlways(limits, init, namespace);
      IssuedForNext(limits, init, e, namespace);
      StepKeepsOutstanding(limits, Run(limits, init), e, namespace, IssuedFor(limits, init, namespace));
    }
  }

  lemma StepKeepsOutstanding(limits: Limits, s: State, e: Event, namespace: string, issued: seq<Invalidation>)
    requires Exclusive(s) && Ordered(s, namespace) && Outstanding(s, namespace, issued) && !Fails(e)
    ensures Outstanding(Step(limits, s, e), namespace, issued + AddedBy(limits, s, e, namespace))
  {
    match e
    case Dispatch(w) => DispatchKeepsOutstanding(limits, s, w, namespace, issued);
    case Publish(w) => PublishKeepsOutstanding(limits, s, w, namespace, issued);
    case Enter(_, _) => SameInFlight(s, Step(limits, s, e), namespace, issued);
    case Leave(_) => SameInFlight(s, Step(limits, s, e), namespace, issued);
    case DispatchLost(_) =>
    case PublishFails(_, _) =>
  }

  lemma SameInFlight(s: State, t: State, namespace: string, issued: seq<Invalidation>)
    requires Outstanding(s, namespace, issued)
    requires Inv.OfNamespace(t.broadcasts, namespace) == Inv.OfNamespace(s.broadcasts, namespace)
    requires forall w :: InFlight(t, w, namespace) == InFlight(s, w, namespace)
    ensures Outstanding(t, namespace, issued + [])
  {
    assert issued + [] == issued;
  }

  lemma DispatchKeepsOutstanding(limits: Limits, s: State, w: nat, namespace: string, issued: seq<Invalidation>)
    requires Exclusive(s) && Outstanding(s, namespace, issued)
    ensures Outstanding(Step(limits, s, Dispatch(w)), namespace, issued + AddedBy(limits, s, Dispatch(w), namespace))
  {
    var t := Step(limits, s, Dispatch(w));
    if w in s.workers && s.workers[w].Entered? {
      var call := s.workers[w].call;
      OwnPart(limits, s.next, call, namespace);
      NewDelivery(s, t, w, IssuedBy(limits, s.next, Serve(call)), namespace, issued);
    } else {
      SameInFlight(s, t, namespace, issued);
    }
  }

  lemma NewDelivery(s: State, t: State, w: nat, added: seq<Invalidation>, namespace: string, issued: seq<Invalidation>)
    requires Exclusive(s) && Outstanding(s, namespace, issued) && w in s.workers && s.workers[w].Entered?
    requires t.broadcasts == s.broadcasts
    requires t.workers == s.workers[w := Delivering(s.workers[w].Namespace(), added)]
    ensures Outstanding(t, namespace, issued + if s.workers[w].Namespace() == namespace then added else [])
  {
    if s.workers[w].Namespace() == namespace {
      NewInFlight(s, t, w, namespace, issued, added);
    } else {
      SameInFlight(s, t, namespace, issued);
    }
  }

  lemma OwnPart(limits: Limits, next: Counters, call: ServedCall, namespace: string)
    ensures var issued := IssuedBy(limits, next, Serve(call));
            Inv.OfNamespace(issued, namespace) == if call.request.namespace == namespace then issued else []
  {
    IssuedNext(limits, next, call, namespace);
    var issued := IssuedBy(limits, next, Serve(call));
    assert issued != [] ==> issued == [issued[0]] && issued[..0] == [];
  }

  /** The worker inside the namespace has something new to publish. */
  lemma NewInFlight(s: State, t: State, w: nat, namespace: string, issued: seq<Invalidation>, added: seq<Invalidation>)
    requires Exclusive(s) && Outstanding(s, namespace, issued) && t.broadcasts == s.broadcasts
    requires Holds(s, w, namespace) && InFlight(s, w, namespace) == [] && InFlight(t, w, namespace) == added
    requires forall v :: v != w ==> InFlight(t, v, namespace) == InFlight(s, v, namespace)
    ensures Outstanding(t, namespace, issued + added)
  {
    assert forall v :: InFlight(s, v, namespace) != [] ==> Holds(s, v, namespace);
    assert Idle(s, namespace);
    assert added == [] ==> issued + added == issued;
  }

  lemma PublishKeepsOutstanding(limits: Limits, s: State, w: nat, namespace: string, issued: seq<Invalidation>)
    requires Exclusive(s) && Ordered(s, namespace) && Outstanding(s, namespace, issued)
    ensures Outstanding(Step(limits, s, Publish(w)), namespace, issued + [])
  {
    var t := Step(limits, s, Publish(w));
    if CanPublish(s, w) {
      var inv := s.workers[w].unsent[0];
      assert OwnOnly(s.workers[w]) && inv in s.workers[w].unsent;
      assert t.broadcasts[..|s.broadcasts|] == s.broadcasts;
      if inv.namespace == namespace {
        assert Newest(s, w, namespace) && InFlight(s, w, namespace) == [inv];
        NowBroadcast(s, t, w, namespace, issued);
      } else {
        SameInFlight(s, t, namespace, issued);
      }
    } else {
      SameInFlight(s, t, namespace, issued);
    }
  }

  /** What was in flight is out. */
  lemma NowBroadcast(s: State, t: State, w: nat, namespace: string, issued: seq<Invalidation>)
    requires Exclusive(s) && Outstanding(s, namespace, issued)
    requires InFlight(s, w, namespace) != [] && InFlight(t, w, namespace) == []
    requires forall v :: v != w ==> InFlight(t, v, namespace) == InFlight(s, v, namespace)
    requires Inv.OfNamespace(t.broadcasts, namespace)
          == Inv.OfNamespace(s.broadcasts, namespace) + InFlight(s, w, namespace)
    ensures Outstanding(t, namespace, issued + [])
  {
    NowIdle(s, t, w, namespace);
    assert issued + [] == issued;
  }
}
