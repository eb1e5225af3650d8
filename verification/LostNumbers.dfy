/** Where every sequence number went when dispatches and publishes fail: out to the observers, still
    in flight, or lost by a failure, and never two of these. */
module LostNumbers {
  import opened Dispatching
  import opened SequenceNumbers
  import opened Publication
  import Inv = Invalidations

  predicate IsOut(s: State, namespace: string, n: nat) {
    exists i :: 0 <= i < |s.broadcasts| && s.broadcasts[i].namespace == namespace && s.broadcasts[i].sequence == n
  }

  predicate FliesWith(s: State, w: nat, namespace: string, n: nat) {
    InFlight(s, w, namespace) != [] && InFlight(s, w, namespace)[0].sequence == n
  }

  predicate IsFlying(s: State, namespace: string, n: nat) {
    exists w :: w in s.workers && FliesWith(s, w, namespace, n)
  }

  /** The event loses number `n`: its response could not be framed, or its publish failed before
      the bytes reached the broker. */
  predicate Loses(limits: Limits, s: State, e: Event, namespace: string, n: nat) {
    match e
    case DispatchLost(w) =>
      && w in s.workers && s.workers[w].Entered? && s.workers[w].call.request.namespace == namespace
      && Announced(limits, s.workers[w].call) && n == NextFor(s.next, namespace)
    case PublishFails(w, reached) => !reached && FliesWith(s, w, namespace, n)
    case _ => false
  }

  predicate IsLost(limits: Limits, events: seq<Event>, namespace: string, n: nat) {
    events != [] &&
    var init, e := events[..|events| - 1], events[|events| - 1];
    IsLost(limits, init, namespace, n) || Loses(limits, Run(limits, init), e, namespace, n)
  }

  /** Exactly the numbers handed out are accounted for, each once. */
  predicate Accounted(s: State, namespace: string, n: nat, lost: bool) {
    && 1 <= NextFor(s.next, namespace)
    && (1 <= n < NextFor(s.next, namespace) <==> IsOut(s, namespace, n) || IsFlying(s, namespace, n) || lost)
    && !(IsOut(s, namespace, n) && IsFlying(s, namespace, n))
    && !(IsOut(s, namespace, n) && lost) && !(IsFlying(s, namespace, n) && lost)
  }

  /** In every run, failures included: each number a namespace has handed out is broadcast, in
      flight, or lost by one of the failures, and no number is two of these. */
  lemma {:induction false} EveryNumberAccounted(limits: Limits, events: seq<Event>, namespace: string, n: nat)
    ensures Accounted(Run(limits, events), namespace, n, IsLost(limits, events, namespace, n))
  {
    if events == [] {
    } else {
      var init, e := events[..|events| - 1], events[|events| - 1];
      EveryNumberAccounted(limits, init, namespace, n);
      OrderedAlways(limits, init, namespace);
      StepAccounts(limits, Run(limits, init), e, namespace, n, IsLost(limits, init, namespace, n));
    }
  }

  lemma StepAccounts(limits: Limits, s: State, e: Event, namespace: string, n: nat, lost: bool)
    requires Exclusive(s) && Ordered(s, namespace) && Accounted(s, namespace, n, lost)
    ensures Accounted(Step(limits, s, e), namespace, n, lost || Loses(limits, s, e, namespace, n))
  {
    match e
    case Dispatch(w) => DispatchAccounts(limits, s, w, namespace, n, lost);
    case DispatchLost(w) => LossAccounts(limits, s, w, namespace, n, lost);
    case Publish(w) => TryAccounts(limits, s, e, namespace, n, lost);
    case PublishFails(w, reached) => TryAccounts(limits, s, e, namespace, n, lost);
    case _ => QuietAccounts(s, Step(limits, s, e), namespace, n, lost);
  }

  lemma TryAccounts(limits: Limits, s: State, e: Event, namespace: string, n: nat, lost: bool)
    requires Exclusive(s) && Ordered(s, namespace) && Accounted(s, namespace, n, lost)
    requires e.Publish? || e.PublishFails?
    ensures Accounted(Step(limits, s, e), namespace, n, lost || Loses(limits, s, e, namespace, n))
  {
    if CanPublish(s, e.worker) {
      PublishAccounts(s, Step(limits, s, e), e.worker, e.Publish? || e.reached, namespace, n, lost);
    }
  }

  lemma QuietAccounts(s: State, t: State, namespace: string, n: nat, lost: bool)
    requires Accounted(s, namespace, n, lost) && t.broadcasts == s.broadcasts
    requires NextFor(t.next, namespace) == NextFor(s.next, namespace)
    requires forall w :: InFlight(t, w, namespace) == InFlight(s, w, namespace)
    ensures Accounted(t, namespace, n, lost)
  {
    SameFlying(s, t, namespace, n);
  }

  /** Nothing was in flight for the namespace of a worker that has not dispatched yet. */
  lemma NothingFlies(s: State, w: nat, namespace: string, n: nat)
    requires Exclusive(s) && Holds(s, w, namespace) && s.workers[w].Entered?
    ensures !IsFlying(s, namespace, n)
  {
    assert forall v :: InFlight(s, v, namespace) != [] ==> Holds(s, v, namespace);
  }

  lemma DispatchAccounts(limits: Limits, s: State, w: nat, namespace: string, n: nat, lost: bool)
    requires Exclusive(s) && Accounted(s, namespace, n, lost)
    ensures Accounted(Step(limits, s, Dispatch(w)), namespace, n, lost)
  {
    var t := Step(limits, s, Dispatch(w));
    if w in s.workers && s.workers[w].Entered? {
      var call := s.workers[w].call;
      IssuedNext(limits, s.next, call, namespace);
      TakesOff(s, t, w, IssuedBy(limits, s.next, Serve(call)), namespace, n, lost);
    }
  }

  lemma TakesOff(s: State, t: State, w: nat, issued: seq<Invalidation>, namespace: string, n: nat, lost: bool)
    requires Exclusive(s) && Accounted(s, namespace, n, lost) && w in s.workers && s.workers[w].Entered?
    requires t.broadcasts == s.broadcasts && |issued| <= 1
    requires var own := s.workers[w].Namespace();
             && t.workers == s.workers[w := Delivering(own, issued)]
             && (issued != [] ==> issued[0].sequence == NextFor(s.next, own))
             && NextFor(t.next, namespace) == NextFor(s.next, namespace) + if own == namespace then |issued| else 0
    ensures Accounted(t, namespace, n, lost)
  {
    assert forall v :: v != w ==> InFlight(t, v, namespace) == InFlight(s, v, namespace);
    if s.workers[w].Namespace() == namespace {
      assert Holds(s, w, namespace);
      NothingFlies(s, w, namespace, n);
      assert forall v :: v in s.workers ==> !FliesWith(s, v, namespace, n);
      assert InFlight(t, w, namespace) == issued;
      assert FliesWith(t, w, namespace, n) <==> issued != [] && n == NextFor(s.next, namespace);
      assert IsFlying(t, namespace, n) <==> FliesWith(t, w, namespace, n);
    } else {
      QuietAccounts(s, t, namespace, n, lost);
    }
  }

  lemma LossAccounts(limits: Limits, s: State, w: nat, namespace: string, n: nat, lost: bool)
    requires Exclusive(s) && Accounted(s, namespace, n, lost)
    ensures var e := DispatchLost(w);
            Accounted(Step(limits, s, e), namespace, n, lost || Loses(limits, s, e, namespace, n))
  {
    var t := Step(limits, s, DispatchLost(w));
    if w in s.workers && s.workers[w].Entered? {
      var call := s.workers[w].call;
      IssuedNext(limits, s.next, call, namespace);
      IssuedIffAnnounced(limits, s.next, call);
      var takes := call.request.namespace == namespace && Announced(limits, call);
      LostAtOnce(s, t, w, takes, namespace, n, lost);
    }
  }

  lemma LostAtOnce(s: State, t: State, w: nat, takes: bool, namespace: string, n: nat, lost: bool)
    requires Exclusive(s) && Accounted(s, namespace, n, lost) && w in s.workers && s.workers[w].Entered?
    requires t.broadcasts == s.broadcasts && t.workers == s.workers - {w}
    requires takes ==> s.workers[w].Namespace() == namespace
    requires NextFor(t.next, namespace) == NextFor(s.next, namespace) + if takes then 1 else 0
    ensures Accounted(t, namespace, n, lost || (takes && n == NextFor(s.next, namespace)))
  {
    SameFlying(s, t, namespace, n);
    if takes {
      NothingFlies(s, w, namespace, n);
    }
  }

  lemma IssuedIffAnnounced(limits: Limits, next: Counters, call: ServedCall)
    ensures IssuedBy(limits, next, Serve(call)) != [] <==> Announced(limits, call)
  {
  }

  /** A worker publishes, or tries to and is gone. */
  lemma PublishAccounts(s: State, t: State, w: nat, out: bool, namespace: string, n: nat, lost: bool)
    requires Exclusive(s) && Ordered(s, namespace) && Accounted(s, namespace, n, lost) && CanPublish(s, w)
    requires t.next == s.next && t.broadcasts == s.broadcasts + if out then [s.workers[w].unsent[0]] else []
    requires forall v :: v != w ==> InFlight(t, v, namespace) == InFlight(s, v, namespace)
    requires InFlight(s, w, namespace) == [] ==> InFlight(t, w, namespace) == []
    requires InFlight(t, w, namespace) == [] || InFlight(t, w, namespace) == InFlight(s, w, namespace)[1..]
    ensures Accounted(t, namespace, n, lost || (!out && FliesWith(s, w, namespace, n)))
  {
    var inv := s.workers[w].unsent[0];
    assert OwnOnly(s.workers[w]) && inv in s.workers[w].unsent;
    OutAfter(s, t, if out then [inv] else [], namespace, n);
    if inv.namespace == namespace {
      assert Newest(s, w, namespace) && Holds(s, w, namespace);
      OnlyOneFlies(s, t, w, namespace, n);
    } else {
      SameFlying(s, t, namespace, n);
    }
  }

  lemma OutAfter(s: State, t: State, sent: seq<Invalidation>, namespace: string, n: nat)
    requires t.broadcasts == s.broadcasts + sent && |sent| <= 1
    ensures IsOut(t, namespace, n)
            <==> IsOut(s, namespace, n) || (sent != [] && sent[0].namespace == namespace && sent[0].sequence == n)
  {
    if IsOut(s, namespace, n) {
      var i :| 0 <= i < |s.broadcasts| && s.broadcasts[i].namespace == namespace && s.broadcasts[i].sequence == n;
      assert t.broadcasts[i] == s.broadcasts[i];
    }
    if sent != [] {
      assert t.broadcasts[|s.broadcasts|] == sent[0];
    }
  }

  lemma SameFlying(s: State, t: State, namespace: string, n: nat)
    requires forall w :: InFlight(t, w, namespace) == InFlight(s, w, namespace)
    ensures IsFlying(t, namespace, n) <==> IsFlying(s, namespace, n)
  {
    assert forall w :: FliesWith(t, w, namespace, n) <==> FliesWith(s, w, namespace, n);
    if IsFlying(s, namespace, n) {
      var w :| w in s.workers && FliesWith(s, w, namespace, n);
      assert w in t.workers && FliesWith(t, w, namespace, n);
    }
  }

  /** What the holder of a namespace had in flight was all there was. */
  lemma OnlyOneFlies(s: State, t: State, w: nat, namespace: string, n: nat)
    requires Exclusive(s) && InFlight(s, w, namespace) != [] && InFlight(t, w, namespace) == []
    requires forall v :: v != w ==> InFlight(t, v, namespace) == InFlight(s, v, namespace)
    ensures IsFlying(s, namespace, n) <==> InFlight(s, w, namespace)[0].sequence == n
    ensures !IsFlying(t, namespace, n)
  {
    NowIdle(s, t, w, namespace);
    assert Holds(s, w, namespace);
    assert forall v :: InFlight(s, v, namespace) != [] ==> Holds(s, v, namespace);
    assert FliesWith(s, w, namespace, n) <==> InFlight(s, w, namespace)[0].sequence == n;
  }
}
