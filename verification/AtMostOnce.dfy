/** From the caller's publications to the handler's executions. */
module AtMostOnce {
  import opened Admission
  import opened Sequences

  predicate Arrived(events: seq<Event>, m: Message) {
    exists e :: e in events && e.Receive? && e.message == m
  }

  /** Nothing is dispatched that did not arrive. */
  lemma {:induction false} HandledArrived(maxTtl: nat, events: seq<Event>)
    ensures var s := Run(maxTtl, events);
            && (forall w :: w in s.workers ==> Arrived(events, s.workers[w].message))
            && (forall m :: m in s.executions ==> Arrived(events, m))
  {
    if events == [] {
    } else {
      var init, e := events[..|events| - 1], events[|events| - 1];
      HandledArrived(maxTtl, init);
      assert events == init + [e];
      forall m | Arrived(init, m)
        ensures Arrived(events, m)
      {
        var r :| r in init && r.Receive? && r.message == m;
        assert r in events;
      }
      assert e.Receive? ==> e in events && Arrived(events, e.message);
    }
  }

  function ExecutionsOf(executions: seq<Message>, requestId: string): (own: seq<Message>)
    ensures forall m :: m in own <==> m in executions && m.requestId == requestId
  {
    if executions == [] then []
    else
      var own := ExecutionsOf(executions[..|executions| - 1], requestId);
      var last := executions[|executions| - 1];
      if last.requestId == requestId then own + [last] else own
  }

  lemma {:induction false} OwnNoRepeats(executions: seq<Message>, requestId: string)
    requires NoRepeats(executions)
    ensures NoRepeats(ExecutionsOf(executions, requestId))
  {
    if executions == [] {
    } else {
      OwnNoRepeats(executions[..|executions| - 1], requestId);
      assert executions[|executions| - 1] !in executions[..|executions| - 1];
    }
  }

  /** The handler runs at most once for each message that was published, whatever the broker
      repeats, delays or loses. */
  lemma ExecutedAtMostAsPublished(maxTtl: nat, events: seq<Event>, requestId: string, published: seq<Message>)
    requires forall m :: Arrived(events, m) && m.requestId == requestId ==> m in published
    ensures |ExecutionsOf(Run(maxTtl, events).executions, requestId)| <= |published|
  {
    var executions := Run(maxTtl, events).executions;
    SafeAlways(maxTtl, events);
    HandledArrived(maxTtl, events);
    OwnNoRepeats(executions, requestId);
    Pigeonhole(ExecutionsOf(executions, requestId), Elements(published));
    FewElements(published);
  }
}
