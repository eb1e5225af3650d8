/** A client that only observes: what ordered publication means at the other end of a lossless,
    order-preserving subscription. */
module Observers {
  import opened KernelState
  import opened Batches
  import Inv = Invalidations
  import Dispatching
  import P = Publication

  /** Draining in several batches is draining once. */
  lemma {:induction false} BatchesConcat(namespace: string, k: Kernel, a: seq<Inv.Invalidation>,
                                         b: seq<Inv.Invalidation>)
    ensures AfterBatch(namespace, k, a + b, true) == AfterBatch(namespace, AfterBatch(namespace, k, a, true), b, true)
  {
    if b == [] {
      assert a + b == a;
    } else {
      assert (a + b)[..|a + b| - 1] == a + b[..|b| - 1];
      BatchesConcat(namespace, k, a, b[..|b| - 1]);
    }
  }

  /** The cache follows a stream whose own part is valid and numbered 1, 2, 3, …, whatever other
      namespaces are mixed in: no entry fails and the sequence counts the own entries. */
  lemma {:induction false} FollowsStream(namespace: string, stream: seq<Inv.Invalidation>, allowBaseline: bool)
    requires Inv.Consecutive(Inv.OfNamespace(stream, namespace), 1)
    requires forall inv :: inv in stream ==> inv.namespace != ""
    requires forall inv :: inv in stream && inv.namespace == namespace ==> Inv.ValidInvalidation(inv)
    ensures var after := AfterBatch(namespace, EmptyKernel, stream, allowBaseline);
            && !after.cache.poisoned
            && after.cache.lastSequence == |Inv.OfNamespace(stream, namespace)|
            && (allowBaseline ==> forall r :: r in Outcomes(namespace, EmptyKernel, stream) ==> r.Ok?)
  {
    if stream == [] {
    } else {
      var init, inv := stream[..|stream| - 1], stream[|stream| - 1];
      var own := Inv.OfNamespace(init, namespace);
      assert own <= Inv.OfNamespace(stream, namespace);
      FollowsStream(namespace, init, allowBaseline);
      if inv.namespace == namespace {
        var all := Inv.OfNamespace(stream, namespace);
        assert all[|own|] == inv;
        NextInOrder(namespace, AfterBatch(namespace, EmptyKernel, init, allowBaseline), inv, allowBaseline);
      }
    }
  }

  /** As long as no dispatch and no publish fails on the server, an observer of a namespace that
      receives every broadcast in order is never poisoned, and its sequence is the number of
      broadcasts of its namespace. */
  lemma ObserverNeverPoisoned(limits: Dispatching.Limits, events: seq<P.Event>, namespace: string)
    requires forall e :: e in events ==> !P.Fails(e)
    ensures var stream := P.Run(limits, events).broadcasts;
            var after := AfterBatch(namespace, EmptyKernel, stream, true);
            && !after.cache.poisoned
            && after.cache.lastSequence == |Inv.OfNamespace(stream, namespace)|
            && (forall r :: r in Outcomes(namespace, EmptyKernel, stream) ==> r.Ok?)
  {
    var s := P.Run(limits, events);
    P.CompleteAlways(limits, events, namespace);
    P.OrderedAlways(limits, events, namespace);
    P.OrderedAlways(limits, events, "");
    assert forall inv :: inv in s.broadcasts ==> inv.namespace != "";
    FollowsStream(namespace, s.broadcasts, true);
  }
}
