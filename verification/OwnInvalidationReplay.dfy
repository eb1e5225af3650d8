/** The replay filter as the object that updates its deques, sets and maps in place. */
module OwnInvalidationReplays {
  import opened Wrappers
  import opened Invalidations
  import opened Sequences
  import opened ReplayFilter

  class OwnInvalidationReplay {
    var completedOrder: seq<string>
    var completed: set<string>
    var pending: set<string>
    var deferred: map<string, seq<Invalidation>>
    var recovered: seq<Invalidation>

    function State(): Filter
      reads this
    {
      Filter(completedOrder, completed, pending, deferred, recovered)
    }

    ghost predicate Valid()
      reads this
    {
      State().Consistent()
    }

    constructor ()
      ensures Valid() && State() == EmptyFilter
    {
      completedOrder, completed, pending, deferred, recovered := [], {}, {}, map[], [];
    }

    method Begin(id: string)
      requires Valid()
      modifies this
      ensures Valid() && State() == old(State()).Begin(id)
    {
      BeginKeepsConsistent(State(), id);
      if id == "" {
        return;
      }
      completed := completed - {id};
      completedOrder := Retain(completedOrder, id);
      pending := pending + {id};
    }

    method Complete(id: string)
      requires Valid()
      modifies this
      ensures Valid() && State() == old(State()).Complete(id)
    {
      CompleteKeepsConsistent(State(), id);
      pending := pending - {id};
      deferred := deferred - {id};
      RememberCompleted(id);
    }

    method Abandon(id: string)
      requires Valid()
      modifies this
      ensures Valid() && State() == old(State()).Abandon(id)
    {
      pending := pending - {id};
      if id in deferred {
        recovered := recovered + deferred[id];
      }
      deferred := deferred - {id};
    }

    method HandleInvalidation(inv: Invalidation) returns (delivered: Option<Invalidation>)
      requires Valid()
      modifies this
      ensures Valid() && (State(), delivered) == old(State()).Handle(inv)
    {
      var id := inv.requestId;
      if id == "" {
        return Some(inv);
      }
      if id in completed {
        return None;
      }
      if id in pending {
        var held := if id in deferred then deferred[id] else [];
        deferred := deferred[id := held + [inv]];
        return None;
      }
      return Some(inv);
    }

    method TakeRecovered(namespace: string) returns (ready: seq<Invalidation>)
      requires Valid()
      modifies this
      ensures Valid() && (State(), ready) == old(State()).Take(namespace)
    {
      ready := [];
      var retained := [];
      ghost var done := [];
      while recovered != []
        invariant State() == old(State()).(recovered := recovered)
        invariant done + recovered == old(recovered)
        invariant ready == OfNamespace(done, namespace) && retained == OfOtherNamespaces(done, namespace)
      {
        var inv := recovered[0];
        recovered := recovered[1..];
        assert (done + [inv])[..|done|] == done;
        done := done + [inv];
        if inv.namespace == namespace {
          ready := ready + [inv];
        } else {
          retained := retained + [inv];
        }
      }
      assert done == old(recovered);
      recovered := retained;
    }

    method RememberCompleted(id: string)
      requires State().completed == Elements(State().order) && NoRepeats(completedOrder)
      requires |completedOrder| <= MAX_OWN_REQUEST_IDS
      modifies this`completedOrder, this`completed
      ensures State() == old(State()).Remember(id)
    {
      if id == "" || id in completed {
        return;
      }
      ghost var longer := completedOrder + [id];
      PushBack(completedOrder, id);
      completedOrder := completedOrder + [id];
      completed := completed + {id};
      ghost var cut := 0;
      while |completedOrder| > MAX_OWN_REQUEST_IDS
        invariant 0 <= cut <= |longer| && completedOrder == longer[cut..]
        invariant cut == 0 || |completedOrder| >= MAX_OWN_REQUEST_IDS
        invariant NoRepeats(completedOrder) && completed == Elements(completedOrder)
      {
        PopFront(completedOrder);
        var expired := completedOrder[0];
        completedOrder := completedOrder[1..];
        completed := completed - {expired};
        cut := cut + 1;
      }
    }
  }

  lemma PushBack(s: seq<string>, x: string)
    requires NoRepeats(s) && x !in Elements(s)
    ensures NoRepeats(s + [x]) && Elements(s + [x]) == Elements(s) + {x}
  {
    assert forall y :: y in s ==> y in Elements(s);
  }

  lemma PopFront(s: seq<string>)
    requires NoRepeats(s) && s != []
    ensures NoRepeats(s[1..]) && Elements(s[1..]) == Elements(s) - {s[0]}
  {
    assert s == [s[0]] + s[1..];
    assert s[0] !in s[1..];
  }

  /** Keeps everything but `id`, in order. */
  method Retain(order: seq<string>, id: string) returns (kept: seq<string>)
    ensures kept == Without(order, id)
  {
    kept := [];
    for i := 0 to |order|
      invariant kept == Without(order[..i], id)
    {
      assert order[..i + 1][..i] == order[..i];
      if order[i] != id {
        kept := kept + [order[i]];
      }
    }
    assert order[..|order|] == order;
  }
}
