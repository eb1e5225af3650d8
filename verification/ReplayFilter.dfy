/** The filter that keeps a client from seeing its own invalidations twice:
    `OwnInvalidationReplay` in `fabricfs-transport/src/policy.rs`, first as a value. */
module ReplayFilter {
  import opened Wrappers
  import opened Invalidations
  import opened Sequences

  const MAX_OWN_REQUEST_IDS: nat := 1024

  function Without(s: seq<string>, x: string): (r: seq<string>)
    ensures forall y :: y in r <==> y in s && y != x
    ensures |r| <= |s|
  {
    if s == [] then []
    else
      var r := Without(s[..|s| - 1], x);
      if s[|s| - 1] == x then r else r + [s[|s| - 1]]
  }

  function Last(s: seq<string>, n: nat): seq<string> {
    if |s| <= n then s else s[|s| - n..]
  }

  datatype Filter = Filter(
    order: seq<string>,
    completed: set<string>,
    pending: set<string>,
    deferred: map<string, seq<Invalidation>>,
    recovered: seq<Invalidation>)
  {
    /** The window of completed ids is the completed set, each id once, at most 1024; no id is
        both pending and completed; and only pending ids hold back invalidations, their own. */
    ghost predicate Consistent() {
      && completed == Elements(order) && NoRepeats(order) && |order| <= MAX_OWN_REQUEST_IDS
      && pending !! completed && "" !in pending + completed
      && deferred.Keys <= pending
      && forall id, inv :: id in deferred && inv in deferred[id] ==> inv.requestId == id
    }

    function Deferred(id: string): seq<Invalidation> {
      if id in deferred then deferred[id] else []
    }

    function Begin(id: string): Filter {
      if id == "" then this
      else this.(completed := completed - {id}, order := Without(order, id), pending := pending + {id})
    }

    function Remember(id: string): Filter {
      if id == "" || id in completed then this
      else
        var window := Last(order + [id], MAX_OWN_REQUEST_IDS);
        this.(order := window, completed := Elements(window))
    }

    function Complete(id: string): Filter {
      this.(pending := pending - {id}, deferred := deferred - {id}).Remember(id)
    }

    function Abandon(id: string): Filter {
      this.(pending := pending - {id}, deferred := deferred - {id}, recovered := recovered + Deferred(id))
    }

    function Handle(inv: Invalidation): (Filter, Option<Invalidation>) {
      var id := inv.requestId;
      if id == "" then (this, Some(inv))
      else if id in completed then (this, None)
      else if id in pending then (this.(deferred := deferred[id := Deferred(id) + [inv]]), None)
      else (this, Some(inv))
    }

    function Take(namespace: string): (Filter, seq<Invalidation>) {
      (this.(recovered := OfOtherNamespaces(recovered, namespace)), OfNamespace(recovered, namespace))
    }
  }

  const EmptyFilter: Filter := Filter([], {}, {}, map[], [])

  function OfOtherNamespaces(invs: seq<Invalidation>, namespace: string): seq<Invalidation> {
    if invs == [] then []
    else
      var others := OfOtherNamespaces(invs[..|invs| - 1], namespace);
      var last := invs[|invs| - 1];
      if last.namespace == namespace then others else others + [last]
  }

  /** Splitting by namespace loses nothing ... */
  lemma {:induction false} SplitLosesNothing(invs: seq<Invalidation>, namespace: string, x: Invalidation)
    ensures multiset(OfNamespace(invs, namespace))[x] + multiset(OfOtherNamespaces(invs, namespace))[x]
         == multiset(invs)[x]
  {
    if invs == [] {
    } else {
      var init, last := invs[..|invs| - 1], invs[|invs| - 1];
      SplitLosesNothing(init, namespace, x);
      assert invs == init + [last];
    }
  }

  /** ... and keeps the order within every other namespace. */
  lemma {:induction false} SplitKeepsOrder(invs: seq<Invalidation>, namespace: string, other: string)
    ensures OfNamespace(OfOtherNamespaces(invs, namespace), other)
         == if other == namespace then [] else OfNamespace(invs, other)
  {
    if invs == [] {
    } else {
      var init, last := invs[..|invs| - 1], invs[|invs| - 1];
      SplitKeepsOrder(init, namespace, other);
      OfNamespaceAppend(OfOtherNamespaces(init, namespace), last, other);
    }
  }

  lemma {:induction false} WithoutKeepsUnique(s: seq<string>, x: string)
    requires NoRepeats(s)
    ensures NoRepeats(Without(s, x))
  {
    if s == [] {
    } else {
      WithoutKeepsUnique(s[..|s| - 1], x);
      assert s[|s| - 1] !in s[..|s| - 1];
    }
  }

  lemma BeginKeepsConsistent(f: Filter, id: string)
    requires f.Consistent()
    ensures f.Begin(id).Consistent()
  {
    WithoutKeepsUnique(f.order, id);
  }

  lemma CompleteKeepsConsistent(f: Filter, id: string)
    requires f.Consistent()
    ensures f.Complete(id).Consistent()
  {
    if id != "" && id !in f.completed {
      var longer := f.order + [id];
      assert id !in f.order;
      assert NoRepeats(longer);
      var window := Last(longer, MAX_OWN_REQUEST_IDS);
      assert forall x :: x in window ==> x in longer;
      assert forall x :: x in Elements(window) ==> x == id || x in f.completed;
    }
  }
}
