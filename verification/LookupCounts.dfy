/** Lookup references: the kernel owns one per answered lookup and gives them back by `forget`.
    What the cache's counter has to do with them over arbitrary runs. */
module LookupCounts {
  import opened Paths
  import opened PathIndex
  import opened CacheState
  import opened Invalidations
  import opened KernelState
  import opened PathFates
  import opened CacheRuns

  predicate Countable(inode: Inode) {
    inode != 0 && inode != ROOT_INODE
  }

  function Count(c: Cache, inode: Inode): nat {
    if inode in c.lookups then c.lookups[inode] else 0
  }

  predicate Indexed(c: Cache, inode: Inode) {
    inode in c.inodes.Values
  }

  /** What an event does to the number of references, as the saturating counter sees it. */
  function Recounted(count: nat, e: Event, inode: Inode): nat {
    match e
    case Answer(_, i, n) => if i == inode then SaturatingAdd(count, n) else count
    case Forget(i, n) => if i == inode then (if n <= count then count - n else 0) else count
    case _ => count
  }

  /** The references since the last event after which the inode had no path. */
  ghost function CreditSince(namespace: string, events: seq<Event>, inode: Inode): nat {
    if events == [] || !Indexed(Run(namespace, EmptyKernel, events).cache, inode) then 0
    else Recounted(CreditSince(namespace, events[..|events| - 1], inode), events[|events| - 1], inode)
  }

  /** In every run, deliveries, resyncs and poisonings included, the counter of an inode is the
      number of references since the inode last lost all its paths. */
  lemma {:induction false} CountIsCreditSince(namespace: string, events: seq<Event>, inode: Inode)
    requires ProperEvents(events) && Countable(inode)
    ensures Count(Run(namespace, EmptyKernel, events).cache, inode) == CreditSince(namespace, events, inode)
  {
    if events == [] {
    } else {
      var init, e := events[..|events| - 1], events[|events| - 1];
      assert e in events;
      CountIsCreditSince(namespace, init, inode);
      WellFormedAlways(namespace, init);
      CountAfter(namespace, Run(namespace, EmptyKernel, init), e, inode);
    }
  }

  lemma CountAfter(namespace: string, k: Kernel, e: Event, inode: Inode)
    requires k.cache.WellFormed() && Proper(e) && Countable(inode)
    ensures var c := Step(namespace, k, e).cache;
            Count(c, inode) == if Indexed(c, inode) then Recounted(Count(k.cache, inode), e, inode) else 0
  {
    match e
    case Deliver(inv, allowBaseline) => DeliveryKeepsCount(k, namespace, inv, allowBaseline, inode);
    case Answer(path, i, n) => AnswerCounts(k.cache, path, i, n, inode);
    case Forget(i, n) => ForgetCounts(k.cache, i, n, inode);
    case _ =>
  }

  lemma DeliveryKeepsCount(k: Kernel, namespace: string, inv: Invalidation, allowBaseline: bool, inode: Inode)
    requires k.cache.WellFormed() && Countable(inode)
    ensures var c := Apply(k, namespace, inv, allowBaseline).0.cache;
            Count(c, inode) == if Indexed(c, inode) then Count(k.cache, inode) else 0
  {
    CacheAfter(k, namespace, inv, allowBaseline);
    if ValidInvalidation(inv) {
      ChangeKeepsCount(k, inv, inode);
    }
  }

  lemma ChangeKeepsCount(k: Kernel, inv: Invalidation, inode: Inode)
    requires k.cache.WellFormed() && Countable(inode) && ValidInvalidation(inv)
    ensures var c := ApplyNext(k, inv).cache;
            Count(c, inode) == if Indexed(c, inode) then Count(k.cache, inode) else 0
  {
    var kept := k.cache.(lastSequence := inv.sequence);
    assert ApplyNext(k, inv).cache == kept || ApplyNext(k, inv).cache == kept.Reindexed(ApplyNext(k, inv).cache.inodes);
  }

  lemma AnswerCounts(c: Cache, path: Path, i: Inode, n: nat, inode: Inode)
    requires c.WellFormed() && Countable(inode)
    ensures var d := c.InsertLookup(path, i, n);
            Count(d, inode) == if Indexed(d, inode) then Recounted(Count(c, inode), Answer(path, i, n), inode) else 0
  {
    var m := c.Insert(path, i).inodes;
    InverseHolds(m);
    if i != 0 {
      assert m[path] == i;
    }
  }

  lemma ForgetCounts(c: Cache, i: Inode, n: nat, inode: Inode)
    requires c.WellFormed() && Countable(inode)
    ensures var d := c.Forget(i, n);
            Count(d, inode) == if Indexed(d, inode) then Recounted(Count(c, inode), Forget(i, n), inode) else 0
  {
  }

  /** The forget that gives back the last reference takes the inode and all its paths out, and
      touches nothing else. */
  lemma LastForgetRemoves(c: Cache, inode: Inode, nlookup: nat)
    requires c.Consistent() && inode != ROOT_INODE && nlookup > 0
    requires inode in c.lookups ==> c.lookups[inode] <= nlookup
    ensures var d := c.Forget(inode, nlookup);
            && inode !in d.paths && inode !in d.lookups
            && (forall p :: p in d.inodes <==> p in c.inodes && c.inodes[p] != inode)
            && (forall p :: p in d.inodes ==> d.inodes[p] == c.inodes[p])
            && (forall i :: i in c.lookups && i != inode ==> i in d.lookups && d.lookups[i] == c.lookups[i])
  {
    var kept := WithoutInode(c.inodes, inode);
    InverseHolds(kept);
    forall i | i in c.lookups && i != inode
      ensures i in kept.Values
    {
      var p :| p in c.inodes && c.inodes[p] == i;
      assert kept[p] == i;
    }
  }

  // How an inode loses its paths.

  /** Every cached path of the inode is dropped by the change, and the change makes no new one. */
  ghost predicate DropsAll(c: Cache, inv: Invalidation, inode: Inode)
    requires ValidInvalidation(inv)
  {
    && (forall p :: p in c.inodes && c.inodes[p] == inode ==> FateOf(p, inv).None?)
    && !(inv.Kind().value == Create && inv.inode == inode)
  }

  /** The event takes all paths of an indexed inode, references or not: a poisoning, a malformed
      message, a gap, a resync, a change that drops all of them, or an answer that gives its only
      path to another inode. */
  ghost predicate Severs(namespace: string, k: Kernel, e: Event, inode: Inode) {
    Indexed(k.cache, inode) &&
    match e
    case Distrust => true
    case Deliver(inv, allowBaseline) =>
      || Malformed(namespace, inv)
      || Gap(k, namespace, inv, allowBaseline)
      || (inv.namespace == namespace && DropsAll(k.cache, inv, inode))
    case Answer(path, i, _) =>
      i != 0 && i != inode && forall p :: p in k.cache.inodes && k.cache.inodes[p] == inode ==> p == path
    case _ => false
  }

  /** The forget of the last reference the counter knows of. */
  predicate ForgetsLast(c: Cache, e: Event, inode: Inode) {
    e.Forget? && e.inode == inode && 0 < e.nlookup && Count(c, inode) <= e.nlookup
  }

  lemma SeveredIff(namespace: string, k: Kernel, e: Event, inode: Inode)
    requires k.cache.WellFormed() && Countable(inode) && Indexed(k.cache, inode)
    ensures !Indexed(Step(namespace, k, e).cache, inode)
            <==> Severs(namespace, k, e, inode) || ForgetsLast(k.cache, e, inode)
  {
    var p :| p in k.cache.inodes && k.cache.inodes[p] == inode;
    match e
    case Deliver(inv, allowBaseline) => DeliverySevers(namespace, k, inv, allowBaseline, inode);
    case Answer(path, i, n) => AnswerSevers(k.cache, path, i, n, inode);
    case Forget(i, n) =>
      if i != inode {
        assert p in WithoutInode(k.cache.inodes, i);
      }
    case _ =>
  }

  lemma AnswerSevers(c: Cache, path: Path, i: Inode, n: nat, inode: Inode)
    requires Indexed(c, inode) && Countable(inode)
    ensures !Indexed(c.InsertLookup(path, i, n), inode)
            <==> i != 0 && i != inode && forall p :: p in c.inodes && c.inodes[p] == inode ==> p == path
  {
    var m := c.InsertLookup(path, i, n).inodes;
    if i != 0 {
      assert m == c.inodes[path := i] && m[path] == i;
      if p :| p in c.inodes && c.inodes[p] == inode && p != path {
        assert m[p] == inode;
      }
    }
  }

  lemma DeliverySevers(namespace: string, k: Kernel, inv: Invalidation, allowBaseline: bool, inode: Inode)
    requires k.cache.WellFormed() && Countable(inode) && Indexed(k.cache, inode)
    ensures !Indexed(Apply(k, namespace, inv, allowBaseline).0.cache, inode)
            <==> Severs(namespace, k, Deliver(inv, allowBaseline), inode)
  {
    CacheAfter(k, namespace, inv, allowBaseline);
    if inv.namespace == namespace && ValidInvalidation(inv) && !Gap(k, namespace, inv, allowBaseline) {
      if inv.Kind().value == FullResync {
        assert DropsAll(k.cache, inv, inode);
      } else {
        ChangeSevers(k, inv, inode);
      }
    }
  }

  lemma ChangeSevers(k: Kernel, inv: Invalidation, inode: Inode)
    requires ValidInvalidation(inv) && inv.Kind().value != FullResync && Countable(inode)
    ensures !Indexed(ApplyNext(k, inv).cache, inode) <==> DropsAll(k.cache, inv, inode)
  {
    var m, m' := k.cache.inodes, ApplyNext(k, inv).cache.inodes;
    if q :| q in m' && m'[q] == inode {
      var p := PairOrigin(k, inv, q);
    }
    if p :| p in m && m[p] == inode && FateOf(p, inv).Some? {
      PairKept(k, inv, p);
      assert m'[FateOf(p, inv).value] == inode;
    } else if inv.Kind().value == Create && inv.inode == inode {
      assert m'[inv.path] == inode;
    }
  }

  // The references the kernel really holds.

  /** Answered minus forgotten over the whole run. */
  function Credit(events: seq<Event>, inode: Inode): int {
    if events == [] then 0 else Owed(Credit(events[..|events| - 1], inode), events[|events| - 1], inode)
  }

  function Owed(credit: int, e: Event, inode: Inode): int {
    match e
    case Answer(_, i, n) => if i == inode then credit + n else credit
    case Forget(i, n) => if i == inode then credit - n else credit
    case _ => credit
  }

  /** The kernel never gives back more than it holds, nor holds more than the counter can say. */
  ghost predicate Disciplined(events: seq<Event>, inode: Inode) {
    forall n :: 0 <= n <= |events| ==> InRange(events, inode, n)
  }

  predicate InRange(events: seq<Event>, inode: Inode, n: nat)
    requires n <= |events|
  {
    0 <= Credit(events[..n], inode) <= U64_MAX
  }

  /** At step `n` the inode lost all its paths while the kernel held references, and the kernel
      has held some ever since. */
  ghost predicate LostAt(namespace: string, events: seq<Event>, inode: Inode, n: nat)
    requires n < |events|
  {
    && Severs(namespace, Run(namespace, EmptyKernel, events[..n]), events[n], inode)
    && HeldFrom(events, inode, n)
  }

  ghost predicate HeldFrom(events: seq<Event>, inode: Inode, n: nat) {
    forall m :: n <= m <= |events| ==> HeldAt(events, inode, m)
  }

  predicate HeldAt(events: seq<Event>, inode: Inode, m: nat)
    requires m <= |events|
  {
    Credit(events[..m], inode) > 0
  }

  ghost predicate Lost(namespace: string, events: seq<Event>, inode: Inode) {
    exists n :: 0 <= n < |events| && LostAt(namespace, events, inode, n)
  }

  /** The counter is the number of references the kernel holds if and only if the inode has not
      lost all its paths since the kernel last held none; otherwise it is too low. */
  lemma {:induction false} CountIsCreditIff(namespace: string, events: seq<Event>, inode: Inode)
    requires ProperEvents(events) && Countable(inode) && Disciplined(events, inode)
    ensures var count := Count(Run(namespace, EmptyKernel, events).cache, inode);
            && count <= Credit(events, inode)
            && (count == Credit(events, inode) <==> !Lost(namespace, events, inode))
  {
    if events == [] {
    } else {
      var init, e := events[..|events| - 1], events[|events| - 1];
      assert e in events;
      DisciplinedBefore(events, inode);
      CountIsCreditIff(namespace, init, inode);
      WellFormedAlways(namespace, init);
      LostNext(namespace, events, inode);
      assert InRange(events, inode, |events|) && events[..|events|] == events;
      OneEventAgrees(namespace, Run(namespace, EmptyKernel, init), e, inode, Credit(init, inode), Credit(events, inode),
                     Lost(namespace, init, inode), Lost(namespace, events, inode));
    }
  }

  lemma DisciplinedBefore(events: seq<Event>, inode: Inode)
    requires events != [] && Disciplined(events, inode)
    ensures Disciplined(events[..|events| - 1], inode)
  {
    var init := events[..|events| - 1];
    forall n | 0 <= n <= |init|
      ensures InRange(init, inode, n)
    {
      assert InRange(events, inode, n) && init[..n] == events[..n];
    }
  }

  lemma LostNext(namespace: string, events: seq<Event>, inode: Inode)
    requires events != []
    ensures var init, e := events[..|events| - 1], events[|events| - 1];
            Lost(namespace, events, inode)
            <==> && Credit(events, inode) > 0
                 && (|| Lost(namespace, init, inode)
                     || (Credit(init, inode) > 0 && Severs(namespace, Run(namespace, EmptyKernel, init), e, inode)))
  {
    var init, e := events[..|events| - 1], events[|events| - 1];
    assert events[..|events|] == events && init[..|init|] == init;
    forall n | 0 <= n <= |init|
      ensures HeldFrom(events, inode, n) <==> HeldFrom(init, inode, n) && Credit(events, inode) > 0
    {
      HeldNext(events, inode, n);
    }
    forall n | 0 <= n < |init|
      ensures LostAt(namespace, events, inode, n) <==> LostAt(namespace, init, inode, n) && Credit(events, inode) > 0
    {
      assert init[..n] == events[..n];
    }
    assert HeldFrom(init, inode, |init|) <==> Credit(init, inode) > 0 by {
      assert HeldAt(init, inode, |init|) <==> Credit(init, inode) > 0;
    }
    if Lost(namespace, events, inode) {
      var n :| 0 <= n < |events| && LostAt(namespace, events, inode, n);
      assert n < |init| ==> LostAt(namespace, init, inode, n);
    }
    if Credit(events, inode) > 0 && Credit(init, inode) > 0
       && Severs(namespace, Run(namespace, EmptyKernel, init), e, inode) {
      assert LostAt(namespace, events, inode, |init|);
    }
    if Credit(events, inode) > 0 && Lost(namespace, init, inode) {
      var n :| 0 <= n < |init| && LostAt(namespace, init, inode, n);
      assert LostAt(namespace, events, inode, n);
    }
  }

  lemma HeldNext(events: seq<Event>, inode: Inode, n: nat)
    requires events != [] && n < |events|
    ensures HeldFrom(events, inode, n)
            <==> HeldFrom(events[..|events| - 1], inode, n) && Credit(events, inode) > 0
  {
    var init := events[..|events| - 1];
    assert events[..|events|] == events;
    assert HeldAt(events, inode, |events|) <==> Credit(events, inode) > 0;
    forall m | n <= m <= |init|
      ensures HeldAt(events, inode, m) <==> HeldAt(init, inode, m)
    {
      assert events[..m] == init[..m];
    }
  }

  lemma OneEventAgrees(namespace: string, k: Kernel, e: Event, inode: Inode, credit: int, credit': int,
                       lost: bool, lost': bool)
    requires k.cache.WellFormed() && Proper(e) && Countable(inode)
    requires Count(k.cache, inode) <= credit && (Count(k.cache, inode) == credit <==> !lost)
    requires 0 <= credit' <= U64_MAX && credit' == Owed(credit, e, inode)
    requires lost' <==> credit' > 0 && (lost || (credit > 0 && Severs(namespace, k, e, inode)))
    ensures var count := Count(Step(namespace, k, e).cache, inode);
            count <= credit' && (count == credit' <==> !lost')
  {
    CountAfter(namespace, k, e, inode);
    if Indexed(k.cache, inode) {
      SeveredIff(namespace, k, e, inode);
    } else {
      assert Count(k.cache, inode) == 0;
      if e.Answer? && e.inode == inode {
        AnswerIndexes(namespace, k, e, inode);
      }
    }
  }

  /** An answer indexes its inode and leaves the cache's health alone. */
  lemma AnswerIndexes(namespace: string, k: Kernel, e: Event, inode: Inode)
    requires Countable(inode) && e.Answer? && e.inode == inode
    ensures Indexed(Step(namespace, k, e).cache, inode)
    ensures Step(namespace, k, e).cache.poisoned == k.cache.poisoned
  {
    assert Step(namespace, k, e).cache.inodes[e.path] == inode;
  }

  /** A referenced inode stays cached unless it lost all its paths since the kernel last held no
      reference to it. */
  lemma CachedWhileReferenced(namespace: string, events: seq<Event>, inode: Inode)
    requires ProperEvents(events) && Countable(inode) && Disciplined(events, inode)
    requires Credit(events, inode) > 0 && !Lost(namespace, events, inode)
    ensures Indexed(Run(namespace, EmptyKernel, events).cache, inode)
  {
    CountIsCreditIff(namespace, events, inode);
    WellFormedAlways(namespace, events);
  }

  function Deleted(path: Path): Invalidation {
    Invalidation("ns", 1, Delete.WireValue(), path, "", "", 0, "")
  }

  function EarlyForget(a: Path, b: Path, inode: Inode): seq<Event> {
    [Answer(a, inode, 1), Deliver(Deleted(a), true), Answer(b, inode, 1), Forget(inode, 1)]
  }

  /** A lookup of `a`, whose deletion then arrives, and one of the same file under `b`: a forget of
      the first reference takes the file out although the kernel still holds the second and the
      cache is healthy. */
  lemma ForgottenTooEarly(a: Path, b: Path, inode: Inode)
    requires ValidRename(a, b) && Countable(inode)
    ensures var events := EarlyForget(a, b, inode);
            var c := Run("ns", EmptyKernel, events).cache;
            && Credit(events, inode) == 1 && Disciplined(events, inode)
            && !c.poisoned && !Indexed(c, inode)
  {
    var events := EarlyForget(a, b, inode);
    EarlyForgetCredit(a, b, inode);
    SecondLookupOnly(a, b, inode);
    var k := Run("ns", EmptyKernel, events[..3]);
    OneMore(events, 3);
    assert events[..4] == events;
    WellFormedAlways("ns", events[..3]);
    SeveredIff("ns", k, events[3], inode);
  }

  lemma OneMore(events: seq<Event>, n: nat)
    requires n < |events|
    ensures Run("ns", EmptyKernel, events[..n + 1]) == Step("ns", Run("ns", EmptyKernel, events[..n]), events[n])
  {
    assert events[..n + 1][..n] == events[..n];
  }

  lemma OneMoreOwed(events: seq<Event>, inode: Inode, n: nat)
    requires n < |events|
    ensures Credit(events[..n + 1], inode) == Owed(Credit(events[..n], inode), events[n], inode)
  {
    assert events[..n + 1][..n] == events[..n];
  }

  lemma EarlyForgetCredit(a: Path, b: Path, inode: Inode)
    ensures Credit(EarlyForget(a, b, inode), inode) == 1 && Disciplined(EarlyForget(a, b, inode), inode)
  {
    var events := EarlyForget(a, b, inode);
    assert events[..0] == [] && events[..4] == events;
    OneMoreOwed(events, inode, 0);
    OneMoreOwed(events, inode, 1);
    OneMoreOwed(events, inode, 2);
    OneMoreOwed(events, inode, 3);
  }

  /** Before the forget the counter knows only of the lookup under `b`. */
  lemma SecondLookupOnly(a: Path, b: Path, inode: Inode)
    requires ValidRename(a, b) && Countable(inode)
    ensures var c := Run("ns", EmptyKernel, EarlyForget(a, b, inode)[..3]).cache;
            Indexed(c, inode) && Count(c, inode) == 1 && !c.poisoned
  {
    DeletionSevers(a, b, inode);
    FirstReference(EarlyForget(a, b, inode), 2, b, inode);
  }

  lemma FirstReference(events: seq<Event>, n: nat, path: Path, inode: Inode)
    requires n < |events| && events[n] == Answer(path, inode, 1) && ProperEvents(events) && Countable(inode)
    requires Count(Run("ns", EmptyKernel, events[..n]).cache, inode) == 0
    ensures var c := Run("ns", EmptyKernel, events[..n + 1]).cache;
            && Indexed(c, inode) && Count(c, inode) == 1
            && c.poisoned == Run("ns", EmptyKernel, events[..n]).cache.poisoned
  {
    var k := Run("ns", EmptyKernel, events[..n]);
    OneMore(events, n);
    WellFormedAlways("ns", events[..n]);
    AnswerIndexes("ns", k, events[n], inode);
    CountAfter("ns", k, events[n], inode);
  }

  lemma DeletionSevers(a: Path, b: Path, inode: Inode)
    requires ValidNonRoot(a) && ValidNonRoot(b) && Countable(inode)
    ensures var c := Run("ns", EmptyKernel, EarlyForget(a, b, inode)[..2]).cache;
            !Indexed(c, inode) && Count(c, inode) == 0 && !c.poisoned
  {
    var events := EarlyForget(a, b, inode);
    OneMore(events, 0);
    OneMore(events, 1);
    var k := Run("ns", EmptyKernel, events[..1]);
    WellFormedAlways("ns", events[..1]);
    FirstLookup(a, inode);
    CacheAfter(k, "ns", Deleted(a), true);
    ChangeSevers(k, Deleted(a), inode);
    CountAfter("ns", k, events[1], inode);
  }

  lemma FirstLookup(a: Path, inode: Inode)
    requires ValidNonRoot(a) && Countable(inode)
    ensures var c := Step("ns", EmptyKernel, Answer(a, inode, 1)).cache;
            c.inodes == map["/" := ROOT_INODE, a := inode] && !c.poisoned && c.lastSequence == 0
  {
  }
}
