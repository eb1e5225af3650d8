/** Exactly what the server executes, over every run: read off the events by a reference that looks
    at one worker at a time and never forgets a claim, where the server has a map of workers, a
    replay cache, claims that discard, and a sweeper. */
module Executions {
  import opened Wrappers
  import opened Sequences
  import opened CacheState
  import opened Admission

  function ClockAfter(events: seq<Event>): nat {
    if events == [] then 0
    else
      var e := events[|events| - 1];
      ClockAfter(events[..|events| - 1]) + if e.Tick? then e.nanos else 0
  }

  /** How far one worker has come with its message. */
  datatype Stage =
    | Idle
    | Waiting(message: Message, left: nat)       // arrived with `left` to go until its deadline
    | Claiming(message: Message, expires: nat)   // will remember the message until then
    | Granted(message: Message)

  /** Ahead of the clock, by no more than a request may live. */
  predicate InWindow(m: Message, now: nat, maxTtl: nat) {
    now < m.deadline <= U64_MAX && m.deadline - now <= maxTtl
  }

  /** Never claimed, or the memory of it has run out. */
  predicate Free(expiry: Option<nat>, now: nat) {
    expiry.None? || expiry.value <= now
  }

  function StageOf(maxTtl: nat, events: seq<Event>, w: nat): Stage {
    if events == [] then Idle
    else
      var init, e := events[..|events| - 1], events[|events| - 1];
      var now, before := ClockAfter(init), StageOf(maxTtl, init, w);
      match before
      case Idle =>
        if e.Receive? && e.worker == w && InWindow(e.message, now, maxTtl)
        then Waiting(e.message, e.message.deadline - now) else before
      case Waiting(m, left) => if e == Price(w) then Claiming(m, now + left) else before
      case Claiming(m, _) =>
        if e.Enter? && e.worker == w && e.discardAt <= now
        then if Free(ExpiryOf(maxTtl, init, m), now) then Granted(m) else Idle
        else before
      case Granted(_) => if e == Dispatch(w) then Idle else before
  }

  /** Until when the message was claimed last, never forgotten. */
  function ExpiryOf(maxTtl: nat, events: seq<Event>, m: Message): Option<nat> {
    if events == [] then None
    else
      var init, e := events[..|events| - 1], events[|events| - 1];
      var now, before := ClockAfter(init), ExpiryOf(maxTtl, init, m);
      if e.Enter? && e.discardAt <= now && Free(before, now) then
        var stage := StageOf(maxTtl, init, e.worker);
        if stage.Claiming? && stage.message == m then Some(stage.expires) else before
      else before
  }

  /** The messages whose worker was granted its claim and dispatched before the deadline. */
  function Executed(maxTtl: nat, events: seq<Event>): seq<Message> {
    if events == [] then []
    else
      var init, e := events[..|events| - 1], events[|events| - 1];
      Executed(maxTtl, init) + ExecutedBy(maxTtl, init, e)
  }

  function ExecutedBy(maxTtl: nat, init: seq<Event>, e: Event): seq<Message> {
    if !e.Dispatch? then []
    else
      var stage := StageOf(maxTtl, init, e.worker);
      if stage.Granted? && ClockAfter(init) < stage.message.deadline then [stage.message] else []
  }

  predicate WorkerAt(s: State, w: nat, stage: Stage) {
    match stage
    case Idle => w !in s.workers
    case Waiting(m, left) =>
      w in s.workers && s.workers[w].Checked? && s.workers[w].message == m && s.workers[w].ttl == left
    case Claiming(m, expires) => w in s.workers && s.workers[w] == Priced(m, expires)
    case Granted(m) => w in s.workers && s.workers[w] == Admitted(m)
  }

  /** The cache has the claim, or has forgotten it after it expired. */
  predicate EntryIs(s: State, m: Message, expiry: Option<nat>) {
    if m in s.seen then expiry == Some(s.seen[m]) else Free(expiry, s.clock)
  }

  ghost predicate Mirrored(maxTtl: nat, s: State, events: seq<Event>) {
    && s.clock == ClockAfter(events)
    && (forall w :: WorkerAt(s, w, StageOf(maxTtl, events, w)))
    && (forall m :: EntryIs(s, m, ExpiryOf(maxTtl, events, m)))
  }

  /** In every run each worker is where its own events have brought it, and the handler has been
      called for exactly the messages that were dispatched in time with their claim, in that
      order. What the sweeper and the claims discard is never missed. */
  lemma {:induction false} ExecutedExactly(maxTtl: nat, events: seq<Event>)
    ensures Mirrored(maxTtl, Run(maxTtl, events), events)
    ensures Run(maxTtl, events).executions == Executed(maxTtl, events)
  {
    if events == [] {
    } else {
      var init, e := events[..|events| - 1], events[|events| - 1];
      ExecutedExactly(maxTtl, init);
      var s := Run(maxTtl, init);
      assert events == init + [e];
      forall w
        ensures WorkerAt(Step(maxTtl, s, e), w, StageOf(maxTtl, init + [e], w))
      {
        WorkerMoves(maxTtl, s, init, e, w);
      }
      forall m
        ensures EntryIs(Step(maxTtl, s, e), m, ExpiryOf(maxTtl, init + [e], m))
      {
        EntryMoves(maxTtl, s, init, e, m);
      }
      if e.Dispatch? {
        assert WorkerAt(s, e.worker, StageOf(maxTtl, init, e.worker));
      }
    }
  }

  lemma WorkerMoves(maxTtl: nat, s: State, init: seq<Event>, e: Event, w: nat)
    requires Mirrored(maxTtl, s, init)
    ensures WorkerAt(Step(maxTtl, s, e), w, StageOf(maxTtl, init + [e], w))
  {
    assert (init + [e])[..|init|] == init;
    assert WorkerAt(s, w, StageOf(maxTtl, init, w));
    if w in s.workers {
      assert EntryIs(s, s.workers[w].message, ExpiryOf(maxTtl, init, s.workers[w].message));
    }
  }

  lemma EntryMoves(maxTtl: nat, s: State, init: seq<Event>, e: Event, m: Message)
    requires Mirrored(maxTtl, s, init)
    ensures EntryIs(Step(maxTtl, s, e), m, ExpiryOf(maxTtl, init + [e], m))
  {
    assert (init + [e])[..|init|] == init;
    assert EntryIs(s, m, ExpiryOf(maxTtl, init, m));
    if e.Enter? {
      assert WorkerAt(s, e.worker, StageOf(maxTtl, init, e.worker));
    }
  }

  /** A sweep leaves exactly the claims that have not run out, so the cache holds no more than what
      the open deadlines call for. */
  lemma SweepLeavesTheLiving(maxTtl: nat, events: seq<Event>, m: Message)
    ensures var s := Run(maxTtl, events + [Sweep]);
            var expiry := ExpiryOf(maxTtl, events, m);
            && (m in s.seen <==> !Free(expiry, ClockAfter(events)))
            && (m in s.seen ==> Some(s.seen[m]) == expiry)
  {
    assert (events + [Sweep])[..|events|] == events;
    ExecutedExactly(maxTtl, events);
    assert EntryIs(Run(maxTtl, events), m, ExpiryOf(maxTtl, events, m));
  }

  /** A message was admitted before exactly when a claim of it is on record. */
  lemma {:induction false} ClaimedIffAdmitted(maxTtl: nat, events: seq<Event>, m: Message)
    ensures ExpiryOf(maxTtl, events, m).Some? <==> m in Run(maxTtl, events).admissions
  {
    if events == [] {
    } else {
      var init, e := events[..|events| - 1], events[|events| - 1];
      ClaimedIffAdmitted(maxTtl, init, m);
      ExecutedExactly(maxTtl, init);
      if e.Enter? {
        assert WorkerAt(Run(maxTtl, init), e.worker, StageOf(maxTtl, init, e.worker));
        assert EntryIs(Run(maxTtl, init), m, ExpiryOf(maxTtl, init, m));
      }
    }
  }

  /** A step of this worker. */
  predicate Concerns(e: Event, w: nat) {
    (e.Receive? || e.Price? || e.Enter? || e.Dispatch?) && e.worker == w
  }

  predicate NoneConcerns(events: seq<Event>, w: nat) {
    forall e :: e in events ==> !Concerns(e, w)
  }

  /** The steps of others, the clock and the sweeper leave a worker where it is. */
  lemma {:induction false} StageKept(maxTtl: nat, events: seq<Event>, others: seq<Event>, w: nat)
    requires NoneConcerns(others, w)
    ensures StageOf(maxTtl, events + others, w) == StageOf(maxTtl, events, w)
  {
    if others == [] {
      assert events + others == events;
    } else {
      var init, e := others[..|others| - 1], others[|others| - 1];
      assert e in others && forall x :: x in init ==> x in others;
      StageKept(maxTtl, events, init, w);
      assert (events + others)[..|events + others| - 1] == events + init;
    }
  }

  /** A worker's step followed by those of others. */
  lemma StageAfter(maxTtl: nat, events: seq<Event>, e: Event, others: seq<Event>, w: nat)
    requires NoneConcerns(others, w)
    ensures StageOf(maxTtl, events + [e] + others, w) == StageOf(maxTtl, events + [e], w)
    ensures (events + [e])[..|events + [e]| - 1] == events
  {
    StageKept(maxTtl, events + [e], others, w);
  }

  lemma {:induction false} ExecutionsGrow(maxTtl: nat, events: seq<Event>, more: seq<Event>)
    ensures Run(maxTtl, events).executions <= Run(maxTtl, events + more).executions
  {
    if more == [] {
      assert events + more == events;
    } else {
      ExecutionsGrow(maxTtl, events, more[..|more| - 1]);
      assert (events + more)[..|events + more| - 1] == events + more[..|more| - 1];
    }
  }

  /** Everything up to the claim of message `m` by worker `w`, with others at work in between. */
  function UpToClaim(a: seq<Event>, w: nat, m: Message, b: seq<Event>, c: seq<Event>): seq<Event> {
    a + [Receive(w, m)] + b + [Price(w)] + c
  }

  /** A message that arrives acceptable, is claimed for the first time and is dispatched before its
      deadline is executed exactly once, whatever happens around it and afterwards. */
  lemma HandledExactlyOnce(maxTtl: nat, a: seq<Event>, w: nat, m: Message, b: seq<Event>, c: seq<Event>,
                           discardAt: nat, d: seq<Event>, rest: seq<Event>)
    requires w !in Run(maxTtl, a).workers && NoneConcerns(b, w) && NoneConcerns(c, w) && NoneConcerns(d, w)
    requires InWindow(m, ClockAfter(a), maxTtl)
    requires m !in Run(maxTtl, UpToClaim(a, w, m, b, c)).admissions && discardAt <= ClockAfter(UpToClaim(a, w, m, b, c))
    requires ClockAfter(UpToClaim(a, w, m, b, c) + [Enter(w, discardAt)] + d) < m.deadline
    ensures var run := UpToClaim(a, w, m, b, c) + [Enter(w, discardAt)] + d + [Dispatch(w)] + rest;
            multiset(Run(maxTtl, run).executions)[m] == 1
  {
    var arrived, priced := a + [Receive(w, m)] + b, UpToClaim(a, w, m, b, c);
    var granted := priced + [Enter(w, discardAt)] + d;
    ExecutedExactly(maxTtl, a);
    assert WorkerAt(Run(maxTtl, a), w, StageOf(maxTtl, a, w));
    StageAfter(maxTtl, a, Receive(w, m), b, w);
    StageAfter(maxTtl, arrived, Price(w), c, w);
    ClaimedIffAdmitted(maxTtl, priced, m);
    StageAfter(maxTtl, priced, Enter(w, discardAt), d, w);
    assert StageOf(maxTtl, granted, w) == Granted(m);
    RunsNow(maxTtl, granted, w, m);
    ExecutionsGrow(maxTtl, granted + [Dispatch(w)], rest);
    OnceIn(maxTtl, granted + [Dispatch(w)] + rest, m);
  }

  lemma RunsNow(maxTtl: nat, events: seq<Event>, w: nat, m: Message)
    requires StageOf(maxTtl, events, w) == Granted(m) && ClockAfter(events) < m.deadline
    ensures m in Run(maxTtl, events + [Dispatch(w)]).executions
  {
    ExecutedExactly(maxTtl, events + [Dispatch(w)]);
    assert (events + [Dispatch(w)])[..|events|] == events;
    assert m in ExecutedBy(maxTtl, events, Dispatch(w));
  }

  lemma OnceIn(maxTtl: nat, events: seq<Event>, m: Message)
    requires m in Run(maxTtl, events).executions
    ensures multiset(Run(maxTtl, events).executions)[m] == 1
  {
    SafeAlways(maxTtl, events);
    CountOnce(Run(maxTtl, events).executions, m);
  }

  lemma {:induction false} CountOnce(s: seq<Message>, x: Message)
    requires NoRepeats(s)
    ensures multiset(s)[x] == if x in s then 1 else 0
  {
    if s == [] {
    } else {
      var init, last := s[..|s| - 1], s[|s| - 1];
      CountOnce(init, x);
      AppendUnique(init, last);
      assert s == init + [last];
    }
  }
}
