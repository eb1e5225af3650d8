/** When a signed message is admitted a second time. The replay entry outlives the deadline, but
    a worker may pass the deadline test, stall, and enter the claim after the entry expired. */
module Readmission {
  import opened Wrappers
  import opened Sequences
  import opened Admission

  /** The worker is ready to enter and reads a possible clock. */
  predicate CanEnter(s: State, e: Event) {
    e.Enter? && e.worker in s.workers && s.workers[e.worker].Priced? && e.discardAt <= s.clock
  }

  predicate Admits(maxTtl: nat, s: State, e: Event) {
    |Step(maxTtl, s, e).admissions| > |s.admissions|
  }

  /** The expiry stored when the message was last admitted, remembered for ever. */
  function StoredExpiry(maxTtl: nat, events: seq<Event>, m: Message): Option<nat> {
    if events == [] then None
    else
      var init, e := events[..|events| - 1], events[|events| - 1];
      var s := Run(maxTtl, init);
      if CanEnter(s, e) && s.workers[e.worker].message == m && Admits(maxTtl, s, e)
      then Some(s.workers[e.worker].expires) else StoredExpiry(maxTtl, init, m)
  }

  /** The cache forgets a message only after its stored expiry. */
  lemma {:induction false} EntryKeptUntilExpiry(maxTtl: nat, events: seq<Event>, m: Message)
    ensures var s := Run(maxTtl, events);
            var stored := StoredExpiry(maxTtl, events, m);
            && (m in s.admissions <==> stored.Some?)
            && (m in s.seen ==> stored == Some(s.seen[m]))
            && (m !in s.seen && stored.Some? ==> stored.value <= s.clock)
  {
    if events == [] {
    } else {
      EntryKeptUntilExpiry(maxTtl, events[..|events| - 1], m);
    }
  }

  /** A worker about to claim a message that was admitted before, at or after the stored expiry. */
  predicate TooLate(maxTtl: nat, events: seq<Event>, e: Event) {
    var s := Run(maxTtl, events);
    CanEnter(s, e) &&
    var stored := StoredExpiry(maxTtl, events, s.workers[e.worker].message);
    stored.Some? && stored.value <= s.clock
  }

  /** A claim is granted exactly when the message was never admitted or its entry has expired. */
  lemma AdmitsIff(maxTtl: nat, events: seq<Event>, e: Event)
    requires CanEnter(Run(maxTtl, events), e)
    ensures var s := Run(maxTtl, events);
            Admits(maxTtl, s, e) <==> s.workers[e.worker].message !in s.admissions || TooLate(maxTtl, events, e)
  {
    var s := Run(maxTtl, events);
    EntryKeptUntilExpiry(maxTtl, events, s.workers[e.worker].message);
  }

  /** Step `n` of the run is such a claim. */
  predicate LateAt(maxTtl: nat, events: seq<Event>, n: nat)
    requires n < |events|
  {
    TooLate(maxTtl, events[..n], events[n])
  }

  /** Every signed message is admitted at most once exactly in the runs without a late claim. */
  lemma {:induction false} AdmittedOnceIff(maxTtl: nat, events: seq<Event>)
    ensures NoRepeats(Run(maxTtl, events).admissions)
            <==> forall n :: 0 <= n < |events| ==> !LateAt(maxTtl, events, n)
  {
    if events == [] {
    } else {
      var init, e := events[..|events| - 1], events[|events| - 1];
      AdmittedOnceIff(maxTtl, init);
      forall n | 0 <= n < |init|
        ensures LateAt(maxTtl, events, n) <==> LateAt(maxTtl, init, n)
      {
        assert events[..n] == init[..n];
      }
      assert LateAt(maxTtl, events, |init|) <==> TooLate(maxTtl, init, e);
      LastClaim(maxTtl, init, e);
    }
  }

  lemma LastClaim(maxTtl: nat, init: seq<Event>, e: Event)
    ensures NoRepeats(Step(maxTtl, Run(maxTtl, init), e).admissions)
            <==> NoRepeats(Run(maxTtl, init).admissions) && !TooLate(maxTtl, init, e)
  {
    var s := Run(maxTtl, init);
    var t := Step(maxTtl, s, e);
    if CanEnter(s, e) {
      AdmitsIff(maxTtl, init, e);
      var m := s.workers[e.worker].message;
      EntryKeptUntilExpiry(maxTtl, init, m);
      if Admits(maxTtl, s, e) {
        AppendUnique(s.admissions, m);
      }
    }
  }

  /** A late claim is late for the deadline too, so the dispatcher turns the message away. */
  lemma LateClaimMissesDeadline(maxTtl: nat, events: seq<Event>, e: Event)
    requires TooLate(maxTtl, events, e)
    ensures var s := Run(maxTtl, events); s.workers[e.worker].message.deadline <= s.clock
  {
    StoredBeyondDeadline(maxTtl, events, Run(maxTtl, events).workers[e.worker].message);
  }

  lemma {:induction false} StoredBeyondDeadline(maxTtl: nat, events: seq<Event>, m: Message)
    requires StoredExpiry(maxTtl, events, m).Some?
    ensures StoredExpiry(maxTtl, events, m).value >= m.deadline
  {
    var init, e := events[..|events| - 1], events[|events| - 1];
    SafeAlways(maxTtl, init);
    var s := Run(maxTtl, init);
    if CanEnter(s, e) && s.workers[e.worker].message == m && Admits(maxTtl, s, e) {
      assert TimelyPhase(s.workers[e.worker], s.clock);
    } else {
      StoredBeyondDeadline(maxTtl, init, m);
    }
  }

  /** Every message that can be admitted at all can be admitted twice: two copies arrive, and one
      worker stalls between its deadline test and its claim. */
  lemma StalledWorkerReadmits(maxTtl: nat, m: Message)
    requires Acceptable(m, 0, maxTtl)
    ensures var events := [Receive(0, m), Receive(1, m), Price(0), Enter(0, 0), Price(1), Tick(m.deadline),
                           Enter(1, m.deadline)];
            Run(maxTtl, events).admissions == [m, m]
  {
    var first := [Receive(0, m), Receive(1, m), Price(0), Enter(0, 0)];
    var checked := Checked(m, m.deadline, 0);
    FirstCopyAdmitted(maxTtl, m);
    var s4 := Run(maxTtl, first);
    var s5 := s4.(workers := map[0 := Admitted(m), 1 := Priced(m, m.deadline)]);
    Append(maxTtl, first, Price(1));
    assert Run(maxTtl, first + [Price(1)]) == s5;
    Append(maxTtl, first + [Price(1)], Tick(m.deadline));
    Append(maxTtl, first + [Price(1)] + [Tick(m.deadline)], Enter(1, m.deadline));
    assert [Receive(0, m), Receive(1, m), Price(0), Enter(0, 0), Price(1), Tick(m.deadline), Enter(1, m.deadline)]
        == first + [Price(1)] + [Tick(m.deadline)] + [Enter(1, m.deadline)];
  }

  lemma Append(maxTtl: nat, events: seq<Event>, e: Event)
    ensures Run(maxTtl, events + [e]) == Step(maxTtl, Run(maxTtl, events), e)
  {
    assert (events + [e])[..|events|] == events;
  }

  lemma FirstCopyAdmitted(maxTtl: nat, m: Message)
    requires Acceptable(m, 0, maxTtl)
    ensures var s := Run(maxTtl, [Receive(0, m), Receive(1, m), Price(0), Enter(0, 0)]);
            && s.clock == 0 && s.seen == map[m := m.deadline] && s.admissions == [m]
            && s.workers == map[0 := Admitted(m), 1 := Checked(m, m.deadline, 0)]
  {
    var both := [Receive(0, m), Receive(1, m)];
    var checked := Checked(m, m.deadline, 0);
    BothCopiesChecked(maxTtl, m);
    Append(maxTtl, both, Price(0));
    Append(maxTtl, both + [Price(0)], Enter(0, 0));
    assert both + [Price(0)] + [Enter(0, 0)] == [Receive(0, m), Receive(1, m), Price(0), Enter(0, 0)];
    assert Run(maxTtl, both + [Price(0)]).workers == map[0 := Priced(m, m.deadline), 1 := checked];
  }

  lemma BothCopiesChecked(maxTtl: nat, m: Message)
    requires Acceptable(m, 0, maxTtl)
    ensures var checked := Checked(m, m.deadline, 0);
            Run(maxTtl, [Receive(0, m), Receive(1, m)]) == State(0, map[], map[0 := checked, 1 := checked], [], [])
  {
    assert TimeToLive(m, 0, maxTtl) == m.deadline;
    Append(maxTtl, [], Receive(0, m));
    Append(maxTtl, [Receive(0, m)], Receive(1, m));
    assert [] + [Receive(0, m)] == [Receive(0, m)];
    assert [Receive(0, m)] + [Receive(1, m)] == [Receive(0, m), Receive(1, m)];
  }
}
