/** Retries against the one deadline of a call. The deadline is set once, a timeout from the start,
    so an attempt that waited for its whole timeout has used it up. Clocks are one clock. */
module RetryDeadlines {
  import opened Admission
  import opened RetryingClients
  import Envelopes

  /** How long the client takes before each publication, and how long it waits for an outcome;
      an attempt that times out has waited at least the timeout. */
  datatype Timing = Timing(lead: nat -> nat, wait: nat -> nat)

  /** The clock when attempt `i` is published. */
  function PublishedAt(now: nat, timeout: nat, broker: nat -> Outcome, t: Timing, i: nat): nat
    decreases i, 0
  {
    (if i == 0 then now else EndedAt(now, timeout, broker, t, i - 1)) + t.lead(i)
  }

  /** The clock when the outcome of attempt `i` is known. */
  function EndedAt(now: nat, timeout: nat, broker: nat -> Outcome, t: Timing, i: nat): nat
    decreases i, 1
  {
    PublishedAt(now, timeout, broker, t, i) + t.wait(i) + if broker(i).TimesOut? then timeout else 0
  }

  lemma {:induction false} EndsBefore(now: nat, timeout: nat, broker: nat -> Outcome, t: Timing, j: nat, i: nat)
    requires j < i
    ensures now <= PublishedAt(now, timeout, broker, t, j)
    ensures EndedAt(now, timeout, broker, t, j) <= PublishedAt(now, timeout, broker, t, i)
    decreases i
  {
    if j == i - 1 {
      StartsFromNow(now, timeout, broker, t, j);
    } else {
      EndsBefore(now, timeout, broker, t, j, i - 1);
    }
  }

  lemma {:induction false} StartsFromNow(now: nat, timeout: nat, broker: nat -> Outcome, t: Timing, i: nat)
    ensures now <= PublishedAt(now, timeout, broker, t, i)
  {
    if i == 0 {
    } else {
      StartsFromNow(now, timeout, broker, t, i - 1);
    }
  }

  /** The message arrived at the server before its deadline at step `n`. */
  predicate InTimeAt(maxTtl: nat, events: seq<Event>, m: Message, n: nat)
    requires n < |events|
  {
    events[n].Receive? && events[n].message == m && Run(maxTtl, events[..n]).clock < m.deadline
  }

  predicate ArrivedInTime(maxTtl: nat, events: seq<Event>, m: Message) {
    exists n :: 0 <= n < |events| && InTimeAt(maxTtl, events, m, n)
  }

  lemma StillInTime(maxTtl: nat, init: seq<Event>, e: Event, m: Message)
    requires ArrivedInTime(maxTtl, init, m)
    ensures ArrivedInTime(maxTtl, init + [e], m)
  {
    var n :| 0 <= n < |init| && InTimeAt(maxTtl, init, m, n);
    assert init[..n] == (init + [e])[..n];
    assert InTimeAt(maxTtl, init + [e], m, n);
  }

  /** Only what arrived before its deadline is ever worked on or handled. */
  lemma {:induction false} HandledInTime(maxTtl: nat, events: seq<Event>)
    ensures var s := Run(maxTtl, events);
            && (forall w :: w in s.workers ==> ArrivedInTime(maxTtl, events, s.workers[w].message))
            && (forall m :: m in s.executions ==> ArrivedInTime(maxTtl, events, m))
  {
    if events == [] {
    } else {
      var init, e := events[..|events| - 1], events[|events| - 1];
      HandledInTime(maxTtl, init);
      forall m | ArrivedInTime(maxTtl, init, m)
        ensures ArrivedInTime(maxTtl, events, m)
      {
        StillInTime(maxTtl, init, e, m);
        assert events == init + [e];
      }
      if e.Receive? && Acceptable(e.message, Run(maxTtl, init).clock, maxTtl) {
        assert InTimeAt(maxTtl, events, e.message, |init|);
      }
    }
  }

  /** A publication is executed only if every earlier attempt of its call had ended before the
      deadline; in particular none of them had timed out. */
  lemma RetryExecutedOnlyEarly(maxTtl: nat, events: seq<Event>, request: Envelopes.RequestEnvelope, scope: string,
                               now: nat, timeout: nat, broker: nat -> Outcome, t: Timing, x: Exchange, i: nat, j: nat)
    requires x.request == Scoped(request, scope, now, timeout)
    requires j < i < |x.published| && IsFor(x.request, x.published[i])
    requires forall n :: 0 <= n < |events| && events[n].Receive? && events[n].message == x.published[i] ==>
               PublishedAt(now, timeout, broker, t, i) <= Run(maxTtl, events[..n]).clock
    requires x.published[i] in Run(maxTtl, events).executions
    ensures EndedAt(now, timeout, broker, t, j) < x.request.deadline && !broker(j).TimesOut?
  {
    HandledInTime(maxTtl, events);
    var n :| 0 <= n < |events| && InTimeAt(maxTtl, events, x.published[i], n);
    EndsBefore(now, timeout, broker, t, j, i);
  }
}
