/** Server-side admission of signed messages as a state machine: any number of workers, any
    interleaving of their steps, a clock that moves between any two of them, and a sweeper.
    `authenticated_replay_or_expiry_response` and `AuthenticatedReplayCache` in
    `fabricfs-transport/src/policy.rs`, and the dispatcher's own deadline test. */
module Admission {
  import opened CacheState
  import opened Sequences

  /** A signed message. Its replay token is a function of it, so it stands for its token: a
      duplicate is the same value, and every publication uses a new inbox. */
  datatype Message = Message(requestId: string, inbox: nat, deadline: nat)

  type Seen = map<Message, nat>

  function DiscardExpired(seen: Seen, now: nat): Seen {
    map m | m in seen && seen[m] > now :: seen[m]
  }

  /** The critical section of `claim`, which reads the clock twice. */
  function Claim(seen: Seen, message: Message, expires: nat, discardAt: nat, now: nat): (Seen, bool) {
    var kept := DiscardExpired(seen, discardAt);
    if message in kept && kept[message] > now then (kept, false) else (kept[message := expires], true)
  }

  /** The tests made before the claim. */
  predicate Acceptable(message: Message, now: nat, maxTtl: nat) {
    message.deadline != 0 && now < message.deadline <= SaturatingAdd(now, maxTtl)
  }

  function TimeToLive(message: Message, now: nat, maxTtl: nat): nat {
    var latest := SaturatingAdd(now, maxTtl);
    var deadline := if message.deadline < latest then message.deadline else latest;
    if deadline < now then 0 else deadline - now
  }

  datatype Phase =
    | Checked(message: Message, ttl: nat, at: nat)   // passed the tests when the clock read `at`
    | Priced(message: Message, expires: nat)         // read the expiry, not yet in the lock
    | Admitted(message: Message)                     // the claim succeeded

  datatype State = State(
    clock: nat,
    seen: Seen,
    workers: map<nat, Phase>,
    admissions: seq<Message>,
    executions: seq<Message>)

  const Start: State := State(0, map[], map[], [], [])

  datatype Event =
    | Tick(nanos: nat)
    | Receive(worker: nat, message: Message)     // tests on arrival
    | Price(worker: nat)                         // expiry computed before taking the lock
    | Enter(worker: nat, discardAt: nat)         // the critical section
    | Dispatch(worker: nat)                      // the dispatcher's deadline test, then the handler
    | Sweep

  function Step(maxTtl: nat, s: State, e: Event): State {
    match e
    case Tick(nanos) => s.(clock := s.clock + nanos)
    case Receive(w, m) =>
      if w !in s.workers && Acceptable(m, s.clock, maxTtl)
      then s.(workers := s.workers[w := Checked(m, TimeToLive(m, s.clock, maxTtl), s.clock)]) else s
    case Price(w) =>
      if w in s.workers && s.workers[w].Checked?
      then s.(workers := s.workers[w := Priced(s.workers[w].message, s.clock + s.workers[w].ttl)]) else s
    case Enter(w, discardAt) =>
      if w in s.workers && s.workers[w].Priced? && discardAt <= s.clock then
        var m := s.workers[w].message;
        var (seen, admitted) := Claim(s.seen, m, s.workers[w].expires, discardAt, s.clock);
        if admitted
        then s.(seen := seen, workers := s.workers[w := Admitted(m)], admissions := s.admissions + [m])
        else s.(seen := seen, workers := s.workers - {w})
      else s
    case Dispatch(w) =>
      if w in s.workers && s.workers[w].Admitted? then
        var m := s.workers[w].message;
        s.(workers := s.workers - {w},
           executions := if s.clock < m.deadline then s.executions + [m] else s.executions)
      else s
    case Sweep => s.(seen := DiscardExpired(s.seen, s.clock))
  }

  function Run(maxTtl: nat, events: seq<Event>): State {
    if events == [] then Start else Step(maxTtl, Run(maxTtl, events[..|events| - 1]), events[|events| - 1])
  }

  predicate HasAdmitted(s: State, w: nat, m: Message) {
    w in s.workers && s.workers[w] == Admitted(m)
  }

  /** The replay entry of the message outlives its deadline. */
  predicate Shielded(s: State, m: Message) {
    m in s.seen && s.seen[m] >= m.deadline
  }

  /** Before a message's deadline its replay entry guards it: at most one worker is on the way to
      its handler, and none once it has run. */
  ghost predicate Guarded(s: State, m: Message) {
    s.clock < m.deadline ==>
      && (m in s.executions ==> Shielded(s, m))
      && (forall w :: HasAdmitted(s, w, m) ==> Shielded(s, m) && m !in s.executions)
      && (forall v, w :: HasAdmitted(s, v, m) && HasAdmitted(s, w, m) ==> v == w)
  }

  predicate TimelyPhase(phase: Phase, clock: nat) {
    match phase
    case Checked(m, ttl, at) => at <= clock && at + ttl == m.deadline
    case Priced(m, expires) => expires >= m.deadline
    case Admitted(_) => true
  }

  ghost predicate Safe(s: State) {
    && (forall w :: w in s.workers ==> TimelyPhase(s.workers[w], s.clock))
    && (forall m :: Guarded(s, m))
    && NoRepeats(s.executions)
  }

  lemma {:induction false} SafeAlways(maxTtl: nat, events: seq<Event>)
    ensures Safe(Run(maxTtl, events))
  {
    if events == [] {
    } else {
      SafeAlways(maxTtl, events[..|events| - 1]);
      StepKeepsSafe(maxTtl, Run(maxTtl, events[..|events| - 1]), events[|events| - 1]);
    }
  }

  lemma StepKeepsSafe(maxTtl: nat, s: State, e: Event)
    requires Safe(s)
    ensures Safe(Step(maxTtl, s, e))
  {
    forall m
      ensures Guarded(Step(maxTtl, s, e), m)
    {
      StepKeepsGuarded(maxTtl, s, e, m);
    }
    StepKeepsPhases(maxTtl, s, e);
    if e.Dispatch? && e.worker in s.workers && s.workers[e.worker].Admitted? {
      var m := s.workers[e.worker].message;
      assert Guarded(s, m) && HasAdmitted(s, e.worker, m);
    }
  }

  lemma StepKeepsPhases(maxTtl: nat, s: State, e: Event)
    requires Safe(s)
    ensures var t := Step(maxTtl, s, e); forall w :: w in t.workers ==> TimelyPhase(t.workers[w], t.clock)
  {
  }

  lemma StepKeepsGuarded(maxTtl: nat, s: State, e: Event, m: Message)
    requires Safe(s)
    ensures Guarded(Step(maxTtl, s, e), m)
  {
    var t := Step(maxTtl, s, e);
    assert Guarded(s, m);
    match e
    case Enter(w, discardAt) =>
      if w in s.workers && s.workers[w].Priced? && discardAt <= s.clock < m.deadline {
        EnterKeepsGuarded(maxTtl, s, w, discardAt, m);
      }
    case Dispatch(w) =>
      assert forall v :: HasAdmitted(t, v, m) ==> HasAdmitted(s, v, m) && v != w;
      assert w in s.workers && s.workers[w] == Admitted(m) ==> HasAdmitted(s, w, m);
    case _ =>
      assert forall v :: HasAdmitted(t, v, m) ==> HasAdmitted(s, v, m);
  }

  lemma EnterKeepsGuarded(maxTtl: nat, s: State, w: nat, discardAt: nat, m: Message)
    requires Safe(s) && w in s.workers && s.workers[w].Priced? && discardAt <= s.clock < m.deadline
    ensures Guarded(Step(maxTtl, s, Enter(w, discardAt)), m)
  {
    var t := Step(maxTtl, s, Enter(w, discardAt));
    assert Guarded(s, m) && TimelyPhase(s.workers[w], s.clock);
    assert forall v :: v != w ==> (HasAdmitted(t, v, m) <==> HasAdmitted(s, v, m));
    assert !HasAdmitted(s, w, m);
    assert Shielded(s, m) ==> Shielded(t, m);
  }

  /** However workers, clock and sweeper interleave, and however often the broker repeats it, no
      signed message reaches its handler twice. */
  lemma HandledAtMostOnce(maxTtl: nat, events: seq<Event>, i: nat, j: nat)
    requires i < j < |Run(maxTtl, events).executions|
    ensures Run(maxTtl, events).executions[i] != Run(maxTtl, events).executions[j]
  {
    SafeAlways(maxTtl, events);
  }
}
