/** Published checkpoints, `fabricfs-server/src/published_store.rs`: any number of publishers share
    a bucket whose claims are atomic, may store and still report an error, and are never undone. */
module PublishedStore {
  import opened Wrappers
  import opened Sequences

  type Key = string

  datatype Outcome = Stored | Unchanged | Conflict | TimedOut

  datatype Publisher =
    | Claiming(key: Key, payload: Bytes)
    | Classifying(key: Key, payload: Bytes)      // the claim reported an error
    | Done(key: Key, payload: Bytes, outcome: Outcome)

  datatype State = State(bucket: map<Key, Bytes>, publishers: map<nat, Publisher>)

  const Start: State := State(map[], map[])

  datatype Event =
    | Begin(id: nat, key: Key, payload: Bytes)
    | ClaimReportsSuccess(id: nat)
    | ClaimReportsError(id: nat, stored: bool)   // `stored`: the write went through all the same
    | Read(id: nat, fails: bool)                 // classify the winner's payload
    | GiveUp(id: nat)                            // attempts or time used up after a failed try

  function Step(s: State, e: Event): State {
    match e
    case Begin(id, key, payload) =>
      if id !in s.publishers then s.(publishers := s.publishers[id := Claiming(key, payload)]) else s
    case ClaimReportsSuccess(id) =>
      if id in s.publishers && s.publishers[id].Claiming? && s.publishers[id].key !in s.bucket then
        var p := s.publishers[id];
        State(s.bucket[p.key := p.payload], s.publishers[id := Done(p.key, p.payload, Stored)])
      else s
    case ClaimReportsError(id, stored) =>
      if id in s.publishers && s.publishers[id].Claiming? then
        var p := s.publishers[id];
        State(if stored && p.key !in s.bucket then s.bucket[p.key := p.payload] else s.bucket,
              s.publishers[id := Classifying(p.key, p.payload)])
      else s
    case Read(id, fails) =>
      if id in s.publishers && s.publishers[id].Classifying? then
        var p := s.publishers[id];
        s.(publishers := s.publishers[id := Classified(s.bucket, p, fails)])
      else s
    case GiveUp(id) =>
      if id in s.publishers && s.publishers[id].Claiming?
      then s.(publishers := s.publishers[id := Done(s.publishers[id].key, s.publishers[id].payload, TimedOut)])
      else s
  }

  /** The winner's payload decides; with none to be seen the claim is tried again. */
  function Classified(bucket: map<Key, Bytes>, p: Publisher, fails: bool): Publisher
    requires p.Classifying?
  {
    if fails || p.key !in bucket then Claiming(p.key, p.payload)
    else Done(p.key, p.payload, if bucket[p.key] == p.payload then Unchanged else Conflict)
  }

  function Run(s: State, events: seq<Event>): State {
    if events == [] then s else Step(Run(s, events[..|events| - 1]), events[|events| - 1])
  }

  /** Once a key has bytes they never change. */
  lemma {:induction false} WriteOnce(s: State, events: seq<Event>, key: Key)
    requires key in s.bucket
    ensures key in Run(s, events).bucket && Run(s, events).bucket[key] == s.bucket[key]
  {
    if events == [] {
    } else {
      WriteOnce(s, events[..|events| - 1], key);
    }
  }

  predicate Succeeded(p: Publisher) {
    p.Done? && (p.outcome == Stored || p.outcome == Unchanged)
  }

  /** A success means the stored bytes are the caller's; a conflict means they are not. */
  predicate Truthful(bucket: map<Key, Bytes>, p: Publisher) {
    && (Succeeded(p) ==> p.key in bucket && bucket[p.key] == p.payload)
    && (p.Done? && p.outcome == Conflict ==> p.key in bucket && bucket[p.key] != p.payload)
  }

  lemma {:induction false} TruthfulAlways(events: seq<Event>, id: nat)
    requires id in Run(Start, events).publishers
    ensures Truthful(Run(Start, events).bucket, Run(Start, events).publishers[id])
  {
    if events == [] {
    } else {
      var init := events[..|events| - 1];
      if id in Run(Start, init).publishers {
        TruthfulAlways(init, id);
      }
    }
  }

  /** Any two successful publishers of one key published the same bytes, and the later outcome of
      others never takes a success back. */
  lemma SuccessesAgree(events: seq<Event>, later: seq<Event>, a: nat, b: nat)
    requires a in Run(Start, events).publishers && b in Run(Start, events + later).publishers
    requires var p, q := Run(Start, events).publishers[a], Run(Start, events + later).publishers[b];
             Succeeded(p) && q.Done? && q.outcome != TimedOut && p.key == q.key
    ensures var p, q := Run(Start, events).publishers[a], Run(Start, events + later).publishers[b];
            Succeeded(q) <==> p.payload == q.payload
  {
    var p := Run(Start, events).publishers[a];
    TruthfulAlways(events, a);
    TruthfulAlways(events + later, b);
    RunConcat(Start, events, later);
    WriteOnce(Run(Start, events), later, p.key);
  }

  lemma {:induction false} RunConcat(s: State, a: seq<Event>, b: seq<Event>)
    ensures Run(s, a + b) == Run(Run(s, a), b)
  {
    if b == [] {
      assert a + b == a;
    } else {
      assert (a + b)[..|a + b| - 1] == a + b[..|b| - 1];
      RunConcat(s, a, b[..|b| - 1]);
    }
  }

  lemma RunAppend(events: seq<Event>, e: Event)
    ensures Run(Start, events + [e]) == Step(Run(Start, events), e)
  {
    assert (events + [e])[..|events|] == events;
  }

  /** After any run, a successful read by a publisher whose claim had failed ends it if and only if
      the key has bytes: as a conflict if and only if they differ from its own. */
  lemma ReadDecides(events: seq<Event>, id: nat)
    requires id in Run(Start, events).publishers && Run(Start, events).publishers[id].Classifying?
    ensures var s := Run(Start, events);
            var t, p := Run(Start, events + [Read(id, false)]), s.publishers[id];
            && t.bucket == s.bucket && id in t.publishers
            && (t.publishers[id].Done? <==> p.key in s.bucket)
            && (t.publishers[id] == Done(p.key, p.payload, Conflict) <==>
                  p.key in s.bucket && s.bucket[p.key] != p.payload)
            && (t.publishers[id] == Done(p.key, p.payload, Unchanged) <==>
                  p.key in s.bucket && s.bucket[p.key] == p.payload)
            && (p.key !in s.bucket ==> t.publishers[id] == Claiming(p.key, p.payload))
    ensures var s := Run(Start, events);
            var p := s.publishers[id];
            Run(Start, events + [Read(id, true)]) == s.(publishers := s.publishers[id := Claiming(p.key, p.payload)])
  {
    RunAppend(events, Read(id, false));
    RunAppend(events, Read(id, true));
  }

  /** What a publisher has been told is never revised; one that gives up is told of the timeout and
      leaves the bucket alone. */
  lemma {:induction false} OutcomeIsFinal(events: seq<Event>, later: seq<Event>, id: nat)
    requires id in Run(Start, events).publishers
    ensures var p := Run(Start, events).publishers[id];
            && id in Run(Start, events + later).publishers
            && (p.Done? ==> Run(Start, events + later).publishers[id] == p)
            && (p.Claiming? ==>
                  Run(Start, events + [GiveUp(id)])
                  == Run(Start, events).(publishers :=
                       Run(Start, events).publishers[id := Done(p.key, p.payload, TimedOut)]))
  {
    RunAppend(events, GiveUp(id));
    if later == [] {
      assert events + later == events;
    } else {
      var init, e := later[..|later| - 1], later[|later| - 1];
      OutcomeIsFinal(events, init, id);
      assert events + later == events + init + [e];
      RunAppend(events + init, e);
    }
  }

  /** A new publisher after any run. If the claim reports success it has stored its bytes; if it
      reports an error and the key can be read, the publisher is told whether the bytes there,
      perhaps its own, are the ones it wanted. */
  lemma PublisherIsTold(events: seq<Event>, id: nat, key: Key, payload: Bytes, stored: bool)
    requires id !in Run(Start, events).publishers
    ensures var before := Run(Start, events);
            var claimed := Run(Start, events + [Begin(id, key, payload)] + [ClaimReportsSuccess(id)]);
            key !in before.bucket ==>
              claimed == State(before.bucket[key := payload],
                               before.publishers[id := Done(key, payload, Outcome.Stored)])
    ensures var before := Run(Start, events);
            var after := Run(Start, events + [Begin(id, key, payload)] + [ClaimReportsError(id, stored)]
                                    + [Read(id, false)]);
            && id in after.publishers
            && after.bucket
               == (if stored && key !in before.bucket then before.bucket[key := payload] else before.bucket)
            && after.publishers[id]
               == if key in after.bucket
                  then Done(key, payload, if after.bucket[key] == payload then Unchanged else Conflict)
                  else Claiming(key, payload)
  {
    var begun := events + [Begin(id, key, payload)];
    var failed := begun + [ClaimReportsError(id, stored)];
    RunAppend(events, Begin(id, key, payload));
    RunAppend(begun, ClaimReportsSuccess(id));
    RunAppend(begun, ClaimReportsError(id, stored));
    RunAppend(failed, Read(id, false));
    var s := Run(Start, events);
    assert s.publishers[id := Claiming(key, payload)][id := Done(key, payload, Outcome.Stored)]
        == s.publishers[id := Done(key, payload, Outcome.Stored)];
  }

  predicate IsStored(s: State, id: nat, key: Key) {
    id in s.publishers && s.publishers[id].Done? && s.publishers[id].outcome == Stored && s.publishers[id].key == key
  }

  /** At most one publisher of a key is told that it stored the bytes. */
  lemma {:induction false} StoredAtMostOnce(events: seq<Event>, a: nat, b: nat, key: Key)
    requires IsStored(Run(Start, events), a, key) && IsStored(Run(Start, events), b, key)
    ensures a == b
  {
    var init, e := events[..|events| - 1], events[|events| - 1];
    var s := Run(Start, init);
    if IsStored(s, a, key) {
      TruthfulAlways(init, a);
    }
    if IsStored(s, b, key) {
      TruthfulAlways(init, b);
    }
    if IsStored(s, a, key) && IsStored(s, b, key) {
      StoredAtMostOnce(init, a, b, key);
    }
  }

  // The retry loop.

  datatype PublishedError = InvalidKey | JetStream | NotFound | IdempotencyConflict | Corrupt | Codec | Timeout
  {
    predicate Retryable() {
      JetStream?
    }
  }

  /** Tries until something other than a JetStream error comes back, at most `maxAttempts` times
      (at least once); only an error of that kind turns into a timeout. */
  method WithRetry<T>(configuredAttempts: nat, attempt: nat -> Result<T, PublishedError>, timeIsUp: nat -> bool)
    returns (result: Result<T, PublishedError>, tries: nat)
    ensures 1 <= tries <= if configuredAttempts == 0 then 1 else configuredAttempts
    ensures forall i :: 0 <= i < tries - 1 ==> attempt(i).Err? && attempt(i).error.JetStream? && !timeIsUp(i)
    ensures var last := attempt(tries - 1);
            if last.Err? && last.error.JetStream? then
              result == Err(Timeout) && (tries >= configuredAttempts || timeIsUp(tries - 1))
            else result == last
  {
    var maxAttempts := if configuredAttempts == 0 then 1 else configuredAttempts;
    tries := 0;
    while tries < maxAttempts
      invariant 0 <= tries <= maxAttempts
      invariant tries > 0 ==> tries < maxAttempts
      invariant forall i :: 0 <= i < tries ==> attempt(i).Err? && attempt(i).error.JetStream? && !timeIsUp(i)
    {
      var last := attempt(tries);
      tries := tries + 1;
      if last.Ok? || !last.error.Retryable() {
        return last, tries;
      }
      if tries == maxAttempts || timeIsUp(tries - 1) {
        return Err(Timeout), tries;
      }
    }
    assert false;
  }
}
