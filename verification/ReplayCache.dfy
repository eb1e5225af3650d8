/** The replay cache as the object behind the lock; clock readings are parameters. */
module ReplayCaches {
  import opened Admission

  class AuthenticatedReplayCache {
    var seen: Seen

    constructor ()
      ensures seen == map[]
    {
      seen := map[];
    }

    /** Drops every entry whose expiry has come and keeps the rest. */
    method Discard(now: nat)
      modifies this
      ensures seen == DiscardExpired(old(seen), now)
      ensures forall m :: m in seen <==> m in old(seen) && now < old(seen)[m]
      ensures forall m :: m in seen ==> seen[m] == old(seen)[m]
    {
      var todo := seen.Keys;
      while todo != {}
        invariant todo <= seen.Keys <= old(seen).Keys
        invariant forall m :: m in seen ==> seen[m] == old(seen)[m]
        invariant forall m :: m in old(seen) && m !in todo ==> (m in seen <==> old(seen)[m] > now)
      {
        var m :| m in todo;
        todo := todo - {m};
        if seen[m] <= now {
          seen := seen - {m};
        }
      }
    }

    method Claim(message: Message, expires: nat, discardAt: nat, now: nat) returns (admitted: bool)
      modifies this
      ensures (seen, admitted) == Admission.Claim(old(seen), message, expires, discardAt, now)
    {
      Discard(discardAt);
      if message in seen && seen[message] > now {
        return false;
      }
      seen := seen[message := expires];
      return true;
    }
  }
}
