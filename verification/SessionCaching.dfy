/** The session cache as the object the API holds (internal/api/auth_session.go):
    each method is one section under the mutex, proved to take exactly the
    protocol's step. */
module SessionCaching {
  import opened RevisionGuard
  import P = SessionProtocol

  class Sessions {
    var revision: nat
    var sessions: map<P.Digest, P.Entry>

    ghost function View(): P.SessionCache
      reads this
    {
      Cache(revision, sessions)
    }

    constructor ()
      ensures View() == Cache(0, map[])
    {
      revision, sessions := 0, map[];
    }

    /** The first section of authenticate: the cached entry, if it is young
        enough to serve, and the flight that follows. */
    method Look(key: P.Digest, now: int, writes: nat) returns (cached: bool, flight: Flight)
      ensures cached <==> key in sessions && now - sessions[key].value.loadedAt < P.SESSION_CACHE_TTL
      ensures flight == if cached then Hit(View(), key) else Miss(View(), writes)
    {
      cached := key in sessions;
      if cached { cached := now - sessions[key].value.loadedAt < P.SESSION_CACHE_TTL; }
      flight := Flight(revision, if cached then sessions[key].since else writes);
    }

    /** Caches `e` under `key`, first dropping entries past their TTL if the
        cache is full. */
    method StoreLocked(key: P.Digest, e: P.Entry, now: int)
      modifies this
      ensures View() == P.StoreLocked(old(View()), key, e, now)
    {
      if |sessions| >= P.SESSION_CACHE_PRUNE {
        var todo := sessions.Keys;
        ghost var before := sessions;
        while todo != {}
          invariant todo <= before.Keys
          invariant revision == old(revision)
          invariant sessions == map k | k in before &&
            (k in todo || now - before[k].value.loadedAt < P.SESSION_CACHE_TTL) :: before[k]
          decreases todo
        {
          var k :| k in todo;
          if now - sessions[k].value.loadedAt >= P.SESSION_CACHE_TTL { sessions := sessions - {k}; }
          todo := todo - {k};
        }
      }
      sessions := sessions[key := e];
    }

    /** The last section of authenticate. */
    method StoreGuarded(flight: Flight, key: P.Digest, e: P.Entry, now: int)
      modifies this
      ensures View() == P.StoreGuarded(old(View()), flight, key, e, now)
    {
      if revision == flight.revision { StoreLocked(key, e, now); }
    }

    method Forget(key: P.Digest)
      modifies this
      ensures View() == RevisionGuard.Forget(old(View()), key)
    {
      revision := revision + 1;
      sessions := sessions - {key};
    }

    method ForgetUser(user: P.UserId)
      modifies this
      ensures View() == ForgetOwner(old(View()), user)
    {
      revision := revision + 1;
      var todo := sessions.Keys;
      ghost var before := sessions;
      while todo != {}
        invariant todo <= before.Keys
        invariant revision == old(revision) + 1
        invariant sessions == map k | k in before && (k in todo || before[k].owner != user) :: before[k]
        decreases todo
      {
        var k :| k in todo;
        if sessions[k].owner == user { sessions := sessions - {k}; }
        todo := todo - {k};
      }
    }
  }

  /** Pruning is invisible: whoever looks later finds what would have been found without it,
      and a cache that was full holds no entry past its TTL afterwards. */
  lemma PruningIsInvisible(c: P.SessionCache, now: int, key: P.Digest, later: int)
    requires now <= later
    ensures var served := (d: P.SessionCache) =>
              key in d.entries && later - d.entries[key].value.loadedAt < P.SESSION_CACHE_TTL;
            && served(P.Pruned(c, now)) == served(c)
            && (served(c) ==> P.Pruned(c, now).entries[key] == c.entries[key])
            && P.Pruned(c, now).revision == c.revision
    ensures |c.entries| >= P.SESSION_CACHE_PRUNE ==>
              forall k :: k in P.Pruned(c, now).entries ==>
                now - P.Pruned(c, now).entries[k].value.loadedAt < P.SESSION_CACHE_TTL
  {
  }
}
