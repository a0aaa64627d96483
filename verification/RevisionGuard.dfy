/**
  The revision guard shared by the session cache and the assistant-settings cache.

  A reader notes the cache revision, reads the store without the lock, and
  publishes what it built only if the revision has not moved. A writer updates
  the store first, then bumps the revision and drops the owner's entries.

  The store's successful writes are numbered. `since` on an entry or a flight
  is a write number that every read behind it is at or after. It is proof
  bookkeeping: no operation branches on it.
*/
module RevisionGuard {
  datatype Stamped<Owner, Value> = Stamped(owner: Owner, since: nat, value: Value)

  datatype Cache<!Key, Owner, Value> = Cache(revision: nat, entries: map<Key, Stamped<Owner, Value>>)

  /** A reader between its two lock sections: the revision it noted, and the
      write number its reads are at or after. */
  datatype Flight = Flight(revision: nat, since: nat)

  function Miss<K, O, V>(c: Cache<K, O, V>, writes: nat): Flight {
    Flight(c.revision, writes)
  }

  function Hit<K, O, V>(c: Cache<K, O, V>, key: K): Flight
    requires key in c.entries
  {
    Flight(c.revision, c.entries[key].since)
  }

  function Put<K, O, V>(c: Cache<K, O, V>, key: K, e: Stamped<O, V>): Cache<K, O, V> {
    c.(entries := c.entries[key := e])
  }

  function Publish<K, O, V>(c: Cache<K, O, V>, f: Flight, key: K, e: Stamped<O, V>): Cache<K, O, V> {
    if c.revision == f.revision then Put(c, key, e) else c
  }

  function Forget<K, O, V>(c: Cache<K, O, V>, key: K): Cache<K, O, V> {
    Cache(c.revision + 1, c.entries - {key})
  }

  function ForgetOwner<K, O(==), V>(c: Cache<K, O, V>, owner: O): Cache<K, O, V> {
    Cache(c.revision + 1, map k | k in c.entries && c.entries[k].owner != owner :: c.entries[k])
  }

  /** Every cached entry is acceptable. */
  ghost predicate Settled<K, O, V>(c: Cache<K, O, V>, ok: Stamped<O, V> -> bool) {
    forall k :: k in c.entries ==> ok(c.entries[k])
  }

  /** `f` can still publish: nothing was forgotten since it looked. */
  predicate Armed<K, O, V>(c: Cache<K, O, V>, f: Flight) {
    f.revision == c.revision
  }

  /** A flight that can still publish started at or after write `n`. */
  predicate Harmless<K, O, V>(c: Cache<K, O, V>, f: Flight, n: nat) {
    f.revision <= c.revision && (Armed(c, f) ==> n <= f.since)
  }

  /** `ok` only ever rejects what was read about `owner` before write `n`. */
  ghost predicate Tolerates<O(!new), V(!new)>(ok: Stamped<O, V> -> bool, owner: O, n: nat) {
    forall e: Stamped<O, V> :: e.owner != owner || n <= e.since ==> ok(e)
  }

  /** Forgetting an owner settles the cache, and disarms every flight begun earlier. */
  lemma {:induction false} ForgetOwnerSettles<K, O(!new), V(!new)>(
    c: Cache<K, O, V>, owner: O, n: nat, ok: Stamped<O, V> -> bool, flights: seq<Flight>)
    requires Tolerates(ok, owner, n)
    requires forall i :: 0 <= i < |flights| ==> flights[i].revision <= c.revision
    ensures Settled(ForgetOwner(c, owner), ok)
    ensures forall i :: 0 <= i < |flights| ==> !Armed(ForgetOwner(c, owner), flights[i])
  {
  }

  /** A guarded publication of a load keeps the cache settled, whichever way
      the guard goes. */
  lemma {:induction false} PublishKeepsSettled<K, O(!new), V(!new)>(
    c: Cache<K, O, V>, f: Flight, key: K, e: Stamped<O, V>, owner: O, n: nat, ok: Stamped<O, V> -> bool)
    requires Settled(c, ok) && Tolerates(ok, owner, n)
    requires Harmless(c, f, n) && f.since <= e.since
    ensures Settled(Publish(c, f, key, e), ok)
  {
  }
}
