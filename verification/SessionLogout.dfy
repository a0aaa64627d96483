/**
  What logout ends (internal/api/auth.go). It forgets the cached session, then deletes the
  row. Whether the session is really over depends on what the cache and the requests and
  logins in flight still carry at the moment of the delete.
*/
module SessionLogout {
  import opened RevisionGuard
  import opened SessionProtocol
  import opened SessionSafety
  import opened SessionFreshness

  /** The write after which the session behind an entry was read, or that created it. */
  function ReadAt(e: Entry): nat {
    match e.value.origin
    case Loaded(sessionAt, _, _) => sessionAt
    case LoggedIn(_, _, createdAt) => createdAt
  }

  /** What decides how long an entry can be served. */
  datatype Life = Life(loadedAt: int, expiresAt: int, lastSeen: int)

  function LifeOf(e: Entry): Life {
    Life(e.value.loadedAt, e.value.expiresAt, e.value.lastSeen)
  }

  predicate Warm(l: Life, t0: int) {
    t0 < l.loadedAt + SESSION_CACHE_TTL
  }

  /** A request begun at `now` that finds such an entry pushes its expiry forward. */
  predicate Touchable(l: Life, now: int) {
    now < l.loadedAt + SESSION_CACHE_TTL && now < l.expiresAt && now - l.lastSeen >= SESSION_TOUCH_EVERY
  }

  /** A request for `key` that has not looked into the cache yet. */
  predicate Waiting(op: Op, key: Digest) {
    op.Authenticate? && op.key == key && op.pc.Begun?
  }

  /** The entry after a touch at `now`. */
  function Touched(l: Life, now: int): Life {
    Life(l.loadedAt, now + SESSION_TTL, now)
  }

  ghost predicate WaitsAt(s: State, key: Digest, now: int) {
    exists j :: 0 <= j < |s.ops| && Waiting(s.ops[j], key) && s.ops[j].now == now
  }

  /** Waiting requests begun at `nows` can touch the entry one after the other and leave it
      unexpired at `t0`. */
  ghost predicate Revives(s: State, key: Digest, l: Life, nows: seq<int>, t0: int)
    decreases |nows|
  {
    if nows == [] then t0 < l.expiresAt
    else
      WaitsAt(s, key, nows[0]) && Touchable(l, nows[0]) && Revives(s, key, Touched(l, nows[0]), nows[1..], t0)
  }

  /** An entry under `key` that no request begun at `t0` or later can be answered with: it is
      past its TTL, or past its expiry with no waiting requests to push the expiry forward. */
  ghost predicate Spent(s: State, key: Digest, l: Life, t0: int) {
    Warm(l, t0) ==> forall nows :: !Revives(s, key, l, nows, t0)
  }

  /** The same of an entry that the request holding it may still touch itself. */
  ghost predicate Untouched(s: State, key: Digest, l: Life, now: int, t0: int) {
    now < l.expiresAt ==> Spent(s, key, l, t0) && (Touchable(l, now) ==> Spent(s, key, Touched(l, now), t0))
  }

  /** An operation that cannot bring a session of `key` read before write `n` back: it is
      disarmed, or what it carries is spent. */
  ghost predicate OpSpent(s: State, op: Op, key: Digest, n: nat, t0: int) {
    match op
    case Authenticate(k, now, pc) =>
      k == key ==>
        (match pc
         case SessionRead(f, row, at) =>
           Armed(s.cache, f) && at < n ==> Untouched(s, key, Life(now, row.expiresAt, row.lastSeen), now, t0)
         case UserRead(f, row, at, _, _) =>
           Armed(s.cache, f) && at < n ==> Untouched(s, key, Life(now, row.expiresAt, row.lastSeen), now, t0)
         case Have(f, e) => Armed(s.cache, f) && ReadAt(e) < n ==> Untouched(s, key, LifeOf(e), now, t0)
         case Ready(f, e) => Armed(s.cache, f) && ReadAt(e) < n ==> Spent(s, key, LifeOf(e), t0)
         case _ => true)
    case Login(_, Created(k, e, _)) => k == key && ReadAt(e) < n ==> Spent(s, key, LifeOf(e), t0)
    case Login(_, Cleaned(k, e, _)) => k == key && ReadAt(e) < n ==> Spent(s, key, LifeOf(e), t0)
    case _ => true
  }

  ghost predicate CacheSpent(s: State, key: Digest, n: nat, t0: int) {
    key in s.cache.entries && ReadAt(s.cache.entries[key]) < n ==> Spent(s, key, LifeOf(s.cache.entries[key]), t0)
  }

  /** Neither the cache nor anything in flight still carries the session. */
  ghost predicate NothingCarries(s: State, key: Digest, n: nat, t0: int) {
    CacheSpent(s, key, n, t0) && forall i :: 0 <= i < |s.ops| ==> OpSpent(s, s.ops[i], key, n, t0)
  }

  /** Request `i` was answered from a session of `key` read before write `n`. */
  ghost predicate OldAnswer(s: State, i: nat, key: Digest, n: nat) {
    Answered(s, i) && s.ops[i].key == key && ReadAt(s.ops[i].pc.result.value) < n
  }

  // --------------------------------------------------------------- forward

  /** A request for `key` begun after the delete. */
  predicate LaterRequest(op: Op, key: Digest, n: nat, t0: int) {
    op.Authenticate? && op.key == key ==>
      && t0 <= op.now
      && match op.pc
         case SessionRead(_, _, at) => n <= at
         case UserRead(_, _, at, _, _) => n <= at
         case Have(_, e) => ReadAt(e) < n ==> e.value.expiresAt <= op.now
         case Ready(_, e) => n <= ReadAt(e)
         case Returned(Some(e)) => n <= ReadAt(e)
         case _ => true
  }

  ghost predicate Deleted(s: State, key: Digest, n: nat, t0: int, from: nat) {
    && s.WellFormed() && n <= s.Writes() && t0 <= s.clock && from <= |s.ops|
    && NothingCarries(s, key, n, t0)
    && (forall i :: from <= i < |s.ops| ==> LaterRequest(s.ops[i], key, n, t0))
  }

  /** Every request waiting in `t` was waiting in `s`, or began at `t0` or later. */
  predicate NoOlderWaiters(s: State, t: State, key: Digest, t0: int) {
    forall j :: 0 <= j < |t.ops| && Waiting(t.ops[j], key) ==>
      (j < |s.ops| && s.ops[j] == t.ops[j]) || t0 <= t.ops[j].now
  }

  lemma WaitersStep(s: State, step: Step, key: Digest, t0: int)
    requires s.WellFormed() && Enabled(s, step) && t0 <= s.clock
    ensures NoOlderWaiters(s, Apply(s, step), key, t0)
  {
    var t := Apply(s, step);
    forall j | 0 <= j < |t.ops| && Waiting(t.ops[j], key)
      ensures (j < |s.ops| && s.ops[j] == t.ops[j]) || t0 <= t.ops[j].now
    {
      if j < |s.ops| && (step.AuthenticateStep? || step.LoginStep? || step.LogoutStep? || step.FinishChange?)
         && step.i == j {
        OwnStepLeaves(s, step, key);
      } else if j < |s.ops| {
        OthersUnchanged(s, step, j);
      }
    }
  }

  lemma OwnStepLeaves(s: State, step: Step, key: Digest)
    requires s.WellFormed() && Enabled(s, step)
    requires step.AuthenticateStep? || step.LoginStep? || step.LogoutStep? || step.FinishChange?
    ensures |Apply(s, step).ops| == |s.ops| && !Waiting(Apply(s, step).ops[step.i], key)
  {
  }

  lemma SpentIsExpired(s: State, key: Digest, l: Life, t0: int)
    requires Spent(s, key, l, t0) && Warm(l, t0)
    ensures l.expiresAt <= t0
  {
    assert !Revives(s, key, l, [], t0);
  }

  /** Requests that began later than `t0` find nothing unexpired to touch. */
  lemma {:induction false} RevivedBefore(s: State, t: State, key: Digest, l: Life, nows: seq<int>, t0: int)
    returns (before: seq<int>)
    requires NoOlderWaiters(s, t, key, t0) && Revives(t, key, l, nows, t0)
    ensures Revives(s, key, l, before, t0)
    decreases |nows|
  {
    before := [];
    if nows != [] && l.expiresAt <= t0 {
      var j :| 0 <= j < |t.ops| && Waiting(t.ops[j], key) && t.ops[j].now == nows[0];
      assert s.ops[j] == t.ops[j];
      assert WaitsAt(s, key, nows[0]);
      var rest := RevivedBefore(s, t, key, Touched(l, nows[0]), nows[1..], t0);
      before := [nows[0]] + rest;
      assert before[1..] == rest;
    }
  }

  lemma SpentStays(s: State, t: State, key: Digest, l: Life, t0: int)
    requires Spent(s, key, l, t0) && NoOlderWaiters(s, t, key, t0)
    ensures Spent(t, key, l, t0)
  {
    if Warm(l, t0) {
      forall nows ensures !Revives(t, key, l, nows, t0) {
        if Revives(t, key, l, nows, t0) { var before := RevivedBefore(s, t, key, l, nows, t0); }
      }
    }
  }

  /** What a waiting request could touch stays spent when it does. */
  lemma SpentWhenTouched(s: State, key: Digest, l: Life, i: nat, t0: int)
    requires Spent(s, key, l, t0) && i < |s.ops| && Waiting(s.ops[i], key) && Touchable(l, s.ops[i].now)
    ensures Spent(s, key, Touched(l, s.ops[i].now), t0)
  {
    var now := s.ops[i].now;
    if Warm(l, t0) {
      forall nows ensures !Revives(s, key, Touched(l, now), nows, t0) {
        assert WaitsAt(s, key, now);
        assert ([now] + nows)[1..] == nows && !Revives(s, key, l, [now] + nows, t0);
      }
    }
  }

  lemma UntouchedStays(s: State, t: State, key: Digest, l: Life, now: int, t0: int)
    requires Untouched(s, key, l, now, t0) && NoOlderWaiters(s, t, key, t0)
    ensures Untouched(t, key, l, now, t0)
  {
    if now < l.expiresAt {
      SpentStays(s, t, key, l, t0);
      if Touchable(l, now) { SpentStays(s, t, key, Touched(l, now), t0); }
    }
  }

  lemma SameOpSpent(s: State, t: State, op: Op, key: Digest, n: nat, t0: int)
    requires s.WellFormed() && OpOk(s, op) && s.cache.revision <= t.cache.revision
    requires OpSpent(s, op, key, n, t0) && NoOlderWaiters(s, t, key, t0)
    ensures OpSpent(t, op, key, n, t0)
  {
    match op
    case Authenticate(k, now, SessionRead(f, row, at)) =>
      if k == key && Armed(t.cache, f) && at < n {
        UntouchedStays(s, t, key, Life(now, row.expiresAt, row.lastSeen), now, t0);
      }
    case Authenticate(k, now, UserRead(f, row, at, _, _)) =>
      if k == key && Armed(t.cache, f) && at < n {
        UntouchedStays(s, t, key, Life(now, row.expiresAt, row.lastSeen), now, t0);
      }
    case Authenticate(k, now, Have(f, e)) =>
      if k == key && Armed(t.cache, f) && ReadAt(e) < n { UntouchedStays(s, t, key, LifeOf(e), now, t0); }
    case Authenticate(k, _, Ready(f, e)) =>
      if k == key && Armed(t.cache, f) && ReadAt(e) < n { SpentStays(s, t, key, LifeOf(e), t0); }
    case Login(_, Created(k, e, _)) => if k == key && ReadAt(e) < n { SpentStays(s, t, key, LifeOf(e), t0); }
    case Login(_, Cleaned(k, e, _)) => if k == key && ReadAt(e) < n { SpentStays(s, t, key, LifeOf(e), t0); }
    case _ =>
  }

  /** The lookup: a waiting request never finds an entry it could revive. */
  lemma LookSpent(s: State, i: nat, fault: bool, key: Digest, n: nat, t0: int, from: nat)
    requires Inv(s) && Enabled(s, AuthenticateStep(i, fault)) && Deleted(s, key, n, t0, from) && s.ops[i].pc.Begun?
    ensures var t := Apply(s, AuthenticateStep(i, fault));
            OpSpent(t, t.ops[i], key, n, t0) && (from <= i ==> LaterRequest(t.ops[i], key, n, t0))
  {
    var t := Apply(s, AuthenticateStep(i, fault));
    WaitersStep(s, AuthenticateStep(i, fault), key, t0);
    assert from <= i ==> LaterRequest(s.ops[i], key, n, t0);
    if s.ops[i].key == key && t.ops[i].pc.Have? && ReadAt(s.cache.entries[key]) < n {
      var l := LifeOf(s.cache.entries[key]);
      assert Waiting(s.ops[i], key);
      SpentStays(s, t, key, l, t0);
      if Touchable(l, s.ops[i].now) {
        SpentWhenTouched(s, key, l, i, t0);
        SpentStays(s, t, key, Touched(l, s.ops[i].now), t0);
      }
      if Warm(l, t0) { SpentIsExpired(s, key, l, t0); }
    }
  }

  lemma LoadSpent(s: State, i: nat, fault: bool, key: Digest, n: nat, t0: int, from: nat)
    requires Inv(s) && Enabled(s, AuthenticateStep(i, fault)) && Deleted(s, key, n, t0, from)
    requires s.ops[i].pc.Loading? || s.ops[i].pc.SessionRead? || s.ops[i].pc.UserRead?
    ensures var t := Apply(s, AuthenticateStep(i, fault));
            OpSpent(t, t.ops[i], key, n, t0) && (from <= i ==> LaterRequest(t.ops[i], key, n, t0))
  {
    var t := Apply(s, AuthenticateStep(i, fault));
    var op := s.ops[i];
    WaitersStep(s, AuthenticateStep(i, fault), key, t0);
    assert OpSpent(s, op, key, n, t0) && (from <= i ==> LaterRequest(op, key, n, t0));
    if op.key == key && !op.pc.Loading? && Armed(s.cache, op.pc.flight) && op.pc.sessionAt < n {
      UntouchedStays(s, t, key, Life(op.now, op.pc.row.expiresAt, op.pc.row.lastSeen), op.now, t0);
    }
  }

  /** The touch: what it could extend is not carried, or is past its TTL. */
  lemma HaveSpent(s: State, i: nat, fault: bool, key: Digest, n: nat, t0: int, from: nat)
    requires Inv(s) && Enabled(s, AuthenticateStep(i, fault)) && Deleted(s, key, n, t0, from) && s.ops[i].pc.Have?
    ensures var t := Apply(s, AuthenticateStep(i, fault));
            OpSpent(t, t.ops[i], key, n, t0) && (from <= i ==> LaterRequest(t.ops[i], key, n, t0))
  {
    var t := Apply(s, AuthenticateStep(i, fault));
    var op := s.ops[i];
    WaitersStep(s, AuthenticateStep(i, fault), key, t0);
    assert OpOk(s, op) && OpSpent(s, op, key, n, t0) && (from <= i ==> LaterRequest(op, key, n, t0));
    if op.key == key && Armed(s.cache, op.pc.flight) && ReadAt(op.pc.entry) < n
      && op.now < op.pc.entry.value.expiresAt {
      SpentStays(s, t, key, LifeOf(op.pc.entry), t0);
      if Touchable(LifeOf(op.pc.entry), op.now) { SpentStays(s, t, key, Touched(LifeOf(op.pc.entry), op.now), t0); }
    }
  }

  lemma LastSpent(s: State, i: nat, fault: bool, key: Digest, n: nat, t0: int, from: nat)
    requires Inv(s) && Enabled(s, AuthenticateStep(i, fault)) && Deleted(s, key, n, t0, from)
    requires s.ops[i].pc.Ready? || s.ops[i].pc.Dropping?
    ensures var t := Apply(s, AuthenticateStep(i, fault));
            OpSpent(t, t.ops[i], key, n, t0) && (from <= i ==> LaterRequest(t.ops[i], key, n, t0))
  {
    assert from <= i ==> LaterRequest(s.ops[i], key, n, t0);
  }

  lemma LoginSpent(s: State, i: nat, fault: bool, newKey: Digest, key: Digest, n: nat, t0: int, from: nat)
    requires Inv(s) && Enabled(s, LoginStep(i, fault, newKey)) && Deleted(s, key, n, t0, from)
    ensures var t := Apply(s, LoginStep(i, fault, newKey));
            OpSpent(t, t.ops[i], key, n, t0) && LaterRequest(t.ops[i], key, n, t0)
  {
    var t := Apply(s, LoginStep(i, fault, newKey));
    WaitersStep(s, LoginStep(i, fault, newKey), key, t0);
    assert OpSpent(s, s.ops[i], key, n, t0);
    match s.ops[i].lpc
    case Created(k, e, _) => if k == key && ReadAt(e) < n { SpentStays(s, t, key, LifeOf(e), t0); }
    case _ =>
  }

  lemma RequestSpent(s: State, i: nat, fault: bool, key: Digest, n: nat, t0: int, from: nat)
    requires Inv(s) && Enabled(s, AuthenticateStep(i, fault)) && Deleted(s, key, n, t0, from)
    ensures var t := Apply(s, AuthenticateStep(i, fault));
            OpSpent(t, t.ops[i], key, n, t0) && (from <= i ==> LaterRequest(t.ops[i], key, n, t0))
  {
    if s.ops[i].pc.Begun? { LookSpent(s, i, fault, key, n, t0, from); }
    else if s.ops[i].pc.Have? { HaveSpent(s, i, fault, key, n, t0, from); }
    else if s.ops[i].pc.Ready? || s.ops[i].pc.Dropping? { LastSpent(s, i, fault, key, n, t0, from); }
    else { LoadSpent(s, i, fault, key, n, t0, from); }
  }

  lemma OpStepSpent(s: State, step: Step, i: nat, key: Digest, n: nat, t0: int, from: nat)
    requires Inv(s) && Enabled(s, step) && Deleted(s, key, n, t0, from) && i < |Apply(s, step).ops|
    ensures var t := Apply(s, step);
            OpSpent(t, t.ops[i], key, n, t0) && (from <= i ==> LaterRequest(t.ops[i], key, n, t0))
  {
    if i >= |s.ops| {
      NewOpSpent(s, step, key, n, t0);
    } else if step.AuthenticateStep? && step.i == i {
      RequestSpent(s, i, step.fault, key, n, t0, from);
    } else if step.LoginStep? && step.i == i {
      LoginSpent(s, i, step.fault, step.newKey, key, n, t0, from);
    } else {
      OtherOpSpent(s, step, i, key, n, t0, from);
    }
  }

  lemma OtherOpSpent(s: State, step: Step, i: nat, key: Digest, n: nat, t0: int, from: nat)
    requires Inv(s) && Enabled(s, step) && Deleted(s, key, n, t0, from) && i < |s.ops| && i < |Apply(s, step).ops|
    requires step.AuthenticateStep? || step.LoginStep? ==> step.i != i
    ensures var t := Apply(s, step);
            OpSpent(t, t.ops[i], key, n, t0) && (from <= i ==> LaterRequest(t.ops[i], key, n, t0))
  {
    if !((step.LogoutStep? || step.FinishChange?) && step.i == i) {
      assert OpOk(s, s.ops[i]) && OpSpent(s, s.ops[i], key, n, t0);
      assert from <= i ==> LaterRequest(s.ops[i], key, n, t0);
      StepGrows(s, step);
      OthersUnchanged(s, step, i);
      WaitersStep(s, step, key, t0);
      SameOpSpent(s, Apply(s, step), s.ops[i], key, n, t0);
    }
  }

  lemma NewOpSpent(s: State, step: Step, key: Digest, n: nat, t0: int)
    requires s.WellFormed() && Enabled(s, step) && t0 <= s.clock && |Apply(s, step).ops| > |s.ops|
    ensures var t := Apply(s, step);
            && |t.ops| == |s.ops| + 1
            && OpSpent(t, t.ops[|s.ops|], key, n, t0) && LaterRequest(t.ops[|s.ops|], key, n, t0)
  {
  }

  lemma CacheStepSpent(s: State, step: Step, key: Digest, n: nat, t0: int, from: nat)
    requires Inv(s) && Enabled(s, step) && Deleted(s, key, n, t0, from)
    ensures CacheSpent(Apply(s, step), key, n, t0)
  {
    var t := Apply(s, step);
    if key in t.cache.entries && ReadAt(t.cache.entries[key]) < n {
      CacheSources(s, step, key);
      WaitersStep(s, step, key, t0);
      if step.AuthenticateStep? || step.LoginStep? { assert OpSpent(s, s.ops[step.i], key, n, t0); }
      SpentStays(s, t, key, LifeOf(t.cache.entries[key]), t0);
    }
  }

  lemma DeletedStep(s: State, step: Step, key: Digest, n: nat, t0: int, from: nat)
    requires Inv(s) && Enabled(s, step) && Deleted(s, key, n, t0, from)
    ensures Deleted(Apply(s, step), key, n, t0, from)
  {
    var t := Apply(s, step);
    StepGrows(s, step);
    OpsGrow(s, step);
    CacheStepSpent(s, step, key, n, t0, from);
    forall i | 0 <= i < |t.ops|
      ensures OpSpent(t, t.ops[i], key, n, t0) && (from <= i ==> LaterRequest(t.ops[i], key, n, t0))
    {
      OpStepSpent(s, step, i, key, n, t0, from);
    }
  }

  lemma {:induction false} DeletedRun(s: State, steps: seq<Step>, key: Digest, n: nat, t0: int, from: nat)
    requires Inv(s) && AllEnabled(s, steps) && Deleted(s, key, n, t0, from)
    ensures Deleted(Run(s, steps), key, n, t0, from)
    decreases |steps|
  {
    if steps != [] {
      InvStep(s, steps[0]);
      DeletedStep(s, steps[0], key, n, t0, from);
      DeletedRun(Apply(s, steps[0]), steps[1..], key, n, t0, from);
    }
  }

  /** The delete of a logout that has already forgotten its session. */
  ghost predicate Deletes(s: State, l: nat) {
    Inv(s) && Enabled(s, LogoutStep(l, false)) && s.ops[l].forgotten
  }

  lemma DeleteSettles(s: State, l: nat)
    requires Deletes(s, l) && NothingCarries(s, s.ops[l].token, |s.log|, s.clock)
    ensures var t := Apply(s, LogoutStep(l, false)); Deleted(t, s.ops[l].token, |s.log|, s.clock, |t.ops|) && Inv(t)
  {
    var t, key := Apply(s, LogoutStep(l, false)), s.ops[l].token;
    InvStep(s, LogoutStep(l, false));
    WaitersStep(s, LogoutStep(l, false), key, s.clock);
    if key in t.cache.entries && ReadAt(t.cache.entries[key]) < |s.log| {
      SpentStays(s, t, key, LifeOf(t.cache.entries[key]), s.clock);
    }
    forall i | 0 <= i < |t.ops| ensures OpSpent(t, t.ops[i], key, |s.log|, s.clock) {
      if i != l {
        assert OpOk(s, s.ops[i]) && OpSpent(s, s.ops[i], key, |s.log|, s.clock);
        SameOpSpent(s, t, s.ops[i], key, |s.log|, s.clock);
      }
    }
  }

  /** When nothing carries the session at the delete, logout ends it: whatever happens
      afterwards, a request begun later that is answered for that key got a session the
      store held again after the delete. */
  lemma LogoutEndsSession(s: State, l: nat, steps: seq<Step>, i: nat)
    requires Deletes(s, l) && NothingCarries(s, s.ops[l].token, |s.log|, s.clock)
    requires AllEnabled(Apply(s, LogoutStep(l, false)), steps) && |s.ops| <= i
    requires var r := Run(Apply(s, LogoutStep(l, false)), steps); Answered(r, i) && r.ops[i].key == s.ops[l].token
    ensures var r := Run(Apply(s, LogoutStep(l, false)), steps);
            var at := ReadAt(r.ops[i].pc.result.value);
            |s.log| <= at < |r.log| && s.ops[l].token in r.log[at].store.sessions
  {
    var t := Apply(s, LogoutStep(l, false));
    DeleteSettles(s, l);
    DeletedRun(t, steps, s.ops[l].token, |s.log|, s.clock, |t.ops|);
    InvRun(t, steps);
    var r := Run(t, steps);
    assert OpOk(r, r.ops[i]) && LaterRequest(r.ops[i], s.ops[l].token, |s.log|, s.clock);
  }

  // -------------------------------------------------------------- converse

  lemma {:induction false} SameRevival(s: State, t: State, key: Digest, l: Life, nows: seq<int>, t0: int, i: nat)
    requires i < |s.ops| && |t.ops| == |s.ops| && forall j :: 0 <= j < |s.ops| && j != i ==> t.ops[j] == s.ops[j]
    requires !Waiting(s.ops[i], key) || s.ops[i].now <= l.lastSeen
    requires Revives(s, key, l, nows, t0)
    ensures Revives(t, key, l, nows, t0)
    decreases |nows|
  {
    if nows != [] {
      var j :| 0 <= j < |s.ops| && Waiting(s.ops[j], key) && s.ops[j].now == nows[0];
      assert t.ops[j] == s.ops[j];
      assert WaitsAt(t, key, nows[0]);
      SameRevival(s, t, key, Touched(l, nows[0]), nows[1..], t0, i);
    }
  }

  /** The cache serves an entry that is not spent, if need be after waiting requests have
      pushed its expiry forward. */
  lemma CacheServes(s: State, key: Digest, n: nat) returns (steps: seq<Step>, i: nat)
    requires Inv(s) && !CacheSpent(s, key, n, s.clock)
    ensures AllEnabled(s, steps) && |s.ops| <= i && OldAnswer(Run(s, steps), i, key, n)
  {
    var nows :| Revives(s, key, LifeOf(s.cache.entries[key]), nows, s.clock);
    steps, i := RevivedServes(s, key, n, nows);
  }

  lemma {:induction false} RevivedServes(s: State, key: Digest, n: nat, nows: seq<int>)
    returns (steps: seq<Step>, i: nat)
    requires s.WellFormed() && key in s.cache.entries && ReadAt(s.cache.entries[key]) < n
    requires Warm(LifeOf(s.cache.entries[key]), s.clock) && Revives(s, key, LifeOf(s.cache.entries[key]), nows, s.clock)
    ensures AllEnabled(s, steps) && |s.ops| <= i && OldAnswer(Run(s, steps), i, key, n)
    decreases |nows|
  {
    i := |s.ops|;
    if nows == [] {
      steps := CachedIsServed(s, key);
    } else {
      var l := LifeOf(s.cache.entries[key]);
      var j :| 0 <= j < |s.ops| && Waiting(s.ops[j], key) && s.ops[j].now == nows[0];
      var go := AuthenticateStep(j, false);
      var t := Revived(s, key, j);
      SameRevival(s, t, key, Touched(l, nows[0]), nows[1..], s.clock, j);
      var rest;
      rest, i := RevivedServes(t, key, n, nows[1..]);
      var s1 := Apply(s, go);
      RunCons(Apply(s1, go), go, rest);
      RunCons(s1, go, [go] + rest);
      RunCons(s, go, [go] + ([go] + rest));
      steps := [go] + ([go] + ([go] + rest));
    }
  }

  /** A waiting request finds the entry, touches it and puts it back. */
  lemma Revived(s: State, key: Digest, j: nat) returns (t: State)
    requires s.WellFormed() && key in s.cache.entries
    requires j < |s.ops| && Waiting(s.ops[j], key) && Touchable(LifeOf(s.cache.entries[key]), s.ops[j].now)
    ensures var go := AuthenticateStep(j, false);
            && Enabled(s, go) && Enabled(Apply(s, go), go) && Enabled(Apply(Apply(s, go), go), go)
            && t == Apply(Apply(Apply(s, go), go), go)
    ensures t.clock == s.clock && |t.ops| == |s.ops| && forall k :: 0 <= k < |s.ops| && k != j ==> t.ops[k] == s.ops[k]
    ensures key in t.cache.entries && ReadAt(t.cache.entries[key]) == ReadAt(s.cache.entries[key])
    ensures LifeOf(t.cache.entries[key]) == Touched(LifeOf(s.cache.entries[key]), s.ops[j].now)
  {
    var go, f, e, now := AuthenticateStep(j, false), Hit(s.cache, key), s.cache.entries[key], s.ops[j].now;
    var touched := e.(value := e.value.(lastSeen := now, expiresAt := now + SESSION_TTL));
    var s1 := Apply(s, go);
    assert s1.ops == s.ops[j := Authenticate(key, now, Have(f, e))] && s1.cache == s.cache;
    var s2 := Apply(s1, go);
    assert s2.ops == s.ops[j := Authenticate(key, now, Ready(f, touched))] && s2.cache == s.cache;
    t := Apply(s2, go);
    assert t.cache.entries[key] == touched;
  }

  /** How far an operation is from caching what it carries. */
  function Distance(op: Op): nat {
    match op
    case Authenticate(_, _, SessionRead(_, _, _)) => 4
    case Authenticate(_, _, UserRead(_, _, _, _, _)) => 3
    case Authenticate(_, _, Have(_, _)) => 2
    case Authenticate(_, _, Ready(_, _)) => 1
    case Login(_, Created(_, _, _)) => 2
    case Login(_, Cleaned(_, _, _)) => 1
    case _ => 0
  }

  /** The next step of an operation; `touch` says whether a touch succeeds. */
  function NextStep(s: State, i: nat, touch: bool): Step
    requires i < |s.ops|
  {
    match s.ops[i]
    case Authenticate(_, _, Have(_, _)) => AuthenticateStep(i, !touch)
    case Authenticate(_, _, _) => AuthenticateStep(i, false)
    case _ => LoginStep(i, true, 0)
  }

  /** The account a load has still to find. */
  predicate AccountReady(s: State, op: Op)
    requires s.WellFormed()
  {
    op.Authenticate? && op.pc.SessionRead? ==>
      op.pc.row.user in s.Db().accounts && !s.Db().accounts[op.pc.row.user].disabled
  }

  lemma SpentElsewhere(s: State, t: State, key: Digest, l: Life, i: nat)
    requires i < |s.ops| && |t.ops| == |s.ops| && !Waiting(s.ops[i], key)
    requires forall j :: 0 <= j < |s.ops| && j != i ==> t.ops[j] == s.ops[j]
    requires Spent(t, key, l, s.clock)
    ensures Spent(s, key, l, s.clock)
  {
    if Warm(l, s.clock) {
      forall nows ensures !Revives(s, key, l, nows, s.clock) {
        if Revives(s, key, l, nows, s.clock) { SameRevival(s, t, key, l, nows, s.clock, i); }
      }
    }
  }

  /** A step of a carrier caches what it carries, or brings it nearer to that. */
  ghost predicate Nearer(s: State, t: State, i: nat, key: Digest, n: nat) {
    && t.clock == s.clock && |t.ops| == |s.ops|
    && (!CacheSpent(t, key, n, s.clock)
        || (i < |s.ops| && !OpSpent(t, t.ops[i], key, n, s.clock) && Distance(t.ops[i]) < Distance(s.ops[i])))
  }

  lemma ReadingCarrier(s: State, i: nat, key: Digest, n: nat)
    requires Inv(s) && i < |s.ops| && !OpSpent(s, s.ops[i], key, n, s.clock) && AccountReady(s, s.ops[i])
    requires s.ops[i].Authenticate? && (s.ops[i].pc.SessionRead? || s.ops[i].pc.UserRead?)
    ensures Enabled(s, NextStep(s, i, false)) && Nearer(s, Apply(s, NextStep(s, i, false)), i, key, n)
  {
    var op, t := s.ops[i], Apply(s, NextStep(s, i, false));
    var l := Life(op.now, op.pc.row.expiresAt, op.pc.row.lastSeen);
    if Spent(t, key, l, s.clock) { SpentElsewhere(s, t, key, l, i); }
    if Spent(t, key, Touched(l, op.now), s.clock) { SpentElsewhere(s, t, key, Touched(l, op.now), i); }
    assert t.ops[i].pc.Have? ==> LifeOf(t.ops[i].pc.entry) == l;
  }

  lemma HoldingCarrier(s: State, i: nat, key: Digest, n: nat) returns (touch: bool)
    requires Inv(s) && i < |s.ops| && !OpSpent(s, s.ops[i], key, n, s.clock)
    requires s.ops[i].Authenticate? && s.ops[i].pc.Have?
    ensures Enabled(s, NextStep(s, i, touch)) && Nearer(s, Apply(s, NextStep(s, i, touch)), i, key, n)
  {
    var op := s.ops[i];
    var l := LifeOf(op.pc.entry);
    touch := Spent(s, key, l, s.clock);
    var t := Apply(s, NextStep(s, i, touch));
    var carried := if touch then Touched(l, op.now) else l;
    if Spent(t, key, carried, s.clock) { SpentElsewhere(s, t, key, carried, i); }
    assert t.ops[i].pc.Ready? && LifeOf(t.ops[i].pc.entry) == carried;
  }

  /** A carrier's own entry is as fit after its step, if the step changes nothing else. */
  lemma EntryStays(s: State, t: State, i: nat, key: Digest, e: Entry)
    requires i < |s.ops| && |t.ops| == |s.ops| && !Waiting(s.ops[i], key)
    requires forall j :: 0 <= j < |s.ops| && j != i ==> t.ops[j] == s.ops[j]
    requires !Spent(s, key, LifeOf(e), s.clock)
    ensures !Spent(t, key, LifeOf(e), s.clock)
  {
    if Spent(t, key, LifeOf(e), s.clock) { SpentElsewhere(s, t, key, LifeOf(e), i); }
  }

  lemma PublishingRequest(s: State, i: nat, key: Digest, n: nat)
    requires Inv(s) && i < |s.ops| && !OpSpent(s, s.ops[i], key, n, s.clock)
    requires s.ops[i].Authenticate? && s.ops[i].pc.Ready?
    ensures Enabled(s, NextStep(s, i, false)) && Nearer(s, Apply(s, NextStep(s, i, false)), i, key, n)
  {
    var op, t := s.ops[i], Apply(s, NextStep(s, i, false));
    EntryStays(s, t, i, key, op.pc.entry);
    assert t.cache.entries[key] == op.pc.entry;
  }

  lemma CleaningLogin(s: State, i: nat, key: Digest, n: nat)
    requires Inv(s) && i < |s.ops| && !OpSpent(s, s.ops[i], key, n, s.clock)
    requires s.ops[i].Login? && s.ops[i].lpc.Created?
    ensures Enabled(s, NextStep(s, i, false)) && Nearer(s, Apply(s, NextStep(s, i, false)), i, key, n)
  {
    var op, t := s.ops[i], Apply(s, NextStep(s, i, false));
    EntryStays(s, t, i, key, op.lpc.entry);
    assert t.ops[i] == Login(op.user, Cleaned(op.lpc.key, op.lpc.entry, op.lpc.now));
  }

  lemma PublishingLogin(s: State, i: nat, key: Digest, n: nat)
    requires Inv(s) && i < |s.ops| && !OpSpent(s, s.ops[i], key, n, s.clock)
    requires s.ops[i].Login? && s.ops[i].lpc.Cleaned?
    ensures Enabled(s, NextStep(s, i, false)) && Nearer(s, Apply(s, NextStep(s, i, false)), i, key, n)
  {
    var op, t := s.ops[i], Apply(s, NextStep(s, i, false));
    EntryStays(s, t, i, key, op.lpc.entry);
    assert t.cache.entries[key] == op.lpc.entry;
  }

  lemma CarrierStep(s: State, i: nat, key: Digest, n: nat) returns (step: Step)
    requires Inv(s) && i < |s.ops| && !OpSpent(s, s.ops[i], key, n, s.clock) && AccountReady(s, s.ops[i])
    ensures Enabled(s, step) && Inv(Apply(s, step)) && Nearer(s, Apply(s, step), i, key, n)
  {
    var touch := false;
    if s.ops[i].Authenticate? && (s.ops[i].pc.SessionRead? || s.ops[i].pc.UserRead?) {
      ReadingCarrier(s, i, key, n);
    } else if s.ops[i].Authenticate? && s.ops[i].pc.Have? {
      touch := HoldingCarrier(s, i, key, n);
    } else if s.ops[i].Authenticate? {
      PublishingRequest(s, i, key, n);
    } else if s.ops[i].lpc.Created? {
      CleaningLogin(s, i, key, n);
    } else {
      PublishingLogin(s, i, key, n);
    }
    step := NextStep(s, i, touch);
    InvStep(s, step);
  }

  /** Whatever still carries the session can get a later request answered with it. */
  lemma {:induction false} CarrierServes(s: State, i: nat, key: Digest, n: nat) returns (steps: seq<Step>, k: nat)
    requires Inv(s) && i < |s.ops| && !OpSpent(s, s.ops[i], key, n, s.clock)
    ensures AllEnabled(s, steps) && |s.ops| <= k && OldAnswer(Run(s, steps), k, key, n)
    decreases Distance(s.ops[i]), !AccountReady(s, s.ops[i])
  {
    var step;
    if AccountReady(s, s.ops[i]) {
      step := CarrierStep(s, i, key, n);
    } else {
      step := WithAccount(s, s.ops[i].pc.row.user, Account(false, "", "", false));
      InvStep(s, step);
      SameCarrier(s, Apply(s, step), i, key, n);
    }
    var t := Apply(s, step);
    var rest;
    if !CacheSpent(t, key, n, t.clock) {
      rest, k := CacheServes(t, key, n);
    } else {
      rest, k := CarrierServes(t, i, key, n);
    }
    RunCons(s, step, rest);
    steps := [step] + rest;
  }

  /** What is carried depends on the clock, the cache and the operations only. */
  lemma SameCarrier(s: State, t: State, i: nat, key: Digest, n: nat)
    requires t.clock == s.clock && t.cache == s.cache && t.ops == s.ops && i < |s.ops|
    ensures OpSpent(t, s.ops[i], key, n, t.clock) ==> OpSpent(s, s.ops[i], key, n, s.clock)
  {
    assert NoOlderWaiters(t, s, key, s.clock);
    forall l: Life | Spent(t, key, l, s.clock) ensures Spent(s, key, l, s.clock) {
      SpentStays(t, s, key, l, s.clock);
    }
  }

  /** No request begun after the delete is ever answered from the session as it was before. */
  ghost predicate Over(t: State, key: Digest, n: nat)
    requires t.WellFormed()
  {
    forall steps, i :: AllEnabled(t, steps) && |t.ops| <= i ==> !OldAnswer(Run(t, steps), i, key, n)
  }

  lemma NothingCarriedIsOver(s: State, l: nat)
    requires Deletes(s, l) && NothingCarries(s, s.ops[l].token, |s.log|, s.clock)
    ensures Over(Apply(s, LogoutStep(l, false)), s.ops[l].token, |s.log|)
  {
    var t, key, n := Apply(s, LogoutStep(l, false)), s.ops[l].token, |s.log|;
    forall steps, i | AllEnabled(t, steps) && |t.ops| <= i ensures !OldAnswer(Run(t, steps), i, key, n) {
      if OldAnswer(Run(t, steps), i, key, n) { LogoutEndsSession(s, l, steps, i); }
    }
  }

  lemma CarriedIsServed(t: State, key: Digest, n: nat) returns (steps: seq<Step>, i: nat)
    requires Inv(t) && !NothingCarries(t, key, n, t.clock)
    ensures AllEnabled(t, steps) && |t.ops| <= i && OldAnswer(Run(t, steps), i, key, n)
  {
    if !CacheSpent(t, key, n, t.clock) {
      steps, i := CacheServes(t, key, n);
    } else {
      var c :| 0 <= c < |t.ops| && !OpSpent(t, t.ops[c], key, n, t.clock);
      steps, i := CarrierServes(t, c, key, n);
    }
  }

  /** Exactly when logout ends the session: at the moment of the delete, no later request can
      be answered from the session as it was before, whatever happens, if and only if
      neither the cache nor a request or login in flight still carries it unspent. */
  lemma LogoutEndsExactly(s: State, l: nat)
    requires Deletes(s, l)
    ensures Over(Apply(s, LogoutStep(l, false)), s.ops[l].token, |s.log|)
            <==> NothingCarries(s, s.ops[l].token, |s.log|, s.clock)
  {
    var t, key, n := Apply(s, LogoutStep(l, false)), s.ops[l].token, |s.log|;
    if NothingCarries(s, key, n, s.clock) {
      NothingCarriedIsOver(s, l);
    } else {
      InvStep(s, LogoutStep(l, false));
      CarriedAfterDelete(s, l);
      var steps, i := CarriedIsServed(t, key, n);
    }
  }

  /** The delete itself takes nothing away from the cache or from anything in flight. */
  lemma CarriedAfterDelete(s: State, l: nat)
    requires Deletes(s, l)
    requires !NothingCarries(s, s.ops[l].token, |s.log|, s.clock)
    ensures var t := Apply(s, LogoutStep(l, false));
            !NothingCarries(t, s.ops[l].token, |s.log|, t.clock)
  {
    var t, key, n := Apply(s, LogoutStep(l, false)), s.ops[l].token, |s.log|;
    assert t.cache == s.cache && |t.ops| == |s.ops| && forall j :: 0 <= j < |s.ops| && j != l ==> t.ops[j] == s.ops[j];
    forall life: Life | Spent(t, key, life, s.clock) ensures Spent(s, key, life, s.clock) {
      SpentElsewhere(s, t, key, life, l);
    }
    if CacheSpent(s, key, n, s.clock) {
      var c :| 0 <= c < |s.ops| && !OpSpent(s, s.ops[c], key, n, s.clock);
      assert c != l && !OpSpent(t, t.ops[c], key, n, t.clock);
    }
  }

  /** A logout that has forgotten the session but not deleted it, and a request just begun. */
  lemma ForgottenAndBegun(s: State, key: Digest) returns (before: seq<Step>)
    requires s.WellFormed()
    ensures AllEnabled(s, before)
    ensures var a := Run(s, before);
            && a.log == s.log && a.clock == s.clock && |a.ops| == |s.ops| + 2 && key !in a.cache.entries
            && a.ops[|s.ops|] == Logout(key, true, false) && a.ops[|s.ops| + 1] == Authenticate(key, s.clock, Begun)
  {
    var l := |s.ops|;
    var first, second, third := BeginLogout(key), LogoutStep(l, false), BeginAuthenticate(key);
    RunSnoc(s, [], first);
    assert [] + [first] == [first];
    RunSnoc(s, [first], second);
    before := [first] + [second];
    assert Run(s, before).ops[l] == Logout(key, true, false) && key !in Run(s, before).cache.entries;
    RunSnoc(s, before, third);
    before := before + [third];
  }

  /** logout forgets before it deletes: from any state in which the session is
      good, a request between the two caches it again, and a request begun
      after logout has returned is answered. */
  lemma LogoutLeavesWindow(s: State, key: Digest) returns (before: seq<Step>, after: seq<Step>)
    requires s.WellFormed() && key in s.Db().sessions && s.clock < s.Db().sessions[key].expiresAt
    requires var u := s.Db().sessions[key].user; u in s.Db().accounts && !s.Db().accounts[u].disabled
    ensures AllEnabled(s, before)
    ensures var m := Run(s, before);
            && |m.ops| == |s.ops| + 2 && m.ops[|s.ops|] == Logout(key, true, true) && key !in m.Db().sessions
            && AllEnabled(m, after) && Answered(Run(m, after), |m.ops|)
            && Run(m, after).ops[|m.ops|].key == key
  {
    var l := |s.ops|;
    before := ForgottenAndBegun(s, key);
    var m, more := LoadsAndCaches(s, Run(s, before), before, l + 1);
    RunSnoc(s, before + more, LogoutStep(l, false));
    before := before + more + [LogoutStep(l, false)];
    var r := Run(s, before);
    after := CachedIsServed(r, key);
    assert r.ops[l] == Logout(key, true, true);
  }

  /** A request that finds nothing cached loads the session and caches it. */
  lemma LoadsAndCaches(s: State, a: State, before: seq<Step>, i: nat) returns (m: State, more: seq<Step>)
    requires s.WellFormed() && AllEnabled(s, before) && a == Run(s, before)
    requires i < |a.ops| && a.ops[i].Authenticate? && a.ops[i].pc == Begun && a.ops[i].now == a.clock
    requires var key := a.ops[i].key;
             && key !in a.cache.entries && key in a.Db().sessions && a.clock < a.Db().sessions[key].expiresAt
             && a.Db().sessions[key].user in a.Db().accounts && !a.Db().accounts[a.Db().sessions[key].user].disabled
    ensures AllEnabled(s, before + more) && m == Run(s, before + more)
    ensures m.log == a.log && m.clock == a.clock && |m.ops| == |a.ops|
    ensures forall j :: 0 <= j < |a.ops| && j != i ==> m.ops[j] == a.ops[j]
    ensures var key := a.ops[i].key;
            && key in m.cache.entries && m.cache.entries[key].value.loadedAt == m.clock
            && m.cache.entries[key].value.expiresAt > m.clock
  {
    more := [];
    assert before + more == before;
    m := a;
    for k := 0 to 6
      invariant AllEnabled(s, before + more) && m == Run(s, before + more)
      invariant LoadStage(a, m, i, k)
    {
      var step := AuthenticateStep(i, k == 4);
      NextStage(a, m, i, k);
      RunSnoc(s, before + more, step);
      assert before + more + [step] == before + (more + [step]);
      more := more + [step];
      m := Apply(m, step);
    }
  }

  /** Request `i` of `a` after `k` of its steps, nothing else having happened. */
  ghost predicate LoadStage(a: State, m: State, i: nat, k: nat) {
    && i < |a.ops| && a.ops[i].Authenticate? && m.log == a.log && m.clock == a.clock && |m.ops| == |a.ops|
    && (forall j :: 0 <= j < |a.ops| && j != i ==> m.ops[j] == a.ops[j])
    && m.ops[i].Authenticate? && m.ops[i].key == a.ops[i].key && m.ops[i].now == a.clock
    && (k < 6 ==> m.cache == a.cache)
    && match k
       case 0 => m.ops[i].pc == Begun
       case 1 => m.ops[i].pc.Loading? && m.ops[i].pc.flight.revision == a.cache.revision
       case 2 => m.ops[i].pc.SessionRead? && LoadsRow(a, m.ops[i].key, m.ops[i].pc.flight, m.ops[i].pc.row)
       case 3 => m.ops[i].pc.UserRead? && LoadsRow(a, m.ops[i].key, m.ops[i].pc.flight, m.ops[i].pc.row)
       case 4 => m.ops[i].pc.Have? && FreshLoad(a, m, m.ops[i].pc.flight, m.ops[i].pc.entry)
       case 5 => m.ops[i].pc.Ready? && FreshLoad(a, m, m.ops[i].pc.flight, m.ops[i].pc.entry)
       case _ => m.ops[i].key in m.cache.entries
                 && FreshLoad(a, m, Flight(a.cache.revision, 0), m.cache.entries[m.ops[i].key])
  }

  ghost predicate LoadsRow(a: State, key: Digest, f: Flight, row: SessionRow) {
    && f.revision == a.cache.revision && a.WellFormed()
    && key in a.Db().sessions && row == a.Db().sessions[key]
  }

  lemma NextStage(a: State, m: State, i: nat, k: nat)
    requires a.WellFormed() && k < 6 && LoadStage(a, m, i, k)
    requires var key := a.ops[i].key;
             && key !in a.cache.entries && key in a.Db().sessions && a.clock < a.Db().sessions[key].expiresAt
             && a.Db().sessions[key].user in a.Db().accounts && !a.Db().accounts[a.Db().sessions[key].user].disabled
    ensures Enabled(m, AuthenticateStep(i, k == 4))
    ensures LoadStage(a, Apply(m, AuthenticateStep(i, k == 4)), i, k + 1)
  {
    match k
    case 0 => case 1 => case 2 => case 3 => case 4 => case _ =>
  }

  ghost predicate FreshLoad(a: State, m: State, f: Flight, e: Entry) {
    f.revision == a.cache.revision && e.value.loadedAt == a.clock && e.value.expiresAt > a.clock
  }
}
