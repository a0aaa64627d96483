/**
  What the session protocol guarantees over every run: principals are genuine
  and recent, and an account change that has finished is seen by every later
  request, unless a login that had already read the old row is still in flight.
*/
module SessionSafety {
  import opened RevisionGuard
  import opened SessionProtocol

  // ---------------------------------------------------------------- invariant

  /** Entry `e` under `key` is what the store held: the session, the row and the
      grants were read at the recorded writes, in that order (a login creates
      the session instead, after them), and no later write is older than
      `loadedAt`. */
  ghost predicate Genuine(log: seq<Commit>, key: Digest, e: Entry) {
    var o := e.value.origin;
    && e.since <= o.rowAt <= o.grantsAt < |log|
    && e.owner in log[o.rowAt].store.accounts
    && !log[o.rowAt].store.accounts[e.owner].disabled
    && e.value.principal ==
       PrincipalOf(e.owner, log[o.rowAt].store.accounts[e.owner], GrantsOf(log[o.grantsAt].store, e.owner))
    && (forall j :: o.grantsAt < j < |log| ==> e.value.loadedAt <= log[j].at)
    && (o.Loaded? ==>
          && e.since <= o.sessionAt <= o.rowAt
          && key in log[o.sessionAt].store.sessions
          && log[o.sessionAt].store.sessions[key].user == e.owner
          && (forall j :: e.since < j < |log| ==> e.value.loadedAt <= log[j].at))
    && (o.LoggedIn? ==> o.grantsAt < o.createdAt < |log| && key in log[o.createdAt].store.sessions)
  }

  ghost predicate Looking(s: State, f: Flight)
    requires s.WellFormed()
  {
    f.revision <= s.cache.revision && f.since <= s.Writes()
  }

  ghost predicate LoadingSince(s: State, f: Flight, now: int)
    requires s.WellFormed()
  {
    && Looking(s, f)
    && (forall j :: f.since < j < |s.log| ==> now <= s.log[j].at)
  }

  ghost predicate ReadRow(s: State, u: UserId, a: Account, rowAt: nat)
    requires s.WellFormed()
  {
    rowAt < |s.log| && u in s.log[rowAt].store.accounts && s.log[rowAt].store.accounts[u] == a
  }

  ghost predicate ReadSession(s: State, key: Digest, row: SessionRow, sessionAt: nat)
    requires s.WellFormed()
  {
    && sessionAt < |s.log| && key in s.log[sessionAt].store.sessions
    && s.log[sessionAt].store.sessions[key].user == row.user
  }

  ghost predicate AuthOk(s: State, key: Digest, now: int, pc: AuthPc)
    requires s.WellFormed()
  {
    && now <= s.clock
    && match pc
       case Loading(f) => LoadingSince(s, f, now)
       case SessionRead(f, row, sessionAt) =>
         LoadingSince(s, f, now) && f.since <= sessionAt && ReadSession(s, key, row, sessionAt)
       case UserRead(f, row, sessionAt, a, rowAt) =>
         && LoadingSince(s, f, now) && f.since <= sessionAt <= rowAt && ReadSession(s, key, row, sessionAt)
         && ReadRow(s, row.user, a, rowAt) && !a.disabled
       case Have(f, e) => Looking(s, f) && f.since <= e.since && Served(s, key, now, e)
       case Ready(f, e) => Looking(s, f) && f.since <= e.since && Served(s, key, now, e)
       case Returned(Some(e)) => Served(s, key, now, e)
       case _ => true
  }

  ghost predicate Served(s: State, key: Digest, now: int, e: Entry)
    requires s.WellFormed()
  {
    && Genuine(s.log, key, e) && e.value.loadedAt <= s.clock
    && now - e.value.loadedAt < SESSION_CACHE_TTL
  }

  ghost predicate LoginOk(s: State, user: UserId, pc: LoginPc)
    requires s.WellFormed()
  {
    match pc
    case RowRead(a, rowAt) => ReadRow(s, user, a, rowAt)
    case Verified(a, rowAt, now) => ReadRow(s, user, a, rowAt) && !a.disabled && now <= s.clock
    case GrantsRead(a, rowAt, now, grants, grantsAt) =>
      && ReadRow(s, user, a, rowAt) && !a.disabled && now <= s.clock
      && rowAt <= grantsAt < |s.log| && grants == GrantsOf(s.log[grantsAt].store, user)
      && (forall j :: grantsAt < j < |s.log| ==> now <= s.log[j].at)
    case Created(key, e, now) => e.owner == user && Genuine(s.log, key, e) && JustCreated(e, now) && now <= s.clock
    case Cleaned(key, e, now) => e.owner == user && Genuine(s.log, key, e) && JustCreated(e, now) && now <= s.clock
    case LoginOver => true
  }

  ghost predicate JustCreated(e: Entry, now: int) {
    e.value.loadedAt == now && e.value.expiresAt == now + SESSION_TTL
  }

  ghost predicate OpOk(s: State, op: Op)
    requires s.WellFormed()
  {
    match op
    case Authenticate(key, now, pc) => AuthOk(s, key, now, pc)
    case Login(user, pc) => LoginOk(s, user, pc)
    case Logout(_, _, _) => true
    case Change(_, at, _) => at < |s.log|
  }

  ghost predicate Inv(s: State) {
    && s.WellFormed()
    && (forall j :: 0 <= j < |s.log| ==> s.log[j].at <= s.clock)
    && (forall k :: k in s.cache.entries ==>
          Genuine(s.log, k, s.cache.entries[k]) && s.cache.entries[k].value.loadedAt <= s.clock)
    && (forall i :: 0 <= i < |s.ops| ==> OpOk(s, s.ops[i]))
  }

  // ------------------------------------------------------------- preservation

  /** Time passes and writes are appended; nothing written before changes. */
  ghost predicate Grows(s: State, t: State) {
    && s.WellFormed() && t.WellFormed()
    && s.log <= t.log && s.clock <= t.clock && s.cache.revision <= t.cache.revision
    && (forall j :: |s.log| <= j < |t.log| ==> s.clock <= t.log[j].at)
  }

  lemma StepGrows(s: State, step: Step)
    requires s.WellFormed() && Enabled(s, step)
    ensures Grows(s, Apply(s, step))
  {
  }

  lemma GenuineGrows(s: State, t: State, key: Digest, e: Entry)
    requires Grows(s, t) && Genuine(s.log, key, e) && e.value.loadedAt <= s.clock
    ensures Genuine(t.log, key, e)
  {
    forall j | 0 <= j < |s.log| ensures t.log[j] == s.log[j] {}
  }

  lemma OpOkGrows(s: State, t: State, op: Op)
    requires Grows(s, t) && OpOk(s, op)
    ensures OpOk(t, op)
  {
    forall j | 0 <= j < |s.log| ensures t.log[j] == s.log[j] {}
    match op
    case Authenticate(key, now, Have(f, e)) => GenuineGrows(s, t, key, e);
    case Authenticate(key, now, Ready(f, e)) => GenuineGrows(s, t, key, e);
    case Authenticate(key, now, Returned(Some(e))) => GenuineGrows(s, t, key, e);
    case Login(user, Created(key, e, _)) => GenuineGrows(s, t, key, e);
    case Login(user, Cleaned(key, e, _)) => GenuineGrows(s, t, key, e);
    case _ =>
  }

  /** The entries a step leaves in the cache are old ones or the one it publishes. */
  lemma CacheSources(s: State, step: Step, k: Digest)
    requires s.WellFormed() && Enabled(s, step)
    requires k in Apply(s, step).cache.entries
    ensures var e := Apply(s, step).cache.entries[k];
            || (k in s.cache.entries && e == s.cache.entries[k])
            || (step.AuthenticateStep? && s.ops[step.i].key == k && s.ops[step.i].pc.Ready?
                && e == s.ops[step.i].pc.entry && s.ops[step.i].pc.flight.revision == s.cache.revision)
            || (step.LoginStep? && s.ops[step.i].lpc.Cleaned? && s.ops[step.i].lpc.key == k
                && e == s.ops[step.i].lpc.entry)
  {
  }

  /** The lookup of a request: its flight, and the entry it may have hit. */
  lemma BegunStepOk(s: State, i: nat, fault: bool)
    requires Inv(s) && Enabled(s, AuthenticateStep(i, fault)) && s.ops[i].pc.Begun?
    ensures OpOk(Apply(s, AuthenticateStep(i, fault)), Apply(s, AuthenticateStep(i, fault)).ops[i])
  {
    var op := s.ops[i];
    assert OpOk(s, op);
    var t := Apply(s, AuthenticateStep(i, fault));
    if t.ops[i].pc.Have? {
      assert Genuine(s.log, op.key, s.cache.entries[op.key]);
      assert AuthOk(t, op.key, op.now, t.ops[i].pc);
    } else {
      assert LoadingSince(t, t.ops[i].pc.flight, op.now);
    }
  }

  /** The first two reads of loadSession. */
  lemma SessionReadOk(s: State, i: nat, fault: bool)
    requires Inv(s) && Enabled(s, AuthenticateStep(i, fault)) && s.ops[i].pc.Loading?
    ensures OpOk(Apply(s, AuthenticateStep(i, fault)), Apply(s, AuthenticateStep(i, fault)).ops[i])
  {
    assert OpOk(s, s.ops[i]);
  }

  lemma RowReadOk(s: State, i: nat, fault: bool)
    requires Inv(s) && Enabled(s, AuthenticateStep(i, fault)) && s.ops[i].pc.SessionRead?
    ensures OpOk(Apply(s, AuthenticateStep(i, fault)), Apply(s, AuthenticateStep(i, fault)).ops[i])
  {
    assert OpOk(s, s.ops[i]);
  }

  /** The third: a principal. */
  lemma GrantsStepOk(s: State, i: nat, fault: bool)
    requires Inv(s) && Enabled(s, AuthenticateStep(i, fault)) && s.ops[i].pc.UserRead?
    ensures OpOk(Apply(s, AuthenticateStep(i, fault)), Apply(s, AuthenticateStep(i, fault)).ops[i])
  {
    var op := s.ops[i];
    assert OpOk(s, op);
    var t := Apply(s, AuthenticateStep(i, fault));
    if !fault {
      assert Genuine(s.log, op.key, t.ops[i].pc.entry);
      assert AuthOk(t, op.key, op.now, t.ops[i].pc);
    }
  }

  /** Touching changes neither what was read nor `loadedAt`. */
  lemma TouchedIsServed(s: State, key: Digest, now: int, e: Entry, seen: int, expires: int)
    requires s.WellFormed() && Served(s, key, now, e)
    ensures Served(s, key, now, e.(value := e.value.(lastSeen := seen, expiresAt := expires)))
  {
  }

  lemma ServedGrows(s: State, t: State, key: Digest, now: int, e: Entry)
    requires Grows(s, t) && Served(s, key, now, e)
    ensures Served(t, key, now, e)
  {
    GenuineGrows(s, t, key, e);
  }

  /** What a request does with the entry it holds. */
  lemma HaveNext(s: State, i: nat, fault: bool)
    requires s.WellFormed() && Enabled(s, AuthenticateStep(i, fault)) && s.ops[i].pc.Have?
    ensures var op, t := s.ops[i], Apply(s, AuthenticateStep(i, fault));
            var e := op.pc.entry;
            var touched := e.(value := e.value.(lastSeen := op.now, expiresAt := op.now + SESSION_TTL));
            && (t.ops[i] == op.(pc := Dropping) || t.ops[i] == op.(pc := Ready(op.pc.flight, e))
                || t.ops[i] == op.(pc := Ready(op.pc.flight, touched)))
  {
  }

  lemma HeldStaysServed(s: State, t: State, op: Op)
    requires Grows(s, t) && op.Authenticate? && op.pc.Have? && OpOk(s, op)
    ensures OpOk(t, op.(pc := Ready(op.pc.flight, op.pc.entry)))
    ensures var e := op.pc.entry;
            OpOk(t, op.(pc := Ready(op.pc.flight,
                                    e.(value := e.value.(lastSeen := op.now, expiresAt := op.now + SESSION_TTL)))))
  {
    ServedGrows(s, t, op.key, op.now, op.pc.entry);
    TouchedIsServed(t, op.key, op.now, op.pc.entry, op.now, op.now + SESSION_TTL);
  }

  lemma TouchStepOk(s: State, i: nat, fault: bool)
    requires Inv(s) && Enabled(s, AuthenticateStep(i, fault)) && s.ops[i].pc.Have?
    ensures OpOk(Apply(s, AuthenticateStep(i, fault)), Apply(s, AuthenticateStep(i, fault)).ops[i])
  {
    assert OpOk(s, s.ops[i]);
    StepGrows(s, AuthenticateStep(i, fault));
    HaveNext(s, i, fault);
    HeldStaysServed(s, Apply(s, AuthenticateStep(i, fault)), s.ops[i]);
  }

  lemma LastStepOk(s: State, i: nat, fault: bool)
    requires Inv(s) && Enabled(s, AuthenticateStep(i, fault)) && (s.ops[i].pc.Ready? || s.ops[i].pc.Dropping?)
    ensures OpOk(Apply(s, AuthenticateStep(i, fault)), Apply(s, AuthenticateStep(i, fault)).ops[i])
  {
    assert OpOk(s, s.ops[i]);
    var t := Apply(s, AuthenticateStep(i, fault));
    assert AuthOk(t, s.ops[i].key, s.ops[i].now, t.ops[i].pc);
  }

  lemma LoginStepOk(s: State, i: nat, fault: bool, newKey: Digest)
    requires Inv(s) && Enabled(s, LoginStep(i, fault, newKey))
    ensures OpOk(Apply(s, LoginStep(i, fault, newKey)), Apply(s, LoginStep(i, fault, newKey)).ops[i])
  {
    assert OpOk(s, s.ops[i]);
    StepGrows(s, LoginStep(i, fault, newKey));
    if s.ops[i].lpc.GrantsRead? {
      OpenedOk(s, i, fault, newKey);
    } else if s.ops[i].lpc.Created? {
      GenuineGrows(s, Apply(s, LoginStep(i, fault, newKey)), s.ops[i].lpc.key, s.ops[i].lpc.entry);
    }
  }

  /** CreateSession. */
  lemma OpenedOk(s: State, i: nat, fault: bool, newKey: Digest)
    requires Inv(s) && Enabled(s, LoginStep(i, fault, newKey)) && s.ops[i].lpc.GrantsRead?
    ensures OpOk(Apply(s, LoginStep(i, fault, newKey)), Apply(s, LoginStep(i, fault, newKey)).ops[i])
  {
    var t := Apply(s, LoginStep(i, fault, newKey));
    assert OpOk(s, s.ops[i]);
    forall j | 0 <= j < |s.log| ensures t.log[j] == s.log[j] {}
  }

  lemma CacheStepOk(s: State, step: Step, k: Digest)
    requires Inv(s) && Enabled(s, step) && k in Apply(s, step).cache.entries
    ensures var t := Apply(s, step);
            Genuine(t.log, k, t.cache.entries[k]) && t.cache.entries[k].value.loadedAt <= t.clock
  {
    var t := Apply(s, step);
    StepGrows(s, step);
    CacheSources(s, step, k);
    if step.AuthenticateStep? || step.LoginStep? { assert OpOk(s, s.ops[step.i]); }
    GenuineGrows(s, t, k, t.cache.entries[k]);
  }

  /** A step changes at most the operation it names. */
  lemma OthersUnchanged(s: State, step: Step, i: nat)
    requires s.WellFormed() && Enabled(s, step) && i < |s.ops|
    requires (step.AuthenticateStep? || step.LoginStep? || step.LogoutStep? || step.FinishChange?) ==> step.i != i
    ensures |s.ops| <= |Apply(s, step).ops| && Apply(s, step).ops[i] == s.ops[i]
  {
  }

  lemma AuthenticateStepOk(s: State, i: nat, fault: bool)
    requires Inv(s) && Enabled(s, AuthenticateStep(i, fault))
    ensures OpOk(Apply(s, AuthenticateStep(i, fault)), Apply(s, AuthenticateStep(i, fault)).ops[i])
  {
    if s.ops[i].pc.Begun? { BegunStepOk(s, i, fault); }
    else if s.ops[i].pc.Loading? { SessionReadOk(s, i, fault); }
    else if s.ops[i].pc.SessionRead? { RowReadOk(s, i, fault); }
    else if s.ops[i].pc.UserRead? { GrantsStepOk(s, i, fault); }
    else if s.ops[i].pc.Have? { TouchStepOk(s, i, fault); }
    else { LastStepOk(s, i, fault); }
  }

  lemma NewOpOk(s: State, step: Step)
    requires Inv(s) && Enabled(s, step) && |Apply(s, step).ops| > |s.ops|
    ensures |Apply(s, step).ops| == |s.ops| + 1 && OpOk(Apply(s, step), Apply(s, step).ops[|s.ops|])
  {
  }

  lemma SimpleStepOk(s: State, step: Step)
    requires Inv(s) && Enabled(s, step) && (step.LogoutStep? || step.FinishChange?)
    ensures OpOk(Apply(s, step), Apply(s, step).ops[step.i])
  {
    assert OpOk(s, s.ops[step.i]);
  }

  lemma OwnStepOk(s: State, step: Step)
    requires Inv(s) && Enabled(s, step)
    requires step.AuthenticateStep? || step.LoginStep? || step.LogoutStep? || step.FinishChange?
    ensures step.i < |Apply(s, step).ops| && OpOk(Apply(s, step), Apply(s, step).ops[step.i])
  {
    if step.AuthenticateStep? {
      AuthenticateStepOk(s, step.i, step.fault);
    } else if step.LoginStep? {
      LoginStepOk(s, step.i, step.fault, step.newKey);
    } else {
      SimpleStepOk(s, step);
    }
  }

  lemma OpStepOk(s: State, step: Step, i: nat)
    requires Inv(s) && Enabled(s, step) && i < |Apply(s, step).ops|
    ensures OpOk(Apply(s, step), Apply(s, step).ops[i])
  {
    if i >= |s.ops| {
      NewOpOk(s, step);
    } else if (step.AuthenticateStep? || step.LoginStep? || step.LogoutStep? || step.FinishChange?) && step.i == i {
      OwnStepOk(s, step);
    } else {
      StepGrows(s, step);
      OthersUnchanged(s, step, i);
      OpOkGrows(s, Apply(s, step), s.ops[i]);
    }
  }

  lemma InvStep(s: State, step: Step)
    requires Inv(s) && Enabled(s, step)
    ensures Inv(Apply(s, step))
  {
    var t := Apply(s, step);
    StepGrows(s, step);
    forall k | k in t.cache.entries
      ensures Genuine(t.log, k, t.cache.entries[k]) && t.cache.entries[k].value.loadedAt <= t.clock
    {
      CacheStepOk(s, step, k);
    }
    forall i | 0 <= i < |t.ops| ensures OpOk(t, t.ops[i]) { OpStepOk(s, step, i); }
    LogTimes(s, t);
  }

  lemma LogTimes(s: State, t: State)
    requires Grows(s, t) && |t.log| <= |s.log| + 1
    requires forall j :: |s.log| <= j < |t.log| ==> t.log[j].at == s.clock
    requires forall j :: 0 <= j < |s.log| ==> s.log[j].at <= s.clock
    ensures forall j :: 0 <= j < |t.log| ==> t.log[j].at <= t.clock
  {
    forall j | 0 <= j < |s.log| ensures t.log[j] == s.log[j] {}
  }

  lemma {:induction false} InvRun(s: State, steps: seq<Step>)
    requires Inv(s) && AllEnabled(s, steps)
    ensures Inv(Run(s, steps))
    decreases |steps|
  {
    if steps != [] {
      InvStep(s, steps[0]);
      InvRun(Apply(s, steps[0]), steps[1..]);
    }
  }

  // ------------------------------------------------------------------ results

  ghost predicate Answered(s: State, i: nat) {
    && i < |s.ops| && s.ops[i].Authenticate? && s.ops[i].pc.Returned? && s.ops[i].pc.result.Some?
  }

  /** In every run, a request gets a principal built from one account row and
      one grant list that the store really held, of an enabled account. */
  lemma AnswersAreGenuine(s0: State, steps: seq<Step>, i: nat)
    requires Initial(s0) && AllEnabled(s0, steps) && Answered(Run(s0, steps), i)
    ensures var s := Run(s0, steps); Genuine(s.log, s.ops[i].key, s.ops[i].pc.result.value)
  {
    InvRun(s0, steps);
    assert OpOk(Run(s0, steps), Run(s0, steps).ops[i]);
  }

  lemma StalenessIn(s: State, i: nat, j: nat)
    requires Inv(s) && Answered(s, i) && j < |s.log| && s.log[j].at <= s.ops[i].now - SESSION_CACHE_TTL
    ensures var e := s.ops[i].pc.result.value;
            && j <= e.value.origin.grantsAt
            && (e.value.origin.Loaded? ==> j <= e.since <= e.value.origin.sessionAt <= e.value.origin.rowAt)
  {
    assert OpOk(s, s.ops[i]);
  }

  /** The TTL bound, for every path: whatever was written at least
      SESSION_CACHE_TTL before the request began is reflected in the grants it
      got, and, unless a login cached the entry, in the session and the row too. */
  lemma StalenessIsBounded(s0: State, steps: seq<Step>, i: nat, j: nat)
    requires Initial(s0) && AllEnabled(s0, steps) && Answered(Run(s0, steps), i)
    requires j < |Run(s0, steps).log|
    requires Run(s0, steps).log[j].at <= Run(s0, steps).ops[i].now - SESSION_CACHE_TTL
    ensures var e := Run(s0, steps).ops[i].pc.result.value;
            && j <= e.value.origin.grantsAt
            && (e.value.origin.Loaded? ==> j <= e.since <= e.value.origin.sessionAt <= e.value.origin.rowAt)
  {
    InvRun(s0, steps);
    StalenessIn(Run(s0, steps), i, j);
  }

  /** A session gone from the store for good is served for less than
      SESSION_CACHE_TTL: logout, sign-out by a password change, or a
      revocation made by another process. */
  lemma RevokedSessionExpires(s0: State, steps: seq<Step>, i: nat, d: nat)
    requires Initial(s0) && AllEnabled(s0, steps)
    requires i < |Run(s0, steps).ops| && Run(s0, steps).ops[i].Authenticate?
    requires d < |Run(s0, steps).log|
    requires var s := Run(s0, steps);
             && (forall j :: d <= j < |s.log| ==> s.ops[i].key !in s.log[j].store.sessions)
             && s.log[d].at <= s.ops[i].now - SESSION_CACHE_TTL
    ensures !Answered(Run(s0, steps), i)
  {
    if Answered(Run(s0, steps), i) {
      StalenessIsBounded(s0, steps, i, d);
      AnswersAreGenuine(s0, steps, i);
    }
  }
}
