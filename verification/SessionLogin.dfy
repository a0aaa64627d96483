/**
  Where sessions come from, over every run: a login that opens one has passed its
  password check, an answer that goes back to a login names the login that opened
  its session, and the protocol writes nothing else into the store. Runs are traces,
  so that what happened earlier can be spoken of.
*/
module SessionLogin {
  import opened Wrappers
  import opened SessionProtocol
  import opened SessionSafety

  // -------------------------------------------------------------------- traces

  ghost predicate Chain(states: seq<State>, steps: seq<Step>) {
    && |states| == |steps| + 1
    && (forall n :: 0 <= n < |states| ==> states[n].WellFormed())
    && (forall n :: 0 <= n < |steps| ==> Enabled(states[n], steps[n]) && states[n + 1] == Apply(states[n], steps[n]))
  }

  ghost predicate Trace(states: seq<State>, steps: seq<Step>) {
    Chain(states, steps) && Initial(states[0])
  }

  /** Every run is a trace. */
  lemma {:induction false} RunIsChain(s: State, steps: seq<Step>) returns (states: seq<State>)
    requires s.WellFormed() && AllEnabled(s, steps)
    ensures Chain(states, steps) && states[0] == s && states[|steps|] == Run(s, steps)
    decreases |steps|
  {
    if steps == [] {
      states := [s];
    } else {
      var rest := RunIsChain(Apply(s, steps[0]), steps[1..]);
      states := [s] + rest;
      forall n | 0 <= n < |steps|
        ensures states[n].WellFormed() && Enabled(states[n], steps[n]) && states[n + 1] == Apply(states[n], steps[n])
      {
        if n > 0 { assert states[n] == rest[n - 1] && states[n + 1] == rest[n] && steps[n] == steps[1..][n - 1]; }
      }
    }
  }

  // ------------------------------------------------------------ password checks

  predicate IsLogin(s: State, i: nat) {
    i < |s.ops| && s.ops[i].Login?
  }

  /** Step `k` is the password check of login `i`, and the check succeeded. */
  predicate Passes(states: seq<State>, steps: seq<Step>, k: nat, i: nat) {
    && k < |steps| && k < |states| && steps[k].LoginStep? && steps[k].i == i && !steps[k].fault
    && IsLogin(states[k], i) && states[k].ops[i].lpc.RowRead?
  }

  ghost predicate PassedBefore(states: seq<State>, steps: seq<Step>, n: nat, i: nat) {
    exists k: nat :: k < n && Passes(states, steps, k, i)
  }

  /** A login past its password check and not over. */
  predicate UnderWay(s: State, i: nat) {
    IsLogin(s, i) && !s.ops[i].lpc.RowRead? && !s.ops[i].lpc.LoginOver?
  }

  /** A request's step stays with the request, a login's with the login. */
  lemma RequestStepsItself(s: State, i: nat, fault: bool)
    requires s.WellFormed() && Enabled(s, AuthenticateStep(i, fault))
    ensures var t := AuthenticateNext(s, i, fault);
            && |t.ops| == |s.ops| && t.ops[i].Authenticate?
            && forall j :: 0 <= j < |s.ops| && j != i ==> t.ops[j] == s.ops[j]
  {
  }

  lemma LoginStepsItself(s: State, i: nat, fault: bool, newKey: Digest)
    requires s.WellFormed() && Enabled(s, LoginStep(i, fault, newKey))
    ensures var t := LoginNext(s, i, fault, newKey);
            && |t.ops| == |s.ops| && t.ops[i].Login? && t.ops[i].user == s.ops[i].user
            && forall j :: 0 <= j < |s.ops| && j != i ==> t.ops[j] == s.ops[j]
  {
  }

  /** A login changes by its own steps only, and stays that user's login. */
  lemma StepKeepsOps(s: State, step: Step, i: nat)
    requires s.WellFormed() && Enabled(s, step) && i < |s.ops|
    ensures var t := Apply(s, step);
            && |s.ops| <= |t.ops|
            && (t.ops[i] == s.ops[i] || (step.LoginStep? && step.i == i) || !s.ops[i].Login?)
            && (t.ops[i].Login? <==> s.ops[i].Login?)
            && (s.ops[i].Login? ==> t.ops[i].user == s.ops[i].user)
  {
    match step
    case AuthenticateStep(k, fault) => RequestStepsItself(s, k, fault);
    case LoginStep(k, fault, newKey) => LoginStepsItself(s, k, fault, newKey);
    case _ =>
  }

  lemma NewOpsAreFresh(s: State, step: Step, i: nat)
    requires s.WellFormed() && Enabled(s, step) && |s.ops| <= i < |Apply(s, step).ops|
    ensures !UnderWay(Apply(s, step), i)
  {
  }

  /** A login under way has passed its password check. */
  lemma {:induction false} UnderWayHasPassed(states: seq<State>, steps: seq<Step>, n: nat, i: nat)
    requires Trace(states, steps) && n < |states| && UnderWay(states[n], i)
    ensures PassedBefore(states, steps, n, i)
  {
    if n > 0 {
      var s, step := states[n - 1], steps[n - 1];
      if i >= |s.ops| {
        NewOpsAreFresh(s, step, i);
      } else {
        StepKeepsOps(s, step, i);
        if UnderWay(s, i) {
          UnderWayHasPassed(states, steps, n - 1, i);
        } else {
          assert Passes(states, steps, n - 1, i);
        }
      }
    }
  }

  /** Step `k` is the password check of login `i`, and the check failed. */
  predicate Fails(states: seq<State>, steps: seq<Step>, k: nat, i: nat) {
    && k < |steps| && k < |states| && steps[k].LoginStep? && steps[k].i == i && steps[k].fault
    && IsLogin(states[k], i) && states[k].ops[i].lpc.RowRead?
  }

  lemma OverStaysOver(s: State, step: Step, i: nat)
    requires s.WellFormed() && Enabled(s, step) && IsLogin(s, i) && s.ops[i].lpc.LoginOver?
    ensures IsLogin(Apply(s, step), i) && Apply(s, step).ops[i].lpc.LoginOver?
    ensures step.LoginStep? ==> step.i != i
  {
    StepKeepsOps(s, step, i);
  }

  lemma FailedIsOver(s: State, i: nat, newKey: Digest)
    requires s.WellFormed() && Enabled(s, LoginStep(i, true, newKey)) && s.ops[i].lpc.RowRead?
    ensures var t := Apply(s, LoginStep(i, true, newKey)); IsLogin(t, i) && t.ops[i].lpc.LoginOver?
  {
  }

  /** A failed password check ends the login: from there on it takes no step. */
  lemma {:induction false} FailedCheckEndsLogin(states: seq<State>, steps: seq<Step>, k: nat, n: nat, i: nat)
    requires Trace(states, steps) && Fails(states, steps, k, i) && k < n < |states|
    ensures IsLogin(states[n], i) && states[n].ops[i].lpc.LoginOver?
    ensures n < |steps| && steps[n].LoginStep? ==> steps[n].i != i
  {
    if k + 1 < n {
      FailedCheckEndsLogin(states, steps, k, n - 1, i);
      OverStaysOver(states[n - 1], steps[n - 1], i);
    } else {
      FailedIsOver(states[k], i, steps[k].newKey);
    }
    if n < |steps| { OverStaysOver(states[n], steps[n], i); }
  }

  /** So a login step that writes to the store or to the cache is one of a login whose
      password check succeeded earlier. */
  lemma WritesAreChecked(states: seq<State>, steps: seq<Step>, n: nat)
    requires Trace(states, steps) && n < |steps| && steps[n].LoginStep?
    requires states[n + 1].log != states[n].log || states[n + 1].cache != states[n].cache
    ensures PassedBefore(states, steps, n, steps[n].i)
  {
    assert states[n + 1] == LoginNext(states[n], steps[n].i, steps[n].fault, steps[n].newKey);
    UnderWayHasPassed(states, steps, n, steps[n].i);
  }

  // -------------------------------------------------------------------- answers

  /** Step `m` is the one in which login `i` of `user` opened the session of `key`, as
      write number `at`. */
  predicate Opens(states: seq<State>, steps: seq<Step>, m: nat, i: nat, user: UserId, key: Digest, at: nat) {
    && m < |steps| && m + 1 < |states| && steps[m] == LoginStep(i, false, key)
    && IsLogin(states[m], i) && states[m].ops[i].user == user && states[m].ops[i].lpc.GrantsRead?
    && 0 < |states[m].log| == at < |states[m + 1].log|
    && states[m + 1].log[at].store.sessions == states[m].log[at - 1].store.sessions[
         key := SessionRow(user, states[m].ops[i].lpc.now + SESSION_TTL, states[m].ops[i].lpc.now)]
  }

  ghost predicate OpenedBefore(states: seq<State>, steps: seq<Step>, n: nat, key: Digest, e: Entry) {
    e.value.origin.LoggedIn? ==>
      exists m: nat, i: nat ::
        m < n && Opens(states, steps, m, i, e.owner, key, e.value.origin.createdAt) && PassedBefore(states, steps, m, i)
  }

  lemma OpenedLater(states: seq<State>, steps: seq<Step>, n: nat, later: nat, key: Digest, e: Entry)
    requires OpenedBefore(states, steps, n, key, e) && n <= later
    ensures OpenedBefore(states, steps, later, key, e)
  {
    if e.value.origin.LoggedIn? {
      var m: nat, i: nat :|
        && m < n && Opens(states, steps, m, i, e.owner, key, e.value.origin.createdAt)
        && PassedBefore(states, steps, m, i);
      assert m < later;
    }
  }

  /** The entry an operation carries, and the key it carries it under. */
  predicate Carries(op: Op, key: Digest, e: Entry) {
    match op
    case Authenticate(k, _, Have(_, held)) => k == key && held == e
    case Authenticate(k, _, Ready(_, held)) => k == key && held == e
    case Authenticate(k, _, Returned(result)) => k == key && result == Some(e)
    case Login(_, Created(k, held, _)) => k == key && held == e
    case Login(_, Cleaned(k, held, _)) => k == key && held == e
    case _ => false
  }

  ghost predicate InState(s: State, key: Digest, e: Entry) {
    || (key in s.cache.entries && s.cache.entries[key] == e)
    || exists i :: 0 <= i < |s.ops| && Carries(s.ops[i], key, e)
  }

  /** Touching leaves an entry's owner and origin alone. */
  predicate SameLogin(e: Entry, was: Entry) {
    e.owner == was.owner && e.value.origin == was.value.origin
  }

  /** What an operation carries after its own step: something carried or cached before, a
      principal loaded from the store, or the session it opens. */
  lemma OwnCarries(s: State, step: Step, i: nat, key: Digest, e: Entry) returns (was: Entry)
    requires s.WellFormed() && Enabled(s, step) && i < |s.ops| && Carries(Apply(s, step).ops[i], key, e)
    requires (step.AuthenticateStep? || step.LoginStep?) && step.i == i && e.value.origin.LoggedIn?
    requires !(step.LoginStep? && s.ops[i].lpc.GrantsRead?)
    ensures InState(s, key, was) && SameLogin(e, was)
  {
    if step.AuthenticateStep? {
      match s.ops[i].pc
      case Begun => was := s.cache.entries[key];
      case Have(_, held) => was := held; assert Carries(s.ops[i], key, held);
      case Ready(_, held) => was := held; assert Carries(s.ops[i], key, held);
      case _ => was := e;
    } else {
      was := e;
      assert Carries(s.ops[i], key, e);
    }
  }

  lemma CachedWas(s: State, step: Step, key: Digest)
    requires s.WellFormed() && Enabled(s, step) && key in Apply(s, step).cache.entries
    ensures InState(s, key, Apply(s, step).cache.entries[key])
  {
    var e := Apply(s, step).cache.entries[key];
    if !(key in s.cache.entries && s.cache.entries[key] == e) {
      assert Carries(s.ops[step.i], key, e);
    }
  }

  /** What a step leaves carried or cached was there before, up to touching, unless the
      step opens a session. */
  lemma StateWas(s: State, step: Step, key: Digest, e: Entry) returns (opens: bool, was: Entry)
    requires s.WellFormed() && Enabled(s, step) && InState(Apply(s, step), key, e) && e.value.origin.LoggedIn?
    ensures !opens ==> InState(s, key, was) && SameLogin(e, was)
    ensures opens ==> && step.LoginStep? && s.ops[step.i].Login? && s.ops[step.i].lpc.GrantsRead?
                      && Carries(Apply(s, step).ops[step.i], key, e)
  {
    var t := Apply(s, step);
    opens, was := false, e;
    if key in t.cache.entries && t.cache.entries[key] == e {
      CachedWas(s, step, key);
    } else {
      var i :| 0 <= i < |t.ops| && Carries(t.ops[i], key, e);
      if (step.AuthenticateStep? || step.LoginStep?) && step.i == i {
        if step.LoginStep? && s.ops[i].lpc.GrantsRead? {
          opens := true;
        } else {
          was := OwnCarries(s, step, i, key, e);
        }
      } else {
        OtherCarries(s, step, i, key, e);
      }
    }
  }

  lemma OtherCarries(s: State, step: Step, i: nat, key: Digest, e: Entry)
    requires s.WellFormed() && Enabled(s, step) && i < |Apply(s, step).ops| && Carries(Apply(s, step).ops[i], key, e)
    requires (step.AuthenticateStep? || step.LoginStep?) ==> step.i != i
    ensures InState(s, key, e)
  {
    assert i < |s.ops|;
    CarriersStep(s, step, i, key, e);
    assert Carries(s.ops[i], key, e);
  }

  /** Only requests and logins carry anything. */
  lemma CarriersStep(s: State, step: Step, i: nat, key: Digest, e: Entry)
    requires s.WellFormed() && Enabled(s, step) && i < |s.ops| && Carries(Apply(s, step).ops[i], key, e)
    requires (step.AuthenticateStep? || step.LoginStep?) ==> step.i != i
    ensures Apply(s, step).ops[i] == s.ops[i]
  {
    if !((step.LogoutStep? || step.FinishChange?) && step.i == i) { OthersUnchanged(s, step, i); }
  }

  lemma OpeningStep(states: seq<State>, steps: seq<Step>, m: nat, key: Digest, e: Entry)
    requires Trace(states, steps) && m < |steps| && steps[m].LoginStep?
    requires states[m].ops[steps[m].i].Login? && states[m].ops[steps[m].i].lpc.GrantsRead?
    requires Carries(states[m + 1].ops[steps[m].i], key, e)
    ensures Opens(states, steps, m, steps[m].i, e.owner, key, e.value.origin.createdAt)
  {
    assert states[m + 1] == LoginNext(states[m], steps[m].i, steps[m].fault, steps[m].newKey);
  }

  /** Whatever goes back to a login, cached or carried, goes back to one that passed its
      password check and then opened that very session for that user. */
  lemma {:induction false} EntriesAreOpened(states: seq<State>, steps: seq<Step>, n: nat, key: Digest, e: Entry)
    requires Trace(states, steps) && n < |states| && InState(states[n], key, e)
    ensures OpenedBefore(states, steps, n, key, e)
  {
    if n > 0 && e.value.origin.LoggedIn? {
      var opens, was := StateWas(states[n - 1], steps[n - 1], key, e);
      if opens {
        OpeningStep(states, steps, n - 1, key, e);
        UnderWayHasPassed(states, steps, n - 1, steps[n - 1].i);
      } else {
        EntriesAreOpened(states, steps, n - 1, key, was);
        OpenedLater(states, steps, n - 1, n, key, was);
      }
    }
  }

  /** In every run a request answered from a login's session is answered for the user of a
      login that passed its password check and then opened that session. */
  lemma AnswersAreOpened(states: seq<State>, steps: seq<Step>, n: nat, j: nat)
    requires Trace(states, steps) && n < |states| && j < |states[n].ops| && states[n].ops[j].Authenticate?
    requires states[n].ops[j].pc.Returned? && states[n].ops[j].pc.result.Some?
    ensures OpenedBefore(states, steps, n, states[n].ops[j].key, states[n].ops[j].pc.result.value)
  {
    var op := states[n].ops[j];
    assert Carries(op, op.key, op.pc.result.value);
    EntriesAreOpened(states, steps, n, op.key, op.pc.result.value);
  }

  // --------------------------------------------------------------------- expiry

  /** A request past its expiry check holds an entry that had not expired when it began. */
  predicate Unexpired(op: Op) {
    match op
    case Authenticate(_, now, Ready(_, e)) => now < e.value.expiresAt
    case Authenticate(_, now, Returned(Some(e))) => now < e.value.expiresAt
    case _ => true
  }

  lemma OwnStepUnexpired(s: State, i: nat, fault: bool)
    requires s.WellFormed() && Enabled(s, AuthenticateStep(i, fault)) && Unexpired(s.ops[i])
    ensures var t := AuthenticateNext(s, i, fault); i < |t.ops| && Unexpired(t.ops[i])
  {
  }

  lemma StepKeepsUnexpired(s: State, step: Step, i: nat)
    requires s.WellFormed() && Enabled(s, step) && i < |Apply(s, step).ops|
    requires i < |s.ops| ==> Unexpired(s.ops[i])
    ensures Unexpired(Apply(s, step).ops[i])
  {
    if step.AuthenticateStep? && step.i == i {
      OwnStepUnexpired(s, i, step.fault);
    } else if i < |s.ops| && s.ops[i].Authenticate? {
      NotStepped(s, step, i);
    } else if i < |s.ops| {
      StaysOther(s, step, i);
    }
  }

  lemma NotStepped(s: State, step: Step, i: nat)
    requires s.WellFormed() && Enabled(s, step) && i < |s.ops| && s.ops[i].Authenticate?
    requires step.AuthenticateStep? ==> step.i != i
    ensures i < |Apply(s, step).ops| && Apply(s, step).ops[i] == s.ops[i]
  {
    OthersUnchanged(s, step, i);
  }

  lemma StaysOther(s: State, step: Step, i: nat)
    requires s.WellFormed() && Enabled(s, step) && i < |s.ops| && !s.ops[i].Authenticate?
    ensures i < |Apply(s, step).ops| && !Apply(s, step).ops[i].Authenticate?
  {
    if !(step.AuthenticateStep? || step.LoginStep? || step.LogoutStep? || step.FinishChange?) || step.i != i {
      OthersUnchanged(s, step, i);
    } else if step.LoginStep? {
      LoginStepsItself(s, i, step.fault, step.newKey);
    }
  }

  lemma {:induction false} UnexpiredThroughout(states: seq<State>, steps: seq<Step>, n: nat, i: nat)
    requires Trace(states, steps) && n < |states| && i < |states[n].ops|
    ensures Unexpired(states[n].ops[i])
  {
    if n > 0 {
      if i < |states[n - 1].ops| { UnexpiredThroughout(states, steps, n - 1, i); }
      StepKeepsUnexpired(states[n - 1], steps[n - 1], i);
    }
  }

  /** No request is answered from a session that had expired when it began, cached or not. */
  lemma AnswersAreUnexpired(states: seq<State>, steps: seq<Step>, n: nat, j: nat)
    requires Trace(states, steps) && n < |states| && j < |states[n].ops| && states[n].ops[j].Authenticate?
    requires states[n].ops[j].pc.Returned? && states[n].ops[j].pc.result.Some?
    ensures states[n].ops[j].now < states[n].ops[j].pc.result.value.value.expiresAt
  {
    UnexpiredThroughout(states, steps, n, j);
  }

  // --------------------------------------------------------- writes to the store

  /** The row of a session after a step of the protocol's own. */
  predicate RowChange(s: State, step: Step, key: Digest, t: State)
    requires s.WellFormed() && t.WellFormed() && Enabled(s, step)
  {
    var was, now := s.Db().sessions, t.Db().sessions;
    if key in was && key in now then
      was[key] == now[key]
      || (step.AuthenticateStep? && s.ops[step.i].key == key
          && now[key] == SessionRow(was[key].user, s.ops[step.i].now + SESSION_TTL, s.ops[step.i].now))
    else if key in now then
      step.LoginStep? && step.newKey == key && !step.fault && now[key].user == s.ops[step.i].user
      && now[key].expiresAt == now[key].lastSeen + SESSION_TTL
    else if key in was then
      (step.LogoutStep? && s.ops[step.i].token == key)
      || (step.LoginStep? && s.ops[step.i].lpc.Created? && was[key].expiresAt < s.ops[step.i].lpc.now)
    else true
  }

  lemma RequestRowChange(s: State, i: nat, fault: bool, key: Digest)
    requires s.WellFormed() && Enabled(s, AuthenticateStep(i, fault))
    ensures var t := AuthenticateNext(s, i, fault);
            && t.Db().accounts == s.Db().accounts && t.Db().grants == s.Db().grants
            && RowChange(s, AuthenticateStep(i, fault), key, t)
  {
  }

  lemma LoginRowChange(s: State, i: nat, fault: bool, newKey: Digest, key: Digest)
    requires s.WellFormed() && Enabled(s, LoginStep(i, fault, newKey))
    ensures var t := LoginNext(s, i, fault, newKey);
            && t.Db().accounts == s.Db().accounts && t.Db().grants == s.Db().grants
            && RowChange(s, LoginStep(i, fault, newKey), key, t)
  {
  }

  /** What requests, logins and logouts do to the store: accounts and grants stay, a
      session changes hands with nobody, and its row is only ever extended by a request for
      it, added by a login, and removed by its logout or once it has expired. */
  lemma StoreChangesOnlySo(s: State, step: Step, key: Digest)
    requires s.WellFormed() && Enabled(s, step) && !step.OtherWrite? && !step.ChangeAccount?
    ensures var t := Apply(s, step);
            && t.Db().accounts == s.Db().accounts && t.Db().grants == s.Db().grants
            && RowChange(s, step, key, t)
  {
    match step
    case AuthenticateStep(i, fault) => RequestRowChange(s, i, fault, key);
    case LoginStep(i, fault, newKey) => LoginRowChange(s, i, fault, newKey, key);
    case _ =>
  }
}
