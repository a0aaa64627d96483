/**
  Once an account change has finished, every request that starts later sees it,
  exactly when no login that read the old row can still cache it.
*/
module SessionFreshness {
  import opened Wrappers
  import opened RevisionGuard
  import opened SessionProtocol
  import opened SessionSafety

  /** `e` says nothing about `u` older than write `n`, or is past its TTL at `t0`. */
  predicate Acceptable(u: UserId, n: nat, t0: int, e: Entry) {
    e.owner == u ==> n <= e.since || e.value.loadedAt + SESSION_CACHE_TTL <= t0
  }

  /** A login that cannot put an entry about `u` older than `n` into the cache and
      have it served after `t0`; `gone` when the account is deleted and stays so, which
      keeps a login from opening a session. */
  predicate LoginSafe(op: Op, u: UserId, n: nat, t0: int, gone: bool) {
    op.Login? && op.user == u ==>
      match op.lpc
      case RowRead(a, rowAt) => gone || n <= rowAt || a.disabled
      case Verified(_, rowAt, now) => gone || n <= rowAt || now + SESSION_CACHE_TTL <= t0
      case GrantsRead(_, rowAt, now, _, _) => gone || n <= rowAt || now + SESSION_CACHE_TTL <= t0
      case Created(_, e, _) => Acceptable(u, n, t0, e)
      case Cleaned(_, e, _) => Acceptable(u, n, t0, e)
      case LoginOver => true
  }

  predicate NoLoginThreatens(s: State, u: UserId, n: nat, gone: bool) {
    forall i :: 0 <= i < |s.ops| ==> LoginSafe(s.ops[i], u, n, s.clock, gone)
  }

  /** The account has been missing from the store since write `n`. */
  predicate Absent(s: State, u: UserId, n: nat) {
    forall j :: n <= j < |s.log| ==> u !in s.log[j].store.accounts
  }

  /** Request `i` answered with a principal for `u` that predates write `n`. */
  predicate StaleAnswer(s: State, i: nat, u: UserId, n: nat) {
    && i < |s.ops| && s.ops[i].Authenticate? && s.ops[i].pc.Returned? && s.ops[i].pc.result.Some?
    && s.ops[i].pc.result.value.owner == u && s.ops[i].pc.result.value.since < n
  }

  // --------------------------------------------------------------- forward

  predicate Unthreatening(s: State, op: Op, u: UserId, n: nat, t0: int, gone: bool) {
    && LoginSafe(op, u, n, t0, gone)
    && (op.Authenticate? ==>
          match op.pc
          case Loading(f) => Harmless(s.cache, f, n)
          case SessionRead(f, _, _) => Harmless(s.cache, f, n)
          case UserRead(f, _, _, _, _) => Harmless(s.cache, f, n)
          case Have(f, e) => f.revision <= s.cache.revision && (Armed(s.cache, f) ==> Acceptable(u, n, t0, e))
          case Ready(f, e) => f.revision <= s.cache.revision && (Armed(s.cache, f) ==> Acceptable(u, n, t0, e))
          case _ => true)
  }

  /** An operation begun after the change finished. */
  predicate Later(op: Op, u: UserId, n: nat, t0: int) {
    op.Authenticate? ==>
      && t0 <= op.now
      && match op.pc
         case Loading(f) => n <= f.since
         case SessionRead(f, _, _) => n <= f.since
         case UserRead(f, _, _, _, _) => n <= f.since
         case Have(_, e) => e.owner == u ==> n <= e.since
         case Ready(_, e) => e.owner == u ==> n <= e.since
         case Returned(Some(e)) => e.owner == u ==> n <= e.since
         case _ => true
  }

  ghost predicate After(s: State, u: UserId, n: nat, t0: int, from: nat, gone: bool) {
    && s.WellFormed() && n <= s.Writes() && t0 <= s.clock && from <= |s.ops|
    && (gone ==> u !in s.Db().accounts)
    && Settled(s.cache, (e: Entry) => Acceptable(u, n, t0, e))
    && (forall i :: 0 <= i < |s.ops| ==> Unthreatening(s, s.ops[i], u, n, t0, gone))
    && (forall i :: from <= i < |s.ops| ==> Later(s.ops[i], u, n, t0))
  }

  lemma ChangeSettles(s: State, c: nat, gone: bool)
    requires Inv(s) && Enabled(s, FinishChange(c))
    requires NoLoginThreatens(s, s.ops[c].account, s.ops[c].at, gone)
    requires gone ==> s.ops[c].account !in s.Db().accounts
    ensures var t := Apply(s, FinishChange(c));
            After(t, s.ops[c].account, s.ops[c].at, s.clock, |t.ops|, gone)
  {
    var u, n, t := s.ops[c].account, s.ops[c].at, Apply(s, FinishChange(c));
    ForgetOwnerSettles(s.cache, u, n, (e: Entry) => Acceptable(u, n, s.clock, e), []);
    assert OpOk(s, s.ops[c]);
    forall i | 0 <= i < |t.ops| ensures Unthreatening(t, t.ops[i], u, n, s.clock, gone) {
      assert OpOk(s, s.ops[i]);
    }
  }

  lemma CacheStaysSettled(s: State, step: Step, u: UserId, n: nat, t0: int, from: nat, gone: bool)
    requires Inv(s) && Enabled(s, step) && After(s, u, n, t0, from, gone)
    ensures Settled(Apply(s, step).cache, (e: Entry) => Acceptable(u, n, t0, e))
  {
    var t := Apply(s, step);
    forall k | k in t.cache.entries ensures Acceptable(u, n, t0, t.cache.entries[k]) {
      CacheSources(s, step, k);
      if step.AuthenticateStep? || step.LoginStep? { assert Unthreatening(s, s.ops[step.i], u, n, t0, gone); }
    }
  }

  lemma SameOpAfter(s: State, t: State, op: Op, u: UserId, n: nat, t0: int, gone: bool)
    requires s.cache.revision <= t.cache.revision && Unthreatening(s, op, u, n, t0, gone)
    ensures Unthreatening(t, op, u, n, t0, gone)
  {
  }

  lemma LookAfter(s: State, i: nat, fault: bool, u: UserId, n: nat, t0: int, from: nat, gone: bool)
    requires s.WellFormed() && Enabled(s, AuthenticateStep(i, fault)) && After(s, u, n, t0, from, gone)
    requires s.ops[i].pc.Begun?
    ensures var t := Apply(s, AuthenticateStep(i, fault));
            && Unthreatening(t, t.ops[i], u, n, t0, gone)
            && (from <= i ==> Later(t.ops[i], u, n, t0))
  {
    var key := s.ops[i].key;
    assert from <= i ==> Later(s.ops[i], u, n, t0);
    if key in s.cache.entries { assert Acceptable(u, n, t0, s.cache.entries[key]); }
  }

  lemma LoadAfter(s: State, i: nat, fault: bool, u: UserId, n: nat, t0: int, from: nat, gone: bool)
    requires s.WellFormed() && Enabled(s, AuthenticateStep(i, fault)) && After(s, u, n, t0, from, gone)
    requires s.ops[i].pc.Loading? || s.ops[i].pc.SessionRead? || s.ops[i].pc.UserRead?
    ensures var t := Apply(s, AuthenticateStep(i, fault));
            && Unthreatening(t, t.ops[i], u, n, t0, gone)
            && (from <= i ==> Later(t.ops[i], u, n, t0))
  {
    assert Unthreatening(s, s.ops[i], u, n, t0, gone);
    assert from <= i ==> Later(s.ops[i], u, n, t0);
  }

  lemma AnswerAfter(s: State, i: nat, fault: bool, u: UserId, n: nat, t0: int, from: nat, gone: bool)
    requires s.WellFormed() && Enabled(s, AuthenticateStep(i, fault)) && After(s, u, n, t0, from, gone)
    requires s.ops[i].pc.Have? || s.ops[i].pc.Ready? || s.ops[i].pc.Dropping?
    ensures var t := Apply(s, AuthenticateStep(i, fault));
            && Unthreatening(t, t.ops[i], u, n, t0, gone)
            && (from <= i ==> Later(t.ops[i], u, n, t0))
  {
    assert Unthreatening(s, s.ops[i], u, n, t0, gone);
    assert from <= i ==> Later(s.ops[i], u, n, t0);
  }

  lemma LoginStepAfter(s: State, i: nat, fault: bool, newKey: Digest, u: UserId, n: nat, t0: int, from: nat, gone: bool)
    requires s.WellFormed() && Enabled(s, LoginStep(i, fault, newKey)) && After(s, u, n, t0, from, gone)
    ensures var t := Apply(s, LoginStep(i, fault, newKey));
            Unthreatening(t, t.ops[i], u, n, t0, gone) && Later(t.ops[i], u, n, t0)
  {
    assert Unthreatening(s, s.ops[i], u, n, t0, gone);
  }

  lemma OpAfter(s: State, step: Step, i: nat, u: UserId, n: nat, t0: int, from: nat, gone: bool)
    requires s.WellFormed() && Enabled(s, step) && After(s, u, n, t0, from, gone)
    requires i < |s.ops|
    ensures var t := Apply(s, step);
            i < |t.ops| && Unthreatening(t, t.ops[i], u, n, t0, gone) && (from <= i ==> Later(t.ops[i], u, n, t0))
  {
    assert Unthreatening(s, s.ops[i], u, n, t0, gone) && (from <= i ==> Later(s.ops[i], u, n, t0));
    if step.AuthenticateStep? && step.i == i {
      if s.ops[i].pc.Begun? {
        LookAfter(s, i, step.fault, u, n, t0, from, gone);
      } else if s.ops[i].pc.Have? || s.ops[i].pc.Ready? || s.ops[i].pc.Dropping? {
        AnswerAfter(s, i, step.fault, u, n, t0, from, gone);
      } else {
        LoadAfter(s, i, step.fault, u, n, t0, from, gone);
      }
    } else if step.LoginStep? && step.i == i {
      LoginStepAfter(s, i, step.fault, step.newKey, u, n, t0, from, gone);
    } else if (step.LogoutStep? || step.FinishChange?) && step.i == i {
    } else {
      StepGrows(s, step);
      OthersUnchanged(s, step, i);
      SameOpAfter(s, Apply(s, step), s.ops[i], u, n, t0, gone);
    }
  }

  lemma NewOpAfter(s: State, step: Step, u: UserId, n: nat, t0: int, from: nat, gone: bool)
    requires s.WellFormed() && Enabled(s, step) && After(s, u, n, t0, from, gone) && |Apply(s, step).ops| > |s.ops|
    ensures var t := Apply(s, step);
            && |t.ops| == |s.ops| + 1
            && Unthreatening(t, t.ops[|s.ops|], u, n, t0, gone) && Later(t.ops[|s.ops|], u, n, t0)
  {
  }

  lemma AnyOpAfter(s: State, step: Step, i: nat, u: UserId, n: nat, t0: int, from: nat, gone: bool)
    requires Inv(s) && Enabled(s, step) && After(s, u, n, t0, from, gone) && i < |Apply(s, step).ops|
    requires gone ==> u !in Apply(s, step).Db().accounts
    ensures Unthreatening(Apply(s, step), Apply(s, step).ops[i], u, n, t0, gone)
    ensures from <= i ==> Later(Apply(s, step).ops[i], u, n, t0)
  {
    if i >= |s.ops| {
      NewOpAfter(s, step, u, n, t0, from, gone);
    } else {
      OpAfter(s, step, i, u, n, t0, from, gone);
    }
  }

  lemma AfterStep(s: State, step: Step, u: UserId, n: nat, t0: int, from: nat, gone: bool)
    requires Inv(s) && Enabled(s, step) && After(s, u, n, t0, from, gone)
    requires gone ==> u !in Apply(s, step).Db().accounts
    ensures After(Apply(s, step), u, n, t0, from, gone)
  {
    var t := Apply(s, step);
    StepGrows(s, step);
    OpsGrow(s, step);
    CacheStaysSettled(s, step, u, n, t0, from, gone);
    forall i | 0 <= i < |t.ops|
      ensures Unthreatening(t, t.ops[i], u, n, t0, gone) && (from <= i ==> Later(t.ops[i], u, n, t0))
    {
      AnyOpAfter(s, step, i, u, n, t0, from, gone);
    }
  }

  lemma OpsGrow(s: State, step: Step)
    requires s.WellFormed() && Enabled(s, step)
    ensures |s.ops| <= |Apply(s, step).ops|
  {
  }

  lemma {:induction false} RunGrows(s: State, steps: seq<Step>)
    requires s.WellFormed() && AllEnabled(s, steps)
    ensures s.log <= Run(s, steps).log
    decreases |steps|
  {
    if steps != [] {
      StepGrows(s, steps[0]);
      RunGrows(Apply(s, steps[0]), steps[1..]);
    }
  }

  lemma {:induction false} AfterRun(s: State, steps: seq<Step>, u: UserId, n: nat, t0: int, from: nat, gone: bool)
    requires Inv(s) && AllEnabled(s, steps) && After(s, u, n, t0, from, gone)
    requires gone ==> Absent(Run(s, steps), u, n)
    ensures After(Run(s, steps), u, n, t0, from, gone) && Inv(Run(s, steps))
    decreases |steps|
  {
    if steps != [] {
      var t := Apply(s, steps[0]);
      InvStep(s, steps[0]);
      StepGrows(s, steps[0]);
      RunGrows(t, steps[1..]);
      assert gone ==> t.log[|t.log| - 1] == Run(s, steps).log[|t.log| - 1];
      AfterStep(s, steps[0], u, n, t0, from, gone);
      AfterRun(t, steps[1..], u, n, t0, from, gone);
    }
  }

  /** The guarantee: after forgetUser of a finished change, with no threatening
      login in flight, whatever happens next, a request begun from here on that
      is answered with a principal of that user had its session, row and grants
      read at or after the change. */
  lemma FreshAfterChange(s: State, c: nat, steps: seq<Step>, i: nat, gone: bool)
    requires Inv(s) && Enabled(s, FinishChange(c)) && AllEnabled(Apply(s, FinishChange(c)), steps)
    requires NoLoginThreatens(s, s.ops[c].account, s.ops[c].at, gone)
    requires gone ==> Absent(Run(Apply(s, FinishChange(c)), steps), s.ops[c].account, s.ops[c].at)
    requires var r := Run(Apply(s, FinishChange(c)), steps);
             |s.ops| <= i && Answered(r, i) && r.ops[i].pc.result.value.owner == s.ops[c].account
    ensures var e := Run(Apply(s, FinishChange(c)), steps).ops[i].pc.result.value;
            && s.ops[c].at <= e.since <= e.value.origin.rowAt <= e.value.origin.grantsAt
            && (e.value.origin.Loaded? ==> s.ops[c].at <= e.value.origin.sessionAt)
  {
    var t := Apply(s, FinishChange(c));
    InvStep(s, FinishChange(c));
    assert OpOk(s, s.ops[c]);
    RunGrows(t, steps);
    assert gone ==> s.log[|s.log| - 1] == Run(t, steps).log[|s.log| - 1];
    ChangeSettles(s, c, gone);
    AfterRun(t, steps, s.ops[c].account, s.ops[c].at, s.clock, |t.ops|, gone);
    var r := Run(t, steps);
    assert OpOk(r, r.ops[i]) && Later(r.ops[i], s.ops[c].account, s.ops[c].at, s.clock);
  }

  // -------------------------------------------------------------- converse

  lemma {:induction false} FreshDigest(keys: set<Digest>) returns (k: Digest)
    ensures forall x :: x in keys ==> x < k
    decreases |keys|
  {
    k := 0;
    if keys != {} {
      var x :| x in keys;
      var m := FreshDigest(keys - {x});
      k := m + x + 1;
      forall y | y in keys ensures y < k { assert y == x || y in keys - {x}; }
    }
  }

  lemma RunCons(s: State, step: Step, rest: seq<Step>)
    requires s.WellFormed() && Enabled(s, step) && AllEnabled(Apply(s, step), rest)
    ensures AllEnabled(s, [step] + rest) && Run(s, [step] + rest) == Run(Apply(s, step), rest)
  {
    assert ([step] + rest)[1..] == rest;
  }

  /** A live entry in the cache answers the next request for its key. */
  lemma CachedIsServed(s: State, key: Digest) returns (steps: seq<Step>)
    requires s.WellFormed() && key in s.cache.entries
    requires var v := s.cache.entries[key].value;
             s.clock - v.loadedAt < SESSION_CACHE_TTL && s.clock < v.expiresAt
    ensures AllEnabled(s, steps) && Answered(Run(s, steps), |s.ops|)
    ensures Run(s, steps).ops[|s.ops|].pc.result.value == s.cache.entries[key]
    ensures Run(s, steps).ops[|s.ops|].key == key && Run(s, steps).log == s.log
  {
    var j := |s.ops|;
    var a, b := BeginAuthenticate(key), AuthenticateStep(j, true);
    var e := s.cache.entries[key];
    var s1 := Apply(s, a);
    assert s1.ops[j] == Authenticate(key, s.clock, Begun) && s1.cache == s.cache;
    var s2 := Apply(s1, b);
    assert s2.ops[j] == Authenticate(key, s.clock, Have(Hit(s.cache, key), e));
    var s3 := Apply(s2, b);
    assert s3.ops[j] == Authenticate(key, s.clock, Ready(Hit(s.cache, key), e));
    var s4 := Apply(s3, b);
    assert s4.ops[j] == Authenticate(key, s.clock, Returned(Some(e)));
    RunCons(s3, b, []);
    RunCons(s2, b, [b]);
    RunCons(s1, b, [b] + [b]);
    RunCons(s, a, [b] + ([b] + [b]));
    steps := [a] + ([b] + ([b] + [b]));
    assert [b] + [] == [b];
  }

  function Rank(pc: LoginPc): nat {
    match pc
    case RowRead(_, _) => 5 case Verified(_, _, _) => 4 case GrantsRead(_, _, _, _, _) => 3
    case Created(_, _, _) => 2 case Cleaned(_, _, _) => 1 case LoginOver => 0
  }

  /** The same state, but an account is there for the login that already passed its check. */
  function WithAccount(s: State, u: UserId, a: Account): Step
    requires s.WellFormed()
  {
    OtherWrite(s.Db().(accounts := s.Db().accounts[u := a]))
  }

  /** One step of a threatening login leaves it threatening, or the cache with its entry. */
  lemma ThreatStep(s: State, l: nat, u: UserId, n: nat, k: Digest)
    requires Inv(s) && l < |s.ops| && !LoginSafe(s.ops[l], u, n, s.clock, false)
    requires k !in s.Db().sessions && (s.ops[l].lpc.GrantsRead? ==> u in s.Db().accounts)
    ensures var step := LoginStep(l, s.ops[l].lpc.Created?, k);
            && Enabled(s, step) && Inv(Apply(s, step)) && Apply(s, step).clock == s.clock
            && |Apply(s, step).ops| == |s.ops|
            && (!s.ops[l].lpc.Cleaned? ==>
                  && !LoginSafe(Apply(s, step).ops[l], u, n, s.clock, false)
                  && Rank(Apply(s, step).ops[l].lpc) < Rank(s.ops[l].lpc))
            && (s.ops[l].lpc.Created? ==> Apply(s, step).ops[l].lpc.Cleaned?)
            && (s.ops[l].lpc.Created? || s.ops[l].lpc.Cleaned? ==> Apply(s, step).log == s.log)
  {
    assert OpOk(s, s.ops[l]);
    InvStep(s, LoginStep(l, s.ops[l].lpc.Created?, k));
  }

  /** A threatening login leads to a request begun later that gets the old account; if its
      session is already open, without any further write. */
  lemma {:induction false} ThreatIsReal(s: State, l: nat, u: UserId, n: nat) returns (steps: seq<Step>, i: nat)
    requires Inv(s) && l < |s.ops| && !LoginSafe(s.ops[l], u, n, s.clock, false)
    ensures AllEnabled(s, steps) && |s.ops| <= i && StaleAnswer(Run(s, steps), i, u, n)
    ensures s.ops[l].lpc.Created? || s.ops[l].lpc.Cleaned? ==> Run(s, steps).log == s.log
    decreases Rank(s.ops[l].lpc), u !in s.Db().accounts
  {
    assert OpOk(s, s.ops[l]);
    if s.ops[l].lpc.GrantsRead? && u !in s.Db().accounts {
      var back := WithAccount(s, u, s.ops[l].lpc.account);
      InvStep(s, back);
      var rest;
      rest, i := ThreatIsReal(Apply(s, back), l, u, n);
      RunCons(s, back, rest);
      steps := [back] + rest;
      return;
    }
    var k := FreshDigest(s.Db().sessions.Keys);
    assert k !in s.Db().sessions;
    var step := LoginStep(l, s.ops[l].lpc.Created?, k);
    ThreatStep(s, l, u, n, k);
    var t := Apply(s, step);
    var rest;
    if s.ops[l].lpc.Cleaned? {
      rest := CachedIsServed(t, s.ops[l].lpc.key);
      i := |t.ops|;
    } else {
      rest, i := ThreatIsReal(t, l, u, n);
    }
    RunCons(s, step, rest);
    steps := [step] + rest;
  }

  /** No continuation ever answers a later request with an account older than `n`; with
      `gone`, no continuation in which the account is not created again. */
  ghost predicate AlwaysFresh(t: State, u: UserId, n: nat, gone: bool)
    requires t.WellFormed()
  {
    forall steps, i :: AllEnabled(t, steps) && |t.ops| <= i && (gone ==> Absent(Run(t, steps), u, n)) ==>
      !StaleAnswer(Run(t, steps), i, u, n)
  }

  lemma NoThreatIsFresh(s: State, c: nat, gone: bool)
    requires Inv(s) && Enabled(s, FinishChange(c))
    requires NoLoginThreatens(s, s.ops[c].account, s.ops[c].at, gone)
    ensures AlwaysFresh(Apply(s, FinishChange(c)), s.ops[c].account, s.ops[c].at, gone)
  {
    var u, n, t := s.ops[c].account, s.ops[c].at, Apply(s, FinishChange(c));
    forall steps, i | AllEnabled(t, steps) && |t.ops| <= i && (gone ==> Absent(Run(t, steps), u, n))
      ensures !StaleAnswer(Run(t, steps), i, u, n)
    {
      if StaleAnswer(Run(t, steps), i, u, n) { FreshAfterChange(s, c, steps, i, gone); }
    }
  }

  /** Exactly when: a finished change of an account, update or deletion, is seen by every
      later request whatever happens if and only if, when it finishes, no login holds
      the old row within its TTL. */
  lemma FreshExactlyWithoutLogins(s: State, c: nat)
    requires Inv(s) && Enabled(s, FinishChange(c))
    ensures var t := Apply(s, FinishChange(c));
            AlwaysFresh(t, s.ops[c].account, s.ops[c].at, false)
            <==> NoLoginThreatens(s, s.ops[c].account, s.ops[c].at, false)
  {
    var u, n, t := s.ops[c].account, s.ops[c].at, Apply(s, FinishChange(c));
    if NoLoginThreatens(s, u, n, false) {
      NoThreatIsFresh(s, c, false);
    } else {
      var l :| 0 <= l < |s.ops| && !LoginSafe(s.ops[l], u, n, s.clock, false);
      InvStep(s, FinishChange(c));
      assert t.ops[l] == s.ops[l];
      var steps, i := ThreatIsReal(t, l, u, n);
    }
  }

  /** Exactly when for a deletion that stands: as long as nobody creates the account
      again, later requests are fresh if and only if no login had opened its session from
      the old row before the deletion and not yet cached it, within its TTL. */
  lemma DeletionFreshExactly(s: State, c: nat)
    requires Inv(s) && Enabled(s, FinishChange(c)) && Absent(s, s.ops[c].account, s.ops[c].at)
    ensures var t := Apply(s, FinishChange(c));
            AlwaysFresh(t, s.ops[c].account, s.ops[c].at, true)
            <==> NoLoginThreatens(s, s.ops[c].account, s.ops[c].at, true)
  {
    var u, n, t := s.ops[c].account, s.ops[c].at, Apply(s, FinishChange(c));
    if NoLoginThreatens(s, u, n, true) {
      NoThreatIsFresh(s, c, true);
    } else {
      var l :| 0 <= l < |s.ops| && !LoginSafe(s.ops[l], u, n, s.clock, true);
      InvStep(s, FinishChange(c));
      assert t.ops[l] == s.ops[l];
      var steps, i := ThreatIsReal(t, l, u, n);
      assert Absent(Run(t, steps), u, n);
    }
  }

  lemma {:induction false} RunSnoc(s: State, steps: seq<Step>, step: Step)
    requires s.WellFormed() && AllEnabled(s, steps) && Enabled(Run(s, steps), step)
    ensures AllEnabled(s, steps + [step]) && Run(s, steps + [step]) == Apply(Run(s, steps), step)
    decreases |steps|
  {
    if steps == [] {
      assert steps + [step] == [step] && [step][1..] == [];
    } else {
      RunSnoc(Apply(s, steps[0]), steps[1..], step);
      assert (steps + [step])[1..] == steps[1..] + [step];
    }
  }
}
