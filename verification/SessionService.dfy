/**
  What a caller gets when nothing interferes and no store call fails: who is let in, who
  is turned away, and that a session opened by a login serves until it expires or its
  logout.
*/
module SessionService {
  import opened Wrappers
  import opened SessionProtocol
  import opened SessionFreshness

  /** The store holds the session, unexpired, and its account, enabled. */
  predicate Live(db: Store, key: Digest, now: int) {
    && key in db.sessions && now < db.sessions[key].expiresAt
    && db.sessions[key].user in db.accounts && !db.accounts[db.sessions[key].user].disabled
  }

  predicate CachedYoung(s: State, key: Digest) {
    key in s.cache.entries && s.clock - s.cache.entries[key].value.loadedAt < SESSION_CACHE_TTL
  }

  function StoredPrincipal(db: Store, u: UserId): Principal
    requires u in db.accounts
  {
    PrincipalOf(u, db.accounts[u], GrantsOf(db, u))
  }

  // ---------------------------------------------------------- a request by itself

  predicate At(s: State, i: nat) {
    i < |s.ops| && s.ops[i].Authenticate? && s.ops[i].now == s.clock
  }

  /** The request takes one more step, then `rest`. */
  lemma StepThen(s: State, i: nat, rest: seq<Step>, t: State)
    requires s.WellFormed() && Enabled(s, AuthenticateStep(i, false))
    requires AllEnabled(Apply(s, AuthenticateStep(i, false)), rest)
    requires t == Run(Apply(s, AuthenticateStep(i, false)), rest)
    ensures var steps := [AuthenticateStep(i, false)] + rest; AllEnabled(s, steps) && t == Run(s, steps)
  {
    RunCons(s, AuthenticateStep(i, false), rest);
  }

  /** The store after a request at `now` was answered from an entry last seen at `seen`:
      at most once every SESSION_TOUCH_EVERY the row's expiry is pushed forward. */
  function TouchedStore(db: Store, key: Digest, seen: int, now: int): Store {
    if now - seen < SESSION_TOUCH_EVERY || key !in db.sessions then db
    else db.(sessions := db.sessions[key := SessionRow(db.sessions[key].user, now + SESSION_TTL, now)])
  }

  /** `steps` takes request `i` alone from `s` to its answer. */
  ghost predicate Ends(s: State, i: nat, steps: seq<Step>, result: Option<Entry>, db: Store)
    requires s.WellFormed() && i < |s.ops| && s.ops[i].Authenticate?
  {
    && (forall n :: 0 <= n < |steps| ==> steps[n] == AuthenticateStep(i, false))
    && AllEnabled(s, steps)
    && var t := Run(s, steps);
       && t.ops == s.ops[i := s.ops[i].(pc := Returned(result))]
       && t.clock == s.clock && t.Db() == db
       && (result.None? ==> s.ops[i].key !in t.cache.entries)
  }

  lemma EndsLater(s: State, i: nat, rest: seq<Step>, result: Option<Entry>, db: Store)
    requires s.WellFormed() && Enabled(s, AuthenticateStep(i, false)) && s.ops[i].Authenticate?
    requires var t := Apply(s, AuthenticateStep(i, false));
             && t.clock == s.clock && (exists pc :: t.ops == s.ops[i := s.ops[i].(pc := pc)])
             && Ends(t, i, rest, result, db)
    ensures Ends(s, i, [AuthenticateStep(i, false)] + rest, result, db)
  {
    var t := Apply(s, AuthenticateStep(i, false));
    StepThen(s, i, rest, Run(t, rest));
  }

  lemma NowEnds(s: State, i: nat, result: Option<Entry>)
    requires s.WellFormed() && i < |s.ops| && s.ops[i].Authenticate? && s.ops[i].pc == Returned(result)
    requires result.None? ==> s.ops[i].key !in s.cache.entries
    ensures Ends(s, i, [], result, s.Db())
  {
    assert s.ops == s.ops[i := s.ops[i].(pc := Returned(result))];
  }

  lemma FromDropping(s: State, i: nat) returns (steps: seq<Step>)
    requires s.WellFormed() && i < |s.ops| && s.ops[i].Authenticate? && s.ops[i].pc.Dropping?
    ensures Ends(s, i, steps, None, s.Db())
  {
    NowEnds(Apply(s, AuthenticateStep(i, false)), i, None);
    steps := [AuthenticateStep(i, false)];
    EndsLater(s, i, [], None, s.Db());
  }

  lemma FromReady(s: State, i: nat) returns (steps: seq<Step>)
    requires s.WellFormed() && i < |s.ops| && s.ops[i].Authenticate? && s.ops[i].pc.Ready?
    ensures Ends(s, i, steps, Some(s.ops[i].pc.entry), s.Db())
  {
    var e := s.ops[i].pc.entry;
    NowEnds(Apply(s, AuthenticateStep(i, false)), i, Some(e));
    steps := [AuthenticateStep(i, false)];
    EndsLater(s, i, [], Some(e), s.Db());
  }

  lemma FromHave(s: State, i: nat) returns (steps: seq<Step>, result: Option<Entry>, db: Store)
    requires s.WellFormed() && i < |s.ops| && s.ops[i].Authenticate? && s.ops[i].pc.Have?
    ensures Ends(s, i, steps, result, db)
    ensures result.Some? <==> s.ops[i].now < s.ops[i].pc.entry.value.expiresAt
    ensures result.Some? ==> result.value.value.principal == s.ops[i].pc.entry.value.principal
    ensures var (op, seen) := (s.ops[i], s.ops[i].pc.entry.value.lastSeen);
            db == if result.Some? then TouchedStore(s.Db(), op.key, seen, op.now) else s.Db()
  {
    var t := Apply(s, AuthenticateStep(i, false));
    if t.ops[i].pc.Dropping? {
      result, db := None, s.Db();
      steps := FromDropping(t, i);
    } else {
      result, db := Some(t.ops[i].pc.entry), t.Db();
      steps := FromReady(t, i);
    }
    EndsLater(s, i, steps, result, db);
    steps := [AuthenticateStep(i, false)] + steps;
  }

  lemma FromUserRead(s: State, i: nat) returns (steps: seq<Step>, result: Option<Entry>, db: Store)
    requires s.WellFormed() && i < |s.ops| && s.ops[i].Authenticate? && s.ops[i].pc.UserRead?
    requires s.ops[i].now < s.ops[i].pc.row.expiresAt
    ensures Ends(s, i, steps, result, db) && result.Some?
    ensures var pc := s.ops[i].pc;
            result.value.value.principal == PrincipalOf(pc.row.user, pc.account, GrantsOf(s.Db(), pc.row.user))
    ensures var (op, seen) := (s.ops[i], s.ops[i].pc.row.lastSeen);
            db == if result.Some? then TouchedStore(s.Db(), op.key, seen, op.now) else s.Db()
  {
    steps, result, db := FromHave(Apply(s, AuthenticateStep(i, false)), i);
    EndsLater(s, i, steps, result, db);
    steps := [AuthenticateStep(i, false)] + steps;
  }

  lemma FromSessionRead(s: State, i: nat) returns (steps: seq<Step>, result: Option<Entry>, db: Store)
    requires s.WellFormed() && i < |s.ops| && s.ops[i].Authenticate? && s.ops[i].pc.SessionRead?
    requires s.ops[i].now < s.ops[i].pc.row.expiresAt
    ensures Ends(s, i, steps, result, db)
    ensures var u := s.ops[i].pc.row.user;
            && (result.Some? <==> u in s.Db().accounts && !s.Db().accounts[u].disabled)
            && (result.Some? ==> result.value.value.principal == StoredPrincipal(s.Db(), u))
    ensures var (op, seen) := (s.ops[i], s.ops[i].pc.row.lastSeen);
            db == if result.Some? then TouchedStore(s.Db(), op.key, seen, op.now) else s.Db()
  {
    var t := Apply(s, AuthenticateStep(i, false));
    if t.ops[i].pc.Dropping? {
      result, db := None, s.Db();
      steps := FromDropping(t, i);
    } else {
      steps, result, db := FromUserRead(t, i);
    }
    EndsLater(s, i, steps, result, db);
    steps := [AuthenticateStep(i, false)] + steps;
  }

  lemma FromLoading(s: State, i: nat) returns (steps: seq<Step>, result: Option<Entry>, db: Store)
    requires s.WellFormed() && i < |s.ops| && s.ops[i].Authenticate? && s.ops[i].pc.Loading?
    ensures Ends(s, i, steps, result, db)
    ensures var key := s.ops[i].key;
            && (result.Some? <==> Live(s.Db(), key, s.ops[i].now))
            && (result.Some? ==> result.value.value.principal == StoredPrincipal(s.Db(), s.Db().sessions[key].user))
    ensures var (op, db0) := (s.ops[i], s.Db());
            db == if result.Some? then TouchedStore(db0, op.key, db0.sessions[op.key].lastSeen, op.now) else db0
  {
    var t := Apply(s, AuthenticateStep(i, false));
    if t.ops[i].pc.Dropping? {
      result, db := None, s.Db();
      steps := FromDropping(t, i);
    } else {
      steps, result, db := FromSessionRead(t, i);
    }
    EndsLater(s, i, steps, result, db);
    steps := [AuthenticateStep(i, false)] + steps;
  }

  /** A request by itself begun in `s` with token `key`, from its first step to `t`. */
  ghost predicate RequestedBy(s: State, key: Digest, steps: seq<Step>, t: State, result: Option<Entry>)
    requires s.WellFormed()
  {
    && (forall n :: 0 <= n < |steps| ==> steps[n] == AuthenticateStep(|s.ops|, false))
    && AllEnabled(s, [BeginAuthenticate(key)] + steps) && t == Run(s, [BeginAuthenticate(key)] + steps)
    && t.ops == s.ops + [Authenticate(key, s.clock, Returned(result))]
  }

  ghost predicate Requested(s: State, key: Digest, t: State, result: Option<Entry>)
    requires s.WellFormed()
  {
    exists steps :: RequestedBy(s, key, steps, t, result)
  }

  /** A request just begun. */
  lemma FromBegun(s: State, i: nat) returns (steps: seq<Step>, result: Option<Entry>, db: Store)
    requires s.WellFormed() && At(s, i) && s.ops[i].pc.Begun?
    ensures Ends(s, i, steps, result, db) && Decided(s, s.ops[i].key, result, db)
  {
    var t := Apply(s, AuthenticateStep(i, false));
    if CachedYoung(s, s.ops[i].key) {
      steps, result, db := FromHave(t, i);
    } else {
      steps, result, db := FromLoading(t, i);
    }
    EndsLater(s, i, steps, result, db);
    steps := [AuthenticateStep(i, false)] + steps;
  }

  /** What a request by itself gets, and the store it leaves: it is answered from a young cached
      entry as long as that has not expired, and otherwise exactly if its session is live, with
      the account and grants the store holds. */
  predicate Decided(s: State, key: Digest, result: Option<Entry>, db: Store)
    requires s.WellFormed()
  {
    if CachedYoung(s, key) then
      var c := s.cache.entries[key].value;
      && (result.Some? <==> s.clock < c.expiresAt)
      && (result.Some? ==> result.value.value.principal == c.principal)
      && db == if result.Some? then TouchedStore(s.Db(), key, c.lastSeen, s.clock) else s.Db()
    else if Live(s.Db(), key, s.clock) then
      var row := s.Db().sessions[key];
      && result.Some? && result.value.value.principal == StoredPrincipal(s.Db(), row.user)
      && db == TouchedStore(s.Db(), key, row.lastSeen, s.clock)
    else
      result == None && db == s.Db()
  }

  /** A refused request leaves nothing cached under its key. */
  lemma RequestIsDecided(s: State, key: Digest) returns (t: State, result: Option<Entry>)
    requires s.WellFormed()
    ensures Requested(s, key, t, result) && t.WellFormed() && Decided(s, key, result, t.Db())
    ensures t.clock == s.clock && (result.None? ==> key !in t.cache.entries)
  {
    var b := Apply(s, BeginAuthenticate(key));
    var steps, db;
    steps, result, db := FromBegun(b, |s.ops|);
    t := Run(b, steps);
    RunCons(s, BeginAuthenticate(key), steps);
    assert RequestedBy(s, key, steps, t, result);
  }

  // ------------------------------------------------------- logins and logouts alone

  /** A login by itself, with the right password, opens the session `key`. */
  function LoginSteps(s: State, user: UserId, key: Digest): seq<Step> {
    [BeginLogin(user)] + seq(5, _ => LoginStep(|s.ops|, false, key))
  }

  /** What the login hands to the cache. */
  predicate Opens(s: State, user: UserId, e: Entry)
    requires s.WellFormed() && user in s.Db().accounts
  {
    && e.value.principal == StoredPrincipal(s.Db(), user)
    && e.value.expiresAt == s.clock + SESSION_TTL && e.value.loadedAt == s.clock
  }

  /** From the beginning to the point where the session is to be created. */
  lemma LoginReads(s: State, user: UserId, key: Digest) returns (t: State)
    requires s.WellFormed() && user in s.Db().accounts && !s.Db().accounts[user].disabled
    ensures t.log == s.log && t.cache == s.cache && t.clock == s.clock && |t.ops| == |s.ops| + 1
    ensures var op := t.ops[|s.ops|];
            && op.Login? && op.user == user && op.lpc.GrantsRead? && op.lpc.now == s.clock
            && op.lpc.account == s.Db().accounts[user] && op.lpc.grants == GrantsOf(s.Db(), user)
    ensures var step := LoginStep(|s.ops|, false, key);
            && Enabled(s, BeginLogin(user)) && Enabled(Apply(s, BeginLogin(user)), step)
            && Enabled(Apply(Apply(s, BeginLogin(user)), step), step)
            && t == Apply(Apply(Apply(s, BeginLogin(user)), step), step)
  {
    var step := LoginStep(|s.ops|, false, key);
    var begun := Apply(s, BeginLogin(user));
    var verified := Apply(begun, step);
    t := Apply(verified, step);
  }

  /** From there to the end. */
  lemma LoginWrites(s: State, i: nat, key: Digest) returns (t: State)
    requires s.WellFormed() && i < |s.ops| && s.ops[i].Login? && s.ops[i].lpc.GrantsRead?
    requires s.ops[i].user in s.Db().accounts && s.ops[i].lpc.now == s.clock && key !in s.Db().sessions
    requires s.ops[i].lpc.account == s.Db().accounts[s.ops[i].user]
    requires s.ops[i].lpc.grants == GrantsOf(s.Db(), s.ops[i].user)
    ensures t.WellFormed() && t.clock == s.clock
    ensures t.Db().accounts == s.Db().accounts && t.Db().grants == s.Db().grants
    ensures key in t.Db().sessions && t.Db().sessions[key] == SessionRow(s.ops[i].user, s.clock + SESSION_TTL, s.clock)
    ensures key in t.cache.entries && Opens(s, s.ops[i].user, t.cache.entries[key])
    ensures var step := LoginStep(i, false, key); AllEnabled(s, [step, step, step]) && t == Run(s, [step, step, step])
  {
    var step := LoginStep(i, false, key);
    var created := Apply(s, step);
    assert key in created.Db().sessions;
    var cleaned := Apply(created, step);
    t := Apply(cleaned, step);
    RunCons(cleaned, step, []);
    RunCons(created, step, [step] + []);
    RunCons(s, step, [step] + ([step] + []));
    assert [step, step, step] == [step] + ([step] + ([step] + []));
  }

  lemma LoginOpens(s: State, user: UserId, key: Digest) returns (t: State)
    requires s.WellFormed() && user in s.Db().accounts && !s.Db().accounts[user].disabled
    requires key !in s.Db().sessions
    ensures AllEnabled(s, LoginSteps(s, user, key)) && t == Run(s, LoginSteps(s, user, key))
    ensures t.clock == s.clock && t.Db().accounts == s.Db().accounts && t.Db().grants == s.Db().grants
    ensures key in t.Db().sessions && t.Db().sessions[key] == SessionRow(user, s.clock + SESSION_TTL, s.clock)
    ensures key in t.cache.entries && Opens(s, user, t.cache.entries[key])
  {
    var step := LoginStep(|s.ops|, false, key);
    var granted := LoginReads(s, user, key);
    t := LoginWrites(granted, |s.ops|, key);
    var begun := Apply(s, BeginLogin(user));
    RunCons(Apply(begun, step), step, [step, step, step]);
    RunCons(begun, step, [step] + [step, step, step]);
    RunCons(s, BeginLogin(user), [step] + ([step] + [step, step, step]));
    assert LoginSteps(s, user, key) == [BeginLogin(user)] + ([step] + ([step] + [step, step, step]));
  }

  /** A session serves from its login until it expires: whoever logs in and asks again
      before then is answered as the account it logged in to, with the grants that account
      has, and whoever asks later is turned away. */
  lemma LoginIsServed(s: State, user: UserId, key: Digest, later: int)
    returns (t: State, u: State, result: Option<Entry>)
    requires s.WellFormed() && user in s.Db().accounts && !s.Db().accounts[user].disabled
    requires key !in s.Db().sessions && s.clock <= later
    ensures AllEnabled(s, LoginSteps(s, user, key)) && t == Run(s, LoginSteps(s, user, key)).(clock := later)
    ensures Requested(t, key, u, result)
    ensures result.Some? <==> later < s.clock + SESSION_TTL
    ensures result.Some? ==> result.value.value.principal == StoredPrincipal(s.Db(), user)
  {
    var after := LoginOpens(s, user, key);
    t := Apply(after, Tick(later));
    u, result := RequestIsDecided(t, key);
  }

  lemma LogoutDeletes(s: State, key: Digest) returns (t: State)
    requires s.WellFormed()
    ensures var steps := [BeginLogout(key), LogoutStep(|s.ops|, false), LogoutStep(|s.ops|, false)];
            AllEnabled(s, steps) && t == Run(s, steps)
    ensures t.Db() == s.Db().(sessions := s.Db().sessions - {key}) && key !in t.cache.entries
    ensures t.ops == s.ops + [Logout(key, true, true)]
  {
    var step := LogoutStep(|s.ops|, false);
    var begun := Apply(s, BeginLogout(key));
    var forgotten := Apply(begun, step);
    t := Apply(forgotten, step);
    RunCons(forgotten, step, []);
    RunCons(begun, step, [step] + []);
    RunCons(s, BeginLogout(key), [step] + ([step] + []));
    assert [BeginLogout(key), step, step] == [BeginLogout(key)] + ([step] + ([step] + []));
  }

  /** A logout by itself ends the session: the next request for it, by itself, gets nothing. */
  lemma LogoutIsObeyed(s: State, key: Digest) returns (t: State, u: State, result: Option<Entry>)
    requires s.WellFormed()
    ensures var steps := [BeginLogout(key), LogoutStep(|s.ops|, false), LogoutStep(|s.ops|, false)];
            AllEnabled(s, steps) && t == Run(s, steps)
    ensures t.Db() == s.Db().(sessions := s.Db().sessions - {key}) && t.ops == s.ops + [Logout(key, true, true)]
    ensures Requested(t, key, u, result) && result.None?
  {
    t := LogoutDeletes(s, key);
    u, result := RequestIsDecided(t, key);
  }

  /** A change to an account by itself is obeyed at once: the next request for one of its
      sessions, by itself, is decided by the store as the change left it. */
  lemma ChangeIsObeyed(s: State, user: UserId, db: Store, key: Digest)
    returns (t: State, u: State, result: Option<Entry>)
    requires s.WellFormed()
    requires key in s.cache.entries ==> s.cache.entries[key].owner == user
    ensures var steps := [ChangeAccount(user, db), FinishChange(|s.ops|)]; AllEnabled(s, steps) && t == Run(s, steps)
    ensures t.Db() == db && t.ops == s.ops + [Change(user, |s.log|, true)]
    ensures Requested(t, key, u, result)
    ensures result.Some? <==> Live(db, key, s.clock)
    ensures result.Some? ==> result.value.value.principal == StoredPrincipal(db, db.sessions[key].user)
  {
    var change, finish := ChangeAccount(user, db), FinishChange(|s.ops|);
    var changed := Apply(s, change);
    t := Apply(changed, finish);
    RunCons(changed, finish, []);
    RunCons(s, change, [finish] + []);
    assert [change, finish] == [change] + ([finish] + []);
    u, result := RequestIsDecided(t, key);
  }
}
