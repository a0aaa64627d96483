/**
  The session cache as a protocol of atomic steps (internal/api/auth_session.go,
  internal/api/auth.go). Each lock section and each store call is one step; any
  number of operations are in flight at once, and the store may also be written
  by anyone else at any time.
*/
module SessionProtocol {
  import opened Wrappers
  import opened Roles
  import opened RevisionGuard

  type UserId = int
  type Digest = nat

  // Seconds.
  const SESSION_TTL := 14 * 24 * 3600
  const SESSION_CACHE_TTL := 30
  const SESSION_TOUCH_EVERY := 60
  const SESSION_CACHE_PRUNE := 1024

  datatype Account = Account(disabled: bool, email: string, name: string, mustChangePassword: bool)

  datatype SessionRow = SessionRow(user: UserId, expiresAt: int, lastSeen: int)

  datatype Store = Store(
    accounts: map<UserId, Account>,
    grants: map<UserId, seq<Grant>>,
    sessions: map<Digest, SessionRow>)

  /** One successful store write and when it happened. */
  datatype Commit = Commit(store: Store, at: int)

  datatype Principal = Principal(user: UserId, email: string, name: string, grants: seq<Grant>,
                                 mustChangePassword: bool)

  /** Which writes the parts of a principal were read after (bookkeeping). */
  datatype Origin =
    | Loaded(sessionAt: nat, rowAt: nat, grantsAt: nat)
    | LoggedIn(rowAt: nat, grantsAt: nat, createdAt: nat)

  datatype CachedSession = CachedSession(
    principal: Principal, expiresAt: int, lastSeen: int, loadedAt: int, origin: Origin)

  type Entry = Stamped<UserId, CachedSession>
  type SessionCache = Cache<Digest, UserId, CachedSession>

  function GrantsOf(db: Store, u: UserId): seq<Grant> {
    if u in db.grants then db.grants[u] else []
  }

  function PrincipalOf(u: UserId, a: Account, grants: seq<Grant>): Principal {
    Principal(u, a.email, a.name, grants, a.mustChangePassword)
  }

  /** storeLocked's pruning: once the cache is full, entries past their TTL go. */
  function Pruned(c: SessionCache, now: int): SessionCache {
    if |c.entries| >= SESSION_CACHE_PRUNE then
      c.(entries := map k | k in c.entries && now - c.entries[k].value.loadedAt < SESSION_CACHE_TTL :: c.entries[k])
    else c
  }

  function StoreLocked(c: SessionCache, key: Digest, e: Entry, now: int): SessionCache {
    Put(Pruned(c, now), key, e)
  }

  function StoreGuarded(c: SessionCache, f: Flight, key: Digest, e: Entry, now: int): SessionCache {
    Publish(if c.revision == f.revision then Pruned(c, now) else c, f, key, e)
  }

  datatype AuthPc =
    | Begun
    | Loading(flight: Flight)
    | SessionRead(flight: Flight, row: SessionRow, sessionAt: nat)
    | UserRead(flight: Flight, row: SessionRow, sessionAt: nat, account: Account, rowAt: nat)
    | Have(flight: Flight, entry: Entry)
    | Ready(flight: Flight, entry: Entry)
    | Dropping
    | Returned(result: Option<Entry>)
    | Failed

  datatype LoginPc =
    | RowRead(account: Account, rowAt: nat)
    | Verified(account: Account, rowAt: nat, now: int)
    | GrantsRead(account: Account, rowAt: nat, now: int, grants: seq<Grant>, grantsAt: nat)
    | Created(key: Digest, entry: Entry, now: int)
    | Cleaned(key: Digest, entry: Entry, now: int)
    | LoginOver

  datatype Op =
    | Authenticate(key: Digest, now: int, pc: AuthPc)
    | Login(user: UserId, lpc: LoginPc)
    | Logout(token: Digest, forgotten: bool, over: bool)
    | Change(account: UserId, at: nat, finished: bool)

  datatype State = State(clock: int, log: seq<Commit>, cache: SessionCache, ops: seq<Op>) {
    predicate WellFormed() { log != [] }
    function Writes(): nat requires WellFormed() { |log| - 1 }
    function Db(): Store requires WellFormed() { log[|log| - 1].store }
  }

  /** `fault` is whether the store call of the step fails; it is ignored by
      steps that make none. */
  datatype Step =
    | Tick(to: int)
    | OtherWrite(db: Store)
    | ChangeAccount(user: UserId, db: Store)
    | FinishChange(i: nat)
    | BeginAuthenticate(key: Digest)
    | AuthenticateStep(i: nat, fault: bool)
    | BeginLogin(user: UserId)
    | LoginStep(i: nat, fault: bool, newKey: Digest)
    | BeginLogout(key: Digest)
    | LogoutStep(i: nat, fault: bool)

  predicate Enabled(s: State, step: Step)
    requires s.WellFormed()
  {
    match step
    case Tick(to) => s.clock <= to
    case OtherWrite(_) => true
    case ChangeAccount(_, _) => true
    case FinishChange(i) => i < |s.ops| && s.ops[i].Change? && !s.ops[i].finished
    case BeginAuthenticate(_) => true
    case AuthenticateStep(i, _) =>
      i < |s.ops| && s.ops[i].Authenticate? && !s.ops[i].pc.Returned? && !s.ops[i].pc.Failed?
    case BeginLogin(user) => user in s.Db().accounts
    case LoginStep(i, _, newKey) =>
      && i < |s.ops| && s.ops[i].Login? && !s.ops[i].lpc.LoginOver?
      && (s.ops[i].lpc.GrantsRead? ==> newKey !in s.Db().sessions)
    case BeginLogout(_) => true
    case LogoutStep(i, _) => i < |s.ops| && s.ops[i].Logout? && !s.ops[i].over
  }

  function Write(s: State, db: Store): State {
    s.(log := s.log + [Commit(db, s.clock)])
  }

  function SetOp(s: State, i: nat, op: Op): State
    requires i < |s.ops|
  {
    s.(ops := s.ops[i := op])
  }

  function Apply(s: State, step: Step): (s': State)
    requires s.WellFormed() && Enabled(s, step)
    ensures s'.WellFormed()
  {
    match step
    case Tick(to) => s.(clock := to)
    case OtherWrite(db) => Write(s, db)
    // UpdateUser or DeleteUser commits; the operation remembers its write number.
    case ChangeAccount(user, db) => Write(s, db).(ops := s.ops + [Change(user, |s.log|, false)])
    // forgetUser, the last thing the handler does.
    case FinishChange(i) =>
      SetOp(s, i, s.ops[i].(finished := true)).(cache := ForgetOwner(s.cache, s.ops[i].account))
    case BeginAuthenticate(key) => s.(ops := s.ops + [Authenticate(key, s.clock, Begun)])
    case AuthenticateStep(i, fault) => AuthenticateNext(s, i, fault)
    // UserByEmail found the account.
    case BeginLogin(user) => s.(ops := s.ops + [Login(user, RowRead(s.Db().accounts[user], s.Writes()))])
    case LoginStep(i, fault, newKey) => LoginNext(s, i, fault, newKey)
    case BeginLogout(key) => s.(ops := s.ops + [Logout(key, false, false)])
    case LogoutStep(i, fault) =>
      var op := s.ops[i];
      if !op.forgotten then
        SetOp(s, i, op.(forgotten := true)).(cache := Forget(s.cache, op.token))
      else if fault then
        SetOp(s, i, op.(over := true))
      else
        SetOp(Write(s, s.Db().(sessions := s.Db().sessions - {op.token})), i, op.(over := true))
  }

  function AuthenticateNext(s: State, i: nat, fault: bool): (s': State)
    requires s.WellFormed() && Enabled(s, AuthenticateStep(i, fault))
    ensures s'.WellFormed()
  {
    var op := s.ops[i];
    var key, now := op.key, op.now;
    match op.pc
    case Begun =>
      if key in s.cache.entries && now - s.cache.entries[key].value.loadedAt < SESSION_CACHE_TTL then
        SetOp(s, i, op.(pc := Have(Hit(s.cache, key), s.cache.entries[key])))
      else
        SetOp(s, i, op.(pc := Loading(Miss(s.cache, s.Writes()))))
    case Loading(f) =>
      if fault then SetOp(s, i, op.(pc := Failed))
      else if key !in s.Db().sessions || now >= s.Db().sessions[key].expiresAt then SetOp(s, i, op.(pc := Dropping))
      else SetOp(s, i, op.(pc := SessionRead(f, s.Db().sessions[key], s.Writes())))
    case SessionRead(f, row, sessionAt) =>
      if fault then SetOp(s, i, op.(pc := Failed))
      else if row.user !in s.Db().accounts || s.Db().accounts[row.user].disabled then SetOp(s, i, op.(pc := Dropping))
      else SetOp(s, i, op.(pc := UserRead(f, row, sessionAt, s.Db().accounts[row.user], s.Writes())))
    case UserRead(f, row, sessionAt, account, rowAt) =>
      if fault then SetOp(s, i, op.(pc := Failed))
      else
        var p := PrincipalOf(row.user, account, GrantsOf(s.Db(), row.user));
        var c := CachedSession(p, row.expiresAt, row.lastSeen, now, Loaded(sessionAt, rowAt, s.Writes()));
        SetOp(s, i, op.(pc := Have(f, Stamped(row.user, f.since, c))))
    case Have(f, e) =>
      if now >= e.value.expiresAt then SetOp(s, i, op.(pc := Dropping))
      else if now - e.value.lastSeen < SESSION_TOUCH_EVERY || fault then SetOp(s, i, op.(pc := Ready(f, e)))
      else
        // TouchSession slides the row's expiry if the row is still there.
        var expires := now + SESSION_TTL;
        var db := s.Db();
        var touched := if key in db.sessions
                       then db.(sessions := db.sessions[key := SessionRow(db.sessions[key].user, expires, now)])
                       else db;
        SetOp(Write(s, touched), i, op.(pc := Ready(f, e.(value := e.value.(lastSeen := now, expiresAt := expires)))))
    case Ready(f, e) =>
      SetOp(s, i, op.(pc := Returned(Some(e)))).(cache := StoreGuarded(s.cache, f, key, e, now))
    case Dropping =>
      SetOp(s, i, op.(pc := Returned(None))).(cache := Forget(s.cache, key))
    case Returned(_) => s
    case Failed => s
  }

  function LoginNext(s: State, i: nat, fault: bool, newKey: Digest): (s': State)
    requires s.WellFormed() && Enabled(s, LoginStep(i, fault, newKey))
    ensures s'.WellFormed()
  {
    var op := s.ops[i];
    var user := op.user;
    match op.lpc
    // verifyPassword; `fault` covers a throttled, mistaken or failed check.
    case RowRead(a, rowAt) =>
      SetOp(s, i, op.(lpc := if fault || a.disabled then LoginOver else Verified(a, rowAt, s.clock)))
    case Verified(a, rowAt, now) =>
      SetOp(s, i, op.(lpc := if fault then LoginOver
                             else GrantsRead(a, rowAt, now, GrantsOf(s.Db(), user), s.Writes())))
    // CreateSession; the sessions table references the account.
    case GrantsRead(a, rowAt, now, grants, grantsAt) =>
      if fault || user !in s.Db().accounts then SetOp(s, i, op.(lpc := LoginOver))
      else
        var expires := now + SESSION_TTL;
        var db := s.Db().(sessions := s.Db().sessions[newKey := SessionRow(user, expires, now)]);
        var c := CachedSession(PrincipalOf(user, a, grants), expires, now, now, LoggedIn(rowAt, grantsAt, |s.log|));
        SetOp(Write(s, db), i, op.(lpc := Created(newKey, Stamped(user, rowAt, c), now)))
    // DeleteExpiredSessions; a failure is only logged.
    case Created(key, e, now) =>
      var db := s.Db();
      var live := map k | k in db.sessions && db.sessions[k].expiresAt >= now :: db.sessions[k];
      SetOp(if fault then s else Write(s, db.(sessions := live)), i, op.(lpc := Cleaned(key, e, now)))
    // The unguarded publication.
    case Cleaned(key, e, now) =>
      SetOp(s, i, op.(lpc := LoginOver)).(cache := StoreLocked(s.cache, key, e, now))
    case LoginOver => s
  }

  predicate AllEnabled(s: State, steps: seq<Step>)
    requires s.WellFormed()
    decreases |steps|
  {
    steps == [] || (Enabled(s, steps[0]) && AllEnabled(Apply(s, steps[0]), steps[1..]))
  }

  function Run(s: State, steps: seq<Step>): (s': State)
    requires s.WellFormed() && AllEnabled(s, steps)
    ensures s'.WellFormed()
    decreases |steps|
  {
    if steps == [] then s else Run(Apply(s, steps[0]), steps[1..])
  }

  predicate Initial(s: State) {
    |s.log| == 1 && s.log[0].at <= s.clock && s.cache == Cache(0, map[]) && s.ops == []
  }
}
