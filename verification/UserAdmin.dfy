/** Account administration: the create, update and delete handlers with their guard for the
    last administrator (internal/api/users_handlers.go) and the first account
    (`Bootstrap`, internal/api/auth.go). Requests are handled one at a time. */
module UserAdmin {
  import opened Wrappers
  import opened Roles
  import opened Ordering
  import Access = Grants

  /** An email is normalized; `grants` is what the store holds for the account; with
      `mustChange` a session may do nothing but set a new password. */
  datatype Account = Account(email: string, disabled: bool, mustChange: bool, grants: seq<Grant>)

  /** The account table; ids are issued in order from `next`. */
  datatype Store = Store(users: map<int, Account>, next: int)

  const DEFAULT_LOGIN := "admin"

  /** A decoded request. `valid` stands for the checks of its email, name, password, roles
      and organizations, `written` for the store accepting the write. */
  datatype Request =
    | Boot(email: string, password: string, valid: bool, written: bool)
    | Create(email: string, grants: seq<Grant>, valid: bool, written: bool)
    | Update(actor: int, id: int, valid: bool, disabled: Option<bool>, newPassword: bool,
             grantsAsked: Option<seq<Grant>>, written: bool)
    | Delete(actor: int, id: int, written: bool)

  datatype Response = FromEnv | DefaultAdmin | Unchanged | Created(id: int) | Updated(revoked: bool) | Deleted
                    | BadRequest | NotFound | EmailTaken | LastAdmin | OwnAccount | Failed

  predicate Administers(a: Account) {
    !a.disabled && Access.IsGlobalAdmin(a.grants)
  }

  /** No enabled administrator of every organization besides one account. */
  predicate NoOtherAdmin(users: map<int, Account>, exclude: int) {
    forall id :: id in users && id != exclude ==> !Administers(users[id])
  }

  /** Whether the account is the only one left that can manage the others. */
  predicate IsLastAdmin(users: map<int, Account>, id: int)
    requires id in users
  {
    Administers(users[id]) && NoOtherAdmin(users, id)
  }

  predicate EmailUsed(users: map<int, Account>, email: string) {
    exists id :: id in users && users[id].email == email
  }

  /** The grants the account ends up with, and whether the request changed them. */
  function NewGrants(current: seq<Grant>, asked: Option<seq<Grant>>): (seq<Grant>, bool) {
    if asked.None? then (current, false)
    else
      var parsed := Access.Normalized(asked.value);
      if Access.Same(current, parsed) then (current, false) else (parsed, true)
  }

  /** What an update writes over the row `c`, its grants compared with those it `read`. */
  function Changed(c: Account, r: Request, read: Account): Account
    requires r.Update?
  {
    var (grants, changed) := NewGrants(read.grants, r.grantsAsked);
    Account(c.email, if r.disabled.Some? then r.disabled.value else c.disabled,
            if r.newPassword then r.id != r.actor else c.mustChange, if changed then grants else c.grants)
  }

  function HandleUpdate(s: Store, r: Request): (Store, Response)
    requires r.Update?
  {
    if r.id !in s.users then (s, NotFound)
    else if !r.valid then (s, BadRequest)
    else
      var user := s.users[r.id];
      var asked := if r.grantsAsked.None? then user.grants else Access.Normalized(r.grantsAsked.value);
      var disabled := if r.disabled.Some? then r.disabled.value else user.disabled;
      if (disabled || !Access.IsGlobalAdmin(asked)) && IsLastAdmin(s.users, r.id) then (s, LastAdmin)
      else if !r.written then (s, Failed)
      else
        (s.(users := s.users[r.id := Changed(user, r, user)]),
         Updated(NewGrants(user.grants, r.grantsAsked).1 || r.newPassword || (disabled && !user.disabled)))
  }

  function HandleDelete(s: Store, r: Request): (Store, Response)
    requires r.Delete?
  {
    if r.id !in s.users then (s, NotFound)
    else if IsLastAdmin(s.users, r.id) then (s, LastAdmin)
    else if r.id == r.actor then (s, OwnAccount)
    else if !r.written then (s, Failed)
    else (s.(users := s.users - {r.id}), Deleted)
  }

  function AddAccount(s: Store, a: Account): Store {
    Store(s.users[s.next := a], s.next + 1)
  }

  function Handle(s: Store, r: Request): (Store, Response) {
    match r
    case Boot(email, password, valid, written) =>
      if s.users != map[] then (s, Unchanged)
      else if email == "" || password == "" then
        if written then (AddAccount(s, Account(DEFAULT_LOGIN, false, true, [Grant(Admin, "")])), DefaultAdmin)
        else (s, Failed)
      else if valid && written then (AddAccount(s, Account(email, false, false, [Grant(Admin, "")])), FromEnv)
      else (s, Failed)
    case Create(email, grants, valid, written) =>
      if !valid then (s, BadRequest)
      else if EmailUsed(s.users, email) then (s, EmailTaken)
      else if !written then (s, Failed)
      else (AddAccount(s, Account(email, false, true, Access.Normalized(grants))), Created(s.next))
    case Update(_, _, _, _, _, _, _) => HandleUpdate(s, r)
    case Delete(_, _, _) => HandleDelete(s, r)
  }

  /** The store after requests handled one at a time. */
  function Run(s: Store, requests: seq<Request>): Store {
    if requests == [] then s else Handle(Run(s, requests[..|requests|-1]), requests[|requests|-1]).0
  }

  // ---- What every request keeps ----

  ghost predicate HasAdmin(users: map<int, Account>) {
    exists id :: id in users && Administers(users[id])
  }

  ghost predicate WellFormed(s: Store) {
    && (forall id :: id in s.users ==> id < s.next)
    && (forall i, j :: i in s.users && j in s.users && s.users[i].email == s.users[j].email ==> i == j)
    && (forall id :: id in s.users ==> Normal(s.users[id].grants))
  }

  /** Up to order, a list in normal form: what the handlers write. */
  ghost predicate Normal(grants: seq<Grant>) {
    Access.Same(Access.Normalized(grants), grants)
  }

  /** An update that only reorders or repeats the grants an account has judges the account
      by them as it would by the stored ones. */
  lemma AskedIsStored(current: seq<Grant>, asked: Option<seq<Grant>>)
    ensures Access.IsGlobalAdmin(NewGrants(current, asked).0) ==
            Access.IsGlobalAdmin(if asked.None? then current else Access.Normalized(asked.value))
  {
  }

  /** When some other account can take over, or the account itself still administers, an
      administrator remains whatever happens to the account. */
  lemma AdminAfter(users: map<int, Account>, id: int, after: map<int, Account>)
    requires HasAdmin(users) && id in users
    requires forall k :: k != id ==> (k in users <==> k in after) && (k in users ==> after[k] == users[k])
    ensures HasAdmin(after) <==> (id in after && Administers(after[id])) || !IsLastAdmin(users, id)
  {
    if NoOtherAdmin(users, id) {
      var k :| k in users && Administers(users[k]);
      assert k == id;
    } else {
      var k :| k in users && k != id && Administers(users[k]);
      assert k in after && Administers(after[k]);
    }
  }

  lemma AdminStep(s: Store, r: Request)
    requires WellFormed(s) && HasAdmin(s.users)
    ensures HasAdmin(Handle(s, r).0.users)
  {
    var t := Handle(s, r).0;
    if t != s {
      match r
      case Boot(_, _, _, _) =>
      case Create(_, _, _, _) =>
        var k :| k in s.users && Administers(s.users[k]);
        assert k != s.next && t.users[k] == s.users[k];
      case Update(_, id, _, _, _, asked, _) =>
        AskedIsStored(s.users[id].grants, asked);
        AdminAfter(s.users, id, t.users);
      case Delete(_, id, _) =>
        AdminAfter(s.users, id, t.users);
    }
  }

  lemma NormalizedIsNormal(asked: seq<Grant>)
    ensures Normal(Access.Normalized(asked))
  {
    Access.NormalizingIsIdempotent(asked);
  }

  lemma WellFormedStep(s: Store, r: Request)
    requires WellFormed(s)
    ensures WellFormed(Handle(s, r).0)
  {
    match r
    case Boot(_, _, _, _) => Access.NormalizedIsNormalForm([Grant(Admin, "")]);
    case Create(_, grants, _, _) => NormalizedIsNormal(grants);
    case Update(_, _, _, _, _, asked, _) => if asked.Some? { NormalizedIsNormal(asked.value); }
    case Delete(_, _, _) =>
  }

  /** An enabled account is an administrator wherever one looks. */
  ghost predicate AdminEverywhere(users: map<int, Account>) {
    exists id :: id in users && AdministersEverywhere(users[id])
  }

  ghost predicate AdministersEverywhere(a: Account) {
    !a.disabled && forall org :: org != "" ==> Access.Holds(a.grants, Admin, org)
  }

  /** That is what the handlers' own test for an administrator finds. */
  lemma AdminMeansEverywhere(users: map<int, Account>)
    ensures HasAdmin(users) <==> AdminEverywhere(users)
  {
    forall id | id in users ensures Administers(users[id]) <==> AdministersEverywhere(users[id]) {
      Access.GlobalAdminIsAdminEverywhere(users[id].grants);
    }
  }

  /** Once an administrator of every organization exists, no sequence of requests leaves the
      site without an enabled one, and no two accounts ever share an email. */
  lemma {:induction false} AdminRemains(s: Store, requests: seq<Request>)
    requires WellFormed(s) && HasAdmin(s.users)
    ensures WellFormed(Run(s, requests)) && HasAdmin(Run(s, requests).users)
    ensures AdminEverywhere(Run(s, requests).users)
  {
    if requests != [] {
      var n := |requests| - 1;
      AdminRemains(s, requests[..n]);
      WellFormedStep(Run(s, requests[..n]), requests[n]);
      AdminStep(Run(s, requests[..n]), requests[n]);
    }
    AdminMeansEverywhere(Run(s, requests).users);
  }

  /** Bootstrapping an empty store is enough to get there. */
  lemma AdminAfterBootstrap(s: Store, boot: Request, requests: seq<Request>)
    requires s.users == map[] && boot.Boot? && Handle(s, boot).1 in {FromEnv, DefaultAdmin}
    ensures HasAdmin(Run(Handle(s, boot).0, requests).users)
  {
    var t := Handle(s, boot).0;
    WellFormedStep(s, boot);
    assert t.users[s.next].grants[0] == Grant(Admin, "");
    assert Grant(Admin, "") in t.users[s.next].grants;
    assert s.next in t.users && Administers(t.users[s.next]);
    AdminRemains(t, requests);
  }

  /** The guard is exact: an update or a delete that is otherwise in order is refused as the
      last administrator's if and only if it would leave no administrator. */
  lemma RefusedExactlyWhenLast(s: Store, r: Request)
    requires WellFormed(s) && HasAdmin(s.users)
    requires (r.Update? && r.valid) || r.Delete?
    requires r.id in s.users
    ensures var after := if r.Delete? then s.users - {r.id}
                         else s.users[r.id := Changed(s.users[r.id], r, s.users[r.id])];
            Handle(s, r).1 == LastAdmin <==> !HasAdmin(after)
  {
    var user := s.users[r.id];
    if r.Update? {
      var after := s.users[r.id := Changed(user, r, user)];
      AskedIsStored(user.grants, r.grantsAsked);
      AdminAfter(s.users, r.id, after);
    } else {
      AdminAfter(s.users, r.id, s.users - {r.id});
    }
  }

  /** A request changes at most one account: an update or delete the one it names, and
      otherwise only by adding one with a new id. */
  lemma OthersUntouched(s: Store, r: Request, id: int)
    requires WellFormed(s) && id in s.users && ((r.Update? || r.Delete?) ==> r.id != id)
    ensures id in Handle(s, r).0.users && Handle(s, r).0.users[id] == s.users[id]
  {
  }

  /** An update that leaves the sessions open took nothing away: the grants and the password
      are what they were, and the account was not disabled. */
  lemma OpenSessionsKeepAccess(s: Store, r: Request)
    requires r.Update? && Handle(s, r).1 == Updated(false)
    ensures !r.newPassword && r.id in s.users && r.id in Handle(s, r).0.users
    ensures var was, now := s.users[r.id], Handle(s, r).0.users[r.id];
            now.grants == was.grants && now.email == was.email && (now.disabled ==> was.disabled)
  {
  }

  /** Sending an account's own grants again, reordered or repeated, changes nothing and
      signs nobody out. */
  lemma ReorderingChangesNothing(s: Store, r: Request)
    requires WellFormed(s) && r.Update? && r.valid && r.written && r.id in s.users
    requires r.disabled.None? && !r.newPassword && r.grantsAsked.Some?
    requires Access.Same(r.grantsAsked.value, s.users[r.id].grants)
    ensures Handle(s, r) == (s, Updated(false))
  {
    var stored := s.users[r.id].grants;
    assert Normal(stored);
    Access.SameGrantsSameForm(r.grantsAsked.value, stored);
    AskedIsStored(stored, r.grantsAsked);
    assert s.users[r.id := s.users[r.id]] == s.users;
  }

  /** A password someone else knows has to be changed: after a create, the default bootstrap or an
      update by another account a change is pending; setting one's own clears it, and no
      other request touches it. */
  lemma HandedOutIsTemporary(s: Store, r: Request, id: int)
    requires WellFormed(s) && id in Handle(s, r).0.users
    ensures var now := Handle(s, r).0.users[id].mustChange;
            if id !in s.users then now == !(r.Boot? && Handle(s, r).1 == FromEnv)
            else if r.Update? && r.id == id && r.newPassword && Handle(s, r).1.Updated? then now == (r.actor != id)
            else now == s.users[id].mustChange
  {
  }

  // ---- What the answers say ----

  predicate Succeeds(r: Response) {
    r.FromEnv? || r.DefaultAdmin? || r.Created? || r.Updated? || r.Deleted?
  }

  /** The answer tells whether anything happened: a refusal leaves the table as it was, and a
      success means the request was in order and the store took it. */
  lemma RefusalsChangeNothing(s: Store, r: Request)
    ensures !Succeeds(Handle(s, r).1) ==> Handle(s, r).0 == s
    ensures Succeeds(Handle(s, r).1) ==>
              && r.written
              && (r.Boot? ==> s.users == map[] && (r.email != "" && r.password != "" ==> r.valid))
              && (r.Create? ==> r.valid && forall id :: id in s.users ==> s.users[id].email != r.email)
              && (r.Update? ==> r.valid && r.id in s.users)
              && (r.Delete? ==> r.id in s.users && r.id != r.actor)
  {
  }

  /** The first account is the configured one when both its email and its password are
      configured, and otherwise the default one, which must change its password. */
  lemma BootsAsConfigured(s: Store, r: Request)
    requires WellFormed(s) && r.Boot? && Succeeds(Handle(s, r).1)
    ensures Handle(s, r).1 == FromEnv <==> r.email != "" && r.password != ""
    ensures exists id :: Handle(s, r).0.users.Keys == {id}
                         && AdministersEverywhere(Handle(s, r).0.users[id])
                         && (if Handle(s, r).1 == FromEnv
                             then Handle(s, r).0.users[id].email == r.email && !Handle(s, r).0.users[id].mustChange
                             else Handle(s, r).0.users[id].email == "admin" && Handle(s, r).0.users[id].mustChange)
  {
    var t := Handle(s, r).0;
    assert t.users.Keys == {s.next};
    assert t.users[s.next].grants[0] == Grant(Admin, "");
    Access.GlobalAdminIsAdminEverywhere(t.users[s.next].grants);
    assert AdministersEverywhere(t.users[s.next]);
  }

  /** The same roles on every organization. */
  ghost predicate SameAccess(a: seq<Grant>, b: seq<Grant>) {
    forall role, org :: org != "" ==> Access.Holds(a, role, org) == Access.Holds(b, role, org)
  }

  lemma NormalizedGivesSame(grants: seq<Grant>)
    ensures SameAccess(Access.Normalized(grants), grants)
  {
    Access.NormalizingIsIdempotent(grants);
    Access.NormalFormIsComplete(Access.Normalized(grants), grants);
  }

  /** A created account is a new one under the email asked for, can sign in, and may do exactly
      what was asked. */
  lemma CreatedAsAsked(s: Store, r: Request, id: int)
    requires WellFormed(s) && r.Create? && Handle(s, r).1 == Created(id)
    ensures id !in s.users && id in Handle(s, r).0.users
    ensures var now := Handle(s, r).0.users[id];
            now.email == r.email && !now.disabled && SameAccess(now.grants, r.grants)
  {
    NormalizedGivesSame(r.grants);
  }

  /** An updated account keeps its email, is disabled or enabled as asked, may do exactly what
      was asked, and keeps whatever was not asked about; it is signed out exactly when its
      password was set, it was newly disabled, or what it may do somewhere changed. */
  lemma UpdatedAsAsked(s: Store, r: Request)
    requires WellFormed(s) && r.Update? && Handle(s, r).1.Updated?
    ensures r.id in s.users && r.id in Handle(s, r).0.users
    ensures var was, now := s.users[r.id], Handle(s, r).0.users[r.id];
            && now.email == was.email
            && now.disabled == (if r.disabled.Some? then r.disabled.value else was.disabled)
            && SameAccess(now.grants, if r.grantsAsked.Some? then r.grantsAsked.value else was.grants)
            && (Handle(s, r).1.revoked <==>
                  r.newPassword || (now.disabled && !was.disabled) || !SameAccess(now.grants, was.grants))
  {
    var was := s.users[r.id];
    if r.grantsAsked.Some? {
      var asked := r.grantsAsked.value;
      NormalizedGivesSame(asked);
      AskedDiffers(was.grants, asked);
    }
  }

  /** Comparing the lists tells whether access changes, stored grants being in normal form. */
  lemma AskedDiffers(stored: seq<Grant>, asked: seq<Grant>)
    requires Normal(stored)
    ensures Access.Same(stored, Access.Normalized(asked)) <==> SameAccess(stored, asked)
  {
    var parsed := Access.Normalized(asked);
    Access.NormalFormIsComplete(stored, asked);
    Access.NormalizingIsIdempotent(asked);
    if Access.Same(stored, parsed) { Access.SameGrantsSameForm(stored, parsed); }
  }

  /** A deleted account is gone. */
  lemma DeletedIsGone(s: Store, r: Request)
    requires r.Delete? && Handle(s, r).1 == Deleted
    ensures r.id !in Handle(s, r).0.users
  {
  }

  // ---- Two requests at once ----

  /** The request would be carried out if it were handled now: it has passed its checks. */
  predicate Admitted(s: Store, r: Request) {
    (r.Update? && Handle(s, r).1.Updated?) || (r.Delete? && Handle(s, r).1 == Deleted)
  }

  /** Its write, on whatever the table holds by then; an account that is gone stays gone. */
  function WriteLater(users: map<int, Account>, r: Request, read: Account): map<int, Account>
    requires r.Update? || r.Delete?
  {
    if r.id !in users then users
    else if r.Delete? then users - {r.id}
    else users[r.id := Changed(users[r.id], r, read)]
  }

  /** It takes the account's administration away. */
  predicate Demotes(s: Store, r: Request)
    requires (r.Update? || r.Delete?) && r.id in s.users
  {
    Administers(s.users[r.id]) && (r.Delete? || !Administers(Changed(s.users[r.id], r, s.users[r.id])))
  }

  lemma AdmittedExists(s: Store, r: Request)
    requires Admitted(s, r)
    ensures r.id in s.users && Handle(s, r).0.users == WriteLater(s.users, r, s.users[r.id])
    ensures Demotes(s, r) ==> !NoOtherAdmin(s.users, r.id)
  {
    if r.Update? { AskedIsStored(s.users[r.id].grants, r.grantsAsked); }
  }

  /** The table after two admitted requests are both written. */
  function AfterBoth(s: Store, r: Request, q: Request): map<int, Account>
    requires Admitted(s, r) && Admitted(s, q) && r.id in s.users && q.id in s.users
  {
    WriteLater(WriteLater(s.users, r, s.users[r.id]), q, s.users[q.id])
  }

  ghost predicate ThirdAdmin(s: Store, r: Request, q: Request)
    requires Admitted(s, r) && Admitted(s, q)
  {
    exists k :: k in s.users && k != r.id && k != q.id && Administers(s.users[k])
  }

  lemma ThirdAdminStays(s: Store, r: Request, q: Request)
    requires Admitted(s, r) && Admitted(s, q) && r.id in s.users && q.id in s.users && ThirdAdmin(s, r, q)
    ensures HasAdmin(AfterBoth(s, r, q))
  {
    var k :| k in s.users && k != r.id && k != q.id && Administers(s.users[k]);
    assert k in AfterBoth(s, r, q) && AfterBoth(s, r, q)[k] == s.users[k];
  }

  /** Exactly when the guard can be passed by two requests at once: with both checked before
      either is written, no administrator is left if and only if the two demote or delete
      different accounts and nobody else administers. */
  lemma RaceLosesAdminExactly(s: Store, r: Request, q: Request)
    requires WellFormed(s) && HasAdmin(s.users) && Admitted(s, r) && Admitted(s, q)
    ensures r.id in s.users && q.id in s.users
    ensures !HasAdmin(AfterBoth(s, r, q))
            <==> r.id != q.id && Demotes(s, r) && Demotes(s, q)
                 && forall id :: id in s.users && id != r.id && id != q.id ==> !Administers(s.users[id])
  {
    AdmittedExists(s, r);
    AdmittedExists(s, q);
    if ThirdAdmin(s, r, q) {
      ThirdAdminStays(s, r, q);
    } else if r.id == q.id {
      RaceOnOneAccount(s, r, q);
    } else {
      RaceOnTwo(s, r, q);
    }
  }

  lemma RaceOnOneAccount(s: Store, r: Request, q: Request)
    requires HasAdmin(s.users) && Admitted(s, r) && Admitted(s, q) && r.id == q.id && r.id in s.users
    requires NoOtherAdmin(s.users, r.id)
    ensures HasAdmin(AfterBoth(s, r, q))
  {
    AdmittedExists(s, r);
    AdmittedExists(s, q);
    var k :| k in s.users && Administers(s.users[k]);
    assert k == r.id;
    var after := AfterBoth(s, r, q);
    assert Administers(after[k]);
  }

  lemma RaceOnTwo(s: Store, r: Request, q: Request)
    requires HasAdmin(s.users) && Admitted(s, r) && Admitted(s, q) && r.id != q.id
    requires r.id in s.users && q.id in s.users
    requires forall id :: id in s.users && id != r.id && id != q.id ==> !Administers(s.users[id])
    ensures !HasAdmin(AfterBoth(s, r, q)) <==> Demotes(s, r) && Demotes(s, q)
  {
    AdmittedExists(s, r);
    AdmittedExists(s, q);
    var after := AfterBoth(s, r, q);
    var k :| k in s.users && Administers(s.users[k]);
    assert k == r.id || k == q.id;
    assert forall id :: id in after && id != r.id && id != q.id ==> after[id] == s.users[id];
    if Demotes(s, r) && Demotes(s, q) {
      forall id | id in after ensures !Administers(after[id]) {}
    } else if !Demotes(s, r) && Administers(s.users[r.id]) {
      assert Administers(after[r.id]);
    } else if !Demotes(s, q) && Administers(s.users[q.id]) {
      assert Administers(after[q.id]);
    }
  }

  // ---- The handlers ----

  /** Each enabled administrator of every organization but one account, once. */
  ghost predicate ListsOtherAdmins(users: map<int, Account>, exclude: int, others: seq<int>) {
    Distinct(others) && forall id :: id in others <==> id in users && id != exclude && Administers(users[id])
  }

  lemma NoneListed(users: map<int, Account>, exclude: int, others: seq<int>)
    requires ListsOtherAdmins(users, exclude, others)
    ensures others == [] <==> NoOtherAdmin(users, exclude)
  {
    if others != [] {
      var k := others[0];
      assert k in others;
      assert k in users && k != exclude && Administers(users[k]);
    } else {
      forall id | id in users && id != exclude ensures !Administers(users[id]) { assert id !in others; }
    }
  }

  class Accounts {
    var users: map<int, Account>
    var next: int

    ghost function View(): Store reads this {
      Store(users, next)
    }

    constructor (users: map<int, Account>, next: int)
      ensures View() == Store(users, next)
    {
      this.users, this.next := users, next;
    }

    method OtherGlobalAdmins(exclude: int) returns (n: nat)
      ensures exists others :: ListsOtherAdmins(users, exclude, others) && n == |others|
    {
      n := 0;
      var ids := Enumerate(users.Keys);
      ghost var others: seq<int> := [];
      for i := 0 to |ids|
        invariant n == |others| && Distinct(others)
        invariant forall id :: id in others <==> id in ids[..i] && id != exclude && Administers(users[id])
      {
        var id := ids[i];
        assert ids[..i+1] == ids[..i] + [id] && id !in ids[..i];
        if id != exclude && !users[id].disabled && Access.IsGlobalAdmin(users[id].grants) {
          n := n + 1;
          others := others + [id];
        }
      }
      assert ids[..|ids|] == ids;
      assert ListsOtherAdmins(users, exclude, others);
    }

    method LastGlobalAdmin(id: int, user: Account, grants: seq<Grant>) returns (last: bool)
      requires id in users && users[id] == user && user.grants == grants
      ensures last == IsLastAdmin(users, id)
    {
      if user.disabled || !Access.IsGlobalAdmin(grants) { return false; }
      var n := OtherGlobalAdmins(id);
      ghost var others :| ListsOtherAdmins(users, id, others) && n == |others|;
      NoneListed(users, id, others);
      last := n == 0;
    }

    /** The first account, when there is none yet: the configured one, or admin/admin with a
        password change pending. */
    method Bootstrap(email: string, password: string, valid: bool, written: bool) returns (r: Response)
      modifies this
      ensures (View(), r) == Handle(old(View()), Boot(email, password, valid, written))
    {
      if |users| > 0 { return Unchanged; }
      var user := Account("", false, false, [Grant(Admin, "")]);
      r := FromEnv;
      if email == "" || password == "" {
        r := DefaultAdmin;
        user := user.(email := DEFAULT_LOGIN, mustChange := true);
      } else {
        if !valid { return Failed; }
        user := user.(email := email);
      }
      if !written { return Failed; }
      users := users[next := user];
      next := next + 1;
    }

    method CreateUser(email: string, asked: seq<Grant>, valid: bool, written: bool) returns (r: Response)
      modifies this
      ensures (View(), r) == Handle(old(View()), Create(email, asked, valid, written))
    {
      if !valid { return BadRequest; }
      var grants := Access.NormalizeGrants(asked);
      if exists id :: id in users && users[id].email == email { return EmailTaken; }
      if !written { return Failed; }
      users := users[next := Account(email, false, true, grants)];
      r := Created(next);
      next := next + 1;
    }

    method UpdateUser(actor: int, id: int, valid: bool, newDisabled: Option<bool>, password: bool,
                      asked: Option<seq<Grant>>, written: bool) returns (r: Response)
      modifies this
      ensures (View(), r) == Handle(old(View()), Update(actor, id, valid, newDisabled, password, asked, written))
    {
      if id !in users { return NotFound; }
      var user := users[id];
      var current := user.grants;
      if !valid { return BadRequest; }
      var grants, replacement := current, None;
      if asked.Some? {
        var parsed := Access.NormalizeGrants(asked.value);
        var same := Access.SameGrants(current, parsed);
        if !same { replacement := Some(parsed); }
        grants := parsed;
      }
      var disabled := user.disabled;
      if newDisabled.Some? { disabled := newDisabled.value; }
      if disabled || !Access.IsGlobalAdmin(grants) {
        var last := LastGlobalAdmin(id, user, current);
        if last { return LastAdmin; }
      }
      var revoke := replacement.Some? || password || (disabled && !user.disabled);
      if !written { return Failed; }
      var pending := if password then id != actor else user.mustChange;
      var kept := if replacement.Some? then replacement.value else current;
      users := users[id := Account(user.email, disabled, pending, kept)];
      r := Updated(revoke);
    }

    method DeleteUser(actor: int, id: int, written: bool) returns (r: Response)
      modifies this
      ensures (View(), r) == Handle(old(View()), Delete(actor, id, written))
    {
      if id !in users { return NotFound; }
      var last := LastGlobalAdmin(id, users[id], users[id].grants);
      if last { return LastAdmin; }
      if id == actor { return OwnAccount; }
      if !written { return Failed; }
      users := users - {id};
      r := Deleted;
    }
  }
}
