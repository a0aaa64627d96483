/** What grants allow, and their normal form (internal/auth/roles.go). A principal is its
    list of grants; the absent principal is one with none. */
module Grants {
  import opened Roles
  import opened Ordering

  /** Permissions in the order of their names. */
  datatype Permission = AnalyticsDay | AnalyticsFull | Control | ControlWrite
                      | EconomicsRead | EconomicsWrite | Service | TechnicalWrite

  function RolePermissions(role: Role): seq<Permission> {
    match role
    case Engineer => [AnalyticsDay, AnalyticsFull]
    case ControlEngineer => [AnalyticsDay, AnalyticsFull, Control, ControlWrite, TechnicalWrite]
    case Economist => [EconomicsRead]
    case Ceo => [AnalyticsDay, AnalyticsFull, EconomicsRead, Control]
    case Investor => [AnalyticsDay, AnalyticsFull, EconomicsRead, Control]
    case Admin =>
      [AnalyticsDay, AnalyticsFull, EconomicsRead, EconomicsWrite, Control, ControlWrite, TechnicalWrite, Service]
  }

  predicate Has(role: Role, p: Permission) {
    p in RolePermissions(role)
  }

  predicate Can(grants: seq<Grant>, p: Permission, org: string) {
    org != "" && exists g :: g in grants && g.Covers(org) && Has(g.role, p)
  }

  predicate CanAll(grants: seq<Grant>, p: Permission) {
    exists g :: g in grants && g.AllOrganizations() && Has(g.role, p)
  }

  predicate CanSome(grants: seq<Grant>, p: Permission) {
    exists g :: g in grants && Has(g.role, p)
  }

  predicate IsGlobalAdmin(grants: seq<Grant>) {
    exists g :: g in grants && g.AllOrganizations() && g.role == Admin
  }

  predicate Covers(grants: seq<Grant>, org: string) {
    org != "" && exists g :: g in grants && g.Covers(org)
  }

  /** Whoever may change something may also see it, wherever; administrators hold every
      permission; and the two viewing roles hold none that changes anything. */
  lemma PermissionsNest(grants: seq<Grant>, org: string)
    ensures Can(grants, EconomicsWrite, org) ==> Can(grants, EconomicsRead, org)
    ensures Can(grants, ControlWrite, org) ==> Can(grants, Control, org)
    ensures Can(grants, TechnicalWrite, org) ==> Can(grants, Control, org)
    ensures Can(grants, AnalyticsFull, org) <==> Can(grants, AnalyticsDay, org)
    ensures forall p :: Can(grants, p, org) && (forall g :: g in grants ==> g.role == Ceo || g.role == Investor) ==>
              p == AnalyticsDay || p == AnalyticsFull || p == EconomicsRead || p == Control
    ensures org != "" && (exists g :: g in grants && g.role == Admin && g.Covers(org)) ==>
              forall p :: Can(grants, p, org)
  {
    forall r: Role, p ensures RoleFacts(r, p) { RoleTable(r, p); }
    if org != "" {
      forall g, p | g in grants && g.role == Admin && g.Covers(org) ensures Can(grants, p, org) {
        assert RoleFacts(Admin, p);
      }
    }
    forall r: Role ensures (Has(r, EconomicsWrite) ==> Has(r, EconomicsRead))
                           && (Has(r, ControlWrite) || Has(r, TechnicalWrite) ==> Has(r, Control))
                           && (Has(r, AnalyticsFull) <==> Has(r, AnalyticsDay))
    {
      assert RoleFacts(r, Control);
    }
    forall p | Can(grants, p, org) && (forall g :: g in grants ==> g.role == Ceo || g.role == Investor)
      ensures p == AnalyticsDay || p == AnalyticsFull || p == EconomicsRead || p == Control
    {
      var g :| g in grants && g.Covers(org) && Has(g.role, p);
      assert RoleFacts(g.role, p);
    }
  }

  ghost predicate RoleFacts(r: Role, p: Permission) {
    && Has(Admin, p)
    && (Has(r, EconomicsWrite) ==> Has(r, EconomicsRead))
    && (Has(r, ControlWrite) || Has(r, TechnicalWrite) ==> Has(r, Control))
    && (Has(r, AnalyticsFull) <==> Has(r, AnalyticsDay))
    && ((r == Ceo || r == Investor) && Has(r, p) ==>
          p == AnalyticsDay || p == AnalyticsFull || p == EconomicsRead || p == Control)
  }

  lemma RoleTable(r: Role, p: Permission)
    ensures RoleFacts(r, p)
  {
    match p
    case AnalyticsDay => case AnalyticsFull => case Control => case ControlWrite =>
    case EconomicsRead => case EconomicsWrite => case Service => case TechnicalWrite =>
  }

  // ---- The permissions on one organization ----

  function PermissionRank(p: Permission): nat {
    match p
    case AnalyticsDay => 0 case AnalyticsFull => 1 case Control => 2 case ControlWrite => 3
    case EconomicsRead => 4 case EconomicsWrite => 5 case Service => 6 case TechnicalWrite => 7
  }

  predicate PermissionLe(a: Permission, b: Permission) {
    PermissionRank(a) <= PermissionRank(b)
  }

  lemma PermissionOrder()
    ensures TotalOrder(PermissionLe)
  {
  }

  /** In name order, without repeats, exactly what `Can` allows on the organization. */
  ghost predicate Lists(out: seq<Permission>, grants: seq<Grant>, org: string) {
    && SortedBy(PermissionLe, out) && Distinct(out)
    && forall p :: p in out <==> Can(grants, p, org)
  }

  method PermissionsOn(grants: seq<Grant>, org: string) returns (out: seq<Permission>)
    ensures Lists(out, grants, org)
  {
    if org == "" { return []; }
    var seen: set<Permission> := {};
    for i := 0 to |grants|
      invariant forall p :: p in seen <==> exists g :: g in grants[..i] && g.Covers(org) && Has(g.role, p)
    {
      var g := grants[i];
      assert grants[..i+1] == grants[..i] + [g];
      if g.Covers(org) { seen := seen + (set p | p in RolePermissions(g.role)); }
    }
    assert grants[..|grants|] == grants;
    var list := Enumerate(seen);
    PermissionOrder();
    SortCorrect(PermissionLe, list);
    MultisetDistinct(list, Sort(PermissionLe, list));
    out := Sort(PermissionLe, list);
  }

  // ---- The normal form ----

  function Rank(role: Role): nat {
    match role
    case Admin => 0 case Economist => 1 case Engineer => 2 case ControlEngineer => 3 case Ceo => 4 case Investor => 5
  }

  predicate GrantLe(a: Grant, b: Grant) {
    if a.role != b.role then Rank(a.role) < Rank(b.role) else LexLe(a.org, b.org)
  }

  lemma GrantOrder()
    ensures TotalOrder(GrantLe)
  {
    forall a, b ensures GrantLe(a, b) || GrantLe(b, a) { LexTotal(a.org, b.org); }
    forall a, b | GrantLe(a, b) && GrantLe(b, a) ensures a == b { LexAntisymmetric(a.org, b.org); }
    forall a, b, c | GrantLe(a, b) && GrantLe(b, c) ensures GrantLe(a, c) {
      if a.role == b.role == c.role { LexTransitive(a.org, b.org, c.org); }
    }
  }

  predicate Everywhere(grants: seq<Grant>, role: Role) {
    Grant(role, "") in grants
  }

  /** A grant that no grant of its role on every organization absorbs. */
  predicate Kept(grants: seq<Grant>, g: Grant) {
    g in grants && (g.AllOrganizations() || !Everywhere(grants, g.role))
  }

  ghost predicate IsNormalForm(out: seq<Grant>, grants: seq<Grant>) {
    && SortedBy(GrantLe, out) && Distinct(out)
    && forall g :: g in out <==> Kept(grants, g)
  }

  /** The kept grants of a prefix, each once, in order of first appearance. */
  function Distinctly(grants: seq<Grant>, n: nat): seq<Grant>
    requires n <= |grants|
  {
    if n == 0 then []
    else
      var before, g := Distinctly(grants, n - 1), grants[n-1];
      if g in before || !Kept(grants, g) then before else before + [g]
  }

  function Normalized(grants: seq<Grant>): seq<Grant> {
    Sort(GrantLe, Distinctly(grants, |grants|))
  }

  lemma {:induction false} DistinctlyIs(grants: seq<Grant>, n: nat)
    requires n <= |grants|
    ensures Distinct(Distinctly(grants, n))
    ensures forall g :: g in Distinctly(grants, n) <==> g in grants[..n] && Kept(grants, g)
  {
    if n > 0 {
      DistinctlyIs(grants, n - 1);
      assert grants[..n] == grants[..n-1] + [grants[n-1]];
    }
  }

  lemma NormalizedIsNormalForm(grants: seq<Grant>)
    ensures IsNormalForm(Normalized(grants), grants)
  {
    var kept := Distinctly(grants, |grants|);
    DistinctlyIs(grants, |grants|);
    assert grants[..|grants|] == grants;
    GrantOrder();
    SortCorrect(GrantLe, kept);
    MultisetDistinct(kept, Normalized(grants));
  }

  method NormalizeGrants(grants: seq<Grant>) returns (out: seq<Grant>)
    ensures out == Normalized(grants) && IsNormalForm(out, grants)
  {
    var everywhere: set<Role> := {};
    for i := 0 to |grants|
      invariant forall r :: r in everywhere <==> Grant(r, "") in grants[..i]
    {
      assert grants[..i+1] == grants[..i] + [grants[i]];
      if grants[i].AllOrganizations() { everywhere := everywhere + {grants[i].role}; }
    }
    assert grants[..|grants|] == grants;
    out := [];
    var seen: set<Grant> := {};
    for i := 0 to |grants|
      invariant out == Distinctly(grants, i)
      invariant forall g :: g in seen <==> g in out
    {
      var g := grants[i];
      if g in seen || (g.role in everywhere && !g.AllOrganizations()) { continue; }
      seen := seen + {g};
      out := out + [g];
    }
    out := Sort(GrantLe, out);
    NormalizedIsNormalForm(grants);
  }

  /** Whether `a` and `b` hold the same grants, in any order and any number. */
  predicate Same(a: seq<Grant>, b: seq<Grant>) {
    (forall g :: g in a ==> g in b) && (forall g :: g in b ==> g in a)
  }

  method SameGrants(a: seq<Grant>, b: seq<Grant>) returns (same: bool)
    ensures same == Same(a, b)
  {
    var all := set g | g in a;
    var seen: set<Grant> := {};
    for i := 0 to |b|
      invariant forall g :: g in seen <==> g in b[..i]
      invariant seen <= all
    {
      assert b[..i+1] == b[..i] + [b[i]];
      if b[i] !in all { return false; }
      seen := seen + {b[i]};
    }
    assert b[..|b|] == b;
    same := |seen| == |all|;
    SubsetSize(seen, all);
  }

  lemma SubsetSize<T>(a: set<T>, b: set<T>)
    requires a <= b
    ensures |a| == |b| <==> a == b
  {
    assert b == a + (b - a);
    if a != b {
      var x :| x in b - a;
      assert |b - a| > 0;
    }
  }

  // ---- What the normal form keeps ----

  /** A role on one organization, by some grant. */
  predicate Holds(grants: seq<Grant>, role: Role, org: string) {
    Grant(role, "") in grants || Grant(role, org) in grants
  }

  lemma NormalFormHolds(grants: seq<Grant>, out: seq<Grant>, role: Role, org: string)
    requires IsNormalForm(out, grants)
    ensures Holds(out, role, org) == Holds(grants, role, org)
  {
    assert Kept(grants, Grant(role, "")) <==> Grant(role, "") in grants;
  }

  lemma CanIsHolding(grants: seq<Grant>, p: Permission, org: string)
    ensures Can(grants, p, org) <==> org != "" && exists r :: Holds(grants, r, org) && Has(r, p)
  {
    if Can(grants, p, org) {
      var g :| g in grants && g.Covers(org) && Has(g.role, p);
      assert Grant(g.role, g.org) == g;
      assert Holds(grants, g.role, org);
    }
    if org != "" {
      forall r | Holds(grants, r, org) && Has(r, p) ensures Can(grants, p, org) {
        var g := if Grant(r, "") in grants then Grant(r, "") else Grant(r, org);
        assert g in grants && g.Covers(org);
      }
    }
  }

  lemma CoversIsHolding(grants: seq<Grant>, org: string)
    ensures Covers(grants, org) <==> org != "" && exists r :: Holds(grants, r, org)
  {
    if Covers(grants, org) {
      var g :| g in grants && g.Covers(org);
      assert Grant(g.role, g.org) == g;
      assert Holds(grants, g.role, org);
    }
    if org != "" {
      forall r | Holds(grants, r, org) ensures Covers(grants, org) {
        var g := if Grant(r, "") in grants then Grant(r, "") else Grant(r, org);
        assert g in grants && g.Covers(org);
      }
    }
  }

  /** Normalizing changes nobody's access: every check answers as before. */
  lemma AccessPreserved(grants: seq<Grant>, p: Permission, org: string)
    ensures var out := Normalized(grants);
            && Can(out, p, org) == Can(grants, p, org)
            && CanAll(out, p) == CanAll(grants, p)
            && CanSome(out, p) == CanSome(grants, p)
            && Covers(out, org) == Covers(grants, org)
            && IsGlobalAdmin(out) == IsGlobalAdmin(grants)
  {
    var out := Normalized(grants);
    NormalizedIsNormalForm(grants);
    forall r ensures Holds(out, r, org) == Holds(grants, r, org) { NormalFormHolds(grants, out, r, org); }
    CanIsHolding(grants, p, org);
    CanIsHolding(out, p, org);
    CoversIsHolding(grants, org);
    CoversIsHolding(out, org);
    AccessEverywherePreserved(grants, p);
  }

  lemma AccessEverywherePreserved(grants: seq<Grant>, p: Permission)
    ensures var out := Normalized(grants);
            && CanAll(out, p) == CanAll(grants, p)
            && CanSome(out, p) == CanSome(grants, p)
            && IsGlobalAdmin(out) == IsGlobalAdmin(grants)
  {
    var out := Normalized(grants);
    NormalizedIsNormalForm(grants);
    assert forall g :: g in out ==> g in grants;
    assert forall g :: g in grants && g.AllOrganizations() ==> g in out by {
      forall g | g in grants && g.AllOrganizations() ensures g in out { assert Kept(grants, g); }
    }
    if CanSome(grants, p) {
      var g :| g in grants && Has(g.role, p);
      if !Kept(grants, g) {
        assert Kept(grants, Grant(g.role, ""));
        assert Grant(g.role, "") in out && Has(Grant(g.role, "").role, p);
      } else {
        assert g in out;
      }
    }
  }

  /** The permissions listed for an organization are the same list before and after. */
  lemma PermissionsPreserved(grants: seq<Grant>, org: string, a: seq<Permission>, b: seq<Permission>)
    requires Lists(a, grants, org) && Lists(b, Normalized(grants), org)
    ensures a == b
  {
    forall p ensures p in a <==> p in b { AccessPreserved(grants, p, org); }
    PermissionOrder();
    SortedUnique(PermissionLe, a, b);
  }

  lemma NormalFormUnique(a: seq<Grant>, b: seq<Grant>, grants: seq<Grant>, others: seq<Grant>)
    requires IsNormalForm(a, grants) && IsNormalForm(b, others)
    requires forall g :: Kept(grants, g) <==> Kept(others, g)
    ensures a == b
  {
    forall g ensures g in a <==> g in b { assert Kept(grants, g) <==> Kept(others, g); }
    GrantOrder();
    SortedUnique(GrantLe, a, b);
  }

  /** Normalizing twice is normalizing once. */
  lemma NormalizingIsIdempotent(grants: seq<Grant>)
    ensures Normalized(Normalized(grants)) == Normalized(grants)
  {
    var out := Normalized(grants);
    NormalizedIsNormalForm(grants);
    NormalizedIsNormalForm(out);
    forall g ensures Kept(out, g) <==> Kept(grants, g) {
      assert Kept(grants, g) <==> g in out;
      assert Kept(grants, Grant(g.role, "")) <==> Grant(g.role, "") in out;
    }
    NormalFormUnique(Normalized(out), out, out, grants);
  }

  /** Lists that hold the same grants have one normal form. */
  lemma SameGrantsSameForm(a: seq<Grant>, b: seq<Grant>)
    requires Same(a, b)
    ensures Normalized(a) == Normalized(b)
  {
    NormalizedIsNormalForm(a);
    NormalizedIsNormalForm(b);
    NormalFormUnique(Normalized(a), Normalized(b), a, b);
  }

  // ---- The normal form is complete ----

  function Longest(grants: seq<Grant>): nat {
    if grants == [] then 0
    else
      var n, rest := |grants[0].org|, Longest(grants[1..]);
      if n > rest then n else rest
  }

  lemma {:induction false} NoLongerOrg(grants: seq<Grant>)
    ensures forall g :: g in grants ==> |g.org| <= Longest(grants)
  {
    if grants != [] { NoLongerOrg(grants[1..]); }
  }

  /** An organization no grant names. */
  function Unnamed(a: seq<Grant>, b: seq<Grant>): (org: string)
    ensures org != ""
  {
    seq(Longest(a) + Longest(b) + 1, _ => 'x')
  }

  lemma UnnamedIsNew(a: seq<Grant>, b: seq<Grant>)
    ensures forall g :: g in a || g in b ==> g.org != Unnamed(a, b)
  {
    NoLongerOrg(a);
    NoLongerOrg(b);
  }

  /** The normal form says exactly who may do what: two lists have the same one if and only
      if they give the same roles on every organization, including those yet to come. */
  lemma NormalFormIsComplete(a: seq<Grant>, b: seq<Grant>)
    ensures Normalized(a) == Normalized(b) <==>
            forall role, org :: org != "" ==> Holds(a, role, org) == Holds(b, role, org)
  {
    NormalizedIsNormalForm(a);
    NormalizedIsNormalForm(b);
    if Normalized(a) == Normalized(b) {
      forall role, org ensures Holds(a, role, org) == Holds(b, role, org) {
        NormalFormHolds(a, Normalized(a), role, org);
        NormalFormHolds(b, Normalized(b), role, org);
      }
    }
    if forall role, org :: org != "" ==> Holds(a, role, org) == Holds(b, role, org) {
      UnnamedIsNew(a, b);
      var other := Unnamed(a, b);
      forall role ensures Everywhere(a, role) == Everywhere(b, role) {
        assert Holds(a, role, other) == Holds(b, role, other);
        assert Grant(role, other) !in a && Grant(role, other) !in b;
      }
      forall g ensures Kept(a, g) <==> Kept(b, g) {
        assert g == Grant(g.role, g.org);
        assert Everywhere(a, g.role) == Everywhere(b, g.role);
        if g.AllOrganizations() {
          assert g == Grant(g.role, "");
        } else {
          assert Holds(a, g.role, g.org) == Holds(b, g.role, g.org);
        }
      }
      NormalFormUnique(Normalized(a), Normalized(b), a, b);
    }
  }

  // ---- What the checks without an organization mean ----

  /** On an organization no grant names, a role is held by grants on all of them. */
  lemma UnnamedIsEverywhere(grants: seq<Grant>, role: Role)
    ensures Holds(grants, role, Unnamed(grants, [])) <==> Grant(role, "") in grants
  {
    UnnamedIsNew(grants, []);
    assert Grant(role, Unnamed(grants, [])) !in grants;
  }

  /** An administrator of every organization is one who is an administrator wherever one
      looks, organizations no grant names and those yet to come included. */
  lemma GlobalAdminIsAdminEverywhere(grants: seq<Grant>)
    ensures IsGlobalAdmin(grants) <==> forall org :: org != "" ==> Holds(grants, Admin, org)
  {
    if IsGlobalAdmin(grants) {
      var g :| g in grants && g.AllOrganizations() && g.role == Admin;
      assert g == Grant(Admin, "");
    }
    if forall org :: org != "" ==> Holds(grants, Admin, org) {
      assert Holds(grants, Admin, Unnamed(grants, []));
      UnnamedIsEverywhere(grants, Admin);
      assert Grant(Admin, "").AllOrganizations();
    }
  }

  /** A permission on every organization is the permission on each of them. */
  lemma CanAllIsCanEverywhere(grants: seq<Grant>, p: Permission)
    ensures CanAll(grants, p) <==> forall org :: org != "" ==> Can(grants, p, org)
  {
    if CanAll(grants, p) {
      var g :| g in grants && g.AllOrganizations() && Has(g.role, p);
      forall org | org != "" ensures Can(grants, p, org) { assert g.Covers(org); }
    }
    if forall org :: org != "" ==> Can(grants, p, org) {
      var other := Unnamed(grants, []);
      assert Can(grants, p, other);
      var g :| g in grants && g.Covers(other) && Has(g.role, p);
      UnnamedIsNew(grants, []);
      assert g.AllOrganizations();
    }
  }

  /** A permission somewhere is the permission on some organization. */
  lemma CanSomeIsCanSomewhere(grants: seq<Grant>, p: Permission)
    ensures CanSome(grants, p) <==> exists org :: Can(grants, p, org)
  {
    if CanSome(grants, p) {
      var g :| g in grants && Has(g.role, p);
      var org := if g.org == "" then "x" else g.org;
      assert g.Covers(org);
      assert Can(grants, p, org);
    }
  }

  /** The roles that carry a permission: the role table read the other way. */
  function RolesWith(p: Permission): set<Role> {
    match p
    case AnalyticsDay => {Admin, Engineer, ControlEngineer, Ceo, Investor}
    case AnalyticsFull => {Admin, Engineer, ControlEngineer, Ceo, Investor}
    case EconomicsRead => {Admin, Economist, Ceo, Investor}
    case Control => {Admin, ControlEngineer, Ceo, Investor}
    case ControlWrite => {Admin, ControlEngineer}
    case TechnicalWrite => {Admin, ControlEngineer}
    case EconomicsWrite => {Admin}
    case Service => {Admin}
  }

  lemma RoleHas(r: Role, p: Permission)
    ensures Has(r, p) <==> r in RolesWith(p)
  {
    match p
    case AnalyticsDay => case AnalyticsFull => case Control => case ControlWrite =>
    case EconomicsRead => case EconomicsWrite => case Service => case TechnicalWrite =>
  }

  /** Who may do what where: a permission on an organization is held by exactly those with a
      role that carries it, on that organization or on all of them. */
  lemma CanIsRole(grants: seq<Grant>, p: Permission, org: string)
    ensures Can(grants, p, org) <==> org != "" && exists r :: r in RolesWith(p) && Holds(grants, r, org)
  {
    CanIsHolding(grants, p, org);
    forall r: Role ensures Has(r, p) <==> r in RolesWith(p) { RoleHas(r, p); }
  }
}
