/** Roles, grants and what a principal may do (internal/auth/roles.go). */
module Roles {
  datatype Role = Admin | Economist | Engineer | ControlEngineer | Ceo | Investor

  /** A role on one organization, or on every organization when `org` is empty. */
  datatype Grant = Grant(role: Role, org: string) {
    predicate AllOrganizations() { org == "" }
    predicate Covers(o: string) { AllOrganizations() || org == o }
  }
}
