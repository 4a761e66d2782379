/**
 The tables an authorization check reads. Rows that are listed keep the order in
 which the database returns them; lookups by primary key are maps.
 */
module Directory {
  import opened Sequences
  import opened Wrappers

  datatype TeamMembership = TeamMembership(userID: string, teamID: string, roles: seq<string>)

  datatype AclEntry = AclEntry(
    tenantID: string, subjectType: string, subjectID: string,
    resourceType: string, resourceID: string, permission: string, effect: string)

  datatype Policy = Policy(id: string, tenantID: string, name: string, rego: string, version: int, isActive: bool)

  datatype Store = Store(
    activeTenants: set<string>,                       // tenants whose status is "active"
    memberships: map<(string, string), seq<string>>,  // (user, tenant) to roles
    teams: map<string, string>,                       // team to the tenant that owns it
    teamMemberships: seq<TeamMembership>,
    acls: seq<AclEntry>,
    policies: seq<Policy>)

  predicate InTenant(teams: map<string, string>, tm: TeamMembership, tenantID: string) {
    tm.teamID in teams && teams[tm.teamID] == tenantID
  }

  /** The rows `ListByUser` returns. */
  function MembershipsOf(s: Store, userID: string): seq<TeamMembership> {
    Filter(s.teamMemberships, (tm: TeamMembership) => tm.userID == userID)
  }

  /** Those of them that belong to a team of the tenant, in the same order. */
  function TeamsOf(s: Store, userID: string, tenantID: string): seq<TeamMembership> {
    Filter(MembershipsOf(s, userID), (tm: TeamMembership) => InTenant(s.teams, tm, tenantID))
  }

  function TeamRoles(tms: seq<TeamMembership>): seq<string> {
    if tms == [] then [] else tms[0].roles + TeamRoles(tms[1..])
  }

  lemma {:induction false} TeamRolesMember(tms: seq<TeamMembership>, role: string)
    ensures role in TeamRoles(tms) <==> exists tm :: tm in tms && role in tm.roles
  {
    if tms != [] {
      TeamRolesMember(tms[1..], role);
      assert forall tm :: tm in tms <==> tm == tms[0] || tm in tms[1..];
    }
  }

  /** Tenant roles followed by the roles of the user's teams in that tenant; `None` without a membership. */
  function EffectiveRoles(s: Store, userID: string, tenantID: string): Option<seq<string>> {
    if (userID, tenantID) in s.memberships
    then Some(s.memberships[(userID, tenantID)] + TeamRoles(TeamsOf(s, userID, tenantID)))
    else None
  }

  function TenantAcls(s: Store, tenantID: string): seq<AclEntry> {
    Filter(s.acls, (e: AclEntry) => e.tenantID == tenantID)
  }

  function OfTenant(ps: seq<Policy>, tenantID: string): seq<Policy> {
    Filter(ps, (p: Policy) => p.tenantID == tenantID)
  }

  function ActivePolicies(s: Store, tenantID: string): seq<Policy> {
    Filter(s.policies, (p: Policy) => p.tenantID == tenantID && p.isActive)
  }

  function TenantTeamMemberships(s: Store, tenantID: string): seq<TeamMembership> {
    Filter(s.teamMemberships, (tm: TeamMembership) => InTenant(s.teams, tm, tenantID))
  }
}
