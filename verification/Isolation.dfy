/** Tenants do not influence each other: a check and a session depend only on the rows of their own tenant. */
module Isolation {
  import opened Authorization
  import opened Decision
  import opened Directory
  import opened PolicyLifecycle
  import opened Sequences
  import opened Wrappers

  /** Two databases hold the same rows for one tenant, in the same order; other tenants' rows are free to differ. */
  ghost predicate AgreeOn(s: Store, t: Store, tenantID: string) {
    && (tenantID in s.activeTenants <==> tenantID in t.activeTenants)
    && (forall u ::
          && ((u, tenantID) in s.memberships <==> (u, tenantID) in t.memberships)
          && ((u, tenantID) in s.memberships ==> s.memberships[(u, tenantID)] == t.memberships[(u, tenantID)]))
    && TenantTeamMemberships(s, tenantID) == TenantTeamMemberships(t, tenantID)
    && TenantAcls(s, tenantID) == TenantAcls(t, tenantID)
    && OfTenant(s.policies, tenantID) == OfTenant(t.policies, tenantID)
  }

  lemma TeamsAreLocal(s: Store, userID: string, tenantID: string)
    ensures TeamsOf(s, userID, tenantID) ==
            Filter(TenantTeamMemberships(s, tenantID), (tm: TeamMembership) => tm.userID == userID)
  {
    var user := (tm: TeamMembership) => tm.userID == userID;
    var tenant := (tm: TeamMembership) => InTenant(s.teams, tm, tenantID);
    var both := (tm: TeamMembership) => tm.userID == userID && InTenant(s.teams, tm, tenantID);
    FilterFilter(s.teamMemberships, user, tenant, both);
    FilterFilter(s.teamMemberships, tenant, user, both);
  }

  lemma {:induction false} LookupIsLocal(acls: seq<AclEntry>, req: Request, who: Subject)
    ensures Lookup(acls, req, who) == Lookup(Filter(acls, (e: AclEntry) => e.tenantID == req.tenantID), req, who)
  {
    if acls != [] {
      var keep := (e: AclEntry) => e.tenantID == req.tenantID;
      LookupIsLocal(acls[1..], req, who);
      if keep(acls[0]) {
        assert Filter(acls, keep)[1..] == Filter(acls[1..], keep);
      }
    }
  }

  lemma {:induction false} AclVerdictIsLocal(a: seq<AclEntry>, b: seq<AclEntry>, req: Request, subjects: seq<Subject>)
    requires Filter(a, (e: AclEntry) => e.tenantID == req.tenantID) == Filter(b, (e: AclEntry) => e.tenantID == req.tenantID)
    ensures AclVerdict(a, req, subjects) == AclVerdict(b, req, subjects)
  {
    if subjects != [] {
      LookupIsLocal(a, req, subjects[0]);
      LookupIsLocal(b, req, subjects[0]);
      AclVerdictIsLocal(a, b, req, subjects[1..]);
    }
  }

  lemma ActiveIsLocal(s: Store, tenantID: string)
    ensures ActivePolicies(s, tenantID) == Filter(OfTenant(s.policies, tenantID), (p: Policy) => p.isActive)
  {
    FilterFilter(s.policies, (p: Policy) => p.tenantID == tenantID, (p: Policy) => p.isActive,
      (p: Policy) => p.tenantID == tenantID && p.isActive);
  }

  lemma RolesAreLocal(s: Store, t: Store, userID: string, tenantID: string)
    requires AgreeOn(s, t, tenantID)
    ensures EffectiveRoles(s, userID, tenantID) == EffectiveRoles(t, userID, tenantID)
    ensures SessionRoles(s, userID, tenantID) == SessionRoles(t, userID, tenantID)
  {
    TeamsAreLocal(s, userID, tenantID);
    TeamsAreLocal(t, userID, tenantID);
  }

  /** Non-interference: with the same prepared queries, the two databases allow the same verdicts. */
  lemma NonInterference(rego: Rego, s: Store, t: Store, prepared: Prepared, req: Request, v: Verdict)
    requires AgreeOn(s, t, req.tenantID)
    ensures MayDecide(rego, s, prepared, req, v) <==> MayDecide(rego, t, prepared, req, v)
  {
    RolesAreLocal(s, t, req.userID, req.tenantID);
    TeamsAreLocal(s, req.userID, req.tenantID);
    TeamsAreLocal(t, req.userID, req.tenantID);
    ActiveIsLocal(s, req.tenantID);
    ActiveIsLocal(t, req.tenantID);
    if EffectiveRoles(s, req.userID, req.tenantID).Some? {
      var roles := EffectiveRoles(s, req.userID, req.tenantID).value;
      AclVerdictIsLocal(s.acls, t.acls, req, Consulted(s, req, roles));
    }
  }

  /** And whatever either database's checks have prepared before, for any tenant. */
  lemma NonInterferenceOfHistories(rego: Rego, s: Store, t: Store, p: Prepared, q: Prepared, req: Request, v: Verdict)
    requires AgreeOn(s, t, req.tenantID)
    requires UniqueIDs(s.policies) && PreparedAgrees(rego, s.policies, p)
    requires UniqueIDs(t.policies) && PreparedAgrees(rego, t.policies, q)
    ensures MayDecide(rego, s, p, req, v) <==> MayDecide(rego, t, q, req, v)
  {
    PreparedIrrelevant(rego, s, p, req, v);
    PreparedIrrelevant(rego, t, q, req, v);
    NonInterference(rego, s, t, map[], req, v);
  }

  /** A session carries a role exactly if the user's membership of that tenant, or of one of its teams, grants it. */
  lemma SessionRolesAreTheTenants(s: Store, userID: string, tenantID: string, role: string)
    requires SessionRoles(s, userID, tenantID).Some?
    ensures role in SessionRoles(s, userID, tenantID).value <==>
            || role in s.memberships[(userID, tenantID)]
            || exists tm :: tm in s.teamMemberships && tm.userID == userID && InTenant(s.teams, tm, tenantID) && role in tm.roles
  {
    var tms := TeamsOf(s, userID, tenantID);
    TeamRolesMember(tms, role);
    assert forall tm :: tm in tms <==> tm in s.teamMemberships && tm.userID == userID && InTenant(s.teams, tm, tenantID);
  }
}
