/** The authorization engine as it runs: services over a shared database, with loops that return early. */
module Authorization {
  import opened AuthzCaching
  import opened Decision
  import opened Directory
  import opened Sequences
  import opened Wrappers

  /** The tables all services share. */
  class Database {
    var store: Store

    constructor (store: Store)
      ensures this.store == store
    {
      this.store := store;
    }
  }

  datatype AuthzError = MembershipNotFound | TenantNotFoundOrSuspended

  /** `RBACService.Allow`: does any of the roles grant the permission? */
  method Allow(roles: seq<string>, permission: string) returns (allowed: bool)
    ensures allowed <==> Grants(roles, permission)
  {
    for i := 0 to |roles|
      invariant forall k :: 0 <= k < i ==> permission !in PermissionsOf(roles[k])
    {
      var granted := PermissionsOf(roles[i]);
      for j := 0 to |granted|
        invariant forall k :: 0 <= k < j ==> granted[k] != permission
      {
        if granted[j] == permission {
          assert roles[i] in roles;
          return true;
        }
      }
    }
    return false;
  }

  /** The roles of a user in a tenant: the loop shared by the authorization, login and passwordless services. */
  method CollectRoles(db: Database, roles0: seq<string>, userID: string, tenantID: string) returns (roles: seq<string>)
    ensures roles == roles0 + TeamRoles(TeamsOf(db.store, userID, tenantID))
  {
    var store := db.store;
    var tms := MembershipsOf(store, userID);
    ghost var all := roles0 + TeamRoles(TeamsOf(store, userID, tenantID));
    roles := roles0;
    assert tms[0..] == tms;
    for i := 0 to |tms|
      invariant roles + RolesAhead(store, tms[i..], tenantID) == all
    {
      RolesAheadStep(store, tms, i, tenantID, roles);
      hide RolesAhead;
      if InTenant(store.teams, tms[i], tenantID) {
        roles := roles + tms[i].roles;
      }
    }
    assert RolesAhead(store, tms[|tms|..], tenantID) == [];
  }

  /** The roles the rest of the walk will still add. */
  ghost function RolesAhead(store: Store, tms: seq<TeamMembership>, tenantID: string): seq<string> {
    TeamRoles(Filter(tms, (tm: TeamMembership) => InTenant(store.teams, tm, tenantID)))
  }

  lemma RolesAheadStep(store: Store, tms: seq<TeamMembership>, i: nat, tenantID: string, roles: seq<string>)
    requires i < |tms|
    ensures roles + RolesAhead(store, tms[i..], tenantID) ==
            (if InTenant(store.teams, tms[i], tenantID) then roles + tms[i].roles else roles)
              + RolesAhead(store, tms[i + 1..], tenantID)
  {
    var keep := (tm: TeamMembership) => InTenant(store.teams, tm, tenantID);
    var ahead := Filter(tms[i + 1..], keep);
    assert tms[i..][1..] == tms[i + 1..];
    assert ([tms[i]] + ahead)[1..] == ahead;
  }

  class ABACService {
    const rego: Rego
    var preparedQueries: Prepared

    constructor (rego: Rego)
      ensures this.rego == rego && preparedQueries == map[]
    {
      this.rego := rego;
      preparedQueries := map[];
    }

    method PrepareQuery(policyID: string, source: string) returns (ok: bool)
      modifies this
      ensures ok == rego.compiles(source)
      ensures preparedQueries == if ok then old(preparedQueries)[policyID := source] else old(preparedQueries)
    {
      if !rego.compiles(source) {
        return false;
      }
      preparedQueries := preparedQueries[policyID := source];
      return true;
    }

    /** The first loop over the active policies: compile what is missing, ignoring compile errors. */
    method PrepareMissing(active: seq<Policy>)
      modifies this
      ensures preparedQueries == Prepare(rego, old(preparedQueries), active)
    {
      for i := 0 to |active|
        invariant preparedQueries == Prepare(rego, old(preparedQueries), active[..i])
      {
        assert active[..i + 1] == active[..i] + [active[i]];
        PrepareSnoc(rego, old(preparedQueries), active[..i], active[i]);
        if active[i].id !in preparedQueries {
          var _ := PrepareQuery(active[i].id, active[i].rego);
        }
      }
      assert active[..|active|] == active;
    }

    method EvaluateEach(active: seq<Policy>, input: PolicyInput) returns (r: Option<map<string, bool>>)
      ensures r == EvaluateAll(rego, preparedQueries, PolicyIDs(active), input)
    {
      var results: map<string, bool> := map[];
      for i := 0 to |active|
        invariant results.Keys == PolicyIDs(active[..i])
        invariant forall id :: id in results ==> Evaluate(rego, preparedQueries, id, input) == Some(results[id])
      {
        assert active[i].id in PolicyIDs(active);
        assert active[..i + 1] == active[..i] + [active[i]];
        match Evaluate(rego, preparedQueries, active[i].id, input) {
          case None => return None;
          case Some(allowed) => results := results[active[i].id := allowed];
        }
      }
      assert active[..|active|] == active;
      assert results == map id | id in PolicyIDs(active) :: Evaluate(rego, preparedQueries, id, input).value;
      return Some(results);
    }
  }

  /** The state a check can see or change, as one value. */
  datatype System = System(store: Store, prepared: Prepared, entries: Entries)

  /** One call of `Check` at instant `now`: a live entry is returned as it is and nothing changes; otherwise
      the layers decide and the verdict is remembered until `now + ttl`. */
  ghost predicate Checked(rego: Rego, ttl: int, before: System, req: Request, now: int,
                          r: Result<Verdict, AuthzError>, after: System)
  {
    var key := CacheKey(FieldsOf(req));
    match Live(before.entries, key, now)
    case Some(v) => r == Success(v) && after == before
    case None =>
      && Decided(rego, before, req, r, after)
      && after.entries == if r.Success? then before.entries[key := Entry(r.value, now + ttl)] else before.entries
  }

  /** The same without a cache. */
  ghost predicate Decided(rego: Rego, before: System, req: Request, r: Result<Verdict, AuthzError>, after: System) {
    && (r == Failure(MembershipNotFound) <==> EffectiveRoles(before.store, req.userID, req.tenantID).None?)
    && (r.Failure? ==> r.error == MembershipNotFound)
    && (r.Success? ==> MayDecide(rego, before.store, before.prepared, req, r.value))
    && after.store == before.store
    && after.prepared == PreparedAfter(rego, before.store, before.prepared, req)
  }

  class AuthorizationService {
    const db: Database
    const abac: ABACService
    const cache: AuthzCache?

    constructor (db: Database, abac: ABACService, cache: AuthzCache?)
      ensures this.db == db && this.abac == abac && this.cache == cache
    {
      this.db, this.abac, this.cache := db, abac, cache;
    }

    ghost function Now(): System
      reads this, db, abac, cache
    {
      System(db.store, abac.preparedQueries, if cache == null then map[] else cache.entries)
    }

    method GetEffectiveRoles(userID: string, tenantID: string) returns (r: Option<seq<string>>)
      ensures r == EffectiveRoles(db.store, userID, tenantID)
    {
      if (userID, tenantID) !in db.store.memberships {
        return None;
      }
      var roles := CollectRoles(db, db.store.memberships[(userID, tenantID)], userID, tenantID);
      return Some(roles);
    }

    method CheckTeamAcls(req: Request) returns (r: Option<Verdict>)
      ensures r == AclVerdict(db.store.acls, req, TeamSubjects(TeamsOf(db.store, req.userID, req.tenantID)))
    {
      var store := db.store;
      var tms := MembershipsOf(store, req.userID);
      ghost var keep := (tm: TeamMembership) => InTenant(store.teams, tm, req.tenantID);
      for i := 0 to |tms|
        invariant AclVerdict(store.acls, req, TeamSubjects(Filter(tms[..i], keep))) == None
      {
        assert tms == tms[..i] + [tms[i]] + tms[i + 1..] && tms[..i + 1] == tms[..i] + [tms[i]];
        FilterSnoc(tms[..i], tms[i], keep);
        FilterConcat(tms[..i + 1], tms[i + 1..], keep);
        if !InTenant(store.teams, tms[i], req.tenantID) {
          continue;
        }
        TeamVerdictAt(store.acls, req, Filter(tms[..i], keep), tms[i], Filter(tms[i + 1..], keep));
        match Lookup(store.acls, req, Subject("team", tms[i].teamID)) {
          case Some(e) => return Some(AclResult("team", e.effect));
          case None =>
        }
      }
      assert tms[..|tms|] == tms;
      return None;
    }

    method CheckRoleAcls(req: Request, roles: seq<string>) returns (r: Option<Verdict>)
      ensures r == AclVerdict(db.store.acls, req, RoleSubjects(roles))
    {
      for i := 0 to |roles|
        invariant AclVerdict(db.store.acls, req, RoleSubjects(roles)) == AclVerdict(db.store.acls, req, RoleSubjects(roles[i..]))
      {
        match Lookup(db.store.acls, req, Subject("role", roles[i])) {
          case Some(e) => return Some(AclResult("role", e.effect));
          case None => assert roles[i..][1..] == roles[i + 1..];
        }
      }
      return None;
    }

    /** The policies' verdict, taken from whichever entry the result map yields first. */
    method CheckPolicies(req: Request, roles: seq<string>) returns (v: Verdict)
      modifies abac
      ensures abac.preparedQueries == Prepare(abac.rego, old(abac.preparedQueries), ActivePolicies(db.store, req.tenantID))
      ensures AbacMay(abac.rego, old(abac.preparedQueries), ActivePolicies(db.store, req.tenantID), InputOf(req, roles), v)
    {
      var active := ActivePolicies(db.store, req.tenantID);
      if |active| > 0 {
        abac.PrepareMissing(active);
        var results := abac.EvaluateEach(active, InputOf(req, roles));
        if results.Some? {
          assert active[0].id in results.value;
          var policyID :| policyID in results.value;
          return PolicyResult(policyID, results.value[policyID]);
        }
      }
      return NO_MATCH;
    }

    method Decide(req: Request) returns (r: Result<Verdict, AuthzError>)
      modifies abac
      ensures Decided(abac.rego, old(Now()), req, r, Now())
    {
      var roles := GetEffectiveRoles(req.userID, req.tenantID);
      if roles.None? {
        return Failure(MembershipNotFound);
      }
      ConsultedSplit(db.store, req, roles.value);
      var permitted := Allow(roles.value, ActionToPermission(req.resourceType, req.action));
      if permitted {
        return Success(Verdict(true, "granted by role", "rbac"));
      }
      var entry := Lookup(db.store.acls, req, Subject("user", req.userID));
      if entry.Some? {
        return Success(AclResult("user", entry.value.effect));
      }
      var byTeam := CheckTeamAcls(req);
      if byTeam.Some? {
        return Success(byTeam.value);
      }
      var byRole := CheckRoleAcls(req, roles.value);
      if byRole.Some? {
        return Success(byRole.value);
      }
      var v := CheckPolicies(req, roles.value);
      return Success(v);
    }

    method Check(req: Request, now: int) returns (r: Result<Verdict, AuthzError>)
      modifies abac, if cache == null then {} else {cache}
      ensures cache == null ==> Decided(abac.rego, old(Now()), req, r, Now())
      ensures cache != null ==> Checked(abac.rego, cache.ttl, old(Now()), req, now, r, Now())
    {
      if cache != null {
        var cached := cache.Get(FieldsOf(req), now);
        if cached.Some? {
          return Success(cached.value);
        }
      }
      r := Decide(req);
      if cache != null && r.Success? {
        cache.Set(FieldsOf(req), r.value, now);
      }
    }
  }

  lemma {:induction false} TeamSubjectsConcat(xs: seq<TeamMembership>, ys: seq<TeamMembership>)
    ensures TeamSubjects(xs + ys) == TeamSubjects(xs) + TeamSubjects(ys)
  {
    if xs == [] {
      assert xs + ys == ys;
    } else {
      assert (xs + ys)[1..] == xs[1..] + ys;
      TeamSubjectsConcat(xs[1..], ys);
    }
  }

  lemma TeamVerdictAt(acls: seq<AclEntry>, req: Request, xs: seq<TeamMembership>, tm: TeamMembership, ys: seq<TeamMembership>)
    requires AclVerdict(acls, req, TeamSubjects(xs)) == None
    ensures var entry := Lookup(acls, req, Subject("team", tm.teamID));
            match entry
            case Some(e) => AclVerdict(acls, req, TeamSubjects(xs + [tm] + ys)) == Some(AclResult("team", e.effect))
            case None => AclVerdict(acls, req, TeamSubjects(xs + [tm])) == None
  {
    assert [tm][1..] == [];
    var here := Subject("team", tm.teamID);
    assert TeamSubjects([tm]) == [here];
    TeamSubjectsConcat(xs, [tm]);
    TeamSubjectsConcat(xs + [tm], ys);
    AclVerdictConcat(acls, req, TeamSubjects(xs), [here]);
    AclVerdictConcat(acls, req, TeamSubjects(xs + [tm]), TeamSubjects(ys));
    assert [here][1..] == [];
  }

  lemma ConsultedSplit(s: Store, req: Request, roles: seq<string>)
    ensures AclVerdict(s.acls, req, Consulted(s, req, roles)) ==
            match Lookup(s.acls, req, Subject("user", req.userID))
            case Some(e) => Some(AclResult("user", e.effect))
            case None =>
              match AclVerdict(s.acls, req, TeamSubjects(TeamsOf(s, req.userID, req.tenantID)))
              case Some(v) => Some(v)
              case None => AclVerdict(s.acls, req, RoleSubjects(roles))
  {
    var user := [Subject("user", req.userID)];
    var teams := TeamSubjects(TeamsOf(s, req.userID, req.tenantID));
    assert user[1..] == [];
    AclVerdictConcat(s.acls, req, user, teams);
    AclVerdictConcat(s.acls, req, user + teams, RoleSubjects(roles));
  }

  class AuthService {
    const db: Database

    constructor (db: Database)
      ensures this.db == db
    {
      this.db := db;
    }

    /** The roles a login or a tenant switch puts in the token. */
    method RolesForTenant(userID: string, tenantID: string) returns (r: Result<seq<string>, AuthzError>)
      ensures r == match SessionRoles(db.store, userID, tenantID)
                   case Some(roles) => Success(roles)
                   case None => Failure(if tenantID in db.store.activeTenants then MembershipNotFound else TenantNotFoundOrSuspended)
    {
      if tenantID !in db.store.activeTenants {
        return Failure(TenantNotFoundOrSuspended);
      }
      if (userID, tenantID) !in db.store.memberships {
        return Failure(MembershipNotFound);
      }
      var roles := CollectRoles(db, db.store.memberships[(userID, tenantID)], userID, tenantID);
      return Success(roles);
    }
  }

  function SessionRoles(s: Store, userID: string, tenantID: string): Option<seq<string>> {
    if tenantID in s.activeTenants then EffectiveRoles(s, userID, tenantID) else None
  }
}
