/**
 The authorization check a second time, written down from the columns of the tables alone, and the proof that the
 layered model gives the same verdicts.
 */
module AuthzReference {
  import opened Authorization
  import opened Decision
  import opened Directory
  import opened PolicyLifecycle
  import opened Sequences
  import opened Wrappers

  // ---------- The reference ----------

  /** The membership is one of the user's, in a team of the tenant. */
  predicate InTeamOf(s: Store, tm: TeamMembership, userID: string, tenantID: string) {
    tm.userID == userID && tm.teamID in s.teams && s.teams[tm.teamID] == tenantID
  }

  /** The roles of those of the memberships that count, in their order. */
  function RolesOfTeams(s: Store, tms: seq<TeamMembership>, userID: string, tenantID: string): seq<string> {
    if tms == [] then []
    else (if InTeamOf(s, tms[0], userID, tenantID) then tms[0].roles else []) + RolesOfTeams(s, tms[1..], userID, tenantID)
  }

  function RolesOf(s: Store, userID: string, tenantID: string): seq<string>
    requires (userID, tenantID) in s.memberships
  {
    s.memberships[(userID, tenantID)] + RolesOfTeams(s, s.teamMemberships, userID, tenantID)
  }

  predicate RolePermits(roles: seq<string>, permission: string) {
    || ("member" in roles && permission in {"self:read", "self:write"})
    || ("admin" in roles && permission in {"self:read", "self:write", "users:read", "users:write"})
  }

  /** The first entry for the subject, equal to the request on the other columns. */
  function EntryFor(s: Store, req: Request, kind: string, id: string): Option<AclEntry> {
    First(s.acls, (e: AclEntry) =>
      && e.tenantID == req.tenantID && e.subjectType == kind && e.subjectID == id
      && e.resourceType == req.resourceType && e.resourceID == req.resourceID
      && e.permission == req.resourceType + ":" + req.action)
  }

  function SaidBy(kind: string, e: AclEntry): Verdict {
    if e.effect == "allow" then Verdict(true, "granted by " + kind + " ACL", "acl")
    else Verdict(false, "denied by " + kind + " ACL", "acl")
  }

  /** The user's own entry decides, else that of the first team that has one, else that of the first role that has one. */
  function EntryVerdict(s: Store, req: Request): Option<Verdict>
    requires (req.userID, req.tenantID) in s.memberships
  {
    var own := EntryFor(s, req, "user", req.userID);
    var team := First(s.teamMemberships, (tm: TeamMembership) =>
      InTeamOf(s, tm, req.userID, req.tenantID) && EntryFor(s, req, "team", tm.teamID).Some?);
    var role := First(RolesOf(s, req.userID, req.tenantID), (r: string) => EntryFor(s, req, "role", r).Some?);
    if own.Some? then Some(SaidBy("user", own.value))
    else if team.Some? then Some(SaidBy("team", EntryFor(s, req, "team", team.value.teamID).value))
    else if role.Some? then Some(SaidBy("role", EntryFor(s, req, "role", role.value).value))
    else None
  }

  /** What a policy is asked: the user with all the effective roles, the resource, the action and the context. */
  function Asked(rego: Rego, s: Store, req: Request, p: Policy): EvalOutcome
    requires (req.userID, req.tenantID) in s.memberships
  {
    rego.eval(p.rego, PolicyInput(req.userID, RolesOf(s, req.userID, req.tenantID), req.resourceType, req.resourceID,
      req.action, req.context))
  }

  /** Any active policy of the tenant may decide; if there is none, or one fails, nothing matches. */
  ghost predicate PolicyMay(rego: Rego, s: Store, req: Request, v: Verdict)
    requires (req.userID, req.tenantID) in s.memberships
  {
    if forall p :: p in s.policies && p.tenantID == req.tenantID && p.isActive ==>
         rego.compiles(p.rego) && Asked(rego, s, req, p) != EvalError
    then
      || (v == Verdict(false, "no matching rule", "none")
          && forall p :: p in s.policies ==> !(p.tenantID == req.tenantID && p.isActive))
      || exists p :: p in s.policies && p.tenantID == req.tenantID && p.isActive
           && v == if Asked(rego, s, req, p) == Answer(true) then Verdict(true, "granted by policy " + p.id, "abac")
                   else Verdict(false, "denied by policy", "abac")
    else v == Verdict(false, "no matching rule", "none")
  }

  ghost predicate MayAnswer(rego: Rego, s: Store, req: Request, v: Verdict) {
    && (req.userID, req.tenantID) in s.memberships
    && if RolePermits(RolesOf(s, req.userID, req.tenantID), req.resourceType + ":" + req.action)
       then v == Verdict(true, "granted by role", "rbac")
       else
         match EntryVerdict(s, req)
         case Some(w) => v == w
         case None => PolicyMay(rego, s, req, v)
  }

  // ---------- The model agrees ----------

  lemma {:induction false} SameTeamRoles(s: Store, tms: seq<TeamMembership>, userID: string, tenantID: string)
    ensures TeamRoles(Filter(tms, (tm: TeamMembership) => InTeamOf(s, tm, userID, tenantID))) == RolesOfTeams(s, tms, userID, tenantID)
  {
    if tms != [] {
      var mine := (tm: TeamMembership) => InTeamOf(s, tm, userID, tenantID);
      SameTeamRoles(s, tms[1..], userID, tenantID);
      if mine(tms[0]) {
        assert Filter(tms, mine)[1..] == Filter(tms[1..], mine);
      }
    }
  }

  lemma SameTeams(s: Store, userID: string, tenantID: string)
    ensures TeamsOf(s, userID, tenantID) == Filter(s.teamMemberships, (tm: TeamMembership) => InTeamOf(s, tm, userID, tenantID))
  {
    FilterFilter(s.teamMemberships, (tm: TeamMembership) => tm.userID == userID,
      (tm: TeamMembership) => InTenant(s.teams, tm, tenantID), (tm: TeamMembership) => InTeamOf(s, tm, userID, tenantID));
  }

  lemma SameRoles(s: Store, userID: string, tenantID: string)
    ensures EffectiveRoles(s, userID, tenantID) ==
            if (userID, tenantID) in s.memberships then Some(RolesOf(s, userID, tenantID)) else None
  {
    SameTeams(s, userID, tenantID);
    SameTeamRoles(s, s.teamMemberships, userID, tenantID);
  }

  lemma SamePermissions(roles: seq<string>, permission: string)
    ensures Grants(roles, permission) <==> RolePermits(roles, permission)
  {
    assert forall role :: permission in PermissionsOf(role) <==>
      || (role == "member" && permission in {"self:read", "self:write"})
      || (role == "admin" && permission in {"self:read", "self:write", "users:read", "users:write"});
  }

  lemma {:induction false} SameEntry(acls: seq<AclEntry>, req: Request, kind: string, id: string)
    ensures Lookup(acls, req, Subject(kind, id)) ==
            First(acls, (e: AclEntry) =>
              && e.tenantID == req.tenantID && e.subjectType == kind && e.subjectID == id
              && e.resourceType == req.resourceType && e.resourceID == req.resourceID
              && e.permission == req.resourceType + ":" + req.action)
  {
    if acls != [] {
      SameEntry(acls[1..], req, kind, id);
    }
  }

  lemma VerdictOfNext(s: Store, req: Request, kind: string, id: string, rest: seq<Subject>)
    ensures AclVerdict(s.acls, req, [Subject(kind, id)] + rest) ==
            match EntryFor(s, req, kind, id)
            case Some(e) => Some(SaidBy(kind, e))
            case None => AclVerdict(s.acls, req, rest)
  {
    SameEntry(s.acls, req, kind, id);
    assert ([Subject(kind, id)] + rest)[1..] == rest;
  }

  lemma {:induction false} SameTeamVerdict(s: Store, req: Request, tms: seq<TeamMembership>)
    ensures var team := First(tms, (tm: TeamMembership) =>
              InTeamOf(s, tm, req.userID, req.tenantID) && EntryFor(s, req, "team", tm.teamID).Some?);
            AclVerdict(s.acls, req, TeamSubjects(Filter(tms, (tm: TeamMembership) => InTeamOf(s, tm, req.userID, req.tenantID)))) ==
            if team.Some? then Some(SaidBy("team", EntryFor(s, req, "team", team.value.teamID).value)) else None
  {
    if tms != [] {
      var mine := (tm: TeamMembership) => InTeamOf(s, tm, req.userID, req.tenantID);
      var rest := Filter(tms[1..], mine);
      SameTeamVerdict(s, req, tms[1..]);
      assert TeamSubjects(Filter(tms, mine)) ==
             if mine(tms[0]) then [Subject("team", tms[0].teamID)] + TeamSubjects(rest) else TeamSubjects(rest) by {
        assert ([tms[0]] + rest)[1..] == rest;
      }
      VerdictOfNext(s, req, "team", tms[0].teamID, TeamSubjects(rest));
      hide AclVerdict, TeamSubjects, Filter, EntryFor, InTeamOf, SaidBy;
    }
  }

  lemma {:induction false} SameRoleVerdict(s: Store, req: Request, roles: seq<string>)
    ensures var role := First(roles, (r: string) => EntryFor(s, req, "role", r).Some?);
            AclVerdict(s.acls, req, RoleSubjects(roles)) ==
            if role.Some? then Some(SaidBy("role", EntryFor(s, req, "role", role.value).value)) else None
  {
    if roles != [] {
      SameRoleVerdict(s, req, roles[1..]);
      VerdictOfNext(s, req, "role", roles[0], RoleSubjects(roles[1..]));
      hide AclVerdict, EntryFor, SaidBy;
    }
  }

  lemma SameEntryVerdict(s: Store, req: Request)
    requires (req.userID, req.tenantID) in s.memberships
    ensures AclVerdict(s.acls, req, Consulted(s, req, RolesOf(s, req.userID, req.tenantID))) == EntryVerdict(s, req)
  {
    var roles := RolesOf(s, req.userID, req.tenantID);
    ConsultedSplit(s, req, roles);
    SameEntry(s.acls, req, "user", req.userID);
    SameTeams(s, req.userID, req.tenantID);
    SameTeamVerdict(s, req, s.teamMemberships);
    SameRoleVerdict(s, req, roles);
    hide Consulted, Lookup, TeamsOf, TeamSubjects, RoleSubjects, RolesOf;
  }

  lemma SamePolicyVerdicts(rego: Rego, s: Store, prepared: Prepared, req: Request, v: Verdict)
    requires (req.userID, req.tenantID) in s.memberships
    requires PolicyLifecycle.UniqueIDs(s.policies) && PreparedAgrees(rego, s.policies, prepared)
    ensures AbacMay(rego, prepared, ActivePolicies(s, req.tenantID), InputOf(req, RolesOf(s, req.userID, req.tenantID)), v) <==>
            PolicyMay(rego, s, req, v)
  {
    var active, input := ActivePolicies(s, req.tenantID), InputOf(req, RolesOf(s, req.userID, req.tenantID));
    var after := Prepare(rego, prepared, active);
    PrepareMeaning(rego, s.policies, prepared, active);
    assert forall p :: p in s.policies && p.tenantID == req.tenantID && p.isActive <==> p in active;
    forall p | p in active
      ensures p.id in PolicyIDs(active)
      ensures Evaluate(rego, after, p.id, input) ==
              if !rego.compiles(p.rego) || Asked(rego, s, req, p) == EvalError then None
              else Some(Asked(rego, s, req, p) == Answer(true))
    {
      assert p in s.policies;
    }
    PolicyVerdictsOf(rego, s, prepared, req, active, input, v);
  }

  lemma PolicyVerdictsOf(rego: Rego, s: Store, prepared: Prepared, req: Request, active: seq<Policy>, input: PolicyInput,
                         v: Verdict)
    requires (req.userID, req.tenantID) in s.memberships
    requires forall p :: p in s.policies && p.tenantID == req.tenantID && p.isActive <==> p in active
    requires var after := Prepare(rego, prepared, active);
             forall p :: p in active ==>
               && p.id in PolicyIDs(active)
               && Evaluate(rego, after, p.id, input) ==
                  if !rego.compiles(p.rego) || Asked(rego, s, req, p) == EvalError then None
                  else Some(Asked(rego, s, req, p) == Answer(true))
    ensures AbacMay(rego, prepared, active, input, v) <==> PolicyMay(rego, s, req, v)
  {
    hide Prepare, Evaluate, Asked, RolesOf;
    var answers := EvaluateAll(rego, Prepare(rego, prepared, active), PolicyIDs(active), input);
    if active != [] {
      assert active[0] in active;
      if answers.Some? {
        if AbacMay(rego, prepared, active, input, v) {
          var id :| id in answers.value && v == PolicyResult(id, answers.value[id]);
          var p :| p in active && p.id == id;
          assert p in s.policies;
        }
        if PolicyMay(rego, s, req, v) {
          var p :| p in s.policies && p.tenantID == req.tenantID && p.isActive
            && v == if Asked(rego, s, req, p) == Answer(true) then Verdict(true, "granted by policy " + p.id, "abac")
                    else Verdict(false, "denied by policy", "abac");
          assert p in active && p.id in answers.value;
        }
      }
    }
  }

  /** The model and the reference give the same verdicts, whatever earlier checks have prepared. */
  lemma CheckIsReference(rego: Rego, s: Store, prepared: Prepared, req: Request, v: Verdict)
    requires PolicyLifecycle.UniqueIDs(s.policies) && PreparedAgrees(rego, s.policies, prepared)
    ensures MayDecide(rego, s, prepared, req, v) <==> MayAnswer(rego, s, req, v)
  {
    SameRoles(s, req.userID, req.tenantID);
    if (req.userID, req.tenantID) in s.memberships {
      SamePermissions(RolesOf(s, req.userID, req.tenantID), req.resourceType + ":" + req.action);
      SameEntryVerdict(s, req);
      SamePolicyVerdicts(rego, s, prepared, req, v);
    }
    hide EffectiveRoles, Grants, RolePermits, Consulted, EntryVerdict, AbacMay, PolicyMay, RolesOf;
  }

  /** A check is an error exactly without a membership, and a session has the same roles if the tenant is active. */
  lemma RolesAreReference(s: Store, userID: string, tenantID: string)
    ensures EffectiveRoles(s, userID, tenantID) ==
            if (userID, tenantID) in s.memberships then Some(RolesOf(s, userID, tenantID)) else None
    ensures SessionRoles(s, userID, tenantID) ==
            if tenantID in s.activeTenants && (userID, tenantID) in s.memberships then Some(RolesOf(s, userID, tenantID)) else None
  {
    SameRoles(s, userID, tenantID);
  }

  // ---------- Entries ----------

  /** The entry is one for the request and someone the request is checked for: the user, a team of theirs in the tenant
      or a role of theirs there. */
  ghost predicate Concerns(s: Store, req: Request, e: AclEntry) {
    && (req.userID, req.tenantID) in s.memberships
    && e.tenantID == req.tenantID && e.resourceType == req.resourceType && e.resourceID == req.resourceID
    && e.permission == req.resourceType + ":" + req.action
    && match e.subjectType
       case "user" => e.subjectID == req.userID
       case "team" => e.subjectID in s.teams && s.teams[e.subjectID] == req.tenantID && Joined(s, req.userID, e.subjectID)
       case "role" => e.subjectID in RolesOf(s, req.userID, req.tenantID)
       case _ => false
  }

  predicate Joined(s: Store, userID: string, teamID: string) {
    exists tm :: tm in s.teamMemberships && tm.userID == userID && tm.teamID == teamID
  }

  lemma ConcernsIsConsulted(s: Store, req: Request, e: AclEntry)
    requires (req.userID, req.tenantID) in s.memberships
    ensures IsConsulted(s, req, RolesOf(s, req.userID, req.tenantID), e) <==> Concerns(s, req, e)
  {
    var roles, teams := RolesOf(s, req.userID, req.tenantID), TeamsOf(s, req.userID, req.tenantID);
    SameTeams(s, req.userID, req.tenantID);
    TeamSubjectsMembers(teams, Subject(e.subjectType, e.subjectID));
    RoleSubjectsMembers(roles, Subject(e.subjectType, e.subjectID));
    hide TeamSubjects, RoleSubjects, RolesOf, TeamsOf;
    var who := Subject(e.subjectType, e.subjectID);
    assert IsConsulted(s, req, roles, e) <==> who in Consulted(s, req, roles) && Matches(e, req, who);
  }

  lemma {:induction false} TeamSubjectsMembers(tms: seq<TeamMembership>, who: Subject)
    ensures who in TeamSubjects(tms) <==> who.kind == "team" && exists tm :: tm in tms && tm.teamID == who.id
  {
    if tms != [] {
      TeamSubjectsMembers(tms[1..], who);
      assert forall tm :: tm in tms <==> tm == tms[0] || tm in tms[1..];
    }
  }

  lemma {:induction false} RoleSubjectsMembers(roles: seq<string>, who: Subject)
    ensures who in RoleSubjects(roles) <==> who.kind == "role" && who.id in roles
  {
    if roles != [] {
      RoleSubjectsMembers(roles[1..], who);
      assert who.id in roles <==> who.id == roles[0] || who.id in roles[1..];
    }
  }

  /** A verdict by an ACL entry has one: of the request's own columns, for the user or a team or role of theirs in the
      tenant, and with the effect the verdict has. Without such an entry the ACL says nothing. */
  lemma AclVerdictHasEntry(rego: Rego, s: Store, prepared: Prepared, req: Request, v: Verdict)
    requires MayDecide(rego, s, prepared, req, v)
    ensures v.matchedBy == "acl" ==>
              exists e :: e in s.acls && Concerns(s, req, e) && v.allowed == (e.effect == "allow")
    ensures v.matchedBy == "acl" <==> v.matchedBy != "rbac" && exists e :: e in s.acls && Concerns(s, req, e)
  {
    SameRoles(s, req.userID, req.tenantID);
    var roles := RolesOf(s, req.userID, req.tenantID);
    var subjects := Consulted(s, req, roles);
    forall e ensures IsConsulted(s, req, roles, e) <==> Concerns(s, req, e) {
      ConcernsIsConsulted(s, req, e);
    }
    hide Concerns, RolesOf, Consulted;
    NoEntryConsulted(s.acls, req, subjects);
    if !Grants(roles, ActionToPermission(req.resourceType, req.action)) && AclVerdict(s.acls, req, subjects).Some? {
      AclVerdictIsFirst(s.acls, req, subjects, v);
      var i :| DecidedBy(s.acls, req, subjects, i, v);
      var e := Lookup(s.acls, req, subjects[i]).value;
      assert IsConsulted(s, req, roles, e) && e in s.acls;
    }
  }

  /** An entry that differs in any column from all that is asked for changes nothing, wherever it is inserted. */
  lemma IrrelevantEntry(rego: Rego, s: Store, prepared: Prepared, i: nat, e: AclEntry, req: Request, v: Verdict)
    requires i <= |s.acls| && !Concerns(s, req, e)
    ensures MayDecide(rego, s.(acls := Insert(s.acls, i, e)), prepared, req, v) <==> MayDecide(rego, s, prepared, req, v)
  {
    var s' := s.(acls := Insert(s.acls, i, e));
    SameRoles(s, req.userID, req.tenantID);
    if (req.userID, req.tenantID) in s.memberships {
      var roles := RolesOf(s, req.userID, req.tenantID);
      ConcernsIsConsulted(s, req, e);
      assert Consulted(s', req, roles) == Consulted(s, req, roles);
      assert forall who :: who in Consulted(s, req, roles) ==> !Matches(e, req, who);
      hide Concerns, RolesOf, Consulted, Matches, Insert;
      UnmatchedInsert(s.acls, i, e, req, Consulted(s, req, roles));
    }
  }

  lemma {:induction false} UnmatchedInsert(acls: seq<AclEntry>, i: nat, e: AclEntry, req: Request, subjects: seq<Subject>)
    requires i <= |acls| && forall who :: who in subjects ==> !Matches(e, req, who)
    ensures AclVerdict(Insert(acls, i, e), req, subjects) == AclVerdict(acls, req, subjects)
  {
    if subjects != [] {
      LookupInsert(acls, i, e, req, subjects[0]);
      assert subjects[0] in subjects && forall who :: who in subjects[1..] ==> who in subjects;
      UnmatchedInsert(acls, i, e, req, subjects[1..]);
    }
  }
}
