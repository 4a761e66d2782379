/**
 The meaning of an authorization check: RBAC, then ACL entries for the user, the
 user's teams in the tenant and the effective roles, then the tenant's active
 policies, then deny. The first layer with a verdict wins.
 */
module Decision {
  import opened Directory
  import opened Wrappers

  datatype Request = Request(
    userID: string, tenantID: string, resourceType: string, resourceID: string, action: string,
    context: map<string, string>)

  datatype Verdict = Verdict(allowed: bool, reason: string, matchedBy: string)

  // ---------- RBAC ----------

  const ROLE_PERMISSIONS: map<string, seq<string>> := map[
    "member" := ["self:read", "self:write"],
    "admin" := ["self:read", "self:write", "users:read", "users:write"]]

  function PermissionsOf(role: string): seq<string> {
    if role in ROLE_PERMISSIONS then ROLE_PERMISSIONS[role] else []
  }

  predicate Grants(roles: seq<string>, permission: string) {
    exists role :: role in roles && permission in PermissionsOf(role)
  }

  function ActionToPermission(resourceType: string, action: string): string {
    resourceType + ":" + action
  }

  // ---------- ACL ----------

  datatype Subject = Subject(kind: string, id: string)

  predicate Matches(e: AclEntry, req: Request, who: Subject) {
    && e.tenantID == req.tenantID && e.subjectType == who.kind && e.subjectID == who.id
    && e.resourceType == req.resourceType && e.resourceID == req.resourceID
    && e.permission == ActionToPermission(req.resourceType, req.action)
  }

  /** `CheckPermission`: the first row, in primary-key order, equal on all six columns. */
  function Lookup(acls: seq<AclEntry>, req: Request, who: Subject): (r: Option<AclEntry>)
    ensures r.Some? ==> r.value in acls && Matches(r.value, req, who)
    ensures r.None? <==> forall e :: e in acls ==> !Matches(e, req, who)
  {
    if acls == [] then None
    else if Matches(acls[0], req, who) then Some(acls[0])
    else Lookup(acls[1..], req, who)
  }

  /** The row at index `i` is the first that matches. */
  predicate FirstMatchAt(acls: seq<AclEntry>, i: int, req: Request, who: Subject) {
    0 <= i < |acls| && Matches(acls[i], req, who) && forall j :: 0 <= j < i ==> !Matches(acls[j], req, who)
  }

  lemma FirstMatchAtTail(acls: seq<AclEntry>, i: int, req: Request, who: Subject)
    requires acls != [] && !Matches(acls[0], req, who)
    ensures FirstMatchAt(acls, i + 1, req, who) <==> FirstMatchAt(acls[1..], i, req, who)
  {
    var rest := acls[1..];
    hide Matches;
    assert forall j :: 0 <= j < |rest| ==> rest[j] == acls[j + 1];
    if FirstMatchAt(rest, i, req, who) {
      forall j | 0 <= j < i + 1 ensures !Matches(acls[j], req, who) {
        assert j > 0 ==> acls[j] == rest[j - 1];
      }
    }
  }

  lemma {:induction false} LookupIsFirst(acls: seq<AclEntry>, e: AclEntry, req: Request, who: Subject)
    ensures Lookup(acls, req, who) == Some(e) <==> exists i :: FirstMatchAt(acls, i, req, who) && acls[i] == e
  {
    if acls != [] {
      var rest := acls[1..];
      LookupIsFirst(rest, e, req, who);
      if Matches(acls[0], req, who) {
        assert FirstMatchAt(acls, 0, req, who);
      } else {
        hide Matches;
        if i :| FirstMatchAt(rest, i, req, who) && rest[i] == e {
          FirstMatchAtTail(acls, i, req, who);
          assert acls[i + 1] == e;
        }
        if i :| FirstMatchAt(acls, i, req, who) && acls[i] == e {
          assert i != 0;
          FirstMatchAtTail(acls, i - 1, req, who);
          assert rest[i - 1] == e;
        }
      }
    }
  }

  function TeamSubjects(tms: seq<TeamMembership>): seq<Subject> {
    if tms == [] then [] else [Subject("team", tms[0].teamID)] + TeamSubjects(tms[1..])
  }

  function RoleSubjects(roles: seq<string>): seq<Subject> {
    if roles == [] then [] else [Subject("role", roles[0])] + RoleSubjects(roles[1..])
  }

  /** Everyone whose entries are consulted, in order. */
  function Consulted(s: Store, req: Request, roles: seq<string>): seq<Subject> {
    [Subject("user", req.userID)] + TeamSubjects(TeamsOf(s, req.userID, req.tenantID)) + RoleSubjects(roles)
  }

  function AclResult(kind: string, effect: string): Verdict {
    if effect == "allow" then Verdict(true, "granted by " + kind + " ACL", "acl")
    else Verdict(false, "denied by " + kind + " ACL", "acl")
  }

  function AclVerdict(acls: seq<AclEntry>, req: Request, subjects: seq<Subject>): Option<Verdict> {
    if subjects == [] then None
    else
      match Lookup(acls, req, subjects[0])
      case Some(e) => Some(AclResult(subjects[0].kind, e.effect))
      case None => AclVerdict(acls, req, subjects[1..])
  }

  lemma {:induction false} AclVerdictConcat(acls: seq<AclEntry>, req: Request, xs: seq<Subject>, ys: seq<Subject>)
    ensures AclVerdict(acls, req, xs + ys) ==
            match AclVerdict(acls, req, xs) case Some(v) => Some(v) case None => AclVerdict(acls, req, ys)
  {
    if xs == [] {
      assert xs + ys == ys;
    } else {
      assert (xs + ys)[1..] == xs[1..] + ys;
      AclVerdictConcat(acls, req, xs[1..], ys);
    }
  }

  /** Subject `i` is the first with an entry, and `v` is what the entry says. */
  predicate DecidedBy(acls: seq<AclEntry>, req: Request, subjects: seq<Subject>, i: int, v: Verdict) {
    && 0 <= i < |subjects| && Lookup(acls, req, subjects[i]).Some?
    && v == AclResult(subjects[i].kind, Lookup(acls, req, subjects[i]).value.effect)
    && forall j :: 0 <= j < i ==> Lookup(acls, req, subjects[j]).None?
  }

  /** The fold, declaratively: verdict `v` comes from the first consulted subject that has an entry. */
  lemma {:induction false} AclVerdictIsFirst(acls: seq<AclEntry>, req: Request, subjects: seq<Subject>, v: Verdict)
    ensures AclVerdict(acls, req, subjects) == Some(v) <==>
            exists i :: DecidedBy(acls, req, subjects, i, v)
  {
    if subjects != [] {
      var rest := subjects[1..];
      AclVerdictIsFirst(acls, req, rest, v);
      if Lookup(acls, req, subjects[0]).None? {
        hide AclResult, Matches;
        if i :| DecidedBy(acls, req, rest, i, v) {
          DecidedByTail(acls, req, subjects, i, v);
        }
        if i :| DecidedBy(acls, req, subjects, i, v) {
          assert i != 0;
          DecidedByTail(acls, req, subjects, i - 1, v);
        }
      } else {
        assert DecidedBy(acls, req, subjects, 0, AclResult(subjects[0].kind, Lookup(acls, req, subjects[0]).value.effect));
      }
    }
  }

  lemma DecidedByTail(acls: seq<AclEntry>, req: Request, subjects: seq<Subject>, i: int, v: Verdict)
    requires subjects != [] && Lookup(acls, req, subjects[0]).None?
    ensures DecidedBy(acls, req, subjects, i + 1, v) <==> DecidedBy(acls, req, subjects[1..], i, v)
  {
    var rest := subjects[1..];
    hide AclResult, Matches;
    assert forall j :: 0 <= j < |rest| ==> rest[j] == subjects[j + 1];
    if DecidedBy(acls, req, rest, i, v) {
      forall j | 0 <= j < i + 1 ensures Lookup(acls, req, subjects[j]).None? {
        assert j > 0 ==> subjects[j] == rest[j - 1];
      }
    }
  }

  // ---------- ABAC ----------

  datatype PolicyInput = PolicyInput(
    userID: string, roles: seq<string>, resourceType: string, resourceID: string, action: string,
    context: map<string, string>)

  datatype EvalOutcome = EvalError | Undefined | NotBoolean | Answer(allowed: bool)

  /** The policy engine: which sources compile, and what a compiled source answers. */
  datatype Rego = Rego(compiles: string -> bool, eval: (string, PolicyInput) -> EvalOutcome)

  /** Prepared queries, by policy ID: the source each was compiled from. */
  type Prepared = map<string, string>

  function InputOf(req: Request, roles: seq<string>): PolicyInput {
    PolicyInput(req.userID, roles, req.resourceType, req.resourceID, req.action, req.context)
  }

  /** Compile what is not compiled yet; a source that does not compile is skipped. */
  function Prepare(rego: Rego, prepared: Prepared, ps: seq<Policy>): Prepared
    decreases |ps|
  {
    if ps == [] then prepared
    else
      var p := ps[0];
      Prepare(rego, if p.id !in prepared && rego.compiles(p.rego) then prepared[p.id := p.rego] else prepared, ps[1..])
  }

  lemma {:induction false} PrepareSnoc(rego: Rego, prepared: Prepared, ps: seq<Policy>, p: Policy)
    ensures Prepare(rego, prepared, ps + [p]) ==
            var before := Prepare(rego, prepared, ps);
            if p.id !in before && rego.compiles(p.rego) then before[p.id := p.rego] else before
    decreases |ps|
  {
    if ps == [] {
      assert ps + [p] == [p];
      assert [p][1..] == [];
    } else {
      assert (ps + [p])[1..] == ps[1..] + [p];
      var q := ps[0];
      var next := if q.id !in prepared && rego.compiles(q.rego) then prepared[q.id := q.rego] else prepared;
      PrepareSnoc(rego, next, ps[1..], p);
    }
  }

  /** One policy: `None` is an error; a missing or non-boolean answer is a denial. */
  function Evaluate(rego: Rego, prepared: Prepared, id: string, input: PolicyInput): Option<bool> {
    if id !in prepared then None
    else
      match rego.eval(prepared[id], input)
      case EvalError => None
      case Answer(b) => Some(b)
      case _ => Some(false)
  }

  function PolicyIDs(ps: seq<Policy>): set<string> {
    set p | p in ps :: p.id
  }

  /** All of them: one error loses every answer. */
  function EvaluateAll(rego: Rego, prepared: Prepared, ids: set<string>, input: PolicyInput): Option<map<string, bool>> {
    if forall id :: id in ids ==> Evaluate(rego, prepared, id, input).Some?
    then Some(map id | id in ids :: Evaluate(rego, prepared, id, input).value)
    else None
  }

  function PolicyResult(id: string, allowed: bool): Verdict {
    if allowed then Verdict(true, "granted by policy " + id, "abac") else Verdict(false, "denied by policy", "abac")
  }

  const NO_MATCH := Verdict(false, "no matching rule", "none")

  /** Go iterates over a map in no fixed order and the check returns at the first entry, so any entry may decide. */
  ghost predicate AbacMay(rego: Rego, prepared: Prepared, active: seq<Policy>, input: PolicyInput, v: Verdict) {
    if active == [] then v == NO_MATCH
    else
      match EvaluateAll(rego, Prepare(rego, prepared, active), PolicyIDs(active), input)
      case None => v == NO_MATCH
      case Some(answers) => exists id :: id in answers && v == PolicyResult(id, answers[id])
  }

  // ---------- The whole decision ----------

  /** The verdict of the layers before ABAC, if one of them has any. */
  function LayerVerdict(s: Store, req: Request, roles: seq<string>): Option<Verdict> {
    if Grants(roles, ActionToPermission(req.resourceType, req.action))
    then Some(Verdict(true, "granted by role", "rbac"))
    else AclVerdict(s.acls, req, Consulted(s, req, roles))
  }

  /** `v` is a verdict an uncached check may return. */
  ghost predicate MayDecide(rego: Rego, s: Store, prepared: Prepared, req: Request, v: Verdict) {
    match EffectiveRoles(s, req.userID, req.tenantID)
    case None => false
    case Some(roles) =>
      match LayerVerdict(s, req, roles)
      case Some(w) => v == w
      case None => AbacMay(rego, prepared, ActivePolicies(s, req.tenantID), InputOf(req, roles), v)
  }

  /** The prepared queries an uncached check leaves behind. */
  function PreparedAfter(rego: Rego, s: Store, prepared: Prepared, req: Request): Prepared {
    match EffectiveRoles(s, req.userID, req.tenantID)
    case None => prepared
    case Some(roles) =>
      if LayerVerdict(s, req, roles).Some? then prepared
      else Prepare(rego, prepared, ActivePolicies(s, req.tenantID))
  }

  /** The entry is for this request and one of the subjects consulted for it. */
  predicate IsConsulted(s: Store, req: Request, roles: seq<string>, e: AclEntry) {
    exists who :: who in Consulted(s, req, roles) && Matches(e, req, who)
  }

  /** Deny by default: an allow verdict has a role that grants the permission, an allow entry of the tenant for a
      consulted subject, or an active policy of the tenant that answers true, and comes from the first layer that
      speaks at all. */
  lemma AllowHasAGrant(rego: Rego, s: Store, prepared: Prepared, req: Request, v: Verdict)
    requires MayDecide(rego, s, prepared, req, v) && v.allowed
    ensures var roles := EffectiveRoles(s, req.userID, req.tenantID).value;
            var permission := ActionToPermission(req.resourceType, req.action);
            || (v.matchedBy == "rbac" && Grants(roles, permission))
            || (v.matchedBy == "acl" && !Grants(roles, permission)
                && exists e :: e in s.acls && e.effect == "allow" && IsConsulted(s, req, roles, e))
            || (v.matchedBy == "abac" && !Grants(roles, permission)
                && (forall e :: e in s.acls ==> !IsConsulted(s, req, roles, e))
                && exists p :: p in s.policies && p.tenantID == req.tenantID && p.isActive
                     && v == PolicyResult(p.id, true)
                     && Evaluate(rego, PreparedAfter(rego, s, prepared, req), p.id, InputOf(req, roles)) == Some(true))
  {
    var roles := EffectiveRoles(s, req.userID, req.tenantID).value;
    var subjects := Consulted(s, req, roles);
    if !Grants(roles, ActionToPermission(req.resourceType, req.action)) {
      match AclVerdict(s.acls, req, subjects) {
        case Some(w) =>
          AclVerdictIsFirst(s.acls, req, subjects, v);
          var i :| DecidedBy(s.acls, req, subjects, i, v);
          var e := Lookup(s.acls, req, subjects[i]).value;
          assert subjects[i] in subjects && Matches(e, req, subjects[i]);
        case None =>
          NoEntryConsulted(s.acls, req, subjects);
          AbacAllowHasPolicy(rego, s, prepared, req, roles, v);
      }
    }
  }

  lemma {:induction false} NoEntryConsulted(acls: seq<AclEntry>, req: Request, subjects: seq<Subject>)
    ensures AclVerdict(acls, req, subjects).None? <==>
            forall e, who :: e in acls && who in subjects ==> !Matches(e, req, who)
  {
    if subjects != [] {
      NoEntryConsulted(acls, req, subjects[1..]);
      assert forall who :: who in subjects <==> who == subjects[0] || who in subjects[1..];
    }
  }

  lemma AbacAllowHasPolicy(rego: Rego, s: Store, prepared: Prepared, req: Request, roles: seq<string>, v: Verdict)
    requires AbacMay(rego, prepared, ActivePolicies(s, req.tenantID), InputOf(req, roles), v) && v.allowed
    ensures v.matchedBy == "abac"
    ensures exists p :: p in s.policies && p.tenantID == req.tenantID && p.isActive && v == PolicyResult(p.id, true)
              && Evaluate(rego, Prepare(rego, prepared, ActivePolicies(s, req.tenantID)), p.id, InputOf(req, roles)) == Some(true)
  {
    var active := ActivePolicies(s, req.tenantID);
    var answers := EvaluateAll(rego, Prepare(rego, prepared, active), PolicyIDs(active), InputOf(req, roles)).value;
    var id :| id in answers && v == PolicyResult(id, answers[id]);
    var p :| p in active && p.id == id;
    assert p in s.policies;
  }

  // ---------- Adding ACL entries ----------

  function Insert(acls: seq<AclEntry>, i: nat, e: AclEntry): seq<AclEntry>
    requires i <= |acls|
  {
    acls[..i] + [e] + acls[i..]
  }

  lemma {:induction false} LookupInsert(acls: seq<AclEntry>, i: nat, e: AclEntry, req: Request, who: Subject)
    requires i <= |acls|
    ensures Lookup(Insert(acls, i, e), req, who) == Lookup(acls, req, who)
         || (Matches(e, req, who) && Lookup(Insert(acls, i, e), req, who) == Some(e))
    ensures Matches(e, req, who) && Lookup(acls, req, who).None? ==> Lookup(Insert(acls, i, e), req, who) == Some(e)
  {
    hide Matches;
    if i == 0 {
      var more := [e] + acls;
      assert Insert(acls, i, e) == more && more[0] == e && more[1..] == acls;
    } else {
      assert Insert(acls, i, e)[0] == acls[0];
      assert Insert(acls, i, e)[1..] == Insert(acls[1..], i - 1, e);
      LookupInsert(acls[1..], i - 1, e, req, who);
    }
  }

  /** Inserting one entry either leaves the ACL verdict alone or makes that entry decide it. */
  lemma {:induction false} AclVerdictInsert(acls: seq<AclEntry>, i: nat, e: AclEntry, req: Request, subjects: seq<Subject>)
    requires i <= |acls|
    ensures AclVerdict(Insert(acls, i, e), req, subjects) == AclVerdict(acls, req, subjects)
         || exists kind :: AclVerdict(Insert(acls, i, e), req, subjects) == Some(AclResult(kind, e.effect))
  {
    if subjects != [] {
      LookupInsert(acls, i, e, req, subjects[0]);
      AclVerdictInsert(acls, i, e, req, subjects[1..]);
    }
  }

  /** No entry with this effect can produce the opposite outcome: whatever the check may say now and
      did not say before has the effect of the new entry. */
  lemma AddingAnEntryOnlyAddsItsOwnEffect(rego: Rego, s: Store, prepared: Prepared, i: nat, e: AclEntry,
                                          req: Request, v: Verdict)
    requires i <= |s.acls|
    requires MayDecide(rego, s.(acls := Insert(s.acls, i, e)), prepared, req, v)
    ensures MayDecide(rego, s, prepared, req, v) || v.allowed == (e.effect == "allow")
  {
    var s' := s.(acls := Insert(s.acls, i, e));
    var roles := EffectiveRoles(s, req.userID, req.tenantID).value;
    assert Consulted(s', req, roles) == Consulted(s, req, roles);
    AclVerdictInsert(s.acls, i, e, req, Consulted(s, req, roles));
  }
}
