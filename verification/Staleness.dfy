/**
 Whole runs of the authorization system: arbitrary writes to the tables, time passing,
 cache entries vanishing, and checks. What a cached answer can still be trusted for.
 */
module Staleness {
  import opened Authorization
  import opened AuthzCaching
  import opened Decision
  import opened Directory
  import opened Isolation
  import opened PolicyLifecycle
  import opened Wrappers

  datatype Moment = Moment(system: System, now: int)

  datatype Event =
    | Wrote                                                          // any other component changes any table
    | Evicted                                                        // cache entries are invalidated or lost
    | Called(req: Request, r: Result<Verdict, AuthzError>)           // Check
    | CalledWithoutRedis(req: Request, r: Result<Verdict, AuthzError>) // Check while Redis reads or writes fail

  predicate IsCall(e: Event) {
    e.Called? || e.CalledWithoutRedis?
  }

  ghost predicate Step(rego: Rego, ttl: int, m: Moment, e: Event, m': Moment) {
    var s, s' := m.system, m'.system;
    && m.now <= m'.now
    && match e
       case Wrote => s'.prepared == s.prepared && s'.entries == s.entries
       case Evicted =>
         && s'.store == s.store && s'.prepared == s.prepared
         && forall k :: k in s'.entries ==> k in s.entries && s'.entries[k] == s.entries[k]
       case Called(req, r) => Checked(rego, ttl, s, req, m.now, r, s')
       case CalledWithoutRedis(req, r) =>
         && Decided(rego, s, req, r, s')
         && (s'.entries == s.entries
             || (r.Success? && s'.entries == s.entries[CacheKey(FieldsOf(req)) := Entry(r.value, m.now + ttl)]))
  }

  ghost predicate Run(rego: Rego, ttl: int, ms: seq<Moment>, es: seq<Event>) {
    && |ms| == |es| + 1
    && ms[0].system.entries == map[]
    && forall i :: 0 <= i < |es| ==> Step(rego, ttl, ms[i], es[i], ms[i + 1])
  }

  /** Event `j` computed verdict `v` from the tables of its moment, for a request with cache key `key`. */
  ghost predicate Computed(rego: Rego, ms: seq<Moment>, es: seq<Event>, j: int, key: string, v: Verdict) {
    && 0 <= j < |es| && j < |ms|
    && IsCall(es[j])
    && CacheKey(FieldsOf(es[j].req)) == key
    && es[j].r == Success(v)
    && MayDecide(rego, ms[j].system.store, ms[j].system.prepared, es[j].req, v)
  }

  /** Every entry was computed by an earlier call, and its expiry still counts from that computation: hits do not
      renew it. */
  lemma {:induction false} EntriesHaveOrigins(rego: Rego, ttl: int, ms: seq<Moment>, es: seq<Event>, i: nat, key: string)
    returns (j: nat)
    requires Run(rego, ttl, ms, es) && i < |ms| && key in ms[i].system.entries
    ensures j < i && Computed(rego, ms, es, j, key, ms[i].system.entries[key].verdict)
    ensures ms[i].system.entries[key].expires == ms[j].now + ttl
  {
    var e, s, s' := es[i - 1], ms[i - 1].system, ms[i].system;
    assert Step(rego, ttl, ms[i - 1], e, ms[i]);
    hide MayDecide, PreparedAfter, CacheKey, Run;
    if key in s.entries && s'.entries[key] == s.entries[key] {
      j := EntriesHaveOrigins(rego, ttl, ms, es, i - 1, key);
    } else {
      j := i - 1;
    }
  }

  lemma {:induction false} ClockIsMonotone(rego: Rego, ttl: int, ms: seq<Moment>, es: seq<Event>, j: nat, i: nat)
    requires Run(rego, ttl, ms, es) && j <= i < |ms|
    ensures ms[j].now <= ms[i].now
  {
    if j < i {
      ClockIsMonotone(rego, ttl, ms, es, j, i - 1);
      assert Step(rego, ttl, ms[i - 1], es[i - 1], ms[i]);
    }
  }

  /** Bounded staleness. In every run, a returned verdict is one that the tables gave for a request with the
      same cache key at some instant less than `ttl` ago, or now. */
  lemma BoundedStaleness(rego: Rego, ttl: int, ms: seq<Moment>, es: seq<Event>, i: nat) returns (j: nat)
    requires Run(rego, ttl, ms, es) && 0 < ttl && i < |es|
    requires IsCall(es[i]) && es[i].r.Success?
    ensures j <= i && ms[i].now - ttl < ms[j].now <= ms[i].now
    ensures Computed(rego, ms, es, j, CacheKey(FieldsOf(es[i].req)), es[i].r.value)
  {
    var key := CacheKey(FieldsOf(es[i].req));
    assert Step(rego, ttl, ms[i], es[i], ms[i + 1]);
    if es[i].Called? && Live(ms[i].system.entries, key, ms[i].now).Some? {
      j := EntriesHaveOrigins(rego, ttl, ms, es, i, key);
      ClockIsMonotone(rego, ttl, ms, es, j, i);
    } else {
      j := i;
    }
  }

  /** The request of call `i` has its key to itself: because none of its own fields holds a colon, whatever other
      callers ask; or, if its action does, because no request so far had a colon before the action. */
  ghost predicate KeyIsOwn(es: seq<Event>, i: nat)
    requires i < |es| && IsCall(es[i])
  {
    || ColonFree(FieldsOf(es[i].req))
    || forall k :: 0 <= k <= i && IsCall(es[k]) ==> Separable(FieldsOf(es[k].req))
  }

  /** Then the verdict was given for the same tenant, user, resource and action. */
  lemma BoundedStalenessForTheRequest(rego: Rego, ttl: int, ms: seq<Moment>, es: seq<Event>, i: nat) returns (j: nat)
    requires Run(rego, ttl, ms, es) && 0 < ttl && i < |es|
    requires IsCall(es[i]) && es[i].r.Success? && KeyIsOwn(es, i)
    ensures j <= i && ms[i].now - ttl < ms[j].now <= ms[i].now
    ensures IsCall(es[j]) && FieldsOf(es[j].req) == FieldsOf(es[i].req)
    ensures MayDecide(rego, ms[j].system.store, ms[j].system.prepared, es[j].req, es[i].r.value)
  {
    j := BoundedStaleness(rego, ttl, ms, es, i);
    KeyInjective(FieldsOf(es[j].req), FieldsOf(es[i].req));
  }

  // ---------- Prepared queries over runs ----------

  /** Writes keep policy IDs unique and give no ID that has been prepared another source. */
  ghost predicate SourcesStay(ms: seq<Moment>, es: seq<Event>)
    requires |ms| == |es| + 1
  {
    && ms[0].system.prepared == map[] && UniqueIDs(ms[0].system.store.policies)
    && forall i :: 0 <= i < |es| && es[i].Wrote? ==> KeepsSources(ms[i].system.prepared, ms[i + 1].system.store.policies)
  }

  ghost predicate KeepsSources(prepared: Prepared, ps: seq<Policy>) {
    UniqueIDs(ps) && forall p :: p in ps && p.id in prepared ==> prepared[p.id] == p.rego
  }

  ghost predicate AllCompile(rego: Rego, prepared: Prepared) {
    forall id :: id in prepared ==> rego.compiles(prepared[id])
  }

  lemma {:induction false} PreparedCompile(rego: Rego, prepared: Prepared, ps: seq<Policy>)
    requires AllCompile(rego, prepared)
    ensures AllCompile(rego, Prepare(rego, prepared, ps))
    decreases |ps|
  {
    if ps != [] {
      var p := ps[0];
      PreparedCompile(rego, if p.id !in prepared && rego.compiles(p.rego) then prepared[p.id := p.rego] else prepared, ps[1..]);
    }
  }

  ghost predicate Agreeing(rego: Rego, s: System) {
    && UniqueIDs(s.store.policies) && PreparedAgrees(rego, s.store.policies, s.prepared)
    && AllCompile(rego, s.prepared)
  }

  lemma DecisionKeepsAgreeing(rego: Rego, s: System, req: Request, r: Result<Verdict, AuthzError>, s': System)
    requires Agreeing(rego, s) && Decided(rego, s, req, r, s')
    ensures Agreeing(rego, s')
  {
    var active := ActivePolicies(s.store, req.tenantID);
    PrepareMeaning(rego, s.store.policies, s.prepared, active);
    PreparedCompile(rego, s.prepared, active);
  }

  /** Then prepared queries agree with the stored sources at every moment of the run. */
  lemma {:induction false} PreparedAlwaysAgree(rego: Rego, ttl: int, ms: seq<Moment>, es: seq<Event>, i: nat)
    requires Run(rego, ttl, ms, es) && SourcesStay(ms, es) && i < |ms|
    ensures Agreeing(rego, ms[i].system)
  {
    if i > 0 {
      PreparedAlwaysAgree(rego, ttl, ms, es, i - 1);
      var m, e, m' := ms[i - 1], es[i - 1], ms[i];
      assert Step(rego, ttl, m, e, m');
      hide Run, SourcesStay, MayDecide, Prepare;
      match e {
        case Wrote => assert KeepsSources(m.system.prepared, m'.system.store.policies);
        case Evicted =>
        case Called(req, r) =>
          if Live(m.system.entries, CacheKey(FieldsOf(req)), m.now).None? {
            DecisionKeepsAgreeing(rego, m.system, req, r, m'.system);
          }
        case CalledWithoutRedis(req, r) => DecisionKeepsAgreeing(rego, m.system, req, r, m'.system);
      }
    }
  }

  /** So the answer is current if the tenant's rows have been what they are for one `ttl`, whatever happened before
      and to other tenants. */
  lemma FreshWhileUnchanged(rego: Rego, ttl: int, ms: seq<Moment>, es: seq<Event>, i: nat)
    requires Run(rego, ttl, ms, es) && SourcesStay(ms, es) && 0 < ttl && i < |es|
    requires IsCall(es[i]) && es[i].r.Success? && KeyIsOwn(es, i)
    requires forall k :: 0 <= k <= i && ms[k].now > ms[i].now - ttl ==>
               AgreeOn(ms[k].system.store, ms[i].system.store, es[i].req.tenantID)
    ensures exists same: Request ::
              && FieldsOf(same) == FieldsOf(es[i].req)
              && MayDecide(rego, ms[i].system.store, ms[i].system.prepared, same, es[i].r.value)
  {
    var j := BoundedStalenessForTheRequest(rego, ttl, ms, es, i);
    var then', now := ms[j].system, ms[i].system;
    PreparedAlwaysAgree(rego, ttl, ms, es, j);
    PreparedAlwaysAgree(rego, ttl, ms, es, i);
    NonInterferenceOfHistories(rego, then'.store, now.store, then'.prepared, now.prepared, es[j].req, es[i].r.value);
  }

  // ---------- The context of a request ----------

  lemma {:induction false} LookupIgnoresContext(acls: seq<AclEntry>, a: Request, b: Request, who: Subject)
    requires FieldsOf(a) == FieldsOf(b)
    ensures Lookup(acls, a, who) == Lookup(acls, b, who)
  {
    if acls != [] {
      LookupIgnoresContext(acls[1..], a, b, who);
    }
  }

  lemma {:induction false} AclVerdictIgnoresContext(acls: seq<AclEntry>, a: Request, b: Request, subjects: seq<Subject>)
    requires FieldsOf(a) == FieldsOf(b)
    ensures AclVerdict(acls, a, subjects) == AclVerdict(acls, b, subjects)
  {
    if subjects != [] {
      LookupIgnoresContext(acls, a, b, subjects[0]);
      AclVerdictIgnoresContext(acls, a, b, subjects[1..]);
    }
  }

  /** Two requests equal on all five fields may differ in the context, which only policies see: verdicts matched by a
      role or an ACL entry hold for both, and so does every verdict if the tenant has no active policy. */
  lemma OnlyPoliciesSeeTheContext(rego: Rego, s: Store, prepared: Prepared, a: Request, b: Request, v: Verdict)
    requires FieldsOf(a) == FieldsOf(b)
    requires ActivePolicies(s, a.tenantID) == [] || v.matchedBy in {"rbac", "acl"}
    ensures MayDecide(rego, s, prepared, a, v) <==> MayDecide(rego, s, prepared, b, v)
  {
    if EffectiveRoles(s, a.userID, a.tenantID).Some? {
      var roles := EffectiveRoles(s, a.userID, a.tenantID).value;
      assert Consulted(s, a, roles) == Consulted(s, b, roles);
      AclVerdictIgnoresContext(s.acls, a, b, Consulted(s, a, roles));
      assert LayerVerdict(s, a, roles) == LayerVerdict(s, b, roles);
      hide LayerVerdict, Evaluate, EvaluateAll, ActivePolicies;
    }
  }

  /** So such an answer, even a cached one, held for the very request, its context included. */
  lemma BoundedStalenessWithContext(rego: Rego, ttl: int, ms: seq<Moment>, es: seq<Event>, i: nat) returns (j: nat)
    requires Run(rego, ttl, ms, es) && 0 < ttl && i < |es|
    requires IsCall(es[i]) && es[i].r.Success? && KeyIsOwn(es, i)
    requires || es[i].r.value.matchedBy in {"rbac", "acl"}
             || forall k :: 0 <= k <= i && ms[k].now > ms[i].now - ttl ==>
                  ActivePolicies(ms[k].system.store, es[i].req.tenantID) == []
    ensures j <= i && ms[i].now - ttl < ms[j].now <= ms[i].now
    ensures MayDecide(rego, ms[j].system.store, ms[j].system.prepared, es[i].req, es[i].r.value)
  {
    j := BoundedStalenessForTheRequest(rego, ttl, ms, es, i);
    OnlyPoliciesSeeTheContext(rego, ms[j].system.store, ms[j].system.prepared, es[j].req, es[i].req, es[i].r.value);
  }

  /** A policy's answer need not: whenever a policy source tells two contexts apart, there is a run in which the
      answer for the one is returned for the other, though nothing was written and no time has passed. */
  lemma AnswerForAnotherContext(rego: Rego, ttl: int, source: string, c: map<string, string>, d: map<string, string>)
    returns (ms: seq<Moment>, es: seq<Event>)
    requires 0 < ttl && rego.compiles(source)
    requires rego.eval(source, PolicyInput("u", [], "doc", "1", "read", c)) == Answer(true)
    requires rego.eval(source, PolicyInput("u", [], "doc", "1", "read", d)) in {Answer(false), Undefined}
    ensures Run(rego, ttl, ms, es) && |es| == 2 && ms[1].now == ms[0].now && ms[1].system.store == ms[0].system.store
    ensures es[0].Called? && es[1].Called? && es[0].req.context == c && es[1].req.context == d
    ensures FieldsOf(es[0].req) == FieldsOf(es[1].req)
    ensures es[1].r.Success? && es[1].r.value.allowed
    ensures forall v :: MayDecide(rego, ms[1].system.store, ms[1].system.prepared, es[1].req, v) ==> !v.allowed
  {
    var a, b := Request("u", "t", "doc", "1", "read", c), Request("u", "t", "doc", "1", "read", d);
    var store := Store({"t"}, map[("u", "t") := []], map[], [], [], [Policy("p", "t", "n", source, 1, true)]);
    var v := PolicyResult("p", true);
    OnePolicyDecides(rego, source, a, map[]);
    OnePolicyDecides(rego, source, b, map["p" := source]);
    var key := CacheKey(FieldsOf(a));
    var s0 := System(store, map[], map[]);
    var s1 := System(store, map["p" := source], map[key := Entry(v, ttl)]);
    ms := [Moment(s0, 0), Moment(s1, 0), Moment(s1, 0)];
    es := [Called(a, Success(v)), Called(b, Success(v))];
    assert Checked(rego, ttl, s0, a, 0, Success(v), s1);
    assert Step(rego, ttl, ms[0], es[0], ms[1]);
    assert Step(rego, ttl, ms[1], es[1], ms[2]);
  }

  lemma OnePolicyDecides(rego: Rego, source: string, req: Request, prepared: Prepared)
    requires rego.compiles(source) && FieldsOf(req) == Fields("t", "u", "doc", "1", "read")
    requires prepared == map[] || prepared == map["p" := source]
    requires rego.eval(source, PolicyInput("u", [], "doc", "1", "read", req.context)) in {Answer(true), Answer(false), Undefined}
    ensures var s := Store({"t"}, map[("u", "t") := []], map[], [], [], [Policy("p", "t", "n", source, 1, true)]);
            var yes := rego.eval(source, PolicyInput("u", [], "doc", "1", "read", req.context)) == Answer(true);
            && EffectiveRoles(s, req.userID, req.tenantID) == Some([])
            && PreparedAfter(rego, s, prepared, req) == map["p" := source]
            && forall v :: MayDecide(rego, s, prepared, req, v) <==> v == PolicyResult("p", yes)
  {
    var p := Policy("p", "t", "n", source, 1, true);
    var s := Store({"t"}, map[("u", "t") := []], map[], [], [], [p]);
    assert MembershipsOf(s, "u") == [] && TeamsOf(s, "u", "t") == [];
    var none: seq<string> := [];
    assert none + TeamRoles([]) == none;
    assert EffectiveRoles(s, "u", "t") == Some([]);
    assert AclVerdict(s.acls, req, Consulted(s, req, [])) == None by {
      NoEntries(req, Consulted(s, req, []));
    }
    assert [p][1..] == [];
    assert ActivePolicies(s, "t") == [p];
    var after := Prepare(rego, prepared, [p]);
    var next := if p.id !in prepared && rego.compiles(p.rego) then prepared[p.id := p.rego] else prepared;
    assert after == Prepare(rego, next, []) == next == map["p" := source];
    assert PolicyIDs([p]) == {"p"};
    var answers := EvaluateAll(rego, after, {"p"}, InputOf(req, []));
    assert Evaluate(rego, after, "p", InputOf(req, [])).Some?;
    assert answers.Some? && answers.value.Keys == {"p"};
  }

  lemma {:induction false} NoEntries(req: Request, subjects: seq<Subject>)
    ensures AclVerdict([], req, subjects) == None
  {
    if subjects != [] {
      NoEntries(req, subjects[1..]);
    }
  }

  // ---------- Shared keys ----------

  function RequestOf(f: Fields): Request {
    Request(f.userID, f.tenantID, f.resourceType, f.resourceID, f.action, map[])
  }

  /** A database in which one user may do one thing. */
  function OnlyGrant(f: Fields): Store {
    Store({f.tenantID}, map[(f.userID, f.tenantID) := []], map[], [],
      [AclEntry(f.tenantID, "user", f.userID, f.resourceType, f.resourceID, ActionToPermission(f.resourceType, f.action), "allow")],
      [])
  }

  lemma OnlyGrantRoles(f: Fields, userID: string, tenantID: string)
    ensures EffectiveRoles(OnlyGrant(f), userID, tenantID) ==
            if userID == f.userID && tenantID == f.tenantID then Some([]) else None
    ensures TeamsOf(OnlyGrant(f), userID, tenantID) == []
  {
    var s := OnlyGrant(f);
    assert MembershipsOf(s, userID) == [] && TeamsOf(s, userID, tenantID) == [];
    var none: seq<string> := [];
    assert none + TeamRoles([]) == none;
  }

  lemma OnlyGrantDecides(rego: Rego, f: Fields, g: Fields, v: Verdict)
    ensures var s := OnlyGrant(f);
            && LayerVerdict(s, RequestOf(f), []) == Some(AclResult("user", "allow"))
            && (g != f && MayDecide(rego, s, map[], RequestOf(g), v) ==> !v.allowed)
  {
    var s := OnlyGrant(f);
    OnlyGrantRoles(f, g.userID, g.tenantID);
    OnlyGrantRoles(f, f.userID, f.tenantID);
    hide TeamsOf;
    var none: seq<string> := [];
    var user := Subject("user", f.userID);
    assert Consulted(s, RequestOf(f), none) == [user] && [user][1..] == [];
    if g.userID == f.userID && g.tenantID == f.tenantID {
      assert Consulted(s, RequestOf(g), none) == [user];
      if g != f {
        PermissionDetermines(f.resourceType, f.action, g.action);
        assert !Matches(s.acls[0], RequestOf(g), user);
        assert s.acls[1..] == [] && Lookup(s.acls, RequestOf(g), user) == None;
        assert AclVerdict(s.acls, RequestOf(g), [user]) == None && LayerVerdict(s, RequestOf(g), none) == None;
        assert ActivePolicies(s, g.tenantID) == [];
      }
    }
  }

  lemma PermissionDetermines(resourceType: string, a: string, b: string)
    ensures ActionToPermission(resourceType, a) == ActionToPermission(resourceType, b) <==> a == b
  {
    assert a == ActionToPermission(resourceType, a)[|resourceType| + 1..];
    assert b == ActionToPermission(resourceType, b)[|resourceType| + 1..];
  }

  /** Two requests with one key: there is a run in which the grant for the one is returned for the other, though
      nothing was written, no time has passed and the tables do not allow it. */
  lemma AnswerForSharedKey(rego: Rego, ttl: int, f: Fields, g: Fields) returns (ms: seq<Moment>, es: seq<Event>)
    requires 0 < ttl && f != g && CacheKey(f) == CacheKey(g)
    ensures Run(rego, ttl, ms, es) && |es| == 2 && ms[1].now == ms[0].now
    ensures ms[1].system.store == ms[0].system.store == OnlyGrant(f)
    ensures es[0].Called? && es[1].Called? && FieldsOf(es[0].req) == f && FieldsOf(es[1].req) == g
    ensures es[1].r.Success? && es[1].r.value.allowed
    ensures forall v :: MayDecide(rego, ms[1].system.store, ms[1].system.prepared, es[1].req, v) ==> !v.allowed
  {
    var a, b, store, v := RequestOf(f), RequestOf(g), OnlyGrant(f), AclResult("user", "allow");
    var key := CacheKey(f);
    var s0 := System(store, map[], map[]);
    var s1 := System(store, map[], map[key := Entry(v, ttl)]);
    OnlyGrantRoles(f, f.userID, f.tenantID);
    OnlyGrantDecides(rego, f, g, v);
    forall w | MayDecide(rego, store, map[], b, w) ensures !w.allowed {
      OnlyGrantDecides(rego, f, g, w);
    }
    ms := [Moment(s0, 0), Moment(s1, 0), Moment(s1, 0)];
    es := [Called(a, Success(v)), Called(b, Success(v))];
    hide OnlyGrant, CacheKey;
    assert Checked(rego, ttl, s0, a, 0, Success(v), s1);
    assert Checked(rego, ttl, s1, b, 0, Success(v), s1);
    assert Step(rego, ttl, ms[0], es[0], ms[1]);
    assert Step(rego, ttl, ms[1], es[1], ms[2]);
  }

  /** There is such a run against every request with a colon in a field, so that the condition under which a request
      has its key to itself is the best possible. */
  lemma AnswerForAnotherRequest(rego: Rego, ttl: int, g: Fields) returns (ms: seq<Moment>, es: seq<Event>)
    requires 0 < ttl && !ColonFree(g)
    ensures Run(rego, ttl, ms, es) && |es| == 2 && ms[1].now == ms[0].now && ms[1].system.store == ms[0].system.store
    ensures es[0].Called? && es[1].Called? && FieldsOf(es[0].req) != FieldsOf(es[1].req) == g
    ensures es[1].r.Success? && es[1].r.value.allowed
    ensures forall v :: MayDecide(rego, ms[1].system.store, ms[1].system.prepared, es[1].req, v) ==> !v.allowed
  {
    var f := KeyCollision(g);
    ms, es := AnswerForSharedKey(rego, ttl, f, g);
  }

  /** Even across tenants: the grant of a user of one tenant answers a request that names another tenant, of which the
      user it names is no member, and for which the check without a cache is an error. */
  lemma AnswerForAnotherTenant(rego: Rego, ttl: int) returns (ms: seq<Moment>, es: seq<Event>)
    requires 0 < ttl
    ensures Run(rego, ttl, ms, es) && |es| == 2 && ms[1].now == ms[0].now && ms[1].system.store == ms[0].system.store
    ensures es[0].Called? && es[1].Called? && es[0].req.tenantID != es[1].req.tenantID
    ensures es[1].r.Success? && es[1].r.value.allowed
    ensures EffectiveRoles(ms[1].system.store, es[1].req.userID, es[1].req.tenantID).None?
  {
    var f, g := Fields("t", "u", "doc", "1:x", "read"), Fields("t:u", "doc", "1", "x", "read");
    assert CacheKey(f) == "authz:t:u:doc:1:x:read" == CacheKey(g);
    assert |g.tenantID| > |f.tenantID|;
    hide CacheKey;
    ms, es := AnswerForSharedKey(rego, ttl, f, g);
    OnlyGrantRoles(f, g.userID, g.tenantID);
  }

  // ---------- Staleness is real, and when it is not ----------

  /** The bound is tight: for every `ttl` and every age below it there is a run in which a grant is revoked right
      after it was cached and is still honoured at that age, though the tables no longer support it. */
  lemma RevokedGrantStillHonoured(rego: Rego, ttl: int, age: int) returns (ms: seq<Moment>, es: seq<Event>)
    requires 0 <= age < ttl
    ensures Run(rego, ttl, ms, es) && |es| == 3 && ms[2].now == ms[0].now + age
    ensures es[1].Wrote? && es[2].Called? && es[2].r.Success? && es[2].r.value.allowed
    ensures forall v :: MayDecide(rego, ms[2].system.store, ms[2].system.prepared, es[2].req, v) ==> !v.allowed
  {
    var req := Request("u", "t", "doc", "1", "read", map[]);
    var grant := AclEntry("t", "user", "u", "doc", "1", ActionToPermission("doc", "read"), "allow");
    var revoked := Store({"t"}, map[("u", "t") := []], map[], [], [], []);
    var granted := revoked.(acls := [grant]);
    var v := AclResult("user", "allow");
    var key := CacheKey(FieldsOf(req));
    var s0 := System(granted, map[], map[]);
    var s1 := s0.(entries := map[key := Entry(v, ttl)]);
    var s2 := s1.(store := revoked);
    ms := [Moment(s0, 0), Moment(s1, 0), Moment(s2, age), Moment(s2, age)];
    es := [Called(req, Success(v)), Wrote, Called(req, Success(v))];
    assert MembershipsOf(granted, "u") == [] && MembershipsOf(revoked, "u") == [];
    assert TeamsOf(granted, "u", "t") == [] && TeamsOf(revoked, "u", "t") == [];
    var none: seq<string> := [];
    assert none + TeamRoles([]) == none;
    assert EffectiveRoles(granted, "u", "t") == Some([]) && EffectiveRoles(revoked, "u", "t") == Some([]);
    assert Consulted(granted, req, []) == [Subject("user", "u")] && Consulted(revoked, req, []) == [Subject("user", "u")];
    assert [Subject("user", "u")][1..] == [];
    assert Matches(grant, req, Subject("user", "u"));
    assert LayerVerdict(granted, req, []) == Some(v);
    assert LayerVerdict(revoked, req, []) == None;
    assert Decided(rego, s0, req, Success(v), s1);
    assert Checked(rego, ttl, s0, req, 0, Success(v), s1);
    assert Step(rego, ttl, ms[0], es[0], ms[1]);
    assert Step(rego, ttl, ms[1], es[1], ms[2]);
    assert Step(rego, ttl, ms[2], es[2], ms[3]);
  }

  /** The fields asked for by the first `i` events. */
  function Asked(es: seq<Event>, i: nat): set<Fields>
    requires i <= |es|
  {
    set k | 0 <= k < i && IsCall(es[k]) :: FieldsOf(es[k].req)
  }

  /** Every entry is still a verdict the tables give for some request that was asked and has that key. */
  ghost predicate Coherent(rego: Rego, s: Store, entries: Entries, asked: set<Fields>) {
    forall k :: k in entries ==> exists req :: Explains(rego, s, asked, req, k, entries[k].verdict)
  }

  ghost predicate Explains(rego: Rego, s: Store, asked: set<Fields>, req: Request, key: string, v: Verdict) {
    FieldsOf(req) in asked && CacheKey(FieldsOf(req)) == key && MayDecide(rego, s, map[], req, v)
  }

  /** Invalidating the tenant on every write would remove the staleness: after a write confined to one tenant,
      followed by `InvalidateByTenant`, every entry that is left is again what the tables give. */
  lemma WriteThenInvalidateIsCoherent(rego: Rego, s: Store, t: Store, entries: Entries, tenantID: string, asked: set<Fields>)
    requires GlobFree(tenantID) && Coherent(rego, s, entries, asked)
    requires forall other :: other != tenantID ==> AgreeOn(s, t, other)
    ensures Coherent(rego, t, Without(entries, TenantPattern(tenantID)), asked)
  {
    forall k | k in Without(entries, TenantPattern(tenantID))
      ensures exists req :: Explains(rego, t, asked, req, k, entries[k].verdict)
    {
      var req :| Explains(rego, s, asked, req, k, entries[k].verdict);
      if req.tenantID == tenantID {
        TenantPatternHits(FieldsOf(req));
      }
      NonInterference(rego, s, t, map[], req, entries[k].verdict);
      assert Explains(rego, t, asked, req, k, entries[k].verdict);
    }
  }

  /** A fresh decision is explained by its own request, and so is the entry it may leave. */
  lemma DecisionIsCoherent(rego: Rego, before: System, req: Request, r: Result<Verdict, AuthzError>, after: System,
                           expires: int, asked: set<Fields>)
    requires Agreeing(rego, before) && Decided(rego, before, req, r, after)
    requires Coherent(rego, before.store, before.entries, asked)
    requires || after.entries == before.entries
             || (r.Success? && after.entries == before.entries[CacheKey(FieldsOf(req)) := Entry(r.value, expires)])
    ensures Coherent(rego, after.store, after.entries, asked + {FieldsOf(req)})
    ensures r.Success? ==> Explains(rego, before.store, asked + {FieldsOf(req)}, req, CacheKey(FieldsOf(req)), r.value)
  {
    var asked' := asked + {FieldsOf(req)};
    if r.Success? {
      PreparedIrrelevant(rego, before.store, before.prepared, req, r.value);
    }
    hide MayDecide, CacheKey, PreparedAfter;
    forall k | k in after.entries ensures exists q :: Explains(rego, after.store, asked', q, k, after.entries[k].verdict) {
      if k in before.entries && after.entries[k] == before.entries[k] {
        var q :| Explains(rego, before.store, asked, q, k, before.entries[k].verdict);
        assert Explains(rego, after.store, asked', q, k, after.entries[k].verdict);
      } else {
        assert Explains(rego, after.store, asked', req, k, after.entries[k].verdict);
      }
    }
  }

  lemma CheckIsCoherent(rego: Rego, ttl: int, m: Moment, e: Event, m': Moment, asked: set<Fields>)
    requires IsCall(e) && Step(rego, ttl, m, e, m') && Agreeing(rego, m.system)
    requires Coherent(rego, m.system.store, m.system.entries, asked)
    ensures Coherent(rego, m'.system.store, m'.system.entries, asked + {FieldsOf(e.req)})
    ensures e.r.Success? ==> exists same ::
              Explains(rego, m.system.store, asked + {FieldsOf(e.req)}, same, CacheKey(FieldsOf(e.req)), e.r.value)
  {
    var key, asked' := CacheKey(FieldsOf(e.req)), asked + {FieldsOf(e.req)};
    if e.Called? && Live(m.system.entries, key, m.now).Some? {
      MoreAsked(rego, m.system.store, m.system.entries, asked, asked');
    } else {
      DecisionIsCoherent(rego, m.system, e.req, e.r, m'.system, m.now + ttl, asked);
    }
  }

  lemma MoreAsked(rego: Rego, s: Store, entries: Entries, asked: set<Fields>, asked': set<Fields>)
    requires Coherent(rego, s, entries, asked) && asked <= asked'
    ensures Coherent(rego, s, entries, asked')
  {
    forall k | k in entries ensures exists req :: Explains(rego, s, asked', req, k, entries[k].verdict) {
      var req :| Explains(rego, s, asked, req, k, entries[k].verdict);
      assert Explains(rego, s, asked', req, k, entries[k].verdict);
    }
  }

  /** A run in which every write is confined to one tenant and the next event invalidates that tenant. */
  ghost predicate InvalidatingRun(rego: Rego, ttl: int, ms: seq<Moment>, es: seq<Event>) {
    && Run(rego, ttl, ms, es) && SourcesStay(ms, es)
    && forall i :: 0 <= i < |es| - 1 && es[i].Wrote? ==>
         es[i + 1].Evicted? && TenantInvalidated(ms[i].system, ms[i + 1].system, ms[i + 2].system)
  }

  ghost predicate TenantInvalidated(s: System, s': System, s'': System) {
    exists tenantID ::
      && GlobFree(tenantID)
      && (forall other :: other != tenantID ==> AgreeOn(s.store, s'.store, other))
      && s''.entries == Without(s'.entries, TenantPattern(tenantID))
  }

  lemma {:induction false} InvalidatingRunIsCoherent(rego: Rego, ttl: int, ms: seq<Moment>, es: seq<Event>, i: nat)
    requires InvalidatingRun(rego, ttl, ms, es) && i < |ms| && (i > 0 ==> !es[i - 1].Wrote?)
    ensures Coherent(rego, ms[i].system.store, ms[i].system.entries, Asked(es, i))
  {
    if i > 0 {
      var e := es[i - 1];
      assert Step(rego, ttl, ms[i - 1], e, ms[i]);
      if i > 1 && es[i - 2].Wrote? {
        AfterWrite(rego, ttl, ms, es, i);
        InvalidatingRunIsCoherent(rego, ttl, ms, es, i - 2);
        var s, s', s'' := ms[i - 2].system, ms[i - 1].system, ms[i].system;
        var tenantID :|
          && GlobFree(tenantID)
          && (forall other :: other != tenantID ==> AgreeOn(s.store, s'.store, other))
          && s''.entries == Without(s'.entries, TenantPattern(tenantID));
        WriteThenInvalidateIsCoherent(rego, s.store, s'.store, s.entries, tenantID, Asked(es, i - 2));
        MoreAsked(rego, s''.store, s''.entries, Asked(es, i - 2), Asked(es, i));
      } else {
        InvalidatingRunIsCoherent(rego, ttl, ms, es, i - 1);
        PreparedAlwaysAgree(rego, ttl, ms, es, i - 1);
        if e.Evicted? {
          MoreAsked(rego, ms[i].system.store, ms[i].system.entries, Asked(es, i - 1), Asked(es, i));
        } else {
          CheckIsCoherent(rego, ttl, ms[i - 1], e, ms[i], Asked(es, i - 1));
          MoreAsked(rego, ms[i].system.store, ms[i].system.entries, Asked(es, i - 1) + {FieldsOf(e.req)}, Asked(es, i));
        }
      }
    }
  }

  lemma EvictedAfterWrite(rego: Rego, ttl: int, ms: seq<Moment>, es: seq<Event>, i: nat)
    requires InvalidatingRun(rego, ttl, ms, es) && i + 1 < |es|
    ensures es[i].Wrote? ==> es[i + 1].Evicted?
  {
  }

  lemma AfterWrite(rego: Rego, ttl: int, ms: seq<Moment>, es: seq<Event>, i: nat)
    requires InvalidatingRun(rego, ttl, ms, es) && 2 <= i < |ms| && es[i - 2].Wrote?
    ensures Step(rego, ttl, ms[i - 2], es[i - 2], ms[i - 1]) && Step(rego, ttl, ms[i - 1], es[i - 1], ms[i])
    ensures es[i - 1].Evicted? && TenantInvalidated(ms[i - 2].system, ms[i - 1].system, ms[i].system)
    ensures i > 2 ==> !es[i - 3].Wrote?
  {
    assert es[i - 2].Wrote? && i - 2 < |es| - 1 && i - 2 + 2 == i;
    if i > 2 {
      EvictedAfterWrite(rego, ttl, ms, es, i - 3);
    }
  }

  lemma OwnKeyAmongAsked(es: seq<Event>, i: nat, g: Fields)
    requires i < |es| && IsCall(es[i]) && KeyIsOwn(es, i)
    requires g in Asked(es, i) + {FieldsOf(es[i].req)} && CacheKey(g) == CacheKey(FieldsOf(es[i].req))
    ensures g == FieldsOf(es[i].req)
  {
    KeyInjective(g, FieldsOf(es[i].req));
  }

  /** The design's rule, that every change immediately invalidates the entries it affects, is what would make answers
      current: in such a run each verdict is one the present tables give for the same tenant, user, resource and
      action. */
  lemma InvalidatingRunIsFresh(rego: Rego, ttl: int, ms: seq<Moment>, es: seq<Event>, i: nat)
    requires InvalidatingRun(rego, ttl, ms, es) && i < |es|
    requires IsCall(es[i]) && es[i].r.Success? && KeyIsOwn(es, i)
    ensures exists same: Request ::
              FieldsOf(same) == FieldsOf(es[i].req) && MayDecide(rego, ms[i].system.store, map[], same, es[i].r.value)
  {
    if i > 0 {
      EvictedAfterWrite(rego, ttl, ms, es, i - 1);
    }
    InvalidatingRunIsCoherent(rego, ttl, ms, es, i);
    PreparedAlwaysAgree(rego, ttl, ms, es, i);
    assert Step(rego, ttl, ms[i], es[i], ms[i + 1]);
    CheckIsCoherent(rego, ttl, ms[i], es[i], ms[i + 1], Asked(es, i));
    hide Run, InvalidatingRun, Coherent, Agreeing, Step, MayDecide, Asked, KeyIsOwn, CacheKey;
    var f := FieldsOf(es[i].req);
    var same :| Explains(rego, ms[i].system.store, Asked(es, i) + {f}, same, CacheKey(f), es[i].r.value);
    OwnKeyAmongAsked(es, i, FieldsOf(same));
  }
}
