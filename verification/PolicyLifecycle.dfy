/**
 Creating, activating, deactivating and deleting policies, interleaved with checks.
 Prepared queries never disagree with the stored sources. As long as no activation
 stops half way, at most one policy per tenant is active, so the order in which Go
 walks the map of policy answers cannot matter.
 */
module PolicyLifecycle {
  import opened Authorization
  import opened Decision
  import opened Directory
  import opened Sequences
  import opened Wrappers

  ghost predicate UniqueIDs(ps: seq<Policy>) {
    forall i, j :: 0 <= i < j < |ps| ==> ps[i].id != ps[j].id
  }

  ghost predicate AtMostOneActive(ps: seq<Policy>) {
    forall i, j :: 0 <= i < j < |ps| && ps[i].isActive && ps[j].isActive ==> ps[i].tenantID != ps[j].tenantID
  }

  ghost predicate OneActiveIn(ps: seq<Policy>, tenantID: string) {
    forall i, j :: 0 <= i < j < |ps| && ps[i].tenantID == tenantID == ps[j].tenantID ==> !(ps[i].isActive && ps[j].isActive)
  }

  // ---------- The operations as functions on the table ----------

  /** `reached` is the number of the tenant's rows an activation gets through before a write fails. */
  datatype PolicyOp =
    | CreateOp(id: string, tenantID: string, name: string, rego: string)
    | ActivateOp(tenantID: string, id: string, reached: nat)
    | DeactivateOp(id: string)
    | DeleteOp(id: string)

  /** `Update`: overwrite the row with the record's ID. Without `writesFalse` an update leaves a flag alone that the
      record has as false. */
  function UpdateRow(ps: seq<Policy>, p: Policy, writesFalse: bool): seq<Policy> {
    seq(|ps|, i requires 0 <= i < |ps| =>
      if ps[i].id == p.id then p.(isActive := p.isActive || (!writesFalse && ps[i].isActive)) else ps[i])
  }

  /** Rows with an ID in `done` are active exactly if they are the target, or a false flag is not written and they
      were active before; the others are untouched. */
  function Marked(ps: seq<Policy>, done: set<string>, target: Option<string>, writesFalse: bool): seq<Policy> {
    seq(|ps|, i requires 0 <= i < |ps| =>
      if ps[i].id in done
      then ps[i].(isActive := Some(ps[i].id) == target || (!writesFalse && ps[i].isActive)) else ps[i])
  }

  predicate HasID(ps: seq<Policy>, id: string) {
    exists p :: p in ps && p.id == id
  }

  /** The IDs of the tenant's rows an activation has got through. */
  function Handled(ps: seq<Policy>, tenantID: string, reached: nat): set<string> {
    var list := OfTenant(ps, tenantID);
    PolicyIDs(if reached <= |list| then list[..reached] else list)
  }

  function Apply(ps: seq<Policy>, op: PolicyOp, writesFalse: bool): seq<Policy> {
    match op
    case CreateOp(id, tenantID, name, rego) =>
      if HasID(ps, id) then ps else ps + [Policy(id, tenantID, name, rego, 1, false)]
    case ActivateOp(tenantID, id, reached) => Marked(ps, Handled(ps, tenantID, reached), Some(id), writesFalse)
    case DeactivateOp(id) => Marked(ps, {id}, None, writesFalse)
    case DeleteOp(id) => Filter(ps, (p: Policy) => p.id != id)
  }

  // ---------- The service ----------

  class PolicyService {
    const db: Database
    const writesFalse: bool

    constructor (db: Database, writesFalse: bool)
      ensures this.db == db && this.writesFalse == writesFalse
    {
      this.db, this.writesFalse := db, writesFalse;
    }

    /** The database chooses the ID and refuses a duplicate. */
    method Create(id: string, tenantID: string, name: string, rego: string) returns (ok: bool)
      modifies db
      ensures ok <==> !HasID(old(db.store.policies), id)
      ensures db.store == old(db.store).(policies :=
                Apply(old(db.store.policies), CreateOp(id, tenantID, name, rego), writesFalse))
    {
      if HasID(db.store.policies, id) {
        return false;
      }
      db.store := db.store.(policies := db.store.policies + [Policy(id, tenantID, name, rego, 1, false)]);
      return true;
    }

    /** The repository's `Update`. */
    method UpdateRecord(p: Policy) returns (ok: bool)
      modifies db
      ensures ok <==> HasID(old(db.store.policies), p.id)
      ensures db.store == old(db.store).(policies := UpdateRow(old(db.store.policies), p, writesFalse))
    {
      ok := HasID(db.store.policies, p.id);
      db.store := db.store.(policies := UpdateRow(db.store.policies, p, writesFalse));
    }

    /** Walk the tenant's policies, writing each one whose flag must change. The `budget`-th write, counting
        from zero, fails and ends the walk with an error, as an error from the database would. */
    method Activate(tenantID: string, policyID: string, budget: nat) returns (ok: bool, reached: nat)
      requires UniqueIDs(db.store.policies)
      modifies db
      ensures StopsAt(OfTenant(old(db.store.policies), tenantID), policyID, budget, ok, reached)
      ensures db.store == old(db.store).(policies :=
                Apply(old(db.store.policies), ActivateOp(tenantID, policyID, reached), writesFalse))
    {
      var list := OfTenant(db.store.policies, tenantID);
      ghost var ps := db.store.policies;
      var writes := 0;
      assert Marked(ps, PolicyIDs(list[..0]), Some(policyID), writesFalse) == ps && Changes(list[..0], policyID) == 0;
      hide Changes, StopsAt, Marked, UniqueIDs;
      for i := 0 to |list|
        invariant writes == Changes(list[..i], policyID) <= budget
        invariant db.store == old(db.store).(policies := Marked(ps, PolicyIDs(list[..i]), Some(policyID), writesFalse))
      {
        var p := list[i];
        assert p in ps;
        ChangesNext(list, i, policyID);
        if p.id == policyID || p.isActive {
          if writes == budget {
            Stops(list, policyID, budget, i);
            return false, i;
          }
          var _ := UpdateRecord(p.(isActive := p.id == policyID));
          writes := writes + 1;
        }
        MarkNext(ps, list, i, policyID, writesFalse);
      }
      Stops(list, policyID, budget, |list|);
      return true, |list|;
    }

    method Deactivate(policyID: string) returns (ok: bool)
      requires UniqueIDs(db.store.policies)
      modifies db
      ensures ok <==> HasID(old(db.store.policies), policyID)
      ensures db.store == old(db.store).(policies := Apply(old(db.store.policies), DeactivateOp(policyID), writesFalse))
    {
      var ps := db.store.policies;
      if !HasID(ps, policyID) {
        assert Marked(ps, {policyID}, None, writesFalse) == ps;
        return false;
      }
      var p :| p in ps && p.id == policyID;
      assert UpdateRow(ps, p.(isActive := false), writesFalse) == Marked(ps, {policyID}, None, writesFalse);
      ok := UpdateRecord(p.(isActive := false));
    }

    method Delete(policyID: string) returns (ok: bool)
      modifies db
      ensures ok <==> HasID(old(db.store.policies), policyID)
      ensures db.store == old(db.store).(policies := Apply(old(db.store.policies), DeleteOp(policyID), writesFalse))
    {
      ok := HasID(db.store.policies, policyID);
      db.store := db.store.(policies := Filter(db.store.policies, (p: Policy) => p.id != policyID));
    }
  }

  /** The number of rows an activation has to write. */
  function Changes(list: seq<Policy>, target: string): nat {
    if list == [] then 0
    else Changes(list[..|list| - 1], target) + if list[|list| - 1].id == target || list[|list| - 1].isActive then 1 else 0
  }

  lemma ChangesNext(list: seq<Policy>, i: nat, target: string)
    requires i < |list|
    ensures Changes(list[..i + 1], target) ==
            Changes(list[..i], target) + if list[i].id == target || list[i].isActive then 1 else 0
    ensures Changes(list[..i + 1], target) <= Changes(list, target)
  {
    assert list[..i + 1][..i] == list[..i];
    ChangesGrow(list, i + 1, target);
  }

  lemma {:induction false} ChangesGrow(list: seq<Policy>, i: nat, target: string)
    requires i <= |list|
    ensures Changes(list[..i], target) <= Changes(list, target)
  {
    if i == |list| {
      assert list[..i] == list;
    } else {
      ChangesGrow(list[..|list| - 1], i, target);
      assert list[..|list| - 1][..i] == list[..i];
    }
  }

  /** A walk with `budget` writes gets through the whole list, or else through the rows in front of the one whose write is
      one too many. */
  ghost predicate StopsAt(list: seq<Policy>, target: string, budget: nat, ok: bool, reached: nat) {
    && reached <= |list|
    && (ok <==> reached == |list|)
    && (ok <==> Changes(list, target) <= budget)
    && (!ok ==> Changes(list[..reached], target) == budget < Changes(list[..reached + 1], target))
  }

  lemma Stops(list: seq<Policy>, target: string, budget: nat, i: nat)
    requires i <= |list| && Changes(list[..i], target) <= budget
    requires i < |list| ==> Changes(list[..i], target) == budget && (list[i].id == target || list[i].isActive)
    ensures list[..|list|] == list && StopsAt(list, target, budget, i == |list|, i)
  {
    if i < |list| {
      ChangesNext(list, i, target);
    }
  }

  lemma MarkNext(ps: seq<Policy>, list: seq<Policy>, i: nat, target: string, writesFalse: bool)
    requires UniqueIDs(ps) && i < |list| && list[i] in ps
    ensures var now, p := Marked(ps, PolicyIDs(list[..i]), Some(target), writesFalse), list[i];
            var next := Marked(ps, PolicyIDs(list[..i + 1]), Some(target), writesFalse);
            && next == UpdateRow(now, p.(isActive := p.id == target), writesFalse)
            && (p.id != target && !p.isActive ==> next == now)
  {
    assert list[..i + 1] == list[..i] + [list[i]];
    assert PolicyIDs(list[..i + 1]) == PolicyIDs(list[..i]) + {list[i].id};
  }

  // ---------- What an activation leaves ----------

  /** Only rows of the tenant are handled. */
  lemma HandledRows(ps: seq<Policy>, tenantID: string, reached: nat, p: Policy)
    requires UniqueIDs(ps) && p in ps && p.id in Handled(ps, tenantID, reached)
    ensures p.tenantID == tenantID
  {
    var list := OfTenant(ps, tenantID);
    var q :| q in list && q.id == p.id;
    SameRow(ps, p, q);
  }

  /** The target is on, and so is another of the tenant's policies that has not been switched off: because the walk
      did not get to it, or because false flags are not written. */
  ghost predicate HalfSwitched(ps: seq<Policy>, tenantID: string, target: string, reached: nat, writesFalse: bool) {
    var done := Handled(ps, tenantID, reached);
    && target in done
    && exists p :: p in ps && p.tenantID == tenantID && p.isActive && p.id != target && (p.id !in done || !writesFalse)
  }

  lemma HalfSwitchedMeansTwo(ps: seq<Policy>, tenantID: string, target: string, reached: nat, writesFalse: bool)
    requires UniqueIDs(ps) && HalfSwitched(ps, tenantID, target, reached, writesFalse)
    ensures !AtMostOneActive(Apply(ps, ActivateOp(tenantID, target, reached), writesFalse))
  {
    var done := Handled(ps, tenantID, reached);
    var after := Apply(ps, ActivateOp(tenantID, target, reached), writesFalse);
    var q :| q in ps && q.tenantID == tenantID && q.isActive && q.id != target && (q.id !in done || !writesFalse);
    var p :| p in OfTenant(ps, tenantID) && p.id == target;
    assert p in ps;
    var i :| 0 <= i < |ps| && ps[i] == p;
    var j :| 0 <= j < |ps| && ps[j] == q;
    assert after[i].isActive && after[j].isActive && i != j;
  }

  /** An activation that stops after some of the tenant's rows, or none, or all, keeps at most one active policy
      exactly unless it leaves the tenant half switched. */
  lemma InterruptedActivation(ps: seq<Policy>, tenantID: string, target: string, reached: nat, writesFalse: bool)
    requires UniqueIDs(ps) && AtMostOneActive(ps)
    ensures AtMostOneActive(Apply(ps, ActivateOp(tenantID, target, reached), writesFalse)) <==>
            !HalfSwitched(ps, tenantID, target, reached, writesFalse)
  {
    var done := Handled(ps, tenantID, reached);
    var after := Apply(ps, ActivateOp(tenantID, target, reached), writesFalse);
    if HalfSwitched(ps, tenantID, target, reached, writesFalse) {
      HalfSwitchedMeansTwo(ps, tenantID, target, reached, writesFalse);
    } else if !AtMostOneActive(after) {
      var i, j :| 0 <= i < j < |ps| && after[i].isActive && after[j].isActive && after[i].tenantID == after[j].tenantID;
      assert ps[i] in ps && ps[j] in ps && ps[i].id != ps[j].id;
      hide Handled;
      if ps[i].id in done {
        HandledRows(ps, tenantID, reached, ps[i]);
      }
      if ps[j].id in done {
        HandledRows(ps, tenantID, reached, ps[j]);
      }
    }
  }

  /** A completed activation leaves at most one active policy in its tenant, whatever it found there. */
  lemma CompletedActivationRepairs(ps: seq<Policy>, tenantID: string, target: string, reached: nat)
    requires UniqueIDs(ps) && reached >= |OfTenant(ps, tenantID)|
    ensures var after := Apply(ps, ActivateOp(tenantID, target, reached), true);
            && OneActiveIn(after, tenantID)
            && forall other :: other != tenantID && OneActiveIn(ps, other) ==> OneActiveIn(after, other)
  {
    var list := OfTenant(ps, tenantID);
    assert Handled(ps, tenantID, reached) == PolicyIDs(list) by {
      assert reached == |list| ==> list[..reached] == list;
    }
    forall i | 0 <= i < |ps| ensures ps[i].tenantID == tenantID <==> ps[i].id in PolicyIDs(list) {
      assert ps[i] in ps;
      assert ps[i].tenantID == tenantID ==> ps[i] in list;
      if ps[i].id in PolicyIDs(list) {
        HandledRows(ps, tenantID, reached, ps[i]);
      }
    }
  }

  // ---------- What the operations do to the rows ----------

  /** A row after an operation, told from the row before it. */
  lemma RowsAfter(ps: seq<Policy>, id: string, tenantID: string, name: string, source: string, reached: nat, i: nat)
    requires UniqueIDs(ps) && i < |ps|
    ensures var off, on := Apply(ps, DeactivateOp(id), true), Apply(ps, ActivateOp(tenantID, id, reached), true);
            && |off| == |ps| == |on|
            && off[i] == (if ps[i].id == id then ps[i].(isActive := false) else ps[i])
            && (reached >= |OfTenant(ps, tenantID)| ==>
                  on[i] == if ps[i].tenantID == tenantID then ps[i].(isActive := ps[i].id == id) else ps[i])
    ensures (exists p :: p in ps && p.id == id) ==> Apply(ps, CreateOp(id, tenantID, name, source), true) == ps
    ensures (forall p :: p in ps ==> p.id != id) ==>
              Apply(ps, CreateOp(id, tenantID, name, source), true) == ps + [Policy(id, tenantID, name, source, 1, false)]
    ensures ps[i].id == id ==> Apply(ps, DeleteOp(id), true) == ps[..i] + ps[i + 1..]
  {
    var list := OfTenant(ps, tenantID);
    if reached >= |list| {
      assert Handled(ps, tenantID, reached) == PolicyIDs(list) by {
        assert reached == |list| ==> list[..reached] == list;
      }
      assert ps[i] in ps;
      assert ps[i].tenantID == tenantID ==> ps[i] in list;
      if ps[i].id in PolicyIDs(list) {
        HandledRows(ps, tenantID, reached, ps[i]);
      }
    }
    if ps[i].id == id {
      DeleteAt(ps, i, id);
    }
  }

  lemma {:induction false} DeleteAt(ps: seq<Policy>, i: nat, id: string)
    requires UniqueIDs(ps) && i < |ps| && ps[i].id == id
    ensures Filter(ps, (p: Policy) => p.id != id) == ps[..i] + ps[i + 1..]
  {
    var rest := ps[1..];
    assert UniqueIDs(rest) && (i > 0 ==> rest[i - 1].id == id && ps[0].id != id);
    assert i == 0 ==> forall p :: p in rest ==> p.id != id;
    hide UniqueIDs;
    if i == 0 {
      FilterAll(rest, (p: Policy) => p.id != id);
    } else {
      assert ps[..i] == [ps[0]] + rest[..i - 1] && ps[i + 1..] == rest[i..];
      DeleteAt(rest, i - 1, id);
    }
  }

  lemma ReasonNamesPolicy(a: string, b: string)
    requires "granted by policy " + a == "granted by policy " + b
    ensures a == b
  {
    assert a == ("granted by policy " + a)[18..] && b == ("granted by policy " + b)[18..];
  }

  lemma GrantingPolicy(rego: Rego, s: Store, prepared: Prepared, req: Request, v: Verdict) returns (p: Policy)
    requires MayDecide(rego, s, prepared, req, v) && v.allowed && v.matchedBy == "abac"
    ensures p in s.policies && p.isActive && v.reason == "granted by policy " + p.id
  {
    AllowHasAGrant(rego, s, prepared, req, v);
    hide MayDecide, Evaluate, PreparedAfter, Grants, IsConsulted, EffectiveRoles;
    p :| p in s.policies && p.tenantID == req.tenantID && p.isActive && v == PolicyResult(p.id, true);
  }

  lemma StillActive(ps: seq<Policy>, op: PolicyOp, p: Policy)
    requires (op.DeactivateOp? || op.DeleteOp?) && p in Apply(ps, op, true) && p.isActive
    ensures p.id != op.id
  {
    if op.DeactivateOp? {
      var i :| 0 <= i < |ps| && Apply(ps, op, true)[i] == p;
    }
  }

  /** A policy that has been deleted, or switched off with the flag written, grants nothing any more. */
  lemma SwitchedOffGrantsNothing(rego: Rego, s: Store, prepared: Prepared, op: PolicyOp, req: Request, v: Verdict)
    requires op.DeactivateOp? || op.DeleteOp?
    requires MayDecide(rego, s.(policies := Apply(s.policies, op, true)), prepared, req, v)
    ensures v.allowed && v.matchedBy == "abac" ==> v.reason != "granted by policy " + op.id
  {
    hide Apply, MayDecide, Evaluate, PreparedAfter, Grants, IsConsulted, EffectiveRoles;
    var s' := s.(policies := Apply(s.policies, op, true));
    if v.allowed && v.matchedBy == "abac" {
      var p := GrantingPolicy(rego, s', prepared, req, v);
      StillActive(s.policies, op, p);
      if v.reason == "granted by policy " + op.id {
        ReasonNamesPolicy(p.id, op.id);
      }
    }
  }

  // ---------- Runs ----------

  /** `used` are the IDs policies have ever had. */
  datatype PolicyState = PolicyState(store: Store, prepared: Prepared, used: set<string>)

  datatype PolicyEvent = Admin(op: PolicyOp) | CheckedNow(req: Request, r: Result<Verdict, AuthzError>)

  /** A new policy's ID has never been used. */
  ghost predicate Step(rego: Rego, writesFalse: bool, s: PolicyState, e: PolicyEvent, s': PolicyState) {
    match e
    case Admin(op) =>
      && (op.CreateOp? ==> op.id !in s.used)
      && s'.store == s.store.(policies := Apply(s.store.policies, op, writesFalse))
      && s'.prepared == s.prepared
      && s'.used == if op.CreateOp? then s.used + {op.id} else s.used
    case CheckedNow(req, r) =>
      && Decided(rego, System(s.store, s.prepared, map[]), req, r, System(s'.store, s'.prepared, map[]))
      && s'.used == s.used
  }

  ghost predicate Run(rego: Rego, writesFalse: bool, states: seq<PolicyState>, events: seq<PolicyEvent>) {
    && |states| == |events| + 1
    && states[0].prepared == map[]
    && states[0].used == PolicyIDs(states[0].store.policies)
    && UniqueIDs(states[0].store.policies)
    && (forall p :: p in states[0].store.policies ==> !p.isActive)
    && forall i :: 0 <= i < |events| ==> Step(rego, writesFalse, states[i], events[i], states[i + 1])
  }

  ghost predicate LeavesHalfSwitched(s: PolicyState, e: PolicyEvent, writesFalse: bool) {
    e.Admin? && e.op.ActivateOp? && HalfSwitched(s.store.policies, e.op.tenantID, e.op.id, e.op.reached, writesFalse)
  }

  ghost predicate PreparedAgrees(rego: Rego, ps: seq<Policy>, prepared: Prepared) {
    forall p :: p in ps && p.id in prepared ==> prepared[p.id] == p.rego && rego.compiles(p.rego)
  }

  /** What every run keeps, however its activations end. */
  ghost predicate Kept(rego: Rego, s: PolicyState) {
    && UniqueIDs(s.store.policies) && PreparedAgrees(rego, s.store.policies, s.prepared)
    && PolicyIDs(s.store.policies) <= s.used && s.prepared.Keys <= s.used
  }

  lemma {:induction false} FilterKeepsOrder(ps: seq<Policy>, keep: Policy -> bool)
    requires UniqueIDs(ps)
    ensures UniqueIDs(Filter(ps, keep))
    ensures AtMostOneActive(ps) ==> AtMostOneActive(Filter(ps, keep))
  {
    if ps != [] {
      var rest := ps[1..];
      assert forall i :: 0 <= i < |rest| ==> rest[i] == ps[i + 1];
      FilterKeepsOrder(rest, keep);
      var kept := Filter(rest, keep);
      forall i | 0 <= i < |kept| ensures kept[i].id != ps[0].id
        && (AtMostOneActive(ps) && ps[0].isActive && kept[i].isActive ==> kept[i].tenantID != ps[0].tenantID)
      {
        assert kept[i] in rest;
      }
    }
  }

  /** No operation but a creation brings in a row whose ID and source were not there before. */
  lemma ApplyKeepsSources(ps: seq<Policy>, op: PolicyOp, writesFalse: bool, p: Policy)
    requires p in Apply(ps, op, writesFalse)
    ensures || (op.CreateOp? && p == Policy(op.id, op.tenantID, op.name, op.rego, 1, false) && !HasID(ps, op.id))
            || exists q :: q in ps && q.id == p.id && q.rego == p.rego && q.tenantID == p.tenantID
  {
    if op.ActivateOp? || op.DeactivateOp? {
      var i :| 0 <= i < |ps| && Apply(ps, op, writesFalse)[i] == p;
      assert ps[i] in ps;
    }
  }

  lemma ApplyKeepsUnique(ps: seq<Policy>, op: PolicyOp, writesFalse: bool)
    requires UniqueIDs(ps)
    ensures UniqueIDs(Apply(ps, op, writesFalse))
    ensures AtMostOneActive(ps) && !op.ActivateOp? ==> AtMostOneActive(Apply(ps, op, writesFalse))
  {
    match op {
      case CreateOp(id, tenantID, name, source) =>
        assert forall i :: 0 <= i < |ps| ==> ps[i] in ps;
      case ActivateOp(tenantID, id, reached) =>
      case DeactivateOp(id) =>
      case DeleteOp(id) =>
        FilterKeepsOrder(ps, (p: Policy) => p.id != id);
    }
  }

  lemma StepKeeps(rego: Rego, writesFalse: bool, s: PolicyState, e: PolicyEvent, s': PolicyState)
    requires Kept(rego, s) && Step(rego, writesFalse, s, e, s')
    ensures Kept(rego, s')
    ensures AtMostOneActive(s.store.policies) ==>
              (AtMostOneActive(s'.store.policies) <==> !LeavesHalfSwitched(s, e, writesFalse))
  {
    match e {
      case Admin(op) =>
        var ps := s.store.policies;
        ApplyKeepsUnique(ps, op, writesFalse);
        if op.ActivateOp? && AtMostOneActive(ps) {
          InterruptedActivation(ps, op.tenantID, op.id, op.reached, writesFalse);
        }
        forall p | p in s'.store.policies
          ensures p.id in s'.used && (p.id in s.prepared ==> s.prepared[p.id] == p.rego && rego.compiles(p.rego))
        {
          ApplyKeepsSources(ps, op, writesFalse, p);
        }
      case CheckedNow(req, r) =>
        PrepareMeaning(rego, s.store.policies, s.prepared, ActivePolicies(s.store, req.tenantID));
        PreparedKeys(rego, s.prepared, ActivePolicies(s.store, req.tenantID));
    }
  }

  lemma SameRow(ps: seq<Policy>, p: Policy, q: Policy)
    requires UniqueIDs(ps) && p in ps && q in ps && p.id == q.id
    ensures p == q
  {
    var i :| 0 <= i < |ps| && ps[i] == p;
    var j :| 0 <= j < |ps| && ps[j] == q;
    assert i == j;
  }

  /** After preparation every listed policy that compiles is prepared from its stored source, and no other is. */
  lemma {:induction false} PrepareMeaning(rego: Rego, ps: seq<Policy>, prepared: Prepared, some: seq<Policy>)
    requires UniqueIDs(ps) && PreparedAgrees(rego, ps, prepared)
    requires forall p :: p in some ==> p in ps
    ensures var after := Prepare(rego, prepared, some);
            && PreparedAgrees(rego, ps, after)
            && prepared.Keys <= after.Keys
            && forall p :: p in some ==> (p.id in after <==> rego.compiles(p.rego))
    decreases |some|
  {
    if some != [] {
      var p := some[0];
      assert p in some;
      var next := if p.id !in prepared && rego.compiles(p.rego) then prepared[p.id := p.rego] else prepared;
      forall q | q in ps && q.id in next ensures next[q.id] == q.rego && rego.compiles(q.rego) {
        if q.id == p.id {
          SameRow(ps, p, q);
        }
      }
      assert forall q :: q in some[1..] ==> q in some;
      PrepareMeaning(rego, ps, next, some[1..]);
      var after := Prepare(rego, next, some[1..]);
      assert p.id in after <==> rego.compiles(p.rego) by {
        if p.id in after {
          assert after[p.id] == p.rego;
        }
      }
    }
  }

  /** Preparation adds listed policies only, and leaves alone what has been prepared before. */
  lemma {:induction false} PreparedKeys(rego: Rego, prepared: Prepared, some: seq<Policy>)
    ensures Prepare(rego, prepared, some).Keys <= prepared.Keys + PolicyIDs(some)
    ensures forall id :: id in prepared ==>
              id in Prepare(rego, prepared, some) && Prepare(rego, prepared, some)[id] == prepared[id]
    decreases |some|
  {
    if some != [] {
      var p := some[0];
      assert p in some && p.id in PolicyIDs(some);
      assert forall q :: q in some[1..] ==> q in some;
      assert PolicyIDs(some[1..]) <= PolicyIDs(some);
      PreparedKeys(rego, if p.id !in prepared && rego.compiles(p.rego) then prepared[p.id := p.rego] else prepared, some[1..]);
    }
  }

  /** What earlier checks prepared does not influence a verdict. */
  lemma PreparedIrrelevant(rego: Rego, s: Store, prepared: Prepared, req: Request, v: Verdict)
    requires UniqueIDs(s.policies) && PreparedAgrees(rego, s.policies, prepared)
    ensures MayDecide(rego, s, prepared, req, v) <==> MayDecide(rego, s, map[], req, v)
  {
    var active := ActivePolicies(s, req.tenantID);
    PrepareMeaning(rego, s.policies, prepared, active);
    PrepareMeaning(rego, s.policies, map[], active);
    var a, b := Prepare(rego, prepared, active), Prepare(rego, map[], active);
    if EffectiveRoles(s, req.userID, req.tenantID).Some? {
      var input := InputOf(req, EffectiveRoles(s, req.userID, req.tenantID).value);
      forall id | id in PolicyIDs(active) ensures Evaluate(rego, a, id, input) == Evaluate(rego, b, id, input) {
        var p :| p in active && p.id == id;
        assert p in s.policies;
      }
      SameAnswers(rego, a, b, PolicyIDs(active), input);
    }
  }

  lemma SameAnswers(rego: Rego, a: Prepared, b: Prepared, ids: set<string>, input: PolicyInput)
    requires forall id :: id in ids ==> Evaluate(rego, a, id, input) == Evaluate(rego, b, id, input)
    ensures EvaluateAll(rego, a, ids, input) == EvaluateAll(rego, b, ids, input)
  {
    if forall id :: id in ids ==> Evaluate(rego, a, id, input).Some? {
      assert EvaluateAll(rego, a, ids, input).value == EvaluateAll(rego, b, ids, input).value;
    }
  }

  /** With one active policy there is one possible verdict, whatever order the answers are walked in. */
  lemma VerdictUnique(rego: Rego, s: Store, prepared: Prepared, req: Request, v: Verdict, w: Verdict)
    requires AtMostOneActive(s.policies)
    requires MayDecide(rego, s, prepared, req, v) && MayDecide(rego, s, prepared, req, w)
    ensures v == w
  {
    var active := ActivePolicies(s, req.tenantID);
    forall id, id' | id in PolicyIDs(active) && id' in PolicyIDs(active) ensures id == id' {
      var p :| p in active && p.id == id;
      var q :| q in active && q.id == id';
      assert p in s.policies && q in s.policies;
    }
  }

  /** Policies leave no choice: there is none, one of their evaluations fails, or all answer alike. */
  ghost predicate PoliciesAgree(rego: Rego, prepared: Prepared, active: seq<Policy>, input: PolicyInput) {
    var after := Prepare(rego, prepared, active);
    || active == []
    || (exists p :: p in active && Evaluate(rego, after, p.id, input).None?)
    || forall p, q :: p in active && q in active ==> Evaluate(rego, after, p.id, input) == Evaluate(rego, after, q.id, input)
  }

  lemma PolicyOutcomeUniqueIff(rego: Rego, prepared: Prepared, active: seq<Policy>, input: PolicyInput)
    ensures (forall v, w :: AbacMay(rego, prepared, active, input, v) && AbacMay(rego, prepared, active, input, w) ==>
               v.allowed == w.allowed) <==>
            PoliciesAgree(rego, prepared, active, input)
  {
    var after := Prepare(rego, prepared, active);
    hide Prepare, Evaluate;
    assert forall p :: p in active ==> p.id in PolicyIDs(active);
    var answers := EvaluateAll(rego, after, PolicyIDs(active), input);
    if active != [] && answers.Some? {
      forall p | p in active
        ensures AbacMay(rego, prepared, active, input, PolicyResult(p.id, answers.value[p.id]))
        ensures Evaluate(rego, after, p.id, input) == Some(answers.value[p.id])
        ensures PolicyResult(p.id, answers.value[p.id]).allowed == answers.value[p.id]
      {
      }
      if PoliciesAgree(rego, prepared, active, input) {
        forall v, w | AbacMay(rego, prepared, active, input, v) && AbacMay(rego, prepared, active, input, w)
          ensures v.allowed == w.allowed
        {
          var i :| i in answers.value && v == PolicyResult(i, answers.value[i]);
          var j :| j in answers.value && w == PolicyResult(j, answers.value[j]);
          var p :| p in active && p.id == i;
          var q :| q in active && q.id == j;
        }
      }
    }
  }

  /** However many policies are active, a check has one possible outcome exactly if the user is no member, a role or an
      ACL entry decides, or the policies leave no choice. */
  lemma OutcomeUniqueIff(rego: Rego, s: Store, prepared: Prepared, req: Request)
    ensures (forall v, w :: MayDecide(rego, s, prepared, req, v) && MayDecide(rego, s, prepared, req, w) ==>
               v.allowed == w.allowed) <==>
            match EffectiveRoles(s, req.userID, req.tenantID)
            case None => true
            case Some(roles) =>
              || LayerVerdict(s, req, roles).Some?
              || PoliciesAgree(rego, prepared, ActivePolicies(s, req.tenantID), InputOf(req, roles))
  {
    hide AbacMay, PoliciesAgree, LayerVerdict, ActivePolicies;
    if EffectiveRoles(s, req.userID, req.tenantID).Some? {
      var roles := EffectiveRoles(s, req.userID, req.tenantID).value;
      PolicyOutcomeUniqueIff(rego, prepared, ActivePolicies(s, req.tenantID), InputOf(req, roles));
      if LayerVerdict(s, req, roles).None? {
        assert forall v :: MayDecide(rego, s, prepared, req, v) <==>
          AbacMay(rego, prepared, ActivePolicies(s, req.tenantID), InputOf(req, roles), v);
      }
    }
  }

  lemma {:induction false} RunKeeps(rego: Rego, writesFalse: bool, states: seq<PolicyState>, events: seq<PolicyEvent>, i: nat)
    requires Run(rego, writesFalse, states, events) && i < |states|
    ensures Kept(rego, states[i])
  {
    if i > 0 {
      RunKeeps(rego, writesFalse, states, events, i - 1);
      StepKeeps(rego, writesFalse, states[i - 1], events[i - 1], states[i]);
    }
  }

  /** In every run of administration and checks, at most one policy per tenant is active as long as no activation
      has stopped half way; the first that does breaks it. */
  lemma {:induction false} RunSound(rego: Rego, writesFalse: bool, states: seq<PolicyState>, events: seq<PolicyEvent>, i: nat)
    requires Run(rego, writesFalse, states, events) && i < |states|
    requires forall k :: 0 <= k < i - 1 ==> !LeavesHalfSwitched(states[k], events[k], writesFalse)
    ensures AtMostOneActive(states[i].store.policies) <==>
            (i > 0 ==> !LeavesHalfSwitched(states[i - 1], events[i - 1], writesFalse))
  {
    if i == 0 {
      var ps := states[0].store.policies;
      assert forall k :: 0 <= k < |ps| ==> ps[k] in ps;
    } else {
      RunSound(rego, writesFalse, states, events, i - 1);
      RunKeeps(rego, writesFalse, states, events, i - 1);
      StepKeeps(rego, writesFalse, states[i - 1], events[i - 1], states[i]);
    }
  }

  /** While at most one policy per tenant is active, each check of a run returns the one verdict that freshly
      compiling the stored policies gives. */
  lemma DeterministicChecks(rego: Rego, writesFalse: bool, states: seq<PolicyState>, events: seq<PolicyEvent>, i: nat, v: Verdict)
    requires Run(rego, writesFalse, states, events) && i < |events|
    requires forall k :: 0 <= k < i ==> !LeavesHalfSwitched(states[k], events[k], writesFalse)
    requires events[i].CheckedNow? && events[i].r.Success?
    ensures MayDecide(rego, states[i].store, map[], events[i].req, v) <==> v == events[i].r.value
  {
    var s, req := states[i], events[i].req;
    assert Step(rego, writesFalse, s, events[i], states[i + 1]);
    RunKeeps(rego, writesFalse, states, events, i);
    RunSound(rego, writesFalse, states, events, i);
    PreparedIrrelevant(rego, s.store, s.prepared, req, events[i].r.value);
    PreparedIrrelevant(rego, s.store, s.prepared, req, v);
    if MayDecide(rego, s.store, map[], req, v) {
      VerdictUnique(rego, s.store, s.prepared, req, v, events[i].r.value);
    }
  }

  // ---------- If false flags are not written ----------

  ghost function NewlyOn(s: PolicyState, e: PolicyEvent): set<string> {
    if e.Admin? && e.op.ActivateOp? && e.op.id in Handled(s.store.policies, e.op.tenantID, e.op.reached) then {e.op.id} else {}
  }

  /** The policies the first `i` events of a run have switched on. */
  ghost function SwitchedOn(states: seq<PolicyState>, events: seq<PolicyEvent>, i: nat): set<string>
    requires i <= |events| && |states| == |events| + 1
  {
    if i == 0 then {} else SwitchedOn(states, events, i - 1) + NewlyOn(states[i - 1], events[i - 1])
  }

  lemma ApplyWithoutFalse(ps: seq<Policy>, op: PolicyOp, on: set<string>)
    requires forall p :: p in ps ==> (p.isActive <==> p.id in on)
    requires op.CreateOp? ==> op.id !in on
    ensures var on' := if op.ActivateOp? && op.id in Handled(ps, op.tenantID, op.reached) then on + {op.id} else on;
            forall p :: p in Apply(ps, op, false) ==> (p.isActive <==> p.id in on')
  {
    if op.ActivateOp? || op.DeactivateOp? {
      forall p | p in Apply(ps, op, false)
        ensures p.isActive <==> p.id in on || (op.ActivateOp? && p.id == op.id && op.id in Handled(ps, op.tenantID, op.reached))
      {
        var i :| 0 <= i < |ps| && Apply(ps, op, false)[i] == p;
        assert ps[i] in ps;
      }
    }
  }

  lemma StepWithoutFalse(rego: Rego, s: PolicyState, e: PolicyEvent, s': PolicyState, on: set<string>)
    requires Step(rego, false, s, e, s') && on <= s.used && PolicyIDs(s.store.policies) <= s.used
    requires forall p :: p in s.store.policies ==> (p.isActive <==> p.id in on)
    ensures on + NewlyOn(s, e) <= s'.used
    ensures forall p :: p in s'.store.policies ==> (p.isActive <==> p.id in on + NewlyOn(s, e))
  {
    hide MayDecide, PreparedAfter, Apply, HasID;
    if e.Admin? {
      ApplyWithoutFalse(s.store.policies, e.op, on);
      if NewlyOn(s, e) != {} {
        var p :| p in OfTenant(s.store.policies, e.op.tenantID) && p.id == e.op.id;
        assert p in s.store.policies;
      }
    }
  }

  /** Then nothing ever switches a policy off: a policy is active exactly if it was switched on at some time. */
  lemma {:induction false} ActiveMeansSwitchedOn(rego: Rego, states: seq<PolicyState>, events: seq<PolicyEvent>, i: nat)
    requires Run(rego, false, states, events) && i < |states|
    ensures SwitchedOn(states, events, i) <= states[i].used
    ensures forall p :: p in states[i].store.policies ==> (p.isActive <==> p.id in SwitchedOn(states, events, i))
  {
    if i > 0 {
      ActiveMeansSwitchedOn(rego, states, events, i - 1);
      RunKeeps(rego, false, states, events, i - 1);
      assert PolicyIDs(states[i - 1].store.policies) <= states[i - 1].used;
      assert Step(rego, false, states[i - 1], events[i - 1], states[i]);
      hide Step, Kept, PolicyIDs, NewlyOn;
      StepWithoutFalse(rego, states[i - 1], events[i - 1], states[i], SwitchedOn(states, events, i - 1));
    }
  }

  /** So at most one policy per tenant is active exactly if no two live policies of a tenant were both switched on. */
  lemma OneActiveWithoutFalseIff(rego: Rego, states: seq<PolicyState>, events: seq<PolicyEvent>, i: nat)
    requires Run(rego, false, states, events) && i < |states|
    ensures var ps, on := states[i].store.policies, SwitchedOn(states, events, i);
            AtMostOneActive(ps) <==>
            forall p, q :: p in ps && q in ps && p.tenantID == q.tenantID && p.id in on && q.id in on ==> p == q
  {
    ActiveMeansSwitchedOn(rego, states, events, i);
    RunKeeps(rego, false, states, events, i);
    var ps, on := states[i].store.policies, SwitchedOn(states, events, i);
    assert forall k :: 0 <= k < |ps| ==> ps[k] in ps;
    if AtMostOneActive(ps) {
      forall p, q | p in ps && q in ps && p.tenantID == q.tenantID && p.id in on && q.id in on ensures p == q {
        var k :| 0 <= k < |ps| && ps[k] == p;
        var l :| 0 <= l < |ps| && ps[l] == q;
      }
    }
  }
}
