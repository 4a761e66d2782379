/**
 One-time credentials among concurrent callers. The token endpoint finds an authorization code and then deletes it; the
 magic-link endpoint finds a link and then marks it as used. The two steps are separate statements, and the second
 does not look whether another caller has taken it in between.
 */
module CredentialRace {
  import opened AuthCodes
  import opened Directory
  import opened MagicLinks
  import opened Wrappers

  datatype Caller = Ready | Found | Succeeded | Refused

  /** One credential. `errorsIgnored`: a caller goes on when the write of its second step fails, as for codes. */
  datatype Credential = Credential(expiresAt: int, errorsIgnored: bool)

  datatype State = State(usable: bool, callers: seq<Caller>)

  /** `good`: the request passes the checks that follow the step. */
  datatype Move =
    | Find(i: nat, now: int, good: bool)
    | Spend(i: nat, works: bool, good: bool)
    | Sweep(now: int)                        // deletion of expired rows, on sight or by a job

  predicate Enabled(s: State, m: Move) {
    match m
    case Find(i, _, _) => i < |s.callers| && s.callers[i] == Ready
    case Spend(i, _, _) => i < |s.callers| && s.callers[i] == Found
    case Sweep(_) => true
  }

  function Next(c: Credential, s: State, m: Move): State
    requires Enabled(s, m)
  {
    match m
    case Find(i, now, good) =>
      s.(callers := s.callers[i := if s.usable && now <= c.expiresAt && good then Found else Refused])
    case Spend(i, works, good) =>
      State(s.usable && !works, s.callers[i := if (works || c.errorsIgnored) && good then Succeeded else Refused])
    case Sweep(now) => s.(usable := s.usable && now <= c.expiresAt)
  }

  ghost predicate Run(c: Credential, ss: seq<State>, ms: seq<Move>) {
    && |ss| == |ms| + 1
    && ss[0].usable && (forall i :: 0 <= i < |ss[0].callers| ==> ss[0].callers[i] == Ready)
    && forall n :: 0 <= n < |ms| ==> Enabled(ss[n], ms[n]) && ss[n + 1] == Next(c, ss[n], ms[n])
  }

  predicate HasSucceeded(s: State, i: nat) {
    i < |s.callers| && s.callers[i] == Succeeded
  }

  // ---------- The serial case ----------

  /** A token request for a stored code, alone, is a find and a spend. */
  lemma RedeemIsFindThenSpend(codes: Codes, clients: Clients, req: TokenRequest, now: int, works: bool, signing: Signing)
    requires req.code in codes && req.code != "" && ValidClient(clients, req.clientID, req.clientSecret)
    ensures var a := codes[req.code];
            var c, (codes', r) := Credential(a.expiresAt, true), Redeem(codes, clients, req, now, works, signing);
            var found := Next(c, State(true, [Ready]), Find(0, now, true));
            if found.callers[0] == Found then
              var end := Next(c, found, Spend(0, works, req.redirectURI == a.redirectURI && signing.tokensWork));
              (r.Success? <==> HasSucceeded(end, 0)) && (req.code in codes' <==> end.usable)
            else r.Failure?
  {
  }

  /** And so is the verification of an unused link. */
  lemma VerifiedIsFindThenSpend(links: Links, x: Context, h: string, tenantID: string, now: int)
    requires h in links && links[h].usedAt.None?
    ensures var m := links[h];
            var c, (links', r) := Credential(m.expiresAt, false), Verified(links, x, h, tenantID, now);
            var found := Next(c, State(true, [Ready]), Find(0, now, m.tenantID == tenantID));
            if found.callers[0] == Found then
              var good := m.userID in x.users && EffectiveRoles(x.store, m.userID, tenantID).Some? && x.signs;
              var end := Next(c, found, Spend(0, x.marks, good));
              (r.Success? <==> HasSucceeded(end, 0)) && (links'[h].usedAt.None? <==> end.usable)
            else r.Failure? && links' == links
  {
  }

  // ---------- Every interleaving ----------

  predicate Removes(c: Credential, m: Move) {
    (m.Spend? && m.works) || (m.Sweep? && m.now > c.expiresAt)
  }

  lemma {:induction false} UsableUntilRemoved(c: Credential, ss: seq<State>, ms: seq<Move>, n: nat)
    requires Run(c, ss, ms) && n < |ss|
    ensures ss[n].usable <==> forall l :: 0 <= l < n ==> !Removes(c, ms[l])
    ensures |ss[n].callers| == |ss[0].callers|
  {
    if n > 0 {
      UsableUntilRemoved(c, ss, ms, n - 1);
      assert ss[n] == Next(c, ss[n - 1], ms[n - 1]);
    }
  }

  /** Caller `i` finds the credential in move `m`, before anything has removed it, and spends it in move `n`. */
  ghost predicate Served(c: Credential, ms: seq<Move>, i: nat, m: int, n: int) {
    && 0 <= m < n < |ms|
    && ms[m].Find? && ms[m].i == i && ms[m].now <= c.expiresAt && ms[m].good
    && ms[n].Spend? && ms[n].i == i && (ms[n].works || c.errorsIgnored) && ms[n].good
    && forall l :: 0 <= l < m ==> !Removes(c, ms[l])
  }

  lemma {:induction false} FoundOrigin(c: Credential, ss: seq<State>, ms: seq<Move>, n: nat, i: nat) returns (m: nat)
    requires Run(c, ss, ms) && n < |ss| && i < |ss[n].callers| && ss[n].callers[i] == Found
    ensures m < n && ms[m].Find? && ms[m].i == i && ms[m].now <= c.expiresAt && ms[m].good
    ensures forall l :: 0 <= l < m ==> !Removes(c, ms[l])
  {
    assert ss[n] == Next(c, ss[n - 1], ms[n - 1]);
    if ss[n - 1].callers[i] == Found {
      m := FoundOrigin(c, ss, ms, n - 1, i);
    } else {
      m := n - 1;
      UsableUntilRemoved(c, ss, ms, m);
    }
  }

  lemma {:induction false} SuccessOrigin(c: Credential, ss: seq<State>, ms: seq<Move>, n: nat, i: nat) returns (m: nat, k: nat)
    requires Run(c, ss, ms) && n < |ss| && HasSucceeded(ss[n], i)
    ensures Served(c, ms, i, m, k)
  {
    assert ss[n] == Next(c, ss[n - 1], ms[n - 1]);
    if ss[n - 1].callers[i] == Succeeded {
      m, k := SuccessOrigin(c, ss, ms, n - 1, i);
    } else {
      k := n - 1;
      m := FoundOrigin(c, ss, ms, k, i);
    }
  }

  lemma {:induction false} SuccessStays(c: Credential, ss: seq<State>, ms: seq<Move>, k: nat, n: nat, i: nat)
    requires Run(c, ss, ms) && k <= n < |ss| && HasSucceeded(ss[k], i)
    ensures HasSucceeded(ss[n], i)
  {
    if k < n {
      SuccessStays(c, ss, ms, k, n - 1, i);
      assert ss[n] == Next(c, ss[n - 1], ms[n - 1]);
    }
  }

  /** In every interleaving a caller succeeds exactly if it found the credential before anything had removed it and then
      took its second step: what other callers do between its two steps does not matter. */
  lemma SucceedsIff(c: Credential, ss: seq<State>, ms: seq<Move>, i: nat)
    requires Run(c, ss, ms)
    ensures HasSucceeded(ss[|ms|], i) <==> exists m, n :: Served(c, ms, i, m, n)
  {
    if HasSucceeded(ss[|ms|], i) {
      var m, n := SuccessOrigin(c, ss, ms, |ms|, i);
    }
    if m, n :| Served(c, ms, i, m, n) {
      assert Enabled(ss[n], ms[n]) && ss[n + 1] == Next(c, ss[n], ms[n]);
      SuccessStays(c, ss, ms, n + 1, |ms|, i);
    }
  }

  /** Two callers succeed exactly if each is served; if their writes work, each has then found the credential before
      the other spent it. */
  lemma TwoSuccessesOverlap(c: Credential, ss: seq<State>, ms: seq<Move>, i: nat, j: nat)
    requires Run(c, ss, ms) && i != j && forall m :: m in ms && m.Spend? ==> m.works
    ensures HasSucceeded(ss[|ms|], i) && HasSucceeded(ss[|ms|], j) <==>
            exists m, n, p, q :: Served(c, ms, i, m, n) && Served(c, ms, j, p, q) && m < q && p < n
  {
    SucceedsIff(c, ss, ms, i);
    SucceedsIff(c, ss, ms, j);
    if HasSucceeded(ss[|ms|], i) && HasSucceeded(ss[|ms|], j) {
      var m, n :| Served(c, ms, i, m, n);
      var p, q :| Served(c, ms, j, p, q);
      assert ms[n] in ms && ms[q] in ms;
      assert Removes(c, ms[n]) && Removes(c, ms[q]);
    }
  }

  /** So if every find that succeeds is followed at once by the same caller's second step, and the writes work, at most
      one caller succeeds. */
  lemma AtMostOneSerial(c: Credential, ss: seq<State>, ms: seq<Move>, i: nat, j: nat)
    requires Run(c, ss, ms) && forall m :: m in ms && m.Spend? ==> m.works
    requires forall n :: 0 <= n < |ms| - 1 && ms[n].Find? && ss[n + 1].callers[ms[n].i] == Found ==>
               ms[n + 1].Spend? && ms[n + 1].i == ms[n].i
    requires HasSucceeded(ss[|ms|], i) && HasSucceeded(ss[|ms|], j)
    ensures i == j
  {
    if i != j {
      TwoSuccessesOverlap(c, ss, ms, i, j);
      var m, n, p, q :| Served(c, ms, i, m, n) && Served(c, ms, j, p, q) && m < q && p < n;
      SpendsNext(c, ss, ms, i, m, n);
      SpendsNext(c, ss, ms, j, p, q);
    }
  }

  lemma SpendsNext(c: Credential, ss: seq<State>, ms: seq<Move>, i: nat, m: nat, n: nat)
    requires Run(c, ss, ms) && Served(c, ms, i, m, n) && forall m :: m in ms && m.Spend? ==> m.works
    requires ms[m].Find? && ss[m + 1].callers[ms[m].i] == Found ==> ms[m + 1].Spend? && ms[m + 1].i == ms[m].i
    ensures Removes(c, ms[m + 1])
  {
    assert Enabled(ss[m], ms[m]) && ss[m + 1] == Next(c, ss[m], ms[m]);
    UsableUntilRemoved(c, ss, ms, m);
    assert ms[m + 1] in ms;
  }

  // ---------- Any number of successes ----------

  function AllFindMove(c: Credential, k: nat, n: nat): Move {
    if n < k then Find(n, c.expiresAt, true) else Spend(n - k, true, true)
  }

  function AllFindState(k: nat, n: nat): State {
    State(n <= k, seq(k, i => if n <= i then Ready else if n <= k + i then Found else Succeeded))
  }

  /** For any number of callers there is an interleaving in which all of them succeed with the one credential, though
      every write works: all find it first, and then each takes its second step. */
  lemma AnyNumberSucceed(c: Credential, k: nat) returns (ss: seq<State>, ms: seq<Move>)
    ensures Run(c, ss, ms) && forall m :: m in ms && m.Spend? ==> m.works
    ensures |ss[|ms|].callers| == k && forall i :: 0 <= i < k ==> HasSucceeded(ss[|ms|], i)
  {
    ms := seq(2 * k, n requires 0 <= n < 2 * k => AllFindMove(c, k, n));
    ss := seq(2 * k + 1, n requires 0 <= n < 2 * k + 1 => AllFindState(k, n));
    forall n | 0 <= n < |ms| ensures Enabled(ss[n], ms[n]) && ss[n + 1] == Next(c, ss[n], ms[n]) {
      assert ss[n + 1].callers == Next(c, ss[n], ms[n]).callers;
    }
  }
}
