/**
 Signup risk scoring behind the rate limiter. The scorer's velocity signal fires at five
 creations per address and hour; whether it can ever fire depends on what the limiter in
 front of it lets through.
 */
module SignupRisk {
  import opened Clock
  import opened RateLimit
  import opened Sequences
  import opened Text
  import opened Wrappers

  datatype Signal = DisposableEmail | VPNProxyTor | VelocityAnomaly

  datatype Assessment = Assessment(flags: seq<Signal>, score: int, requiresReview: bool)

  const DISPOSABLE_DOMAINS: set<string> := {
    "mailinator.com", "tempmail.com", "guerrillamail.com", "10minutemail.com", "throwawaymail.com",
    "fakeinbox.com", "trashmail.com", "maildrop.cc", "getnada.com", "dispostable.com", "yopmail.com",
    "temp-mail.org", "sharklasers.com", "grr.la", "spamgourmet.com", "mintemail.com", "spam4.me",
    "bccto.me", "chacuo.net", "0clickemail.com"}

  const REVIEW_THRESHOLD := 50
  const VELOCITY_LIMIT := 5

  function Lower(s: string): string {
    seq(|s|, i requires 0 <= i < |s| => if 'A' <= s[i] <= 'Z' then (s[i] as int + 32) as char else s[i])
  }

  function ExtractDomain(email: string): string {
    var parts := Split(email, '@');
    if |parts| == 2 then Lower(parts[1]) else ""
  }

  function Weight(s: Signal): int {
    match s
    case DisposableEmail => 40
    case VPNProxyTor => 35
    case VelocityAnomaly => 25
  }

  function Score(flags: seq<Signal>): int {
    if flags == [] then 0 else Weight(flags[0]) + Score(flags[1..])
  }

  /** The signals that hold, in the order in which they are looked for. */
  function Signals(email: string, badAddress: bool, recentCreations: int): seq<Signal> {
    (if ExtractDomain(email) in DISPOSABLE_DOMAINS then [DisposableEmail] else [])
    + (if badAddress then [VPNProxyTor] else [])
    + (if recentCreations >= VELOCITY_LIMIT then [VelocityAnomaly] else [])
  }

  class RiskScorer {
    var ipReputation: map<string, int>
    var tenantVelocity: Requests

    constructor ()
      ensures ipReputation == map[] && tenantVelocity == map[]
    {
      ipReputation, tenantVelocity := map[], map[];
    }

    method AssessSignup(email: string, ip: string, now: int) returns (a: Assessment)
      ensures a.flags == Signals(email, ip in ipReputation && ipReputation[ip] < 0,
                |Recent(ListOf(tenantVelocity, ip), now - HOUR)|)
      ensures a.score == Score(a.flags) && (a.requiresReview <==> a.score >= REVIEW_THRESHOLD)
    {
      var flags, score := [], 0;
      if ExtractDomain(email) in DISPOSABLE_DOMAINS {
        flags, score := flags + [DisposableEmail], score + 40;
      }
      if ip in ipReputation && ipReputation[ip] < 0 {
        ScoreSnoc(flags, VPNProxyTor);
        flags, score := flags + [VPNProxyTor], score + 35;
      }
      var recent: seq<int> := [];
      var ts := ListOf(tenantVelocity, ip);
      for i := 0 to |ts|
        invariant recent == Recent(ts[..i], now - HOUR)
      {
        assert ts[..i + 1] == ts[..i] + [ts[i]];
        RecentSnoc(ts[..i], ts[i], now - HOUR);
        if ts[i] > now - HOUR {
          recent := recent + [ts[i]];
        }
      }
      assert ts[..|ts|] == ts;
      if |recent| >= VELOCITY_LIMIT {
        ScoreSnoc(flags, VelocityAnomaly);
        flags, score := flags + [VelocityAnomaly], score + 25;
      }
      return Assessment(flags, score, score >= REVIEW_THRESHOLD);
    }

    method RecordTenantCreation(ip: string, now: int)
      modifies this`tenantVelocity
      ensures tenantVelocity == old(tenantVelocity)[ip := ListOf(old(tenantVelocity), ip) + [now]]
    {
      tenantVelocity := tenantVelocity[ip := ListOf(tenantVelocity, ip) + [now]];
    }
  }

  lemma {:induction false} ScoreConcat(xs: seq<Signal>, ys: seq<Signal>)
    ensures Score(xs + ys) == Score(xs) + Score(ys)
  {
    if xs == [] {
      assert xs + ys == ys;
    } else {
      assert (xs + ys)[1..] == xs[1..] + ys;
      ScoreConcat(xs[1..], ys);
    }
  }

  lemma ScoreSnoc(flags: seq<Signal>, s: Signal)
    ensures Score(flags + [s]) == Score(flags) + Weight(s)
  {
    ScoreConcat(flags, [s]);
    assert [s][1..] == [];
  }

  /** The threshold means "any two signals": no single one reaches it, every pair does. */
  lemma ReviewMeansTwoSignals(email: string, badAddress: bool, recentCreations: int)
    ensures Score(Signals(email, badAddress, recentCreations)) >= REVIEW_THRESHOLD
        <==> |Signals(email, badAddress, recentCreations)| >= 2
  {
    var x := if ExtractDomain(email) in DISPOSABLE_DOMAINS then [DisposableEmail] else [];
    var y := if badAddress then [VPNProxyTor] else [];
    var z := if recentCreations >= VELOCITY_LIMIT then [VelocityAnomaly] else [];
    ScoreConcat(x, y);
    ScoreConcat(x + y, z);
    ScoreSnoc([], DisposableEmail);
    ScoreSnoc([], VPNProxyTor);
    ScoreSnoc([], VelocityAnomaly);
    assert forall s: Signal :: [] + [s] == [s];
  }

  lemma LowerIs(s: string, i: nat)
    requires i < |s|
    ensures |Lower(s)| == |s|
    ensures Lower(s)[i] == if 'A' <= s[i] <= 'Z' then s[i] + ('a' - 'A') else s[i]
  {
  }

  /** The domain looked up is what follows the one '@' of the address, whatever its case; an address without '@', or with
      several, has none. */
  lemma DomainIs(user: string, host: string, rest: string)
    requires '@' !in user && '@' !in host
    ensures ExtractDomain(user + "@" + host) == Lower(host)
    ensures ExtractDomain(user) == "" && ExtractDomain(user + "@" + host + "@" + rest) == ""
  {
    SplitCons(user, host, '@');
    SplitFree(user, '@');
    SplitFree(host, '@');
    assert user + "@" + host + "@" + rest == user + "@" + (host + "@" + rest);
    SplitCons(user, host + "@" + rest, '@');
    SplitCons(host, rest, '@');
  }

  /** Each signal is raised by its own cause and has its own weight. */
  lemma SignalsAre(email: string, badAddress: bool, recentCreations: int)
    ensures var flags := Signals(email, badAddress, recentCreations);
            && (DisposableEmail in flags <==> ExtractDomain(email) in DISPOSABLE_DOMAINS)
            && (VPNProxyTor in flags <==> badAddress)
            && (VelocityAnomaly in flags <==> recentCreations >= 5)
            && Score(flags) == (if DisposableEmail in flags then 40 else 0) + (if VPNProxyTor in flags then 35 else 0)
                                 + (if VelocityAnomaly in flags then 25 else 0)
  {
    var x := if ExtractDomain(email) in DISPOSABLE_DOMAINS then [DisposableEmail] else [];
    var y := if badAddress then [VPNProxyTor] else [];
    var z := if recentCreations >= VELOCITY_LIMIT then [VelocityAnomaly] else [];
    ScoreConcat(x, y);
    ScoreConcat(x + y, z);
    ScoreSnoc([], DisposableEmail);
    ScoreSnoc([], VPNProxyTor);
    ScoreSnoc([], VelocityAnomaly);
    assert forall s: Signal :: [] + [s] == [s];
    hide ExtractDomain;
  }

  // ---------- The two together ----------

  datatype Form = Form(name: string, slug: string, email: string)

  /** One signup request, handled at one instant: the form its body binds to, if it does, and whether the tenant is
      created. */
  datatype Signup = Signup(ip: string, body: string, now: int, form: Option<Form>, created: bool)

  datatype World = World(requests: Requests, velocity: Requests)

  function Process(window: int, limit: int, w: World, s: Signup): World {
    World(
      AfterPass(window, limit, w.requests, s.ip, s.body, s.now),
      if Passes(window, limit, w.requests, s.ip, s.body, s.now) && s.form.Some? && s.created
      then w.velocity[s.ip := ListOf(w.velocity, s.ip) + [s.now]] else w.velocity)
  }

  /** The request reaches the scorer, and the scorer raises the velocity signal. */
  predicate RaisesVelocity(window: int, limit: int, w: World, s: Signup) {
    && Passes(window, limit, w.requests, s.ip, s.body, s.now) && s.form.Some?
    && |Recent(ListOf(w.velocity, s.ip), s.now - HOUR)| >= VELOCITY_LIMIT
  }

  /** The route: limiter, then handler. */
  method Handle(limiter: TenantSignupRateLimiter, scorer: RiskScorer, s: Signup) returns (flags: seq<Signal>)
    modifies limiter, scorer
    ensures World(limiter.requests, scorer.tenantVelocity)
         == old(Process(limiter.window, limiter.limit, World(limiter.requests, scorer.tenantVelocity), s))
    ensures flags == old(if Passes(limiter.window, limiter.limit, limiter.requests, s.ip, s.body, s.now) && s.form.Some?
              then Signals(s.form.value.email, s.ip in scorer.ipReputation && scorer.ipReputation[s.ip] < 0,
                     |Recent(ListOf(scorer.tenantVelocity, s.ip), s.now - HOUR)|)
              else [])
    ensures VelocityAnomaly in flags
        <==> old(RaisesVelocity(limiter.window, limiter.limit, World(limiter.requests, scorer.tenantVelocity), s))
  {
    var passed := limiter.Pass(s.ip, s.body, s.now);
    if !passed || s.form.None? {
      return [];
    }
    var assessment := scorer.AssessSignup(s.form.value.email, s.ip, s.now);
    if s.created {
      scorer.RecordTenantCreation(s.ip, s.now);
    }
    return assessment.flags;
  }

  // ---------- Ordinary requests ----------

  /** Printable and in no need of escaping. */
  predicate Literal(text: string) {
    text != "" && forall c :: c in text ==> ' ' <= c <= '~' && c != '"' && c != '\\'
  }

  predicate MailAddress(email: string) {
    var parts := Split(email, '@');
    Literal(email) && |parts| == 2 && parts[0] != "" && parts[1] != ""
  }

  function Json(form: Form): string {
    "{\"name\":\"" + form.name + "\",\"slug\":\"" + form.slug + "\",\"email\":\"" + form.email + "\"}"
  }

  predicate Complete(form: Form) {
    Literal(form.name) && Literal(form.slug) && MailAddress(form.email)
  }

  /** Bodies that bind are the JSON text of a complete form, and no slug is taken twice. */
  ghost predicate Ordinary(ss: seq<Signup>) {
    && (forall s :: s in ss && s.form.Some? ==> Complete(s.form.value) && s.body == Json(s.form.value))
    && (forall s :: s in ss && s.created ==> s.form.Some?)
    && forall i, j :: 0 <= i < j < |ss| && ss[i].created && ss[j].created ==> ss[i].form.value.slug != ss[j].form.value.slug
  }

  /** So each of them is counted under the email key as well. */
  lemma FormsMentionEmail(form: Form)
    ensures EmailSeen(Json(form))
  {
    var before := "{\"name\":\"" + form.name + "\",\"slug\":\"" + form.slug + "\",";
    assert Json(form) == before + "\"email\"" + ":\"" + form.email + "\"}";
    assert MentionsEmailAt(Json(form), |before|);
  }

  // ---------- Runs ----------

  function Final(window: int, limit: int, ss: seq<Signup>): World {
    if ss == [] then World(map[], map[])
    else Process(window, limit, Final(window, limit, ss[..|ss| - 1]), ss[|ss| - 1])
  }

  ghost predicate InOrder(ss: seq<Signup>) {
    forall i, j :: 0 <= i <= j < |ss| ==> ss[i].now <= ss[j].now
  }

  /** The limiter calls a run of signups makes. */
  function Calls(window: int, limit: int, ss: seq<Signup>): seq<Call> {
    if ss == [] then []
    else
      var before, s := Calls(window, limit, ss[..|ss| - 1]), ss[|ss| - 1];
      var one := before + [Call(IpKey(s.ip), s.now)];
      if Admits(window, limit, ListOf(After(window, limit, before), IpKey(s.ip)), s.now) && EmailSeen(s.body)
      then one + [Call(EMAIL_KEY, s.now)] else one
  }

  /** One signup adds at most its own instant to the admissions of its address and nothing to those of another. */
  lemma SignupSnoc(window: int, limit: int, ss: seq<Signup>, ip: string)
    requires ss != []
    ensures var front, s := ss[..|ss| - 1], ss[|ss| - 1];
            var before, after := Calls(window, limit, front), Calls(window, limit, ss);
            && After(window, limit, after) == AfterPass(window, limit, After(window, limit, before), s.ip, s.body, s.now)
            && Admissions(window, limit, after, IpKey(ip)) ==
               if s.ip == ip && Admits(window, limit, ListOf(After(window, limit, before), IpKey(ip)), s.now)
               then Admissions(window, limit, before, IpKey(ip)) + [s.now] else Admissions(window, limit, before, IpKey(ip))
  {
    var front, s := ss[..|ss| - 1], ss[|ss| - 1];
    var before := Calls(window, limit, front);
    KeysDistinct(ip, s.ip);
    var c := Call(IpKey(s.ip), s.now);
    CallSnoc(window, limit, before, c, IpKey(ip));
    CallSnoc(window, limit, before + [c], Call(EMAIL_KEY, s.now), IpKey(ip));
  }

  /** And it adds its instant to the admissions of the shared email key exactly if it passes and mentions an email. */
  lemma EmailSnoc(window: int, limit: int, ss: seq<Signup>)
    requires ss != []
    ensures var front, s := ss[..|ss| - 1], ss[|ss| - 1];
            var before := Calls(window, limit, front);
            Admissions(window, limit, Calls(window, limit, ss), EMAIL_KEY) ==
              if Passes(window, limit, After(window, limit, before), s.ip, s.body, s.now) && EmailSeen(s.body)
              then Admissions(window, limit, before, EMAIL_KEY) + [s.now] else Admissions(window, limit, before, EMAIL_KEY)
  {
    var front, s := ss[..|ss| - 1], ss[|ss| - 1];
    var before := Calls(window, limit, front);
    KeysDistinct(s.ip, s.ip);
    var c := Call(IpKey(s.ip), s.now);
    CallSnoc(window, limit, before, c, EMAIL_KEY);
    CallSnoc(window, limit, before + [c], Call(EMAIL_KEY, s.now), EMAIL_KEY);
    hide EmailSeen, Admits, NextList, After, Admissions;
  }

  lemma {:induction false} LimiterTableIsAfterCalls(window: int, limit: int, ss: seq<Signup>)
    ensures Final(window, limit, ss).requests == After(window, limit, Calls(window, limit, ss))
  {
    if ss != [] {
      LimiterTableIsAfterCalls(window, limit, ss[..|ss| - 1]);
      SignupSnoc(window, limit, ss, "");
    }
  }

  lemma {:induction false} CallsInOrder(window: int, limit: int, ss: seq<Signup>)
    requires InOrder(ss)
    ensures Ordered(Calls(window, limit, ss))
    ensures forall c :: c in Calls(window, limit, ss) ==> ss != [] && c.now <= ss[|ss| - 1].now
  {
    if ss != [] {
      var front, s := ss[..|ss| - 1], ss[|ss| - 1];
      CallsInOrder(window, limit, front);
      assert front != [] ==> front[|front| - 1] == ss[|front| - 1];
      var before := Calls(window, limit, front);
      OrderedSnoc(before, Call(IpKey(s.ip), s.now));
      OrderedSnoc(before + [Call(IpKey(s.ip), s.now)], Call(EMAIL_KEY, s.now));
      hide Ordered, InOrder, Admits, EmailSeen;
    }
  }

  lemma OrderedSnoc(calls: seq<Call>, c: Call)
    requires Ordered(calls) && forall d :: d in calls ==> d.now <= c.now
    ensures Ordered(calls + [c])
  {
    var calls' := calls + [c];
    forall i, j | 0 <= i <= j < |calls'| ensures calls'[i].now <= calls'[j].now {
      assert i < |calls| ==> calls'[i] == calls[i] && calls[i] in calls;
    }
  }

  /** The instants at which requests that mention an email passed the limiter. */
  function EmailPasses(window: int, limit: int, ss: seq<Signup>): seq<int> {
    if ss == [] then []
    else
      var front, s := ss[..|ss| - 1], ss[|ss| - 1];
      EmailPasses(window, limit, front)
        + (if Passes(window, limit, Final(window, limit, front).requests, s.ip, s.body, s.now) && EmailSeen(s.body)
           then [s.now] else [])
  }

  lemma {:induction false} EmailPassesAreAdmissions(window: int, limit: int, ss: seq<Signup>)
    ensures EmailPasses(window, limit, ss) == Admissions(window, limit, Calls(window, limit, ss), EMAIL_KEY)
  {
    if ss != [] {
      EmailPassesAreAdmissions(window, limit, ss[..|ss| - 1]);
      EmailSnoc(window, limit, ss);
      LimiterTableIsAfterCalls(window, limit, ss[..|ss| - 1]);
    }
  }

  /** All requests that mention an email share one budget, whatever their addresses: any `limit` + 1 that pass span at
      least the window. */
  lemma EmailPassesSpread(window: int, limit: int, ss: seq<Signup>, i: nat)
    requires InOrder(ss) && limit >= 1 && i + limit < |EmailPasses(window, limit, ss)|
    ensures EmailPasses(window, limit, ss)[i + limit] - EmailPasses(window, limit, ss)[i] >= window
  {
    EmailPassesAreAdmissions(window, limit, ss);
    CallsInOrder(window, limit, ss);
    AdmissionsSpread(window, limit, Calls(window, limit, ss), EMAIL_KEY, i);
  }

  // ---------- The limiter told from its whole history ----------

  function InWindow(window: int, ts: seq<int>, now: int): nat {
    |Filter(ts, (t: int) => t > now - window)|
  }

  /** The instants at which the address was admitted: those at which fewer than `limit` of its earlier ones lie within the
      window. */
  function AddressAdmissions(window: int, limit: int, ss: seq<Signup>, ip: string): seq<int> {
    if ss == [] then []
    else
      var s, before := ss[|ss| - 1], AddressAdmissions(window, limit, ss[..|ss| - 1], ip);
      if s.ip == ip && InWindow(window, before, s.now) < limit then before + [s.now] else before
  }

  /** Those at which an email was admitted, of any address, as far as the address was. */
  function EmailAdmissions(window: int, limit: int, ss: seq<Signup>): seq<int> {
    if ss == [] then []
    else
      var front, s := ss[..|ss| - 1], ss[|ss| - 1];
      var before := EmailAdmissions(window, limit, front);
      if && InWindow(window, AddressAdmissions(window, limit, front, s.ip), s.now) < limit
         && EmailSeen(s.body) && InWindow(window, before, s.now) < limit
      then before + [s.now] else before
  }

  /** A body seems to hold an email exactly if it begins with a brace and the quoted word follows somewhere. */
  lemma EmailSeenIff(body: string)
    ensures EmailSeen(body) <==> exists a, b :: body == "{" + (a + ("\"email\"" + b))
  {
    if EmailSeen(body) {
      var i :| 0 <= i < |body| && MentionsEmailAt(body, i);
      assert body[i..i + 7][0] == '"';
      assert body == "{" + (body[1..i] + ("\"email\"" + body[i + 7..]));
    }
    if a, b :| body == "{" + (a + ("\"email\"" + b)) {
      assert body[1 + |a|..] == "\"email\"" + b;
      assert MentionsEmailAt(body, 1 + |a|);
    }
  }

  lemma FrontInOrder(ss: seq<Signup>)
    requires InOrder(ss) && ss != []
    ensures InOrder(ss[..|ss| - 1]) && forall s :: s in ss[..|ss| - 1] ==> s.now <= ss[|ss| - 1].now
  {
  }

  lemma AddressStep(window: int, limit: int, ss: seq<Signup>, ip: string)
    requires ss != [] && InOrder(ss)
    requires var front := ss[..|ss| - 1];
             Admissions(window, limit, Calls(window, limit, front), IpKey(ip)) == AddressAdmissions(window, limit, front, ip)
    ensures Admissions(window, limit, Calls(window, limit, ss), IpKey(ip)) == AddressAdmissions(window, limit, ss, ip)
  {
    hide Calls, Admissions, After, IpKey, NextList, InOrder, Ordered;
    var front, s := ss[..|ss| - 1], ss[|ss| - 1];
    FrontInOrder(ss);
    CallsInOrder(window, limit, front);
    SignupSnoc(window, limit, ss, ip);
    PruningExact(window, limit, Calls(window, limit, front), IpKey(ip), s.now);
  }

  lemma EmailStep(window: int, limit: int, ss: seq<Signup>)
    requires ss != [] && InOrder(ss)
    ensures Admissions(window, limit, Calls(window, limit, ss), EMAIL_KEY) == EmailAdmissions(window, limit, ss)
    decreases |ss| - 1, 2
  {
    var front, s := ss[..|ss| - 1], ss[|ss| - 1];
    hide Calls, Admissions, After, Passes, EmailSeen, InWindow, AddressAdmissions;
    FrontInOrder(ss);
    hide InOrder;
    AdmissionsAre(window, limit, front, s.ip);
    PassesByHistory(window, limit, front, s.ip, s.body, s.now);
    EmailSnoc(window, limit, ss);
  }

  lemma {:induction false} AdmissionsAre(window: int, limit: int, ss: seq<Signup>, ip: string)
    requires InOrder(ss)
    ensures Admissions(window, limit, Calls(window, limit, ss), IpKey(ip)) == AddressAdmissions(window, limit, ss, ip)
    ensures Admissions(window, limit, Calls(window, limit, ss), EMAIL_KEY) == EmailAdmissions(window, limit, ss)
    decreases |ss|, 0
  {
    if ss != [] {
      var front := ss[..|ss| - 1];
      FrontInOrder(ss);
      hide After, Passes, IpKey, NextList, EmailSeen, InOrder, InWindow, Calls, Admissions, AddressAdmissions, EmailAdmissions;
      AdmissionsAre(window, limit, front, ip);
      AddressStep(window, limit, ss, ip);
      EmailStep(window, limit, ss);
    }
  }

  lemma PassesByHistory(window: int, limit: int, ss: seq<Signup>, ip: string, body: string, now: int)
    requires InOrder(ss) && forall s :: s in ss ==> s.now <= now
    ensures Passes(window, limit, After(window, limit, Calls(window, limit, ss)), ip, body, now) <==>
            && InWindow(window, AddressAdmissions(window, limit, ss, ip), now) < limit
            && (EmailSeen(body) ==> InWindow(window, EmailAdmissions(window, limit, ss), now) < limit)
    decreases |ss|, 1
  {
    AdmissionsAre(window, limit, ss, ip);
    CallsInOrder(window, limit, ss);
    var calls := Calls(window, limit, ss);
    hide Calls, Admissions, After, NextList, EmailSeen, AddressAdmissions, EmailAdmissions;
    KeysDistinct(ip, ip);
    PruningExact(window, limit, calls, IpKey(ip), now);
    PruningExact(window, limit, calls, EMAIL_KEY, now);
  }

  /** What the limiter decides, from that history: admitted is who has fewer than `limit` admissions of the address within
      the window and, with an email in the body, finds fewer than `limit` emails of anyone admitted there. */
  lemma LimiterByHistory(window: int, limit: int, ss: seq<Signup>, ip: string, body: string, now: int)
    requires InOrder(ss) && forall s :: s in ss ==> s.now <= now
    ensures Passes(window, limit, Final(window, limit, ss).requests, ip, body, now) <==>
            && InWindow(window, AddressAdmissions(window, limit, ss, ip), now) < limit
            && (EmailSeen(body) ==> InWindow(window, EmailAdmissions(window, limit, ss), now) < limit)
  {
    LimiterTableIsAfterCalls(window, limit, ss);
    PassesByHistory(window, limit, ss, ip, body, now);
  }

  /** The instants at which requests of the address passed, bound and created their tenant. */
  function Creations(window: int, limit: int, ss: seq<Signup>, ip: string): seq<int> {
    if ss == [] then []
    else
      var front, s := ss[..|ss| - 1], ss[|ss| - 1];
      var passed := Passes(window, limit, Final(window, limit, front).requests, ip, s.body, s.now);
      Creations(window, limit, front, ip)
        + (if s.ip == ip && passed && s.form.Some? && s.created then [s.now] else [])
  }

  /** Those, and nothing else, are what the scorer counts. */
  lemma {:induction false} CreationsAreRecorded(window: int, limit: int, ss: seq<Signup>, ip: string)
    ensures ListOf(Final(window, limit, ss).velocity, ip) == Creations(window, limit, ss, ip)
  {
    if ss != [] {
      CreationsAreRecorded(window, limit, ss[..|ss| - 1], ip);
      hide Passes, AfterPass;
    }
  }

  /** Every recorded creation was an admission of its address. */
  lemma {:induction false} CreationsWereAdmitted(window: int, limit: int, ss: seq<Signup>, ip: string, cutoff: int)
    ensures |Recent(ListOf(Final(window, limit, ss).velocity, ip), cutoff)|
         <= |Recent(Admissions(window, limit, Calls(window, limit, ss), IpKey(ip)), cutoff)|
  {
    if ss != [] {
      var front, s := ss[..|ss| - 1], ss[|ss| - 1];
      CreationsWereAdmitted(window, limit, front, ip, cutoff);
      SignupSnoc(window, limit, ss, ip);
      LimiterTableIsAfterCalls(window, limit, front);
      RecentSnoc(ListOf(Final(window, limit, front).velocity, ip), s.now, cutoff);
      RecentSnoc(Admissions(window, limit, Calls(window, limit, front), IpKey(ip)), s.now, cutoff);
    }
  }

  /** `q` blocks of `limit` admissions span at least `q` windows. */
  lemma {:induction false} BlocksSpread(window: int, limit: int, calls: seq<Call>, key: string, i: nat, q: nat)
    requires Ordered(calls) && limit >= 1 && i + q * limit < |Admissions(window, limit, calls, key)|
    ensures Admissions(window, limit, calls, key)[i + q * limit] - Admissions(window, limit, calls, key)[i] >= q * window
  {
    hide Ordered, Admissions;
    if q > 0 {
      var before := (q - 1) * limit;
      assert before >= 0 && q * limit == before + limit && q * window == (q - 1) * window + window;
      BlocksSpread(window, limit, calls, key, i, q - 1);
      AdmissionsSpread(window, limit, calls, key, i + before);
    }
  }

  lemma {:induction false} FewRecent(ts: seq<int>, k: nat, c: int)
    requires Sorted(ts) && k < |ts| && ts[k] <= c
    ensures |Recent(ts, c)| < |ts| - k
    decreases |ts|
  {
    var front, last := ts[..|ts| - 1], ts[|ts| - 1];
    assert ts == front + [last];
    RecentSnoc(front, last, c);
    if k < |front| {
      FewRecent(front, k, c);
    } else {
      forall t | t in front ensures t <= c {
        var i :| 0 <= i < |front| && front[i] == t;
        assert ts[i] <= ts[k];
      }
      NoneRecent(front, c);
    }
  }

  lemma NoneRecent(ts: seq<int>, c: int)
    requires forall t :: t in ts ==> t <= c
    ensures Recent(ts, c) == []
  {
    FilterNone(ts, (t: int) => t > c);
  }

  /** The limiter settings under which five admissions of one address need at least an hour. */
  predicate SilencesVelocity(window: int, limit: int) {
    limit <= 0 || (5 / limit) * window >= HOUR
  }

  lemma NeverRaised(window: int, limit: int, ss: seq<Signup>, i: nat)
    requires SilencesVelocity(window, limit) && InOrder(ss) && i < |ss|
    ensures !RaisesVelocity(window, limit, Final(window, limit, ss[..i]), ss[i])
  {
    hide Recent, Calls, Admissions, After, Final, AfterPass, EmailSeen, SilencesVelocity;
    var front, s := ss[..i], ss[i];
    var before := Calls(window, limit, front);
    LimiterTableIsAfterCalls(window, limit, front);
    CallsInOrder(window, limit, front);
    if RaisesVelocity(window, limit, Final(window, limit, front), s) {
      CreationsWereAdmitted(window, limit, front, s.ip, s.now - HOUR);
      assert forall c :: c in before ==> c.now <= s.now;
      FewRecentAdmissions(window, limit, before, IpKey(s.ip), s.now);
    }
  }

  /** When a call is admitted, fewer than five earlier admissions of its key lie within the last hour. */
  lemma FewRecentAdmissions(window: int, limit: int, before: seq<Call>, key: string, now: int)
    requires SilencesVelocity(window, limit) && Ordered(before) && forall c :: c in before ==> c.now <= now
    requires Admits(window, limit, ListOf(After(window, limit, before), key), now)
    ensures |Recent(Admissions(window, limit, before, key), now - HOUR)| < VELOCITY_LIMIT
  {
    hide After, Admissions, Recent;
    var c := Call(key, now);
    var history, m := Admissions(window, limit, before, key), |Admissions(window, limit, before, key)|;
    OrderedSnoc(before, c);
    CallSnoc(window, limit, before, c, key);
    AdmissionsSorted(window, limit, before, key);
    var q := 5 / limit;
    BlocksOfFive(limit);
    if m >= 5 {
      BlocksSpread(window, limit, before + [c], key, m - q * limit, q);
      assert q * limit > 0;
      assert history[m - 5] <= history[m - q * limit] <= now - HOUR;
      FewRecent(history, m - 5, now - HOUR);
    } else {
      RecentNoLonger(history, now - HOUR);
    }
  }

  lemma RecentNoLonger(ts: seq<int>, c: int)
    ensures |Recent(ts, c)| <= |ts|
  {
  }

  lemma BlocksOfFive(limit: int)
    requires limit >= 1
    ensures 0 <= (5 / limit) * limit <= 5 && (limit > 5 ==> 5 / limit == 0)
    ensures limit <= 5 ==> (5 / limit) * limit > 0
  {
    assert limit > 5 || limit == 5 || limit == 4 || limit == 3 || limit == 2 || limit == 1;
  }

  // ---------- Other settings do raise it ----------

  /** `limit` requests at once, the next `limit` a window later, and so on. */
  function BurstTime(window: int, limit: int, k: nat): (t: int)
    requires limit >= 1
    ensures t >= 0
  {
    if k < limit then 0 else BurstTime(window, limit, k - limit) + (if window > 0 then window else 0)
  }

  const BURST_IP := "192.0.2.1"

  const BURST_EMAIL := "a@b.co"

  /** Each request of the bursts asks for a tenant of its own. */
  function BurstForm(k: nat): Form {
    Form("T", seq(k + 1, i => 'a'), BURST_EMAIL)
  }

  lemma BurstEmailIsAddress()
    ensures MailAddress(BURST_EMAIL)
  {
    var user, host := "a", "b.co";
    assert Split(BURST_EMAIL, '@') == [user, host] by {
      assert BURST_EMAIL == user + ['@'] + host;
      SplitCons(user, host, '@');
      SplitFree(host, '@');
    }
    hide Split;
  }

  lemma BurstFormComplete(k: nat)
    ensures Complete(BurstForm(k)) && |BurstForm(k).slug| == k + 1
  {
    BurstEmailIsAddress();
    hide MailAddress;
  }

  function BurstSignup(window: int, limit: int, k: nat): Signup
    requires limit >= 1
  {
    Signup(BURST_IP, Json(BurstForm(k)), BurstTime(window, limit, k), Some(BurstForm(k)), true)
  }

  function Bursts(window: int, limit: int, n: nat): seq<Signup>
    requires limit >= 1
  {
    seq(n, k requires 0 <= k < n => BurstSignup(window, limit, k))
  }

  lemma BurstsOrdinary(window: int, limit: int, n: nat)
    requires limit >= 1
    ensures Ordinary(Bursts(window, limit, n))
  {
    hide Json, BurstForm, BurstTime, Complete;
    forall k | 0 <= k < n ensures Complete(BurstForm(k)) && |BurstForm(k).slug| == k + 1 {
      BurstFormComplete(k);
    }
  }

  function BurstTimes(window: int, limit: int, n: nat): seq<int>
    requires limit >= 1
  {
    seq(n, k requires 0 <= k < n => BurstTime(window, limit, k))
  }

  lemma {:induction false} BurstTimesOrdered(window: int, limit: int, j: nat, k: nat)
    requires limit >= 1 && j <= k
    ensures BurstTime(window, limit, j) <= BurstTime(window, limit, k)
    decreases k
  {
    if limit <= j {
      BurstTimesOrdered(window, limit, j - limit, k - limit);
    }
  }

  lemma BurstsInOrder(window: int, limit: int, n: nat)
    requires limit >= 1
    ensures InOrder(Bursts(window, limit, n)) && Sorted(BurstTimes(window, limit, n))
  {
    forall i, j | 0 <= i <= j < n ensures BurstTime(window, limit, i) <= BurstTime(window, limit, j) {
      BurstTimesOrdered(window, limit, i, j);
    }
  }

  /** Fewer than `limit` of the earlier burst times lie in the window of the next. */
  lemma BurstFits(window: int, limit: int, n: nat)
    requires limit >= 1
    ensures |Recent(BurstTimes(window, limit, n), BurstTime(window, limit, n) - window)| < limit
  {
    var ts, c := BurstTimes(window, limit, n), BurstTime(window, limit, n) - window;
    BurstsInOrder(window, limit, n);
    hide Recent;
    RecentNoLonger(ts, c);
    if n >= limit && window > 0 {
      FewRecent(ts, n - limit, c);
    } else if n >= limit {
      BurstTimesOrdered(window, limit, n - 1, n);
      FewRecent(ts, n - 1, c);
    }
  }

  lemma FifthBurst(window: int, limit: int)
    requires limit >= 1
    ensures BurstTime(window, limit, 5) == if window > 0 then (5 / limit) * window else 0
  {
    if limit == 1 {
      assert BurstTime(window, 1, 1) == BurstTime(window, 1, 0) + (if window > 0 then window else 0);
      assert BurstTime(window, 1, 3) == BurstTime(window, 1, 2) + (if window > 0 then window else 0);
      assert BurstTime(window, 1, 5) == BurstTime(window, 1, 4) + (if window > 0 then window else 0);
    } else if limit == 2 {
      assert BurstTime(window, 2, 3) == BurstTime(window, 2, 1) + (if window > 0 then window else 0);
    } else {
      assert limit == 3 || limit == 4 || limit == 5 || limit > 5;
    }
  }

  lemma BurstsSnoc(window: int, limit: int, n: nat)
    requires limit >= 1
    ensures var ss, t := Bursts(window, limit, n + 1), BurstTime(window, limit, n);
            && |ss| == n + 1 && ss[..n] == Bursts(window, limit, n) && ss[n] == BurstSignup(window, limit, n) && ss[n].now == t
            && BurstTimes(window, limit, n + 1) == BurstTimes(window, limit, n) + [t]
  {
  }

  /** Both keys have admitted all the requests of the bursts, and each has created its tenant. */
  ghost predicate AllAdmitted(window: int, limit: int, n: nat)
    requires limit >= 1
  {
    var ss, ts := Bursts(window, limit, n), BurstTimes(window, limit, n);
    && Admissions(window, limit, Calls(window, limit, ss), IpKey(BURST_IP)) == ts
    && Admissions(window, limit, Calls(window, limit, ss), EMAIL_KEY) == ts
    && ListOf(Final(window, limit, ss).velocity, BURST_IP) == ts
  }

  lemma {:induction false} BurstsAllPass(window: int, limit: int, n: nat)
    requires limit >= 1
    ensures AllAdmitted(window, limit, n)
  {
    if n > 0 {
      hide Recent, NextList, BurstTime, BurstTimes, Bursts, Calls, After, Admissions, AfterPass, Json, BurstForm;
      BurstsAllPass(window, limit, n - 1);
      BurstsSnoc(window, limit, n - 1);
      BurstPasses(window, limit, n - 1);
      var ss := Bursts(window, limit, n);
      assert |ss| - 1 == n - 1;
      SignupSnoc(window, limit, ss, BURST_IP);
      EmailSnoc(window, limit, ss);
      FormsMentionEmail(ss[n - 1].form.value);
      LimiterTableIsAfterCalls(window, limit, ss[..n - 1]);
      hide Admits, EmailSeen;
    }
  }

  lemma BurstCallsBefore(window: int, limit: int, n: nat)
    requires limit >= 1
    ensures var calls := Calls(window, limit, Bursts(window, limit, n));
            Ordered(calls) && forall c :: c in calls ==> c.now <= BurstTime(window, limit, n)
  {
    hide Calls, BurstTime;
    var ss := Bursts(window, limit, n);
    BurstsInOrder(window, limit, n);
    CallsInOrder(window, limit, ss);
    if n > 0 {
      BurstTimesOrdered(window, limit, n - 1, n);
    }
  }

  lemma BurstPasses(window: int, limit: int, n: nat)
    requires limit >= 1 && AllAdmitted(window, limit, n)
    ensures var s := BurstSignup(window, limit, n);
            Passes(window, limit, Final(window, limit, Bursts(window, limit, n)).requests, s.ip, s.body, s.now)
  {
    hide Recent, NextList, BurstTime, BurstTimes, Bursts, Calls, After, Admissions, Final, Json, BurstForm, EmailSeen;
    var ss, now := Bursts(window, limit, n), BurstTime(window, limit, n);
    var calls := Calls(window, limit, ss);
    BurstCallsBefore(window, limit, n);
    PruningExact(window, limit, calls, IpKey(BURST_IP), now);
    PruningExact(window, limit, calls, EMAIL_KEY, now);
    BurstFits(window, limit, n);
    LimiterTableIsAfterCalls(window, limit, ss);
    KeysDistinct(BURST_IP, BURST_IP);
  }

  lemma SixBursts(window: int, limit: int)
    requires limit >= 1
    ensures var ss, ts := Bursts(window, limit, 6), BurstTimes(window, limit, 5);
            && InOrder(ss) && ss[..5] == Bursts(window, limit, 5)
            && ss[5] == BurstSignup(window, limit, 5)
            && Sorted(ts) && |ts| == 5 && ts[0] == 0
  {
    BurstsInOrder(window, limit, 6);
    BurstsInOrder(window, limit, 5);
  }

  lemma FifthBurstWithinTheHour(window: int, limit: int)
    requires !SilencesVelocity(window, limit)
    ensures limit >= 1 && BurstTime(window, limit, 5) < HOUR
  {
    FifthBurst(window, limit);
  }

  lemma RaisedByBursts(window: int, limit: int)
    requires !SilencesVelocity(window, limit)
    ensures var ss := Bursts(window, limit, 6);
            InOrder(ss) && Ordinary(ss) && RaisesVelocity(window, limit, Final(window, limit, ss[..5]), ss[5])
  {
    hide SilencesVelocity, Recent, Passes, Final, Bursts, BurstTime, BurstTimes, BurstForm, Json, Ordinary, InOrder, Admissions, Calls;
    FifthBurstWithinTheHour(window, limit);
    BurstsOrdinary(window, limit, 6);
    SixBursts(window, limit);
    BurstsAllPass(window, limit, 5);
    BurstPasses(window, limit, 5);
    RecentOfSorted(BurstTimes(window, limit, 5), 0, BurstTime(window, limit, 5) - HOUR);
  }

  /** Exactly when the limiter makes the velocity signal unreachable, over all runs of ordinary requests with a
      non-decreasing clock. Under the condition no run whatever reaches it (`NeverRaised`). */
  lemma VelocityUnreachableIff(window: int, limit: int)
    ensures SilencesVelocity(window, limit) <==>
            forall ss: seq<Signup>, i: nat :: InOrder(ss) && Ordinary(ss) && i < |ss| ==>
              !RaisesVelocity(window, limit, Final(window, limit, ss[..i]), ss[i])
  {
    if SilencesVelocity(window, limit) {
      forall ss: seq<Signup>, i: nat | InOrder(ss) && Ordinary(ss) && i < |ss|
        ensures !RaisesVelocity(window, limit, Final(window, limit, ss[..i]), ss[i])
      {
        NeverRaised(window, limit, ss, i);
      }
    } else {
      RaisedByBursts(window, limit);
    }
  }

  /** With the shipped settings, five per hour, it is unreachable: a signup goes to review exactly if its email
      domain is disposable and its address is bad. */
  lemma ShippedSettings(ss: seq<Signup>, i: nat, badAddress: bool)
    requires InOrder(ss) && i < |ss| && ss[i].form.Some?
    requires Passes(HOUR, 5, Final(HOUR, 5, ss[..i]).requests, ss[i].ip, ss[i].body, ss[i].now)
    ensures var email := ss[i].form.value.email;
            var recent := |Recent(ListOf(Final(HOUR, 5, ss[..i]).velocity, ss[i].ip), ss[i].now - 3_600 * 1_000_000_000)|;
            Score(Signals(email, badAddress, recent)) >= REVIEW_THRESHOLD
            <==> ExtractDomain(email) in DISPOSABLE_DOMAINS && badAddress
  {
    hide Final, Passes, Recent, ExtractDomain, Score;
    NeverRaised(HOUR, 5, ss, i);
    var recent := |Recent(ListOf(Final(HOUR, 5, ss[..i]).velocity, ss[i].ip), ss[i].now - HOUR)|;
    ReviewMeansTwoSignals(ss[i].form.value.email, badAddress, recent);
  }
}
