/** Magic links: rows found by the hash of a token, marked when used, valid for fifteen minutes. */
module MagicLinks {
  import opened Clock
  import opened Directory
  import opened Wrappers

  datatype MagicLink = MagicLink(id: string, userID: string, tenantID: string, expiresAt: int, usedAt: Option<int>)

  /** The table, by token hash, which is unique. */
  type Links = map<string, MagicLink>

  datatype Session = Session(userID: string, tenantID: string, roles: seq<string>)

  datatype LinkError =
    | LinkNotFound | LinkUsed | LinkExpired | UserNotFound | NoMembership | DuplicateToken
    | MarkingFailed | SigningFailed

  const LINK_LIFETIME := 15 * MINUTE

  /** The rest of the system as a verification sees it: the tables, and whether a link can be marked as used and tokens
      can be signed. */
  datatype Context = Context(store: Store, users: set<string>, marks: bool, signs: bool)

  function MarkedUsed(links: Links, id: string, now: int): Links {
    map h | h in links :: if links[h].id == id then links[h].(usedAt := Some(now)) else links[h]
  }

  function Verified(links: Links, c: Context, tokenHash: string, tenantID: string, now: int)
    : (out: (Links, Result<Session, LinkError>))
  {
    if tokenHash !in links then (links, Failure(LinkNotFound))
    else
      var m := links[tokenHash];
      if m.usedAt.Some? then (links, Failure(LinkUsed))
      else if now > m.expiresAt then (links, Failure(LinkExpired))
      else if m.tenantID != tenantID then (links, Failure(LinkNotFound))
      else if !c.marks then (links, Failure(MarkingFailed))
      else
        (MarkedUsed(links, m.id, now),
         if m.userID !in c.users then Failure(UserNotFound)
         else
           match EffectiveRoles(c.store, m.userID, tenantID)
           case None => Failure(NoMembership)
           case Some(roles) => if c.signs then Success(Session(m.userID, tenantID, roles)) else Failure(SigningFailed))
  }

  /** A link is created for a user with a membership of the tenant; the table refuses a token hash it has. */
  function Created(links: Links, c: Context, tokenHash: string, id: string, userID: string, tenantID: string, now: int): Links {
    if (userID, tenantID) !in c.store.memberships || tokenHash in links then links
    else links[tokenHash := MagicLink(id, userID, tenantID, now + LINK_LIFETIME, None)]
  }

  class PasswordlessService {
    const hashToken: string -> string
    var links: Links

    constructor (hashToken: string -> string)
      ensures this.hashToken == hashToken && links == map[]
    {
      this.hashToken, links := hashToken, map[];
    }

    /** `byEmail` is the user table's lookup. For an unknown address nothing happens and nothing is revealed. */
    method CreateMagicLink(c: Context, byEmail: map<string, string>, email: string, tenantID: string,
                           token: string, id: string, now: int)
      returns (r: Result<Option<MagicLink>, LinkError>)
      modifies this
      ensures email !in byEmail ==> r == Success(None) && links == old(links)
      ensures email in byEmail ==> links == Created(old(links), c, hashToken(token), id, byEmail[email], tenantID, now)
      ensures email in byEmail ==>
                var userID := byEmail[email];
                r == if (userID, tenantID) !in c.store.memberships then Failure(NoMembership)
                     else if hashToken(token) in old(links) then Failure(DuplicateToken)
                     else Success(Some(MagicLink(id, userID, tenantID, now + 15 * MINUTE, None)))
    {
      if email !in byEmail {
        return Success(None);
      }
      var userID := byEmail[email];
      if (userID, tenantID) !in c.store.memberships {
        return Failure(NoMembership);
      }
      if hashToken(token) in links {
        return Failure(DuplicateToken);
      }
      var link := MagicLink(id, userID, tenantID, now + LINK_LIFETIME, None);
      links := links[hashToken(token) := link];
      return Success(Some(link));
    }

    method FindByToken(token: string, now: int) returns (r: Result<MagicLink, LinkError>)
      ensures var h := hashToken(token);
              r == if h !in links then Failure(LinkNotFound)
                   else if links[h].usedAt.Some? then Failure(LinkUsed)
                   else if now > links[h].expiresAt then Failure(LinkExpired)
                   else Success(links[h])
    {
      var h := hashToken(token);
      if h !in links {
        return Failure(LinkNotFound);
      }
      if links[h].usedAt.Some? {
        return Failure(LinkUsed);
      }
      if now > links[h].expiresAt {
        return Failure(LinkExpired);
      }
      return Success(links[h]);
    }

    method VerifyMagicLink(c: Context, token: string, tenantID: string, now: int) returns (r: Result<Session, LinkError>)
      modifies this
      ensures (links, r) == Verified(old(links), c, hashToken(token), tenantID, now)
    {
      var found := FindByToken(token, now);
      if found.Failure? {
        return Failure(found.error);
      }
      var magicLink := found.value;
      if magicLink.tenantID != tenantID {
        return Failure(LinkNotFound);
      }
      if !c.marks {
        return Failure(MarkingFailed);
      }
      links := MarkedUsed(links, magicLink.id, now);
      if magicLink.userID !in c.users {
        return Failure(UserNotFound);
      }
      var roles := EffectiveRoles(c.store, magicLink.userID, tenantID);
      if roles.None? {
        return Failure(NoMembership);
      }
      if !c.signs {
        return Failure(SigningFailed);
      }
      return Success(Session(magicLink.userID, tenantID, roles.value));
    }
  }

  // ---------- Runs ----------

  datatype Event =
    | Create(c: Context, tokenHash: string, id: string, userID: string, tenantID: string, at: int)
    | Verify(c: Context, tokenHash: string, tenantID: string, at: int)
    | DeleteExpired(at: int)

  function Step(links: Links, e: Event): Links {
    match e
    case Create(c, h, id, u, t, now) => Created(links, c, h, id, u, t, now)
    case Verify(c, h, t, now) => Verified(links, c, h, t, now).0
    case DeleteExpired(now) => map h | h in links && links[h].expiresAt >= now :: links[h]
  }

  function After(es: seq<Event>, n: nat): Links
    requires n <= |es|
  {
    if n == 0 then map[] else Step(After(es, n - 1), es[n - 1])
  }

  function Outcome(es: seq<Event>, i: nat): Result<Session, LinkError>
    requires i < |es| && es[i].Verify?
  {
    Verified(After(es, i), es[i].c, es[i].tokenHash, es[i].tenantID, es[i].at).1
  }

  predicate Adds(es: seq<Event>, i: nat, h: string)
    requires i < |es|
  {
    es[i].Create? && es[i].tokenHash == h && h !in After(es, i) && h in After(es, i + 1)
  }

  predicate OpensSession(es: seq<Event>, i: nat, h: string)
    requires i < |es|
  {
    es[i].Verify? && es[i].tokenHash == h && Outcome(es, i).Success?
  }

  function CountCreated(es: seq<Event>, n: nat, h: string): nat
    requires n <= |es|
  {
    if n == 0 then 0 else CountCreated(es, n - 1, h) + (if Adds(es, n - 1, h) then 1 else 0)
  }

  function CountSessions(es: seq<Event>, n: nat, h: string): nat
    requires n <= |es|
  {
    if n == 0 then 0 else CountSessions(es, n - 1, h) + (if OpensSession(es, n - 1, h) then 1 else 0)
  }

  /** Every session uses up one created link with that token. */
  lemma {:induction false} SessionsConserved(es: seq<Event>, n: nat, h: string)
    requires n <= |es|
    ensures CountSessions(es, n, h) + (if h in After(es, n) && After(es, n)[h].usedAt.None? then 1 else 0)
         <= CountCreated(es, n, h)
  {
    if n > 0 {
      SessionsConserved(es, n - 1, h);
    }
  }

  /** A link created once yields at most one session in any run. */
  lemma AtMostOneSession(es: seq<Event>, h: string)
    requires CountCreated(es, |es|, h) <= 1
    ensures CountSessions(es, |es|, h) <= 1
  {
    SessionsConserved(es, |es|, h);
  }

  /** One event: a link that is there afterwards was there before, the same but perhaps used, or was just added. */
  lemma LinkStep(links: Links, e: Event, h: string)
    requires h in Step(links, e)
    ensures h in links ==>
              && Step(links, e)[h].(usedAt := None) == links[h].(usedAt := None)
              && (Step(links, e)[h].usedAt.None? ==>
                    links[h].usedAt.None? && (e.Verify? && e.tokenHash == h ==> Verified(links, e.c, h, e.tenantID, e.at).1.Failure?))
    ensures h !in links ==>
              e.Create? && e.tokenHash == h && Step(links, e)[h] == MagicLink(e.id, e.userID, e.tenantID, e.at + LINK_LIFETIME, None)
  {
  }

  lemma {:induction false} LinkOrigin(es: seq<Event>, n: nat, h: string) returns (j: nat)
    requires n <= |es| && h in After(es, n)
    ensures j < n && Adds(es, j, h)
    ensures var m := After(es, n)[h];
            && m.id == es[j].id && m.userID == es[j].userID && m.tenantID == es[j].tenantID
            && m.expiresAt == es[j].at + LINK_LIFETIME
    ensures After(es, n)[h].usedAt.None? ==> forall k :: j < k < n ==> !OpensSession(es, k, h)
  {
    LinkStep(After(es, n - 1), es[n - 1], h);
    hide Step, Verified;
    if h in After(es, n - 1) {
      j := LinkOrigin(es, n - 1, h);
    } else {
      j := n - 1;
    }
  }

  /** Every session comes from an earlier link for its user and its own tenant, within fifteen minutes, not used in
      between, and carries the roles that tenant grants the user at that moment. */
  lemma SessionOrigin(es: seq<Event>, i: nat) returns (j: nat)
    requires i < |es| && es[i].Verify? && Outcome(es, i).Success?
    ensures j < i && Adds(es, j, es[i].tokenHash)
    ensures var s := Outcome(es, i).value;
            && s.userID == es[j].userID && s.tenantID == es[j].tenantID == es[i].tenantID
            && es[i].at <= es[j].at + 15 * MINUTE
            && EffectiveRoles(es[i].c.store, s.userID, s.tenantID) == Some(s.roles)
    ensures forall k :: j < k < i ==> !OpensSession(es, k, es[i].tokenHash)
  {
    j := LinkOrigin(es, i, es[i].tokenHash);
  }

  // ---------- Which links are used, and which open a session ----------

  /** The event gets as far as marking link `m`, stored under `h`, if that is unused. */
  predicate Marks(e: Event, h: string, m: MagicLink) {
    e.Verify? && e.tokenHash == h && e.tenantID == m.tenantID && e.at <= m.expiresAt && e.c.marks
  }

  predicate Sweeps(e: Event, m: MagicLink) {
    e.DeleteExpired? && m.expiresAt < e.at
  }

  /** A verification touches no link with another ID than the one presented, and that one in nothing but its mark. */
  lemma OthersUntouched(links: Links, c: Context, tokenHash: string, tenantID: string, now: int, h: string)
    requires h in links
    ensures var after := Verified(links, c, tokenHash, tenantID, now).0;
            && after.Keys == links.Keys
            && (tokenHash !in links || links[tokenHash].id != links[h].id ==> after[h] == links[h])
            && (h == tokenHash ==>
                  after[h] == if links[h].usedAt.None? && Marks(Verify(c, h, tenantID, now), h, links[h])
                              then links[h].(usedAt := Some(now)) else links[h])
  {
  }

  /** Which verifications get which outcome, and with which error: the link first, then its tenant, then the marking,
      then the user, their membership and the tokens. */
  lemma OutcomeIff(links: Links, c: Context, h: string, tenantID: string, now: int)
    ensures var r := Verified(links, c, h, tenantID, now).1;
            var unused := h in links && links[h].usedAt.None?;
            var live := unused && now <= links[h].expiresAt;
            var marked := live && links[h].tenantID == tenantID && c.marks;
            var known := marked && links[h].userID in c.users;
            var member := known && (links[h].userID, tenantID) in c.store.memberships;
            && (r == Failure(LinkUsed) <==> h in links && !unused)
            && (r == Failure(LinkExpired) <==> unused && !live)
            && (r == Failure(LinkNotFound) <==> h !in links || (live && links[h].tenantID != tenantID))
            && (r == Failure(MarkingFailed) <==> live && links[h].tenantID == tenantID && !c.marks)
            && (r == Failure(UserNotFound) <==> marked && !known)
            && (r == Failure(NoMembership) <==> known && !member)
            && (r == Failure(SigningFailed) <==> member && !c.signs)
            && (r.Success? <==> member && c.signs)
  {
  }

  /** The database never gives two links one ID. */
  ghost predicate FreshIDs(es: seq<Event>) {
    forall i, j :: 0 <= i < j < |es| && es[i].Create? && es[j].Create? ==> es[i].id != es[j].id
  }

  lemma DistinctIDs(es: seq<Event>, n: nat, g: string, h: string)
    requires FreshIDs(es) && n <= |es| && g in After(es, n) && h in After(es, n)
    requires After(es, n)[g].id == After(es, n)[h].id
    ensures g == h
  {
    var i := LinkOrigin(es, n, g);
    var j := LinkOrigin(es, n, h);
  }

  /** A link is added exactly for a member of the tenant, under a token hash that is not taken. */
  lemma AddsIff(es: seq<Event>, i: nat, h: string)
    requires i < |es|
    ensures Adds(es, i, h) <==>
            && es[i].Create? && es[i].tokenHash == h && h !in After(es, i)
            && (es[i].userID, es[i].tenantID) in es[i].c.store.memberships
    ensures Adds(es, i, h) ==>
              After(es, i + 1)[h] == MagicLink(es[i].id, es[i].userID, es[i].tenantID, es[i].at + 900 * 1_000_000_000, None)
  {
  }

  lemma StepOnLink(links: Links, e: Event, h: string)
    requires h in links && forall g :: g in links && links[g].id == links[h].id ==> g == h
    ensures h in Step(links, e) <==> !Sweeps(e, links[h])
    ensures h in Step(links, e) ==>
              Step(links, e)[h] ==
              if links[h].usedAt.None? && Marks(e, h, links[h]) then links[h].(usedAt := Some(e.at)) else links[h]
  {
    if e.Verify? {
      OthersUntouched(links, e.c, e.tokenHash, e.tenantID, e.at, h);
    }
  }

  /** In every run an unused link stays in the table until it is swept, and stays unused until a verification of that
      very link, for its tenant and in time, gets as far as marking it. */
  lemma {:induction false} UnusedUntilMarked(es: seq<Event>, i: nat, n: nat, h: string)
    requires FreshIDs(es) && i <= n <= |es| && h in After(es, i) && After(es, i)[h].usedAt.None?
    requires forall m :: i <= m < n ==> !Adds(es, m, h)
    ensures var link := After(es, i)[h];
            && (h in After(es, n) <==> forall m :: i <= m < n ==> !Sweeps(es[m], link))
            && (h in After(es, n) ==>
                  && After(es, n)[h].(usedAt := None) == link
                  && (After(es, n)[h].usedAt.None? <==> forall m :: i <= m < n ==> !Marks(es[m], h, link)))
  {
    if i < n {
      UnusedUntilMarked(es, i, n - 1, h);
      var links := After(es, n - 1);
      assert !Adds(es, n - 1, h);
      if h in links {
        forall g | g in links && links[g].id == links[h].id ensures g == h {
          DistinctIDs(es, n - 1, g, h);
        }
        StepOnLink(links, es[n - 1], h);
      } else {
        AddsIff(es, n - 1, h);
        assert h !in After(es, n);
      }
      hide Step, Adds, FreshIDs;
    }
  }

  /** Exactly which verifications open a session: those of a link nothing has marked or swept, for its tenant and within
      fifteen minutes, if marking works, the user exists and is a member, and tokens can be signed. */
  lemma SessionIff(es: seq<Event>, j: nat, k: nat, h: string)
    requires FreshIDs(es) && j < k < |es| && Adds(es, j, h) && es[k].Verify? && es[k].tokenHash == h
    requires forall m :: j < m < k ==> !Adds(es, m, h)
    ensures var e, link := es[k], MagicLink(es[j].id, es[j].userID, es[j].tenantID, es[j].at + 15 * MINUTE, None);
            OpensSession(es, k, h) <==>
            && (forall m :: j < m < k ==> !Sweeps(es[m], link) && !Marks(es[m], h, link))
            && e.tenantID == link.tenantID && e.at <= link.expiresAt && e.c.marks
            && link.userID in e.c.users && (link.userID, link.tenantID) in e.c.store.memberships && e.c.signs
  {
    AddsIff(es, j, h);
    UnusedUntilMarked(es, j + 1, k, h);
  }
}
