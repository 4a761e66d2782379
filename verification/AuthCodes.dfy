/**
 Authorization codes (sections 4.1.2 and 4.1.3 of RFC 6749): issued once, consumed by the
 first token request that presents them, gone after ten minutes.
 */
module AuthCodes {
  import opened Clock
  import opened Scopes
  import opened Text
  import opened Wrappers

  datatype AuthCode = AuthCode(
    clientID: string, userID: string, tenantID: string, redirectURI: string, scopes: seq<string>,
    nonce: string, expiresAt: int)

  datatype Client = Client(clientSecret: string, enabled: bool)

  datatype TokenRequest = TokenRequest(code: string, redirectURI: string, clientID: string, clientSecret: string)

  /** Whether the access and refresh tokens, and the ID token, can be signed. */
  datatype Signing = Signing(tokensWork: bool, idTokenWorks: bool)

  /** The claims of the tokens issued; an ID token, addressed to the client, is there with the openid scope, unless
      signing it failed. */
  datatype TokenResponse = TokenResponse(
    userID: string, tenantID: string, roles: seq<string>, scope: string, idTokenAudience: Option<string>)

  datatype GrantError = CodeRequired | InvalidClient | InvalidOrExpiredCode | RedirectMismatch | SigningFailed

  type Codes = map<string, AuthCode>
  type Clients = map<string, Client>

  const CODE_LIFETIME := 10 * MINUTE

  predicate ValidClient(clients: Clients, clientID: string, secret: string) {
    clientID in clients && clients[clientID].enabled && clients[clientID].clientSecret == "hashed_" + secret
  }

  function ResponseFor(a: AuthCode, clientID: string, idTokenWorks: bool): TokenResponse {
    TokenResponse(a.userID, a.tenantID, a.scopes, Join(a.scopes, ' '),
      if "openid" in a.scopes && idTokenWorks then Some(clientID) else None)
  }

  function Live(codes: Codes, code: string, now: int): Option<AuthCode> {
    if code in codes && now <= codes[code].expiresAt then Some(codes[code]) else None
  }

  /** The store after a token request, and its outcome. `deleteWorks` is whether the database carries out the
      deletion of the consumed code, whose error is ignored. */
  function Redeem(codes: Codes, clients: Clients, req: TokenRequest, now: int, deleteWorks: bool, signing: Signing)
    : (out: (Codes, Result<TokenResponse, GrantError>))
  {
    if req.code == "" then (codes, Failure(CodeRequired))
    else if !ValidClient(clients, req.clientID, req.clientSecret) then (codes, Failure(InvalidClient))
    else
      match Live(codes, req.code, now)
      case None => (if deleteWorks then codes - {req.code} else codes, Failure(InvalidOrExpiredCode))
      case Some(a) =>
        (if deleteWorks then codes - {req.code} else codes,
         if req.redirectURI != a.redirectURI then Failure(RedirectMismatch)
         else if !signing.tokensWork then Failure(SigningFailed)
         else Success(ResponseFor(a, req.clientID, signing.idTokenWorks)))
  }

  class IdentityProvider {
    var codes: Codes
    var clients: Clients

    constructor (clients: Clients)
      ensures codes == map[] && this.clients == clients
    {
      codes, this.clients := map[], clients;
    }

    /** The code is random; the primary key refuses one that is in use. */
    method CreateAuthCode(code: string, grant: AuthCode, now: int) returns (ok: bool)
      modifies this`codes
      ensures ok <==> code !in old(codes)
      ensures codes == Issued(old(codes), code, grant, now)
    {
      if code in codes {
        return false;
      }
      codes := codes[code := grant.(expiresAt := now + CODE_LIFETIME)];
      return true;
    }

    /** An expired row is deleted on sight. */
    method FindByCode(code: string, now: int, deleteWorks: bool) returns (r: Option<AuthCode>)
      modifies this`codes
      ensures r == Live(old(codes), code, now)
      ensures codes == if deleteWorks && r.None? then old(codes) - {code} else old(codes)
    {
      if code !in codes {
        assert codes == codes - {code};
        return None;
      }
      if now > codes[code].expiresAt {
        if deleteWorks {
          codes := codes - {code};
        }
        return None;
      }
      return Some(codes[code]);
    }

    method ConsumeAuthCode(code: string, now: int, deleteWorks: bool) returns (r: Option<AuthCode>)
      modifies this`codes
      ensures r == Live(old(codes), code, now)
      ensures codes == if deleteWorks then old(codes) - {code} else old(codes)
    {
      r := FindByCode(code, now, deleteWorks);
      if r.None? {
        return;
      }
      if deleteWorks {
        codes := codes - {code};
      }
    }

    method HandleAuthorizationCodeGrant(req: TokenRequest, now: int, deleteWorks: bool, signing: Signing)
      returns (r: Result<TokenResponse, GrantError>)
      modifies this`codes
      ensures (codes, r) == Redeem(old(codes), clients, req, now, deleteWorks, signing)
    {
      if req.code == "" {
        return Failure(CodeRequired);
      }
      if !ValidClient(clients, req.clientID, req.clientSecret) {
        return Failure(InvalidClient);
      }
      var found := ConsumeAuthCode(req.code, now, deleteWorks);
      if found.None? {
        return Failure(InvalidOrExpiredCode);
      }
      var authCode := found.value;
      if req.redirectURI != authCode.redirectURI {
        return Failure(RedirectMismatch);
      }
      if !signing.tokensWork {
        return Failure(SigningFailed);
      }
      var audience: Option<string> := None;
      var openid := ContainsScope(authCode.scopes, "openid");
      if openid && signing.idTokenWorks {
        audience := Some(req.clientID);
      }
      var scope := JoinScopes(authCode.scopes);
      return Success(TokenResponse(authCode.userID, authCode.tenantID, authCode.scopes, scope, audience));
    }
  }

  // ---------- The outcome of one request ----------

  /** The client is registered and enabled, and its stored secret is made from the secret presented. */
  predicate Authenticates(clients: Clients, req: TokenRequest) {
    req.clientID in clients && clients[req.clientID] == Client("hashed_" + req.clientSecret, true)
  }

  /** Which requests get which outcome. The store is touched by none without a code or with a client that does not
      authenticate; any other request removes its code, if the deletion works, and nothing else. */
  lemma OutcomeIff(codes: Codes, clients: Clients, req: TokenRequest, now: int, deleteWorks: bool, signing: Signing)
    ensures var (codes', r) := Redeem(codes, clients, req, now, deleteWorks, signing);
            var known := req.code != "" && Authenticates(clients, req);
            var found := known && req.code in codes && now <= codes[req.code].expiresAt;
            var matching := found && req.redirectURI == codes[req.code].redirectURI;
            && (r == Failure(CodeRequired) <==> req.code == "")
            && (r == Failure(InvalidClient) <==> req.code != "" && !Authenticates(clients, req))
            && (r == Failure(InvalidOrExpiredCode) <==> known && !found)
            && (r == Failure(RedirectMismatch) <==> found && !matching)
            && (r == Failure(SigningFailed) <==> matching && !signing.tokensWork)
            && (r.Success? <==> matching && signing.tokensWork)
            && (!known || !deleteWorks ==> codes' == codes)
            && (known && deleteWorks ==> req.code !in codes')
            && forall c :: c != req.code ==> (c in codes' <==> c in codes) && (c in codes ==> codes'[c] == codes[c])
  {
  }

  function Issued(codes: Codes, code: string, grant: AuthCode, now: int): Codes {
    if code in codes then codes else codes[code := grant.(expiresAt := now + CODE_LIFETIME)]
  }

  // ---------- Runs ----------

  datatype Event =
    | Issue(code: string, grant: AuthCode, at: int)
    | Token(clients: Clients, req: TokenRequest, at: int, deleteWorks: bool, signing: Signing)
    | DeleteExpired(at: int)

  function Step(codes: Codes, e: Event): Codes {
    match e
    case Issue(code, grant, now) => Issued(codes, code, grant, now)
    case Token(clients, req, now, deleteWorks, signing) => Redeem(codes, clients, req, now, deleteWorks, signing).0
    case DeleteExpired(now) => map c | c in codes && codes[c].expiresAt >= now :: codes[c]
  }

  /** The codes stored after the first `n` events. */
  function After(es: seq<Event>, n: nat): Codes
    requires n <= |es|
  {
    if n == 0 then map[] else Step(After(es, n - 1), es[n - 1])
  }

  function Outcome(es: seq<Event>, i: nat): Result<TokenResponse, GrantError>
    requires i < |es| && es[i].Token?
  {
    Redeem(After(es, i), es[i].clients, es[i].req, es[i].at, es[i].deleteWorks, es[i].signing).1
  }

  predicate Accepts(es: seq<Event>, i: nat, code: string)
    requires i < |es|
  {
    es[i].Issue? && es[i].code == code && code !in After(es, i)
  }

  predicate Responds(es: seq<Event>, i: nat, code: string)
    requires i < |es|
  {
    es[i].Token? && es[i].req.code == code && Outcome(es, i).Success?
  }

  function CountIssued(es: seq<Event>, n: nat, code: string): nat
    requires n <= |es|
  {
    if n == 0 then 0 else CountIssued(es, n - 1, code) + (if Accepts(es, n - 1, code) then 1 else 0)
  }

  function CountResponses(es: seq<Event>, n: nat, code: string): nat
    requires n <= |es|
  {
    if n == 0 then 0 else CountResponses(es, n - 1, code) + (if Responds(es, n - 1, code) then 1 else 0)
  }

  /** Token responses whose code stayed in the store because its deletion failed. */
  function CountKept(es: seq<Event>, n: nat, code: string): nat
    requires n <= |es|
  {
    if n == 0 then 0
    else CountKept(es, n - 1, code) + (if Responds(es, n - 1, code) && !es[n - 1].deleteWorks then 1 else 0)
  }

  /** Conservation: every response of a code uses up one issue of it, unless the deletion failed. */
  lemma {:induction false} CodesConserved(es: seq<Event>, n: nat, code: string)
    requires n <= |es|
    ensures CountResponses(es, n, code) + (if code in After(es, n) then 1 else 0)
         <= CountIssued(es, n, code) + CountKept(es, n, code)
  {
    if n > 0 {
      CodesConserved(es, n - 1, code);
    }
  }

  /** One-time use: a code that was issued once yields at most one response in any run, as long as no response leaves
      it in the store. */
  lemma AtMostOneResponse(es: seq<Event>, code: string)
    requires CountIssued(es, |es|, code) <= 1
    requires CountKept(es, |es|, code) == 0
    ensures CountResponses(es, |es|, code) <= 1
  {
    CodesConserved(es, |es|, code);
  }

  /** The event removes a code that expires at `expiry`. */
  predicate Removes(e: Event, code: string, expiry: int) {
    match e
    case Issue(_, _, _) => false
    case Token(clients, req, _, deleteWorks, _) =>
      req.code == code != "" && deleteWorks && Authenticates(clients, req)
    case DeleteExpired(now) => expiry < now
  }

  lemma StepRemoves(codes: Codes, e: Event, code: string)
    ensures code in codes ==>
              && (code in Step(codes, e) <==> !Removes(e, code, codes[code].expiresAt))
              && (code in Step(codes, e) ==> Step(codes, e)[code] == codes[code])
    ensures code !in codes && !(e.Issue? && e.code == code) ==> code !in Step(codes, e)
  {
  }

  /** A stored code stays as it is until it is removed. */
  lemma {:induction false} StoredUntilRemoved(es: seq<Event>, i: nat, n: nat, code: string)
    requires i <= n <= |es| && code in After(es, i)
    requires forall m :: i <= m < n ==> !Accepts(es, m, code)
    ensures var a := After(es, i)[code];
            && (code in After(es, n) <==> forall m :: i <= m < n ==> !Removes(es[m], code, a.expiresAt))
            && (code in After(es, n) ==> After(es, n)[code] == a)
  {
    if i < n {
      StoredUntilRemoved(es, i, n - 1, code);
      assert !Accepts(es, n - 1, code);
      StepRemoves(After(es, n - 1), es[n - 1], code);
      hide Step, Removes;
    }
  }

  /** Replay: after a response, and unless the same code is issued anew, a later request gets another response exactly
      if nothing, that first response included, has removed the code, it has not expired, and the request would have
      been good enough as the first one. */
  lemma ReplayIff(es: seq<Event>, i: nat, k: nat, code: string)
    requires i < k < |es| && Responds(es, i, code) && es[k].Token? && es[k].req.code == code
    requires forall m :: i < m < k ==> !Accepts(es, m, code)
    ensures code in After(es, i)
    ensures var a, e := After(es, i)[code], es[k];
            Responds(es, k, code) <==>
            && !es[i].deleteWorks && (forall m :: i < m < k ==> !Removes(es[m], code, a.expiresAt))
            && e.at <= a.expiresAt
            && Authenticates(e.clients, e.req)
            && e.req.redirectURI == a.redirectURI && e.signing.tokensWork
  {
    StoredUntilRemoved(es, i, k, code);
    assert Removes(es[i], code, After(es, i)[code].expiresAt) <==> es[i].deleteWorks;
  }

  /** A stored code goes back to the event that issued it, and since then no token request has consumed it. */
  lemma {:induction false} StoredCodeOrigin(es: seq<Event>, n: nat, code: string) returns (j: nat)
    requires n <= |es| && code in After(es, n)
    ensures j < n && Accepts(es, j, code)
    ensures After(es, n)[code] == es[j].grant.(expiresAt := es[j].at + 600 * 1_000_000_000)
    ensures forall k :: j < k < n && Responds(es, k, code) ==> !es[k].deleteWorks
  {
    if code in After(es, n - 1) {
      j := StoredCodeOrigin(es, n - 1, code);
    } else {
      j := n - 1;
    }
  }

  /** Every token response comes from an earlier issue of the presented code: it carries the user, tenant and
      scopes the code was created with, for the redirect URI it was created with, within ten minutes, and no
      response in between consumed the code. */
  lemma ResponseOrigin(es: seq<Event>, i: nat) returns (j: nat)
    requires i < |es| && es[i].Token? && Outcome(es, i).Success?
    ensures j < i && Accepts(es, j, es[i].req.code)
    ensures var g, resp := es[j].grant, Outcome(es, i).value;
            && resp.userID == g.userID && resp.tenantID == g.tenantID && resp.roles == g.scopes
            && resp.scope == Join(g.scopes, ' ')
            && resp.idTokenAudience == (if "openid" in g.scopes && es[i].signing.idTokenWorks then Some(es[i].req.clientID) else None)
            && es[i].req.redirectURI == g.redirectURI
            && es[i].at <= es[j].at + 600 * 1_000_000_000
            && Authenticates(es[i].clients, es[i].req)
    ensures forall k :: j < k < i && Responds(es, k, es[i].req.code) ==> !es[k].deleteWorks
  {
    j := StoredCodeOrigin(es, i, es[i].req.code);
  }

  /** A code presented with a wrong redirect URI, or whose tokens could not be signed, is spent all the same. */
  lemma FailureSpendsTheCode(codes: Codes, clients: Clients, req: TokenRequest, now: int, signing: Signing,
                             later: TokenRequest, then': int, works: bool, signing': Signing)
    requires Redeem(codes, clients, req, now, true, signing).1 in {Failure(RedirectMismatch), Failure(SigningFailed)}
    requires later.code == req.code
    ensures Redeem(Redeem(codes, clients, req, now, true, signing).0, clients, later, then', works, signing').1.Failure?
  {
    assert req.code !in Redeem(codes, clients, req, now, true, signing).0;
  }

  /** Section 4.1.3 also asks that the code was issued to the client that presents it. The handler does not look:
      no outcome depends on the client recorded with the code. */
  lemma IssuingClientNotConsulted(codes: Codes, clients: Clients, req: TokenRequest, now: int, works: bool,
                                  signing: Signing, clientID: string)
    requires req.code in codes
    ensures Redeem(codes[req.code := codes[req.code].(clientID := clientID)], clients, req, now, works, signing).1
         == Redeem(codes, clients, req, now, works, signing).1
  {
    var a := codes[req.code];
    assert ResponseFor(a.(clientID := clientID), req.clientID, signing.idTokenWorks)
        == ResponseFor(a, req.clientID, signing.idTokenWorks);
  }
}
