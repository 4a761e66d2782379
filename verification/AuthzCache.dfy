/**
 The decision cache: string keys, entries that expire, and invalidation by glob
 pattern. Redis is a map from keys to entries with an expiry time; it reads the
 characters * ? [ ] and \ of a pattern specially. The patterns built here contain
 only '*' besides their components, and every exactness result is about
 components without any of the five. A key may hold them.
 */
module AuthzCaching {
  import opened Decision
  import opened Text
  import opened Wrappers

  datatype Fields = Fields(tenantID: string, userID: string, resourceType: string, resourceID: string, action: string)

  datatype Entry = Entry(verdict: Verdict, expires: int)

  function FieldsOf(req: Request): Fields {
    Fields(req.tenantID, req.userID, req.resourceType, req.resourceID, req.action)
  }

  function CacheKey(f: Fields): string {
    "authz" + ":" + (f.tenantID + ":" + (f.userID + ":" + (f.resourceType + ":" + (f.resourceID + ":" + f.action))))
  }

  /** Free of the characters a glob reads specially. */
  predicate GlobFree(s: string) {
    '*' !in s && '?' !in s && '[' !in s && ']' !in s && '\\' !in s
  }

  /** And of the key separator. */
  predicate Plain(s: string) {
    GlobFree(s) && ':' !in s
  }

  /** No field but the last holds a separator, so that the key can be taken apart again. */
  predicate Separable(f: Fields) {
    ':' !in f.tenantID && ':' !in f.userID && ':' !in f.resourceType && ':' !in f.resourceID
  }

  // ---------- Keys ----------

  lemma SplitKey(f: Fields)
    requires Separable(f)
    ensures Split(CacheKey(f), ':') ==
            ["authz", f.tenantID, f.userID, f.resourceType, f.resourceID] + Split(f.action, ':')
  {
    hide Split;
    var k4 := f.resourceID + ":" + f.action;
    var k3 := f.resourceType + ":" + k4;
    var k2 := f.userID + ":" + k3;
    var k1 := f.tenantID + ":" + k2;
    SplitCons(f.resourceID, f.action, ':');
    SplitCons(f.resourceType, k4, ':');
    SplitCons(f.userID, k3, ':');
    SplitCons(f.tenantID, k2, ':');
    SplitCons("authz", k1, ':');
    assert Split(k2, ':') == [f.userID] + ([f.resourceType] + ([f.resourceID] + Split(f.action, ':')));
    assert Split(CacheKey(f), ':') == ["authz"] + ([f.tenantID] + Split(k2, ':'));
  }

  predicate ColonFree(f: Fields) {
    Separable(f) && ':' !in f.action
  }

  function Pieces(f: Fields): seq<string> {
    [f.tenantID, f.userID, f.resourceType, f.resourceID, f.action]
  }

  function FromPieces(xs: seq<string>): Fields
    requires |xs| == 5
  {
    Fields(xs[0], xs[1], xs[2], xs[3], xs[4])
  }

  lemma KeyIsJoin(f: Fields)
    ensures CacheKey(f) == Join(["authz"] + Pieces(f), ':')
  {
    var p4, p3 := [f.resourceID] + [f.action], [f.resourceType] + ([f.resourceID] + [f.action]);
    var p2, p1 := [f.userID] + p3, [f.tenantID] + ([f.userID] + p3);
    assert Join([f.action], ':') == f.action;
    hide Join;
    JoinCons(f.resourceID, [f.action], ':');
    JoinCons(f.resourceType, p4, ':');
    JoinCons(f.userID, p3, ':');
    JoinCons(f.tenantID, p2, ':');
    JoinCons("authz", p1, ':');
    assert p1 == Pieces(f);
  }

  lemma PiecesFree(f: Fields)
    ensures AllFree(["authz"] + Pieces(f), ':') <==> ColonFree(f)
    ensures AllFree(Pieces(f), ':') <==> ColonFree(f)
  {
    var xs, ys := Pieces(f), ["authz"] + Pieces(f);
    assert forall p :: p in xs <==> p == f.tenantID || p == f.userID || p == f.resourceType || p == f.resourceID || p == f.action;
    assert forall p :: p in ys <==> p == "authz" || p in xs;
  }

  /** A request without colons shares its key with no request that has one: its key falls into six pieces. */
  lemma SharedKeyColonFree(f: Fields, g: Fields)
    requires ColonFree(f) && CacheKey(f) == CacheKey(g)
    ensures ColonFree(g)
  {
    KeyIsJoin(f);
    KeyIsJoin(g);
    PiecesFree(f);
    PiecesFree(g);
    hide Join;
    PiecesOfJoin(["authz"] + Pieces(f), ':');
    PiecesOfJoin(["authz"] + Pieces(g), ':');
  }

  /** Equal keys mean equal fields if neither request has a colon before the action, or one of the two has none at
      all, whatever the other is. */
  lemma KeyInjective(f: Fields, g: Fields)
    requires (Separable(f) && Separable(g)) || ColonFree(f) || ColonFree(g)
    ensures CacheKey(f) == CacheKey(g) <==> f == g
  {
    if CacheKey(f) == CacheKey(g) {
      if ColonFree(f) {
        SharedKeyColonFree(f, g);
      } else if ColonFree(g) {
        SharedKeyColonFree(g, f);
      }
      SplitKey(f);
      SplitKey(g);
      var a, b := Split(CacheKey(f), ':'), Split(CacheKey(g), ':');
      assert a[1] == b[1] && a[2] == b[2] && a[3] == b[3] && a[4] == b[4];
      assert a[5..] == Split(f.action, ':') && b[5..] == Split(g.action, ':');
      JoinSplit(f.action, ':');
      JoinSplit(g.action, ':');
    }
  }

  /** Whenever a field holds a colon there is another request with the same key. */
  lemma KeyCollision(f: Fields) returns (g: Fields)
    requires !ColonFree(f)
    ensures g != f && CacheKey(g) == CacheKey(f)
  {
    KeyIsJoin(f);
    PiecesFree(f);
    var xs := Pieces(f);
    hide Join;
    var ys := Twin(["authz"], xs, [], ':');
    g := FromPieces(ys);
    KeyIsJoin(g);
    assert Pieces(g) == ys;
    assert ["authz"] + xs + [] == ["authz"] + xs && ["authz"] + ys + [] == ["authz"] + ys;
  }

  /** So a request has its key to itself exactly if none of its fields holds a colon. */
  lemma OwnKeyIff(f: Fields)
    ensures ColonFree(f) <==> forall g: Fields :: CacheKey(g) == CacheKey(f) ==> g == f
  {
    if ColonFree(f) {
      forall g: Fields | CacheKey(g) == CacheKey(f) ensures g == f {
        KeyInjective(g, f);
      }
    } else {
      var g := KeyCollision(f);
    }
  }

  // ---------- Globs ----------

  /** Matching with '*' for any run of characters; every other character stands for itself. */
  predicate GlobMatch(pattern: string, s: string)
    decreases |pattern|, |s|
  {
    if pattern == "" then s == ""
    else if pattern[0] == '*' then GlobMatch(pattern[1..], s) || (s != "" && GlobMatch(pattern, s[1..]))
    else s != "" && s[0] == pattern[0] && GlobMatch(pattern[1..], s[1..])
  }

  lemma {:induction false} LiteralThen(prefix: string, pattern: string, s: string)
    requires '*' !in prefix
    ensures GlobMatch(prefix + pattern, s) <==>
            |prefix| <= |s| && s[..|prefix|] == prefix && GlobMatch(pattern, s[|prefix|..])
  {
    if prefix == "" {
      assert prefix + pattern == pattern;
    } else {
      assert (prefix + pattern)[1..] == prefix[1..] + pattern;
      if s != "" && s[0] == prefix[0] {
        LiteralThen(prefix[1..], pattern, s[1..]);
        if |prefix| <= |s| {
          assert s[..|prefix|] == [s[0]] + s[1..][..|prefix| - 1];
          assert prefix == [prefix[0]] + prefix[1..];
        }
      } else if |prefix| <= |s| {
        assert s != "" ==> s[..|prefix|][0] != prefix[0];
      }
    }
  }

  lemma {:induction false} StarThen(pattern: string, s: string)
    ensures GlobMatch("*" + pattern, s) <==> exists i :: 0 <= i <= |s| && GlobMatch(pattern, s[i..])
  {
    assert ("*" + pattern)[1..] == pattern;
    assert s[0..] == s;
    if s != "" {
      StarThen(pattern, s[1..]);
      assert forall i :: 0 <= i <= |s[1..]| ==> s[1..][i..] == s[i + 1..];
      if exists i :: 0 <= i <= |s| && GlobMatch(pattern, s[i..]) {
        var i :| 0 <= i <= |s| && GlobMatch(pattern, s[i..]);
        if i > 0 {
          assert s[1..][i - 1..] == s[i..];
        }
      }
      if exists i :: 0 <= i <= |s[1..]| && GlobMatch(pattern, s[1..][i..]) {
        var i :| 0 <= i <= |s[1..]| && GlobMatch(pattern, s[1..][i..]);
        assert s[i + 1..] == s[1..][i..];
      }
    }
  }

  lemma {:induction false} TrailingStar(s: string)
    ensures GlobMatch("*", s)
  {
    if s != "" {
      TrailingStar(s[1..]);
    }
  }

  /** `literal*` matches exactly the strings that start with the literal. */
  lemma PrefixPattern(prefix: string, s: string)
    requires '*' !in prefix
    ensures GlobMatch(prefix + "*", s) <==> |prefix| <= |s| && s[..|prefix|] == prefix
  {
    LiteralThen(prefix, "*", s);
    if |prefix| <= |s| {
      TrailingStar(s[|prefix|..]);
    }
  }

  /** `prefix*middle*` matches exactly the strings of the form prefix + x + middle + y. */
  lemma MiddlePattern(prefix: string, middle: string, s: string)
    requires '*' !in prefix && '*' !in middle
    ensures GlobMatch(prefix + ("*" + (middle + "*")), s) <==> exists x, y :: s == prefix + (x + (middle + y))
  {
    LiteralThen(prefix, "*" + (middle + "*"), s);
    if |prefix| <= |s| && s[..|prefix|] == prefix {
      MiddleOfRest(middle, s[|prefix|..]);
      assert s == prefix + s[|prefix|..];
    }
    forall x, y | s == prefix + (x + (middle + y))
      ensures |prefix| <= |s| && s[..|prefix|] == prefix && s[|prefix|..] == x + (middle + y)
    {
    }
  }

  lemma MiddleOfRest(middle: string, rest: string)
    requires '*' !in middle
    ensures GlobMatch("*" + (middle + "*"), rest) <==> exists x, y :: rest == x + (middle + y)
  {
    StarThen(middle + "*", rest);
    if GlobMatch("*" + (middle + "*"), rest) {
      var i :| 0 <= i <= |rest| && GlobMatch(middle + "*", rest[i..]);
      PrefixPattern(middle, rest[i..]);
      assert rest[i..] == middle + rest[i..][|middle|..];
      assert rest == rest[..i] + (middle + rest[i..][|middle|..]);
    }
    if x, y :| rest == x + (middle + y) {
      assert rest[|x|..] == middle + y;
      PrefixPattern(middle, middle + y);
      assert GlobMatch(middle + "*", rest[|x|..]);
    }
  }

  // ---------- Invalidation patterns ----------

  function InstancePattern(tenantID: string, userID: string, resourceType: string, resourceID: string): string {
    InstancePrefix(tenantID, userID, resourceType, resourceID) + "*"
  }

  function ResourcePattern(tenantID: string, resourceType: string, resourceID: string): string {
    TenantPrefix(tenantID) + ("*" + (ResourceMiddle(resourceType, resourceID) + "*"))
  }

  function TenantPattern(tenantID: string): string {
    TenantPrefix(tenantID) + "*"
  }

  function TenantPrefix(tenantID: string): string {
    "authz" + ":" + (tenantID + ":")
  }

  function InstancePrefix(tenantID: string, userID: string, resourceType: string, resourceID: string): string {
    "authz" + ":" + (tenantID + ":" + (userID + ":" + (resourceType + ":" + (resourceID + ":"))))
  }

  function ResourceMiddle(resourceType: string, resourceID: string): string {
    ":" + (resourceType + ":" + (resourceID + ":"))
  }

  /** The pieces of any string that starts with the tenant prefix. */
  lemma SplitTenantPrefix(tenantID: string, rest: string)
    requires ':' !in tenantID
    ensures TenantPrefix(tenantID) + rest == "authz" + ":" + (tenantID + ":" + rest)
    ensures Split(TenantPrefix(tenantID) + rest, ':') == ["authz", tenantID] + Split(rest, ':')
  {
    hide Split;
    SplitCons(tenantID, rest, ':');
    SplitCons("authz", tenantID + ":" + rest, ':');
    assert TenantPrefix(tenantID) + rest == "authz" + ":" + (tenantID + ":" + rest);
  }

  lemma SplitResourceMiddle(x: string, resourceType: string, resourceID: string, y: string)
    requires ':' !in resourceType && ':' !in resourceID
    ensures x + (ResourceMiddle(resourceType, resourceID) + y) == x + ":" + (resourceType + ":" + (resourceID + ":" + y))
    ensures Split(x + (ResourceMiddle(resourceType, resourceID) + y), ':')
         == Split(x, ':') + [resourceType, resourceID] + Split(y, ':')
  {
    SplitCons(resourceID, y, ':');
    SplitCons(resourceType, resourceID + ":" + y, ':');
    SplitConcat(x, resourceType + ":" + (resourceID + ":" + y), ':');
    MiddleThen(resourceType, resourceID, y);
    Reassociate(x, ":", resourceType + ":" + (resourceID + ":" + y));
  }

  lemma Reassociate(a: string, b: string, c: string)
    ensures a + (b + c) == a + b + c
  {
  }

  lemma MiddleThen(resourceType: string, resourceID: string, y: string)
    ensures ResourceMiddle(resourceType, resourceID) + y == ":" + (resourceType + ":" + (resourceID + ":" + y))
  {
    Reassociate(":", resourceType + ":" + (resourceID + ":"), y);
    Reassociate(resourceType + ":", resourceID + ":", y);
  }

  /** `InvalidateByTenant` hits exactly the keys of the tenant, whatever their other fields hold. */
  lemma TenantPatternExact(tenantID: string, f: Fields)
    requires Plain(tenantID) && ':' !in f.tenantID
    ensures GlobMatch(TenantPattern(tenantID), CacheKey(f)) <==> f.tenantID == tenantID
  {
    var prefix, s := TenantPrefix(tenantID), CacheKey(f);
    var rest := f.userID + ":" + (f.resourceType + ":" + (f.resourceID + ":" + f.action));
    PrefixPattern(prefix, s);
    SplitTenantPrefix(f.tenantID, rest);
    if |prefix| <= |s| && s[..|prefix|] == prefix {
      assert s == prefix + s[|prefix|..];
      SplitTenantPrefix(tenantID, s[|prefix|..]);
      assert Split(s, ':')[1] == tenantID;
    }
  }

  /** `Invalidate` hits exactly the keys of the user and resource instance, whatever the action. */
  lemma InstancePatternExact(tenantID: string, userID: string, resourceType: string, resourceID: string, f: Fields)
    requires Plain(tenantID) && Plain(userID) && Plain(resourceType) && Plain(resourceID) && Separable(f)
    ensures GlobMatch(InstancePattern(tenantID, userID, resourceType, resourceID), CacheKey(f)) <==>
            f.tenantID == tenantID && f.userID == userID && f.resourceType == resourceType && f.resourceID == resourceID
  {
    var prefix, s := InstancePrefix(tenantID, userID, resourceType, resourceID), CacheKey(f);
    PrefixPattern(prefix, s);
    if |prefix| <= |s| && s[..|prefix|] == prefix {
      var g := Fields(tenantID, userID, resourceType, resourceID, s[|prefix|..]);
      assert s == prefix + g.action;
      InstanceKey(g);
      KeyInjective(f, g);
    }
    if f == Fields(tenantID, userID, resourceType, resourceID, f.action) {
      InstanceKey(f);
    }
  }

  lemma InstanceKey(f: Fields)
    ensures CacheKey(f) == InstancePrefix(f.tenantID, f.userID, f.resourceType, f.resourceID) + f.action
  {
    var p4 := f.resourceID + ":";
    var p3 := f.resourceType + ":" + p4;
    var p2 := f.userID + ":" + p3;
    var p1 := f.tenantID + ":" + p2;
    assert p3 + f.action == f.resourceType + ":" + (p4 + f.action);
    assert p2 + f.action == f.userID + ":" + (p3 + f.action);
    assert p1 + f.action == f.tenantID + ":" + (p2 + f.action);
    assert "authz" + ":" + p1 + f.action == "authz" + ":" + (p1 + f.action);
  }

  /** `InvalidateByResource` hits exactly the keys of the resource instance, whoever the user: the two stars
      share the two pieces of the key the pattern does not name, so each of them covers exactly one. */
  lemma ResourcePatternExact(tenantID: string, resourceType: string, resourceID: string, f: Fields)
    requires Plain(tenantID) && Plain(resourceType) && Plain(resourceID) && ColonFree(f)
    ensures GlobMatch(ResourcePattern(tenantID, resourceType, resourceID), CacheKey(f)) <==>
            f.tenantID == tenantID && f.resourceType == resourceType && f.resourceID == resourceID
  {
    var prefix, middle, s := TenantPrefix(tenantID), ResourceMiddle(resourceType, resourceID), CacheKey(f);
    MiddlePattern(prefix, middle, s);
    if x, y :| s == prefix + (x + (middle + y)) {
      SplitTenantPrefix(tenantID, x + (middle + y));
      SplitResourceMiddle(x, resourceType, resourceID, y);
      SplitKey(f);
      SplitFree(f.action, ':');
      var parts := Split(s, ':');
      assert |parts| == 6 && |Split(x, ':')| == 1;
      assert parts[1] == tenantID && parts[3] == resourceType && parts[4] == resourceID;
    }
    if f.tenantID == tenantID && f.resourceType == resourceType && f.resourceID == resourceID {
      SplitResourceMiddle(f.userID, resourceType, resourceID, f.action);
      SplitTenantPrefix(tenantID, f.userID + (middle + f.action));
      assert s == prefix + (f.userID + (middle + f.action));
    }
  }

  /** The tenant pattern hits the tenant's keys even if their other fields, or the tenant, hold colons. */
  lemma TenantPatternHits(f: Fields)
    requires GlobFree(f.tenantID)
    ensures GlobMatch(TenantPattern(f.tenantID), CacheKey(f))
  {
    var prefix, s := TenantPrefix(f.tenantID), CacheKey(f);
    var rest := f.userID + ":" + (f.resourceType + ":" + (f.resourceID + ":" + f.action));
    PrefixPattern(prefix, s);
    assert s == prefix + rest;
  }

  // ---------- The cache ----------

  type Entries = map<string, Entry>

  function Live(entries: Entries, key: string, now: int): Option<Verdict> {
    if key in entries && now < entries[key].expires then Some(entries[key].verdict) else None
  }

  /** What `KEYS pattern` followed by `DEL` leaves. */
  function Without(entries: Entries, pattern: string): Entries {
    map k | k in entries && !GlobMatch(pattern, k) :: entries[k]
  }

  /** What the three invalidations leave: an entry goes exactly if its key is one of the tenant's, of the user's and
      resource's, of the resource's; all others stay as they are. */
  lemma InvalidationExact(entries: Entries, f: Fields, tenantID: string, userID: string, resourceType: string, resourceID: string)
    requires Plain(tenantID) && Plain(userID) && Plain(resourceType) && Plain(resourceID) && ColonFree(f)
    requires CacheKey(f) in entries
    ensures var key := CacheKey(f);
            var byTenant := Without(entries, TenantPattern(tenantID));
            var byInstance := Without(entries, InstancePattern(tenantID, userID, resourceType, resourceID));
            var byResource := Without(entries, ResourcePattern(tenantID, resourceType, resourceID));
            var sameResource := f.tenantID == tenantID && f.resourceType == resourceType && f.resourceID == resourceID;
            && (key in byTenant <==> f.tenantID != tenantID)
            && (key in byInstance <==> !(sameResource && f.userID == userID))
            && (key in byResource <==> !sameResource)
            && forall after, k :: after in {byTenant, byInstance, byResource} && k in after ==>
                 k in entries && after[k] == entries[k]
  {
    TenantPatternExact(tenantID, f);
    InstancePatternExact(tenantID, userID, resourceType, resourceID, f);
    ResourcePatternExact(tenantID, resourceType, resourceID, f);
    hide CacheKey, GlobMatch, TenantPattern, InstancePattern, ResourcePattern;
  }

  class AuthzCache {
    const ttl: int
    var entries: Entries

    constructor (ttl: int)
      requires ttl > 0
      ensures this.ttl == ttl && entries == map[]
    {
      this.ttl := ttl;
      entries := map[];
    }

    method Get(f: Fields, now: int) returns (r: Option<Verdict>)
      ensures r == Live(entries, CacheKey(f), now)
    {
      var key := CacheKey(f);
      if key !in entries || entries[key].expires <= now {
        return None;
      }
      return Some(entries[key].verdict);
    }

    method Set(f: Fields, v: Verdict, now: int)
      modifies this
      ensures entries == old(entries)[CacheKey(f) := Entry(v, now + ttl)]
    {
      entries := entries[CacheKey(f) := Entry(v, now + ttl)];
    }

    method DeleteMatching(pattern: string)
      modifies this
      ensures entries == Without(old(entries), pattern)
    {
      var keys := set k | k in entries && GlobMatch(pattern, k);
      if |keys| > 0 {
        entries := entries - keys;
      } else {
        assert forall k :: k in entries && GlobMatch(pattern, k) ==> k in keys;
        assert entries == Without(entries, pattern);
      }
    }

    method Invalidate(tenantID: string, userID: string, resourceType: string, resourceID: string)
      modifies this
      ensures entries == Without(old(entries), InstancePattern(tenantID, userID, resourceType, resourceID))
    {
      DeleteMatching(InstancePattern(tenantID, userID, resourceType, resourceID));
    }

    method InvalidateByResource(tenantID: string, resourceType: string, resourceID: string)
      modifies this
      ensures entries == Without(old(entries), ResourcePattern(tenantID, resourceType, resourceID))
    {
      DeleteMatching(ResourcePattern(tenantID, resourceType, resourceID));
    }

    method InvalidateByTenant(tenantID: string)
      modifies this
      ensures entries == Without(old(entries), TenantPattern(tenantID))
    {
      DeleteMatching(TenantPattern(tenantID));
    }
  }
}
