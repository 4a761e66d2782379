/** The sliding-window limiter on tenant signups. */
module RateLimit {
  import opened Sequences

  /** `t.After(cutoff)` for each entry. */
  function Recent(ts: seq<int>, cutoff: int): seq<int> {
    Filter(ts, (t: int) => t > cutoff)
  }

  predicate Admits(window: int, limit: int, ts: seq<int>, now: int) {
    |Recent(ts, now - window)| < limit
  }

  function NextList(window: int, limit: int, ts: seq<int>, now: int): seq<int> {
    var kept := Recent(ts, now - window);
    if Admits(window, limit, ts, now) then kept + [now] else kept
  }

  type Requests = map<string, seq<int>>

  function ListOf(requests: Requests, key: string): seq<int> {
    if key in requests then requests[key] else []
  }

  predicate MentionsEmailAt(data: string, i: int) {
    0 <= i && i + 7 <= |data| && data[i..i + 7] == "\"email\""
  }

  predicate EmailSeen(body: string) {
    |body| > 0 && body[0] == '{' && exists i :: 0 <= i < |body| && MentionsEmailAt(body, i)
  }

  function IpKey(ip: string): string {
    "tenant_signup:ip:" + ip
  }

  const EMAIL_KEY := "tenant_signup:email:extracted"

  class TenantSignupRateLimiter {
    const window: int
    const limit: int
    var requests: Requests

    constructor (limit: int, window: int)
      ensures this.limit == limit && this.window == window && requests == map[]
    {
      this.limit, this.window := limit, window;
      requests := map[];
    }

    method Allow(key: string, now: int) returns (admitted: bool)
      modifies this
      ensures admitted == Admits(window, limit, ListOf(old(requests), key), now)
      ensures requests == old(requests)[key := NextList(window, limit, ListOf(old(requests), key), now)]
    {
      var cutoff := now - window;
      var ts := ListOf(requests, key);
      var valid: seq<int> := [];
      for i := 0 to |ts|
        invariant requests == old(requests) && valid == Recent(ts[..i], cutoff)
      {
        assert ts[..i + 1] == ts[..i] + [ts[i]];
        FilterSnoc(ts[..i], ts[i], (t: int) => t > cutoff);
        if ts[i] > cutoff {
          valid := valid + [ts[i]];
        }
      }
      assert ts[..|ts|] == ts;
      if |valid| >= limit {
        requests := requests[key := valid];
        return false;
      }
      valid := valid + [now];
      requests := requests[key := valid];
      return true;
    }

    /** The middleware: the address first, then, if the body seems to hold an email, one key shared by all emails. */
    method Pass(ip: string, body: string, now: int) returns (passed: bool)
      modifies this
      ensures passed == Passes(window, limit, old(requests), ip, body, now)
      ensures requests == AfterPass(window, limit, old(requests), ip, body, now)
    {
      var admitted := Allow(IpKey(ip), now);
      if !admitted {
        return false;
      }
      if |body| > 0 && body[0] == '{' {
        var idx := FindEmailInJSON(body);
        if idx >= 0 {
          assert MentionsEmailAt(body, idx);
          admitted := Allow(EMAIL_KEY, now);
          return admitted;
        }
      }
      return true;
    }
  }

  /** The index of the first occurrence of the quoted word, or -1. */
  method FindEmailInJSON(data: string) returns (idx: int)
    ensures idx == -1 <==> forall i :: !MentionsEmailAt(data, i)
    ensures idx != -1 ==> MentionsEmailAt(data, idx) && forall i :: i < idx ==> !MentionsEmailAt(data, i)
  {
    var i := 0;
    while i < |data| - 6
      invariant 0 <= i
      invariant forall k :: k < i ==> !MentionsEmailAt(data, k)
    {
      if data[i] == '"' && i + 6 < |data| {
        if data[i..i + 7] == "\"email\"" {
          assert MentionsEmailAt(data, i);
          return i;
        }
      }
      assert MentionsEmailAt(data, i) ==> data[i..i + 7][0] == '"';
      i := i + 1;
    }
    return -1;
  }

  function Called(window: int, limit: int, requests: Requests, key: string, now: int): Requests {
    requests[key := NextList(window, limit, ListOf(requests, key), now)]
  }

  predicate Passes(window: int, limit: int, requests: Requests, ip: string, body: string, now: int) {
    && Admits(window, limit, ListOf(requests, IpKey(ip)), now)
    && (EmailSeen(body) ==>
          Admits(window, limit, ListOf(Called(window, limit, requests, IpKey(ip), now), EMAIL_KEY), now))
  }

  function AfterPass(window: int, limit: int, requests: Requests, ip: string, body: string, now: int): Requests {
    var first := Called(window, limit, requests, IpKey(ip), now);
    if Admits(window, limit, ListOf(requests, IpKey(ip)), now) && EmailSeen(body)
    then Called(window, limit, first, EMAIL_KEY, now)
    else first
  }

  lemma KeysDistinct(a: string, b: string)
    ensures IpKey(a) != EMAIL_KEY && (IpKey(a) == IpKey(b) <==> a == b)
  {
    assert IpKey(a)[14] == 'i' && EMAIL_KEY[14] == 'e';
    assert IpKey(a)[17..] == a && IpKey(b)[17..] == b;
  }

  // ---------- Whole runs ----------

  datatype Call = Call(key: string, now: int)

  ghost predicate Ordered(calls: seq<Call>) {
    forall i, j :: 0 <= i <= j < |calls| ==> calls[i].now <= calls[j].now
  }

  /** The limiter's table after a run of calls. */
  function After(window: int, limit: int, calls: seq<Call>): Requests {
    if calls == [] then map[]
    else
      var c := calls[|calls| - 1];
      Called(window, limit, After(window, limit, calls[..|calls| - 1]), c.key, c.now)
  }

  /** Every instant at which a run admitted the key, with nothing forgotten. */
  function Admissions(window: int, limit: int, calls: seq<Call>, key: string): seq<int> {
    if calls == [] then []
    else
      var front, c := calls[..|calls| - 1], calls[|calls| - 1];
      var history := Admissions(window, limit, front, key);
      if c.key == key && Admits(window, limit, ListOf(After(window, limit, front), key), c.now) then history + [c.now]
      else history
  }

  lemma CallSnoc(window: int, limit: int, calls: seq<Call>, c: Call, key: string)
    ensures After(window, limit, calls + [c]) == Called(window, limit, After(window, limit, calls), c.key, c.now)
    ensures Admissions(window, limit, calls + [c], key) ==
            if c.key == key && Admits(window, limit, ListOf(After(window, limit, calls), key), c.now)
            then Admissions(window, limit, calls, key) + [c.now] else Admissions(window, limit, calls, key)
  {
    assert (calls + [c])[..|calls|] == calls;
  }

  lemma RecentRecent(ts: seq<int>, c: int, d: int)
    requires c <= d
    ensures Recent(Recent(ts, c), d) == Recent(ts, d)
  {
    FilterFilter(ts, (t: int) => t > c, (t: int) => t > d, (t: int) => t > d);
  }

  lemma RecentSnoc(ts: seq<int>, t: int, c: int)
    ensures Recent(ts + [t], c) == Recent(ts, c) + (if t > c then [t] else [])
  {
    FilterSnoc(ts, t, (u: int) => u > c);
  }

  /** Forgetting pruned entries loses nothing: inside any later window the stored list and the full history agree,
      so a call is admitted exactly if fewer than `limit` of all past admissions lie in its window. */
  lemma {:induction false} PruningExact(window: int, limit: int, calls: seq<Call>, key: string, now: int)
    requires Ordered(calls) && (calls != [] ==> calls[|calls| - 1].now <= now)
    ensures Recent(ListOf(After(window, limit, calls), key), now - window)
         == Recent(Admissions(window, limit, calls, key), now - window)
    ensures Admits(window, limit, ListOf(After(window, limit, calls), key), now)
        <==> |Recent(Admissions(window, limit, calls, key), now - window)| < limit
  {
    if calls != [] {
      var front, c := calls[..|calls| - 1], calls[|calls| - 1];
      assert front != [] ==> front[|front| - 1] == calls[|front| - 1];
      PruningExact(window, limit, front, key, now);
      if c.key == key {
        var ts, history := ListOf(After(window, limit, front), key), Admissions(window, limit, front, key);
        PruningStep(window, limit, ts, history, c.now, now);
      }
      hide NextList, Recent;
    }
  }

  lemma PruningStep(window: int, limit: int, ts: seq<int>, history: seq<int>, before: int, now: int)
    requires before <= now && Recent(ts, now - window) == Recent(history, now - window)
    ensures Recent(NextList(window, limit, ts, before), now - window)
         == Recent(if Admits(window, limit, ts, before) then history + [before] else history, now - window)
  {
    RecentRecent(ts, before - window, now - window);
    RecentSnoc(Recent(ts, before - window), before, now - window);
    RecentSnoc(history, before, now - window);
  }

  ghost predicate Sorted(ts: seq<int>) {
    forall i, j :: 0 <= i <= j < |ts| ==> ts[i] <= ts[j]
  }

  lemma {:induction false} AdmissionsSorted(window: int, limit: int, calls: seq<Call>, key: string)
    requires Ordered(calls)
    ensures Sorted(Admissions(window, limit, calls, key))
    ensures forall t :: t in Admissions(window, limit, calls, key) ==> calls != [] && t <= calls[|calls| - 1].now
  {
    if calls != [] {
      var front := calls[..|calls| - 1];
      AdmissionsSorted(window, limit, front, key);
      var history := Admissions(window, limit, front, key);
      assert forall i :: 0 <= i < |history| ==> history[i] in history;
    }
  }

  lemma {:induction false} RecentOfSorted(ts: seq<int>, i: nat, c: int)
    requires Sorted(ts) && i < |ts| && ts[i] > c
    ensures |Recent(ts, c)| >= |ts| - i
    decreases |ts|
  {
    var front, last := ts[..|ts| - 1], ts[|ts| - 1];
    assert ts == front + [last];
    RecentSnoc(front, last, c);
    if i < |front| {
      RecentOfSorted(front, i, c);
    }
  }

  /** Rate-limit safety: in every run, any `limit` + 1 consecutive admissions of a key span at least the window. */
  lemma {:induction false} AdmissionsSpread(window: int, limit: int, calls: seq<Call>, key: string, i: nat)
    requires Ordered(calls) && limit >= 1
    requires i + limit < |Admissions(window, limit, calls, key)|
    ensures Admissions(window, limit, calls, key)[i + limit] - Admissions(window, limit, calls, key)[i] >= window
    decreases |calls|
  {
    var front, c := calls[..|calls| - 1], calls[|calls| - 1];
    var history := Admissions(window, limit, front, key);
    if i + limit < |history| {
      AdmissionsSpread(window, limit, front, key, i);
    } else {
      AdmissionsSorted(window, limit, front, key);
      assert front != [] ==> front[|front| - 1] == calls[|front| - 1];
      PruningExact(window, limit, front, key, c.now);
      if history[i] > c.now - window {
        RecentOfSorted(history, i, c.now - window);
      }
    }
  }

  /** The stored list stays sorted and never outgrows the limit. */
  lemma {:induction false} StoredListBounded(window: int, limit: int, calls: seq<Call>, key: string)
    requires Ordered(calls) && limit >= 0
    ensures var ts := ListOf(After(window, limit, calls), key);
            && |ts| <= limit && Sorted(ts)
            && forall t :: t in ts ==> calls != [] && t <= calls[|calls| - 1].now
  {
    if calls != [] {
      var front, c := calls[..|calls| - 1], calls[|calls| - 1];
      StoredListBounded(window, limit, front, key);
      hide Sorted, NextList;
      if c.key == key {
        var ts := ListOf(After(window, limit, front), key);
        NextListBounded(window, limit, ts, c.now);
      }
    }
  }

  lemma NextListBounded(window: int, limit: int, ts: seq<int>, now: int)
    requires 0 <= |ts| <= limit && Sorted(ts) && forall t :: t in ts ==> t <= now
    ensures var next := NextList(window, limit, ts, now);
            |next| <= limit && Sorted(next) && forall t :: t in next ==> t <= now
  {
    RecentSorted(ts, now - window);
    var kept := Recent(ts, now - window);
    forall i | 0 <= i < |kept| ensures kept[i] <= now {
      assert kept[i] in ts;
    }
  }

  lemma {:induction false} RecentSorted(ts: seq<int>, c: int)
    requires Sorted(ts)
    ensures Sorted(Recent(ts, c))
  {
    if ts != [] {
      var front, last := ts[..|ts| - 1], ts[|ts| - 1];
      assert ts == front + [last];
      RecentSorted(front, c);
      RecentSnoc(front, last, c);
      var kept := Recent(front, c);
      forall i | 0 <= i < |kept| ensures kept[i] <= last {
        assert kept[i] in front;
      }
    }
  }

  function Own(calls: seq<Call>, key: string): seq<Call> {
    Filter(calls, (c: Call) => c.key == key)
  }

  /** Calls for other keys never change what happens to a key. */
  lemma {:induction false} KeysIndependent(window: int, limit: int, calls: seq<Call>, key: string)
    ensures ListOf(After(window, limit, calls), key) == ListOf(After(window, limit, Own(calls, key)), key)
    ensures Admissions(window, limit, calls, key) == Admissions(window, limit, Own(calls, key), key)
  {
    if calls != [] {
      var front, c := calls[..|calls| - 1], calls[|calls| - 1];
      KeysIndependent(window, limit, front, key);
      assert calls == front + [c];
      FilterSnoc(front, c, (d: Call) => d.key == key);
      var own := Own(front, key);
      assert Own(calls, key) == if c.key == key then own + [c] else own;
      hide Own, NextList, Admits, After, Admissions;
      CallSnoc(window, limit, front, c, key);
      CallSnoc(window, limit, own, c, key);
    }
  }
}
