/** MFA backup codes: each is good for one verification. And the choice of a primary method. */
module BackupCodes {
  import opened Wrappers

  datatype MFAMethod = MFAMethod(
    id: string, userID: string, kind: string, backupCodes: seq<string>, isPrimary: bool, lastUsedAt: Option<int>)

  ghost predicate UniqueIDs(ms: seq<MFAMethod>) {
    forall i, j :: 0 <= i < j < |ms| ==> ms[i].id != ms[j].id
  }

  function RemoveFirst(codes: seq<string>, code: string): seq<string> {
    if codes == [] then []
    else if codes[0] == code then codes[1..]
    else [codes[0]] + RemoveFirst(codes[1..], code)
  }

  /** Removing at the first occurrence closes the gap and keeps the order of the rest. */
  lemma {:induction false} RemoveFirstAt(codes: seq<string>, i: nat)
    requires i < |codes| && codes[i] !in codes[..i]
    ensures RemoveFirst(codes, codes[i]) == codes[..i] + codes[i + 1..]
  {
    if i > 0 {
      var rest := codes[1..];
      assert codes[0] in codes[..i];
      assert rest[i - 1] == codes[i];
      assert codes[..i] == [codes[0]] + rest[..i - 1] && rest[i..] == codes[i + 1..];
      RemoveFirstAt(rest, i - 1);
    }
  }

  lemma {:induction false} RemoveFirstTakesOne(codes: seq<string>, code: string)
    requires code in codes
    ensures multiset(RemoveFirst(codes, code)) + multiset{code} == multiset(codes)
  {
    assert codes == [codes[0]] + codes[1..];
    if codes[0] != code {
      RemoveFirstTakesOne(codes[1..], code);
    }
  }

  predicate Holds(m: MFAMethod, userID: string, code: string) {
    m.userID == userID && m.kind == "totp" && code in m.backupCodes
  }

  function Spent(m: MFAMethod, code: string, now: int): MFAMethod {
    m.(backupCodes := RemoveFirst(m.backupCodes, code), lastUsedAt := Some(now))
  }

  /** The table after a verification; `None` if no method of the user holds the code. */
  function Use(ms: seq<MFAMethod>, userID: string, code: string, now: int): Option<seq<MFAMethod>> {
    if ms == [] then None
    else if Holds(ms[0], userID, code) then Some([Spent(ms[0], code, now)] + ms[1..])
    else
      match Use(ms[1..], userID, code, now)
      case None => None
      case Some(rest) => Some([ms[0]] + rest)
  }

  lemma {:induction false} UseAt(ms: seq<MFAMethod>, i: nat, userID: string, code: string, now: int)
    requires i < |ms| && Holds(ms[i], userID, code)
    requires forall k :: 0 <= k < i ==> !Holds(ms[k], userID, code)
    ensures Use(ms, userID, code, now) == Some(ms[i := Spent(ms[i], code, now)])
  {
    if i > 0 {
      UseAt(ms[1..], i - 1, userID, code, now);
      assert ms[i := Spent(ms[i], code, now)] == [ms[0]] + ms[1..][i - 1 := Spent(ms[i], code, now)];
    } else {
      assert ms[0 := Spent(ms[0], code, now)] == [Spent(ms[0], code, now)] + ms[1..];
    }
  }

  lemma {:induction false} UseNone(ms: seq<MFAMethod>, userID: string, code: string, now: int)
    ensures Use(ms, userID, code, now).None? <==> forall m :: m in ms ==> !Holds(m, userID, code)
  {
    if ms != [] {
      UseNone(ms[1..], userID, code, now);
      assert forall m :: m in ms <==> m == ms[0] || m in ms[1..];
    }
  }

  /** What a verification does to the table: it takes the first copy of the code out of the first TOTP method of the user
      that has one, and notes the time there. */
  lemma UseIs(ms: seq<MFAMethod>, i: nat, j: nat, userID: string, code: string, now: int)
    requires i < |ms| && ms[i].userID == userID && ms[i].kind == "totp"
    requires j < |ms[i].backupCodes| && ms[i].backupCodes[j] == code && code !in ms[i].backupCodes[..j]
    requires forall k :: 0 <= k < i && ms[k].userID == userID && ms[k].kind == "totp" ==> code !in ms[k].backupCodes
    ensures var left := ms[i].backupCodes[..j] + ms[i].backupCodes[j + 1..];
            Use(ms, userID, code, now) == Some(ms[i := ms[i].(backupCodes := left, lastUsedAt := Some(now))])
  {
    RemoveFirstAt(ms[i].backupCodes, j);
    UseAt(ms, i, userID, code, now);
  }

  predicate IsPrimaryOf(m: MFAMethod, userID: string) {
    m.userID == userID && m.isPrimary
  }

  /** The table after a choice of primary. Without `writesFalse` an update leaves a flag alone that the record has as
      false. */
  function Primaries(ms: seq<MFAMethod>, userID: string, methodID: string, writesFalse: bool): seq<MFAMethod> {
    seq(|ms|, i requires 0 <= i < |ms| =>
      if ms[i].userID == userID then ms[i].(isPrimary := ms[i].id == methodID || (!writesFalse && ms[i].isPrimary)) else ms[i])
  }

  class MFAService {
    var methods: seq<MFAMethod>
    const writesFalse: bool

    constructor (writesFalse: bool)
      ensures methods == [] && this.writesFalse == writesFalse
    {
      methods, this.writesFalse := [], writesFalse;
    }

    /** `Update`: overwrite the row with the record's ID. */
    method Update(m: MFAMethod, ghost i: nat)
      requires UniqueIDs(methods) && i < |methods| && methods[i].id == m.id
      modifies this
      ensures methods == old(methods)[i := m.(isPrimary := m.isPrimary || (!writesFalse && old(methods)[i].isPrimary))]
    {
      methods := seq(|methods|, k requires 0 <= k < |methods| reads this =>
        if methods[k].id == m.id then m.(isPrimary := m.isPrimary || (!writesFalse && methods[k].isPrimary)) else methods[k]);
    }

    method EnrollTOTP(id: string, userID: string, codes: seq<string>) returns (ok: bool)
      modifies this
      ensures methods == Enrolled(old(methods), id, userID, codes)
      ensures ok <==> |methods| == |old(methods)| + 1
    {
      if exists m :: m in methods && m.id == id {
        return false;
      }
      methods := methods + [MFAMethod(id, userID, "totp", codes, true, None)];
      return true;
    }

    /** The one write of the call, of the method that held the code, may fail; the call then ends with an error. */
    method VerifyBackupCode(userID: string, code: string, now: int, updateWorks: bool) returns (ok: bool)
      requires UniqueIDs(methods)
      modifies this
      ensures ok <==> updateWorks && Use(old(methods), userID, code, now).Some?
      ensures methods == if ok then Use(old(methods), userID, code, now).value else old(methods)
    {
      for i := 0 to |methods|
        invariant methods == old(methods)
        invariant forall k :: 0 <= k < i ==> !Holds(methods[k], userID, code)
      {
        var m := methods[i];
        if m.userID == userID && m.kind == "totp" {
          for j := 0 to |m.backupCodes|
            invariant methods == old(methods)
            invariant code !in m.backupCodes[..j]
          {
            if m.backupCodes[j] == code {
              RemoveFirstAt(m.backupCodes, j);
              UseAt(methods, i, userID, code, now);
              if !updateWorks {
                return false;
              }
              Update(m.(backupCodes := m.backupCodes[..j] + m.backupCodes[j + 1..], lastUsedAt := Some(now)), i);
              return true;
            }
          }
        }
      }
      UseNone(methods, userID, code, now);
      return false;
    }

    method SetPrimaryMethod(userID: string, methodID: string)
      requires UniqueIDs(methods)
      modifies this
      ensures methods == Primaries(old(methods), userID, methodID, writesFalse)
    {
      ghost var before := methods;
      for i := 0 to |methods|
        invariant |methods| == |before|
        invariant forall k :: 0 <= k < |methods| ==>
          methods[k] == if k < i then Primaries(before, userID, methodID, writesFalse)[k] else before[k]
      {
        var m := methods[i];
        if m.userID == userID {
          assert UniqueIDs(methods);
          Update(m.(isPrimary := m.id == methodID), i);
        }
      }
    }
  }

  function Enrolled(ms: seq<MFAMethod>, id: string, userID: string, codes: seq<string>): seq<MFAMethod> {
    if exists m :: m in ms && m.id == id then ms else ms + [MFAMethod(id, userID, "totp", codes, true, None)]
  }

  // ---------- Conservation ----------

  /** All codes a user still has. */
  function Stored(ms: seq<MFAMethod>, userID: string): multiset<string> {
    if ms == [] then multiset{}
    else
      var own := if ms[0].userID == userID && ms[0].kind == "totp" then multiset(ms[0].backupCodes) else multiset{};
      own + Stored(ms[1..], userID)
  }

  lemma {:induction false} StoredConcat(xs: seq<MFAMethod>, ys: seq<MFAMethod>, userID: string)
    ensures Stored(xs + ys, userID) == Stored(xs, userID) + Stored(ys, userID)
  {
    if xs == [] {
      assert xs + ys == ys;
    } else {
      assert (xs + ys)[1..] == xs[1..] + ys;
      StoredConcat(xs[1..], ys, userID);
    }
  }

  /** A successful verification takes exactly one copy of the code from exactly one user; a failed one means the
      user has no such code. */
  lemma {:induction false} UseTakesOne(ms: seq<MFAMethod>, userID: string, code: string, now: int, other: string)
    ensures var after := Use(ms, userID, code, now);
            && (after.Some? <==> code in Stored(ms, userID))
            && (after.Some? ==>
                  Stored(after.value, other) + (if other == userID then multiset{code} else multiset{}) == Stored(ms, other))
  {
    if ms != [] {
      UseTakesOne(ms[1..], userID, code, now, other);
      if Holds(ms[0], userID, code) {
        RemoveFirstTakesOne(ms[0].backupCodes, code);
        assert ([Spent(ms[0], code, now)] + ms[1..])[1..] == ms[1..];
      } else if Use(ms[1..], userID, code, now).Some? {
        var rest := Use(ms[1..], userID, code, now).value;
        assert ([ms[0]] + rest)[1..] == rest;
      }
    }
  }

  datatype Event =
    | Enroll(id: string, userID: string, codes: seq<string>)
    | Verify(userID: string, code: string, at: int, updateWorks: bool)
    | ChoosePrimary(userID: string, methodID: string)

  function Step(ms: seq<MFAMethod>, e: Event, writesFalse: bool): seq<MFAMethod> {
    match e
    case Enroll(id, userID, codes) => Enrolled(ms, id, userID, codes)
    case Verify(userID, code, now, works) => if works then Use(ms, userID, code, now).GetOr(ms) else ms
    case ChoosePrimary(userID, methodID) => Primaries(ms, userID, methodID, writesFalse)
  }

  function After(es: seq<Event>, writesFalse: bool): seq<MFAMethod> {
    if es == [] then [] else Step(After(es[..|es| - 1], writesFalse), es[|es| - 1], writesFalse)
  }

  function IssuedBy(ms: seq<MFAMethod>, e: Event, userID: string): multiset<string> {
    if e.Enroll? && e.userID == userID && |Enrolled(ms, e.id, userID, e.codes)| > |ms| then multiset(e.codes) else multiset{}
  }

  function UsedBy(ms: seq<MFAMethod>, e: Event, userID: string): multiset<string> {
    if e.Verify? && e.userID == userID && e.updateWorks && Use(ms, userID, e.code, e.at).Some? then multiset{e.code}
    else multiset{}
  }

  /** The codes handed out to a user by the enrolments of a run. */
  function Issued(es: seq<Event>, userID: string, writesFalse: bool): multiset<string> {
    if es == [] then multiset{}
    else
      var front, e := es[..|es| - 1], es[|es| - 1];
      Issued(front, userID, writesFalse)
        + IssuedBy(After(front, writesFalse), e, userID)
  }

  /** The codes with which the user's verifications in a run succeeded. */
  function Used(es: seq<Event>, userID: string, writesFalse: bool): multiset<string> {
    if es == [] then multiset{}
    else
      var front, e := es[..|es| - 1], es[|es| - 1];
      Used(front, userID, writesFalse)
        + UsedBy(After(front, writesFalse), e, userID)
  }

  lemma {:induction false} PrimariesKeepCodes(ms: seq<MFAMethod>, userID: string, methodID: string, writesFalse: bool,
                                              other: string)
    ensures Stored(Primaries(ms, userID, methodID, writesFalse), other) == Stored(ms, other)
  {
    if ms != [] {
      assert Primaries(ms, userID, methodID, writesFalse)[1..] == Primaries(ms[1..], userID, methodID, writesFalse);
      PrimariesKeepCodes(ms[1..], userID, methodID, writesFalse, other);
    }
  }

  lemma StoredSnoc(ms: seq<MFAMethod>, m: MFAMethod, userID: string)
    ensures Stored(ms + [m], userID) ==
            Stored(ms, userID) + if m.userID == userID && m.kind == "totp" then multiset(m.backupCodes) else multiset{}
  {
    StoredConcat(ms, [m], userID);
    assert [m][1..] == [];
  }

  lemma StepConserves(ms: seq<MFAMethod>, e: Event, writesFalse: bool, userID: string)
    ensures Stored(Step(ms, e, writesFalse), userID) + UsedBy(ms, e, userID) == Stored(ms, userID) + IssuedBy(ms, e, userID)
  {
    match e {
      case Enroll(id, u, codes) =>
        StoredSnoc(ms, MFAMethod(id, u, "totp", codes, true, None), userID);
        hide Stored;
      case Verify(u, code, now, _) =>
        UseTakesOne(ms, u, code, now, userID);
        hide Stored, Use;
      case ChoosePrimary(u, methodID) => PrimariesKeepCodes(ms, u, methodID, writesFalse, userID);
    }
  }

  /** Conservation: in every run, the codes a user still has and the codes they have used are the codes they were issued. */
  lemma {:induction false} CodesConserved(es: seq<Event>, userID: string, writesFalse: bool)
    ensures Stored(After(es, writesFalse), userID) + Used(es, userID, writesFalse) == Issued(es, userID, writesFalse)
  {
    if es != [] {
      var front, e := es[..|es| - 1], es[|es| - 1];
      var ms := After(front, writesFalse);
      CodesConserved(front, userID, writesFalse);
      StepConserves(ms, e, writesFalse, userID);
      hide Step, Stored, IssuedBy, UsedBy;
      calc {
        Stored(After(es, writesFalse), userID) + Used(es, userID, writesFalse);
        Stored(Step(ms, e, writesFalse), userID) + UsedBy(ms, e, userID) + Used(front, userID, writesFalse);
        Stored(ms, userID) + IssuedBy(ms, e, userID) + Used(front, userID, writesFalse);
        Issued(front, userID, writesFalse) + IssuedBy(ms, e, userID);
      }
    }
  }

  /** So no code is accepted more often than it was issued. */
  lemma UsedWithinIssued(es: seq<Event>, userID: string, code: string, writesFalse: bool)
    ensures Used(es, userID, writesFalse)[code] <= Issued(es, userID, writesFalse)[code]
  {
    CodesConserved(es, userID, writesFalse);
    assert (Stored(After(es, writesFalse), userID) + Used(es, userID, writesFalse))[code]
        == Stored(After(es, writesFalse), userID)[code] + Used(es, userID, writesFalse)[code];
  }

  // ---------- Primary methods ----------

  function Count(ms: seq<MFAMethod>, counts: MFAMethod -> bool): nat {
    if ms == [] then 0 else (if counts(ms[0]) then 1 else 0) + Count(ms[1..], counts)
  }

  function NumPrimaries(ms: seq<MFAMethod>, userID: string): nat {
    Count(ms, (m: MFAMethod) => IsPrimaryOf(m, userID))
  }

  function NumMethods(ms: seq<MFAMethod>, userID: string): nat {
    Count(ms, (m: MFAMethod) => m.userID == userID)
  }

  lemma {:induction false} CountSame(xs: seq<MFAMethod>, ys: seq<MFAMethod>, p: MFAMethod -> bool, q: MFAMethod -> bool)
    requires |xs| == |ys| && forall i :: 0 <= i < |xs| ==> p(xs[i]) == q(ys[i])
    ensures Count(xs, p) == Count(ys, q)
  {
    if xs != [] {
      CountSame(xs[1..], ys[1..], p, q);
    }
  }

  lemma {:induction false} CountSnoc(ms: seq<MFAMethod>, m: MFAMethod, p: MFAMethod -> bool)
    ensures Count(ms + [m], p) == Count(ms, p) + if p(m) then 1 else 0
  {
    if ms == [] {
      assert ms + [m] == [m];
    } else {
      assert (ms + [m])[1..] == ms[1..] + [m];
      CountSnoc(ms[1..], m, p);
    }
  }

  ghost predicate Owns(ms: seq<MFAMethod>, userID: string, methodID: string) {
    exists m :: m in ms && m.userID == userID && m.id == methodID
  }

  /** After a choice of primary, with false flags written, the user has exactly one primary method if the chosen one
      is theirs, and none at all otherwise. */
  lemma {:induction false} OnePrimaryIff(ms: seq<MFAMethod>, userID: string, methodID: string)
    requires UniqueIDs(ms)
    ensures forall m :: m in Primaries(ms, userID, methodID, true) && IsPrimaryOf(m, userID) ==> m.id == methodID
    ensures NumPrimaries(Primaries(ms, userID, methodID, true), userID) == if Owns(ms, userID, methodID) then 1 else 0
  {
    if ms != [] {
      var rest := ms[1..];
      assert forall i :: 0 <= i < |rest| ==> rest[i] == ms[i + 1];
      assert Primaries(ms, userID, methodID, true)[1..] == Primaries(rest, userID, methodID, true);
      OnePrimaryIff(rest, userID, methodID);
      assert forall m :: m in ms <==> m == ms[0] || m in rest;
      assert ms[0].id == methodID ==> !Owns(rest, userID, methodID);
    }
  }

  /** A choice of primary changes nothing but the flags of that user's methods: each of them is marked exactly if it is the
      chosen one, or was and false flags are not written. */
  lemma ChoiceIs(ms: seq<MFAMethod>, userID: string, methodID: string, writesFalse: bool, i: nat)
    requires i < |ms|
    ensures var after := Primaries(ms, userID, methodID, writesFalse);
            && |after| == |ms| && after[i].(isPrimary := ms[i].isPrimary) == ms[i]
            && (ms[i].userID != userID ==> after[i] == ms[i])
            && (ms[i].userID == userID ==> (after[i].isPrimary <==> ms[i].id == methodID || (ms[i].isPrimary && !writesFalse)))
  {
  }

  /** Rows keep their ID, user and flag when a code is used. */
  lemma {:induction false} UseKeepsRows(ms: seq<MFAMethod>, userID: string, code: string, now: int)
    requires Use(ms, userID, code, now).Some?
    ensures var after := Use(ms, userID, code, now).value;
            |after| == |ms| && forall i :: 0 <= i < |ms| ==>
              after[i].id == ms[i].id && after[i].userID == ms[i].userID && after[i].isPrimary == ms[i].isPrimary
  {
    if !Holds(ms[0], userID, code) {
      UseKeepsRows(ms[1..], userID, code, now);
      assert forall i :: 0 < i < |ms| ==> ms[1..][i - 1] == ms[i];
    }
  }

  lemma {:induction false} RunUnique(es: seq<Event>, writesFalse: bool)
    ensures UniqueIDs(After(es, writesFalse))
  {
    if es != [] {
      var front, e := es[..|es| - 1], es[|es| - 1];
      var ms := After(front, writesFalse);
      RunUnique(front, writesFalse);
      match e {
        case Enroll(_, _, _) => assert forall i :: 0 <= i < |ms| ==> ms[i] in ms;
        case Verify(u, code, now, _) =>
          if Use(ms, u, code, now).Some? {
            UseKeepsRows(ms, u, code, now);
          }
        case ChoosePrimary(_, _) =>
      }
    }
  }

  /** How one event changes the number of a user's methods and of those marked primary. */
  lemma StepCounts(ms: seq<MFAMethod>, e: Event, writesFalse: bool, userID: string)
    requires UniqueIDs(ms)
    ensures var after := Step(ms, e, writesFalse);
            var added := if e.Enroll? && e.userID == userID && |after| > |ms| then 1 else 0;
            && NumMethods(after, userID) == NumMethods(ms, userID) + added
            && (e.ChoosePrimary? && e.userID == userID && writesFalse ==>
                  NumPrimaries(after, userID) == if Owns(ms, userID, e.methodID) then 1 else 0)
            && (!(e.ChoosePrimary? && e.userID == userID) ==> NumPrimaries(after, userID) == NumPrimaries(ms, userID) + added)
  {
    var own, primary := (m: MFAMethod) => m.userID == userID, (m: MFAMethod) => IsPrimaryOf(m, userID);
    match e {
      case Enroll(id, u, codes) =>
        CountSnoc(ms, MFAMethod(id, u, "totp", codes, true, None), own);
        CountSnoc(ms, MFAMethod(id, u, "totp", codes, true, None), primary);
      case Verify(u, code, now, _) =>
        if Use(ms, u, code, now).Some? {
          UseKeepsRows(ms, u, code, now);
          CountSame(ms, Use(ms, u, code, now).value, own, own);
          CountSame(ms, Use(ms, u, code, now).value, primary, primary);
        }
      case ChoosePrimary(u, methodID) =>
        var after := Primaries(ms, u, methodID, writesFalse);
        CountSame(ms, after, own, own);
        if u != userID {
          CountSame(ms, after, primary, primary);
        } else if writesFalse {
          OnePrimaryIff(ms, u, methodID);
        }
    }
  }

  /** Every run, with false flags written: the user's last choice leaves one primary method if it named one of theirs
      and none if not, and every enrolment since then has added another. */
  lemma {:induction false} PrimariesSinceChoice(es: seq<Event>, k: nat, userID: string)
    requires k < |es| && es[k].ChoosePrimary? && es[k].userID == userID
    requires forall i :: k < i < |es| && es[i].ChoosePrimary? ==> es[i].userID != userID
    ensures NumPrimaries(After(es, true), userID) ==
            NumMethods(After(es, true), userID) - NumMethods(After(es[..k], true), userID)
              + if Owns(After(es[..k], true), userID, es[k].methodID) then 1 else 0
  {
    var front, e := es[..|es| - 1], es[|es| - 1];
    RunUnique(front, true);
    StepCounts(After(front, true), e, true, userID);
    if k < |es| - 1 {
      assert front[..k] == es[..k];
      PrimariesSinceChoice(front, k, userID);
    }
  }

  /** And as long as the user has made no choice, or with false flags not written, all their methods are primary. */
  lemma {:induction false} AllPrimary(es: seq<Event>, userID: string, writesFalse: bool)
    requires !writesFalse || forall e :: e in es && e.ChoosePrimary? ==> e.userID != userID
    ensures forall m :: m in After(es, writesFalse) && m.userID == userID ==> m.isPrimary
    ensures NumPrimaries(After(es, writesFalse), userID) == NumMethods(After(es, writesFalse), userID)
  {
    var after := After(es, writesFalse);
    if es != [] {
      var front, e := es[..|es| - 1], es[|es| - 1];
      assert e in es && forall f :: f in front ==> f in es;
      AllPrimary(front, userID, writesFalse);
      var ms := After(front, writesFalse);
      assert forall i :: 0 <= i < |ms| ==> ms[i] in ms;
      if e.Verify? && Use(ms, e.userID, e.code, e.at).Some? {
        UseKeepsRows(ms, e.userID, e.code, e.at);
      }
      assert forall i :: 0 <= i < |after| && after[i].userID == userID ==> after[i].isPrimary;
    }
    assert forall i :: 0 <= i < |after| ==> after[i] in after;
    CountSame(after, after, (m: MFAMethod) => IsPrimaryOf(m, userID), (m: MFAMethod) => m.userID == userID);
  }
}
