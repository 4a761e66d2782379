/**
 Signing keys: rotation, the active key, and the published key set, with failures of the
 key table at any point. One slot of a channel serves as the mutex.
 */
module SigningKeys {
  import opened Clock
  import opened Sequences
  import opened Wrappers

  datatype SigningKey = SigningKey(id: string, keyID: string, publicKey: string, isActive: bool, expiresAt: Option<int>)

  /** A freshly generated key pair and the IDs it will be stored under. */
  datatype KeyPair = KeyPair(id: string, keyID: string, publicKey: string)

  /** Whether the table carries out an update, an insertion, a lookup; and whether an update writes a flag that is
      false. */
  datatype Database = Database(updateWorks: bool, createWorks: bool, findWorks: bool, writesFalse: bool)

  datatype State = State(keys: seq<SigningKey>, current: Option<SigningKey>, slotFree: bool)

  /** `Blocked` is a call that never returns: it waits for a slot nobody will give back. */
  datatype Outcome = Done | Failed | Returned(key: SigningKey) | Blocked

  const KEY_LIFETIME := 90 * DAY

  predicate Unexpired(k: SigningKey, now: int) {
    k.expiresAt.None? || now < k.expiresAt.value
  }

  /** `time.Now().After(*k.ExpiresAt)`: not the negation of the above at the very instant of expiry. */
  predicate Expired(k: SigningKey, now: int) {
    k.expiresAt.Some? && now > k.expiresAt.value
  }

  function UpdateRow(keys: seq<SigningKey>, k: SigningKey, writesFalse: bool): seq<SigningKey> {
    seq(|keys|, i requires 0 <= i < |keys| =>
      if keys[i].id == k.id then k.(isActive := k.isActive || (!writesFalse && keys[i].isActive)) else keys[i])
  }

  predicate HasID(keys: seq<SigningKey>, id: string) {
    exists k :: k in keys && k.id == id
  }

  predicate HasKeyID(keys: seq<SigningKey>, keyID: string) {
    exists k :: k in keys && k.keyID == keyID
  }

  /** The first row marked active, unless that one has expired. */
  function FindActive(keys: seq<SigningKey>, now: int): Option<SigningKey> {
    var active := Filter(keys, (k: SigningKey) => k.isActive);
    if active == [] || Expired(active[0], now) then None else Some(active[0])
  }

  function NewKey(pair: KeyPair, now: int): SigningKey {
    SigningKey(pair.id, pair.keyID, pair.publicKey, true, Some(now + KEY_LIFETIME))
  }

  // ---------- The operations on the state ----------

  /** Rotation with the slot in hand: switch the current key off, then store the new one. */
  function Rotated(s: State, pair: KeyPair, now: int, db: Database): (out: (State, Outcome)) {
    var off := if s.current.Some? then Some(s.current.value.(isActive := false)) else None;
    if off.Some? && (!db.updateWorks || !HasID(s.keys, off.value.id)) then (s.(current := off), Failed)
    else
      var keys := if off.Some? then UpdateRow(s.keys, off.value, db.writesFalse) else s.keys;
      if !db.createWorks || HasID(keys, pair.id) || HasKeyID(keys, pair.keyID)
      then (s.(keys := keys, current := off), Failed)
      else (s.(keys := keys + [NewKey(pair, now)], current := Some(NewKey(pair, now))), Done)
  }

  function RotateKey(s: State, pair: KeyPair, now: int, db: Database): (State, Outcome) {
    if s.slotFree then Rotated(s, pair, now, db) else (s, Blocked)
  }

  function Initialize(s: State, pair: KeyPair, now: int, db: Database): (State, Outcome) {
    if !db.findWorks then (s, Failed)
    else if FindActive(s.keys, now).Some? then (s.(current := FindActive(s.keys, now)), Done)
    else RotateKey(s, pair, now, db)
  }

  /** When neither the current nor a stored key will do, the call rotates while it holds the slot, and waits for
      itself. */
  function GetActiveKey(s: State, now: int, db: Database): (State, Outcome) {
    if !s.slotFree then (s, Blocked)
    else if s.current.Some? && Unexpired(s.current.value, now) then (s, Returned(s.current.value))
    else if !db.findWorks then (s, Failed)
    else
      var found := FindActive(s.keys, now);
      if found.Some? && Unexpired(found.value, now) then (s.(current := found), Returned(found.value))
      else (s.(slotFree := false), Blocked)
  }

  /** The key IDs `GetJWKS` lists: all but inactive expired rows and rows whose public key cannot be read. */
  function Published(keys: seq<SigningKey>, now: int, parses: string -> bool): seq<string> {
    if keys == [] then []
    else
      (if (!keys[0].isActive && Expired(keys[0], now)) || !parses(keys[0].publicKey) then [] else [keys[0].keyID])
      + Published(keys[1..], now, parses)
  }

  // ---------- The service ----------

  class JWKSService {
    var keys: seq<SigningKey>
    var currentKey: Option<SigningKey>
    var slotFree: bool

    constructor (keys: seq<SigningKey>)
      ensures Now() == State(keys, None, true)
    {
      this.keys, currentKey, slotFree := keys, None, true;
    }

    ghost function Now(): State
      reads this
    {
      State(keys, currentKey, slotFree)
    }

    method Rotate(pair: KeyPair, now: int, db: Database) returns (out: Outcome)
      modifies this
      ensures (Now(), out) == RotateKey(old(Now()), pair, now, db)
    {
      if !slotFree {
        return Blocked;
      }
      slotFree := false;
      if currentKey.Some? {
        currentKey := Some(currentKey.value.(isActive := false));
        if !db.updateWorks || !HasID(keys, currentKey.value.id) {
          slotFree := true;
          return Failed;
        }
        keys := UpdateRow(keys, currentKey.value, db.writesFalse);
      }
      if !db.createWorks || HasID(keys, pair.id) || HasKeyID(keys, pair.keyID) {
        slotFree := true;
        return Failed;
      }
      var signingKey := NewKey(pair, now);
      keys := keys + [signingKey];
      currentKey := Some(signingKey);
      slotFree := true;
      return Done;
    }

    method Init(pair: KeyPair, now: int, db: Database) returns (out: Outcome)
      modifies this
      ensures (Now(), out) == Initialize(old(Now()), pair, now, db)
    {
      if !db.findWorks {
        return Failed;
      }
      var active := FindActive(keys, now);
      if active.Some? {
        currentKey := active;
        return Done;
      }
      out := Rotate(pair, now, db);
    }

    method GetActive(pair: KeyPair, now: int, db: Database) returns (out: Outcome)
      modifies this
      ensures (Now(), out) == GetActiveKey(old(Now()), now, db)
    {
      if !slotFree {
        return Blocked;
      }
      slotFree := false;
      if currentKey.Some? && Unexpired(currentKey.value, now) {
        slotFree := true;
        return Returned(currentKey.value);
      }
      if !db.findWorks {
        slotFree := true;
        return Failed;
      }
      var active := FindActive(keys, now);
      if active.Some? && Unexpired(active.value, now) {
        currentKey := active;
        slotFree := true;
        return Returned(active.value);
      }
      out := Rotate(pair, now, db);
    }

    method GetJWKS(now: int, parses: string -> bool) returns (kids: seq<string>)
      ensures kids == Published(keys, now, parses)
    {
      kids := [];
      for i := 0 to |keys|
        invariant kids + Published(keys[i..], now, parses) == Published(keys, now, parses)
      {
        var k := keys[i];
        PublishedStep(keys, i, now, parses, kids);
        hide Published;
        if !k.isActive && Expired(k, now) {
          continue;
        }
        if !parses(k.publicKey) {
          continue;
        }
        kids := kids + [k.keyID];
      }
    }
  }

  lemma PublishedStep(keys: seq<SigningKey>, i: nat, now: int, parses: string -> bool, kids: seq<string>)
    requires i < |keys|
    ensures kids + Published(keys[i..], now, parses) ==
            (if (!keys[i].isActive && Expired(keys[i], now)) || !parses(keys[i].publicKey) then kids else kids + [keys[i].keyID])
              + Published(keys[i + 1..], now, parses)
  {
    assert keys[i..][1..] == keys[i + 1..];
  }

  lemma {:induction false} PublishedMember(keys: seq<SigningKey>, now: int, parses: string -> bool, k: SigningKey)
    requires k in keys && (k.isActive || !Expired(k, now)) && parses(k.publicKey)
    ensures k.keyID in Published(keys, now, parses)
  {
    if keys[0] != k {
      PublishedMember(keys[1..], now, parses, k);
    }
  }

  // ---------- Invariant ----------

  ghost predicate UniqueIDs(keys: seq<SigningKey>) {
    forall i, j :: 0 <= i < j < |keys| ==> keys[i].id != keys[j].id
  }

  ghost predicate AtMostOneActive(keys: seq<SigningKey>) {
    forall i, j :: 0 <= i < |keys| && 0 <= j < |keys| && keys[i].isActive && keys[j].isActive ==> i == j
  }

  /** The same key, on or off. */
  ghost predicate SameKey(a: SigningKey, b: SigningKey) {
    a.(isActive := b.isActive) == b
  }

  ghost predicate Stored(keys: seq<SigningKey>, k: SigningKey) {
    exists r :: r in keys && SameKey(r, k)
  }

  /** The current key is stored. */
  ghost predicate Kept(s: State) {
    UniqueIDs(s.keys) && (s.current.Some? ==> Stored(s.keys, s.current.value))
  }

  /** And no other key is active. */
  ghost predicate Valid(s: State) {
    Kept(s) && forall k :: k in s.keys && k.isActive ==> s.current.Some? && k.id == s.current.value.id
  }

  lemma ValidHasOneActive(s: State)
    requires Valid(s)
    ensures AtMostOneActive(s.keys)
  {
    assert forall i :: 0 <= i < |s.keys| ==> s.keys[i] in s.keys;
  }

  lemma SameRow(keys: seq<SigningKey>, a: SigningKey, b: SigningKey)
    requires UniqueIDs(keys) && a in keys && b in keys && a.id == b.id
    ensures a == b
  {
    var i :| 0 <= i < |keys| && keys[i] == a;
    var j :| 0 <= j < |keys| && keys[j] == b;
    assert i == j;
  }

  /** Switching off a stored key keeps every key stored; if the flag is written, that key's row is off, and if not,
      the table is as before. */
  lemma SwitchOff(keys: seq<SigningKey>, off: SigningKey, writesFalse: bool)
    requires UniqueIDs(keys) && Stored(keys, off) && !off.isActive
    ensures var keys' := UpdateRow(keys, off, writesFalse);
            && UniqueIDs(keys')
            && (forall k :: Stored(keys, k) ==> Stored(keys', k))
            && (writesFalse ==> forall k :: k in keys' && k.isActive ==> k in keys && k.id != off.id)
            && (!writesFalse ==> keys' == keys)
  {
    var keys' := UpdateRow(keys, off, writesFalse);
    var row :| row in keys && SameKey(row, off);
    forall i | 0 <= i < |keys| && keys[i].id == off.id ensures keys[i] == row {
      SameRow(keys, keys[i], row);
    }
    forall k | Stored(keys, k) ensures Stored(keys', k) {
      var r :| r in keys && SameKey(r, k);
      var i :| 0 <= i < |keys| && keys[i] == r;
      assert keys'[i] in keys' && SameKey(keys'[i], k);
    }
    forall k | writesFalse && k in keys' && k.isActive ensures k in keys && k.id != off.id {
      var i :| 0 <= i < |keys| && keys'[i] == k;
    }
  }

  /** Rotation never loses a key and keeps the current one stored, wherever it fails. If false flags are written it
      keeps the invariant. */
  lemma RotationKeepsValid(s: State, pair: KeyPair, now: int, db: Database)
    requires Kept(s)
    ensures var s' := Rotated(s, pair, now, db).0;
            && Kept(s') && s'.slotFree == s.slotFree
            && (db.writesFalse && Valid(s) ==> Valid(s'))
            && forall k :: Stored(s.keys, k) ==> Stored(s'.keys, k)
  {
    var s' := Rotated(s, pair, now, db).0;
    if s.current.Some? {
      var off := s.current.value.(isActive := false);
      var row :| row in s.keys && SameKey(row, s.current.value);
      assert SameKey(row, off);
      assert HasID(s.keys, off.id);
      SwitchOff(s.keys, off, db.writesFalse);
    }
    var keys := if s.current.Some? then UpdateRow(s.keys, s.current.value.(isActive := false), db.writesFalse) else s.keys;
    if Rotated(s, pair, now, db).1 == Done {
      AddKey(keys, NewKey(pair, now));
    }
  }

  lemma AddKey(keys: seq<SigningKey>, k: SigningKey)
    requires UniqueIDs(keys) && !HasID(keys, k.id)
    ensures var keys' := keys + [k];
            && UniqueIDs(keys') && Stored(keys', k)
            && (forall r :: Stored(keys, r) ==> Stored(keys', r))
            && forall r :: r in keys' ==> r in keys || r == k
  {
    var keys' := keys + [k];
    assert forall i :: 0 <= i < |keys| ==> keys[i] in keys;
    assert k in keys' && SameKey(k, k);
    forall r | Stored(keys, r) ensures Stored(keys', r) {
      var row :| row in keys && SameKey(row, r);
      assert row in keys';
    }
  }

  lemma FoundIsTheActiveRow(keys: seq<SigningKey>, now: int)
    ensures var found := FindActive(keys, now);
            && (found.Some? ==> found.value in keys && found.value.isActive && !Expired(found.value, now))
            && (found.None? ==> forall k :: k in keys && k.isActive && AtMostOneActive(keys) ==> Expired(k, now))
  {
    var active := Filter(keys, (k: SigningKey) => k.isActive);
    assert forall k :: k in keys && k.isActive ==> k in active;
    if active != [] {
      assert active[0] in active;
      forall k | k in keys && k.isActive && AtMostOneActive(keys) ensures k == active[0] {
        var i :| 0 <= i < |keys| && keys[i] == k;
        var j :| 0 <= j < |keys| && keys[j] == active[0];
      }
    }
  }

  /** The start of every run: no current key, the slot free, at most one active row. */
  ghost predicate Fresh(s: State) {
    s.current.None? && s.slotFree && UniqueIDs(s.keys) && AtMostOneActive(s.keys)
  }

  /** Initialization leaves at most one active key exactly unless the table takes a new key next to an active one
      that has expired; without such a one it establishes the invariant. */
  lemma InitializeValidIff(s: State, pair: KeyPair, now: int, db: Database)
    requires Fresh(s) && db.findWorks
    ensures var s' := Initialize(s, pair, now, db).0;
            && (AtMostOneActive(s'.keys) <==>
                !( && db.createWorks && (forall k :: k in s.keys ==> k.id != pair.id && k.keyID != pair.keyID)
                   && exists k :: k in s.keys && k.isActive && k.expiresAt.Some? && k.expiresAt.value < now))
            && ((forall k :: k in s.keys && k.isActive && k.expiresAt.Some? ==> now <= k.expiresAt.value) ==> Valid(s'))
            && Kept(s') && s'.slotFree
            && forall k :: Stored(s.keys, k) ==> Stored(s'.keys, k)
  {
    var (s', out) := Initialize(s, pair, now, db);
    FoundIsTheActiveRow(s.keys, now);
    var found := FindActive(s.keys, now);
    if found.Some? {
      assert SameKey(found.value, found.value);
      forall k | k in s.keys && k.isActive ensures k == found.value {
        var i :| 0 <= i < |s.keys| && s.keys[i] == k;
        var j :| 0 <= j < |s.keys| && s.keys[j] == found.value;
      }
    } else {
      RotationKeepsValid(s, pair, now, db);
      if k :| k in s.keys && k.isActive {
        var i :| 0 <= i < |s.keys| && s.keys[i] == k;
        if out == Done {
          assert s'.keys[i].isActive && s'.keys[|s.keys|].isActive;
        }
      } else {
        NoneActiveThenOne(s, pair, now, db);
      }
    }
  }

  lemma NoneActiveThenOne(s: State, pair: KeyPair, now: int, db: Database)
    requires Fresh(s) && forall k :: k in s.keys ==> !k.isActive
    ensures Valid(Rotated(s, pair, now, db).0) && AtMostOneActive(Rotated(s, pair, now, db).0.keys)
  {
    var s' := Rotated(s, pair, now, db).0;
    RotationKeepsValid(s, pair, now, db);
    ValidHasOneActive(s');
  }

  /** The failing case: started on a table that holds one key, active and expired, the service ends with two. */
  lemma InitializationBesideAnExpiredKey(k: SigningKey, pair: KeyPair, now: int, db: Database)
    requires k.isActive && k.expiresAt.Some? && k.expiresAt.value < now && k.id != pair.id && k.keyID != pair.keyID
    requires db.findWorks && db.createWorks
    ensures var added := SigningKey(pair.id, pair.keyID, pair.publicKey, true, Some(now + 90 * DAY));
            Initialize(State([k], None, true), pair, now, db).0.keys == [k, added] && !AtMostOneActive([k, added])
  {
    assert FindActive([k], now).None?;
    var keys := [k, NewKey(pair, now)];
    assert keys[0].isActive && keys[1].isActive;
  }

  /** A rotation that was not preceded by a successful initialization leaves one active key exactly if there was
      none: the service does not know of the stored one. */
  lemma RotationWithoutInitialization(s: State, pair: KeyPair, now: int, db: Database)
    requires Fresh(s) && Rotated(s, pair, now, db).1 == Done
    ensures AtMostOneActive(Rotated(s, pair, now, db).0.keys) <==> forall k :: k in s.keys ==> !k.isActive
  {
    var keys := Rotated(s, pair, now, db).0.keys;
    assert keys[|s.keys|] == NewKey(pair, now);
    if k :| k in s.keys && k.isActive {
      var i :| 0 <= i < |s.keys| && s.keys[i] == k;
      assert keys[i].isActive;
    } else {
      NoneActiveThenOne(s, pair, now, db);
    }
  }

  // ---------- Runs ----------

  datatype Event = Rotation(pair: KeyPair, at: int, db: Database) | Get(at: int, db: Database)

  function Apply(s: State, e: Event): (State, Outcome) {
    match e
    case Rotation(pair, now, db) => RotateKey(s, pair, now, db)
    case Get(now, db) => GetActiveKey(s, now, db)
  }

  function After(s: State, es: seq<Event>): State {
    if es == [] then s else Apply(After(s, es[..|es| - 1]), es[|es| - 1]).0
  }

  ghost predicate WritesFalse(e: Event) {
    e.Rotation? ==> e.db.writesFalse
  }

  lemma FoundKeepsKept(s: State, now: int)
    requires Kept(s) && FindActive(s.keys, now).Some?
    ensures Kept(s.(current := FindActive(s.keys, now)))
    ensures Valid(s) ==> Valid(s.(current := FindActive(s.keys, now)))
    ensures Valid(s) ==> s.current.Some? && SameKey(FindActive(s.keys, now).value, s.current.value)
  {
    FoundIsTheActiveRow(s.keys, now);
    var found := FindActive(s.keys, now).value;
    assert SameKey(found, found);
    if Valid(s) {
      var row :| row in s.keys && SameKey(row, s.current.value);
      SameRow(s.keys, row, found);
    }
  }

  lemma ApplyKeepsValid(s: State, e: Event)
    requires Kept(s)
    ensures Kept(Apply(s, e).0)
    ensures Valid(s) && WritesFalse(e) ==> Valid(Apply(s, e).0)
    ensures forall k :: Stored(s.keys, k) ==> Stored(Apply(s, e).0.keys, k)
    ensures Apply(s, e).1.Returned? ==> Stored(Apply(s, e).0.keys, Apply(s, e).1.key)
  {
    match e {
      case Rotation(pair, now, db) => RotationKeepsValid(s, pair, now, db);
      case Get(now, db) =>
        if FindActive(s.keys, now).Some? {
          FoundKeepsKept(s, now);
        }
    }
  }

  lemma {:induction false} RunKept(s: State, es: seq<Event>)
    requires Kept(s)
    ensures Kept(After(s, es))
    ensures forall k :: Stored(s.keys, k) ==> Stored(After(s, es).keys, k)
    ensures Valid(s) && (forall e :: e in es ==> WritesFalse(e)) ==> Valid(After(s, es))
  {
    if es != [] {
      var front, e := es[..|es| - 1], es[|es| - 1];
      RunKept(s, front);
      ApplyKeepsValid(After(s, front), e);
      assert e in es && forall f :: f in front ==> f in es;
    }
  }

  /** If false flags are written: in every run of rotations and requests after an initialization that found no
      expired active key, with the table failing at will, at most one stored key is active. */
  lemma OneActiveKey(s: State, pair: KeyPair, now: int, db: Database, es: seq<Event>)
    requires Fresh(s) && db.findWorks
    requires forall k :: k in s.keys && k.isActive && k.expiresAt.Some? ==> now <= k.expiresAt.value
    requires forall e :: e in es ==> WritesFalse(e)
    ensures AtMostOneActive(After(Initialize(s, pair, now, db).0, es).keys)
  {
    InitializeValidIff(s, pair, now, db);
    RunKept(Initialize(s, pair, now, db).0, es);
    ValidHasOneActive(After(Initialize(s, pair, now, db).0, es));
  }

  // ---------- If false flags are not written ----------

  function NumActive(keys: seq<SigningKey>): nat {
    |ActiveRows(keys)|
  }

  /** The rotations of a run that were completed. */
  function Completed(s: State, es: seq<Event>): nat {
    if es == [] then 0
    else
      var front, e := es[..|es| - 1], es[|es| - 1];
      Completed(s, front) + if Apply(After(s, front), e).1 == Done then 1 else 0
  }

  lemma {:induction false} OneActiveIsNumActive(keys: seq<SigningKey>)
    ensures AtMostOneActive(keys) <==> NumActive(keys) <= 1
  {
    var on := (k: SigningKey) => k.isActive;
    if keys != [] {
      var rest := keys[1..];
      OneActiveIsNumActive(rest);
      assert forall i :: 0 <= i < |rest| ==> rest[i] == keys[i + 1];
      if keys[0].isActive {
        assert AtMostOneActive(keys) <==> forall k :: k in rest ==> !k.isActive by {
          if AtMostOneActive(keys) {
            forall k | k in rest ensures !k.isActive {
              var i :| 0 <= i < |rest| && rest[i] == k;
              assert !keys[i + 1].isActive;
            }
          }
        }
        if Filter(rest, on) != [] {
          assert Filter(rest, on)[0] in Filter(rest, on);
        }
      } else {
        OneActiveTail(keys);
      }
    }
  }

  lemma OneActiveTail(keys: seq<SigningKey>)
    requires keys != [] && !keys[0].isActive
    ensures AtMostOneActive(keys) <==> AtMostOneActive(keys[1..])
  {
    var rest := keys[1..];
    assert forall i :: 0 <= i < |rest| ==> rest[i] == keys[i + 1];
    if AtMostOneActive(rest) {
      forall i, j | 0 <= i < |keys| && 0 <= j < |keys| && keys[i].isActive && keys[j].isActive ensures i == j {
        assert keys[i] == rest[i - 1] && keys[j] == rest[j - 1];
      }
    }
  }

  lemma ApplyWithoutFalse(s: State, e: Event)
    requires Kept(s) && (e.Rotation? ==> !e.db.writesFalse)
    ensures NumActive(Apply(s, e).0.keys) == NumActive(s.keys) + if Apply(s, e).1 == Done then 1 else 0
  {
    if e.Rotation? && s.slotFree {
      if s.current.Some? {
        var off := s.current.value.(isActive := false);
        var row :| row in s.keys && SameKey(row, s.current.value);
        assert SameKey(row, off);
        SwitchOff(s.keys, off, false);
      }
      if Apply(s, e).1 == Done {
        FilterSnoc(s.keys, NewKey(e.pair, e.at), (k: SigningKey) => k.isActive);
      }
    }
  }

  /** Then every completed rotation adds an active key and no key is ever switched off, so that at most one is active
      exactly if at most one rotation was ever completed, counting the active keys of the start. */
  lemma {:induction false} ActiveKeysAddUp(s: State, es: seq<Event>)
    requires Kept(s) && forall e :: e in es && e.Rotation? ==> !e.db.writesFalse
    ensures NumActive(After(s, es).keys) == NumActive(s.keys) + Completed(s, es)
    ensures AtMostOneActive(After(s, es).keys) <==> NumActive(s.keys) + Completed(s, es) <= 1
  {
    if es != [] {
      var front, e := es[..|es| - 1], es[|es| - 1];
      assert e in es && forall f :: f in front ==> f in es;
      ActiveKeysAddUp(s, front);
      RunKept(s, front);
      ApplyWithoutFalse(After(s, front), e);
    }
    OneActiveIsNumActive(After(s, es).keys);
  }

  // ---------- If the start finds an active key that has expired ----------

  function ActiveRows(keys: seq<SigningKey>): seq<SigningKey> {
    Filter(keys, (k: SigningKey) => k.isActive)
  }

  /** Whether a key of the service's own is active after a run, from what was so at its start: a completed rotation
      brings one, a rotation that fails after switching it off leaves none. */
  function OwnKeyActive(s: State, es: seq<Event>, start: bool): bool {
    if es == [] then start
    else
      var front, e := es[..|es| - 1], es[|es| - 1];
      var before := OwnKeyActive(s, front, start);
      if e.Get? then before
      else
        match Apply(After(s, front), e).1
        case Done => true
        case Failed => before && !e.db.updateWorks
        case _ => before
  }

  /** The expired key is the first active row and not the current one; besides it only the current one may be active. */
  ghost predicate Beside(s: State, stale: SigningKey, own: bool) {
    var rows := ActiveRows(s.keys);
    && Kept(s)
    && (s.current.Some? ==> s.current.value.id != stale.id)
    && |rows| == (if own then 2 else 1) && rows[0] == stale
    && (own ==> s.current.Some? && rows[1].id == s.current.value.id)
  }

  lemma {:induction false} ActiveAfterSwitchOff(keys: seq<SigningKey>, off: SigningKey)
    requires !off.isActive
    ensures ActiveRows(UpdateRow(keys, off, true)) == Filter(ActiveRows(keys), (k: SigningKey) => k.id != off.id)
  {
    if keys != [] {
      assert UpdateRow(keys, off, true)[1..] == UpdateRow(keys[1..], off, true);
      ActiveAfterSwitchOff(keys[1..], off);
      if keys[0].isActive {
        assert ActiveRows(keys)[1..] == ActiveRows(keys[1..]);
      }
    }
  }

  lemma SwitchOffBeside(s: State, stale: SigningKey, own: bool)
    requires Beside(s, stale, own) && s.current.Some?
    ensures ActiveRows(UpdateRow(s.keys, s.current.value.(isActive := false), true)) == [stale]
  {
    var off, rows := s.current.value.(isActive := false), ActiveRows(s.keys);
    hide Kept;
    ActiveAfterSwitchOff(s.keys, off);
    assert Filter(rows[1..], (k: SigningKey) => k.id != off.id) == [] by {
      FilterNone(rows[1..], (k: SigningKey) => k.id != off.id);
    }
  }

  lemma AddBeside(keys: seq<SigningKey>, stale: SigningKey, k: SigningKey)
    requires ActiveRows(keys) == [stale] && !HasID(keys, k.id) && k.isActive
    ensures ActiveRows(keys + [k]) == [stale, k] && k.id != stale.id
  {
    FilterSnoc(keys, k, (r: SigningKey) => r.isActive);
    assert ActiveRows(keys)[0] in ActiveRows(keys);
  }

  lemma CurrentHasRow(s: State)
    requires Kept(s) && s.current.Some?
    ensures HasID(s.keys, s.current.value.id)
  {
    var row :| row in s.keys && SameKey(row, s.current.value);
  }

  lemma RotationBeside(s: State, stale: SigningKey, own: bool, pair: KeyPair, now: int, db: Database)
    requires Beside(s, stale, own) && db.writesFalse
    ensures var (s', out) := Rotated(s, pair, now, db);
            Beside(s', stale, if out == Done then true else own && !db.updateWorks)
  {
    RotationKeepsValid(s, pair, now, db);
    hide Kept, ActiveRows, UpdateRow, HasID, HasKeyID;
    var keys := s.keys;
    if s.current.Some? {
      CurrentHasRow(s);
      SwitchOffBeside(s, stale, own);
      keys := UpdateRow(s.keys, s.current.value.(isActive := false), true);
    }
    if Rotated(s, pair, now, db).1 == Done {
      AddBeside(keys, stale, NewKey(pair, now));
    }
  }

  lemma ApplyBeside(s: State, stale: SigningKey, own: bool, e: Event, start: int)
    requires Beside(s, stale, own) && WritesFalse(e) && e.at >= start && stale.isActive && Expired(stale, start)
    ensures var (s', out) := Apply(s, e);
            Beside(s', stale, if e.Get? then own else if out == Done then true
                              else if out == Failed then own && !e.db.updateWorks else own)
  {
    hide Beside;
    match e {
      case Rotation(pair, now, db) =>
        if s.slotFree {
          RotationBeside(s, stale, own, pair, now, db);
        } else {
          SameKeysBeside(s, stale, own, s);
        }
      case Get(now, db) =>
        assert FindActive(s.keys, now).None? by {
          FirstActiveBeside(s, stale, own);
        }
        SameKeysBeside(s, stale, own, Apply(s, e).0);
    }
  }

  lemma FirstActiveBeside(s: State, stale: SigningKey, own: bool)
    requires Beside(s, stale, own)
    ensures ActiveRows(s.keys) != [] && ActiveRows(s.keys)[0] == stale
  {
  }

  lemma SameKeysBeside(s: State, stale: SigningKey, own: bool, s': State)
    requires Beside(s, stale, own) && s'.keys == s.keys && s'.current == s.current
    ensures Beside(s', stale, own)
  {
  }

  lemma {:induction false} RunBeside(s: State, stale: SigningKey, own: bool, es: seq<Event>, start: int)
    requires Beside(s, stale, own) && stale.isActive && Expired(stale, start)
    requires forall e :: e in es ==> WritesFalse(e) && e.at >= start
    ensures Beside(After(s, es), stale, OwnKeyActive(s, es, own))
  {
    if es != [] {
      var front, e := es[..|es| - 1], es[|es| - 1];
      assert e in es && forall f :: f in front ==> f in es;
      RunBeside(s, stale, own, front, start);
      hide Beside, Rotated, GetActiveKey;
      ApplyBeside(After(s, front), stale, OwnKeyActive(s, front, own), e, start);
    }
  }

  /** In every run after such a start the expired key stays active, with the table failing at will; there are two
      active keys exactly while a key of the service's own is active, and never more. */
  lemma TwoActiveKeysIff(s: State, stale: SigningKey, pair: KeyPair, now: int, db: Database, es: seq<Event>)
    requires Fresh(s) && db.findWorks && db.writesFalse
    requires stale in s.keys && stale.isActive && stale.expiresAt.Some? && stale.expiresAt.value < now
    requires forall e :: e in es ==> WritesFalse(e) && e.at >= now
    ensures var added := db.createWorks && !HasID(s.keys, pair.id) && !HasKeyID(s.keys, pair.keyID);
            var s0 := Initialize(s, pair, now, db).0;
            var keys := After(s0, es).keys;
            && stale in keys
            && NumActive(keys) == (if OwnKeyActive(s0, es, added) then 2 else 1)
            && (AtMostOneActive(keys) <==> !OwnKeyActive(s0, es, added))
  {
    var added := db.createWorks && !HasID(s.keys, pair.id) && !HasKeyID(s.keys, pair.keyID);
    var (s0, out) := Initialize(s, pair, now, db);
    OnlyActiveRow(s.keys, stale);
    assert Beside(s, stale, false);
    assert FindActive(s.keys, now).None?;
    RotationBeside(s, stale, false, pair, now, db);
    assert out == Done <==> added;
    RunBeside(s0, stale, added, es, now);
    var rows := ActiveRows(After(s0, es).keys);
    assert rows[0] in rows;
    hide Initialize, OwnKeyActive, AtMostOneActive, Kept;
    OneActiveIsNumActive(After(s0, es).keys);
  }

  lemma OnlyActiveRow(keys: seq<SigningKey>, stale: SigningKey)
    requires UniqueIDs(keys) && AtMostOneActive(keys) && stale in keys && stale.isActive
    ensures ActiveRows(keys) == [stale]
  {
    OneActiveIsNumActive(keys);
    var rows := ActiveRows(keys);
    assert stale in rows;
  }

  lemma {:induction false} AfterConcat(s: State, es: seq<Event>, fs: seq<Event>)
    ensures After(s, es + fs) == After(After(s, es), fs)
  {
    if fs == [] {
      assert es + fs == es;
    } else {
      assert (es + fs)[..|es + fs| - 1] == es + fs[..|fs| - 1];
      AfterConcat(s, es, fs[..|fs| - 1]);
    }
  }

  /** A key handed out for signing stays published, through any later rotations and failures, until it expires,
      whether false flags are written or not. */
  lemma ReturnedKeyStaysPublished(s: State, es: seq<Event>, get: Event, later: seq<Event>, then': int,
                                  parses: string -> bool)
    requires Kept(s) && Apply(After(s, es), get).1.Returned?
    requires var k := Apply(After(s, es), get).1.key;
             (k.expiresAt.Some? ==> then' <= k.expiresAt.value) && parses(k.publicKey)
    ensures Apply(After(s, es), get).1.key.keyID in Published(After(s, es + [get] + later).keys, then', parses)
  {
    var k := Apply(After(s, es), get).1.key;
    RunKept(s, es);
    ApplyKeepsValid(After(s, es), get);
    AfterConcat(s, es, [get]);
    AfterConcat(s, es + [get], later);
    assert [get][..0] == [];
    assert After(After(s, es), [get]) == Apply(After(s, es), get).0;
    var keys := After(s, es + [get] + later).keys;
    RunKept(After(s, es + [get]), later);
    assert Stored(keys, k);
    var row :| row in keys && SameKey(row, k);
    PublishedMember(keys, then', parses, row);
  }

  /** In every run, from any state whatever, no request returns a key that has expired at the moment of the request. */
  lemma ReturnedKeyUnexpired(s: State, es: seq<Event>, get: Event)
    requires Apply(After(s, es), get).1.Returned?
    ensures get.Get?
    ensures var k := Apply(After(s, es), get).1.key; k.expiresAt.None? || get.at < k.expiresAt.value
  {
  }

  /** Which key a request returns in any state: the current one if that is unexpired, and else the first of the table
      that is marked active, if that is; the latter is the current one from then on. */
  lemma ReturnedKeyIff(s: State, now: int, db: Database, k: SigningKey)
    ensures var good := (c: SigningKey) => c.expiresAt.None? || now < c.expiresAt.value;
            GetActiveKey(s, now, db).1 == Returned(k) <==>
            && s.slotFree && good(k)
            && (|| s.current == Some(k)
                || ((s.current.Some? ==> !good(s.current.value)) && db.findWorks
                    && First(s.keys, (r: SigningKey) => r.isActive) == Some(k)))
    ensures GetActiveKey(s, now, db).1 == Returned(k) ==> GetActiveKey(s, now, db).0 == s.(current := Some(k))
  {
    FirstOfFilter(s.keys, (r: SigningKey) => r.isActive);
  }

  /** Switching off a stored key changes no row but in the flag of its own. */
  lemma SwitchOffAt(keys: seq<SigningKey>, off: SigningKey, writesFalse: bool, i: nat)
    requires UniqueIDs(keys) && Stored(keys, off) && !off.isActive && i < |keys|
    ensures UpdateRow(keys, off, writesFalse)[i] ==
            if keys[i].id == off.id then keys[i].(isActive := !writesFalse && keys[i].isActive) else keys[i]
  {
    var row :| row in keys && SameKey(row, off);
    if keys[i].id == off.id {
      SameRow(keys, keys[i], row);
    }
  }

  lemma SwitchOffKeepsIDs(keys: seq<SigningKey>, off: SigningKey, writesFalse: bool, id: string, keyID: string)
    requires UniqueIDs(keys) && Stored(keys, off) && !off.isActive
    ensures HasID(UpdateRow(keys, off, writesFalse), id) <==> HasID(keys, id)
    ensures HasKeyID(UpdateRow(keys, off, writesFalse), keyID) <==> HasKeyID(keys, keyID)
  {
    var keys' := UpdateRow(keys, off, writesFalse);
    forall i | 0 <= i < |keys| ensures keys'[i].id == keys[i].id && keys'[i].keyID == keys[i].keyID {
      SwitchOffAt(keys, off, writesFalse, i);
    }
    hide UpdateRow, UniqueIDs, Stored;
    assert forall i :: 0 <= i < |keys| ==> keys'[i] in keys' && keys[i] in keys;
  }

  /** What a rotation does. It is completed exactly if the current key, if any, can be updated, and the table takes the
      new one; that one, active for ninety days from now, is then the last row and the current key. Before that the
      current key is switched off, in the table if the flag is written, and no other row is touched. */
  lemma RotationIff(s: State, pair: KeyPair, now: int, db: Database)
    requires Kept(s)
    ensures var (s', out) := Rotated(s, pair, now, db);
            var added := SigningKey(pair.id, pair.keyID, pair.publicKey, true, Some(now + 90 * 86_400 * 1_000_000_000));
            && (out == Done <==>
                  && (s.current.Some? ==> db.updateWorks) && db.createWorks
                  && forall k :: k in s.keys ==> k.id != pair.id && k.keyID != pair.keyID)
            && (out != Done ==> out == Failed)
            && |s'.keys| == |s.keys| + (if out == Done then 1 else 0)
            && (out == Done ==> s'.keys[|s.keys|] == added && s'.current == Some(added))
            && (out != Done ==> s'.current == if s.current.Some? then Some(s.current.value.(isActive := false)) else None)
            && forall i :: 0 <= i < |s.keys| ==>
                 s'.keys[i] == if db.updateWorks && s.current.Some? && s.keys[i].id == s.current.value.id
                               then s.keys[i].(isActive := !db.writesFalse && s.keys[i].isActive) else s.keys[i]
  {
    if s.current.Some? {
      var off := s.current.value.(isActive := false);
      assert Stored(s.keys, off) by {
        var row :| row in s.keys && SameKey(row, s.current.value);
        assert SameKey(row, off);
      }
      CurrentHasRow(s);
      SwitchOffKeepsIDs(s.keys, off, db.writesFalse, pair.id, pair.keyID);
      forall i | 0 <= i < |s.keys|
        ensures UpdateRow(s.keys, off, db.writesFalse)[i] ==
                if s.keys[i].id == off.id then s.keys[i].(isActive := !db.writesFalse && s.keys[i].isActive) else s.keys[i]
      {
        SwitchOffAt(s.keys, off, db.writesFalse, i);
      }
      assert |UpdateRow(s.keys, off, db.writesFalse)| == |s.keys|;
    }
    assert !HasID(s.keys, pair.id) && !HasKeyID(s.keys, pair.keyID) <==>
      forall k :: k in s.keys ==> k.id != pair.id && k.keyID != pair.keyID;
    hide UpdateRow, UniqueIDs, Stored, HasID, HasKeyID;
  }

  /** The published key set: a key ID is listed exactly if it is that of a readable key that is active or unexpired. */
  lemma {:induction false} PublishedIff(keys: seq<SigningKey>, now: int, parses: string -> bool, kid: string)
    ensures kid in Published(keys, now, parses) <==>
            exists k :: k in keys && k.keyID == kid && parses(k.publicKey)
              && (k.isActive || k.expiresAt.None? || now <= k.expiresAt.value)
  {
    if keys != [] {
      PublishedIff(keys[1..], now, parses, kid);
      assert forall k :: k in keys <==> k == keys[0] || k in keys[1..];
    }
  }

  /** Initialization takes over the first active key of the table, unless that has expired; then it rotates. */
  lemma InitializeIff(s: State, pair: KeyPair, now: int, db: Database)
    ensures var first := First(s.keys, (r: SigningKey) => r.isActive);
            Initialize(s, pair, now, db) ==
            if !db.findWorks then (s, Failed)
            else if first.Some? && (first.value.expiresAt.Some? ==> now <= first.value.expiresAt.value)
            then (s.(current := first), Done)
            else RotateKey(s, pair, now, db)
  {
    FirstOfFilter(s.keys, (r: SigningKey) => r.isActive);
  }

  /** In a valid state a request for the active key returns exactly when the current key is unexpired; if the table
      can be read and it is not, the call never returns, and neither does any later call. */
  lemma GetReturnsIff(s: State, now: int, db: Database)
    requires Valid(s) && s.slotFree
    ensures var good := s.current.Some? && (s.current.value.expiresAt.None? || now < s.current.value.expiresAt.value);
            && (GetActiveKey(s, now, db).1.Returned? <==> good)
            && (GetActiveKey(s, now, db).1 == Blocked <==> db.findWorks && !good)
  {
    if FindActive(s.keys, now).Some? {
      FoundKeepsKept(s, now);
    }
  }

  lemma {:induction false} BlockedForGood(s: State, now: int, db: Database, es: seq<Event>, e: Event)
    requires GetActiveKey(s, now, db).1 == Blocked
    ensures Apply(After(GetActiveKey(s, now, db).0, es), e).1 == Blocked
  {
    var blocked := GetActiveKey(s, now, db).0;
    NothingMoves(blocked, es);
  }

  lemma {:induction false} NothingMoves(s: State, es: seq<Event>)
    requires !s.slotFree
    ensures After(s, es) == s
  {
    if es != [] {
      NothingMoves(s, es[..|es| - 1]);
    }
  }
}

/** The slot among concurrent callers: a channel of capacity one that starts with one token. */
module KeySlot {

  /** `Stuck`: holds the token and waits for it again, as `GetActiveKey` does when it calls `RotateKey`. */
  datatype Caller = Idle | Waiting | Holding | Stuck

  datatype Slot = Slot(tokens: nat, callers: seq<Caller>)

  datatype Move = Ask(i: nat) | Take(i: nat) | Nest(i: nat) | TakeAgain(i: nat) | Give(i: nat)

  ghost predicate Step(s: Slot, m: Move, s': Slot) {
    && m.i < |s.callers|
    && match m
       case Ask(i) => s.callers[i] == Idle && s' == Slot(s.tokens, s.callers[i := Waiting])
       case Take(i) => s.callers[i] == Waiting && s.tokens > 0 && s' == Slot(s.tokens - 1, s.callers[i := Holding])
       case Nest(i) => s.callers[i] == Holding && s' == Slot(s.tokens, s.callers[i := Stuck])
       case TakeAgain(i) => s.callers[i] == Stuck && s.tokens > 0 && s' == Slot(s.tokens - 1, s.callers[i := Holding])
       case Give(i) => s.callers[i] == Holding && s.tokens < 1 && s' == Slot(s.tokens + 1, s.callers[i := Idle])
  }

  ghost predicate Run(ss: seq<Slot>, ms: seq<Move>) {
    && |ss| == |ms| + 1
    && ss[0].tokens == 1 && (forall i :: 0 <= i < |ss[0].callers| ==> ss[0].callers[i] == Idle)
    && forall n :: 0 <= n < |ms| ==> Step(ss[n], ms[n], ss[n + 1])
  }

  predicate Has(s: Slot, i: int) {
    0 <= i < |s.callers| && (s.callers[i] == Holding || s.callers[i] == Stuck)
  }

  ghost predicate Exclusive(s: Slot) {
    || (s.tokens == 1 && forall i :: !Has(s, i))
    || (s.tokens == 0 && exists i :: Has(s, i) && forall j :: Has(s, j) ==> j == i)
  }

  lemma SameHolders(s: Slot, s': Slot)
    requires Exclusive(s) && s'.tokens == s.tokens && forall j :: Has(s', j) <==> Has(s, j)
    ensures Exclusive(s')
  {
    if s.tokens == 0 {
      var h :| Has(s, h) && forall j :: Has(s, j) ==> j == h;
      assert Has(s', h);
    }
  }

  lemma StepKeepsExclusive(s: Slot, m: Move, s': Slot)
    requires Exclusive(s) && Step(s, m, s')
    ensures Exclusive(s')
  {
    var i := m.i;
    assert forall j :: 0 <= j < |s.callers| && j != i ==> s'.callers[j] == s.callers[j];
    hide Exclusive;
    match m {
      case Ask(_) => SameHolders(s, s');
      case Nest(_) => SameHolders(s, s');
      case Take(_) => TokenTaken(s, i, s');
      case TakeAgain(_) => HolderMeansNoToken(s, i);
      case Give(_) => TokenGiven(s, i, s');
    }
  }

  lemma HolderMeansNoToken(s: Slot, i: int)
    requires Exclusive(s) && Has(s, i)
    ensures s.tokens == 0
  {
  }

  lemma TokenTaken(s: Slot, i: int, s': Slot)
    requires Exclusive(s) && s.tokens > 0 && s'.tokens == s.tokens - 1
    requires Has(s', i) && forall j :: j != i ==> (Has(s', j) <==> Has(s, j))
    ensures Exclusive(s')
  {
  }

  lemma TokenGiven(s: Slot, i: int, s': Slot)
    requires Exclusive(s) && Has(s, i) && s'.tokens == s.tokens + 1
    requires !Has(s', i) && forall j :: j != i ==> (Has(s', j) <==> Has(s, j))
    ensures Exclusive(s')
  {
  }

  lemma {:induction false} RunExclusive(ss: seq<Slot>, ms: seq<Move>, n: nat)
    requires Run(ss, ms) && n < |ss|
    ensures Exclusive(ss[n])
  {
    if n > 0 {
      RunExclusive(ss, ms, n - 1);
      StepKeepsExclusive(ss[n - 1], ms[n - 1], ss[n]);
    }
  }

  /** Mutual exclusion, in every interleaving. */
  lemma OneHolder(ss: seq<Slot>, ms: seq<Move>, n: nat, i: int, j: int)
    requires Run(ss, ms) && n < |ss| && Has(ss[n], i) && Has(ss[n], j)
    ensures i == j
  {
    RunExclusive(ss, ms, n);
  }

  /** Once a caller waits for the token it holds, nobody ever takes the slot again and it is never given back. */
  lemma {:induction false} StuckForever(ss: seq<Slot>, ms: seq<Move>, n: nat, i: nat, later: nat)
    requires Run(ss, ms) && n <= later < |ss| && i < |ss[n].callers| && ss[n].callers[i] == Stuck
    ensures i < |ss[later].callers| && ss[later].callers[i] == Stuck && ss[later].tokens == 0
    ensures forall j :: Has(ss[later], j) ==> j == i
    ensures later < |ms| ==> ms[later].Ask?
  {
    if n < later {
      StuckForever(ss, ms, n, i, later - 1);
      assert Step(ss[later - 1], ms[later - 1], ss[later]);
    }
    RunExclusive(ss, ms, later);
    assert Has(ss[later], i);
    if later < |ms| {
      assert Step(ss[later], ms[later], ss[later + 1]);
      if ms[later].Nest? || ms[later].Give? {
        assert Has(ss[later], ms[later].i);
      }
    }
  }
}
