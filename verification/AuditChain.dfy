/**
 The audit log: an append-only table whose rows are chained by hashes, and the check
 that walks the chain. SHA-256 (with its hexadecimal printing) is a parameter.
 */
module AuditChain {
  import opened Decimals
  import opened Sequences
  import opened Text
  import opened Wrappers

  /** What a caller hands to `Create`. A JSON object is its text; `None` is Go's nil map. */
  datatype Log = Log(
    tenantID: string, eventType: string, actorID: string, actorType: string,
    resourceType: string, resourceID: string, action: string,
    before: Option<string>, after: Option<string>, metadata: Option<string>,
    timestamp: int, prevHash: string)

  datatype Row = Row(
    tenantID: string, eventType: string, actorID: string, actorType: string,
    resourceType: string, resourceID: string, action: string,
    before: string, after: string, metadata: string,
    timestamp: int, hash: string, prevHash: string)

  // ---------- What is hashed ----------

  function LogPieces(l: Log): seq<string> {
    [l.tenantID, l.eventType, l.actorID, l.actorType, l.resourceType, l.resourceID, l.action,
     l.before.GetOr("{}"), l.after.GetOr("{}"), l.metadata.GetOr("{}"), Decimal(l.timestamp)]
  }

  function LogText(l: Log): string {
    Join(LogPieces(l), '|')
  }

  function RowPieces(r: Row): seq<string> {
    [r.tenantID, r.eventType, r.actorID, r.actorType, r.resourceType, r.resourceID, r.action,
     r.before, r.after, r.metadata, Decimal(r.timestamp)]
  }

  function RowText(r: Row): string {
    Join(RowPieces(r), '|')
  }

  /** A previous hash is put in front of the text, with a bar between them, unless there is none. */
  function Prefixed(prev: string, text: string): string {
    if prev != "" then prev + "|" + text else text
  }

  /** A row without its two hash columns. */
  function Content(r: Row): Row {
    r.(hash := "", prevHash := "")
  }

  // ---------- Create ----------

  /** The tenant's row with the greatest timestamp. */
  function Latest(rows: seq<Row>, tenantID: string): (r: Option<Row>)
    ensures r.Some? ==> r.value in rows && r.value.tenantID == tenantID
  {
    if rows == [] then None
    else
      var last, rest := rows[|rows| - 1], Latest(rows[..|rows| - 1], tenantID);
      if last.tenantID == tenantID && (rest.None? || last.timestamp > rest.value.timestamp) then Some(last) else rest
  }

  /** The row `Create` writes: the text is hashed with the caller's timestamp, which is then replaced by the
      clock; nil maps are hashed as {} but stored as null; a caller's PrevHash is hashed but not stored. */
  function NewRow(sha: string -> string, rows: seq<Row>, l: Log, now: int): Row {
    var latest := Latest(rows, l.tenantID);
    var prev := if l.prevHash == "" && latest.Some? then latest.value.hash else "";
    var input :=
      if l.prevHash != "" then l.prevHash + "|" + LogText(l)
      else if latest.Some? then prev + "|" + LogText(l)
      else LogText(l);
    Row(l.tenantID, l.eventType, l.actorID, l.actorType, l.resourceType, l.resourceID, l.action,
      l.before.GetOr("null"), l.after.GetOr("null"), l.metadata.GetOr("null"), now, sha(input), prev)
  }

  predicate HasHash(rows: seq<Row>, hash: string) {
    exists r :: r in rows && r.hash == hash
  }

  /** The unique index on the hash column refuses a duplicate. */
  function Append(rows: seq<Row>, r: Row): seq<Row> {
    if HasHash(rows, r.hash) then rows else rows + [r]
  }

  // ---------- VerifyChain ----------

  function InsertByTime(rows: seq<Row>, r: Row): seq<Row> {
    if rows == [] || r.timestamp < rows[0].timestamp then [r] + rows
    else [rows[0]] + InsertByTime(rows[1..], r)
  }

  function SortByTime(rows: seq<Row>): seq<Row> {
    if rows == [] then [] else InsertByTime(SortByTime(rows[..|rows| - 1]), rows[|rows| - 1])
  }

  function Selected(rows: seq<Row>, tenantID: string, from: int): seq<Row> {
    Filter(rows, (r: Row) => r.tenantID == tenantID && r.timestamp >= from)
  }

  function Range(rows: seq<Row>, tenantID: string, from: int): seq<Row> {
    SortByTime(Selected(rows, tenantID, from))
  }

  /** The hash the walk expects to continue from at row `i`: the first row contributes its PrevHash, the others their Hash. */
  function PrevFor(logs: seq<Row>, i: nat): string
    requires 1 <= i < |logs|
  {
    if i == 1 then logs[0].prevHash else logs[i - 1].hash
  }

  function HashedText(logs: seq<Row>, i: nat): string
    requires 1 <= i < |logs|
  {
    Prefixed(PrevFor(logs, i), RowText(logs[i]))
  }

  predicate Accepts(sha: string -> string, logs: seq<Row>) {
    forall i :: 1 <= i < |logs| ==> logs[i].hash == sha(HashedText(logs, i))
  }

  class AuditLogRepository {
    const sha256: string -> string
    var rows: seq<Row>

    constructor (sha256: string -> string)
      ensures this.sha256 == sha256 && rows == []
    {
      this.sha256 := sha256;
      rows := [];
    }

    method Create(log: Log, now: int) returns (ok: bool)
      modifies this
      ensures rows == Append(old(rows), NewRow(sha256, old(rows), log, now))
      ensures ok <==> |rows| == |old(rows)| + 1
    {
      var hashInput := LogText(log);
      var prevHash := "";
      if log.prevHash != "" {
        hashInput := log.prevHash + "|" + hashInput;
      } else {
        var last := Latest(rows, log.tenantID);
        if last.Some? {
          prevHash := last.value.hash;
          hashInput := prevHash + "|" + hashInput;
        }
      }
      var row := Row(log.tenantID, log.eventType, log.actorID, log.actorType, log.resourceType, log.resourceID, log.action,
        log.before.GetOr("null"), log.after.GetOr("null"), log.metadata.GetOr("null"), now, sha256(hashInput), prevHash);
      if HasHash(rows, row.hash) {
        return false;
      }
      rows := rows + [row];
      return true;
    }

    method VerifyChain(tenantID: string, from: int) returns (ok: bool)
      ensures ok == Accepts(sha256, Range(rows, tenantID, from))
    {
      hide RowText, Range;
      var logs := Range(rows, tenantID, from);
      if |logs| == 0 {
        return true;
      }
      var prevHash := "";
      for i := 0 to |logs|
        invariant i == 1 ==> prevHash == logs[0].prevHash
        invariant i > 1 ==> prevHash == logs[i - 1].hash
        invariant forall k :: 1 <= k < i ==> logs[k].hash == sha256(HashedText(logs, k))
      {
        if i == 0 {
          prevHash := logs[i].prevHash;
          continue;
        }
        var hashInput := RowText(logs[i]);
        if prevHash != "" {
          hashInput := prevHash + "|" + hashInput;
        }
        assert hashInput == HashedText(logs, i);
        if logs[i].hash != sha256(hashInput) {
          return false;
        }
        prevHash := logs[i].hash;
      }
      return true;
    }
  }

  // ---------- Tamper evidence ----------

  ghost predicate BarFree(r: Row) {
    AllFree(RowPieces(r), '|')
  }

  /** The ten columns of a row that hold text. */
  function TextFields(r: Row): seq<string> {
    [r.tenantID, r.eventType, r.actorID, r.actorType, r.resourceType, r.resourceID, r.action, r.before, r.after, r.metadata]
  }

  function WithFields(r: Row, xs: seq<string>): Row
    requires |xs| == 10
  {
    Row(xs[0], xs[1], xs[2], xs[3], xs[4], xs[5], xs[6], xs[7], xs[8], xs[9], r.timestamp, r.hash, r.prevHash)
  }

  lemma PiecesAreFields(r: Row)
    ensures RowPieces(r) == TextFields(r) + [Decimal(r.timestamp)]
    ensures BarFree(r) <==> AllFree(TextFields(r), '|')
    ensures WithFields(r, TextFields(r)) == r
  {
    hide Decimal;
    assert AllFree(RowPieces(r), '|') <==> AllFree(TextFields(r), '|') by {
      DecimalHasNoBar(r.timestamp);
      assert forall x :: x in RowPieces(r) <==> x in TextFields(r) || x == Decimal(r.timestamp);
    }
  }

  lemma FieldsOfWithFields(r: Row, xs: seq<string>)
    requires |xs| == 10
    ensures TextFields(WithFields(r, xs)) == xs
    ensures Content(WithFields(r, xs)) == Content(r) <==> xs == TextFields(r)
  {
    assert TextFields(WithFields(r, xs)) == xs;
    assert TextFields(Content(WithFields(r, xs))) == xs && TextFields(Content(r)) == TextFields(r);
  }

  /** A record with a bar in one of its fields has a twin: another record with the same text. */
  lemma TwinRow(r: Row) returns (s: Row)
    requires !BarFree(r)
    ensures RowText(s) == RowText(r) && Content(s) != Content(r) && s.hash == r.hash && s.prevHash == r.prevHash
  {
    var end := [Decimal(r.timestamp)];
    PiecesAreFields(r);
    hide Join, Content, RowPieces;
    var xs := Twin([], TextFields(r), end, '|');
    s := WithFields(r, xs);
    FieldsOfWithFields(r, xs);
    PiecesAreFields(s);
    assert [] + xs + end == RowPieces(s) && [] + TextFields(r) + end == RowPieces(r);
  }

  /** The text determines the record exactly if no field holds a bar. */
  lemma BarFreeIff(r: Row)
    ensures BarFree(r) <==> forall s: Row :: RowText(s) == RowText(r) ==> Content(s) == Content(r)
  {
    if BarFree(r) {
      forall s: Row | RowText(s) == RowText(r) ensures Content(s) == Content(r) {
        assert |RowPieces(r)| == |RowPieces(s)|;
        hide RowPieces, Content;
        JoinUnique(RowPieces(r), RowPieces(s), '|');
        PiecesDetermineContent(r, s);
      }
    } else {
      var s := TwinRow(r);
    }
  }

  /** What makes the hashed text of record `r` after `p` readable against record `s` after `q`: bar-free fields of `r`,
      and the same of `s`, or else a bar-free hash `p` that is not missing where `q` is there. */
  ghost predicate Readable(p: string, r: Row, q: string, s: Row) {
    BarFree(r) && (BarFree(s) || ('|' !in p && (q == "" ==> p == "")))
  }

  /** The other record cannot hold bars then: the text falls into as few pieces as there are columns. */
  lemma OtherIsBarFree(p: string, r: Row, q: string, s: Row)
    requires Readable(p, r, q, s) && Prefixed(p, RowText(r)) == Prefixed(q, RowText(s))
    ensures BarFree(s)
  {
    assert |RowPieces(s)| == |RowPieces(r)|;
    SplitPrefixed(p, r);
    SplitOne(p, '|');
    hide Join, RowPieces;
    PiecesOfJoin(RowPieces(s), '|');
    if q != "" {
      SplitConcat(q, RowText(s), '|');
    }
  }

  /** Then the text determines the previous hash and the record. */
  lemma TextDeterminesRecord(p: string, r: Row, q: string, s: Row)
    requires Readable(p, r, q, s)
    requires Prefixed(p, RowText(r)) == Prefixed(q, RowText(s))
    ensures p == q && Content(r) == Content(s)
  {
    OtherIsBarFree(p, r, q, s);
    SplitPrefixed(p, r);
    SplitPrefixed(q, s);
    var a, b := RowPieces(r), RowPieces(s);
    var x := if p == "" then [] else Split(p, '|');
    var y := if q == "" then [] else Split(q, '|');
    assert x + a == y + b;
    assert |x| == |y|;
    assert (x + a)[..|x|] == x && (x + a)[|x|..] == a;
    assert (y + b)[..|x|] == y && (y + b)[|x|..] == b;
    JoinSplit(p, '|');
    JoinSplit(q, '|');
    PiecesDetermineContent(r, s);
  }

  lemma SplitPrefixed(p: string, r: Row)
    requires BarFree(r)
    ensures Split(Prefixed(p, RowText(r)), '|') == (if p == "" then [] else Split(p, '|')) + RowPieces(r)
  {
    SplitJoin(RowPieces(r), '|');
    if p != "" {
      SplitConcat(p, RowText(r), '|');
    }
  }

  lemma PiecesDetermineContent(r: Row, s: Row)
    requires RowPieces(r) == RowPieces(s)
    ensures Content(r) == Content(s)
  {
    var a, b := RowPieces(r), RowPieces(s);
    assert a[0] == b[0] && a[1] == b[1] && a[2] == b[2] && a[3] == b[3] && a[4] == b[4] && a[5] == b[5];
    assert a[6] == b[6] && a[7] == b[7] && a[8] == b[8] && a[9] == b[9] && a[10] == b[10];
    DecimalInjective(r.timestamp, s.timestamp);
  }

  ghost predicate SameAfterFirst(a: seq<Row>, b: seq<Row>)
    requires |a| == |b|
  {
    && (forall i :: 1 <= i < |a| ==> Content(a[i]) == Content(b[i]) && a[i].hash == b[i].hash)
    && (|a| > 1 ==> a[0].prevHash == b[0].prevHash)
  }

  ghost predicate CollisionAt(sha: string -> string, a: seq<Row>, b: seq<Row>, k: nat)
    requires |a| == |b|
  {
    1 <= k < |a| && HashedText(a, k) != HashedText(b, k) && sha(HashedText(a, k)) == sha(HashedText(b, k))
  }

  lemma AcceptedPrefix(sha: string -> string, logs: seq<Row>, n: nat)
    requires 1 <= n <= |logs|
    ensures forall i :: 1 <= i < n ==> HashedText(logs[..n], i) == HashedText(logs, i)
    ensures Accepts(sha, logs) ==> Accepts(sha, logs[..n])
  {
    hide RowText;
    forall i | 1 <= i < n ensures HashedText(logs[..n], i) == HashedText(logs, i) {
      assert logs[..n][i] == logs[i] && logs[..n][i - 1] == logs[i - 1];
    }
  }

  ghost predicate ReadableLogs(a: seq<Row>, b: seq<Row>)
    requires |a| == |b|
  {
    forall i :: 1 <= i < |a| ==> Readable(PrevFor(a, i), a[i], PrevFor(b, i), b[i])
  }

  lemma ReadablePrefix(a: seq<Row>, b: seq<Row>, n: nat)
    requires |a| == |b| && 1 <= n <= |a| && ReadableLogs(a, b)
    ensures ReadableLogs(a[..n], b[..n])
  {
    hide Readable;
    forall i | 1 <= i < n ensures Readable(PrevFor(a[..n], i), a[..n][i], PrevFor(b[..n], i), b[..n][i]) {
      assert PrevFor(a[..n], i) == PrevFor(a, i) && PrevFor(b[..n], i) == PrevFor(b, i);
    }
  }

  /** Equal texts at row `n`: the records there agree, and so do the hashes the two walks came from. */
  lemma SameTextAt(a: seq<Row>, b: seq<Row>, n: nat)
    requires |a| == |b| && 1 <= n < |a| && HashedText(a, n) == HashedText(b, n) && ReadableLogs(a, b)
    ensures PrevFor(a, n) == PrevFor(b, n) && Content(a[n]) == Content(b[n])
  {
    hide RowText, Content, Readable;
    TextDeterminesRecord(PrevFor(a, n), a[n], PrevFor(b, n), b[n]);
  }

  lemma SameSnoc(a: seq<Row>, b: seq<Row>, n: nat)
    requires |a| == |b| == n + 1 && n >= 1
    requires SameAfterFirst(a[..n], b[..n]) && Content(a[n]) == Content(b[n]) && a[n].hash == b[n].hash
    requires PrevFor(a, n) == PrevFor(b, n)
    ensures SameAfterFirst(a, b)
  {
    hide Content;
    assert forall i :: 0 <= i < n ==> a[..n][i] == a[i] && b[..n][i] == b[i];
  }

  /** Tamper evidence for logs that can be read against each other. */
  lemma {:induction false} SameOrCollision(sha: string -> string, a: seq<Row>, b: seq<Row>) returns (k: nat)
    requires |a| == |b| >= 1 && Accepts(sha, a) && Accepts(sha, b) && ReadableLogs(a, b)
    requires a[|a| - 1].hash == b[|b| - 1].hash
    ensures SameAfterFirst(a, b) || CollisionAt(sha, a, b, k)
    decreases |a|
  {
    hide RowText, HashedText, Content, ReadableLogs;
    var n := |a| - 1;
    k := n;
    if n >= 1 && HashedText(a, n) == HashedText(b, n) {
      SameTextAt(a, b, n);
      AcceptedPrefix(sha, a, n);
      AcceptedPrefix(sha, b, n);
      if n >= 2 {
        ReadablePrefix(a, b, n);
        k := SameOrCollision(sha, a[..n], b[..n]);
      }
      if SameAfterFirst(a[..n], b[..n]) {
        SameSnoc(a, b, n);
      }
    }
  }

  /** Hashes look like those of SHA-256 in hexadecimal, as far as it matters here. */
  ghost predicate HexLike(sha: string -> string) {
    forall x :: sha(x) != "" && '|' !in sha(x)
  }

  /** What an auditor can see of the log at hand: no bar in any row after the first, nor in the first PrevHash. */
  ghost predicate Auditable(a: seq<Row>)
    requires a != []
  {
    '|' !in a[0].prevHash && forall i :: 1 <= i < |a| ==> BarFree(a[i])
  }

  /** Tamper evidence, for the loop as written: whoever holds an auditable log knows that any other accepted log of its
      length with the same last hash, whatever its rows hold, records the same in every row after the first, or
      exhibits a hash collision. The other log may not lack a first PrevHash that this one has. */
  lemma TamperEvidence(sha: string -> string, a: seq<Row>, b: seq<Row>) returns (k: nat)
    requires HexLike(sha) && |a| == |b| >= 1 && Accepts(sha, a) && Accepts(sha, b)
    requires a[|a| - 1].hash == b[|b| - 1].hash
    requires Auditable(a) && (b[0].prevHash == "" ==> a[0].prevHash == "")
    ensures SameAfterFirst(a, b) || CollisionAt(sha, a, b, k)
  {
    hide RowText, HashedText, BarFree;
    assert ReadableLogs(a, b) by {
      forall i | 1 <= i < |a| ensures Readable(PrevFor(a, i), a[i], PrevFor(b, i), b[i]) {
        if i > 1 {
          assert a[i - 1].hash == sha(HashedText(a, i - 1)) && b[i - 1].hash == sha(HashedText(b, i - 1));
        }
      }
    }
    k := SameOrCollision(sha, a, b);
  }

  /** The same for any hash function and any start, if neither log holds a bar. */
  lemma TamperEvidenceAnyHash(sha: string -> string, a: seq<Row>, b: seq<Row>) returns (k: nat)
    requires |a| == |b| >= 1 && Accepts(sha, a) && Accepts(sha, b)
    requires a[|a| - 1].hash == b[|b| - 1].hash
    requires forall i :: 1 <= i < |a| ==> BarFree(a[i]) && BarFree(b[i])
    ensures SameAfterFirst(a, b) || CollisionAt(sha, a, b, k)
  {
    hide RowText, HashedText, BarFree;
    k := SameOrCollision(sha, a, b);
  }

  /** The condition on bars is needed: for every log with a bar in some row there is another one with all the same hashes
      and another record in that row, and the check accepts both or neither. */
  lemma BarsAllowTampering(sha: string -> string, a: seq<Row>, n: nat) returns (b: seq<Row>)
    requires n < |a| && !BarFree(a[n])
    ensures |b| == |a| && (Accepts(sha, b) <==> Accepts(sha, a)) && Content(b[n]) != Content(a[n])
    ensures forall i :: 0 <= i < |a| ==> b[i].hash == a[i].hash && b[i].prevHash == a[i].prevHash
  {
    var s := TwinRow(a[n]);
    hide RowText, Accepts;
    SameTextInterchangeable(sha, a, n, s);
    b := a[n := s];
  }

  /** The first row's own record is not protected: any record with the same PrevHash can take its place. */
  lemma FirstRowUnprotected(sha: string -> string, logs: seq<Row>, r: Row)
    requires |logs| >= 1 && r.prevHash == logs[0].prevHash
    ensures Accepts(sha, logs[0 := r]) <==> Accepts(sha, logs)
  {
    var other := logs[0 := r];
    assert forall i :: 1 <= i < |logs| ==> HashedText(other, i) == HashedText(logs, i) && other[i] == logs[i];
  }

  /** Rows with one text and the same two hashes are interchangeable, wherever they stand. */
  lemma SameTextInterchangeable(sha: string -> string, logs: seq<Row>, n: nat, r: Row)
    requires n < |logs| && RowText(r) == RowText(logs[n]) && r.hash == logs[n].hash && r.prevHash == logs[n].prevHash
    ensures Accepts(sha, logs[n := r]) <==> Accepts(sha, logs)
  {
    hide RowText, Prefixed;
    var other := logs[n := r];
    assert forall i :: 0 <= i < |logs| ==>
      RowText(other[i]) == RowText(logs[i]) && other[i].hash == logs[i].hash && other[i].prevHash == logs[i].prevHash;
    assert forall i :: 1 <= i < |logs| ==> PrevFor(other, i) == PrevFor(logs, i);
    hide PrevFor;
    assert forall i :: 1 <= i < |logs| ==> HashedText(other, i) == HashedText(logs, i);
    hide HashedText;
  }

  /** Without bar-free fields no boundary between two of them is protected, in any row and for any hash function: a bar
      moved across it changes the record and not the outcome. */
  lemma FieldBoundaryUnprotected(sha: string -> string, logs: seq<Row>, n: nat, j: nat,
                                 left: string, middle: string, right: string)
    requires n < |logs| && j < 9
    ensures var fields := TextFields(logs[n]);
            var a := WithFields(logs[n], fields[j := left + "|" + middle][j + 1 := right]);
            var b := WithFields(logs[n], fields[j := left][j + 1 := middle + "|" + right]);
            Content(a) != Content(b) && (Accepts(sha, logs[n := a]) <==> Accepts(sha, logs[n := b]))
  {
    var fields := TextFields(logs[n]);
    var xs, ys := fields[j := left + "|" + middle][j + 1 := right], fields[j := left][j + 1 := middle + "|" + right];
    var a, b := WithFields(logs[n], xs), WithFields(logs[n], ys);
    assert TextFields(Content(a)) == xs && TextFields(Content(b)) == ys;
    assert |xs[j]| > |ys[j]|;
    SameTextAcrossBoundary(logs[n], j, left, middle, right);
    hide RowText, Accepts;
    SameTextInterchangeable(sha, logs[n := a], n, b);
    assert logs[n := a][n := b] == logs[n := b];
  }

  lemma SameTextAcrossBoundary(r: Row, j: nat, left: string, middle: string, right: string)
    requires j < 9
    ensures RowText(WithFields(r, TextFields(r)[j := left + "|" + middle][j + 1 := right]))
         == RowText(WithFields(r, TextFields(r)[j := left][j + 1 := middle + "|" + right]))
  {
    hide Join;
    var fields, end := TextFields(r), [Decimal(r.timestamp)];
    var xs, ys := fields[j := left + "|" + middle][j + 1 := right], fields[j := left][j + 1 := middle + "|" + right];
    JoinBoundary(fields[..j], left, middle, right, fields[j + 2..] + end, '|');
    assert RowPieces(WithFields(r, xs)) == xs + end == fields[..j] + [left + "|" + middle, right] + (fields[j + 2..] + end);
    assert RowPieces(WithFields(r, ys)) == ys + end == fields[..j] + [left, middle + "|" + right] + (fields[j + 2..] + end);
  }

  // ---------- Runs of Create ----------

  datatype Call = Call(log: Log, now: int)

  function Table(sha: string -> string, calls: seq<Call>): seq<Row> {
    if calls == [] then []
    else
      var rows, c := Table(sha, calls[..|calls| - 1]), calls[|calls| - 1];
      Append(rows, NewRow(sha, rows, c.log, c.now))
  }

  ghost predicate StrictClock(calls: seq<Call>) {
    forall i, j :: 0 <= i < j < |calls| ==> calls[i].now < calls[j].now
  }

  ghost predicate Increasing(rows: seq<Row>) {
    forall i, j :: 0 <= i < j < |rows| ==> rows[i].timestamp < rows[j].timestamp
  }

  lemma {:induction false} SortIncreasing(rows: seq<Row>)
    requires Increasing(rows)
    ensures SortByTime(rows) == rows
  {
    if rows != [] {
      var front, last := rows[..|rows| - 1], rows[|rows| - 1];
      BeforeLast(rows);
      hide Increasing, InsertByTime;
      SortIncreasing(front);
      InsertLast(front, last);
      assert rows == front + [last];
    }
  }

  lemma {:induction false} InsertLast(rows: seq<Row>, r: Row)
    requires forall s :: s in rows ==> s.timestamp < r.timestamp
    ensures InsertByTime(rows, r) == rows + [r]
  {
    if rows != [] {
      assert rows[0] in rows;
      assert forall s :: s in rows[1..] ==> s in rows;
      InsertLast(rows[1..], r);
      assert rows == [rows[0]] + rows[1..];
    }
  }

  /** The last row of an increasing table is the strictly latest. */
  lemma BeforeLast(rows: seq<Row>)
    requires rows != [] && Increasing(rows)
    ensures Increasing(rows[..|rows| - 1])
    ensures forall r :: r in rows[..|rows| - 1] ==> r.timestamp < rows[|rows| - 1].timestamp
  {
  }

  lemma IncreasingSnoc(rows: seq<Row>, r: Row)
    requires Increasing(rows) && forall s :: s in rows ==> s.timestamp < r.timestamp
    ensures Increasing(rows + [r])
  {
    var rows' := rows + [r];
    forall i, j | 0 <= i < j < |rows'| ensures rows'[i].timestamp < rows'[j].timestamp {
      assert rows'[i] == rows[i] && rows[i] in rows;
    }
  }

  lemma SelectedSnoc(rows: seq<Row>, r: Row, tenantID: string, from: int)
    ensures Selected(rows + [r], tenantID, from) ==
            Selected(rows, tenantID, from) + (if r.tenantID == tenantID && r.timestamp >= from then [r] else [])
  {
    FilterSnoc(rows, r, (s: Row) => s.tenantID == tenantID && s.timestamp >= from);
  }

  lemma SelectedMembers(rows: seq<Row>, tenantID: string, from: int)
    ensures forall r :: r in Selected(rows, tenantID, from) ==> r in rows && r.timestamp >= from
  {
  }

  lemma EmptyTable(tenantID: string, from: int)
    ensures Selected([], tenantID, from) == [] && Increasing([]) && UniqueHashes([]) && PrevsAreEarlierHashes([])
  {
  }

  lemma {:induction false} SelectedIncreasing(rows: seq<Row>, tenantID: string, from: int)
    requires Increasing(rows)
    ensures Increasing(Selected(rows, tenantID, from))
  {
    if rows != [] {
      var front, last := rows[..|rows| - 1], rows[|rows| - 1];
      BeforeLast(rows);
      SelectedIncreasing(front, tenantID, from);
      SelectedMembers(front, tenantID, from);
      SelectedSnoc(front, last, tenantID, from);
      assert rows == front + [last];
      hide Selected, Increasing;
      if last.tenantID == tenantID && last.timestamp >= from {
        IncreasingSnoc(Selected(front, tenantID, from), last);
      }
    }
  }

  lemma {:induction false} SelectedEndsWithLatest(rows: seq<Row>, tenantID: string, from: int)
    requires Increasing(rows)
    ensures var sel := Selected(rows, tenantID, from);
            sel != [] ==> Latest(rows, tenantID) == Some(sel[|sel| - 1])
  {
    hide Selected, Increasing;
    if rows == [] {
      assert Selected(rows, tenantID, from) == [] by {
        EmptyTable(tenantID, from);
      }
    } else {
      var front, last := rows[..|rows| - 1], rows[|rows| - 1];
      BeforeLast(rows);
      SelectedEndsWithLatest(front, tenantID, from);
      SelectedMembers(front, tenantID, from);
      SelectedSnoc(front, last, tenantID, from);
      assert rows == front + [last];
      var sel := Selected(front, tenantID, from);
      if sel != [] {
        assert sel[0] in front;
      }
    }
  }

  /** In a table with increasing timestamps, a selection is already in order and ends with the tenant's latest row. */
  lemma RangeOfIncreasing(rows: seq<Row>, tenantID: string, from: int)
    requires Increasing(rows)
    ensures Range(rows, tenantID, from) == Selected(rows, tenantID, from)
    ensures var logs := Range(rows, tenantID, from);
            logs != [] ==> Latest(rows, tenantID) == Some(logs[|logs| - 1])
  {
    SelectedIncreasing(rows, tenantID, from);
    SelectedEndsWithLatest(rows, tenantID, from);
    SortIncreasing(Selected(rows, tenantID, from));
  }

  lemma AppendRange(rows: seq<Row>, r: Row, tenantID: string, from: int)
    requires Increasing(rows + [r])
    ensures Increasing(rows)
    ensures Range(rows + [r], tenantID, from) ==
            Range(rows, tenantID, from) + (if r.tenantID == tenantID && r.timestamp >= from then [r] else [])
  {
    var rows' := rows + [r];
    assert forall i :: 0 <= i < |rows| ==> rows'[i] == rows[i];
    RangeOfIncreasing(rows, tenantID, from);
    RangeOfIncreasing(rows', tenantID, from);
    FilterSnoc(rows, r, (s: Row) => s.tenantID == tenantID && s.timestamp >= from);
  }

  ghost predicate UniqueHashes(rows: seq<Row>) {
    forall i, j :: 0 <= i < j < |rows| ==> rows[i].hash != rows[j].hash
  }

  ghost predicate PrevsAreEarlierHashes(rows: seq<Row>) {
    forall i :: 0 <= i < |rows| ==> rows[i].prevHash == "" || exists j :: 0 <= j < i && rows[j].hash == rows[i].prevHash
  }

  ghost predicate LastedUntil(rows: seq<Row>, calls: seq<Call>) {
    forall r :: r in rows ==> calls != [] && r.timestamp <= calls[|calls| - 1].now
  }

  lemma NewRowFacts(sha: string -> string, rows: seq<Row>, l: Log, now: int)
    ensures var r := NewRow(sha, rows, l, now);
            && r.tenantID == l.tenantID && r.timestamp == now
            && (r.prevHash == "" || HasHash(rows, r.prevHash))
  {
    hide LogText;
  }

  lemma AppendKeepsPrevs(rows: seq<Row>, r: Row)
    requires PrevsAreEarlierHashes(rows) && (r.prevHash == "" || HasHash(rows, r.prevHash))
    ensures PrevsAreEarlierHashes(Append(rows, r))
  {
    var after := Append(rows, r);
    forall i | 0 <= i < |after|
      ensures after[i].prevHash == "" || exists j :: 0 <= j < i && after[j].hash == after[i].prevHash
    {
      if i < |rows| && rows[i].prevHash != "" {
        var j :| 0 <= j < i && rows[j].hash == rows[i].prevHash;
        assert after[j].hash == after[i].prevHash;
      } else if i == |rows| && r.prevHash != "" {
        var s :| s in rows && s.hash == r.prevHash;
        var j :| 0 <= j < |rows| && rows[j] == s;
        assert after[j].hash == r.prevHash;
      }
    }
  }

  lemma AppendKeepsUnique(rows: seq<Row>, r: Row)
    requires UniqueHashes(rows)
    ensures UniqueHashes(Append(rows, r))
  {
    var after := Append(rows, r);
    forall i, j | 0 <= i < j < |after| ensures after[i].hash != after[j].hash {
      assert after[i] == rows[i] && rows[i] in rows;
    }
  }

  lemma {:induction false} TableInvariant(sha: string -> string, calls: seq<Call>)
    requires StrictClock(calls)
    ensures var rows := Table(sha, calls);
            Increasing(rows) && UniqueHashes(rows) && PrevsAreEarlierHashes(rows) && LastedUntil(rows, calls)
  {
    hide NewRow, Increasing, UniqueHashes, PrevsAreEarlierHashes;
    if calls == [] {
      EmptyTable("", 0);
    } else {
      var front, c := calls[..|calls| - 1], calls[|calls| - 1];
      TableInvariant(sha, front);
      NewRowFacts(sha, Table(sha, front), c.log, c.now);
      var rows, r := Table(sha, front), NewRow(sha, Table(sha, front), c.log, c.now);
      AppendKeepsPrevs(rows, r);
      AppendKeepsUnique(rows, r);
      IncreasingSnoc(rows, r);
    }
  }

  // ---------- Create against VerifyChain, as written ----------

  /** The hash Create puts in front of the record's text. */
  function HashedPrev(rows: seq<Row>, l: Log): string {
    if l.prevHash != "" then l.prevHash
    else
      match Latest(rows, l.tenantID)
      case Some(last) => last.hash
      case None => ""
  }

  /** The text Create hashes. */
  function CreatedText(rows: seq<Row>, l: Log): string {
    Prefixed(HashedPrev(rows, l), LogText(l))
  }

  /** Hashing and storing agree on the record: its timestamp is the clock's, and no JSON map is nil. */
  predicate StoredAsHashed(l: Log, now: int) {
    l.timestamp == now && l.before.Some? && l.after.Some? && l.metadata.Some?
  }

  predicate NonEmptyHashes(rows: seq<Row>) {
    forall r :: r in rows ==> r.hash != ""
  }

  lemma {:induction false} EndOfText(pieces: seq<string>, n: nat)
    requires n == |pieces| - 1 >= 1
    ensures Join(pieces, '|') == Join(pieces[..n], '|') + "|" + pieces[n]
  {
    assert pieces == pieces[..n] + [pieces[n]];
    hide Join;
    JoinSnoc(pieces[..n], pieces[n], '|');
  }

  /** Equal texts that end in the same map, hashed as {} and stored as null if it is nil: the map is not nil. */
  lemma SameMap(x: string, y: string, m: Option<string>)
    ensures x + "|" + m.GetOr("{}") == y + "|" + m.GetOr("null") <==> m.Some? && x == y
  {
    var s, t := x + "|" + m.GetOr("{}"), y + "|" + m.GetOr("null");
    assert m.None? ==> s[|s| - 1] == '}' && t[|t| - 1] == 'l';
    if s == t {
      assert x == s[..|s| - |m.value| - 1] == y;
    }
  }

  lemma SameTimestamp(x: string, y: string, t: int, u: int)
    ensures x + "|" + Decimal(t) == y + "|" + Decimal(u) <==> t == u && x == y
  {
    if x + "|" + Decimal(t) == y + "|" + Decimal(u) {
      DecimalHasNoBar(t);
      DecimalHasNoBar(u);
      hide Decimal;
      LastPiece(x, Decimal(t), y, Decimal(u), '|');
      DecimalInjective(t, u);
    }
  }

  lemma SamePrefix(p: string, q: string, x: string)
    ensures Prefixed(p, x) == Prefixed(q, x) <==> p == q
  {
    if Prefixed(p, x) == Prefixed(q, x) {
      assert |p| == |q|;
      assert p != "" ==> p == Prefixed(p, x)[..|p|] == q;
    }
  }

  lemma PrefixedConcat(p: string, x: string, y: string)
    ensures Prefixed(p, x + "|" + y) == Prefixed(p, x) + "|" + y
  {
    assert p + "|" + (x + "|" + y) == p + "|" + x + "|" + y;
  }

  /** The text of a record, cut in front of its last four columns. */
  function Front(pieces: seq<string>, n: nat): string
    requires n <= |pieces|
  {
    Join(pieces[..n], '|')
  }

  lemma PrefixedEnd(p: string, pieces: seq<string>, n: nat)
    requires 1 <= n < |pieces|
    ensures Prefixed(p, Front(pieces, n + 1)) == Prefixed(p, Front(pieces, n)) + "|" + pieces[n]
  {
    assert pieces[..n + 1][..n] == pieces[..n];
    EndOfText(pieces[..n + 1], n);
    hide Join;
    PrefixedConcat(p, Front(pieces, n), pieces[n]);
  }

  lemma SameUpToMap(p: string, a: seq<string>, q: string, b: seq<string>, n: nat, m: Option<string>)
    requires 1 <= n < |a| && n < |b| && a[n] == m.GetOr("{}") && b[n] == m.GetOr("null")
    ensures Prefixed(p, Front(a, n + 1)) == Prefixed(q, Front(b, n + 1)) <==>
            m.Some? && Prefixed(p, Front(a, n)) == Prefixed(q, Front(b, n))
  {
    hide Front, Prefixed;
    PrefixedEnd(p, a, n);
    PrefixedEnd(q, b, n);
    SameMap(Prefixed(p, Front(a, n)), Prefixed(q, Front(b, n)), m);
  }

  lemma SameUpToTimestamp(p: string, a: seq<string>, q: string, b: seq<string>, n: nat, t: int, u: int)
    requires 1 <= n < |a| && n < |b| && a[n] == Decimal(t) && b[n] == Decimal(u)
    ensures Prefixed(p, Front(a, n + 1)) == Prefixed(q, Front(b, n + 1)) <==>
            t == u && Prefixed(p, Front(a, n)) == Prefixed(q, Front(b, n))
  {
    hide Front, Prefixed, Decimal;
    PrefixedEnd(p, a, n);
    PrefixedEnd(q, b, n);
    SameTimestamp(Prefixed(p, Front(a, n)), Prefixed(q, Front(b, n)), t, u);
  }

  /** The text hashed for a record and the text checked for its row are the same exactly if both walks come from the
      same hash and the record is stored as it was hashed. Bars in the fields do not matter here. */
  lemma SameTextIff(p: string, l: Log, q: string, r: Row)
    requires r.tenantID == l.tenantID && r.eventType == l.eventType && r.actorID == l.actorID && r.actorType == l.actorType
    requires r.resourceType == l.resourceType && r.resourceID == l.resourceID && r.action == l.action
    requires r.before == l.before.GetOr("null") && r.after == l.after.GetOr("null") && r.metadata == l.metadata.GetOr("null")
    ensures Prefixed(p, LogText(l)) == Prefixed(q, RowText(r)) <==> p == q && StoredAsHashed(l, r.timestamp)
  {
    hide Join, Prefixed, Decimal;
    var a, b := LogPieces(l), RowPieces(r);
    assert a[..11] == a && b[..11] == b && a[..7] == b[..7];
    SameUpToTimestamp(p, a, q, b, 10, l.timestamp, r.timestamp);
    SameUpToMap(p, a, q, b, 9, l.metadata);
    SameUpToMap(p, a, q, b, 8, l.after);
    SameUpToMap(p, a, q, b, 7, l.before);
    SamePrefix(p, q, Front(a, 7));
  }

  /** When a row written by Create passes the check that arrives at it with hash `prev`: exactly if Create hashed it
      after the same hash and stored what it had hashed, or the two texts collide. */
  lemma CreatedRowPassesIff(sha: string -> string, rows: seq<Row>, l: Log, now: int, prev: string)
    requires NonEmptyHashes(rows)
    ensures var r := NewRow(sha, rows, l, now);
            var created, checked := CreatedText(rows, l), Prefixed(prev, RowText(r));
            && (created == checked <==> prev == HashedPrev(rows, l) && StoredAsHashed(l, now))
            && (r.hash == sha(checked) <==> created == checked || sha(created) == sha(checked))
  {
    var r := NewRow(sha, rows, l, now);
    assert r.hash == sha(CreatedText(rows, l)) by {
      hide LogText;
    }
    hide LogText, RowText;
    SameTextIff(HashedPrev(rows, l), l, prev, r);
  }

  /** The hash the walk over `logs` has in hand when it has passed their last row. */
  function Arrival(logs: seq<Row>): string
    requires logs != []
  {
    if |logs| == 1 then logs[0].prevHash else logs[|logs| - 1].hash
  }

  /** Whether the record's row passes behind `logs`, its tenant's rows so far from the start time on: always if it is
      the first, and otherwise if it is stored as hashed and was hashed after the hash the walk arrives with. The second
      row therefore needs a PrevHash of its own, that of the first; a later one needs none. */
  predicate PassesBehind(logs: seq<Row>, l: Log, now: int) {
    logs != [] ==>
      && StoredAsHashed(l, now)
      && if |logs| == 1 then l.prevHash == logs[0].prevHash != "" else l.prevHash in {"", logs[|logs| - 1].hash}
  }

  /** Every call of the run whose row is in the range passes behind the rows before it. */
  predicate AllPass(sha: string -> string, calls: seq<Call>, tenantID: string, from: int) {
    if calls == [] then true else
    var front, c := calls[..|calls| - 1], calls[|calls| - 1];
    var rows := Table(sha, front);
    && AllPass(sha, front, tenantID, from)
    && (!HasHash(rows, NewRow(sha, rows, c.log, c.now).hash) && c.log.tenantID == tenantID && c.now >= from ==>
          PassesBehind(Range(rows, tenantID, from), c.log, c.now))
  }

  /** The text Create hashed in call `n` and the text the check forms for its row are different and hash the same. */
  predicate Collides(sha: string -> string, calls: seq<Call>, n: nat, tenantID: string, from: int)
    requires n < |calls|
  {
    var rows, c := Table(sha, calls[..n]), calls[n];
    var logs, r := Range(rows, tenantID, from), NewRow(sha, rows, c.log, c.now);
    logs != [] &&
    var created, checked := CreatedText(rows, c.log), Prefixed(Arrival(logs), RowText(r));
    created != checked && sha(created) == sha(checked)
  }

  lemma {:induction false} TableHashes(sha: string -> string, calls: seq<Call>)
    requires forall x :: sha(x) != ""
    ensures NonEmptyHashes(Table(sha, calls))
  {
    if calls != [] {
      var front, c := calls[..|calls| - 1], calls[|calls| - 1];
      TableHashes(sha, front);
      var rows := Table(sha, front);
      assert NewRow(sha, rows, c.log, c.now).hash != "" by {
        hide LogText;
      }
      hide NewRow;
    }
  }

  /** Create and VerifyChain as written: on any table that `Create` built under a strictly increasing clock, the check
      succeeds exactly if every record passes behind the rows before it, unless two of the texts collide. */
  lemma {:induction false} VerifyAcceptsIff(sha: string -> string, calls: seq<Call>, tenantID: string, from: int)
    requires StrictClock(calls) && forall x :: sha(x) != ""
    requires forall n :: 0 <= n < |calls| ==> !Collides(sha, calls, n, tenantID, from)
    ensures Accepts(sha, Range(Table(sha, calls), tenantID, from)) <==> AllPass(sha, calls, tenantID, from)
  {
    hide NewRow, Accepts, Range, CreatedText, RowText, Arrival, PassesBehind, Prefixed, Increasing, UniqueHashes,
      PrevsAreEarlierHashes;
    if calls == [] {
      NoRows(sha, tenantID, from);
    } else {
      var last := |calls| - 1;
      var front, c := calls[..last], calls[last];
      FrontCollides(sha, calls, tenantID, from);
      VerifyAcceptsIff(sha, front, tenantID, from);
      TableInvariant(sha, front);
      TableInvariant(sha, calls);
      TableHashes(sha, front);
      var rows := Table(sha, front);
      if !HasHash(rows, NewRow(sha, rows, c.log, c.now).hash) {
        assert !Collides(sha, calls, last, tenantID, from);
        OneMoreRow(sha, rows, c.log, c.now, tenantID, from);
      }
    }
  }

  lemma FrontCollides(sha: string -> string, calls: seq<Call>, tenantID: string, from: int)
    requires calls != [] && forall n :: 0 <= n < |calls| ==> !Collides(sha, calls, n, tenantID, from)
    ensures var front := calls[..|calls| - 1]; forall n :: 0 <= n < |front| ==> !Collides(sha, front, n, tenantID, from)
  {
    hide NewRow, Range, CreatedText, RowText, Arrival, Prefixed, Table;
    var front := calls[..|calls| - 1];
    forall n | 0 <= n < |front| ensures !Collides(sha, front, n, tenantID, from) {
      assert front[..n] == calls[..n] && !Collides(sha, calls, n, tenantID, from);
    }
  }

  lemma NoRows(sha: string -> string, tenantID: string, from: int)
    ensures Range([], tenantID, from) == [] && Accepts(sha, []) && RepairedAccepts(sha, [])
  {
  }

  lemma SameTextBefore(logs: seq<Row>, r: Row, i: nat)
    requires 1 <= i < |logs|
    ensures HashedText(logs + [r], i) == HashedText(logs, i)
  {
    hide RowText, Prefixed;
    assert (logs + [r])[i] == logs[i] && (logs + [r])[i - 1] == logs[i - 1];
  }

  lemma AcceptsSnoc(sha: string -> string, logs: seq<Row>, r: Row)
    requires logs != []
    ensures Accepts(sha, logs + [r]) <==> Accepts(sha, logs) && r.hash == sha(Prefixed(Arrival(logs), RowText(r)))
  {
    var logs', n := logs + [r], |logs|;
    assert HashedText(logs', n) == Prefixed(Arrival(logs), RowText(r)) && logs'[n] == r by {
      hide RowText, Prefixed;
    }
    hide HashedText, RowText, Prefixed, Arrival;
    forall i | 1 <= i < n ensures HashedText(logs', i) == HashedText(logs, i) && logs'[i] == logs[i] {
      SameTextBefore(logs, r, i);
    }
  }

  /** Behind a range that ends with the tenant's latest row, arriving with the right hash means what `PassesBehind`
      says about the caller's PrevHash. */
  lemma RightArrival(rows: seq<Row>, logs: seq<Row>, l: Log)
    requires UniqueHashes(rows) && PrevsAreEarlierHashes(rows) && NonEmptyHashes(rows)
    requires logs != [] && Latest(rows, l.tenantID) == Some(logs[|logs| - 1])
    ensures Arrival(logs) == HashedPrev(rows, l) <==>
            if |logs| == 1 then l.prevHash == logs[0].prevHash != "" else l.prevHash in {"", logs[|logs| - 1].hash}
  {
    LatestIsLinked(rows, l.tenantID, logs[|logs| - 1]);
  }

  lemma OneMoreRow(sha: string -> string, rows: seq<Row>, l: Log, now: int, tenantID: string, from: int)
    requires UniqueHashes(rows) && PrevsAreEarlierHashes(rows) && NonEmptyHashes(rows)
    requires Increasing(rows + [NewRow(sha, rows, l, now)])
    requires var logs, r := Range(rows, tenantID, from), NewRow(sha, rows, l, now);
             logs != [] && CreatedText(rows, l) != Prefixed(Arrival(logs), RowText(r)) ==>
               sha(CreatedText(rows, l)) != sha(Prefixed(Arrival(logs), RowText(r)))
    ensures var logs, rows' := Range(rows, tenantID, from), rows + [NewRow(sha, rows, l, now)];
            Accepts(sha, Range(rows', tenantID, from)) <==>
            Accepts(sha, logs) && (l.tenantID == tenantID && now >= from ==> PassesBehind(logs, l, now))
  {
    hide NewRow, Accepts, Range, Selected, Latest, RowText, CreatedText, Prefixed, Arrival, Increasing,
      UniqueHashes, PrevsAreEarlierHashes, NonEmptyHashes, HashedPrev;
    var r, logs := NewRow(sha, rows, l, now), Range(rows, tenantID, from);
    NewRowFacts(sha, rows, l, now);
    AppendRange(rows, r, tenantID, from);
    RangeOfIncreasing(rows, tenantID, from);
    assert logs + [] == logs;
    if r.tenantID == tenantID && r.timestamp >= from {
      if logs == [] {
        OneRowAccepted(sha, logs + [r]);
        OneRowAccepted(sha, logs);
      } else {
        AcceptsSnoc(sha, logs, r);
        CreatedRowPassesIff(sha, rows, l, now, Arrival(logs));
        RightArrival(rows, logs, l);
      }
    }
  }

  lemma LatestIsLinked(rows: seq<Row>, tenantID: string, last: Row)
    requires UniqueHashes(rows) && PrevsAreEarlierHashes(rows) && Latest(rows, tenantID) == Some(last)
    ensures last.hash != last.prevHash || last.hash == ""
  {
    var i :| 0 <= i < |rows| && rows[i] == last;
  }

  lemma OneRowAccepted(sha: string -> string, logs: seq<Row>)
    requires |logs| <= 1
    ensures Accepts(sha, logs)
  {
  }

  /** For records without a PrevHash of their own, as `LogEvent` builds them, that is never the case for two rows: the
      check succeeds if and only if it has at most one row to look at. */
  lemma VerifyAcceptsAtMostOneRow(sha: string -> string, calls: seq<Call>, tenantID: string, from: int)
    requires StrictClock(calls) && forall x :: sha(x) != ""
    requires forall n :: 0 <= n < |calls| ==> !Collides(sha, calls, n, tenantID, from)
    requires forall c :: c in calls ==> c.log.prevHash == ""
    ensures Accepts(sha, Range(Table(sha, calls), tenantID, from)) <==> |Range(Table(sha, calls), tenantID, from)| <= 1
  {
    hide Accepts, Range, Table, Collides;
    VerifyAcceptsIff(sha, calls, tenantID, from);
    NoSecondRowPasses(sha, calls, tenantID, from);
  }

  lemma {:induction false} NoSecondRowPasses(sha: string -> string, calls: seq<Call>, tenantID: string, from: int)
    requires StrictClock(calls) && forall c :: c in calls ==> c.log.prevHash == ""
    ensures AllPass(sha, calls, tenantID, from) <==> |Range(Table(sha, calls), tenantID, from)| <= 1
  {
    hide NewRow, Range, Increasing, UniqueHashes, PrevsAreEarlierHashes;
    if calls == [] {
      NoRows(sha, tenantID, from);
    } else {
      var front, c := calls[..|calls| - 1], calls[|calls| - 1];
      assert c in calls && forall d :: d in front ==> d in calls;
      NoSecondRowPasses(sha, front, tenantID, from);
      TableInvariant(sha, calls);
      var rows := Table(sha, front);
      var r := NewRow(sha, rows, c.log, c.now);
      NewRowFacts(sha, rows, c.log, c.now);
      if !HasHash(rows, r.hash) {
        AppendRange(rows, r, tenantID, from);
      }
    }
  }

  // ---------- Create against VerifyChain, as intended ----------

  /** Create with the clock read before hashing, one JSON text for hashing and storing, and the previous hash
      always taken from the table and always stored. */
  function RepairedRow(sha: string -> string, rows: seq<Row>, l: Log, now: int): Row {
    var latest := Latest(rows, l.tenantID);
    var prev := if latest.Some? then latest.value.hash else "";
    var r := Row(l.tenantID, l.eventType, l.actorID, l.actorType, l.resourceType, l.resourceID, l.action,
      l.before.GetOr("{}"), l.after.GetOr("{}"), l.metadata.GetOr("{}"), now, "", prev);
    r.(hash := sha(Prefixed(prev, RowText(r))))
  }

  function RepairedTable(sha: string -> string, calls: seq<Call>): seq<Row> {
    if calls == [] then []
    else
      var rows, c := RepairedTable(sha, calls[..|calls| - 1]), calls[|calls| - 1];
      Append(rows, RepairedRow(sha, rows, c.log, c.now))
  }

  /** VerifyChain with the walk seeded by the first row's Hash. */
  predicate RepairedAccepts(sha: string -> string, logs: seq<Row>) {
    forall i :: 1 <= i < |logs| ==> logs[i].hash == sha(Prefixed(logs[i - 1].hash, RowText(logs[i])))
  }

  lemma RepairedRowFacts(sha: string -> string, rows: seq<Row>, l: Log, now: int)
    ensures var r := RepairedRow(sha, rows, l, now);
            && r.tenantID == l.tenantID && r.timestamp == now
            && (Latest(rows, l.tenantID).Some? ==> r.hash == sha(Prefixed(Latest(rows, l.tenantID).value.hash, RowText(r))))
  {
    hide Join;
    var r := RepairedRow(sha, rows, l, now);
    assert RowPieces(r.(hash := "")) == RowPieces(r);
  }

  lemma {:induction false} RepairedTableInvariant(sha: string -> string, calls: seq<Call>)
    requires StrictClock(calls)
    ensures Increasing(RepairedTable(sha, calls)) && LastedUntil(RepairedTable(sha, calls), calls)
  {
    hide RepairedRow, RowText, Increasing;
    if calls == [] {
      EmptyTable("", 0);
    } else {
      var front, c := calls[..|calls| - 1], calls[|calls| - 1];
      RepairedTableInvariant(sha, front);
      var rows := RepairedTable(sha, front);
      RepairedRowFacts(sha, rows, c.log, c.now);
      IncreasingSnoc(rows, RepairedRow(sha, rows, c.log, c.now));
    }
  }

  /** With the four repairs every table built by `Create` is accepted, for every tenant and from every start time. */
  lemma {:induction false} RepairedCreateVerifies(sha: string -> string, calls: seq<Call>, tenantID: string, from: int)
    requires StrictClock(calls)
    ensures RepairedAccepts(sha, Range(RepairedTable(sha, calls), tenantID, from))
  {
    hide RepairedRow, RepairedAccepts, Range, Selected, RowText, Prefixed, Increasing;
    if calls == [] {
      NoRows(sha, tenantID, from);
    } else {
      var front, c := calls[..|calls| - 1], calls[|calls| - 1];
      RepairedCreateVerifies(sha, front, tenantID, from);
      RepairedTableInvariant(sha, front);
      RepairedTableInvariant(sha, calls);
      var rows := RepairedTable(sha, front);
      var r := RepairedRow(sha, rows, c.log, c.now);
      RepairedRowFacts(sha, rows, c.log, c.now);
      if !HasHash(rows, r.hash) {
        AppendRange(rows, r, tenantID, from);
        RangeOfIncreasing(rows, tenantID, from);
        if r.tenantID == tenantID {
          RepairedAcceptsSnoc(sha, Range(rows, tenantID, from), r);
        }
        assert Range(rows, tenantID, from) + [] == Range(rows, tenantID, from);
      }
    }
  }

  lemma RepairedAcceptsSnoc(sha: string -> string, logs: seq<Row>, r: Row)
    requires RepairedAccepts(sha, logs)
    requires logs != [] ==> r.hash == sha(Prefixed(logs[|logs| - 1].hash, RowText(r)))
    ensures RepairedAccepts(sha, logs + [r])
  {
    hide RowText, Prefixed;
    var logs' := logs + [r];
    forall i | 1 <= i < |logs'| ensures logs'[i].hash == sha(Prefixed(logs'[i - 1].hash, RowText(logs'[i]))) {
      assert logs'[i - 1] == logs[i - 1];
    }
  }

  // ---------- The operations, told column by column ----------

  /** The eleven columns of a hashed text, with bars between them. */
  function Line(tenantID: string, eventType: string, actorID: string, actorType: string, resourceType: string,
                resourceID: string, action: string, before: string, after: string, metadata: string, timestamp: int): string {
    var maps := before + "|" + (after + "|" + (metadata + "|" + Decimal(timestamp)));
    var resource := resourceType + "|" + (resourceID + "|" + (action + "|" + maps));
    tenantID + "|" + (eventType + "|" + (actorID + "|" + (actorType + "|" + resource)))
  }

  lemma LineIsJoin(xs: seq<string>, timestamp: int)
    requires |xs| == 10
    ensures Join(xs + [Decimal(timestamp)], '|') ==
            Line(xs[0], xs[1], xs[2], xs[3], xs[4], xs[5], xs[6], xs[7], xs[8], xs[9], timestamp)
  {
    var ys := xs + [Decimal(timestamp)];
    assert Join(ys[10..], '|') == Decimal(timestamp);
    hide Join, Decimal;
    JoinFrom(ys, 9);
    JoinFrom(ys, 8);
    JoinFrom(ys, 7);
    JoinFrom(ys, 6);
    JoinFrom(ys, 5);
    JoinFrom(ys, 4);
    JoinFrom(ys, 3);
    JoinFrom(ys, 2);
    JoinFrom(ys, 1);
    JoinFrom(ys, 0);
    assert ys[0..] == ys;
  }

  lemma JoinFrom(ys: seq<string>, n: nat)
    requires n + 1 < |ys|
    ensures Join(ys[n..], '|') == ys[n] + "|" + Join(ys[n + 1..], '|')
  {
    assert ys[n..] == [ys[n]] + ys[n + 1..];
    hide Join;
    JoinCons(ys[n], ys[n + 1..], '|');
  }

  function LogLine(l: Log, timestamp: int): string {
    Line(l.tenantID, l.eventType, l.actorID, l.actorType, l.resourceType, l.resourceID, l.action,
      if l.before.Some? then l.before.value else "{}", if l.after.Some? then l.after.value else "{}",
      if l.metadata.Some? then l.metadata.value else "{}", timestamp)
  }

  function RowLine(r: Row): string {
    Line(r.tenantID, r.eventType, r.actorID, r.actorType, r.resourceType, r.resourceID, r.action,
      r.before, r.after, r.metadata, r.timestamp)
  }

  lemma LinesAreTexts(l: Log, r: Row)
    ensures LogText(l) == LogLine(l, l.timestamp) && RowText(r) == RowLine(r)
  {
    hide Join, Decimal, Line;
    LineIsJoin(LogPieces(l)[..10], l.timestamp);
    assert LogPieces(l) == LogPieces(l)[..10] + [Decimal(l.timestamp)];
    LineIsJoin(RowPieces(r)[..10], r.timestamp);
    assert RowPieces(r) == RowPieces(r)[..10] + [Decimal(r.timestamp)];
  }

  /** The row `Create` links to: the tenant's with the greatest timestamp, if the tenant has one. */
  lemma {:induction false} LatestIsMax(rows: seq<Row>, tenantID: string)
    ensures Latest(rows, tenantID).None? <==> forall r :: r in rows ==> r.tenantID != tenantID
    ensures Latest(rows, tenantID).Some? ==>
              forall r :: r in rows && r.tenantID == tenantID ==> r.timestamp <= Latest(rows, tenantID).value.timestamp
  {
    if rows != [] {
      var front := rows[..|rows| - 1];
      LatestIsMax(front, tenantID);
      assert forall r :: r in rows <==> r in front || r == rows[|rows| - 1];
    }
  }

  ghost predicate LastOf(rows: seq<Row>, tenantID: string, last: Option<Row>) {
    match last
    case None => forall r :: r in rows ==> r.tenantID != tenantID
    case Some(r) => exists k :: 0 <= k < |rows| && rows[k] == r && r.tenantID == tenantID
                      && forall j :: k < j < |rows| ==> rows[j].tenantID != tenantID
  }

  lemma LatestIsLast(rows: seq<Row>, tenantID: string, last: Option<Row>)
    requires Increasing(rows) && LastOf(rows, tenantID, last)
    ensures Latest(rows, tenantID) == last
  {
    LatestIsMax(rows, tenantID);
    if last.Some? {
      var k :| 0 <= k < |rows| && rows[k] == last.value && forall j :: k < j < |rows| ==> rows[j].tenantID != tenantID;
      var r := Latest(rows, tenantID).value;
      var i :| 0 <= i < |rows| && rows[i] == r;
      assert i <= k;
    }
  }

  lemma StrictPrefix(calls: seq<Call>, n: nat)
    requires StrictClock(calls) && n <= |calls|
    ensures StrictClock(calls[..n])
  {
  }

  /** The row of a record that is created behind row `last`. */
  function Stored(sha: string -> string, l: Log, now: int, last: Option<Row>): Row {
    var prev := if l.prevHash == "" && last.Some? then last.value.hash else "";
    var before := if l.prevHash != "" then l.prevHash + "|" else if last.Some? then prev + "|" else "";
    Row(l.tenantID, l.eventType, l.actorID, l.actorType, l.resourceType, l.resourceID, l.action,
      if l.before.Some? then l.before.value else "null", if l.after.Some? then l.after.value else "null",
      if l.metadata.Some? then l.metadata.value else "null", now, sha(before + LogLine(l, l.timestamp)), prev)
  }

  lemma NewRowIsStored(sha: string -> string, rows: seq<Row>, l: Log, now: int)
    ensures NewRow(sha, rows, l, now) == Stored(sha, l, now, Latest(rows, l.tenantID))
  {
    LinesAreTexts(l, NewRow(sha, rows, l, now));
    hide LogText, LogLine;
    assert "" + LogLine(l, l.timestamp) == LogLine(l, l.timestamp);
  }

  /** What call `n` of a run stores, column by column. The text is hashed after the caller's PrevHash or else the hash of
      the tenant's last row; the row carries the latter as its PrevHash, and none if the caller gave one. Nothing is stored
      if the hash is taken. */
  lemma CreatedRow(sha: string -> string, calls: seq<Call>, n: nat, last: Option<Row>)
    requires StrictClock(calls) && n < |calls| && LastOf(Table(sha, calls[..n]), calls[n].log.tenantID, last)
    ensures var rows, row := Table(sha, calls[..n]), Stored(sha, calls[n].log, calls[n].now, last);
            Table(sha, calls[..n + 1]) == if exists r :: r in rows && r.hash == row.hash then rows else rows + [row]
  {
    hide NewRow, Stored, Latest, Increasing, LastOf, StrictClock;
    var rows, l := Table(sha, calls[..n]), calls[n].log;
    StrictPrefix(calls, n);
    TableInvariant(sha, calls[..n]);
    LatestIsLast(rows, l.tenantID, last);
    assert calls[..n + 1][..n] == calls[..n];
    NewRowIsStored(sha, rows, l, calls[n].now);
  }

  /** So in a run whose callers give no PrevHash every row carries the hash of its tenant's row before it, and none exactly
      if it is the tenant's first. */
  lemma {:induction false} ChainLinked(sha: string -> string, calls: seq<Call>, i: nat, last: Option<Row>)
    requires StrictClock(calls) && (forall x :: sha(x) != "") && forall c :: c in calls ==> c.log.prevHash == ""
    requires var rows := Table(sha, calls); i < |rows| && LastOf(rows[..i], rows[i].tenantID, last)
    ensures var row := Table(sha, calls)[i];
            && (last.Some? ==> row.prevHash == last.value.hash)
            && (row.prevHash == "" <==> last.None?)
  {
    var front := calls[..|calls| - 1];
    var c, before := calls[|calls| - 1], Table(sha, front);
    assert c in calls && forall d :: d in front ==> d in calls;
    StrictPrefix(calls, |calls| - 1);
    TableHashes(sha, front);
    var row := NewRow(sha, before, c.log, c.now);
    NewRowFacts(sha, before, c.log, c.now);
    assert Table(sha, calls) == Append(before, row);
    if i < |before| {
      assert Table(sha, calls)[..i] == before[..i];
      ChainLinked(sha, front, i, last);
    } else {
      assert Table(sha, calls)[..i] == before;
      TableInvariant(sha, front);
      hide LogText;
      LatestIsLast(before, row.tenantID, last);
      assert row.prevHash == if last.Some? then last.value.hash else "";
    }
  }

  lemma {:induction false} RepairedHashes(sha: string -> string, calls: seq<Call>)
    requires forall x :: sha(x) != ""
    ensures NonEmptyHashes(RepairedTable(sha, calls))
  {
    if calls != [] {
      RepairedHashes(sha, calls[..|calls| - 1]);
      hide RowText;
    }
  }

  function RepairedStored(sha: string -> string, l: Log, now: int, last: Option<Row>): Row {
    var before := if last.Some? then last.value.hash + "|" else "";
    Row(l.tenantID, l.eventType, l.actorID, l.actorType, l.resourceType, l.resourceID, l.action,
      if l.before.Some? then l.before.value else "{}", if l.after.Some? then l.after.value else "{}",
      if l.metadata.Some? then l.metadata.value else "{}", now, sha(before + LogLine(l, now)),
      if last.Some? then last.value.hash else "")
  }

  lemma RepairedRowIsStored(sha: string -> string, rows: seq<Row>, l: Log, now: int)
    requires NonEmptyHashes(rows)
    ensures RepairedRow(sha, rows, l, now) == RepairedStored(sha, l, now, Latest(rows, l.tenantID))
  {
    var r := RepairedRow(sha, rows, l, now);
    assert RowPieces(r.(hash := "")) == RowPieces(r);
    LinesAreTexts(l, r);
    assert RowLine(r) == LogLine(l, now) by {
      hide Line;
    }
    hide LogLine, RowLine, Join, RowPieces;
    assert "" + LogLine(l, now) == LogLine(l, now);
  }

  /** What call `n` of a repaired run stores: the caller's PrevHash plays no part, the row carries the hash it was hashed
      after, and the text is that of the row. */
  lemma RepairedCreatedRow(sha: string -> string, calls: seq<Call>, n: nat, last: Option<Row>)
    requires StrictClock(calls) && (forall x :: sha(x) != "") && n < |calls|
    requires LastOf(RepairedTable(sha, calls[..n]), calls[n].log.tenantID, last)
    ensures var rows, row := RepairedTable(sha, calls[..n]), RepairedStored(sha, calls[n].log, calls[n].now, last);
            RepairedTable(sha, calls[..n + 1]) == if exists r :: r in rows && r.hash == row.hash then rows else rows + [row]
  {
    hide RepairedRow, RepairedStored, Latest, Increasing, LastOf, StrictClock;
    var rows, l := RepairedTable(sha, calls[..n]), calls[n].log;
    StrictPrefix(calls, n);
    RepairedTableInvariant(sha, calls[..n]);
    RepairedHashes(sha, calls[..n]);
    LatestIsLast(rows, l.tenantID, last);
    assert calls[..n + 1][..n] == calls[..n];
    RepairedRowIsStored(sha, rows, l, calls[n].now);
  }

  // ---------- The rows a check reads ----------

  ghost predicate InTime(rows: seq<Row>) {
    forall i, j :: 0 <= i < j < |rows| ==> rows[i].timestamp <= rows[j].timestamp
  }

  lemma {:induction false} InsertInTime(rows: seq<Row>, r: Row)
    requires InTime(rows)
    ensures InTime(InsertByTime(rows, r)) && multiset(InsertByTime(rows, r)) == multiset(rows) + multiset{r}
  {
    if rows != [] && r.timestamp >= rows[0].timestamp {
      var rest, after := rows[1..], InsertByTime(rows[1..], r);
      assert rows == [rows[0]] + rest;
      assert InTime(rest) && forall s :: s in rest ==> rows[0].timestamp <= s.timestamp;
      InsertInTime(rest, r);
      hide InsertByTime;
      forall s | s in after ensures rows[0].timestamp <= s.timestamp {
        assert s in multiset(after);
      }
      InTimeCons(rows[0], after);
    } else {
      assert forall s :: s in rows ==> r.timestamp <= s.timestamp;
      InTimeCons(r, rows);
    }
  }

  lemma InTimeCons(r: Row, rows: seq<Row>)
    requires InTime(rows) && forall s :: s in rows ==> r.timestamp <= s.timestamp
    ensures InTime([r] + rows)
  {
    var all := [r] + rows;
    forall i, j | 0 <= i < j < |all| ensures all[i].timestamp <= all[j].timestamp {
      assert all[j] == rows[j - 1];
    }
  }

  lemma {:induction false} SortInTime(rows: seq<Row>)
    ensures InTime(SortByTime(rows)) && multiset(SortByTime(rows)) == multiset(rows)
  {
    if rows != [] {
      var front, last := rows[..|rows| - 1], rows[|rows| - 1];
      SortInTime(front);
      InsertInTime(SortByTime(front), last);
      assert rows == front + [last];
    }
  }

  /** Of any table, however it came about, a check reads the tenant's rows from the start time on, each as often as it is
      there, in the order of their timestamps. */
  lemma RangeIs(rows: seq<Row>, tenantID: string, from: int, r: Row)
    ensures InTime(Range(rows, tenantID, from))
    ensures multiset(Range(rows, tenantID, from))[r] ==
            if r.tenantID == tenantID && r.timestamp >= from then multiset(rows)[r] else 0
  {
    SortInTime(Selected(rows, tenantID, from));
    SelectedCount(rows, tenantID, from, r);
  }

  lemma {:induction false} SelectedCount(rows: seq<Row>, tenantID: string, from: int, r: Row)
    ensures multiset(Selected(rows, tenantID, from))[r] ==
            if r.tenantID == tenantID && r.timestamp >= from then multiset(rows)[r] else 0
  {
    if rows != [] {
      SelectedCount(rows[1..], tenantID, from, r);
      assert rows == [rows[0]] + rows[1..];
    }
  }

  /** What the check compares, column by column. */
  lemma AcceptsIff(sha: string -> string, logs: seq<Row>)
    ensures Accepts(sha, logs) <==>
            forall i :: 1 <= i < |logs| ==>
              var prev := if i == 1 then logs[0].prevHash else logs[i - 1].hash;
              logs[i].hash == sha((if prev == "" then "" else prev + "|") + RowLine(logs[i]))
  {
    forall i | 1 <= i < |logs|
      ensures var prev := if i == 1 then logs[0].prevHash else logs[i - 1].hash;
              HashedText(logs, i) == (if prev == "" then "" else prev + "|") + RowLine(logs[i])
    {
      LinesAreTexts(Log("", "", "", "", "", "", "", None, None, None, 0, ""), logs[i]);
      hide RowText, RowLine;
      assert "" + RowLine(logs[i]) == RowLine(logs[i]);
    }
    hide HashedText, RowLine;
  }
}
