/**
 The tamper-evident audit log (maskguard/api/audit/storage.py): a table of rows, each
 carrying a keyed hash over its fields and the previous row's hash.

 The keyed hash (HMAC, RFC 2104, over the previous hash and the canonical JSON of the
 fields) is a parameter; results that need it to be injective say so.
 */
module AuditChain {
  import opened Models

  type Hash = string

  datatype Event = Event(
    eventId: string,
    timestamp: int,
    schemaVersion: int,
    eventType: string,
    actorType: string,
    actorId: Option<string>,
    issuer: Option<string>,
    requestId: Option<string>,
    operation: string,
    resourceType: Option<string>,
    resourceId: Option<string>,
    result: string,
    decision: Option<string>,
    reasonCode: Option<string>,
    metadata: map<string, string>)

  datatype Row = Row(event: Event, prevHash: Hash, hash: Hash)

  /** The keyed hash of a previous hash and the canonical fields of an event. */
  type Mac = (Hash, Event) -> Hash

  ghost predicate Injective(mac: Mac) {
    forall p, e, p', e' :: mac(p, e) == mac(p', e') ==> p == p' && e == e'
  }

  // ---------- the check ----------

  /** What the check asks of row `i`; the first row's `prevHash` is taken as stored. */
  predicate LocallyOk(mac: Mac, rows: seq<Row>, i: nat)
    requires i < |rows|
  {
    && (i > 0 ==> rows[i].prevHash == rows[i - 1].hash)
    && mac(rows[i].prevHash, rows[i].event) == rows[i].hash
  }

  ghost predicate ValidChain(mac: Mac, rows: seq<Row>) { forall i :: 0 <= i < |rows| ==> LocallyOk(mac, rows, i) }

  ghost predicate UniqueIds(rows: seq<Row>) {
    forall i, j :: 0 <= i < j < |rows| ==> rows[i].event.eventId != rows[j].event.eventId
  }

  // ---------- the operations on values ----------

  function LastHash(genesis: Hash, rows: seq<Row>): Hash { if rows == [] then genesis else rows[|rows| - 1].hash }

  predicate Taken(rows: seq<Row>, id: string) { exists i :: 0 <= i < |rows| && rows[i].event.eventId == id }

  function Appended(mac: Mac, genesis: Hash, rows: seq<Row>, event: Event): seq<Row> {
    if Taken(rows, event.eventId) then rows
    else
      var prev := LastHash(genesis, rows);
      rows + [Row(event, prev, mac(prev, event))]
  }

  function Retained(rows: seq<Row>, cutoff: int): seq<Row> {
    if rows == [] then []
    else
      Retained(rows[..|rows| - 1], cutoff) +
      if rows[|rows| - 1].event.timestamp < cutoff then [] else [rows[|rows| - 1]]
  }

  datatype AppendResult = Stored(row: Row) | DuplicateId(eventId: string)

  class AuditStore {
    const mac: Mac
    const genesis: Hash
    var rows: seq<Row>

    constructor (mac: Mac, genesis: Hash)
      ensures rows == [] && this.mac == mac && this.genesis == genesis
    {
      this.mac, this.genesis, rows := mac, genesis, [];
    }

    method Append(event: Event) returns (r: AppendResult)
      modifies this
      ensures rows == Appended(mac, genesis, old(rows), event)
      ensures r == if Taken(old(rows), event.eventId) then DuplicateId(event.eventId) else Stored(rows[|rows| - 1])
    {
      var prevHash := LastHash(genesis, rows);
      var stamped := Row(event, prevHash, mac(prevHash, event));
      for i := 0 to |rows|
        invariant forall k :: 0 <= k < i ==> rows[k].event.eventId != event.eventId
        invariant rows == old(rows)
      {
        if rows[i].event.eventId == event.eventId {
          return DuplicateId(event.eventId);
        }
      }
      rows := rows + [stamped];
      return Stored(stamped);
    }

    method DeleteOlderThan(cutoff: int) returns (deleted: nat)
      modifies this
      ensures rows == Retained(old(rows), cutoff) && deleted == old(|rows|) - |rows|
    {
      var kept := [];
      for i := 0 to |rows|
        invariant kept == Retained(rows[..i], cutoff) && |kept| <= i && rows == old(rows)
      {
        assert rows[..i + 1][..i] == rows[..i];
        if rows[i].event.timestamp >= cutoff {
          kept := kept + [rows[i]];
        }
      }
      assert rows[..|rows|] == rows;
      deleted := |rows| - |kept|;
      rows := kept;
    }

    /** Reports the first row at which the local check fails. */
    method VerifyIntegrity() returns (ok: bool, firstBad: Option<string>)
      ensures ok <==> ValidChain(mac, rows)
      ensures ok ==> firstBad.None?
      ensures !ok ==>
                exists i :: 0 <= i < |rows| && firstBad == Some(rows[i].event.eventId) && FirstFailure(mac, rows, i)
    {
      var expectedPrev: Option<Hash> := None;
      for i := 0 to |rows|
        invariant forall k :: 0 <= k < i ==> LocallyOk(mac, rows, k)
        invariant expectedPrev == if i == 0 then None else Some(rows[i - 1].hash)
      {
        var row := rows[i];
        if expectedPrev.Some? && row.prevHash != expectedPrev.value {
          assert FirstFailure(mac, rows, i);
          return false, Some(row.event.eventId);
        }
        var recomputed := mac(row.prevHash, row.event);
        if recomputed != row.hash {
          assert FirstFailure(mac, rows, i);
          return false, Some(row.event.eventId);
        }
        expectedPrev := Some(row.hash);
      }
      return true, None;
    }
  }

  ghost predicate FirstFailure(mac: Mac, rows: seq<Row>, i: nat)
    requires i < |rows|
  {
    !LocallyOk(mac, rows, i) && forall k :: 0 <= k < i ==> LocallyOk(mac, rows, k)
  }

  // ---------- what a hash pins down ----------

  lemma {:induction false} SliceIsValid(mac: Mac, rows: seq<Row>, i: nat, j: nat)
    requires ValidChain(mac, rows) && i <= j <= |rows|
    ensures ValidChain(mac, rows[i..j])
  {
    forall k | 0 <= k < j - i
      ensures LocallyOk(mac, rows[i..j], k)
    {
      assert LocallyOk(mac, rows, i + k);
    }
  }

  /** Two tables that both pass and end in the same hash: the shorter is a suffix of the longer. */
  lemma {:induction false} SharedHead(mac: Mac, a: seq<Row>, b: seq<Row>)
    requires Injective(mac) && ValidChain(mac, a) && ValidChain(mac, b)
    requires 0 < |a| <= |b| && a[|a| - 1].hash == b[|b| - 1].hash
    ensures a == b[|b| - |a|..]
    decreases |a|
  {
    var m, n := |a| - 1, |b| - 1;
    assert LocallyOk(mac, a, m) && LocallyOk(mac, b, n);
    assert a[m] == b[n];
    if m > 0 {
      SliceIsValid(mac, a, 0, m);
      SliceIsValid(mac, b, 0, n);
      SharedHead(mac, a[..m], b[..n]);
      assert a == a[..m] + [a[m]] && b[n - m..] == b[..n][n - m..] + [b[n]];
    }
  }

  /** As long as the last hash is kept, no other table of the same length passes. */
  lemma {:induction false} AnyChangeReported(mac: Mac, rows: seq<Row>, tampered: seq<Row>)
    requires Injective(mac) && ValidChain(mac, rows) && |tampered| == |rows| > 0
    requires tampered[|rows| - 1].hash == rows[|rows| - 1].hash
    ensures ValidChain(mac, tampered) <==> tampered == rows
  {
    if ValidChain(mac, tampered) {
      SharedHead(mac, tampered, rows);
    }
  }

  /** Editing the fields of any stored record is reported at that record. */
  lemma {:induction false} EditReported(mac: Mac, rows: seq<Row>, i: nat, event: Event)
    requires Injective(mac) && ValidChain(mac, rows) && i < |rows|
    ensures var tampered := rows[i := rows[i].(event := event)];
            if event == rows[i].event then ValidChain(mac, tampered) else FirstFailure(mac, tampered, i)
  {
    var tampered := rows[i := rows[i].(event := event)];
    assert LocallyOk(mac, rows, i);
    if event == rows[i].event {
      assert tampered == rows;
    } else {
      forall k | 0 <= k < i
        ensures LocallyOk(mac, tampered, k)
      {
        assert LocallyOk(mac, rows, k);
      }
    }
  }

  /** Removing a block of records passes exactly when the block touches an end of the table. */
  lemma {:induction false} RemovalReported(mac: Mac, rows: seq<Row>, i: nat, j: nat)
    requires Injective(mac) && ValidChain(mac, rows) && UniqueIds(rows) && i < j <= |rows|
    ensures ValidChain(mac, rows[..i] + rows[j..]) <==> i == 0 || j == |rows|
  {
    var left := rows[..i] + rows[j..];
    if i == 0 {
      SliceIsValid(mac, rows, j, |rows|);
      assert left == rows[j..|rows|];
    } else if j == |rows| {
      SliceIsValid(mac, rows, 0, i);
      assert left == rows[0..i];
    } else {
      SkippedRow(mac, rows, i - 1, j);
      assert left[i - 1] == rows[i - 1] && left[i] == rows[j];
      assert !LocallyOk(mac, left, i);
    }
  }

  /** A row does not continue any row but its predecessor. */
  lemma {:induction false} SkippedRow(mac: Mac, rows: seq<Row>, i: nat, j: nat)
    requires Injective(mac) && ValidChain(mac, rows) && UniqueIds(rows) && i + 1 < j < |rows|
    ensures rows[j].prevHash != rows[i].hash
  {
    assert LocallyOk(mac, rows, j) && LocallyOk(mac, rows, j - 1) && LocallyOk(mac, rows, i);
  }

  function Swapped(rows: seq<Row>, i: nat, j: nat): seq<Row>
    requires i < j < |rows|
  {
    rows[i := rows[j]][j := rows[i]]
  }

  /** The ends of a table of three or more rows cannot be swapped: its second row continues
      the first and no other. */
  lemma {:induction false} EndsSwapped(mac: Mac, rows: seq<Row>, j: nat)
    requires Injective(mac) && ValidChain(mac, rows) && UniqueIds(rows) && 2 <= j == |rows| - 1
    ensures !ValidChain(mac, Swapped(rows, 0, j))
  {
    assert LocallyOk(mac, rows, 0) && LocallyOk(mac, rows, 1) && LocallyOk(mac, rows, j);
    assert !LocallyOk(mac, Swapped(rows, 0, j), 1);
  }

  lemma {:induction false} TwoSwapped(mac: Mac, rows: seq<Row>)
    requires ValidChain(mac, rows) && |rows| == 2
    ensures ValidChain(mac, Swapped(rows, 0, 1)) <==> rows[0].prevHash == rows[1].hash
  {
    assert LocallyOk(mac, rows, 0) && LocallyOk(mac, rows, 1);
    var swapped := Swapped(rows, 0, 1);
    assert LocallyOk(mac, swapped, 0);
    assert LocallyOk(mac, swapped, 1) <==> rows[0].prevHash == rows[1].hash;
  }

  /** Swapping two records is reported, except in a table of two whose hashes form a circle. */
  lemma {:induction false} SwapReported(mac: Mac, rows: seq<Row>, i: nat, j: nat)
    requires Injective(mac) && ValidChain(mac, rows) && UniqueIds(rows) && i < j < |rows|
    ensures ValidChain(mac, Swapped(rows, i, j)) <==> |rows| == 2 && rows[0].prevHash == rows[1].hash
  {
    if |rows| == 2 {
      TwoSwapped(mac, rows);
    } else if j < |rows| - 1 {
      AnyChangeReported(mac, rows, Swapped(rows, i, j));
      assert Swapped(rows, i, j)[i] == rows[j];
    } else if i > 0 {
      SkippedRow(mac, rows, i - 1, j);
      assert !LocallyOk(mac, Swapped(rows, i, j), i);
    } else {
      EndsSwapped(mac, rows, j);
    }
  }

  // ---------- retention ----------

  predicate Survives(row: Row, cutoff: int) { row.event.timestamp >= cutoff }

  /** No expired row lies between two surviving ones. */
  ghost predicate SurvivorsAdjacent(rows: seq<Row>, cutoff: int) {
    forall i, j, k :: 0 <= i < j < k < |rows| && Survives(rows[i], cutoff) && Survives(rows[k], cutoff) ==>
      Survives(rows[j], cutoff)
  }

  lemma {:induction false} LastSurvivor(rows: seq<Row>, cutoff: int) returns (m: nat)
    requires Retained(rows, cutoff) != []
    ensures m < |rows| && Survives(rows[m], cutoff) && forall k :: m < k < |rows| ==> !Survives(rows[k], cutoff)
    ensures Retained(rows, cutoff)[|Retained(rows, cutoff)| - 1] == rows[m]
    decreases |rows|
  {
    if Survives(rows[|rows| - 1], cutoff) {
      m := |rows| - 1;
    } else {
      m := LastSurvivor(rows[..|rows| - 1], cutoff);
    }
  }

  lemma {:induction false} NoSurvivor(rows: seq<Row>, cutoff: int)
    requires Retained(rows, cutoff) == []
    ensures forall k :: 0 <= k < |rows| ==> !Survives(rows[k], cutoff)
    decreases |rows|
  {
    if rows != [] {
      NoSurvivor(rows[..|rows| - 1], cutoff);
      assert forall k :: 0 <= k < |rows| - 1 ==> rows[k] == rows[..|rows| - 1][k];
    }
  }

  lemma {:induction false} ExtendedChain(mac: Mac, rows: seq<Row>, row: Row)
    ensures ValidChain(mac, rows + [row]) <==>
            ValidChain(mac, rows) && (rows != [] ==> row.prevHash == rows[|rows| - 1].hash) &&
              mac(row.prevHash, row.event) == row.hash
  {
    var longer := rows + [row];
    assert forall k :: 0 <= k < |rows| ==> LocallyOk(mac, longer, k) == LocallyOk(mac, rows, k);
    assert LocallyOk(mac, longer, |rows|) <==>
           (rows != [] ==> row.prevHash == rows[|rows| - 1].hash) && mac(row.prevHash, row.event) == row.hash;
    if ValidChain(mac, longer) {
      assert forall k :: 0 <= k < |rows| ==> LocallyOk(mac, longer, k);
    }
  }

  /** Retention leaves a table that passes exactly when no expired row lies between survivors. */
  lemma {:induction false} RetentionExact(mac: Mac, rows: seq<Row>, cutoff: int)
    requires Injective(mac) && ValidChain(mac, rows) && UniqueIds(rows)
    ensures ValidChain(mac, Retained(rows, cutoff)) <==> SurvivorsAdjacent(rows, cutoff)
    decreases |rows|
  {
    if rows != [] {
      var n := |rows| - 1;
      var front := rows[..n];
      var kept := Retained(front, cutoff);
      SliceIsValid(mac, rows, 0, n);
      RetentionExact(mac, front, cutoff);
      if !Survives(rows[n], cutoff) {
        SameSurvivors(rows, cutoff);
        assert kept + [] == kept;
      } else {
        ExtendedChain(mac, kept, rows[n]);
        assert LocallyOk(mac, rows, n);
        if kept == [] {
          NoSurvivor(front, cutoff);
        } else {
          var m := LastSurvivor(front, cutoff);
          Continues(mac, rows, m);
          LastOneSurvives(rows, cutoff, m);
        }
      }
    }
  }

  lemma {:induction false} Continues(mac: Mac, rows: seq<Row>, m: nat)
    requires Injective(mac) && ValidChain(mac, rows) && UniqueIds(rows) && m + 1 < |rows|
    ensures rows[|rows| - 1].prevHash == rows[m].hash <==> m + 1 == |rows| - 1
  {
    assert LocallyOk(mac, rows, |rows| - 1);
    if m + 1 < |rows| - 1 {
      SkippedRow(mac, rows, m, |rows| - 1);
    }
  }

  lemma {:induction false} SameSurvivors(rows: seq<Row>, cutoff: int)
    requires rows != [] && !Survives(rows[|rows| - 1], cutoff)
    ensures SurvivorsAdjacent(rows, cutoff) <==> SurvivorsAdjacent(rows[..|rows| - 1], cutoff)
  {
    var front := rows[..|rows| - 1];
    assert forall k :: 0 <= k < |front| ==> rows[k] == front[k];
  }

  /** With `m` the last survivor before a surviving last row. */
  lemma {:induction false} LastOneSurvives(rows: seq<Row>, cutoff: int, m: nat)
    requires m + 1 < |rows| && Survives(rows[|rows| - 1], cutoff) && Survives(rows[m], cutoff)
    requires forall k :: m < k < |rows| - 1 ==> !Survives(rows[k], cutoff)
    ensures SurvivorsAdjacent(rows, cutoff) <==> SurvivorsAdjacent(rows[..|rows| - 1], cutoff) && m + 1 == |rows| - 1
  {
    var front := rows[..|rows| - 1];
    assert forall k :: 0 <= k < |front| ==> rows[k] == front[k];
    if m + 1 < |front| {
      assert !Survives(rows[m + 1], cutoff);
    }
  }

  // ---------- whole runs ----------

  datatype Operation = Append(event: Event) | DeleteOlderThan(cutoff: int)

  function Apply(mac: Mac, genesis: Hash, rows: seq<Row>, op: Operation): seq<Row> {
    match op
    case Append(event) => Appended(mac, genesis, rows, event)
    case DeleteOlderThan(cutoff) => Retained(rows, cutoff)
  }

  function Run(mac: Mac, genesis: Hash, ops: seq<Operation>): seq<Row> {
    if ops == [] then [] else Apply(mac, genesis, Run(mac, genesis, ops[..|ops| - 1]), ops[|ops| - 1])
  }

  /** Timestamps never go backwards in the order of the appends. */
  ghost predicate Chronological(ops: seq<Operation>) {
    forall i, j :: 0 <= i < j < |ops| && ops[i].Append? && ops[j].Append? ==>
      ops[i].event.timestamp <= ops[j].event.timestamp
  }

  ghost predicate Ascending(rows: seq<Row>) {
    forall i, j :: 0 <= i < j < |rows| ==> rows[i].event.timestamp <= rows[j].event.timestamp
  }

  ghost predicate AppendedBy(rows: seq<Row>, ops: seq<Operation>) {
    forall i :: 0 <= i < |rows| ==> Append(rows[i].event) in ops
  }

  /** On an ascending table retention drops a prefix. */
  lemma {:induction false} RetainedSuffix(rows: seq<Row>, cutoff: int) returns (from: nat)
    requires Ascending(rows)
    ensures from <= |rows| && Retained(rows, cutoff) == rows[from..]
    decreases |rows|
  {
    if rows == [] {
      from := 0;
    } else {
      var front, last := rows[..|rows| - 1], rows[|rows| - 1];
      from := RetainedSuffix(front, cutoff);
      if Survives(last, cutoff) {
        assert rows[from..] == front[from..] + [last];
      } else {
        if from < |front| {
          var m := LastSurvivor(front, cutoff);
        }
        from := |rows|;
      }
    }
  }

  ghost predicate Sound(mac: Mac, rows: seq<Row>, ops: seq<Operation>) {
    ValidChain(mac, rows) && UniqueIds(rows) && Ascending(rows) && AppendedBy(rows, ops)
  }

  lemma {:induction false} EarlierEvents(rows: seq<Row>, ops: seq<Operation>, event: Event)
    requires AppendedBy(rows, ops) && Chronological(ops + [Append(event)])
    ensures forall i :: 0 <= i < |rows| ==> rows[i].event.timestamp <= event.timestamp
    ensures AppendedBy(rows, ops + [Append(event)]) && Append(event) in ops + [Append(event)]
  {
    var all := ops + [Append(event)];
    assert all[|ops|] == Append(event);
    forall i | 0 <= i < |rows|
      ensures rows[i].event.timestamp <= event.timestamp && Append(rows[i].event) in all
    {
      var k :| 0 <= k < |ops| && ops[k] == Append(rows[i].event);
      assert all[k] == ops[k];
    }
  }

  lemma {:induction false} SoundAfterAppend(mac: Mac, genesis: Hash, rows: seq<Row>, ops: seq<Operation>, event: Event)
    requires Sound(mac, rows, ops) && Chronological(ops + [Append(event)])
    ensures Sound(mac, Appended(mac, genesis, rows, event), ops + [Append(event)])
  {
    EarlierEvents(rows, ops, event);
    if !Taken(rows, event.eventId) {
      var prev := LastHash(genesis, rows);
      ExtendedChain(mac, rows, Row(event, prev, mac(prev, event)));
    }
  }

  lemma {:induction false} SoundAfterDelete(mac: Mac, rows: seq<Row>, ops: seq<Operation>, cutoff: int)
    requires Sound(mac, rows, ops)
    ensures Sound(mac, Retained(rows, cutoff), ops + [DeleteOlderThan(cutoff)])
  {
    var from := RetainedSuffix(rows, cutoff);
    SliceIsValid(mac, rows, from, |rows|);
    assert rows[from..] == rows[from..|rows|];
    assert forall i :: from <= i < |rows| ==> rows[from..][i - from] == rows[i];
    assert forall op :: op in ops ==> op in ops + [DeleteOlderThan(cutoff)];
  }

  /** From an empty store, appends and retention never break the chain if time does not go backwards. */
  lemma {:induction false} RunsVerify(mac: Mac, genesis: Hash, ops: seq<Operation>)
    requires Chronological(ops)
    ensures Sound(mac, Run(mac, genesis, ops), ops)
    decreases |ops|
  {
    if ops != [] {
      var front, op := ops[..|ops| - 1], ops[|ops| - 1];
      assert ops == front + [op];
      RunsVerify(mac, genesis, front);
      match op {
        case Append(event) => SoundAfterAppend(mac, genesis, Run(mac, genesis, front), front, event);
        case DeleteOlderThan(cutoff) => SoundAfterDelete(mac, Run(mac, genesis, front), front, cutoff);
      }
    }
  }

  /** After everything has been purged the chain starts again from genesis. */
  lemma {:induction false} RestartsFromGenesis(mac: Mac, genesis: Hash, rows: seq<Row>, cutoff: int, event: Event)
    requires forall i :: 0 <= i < |rows| ==> !Survives(rows[i], cutoff)
    ensures Appended(mac, genesis, Retained(rows, cutoff), event) == [Row(event, genesis, mac(genesis, event))]
  {
    if Retained(rows, cutoff) != [] {
      var m := LastSurvivor(rows, cutoff);
    }
  }

  lemma {:induction false} ThreeAppends(mac: Mac, genesis: Hash, a: Event, b: Event, c: Event)
    requires a.eventId != b.eventId && a.eventId != c.eventId && b.eventId != c.eventId
    ensures var rows := Run(mac, genesis, [Append(a), Append(b), Append(c)]);
            |rows| == 3 && rows[0].event == a && rows[1].event == b && rows[2].event == c && ValidChain(mac, rows) &&
              UniqueIds(rows)
  {
    var ops := [Append(a), Append(b), Append(c)];
    assert ops[..2] == [Append(a), Append(b)] && ops[..2][..1] == [Append(a)] && ops[..1][..0] == [];
    var ra := Row(a, genesis, mac(genesis, a));
    var rb := Row(b, ra.hash, mac(ra.hash, b));
    var rc := Row(c, rb.hash, mac(rb.hash, c));
    assert Run(mac, genesis, []) == [];
    assert Run(mac, genesis, [Append(a)]) == [ra];
    assert Run(mac, genesis, [Append(a), Append(b)]) == [ra, rb];
    assert Run(mac, genesis, ops) == [ra, rb, rc];
    ThreeInAChain(mac, [ra, rb, rc]);
  }

  lemma {:induction false} ThreeInAChain(mac: Mac, rows: seq<Row>)
    requires |rows| == 3 && LocallyOk(mac, rows, 0) && LocallyOk(mac, rows, 1) && LocallyOk(mac, rows, 2)
    ensures ValidChain(mac, rows)
  {}

  /** One event stored out of order is enough: a later retention run removes it from the
      middle and leaves a table that no longer passes. */
  lemma {:induction false} BackdatedEventBreaksChain(mac: Mac, genesis: Hash, a: Event, b: Event, c: Event)
    requires Injective(mac) && a.eventId != b.eventId && a.eventId != c.eventId && b.eventId != c.eventId
    requires a.timestamp == 10 && b.timestamp == 5 && c.timestamp == 10
    ensures !ValidChain(mac, Run(mac, genesis, [Append(a), Append(b), Append(c), DeleteOlderThan(8)]))
  {
    var ops := [Append(a), Append(b), Append(c)];
    var rows := Run(mac, genesis, ops);
    ThreeAppends(mac, genesis, a, b, c);
    RetentionExact(mac, rows, 8);
    assert !SurvivorsAdjacent(rows, 8) by {
      assert Survives(rows[0], 8) && !Survives(rows[1], 8) && Survives(rows[2], 8);
    }
    assert [Append(a), Append(b), Append(c), DeleteOlderThan(8)][..3] == ops;
  }
}
