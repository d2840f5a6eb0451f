/**
 What an audit table holds (maskguard/api/audit/storage.py), told by the run alone: every event
 ever appended, in order and under its own hash, except duplicates and what retention removed.
 */
module AuditHistory {
  import opened AuditChain

  /** After `n` operations the event of operation `i` is in the table: nothing with its identifier
      was there when it was appended, and no retention run has reached it since. */
  predicate Kept(ops: seq<Operation>, i: nat, n: nat)
    decreases i
  {
    && i < n <= |ops| && ops[i].Append?
    && (forall k :: i < k < n && ops[k].DeleteOlderThan? ==> ops[i].event.timestamp >= ops[k].cutoff)
    && (forall j :: 0 <= j < i && ops[j].Append? && ops[j].event.eventId == ops[i].event.eventId ==> !Kept(ops, j, i))
  }

  /** Row `k` holds the event of operation `at[k]`, and so for all that are kept, in order. */
  ghost predicate Holds(ops: seq<Operation>, n: nat, rows: seq<Row>, at: seq<nat>) {
    && |at| == |rows| && (forall k, l :: 0 <= k < l < |at| ==> at[k] < at[l])
    && (forall k :: 0 <= k < |at| ==> at[k] < n <= |ops| && ops[at[k]] == Append(rows[k].event))
    && (forall i :: 0 <= i < n <= |ops| ==> (i in at <==> Kept(ops, i, n)))
  }

  lemma {:induction false} KeptOneMore(ops: seq<Operation>, i: nat, n: nat)
    requires i < n < |ops|
    ensures Kept(ops, i, n + 1) <==>
            Kept(ops, i, n) && (ops[n].DeleteOlderThan? ==> ops[i].event.timestamp >= ops[n].cutoff)
  {}

  lemma {:induction false} TakenExactly(ops: seq<Operation>, n: nat, rows: seq<Row>, at: seq<nat>, id: string)
    requires Holds(ops, n, rows, at) && n <= |ops|
    ensures Taken(rows, id) <==> exists i :: 0 <= i < n && Kept(ops, i, n) && ops[i].event.eventId == id
  {
    if k :| 0 <= k < |rows| && rows[k].event.eventId == id {
      assert at[k] in at;
    }
    if i :| 0 <= i < n && Kept(ops, i, n) && ops[i].event.eventId == id {
      assert i in at;
      var k :| 0 <= k < |at| && at[k] == i;
      assert rows[k].event == ops[i].event;
    }
  }

  /** Appending adds the event unless its identifier is taken. */
  lemma {:induction false} HoldsAppended(ops: seq<Operation>, n: nat, rows: seq<Row>, at: seq<nat>, row: Row)
    requires n < |ops| && Holds(ops, n, rows, at) && ops[n] == Append(row.event)
    ensures if Taken(rows, row.event.eventId) then Holds(ops, n + 1, rows, at)
            else Holds(ops, n + 1, rows + [row], at + [n])
  {
    TakenExactly(ops, n, rows, at, row.event.eventId);
    forall i | 0 <= i < n
      ensures Kept(ops, i, n + 1) <==> Kept(ops, i, n)
    {
      KeptOneMore(ops, i, n);
    }
    assert Kept(ops, n, n + 1) <==> !Taken(rows, row.event.eventId);
    assert forall i :: i in at + [n] <==> i in at || i == n;
  }

  /** What retention leaves, with its places. */
  ghost function LeftAt(rows: seq<Row>, at: seq<nat>, cutoff: int): seq<nat>
    requires |at| == |rows|
  {
    if rows == [] then []
    else
      var n := |rows| - 1;
      LeftAt(rows[..n], at[..n], cutoff) + if rows[n].event.timestamp < cutoff then [] else [at[n]]
  }

  ghost predicate LeftFrom(rows: seq<Row>, at: seq<nat>, cutoff: int, row: Row, place: nat)
    requires |at| == |rows|
  {
    exists k :: 0 <= k < |rows| && rows[k] == row && at[k] == place && rows[k].event.timestamp >= cutoff
  }

  ghost predicate LeavesThese(rows: seq<Row>, at: seq<nat>, cutoff: int, left: seq<Row>, places: seq<nat>) {
    && |at| == |rows| && |places| == |left| && (forall k, l :: 0 <= k < l < |places| ==> places[k] < places[l])
    && (forall p :: 0 <= p < |places| ==> LeftFrom(rows, at, cutoff, left[p], places[p]))
    && (forall k :: 0 <= k < |rows| && rows[k].event.timestamp >= cutoff ==> at[k] in places)
  }

  lemma {:induction false} RetainedThese(rows: seq<Row>, at: seq<nat>, cutoff: int)
    requires |at| == |rows| && forall k, l :: 0 <= k < l < |at| ==> at[k] < at[l]
    ensures LeavesThese(rows, at, cutoff, Retained(rows, cutoff), LeftAt(rows, at, cutoff))
  {
    if rows != [] {
      var n := |rows| - 1;
      RetainedThese(rows[..n], at[..n], cutoff);
      var left, places := Retained(rows[..n], cutoff), LeftAt(rows[..n], at[..n], cutoff);
      OneMoreLeft(rows, at, cutoff, left, places);
      assert left + [] == left && places + [] == places;
    }
  }

  lemma {:induction false} LeftFromLonger(rows: seq<Row>, at: seq<nat>, cutoff: int, row: Row, place: nat)
    requires rows != [] && |at| == |rows| && forall k, l :: 0 <= k < l < |at| ==> at[k] < at[l]
    requires LeftFrom(rows[..|rows| - 1], at[..|rows| - 1], cutoff, row, place)
    ensures LeftFrom(rows, at, cutoff, row, place) && place < at[|rows| - 1]
  {
    var n := |rows| - 1;
    var k :| 0 <= k < n && rows[..n][k] == row && at[..n][k] == place && rows[..n][k].event.timestamp >= cutoff;
    assert rows[k] == row && at[k] == place;
  }

  lemma {:induction false} OneMoreLeft(rows: seq<Row>, at: seq<nat>, cutoff: int, left: seq<Row>, places: seq<nat>)
    requires rows != [] && |at| == |rows| && forall k, l :: 0 <= k < l < |at| ==> at[k] < at[l]
    requires LeavesThese(rows[..|rows| - 1], at[..|rows| - 1], cutoff, left, places)
    ensures var n := |rows| - 1;
            if rows[n].event.timestamp < cutoff then LeavesThese(rows, at, cutoff, left, places)
            else LeavesThese(rows, at, cutoff, left + [rows[n]], places + [at[n]])
  {
    var n := |rows| - 1;
    forall p | 0 <= p < |places|
      ensures places[p] < at[n] && LeftFrom(rows, at, cutoff, left[p], places[p])
    {
      LeftFromLonger(rows, at, cutoff, left[p], places[p]);
    }
    forall k | 0 <= k < n && rows[k].event.timestamp >= cutoff
      ensures at[k] in places
    {
      assert rows[..n][k] == rows[k] && at[..n][k] == at[k];
    }
    if rows[n].event.timestamp >= cutoff {
      LastIsLeft(rows, at, cutoff, left, places);
    }
  }

  lemma {:induction false} LastIsLeft(rows: seq<Row>, at: seq<nat>, cutoff: int, left: seq<Row>, places: seq<nat>)
    requires rows != [] && |at| == |rows| && |places| == |left| && rows[|rows| - 1].event.timestamp >= cutoff
    requires forall k, l :: 0 <= k < l < |places| ==> places[k] < places[l]
    requires forall p :: 0 <= p < |places| ==>
               places[p] < at[|rows| - 1] && LeftFrom(rows, at, cutoff, left[p], places[p])
    requires forall k :: 0 <= k < |rows| - 1 && rows[k].event.timestamp >= cutoff ==> at[k] in places
    ensures LeavesThese(rows, at, cutoff, left + [rows[|rows| - 1]], places + [at[|rows| - 1]])
  {
    var n := |rows| - 1;
    var more := places + [at[n]];
    assert more[|places|] == at[n] && forall p :: 0 <= p < |places| ==> more[p] == places[p];
    assert LeftFrom(rows, at, cutoff, rows[n], at[n]);
    forall k | 0 <= k < |rows| && rows[k].event.timestamp >= cutoff
      ensures at[k] in more
    {}
  }

  /** Retention removes the events that it reaches. */
  lemma {:induction false} HoldsRetained(ops: seq<Operation>, n: nat, rows: seq<Row>, at: seq<nat>, cutoff: int,
        left: seq<Row>, places: seq<nat>)
    requires n < |ops| && Holds(ops, n, rows, at) && ops[n] == DeleteOlderThan(cutoff)
    requires LeavesThese(rows, at, cutoff, left, places)
    ensures Holds(ops, n + 1, left, places)
  {
    forall p | 0 <= p < |places|
      ensures places[p] in at && places[p] < n && ops[places[p]] == Append(left[p].event)
      ensures left[p].event.timestamp >= cutoff
    {
      assert LeftFrom(rows, at, cutoff, left[p], places[p]);
      var k :| 0 <= k < |rows| && rows[k] == left[p] && at[k] == places[p] && rows[k].event.timestamp >= cutoff;
    }
    forall i | 0 <= i < n
      ensures i in places <==> Kept(ops, i, n + 1)
    {
      KeptOneMore(ops, i, n);
      if i in at {
        var k :| 0 <= k < |at| && at[k] == i;
        assert ops[at[k]] == Append(rows[k].event);
      }
      if i in places {
        var p :| 0 <= p < |places| && places[p] == i;
        assert ops[places[p]] == Append(left[p].event);
      }
    }
  }

  /** Each row is under the hash that it was stored with. */
  ghost predicate Hashed(mac: Mac, rows: seq<Row>) {
    forall k :: 0 <= k < |rows| ==> rows[k].hash == mac(rows[k].prevHash, rows[k].event)
  }

  lemma {:induction false} HashedRetained(mac: Mac, rows: seq<Row>, cutoff: int)
    requires Hashed(mac, rows)
    ensures Hashed(mac, Retained(rows, cutoff))
  {
    if rows != [] {
      assert forall k :: 0 <= k < |rows| - 1 ==> rows[..|rows| - 1][k] == rows[k];
      HashedRetained(mac, rows[..|rows| - 1], cutoff);
    }
  }

  lemma {:induction false} RunOneMore(mac: Mac, genesis: Hash, ops: seq<Operation>, n: nat)
    requires n < |ops|
    ensures Run(mac, genesis, ops[..n + 1]) == Apply(mac, genesis, Run(mac, genesis, ops[..n]), ops[n])
  {
    assert ops[..n + 1][..n] == ops[..n];
  }

  lemma {:induction false} TableAppended(mac: Mac, genesis: Hash, ops: seq<Operation>, n: nat, rows: seq<Row>,
        at: seq<nat>, event: Event) returns (after: seq<nat>)
    requires n < |ops| && Holds(ops, n, rows, at) && Hashed(mac, rows) && ops[n] == Append(event)
    ensures Holds(ops, n + 1, Appended(mac, genesis, rows, event), after)
    ensures Hashed(mac, Appended(mac, genesis, rows, event))
  {
    var prev := LastHash(genesis, rows);
    HoldsAppended(ops, n, rows, at, Row(event, prev, mac(prev, event)));
    after := if Taken(rows, event.eventId) then at else at + [n];
  }

  lemma {:induction false} TableRetained(mac: Mac, ops: seq<Operation>, n: nat, rows: seq<Row>, at: seq<nat>,
        cutoff: int) returns (after: seq<nat>)
    requires n < |ops| && Holds(ops, n, rows, at) && Hashed(mac, rows) && ops[n] == DeleteOlderThan(cutoff)
    ensures Holds(ops, n + 1, Retained(rows, cutoff), after) && Hashed(mac, Retained(rows, cutoff))
  {
    RetainedThese(rows, at, cutoff);
    HashedRetained(mac, rows, cutoff);
    after := LeftAt(rows, at, cutoff);
    HoldsRetained(ops, n, rows, at, cutoff, Retained(rows, cutoff), after);
  }

  /** After any run the table holds exactly the events that were appended when their identifier
      was free and that no retention run has reached, in order, each under its own hash. */
  lemma {:induction false} TableExactly(mac: Mac, genesis: Hash, ops: seq<Operation>, n: nat) returns (at: seq<nat>)
    requires n <= |ops|
    ensures Holds(ops, n, Run(mac, genesis, ops[..n]), at)
    ensures Hashed(mac, Run(mac, genesis, ops[..n]))
  {
    if n == 0 {
      assert ops[..0] == [];
      at := [];
    } else {
      at := TableExactly(mac, genesis, ops, n - 1);
      var rows := Run(mac, genesis, ops[..n - 1]);
      RunOneMore(mac, genesis, ops, n - 1);
      match ops[n - 1] {
        case Append(event) =>
          at := TableAppended(mac, genesis, ops, n - 1, rows, at, event);
        case DeleteOlderThan(cutoff) =>
          at := TableRetained(mac, ops, n - 1, rows, at, cutoff);
      }
    }
  }
}
