/**
 Whole runs of the session stores (maskguard/api/auth/session.py).

 Both real stores only ever answer what the ideal store answers, and what the ideal store
 answers is accounted for by the run: the session was minted, nothing ended it since, and
 neither of its two clocks has run out.
 */
module SessionRuns {
  import opened KeyOrder
  import opened Sessions

  type Run = seq<Step>

  ghost predicate Chronological(run: Run) { forall i, j :: 0 <= i < j < |run| ==> run[i].now <= run[j].now }

  predicate Mints(op: Operation, id: string) { (op.Create? || op.Rotate?) && op.id == id }

  /** Every minted id is new: no earlier step mentions it. */
  ghost predicate FreshIds(run: Run) {
    forall i, j, id :: 0 <= i < j < |run| && Mints(run[j].op, id) ==> !Names(run[i].op, id)
  }

  predicate Names(op: Operation, id: string) { op.id == id || (op.Rotate? && op.oldId == id) }

  /** The step asks for the session `id`, to look it up or to rotate it. */
  predicate AsksFor(op: Operation, id: string) { (op.Get? && op.id == id) || (op.Rotate? && op.oldId == id) }

  // ---------- runs ----------

  function IdealAfter(run: Run): Records {
    if run == [] then map[] else Ideal(IdealAfter(run[..|run| - 1]), run[|run| - 1]).0
  }

  function InMemoryAfter(capacity: nat, run: Run): Bounded {
    if run == [] then Bounded(map[], [])
    else InMemory(InMemoryAfter(capacity, run[..|run| - 1]), capacity, run[|run| - 1]).0
  }

  function RedisAfter(run: Run): Db {
    if run == [] then map[] else Redis(RedisAfter(run[..|run| - 1]), run[|run| - 1]).0
  }

  /** What each store answers to `step` after `run`. */
  function IdealAnswer(run: Run, step: Step): Answer { Ideal(IdealAfter(run), step).1 }

  function InMemoryAnswer(capacity: nat, run: Run, step: Step): Answer {
    InMemory(InMemoryAfter(capacity, run), capacity, step).1
  }

  function RedisAnswer(run: Run, step: Step): Answer { Redis(RedisAfter(run), step).1 }

  lemma {:induction false} OneMoreStep(capacity: nat, run: Run, step: Step)
    ensures IdealAfter(run + [step]) == Ideal(IdealAfter(run), step).0
    ensures InMemoryAfter(capacity, run + [step]) == InMemory(InMemoryAfter(capacity, run), capacity, step).0
    ensures RedisAfter(run + [step]) == Redis(RedisAfter(run), step).0
  {
    assert (run + [step])[..|run|] == run;
  }

  lemma {:induction false} FreshPrefix(run: Run, step: Step)
    requires FreshIds(run + [step])
    ensures FreshIds(run)
    ensures forall i, id :: 0 <= i < |run| && Mints(step.op, id) ==> !Names(run[i].op, id)
  {
    var all := run + [step];
    assert all[|run|] == step;
    assert forall i :: 0 <= i < |run| ==> all[i] == run[i];
  }

  // ---------- the bounded store refines the ideal one ----------

  ghost predicate PartOf(records: Records, ideal: Records) {
    forall id :: id in records ==> id in ideal && records[id] == ideal[id]
  }

  lemma {:induction false} OnlyMintedIds(run: Run, id: string)
    requires id in IdealAfter(run)
    ensures exists i :: 0 <= i < |run| && Names(run[i].op, id)
    decreases |run|
  {
    if run != [] {
      var front, step := run[..|run| - 1], run[|run| - 1];
      if id in IdealAfter(front) {
        OnlyMintedIds(front, id);
        var i :| 0 <= i < |front| && Names(front[i].op, id);
        assert Names(run[i].op, id);
      } else {
        assert Names(run[|run| - 1].op, id);
      }
    }
  }

  lemma {:induction false} InMemoryStepRefines(b: Bounded, ideal: Records, capacity: nat, step: Step)
    requires WellFormed(b) && capacity >= 1 && PartOf(b.records, ideal)
    requires forall id :: Mints(step.op, id) ==> id !in ideal
    ensures PartOf(InMemory(b, capacity, step).0.records, Ideal(ideal, step).0)
    ensures InMemory(b, capacity, step).1.Some? ==> InMemory(b, capacity, step).1 == Ideal(ideal, step).1
  {
    match step.op {
      case Create(id, identity, absolute) =>
        EvictedIsWellFormed(b, capacity);
      case Get(id, idle) =>
      case Delete(id) =>
      case Rotate(oldId, id, idle, absolute) =>
        assert Mints(step.op, id);
        InMemoryRotateRefines(b, ideal, capacity, step.now, oldId, id, absolute);
    }
  }

  lemma {:induction false} InMemoryRotateRefines(b: Bounded, ideal: Records, capacity: nat, now: real, oldId: string,
        id: string, absolute: int)
    requires WellFormed(b) && capacity >= 1 && PartOf(b.records, ideal) && id !in ideal
    ensures PartOf(Dropped(b, oldId).records, ideal - {oldId})
    ensures oldId in b.records ==>
              var r := Minted(id, b.records[oldId].identity, absolute, now);
              PartOf(Stored(Dropped(b, oldId), capacity, r).records, (ideal - {oldId})[id := r])
  {
    DroppedIsWellFormed(b, oldId);
    EvictedIsWellFormed(Dropped(b, oldId), capacity);
  }

  lemma {:induction false} InMemoryRunRefines(capacity: nat, run: Run)
    requires capacity >= 1 && FreshIds(run)
    ensures PartOf(InMemoryAfter(capacity, run).records, IdealAfter(run))
    ensures WellFormed(InMemoryAfter(capacity, run)) && |InMemoryAfter(capacity, run).order| <= capacity
    decreases |run|
  {
    if run != [] {
      var front, step := run[..|run| - 1], run[|run| - 1];
      assert run == front + [step];
      FreshPrefix(front, step);
      InMemoryRunRefines(capacity, front);
      StaysWithinCapacity(InMemoryAfter(capacity, front), capacity, step);
      MintedIsNew(front, step);
      InMemoryStepRefines(InMemoryAfter(capacity, front), IdealAfter(front), capacity, step);
    }
  }

  lemma {:induction false} MintedIsNew(run: Run, step: Step)
    requires FreshIds(run + [step])
    ensures forall id :: Mints(step.op, id) ==> id !in IdealAfter(run)
  {
    FreshPrefix(run, step);
    forall id | Mints(step.op, id) && id in IdealAfter(run)
      ensures false
    {
      OnlyMintedIds(run, id);
    }
  }

  /** Whatever the bounded store returns, the ideal store returns too; and it stays within capacity. */
  lemma {:induction false} InMemoryRefinesIdeal(capacity: nat, run: Run, step: Step)
    requires capacity >= 1 && FreshIds(run + [step])
    ensures InMemoryAnswer(capacity, run, step).Some? ==> InMemoryAnswer(capacity, run, step) == IdealAnswer(run, step)
    ensures |InMemoryAfter(capacity, run).records.Keys| <= capacity
  {
    FreshPrefix(run, step);
    InMemoryRunRefines(capacity, run);
    MintedIsNew(run, step);
    InMemoryStepRefines(InMemoryAfter(capacity, run), IdealAfter(run), capacity, step);
    DistinctCount(InMemoryAfter(capacity, run).order, InMemoryAfter(capacity, run).records.Keys);
  }

  // ---------- the Redis store refines the ideal one ----------

  /** What is still visible is known to the ideal store, which saw it no earlier. */
  ghost predicate VisiblePartOf(db: Db, ideal: Records, now: real) {
    forall id :: Visible(db, id, now) ==>
      id in ideal && db[id].record == ideal[id].(lastSeenAt := db[id].record.lastSeenAt) &&
        db[id].record.lastSeenAt <= ideal[id].lastSeenAt
  }

  ghost predicate SeenBy(ideal: Records, now: real) { forall id :: id in ideal ==> ideal[id].lastSeenAt <= now }

  lemma {:induction false} RedisLookedRefines(db: Db, ideal: Records, id: string, idle: int, now: real)
    requires VisiblePartOf(db, ideal, now) && SeenBy(ideal, now)
    ensures var (db', r) := RedisLooked(db, id, idle, now);
            var (ideal', q) := Looked(ideal, id, idle, now);
            VisiblePartOf(db', ideal', now) && (r.Some? ==> r == q)
  {
    assert Visible(db, id, now) ==> id in ideal;
  }

  lemma {:induction false} RedisStepRefines(db: Db, ideal: Records, step: Step)
    requires VisiblePartOf(db, ideal, step.now) && SeenBy(ideal, step.now)
    requires forall id :: Mints(step.op, id) ==> id !in ideal
    ensures VisiblePartOf(Redis(db, step).0, Ideal(ideal, step).0, step.now) && SeenBy(Ideal(ideal, step).0, step.now)
    ensures Redis(db, step).1.Some? ==> Redis(db, step).1 == Ideal(ideal, step).1
  {
    match step.op {
      case Create(id, identity, absolute) =>
      case Get(id, idle) =>
        RedisLookedRefines(db, ideal, id, idle, step.now);
      case Delete(id) =>
      case Rotate(oldId, id, idle, absolute) =>
        assert Mints(step.op, id);
        RedisLookedRefines(db, ideal, oldId, idle, step.now);
    }
  }

  lemma {:induction false} RefinesLater(db: Db, ideal: Records, now: real, later: real)
    requires VisiblePartOf(db, ideal, now) && SeenBy(ideal, now) && now <= later
    ensures VisiblePartOf(db, ideal, later) && SeenBy(ideal, later)
  {
    forall id | Visible(db, id, later)
      ensures Visible(db, id, now)
    {}
  }

  lemma {:induction false} ChronologicalPrefix(run: Run, step: Step)
    requires Chronological(run + [step])
    ensures Chronological(run) && (run != [] ==> run[|run| - 1].now <= step.now)
  {
    var all := run + [step];
    assert all[|run|] == step;
    assert forall i :: 0 <= i < |run| ==> all[i] == run[i];
  }

  lemma {:induction false} RedisRunRefines(run: Run, now: real)
    requires FreshIds(run) && Chronological(run) && (run != [] ==> run[|run| - 1].now <= now)
    ensures VisiblePartOf(RedisAfter(run), IdealAfter(run), now) && SeenBy(IdealAfter(run), now)
    decreases |run|
  {
    if run != [] {
      var front, step := run[..|run| - 1], run[|run| - 1];
      assert run == front + [step];
      FreshPrefix(front, step);
      ChronologicalPrefix(front, step);
      RedisRunRefines(front, step.now);
      RedisRefinesOneMore(front, step);
      RefinesLater(RedisAfter(run), IdealAfter(run), step.now, now);
    }
  }

  lemma {:induction false} RedisRefinesOneMore(run: Run, step: Step)
    requires FreshIds(run + [step])
    requires VisiblePartOf(RedisAfter(run), IdealAfter(run), step.now) && SeenBy(IdealAfter(run), step.now)
    ensures VisiblePartOf(RedisAfter(run + [step]), IdealAfter(run + [step]), step.now)
    ensures SeenBy(IdealAfter(run + [step]), step.now)
    ensures RedisAnswer(run, step).Some? ==> RedisAnswer(run, step) == IdealAnswer(run, step)
  {
    MintedIsNew(run, step);
    OneMoreStep(1, run, step);
    RedisStepRefines(RedisAfter(run), IdealAfter(run), step);
  }

  /** Whatever the Redis store returns, the ideal store returns too. */
  lemma {:induction false} RedisRefinesIdeal(run: Run, step: Step)
    requires FreshIds(run + [step]) && Chronological(run + [step])
    ensures RedisAnswer(run, step).Some? ==> RedisAnswer(run, step) == IdealAnswer(run, step)
  {
    FreshPrefix(run, step);
    ChronologicalPrefix(run, step);
    RedisRunRefines(run, step.now);
    RedisRefinesOneMore(run, step);
  }
}
