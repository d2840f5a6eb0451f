/**
 What the bounded session store forgets (maskguard/api/auth/session.py): a session goes
 exactly when as many others as there is room for are in use since its own last use.
 */
module SessionEviction {
  import opened Collections
  import opened KeyOrder
  import opened Models
  import opened Sessions
  import opened SessionHistory
  import opened SessionRuns

  /** The step is about using `id`: it mints it or looks it up. */
  predicate Uses(op: Operation, id: string) { Mints(op, id) || (op.Get? && op.id == id) }

  /** Step `m` uses the session, and the bounded store answers. */
  ghost predicate UsedInMemory(capacity: nat, run: Run, m: nat, id: string) {
    m < |run| && Uses(run[m].op, id) && InMemoryAnswer(capacity, run[..m], run[m]).Some?
  }

  ghost predicate LastUse(capacity: nat, run: Run, m: nat, id: string) {
    UsedInMemory(capacity, run, m, id) && !UsedSince(capacity, run, m, id)
  }

  ghost predicate UsedSince(capacity: nat, run: Run, m: nat, id: string) {
    exists k :: m < k < |run| && UsedInMemory(capacity, run, k, id)
  }

  /** The other sessions still held that were used after step `m`. */
  ghost function OthersSince(capacity: nat, run: Run, m: nat, id: string): set<Key> {
    set x | x in IdealAfter(run) && x != id && UsedSince(capacity, run, m, x)
  }

  /** At no time after step `m` were there as many of them as the store has room for. */
  ghost predicate AlwaysRoom(capacity: nat, run: Run, m: nat, id: string) {
    forall n :: m < n <= |run| ==> RoomAt(capacity, run, m, id, n)
  }

  ghost predicate RoomAt(capacity: nat, run: Run, m: nat, id: string, n: nat)
    requires n <= |run|
  {
    |OthersSince(capacity, run[..n], m, id)| < capacity
  }

  // ---------- one step more ----------

  lemma {:induction false} UsesInLonger(capacity: nat, run: Run, step: Step)
    ensures forall k, x :: 0 <= k < |run| ==>
              UsedInMemory(capacity, run + [step], k, x) == UsedInMemory(capacity, run, k, x)
    ensures forall x :: UsedInMemory(capacity, run + [step], |run|, x) <==>
              Uses(step.op, x) && InMemoryAnswer(capacity, run, step).Some?
  {
    var all := run + [step];
    assert all[..|run|] == run && all[|run|] == step;
    forall k | 0 <= k < |run|
      ensures all[..k] == run[..k] && all[k] == run[k]
    {}
  }

  lemma {:induction false} UsedSinceInLonger(capacity: nat, run: Run, step: Step, m: nat, x: string)
    requires m < |run|
    ensures UsedSince(capacity, run + [step], m, x) <==>
            UsedSince(capacity, run, m, x) || (Uses(step.op, x) && InMemoryAnswer(capacity, run, step).Some?)
  {
    UsesInLonger(capacity, run, step);
    var all := run + [step];
    if k :| m < k < |run| && UsedInMemory(capacity, run, k, x) {
      assert UsedInMemory(capacity, all, k, x);
    }
    if Uses(step.op, x) && InMemoryAnswer(capacity, run, step).Some? {
      assert UsedInMemory(capacity, all, |run|, x);
    }
  }

  lemma {:induction false} RoomInLonger(capacity: nat, run: Run, all: Run, m: nat, id: string)
    requires m < |run| && |all| == |run| + 1 && all[..|run|] == run
    ensures AlwaysRoom(capacity, all, m, id) <==>
            AlwaysRoom(capacity, run, m, id) && |OthersSince(capacity, all, m, id)| < capacity
  {
    assert all[..|all|] == all;
    forall n | 0 <= n <= |run|
      ensures RoomAt(capacity, all, m, id, n) == RoomAt(capacity, run, m, id, n)
    {
      assert all[..n] == run[..n];
    }
    assert RoomAt(capacity, all, m, id, |all|) <==> |OthersSince(capacity, all, m, id)| < capacity;
    if AlwaysRoom(capacity, all, m, id) {
      assert forall n :: m < n <= |run| ==> RoomAt(capacity, all, m, id, n);
    }
  }

  /** A store within its capacity loses at most its least recent session. */
  lemma {:induction false} OneEvicted(b: Bounded, capacity: nat)
    requires WellFormed(b) && capacity >= 1 && |b.order| <= capacity
    ensures Evicted(b, capacity) ==
            if |b.order| < capacity then b else Bounded(b.records - {b.order[0]}, b.order[1..])
  {}

  /** Storing a new session keeps `id` and all after it, unless `id` is first in a full store. */
  lemma {:induction false} AfterStoring(b: Bounded, capacity: nat, r: SessionRecord, id: string)
    requires WellFormed(b) && capacity >= 1 && |b.order| <= capacity
    requires id in b.records && r.sessionId !in b.records
    ensures var c := Stored(b, capacity, r);
            if id in c.records
            then After(c.order, id) == After(b.order, id) + {r.sessionId} && After(b.order, id) <= c.records.Keys
            else |After(b.order, id) + {r.sessionId}| == capacity
  {
    OneEvicted(b, capacity);
    var kept := Evicted(b, capacity);
    EvictedIsWellFormed(b, capacity);
    KeepAll(kept.order, r.sessionId);
    AfterAppend(kept.order, r.sessionId, id);
    AfterIsWithin(kept.order, id);
    if id !in kept.records {
      ElementsSize(b.order[1..]);
      assert b.order[0] == id;
    }
  }

  /** The sessions that a step ends in the bounded store. */
  function Gone(b: Bounded, step: Step): set<Key> {
    match step.op
    case Create(_, _, _) => {}
    case Get(x, idle) => if x in b.records && b.records[x].IsExpired(idle, step.now) then {x} else {}
    case Delete(x) => {x}
    case Rotate(oldId, _, _, _) => {oldId}
  }

  /** The sessions that come after `id` when it is not lost. */
  ghost function Following(b: Bounded, id: string, gone: set<Key>, used: set<Key>): set<Key> {
    (After(b.order, id) - gone) + used
  }

  /** From `b` to `c`, ending and using others than `id`: it is lost only for lack of room. */
  ghost predicate Moves(b: Bounded, c: Bounded, capacity: nat, id: string, gone: set<Key>, used: set<Key>) {
    if id in c.records then After(c.order, id) == Following(b, id, gone, used)
    else |Following(b, id, gone, used)| >= capacity
  }

  lemma {:induction false} MovesByPutting(b: Bounded, capacity: nat, x: string, r: SessionRecord, id: string)
    requires WellFormed(b) && id in b.records && x != id
    ensures Moves(b, Put(b, x, r), capacity, id, {}, {x})
  {
    AfterKeep(b.order, {x}, id);
    AfterAppend(Keep(b.order, {x}), x, id);
  }

  lemma {:induction false} MovesByDropping(b: Bounded, capacity: nat, x: string, id: string)
    requires WellFormed(b) && id in b.records && x != id
    ensures Moves(b, Dropped(b, x), capacity, id, {x}, {})
  {
    AfterKeep(b.order, {x}, id);
  }

  lemma {:induction false} MovesByStoring(b: Bounded, capacity: nat, r: SessionRecord, id: string)
    requires WellFormed(b) && capacity >= 1 && |b.order| <= capacity
    requires id in b.records && r.sessionId !in b.records
    ensures Moves(b, Stored(b, capacity, r), capacity, id, {}, {r.sessionId})
  {
    AfterStoring(b, capacity, r, id);
  }

  lemma {:induction false} MovesByRotating(b: Bounded, capacity: nat, r: SessionRecord, ended: string, id: string)
    requires WellFormed(b) && capacity >= 1 && |b.order| <= capacity
    requires id in b.records && r.sessionId !in b.records && ended != id
    ensures Moves(b, Stored(Dropped(b, ended), capacity, r), capacity, id, {ended}, {r.sessionId})
  {
    DroppedIsWellFormed(b, ended);
    MovesByDropping(b, capacity, ended, id);
    MovesByStoring(Dropped(b, ended), capacity, r, id);
  }

  lemma {:induction false} MovesNowhere(b: Bounded, capacity: nat, id: string)
    requires id in b.records
    ensures Moves(b, b, capacity, id, {}, {})
  {}

  /** What a step does to the sessions after one that it does not touch. */
  lemma {:induction false} AfterOneStep(b: Bounded, capacity: nat, step: Step, id: string)
    requires WellFormed(b) && capacity >= 1 && |b.order| <= capacity && id in b.records
    requires !Names(step.op, id) && (step.op.Create? || step.op.Rotate? ==> step.op.id !in b.records)
    ensures var (c, r) := InMemory(b, capacity, step);
            Moves(b, c, capacity, id, Gone(b, step), if r.Some? then {step.op.id} else {})
  {
    match step.op {
      case Create(x, identity, absolute) =>
        MovesByStoring(b, capacity, Minted(x, identity, absolute, step.now), id);
      case Get(x, idle) =>
        MovesNowhere(b, capacity, id);
        MovesByDropping(b, capacity, x, id);
        if x in b.records {
          MovesByPutting(b, capacity, x, b.records[x].(lastSeenAt := step.now), id);
        }
      case Delete(x) =>
        MovesByDropping(b, capacity, x, id);
      case Rotate(ended, x, idle, absolute) =>
        MovesByDropping(b, capacity, ended, id);
        if ended in b.records {
          MovesByRotating(b, capacity, Minted(x, b.records[ended].identity, absolute, step.now), ended, id);
        }
    }
  }

  // ---------- whole runs ----------

  /** The store after `run`, with `id` in it, and what comes after `id` there. */
  ghost predicate Tracked(capacity: nat, run: Run, b: Bounded, m: nat, id: string) {
    && capacity >= 1 && FreshIds(run) && b == InMemoryAfter(capacity, run) && WellFormed(b) && |b.order| <= capacity
    && PartOf(b.records, IdealAfter(run)) && m < |run| && id in b.records
    && After(b.order, id) == OthersSince(capacity, run, m, id)
  }

  lemma {:induction false} UsedIsNamed(capacity: nat, run: Run, m: nat, x: string)
    requires UsedSince(capacity, run, m, x)
    ensures exists i :: 0 <= i < |run| && Names(run[i].op, x)
  {
    var k :| m < k < |run| && UsedInMemory(capacity, run, k, x);
    assert Names(run[k].op, x);
  }

  /** Which sessions the ideal store holds after a step: it ends what the bounded one ends. */
  lemma {:induction false} EndsAlike(b: Bounded, ideal: Records, step: Step, x: string)
    requires x in ideal ==> x in b.records && b.records[x] == ideal[x]
    requires !Mints(step.op, x)
    ensures x in Ideal(ideal, step).0 <==> x in ideal && x !in Gone(b, step)
  {}

  lemma {:induction false} HeldOneMore(capacity: nat, run: Run, b: Bounded, m: nat, id: string, step: Step, x: string)
    requires Tracked(capacity, run, b, m, id) && FreshIds(run + [step]) && x != id && UsedSince(capacity, run, m, x)
    ensures x in Ideal(IdealAfter(run), step).0 <==> x in IdealAfter(run) && x !in Gone(b, step)
  {
    UsedIsNamed(capacity, run, m, x);
    FreshPrefix(run, step);
    if x in IdealAfter(run) {
      assert x in OthersSince(capacity, run, m, id);
      AfterIsWithin(b.order, id);
    }
    EndsAlike(b, IdealAfter(run), step, x);
  }

  lemma {:induction false} UsedIsHeld(b: Bounded, ideal: Records, capacity: nat, step: Step)
    requires PartOf(b.records, ideal) && InMemory(b, capacity, step).1.Some?
    ensures step.op.id in Ideal(ideal, step).0 && !step.op.Delete?
  {}

  lemma {:induction false} OthersOneMore(capacity: nat, run: Run, b: Bounded, m: nat, id: string, step: Step)
    requires Tracked(capacity, run, b, m, id) && FreshIds(run + [step]) && !Names(step.op, id)
    ensures var used := if InMemory(b, capacity, step).1.Some? then {step.op.id} else {};
            OthersSince(capacity, run + [step], m, id) == Following(b, id, Gone(b, step), used)
  {
    var answered := InMemory(b, capacity, step).1.Some?;
    OneMoreStep(capacity, run, step);
    if answered {
      UsedIsHeld(b, IdealAfter(run), capacity, step);
    }
    forall x: string | x != id
      ensures x in OthersSince(capacity, run + [step], m, id) <==>
              (answered && x == step.op.id) || (x in OthersSince(capacity, run, m, id) && x !in Gone(b, step))
    {
      UsedSinceInLonger(capacity, run, step, m, x);
      if UsedSince(capacity, run, m, x) && !(Uses(step.op, x) && answered) {
        HeldOneMore(capacity, run, b, m, id, step, x);
      }
    }
  }

  /** Right after its use a session is held, and nothing comes after it. */
  lemma {:induction false} HeldAfterUse(capacity: nat, run: Run, step: Step, id: string)
    requires capacity >= 1 && FreshIds(run + [step])
    requires Uses(step.op, id) && InMemoryAnswer(capacity, run, step).Some?
    ensures var c := InMemoryAfter(capacity, run + [step]);
            id in c.records && After(c.order, id) == {} && id in IdealAfter(run + [step])
  {
    OneMoreStep(capacity, run, step);
    InMemoryRunRefines(capacity, run + [step]);
    FreshPrefix(run, step);
    InMemoryRunRefines(capacity, run);
    var b := InMemoryAfter(capacity, run);
    var before := if step.op.Get? then b
      else if step.op.Create? then Evicted(b, capacity) else Evicted(Dropped(b, step.op.oldId), capacity);
    AfterAppend(Keep(before.order, {id}), id, id);
    assert InMemoryAfter(capacity, run + [step]).order == Keep(before.order, {id}) + [id];
  }

  /** A step that names a held session without using it ends it, here and in the ideal store. */
  lemma {:induction false} NamedIsEnded(b: Bounded, ideal: Records, capacity: nat, step: Step, id: string)
    requires WellFormed(b) && capacity >= 1 && PartOf(b.records, ideal) && id in b.records
    requires Names(step.op, id) && !Mints(step.op, id) && (step.op.Get? ==> InMemory(b, capacity, step).1.None?)
    ensures id !in Ideal(ideal, step).0
  {}

  lemma {:induction false} UnnamedStays(ideal: Records, step: Step, id: string)
    requires id in ideal && !Names(step.op, id)
    ensures id in Ideal(ideal, step).0
  {}

  lemma {:induction false} MintedNotHeld(capacity: nat, run: Run, b: Bounded, m: nat, id: string, step: Step)
    requires Tracked(capacity, run, b, m, id) && FreshIds(run + [step])
    ensures step.op.Create? || step.op.Rotate? ==> step.op.id !in b.records
  {
    MintedIsNew(run, step);
    assert step.op.Create? || step.op.Rotate? ==> Mints(step.op, step.op.id);
  }

  /** What one more step, from `b` to `c`, does to a session that is held. */
  lemma {:induction false} HeldOneStep(capacity: nat, run: Run, b: Bounded, c: Bounded, m: nat, id: string, step: Step)
    requires Tracked(capacity, run, b, m, id) && FreshIds(run + [step]) && !Names(step.op, id)
    requires c == InMemory(b, capacity, step).0 && WellFormed(c) && |c.order| <= capacity
    ensures id in c.records <==> |OthersSince(capacity, run + [step], m, id)| < capacity
    ensures id in c.records ==> After(c.order, id) == OthersSince(capacity, run + [step], m, id)
  {
    MintedNotHeld(capacity, run, b, m, id, step);
    AfterOneStep(b, capacity, step, id);
    OthersOneMore(capacity, run, b, m, id, step);
    if id in c.records {
      FewerAfter(c.order, id);
    }
  }

  lemma {:induction false} LastUseBefore(capacity: nat, run: Run, step: Step, m: nat, id: string)
    requires LastUse(capacity, run + [step], m, id) && m < |run|
    ensures LastUse(capacity, run, m, id) && !(Uses(step.op, id) && InMemoryAnswer(capacity, run, step).Some?)
    ensures Names(run[m].op, id)
  {
    UsesInLonger(capacity, run, step);
    UsedSinceInLonger(capacity, run, step, m, id);
    assert (run + [step])[m] == run[m];
  }

  /** The bounded store holds a session exactly when the ideal one does and there was always
      room since its last use. */
  lemma {:induction false} HeldExactly(capacity: nat, run: Run, m: nat, id: string)
    requires capacity >= 1 && FreshIds(run) && LastUse(capacity, run, m, id)
    ensures id in InMemoryAfter(capacity, run).records <==>
            id in IdealAfter(run) && AlwaysRoom(capacity, run, m, id)
    ensures id in InMemoryAfter(capacity, run).records ==>
              After(InMemoryAfter(capacity, run).order, id) == OthersSince(capacity, run, m, id)
    decreases |run|
  {
    var front, step := run[..|run| - 1], run[|run| - 1];
    assert run == front + [step];
    if m == |front| {
      HeldAfterUse(capacity, front, step, id);
      assert OthersSince(capacity, run, m, id) == {};
      assert run[..|run|] == run && AlwaysRoom(capacity, run, m, id);
    } else {
      LastUseBefore(capacity, front, step, m, id);
      FreshPrefix(front, step);
      HeldExactly(capacity, front, m, id);
      RoomInLonger(capacity, front, run, m, id);
      HeldLonger(capacity, front, step, m, id);
    }
  }

  ghost predicate StillHeld(capacity: nat, run: Run, m: nat, id: string) {
    id in IdealAfter(run) && |OthersSince(capacity, run, m, id)| < capacity
  }

  lemma {:induction false} HeldLonger(capacity: nat, run: Run, step: Step, m: nat, id: string)
    requires capacity >= 1 && FreshIds(run + [step]) && m < |run| && Names(run[m].op, id)
    requires !(Uses(step.op, id) && InMemoryAnswer(capacity, run, step).Some?)
    requires var b := InMemoryAfter(capacity, run);
             id in b.records ==> After(b.order, id) == OthersSince(capacity, run, m, id)
    ensures var b, c := InMemoryAfter(capacity, run), InMemoryAfter(capacity, run + [step]);
            && (id in IdealAfter(run + [step]) ==> id in IdealAfter(run))
            && (id in c.records ==> id in b.records && After(c.order, id) == OthersSince(capacity, run + [step], m, id))
            && (id in b.records ==> (id in c.records <==> StillHeld(capacity, run + [step], m, id)))
  {
    var b, c := InMemoryAfter(capacity, run), InMemoryAfter(capacity, run + [step]);
    FreshPrefix(run, step);
    OneMoreStep(capacity, run, step);
    InMemoryRunRefines(capacity, run);
    InMemoryRunRefines(capacity, run + [step]);
    assert !Mints(step.op, id);
    if id !in b.records {
      OnlyMintingAdds(b, capacity, step, id);
    } else if Names(step.op, id) {
      NamedIsEnded(b, IdealAfter(run), capacity, step, id);
    } else {
      UnnamedStays(IdealAfter(run), step, id);
      HeldOneStep(capacity, run, b, c, m, id, step);
    }
  }

  // ---------- answers ----------

  lemma {:induction false} UseWhenHeld(capacity: nat, run: Run, id: string) returns (m: nat)
    requires capacity >= 1 && FreshIds(run) && id in InMemoryAfter(capacity, run).records
    ensures LastUse(capacity, run, m, id)
    decreases |run|
  {
    var front, step := run[..|run| - 1], run[|run| - 1];
    assert run == front + [step];
    UsesInLonger(capacity, front, step);
    if Uses(step.op, id) && InMemoryAnswer(capacity, front, step).Some? {
      m := |front|;
    } else {
      FreshPrefix(front, step);
      InMemoryRunRefines(capacity, front);
      HeldBefore(InMemoryAfter(capacity, front), capacity, step, id);
      m := UseWhenHeld(capacity, front, id);
      UsedSinceInLonger(capacity, front, step, m, id);
    }
  }

  lemma {:induction false} HeldBefore(b: Bounded, capacity: nat, step: Step, id: string)
    requires WellFormed(b) && capacity >= 1 && id in InMemory(b, capacity, step).0.records
    requires !(Uses(step.op, id) && InMemory(b, capacity, step).1.Some?)
    ensures id in b.records
  {
    if !Mints(step.op, id) && id !in b.records {
      OnlyMintingAdds(b, capacity, step, id);
    }
  }

  lemma {:induction false} AnsweredExactlyWhenHeld(b: Bounded, ideal: Records, capacity: nat, step: Step, id: string)
    requires PartOf(b.records, ideal) && AsksFor(step.op, id) && Ideal(ideal, step).1.Some?
    ensures id in ideal && (InMemory(b, capacity, step).1 == Ideal(ideal, step).1 <==> id in b.records)
  {}

  /** To a lookup or a rotation the bounded store answers as one that never forgets, exactly
      unless that one has the session and there was once no room since its last use here. */
  lemma {:induction false} InMemoryAnswersExactly(capacity: nat, run: Run, step: Step, id: string)
    requires capacity >= 1 && FreshIds(run + [step]) && AsksFor(step.op, id)
    ensures InMemoryAnswer(capacity, run, step) == IdealAnswer(run, step) <==>
            || IdealAnswer(run, step).None?
            || exists m :: LastUse(capacity, run, m, id) && AlwaysRoom(capacity, run, m, id)
  {
    FreshPrefix(run, step);
    InMemoryRunRefines(capacity, run);
    if IdealAnswer(run, step).None? {
      InMemoryRefinesIdeal(capacity, run, step);
    } else {
      AnsweredExactlyWhenHeld(InMemoryAfter(capacity, run), IdealAfter(run), capacity, step, id);
      if id in InMemoryAfter(capacity, run).records {
        var m := UseWhenHeld(capacity, run, id);
        HeldExactly(capacity, run, m, id);
      }
      forall m: nat | LastUse(capacity, run, m, id) && AlwaysRoom(capacity, run, m, id)
        ensures id in InMemoryAfter(capacity, run).records
      {
        HeldExactly(capacity, run, m, id);
      }
    }
  }

  /** The other ids that steps after `m` mint or look up. */
  function UsedIds(run: Run, m: nat, id: string): set<Key> {
    set k | m < k < |run| && !run[k].op.Delete? && run[k].op.id != id :: run[k].op.id
  }

  lemma {:induction false} OthersWereUsed(capacity: nat, run: Run, n: nat, m: nat, id: string)
    requires n <= |run|
    ensures OthersSince(capacity, run[..n], m, id) <= UsedIds(run, m, id)
  {
    forall x | x in OthersSince(capacity, run[..n], m, id)
      ensures x in UsedIds(run, m, id)
    {
      var k :| m < k < n && UsedInMemory(capacity, run[..n], k, x);
      assert run[..n][k] == run[k];
    }
  }

  /** So a session is not forgotten while fewer others than there is room for are minted or
      looked up after its last use. */
  lemma {:induction false} RecentIsRemembered(capacity: nat, run: Run, step: Step, m: nat, id: string)
    requires capacity >= 1 && FreshIds(run + [step]) && AsksFor(step.op, id)
    requires LastUse(capacity, run, m, id) && |UsedIds(run, m, id)| < capacity
    ensures InMemoryAnswer(capacity, run, step) == IdealAnswer(run, step)
  {
    forall n | m < n <= |run|
      ensures RoomAt(capacity, run, m, id, n)
    {
      OthersWereUsed(capacity, run, n, m, id);
      SubsetSize(OthersSince(capacity, run[..n], m, id), UsedIds(run, m, id));
    }
    InMemoryAnswersExactly(capacity, run, step, id);
  }

  // ---------- how much room is enough ----------

  /** No more than `n` sessions are ever held by a store that never forgets. */
  ghost predicate AtMostHeld(run: Run, n: nat) {
    forall k :: 0 <= k <= |run| ==> |IdealAfter(run[..k]).Keys| <= n
  }

  /** On every such run every answer is the ideal one. */
  ghost predicate AlwaysAnswersAsIdeal(capacity: nat, n: nat) {
    forall run: Run, step: Step :: FreshIds(run + [step]) && AtMostHeld(run, n) ==>
      InMemoryAnswer(capacity, run, step) == IdealAnswer(run, step)
  }

  lemma {:induction false} StoredInFull(b: Bounded, capacity: nat, r: SessionRecord)
    requires WellFormed(b) && r.sessionId !in b.records && |b.records[r.sessionId := r].Keys| <= capacity
    ensures Stored(b, capacity, r).records == b.records[r.sessionId := r]
  {
    DistinctCount(b.order, b.records.Keys);
    assert b.records[r.sessionId := r].Keys == b.records.Keys + {r.sessionId};
  }

  lemma {:induction false} RotatedInFull(b: Bounded, capacity: nat, oldId: string, r: SessionRecord)
    requires WellFormed(b) && r.sessionId !in b.records
    requires |(b.records - {oldId})[r.sessionId := r].Keys| <= capacity
    ensures Stored(Dropped(b, oldId), capacity, r).records == (b.records - {oldId})[r.sessionId := r]
  {
    DroppedIsWellFormed(b, oldId);
    StoredInFull(Dropped(b, oldId), capacity, r);
  }

  lemma {:induction false} StepInFull(b: Bounded, capacity: nat, step: Step)
    requires WellFormed(b) && |Ideal(b.records, step).0.Keys| <= capacity
    requires forall id :: Mints(step.op, id) ==> id !in b.records
    ensures InMemory(b, capacity, step).0.records == Ideal(b.records, step).0
  {
    match step.op {
      case Create(id, identity, absolute) =>
        assert Mints(step.op, id);
        StoredInFull(b, capacity, Minted(id, identity, absolute, step.now));
      case Get(id, idle) =>
      case Delete(id) =>
      case Rotate(oldId, id, idle, absolute) =>
        assert Mints(step.op, id);
        if oldId in b.records && !b.records[oldId].IsExpired(idle, step.now) {
          RotatedInFull(b, capacity, oldId, Minted(id, b.records[oldId].identity, absolute, step.now));
        }
    }
  }

  /** With room for all that are held, the bounded store is the ideal one. */
  lemma {:induction false} NothingForgotten(capacity: nat, n: nat, run: Run)
    requires 1 <= n <= capacity && FreshIds(run) && AtMostHeld(run, n)
    ensures InMemoryAfter(capacity, run).records == IdealAfter(run)
    decreases |run|
  {
    if run != [] {
      var front, step := run[..|run| - 1], run[|run| - 1];
      assert run == front + [step];
      FreshPrefix(front, step);
      assert forall k :: 0 <= k <= |front| ==> run[..k] == front[..k];
      NothingForgotten(capacity, n, front);
      InMemoryRunRefines(capacity, front);
      MintedIsNew(front, step);
      assert run[..|run|] == run;
      OneMoreStep(capacity, front, step);
      StepInFull(InMemoryAfter(capacity, front), capacity, step);
    }
  }

  /** Sessions minted one after the other, for a second each. */
  function Minting(ids: seq<string>, identity: Identity): Run {
    seq(|ids|, i requires 0 <= i < |ids| => Step(0.0, Create(ids[i], identity, 1)))
  }

  lemma {:induction false} MintingHolds(ids: seq<string>, identity: Identity, k: nat)
    requires k <= |ids|
    ensures IdealAfter(Minting(ids, identity)[..k]).Keys == Elements(ids[..k])
    ensures forall x :: x in IdealAfter(Minting(ids, identity)[..k]) ==>
              IdealAfter(Minting(ids, identity)[..k])[x] == Minted(x, identity, 1, 0.0)
  {
    var run := Minting(ids, identity);
    if k == 0 {
      assert run[..0] == [] && ids[..0] == [];
    } else {
      MintingHolds(ids, identity, k - 1);
      assert run[..k] == run[..k - 1] + [run[k - 1]];
      OneMoreStep(1, run[..k - 1], run[k - 1]);
      assert ids[..k] == ids[..k - 1] + [ids[k - 1]];
    }
  }

  lemma {:induction false} MintingIsFresh(ids: seq<string>, identity: Identity, step: Step)
    requires Distinct(ids) && step.op.Get?
    ensures FreshIds(Minting(ids, identity) + [step])
  {
    var all := Minting(ids, identity) + [step];
    assert all[|ids|] == step;
  }

  lemma {:induction false} MintingHoldsAtMost(ids: seq<string>, identity: Identity, n: nat)
    requires |ids| <= n && Distinct(ids)
    ensures AtMostHeld(Minting(ids, identity), n)
  {
    forall k | 0 <= k <= |ids|
      ensures |IdealAfter(Minting(ids, identity)[..k]).Keys| <= n
    {
      MintingHolds(ids, identity, k);
      ElementsSize(ids[..k]);
    }
  }

  lemma {:induction false} MintingUses(capacity: nat, ids: seq<string>, identity: Identity, k: nat)
    requires k < |ids| && Distinct(ids)
    ensures UsedInMemory(capacity, Minting(ids, identity), k, ids[k])
    ensures k > 0 ==> !UsedInMemory(capacity, Minting(ids, identity), k, ids[0])
  {}

  lemma {:induction false} MintedAreOthers(capacity: nat, ids: seq<string>, identity: Identity)
    requires ids != [] && Distinct(ids)
    ensures var run := Minting(ids, identity);
            && LastUse(capacity, run, 0, ids[0])
            && forall k :: 0 < k < |ids| ==> ids[k] in OthersSince(capacity, run, 0, ids[0])
  {
    var run := Minting(ids, identity);
    MintingHolds(ids, identity, |ids|);
    assert run[..|run|] == run && ids[..|ids|] == ids;
    forall k | 0 <= k < |ids|
      ensures UsedInMemory(capacity, run, k, ids[k])
      ensures k > 0 ==> !UsedInMemory(capacity, run, k, ids[0])
    {
      MintingUses(capacity, ids, identity, k);
    }
  }

  lemma {:induction false} FirstIsHeld(ids: seq<string>, identity: Identity)
    requires ids != []
    ensures IdealAnswer(Minting(ids, identity), Step(0.0, Get(ids[0], 0))).Some?
  {
    MintingHolds(ids, identity, |ids|);
    assert Minting(ids, identity)[..|ids|] == Minting(ids, identity) && ids[..|ids|] == ids;
  }

  /** Minting one session more than there is room for loses the first. */
  lemma {:induction false} FirstIsForgotten(capacity: nat, ids: seq<string>, identity: Identity)
    requires capacity >= 1 && Distinct(ids) && |ids| == capacity + 1
    ensures var run, step := Minting(ids, identity), Step(0.0, Get(ids[0], 0));
            FreshIds(run + [step]) && InMemoryAnswer(capacity, run, step).None? && IdealAnswer(run, step).Some?
  {
    var run, step := Minting(ids, identity), Step(0.0, Get(ids[0], 0));
    MintingIsFresh(ids, identity, step);
    FirstIsHeld(ids, identity);
    MintedAreOthers(capacity, ids, identity);
    ManyOthers(capacity, run, ids);
    FreshPrefix(run, step);
    HeldExactly(capacity, run, 0, ids[0]);
  }

  lemma {:induction false} ManyOthers(capacity: nat, run: Run, ids: seq<string>)
    requires Distinct(ids) && |ids| == capacity + 1 == |run|
    requires forall k :: 0 < k < |ids| ==> ids[k] in OthersSince(capacity, run, 0, ids[0])
    ensures !AlwaysRoom(capacity, run, 0, ids[0])
  {
    assert Distinct(ids[1..]);
    ElementsSize(ids[1..]);
    SubsetSize(Elements(ids[1..]), OthersSince(capacity, run, 0, ids[0]));
    assert run[..|run|] == run;
    assert !RoomAt(capacity, run, 0, ids[0], |run|);
  }

  lemma {:induction false} DistinctIds(n: nat) returns (ids: seq<string>)
    ensures |ids| == n && Distinct(ids) && forall i :: 0 <= i < n ==> |ids[i]| == i
  {
    ids := [];
    if n > 0 {
      ids := DistinctIds(n - 1);
      ids := ids + [seq(n - 1, i => 'a')];
    }
  }

  lemma {:induction false} EnoughRoom(capacity: nat, run: Run, step: Step)
    requires capacity >= 1 && FreshIds(run + [step]) && AtMostHeld(run, capacity)
    ensures InMemoryAnswer(capacity, run, step) == IdealAnswer(run, step)
  {
    FreshPrefix(run, step);
    NothingForgotten(capacity, capacity, run);
  }

  lemma {:induction false} TooLittleRoom(capacity: nat, n: nat)
    requires capacity >= 1 && n > capacity
    ensures !AlwaysAnswersAsIdeal(capacity, n)
  {
    var ids := DistinctIds(capacity + 1);
    var identity := Identity("", "", 0.0, "", None, None);
    FirstIsForgotten(capacity, ids, identity);
    MintingHoldsAtMost(ids, identity, n);
  }

  /** The bounded store answers like one that never forgets on every run in which no more than
      `n` sessions are held at a time, if and only if its capacity is at least `n`. */
  lemma {:induction false} EnoughRoomExactly(capacity: nat, n: nat)
    requires capacity >= 1
    ensures AlwaysAnswersAsIdeal(capacity, n) <==> n <= capacity
  {
    if n <= capacity {
      forall run: Run, step: Step | FreshIds(run + [step]) && AtMostHeld(run, n)
        ensures InMemoryAnswer(capacity, run, step) == IdealAnswer(run, step)
      {
        EnoughRoom(capacity, run, step);
      }
    } else {
      TooLittleRoom(capacity, n);
    }
  }
}
