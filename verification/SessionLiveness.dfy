/**
 When a session lives, told by the run alone (maskguard/api/auth/session.py,
 maskguard/api/auth/models.py): it was minted, nothing ended it, and every time it was asked
 for, that came soon enough after the use before.
 */
module SessionLiveness {
  import opened SessionRuns
  import opened Sessions

  // ---------- what it is to live ----------

  /** When a session that this step mints ends at the latest. */
  function Limit(step: Step): real {
    match step.op
    case Create(_, _, absolute) => step.now + absolute as real
    case Rotate(_, _, _, absolute) => step.now + absolute as real
    case _ => step.now
  }

  /** Step `j`, in the life of the session minted at `i`, is a use of it: minting or looking up. */
  predicate UseOf(run: Run, i: nat, j: nat, id: string) {
    j < |run| && (j == i || (j > i && run[j].op.Get? && run[j].op.id == id))
  }

  /** The time `now` comes within the idle timeout of a use that was made before step `n`. */
  ghost predicate InTime(run: Run, i: nat, n: nat, id: string, idle: int, now: real) {
    exists j :: i <= j < n && UseOf(run, i, j, id) && now - run[j].now <= idle as real
  }

  /** Step `k` deletes the session or rotates it away. */
  predicate Ends(op: Operation, id: string) { (op.Delete? && op.id == id) || (op.Rotate? && op.oldId == id) }

  /** The lookup comes in time, if it is one of this session. */
  ghost predicate LookedUpInTime(run: Run, i: nat, k: nat, id: string)
    requires i < |run| && k < |run|
  {
    run[k].op.Get? && run[k].op.id == id ==>
      InTime(run, i, k, id, run[k].op.idleTimeout, run[k].now) && run[k].now <= Limit(run[i])
  }

  /** Between `i` and `n` nothing ends the session, and each lookup of it comes in time. */
  ghost predicate Undisturbed(run: Run, i: nat, n: nat, id: string) {
    && i < n <= |run|
    && (forall k :: i < k < n ==> !Ends(run[k].op, id))
    && (forall k :: i < k < n ==> LookedUpInTime(run, i, k, id))
  }

  /** Step `i` mints the session: a login, or the rotation of a session that lives. */
  ghost predicate MintsAt(run: Run, i: nat, id: string) {
    i < |run| &&
    match run[i].op
    case Create(x, _, _) => x == id
    case Rotate(other, x, idle, _) =>
      x == id && exists m :: 0 <= m < i && MintsAt(run, m, other) && LivesFrom(run, m, i, other, idle, run[i].now)
    case _ => false
  }

  /** The session, minted at `i`, lives when it is asked for at `now`, after `n` steps. */
  ghost predicate LivesFrom(run: Run, i: nat, n: nat, id: string, idle: int, now: real) {
    Undisturbed(run, i, n, id) && InTime(run, i, n, id, idle, now) && now <= Limit(run[i])
  }

  ghost predicate LivesAt(run: Run, n: nat, id: string, idle: int, now: real) {
    exists i :: 0 <= i < n && MintsAt(run, i, id) && LivesFrom(run, i, n, id, idle, now)
  }

  // ---------- the ideal store after `n` steps ----------

  /** The record of a session minted at `i`, after `n` steps. */
  ghost predicate Recorded(run: Run, i: nat, n: nat, id: string, r: SessionRecord)
    requires i < |run|
  {
    && r.sessionId == id && r.createdAt == run[i].now && r.absoluteExpiresAt == Limit(run[i])
    && (exists j :: i <= j < n && UseOf(run, i, j, id) && r.lastSeenAt == run[j].now)
    && (forall j :: i <= j < n && UseOf(run, i, j, id) ==> run[j].now <= r.lastSeenAt)
  }

  ghost predicate Lived(run: Run, i: nat, n: nat, id: string) { MintsAt(run, i, id) && Undisturbed(run, i, n, id) }

  ghost predicate Tracks(run: Run, n: nat, id: string, held: Records) {
    && (id in held ==> exists i :: 0 <= i < n && Lived(run, i, n, id))
    && (forall i :: 0 <= i < n && Lived(run, i, n, id) ==> id in held && Recorded(run, i, n, id, held[id]))
  }

  /** Then the store finds the session exactly when it lives. */
  lemma {:induction false} FoundExactly(run: Run, n: nat, id: string, held: Records, idle: int, now: real)
    requires Tracks(run, n, id, held)
    ensures id in held && !held[id].IsExpired(idle, now) <==> LivesAt(run, n, id, idle, now)
  {
    if id in held {
      var i :| 0 <= i < n && Lived(run, i, n, id);
      assert id in held && !held[id].IsExpired(idle, now) ==> LivesFrom(run, i, n, id, idle, now);
    }
    if LivesAt(run, n, id, idle, now) {
      var i :| 0 <= i < n && MintsAt(run, i, id) && LivesFrom(run, i, n, id, idle, now);
      assert Lived(run, i, n, id);
    }
  }

  lemma {:induction false} UndisturbedOneMore(run: Run, i: nat, n: nat, id: string)
    requires i < n < |run|
    ensures Undisturbed(run, i, n + 1, id) <==>
            Undisturbed(run, i, n, id) && !Ends(run[n].op, id) && LookedUpInTime(run, i, n, id)
  {}

  lemma {:induction false} RecordedOneMore(run: Run, i: nat, n: nat, id: string, r: SessionRecord)
    requires i < n < |run| && Recorded(run, i, n, id, r) && !(run[n].op.Get? && run[n].op.id == id)
    ensures Recorded(run, i, n + 1, id, r)
  {
    var j :| i <= j < n && UseOf(run, i, j, id) && r.lastSeenAt == run[j].now;
    assert i <= j < n + 1 && !UseOf(run, i, n, id);
  }

  /** A lookup that finds it. */
  lemma {:induction false} RecordedByLookup(run: Run, i: nat, n: nat, id: string, r: SessionRecord)
    requires i < n < |run| && Chronological(run) && Recorded(run, i, n, id, r)
    requires run[n].op.Get? && run[n].op.id == id
    ensures Recorded(run, i, n + 1, id, r.(lastSeenAt := run[n].now))
    ensures !r.IsExpired(run[n].op.idleTimeout, run[n].now) <==> LookedUpInTime(run, i, n, id)
  {
    assert UseOf(run, i, n, id);
  }

  ghost predicate HeldAsRecorded(run: Run, i: nat, n: nat, id: string, held: Records) {
    i < |run| && id in held && Recorded(run, i, n, id, held[id])
  }

  /** A step that does not concern the session. */
  lemma {:induction false} TracksBystander(run: Run, n: nat, next: nat, id: string, held: Records, after: Records)
    requires n < |run| && next == n + 1 && Tracks(run, n, id, held) && !MintsAt(run, n, id) && !Ends(run[n].op, id)
    requires !(run[n].op.Get? && run[n].op.id == id)
    requires id in held <==> id in after
    requires id in held ==> after[id] == held[id]
    ensures Tracks(run, next, id, after)
  {
    forall i | 0 <= i < next && Lived(run, i, next, id)
      ensures HeldAsRecorded(run, i, next, id, after)
    {
      UndisturbedOneMore(run, i, n, id);
      assert Lived(run, i, n, id);
      RecordedOneMore(run, i, n, id, held[id]);
    }
    if id in held {
      var i :| 0 <= i < n && Lived(run, i, n, id);
      UndisturbedOneMore(run, i, n, id);
      assert Lived(run, i, next, id);
    }
  }

  /** A step that ends it. */
  lemma {:induction false} TracksEnded(run: Run, n: nat, next: nat, id: string, held: Records, after: Records)
    requires n < |run| && next == n + 1 && Tracks(run, n, id, held) && !MintsAt(run, n, id)
    requires Ends(run[n].op, id) && id !in after
    ensures Tracks(run, next, id, after)
  {
    forall i | 0 <= i < next
      ensures !Lived(run, i, next, id)
    {
      if i < n {
        UndisturbedOneMore(run, i, n, id);
      }
    }
  }

  /** A lookup. */
  lemma {:induction false} TracksLookup(run: Run, n: nat, next: nat, id: string, held: Records, after: Records)
    requires n < |run| && next == n + 1 && Chronological(run) && Tracks(run, n, id, held)
    requires run[n].op.Get? && run[n].op.id == id
    requires after == Looked(held, id, run[n].op.idleTimeout, run[n].now).0
    ensures Tracks(run, next, id, after)
  {
    forall i | 0 <= i < next && Lived(run, i, next, id)
      ensures HeldAsRecorded(run, i, next, id, after)
    {
      assert i != n;
      UndisturbedOneMore(run, i, n, id);
      assert Lived(run, i, n, id);
      RecordedByLookup(run, i, n, id, held[id]);
    }
    if id in after {
      var i :| 0 <= i < n && Lived(run, i, n, id);
      UndisturbedOneMore(run, i, n, id);
      RecordedByLookup(run, i, n, id, held[id]);
      assert Lived(run, i, next, id);
    }
  }

  /** A step that mints it. */
  lemma {:induction false} TracksMinted(run: Run, n: nat, next: nat, id: string, after: Records)
    requires n < |run| && next == n + 1 && MintsAt(run, n, id) && !Ends(run[n].op, id)
    requires forall i :: 0 <= i < n ==> !MintsAt(run, i, id)
    requires id in after && Recorded(run, n, n + 1, id, after[id])
    ensures Tracks(run, next, id, after)
  {
    assert Lived(run, n, next, id);
  }

  // ---------- over the whole run ----------

  lemma {:induction false} MintedOnce(run: Run, i: nat, n: nat, id: string)
    requires FreshIds(run) && i < n < |run| && Mints(run[n].op, id)
    ensures !MintsAt(run, i, id) && !Names(run[i].op, id)
  {}

  /** What a step does to a session that it neither uses nor ends. */
  lemma {:induction false} BystanderKept(held: Records, step: Step, id: string)
    requires !Ends(step.op, id) && !(step.op.Get? && step.op.id == id)
    requires Mints(step.op, id) ==> Ideal(held, step).1.None?
    ensures id in held <==> id in Ideal(held, step).0
    ensures id in held ==> Ideal(held, step).0[id] == held[id]
  {}

  lemma {:induction false} EndedGone(held: Records, step: Step, id: string)
    requires Ends(step.op, id) && !(Mints(step.op, id) && Ideal(held, step).1.Some?)
    ensures id !in Ideal(held, step).0
  {}

  /** A rotation mints exactly when the session that it rotates lives. */
  lemma {:induction false} MintsExactly(run: Run, n: nat, id: string, held: Records)
    requires n < |run| && Mints(run[n].op, id) && (run[n].op.Rotate? ==> Tracks(run, n, run[n].op.oldId, held))
    ensures Ideal(held, run[n]).1.Some? <==> MintsAt(run, n, id)
  {
    if run[n].op.Rotate? {
      FoundExactly(run, n, run[n].op.oldId, held, run[n].op.idleTimeout, run[n].now);
    }
  }

  lemma {:induction false} MintedRecord(run: Run, n: nat, next: nat, id: string, held: Records)
    requires n < |run| && next == n + 1 && Mints(run[n].op, id) && Ideal(held, run[n]).1.Some?
    ensures id in Ideal(held, run[n]).0 && Recorded(run, n, next, id, Ideal(held, run[n]).0[id])
  {
    assert UseOf(run, n, n, id);
  }

  /** A session that no step before `n` names is not held. */
  lemma {:induction false} UnnamedNotHeld(run: Run, n: nat, id: string, held: Records)
    requires FreshIds(run) && n < |run| && Mints(run[n].op, id) && Tracks(run, n, id, held)
    ensures id !in held
  {
    if id in held {
      var i :| 0 <= i < n && Lived(run, i, n, id);
      MintedOnce(run, i, n, id);
    }
  }

  lemma {:induction false} TracksOneMore(run: Run, n: nat, next: nat, id: string, held: Records)
    requires FreshIds(run) && Chronological(run) && n < |run| && next == n + 1
    requires forall x: string :: Tracks(run, n, x, held)
    ensures Tracks(run, next, id, Ideal(held, run[n]).0)
  {
    var step := run[n];
    assert Tracks(run, n, id, held);
    if Mints(step.op, id) {
      assert step.op.Rotate? ==> Tracks(run, n, step.op.oldId, held);
      MintsExactly(run, n, id, held);
      UnnamedNotHeld(run, n, id, held);
    }
    if Mints(step.op, id) && Ideal(held, step).1.Some? {
      MintedRecord(run, n, next, id, held);
      forall i | 0 <= i < n
        ensures !MintsAt(run, i, id)
      {
        MintedOnce(run, i, n, id);
      }
      TracksMinted(run, n, next, id, Ideal(held, step).0);
    } else if Ends(step.op, id) {
      EndedGone(held, step, id);
      TracksEnded(run, n, next, id, held, Ideal(held, step).0);
    } else if step.op.Get? && step.op.id == id {
      TracksLookup(run, n, next, id, held, Ideal(held, step).0);
    } else {
      BystanderKept(held, step, id);
      TracksBystander(run, n, next, id, held, Ideal(held, step).0);
    }
  }

  lemma {:induction false} TracksAlways(run: Run, n: nat)
    requires FreshIds(run) && Chronological(run) && n <= |run|
    ensures forall id: string :: Tracks(run, n, id, IdealAfter(run[..n]))
  {
    if n > 0 {
      TracksAlways(run, n - 1);
      assert run[..n] == run[..n - 1] + [run[n - 1]];
      OneMoreStep(1, run[..n - 1], run[n - 1]);
      forall id: string
        ensures Tracks(run, n, id, IdealAfter(run[..n]))
      {
        TracksOneMore(run, n - 1, n, id, IdealAfter(run[..n - 1]));
      }
    }
  }

  /** A lookup or a rotation is answered by the store that never forgets if and only if the
      session lives: it was minted and not ended, it is within its absolute limit, and this
      and every lookup before came within its idle timeout of the use before it. */
  lemma {:induction false} AnsweredExactly(run: Run, step: Step, id: string)
    requires FreshIds(run) && Chronological(run + [step]) && AsksFor(step.op, id)
    ensures IdealAnswer(run, step).Some? <==> LivesAt(run, |run|, id, step.op.idleTimeout, step.now)
  {
    ChronologicalPrefix(run, step);
    TracksAlways(run, |run|);
    assert run[..|run|] == run;
    FoundExactly(run, |run|, id, IdealAfter(run), step.op.idleTimeout, step.now);
  }

  /** And a lookup returns the record of that minting, seen just now. */
  lemma {:induction false} LookupReturns(run: Run, now: real, id: string, idle: int) returns (i: nat)
    requires FreshIds(run) && Chronological(run) && IdealAnswer(run, Step(now, Get(id, idle))).Some?
    ensures i < |run| && MintsAt(run, i, id) && LivesFrom(run, i, |run|, id, idle, now)
    ensures var r := IdealAnswer(run, Step(now, Get(id, idle))).value;
            r == SessionRecord(id, r.identity, run[i].now, now, Limit(run[i]))
  {
    TracksAlways(run, |run|);
    assert run[..|run|] == run;
    var held := IdealAfter(run);
    assert Tracks(run, |run|, id, held);
    FoundExactly(run, |run|, id, held, idle, now);
    i :| 0 <= i < |run| && MintsAt(run, i, id) && LivesFrom(run, i, |run|, id, idle, now);
    assert Lived(run, i, |run|, id);
  }
}
