/**
 Why a session lookup may succeed (maskguard/api/auth/session.py): every record the ideal
 store holds, hence every one the real stores return, is accounted for by the run.
 */
module SessionHistory {
  import opened Models
  import opened Sessions
  import opened SessionRuns

  function AnswerAt(run: Run, i: nat): Answer
    requires i < |run|
  {
    IdealAnswer(run[..i], run[i])
  }

  /** Step `i` mints the session `id`, which will end at `absolute` at the latest. */
  ghost predicate MintedAt(run: Run, i: nat, id: string, absolute: real) {
    && i < |run| && Mints(run[i].op, id) && AnswerAt(run, i).Some?
    && absolute == run[i].now + run[i].op.absoluteTimeout as real
  }

  /** Step `m` shows that the session is in use: it mints it or looks it up successfully. */
  ghost predicate UsedAt(run: Run, m: nat, id: string) {
    m < |run| && (Mints(run[m].op, id) || (run[m].op.Get? && run[m].op.id == id)) && AnswerAt(run, m).Some?
  }

  /** Step `k` ends the session: logout, rotation away, or a lookup that finds it expired. */
  ghost predicate EndedAt(run: Run, k: nat, id: string) {
    && k < |run|
    && match run[k].op
       case Create(_, _, _) => false
       case Get(x, _) => x == id && AnswerAt(run, k).None?
       case Delete(x) => x == id
       case Rotate(oldId, _, _, _) => oldId == id
  }

  ghost predicate NotEndedSince(run: Run, i: nat, id: string) { forall k :: i < k < |run| ==> !EndedAt(run, k, id) }

  /** The record was minted at `i`, was last used at `m`, and nothing ended it since. */
  ghost predicate Accounted(run: Run, id: string, r: SessionRecord, i: nat, m: nat) {
    && i <= m < |run|
    && MintedAt(run, i, id, r.absoluteExpiresAt) && AnswerAt(run, i).value.identity == r.identity
    && UsedAt(run, m, id) && r.lastSeenAt == run[m].now
    && NotEndedSince(run, i, id)
    && r.sessionId == id
  }

  lemma {:induction false} AnswersInLonger(run: Run, step: Step)
    ensures forall i :: 0 <= i < |run| ==> AnswerAt(run + [step], i) == AnswerAt(run, i)
    ensures AnswerAt(run + [step], |run|) == IdealAnswer(run, step)
  {
    var all := run + [step];
    assert all[..|run|] == run && all[|run|] == step;
    forall i | 0 <= i < |run|
      ensures AnswerAt(all, i) == AnswerAt(run, i)
    {
      assert all[..i] == run[..i] && all[i] == run[i];
    }
  }

  /** An earlier account stays good when a step neither touches nor ends the session. */
  lemma {:induction false} StillAccounted(run: Run, step: Step, id: string, r: SessionRecord, i: nat, m: nat)
    requires Accounted(run, id, r, i, m) && !EndedAt(run + [step], |run|, id)
    ensures Accounted(run + [step], id, r, i, m)
  {
    AnswersInLonger(run, step);
    var all := run + [step];
    forall k | i < k < |all|
      ensures !EndedAt(all, k, id)
    {
      if k < |run| {
        assert all[k] == run[k] && !EndedAt(run, k, id);
      }
    }
  }

  lemma {:induction false} AccountedByLookup(run: Run, step: Step, id: string, r: SessionRecord, i: nat, m: nat)
    requires Accounted(run, id, r, i, m) && !EndedAt(run + [step], |run|, id)
    requires step.op.Get? && step.op.id == id && IdealAnswer(run, step).Some?
    ensures Accounted(run + [step], id, r.(lastSeenAt := step.now), i, |run|)
  {
    StillAccounted(run, step, id, r, i, m);
    AnswersInLonger(run, step);
  }

  lemma {:induction false} AccountedByMinting(run: Run, step: Step, id: string)
    requires Mints(step.op, id) && IdealAnswer(run, step).Some?
    ensures id in IdealAfter(run + [step])
    ensures Accounted(run + [step], id, IdealAfter(run + [step])[id], |run|, |run|)
  {
    AnswersInLonger(run, step);
    OneMoreStep(1, run, step);
  }

  /** Every record of the ideal store is accounted for. */
  lemma {:induction false} EveryRecordAccounted(run: Run, id: string) returns (i: nat, m: nat)
    requires id in IdealAfter(run)
    ensures Accounted(run, id, IdealAfter(run)[id], i, m)
    decreases |run|
  {
    var front, step := run[..|run| - 1], run[|run| - 1];
    assert run == front + [step];
    if Mints(step.op, id) && IdealAnswer(front, step).Some? {
      AccountedByMinting(front, step, id);
      i, m := |front|, |front|;
    } else {
      RecordBefore(front, step, id);
      i, m := EveryRecordAccounted(front, id);
      if step.op.Get? && step.op.id == id {
        AccountedByLookup(front, step, id, IdealAfter(front)[id], i, m);
        m := |front|;
      } else {
        StillAccounted(front, step, id, IdealAfter(front)[id], i, m);
      }
    }
  }

  /** A record that the last step did not mint was there before, and the step did not end it. */
  lemma {:induction false} RecordBefore(run: Run, step: Step, id: string)
    requires id in IdealAfter(run + [step]) && !(Mints(step.op, id) && IdealAnswer(run, step).Some?)
    ensures id in IdealAfter(run) && !EndedAt(run + [step], |run|, id)
    ensures if step.op.Get? && step.op.id == id
            then IdealAnswer(run, step).Some? &&
              IdealAfter(run + [step])[id] == IdealAfter(run)[id].(lastSeenAt := step.now)
            else IdealAfter(run + [step])[id] == IdealAfter(run)[id]
  {
    OneMoreStep(1, run, step);
    AnswersInLonger(run, step);
  }

  /** A successful lookup: the session was minted, with this identity and this absolute
      expiry, is within both of its limits, and has not ended since. */
  lemma {:induction false} LookupIsJustified(run: Run, now: real, id: string, idle: int) returns (i: nat, m: nat)
    requires IdealAnswer(run, Step(now, Get(id, idle))).Some?
    ensures var r := IdealAnswer(run, Step(now, Get(id, idle))).value;
            && MintedAt(run, i, id, r.absoluteExpiresAt) && AnswerAt(run, i).value.identity == r.identity
            && now <= run[i].now + run[i].op.absoluteTimeout as real
            && UsedAt(run, m, id) && i <= m && now - run[m].now <= idle as real
            && NotEndedSince(run, i, id)
  {
    i, m := EveryRecordAccounted(run, id);
  }

  /** A session that has ended is never returned again. */
  lemma {:induction false} EndedStaysEnded(run: Run, i: nat, k: nat, id: string, absolute: real, now: real, idle: int)
    requires FreshIds(run) && MintedAt(run, i, id, absolute) && i < k && EndedAt(run, k, id)
    ensures IdealAnswer(run, Step(now, Get(id, idle))).None?
  {
    if IdealAnswer(run, Step(now, Get(id, idle))).Some? {
      var i', m := LookupIsJustified(run, now, id, idle);
      assert EndedAt(run, k, id) && i' >= k;
      assert Mints(run[i'].op, id) && Names(run[i].op, id);
    }
  }

  /** Nor do the real stores return it. */
  lemma {:induction false} EndedEverywhere(capacity: nat, run: Run, i: nat, k: nat, id: string, absolute: real,
        now: real, idle: int)
    requires capacity >= 1 && FreshIds(run) && Chronological(run + [Step(now, Get(id, idle))])
    requires MintedAt(run, i, id, absolute) && i < k && EndedAt(run, k, id)
    ensures InMemoryAnswer(capacity, run, Step(now, Get(id, idle))).None?
    ensures RedisAnswer(run, Step(now, Get(id, idle))).None?
  {
    var step := Step(now, Get(id, idle));
    EndedStaysEnded(run, i, k, id, absolute, now, idle);
    FreshBeforeLookup(run, step);
    InMemoryRefinesIdeal(capacity, run, step);
    RedisRefinesIdeal(run, step);
  }

  lemma {:induction false} FreshBeforeLookup(run: Run, step: Step)
    requires FreshIds(run) && step.op.Get?
    ensures FreshIds(run + [step])
  {
    var all := run + [step];
    assert all[|run|] == step;
    assert forall i :: 0 <= i < |run| ==> all[i] == run[i];
  }

  // ---------- what a store has lost stays lost ----------

  /** An id that was used before and is no longer in the bounded store never comes back. */
  lemma {:induction false} EvictedStaysGone(capacity: nat, run: Run, more: Run, id: string)
    requires capacity >= 1 && FreshIds(run + more)
    requires (exists i :: 0 <= i < |run| && Names(run[i].op, id)) && id !in InMemoryAfter(capacity, run).records
    ensures id !in InMemoryAfter(capacity, run + more).records
    decreases |more|
  {
    if more == [] {
      assert run + more == run;
    } else {
      var front, step := more[..|more| - 1], more[|more| - 1];
      var so := run + front;
      assert run + more == so + [step];
      FreshPrefix(so, step);
      EvictedStaysGone(capacity, run, front, id);
      var i :| 0 <= i < |run| && Names(run[i].op, id);
      assert so[i] == run[i] && !Mints(step.op, id);
      OneMoreStep(capacity, so, step);
      InMemoryRunRefines(capacity, so);
      OnlyMintingAdds(InMemoryAfter(capacity, so), capacity, step, id);
    }
  }

  lemma {:induction false} OnlyMintingAdds(b: Bounded, capacity: nat, step: Step, id: string)
    requires WellFormed(b) && capacity >= 1 && id !in b.records && !Mints(step.op, id)
    ensures id !in InMemory(b, capacity, step).0.records
  {
    match step.op {
      case Create(x, identity, absolute) =>
        EvictedIsWellFormed(b, capacity);
      case Get(x, idle) =>
      case Delete(x) =>
      case Rotate(oldId, x, idle, absolute) =>
        DroppedIsWellFormed(b, oldId);
        EvictedIsWellFormed(Dropped(b, oldId), capacity);
    }
  }

  // ---------- the time to live in Redis ----------

  /** No key outlives the absolute expiry of its session. */
  ghost predicate WithinLifetime(db: Db) {
    forall id :: id in db ==> db[id].expiresAt <= db[id].record.absoluteExpiresAt
  }

  /** The key never outlives the session exactly when sessions are minted for at least a second. */
  lemma {:induction false} KeyNeverOutlivesSession(db: Db, step: Step)
    requires WithinLifetime(db)
    requires step.op.Create? || (step.op.Rotate? && Redis(db, step).1.Some?)
    ensures WithinLifetime(Redis(db, step).0) <==> step.op.absoluteTimeout >= 1
  {
    var after := Redis(db, step).0;
    assert after[step.op.id].expiresAt == step.now + Max(1, step.op.absoluteTimeout) as real;
  }

  lemma {:induction false} LookupKeepsKeyBounded(db: Db, id: string, idle: int, now: real)
    requires WithinLifetime(db)
    ensures WithinLifetime(RedisLooked(db, id, idle, now).0)
  {}

  /** Step `i` of the run mints a session in the Redis store. */
  ghost predicate MintsInRedis(run: Run, i: nat) {
    i < |run| && (run[i].op.Create? || (run[i].op.Rotate? && RedisAnswer(run[..i], run[i]).Some?))
  }

  lemma {:induction false} LifetimeOneMore(db: Db, step: Step)
    requires WithinLifetime(db)
    ensures WithinLifetime(Redis(db, step).0) <==>
            (step.op.Create? || (step.op.Rotate? && Redis(db, step).1.Some?) ==> step.op.absoluteTimeout >= 1)
  {
    if step.op.Create? || (step.op.Rotate? && Redis(db, step).1.Some?) {
      KeyNeverOutlivesSession(db, step);
    } else if step.op.Get? {
      LookupKeepsKeyBounded(db, step.op.id, step.op.idleTimeout, step.now);
    } else if step.op.Rotate? {
      LookupKeepsKeyBounded(db, step.op.oldId, step.op.idleTimeout, step.now);
    }
  }

  lemma {:induction false} LifetimeAtStep(run: Run, n: nat)
    requires n < |run| && WithinLifetime(RedisAfter(run[..n]))
    ensures WithinLifetime(RedisAfter(run[..n + 1])) <==> (MintsInRedis(run, n) ==> run[n].op.absoluteTimeout >= 1)
  {
    assert run[..n + 1] == run[..n] + [run[n]];
    OneMoreStep(1, run[..n], run[n]);
    LifetimeOneMore(RedisAfter(run[..n]), run[n]);
  }

  /** No key outlives its session at any point of the run. */
  ghost predicate AlwaysWithinLifetime(run: Run) {
    forall n :: 0 <= n <= |run| ==> WithinLifetime(RedisAfter(run[..n]))
  }

  /** Whatever the run mints, it mints for at least a second. */
  ghost predicate MintsForASecond(run: Run) {
    forall i :: 0 <= i < |run| && MintsInRedis(run, i) ==> run[i].op.absoluteTimeout >= 1
  }

  lemma {:induction false} LifetimeUpTo(run: Run, n: nat)
    requires MintsForASecond(run) && n <= |run|
    ensures WithinLifetime(RedisAfter(run[..n]))
    decreases n
  {
    if n == 0 {
      assert run[..0] == [];
    } else {
      LifetimeUpTo(run, n - 1);
      LifetimeAtStep(run, n - 1);
    }
  }

  /** Throughout a run no key outlives its session, exactly when everything the run mints is
      minted for at least a second. */
  lemma {:induction false} KeysNeverOutliveSessions(run: Run)
    ensures AlwaysWithinLifetime(run) <==> MintsForASecond(run)
  {
    if AlwaysWithinLifetime(run) {
      forall i | 0 <= i < |run| && MintsInRedis(run, i)
        ensures run[i].op.absoluteTimeout >= 1
      {
        LifetimeAtStep(run, i);
      }
    }
    if MintsForASecond(run) {
      forall n | 0 <= n <= |run|
        ensures WithinLifetime(RedisAfter(run[..n]))
      {
        LifetimeUpTo(run, n);
      }
    }
  }
}
