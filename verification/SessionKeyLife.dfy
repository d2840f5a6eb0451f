/**
 When the Redis session store answers nothing although the session lives
 (maskguard/api/auth/session.py): a lookup sets the key's time to live in whole seconds,
 rounded down, and does not set it at all when less than a second is left.
 */
module SessionKeyLife {
  import opened Models
  import opened SessionHistory
  import opened SessionRuns
  import opened Sessions

  /** The seconds for which step `w`, a use of a session, sets its key. */
  function TimeToLive(run: Run, w: nat): int
    requires w < |run| && AnswerAt(run, w).Some?
  {
    match run[w].op
    case Get(_, idle) =>
      var left := AnswerAt(run, w).value.absoluteExpiresAt - run[w].now;
      Truncated(if idle as real <= left then idle as real else left)
    case Create(_, _, absolute) => Max(1, absolute)
    case Rotate(_, _, _, absolute) => Max(1, absolute)
    case Delete(_) => 0
  }

  /** Step `w` is a use of the session and sets its key. */
  ghost predicate Renews(run: Run, w: nat, id: string) { UsedAt(run, w, id) && TimeToLive(run, w) > 0 }

  ghost predicate LastRenewal(run: Run, w: nat, id: string) {
    Renews(run, w, id) && forall k :: w < k < |run| ==> !Renews(run, k, id)
  }

  function KeyExpiry(run: Run, w: nat): real
    requires w < |run| && AnswerAt(run, w).Some?
  {
    run[w].now + TimeToLive(run, w) as real
  }

  /** So far the Redis store has answered every use of the session. */
  ghost predicate KeptUp(run: Run, id: string) {
    forall k :: 0 <= k < |run| && UsedAt(run, k, id) ==> RedisAnswer(run[..k], run[k]).Some?
  }

  // ---------- one step more ----------

  lemma {:induction false} UsesInLonger(run: Run, step: Step, id: string)
    ensures forall k :: 0 <= k < |run| ==> UsedAt(run + [step], k, id) == UsedAt(run, k, id)
    ensures forall k :: 0 <= k < |run| ==> Renews(run + [step], k, id) == Renews(run, k, id)
    ensures UsedAt(run + [step], |run|, id) <==>
            (Mints(step.op, id) || (step.op.Get? && step.op.id == id)) && IdealAnswer(run, step).Some?
  {
    AnswersInLonger(run, step);
    var all := run + [step];
    assert all[|run|] == step && forall k :: 0 <= k < |run| ==> all[k] == run[k];
  }

  lemma {:induction false} KeptUpBefore(run: Run, step: Step, id: string)
    ensures KeptUp(run + [step], id) <==>
            KeptUp(run, id) && (UsedAt(run + [step], |run|, id) ==> RedisAnswer(run, step).Some?)
  {
    UsesInLonger(run, step, id);
    var all := run + [step];
    assert all[..|run|] == run && all[|run|] == step;
    assert forall k :: 0 <= k < |run| ==> all[..k] == run[..k] && all[k] == run[k];
    if KeptUp(all, id) {
      forall k | 0 <= k < |run| && UsedAt(run, k, id)
        ensures RedisAnswer(run[..k], run[k]).Some?
      {
        assert UsedAt(all, k, id);
      }
    }
  }

  lemma {:induction false} SameAnswer(run: Run, step: Step)
    requires FreshIds(run + [step]) && Chronological(run + [step]) && RedisAnswer(run, step).Some?
    ensures RedisAnswer(run, step) == IdealAnswer(run, step)
  {
    RedisRefinesIdeal(run, step);
  }

  // ---------- the key ----------

  /** The key holds the session as its last renewal saw it, for as long as that set. */
  ghost predicate KeyAsRenewed(run: Run, w: nat, id: string) {
    && w < |run| && AnswerAt(run, w).Some? && id in RedisAfter(run) && id in IdealAfter(run)
    && RedisAfter(run)[id] == Entry(IdealAfter(run)[id].(lastSeenAt := run[w].now), KeyExpiry(run, w))
  }

  lemma {:induction false} KeySet(run: Run, step: Step, id: string)
    requires FreshIds(run + [step]) && Chronological(run + [step]) && Renews(run + [step], |run|, id)
    requires RedisAnswer(run, step).Some?
    ensures KeyAsRenewed(run + [step], |run|, id)
  {
    SameAnswer(run, step);
    AnswersInLonger(run, step);
    OneMoreStep(1, run, step);
  }

  lemma {:induction false} KeyUntouched(db: Db, ideal: Records, step: Step, id: string)
    requires id in ideal && id in Ideal(ideal, step).0 && id in db
    requires !(Mints(step.op, id) && Redis(db, step).1.Some?)
    requires step.op.Get? && step.op.id == id ==>
               Redis(db, step).1.Some? &&
               Truncated(if step.op.idleTimeout as real <= db[id].record.absoluteExpiresAt - step.now
                         then step.op.idleTimeout as real else db[id].record.absoluteExpiresAt - step.now) <= 0
    requires step.op.Rotate? ==> step.op.oldId != id
    ensures id in Redis(db, step).0 && Redis(db, step).0[id] == db[id]
  {}

  lemma {:induction false} KeyStays(run: Run, step: Step, w: nat, id: string)
    requires FreshIds(run + [step]) && Chronological(run + [step]) && KeyAsRenewed(run, w, id)
    requires id in IdealAfter(run + [step]) && !Renews(run + [step], |run|, id)
    requires UsedAt(run + [step], |run|, id) ==> RedisAnswer(run, step).Some?
    requires Mints(step.op, id) ==> IdealAnswer(run, step).None?
    ensures KeyAsRenewed(run + [step], w, id)
  {
    RecordBefore(run, step, id);
    AnswersInLonger(run, step);
    OneMoreStep(1, run, step);
    if RedisAnswer(run, step).Some? {
      SameAnswer(run, step);
    }
    UsesInLonger(run, step, id);
    assert (run + [step])[|run|] == step && (run + [step])[w] == run[w];
    KeyUntouched(RedisAfter(run), IdealAfter(run), step, id);
  }

  /** As long as the Redis store keeps up, the key is as the last renewal left it. */
  lemma {:induction false} KeyIsLastRenewal(run: Run, w: nat, id: string)
    requires FreshIds(run) && Chronological(run) && KeptUp(run, id) && id in IdealAfter(run)
    requires LastRenewal(run, w, id)
    ensures KeyAsRenewed(run, w, id)
    decreases |run|
  {
    var front, step := run[..|run| - 1], run[|run| - 1];
    assert run == front + [step];
    KeptUpBefore(front, step, id);
    if w == |front| {
      KeySet(front, step, id);
    } else {
      UsesInLonger(front, step, id);
      FreshPrefix(front, step);
      ChronologicalPrefix(front, step);
      assert !Renews(run, |front|, id);
      if Mints(step.op, id) && IdealAnswer(front, step).Some? {
        MintingRenews(front, step, id);
      }
      RecordBefore(front, step, id);
      KeyIsLastRenewal(front, w, id);
      KeyStays(front, step, w, id);
    }
  }

  lemma {:induction false} MintingRenews(run: Run, step: Step, id: string)
    requires Mints(step.op, id) && IdealAnswer(run, step).Some?
    ensures Renews(run + [step], |run|, id)
  {
    AnswersInLonger(run, step);
  }

  /** A session that lives has been renewed: minting it does that. */
  lemma {:induction false} SomeLastRenewal(run: Run, id: string) returns (w: nat)
    requires id in IdealAfter(run)
    ensures LastRenewal(run, w, id)
    decreases |run|
  {
    var front, step := run[..|run| - 1], run[|run| - 1];
    assert run == front + [step];
    UsesInLonger(front, step, id);
    if Renews(run, |front|, id) {
      w := |front|;
    } else {
      if Mints(step.op, id) && IdealAnswer(front, step).Some? {
        MintingRenews(front, step, id);
      }
      RecordBefore(front, step, id);
      w := SomeLastRenewal(front, id);
    }
  }

  // ---------- when nothing is answered ----------

  /** The key has expired, or what it holds says that the session has been idle too long. */
  predicate OutOfDate(run: Run, w: nat, step: Step)
    requires w < |run| && AnswerAt(run, w).Some? && (step.op.Get? || step.op.Rotate?)
  {
    step.now >= KeyExpiry(run, w) || step.now - run[w].now > step.op.idleTimeout as real
  }

  lemma {:induction false} AnswerFromKey(db: Db, ideal: Records, step: Step, id: string)
    requires id in db && id in ideal && AsksFor(step.op, id) && Ideal(ideal, step).1.Some?
    requires db[id].record == ideal[id].(lastSeenAt := db[id].record.lastSeenAt)
    ensures Redis(db, step).1.None? <==>
            step.now >= db[id].expiresAt || step.now - db[id].record.lastSeenAt > step.op.idleTimeout as real
  {}

  lemma {:induction false} AnsweredIsHeld(ideal: Records, step: Step, id: string)
    requires AsksFor(step.op, id) && Ideal(ideal, step).1.Some?
    ensures id in ideal
  {}

  /** The first time that the Redis store answers nothing although the session lives is the
      first time that it is asked for it when the last renewal is out of date. */
  lemma {:induction false} RedisMissesExactly(run: Run, step: Step, w: nat, id: string)
    requires FreshIds(run + [step]) && Chronological(run + [step]) && AsksFor(step.op, id)
    requires KeptUp(run, id) && LastRenewal(run, w, id) && IdealAnswer(run, step).Some?
    ensures RedisAnswer(run, step).None? <==> OutOfDate(run, w, step)
  {
    FreshPrefix(run, step);
    ChronologicalPrefix(run, step);
    AnsweredIsHeld(IdealAfter(run), step, id);
    KeyIsLastRenewal(run, w, id);
    AnswerFromKey(RedisAfter(run), IdealAfter(run), step, id);
  }

  // ---------- over a whole run ----------

  /** Lookup `k`, of a session that lives, comes when its last renewal is out of date. */
  ghost predicate ComesTooLate(run: Run, k: nat, id: string) {
    && k < |run| && run[k].op.Get? && UsedAt(run, k, id)
    && exists w :: LastRenewal(run[..k], w, id) && OutOfDate(run[..k], w, run[k])
  }

  lemma {:induction false} OneLastRenewal(run: Run, w: nat, v: nat, id: string)
    requires LastRenewal(run, w, id) && LastRenewal(run, v, id)
    ensures w == v
  {}

  lemma {:induction false} PrefixInOrder(run: Run, k: nat)
    requires FreshIds(run) && Chronological(run) && k < |run|
    ensures FreshIds(run[..k] + [run[k]]) && Chronological(run[..k] + [run[k]])
  {
    assert run[..k] + [run[k]] == run[..k + 1];
  }

  lemma {:induction false} KeptUpPrefix(run: Run, k: nat, id: string)
    requires KeptUp(run, id) && k <= |run|
    ensures KeptUp(run[..k], id)
  {
    forall i | 0 <= i < k && UsedAt(run[..k], i, id)
      ensures RedisAnswer(run[..k][..i], run[..k][i]).Some?
    {
      assert run[..k][..i] == run[..i];
      assert UsedAt(run, i, id);
    }
  }

  lemma {:induction false} UseIsMintOrLookup(run: Run, k: nat, id: string)
    requires UsedAt(run, k, id)
    ensures run[k].op.Get? || Mints(run[k].op, id)
    ensures run[k].op.Get? ==> AsksFor(run[k].op, id) && IdealAnswer(run[..k], run[k]).Some?
  {}

  lemma {:induction false} MissedAt(run: Run, k: nat, id: string)
    requires FreshIds(run) && Chronological(run) && k < |run| && KeptUp(run[..k], id)
    requires UsedAt(run, k, id) && run[k].op.Get?
    ensures RedisAnswer(run[..k], run[k]).None? <==> ComesTooLate(run, k, id)
  {
    PrefixInOrder(run, k);
    UseIsMintOrLookup(run, k, id);
    AnsweredIsHeld(IdealAfter(run[..k]), run[k], id);
    var w := SomeLastRenewal(run[..k], id);
    RedisMissesExactly(run[..k], run[k], w, id);
    forall v: nat | LastRenewal(run[..k], v, id)
      ensures v == w
    {
      OneLastRenewal(run[..k], w, v, id);
    }
  }

  /** A session that the Redis store has minted is answered whenever it lives, all through the
      run, if and only if no lookup comes when its last renewal is out of date. */
  lemma {:induction false} RedisKeepsUpExactly(run: Run, id: string)
    requires FreshIds(run) && Chronological(run)
    requires forall k :: 0 <= k < |run| && Mints(run[k].op, id) && UsedAt(run, k, id) ==>
               RedisAnswer(run[..k], run[k]).Some?
    ensures KeptUp(run, id) <==> forall k :: 0 <= k < |run| ==> !ComesTooLate(run, k, id)
  {
    if KeptUp(run, id) {
      forall k | 0 <= k < |run| && ComesTooLate(run, k, id)
        ensures false
      {
        KeptUpPrefix(run, k, id);
        MissedAt(run, k, id);
      }
    }
    if forall k :: 0 <= k < |run| ==> !ComesTooLate(run, k, id) {
      InTimeKeepsUp(run, |run|, id);
      assert run[..|run|] == run;
    }
  }

  lemma {:induction false} InTimeKeepsUp(run: Run, n: nat, id: string)
    requires FreshIds(run) && Chronological(run) && n <= |run|
    requires forall k :: 0 <= k < |run| && Mints(run[k].op, id) && UsedAt(run, k, id) ==>
               RedisAnswer(run[..k], run[k]).Some?
    requires forall k :: 0 <= k < |run| ==> !ComesTooLate(run, k, id)
    ensures KeptUp(run[..n], id)
    decreases n
  {
    if n > 0 {
      var k := n - 1;
      InTimeKeepsUp(run, k, id);
      assert run[..n] == run[..k] + [run[k]];
      KeptUpBefore(run[..k], run[k], id);
      assert UsedAt(run[..n], k, id) ==> UsedAt(run, k, id) by {
        assert run[..n][..k] == run[..k];
      }
      if UsedAt(run, k, id) && run[k].op.Get? {
        MissedAt(run, k, id);
      }
    }
  }

  // ---------- when that is ----------

  /** All lookups have the same idle timeout, as the configuration gives it. */
  ghost predicate OneIdleTimeout(run: Run, idle: int) {
    forall k :: 0 <= k < |run| && (run[k].op.Get? || run[k].op.Rotate?) ==> run[k].op.idleTimeout == idle
  }

  ghost predicate LastUsed(run: Run, m: nat, id: string) {
    UsedAt(run, m, id) && forall k :: m < k < |run| ==> !UsedAt(run, k, id)
  }

  /** A use that does not renew comes in the last second of the session, unless idling is not
      allowed at all. */
  lemma {:induction false} UnrenewedIsLate(run: Run, m: nat, id: string)
    requires UsedAt(run, m, id) && !Renews(run, m, id)
    ensures run[m].op.Get?
    ensures run[m].op.idleTimeout < 1 || AnswerAt(run, m).value.absoluteExpiresAt - 1.0 < run[m].now
  {}

  /** The record of a live session: its absolute expiry never moves, and it was last seen when
      it was last used. */
  lemma {:induction false} RecordOfUse(run: Run, k: nat, id: string)
    requires FreshIds(run) && UsedAt(run, k, id) && id in IdealAfter(run)
    ensures IdealAfter(run)[id].absoluteExpiresAt == AnswerAt(run, k).value.absoluteExpiresAt
    ensures LastUsed(run, k, id) ==> IdealAfter(run)[id].lastSeenAt == run[k].now
    decreases |run|
  {
    var front, step := run[..|run| - 1], run[|run| - 1];
    assert run == front + [step];
    OneMoreStep(1, front, step);
    AnswersInLonger(front, step);
    if k < |front| {
      UsesInLonger(front, step, id);
      FreshPrefix(front, step);
      assert front[k] == run[k] && Names(front[k].op, id) && !Mints(step.op, id);
      RecordBefore(front, step, id);
      RecordOfUse(front, k, id);
      if LastUsed(run, k, id) {
        assert LastUsed(front, k, id) && !UsedAt(run, |front|, id);
      }
    }
  }

  /** The clock of a run, between two of its steps. */
  lemma {:induction false} ClockAt(run: Run, step: Step, k: nat)
    requires Chronological(run + [step]) && k < |run|
    ensures run[k].now <= step.now
  {
    assert (run + [step])[k] == run[k] && (run + [step])[|run|] == step;
  }

  lemma {:induction false} IdleTimeoutAt(run: Run, step: Step, idle: int, id: string)
    requires OneIdleTimeout(run + [step], idle) && AsksFor(step.op, id)
    ensures OneIdleTimeout(run, idle) && step.op.idleTimeout == idle
  {
    var all := run + [step];
    assert all[|run|] == step;
    assert forall k :: 0 <= k < |run| ==> all[k] == run[k];
  }

  lemma {:induction false} RenewedFor(run: Run, w: nat, id: string, idle: int)
    requires Renews(run, w, id) && OneIdleTimeout(run, idle)
    ensures var left := AnswerAt(run, w).value.absoluteExpiresAt - run[w].now;
            (run[w].op.Get? && TimeToLive(run, w) == idle) || TimeToLive(run, w) as real > left - 1.0
  {}

  /** When all idle timeouts are the same, a renewal is out of date for a session that lives
      only at the moment when the session has been idle for all its time, or in its last second. */
  lemma {:induction false} MissedAtTheEdges(run: Run, step: Step, w: nat, m: nat, id: string, idle: int)
    requires FreshIds(run + [step]) && Chronological(run + [step]) && AsksFor(step.op, id)
    requires OneIdleTimeout(run + [step], idle) && IdealAnswer(run, step).Some?
    requires LastRenewal(run, w, id) && LastUsed(run, m, id) && OutOfDate(run, w, step)
    ensures id in IdealAfter(run)
    ensures var absolute := IdealAfter(run)[id].absoluteExpiresAt;
            step.now == run[m].now + idle as real || absolute - 1.0 < step.now <= absolute
  {
    FreshPrefix(run, step);
    AnsweredIsHeld(IdealAfter(run), step, id);
    RecordOfUse(run, m, id);
    RecordOfUse(run, w, id);
    ClockAt(run, step, m);
    IdleTimeoutAt(run, step, idle, id);
    RenewedFor(run, w, id, idle);
    if w < m {
      UnrenewedIsLate(run, m, id);
    }
  }
}
