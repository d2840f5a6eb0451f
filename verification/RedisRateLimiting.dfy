/**
 The Redis-backed limiter (maskguard/api/ratelimit/redis_limiter.py): one counter per key
 and window, incremented by every call, with a time to live of window + 1 seconds.

 On one clock it gives the same answers as the fixed-window counter, hence as the
 in-memory limiter.
 */
module RedisRateLimiting {
  import opened Collections
  import opened KeyOrder
  import opened RateLimiting
  import opened RateLimitRuns

  datatype Counter = Counter(count: nat, expiresAt: real)

  datatype Id = Id(key: Key, windowStart: int)

  /** A counter past its expiry is absent. */
  predicate Live(db: map<Id, Counter>, id: Id, now: real) { id in db && now < db[id].expiresAt }

  /** TTL answers the remaining seconds, rounded to the nearest. */
  function TimeToLive(c: Counter, now: real): int { (c.expiresAt - now + 0.5).Floor }

  /** One run of the script. */
  function Script(db: map<Id, Counter>, now: real, key: Key, p: Policy): (map<Id, Counter>, Decision)
    requires p.window > 0
  {
    var seconds := now.Floor;
    var id := Id(key, seconds - seconds % p.window);
    var found := if Live(db, id, now) then db[id] else Counter(0, 0.0);
    var c := Counter(found.count + 1, if found.count + 1 == 1 then now + (p.window + 1) as real else found.expiresAt);
    (db[id := c],
     if c.count > p.capacity then
       var ttl := TimeToLive(c, now);
       Decision(false, if ttl < 1 then p.window else ttl, p.capacity, 0)
     else
       Decision(true, 0, p.capacity, p.capacity - c.count))
  }

  function Called(db: map<Id, Counter>, now: real, key: Key, p: Policy): (map<Id, Counter>, Decision) {
    if !p.Positive() then (db, Misconfigured(p)) else Script(db, now, key, p)
  }

  class RedisRateLimiter {
    var db: map<Id, Counter>

    constructor ()
      ensures db == map[]
    {
      db := map[];
    }

    method Check(now: real, key: Key, capacity: int, window: int) returns (d: Decision)
      modifies this
      ensures db == Called(old(db), now, key, Policy(capacity, window)).0
      ensures d == Called(old(db), now, key, Policy(capacity, window)).1
    {
      if capacity <= 0 || window <= 0 {
        return Decision(false, if window > 0 then window else 1, capacity, 0);
      }
      var seconds := now.Floor;
      var id := Id(key, seconds - seconds % window);
      if id in db && !Live(db, id, now) {
        db := db - {id};
      }
      var count := if id in db then db[id].count + 1 else 1;
      db := db[id := Counter(count, if id in db then db[id].expiresAt else 0.0)];
      if count == 1 {
        db := db[id := Counter(count, now + (window + 1) as real)];
      }
      if count > capacity {
        var ttl := TimeToLive(db[id], now);
        if ttl < 1 {
          ttl := window;
        }
        return Decision(false, ttl, capacity, 0);
      }
      return Decision(true, 0, capacity, capacity - count);
    }
  }

  // ---------- runs ----------

  ghost function Run(pol: Policies, calls: seq<Call>): map<Id, Counter> {
    if calls == [] then map[]
    else Called(Run(pol, Front(calls)), Last(calls).now, Last(calls).key, pol(Last(calls).key)).0
  }

  ghost function Answer(pol: Policies, calls: seq<Call>, c: Call): Decision {
    Called(Run(pol, calls), c.now, c.key, pol(c.key)).1
  }

  /** Every call for `key` in the window, admitted or not. */
  ghost function Attempts(pol: Policies, calls: seq<Call>, key: Key, start: int): nat
    requires pol(key).Positive()
  {
    if calls == [] then 0
    else
      Attempts(pol, Front(calls), key, start) +
      if Last(calls).key == key && WindowStart(Last(calls).now, pol(key).window) == start then 1 else 0
  }

  lemma {:induction false} AdmittedAreFirstAttempts(pol: Policies, calls: seq<Call>, key: Key, start: int)
    requires pol(key).Positive()
    ensures var n := Attempts(pol, calls, key, start);
            Admitted(pol, calls, key, start) == if n <= pol(key).capacity then n else pol(key).capacity
  {
    if calls != [] {
      AdmittedAreFirstAttempts(pol, Front(calls), key, start);
    }
  }

  /** Each counter holds the attempts of its window and outlives it by a second. */
  ghost predicate Counts(db: map<Id, Counter>, pol: Policies, calls: seq<Call>, key: Key)
    requires pol(key).Positive()
  {
    forall start: int ::
      && (Id(key, start) in db <==> Attempts(pol, calls, key, start) > 0)
      && (Id(key, start) in db ==>
            && db[Id(key, start)].count == Attempts(pol, calls, key, start)
            && db[Id(key, start)].expiresAt >= (start + pol(key).window + 1) as real)
  }

  lemma {:induction false} CountsOneMore(db: map<Id, Counter>, pol: Policies, calls: seq<Call>, c: Call, key: Key)
    requires pol(key).Positive() && Counts(db, pol, calls, key)
    ensures Counts(Called(db, c.now, c.key, pol(c.key)).0, pol, calls + [c], key)
  {
    assert Front(calls + [c]) == calls;
    var after := Called(db, c.now, c.key, pol(c.key)).0;
    if c.key == key {
      InsideWindow(c.now, pol(key).window);
    }
    forall start: int
      ensures (Id(key, start) in after <==> Attempts(pol, calls + [c], key, start) > 0)
      ensures Id(key, start) in after ==>
            && after[Id(key, start)].count == Attempts(pol, calls + [c], key, start)
            && after[Id(key, start)].expiresAt >= (start + pol(key).window + 1) as real
    {
      assert Id(key, start) in db <==> Attempts(pol, calls, key, start) > 0;
    }
  }

  lemma {:induction false} RunCounts(pol: Policies, calls: seq<Call>, key: Key)
    requires pol(key).Positive()
    ensures Counts(Run(pol, calls), pol, calls, key)
  {
    if calls != [] {
      RunCounts(pol, Front(calls), key);
      assert calls == Front(calls) + [Last(calls)];
      CountsOneMore(Run(pol, Front(calls)), pol, Front(calls), Last(calls), key);
    }
  }

  /** The script gives the fixed-window answer to every call: a counter cannot expire inside its window. */
  lemma {:induction false} FixedWindow(pol: Policies, calls: seq<Call>, c: Call)
    ensures AsSpecified(Answer(pol, calls, c), pol, calls, c)
  {
    if pol(c.key).Positive() {
      var start := WindowStart(c.now, pol(c.key).window);
      RunCounts(pol, calls, c.key);
      InsideWindow(c.now, pol(c.key).window);
      AdmittedAreFirstAttempts(pol, calls, c.key, start);
      assert Id(c.key, start) in Run(pol, calls) <==> Attempts(pol, calls, c.key, start) > 0;
    }
  }

  /** On one clock the two backends agree on every paced call. */
  lemma {:induction false} BackendsAgree(limits: Limits, pol: Policies, t0: real, calls: seq<Call>, c: Call)
    requires Chronological(calls + [c], t0) && Paced(limits, pol, calls + [c], c.key)
    ensures var mine, theirs := RateLimitRuns.Answer(limits, pol, t0, calls, c), Answer(pol, calls, c);
            mine.allowed == theirs.allowed && mine.limit == theirs.limit && mine.remaining == theirs.remaining
  {
    RateLimitRuns.FixedWindow(limits, pol, t0, calls, c);
    FixedWindow(pol, calls, c);
  }

  /** The time to live also leads into a later window, though by another route than `retryAfter`. */
  lemma {:induction false} RetryLandsLater(pol: Policies, calls: seq<Call>, c: Call, later: real)
    requires pol(c.key).Positive() && !Answer(pol, calls, c).allowed
    requires later >= c.now + Answer(pol, calls, c).retryAfter as real
    ensures Answer(pol, calls, c).retryAfter >= 1
    ensures WindowStart(later, pol(c.key).window) > WindowStart(c.now, pol(c.key).window)
  {
    var p := pol(c.key);
    var id := Id(c.key, WindowStart(c.now, p.window));
    RunCounts(pol, calls, c.key);
    InsideWindow(c.now, p.window);
    assert id in Run(pol, calls) <==> Attempts(pol, calls, c.key, id.windowStart) > 0;
    assert Live(Run(pol, calls), id, c.now);
    LaterWindow(c.now, later, p.window);
  }

  lemma {:induction false} BurstBound(pol: Policies, calls: seq<Call>, key: Key, from: real)
    requires pol(key).Positive()
    ensures LetThrough((cs, c) => Answer(pol, cs, c).allowed, calls, key, from, pol(key).window)
            <= 2 * pol(key).capacity
  {
    var allowed := (cs: seq<Call>, c: Call) => Answer(pol, cs, c).allowed;
    forall n | 0 <= n < |calls| && calls[n].key == key && allowed(calls[..n], calls[n])
      ensures Admitted(pol, calls[..n], key, WindowStart(calls[n].now, pol(key).window)) < pol(key).capacity
    {
      FixedWindow(pol, calls[..n], calls[n]);
    }
    AtMostTwiceCapacity(allowed, pol, calls, key, from);
  }

  // ---------- how long counters live ----------

  /** Call `i` is the first one for the key in the window that starts at `start`. */
  ghost predicate FirstAttempt(pol: Policies, calls: seq<Call>, key: Key, start: int, i: nat)
    requires pol(key).Positive()
  {
    && i < |calls| && calls[i].key == key && WindowStart(calls[i].now, pol(key).window) == start
    && forall j :: 0 <= j < i && calls[j].key == key ==> WindowStart(calls[j].now, pol(key).window) != start
  }

  lemma {:induction false} SomeFirstAttempt(pol: Policies, calls: seq<Call>, key: Key, start: int) returns (i: nat)
    requires pol(key).Positive() && Attempts(pol, calls, key, start) > 0
    ensures FirstAttempt(pol, calls, key, start, i)
    decreases |calls|
  {
    if Attempts(pol, Front(calls), key, start) > 0 {
      i := SomeFirstAttempt(pol, Front(calls), key, start);
    } else {
      i := |calls| - 1;
      NoAttempts(pol, Front(calls), key, start);
      assert forall j :: 0 <= j < i ==> calls[j] == Front(calls)[j];
    }
  }

  lemma {:induction false} NoAttempts(pol: Policies, calls: seq<Call>, key: Key, start: int)
    requires pol(key).Positive() && Attempts(pol, calls, key, start) == 0
    ensures forall j :: 0 <= j < |calls| && calls[j].key == key ==> WindowStart(calls[j].now, pol(key).window) != start
  {
    if calls != [] {
      NoAttempts(pol, Front(calls), key, start);
      assert forall j :: 0 <= j < |calls| - 1 ==> calls[j] == Front(calls)[j];
    }
  }

  lemma {:induction false} OneMoreFirst(pol: Policies, calls: seq<Call>, c: Call, key: Key, start: int, i: nat)
    requires pol(key).Positive() && FirstAttempt(pol, calls + [c], key, start, i)
    ensures i < |calls| ==> FirstAttempt(pol, calls, key, start, i)
    ensures i == |calls| ==> Attempts(pol, calls, key, start) == 0
  {
    var all := calls + [c];
    assert all[|calls|] == c && forall j :: 0 <= j < |calls| ==> all[j] == calls[j];
    if i == |calls| && Attempts(pol, calls, key, start) > 0 {
      var j := SomeFirstAttempt(pol, calls, key, start);
    }
  }

  /** A counter expires a window and a second after the first call that it counts. */
  lemma {:induction false} ExpiresExactly(pol: Policies, calls: seq<Call>, key: Key, start: int, i: nat)
    requires pol(key).Positive() && FirstAttempt(pol, calls, key, start, i)
    ensures Id(key, start) in Run(pol, calls)
    ensures Run(pol, calls)[Id(key, start)].expiresAt == calls[i].now + (pol(key).window + 1) as real
    decreases |calls|
  {
    var front, c := Front(calls), Last(calls);
    assert calls == front + [c];
    OneMoreFirst(pol, front, c, key, start, i);
    RunCounts(pol, front, key);
    if c.key == key {
      InsideWindow(c.now, pol(key).window);
    }
    if i < |front| {
      ExpiresExactly(pol, front, key, start, i);
      InsideWindow(calls[i].now, pol(key).window);
    } else {
      assert Id(key, start) in Run(pol, front) <==> Attempts(pol, front, key, start) > 0;
    }
  }

  /** Who is told to wait is told the seconds left of that time, to the nearest. */
  lemma {:induction false} WaitsExactly(pol: Policies, calls: seq<Call>, c: Call) returns (i: nat)
    requires pol(c.key).Positive() && !Answer(pol, calls, c).allowed
    ensures FirstAttempt(pol, calls, c.key, WindowStart(c.now, pol(c.key).window), i)
    ensures var left := calls[i].now + (pol(c.key).window + 1) as real - c.now;
            Answer(pol, calls, c).retryAfter as real - 0.5 <= left < Answer(pol, calls, c).retryAfter as real + 0.5
  {
    var p := pol(c.key);
    var id := Id(c.key, WindowStart(c.now, p.window));
    RunCounts(pol, calls, c.key);
    InsideWindow(c.now, p.window);
    assert id in Run(pol, calls) <==> Attempts(pol, calls, c.key, id.windowStart) > 0;
    i := SomeFirstAttempt(pol, calls, c.key, id.windowStart);
    ExpiresExactly(pol, calls, c.key, id.windowStart, i);
    InsideWindow(calls[i].now, p.window);
  }
}
