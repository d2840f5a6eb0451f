/**
 Whole runs of the in-memory limiter (maskguard/api/ratelimit/limiter.py) against a
 fixed-window counter that remembers every call.
 */
module RateLimitRuns {
  import opened Collections
  import opened KeyOrder
  import opened RateLimiting

  datatype Call = Call(now: real, key: Key)

  /** Each key keeps one policy. */
  type Policies = Key -> Policy

  ghost predicate Chronological(calls: seq<Call>, start: real) {
    && (forall i :: 0 <= i < |calls| ==> start <= calls[i].now)
    && (forall i, j :: 0 <= i < j < |calls| ==> calls[i].now <= calls[j].now)
  }

  // ---------- the specification ----------

  /** How many of the calls for `key` in the window starting at `start` are admitted:
      a call is admitted when fewer than `capacity` were admitted before it. */
  ghost function Admitted(pol: Policies, calls: seq<Call>, key: Key, start: int): nat
    requires pol(key).Positive()
  {
    if calls == [] then 0
    else
      var before := Admitted(pol, Front(calls), key, start);
      var c := Last(calls);
      if c.key == key && WindowStart(c.now, pol(key).window) == start &&
        before < pol(key).capacity then before + 1 else before
  }

  /** `d` is what the fixed-window counter answers to `c` after `calls`. */
  ghost predicate AsSpecified(d: Decision, pol: Policies, calls: seq<Call>, c: Call) {
    var p := pol(c.key);
    if !p.Positive() then !d.allowed && d.limit == p.capacity && d.remaining == 0
    else
      var before := Admitted(pol, calls, c.key, WindowStart(c.now, p.window));
      && (d.allowed <==> before < p.capacity)
      && d.limit == p.capacity
      && d.remaining == (if before < p.capacity then p.capacity - before - 1 else 0)
  }

  // ---------- runs of the limiter ----------

  ghost function Run(start: Limiter, limits: Limits, pol: Policies, calls: seq<Call>): Limiter {
    if calls == [] then start
    else
      var c := Last(calls);
      Checked(Run(start, limits, pol, Front(calls)), limits, c.now, c.key, pol(c.key)).0
  }

  /** The answer to `c` after `calls`, starting from an empty limiter. */
  ghost function Answer(limits: Limits, pol: Policies, t0: real, calls: seq<Call>, c: Call): Decision {
    Checked(Run(Limiter(map[], [], t0), limits, pol, calls), limits, c.now, c.key, pol(c.key)).1
  }

  ghost predicate Mentions(calls: seq<Call>, key: Key) { exists i :: 0 <= i < |calls| && calls[i].key == key }

  /** The other keys checked since the last check of `key`; none if it was never checked. */
  ghost function Others(pol: Policies, calls: seq<Call>, key: Key): set<Key> {
    if calls == [] || Last(calls).key == key || !Mentions(calls, key) then {}
    else Others(pol, Front(calls), key) + (if pol(Last(calls).key).Positive() then {Last(calls).key} else {})
  }

  /** Between two checks of `key`, fewer than `maxKeys` other keys are checked. */
  ghost predicate Paced(limits: Limits, pol: Policies, calls: seq<Call>, key: Key) {
    forall j :: 0 <= j < |calls| && calls[j].key == key ==> |Others(pol, calls[..j], key)| < limits.maxKeys
  }

  // ---------- last-touch order ----------

  /** The keys listed after `key` have been checked since. */
  ghost predicate Ordered(s: Limiter, limits: Limits, pol: Policies, calls: seq<Call>, key: Key) {
    && WellFormed(s, limits)
    && After(s.order, key) <= Others(pol, calls, key)
    && (key in s.buckets ==> Mentions(calls, key))
  }

  lemma {:induction false} SweptStaysOrdered(s: Limiter, limits: Limits, pol: Policies, calls: seq<Call>, key: Key,
        now: real)
    requires Ordered(s, limits, pol, calls, key)
    ensures Ordered(Swept(s, limits, now), limits, pol, calls, key)
  {
    SweptKeepsWellFormed(s, limits, now);
    AfterKeep(s.order, StaleKeys(s.buckets, now), key);
  }

  lemma {:induction false} OneMoreCall(pol: Policies, calls: seq<Call>, c: Call, key: Key)
    ensures Mentions(calls + [c], key) <==> Mentions(calls, key) || c.key == key
    ensures c.key == key || !Mentions(calls, key) ==> Others(pol, calls + [c], key) == {}
    ensures c.key != key && Mentions(calls, key) ==>
              Others(pol, calls + [c], key) == Others(pol, calls, key) + (if pol(c.key).Positive() then {c.key} else {})
  {
    assert Front(calls + [c]) == calls;
    assert forall i :: 0 <= i < |calls| ==> (calls + [c])[i] == calls[i];
    assert (calls + [c])[|calls|] == c;
  }

  lemma {:induction false} TouchedStaysOrdered(s: Limiter, limits: Limits, pol: Policies, calls: seq<Call>, key: Key,
        c: Call)
    requires Ordered(s, limits, pol, calls, key) && pol(c.key).Positive()
    ensures Ordered(Touched(s, limits, c.key, WindowStart(c.now, pol(c.key).window), pol(c.key).window),
                    limits, pol, calls + [c], key)
  {
    var p := pol(c.key);
    var start := WindowStart(c.now, p.window);
    TouchedKeepsWellFormed(s, limits, c.key, start, p.window);
    OneMoreCall(pol, calls, c, key);
    var t := if c.key in s.buckets && s.buckets[c.key].windowStart == start then s else Evicted(s, limits, c.key);
    assert After(t.order, key) <= After(s.order, key) by {
      if s.order != [] {
        AfterIsWithin(s.order[1..], key);
      }
    }
    AfterKeep(t.order, {c.key}, key);
    AfterAppend(Keep(t.order, {c.key}), c.key, key);
  }

  // ---------- counts ----------

  /** What the limiter remembers of the window starting at `start`. */
  ghost function Remembered(s: Limiter, key: Key, start: int): nat {
    if key in s.buckets && s.buckets[key].windowStart == start then s.buckets[key].count else 0
  }

  /** For the current and all later windows, the limiter remembers exactly the admitted calls. */
  ghost predicate Exact(s: Limiter, pol: Policies, calls: seq<Call>, key: Key, now: real)
    requires pol(key).Positive()
  {
    var w := pol(key).window;
    && (key in s.buckets ==> s.buckets[key].window == w && s.buckets[key].windowStart <= WindowStart(now, w))
    && forall start :: start >= WindowStart(now, w) ==> Remembered(s, key, start) == Admitted(pol, calls, key, start)
  }

  lemma {:induction false} ExactLater(s: Limiter, pol: Policies, calls: seq<Call>, key: Key, now: real, later: real)
    requires pol(key).Positive() && Exact(s, pol, calls, key, now) && now <= later
    ensures Exact(s, pol, calls, key, later)
  {
    LaterWindow(now, later, pol(key).window);
  }

  /** Sweeping is invisible: a stale bucket belongs to a window that is over. */
  lemma {:induction false} ExactAfterSweep(s: Limiter, limits: Limits, pol: Policies, calls: seq<Call>, key: Key,
        now: real)
    requires pol(key).Positive() && Exact(s, pol, calls, key, now)
    ensures Exact(Swept(s, limits, now), pol, calls, key, now)
  {
    InsideWindow(now, pol(key).window);
    forall start | start >= WindowStart(now, pol(key).window)
      ensures Remembered(Swept(s, limits, now), key, start) == Remembered(s, key, start)
    {}
  }

  lemma {:induction false} AdmittedOther(pol: Policies, calls: seq<Call>, c: Call, key: Key, start: int)
    requires pol(key).Positive() && (c.key != key || WindowStart(c.now, pol(key).window) != start)
    ensures Admitted(pol, calls + [c], key, start) == Admitted(pol, calls, key, start)
  {
    assert Front(calls + [c]) == calls;
  }

  lemma {:induction false} AdmittedSame(pol: Policies, calls: seq<Call>, c: Call)
    requires pol(c.key).Positive()
    ensures var start := WindowStart(c.now, pol(c.key).window);
            var before := Admitted(pol, calls, c.key, start);
            Admitted(pol, calls + [c], c.key, start) == (if before < pol(c.key).capacity then before + 1 else before)
  {
    assert Front(calls + [c]) == calls;
  }

  /** With fewer than `maxKeys` other keys touched since, `key` is not the one evicted. */
  lemma {:induction false} NotEvicted(s: Limiter, limits: Limits, pol: Policies, calls: seq<Call>, key: Key, other: Key)
    requires Ordered(s, limits, pol, calls, key) && other != key && key in s.buckets
    requires |Others(pol, calls, key) + {other}| < limits.maxKeys
    ensures key in Evicted(s, limits, other).buckets
  {
    if other !in s.buckets && |s.order| >= limits.maxKeys && s.order[0] == key {
      var newer := s.order[1..];
      assert Distinct(newer);
      ElementsSize(newer);
      assert After(s.order, key) == Elements(newer) && other !in newer;
      assert |Elements(newer) + {other}| == |newer| + 1;
      SubsetSize(Elements(newer) + {other}, Others(pol, calls, key) + {other});
    }
  }

  lemma {:induction false} ExactAfterOther(s: Limiter, limits: Limits, pol: Policies, calls: seq<Call>, key: Key,
        c: Call)
    requires pol(key).Positive() && Exact(s, pol, calls, key, c.now) && Ordered(s, limits, pol, calls, key)
    requires c.key != key && pol(c.key).Positive()
    requires Mentions(calls, key) ==> |Others(pol, calls, key) + {c.key}| < limits.maxKeys
    ensures Exact(Counted(Touched(s, limits, c.key, WindowStart(c.now, pol(c.key).window), pol(c.key).window),
                          c.now, c.key, pol(c.key)).0,
                  pol, calls + [c], key, c.now)
  {
    var start := WindowStart(c.now, pol(c.key).window);
    var t := Touched(s, limits, c.key, start, pol(c.key).window);
    var u := Counted(t, c.now, c.key, pol(c.key)).0;
    if key in s.buckets {
      NotEvicted(s, limits, pol, calls, key, c.key);
    }
    assert key in u.buckets <==> key in s.buckets;
    assert key in s.buckets ==> u.buckets[key] == s.buckets[key];
    forall i | i >= WindowStart(c.now, pol(key).window)
      ensures Remembered(u, key, i) == Admitted(pol, calls + [c], key, i)
    {
      AdmittedOther(pol, calls, c, key, i);
      assert Remembered(u, key, i) == Remembered(s, key, i);
    }
  }

  lemma {:induction false} ExactAfterOwn(s: Limiter, limits: Limits, pol: Policies, calls: seq<Call>, c: Call)
    requires pol(c.key).Positive() && Exact(s, pol, calls, c.key, c.now) && WellFormed(s, limits)
    ensures var p := pol(c.key);
            var (u, d) := Counted(Touched(s, limits, c.key, WindowStart(c.now, p.window), p.window), c.now, c.key, p);
            Exact(u, pol, calls + [c], c.key, c.now) && AsSpecified(d, pol, calls, c)
  {
    var p := pol(c.key);
    var start := WindowStart(c.now, p.window);
    var t := Touched(s, limits, c.key, start, p.window);
    var u := Counted(t, c.now, c.key, p).0;
    assert t.buckets[c.key].windowStart == start && t.buckets[c.key].count == Remembered(s, c.key, start);
    AdmittedSame(pol, calls, c);
    forall i | i >= start
      ensures Remembered(u, c.key, i) == Admitted(pol, calls + [c], c.key, i)
    {
      if i != start {
        AdmittedOther(pol, calls, c, c.key, i);
        assert Remembered(s, c.key, i) == 0;
      }
    }
  }

  // ---------- whole runs ----------

  lemma {:induction false} RunOneMore(start: Limiter, limits: Limits, pol: Policies, calls: seq<Call>, c: Call)
    ensures Run(start, limits, pol, calls + [c]) ==
              Checked(Run(start, limits, pol, calls), limits, c.now, c.key, pol(c.key)).0
  {
    assert Front(calls + [c]) == calls;
  }

  lemma {:induction false} RunStaysOrdered(limits: Limits, pol: Policies, t0: real, calls: seq<Call>, key: Key)
    requires pol(key).Positive()
    ensures Ordered(Run(Limiter(map[], [], t0), limits, pol, calls), limits, pol, calls, key)
    decreases |calls|
  {
    if calls != [] {
      RunStaysOrdered(limits, pol, t0, Front(calls), key);
      assert calls == Front(calls) + [Last(calls)];
      OrderedOneMore(Run(Limiter(map[], [], t0), limits, pol, Front(calls)), limits, pol, Front(calls), Last(calls),
        key);
    }
  }

  lemma {:induction false} OnlyPositiveKeys(limits: Limits, pol: Policies, t0: real, calls: seq<Call>)
    ensures var s := Run(Limiter(map[], [], t0), limits, pol, calls);
            WellFormed(s, limits) && forall k :: k in s.buckets ==> pol(k).Positive()
    decreases |calls|
  {
    if calls != [] {
      OnlyPositiveKeys(limits, pol, t0, Front(calls));
      var s := Run(Limiter(map[], [], t0), limits, pol, Front(calls));
      CheckedKeepsWellFormed(s, limits, Last(calls).now, Last(calls).key, pol(Last(calls).key));
    }
  }

  /** At most `maxKeys` buckets, in the order in which their keys were last checked. */
  lemma {:induction false} LastTouchOrder(limits: Limits, pol: Policies, t0: real, calls: seq<Call>, i: nat, j: nat)
    requires i < j < |Run(Limiter(map[], [], t0), limits, pol, calls).order|
    ensures var s := Run(Limiter(map[], [], t0), limits, pol, calls);
            && |s.buckets.Keys| == |s.order| <= limits.maxKeys
            && s.order[j] in Others(pol, calls, s.order[i])
  {
    var s := Run(Limiter(map[], [], t0), limits, pol, calls);
    OnlyPositiveKeys(limits, pol, t0, calls);
    DistinctCount(s.order, s.buckets.Keys);
    RunStaysOrdered(limits, pol, t0, calls, s.order[i]);
    AfterAt(s.order, i, j);
  }

  ghost function LastTime(calls: seq<Call>, t0: real): real { if calls == [] then t0 else Last(calls).now }

  lemma {:induction false} PacedPrefix(limits: Limits, pol: Policies, calls: seq<Call>, c: Call, key: Key, t0: real)
    requires Paced(limits, pol, calls + [c], key) && Chronological(calls + [c], t0)
    ensures Paced(limits, pol, calls, key) && Chronological(calls, t0) && LastTime(calls, t0) <= c.now
    ensures c.key == key ==> |Others(pol, calls, key)| < limits.maxKeys
  {
    var all := calls + [c];
    assert all[|calls|] == c && all[..|calls|] == calls;
    forall j | 0 <= j < |calls| && calls[j].key == key
      ensures |Others(pol, calls[..j], key)| < limits.maxKeys
    {
      assert all[j] == calls[j] && all[..j] == calls[..j];
    }
    assert forall i :: 0 <= i < |calls| ==> all[i] == calls[i];
  }

  /** What holds at the start and is kept by every call of a run holds after it. */
  lemma {:induction false} RunInduction(start: Limiter, limits: Limits, pol: Policies, calls: seq<Call>, n: nat,
        p: (seq<Call>, Limiter) -> bool)
    requires n <= |calls| && p([], start)
    requires forall i: nat, s: Limiter :: i < |calls| && p(calls[..i], s) ==>
               p(calls[..i + 1], Checked(s, limits, calls[i].now, calls[i].key, pol(calls[i].key)).0)
    ensures p(calls[..n], Run(start, limits, pol, calls[..n]))
    decreases n
  {
    if n != 0 {
      RunInduction(start, limits, pol, calls, n - 1, p);
      assert calls[..n] == calls[..n - 1] + [calls[n - 1]];
      RunOneMore(start, limits, pol, calls[..n - 1], calls[n - 1]);
      assert p(calls[..n - 1 + 1], Run(start, limits, pol, calls[..n]));
    } else {
      assert calls[..0] == [];
    }
  }

  /** The limiter is in order, and exact about `key` as long as fewer than `maxKeys` others were checked since. */
  ghost predicate ExactIfPaced(s: Limiter, limits: Limits, pol: Policies, calls: seq<Call>, key: Key, t0: real)
    requires pol(key).Positive()
  {
    Ordered(s, limits, pol, calls, key) &&
    (|Others(pol, calls, key)| < limits.maxKeys ==> Exact(s, pol, calls, key, LastTime(calls, t0)))
  }

  lemma {:induction false} ExactOneMore(s: Limiter, limits: Limits, pol: Policies, calls: seq<Call>, c: Call,
        key: Key, t0: real)
    requires pol(key).Positive() && ExactIfPaced(s, limits, pol, calls, key, t0)
    requires Chronological(calls + [c], t0) && Paced(limits, pol, calls + [c], key)
    ensures ExactIfPaced(Checked(s, limits, c.now, c.key, pol(c.key)).0, limits, pol, calls + [c], key, t0)
  {
    OrderedOneMore(s, limits, pol, calls, c, key);
    if |Others(pol, calls + [c], key)| < limits.maxKeys {
      PacedPrefix(limits, pol, calls, c, key, t0);
      StillPaced(limits, pol, calls, c, key);
      ExactStep(s, limits, pol, calls, c, key, LastTime(calls, t0));
    }
  }

  lemma {:induction false} ExactAtPrefix(s: Limiter, limits: Limits, pol: Policies, calls: seq<Call>, i: nat,
        key: Key, t0: real)
    requires pol(key).Positive() && Chronological(calls, t0) && Paced(limits, pol, calls, key)
    requires i < |calls| && ExactIfPaced(s, limits, pol, calls[..i], key, t0)
    ensures ExactIfPaced(Checked(s, limits, calls[i].now, calls[i].key, pol(calls[i].key)).0,
                         limits, pol, calls[..i + 1], key, t0)
  {
    assert calls[..i + 1] == calls[..i] + [calls[i]];
    PrefixIsPaced(limits, pol, t0, calls, key, i);
    ExactOneMore(s, limits, pol, calls[..i], calls[i], key, t0);
  }

  lemma {:induction false} NothingIsExact(limits: Limits, pol: Policies, key: Key, t0: real)
    requires pol(key).Positive()
    ensures ExactIfPaced(Limiter(map[], [], t0), limits, pol, [], key, t0)
  {}

  lemma {:induction false} OrderedOneMore(s: Limiter, limits: Limits, pol: Policies, calls: seq<Call>, c: Call,
        key: Key)
    requires pol(key).Positive() && Ordered(s, limits, pol, calls, key)
    ensures Ordered(Checked(s, limits, c.now, c.key, pol(c.key)).0, limits, pol, calls + [c], key)
  {
    OneMoreCall(pol, calls, c, key);
    if pol(c.key).Positive() {
      SweptStaysOrdered(s, limits, pol, calls, key, c.now);
      TouchedStaysOrdered(Swept(s, limits, c.now), limits, pol, calls, key, c);
      CheckedKeepsWellFormed(s, limits, c.now, c.key, pol(c.key));
    }
  }

  /** As long as fewer than `maxKeys` others were checked since, the count of `key` is exact. */
  lemma {:induction false} RunStaysExact(limits: Limits, pol: Policies, t0: real, calls: seq<Call>, key: Key)
    requires pol(key).Positive() && Chronological(calls, t0) && Paced(limits, pol, calls, key)
    ensures ExactIfPaced(Run(Limiter(map[], [], t0), limits, pol, calls), limits, pol, calls, key, t0)
  {
    var p := (cs: seq<Call>, s: Limiter) => ExactIfPaced(s, limits, pol, cs, key, t0);
    forall i: nat, s: Limiter | i < |calls| && p(calls[..i], s)
      ensures p(calls[..i + 1], Checked(s, limits, calls[i].now, calls[i].key, pol(calls[i].key)).0)
    {
      ExactAtPrefix(s, limits, pol, calls, i, key, t0);
    }
    NothingIsExact(limits, pol, key, t0);
    RunInduction(Limiter(map[], [], t0), limits, pol, calls, |calls|, p);
    assert calls[..|calls|] == calls;
  }

  lemma {:induction false} StillPaced(limits: Limits, pol: Policies, calls: seq<Call>, c: Call, key: Key)
    requires |Others(pol, calls + [c], key)| < limits.maxKeys
    requires c.key == key ==> |Others(pol, calls, key)| < limits.maxKeys
    ensures |Others(pol, calls, key)| < limits.maxKeys
    ensures c.key != key && pol(c.key).Positive() && Mentions(calls, key) ==>
              |Others(pol, calls, key) + {c.key}| < limits.maxKeys
  {
    OneMoreCall(pol, calls, c, key);
    if c.key != key && Mentions(calls, key) {
      SubsetSize(Others(pol, calls, key), Others(pol, calls + [c], key));
    } else if !Mentions(calls, key) {
      assert Others(pol, calls, key) == {};
    }
  }

  lemma {:induction false} ExactStep(s: Limiter, limits: Limits, pol: Policies, calls: seq<Call>, c: Call, key: Key,
        earlier: real)
    requires pol(key).Positive() && earlier <= c.now
    requires Exact(s, pol, calls, key, earlier) && Ordered(s, limits, pol, calls, key)
    requires c.key != key && pol(c.key).Positive() && Mentions(calls, key) ==>
               |Others(pol, calls, key) + {c.key}| < limits.maxKeys
    ensures Exact(Checked(s, limits, c.now, c.key, pol(c.key)).0, pol, calls + [c], key, c.now)
  {
    ExactLater(s, pol, calls, key, earlier, c.now);
    if pol(c.key).Positive() {
      ExactAfterSweep(s, limits, pol, calls, key, c.now);
      SweptStaysOrdered(s, limits, pol, calls, key, c.now);
      if c.key == key {
        ExactAfterOwn(Swept(s, limits, c.now), limits, pol, calls, c);
      } else {
        ExactAfterOther(Swept(s, limits, c.now), limits, pol, calls, key, c);
      }
    } else {
      forall i {
        AdmittedOther(pol, calls, c, key, i);
      }
    }
  }

  /** The limiter gives the fixed-window answer to every sufficiently paced key. */
  lemma {:induction false} FixedWindow(limits: Limits, pol: Policies, t0: real, calls: seq<Call>, c: Call)
    requires Chronological(calls + [c], t0) && Paced(limits, pol, calls + [c], c.key)
    ensures AsSpecified(Answer(limits, pol, t0, calls, c), pol, calls, c)
  {
    if pol(c.key).Positive() {
      var s := Run(Limiter(map[], [], t0), limits, pol, calls);
      PacedPrefix(limits, pol, calls, c, c.key, t0);
      RunStaysExact(limits, pol, t0, calls, c.key);
      RunStaysOrdered(limits, pol, t0, calls, c.key);
      ExactLater(s, pol, calls, c.key, LastTime(calls, t0), c.now);
      ExactAfterSweep(s, limits, pol, calls, c.key, c.now);
      SweptKeepsWellFormed(s, limits, c.now);
      ExactAfterOwn(Swept(s, limits, c.now), limits, pol, calls, c);
    }
  }

  /** A refused caller who waits as told is in a later window. */
  lemma {:induction false} RetryLandsLater(limits: Limits, pol: Policies, t0: real, calls: seq<Call>, c: Call,
        later: real)
    requires pol(c.key).Positive()
    requires !Answer(limits, pol, t0, calls, c).allowed
    requires later >= c.now + Answer(limits, pol, t0, calls, c).retryAfter as real
    ensures 1 <= Answer(limits, pol, t0, calls, c).retryAfter <= pol(c.key).window + 1
    ensures WindowStart(later, pol(c.key).window) > WindowStart(c.now, pol(c.key).window)
  {
    var p := pol(c.key);
    InsideWindow(c.now, p.window);
    LaterWindow(c.now, later, p.window);
  }

  // ---------- bursts across a boundary ----------

  lemma {:induction false} AdmittedAtMostCapacity(pol: Policies, calls: seq<Call>, key: Key, start: int)
    requires pol(key).Positive()
    ensures Admitted(pol, calls, key, start) <= pol(key).capacity
  {
    if calls != [] {
      AdmittedAtMostCapacity(pol, Front(calls), key, start);
    }
  }

  /** The calls for `key` in [from, from + window) that `allowed` lets through, given what came before. */
  ghost function LetThrough(allowed: (seq<Call>, Call) -> bool, calls: seq<Call>, key: Key, from: real,
        window: int): nat {
    if calls == [] then 0
    else
      var c := Last(calls);
      LetThrough(allowed, Front(calls), key, from, window) +
      if c.key == key && from <= c.now < from + window as real && allowed(Front(calls), c) then 1 else 0
  }

  lemma {:induction false} TwoWindows(from: real, now: real, window: int)
    requires window > 0 && from <= now < from + window as real
    ensures WindowStart(now, window) == WindowStart(from, window) ||
              WindowStart(now, window) == WindowStart(from, window) + window
  {
    InsideWindow(from, window);
    LaterWindow(from, now, window);
    var boundary := (WindowStart(from, window) + window) as real;
    if now >= boundary {
      LaterWindow(from, boundary, window);
      InsideWindow(boundary, window);
      LaterWindow(boundary, now, window);
    }
  }

  /** `allowed` lets a call for `key` through only when the specification would. */
  ghost predicate NeverTooGenerous(allowed: (seq<Call>, Call) -> bool, pol: Policies, calls: seq<Call>, key: Key)
    requires pol(key).Positive()
  {
    forall n :: 0 <= n < |calls| && calls[n].key == key && allowed(calls[..n], calls[n]) ==>
      Admitted(pol, calls[..n], key, WindowStart(calls[n].now, pol(key).window)) < pol(key).capacity
  }

  lemma {:induction false} SpanTouchesTwoWindows(allowed: (seq<Call>, Call) -> bool, pol: Policies, calls: seq<Call>,
        key: Key, from: real, first: int)
    requires pol(key).Positive() && NeverTooGenerous(allowed, pol, calls, key)
    requires first == WindowStart(from, pol(key).window)
    ensures LetThrough(allowed, calls, key, from, pol(key).window) <=
            Admitted(pol, calls, key, first) + Admitted(pol, calls, key, first + pol(key).window)
    decreases |calls|
  {
    if calls != [] {
      var before, c := Front(calls), Last(calls);
      assert calls == before + [c];
      assert forall n :: 0 <= n < |before| ==> calls[n] == before[n] && calls[..n] == before[..n];
      SpanTouchesTwoWindows(allowed, pol, before, key, from, first);
      if c.key == key && from <= c.now < from + pol(key).window as real && allowed(before, c) {
        assert calls[|before|] == c && calls[..|before|] == before;
        TwoWindows(from, c.now, pol(key).window);
        AdmittedSame(pol, before, c);
      }
    }
  }

  lemma {:induction false} AtMostTwiceCapacity(allowed: (seq<Call>, Call) -> bool, pol: Policies, calls: seq<Call>,
        key: Key, from: real)
    requires pol(key).Positive() && NeverTooGenerous(allowed, pol, calls, key)
    ensures LetThrough(allowed, calls, key, from, pol(key).window) <= 2 * pol(key).capacity
  {
    var first := WindowStart(from, pol(key).window);
    SpanTouchesTwoWindows(allowed, pol, calls, key, from, first);
    AdmittedAtMostCapacity(pol, calls, key, first);
    AdmittedAtMostCapacity(pol, calls, key, first + pol(key).window);
  }

  /** Any span of one window length lets through at most twice the capacity. */
  lemma {:induction false} BurstBound(limits: Limits, pol: Policies, t0: real, calls: seq<Call>, key: Key, from: real)
    requires pol(key).Positive() && Chronological(calls, t0) && Paced(limits, pol, calls, key)
    ensures LetThrough((cs, c) => Answer(limits, pol, t0, cs, c).allowed, calls, key, from, pol(key).window)
            <= 2 * pol(key).capacity
  {
    var allowed := (cs: seq<Call>, c: Call) => Answer(limits, pol, t0, cs, c).allowed;
    forall n | 0 <= n < |calls| && calls[n].key == key && allowed(calls[..n], calls[n])
      ensures Admitted(pol, calls[..n], key, WindowStart(calls[n].now, pol(key).window)) < pol(key).capacity
    {
      PrefixIsPaced(limits, pol, t0, calls, key, n);
      FixedWindow(limits, pol, t0, calls[..n], calls[n]);
    }
    AtMostTwiceCapacity(allowed, pol, calls, key, from);
  }

  lemma {:induction false} PrefixIsPaced(limits: Limits, pol: Policies, t0: real, calls: seq<Call>, key: Key, n: nat)
    requires n < |calls| && Chronological(calls, t0) && Paced(limits, pol, calls, key)
    ensures Chronological(calls[..n] + [calls[n]], t0) && Paced(limits, pol, calls[..n] + [calls[n]], key)
  {
    var some := calls[..n] + [calls[n]];
    assert forall i :: 0 <= i <= n ==> some[i] == calls[i] && some[..i] == calls[..i];
  }
}
