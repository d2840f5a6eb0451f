/**
 The in-memory rate limiter (maskguard/api/ratelimit/limiter.py): fixed windows, one
 bucket per key, least recently touched key evicted first, stale buckets swept inline.

 `RateLimiter` is the object and `Checked` one call on values.  Runs of calls are judged
 against `Admitted`, which remembers every call, never sweeps and never evicts.
 */
module RateLimiting {
  import opened KeyOrder
  import opened Models

  datatype Policy = Policy(capacity: int, window: int)
  {
    predicate Positive() { capacity > 0 && window > 0 }
  }

  datatype Decision = Decision(allowed: bool, retryAfter: int, limit: int, remaining: int)

  /** The answer to a call whose policy is not positive. */
  function Misconfigured(p: Policy): Decision {
    Decision(false, if p.window > 0 then p.window else 1, p.capacity, 0)
  }

  // ---------- windows ----------

  function WindowStart(now: real, window: int): int
    requires window > 0
  {
    now.Floor - now.Floor % window
  }

  lemma {:induction false} QuotientAtLeast(k: real, x: real, w: real)
    requires w > 0.0
    ensures k * w <= x <==> k <= x / w
  {
    var q := x / w;
    assert q * w == x;
    if k <= q {
      assert (q - k) * w >= 0.0;
    } else {
      assert (k - q) * w > 0.0;
    }
  }

  /** `WindowStart` is the floor of the quotient, times the window, as the source writes it. */
  lemma {:induction false} FloorDivision(now: real, window: int)
    requires window > 0
    ensures WindowStart(now, window) == (now / window as real).Floor * window
  {
    var k := now.Floor / window;
    assert now.Floor == window * k + now.Floor % window;
    var w := window as real;
    assert k as real * w == (k * window) as real;
    assert (k + 1) as real * w == ((k + 1) * window) as real;
    QuotientAtLeast(k as real, now, w);
    QuotientAtLeast((k + 1) as real, now, w);
    assert (k + 1) * window == k * window + window;
    assert (now / w).Floor == k;
  }

  lemma {:induction false} InsideWindow(now: real, window: int)
    requires window > 0
    ensures WindowStart(now, window) as real <= now < (WindowStart(now, window) + window) as real
  {}

  lemma {:induction false} Multiples(i: int, j: int, w: int)
    requires w > 0 && i < j
    ensures i * w + w <= j * w
  {
    assert (j - i - 1) * w >= 0;
    assert (j - i - 1) * w == j * w - i * w - w;
  }

  lemma {:induction false} LaterMultiple(n: int, m: int, w: int)
    requires w > 0 && n <= m
    ensures n - n % w <= m - m % w
    ensures m >= n - n % w + w ==> n - n % w + w <= m - m % w
    ensures m < n - n % w + w ==> n - n % w == m - m % w
  {
    var i, j := n / w, m / w;
    assert n - n % w == i * w && m - m % w == j * w;
    if i < j {
      Multiples(i, j, w);
    } else if j < i {
      Multiples(j, i, w);
    }
  }

  lemma {:induction false} LaterWindow(earlier: real, later: real, window: int)
    requires window > 0 && earlier <= later
    ensures WindowStart(earlier, window) <= WindowStart(later, window)
    ensures later >= (WindowStart(earlier, window) + window) as real ==>
              WindowStart(earlier, window) + window <= WindowStart(later, window)
    ensures later < (WindowStart(earlier, window) + window) as real ==>
              WindowStart(earlier, window) == WindowStart(later, window)
  {
    LaterMultiple(earlier.Floor, later.Floor, window);
  }

  // ---------- state ----------

  datatype Bucket = Bucket(windowStart: int, window: int, count: nat)
  {
    predicate Stale(now: real) { now >= (windowStart + window) as real }
  }

  /** `order` lists the keys of `buckets`, least recently touched first. */
  datatype Limiter = Limiter(buckets: map<Key, Bucket>, order: seq<Key>, lastCleanup: real)

  datatype Settings = Settings(maxKeys: int, cleanupInterval: int)

  /** The constructor raises both settings to at least one. */
  type Limits = l: Settings | l.maxKeys >= 1 && l.cleanupInterval >= 1 witness Settings(1, 1)

  function StaleKeys(buckets: map<Key, Bucket>, now: real): set<Key> {
    set k | k in buckets && buckets[k].Stale(now)
  }

  function Swept(s: Limiter, limits: Limits, now: real): Limiter {
    if now - s.lastCleanup < limits.cleanupInterval as real then s
    else
      var stale := StaleKeys(s.buckets, now);
      Limiter(s.buckets - stale, Keep(s.order, stale), now)
  }

  /** Room for `key`: the least recently touched key goes when a new key finds the store full. */
  function Evicted(s: Limiter, limits: Limits, key: Key): Limiter {
    if key !in s.buckets && |s.order| >= limits.maxKeys
    then s.(buckets := s.buckets - {s.order[0]}, order := s.order[1..])
    else s
  }

  /** `key` moves to the recent end, with a bucket for the window starting at `start`. */
  function Touched(s: Limiter, limits: Limits, key: Key, start: int, window: int): Limiter {
    if key in s.buckets && s.buckets[key].windowStart == start
    then s.(order := Keep(s.order, {key}) + [key])
    else
      var t := Evicted(s, limits, key);
      t.(buckets := t.buckets[key := Bucket(start, window, 0)], order := Keep(t.order, {key}) + [key])
  }

  /** One call: the new state and the answer. */
  function Checked(s: Limiter, limits: Limits, now: real, key: Key, p: Policy): (Limiter, Decision) {
    if !p.Positive() then (s, Misconfigured(p))
    else
      Counted(Touched(Swept(s, limits, now), limits, key, WindowStart(now, p.window), p.window), now, key, p)
  }

  /** Compare and increment, on the bucket that is now in place. */
  function Counted(t: Limiter, now: real, key: Key, p: Policy): (Limiter, Decision)
    requires key in t.buckets
  {
    var b := t.buckets[key];
    if b.count >= p.capacity then
      (t, Decision(false, Max(Truncated((b.windowStart + p.window) as real - now) + 1, 1), p.capacity, 0))
    else
      (t.(buckets := t.buckets[key := b.(count := b.count + 1)]),
       Decision(true, 0, p.capacity, Max(p.capacity - (b.count + 1), 0)))
  }

  ghost predicate WellFormed(s: Limiter, limits: Limits) {
    && Distinct(s.order)
    && (forall k :: k in s.order <==> k in s.buckets)
    && |s.order| <= limits.maxKeys
  }

  // ---------- the object ----------

  class RateLimiter {
    const limits: Limits
    var buckets: map<Key, Bucket>
    var order: seq<Key>
    var lastCleanup: real

    ghost predicate Valid()
      reads this
    {
      WellFormed(State(), limits)
    }

    ghost function State(): Limiter
      reads this
    {
      Limiter(buckets, order, lastCleanup)
    }

    constructor (maxKeys: int, cleanupInterval: int, now: real)
      ensures Valid() && State() == Limiter(map[], [], now)
      ensures limits == Settings(Max(1, maxKeys), Max(1, cleanupInterval))
    {
      limits := Settings(Max(1, maxKeys), Max(1, cleanupInterval));
      buckets, order, lastCleanup := map[], [], now;
    }

    method Check(now: real, key: Key, capacity: int, window: int) returns (d: Decision)
      requires Valid()
      modifies this
      ensures Valid()
      ensures State() == Checked(old(State()), limits, now, key, Policy(capacity, window)).0
      ensures d == Checked(old(State()), limits, now, key, Policy(capacity, window)).1
    {
      CheckedKeepsWellFormed(State(), limits, now, key, Policy(capacity, window));
      if capacity <= 0 || window <= 0 {
        return Decision(false, if window > 0 then window else 1, capacity, 0);
      }
      var windowStart := WindowStart(now, window);
      MaybeCleanup(now);
      Touch(key, windowStart, window);
      d := Count(now, key, Policy(capacity, window));
    }

    method Count(now: real, key: Key, p: Policy) returns (d: Decision)
      requires key in buckets
      modifies this`buckets
      ensures State() == Counted(old(State()), now, key, p).0
      ensures d == Counted(old(State()), now, key, p).1
    {
      var bucket := buckets[key];
      if bucket.count >= p.capacity {
        var retryAfter := Truncated((bucket.windowStart + p.window) as real - now) + 1;
        return Decision(false, Max(retryAfter, 1), p.capacity, 0);
      }
      bucket := bucket.(count := bucket.count + 1);
      buckets := buckets[key := bucket];
      return Decision(true, 0, p.capacity, Max(p.capacity - bucket.count, 0));
    }

    method Touch(key: Key, windowStart: int, window: int)
      requires Valid()
      modifies this
      ensures Valid() && State() == Touched(old(State()), limits, key, windowStart, window)
    {
      TouchedKeepsWellFormed(State(), limits, key, windowStart, window);
      if key !in buckets || buckets[key].windowStart != windowStart {
        if key !in buckets && |order| >= limits.maxKeys {
          buckets, order := buckets - {order[0]}, order[1..];
        }
        if key !in buckets {
          KeepAppended(order, key);
          order := order + [key];
        }
        buckets := buckets[key := Bucket(windowStart, window, 0)];
      }
      order := Keep(order, {key}) + [key];
    }

    method MaybeCleanup(now: real)
      requires Valid()
      modifies this
      ensures Valid() && State() == Swept(old(State()), limits, now)
    {
      SweptKeepsWellFormed(State(), limits, now);
      if now - lastCleanup < limits.cleanupInterval as real {
        return;
      }
      lastCleanup := now;
      var staleKeys := ListStale(now);
      Delete(staleKeys);
    }

    method Delete(keys: seq<Key>)
      modifies this`buckets, this`order
      ensures order == Keep(old(order), Elements(keys)) && buckets == old(buckets) - Elements(keys)
    {
      KeepNothing(order);
      assert Elements(keys[..0]) == {};
      for i := 0 to |keys|
        invariant order == Keep(old(order), Elements(keys[..i])) && buckets == old(buckets) - Elements(keys[..i])
      {
        KeepTwice(old(order), Elements(keys[..i]), {keys[i]});
        assert Elements(keys[..i + 1]) == Elements(keys[..i]) + {keys[i]};
        buckets, order := buckets - {keys[i]}, Keep(order, {keys[i]});
      }
      assert keys[..|keys|] == keys;
    }

    method ListStale(now: real) returns (staleKeys: seq<Key>)
      requires Valid()
      ensures Elements(staleKeys) == StaleKeys(buckets, now)
    {
      staleKeys := [];
      for i := 0 to |order|
        invariant forall k :: k in staleKeys <==> k in order[..i] && buckets[k].Stale(now)
      {
        if buckets[order[i]].Stale(now) {
          staleKeys := staleKeys + [order[i]];
        }
      }
    }

    /** The forced sweep.  It runs only if the clock already reads at least interval - 1. */
    method CleanupNow(now: real) returns (removed: nat)
      requires Valid()
      modifies this
      ensures Valid()
      ensures removed == old(|order|) - |order|
      ensures now + 1.0 >= limits.cleanupInterval as real ==>
                order == Keep(old(order), StaleKeys(old(buckets), now)) &&
                  buckets == old(buckets) - StaleKeys(old(buckets), now)
      ensures now + 1.0 < limits.cleanupInterval as real ==> order == old(order) && buckets == old(buckets)
      ensures lastCleanup == if now + 1.0 >= limits.cleanupInterval as real then now else -1.0
    {
      var before := |order|;
      lastCleanup := -1.0;
      MaybeCleanup(now);
      return before - |order|;
    }

    method KeyCount() returns (n: nat)
      requires Valid()
      ensures n == |buckets.Keys| <= limits.maxKeys
    {
      DistinctCount(order, buckets.Keys);
      return |order|;
    }
  }

  // ---------- the invariant ----------

  lemma {:induction false} SweptKeepsWellFormed(s: Limiter, limits: Limits, now: real)
    requires WellFormed(s, limits)
    ensures WellFormed(Swept(s, limits, now), limits)
  {
    KeepDistinct(s.order, StaleKeys(s.buckets, now));
  }

  lemma {:induction false} TouchedKeepsWellFormed(s: Limiter, limits: Limits, key: Key, start: int, window: int)
    requires WellFormed(s, limits)
    ensures WellFormed(Touched(s, limits, key, start, window), limits)
    ensures key in Touched(s, limits, key, start, window).buckets
  {
    var t := if key in s.buckets && s.buckets[key].windowStart == start then s else Evicted(s, limits, key);
    KeepDistinct(t.order, {key});
  }

  /** The store never outgrows `maxKeys`, and keys and order never disagree. */
  lemma {:induction false} CheckedKeepsWellFormed(s: Limiter, limits: Limits, now: real, key: Key, p: Policy)
    requires WellFormed(s, limits)
    ensures WellFormed(Checked(s, limits, now, key, p).0, limits)
  {
    if p.Positive() {
      SweptKeepsWellFormed(s, limits, now);
      TouchedKeepsWellFormed(Swept(s, limits, now), limits, key, WindowStart(now, p.window), p.window);
    }
  }

  // ---------- sweeping and waiting ----------

  /** A sweep is due once per interval; it takes the buckets whose window is over, and nothing else. */
  lemma {:induction false} SweepsExactly(s: Limiter, limits: Limits, now: real, key: Key)
    ensures var t := Swept(s, limits, now);
            && (key in t.buckets <==>
                  && key in s.buckets
                  && (now < s.lastCleanup + limits.cleanupInterval as real ||
                      now < (s.buckets[key].windowStart + s.buckets[key].window) as real))
            && (key in t.buckets ==> t.buckets[key] == s.buckets[key])
            && t.lastCleanup == if now < s.lastCleanup + limits.cleanupInterval as real then s.lastCleanup else now
  {}

  /** Who is told to wait is told the whole seconds left of the window, plus one. */
  lemma {:induction false} WaitsExactly(s: Limiter, limits: Limits, now: real, key: Key, p: Policy)
    requires WellFormed(s, limits) && p.Positive() && !Checked(s, limits, now, key, p).1.allowed
    ensures var d, end := Checked(s, limits, now, key, p).1, ((now / p.window as real).Floor + 1) * p.window;
            end as real < now + d.retryAfter as real <= end as real + 1.0
  {
    SweptKeepsWellFormed(s, limits, now);
    FloorDivision(now, p.window);
    InsideWindow(now, p.window);
    var k := (now / p.window as real).Floor;
    assert (k + 1) * p.window == k * p.window + p.window;
  }

  /** A policy that is not positive lets nobody through. */
  lemma {:induction false} MisconfiguredExactly(s: Limiter, limits: Limits, now: real, key: Key, p: Policy)
    requires p.capacity <= 0 || p.window <= 0
    ensures Checked(s, limits, now, key, p) == (s, Decision(false, if p.window > 0 then p.window else 1, p.capacity, 0))
  {}
}
