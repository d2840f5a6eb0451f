/**
 What the bounded key space costs (maskguard/api/ratelimit/limiter.py): with at most
 `maxKeys` keys in play every answer is the fixed-window one, with one key more it is not.
 */
module RateLimitEviction {
  import opened Collections
  import opened KeyOrder
  import opened RateLimiting
  import opened RateLimitRuns

  /** On every run over `keys`, under every policy, the answers are the fixed-window ones. */
  ghost predicate AlwaysAsSpecified(limits: Limits, keys: set<Key>) {
    forall pol: Policies, t0: real, calls: seq<Call>, c: Call ::
      Chronological(calls + [c], t0) && Over(calls + [c], keys) ==>
        AsSpecified(Answer(limits, pol, t0, calls, c), pol, calls, c)
  }

  ghost predicate Over(calls: seq<Call>, keys: set<Key>) { forall i :: 0 <= i < |calls| ==> calls[i].key in keys }

  lemma {:induction false} OthersWithin(pol: Policies, calls: seq<Call>, key: Key, keys: set<Key>)
    requires Over(calls, keys)
    ensures Others(pol, calls, key) <= keys - {key}
  {
    if calls != [] {
      OthersWithin(pol, Front(calls), key, keys);
    }
  }

  lemma {:induction false} FewKeysArePaced(limits: Limits, pol: Policies, calls: seq<Call>, key: Key, keys: set<Key>)
    requires Over(calls, keys) && key in keys && |keys| <= limits.maxKeys
    ensures Paced(limits, pol, calls, key)
  {
    forall j | 0 <= j < |calls| && calls[j].key == key
      ensures |Others(pol, calls[..j], key)| < limits.maxKeys
    {
      OthersWithin(pol, calls[..j], key, keys);
      SubsetSize(Others(pol, calls[..j], key), keys - {key});
    }
  }

  // ---------- one key too many ----------

  /** `victim`, then everyone in `others`, all at the same moment. */
  ghost function Flood(victim: Key, others: seq<Key>): seq<Call> {
    if others == [] then [Call(0.0, victim)]
    else Flood(victim, others[..|others| - 1]) + [Call(0.0, others[|others| - 1])]
  }

  lemma {:induction false} FloodCalls(victim: Key, others: seq<Key>)
    ensures var calls := Flood(victim, others);
            |calls| == |others| + 1 && calls[0] == Call(0.0, victim) &&
            forall i :: 0 <= i < |others| ==> calls[i + 1] == Call(0.0, others[i])
  {
    if others != [] {
      FloodCalls(victim, others[..|others| - 1]);
    }
  }

  const ONE_CALL: Policies := (k: Key) => Policy(1, 1)

  const EMPTY := Limiter(map[], [], 0.0)

  /** A key that is not in the store is let in, if need be in place of the least recent one. */
  lemma {:induction false} Newcomer(s: Limiter, limits: Limits, x: Key)
    requires WellFormed(s, limits) && s.lastCleanup == 0.0 && x !in s.order
    ensures var (u, d) := Checked(s, limits, 0.0, x, ONE_CALL(x));
            && d.allowed && u.lastCleanup == 0.0
            && u.order == (if |s.order| < limits.maxKeys then s.order else s.order[1..]) + [x]
  {
    assert Swept(s, limits, 0.0) == s;
    KeepAll(Evicted(s, limits, x).order, x);
  }

  /** The order after a flood by `others`: the victim stays first in line until the store is full. */
  ghost function FloodedOrder(limits: Limits, victim: Key, others: seq<Key>): seq<Key> {
    if |others| < limits.maxKeys then [victim] + others else others
  }

  lemma {:induction false} OneMoreNewcomer(s: Limiter, limits: Limits, victim: Key, fewer: seq<Key>, x: Key)
    requires WellFormed(s, limits) && s.lastCleanup == 0.0 && s.order == FloodedOrder(limits, victim, fewer)
    requires |fewer| < limits.maxKeys && x != victim && x !in fewer
    ensures var u := Checked(s, limits, 0.0, x, ONE_CALL(x)).0;
            u.lastCleanup == 0.0 && u.order == FloodedOrder(limits, victim, fewer + [x])
  {
    Newcomer(s, limits, x);
    FloodedOneMore(limits, victim, fewer, x);
  }

  lemma {:induction false} FloodedOneMore(limits: Limits, victim: Key, fewer: seq<Key>, x: Key)
    requires |fewer| < limits.maxKeys
    ensures var order := FloodedOrder(limits, victim, fewer);
            (if |order| < limits.maxKeys then order else order[1..]) + [x] == FloodedOrder(limits, victim, fewer + [x])
  {
    assert [victim] + fewer + [x] == [victim] + (fewer + [x]);
    assert ([victim] + fewer)[1..] == fewer;
  }

  lemma {:induction false} FloodFills(limits: Limits, victim: Key, others: seq<Key>)
    requires Distinct(others) && victim !in others && |others| <= limits.maxKeys
    ensures var s := Run(EMPTY, limits, ONE_CALL, Flood(victim, others));
            s.lastCleanup == 0.0 && s.order == FloodedOrder(limits, victim, others)
    decreases |others|
  {
    if others == [] {
      assert Flood(victim, []) == [] + [Call(0.0, victim)];
      RunOneMore(EMPTY, limits, ONE_CALL, [], Call(0.0, victim));
      Newcomer(EMPTY, limits, victim);
    } else {
      var fewer, x := others[..|others| - 1], others[|others| - 1];
      assert others == fewer + [x];
      FloodFills(limits, victim, fewer);
      OnlyPositiveKeys(limits, ONE_CALL, 0.0, Flood(victim, fewer));
      OneMoreNewcomer(Run(EMPTY, limits, ONE_CALL, Flood(victim, fewer)), limits, victim, fewer, x);
      RunOneMore(EMPTY, limits, ONE_CALL, Flood(victim, fewer), Call(0.0, x));
    }
  }

  lemma {:induction false} VictimSpent(victim: Key, others: seq<Key>)
    requires victim !in others
    ensures Admitted(ONE_CALL, Flood(victim, others), victim, WindowStart(0.0, 1)) == 1
  {
    if others == [] {
      assert Front(Flood(victim, [])) == [];
    } else {
      var fewer := others[..|others| - 1];
      VictimSpent(victim, fewer);
      AdmittedOther(ONE_CALL, Flood(victim, fewer), Call(0.0, others[|others| - 1]), victim, WindowStart(0.0, 1));
    }
  }

  /** A flood of `maxKeys` other keys reopens a window whose capacity is already used up. */
  lemma {:induction false} FloodReopensWindow(limits: Limits, victim: Key, others: seq<Key>)
    requires Distinct(others) && victim !in others && |others| == limits.maxKeys
    ensures var calls, c := Flood(victim, others), Call(0.0, victim);
            Answer(limits, ONE_CALL, 0.0, calls, c).allowed &&
              !AsSpecified(Answer(limits, ONE_CALL, 0.0, calls, c), ONE_CALL, calls, c)
  {
    FloodFills(limits, victim, others);
    VictimSpent(victim, others);
    OnlyPositiveKeys(limits, ONE_CALL, 0.0, Flood(victim, others));
    Newcomer(Run(EMPTY, limits, ONE_CALL, Flood(victim, others)), limits, victim);
  }

  lemma {:induction false} ListOf(keys: set<Key>, n: nat) returns (list: seq<Key>)
    requires n <= |keys|
    ensures |list| == n && Distinct(list) && forall k :: k in list ==> k in keys
  {
    if n == 0 {
      list := [];
    } else {
      var k :| k in keys;
      var rest := ListOf(keys - {k}, n - 1);
      list := [k] + rest;
    }
  }

  lemma {:induction false} EnoughRoom(limits: Limits, keys: set<Key>)
    requires |keys| <= limits.maxKeys
    ensures AlwaysAsSpecified(limits, keys)
  {
    forall pol: Policies, t0: real, calls: seq<Call>, c: Call |
      Chronological(calls + [c], t0) && Over(calls + [c], keys)
      ensures AsSpecified(Answer(limits, pol, t0, calls, c), pol, calls, c)
    {
      assert (calls + [c])[|calls|] == c;
      FewKeysArePaced(limits, pol, calls + [c], c.key, keys);
      FixedWindow(limits, pol, t0, calls, c);
    }
  }

  lemma {:induction false} FloodIsOver(victim: Key, others: seq<Key>, keys: set<Key>)
    requires victim in keys && forall k :: k in others ==> k in keys
    ensures Chronological(Flood(victim, others) + [Call(0.0, victim)], 0.0)
    ensures Over(Flood(victim, others) + [Call(0.0, victim)], keys)
  {
    FloodCalls(victim, others);
    var calls := Flood(victim, others) + [Call(0.0, victim)];
    forall i | 0 <= i < |calls|
      ensures calls[i].now == 0.0 && calls[i].key in keys
    {
      if 0 < i <= |others| {
        assert calls[i - 1 + 1] == Call(0.0, others[i - 1]);
      }
    }
  }

  /** The size limit is harmless for a set of keys exactly when the set fits. */
  lemma {:induction false} ExactlyWhenKeysFit(limits: Limits, keys: set<Key>)
    ensures AlwaysAsSpecified(limits, keys) <==> |keys| <= limits.maxKeys
  {
    if |keys| <= limits.maxKeys {
      EnoughRoom(limits, keys);
    } else {
      var list := ListOf(keys, limits.maxKeys + 1);
      var victim, others := list[0], list[1..];
      assert forall i :: 0 <= i < |others| ==> others[i] == list[i + 1];
      FloodReopensWindow(limits, victim, others);
      FloodIsOver(victim, others, keys);
    }
  }
}
