/**
 The order of an ordered dictionary, as a sequence of distinct keys: the limiter and the
 session store both evict from its front and move touched keys to its end.
 */
module KeyOrder {

  type Key = string

  ghost predicate Distinct(order: seq<Key>) { forall i, j :: 0 <= i < j < |order| ==> order[i] != order[j] }

  ghost function Elements(keys: seq<Key>): set<Key> { set k | k in keys }

  /** `order` without the keys in `gone`. */
  function Keep(order: seq<Key>, gone: set<Key>): (kept: seq<Key>)
    ensures forall k :: k in kept <==> k in order && k !in gone
    ensures |kept| <= |order|
  {
    if order == [] then []
    else if order[0] in gone then Keep(order[1..], gone)
    else [order[0]] + Keep(order[1..], gone)
  }

  lemma {:induction false} KeepNothing(order: seq<Key>)
    ensures Keep(order, {}) == order
  {
    if order != [] {
      KeepNothing(order[1..]);
    }
  }

  lemma {:induction false} KeepTwice(order: seq<Key>, a: set<Key>, b: set<Key>)
    ensures Keep(Keep(order, a), b) == Keep(order, a + b)
  {
    if order != [] {
      KeepTwice(order[1..], a, b);
      if order[0] !in a {
        assert ([order[0]] + Keep(order[1..], a))[1..] == Keep(order[1..], a);
      }
    }
  }

  lemma {:induction false} KeepAppended(order: seq<Key>, key: Key)
    ensures Keep(order + [key], {key}) == Keep(order, {key})
  {
    if order == [] {
      assert Keep([], {key}) == [];
    } else {
      KeepAppended(order[1..], key);
      assert (order + [key])[1..] == order[1..] + [key];
    }
  }

  lemma {:induction false} KeepDistinct(order: seq<Key>, gone: set<Key>)
    requires Distinct(order)
    ensures Distinct(Keep(order, gone))
    ensures (exists k :: k in order && k in gone) ==> |Keep(order, gone)| < |order|
  {
    if order != [] {
      KeepDistinct(order[1..], gone);
      assert forall k :: k in order ==> k == order[0] || k in order[1..];
      if order[0] !in gone {
        var rest := Keep(order[1..], gone);
        assert order[0] !in rest;
      }
    }
  }

  lemma {:induction false} DistinctCount(order: seq<Key>, keys: set<Key>)
    requires Distinct(order) && forall k :: k in order <==> k in keys
    ensures |order| == |keys|
    decreases order
  {
    if order == [] {
      assert keys == {};
    } else {
      assert order[0] !in order[1..];
      assert forall k :: k in order ==> k == order[0] || k in order[1..];
      DistinctCount(order[1..], keys - {order[0]});
    }
  }

  lemma {:induction false} KeepAll(order: seq<Key>, key: Key)
    requires key !in order
    ensures Keep(order, {key}) == order
  {
    if order != [] {
      KeepAll(order[1..], key);
    }
  }

  lemma {:induction false} ElementsSize(order: seq<Key>)
    requires Distinct(order)
    ensures |Elements(order)| == |order|
  {
    DistinctCount(order, Elements(order));
  }

  /** The keys that come after `key`. */
  ghost function After(order: seq<Key>, key: Key): set<Key> {
    if order == [] then {}
    else if order[0] == key then Elements(order[1..])
    else After(order[1..], key)
  }

  lemma {:induction false} AfterIsWithin(order: seq<Key>, key: Key)
    ensures After(order, key) <= Elements(order)
    ensures key !in order ==> After(order, key) == {}
  {
    if order != [] {
      AfterIsWithin(order[1..], key);
    }
  }

  lemma {:induction false} AfterKeep(order: seq<Key>, gone: set<Key>, key: Key)
    ensures After(Keep(order, gone), key) <= After(order, key)
    ensures key !in gone ==> After(Keep(order, gone), key) == After(order, key) - gone
  {
    if order != [] {
      AfterKeep(order[1..], gone, key);
      AfterIsWithin(Keep(order[1..], gone), key);
      if order[0] !in gone {
        assert ([order[0]] + Keep(order[1..], gone))[1..] == Keep(order[1..], gone);
      }
    }
  }

  lemma {:induction false} AfterAppend(order: seq<Key>, x: Key, key: Key)
    ensures After(order + [x], key) <= After(order, key) + {x}
    ensures key in order ==> After(order + [x], key) == After(order, key) + {x}
    ensures key !in order ==> After(order + [x], key) == {}
  {
    if order == [] {
      assert (order + [x])[1..] == [];
    } else {
      AfterAppend(order[1..], x, key);
      assert (order + [x])[1..] == order[1..] + [x];
      assert order[0] == key ==> Elements(order[1..] + [x]) == Elements(order[1..]) + {x};
    }
  }

  lemma {:induction false} AfterAt(order: seq<Key>, i: nat, j: nat)
    requires i < j < |order| && Distinct(order)
    ensures order[j] in After(order, order[i])
  {
    if i != 0 {
      AfterAt(order[1..], i - 1, j - 1);
      assert order[1..][i - 1] == order[i];
    } else {
      assert order[1..][j - 1] == order[j];
    }
  }

  lemma {:induction false} FewerAfter(order: seq<Key>, key: Key)
    requires Distinct(order) && key in order
    ensures |After(order, key)| < |order|
  {
    if order[0] == key {
      assert Distinct(order[1..]);
      ElementsSize(order[1..]);
    } else {
      FewerAfter(order[1..], key);
    }
  }
}
