/**
 Pending login transactions (maskguard/api/auth/session.py): consumed once, in memory with
 eviction or in Redis with a time to live.

 Both stores may lose a transaction on their own; `Lossy` allows for that, and nothing that
 is merely lossy can hand the same transaction out twice.
 */
module PendingTransactions {
  import opened KeyOrder
  import opened Models

  datatype Transaction = Transaction(
    transactionId: string, state: string, nonce: string, codeVerifier: string, createdAt: real, returnPath: string)
  {
    predicate IsExpired(ttl: int, now: real) { now - createdAt > ttl as real }
  }

  type Contents = map<Key, Transaction>

  datatype Step = Create(txn: Transaction) | Consume(id: string, ttl: int, now: real, answer: Option<Transaction>)

  ghost predicate PartOf(a: Contents, b: Contents) { forall k :: k in a ==> k in b && a[k] == b[k] }

  /** What a store may do: lose entries at any time, but never keep a consumed one. */
  ghost predicate Lossy(before: Contents, step: Step, after: Contents) {
    match step
    case Create(txn) => PartOf(after, before[txn.transactionId := txn])
    case Consume(id, ttl, now, answer) =>
      && PartOf(after, before - {id})
      && (answer.Some? ==>
            id in before && answer.value == before[id] && now <= before[id].createdAt + ttl as real)
  }

  lemma {:induction false} NoneGone(order: seq<Key>, contents: Contents)
    ensures order[0..] == order && contents - Elements(order[..0]) == contents
  {}

  lemma {:induction false} OneMoreGone(order: seq<Key>, contents: Contents, n: nat)
    requires n < |order|
    ensures order[n..][0] == order[n] && order[n..][1..] == order[n + 1..]
    ensures contents - Elements(order[..n]) - {order[n]} == contents - Elements(order[..n + 1])
  {
    assert order[..n + 1] == order[..n] + [order[n]];
    assert Elements(order[..n + 1]) == Elements(order[..n]) + {order[n]};
  }

  lemma {:induction false} WithoutPrefix(order: seq<Key>, contents: Contents, n: nat)
    requires Distinct(order) && (forall k :: k in order <==> k in contents) && n <= |order|
    ensures Distinct(order[n..]) && forall k :: k in order[n..] <==> k in contents - Elements(order[..n])
  {
    assert order == order[..n] + order[n..];
  }

  class InMemoryPendingTransactionStore {
    const maxTransactions: int
    var transactions: Contents
    var order: seq<Key>

    ghost predicate Valid()
      reads this
    {
      && maxTransactions >= 1 && |order| <= maxTransactions
      && Distinct(order) && forall k :: k in order <==> k in transactions
    }

    constructor (maxTransactions: int)
      requires maxTransactions >= 1
      ensures Valid() && transactions == map[] && order == [] && this.maxTransactions == maxTransactions
    {
      this.maxTransactions, transactions, order := maxTransactions, map[], [];
    }

    /** How many transactions must go to make room for one. */
    ghost function Surplus(): nat
      reads this
    {
      Max(0, |order| + 1 - maxTransactions)
    }

    method Create(txn: Transaction)
      requires Valid() && txn.transactionId !in transactions
      modifies this`transactions, this`order
      ensures Valid() && Lossy(old(transactions), Step.Create(txn), transactions)
      ensures order == old(order)[old(Surplus())..] + [txn.transactionId]
      ensures transactions == (old(transactions) - Elements(old(order)[..old(Surplus())]))[txn.transactionId := txn]
    {
      WithoutPrefix(order, transactions, Surplus());
      MakeRoom();
      transactions, order := transactions[txn.transactionId := txn], order + [txn.transactionId];
    }

    /** The oldest transactions go until there is room for one. */
    method MakeRoom()
      requires 1 <= maxTransactions
      modifies this`transactions, this`order
      ensures old(Surplus()) <= old(|order|) && order == old(order)[old(Surplus())..]
      ensures transactions == old(transactions) - Elements(old(order)[..old(Surplus())])
    {
      ghost var oldest, contents, surplus, gone := order, transactions, Surplus(), 0;
      NoneGone(oldest, contents);
      while |order| >= maxTransactions
        invariant gone <= surplus && order == oldest[gone..] && transactions == contents - Elements(oldest[..gone])
        decreases |order|
      {
        OneMoreGone(oldest, contents, gone);
        transactions, order := transactions - {order[0]}, order[1..];
        gone := gone + 1;
      }
    }

    method Consume(id: string, ttl: int, now: real) returns (r: Option<Transaction>)
      requires Valid()
      modifies this`transactions, this`order
      ensures Valid() && Lossy(old(transactions), Step.Consume(id, ttl, now, r), transactions)
      ensures transactions == old(transactions) - {id}
      ensures r.Some? <==> id in old(transactions) && now <= old(transactions)[id].createdAt + ttl as real
    {
      KeepDistinct(order, {id});
      if id !in transactions {
        return None;
      }
      var txn := transactions[id];
      transactions, order := transactions - {id}, Keep(order, {id});
      if txn.IsExpired(ttl, now) {
        return None;
      }
      return Some(txn);
    }
  }

  datatype Entry = Entry(txn: Transaction, expiresAt: real)

  ghost function VisibleIn(db: map<Key, Entry>, now: real): Contents {
    map id | id in db && now < db[id].expiresAt :: db[id].txn
  }

  lemma {:induction false} VisibleAfterCreate(db: map<Key, Entry>, entry: Entry, now: real)
    ensures VisibleIn(db[entry.txn.transactionId := entry], now) ==
            if now < entry.expiresAt then VisibleIn(db, now)[entry.txn.transactionId := entry.txn]
            else VisibleIn(db, now) - {entry.txn.transactionId}
  {}

  lemma {:induction false} LossyAfterCreate(db: map<Key, Entry>, entry: Entry, now: real, later: real)
    requires now <= later
    ensures Lossy(VisibleIn(db, now), Step.Create(entry.txn), VisibleIn(db[entry.txn.transactionId := entry], later))
  {}

  /** SET EX and GETDEL, one atomic command each. */
  class RedisPendingTransactionStore {
    var db: map<Key, Entry>

    ghost function Visible(now: real): Contents
      reads this
    {
      VisibleIn(db, now)
    }

    method Create(txn: Transaction)
      modifies this
      ensures forall now, later :: now <= later ==> Lossy(old(Visible(now)), Step.Create(txn), Visible(later))
      ensures forall now :: now < txn.createdAt + 3600.0 ==> Visible(now) == old(Visible(now))[txn.transactionId := txn]
      ensures forall now :: now >= txn.createdAt + 3600.0 ==> Visible(now) == old(Visible(now)) - {txn.transactionId}
    {
      ghost var before, entry := db, Entry(txn, txn.createdAt + 3600.0);
      db := db[txn.transactionId := Entry(txn, txn.createdAt + 3600.0)];
      forall now, later | now <= later
        ensures Lossy(VisibleIn(before, now), Step.Create(txn), VisibleIn(db, later))
      {
        LossyAfterCreate(before, entry, now, later);
      }
      forall now
        ensures VisibleIn(db, now) == if now < entry.expiresAt then VisibleIn(before, now)[txn.transactionId := txn]
                                      else VisibleIn(before, now) - {txn.transactionId}
      {
        VisibleAfterCreate(before, entry, now);
      }
    }

    method Consume(id: string, ttl: int, now: real) returns (r: Option<Transaction>)
      modifies this
      ensures forall later :: now <= later ==> Lossy(old(Visible(now)), Step.Consume(id, ttl, now, r), Visible(later))
      ensures r.Some? <==> id in old(Visible(now)) && now <= old(Visible(now))[id].createdAt + ttl as real
    {
      if id !in db || now >= db[id].expiresAt {
        return None;
      }
      var txn := db[id].txn;
      db := db - {id};
      if txn.IsExpired(ttl, now) {
        return None;
      }
      return Some(txn);
    }
  }

  // ---------- runs ----------

  /** The contents before and after every step. */
  ghost predicate IsRun(states: seq<Contents>, steps: seq<Step>) {
    |states| == |steps| + 1 && forall i :: 0 <= i < |steps| ==> Lossy(states[i], steps[i], states[i + 1])
  }

  predicate Names(step: Step, id: string) {
    match step
    case Create(txn) => txn.transactionId == id
    case Consume(x, _, _, _) => x == id
  }

  ghost predicate FreshIds(steps: seq<Step>) {
    forall i, j :: 0 <= i < j < |steps| && steps[j].Create? ==> !Names(steps[i], steps[j].txn.transactionId)
  }

  lemma {:induction false} GoneAfterConsume(states: seq<Contents>, steps: seq<Step>, i: nat, n: nat, id: string)
    requires IsRun(states, steps) && FreshIds(steps) && i < n <= |steps|
    requires steps[i].Consume? && steps[i].id == id
    ensures id !in states[n]
    decreases n - i
  {
    assert Lossy(states[n - 1], steps[n - 1], states[n]);
    if n - 1 > i {
      GoneAfterConsume(states, steps, i, n - 1, id);
      assert Names(steps[i], id);
    }
  }

  /** A transaction is consumed at most once: a second attempt gets nothing. */
  lemma {:induction false} ConsumedAtMostOnce(states: seq<Contents>, steps: seq<Step>, i: nat, j: nat)
    requires IsRun(states, steps) && FreshIds(steps) && i < j < |steps|
    requires steps[i].Consume? && steps[j].Consume? && steps[i].id == steps[j].id
    ensures steps[j].answer == None
  {
    GoneAfterConsume(states, steps, i, j, steps[i].id);
    assert Lossy(states[j], steps[j], states[j + 1]);
  }
}
