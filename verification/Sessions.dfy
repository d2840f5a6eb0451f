/**
 Server-side sessions (maskguard/api/auth/session.py, maskguard/api/auth/models.py).

 `InMemorySessionStore` is bounded and evicts the least recently used session,
 `RedisSessionStore` keeps records under keys with a time to live.  `Ideal` is a store that
 never forgets on its own; runs of the two real stores are compared with runs of it.
 Every operation happens at one instant, and newly minted ids are inputs.
 */
module Sessions {
  import opened KeyOrder
  import opened Models

  datatype Identity = Identity(
    subject: string, issuer: string, authenticatedAt: real, provider: string,
    email: Option<string>, displayName: Option<string>)

  datatype SessionRecord = SessionRecord(
    sessionId: string, identity: Identity, createdAt: real, lastSeenAt: real, absoluteExpiresAt: real)
  {
    predicate IsExpired(idleTimeout: int, now: real) {
      now > absoluteExpiresAt || now - lastSeenAt > idleTimeout as real
    }
  }

  function Minted(id: string, identity: Identity, absoluteTimeout: int, now: real): SessionRecord {
    SessionRecord(id, identity, now, now, now + absoluteTimeout as real)
  }

  datatype Operation =
    | Create(id: string, identity: Identity, absoluteTimeout: int)
    | Get(id: string, idleTimeout: int)
    | Delete(id: string)
    | Rotate(oldId: string, id: string, idleTimeout: int, absoluteTimeout: int)

  datatype Step = Step(now: real, op: Operation)

  type Answer = Option<SessionRecord>

  // ---------- the ideal store ----------

  type Records = map<Key, SessionRecord>

  function Looked(s: Records, id: string, idleTimeout: int, now: real): (Records, Answer) {
    if id !in s then (s, None)
    else if s[id].IsExpired(idleTimeout, now) then (s - {id}, None)
    else
      var r := s[id].(lastSeenAt := now);
      (s[id := r], Some(r))
  }

  function Ideal(s: Records, step: Step): (Records, Answer) {
    match step.op
    case Create(id, identity, absolute) =>
      var r := Minted(id, identity, absolute, step.now);
      (s[id := r], Some(r))
    case Get(id, idle) => Looked(s, id, idle, step.now)
    case Delete(id) => (s - {id}, None)
    case Rotate(oldId, id, idle, absolute) =>
      if oldId !in s || s[oldId].IsExpired(idle, step.now) then (s - {oldId}, None)
      else
        var r := Minted(id, s[oldId].identity, absolute, step.now);
        ((s - {oldId})[id := r], Some(r))
  }

  // ---------- the bounded store ----------

  /** `order` lists the ids of `records`, least recently used first. */
  datatype Bounded = Bounded(records: Records, order: seq<string>)

  ghost predicate WellFormed(b: Bounded) {
    && Distinct(b.order)
    && (forall k :: k in b.order <==> k in b.records)
  }

  /** Room for one more: the least recently used sessions go. */
  function Evicted(b: Bounded, capacity: nat): Bounded
    decreases |b.order|
  {
    if |b.order| < capacity || b.order == [] then b
    else Evicted(Bounded(b.records - {b.order[0]}, b.order[1..]), capacity)
  }

  /** `r` under `id`, at the most recent end. */
  function Put(b: Bounded, id: string, r: SessionRecord): Bounded {
    Bounded(b.records[id := r], Keep(b.order, {id}) + [id])
  }

  function Stored(b: Bounded, capacity: nat, r: SessionRecord): Bounded { Put(Evicted(b, capacity), r.sessionId, r) }

  function Dropped(b: Bounded, id: string): Bounded { Bounded(b.records - {id}, Keep(b.order, {id})) }

  function InMemory(b: Bounded, capacity: nat, step: Step): (Bounded, Answer) {
    match step.op
    case Create(id, identity, absolute) =>
      var r := Minted(id, identity, absolute, step.now);
      (Stored(b, capacity, r), Some(r))
    case Get(id, idle) =>
      if id !in b.records then (b, None)
      else if b.records[id].IsExpired(idle, step.now) then (Dropped(b, id), None)
      else
        var r := b.records[id].(lastSeenAt := step.now);
        (Put(b, id, r), Some(r))
    case Delete(id) => (Dropped(b, id), None)
    case Rotate(oldId, id, idle, absolute) =>
      if oldId !in b.records || b.records[oldId].IsExpired(idle, step.now) then (Dropped(b, oldId), None)
      else
        var r := Minted(id, b.records[oldId].identity, absolute, step.now);
        (Stored(Dropped(b, oldId), capacity, r), Some(r))
  }

  class InMemorySessionStore {
    const maxSessions: int
    var records: Records
    var order: seq<string>

    ghost predicate Valid()
      reads this
    {
      WellFormed(State()) && maxSessions >= 1 && |order| <= maxSessions
    }

    ghost function State(): Bounded
      reads this
    {
      Bounded(records, order)
    }

    constructor (maxSessions: int)
      requires maxSessions >= 1
      ensures Valid() && State() == Bounded(map[], []) && this.maxSessions == maxSessions
    {
      this.maxSessions, records, order := maxSessions, map[], [];
    }

    method EvictIfFull()
      requires maxSessions >= 1
      modifies this`records, this`order
      ensures State() == Evicted(old(State()), maxSessions)
    {
      while |order| >= maxSessions
        invariant Evicted(State(), maxSessions) == Evicted(old(State()), maxSessions)
        decreases |order|
      {
        records, order := records - {order[0]}, order[1..];
      }
    }

    method Store(r: SessionRecord)
      requires Valid()
      modifies this`records, this`order
      ensures Valid() && State() == Stored(old(State()), maxSessions, r)
    {
      StoredIsWellFormed(State(), maxSessions, r);
      EvictIfFull();
      records := records[r.sessionId := r];
      order := Keep(order, {r.sessionId}) + [r.sessionId];
    }

    method Create(now: real, id: string, identity: Identity, absoluteTimeout: int) returns (r: SessionRecord)
      requires Valid()
      modifies this
      ensures Valid()
      ensures (State(), Some(r)) ==
                InMemory(old(State()), maxSessions, Step(now, Operation.Create(id, identity, absoluteTimeout)))
    {
      r := SessionRecord(id, identity, now, now, now + absoluteTimeout as real);
      Store(r);
    }

    method Get(now: real, id: string, idleTimeout: int) returns (r: Answer)
      requires Valid()
      modifies this
      ensures Valid()
      ensures (State(), r) == InMemory(old(State()), maxSessions, Step(now, Operation.Get(id, idleTimeout)))
    {
      KeepDistinct(order, {id});
      if id !in records {
        return None;
      }
      var record := records[id];
      if record.IsExpired(idleTimeout, now) {
        records, order := records - {id}, Keep(order, {id});
        return None;
      }
      record := record.(lastSeenAt := now);
      records, order := records[id := record], Keep(order, {id}) + [id];
      return Some(record);
    }

    method Delete(now: real, id: string)
      requires Valid()
      modifies this
      ensures Valid()
      ensures State() == InMemory(old(State()), maxSessions, Step(now, Operation.Delete(id))).0
    {
      KeepDistinct(order, {id});
      records, order := records - {id}, Keep(order, {id});
    }

    method Rotate(now: real, oldId: string, newId: string, idleTimeout: int, absoluteTimeout: int) returns (r: Answer)
      requires Valid()
      modifies this
      ensures Valid()
      ensures (State(), r) ==
                InMemory(old(State()), maxSessions,
                         Step(now, Operation.Rotate(oldId, newId, idleTimeout, absoluteTimeout)))
    {
      KeepDistinct(order, {oldId});
      var found := if oldId in records then Some(records[oldId]) else None;
      records, order := records - {oldId}, Keep(order, {oldId});
      if found.None? || found.value.IsExpired(idleTimeout, now) {
        return None;
      }
      var record := SessionRecord(newId, found.value.identity, now, now, now + absoluteTimeout as real);
      Store(record);
      return Some(record);
    }
  }

  lemma {:induction false} EvictedIsWellFormed(b: Bounded, capacity: nat)
    requires WellFormed(b) && capacity >= 1
    ensures WellFormed(Evicted(b, capacity)) && |Evicted(b, capacity).order| < capacity
    ensures forall k :: k in Evicted(b, capacity).records ==>
              k in b.records && Evicted(b, capacity).records[k] == b.records[k]
    decreases |b.order|
  {
    if |b.order| >= capacity {
      var c := Bounded(b.records - {b.order[0]}, b.order[1..]);
      assert forall k :: k in b.order <==> k == b.order[0] || k in c.order;
      EvictedIsWellFormed(c, capacity);
    }
  }

  lemma {:induction false} StoredIsWellFormed(b: Bounded, capacity: nat, r: SessionRecord)
    requires WellFormed(b) && capacity >= 1
    ensures WellFormed(Stored(b, capacity, r)) && |Stored(b, capacity, r).order| <= capacity
  {
    EvictedIsWellFormed(b, capacity);
    PutIsWellFormed(Evicted(b, capacity), r.sessionId, r);
  }

  lemma {:induction false} PutIsWellFormed(b: Bounded, id: string, r: SessionRecord)
    requires WellFormed(b)
    ensures WellFormed(Put(b, id, r)) && |Put(b, id, r).order| <= |b.order| + 1
    ensures id in b.records ==> |Put(b, id, r).order| <= |b.order|
  {
    KeepDistinct(b.order, {id});
  }

  lemma {:induction false} DroppedIsWellFormed(b: Bounded, id: string)
    requires WellFormed(b)
    ensures WellFormed(Dropped(b, id)) && |Dropped(b, id).order| <= |b.order|
    ensures id in b.records ==> |Dropped(b, id).order| < |b.order|
  {
    KeepDistinct(b.order, {id});
  }

  /** The store never holds more than its capacity. */
  lemma {:induction false} StaysWithinCapacity(b: Bounded, capacity: nat, step: Step)
    requires WellFormed(b) && capacity >= 1 && |b.order| <= capacity
    ensures WellFormed(InMemory(b, capacity, step).0) && |InMemory(b, capacity, step).0.order| <= capacity
  {
    match step.op {
      case Create(id, identity, absolute) =>
        StoredIsWellFormed(b, capacity, Minted(id, identity, absolute, step.now));
      case Get(id, idle) =>
        DroppedIsWellFormed(b, id);
        if id in b.records {
          PutIsWellFormed(b, id, b.records[id].(lastSeenAt := step.now));
        }
      case Delete(id) =>
        DroppedIsWellFormed(b, id);
      case Rotate(oldId, id, idle, absolute) =>
        RotateStaysWithinCapacity(b, capacity, step.now, oldId, id, absolute);
    }
  }

  lemma {:induction false} RotateStaysWithinCapacity(b: Bounded, capacity: nat, now: real, oldId: string, id: string,
        absolute: int)
    requires WellFormed(b) && capacity >= 1 && |b.order| <= capacity
    ensures WellFormed(Dropped(b, oldId)) && |Dropped(b, oldId).order| <= capacity
    ensures oldId in b.records ==>
              var c := Stored(Dropped(b, oldId), capacity, Minted(id, b.records[oldId].identity, absolute, now));
              WellFormed(c) && |c.order| <= capacity
  {
    DroppedIsWellFormed(b, oldId);
    if oldId in b.records {
      StoredIsWellFormed(Dropped(b, oldId), capacity, Minted(id, b.records[oldId].identity, absolute, now));
    }
  }

  // ---------- the Redis store ----------

  datatype Entry = Entry(record: SessionRecord, expiresAt: real)

  type Db = map<Key, Entry>

  predicate Visible(db: Db, id: string, now: real) { id in db && now < db[id].expiresAt }

  /** `get`: a hit is written back with the shorter of the two remaining times, if a second of it is left. */
  function RedisLooked(db: Db, id: string, idleTimeout: int, now: real): (Db, Answer) {
    if !Visible(db, id, now) then (db, None)
    else
      var record := db[id].record;
      if record.IsExpired(idleTimeout, now) then (db - {id}, None)
      else
        var r := record.(lastSeenAt := now);
        var left := r.absoluteExpiresAt - now;
        var ttl := Truncated(if idleTimeout as real <= left then idleTimeout as real else left);
        (if ttl > 0 then db[id := Entry(r, now + ttl as real)] else db, Some(r))
  }

  function RedisMinted(db: Db, r: SessionRecord, absoluteTimeout: int, now: real): Db {
    db[r.sessionId := Entry(r, now + Max(1, absoluteTimeout) as real)]
  }

  function Redis(db: Db, step: Step): (Db, Answer) {
    match step.op
    case Create(id, identity, absolute) =>
      var r := Minted(id, identity, absolute, step.now);
      (RedisMinted(db, r, absolute, step.now), Some(r))
    case Get(id, idle) => RedisLooked(db, id, idle, step.now)
    case Delete(id) => (db - {id}, None)
    case Rotate(oldId, id, idle, absolute) =>
      var (looked, found) := RedisLooked(db, oldId, idle, step.now);
      if found.None? then (looked, None)
      else
        var r := Minted(id, found.value.identity, absolute, step.now);
        (RedisMinted(looked - {oldId}, r, absolute, step.now), Some(r))
  }

  class RedisSessionStore {
    var db: Db

    constructor ()
      ensures db == map[]
    {
      db := map[];
    }

    method Create(now: real, id: string, identity: Identity, absoluteTimeout: int) returns (r: SessionRecord)
      modifies this
      ensures (db, Some(r)) == Redis(old(db), Step(now, Operation.Create(id, identity, absoluteTimeout)))
    {
      r := SessionRecord(id, identity, now, now, now + absoluteTimeout as real);
      var ttl := Max(1, absoluteTimeout);
      db := db[id := Entry(r, now + ttl as real)];
    }

    method Get(now: real, id: string, idleTimeout: int) returns (r: Answer)
      modifies this
      ensures (db, r) == RedisLooked(old(db), id, idleTimeout, now)
    {
      if id !in db || now >= db[id].expiresAt {
        return None;
      }
      var record := db[id].record;
      if record.IsExpired(idleTimeout, now) {
        Delete(id);
        return None;
      }
      record := record.(lastSeenAt := now);
      var left := record.absoluteExpiresAt - now;
      var newTtl := Truncated(if idleTimeout as real <= left then idleTimeout as real else left);
      if newTtl > 0 {
        db := db[id := Entry(record, now + newTtl as real)];
      }
      return Some(record);
    }

    method Delete(id: string)
      modifies this
      ensures db == old(db) - {id}
    {
      db := db - {id};
    }

    method Rotate(now: real, oldId: string, newId: string, idleTimeout: int, absoluteTimeout: int) returns (r: Answer)
      modifies this
      ensures (db, r) == Redis(old(db), Step(now, Operation.Rotate(oldId, newId, idleTimeout, absoluteTimeout)))
    {
      var found := Get(now, oldId, idleTimeout);
      if found.None? {
        return None;
      }
      Delete(oldId);
      var record := SessionRecord(newId, found.value.identity, now, now, now + absoluteTimeout as real);
      var ttl := Max(1, absoluteTimeout);
      db := db[newId := Entry(record, now + ttl as real)];
      return Some(record);
    }
  }
}
