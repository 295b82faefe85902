/**
  The sliding-window limiter of common/rate-limit.go. Each key keeps a queue of at most
  `limit` admission times, and a background cleaner drops queues whose newest entry has
  expired. The reference is the naive limiter that remembers every admission for ever.

  Times are whole seconds; `expiration` is the cleaner's period in whole seconds, where 0 stands for
  a period below one second. With no period at all the source starts no cleaner.
 */
module RateLimiter {

  type Key = string
  type Store = map<Key, seq<int>>

  // ------------------------------------------------------------------ specification of one call

  /** No queue in the store is ever empty. */
  predicate QueuesNonEmpty(store: Store) {
    forall k | k in store :: store[k] != []
  }

  predicate Allows(store: Store, key: Key, limit: nat, duration: int, now: int)
    requires QueuesNonEmpty(store)
  {
    key !in store || |store[key]| < limit || now - store[key][0] >= duration
  }

  function AfterRequest(store: Store, key: Key, limit: nat, duration: int, now: int): Store
    requires QueuesNonEmpty(store)
  {
    if !Allows(store, key, limit, duration, now) then store
    else if key !in store then store[key := [now]]
    else if |store[key]| < limit then store[key := store[key] + [now]]
    else store[key := store[key][1..] + [now]]
  }

  function AfterCleaning(store: Store, now: int, expiration: int): Store
    requires QueuesNonEmpty(store)
  {
    store - (set k | k in store && now - store[k][|store[k]| - 1] > expiration)
  }

  /** The limiter object; its mutex makes each method one atomic step. */
  class InMemoryRateLimiter {
    var store: Store
    const expiration: int

    constructor (expiration: int)
      ensures store == map[] && this.expiration == expiration
    {
      store := map[];
      this.expiration := expiration;
    }

    method Request(key: Key, maxRequestNum: nat, duration: int, now: int) returns (allowed: bool)
      requires QueuesNonEmpty(store)
      modifies this`store
      ensures QueuesNonEmpty(store)
      ensures allowed == Allows(old(store), key, maxRequestNum, duration, now)
      ensures store == AfterRequest(old(store), key, maxRequestNum, duration, now)
    {
      if key in store {
        var queue := store[key];
        if |queue| < maxRequestNum {
          store := store[key := queue + [now]];
          return true;
        } else if now - queue[0] >= duration {
          queue := queue[1..];
          queue := queue + [now];
          store := store[key := queue];
          return true;
        } else {
          return false;
        }
      }
      store := store[key := []];
      store := store[key := store[key] + [now]];
      assert store[key] == [now];
      return true;
    }

    /** One round of clearExpiredItems; the map is visited in an arbitrary order. */
    method ClearExpired(now: int)
      requires QueuesNonEmpty(store)
      modifies this`store
      ensures QueuesNonEmpty(store)
      ensures store == AfterCleaning(old(store), now, expiration)
    {
      var todo := store.Keys;
      while todo != {}
        invariant todo <= store.Keys <= old(store).Keys
        invariant forall k | k in old(store) ::
                    k in store <==> k in todo || now - old(store)[k][|old(store)[k]| - 1] <= expiration
        invariant forall k | k in store :: store[k] == old(store)[k]
        decreases |todo|
      {
        var key :| key in todo;
        todo := todo - {key};
        var queue := store[key];
        var size := |queue|;
        if size == 0 || now - queue[size - 1] > expiration {
          store := store - {key};
        }
      }
    }
  }

  // ------------------------------------------------------------------ runs

  datatype Event = Request(key: Key, now: int) | Clean(now: int)

  /** Each key is always used with the same limit and duration. */
  datatype Policy = Policy(limit: Key -> nat, duration: Key -> int)

  /** The store after one event. */
  function After(p: Policy, expiration: int, store: Store, e: Event): (next: Store)
    requires QueuesNonEmpty(store)
    ensures QueuesNonEmpty(next)
  {
    match e
    case Request(k, now) => AfterRequest(store, k, p.limit(k), p.duration(k), now)
    case Clean(now) => AfterCleaning(store, now, expiration)
  }

  /** The store after a run of requests and cleaner rounds. */
  function Exec(p: Policy, expiration: int, events: seq<Event>): (store: Store)
    ensures QueuesNonEmpty(store)
  {
    if events == [] then map[]
    else After(p, expiration, Exec(p, expiration, events[..|events| - 1]), events[|events| - 1])
  }

  /** The number of times in hist that are younger than duration at time now. */
  function Young(hist: seq<int>, now: int, duration: int): (n: nat)
    ensures n <= |hist|
  {
    if hist == [] then 0
    else Young(hist[..|hist| - 1], now, duration) + (if now - hist[|hist| - 1] < duration then 1 else 0)
  }

  /** A limit of zero lets one request through, as the queue is created before it is consulted. */
  function Effective(limit: nat): nat {
    if limit == 0 then 1 else limit
  }

  /** The reference limiter: the admissions of `key` after one more event, decided by counting. */
  function AdmittedAfter(p: Policy, hist: seq<int>, key: Key, e: Event): seq<int> {
    if e.Request? && e.key == key && Young(hist, e.now, p.duration(key)) < Effective(p.limit(key))
    then hist + [e.now]
    else hist
  }

  /** Every admission of `key` in a run of the reference limiter. */
  function Admitted(p: Policy, events: seq<Event>, key: Key): seq<int> {
    if events == [] then []
    else AdmittedAfter(p, Admitted(p, events[..|events| - 1], key), key, events[|events| - 1])
  }

  ghost predicate ClockMonotone(events: seq<Event>) {
    forall i, j | 0 <= i <= j < |events| :: events[i].now <= events[j].now
  }

  function Clock(events: seq<Event>, start: int): int {
    if events == [] then start else events[|events| - 1].now
  }

  // ------------------------------------------------------------------ the refinement

  ghost predicate Sorted(hist: seq<int>, clock: int) {
    && (forall i, j | 0 <= i <= j < |hist| :: hist[i] <= hist[j])
    && (forall i | 0 <= i < |hist| :: hist[i] <= clock)
  }

  ghost predicate Stale(hist: seq<int>, clock: int, duration: int) {
    forall i | 0 <= i < |hist| :: clock - hist[i] >= duration
  }

  /** The queue is the tail of the full history; what it forgot can no longer matter. */
  ghost predicate Represents(store: Store, key: Key, hist: seq<int>, limit: nat, duration: int, clock: int) {
    && Sorted(hist, clock)
    && if key !in store then Stale(hist, clock, duration)
       else
         var q := store[key];
         && 1 <= |q| <= limit && |q| <= |hist| && q == hist[|hist| - |q|..]
         && (|q| < limit ==> Stale(hist[..|hist| - |q|], clock, duration))
  }

  lemma {:induction false} YoungStale(hist: seq<int>, now: int, duration: int)
    requires Stale(hist, now, duration)
    ensures Young(hist, now, duration) == 0
  {
    if hist == [] {
    } else {
      YoungStale(hist[..|hist| - 1], now, duration);
    }
  }

  lemma {:induction false} YoungAll(hist: seq<int>, now: int, duration: int)
    requires forall i | 0 <= i < |hist| :: now - hist[i] < duration
    ensures Young(hist, now, duration) == |hist|
  {
    if hist == [] {
    } else {
      YoungAll(hist[..|hist| - 1], now, duration);
    }
  }

  lemma {:induction false} YoungSplit(a: seq<int>, b: seq<int>, now: int, duration: int)
    ensures Young(a + b, now, duration) == Young(a, now, duration) + Young(b, now, duration)
  {
    if b == [] {
      assert a + b == a;
    } else {
      YoungSplit(a, b[..|b| - 1], now, duration);
      assert (a + b)[..|a + b| - 1] == a + b[..|b| - 1];
    }
  }

  /** A tail of the history holds the young admissions that are in it, and those before it are counted apart. */
  lemma YoungTail(hist: seq<int>, q: seq<int>, cut: nat, now: int, duration: int)
    requires cut <= |hist| && q == hist[cut..]
    ensures Young(hist, now, duration) == Young(hist[..cut], now, duration) + Young(q, now, duration)
  {
    assert hist == hist[..cut] + q;
    YoungSplit(hist[..cut], q, now, duration);
  }

  /** What is stale now stays stale. */
  lemma StaleLater(hist: seq<int>, clock: int, now: int, duration: int)
    requires Stale(hist, clock, duration) && clock <= now
    ensures Young(hist, now, duration) == 0
  {
    YoungStale(hist, now, duration);
  }

  /** A queue whose oldest entry is young has only young entries. */
  lemma YoungQueue(hist: seq<int>, cut: nat, now: int, duration: int)
    requires cut < |hist| && Sorted(hist, now) && now - hist[cut] < duration
    ensures Young(hist, now, duration) >= |hist| - cut
  {
    var q := hist[cut..];
    forall i | 0 <= i < |q| ensures now - q[i] < duration {
      assert q[i] == hist[cut + i];
    }
    YoungAll(q, now, duration);
    YoungTail(hist, q, cut, now, duration);
  }

  /** The queue decides as the full history does. */
  lemma SameDecision(store: Store, key: Key, hist: seq<int>, limit: nat, duration: int, clock: int, now: int)
    requires QueuesNonEmpty(store) && clock <= now
    requires Represents(store, key, hist, Effective(limit), duration, clock)
    ensures Allows(store, key, limit, duration, now) <==> Young(hist, now, duration) < Effective(limit)
  {
    if key !in store {
      StaleLater(hist, clock, now, duration);
    } else {
      var q := store[key];
      var cut := |hist| - |q|;
      assert q[0] == hist[cut];
      if |q| < Effective(limit) {
        StaleLater(hist[..cut], clock, now, duration);
        YoungTail(hist, q, cut, now, duration);
      } else if now - q[0] >= duration {
        FullQueueExpired(hist, cut, now, duration);
      } else {
        YoungQueue(hist, cut, now, duration);
      }
    }
  }

  /** If the oldest entry of the queue has expired, so has everything before it. */
  lemma FullQueueExpired(hist: seq<int>, cut: nat, now: int, duration: int)
    requires cut < |hist| && Sorted(hist, now) && now - hist[cut] >= duration
    ensures Young(hist, now, duration) < |hist| - cut
  {
    YoungStale(hist[..cut + 1], now, duration);
    YoungSplit(hist[..cut + 1], hist[cut + 1..], now, duration);
    assert hist == hist[..cut + 1] + hist[cut + 1..];
  }

  /** An admission while the queue has room, or has none of its own yet. */
  lemma RoomRepresents(store: Store, key: Key, hist: seq<int>, limit: nat, duration: int, clock: int, now: int)
    requires clock <= now && 1 <= limit && Represents(store, key, hist, limit, duration, clock)
    requires key in store ==> |store[key]| < limit
    ensures var q := if key in store then store[key] + [now] else [now];
            Represents(store[key := q], key, hist + [now], limit, duration, now)
  {
    if key in store {
      var cut := |hist| - |store[key]|;
      assert hist[cut..] + [now] == (hist + [now])[cut..];
      assert (hist + [now])[..cut] == hist[..cut];
    } else {
      assert (hist + [now])[|hist|..] == [now] && (hist + [now])[..|hist|] == hist;
    }
  }

  /** An admission that pushes the oldest, expired entry out of a full queue. */
  lemma FullRepresents(store: Store, key: Key, hist: seq<int>, limit: nat, duration: int, clock: int, now: int)
    requires clock <= now && Represents(store, key, hist, limit, duration, clock)
    requires key in store && |store[key]| == limit
    ensures Represents(store[key := store[key][1..] + [now]], key, hist + [now], limit, duration, now)
  {
    var cut := |hist| - |store[key]|;
    assert hist[cut..][1..] + [now] == (hist + [now])[cut + 1..];
  }

  lemma RequestRepresents(store: Store, key: Key, hist: seq<int>, limit: nat, duration: int, clock: int, now: int)
    requires QueuesNonEmpty(store) && clock <= now
    requires Represents(store, key, hist, Effective(limit), duration, clock)
    ensures Represents(AfterRequest(store, key, limit, duration, now), key,
                       if Allows(store, key, limit, duration, now) then hist + [now] else hist,
                       Effective(limit), duration, now)
  {
    if !Allows(store, key, limit, duration, now) {
      OtherRepresents(store, key, hist, Effective(limit), duration, clock, now, store);
    } else if key in store && |store[key]| == Effective(limit) {
      FullRepresents(store, key, hist, Effective(limit), duration, clock, now);
    } else {
      RoomRepresents(store, key, hist, Effective(limit), duration, clock, now);
    }
  }

  /** A cleaner round, or a request for another key, keeps what the queue stands for. */
  lemma CleanRepresents(store: Store, key: Key, hist: seq<int>, limit: nat, duration: int, clock: int, now: int,
                        expiration: int)
    requires QueuesNonEmpty(store) && clock <= now && expiration + 1 >= duration
    requires Represents(store, key, hist, limit, duration, clock)
    ensures Represents(AfterCleaning(store, now, expiration), key, hist, limit, duration, now)
  {
    if key in store {
      assert store[key][|store[key]| - 1] == hist[|hist| - 1];
    }
  }

  lemma OtherRepresents(store: Store, key: Key, hist: seq<int>, limit: nat, duration: int, clock: int, now: int,
                        other: Store)
    requires clock <= now && Represents(store, key, hist, limit, duration, clock)
    requires (key in other <==> key in store) && (key in store ==> other[key] == store[key])
    ensures Represents(other, key, hist, limit, duration, now)
  {
  }

  /** One event keeps what the queue stands for, if the reference decides the event too. */
  lemma AfterRepresents(p: Policy, expiration: int, store: Store, e: Event, key: Key, hist: seq<int>, clock: int)
    requires QueuesNonEmpty(store) && clock <= e.now && expiration + 1 >= p.duration(key)
    requires Represents(store, key, hist, Effective(p.limit(key)), p.duration(key), clock)
    ensures Represents(After(p, expiration, store, e), key, AdmittedAfter(p, hist, key, e),
                       Effective(p.limit(key)), p.duration(key), e.now)
  {
    var limit, duration := p.limit(key), p.duration(key);
    if e.Clean? {
      CleanRepresents(store, key, hist, Effective(limit), duration, clock, e.now, expiration);
    } else if e.key == key {
      SameDecision(store, key, hist, limit, duration, clock, e.now);
      RequestRepresents(store, key, hist, limit, duration, clock, e.now);
    } else {
      OtherRepresents(store, key, hist, Effective(limit), duration, clock, e.now, After(p, expiration, store, e));
    }
  }

  lemma {:induction false} ExecRepresents(p: Policy, expiration: int, events: seq<Event>, key: Key, start: int)
    requires ClockMonotone(events) && expiration + 1 >= p.duration(key)
    requires events != [] ==> start <= events[0].now
    ensures Represents(Exec(p, expiration, events), key, Admitted(p, events, key),
                       Effective(p.limit(key)), p.duration(key), Clock(events, start))
  {
    if events == [] {
    } else {
      var prefix, e := events[..|events| - 1], events[|events| - 1];
      ExecRepresents(p, expiration, prefix, key, start);
      assert Clock(prefix, start) <= e.now;
      var store, hist := Exec(p, expiration, prefix), Admitted(p, prefix, key);
      AfterRepresents(p, expiration, store, e, key, hist, Clock(prefix, start));
    }
  }

  /**
    In every run with a monotone clock, cleaner rounds anywhere, every decision equals the
    reference: fewer than `limit` past admissions are younger than `duration`.
   */
  lemma {:induction false} DecisionsAgree(p: Policy, expiration: int, events: seq<Event>, key: Key, now: int)
    requires ClockMonotone(events + [Event.Request(key, now)]) && expiration + 1 >= p.duration(key)
    ensures Allows(Exec(p, expiration, events), key, p.limit(key), p.duration(key), now)
       <==> Young(Admitted(p, events, key), now, p.duration(key)) < Effective(p.limit(key))
  {
    var all := events + [Event.Request(key, now)];
    var start := all[0].now;
    assert forall i | 0 <= i < |events| :: events[i] == all[i];
    assert Clock(events, start) <= all[|events|].now;
    ExecRepresents(p, expiration, events, key, start);
    SameDecision(Exec(p, expiration, events), key, Admitted(p, events, key),
                 p.limit(key), p.duration(key), Clock(events, start), now);
  }
}
