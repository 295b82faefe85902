/**
  What the limiter guarantees about its own admissions, and that the bound on the cleaner's period
  is exact.
 */
module RateLimiterBounds {
  import opened RateLimiter

  /** The number of times in hist inside the span of `duration` seconds that starts at `from`. */
  function InSpan(hist: seq<int>, from: int, duration: int): nat {
    if hist == [] then 0
    else InSpan(hist[..|hist| - 1], from, duration)
         + (if from <= hist[|hist| - 1] < from + duration then 1 else 0)
  }

  lemma {:induction false} SpanYoung(hist: seq<int>, from: int, duration: int, now: int)
    requires now < from + duration
    ensures InSpan(hist, from, duration) <= Young(hist, now, duration)
  {
    if hist == [] {
    } else {
      SpanYoung(hist[..|hist| - 1], from, duration, now);
    }
  }

  /** The reference never admits more than the limit in a span of `duration` seconds. */
  lemma {:induction false} AdmittedSpanBound(p: Policy, events: seq<Event>, key: Key, from: int)
    ensures InSpan(Admitted(p, events, key), from, p.duration(key)) <= Effective(p.limit(key))
  {
    if events == [] {
    } else {
      var prefix, e := events[..|events| - 1], events[|events| - 1];
      AdmittedSpanBound(p, prefix, key, from);
      var hist := Admitted(p, prefix, key);
      if Admitted(p, events, key) != hist {
        assert (hist + [e.now])[..|hist|] == hist;
        if from <= e.now < from + p.duration(key) {
          SpanYoung(hist, from, p.duration(key), e.now);
        }
      }
    }
  }

  /** The times at which the limiter itself let requests for `key` through. */
  function Granted(p: Policy, expiration: int, events: seq<Event>, key: Key): seq<int> {
    if events == [] then []
    else
      var prefix, e := events[..|events| - 1], events[|events| - 1];
      var before := Granted(p, expiration, prefix, key);
      if e.Request? && e.key == key && Allows(Exec(p, expiration, prefix), key, p.limit(key), p.duration(key), e.now)
      then before + [e.now]
      else before
  }

  /** The limiter lets through exactly what the reference admits. */
  lemma {:induction false} GrantedIsAdmitted(p: Policy, expiration: int, events: seq<Event>, key: Key)
    requires ClockMonotone(events) && expiration + 1 >= p.duration(key)
    ensures Granted(p, expiration, events, key) == Admitted(p, events, key)
  {
    if events == [] {
    } else {
      var prefix, e := events[..|events| - 1], events[|events| - 1];
      GrantedIsAdmitted(p, expiration, prefix, key);
      if e.Request? && e.key == key {
        assert events == prefix + [Event.Request(key, e.now)];
        DecisionsAgree(p, expiration, prefix, key, e.now);
      }
    }
  }

  /** No span of `duration` seconds ever holds more admissions of the limiter than the limit. */
  lemma {:induction false} SpanBound(p: Policy, expiration: int, events: seq<Event>, key: Key, from: int)
    requires ClockMonotone(events) && expiration + 1 >= p.duration(key)
    ensures InSpan(Granted(p, expiration, events, key), from, p.duration(key)) <= Effective(p.limit(key))
  {
    GrantedIsAdmitted(p, expiration, events, key);
    AdmittedSpanBound(p, events, key, from);
  }

  /** n requests in the same second. */
  function Burst(key: Key, n: nat): seq<Event> {
    seq(n, _ => Event.Request(key, 0))
  }

  lemma BurstSnoc(key: Key, n: nat)
    requires n > 0
    ensures Burst(key, n) == Burst(key, n - 1) + [Event.Request(key, 0)]
  {
  }

  ghost predicate AllZero(hist: seq<int>) {
    forall i | 0 <= i < |hist| :: hist[i] == 0
  }

  lemma AdmittedSnoc(p: Policy, events: seq<Event>, key: Key, e: Event)
    ensures Admitted(p, events + [e], key) == AdmittedAfter(p, Admitted(p, events, key), key, e)
  {
    assert (events + [e])[..|events|] == events;
  }

  lemma AdmitOneMore(p: Policy, hist: seq<int>, key: Key)
    requires |hist| < Effective(p.limit(key)) && AllZero(hist)
    ensures AdmittedAfter(p, hist, key, Event.Request(key, 0)) == hist + [0] && AllZero(hist + [0])
  {
  }

  lemma {:induction false} BurstAdmitted(p: Policy, key: Key, n: nat)
    requires n <= Effective(p.limit(key))
    ensures |Admitted(p, Burst(key, n), key)| == n && AllZero(Admitted(p, Burst(key, n), key))
  {
    if n == 0 {
    } else {
      BurstAdmitted(p, key, n - 1);
      BurstSnoc(key, n);
      AdmittedSnoc(p, Burst(key, n - 1), key, Event.Request(key, 0));
      AdmitOneMore(p, Admitted(p, Burst(key, n - 1), key), key);
    }
  }

  lemma ExecSnoc(p: Policy, expiration: int, events: seq<Event>, e: Event)
    ensures Exec(p, expiration, events + [e]) == After(p, expiration, Exec(p, expiration, events), e)
  {
    assert (events + [e])[..|events|] == events;
  }

  ghost predicate ZeroQueue(store: Store, key: Key) {
    key in store ==> AllZero(store[key])
  }

  lemma ZerosStay(store: Store, key: Key, limit: nat, duration: int)
    requires QueuesNonEmpty(store) && ZeroQueue(store, key)
    ensures ZeroQueue(AfterRequest(store, key, limit, duration, 0), key)
  {
  }

  lemma {:induction false} BurstQueue(p: Policy, expiration: int, key: Key, n: nat)
    ensures ZeroQueue(Exec(p, expiration, Burst(key, n)), key)
  {
    if n == 0 {
    } else {
      BurstQueue(p, expiration, key, n - 1);
      BurstSnoc(key, n);
      ExecSnoc(p, expiration, Burst(key, n - 1), Event.Request(key, 0));
      ZerosStay(Exec(p, expiration, Burst(key, n - 1)), key, p.limit(key), p.duration(key));
    }
  }

  /**
    The bound on the cleaner's period is exact: with a shorter one, a burst that fills the
    limit, one cleaner round and one more request already disagree with the reference.
   */
  lemma ShortExpirationForgets(p: Policy, expiration: nat, key: Key) returns (events: seq<Event>, now: int)
    requires expiration + 1 < p.duration(key)
    ensures ClockMonotone(events + [Event.Request(key, now)])
    ensures Allows(Exec(p, expiration, events), key, p.limit(key), p.duration(key), now)
    ensures !(Young(Admitted(p, events, key), now, p.duration(key)) < Effective(p.limit(key)))
  {
    var burst := Burst(key, Effective(p.limit(key)));
    BurstAdmitted(p, key, Effective(p.limit(key)));
    BurstQueue(p, expiration, key, Effective(p.limit(key)));
    now := expiration + 1;
    events := burst + [Clean(now)];
    assert events[..|events| - 1] == burst;
    ExecSnoc(p, expiration, burst, Clean(now));
    YoungAll(Admitted(p, burst, key), now, p.duration(key));
  }

  /** Every decision of every run with a monotone clock equals the reference. */
  ghost predicate AlwaysAgrees(p: Policy, expiration: int, key: Key) {
    forall events: seq<Event>, now: int | ClockMonotone(events + [Event.Request(key, now)]) ::
      Allows(Exec(p, expiration, events), key, p.limit(key), p.duration(key), now)
      <==> Young(Admitted(p, events, key), now, p.duration(key)) < Effective(p.limit(key))
  }

  /** The limiter equals its reference exactly when the cleaner's period is not shorter than the window. */
  lemma AgreesIff(p: Policy, expiration: nat, key: Key)
    ensures AlwaysAgrees(p, expiration, key) <==> expiration + 1 >= p.duration(key)
  {
    if expiration + 1 >= p.duration(key) {
      forall events: seq<Event>, now: int | ClockMonotone(events + [Event.Request(key, now)])
        ensures Allows(Exec(p, expiration, events), key, p.limit(key), p.duration(key), now)
           <==> Young(Admitted(p, events, key), now, p.duration(key)) < Effective(p.limit(key))
      {
        DecisionsAgree(p, expiration, events, key, now);
      }
    } else {
      var events, now := ShortExpirationForgets(p, expiration, key);
    }
  }

  lemma GrantedSnoc(p: Policy, expiration: int, events: seq<Event>, key: Key, now: int)
    ensures Granted(p, expiration, events + [Event.Request(key, now)], key)
         == Granted(p, expiration, events, key)
            + if Allows(Exec(p, expiration, events), key, p.limit(key), p.duration(key), now) then [now] else []
  {
    assert (events + [Event.Request(key, now)])[..|events|] == events;
  }

  /** The queue of the key holds n entries; an absent queue holds none. */
  predicate Holds(store: Store, key: Key, n: nat) {
    if n == 0 then key !in store else key in store && |store[key]| == n
  }

  lemma GrantOneMore(store: Store, key: Key, limit: nat, duration: int, n: nat)
    requires QueuesNonEmpty(store) && Holds(store, key, n) && n < Effective(limit)
    ensures Allows(store, key, limit, duration, 0) && Holds(AfterRequest(store, key, limit, duration, 0), key, n + 1)
  {
  }

  lemma HoldsOneMore(p: Policy, expiration: int, events: seq<Event>, key: Key, n: nat)
    requires n < Effective(p.limit(key)) && Holds(Exec(p, expiration, events), key, n)
    ensures Holds(Exec(p, expiration, events + [Event.Request(key, 0)]), key, n + 1)
  {
    ExecSnoc(p, expiration, events, Event.Request(key, 0));
    GrantOneMore(Exec(p, expiration, events), key, p.limit(key), p.duration(key), n);
  }

  lemma {:induction false} BurstHolds(p: Policy, expiration: int, key: Key, n: nat)
    requires n <= Effective(p.limit(key))
    ensures Holds(Exec(p, expiration, Burst(key, n)), key, n)
  {
    if n == 0 {
    } else {
      BurstHolds(p, expiration, key, n - 1);
      BurstSnoc(key, n);
      HoldsOneMore(p, expiration, Burst(key, n - 1), key, n - 1);
    }
  }

  ghost predicate Zeros(hist: seq<int>, n: nat) {
    |hist| == n && AllZero(hist)
  }

  lemma GrantedZero(p: Policy, expiration: int, events: seq<Event>, key: Key, n: nat)
    requires n < Effective(p.limit(key)) && Holds(Exec(p, expiration, events), key, n)
    requires Zeros(Granted(p, expiration, events, key), n)
    ensures Zeros(Granted(p, expiration, events + [Event.Request(key, 0)], key), n + 1)
  {
    GrantOneMore(Exec(p, expiration, events), key, p.limit(key), p.duration(key), n);
    GrantedSnoc(p, expiration, events, key, 0);
  }

  lemma {:induction false} BurstGranted(p: Policy, expiration: int, key: Key, n: nat)
    requires n <= Effective(p.limit(key))
    ensures Zeros(Granted(p, expiration, Burst(key, n), key), n)
  {
    if n == 0 {
    } else {
      BurstGranted(p, expiration, key, n - 1);
      BurstHolds(p, expiration, key, n - 1);
      BurstSnoc(key, n);
      GrantedZero(p, expiration, Burst(key, n - 1), key, n - 1);
    }
  }

  lemma {:induction false} ZerosInSpan(hist: seq<int>, duration: int)
    requires AllZero(hist) && duration > 0
    ensures InSpan(hist, 0, duration) == |hist|
  {
    if hist == [] {
    } else {
      ZerosInSpan(hist[..|hist| - 1], duration);
    }
  }

  /** In every run with a monotone clock no span holds more admissions than the limit. */
  ghost predicate NeverExceeds(p: Policy, expiration: int, key: Key) {
    forall events: seq<Event>, from: int | ClockMonotone(events) ::
      InSpan(Granted(p, expiration, events, key), from, p.duration(key)) <= Effective(p.limit(key))
  }

  /** With a shorter period one admission too many falls into the window that starts at the burst. */
  lemma ShortExpirationExceeds(p: Policy, expiration: nat, key: Key) returns (events: seq<Event>)
    requires expiration + 1 < p.duration(key)
    ensures ClockMonotone(events)
    ensures InSpan(Granted(p, expiration, events, key), 0, p.duration(key)) == Effective(p.limit(key)) + 1
  {
    var n, now := Effective(p.limit(key)), expiration + 1;
    var burst := Burst(key, n);
    var cleaned := burst + [Clean(now)];
    events := cleaned + [Event.Request(key, now)];
    BurstGranted(p, expiration, key, n);
    BurstQueue(p, expiration, key, n);
    ExecSnoc(p, expiration, burst, Clean(now));
    GrantedSnoc(p, expiration, cleaned, key, now);
    assert cleaned[..|cleaned| - 1] == burst;
    var granted := Granted(p, expiration, burst, key);
    assert Granted(p, expiration, events, key) == granted + [now];
    assert (granted + [now])[..|granted|] == granted;
    ZerosInSpan(granted, p.duration(key));
  }

  /** The window is respected in all runs exactly when the cleaner's period is not shorter than it. */
  lemma NeverExceedsIff(p: Policy, expiration: nat, key: Key)
    ensures NeverExceeds(p, expiration, key) <==> expiration + 1 >= p.duration(key)
  {
    if expiration + 1 >= p.duration(key) {
      forall events: seq<Event>, from: int | ClockMonotone(events)
        ensures InSpan(Granted(p, expiration, events, key), from, p.duration(key)) <= Effective(p.limit(key))
      {
        SpanBound(p, expiration, events, key, from);
      }
    } else {
      var events := ShortExpirationExceeds(p, expiration, key);
    }
  }

  /** With a configured limit of zero the first request is let through all the same. */
  lemma ZeroLimitAdmitsOne(p: Policy, expiration: int, key: Key, now: int)
    requires p.limit(key) == 0
    ensures Allows(Exec(p, expiration, []), key, p.limit(key), p.duration(key), now)
    ensures !(Young(Admitted(p, [], key), now, p.duration(key)) < p.limit(key))
  {
  }
}
