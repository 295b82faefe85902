/**
  fetchJSON of controller/model_sync.go with its ETag and body caches. The replies are what the
  network brings; decode is the JSON decoding, as an envelope or else as a plain array.
 */
module ModelSync {
  import opened Wrappers
  import opened Bytes
  import opened Int64

  datatype Reply =
    | NoAnswer                                    // the request itself fails
    | BrokenBody                                  // 200, but the body cannot be read to its end
    | Success(etag: string, body: seq<byte>)      // 200; etag is "" when the header is missing
    | NotModified                                 // 304
    | OtherStatus(code: int)

  datatype Error = NetworkError | ReadError | DecodeError | CacheMiss | BadStatus(code: int)

  datatype Caches = Caches(etags: map<string, string>, bodies: map<string, seq<byte>>)

  /** The tag sent as If-None-Match; none is sent when it is empty. */
  function Sent(c: Caches, url: string): string {
    if url in c.etags then c.etags[url] else ""
  }

  function CachedBody(c: Caches, url: string): seq<byte> {
    if url in c.bodies then c.bodies[url] else []
  }

  function Decoded<T>(decode: seq<byte> -> Option<T>, body: seq<byte>): Result<T, Error> {
    if decode(body).Some? then Ok(decode(body).value) else Err(DecodeError)
  }

  function Remember(c: Caches, url: string, etag: string, body: seq<byte>): Caches {
    Caches(if etag != "" then c.etags[url := etag] else c.etags, c.bodies[url := body])
  }

  /** The caches after an attempt; only a 200 that is read to its end changes them, decodable or not. */
  function After(c: Caches, url: string, reply: Reply, maxBytes: int): Caches {
    if reply.Success? then Remember(c, url, reply.etag, Limited(reply.body, maxBytes)) else c
  }

  function Outcome<T>(c: Caches, url: string, reply: Reply, maxBytes: int, decode: seq<byte> -> Option<T>)
    : Result<T, Error>
  {
    match reply
    case NoAnswer => Err(NetworkError)
    case BrokenBody => Err(ReadError)
    case Success(etag, body) => Decoded(decode, Limited(body, maxBytes))
    case NotModified => if CachedBody(c, url) == [] then Err(CacheMiss) else Decoded(decode, CachedBody(c, url))
    case OtherStatus(code) => Err(BadStatus(code))
  }

  /** One attempt: the caches after it, and its outcome. */
  function Attempt<T>(c: Caches, url: string, reply: Reply, maxBytes: int, decode: seq<byte> -> Option<T>)
    : (Caches, Result<T, Error>)
  {
    (After(c, url, reply, maxBytes), Outcome(c, url, reply, maxBytes, decode))
  }

  datatype Fetched<T> = Fetched(caches: Caches, result: Result<T, Error>, used: nat)

  /** Attempts until one succeeds; last is the error of the attempt before. */
  function Fetch<T>(
    c: Caches, url: string, replies: seq<Reply>, maxBytes: int, decode: seq<byte> -> Option<T>, last: Error): Fetched<T>
    decreases |replies|
  {
    if replies == [] then Fetched(c, Err(last), 0)
    else
      var (c', r) := Attempt(c, url, replies[0], maxBytes, decode);
      if r.Ok? then Fetched(c', r, 1)
      else
        var f := Fetch(c', url, replies[1..], maxBytes, decode, r.error);
        f.(used := f.used + 1)
  }

  /** Why an attempt fails; none but a 200 touches the caches. */
  lemma WhyItFails<T>(c: Caches, url: string, reply: Reply, maxBytes: int, decode: seq<byte> -> Option<T>)
    ensures !reply.Success? ==> After(c, url, reply, maxBytes) == c
    ensures var r := Outcome(c, url, reply, maxBytes, decode);
            r.Err? ==>
              match reply
              case NoAnswer => r.error == NetworkError
              case BrokenBody => r.error == ReadError
              case OtherStatus(code) => r.error == BadStatus(code)
              case Success(_, _) => r.error == DecodeError
              case NotModified =>
                r.error == if url !in c.bodies || c.bodies[url] == [] then CacheMiss else DecodeError
  {
  }

  /** A fetch that fails has made every attempt, and reports why the last one failed. */
  lemma {:induction false} LastErrorReported<T(!new)>(
    c: Caches, url: string, replies: seq<Reply>, maxBytes: int, decode: seq<byte> -> Option<T>, last: Error)
    ensures var f := Fetch(c, url, replies, maxBytes, decode, last);
            f.result.Err? ==>
              && f.used == |replies|
              && if replies == [] then f.result == Err(last)
                 else FailsLike(f.result, url, replies[|replies| - 1], maxBytes, decode)
    decreases |replies|
  {
    if replies == [] {
    } else {
      var (c', r) := Attempt(c, url, replies[0], maxBytes, decode);
      if r.Err? {
        LastErrorReported(c', url, replies[1..], maxBytes, decode, r.error);
        assert FailsFrom(r, c, url, replies[0], maxBytes, decode);
      }
    }
  }

  predicate FailsFrom<T>(
    r: Result<T, Error>, c: Caches, url: string, reply: Reply, maxBytes: int, decode: seq<byte> -> Option<T>)
  {
    Outcome(c, url, reply, maxBytes, decode).Err? && r == Err(Outcome(c, url, reply, maxBytes, decode).error)
  }

  /** The result of meeting that reply with some caches. */
  ghost predicate FailsLike<T(!new)>(
    r: Result<T, Error>, url: string, reply: Reply, maxBytes: int, decode: seq<byte> -> Option<T>)
  {
    exists c :: FailsFrom(r, c, url, reply, maxBytes, decode)
  }

  class Client {
    var etagCache: map<string, string>
    var bodyCache: map<string, seq<byte>>

    constructor ()
      ensures Value() == Caches(map[], map[])
    {
      etagCache, bodyCache := map[], map[];
    }

    ghost function Value(): Caches
      reads this
    {
      Caches(etagCache, bodyCache)
    }

    /** replies[k] is what attempt k meets. */
    method FetchJSON<T>(url: string, retries: int, maxMB: int, replies: seq<Reply>, decode: seq<byte> -> Option<T>)
      returns (r: Result<T, Error>)
      requires |replies| == if retries < 1 then 1 else retries
      modifies this
      ensures var f := Fetch(old(Value()), url, replies, Wrap(maxMB * MEGABYTE), decode, NetworkError);
              r == f.result && Value() == f.caches
    {
      var attempts := if retries < 1 then 1 else retries;
      var maxBytes := Wrap(maxMB * MEGABYTE);
      var last := NetworkError;
      ghost var spec := Fetch(Value(), url, replies, maxBytes, decode, last);
      for k := 0 to attempts
        invariant var f := Fetch(Value(), url, replies[k..], maxBytes, decode, last);
                  f.result == spec.result && f.caches == spec.caches
      {
        assert replies[k..][0] == replies[k] && replies[k..][1..] == replies[k + 1..];
        r := Try(url, maxBytes, replies[k], decode);
        if r.Ok? { return; }
        last := r.error;
      }
      r := Err(last);
    }

    /** The switch on the response. */
    method Try<T>(url: string, maxBytes: int, reply: Reply, decode: seq<byte> -> Option<T>)
      returns (r: Result<T, Error>)
      modifies this
      ensures (Value(), r) == Attempt(old(Value()), url, reply, maxBytes, decode)
    {
      match reply
      case NoAnswer => r := Err(NetworkError);
      case BrokenBody => r := Err(ReadError);
      case Success(etag, body) =>
        var buf := Limited(body, maxBytes);
        if etag != "" { etagCache := etagCache[url := etag]; }
        bodyCache := bodyCache[url := buf];
        var v := decode(buf);
        r := if v.Some? then Ok(v.value) else Err(DecodeError);
      case NotModified =>
        var buf := if url in bodyCache then bodyCache[url] else [];
        if buf == [] { return Err(CacheMiss); }
        var v := decode(buf);
        r := if v.Some? then Ok(v.value) else Err(DecodeError);
      case OtherStatus(code) => r := Err(BadStatus(code));
    }
  }

  // ------------------------------------------------------------------ the server's side

  /** A reply, and the body the server held when it gave it. */
  datatype Exchange = Exchange(reply: Reply, current: seq<byte>)

  function Replies(xs: seq<Exchange>): seq<Reply> {
    seq(|xs|, i requires 0 <= i < |xs| => xs[i].reply)
  }

  /** Which body a tag of a URL stands for. */
  type Versions = (string, string) -> seq<byte>

  /**
    A server that tags every 200 with an ETag that stands for its body (section 8.8.3 of
    RFC 9110), answers 304 only to a matching If-None-Match (sections 13.1.2 and 15.4.5), and
    keeps within the size cap. The tag is the one the request was sent with.
   */
  predicate Honest(versions: Versions, tag: string, url: string, x: Exchange, maxBytes: int) {
    match x.reply
    case Success(etag, body) =>
      body == x.current && etag != "" && versions(url, etag) == body && |body| <= maxBytes
    case NotModified => tag != "" && versions(url, tag) == x.current
    case _ => true
  }

  /** Every attempt that is made meets an honest reply. */
  ghost predicate HonestFetch<T(!new)>(
    versions: Versions, c: Caches, url: string, xs: seq<Exchange>, maxBytes: int, decode: seq<byte> -> Option<T>)
    decreases |xs|
  {
    xs == [] || (
      && Honest(versions, Sent(c, url), url, xs[0], maxBytes)
      && var (c', r) := Attempt(c, url, xs[0].reply, maxBytes, decode);
         r.Ok? || HonestFetch(versions, c', url, xs[1..], maxBytes, decode))
  }

  /** Every cached tag stands for the body cached with it. */
  ghost predicate Coherent(versions: Versions, c: Caches) {
    forall url | Sent(c, url) != "" :: url in c.bodies && c.bodies[url] == versions(url, c.etags[url])
  }

  /** The attempt can deliver: there is a body, it decodes, and a 304 does not stand for an empty one. */
  predicate Usable<T>(x: Exchange, decode: seq<byte> -> Option<T>) {
    && (x.reply.Success? || (x.reply.NotModified? && x.current != []))
    && decode(x.current).Some?
  }

  lemma AttemptCurrent<T>(
    versions: Versions, c: Caches, url: string, x: Exchange, maxBytes: int, decode: seq<byte> -> Option<T>)
    requires Coherent(versions, c) && Honest(versions, Sent(c, url), url, x, maxBytes)
    ensures var (c', r) := Attempt(c, url, x.reply, maxBytes, decode);
            && Coherent(versions, c')
            && (r.Ok? <==> Usable(x, decode))
            && (r.Ok? ==> Some(r.value) == decode(x.current))
  {
  }

  /** The fetch delivers what the server holds at the first attempt that can deliver, or nothing can. */
  ghost predicate Current<T(!new)>(f: Fetched<T>, xs: seq<Exchange>, decode: seq<byte> -> Option<T>) {
    if f.result.Ok? then
      && 1 <= f.used <= |xs| && Some(f.result.value) == decode(xs[f.used - 1].current)
      && forall i | 0 <= i < f.used - 1 :: !Usable(xs[i], decode)
    else forall i | 0 <= i < |xs| :: !Usable(xs[i], decode)
  }

  /** A fetch succeeds exactly when an attempt can deliver, and then with the body the server held at that attempt. */
  lemma {:induction false} FetchCurrent<T(!new)>(
    versions: Versions, c: Caches, url: string, xs: seq<Exchange>, maxBytes: int, decode: seq<byte> -> Option<T>,
    last: Error)
    requires Coherent(versions, c) && HonestFetch(versions, c, url, xs, maxBytes, decode)
    ensures var f := Fetch(c, url, Replies(xs), maxBytes, decode, last);
            && Coherent(versions, f.caches) && Current(f, xs, decode)
            && (f.result.Ok? <==> exists i | 0 <= i < |xs| :: Usable(xs[i], decode))
    decreases |xs|
  {
    if xs == [] {
    } else {
      var (c', r) := Attempt(c, url, xs[0].reply, maxBytes, decode);
      AttemptCurrent(versions, c, url, xs[0], maxBytes, decode);
      if !r.Ok? {
        assert Replies(xs)[1..] == Replies(xs[1..]);
        FetchCurrent(versions, c', url, xs[1..], maxBytes, decode, r.error);
        assert forall i | 0 < i < |xs| :: xs[i] == xs[1..][i - 1];
      }
    }
  }

  // ------------------------------------------------------------------ overlapping fetches

  /** A request goes out with the tag that is cached then; its reply is handled later. */
  datatype Event = Send(url: string) | Receive(url: string, x: Exchange)

  /** The caches all fetches share, and the tags of the requests under way. */
  datatype System = System(caches: Caches, inFlight: map<string, string>)

  /** One fetch per URL at a time; fetches of different URLs overlap in any way. */
  predicate CanStep(s: System, e: Event) {
    if e.Send? then e.url !in s.inFlight else e.url in s.inFlight
  }

  function Step(s: System, e: Event, maxBytes: int): System {
    match e
    case Send(url) => s.(inFlight := s.inFlight[url := Sent(s.caches, url)])
    case Receive(url, x) => System(After(s.caches, url, x.reply, maxBytes), s.inFlight - {url})
  }

  function RunFrom(s: System, events: seq<Event>, maxBytes: int): System {
    if events == [] then s else Step(RunFrom(s, events[..|events| - 1], maxBytes), events[|events| - 1], maxBytes)
  }

  /** A request for a URL without one under way goes out with the cached tag, or without one, and can be answered. */
  lemma RequestAnswered(s: System, url: string, x: Exchange, maxBytes: int)
    requires url !in s.inFlight
    ensures CanStep(s, Send(url)) && CanStep(Step(s, Send(url), maxBytes), Receive(url, x))
    ensures var sent := Step(s, Send(url), maxBytes);
            && sent.caches == s.caches
            && sent.inFlight == s.inFlight[url := if url in s.caches.etags then s.caches.etags[url] else ""]
            && Step(sent, Receive(url, x), maxBytes) == System(After(s.caches, url, x.reply, maxBytes), s.inFlight)
  {
  }

  predicate HonestStep(versions: Versions, s: System, e: Event, maxBytes: int) {
    CanStep(s, e) && (e.Receive? ==> Honest(versions, s.inFlight[e.url], e.url, e.x, maxBytes))
  }

  predicate HonestRun(versions: Versions, s: System, events: seq<Event>, maxBytes: int) {
    events == [] || (
      && HonestRun(versions, s, events[..|events| - 1], maxBytes)
      && HonestStep(versions, RunFrom(s, events[..|events| - 1], maxBytes), events[|events| - 1], maxBytes))
  }

  /** The caches are coherent, and every request under way carries the tag that is still cached. */
  ghost predicate Inv(versions: Versions, s: System) {
    && Coherent(versions, s.caches)
    && forall url | url in s.inFlight :: s.inFlight[url] == Sent(s.caches, url)
  }

  lemma StepInv(versions: Versions, s: System, e: Event, maxBytes: int)
    requires Inv(versions, s) && HonestStep(versions, s, e, maxBytes)
    ensures Inv(versions, Step(s, e, maxBytes))
  {
  }

  lemma {:induction false} RunInv(versions: Versions, s: System, events: seq<Event>, maxBytes: int)
    requires Inv(versions, s) && HonestRun(versions, s, events, maxBytes)
    ensures Inv(versions, RunFrom(s, events, maxBytes))
  {
    if events == [] {
    } else {
      var front := events[..|events| - 1];
      RunInv(versions, s, front, maxBytes);
      StepInv(versions, RunFrom(s, front, maxBytes), events[|events| - 1], maxBytes);
    }
  }

  lemma {:induction false} HonestPrefix(versions: Versions, s: System, events: seq<Event>, maxBytes: int, k: nat)
    requires HonestRun(versions, s, events, maxBytes) && k < |events|
    ensures HonestRun(versions, s, events[..k], maxBytes)
    ensures HonestStep(versions, RunFrom(s, events[..k], maxBytes), events[k], maxBytes)
  {
    var n := |events| - 1;
    if k == n {
    } else {
      HonestPrefix(versions, s, events[..n], maxBytes, k);
      assert events[..n][..k] == events[..k];
    }
  }

  /**
    Over any run of fetches of any URLs, however those of different URLs overlap, and whether they
    are answered by 200 or by 304: an attempt succeeds exactly if it can deliver, and then delivers
    the body the server held when it replied.
   */
  lemma AlwaysCurrent<T>(
    versions: Versions, s: System, events: seq<Event>, maxBytes: int, decode: seq<byte> -> Option<T>, k: nat)
    requires Inv(versions, s) && HonestRun(versions, s, events, maxBytes)
    requires k < |events| && events[k].Receive?
    ensures var (url, x) := (events[k].url, events[k].x);
            var r := Outcome(RunFrom(s, events[..k], maxBytes).caches, url, x.reply, maxBytes, decode);
            (r.Ok? <==> Usable(x, decode)) && (r.Ok? ==> Some(r.value) == decode(x.current))
  {
    HonestPrefix(versions, s, events, maxBytes, k);
    RunInv(versions, s, events[..k], maxBytes);
    AttemptCurrent(versions, RunFrom(s, events[..k], maxBytes).caches, events[k].url, events[k].x, maxBytes, decode);
  }

  // ------------------------------------------------------------------ a fetch does not notice the others

  /** The replies to the requests for one URL, in order. */
  function Exchanges(events: seq<Event>, url: string): seq<Exchange> {
    if events == [] then []
    else
      var e := events[|events| - 1];
      Exchanges(events[..|events| - 1], url) + if e.Receive? && e.url == url then [e.x] else []
  }

  /** The caches after the attempts of one URL alone. */
  function Alone(c: Caches, url: string, xs: seq<Exchange>, maxBytes: int): Caches
    decreases |xs|
  {
    if xs == [] then c else Alone(After(c, url, xs[0].reply, maxBytes), url, xs[1..], maxBytes)
  }

  predicate SameEntry(a: Caches, b: Caches, url: string) {
    Sent(a, url) == Sent(b, url) && CachedBody(a, url) == CachedBody(b, url)
  }

  lemma {:induction false} AloneSnoc(c: Caches, url: string, xs: seq<Exchange>, x: Exchange, maxBytes: int)
    ensures Alone(c, url, xs + [x], maxBytes) == After(Alone(c, url, xs, maxBytes), url, x.reply, maxBytes)
    decreases |xs|
  {
    if xs == [] {
      assert ([x])[1..] == [];
    } else {
      assert (xs + [x])[1..] == xs[1..] + [x];
      AloneSnoc(After(c, url, xs[0].reply, maxBytes), url, xs[1..], x, maxBytes);
    }
  }

  lemma AfterEntry(a: Caches, b: Caches, url: string, reply: Reply, maxBytes: int, other: string)
    ensures SameEntry(a, b, url) ==> SameEntry(After(a, url, reply, maxBytes), After(b, url, reply, maxBytes), url)
    ensures other != url ==> SameEntry(After(a, other, reply, maxBytes), a, url)
  {
  }

  /** What is cached for a URL depends on its own attempts only. */
  lemma {:induction false} EntryIsOwn(s: System, events: seq<Event>, url: string, maxBytes: int)
    ensures SameEntry(RunFrom(s, events, maxBytes).caches, Alone(s.caches, url, Exchanges(events, url), maxBytes), url)
  {
    if events == [] {
    } else {
      var front, e := events[..|events| - 1], events[|events| - 1];
      var before, alone := RunFrom(s, front, maxBytes).caches, Alone(s.caches, url, Exchanges(front, url), maxBytes);
      EntryIsOwn(s, front, url, maxBytes);
      assert Exchanges(front, url) + [] == Exchanges(front, url);
      if e.Receive? {
        AfterEntry(before, alone, url, e.x.reply, maxBytes, e.url);
        AloneSnoc(s.caches, url, Exchanges(front, url), e.x, maxBytes);
      }
    }
  }

  predicate HonestAlone(versions: Versions, c: Caches, url: string, xs: seq<Exchange>, maxBytes: int)
    decreases |xs|
  {
    xs == [] || (
      && Honest(versions, Sent(c, url), url, xs[0], maxBytes)
      && HonestAlone(versions, After(c, url, xs[0].reply, maxBytes), url, xs[1..], maxBytes))
  }

  lemma {:induction false} HonestAloneSnoc(
    versions: Versions, c: Caches, url: string, xs: seq<Exchange>, x: Exchange, maxBytes: int)
    requires HonestAlone(versions, c, url, xs, maxBytes)
    requires Honest(versions, Sent(Alone(c, url, xs, maxBytes), url), url, x, maxBytes)
    ensures HonestAlone(versions, c, url, xs + [x], maxBytes)
    decreases |xs|
  {
    if xs == [] {
    } else {
      assert (xs + [x])[1..] == xs[1..] + [x];
      HonestAloneSnoc(versions, After(c, url, xs[0].reply, maxBytes), url, xs[1..], x, maxBytes);
    }
  }

  /** In an honest run the attempts of each URL, taken alone, meet honest replies. */
  lemma {:induction false} RunHonestAlone(versions: Versions, s: System, events: seq<Event>, url: string, maxBytes: int)
    requires Inv(versions, s) && HonestRun(versions, s, events, maxBytes)
    ensures HonestAlone(versions, s.caches, url, Exchanges(events, url), maxBytes)
  {
    if events == [] {
    } else {
      var front, e := events[..|events| - 1], events[|events| - 1];
      RunHonestAlone(versions, s, front, url, maxBytes);
      assert Exchanges(front, url) + [] == Exchanges(front, url);
      if e.Receive? && e.url == url {
        RunInv(versions, s, front, maxBytes);
        EntryIsOwn(s, front, url, maxBytes);
        HonestAloneSnoc(versions, s.caches, url, Exchanges(front, url), e.x, maxBytes);
      }
    }
  }

  lemma {:induction false} HonestAloneFetch<T(!new)>(
    versions: Versions, c: Caches, url: string, xs: seq<Exchange>, maxBytes: int, decode: seq<byte> -> Option<T>)
    requires HonestAlone(versions, c, url, xs, maxBytes)
    ensures HonestFetch(versions, c, url, xs, maxBytes, decode)
    decreases |xs|
  {
    if xs == [] {
    } else {
      HonestAloneFetch(versions, After(c, url, xs[0].reply, maxBytes), url, xs[1..], maxBytes, decode);
    }
  }

  /** A fetch that makes all these attempts ends with the outcome of the last one. */
  lemma {:induction false} FetchLast<T>(
    c: Caches, url: string, xs: seq<Exchange>, x: Exchange, maxBytes: int, decode: seq<byte> -> Option<T>, last: Error)
    requires Fetch(c, url, Replies(xs + [x]), maxBytes, decode, last).used == |xs| + 1
    ensures Fetch(c, url, Replies(xs + [x]), maxBytes, decode, last).result
         == Outcome(Alone(c, url, xs, maxBytes), url, x.reply, maxBytes, decode)
    decreases |xs|
  {
    var all := xs + [x];
    assert Replies(all)[1..] == Replies(all[1..]) && Replies(all)[0] == all[0].reply;
    if xs == [] {
    } else {
      assert all[1..] == xs[1..] + [x];
      var r := Outcome(c, url, xs[0].reply, maxBytes, decode);
      if !r.Ok? {
        FetchLast(After(c, url, xs[0].reply, maxBytes), url, xs[1..], x, maxBytes, decode, r.error);
      }
    }
  }

  /**
    A whole call of fetchJSON inside such a run, from s to the reply that ends it, whatever other
    URLs do in between: the outcome of its last attempt is that of the same fetch made alone, and
    is the body the server held at the first attempt that could deliver, or nothing could.
   */
  lemma OverlappingFetchCurrent<T(!new)>(
    versions: Versions, s: System, events: seq<Event>, url: string, x: Exchange, maxBytes: int,
    decode: seq<byte> -> Option<T>)
    requires Inv(versions, s) && HonestRun(versions, s, events + [Receive(url, x)], maxBytes)
    ensures var xs := Exchanges(events, url) + [x];
            var f := Fetch(s.caches, url, Replies(xs), maxBytes, decode, NetworkError);
            && Current(f, xs, decode)
            && (f.used == |xs| ==>
                  Outcome(RunFrom(s, events, maxBytes).caches, url, x.reply, maxBytes, decode) == f.result)
  {
    var all := events + [Receive(url, x)];
    var before := Exchanges(events, url);
    assert all[..|all| - 1] == events;
    RunHonestAlone(versions, s, all, url, maxBytes);
    HonestAloneFetch(versions, s.caches, url, before + [x], maxBytes, decode);
    FetchCurrent(versions, s.caches, url, before + [x], maxBytes, decode, NetworkError);
    EntryIsOwn(s, events, url, maxBytes);
    if Fetch(s.caches, url, Replies(before + [x]), maxBytes, decode, NetworkError).used == |before| + 1 {
      FetchLast(s.caches, url, before, x, maxBytes, decode, NetworkError);
    }
  }

  // ------------------------------------------------------------------ why the hypotheses

  /**
    When a 200 keeps the caches coherent: a tagged one when its body fits the cap, an untagged one
    when no tag is cached, or when the body kept is still the one the cached tag stands for.
   */
  lemma KeepsCoherentIff(versions: Versions, c: Caches, url: string, etag: string, body: seq<byte>, maxBytes: int)
    requires Coherent(versions, c) && (etag != "" ==> versions(url, etag) == body)
    ensures Coherent(versions, Remember(c, url, etag, Limited(body, maxBytes))) <==>
            if etag != "" then |body| <= Max(maxBytes, 0)
            else Sent(c, url) == "" || Limited(body, maxBytes) == versions(url, Sent(c, url))
  {
    var c' := Remember(c, url, etag, Limited(body, maxBytes));
    assert Sent(c', url) == if etag != "" then etag else Sent(c, url);
    assert c'.bodies[url] == Limited(body, maxBytes);
    assert forall other | other != url :: Sent(c', other) == Sent(c, other);
    assert |body| > Max(maxBytes, 0) ==> |Limited(body, maxBytes)| != |body|;
  }

  function Max(a: int, b: int): int { if a < b then b else a }

  ghost predicate Delivers<T>(r: Result<T, Error>, body: seq<byte>, decode: seq<byte> -> Option<T>) {
    r.Ok? && Some(r.value) == decode(body)
  }

  /**
    When a 304 delivers what the server holds: exactly if the cached body is the one the sent tag
    stands for, given that different bodies decode differently.
   */
  lemma NotModifiedDeliversIff<T>(
    versions: Versions, c: Caches, url: string, x: Exchange, maxBytes: int, decode: seq<byte> -> Option<T>)
    requires x.reply.NotModified? && Honest(versions, Sent(c, url), url, x, maxBytes)
    requires CachedBody(c, url) != []
    requires forall a: seq<byte>, b: seq<byte> :: decode(a).Some? && decode(a) == decode(b) ==> a == b
    ensures Delivers(Outcome(c, url, x.reply, maxBytes, decode), x.current, decode)
       <==> CachedBody(c, url) == versions(url, Sent(c, url)) && decode(x.current).Some?
  {
    assert x.current == versions(url, Sent(c, url));
  }

  /**
    A 200 without an ETag replaces the body but keeps the tag of the old one: when the server
    goes back to the old body and says 304, the new body is delivered.
   */
  lemma UntaggedGoesStale<T>(
    url: string, etag: string, before: seq<byte>, later: seq<byte>, decode: seq<byte> -> Option<T>)
    requires etag != "" && later != [] && decode(before).Some? && decode(later).Some? && decode(before) != decode(later)
    ensures var replies := [Success(etag, before), Success("", later), NotModified];
            var maxBytes := |before| + |later|;
            var (c1, _) := Attempt(Caches(map[], map[]), url, replies[0], maxBytes, decode);
            var (c2, _) := Attempt(c1, url, replies[1], maxBytes, decode);
            var (_, r) := Attempt(c2, url, replies[2], maxBytes, decode);
            Sent(c2, url) == etag && r == Ok(decode(later).value) && Some(r.value) != decode(before)
  {
    assert Limited(later, |before| + |later|) == later;
  }
}
