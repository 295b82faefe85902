/**
  How a request body becomes a storage (common/body_storage.go) and how a request context hands
  it out again and again (common/gin.go). The network body delivers its bytes in pieces of any
  size and, once closed, only errors.
 */
module RequestBody {
  import opened Wrappers
  import opened Bytes
  import opened Int64
  import opened BodyBuffer
  import opened BodyStorage
  import opened StorageKind

  class Source {
    var rest: seq<byte>
    var closed: bool

    constructor (body: seq<byte>)
      ensures rest == body && !closed
    {
      rest, closed := body, false;
    }

    /** One read into a slice of that length. */
    method Read(want: nat) returns (r: Result<seq<byte>, Error>)
      requires want > 0
      modifies this
      ensures closed == old(closed)
      ensures closed ==> r == Err(ReadAfterClose) && rest == old(rest)
      ensures !closed && old(rest) == [] ==> r == Err(Eof) && rest == []
      ensures !closed && old(rest) != [] ==>
                r.Ok? && 1 <= |r.value| <= want && r.value + rest == old(rest) && |rest| < |old(rest)|
    {
      if closed { return Err(ReadAfterClose); }
      if rest == [] { return Err(Eof); }
      var n :| 1 <= n <= want && n <= |rest|;
      r, rest := Ok(rest[..n]), rest[n..];
    }
  }

  /** io.Copy of an io.LimitReader into a file: true, or an error of the source. */
  method CopyLimited(source: Source, limit: int, file: File) returns (r: Result<nat, Error>)
    requires file.open && file.content == [] && file.offset == 0 && !file.removed
    modifies source, file
    ensures source.closed == old(source.closed) && file.open && !file.removed
    ensures limit > 0 && source.closed ==> r == Err(ReadAfterClose)
    ensures limit <= 0 || !source.closed ==>
              file.content == Limited(old(source.rest), limit) && r == Ok(|file.content|)
  {
    var body := source.rest;
    while |file.content| < limit
      invariant source.closed == old(source.closed) && file.open && !file.removed
      invariant file.content + source.rest == body && file.offset == |file.content|
      invariant file.content == [] || |file.content| <= limit
      invariant source.closed ==> file.content == []
      decreases |source.rest|
    {
      var chunk := source.Read(limit - |file.content|);
      match chunk
      case Err(error) =>
        if error == Eof { break; }
        return Err(error);
      case Ok(data) =>
        file.Write(data);
    }
    r := Ok(|file.content|);
  }

  /** io.ReadAll of an io.LimitReader. */
  method ReadLimited(source: Source, limit: int) returns (r: Result<seq<byte>, Error>)
    modifies source
    ensures source.closed == old(source.closed)
    ensures limit > 0 && source.closed ==> r == Err(ReadAfterClose)
    ensures limit <= 0 || !source.closed ==> r == Ok(Limited(old(source.rest), limit))
  {
    var data: seq<byte> := [];
    var body := source.rest;
    while |data| < limit
      invariant source.closed == old(source.closed)
      invariant data + source.rest == body
      invariant data == [] || |data| <= limit
      invariant source.closed ==> data == []
      decreases |source.rest|
    {
      var chunk := source.Read(limit - |data|);
      match chunk
      case Err(error) =>
        if error == Eof { break; }
        return Err(error);
      case Ok(more) =>
        data := data + more;
    }
    assert source.rest == [] ==> data == body;
    r := Ok(data);
  }

  /** What is read of a body under the size limit. */
  function Admit(body: seq<byte>, closed: bool, maxBytes: int): Result<seq<byte>, Error> {
    var limit := Wrap(maxBytes + 1);
    if limit > 0 && closed then Err(ReadAfterClose)
    else if |Limited(body, limit)| > maxBytes then Err(TooLarge)
    else Ok(Limited(body, limit))
  }

  /** An open body is accepted, whole, exactly when it is at most maxBytes long. */
  lemma AdmitIff(body: seq<byte>, maxBytes: int)
    requires InRange(maxBytes) && maxBytes != MAX_INT64
    ensures Admit(body, false, maxBytes) == if |body| <= maxBytes then Ok(body) else Err(TooLarge)
    ensures maxBytes >= 0 ==> Admit(body, true, maxBytes) == Err(ReadAfterClose)
  {
  }

  /** With the largest limit there is, the limit plus one wraps around and every body is taken to be empty. */
  lemma AdmitWraps(body: seq<byte>, closed: bool)
    ensures Admit(body, closed, MAX_INT64) == Ok([])
  {
  }

  // ------------------------------------------------------------------ creation

  method NewDiskStorage(data: seq<byte>, cache: Cache) returns (r: Result<DiskStorage, Error>)
    modifies cache
    ensures r.Err? <==> !cache.writable
    ensures r.Err? ==> r == Err(DiskFault) && cache.stats == old(cache.stats)
    ensures r.Ok? ==> var d := r.value;
                      && fresh(d) && fresh(d.file) && d.Valid() && d.Value() == Buffer(data, 0, false)
                      && d.cache == cache && cache.stats == Opened(old(cache.stats), OnDisk, |data|)
  {
    if !cache.writable { return Err(DiskFault); }
    var file := new File();
    file.Write(data);
    assert file.content == data;
    var d := new DiskStorage(file, cache);
    r := Ok(d);
  }

  method NewDiskStorageFromReader(source: Source, maxBytes: int, cache: Cache) returns (r: Result<DiskStorage, Error>)
    modifies source, cache
    ensures source.closed == old(source.closed)
    ensures r.Err? <==> !cache.writable || Admit(old(source.rest), source.closed, maxBytes).Err?
    ensures r.Err? ==> cache.stats == old(cache.stats)
    ensures r.Err? ==> r.error == if !cache.writable then DiskFault
                                  else Admit(old(source.rest), source.closed, maxBytes).error
    ensures r.Ok? ==>
              var d := r.value;
              var data := Admit(old(source.rest), source.closed, maxBytes).value;
              && fresh(d) && fresh(d.file) && d.Valid() && d.Value() == Buffer(data, 0, false)
              && d.cache == cache && cache.stats == Opened(old(cache.stats), OnDisk, |data|)
  {
    if !cache.writable { return Err(DiskFault); }
    var file := new File();
    var written := CopyLimited(source, Wrap(maxBytes + 1), file);
    if written.Err? || written.value > maxBytes {
      file.open, file.removed := false, true;
      return Err(if written.Err? then written.error else TooLarge);
    }
    var d := new DiskStorage(file, cache);
    r := Ok(d);
  }

  /** A new storage that nobody else holds, with these bytes, counted. */
  twostate predicate Created(new s: Storage, data: seq<byte>, cache: Cache)
    reads s.Footprint(), cache
  {
    && (forall o | o in s.Footprint() :: fresh(o))
    && s.Valid() && s.Value() == Buffer(data, 0, false) && s.Cache() == cache
  }

  /** CreateBodyStorage: falls back to memory when the disk cannot be written. */
  method CreateBodyStorage(data: seq<byte>, cache: Cache) returns (s: Storage)
    modifies cache
    ensures Created(s, data, cache)
    ensures s.Disk? <==> old(cache.ChoosesDisk(|data|)) && cache.writable
    ensures cache.stats == Opened(old(cache.stats), s.Kind(), |data|)
  {
    if cache.ChoosesDisk(|data|) {
      var disk := NewDiskStorage(data, cache);
      if disk.Ok? { return Disk(disk.value); }
    }
    var m := new MemoryStorage(data, cache);
    s := Memory(m);
  }

  /** Whether the declared length sends the body straight to disk. */
  predicate Streams(cache: Cache, contentLength: int)
    reads cache
  {
    contentLength > 0 && cache.ChoosesDisk(contentLength)
  }

  /** It does if it is known, the cache is on, the body is at least the threshold and fits on the disk. */
  lemma StreamsIff(cache: Cache, contentLength: int)
    ensures Streams(cache, contentLength) <==>
              && cache.config.enabled && contentLength >= 1 && contentLength >= cache.config.threshold
              && cache.stats.diskUsage + contentLength <= cache.config.maxBytes
  {
  }

  method CreateBodyStorageFromReader(source: Source, contentLength: int, maxBytes: int, cache: Cache)
    returns (r: Result<Storage, Error>)
    modifies source, cache
    ensures source.closed == old(source.closed)
    ensures var fault := old(Streams(cache, contentLength)) && !cache.writable;
            var admitted := Admit(old(source.rest), source.closed, maxBytes);
            && (r.Ok? <==> !fault && admitted.Ok?)
            && (r.Err? ==> r.error == if fault then DiskFault else admitted.error)
            && (r.Err? ==> cache.stats == old(cache.stats))
            && (r.Ok? ==>
                  && Created(r.value, admitted.value, cache)
                  && (r.value.Disk? <==> cache.writable
                                         && (|| old(Streams(cache, contentLength))
                                             || old(cache.ChoosesDisk(|admitted.value|))))
                  && cache.stats == Hit(Opened(old(cache.stats), r.value.Kind(), |admitted.value|), r.value.Kind()))
  {
    if Streams(cache, contentLength) {
      var disk := NewDiskStorageFromReader(source, maxBytes, cache);
      if disk.Err? { return Err(disk.error); }
      cache.stats := Hit(cache.stats, OnDisk);
      return Ok(Disk(disk.value));
    }
    var data := ReadLimited(source, Wrap(maxBytes + 1));
    if data.Err? { return Err(data.error); }
    if |data.value| > maxBytes { return Err(TooLarge); }
    var s := CreateBodyStorage(data.value, cache);
    cache.stats := Hit(cache.stats, s.Kind());
    r := Ok(s);
  }

  // ------------------------------------------------------------------ the request context

  const DEFAULT_MAX_MB := 128

  function MaxBytes(maxMB: int): int {
    Wrap((if maxMB <= 0 then DEFAULT_MAX_MB else maxMB) * MEGABYTE)
  }

  /** The limit is a whole number of megabytes, so adding one to it does not wrap around. */
  lemma MaxBytesInRange(maxMB: int)
    ensures InRange(MaxBytes(maxMB)) && MaxBytes(maxMB) != MAX_INT64
    ensures 0 < maxMB < 0x800_0000_0000 ==> MaxBytes(maxMB) == maxMB * 1024 * 1024
    ensures maxMB <= 0 ==> MaxBytes(maxMB) == 128 * 1024 * 1024
  {
    var n := if maxMB <= 0 then DEFAULT_MAX_MB else maxMB;
    var q := n * MEGABYTE / 0x1_0000_0000_0000_0000;
    assert n * MEGABYTE == q * 0x1_0000_0000_0000_0000 + n * MEGABYTE % 0x1_0000_0000_0000_0000;
  }

  class Context {
    const cache: Cache
    const source: Source
    const contentLength: int
    const maxMB: int
    var cachedBody: Option<seq<byte>>   // the older way of caching a body
    var storage: Option<Storage>

    constructor (body: seq<byte>, contentLength: int, maxMB: int, cache: Cache)
      ensures Valid() && this.cache == cache && this.contentLength == contentLength && this.maxMB == maxMB
      ensures fresh(source) && source.rest == body && !source.closed && cachedBody.None? && storage.None?
      ensures Body() == if |body| <= MaxBytes(maxMB) && (cache.writable || !Streams(cache, contentLength))
                        then Some(body) else None
    {
      MaxBytesInRange(maxMB);
      var source := new Source(body);
      this.source, this.contentLength, this.maxMB, this.cache := source, contentLength, maxMB, cache;
      cachedBody, storage := None, None;
    }

    ghost function Footprint(): set<object>
      reads this
    {
      if storage.Some? then storage.value.Footprint() else {}
    }

    ghost predicate Valid()
      reads this, Footprint()
    {
      storage.Some? ==> storage.value.Valid() && storage.value.Cache() == cache
    }

    /** The body that this context can still hand out, if any. */
    ghost function Body(): Option<seq<byte>>
      reads this, Footprint(), cache, source
    {
      if storage.Some? then
        if storage.value.Value().closed then None else Some(storage.value.Value().bytes)
      else if cachedBody.Some? then cachedBody
      else if Streams(cache, contentLength) && !cache.writable then None
      else
        var admitted := Admit(source.rest, source.closed, MaxBytes(maxMB));
        if admitted.Ok? then Some(admitted.value) else None
    }

    /** Succeeds exactly when there is a body to hand out, gives all of it, rewound, and changes no later answer. */
    method GetRequestBody() returns (r: Result<Storage, Error>)
      requires Valid()
      modifies this, cache, source, Footprint()
      ensures Valid() && Body() == old(Body()) && cachedBody == old(cachedBody)
      ensures fresh(Footprint() - old(Footprint()))
      ensures r.Ok? <==> old(Body()).Some?
      ensures r.Ok? ==> storage == Some(r.value) && r.value.Value() == Buffer(old(Body()).value, 0, false)
      ensures r.Err? ==> storage == old(storage) && cache.stats == old(cache.stats)
      ensures old(storage).Some? ==> storage == old(storage) && cache.stats == old(cache.stats)
    {
      if storage.Some? {
        var moved := storage.value.Perform(Seek(0, Start));
        if moved.position.Err? { return Err(moved.position.error); }
        return Ok(storage.value);
      }
      if cachedBody.Some? {
        var s := CreateBodyStorage(cachedBody.value, cache);
        storage := Some(s);
        return Ok(s);
      }
      MaxBytesInRange(maxMB);
      r := CreateBodyStorageFromReader(source, contentLength, MaxBytes(maxMB), cache);
      source.closed := true;
      if r.Ok? { storage := Some(r.value); }
    }

    /** Closes the storage, gives back what it was counted for, and forgets it. */
    method CleanupBodyStorage()
      requires Valid()
      modifies this, cache, Footprint()
      ensures Valid() && storage.None? && cachedBody == old(cachedBody)
      ensures old(storage).Some? ==> old(storage).value.Valid() && old(storage).value.Value().closed
      ensures cache.stats == if old(storage).Some? && !old(storage.value.Value()).closed
                             then Released(old(cache.stats), old(storage).value.Kind(), old(storage).value.Size())
                             else old(cache.stats)
    {
      if storage.Some? {
        var _ := storage.value.Perform(Close);
        storage := None;
      }
    }

    /**
      Handlers that get the body and use it in any way short of closing it: each of them starts
      with the whole body at offset 0, or none of them gets one.
     */
    method Serve(handlers: seq<seq<Call>>) returns (ghost seen: seq<Option<Buffer>>)
      requires Valid() && forall h | h in handlers :: Close !in h
      modifies this, cache, source, Footprint()
      ensures Valid() && Body() == old(Body()) && |seen| == |handlers|
      ensures forall i | 0 <= i < |seen| ::
                seen[i] == if old(Body()).Some? then Some(Buffer(old(Body()).value, 0, false)) else None
    {
      seen := [];
      for k := 0 to |handlers|
        invariant Valid() && Body() == old(Body()) && |seen| == k
        invariant fresh(Footprint() - old(Footprint()))
        invariant forall i | 0 <= i < |seen| ::
                    seen[i] == if old(Body()).Some? then Some(Buffer(old(Body()).value, 0, false)) else None
      {
        var r := GetRequestBody();
        seen := seen + [if r.Ok? then Some(r.value.Value()) else None];
        if r.Ok? { Use(handlers[k]); }
      }
    }

    method Use(calls: seq<Call>)
      requires Valid() && storage.Some? && Close !in calls
      modifies Footprint()
      ensures Valid() && Body() == old(Body())
    {
      for k := 0 to |calls|
        invariant Valid() && Body() == old(Body())
      {
        assert calls[k] in calls;
        var _ := storage.value.Perform(calls[k]);
      }
    }
  }
}
