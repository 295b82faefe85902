/**
  The two storages of common/body_storage.go and their creation. bytes.Reader and os.File are
  modelled by what they do without I/O faults; a disk that cannot be written is config.
 */
module BodyStorage {
  import opened Wrappers
  import opened Bytes
  import opened StorageKind
  import opened BodyBuffer
  import Accounting = StorageAccounting

  // ------------------------------------------------------------------ the counters

  datatype Stats = Stats(
    diskFiles: int, diskUsage: int, memoryBuffers: int, memoryUsage: int, diskHits: int, memoryHits: int)

  function Clamp(n: int): int { if n < 0 then 0 else n }

  function Opened(stats: Stats, kind: Kind, size: int): Stats {
    if kind == OnDisk then stats.(diskFiles := stats.diskFiles + 1, diskUsage := stats.diskUsage + size)
    else stats.(memoryBuffers := stats.memoryBuffers + 1, memoryUsage := stats.memoryUsage + size)
  }

  function Released(stats: Stats, kind: Kind, size: int): Stats {
    if kind == OnDisk then
      stats.(diskFiles := Clamp(stats.diskFiles - 1), diskUsage := Clamp(stats.diskUsage - size))
    else
      stats.(memoryBuffers := stats.memoryBuffers - 1, memoryUsage := stats.memoryUsage - size)
  }

  function Hit(stats: Stats, kind: Kind): Stats {
    if kind == OnDisk then stats.(diskHits := stats.diskHits + 1) else stats.(memoryHits := stats.memoryHits + 1)
  }

  /** The four gauges are those of the interleaved model. */
  predicate Gauges(stats: Stats, s: Accounting.State) {
    && stats.diskFiles == s.files && stats.diskUsage == s.diskUsage
    && stats.memoryBuffers == s.buffers && stats.memoryUsage == s.memoryUsage
  }

  predicate InPhase(s: Accounting.State, i: nat, phase: Accounting.Phase) {
    i < |s.entries| && s.entries[i].phase == phase
  }

  /** Creating storage i without interruption: the add to the number, then the add to the bytes. */
  function CountIn(s: Accounting.State, i: nat): Accounting.State
    requires InPhase(s, i, Accounting.Approved)
  {
    Accounting.Do(Accounting.Do(s, Accounting.AddNumber(i)), Accounting.AddBytes(i))
  }

  /** Closing it without interruption: the swap, and both subtractions with the store of zero they may need. */
  function CountOut(s: Accounting.State, i: nat): Accounting.State
    requires InPhase(s, i, Accounting.Open)
  {
    var closing := Accounting.Do(s, Accounting.Close(i));
    var fewer := Accounting.Do(closing, Accounting.SubNumber(i));
    var unnumbered :=
      if InPhase(fewer, i, Accounting.ClampingNumber) then Accounting.Do(fewer, Accounting.StoreNumber(i)) else fewer;
    var less := Accounting.Do(unnumbered, Accounting.SubBytes(i));
    if InPhase(less, i, Accounting.ClampingBytes) then Accounting.Do(less, Accounting.StoreBytes(i)) else less
  }

  lemma OpenedCountsIn(stats: Stats, s: Accounting.State, i: nat)
    requires Gauges(stats, s) && InPhase(s, i, Accounting.Approved)
    ensures InPhase(CountIn(s, i), i, Accounting.Open)
    ensures Gauges(Opened(stats, s.entries[i].kind, s.entries[i].size), CountIn(s, i))
  {
  }

  lemma ReleasedCountsOut(stats: Stats, s: Accounting.State, i: nat)
    requires Gauges(stats, s) && InPhase(s, i, Accounting.Open)
    ensures InPhase(CountOut(s, i), i, Accounting.Closed)
    ensures Gauges(Released(stats, s.entries[i].kind, s.entries[i].size), CountOut(s, i))
  {
  }

  /** Closing gives back what creating added, whatever other counts there are. */
  lemma ReleasedUndoesOpened(stats: Stats, kind: Kind, size: nat)
    requires stats.diskFiles >= 0 && stats.diskUsage >= 0
    ensures Released(Opened(stats, kind, size), kind, size) == stats
  {
  }

  /** A storage of that kind and length is created for a request, or one is closed for the first time. */
  datatype Event = Create(kind: Kind, size: nat) | Drop(kind: Kind, size: nat)

  function Happens(stats: Stats, e: Event): Stats {
    match e
    case Create(kind, size) => Hit(Opened(stats, kind, size), kind)
    case Drop(kind, size) => Released(stats, kind, size)
  }

  function StatsAfter(events: seq<Event>): Stats {
    if events == [] then Stats(0, 0, 0, 0, 0, 0) else Happens(StatsAfter(events[..|events| - 1]), events[|events| - 1])
  }

  /** Creations and closes of one kind, and the bytes of each. */
  function Created(events: seq<Event>, kind: Kind): nat {
    if events == [] then 0
    else
      var e := events[|events| - 1];
      Created(events[..|events| - 1], kind) + if e.Create? && e.kind == kind then 1 else 0
  }

  function Dropped(events: seq<Event>, kind: Kind): nat {
    if events == [] then 0
    else
      var e := events[|events| - 1];
      Dropped(events[..|events| - 1], kind) + if e.Drop? && e.kind == kind then 1 else 0
  }

  function CreatedBytes(events: seq<Event>, kind: Kind): nat {
    if events == [] then 0
    else
      var e := events[|events| - 1];
      CreatedBytes(events[..|events| - 1], kind) + if e.Create? && e.kind == kind then e.size else 0
  }

  function DroppedBytes(events: seq<Event>, kind: Kind): nat {
    if events == [] then 0
    else
      var e := events[|events| - 1];
      DroppedBytes(events[..|events| - 1], kind) + if e.Drop? && e.kind == kind then e.size else 0
  }

  /** Nothing is closed that was not created. */
  ghost predicate ClosesOnlyCreated(events: seq<Event>) {
    forall k | 0 <= k <= |events| :: ClosesAtMostCreated(events[..k])
  }

  predicate ClosesAtMostCreated(events: seq<Event>) {
    Dropped(events, OnDisk) <= Created(events, OnDisk) && DroppedBytes(events, OnDisk) <= CreatedBytes(events, OnDisk)
  }

  /** After any creations and closes, in any order, the gauges hold what is still open and the hits what was created. */
  lemma {:induction false} StatsExact(events: seq<Event>)
    requires ClosesOnlyCreated(events)
    ensures StatsAfter(events) == Stats(
              Created(events, OnDisk) - Dropped(events, OnDisk),
              CreatedBytes(events, OnDisk) - DroppedBytes(events, OnDisk),
              Created(events, InMemory) - Dropped(events, InMemory),
              CreatedBytes(events, InMemory) - DroppedBytes(events, InMemory),
              Created(events, OnDisk), Created(events, InMemory))
  {
    if events == [] {
    } else {
      var n := |events| - 1;
      forall k | 0 <= k <= n ensures ClosesAtMostCreated(events[..n][..k]) {
        assert events[..n][..k] == events[..k];
      }
      StatsExact(events[..n]);
      assert ClosesAtMostCreated(events[..n + 1]) && events[..n + 1] == events;
    }
  }

  class Cache {
    const config: Accounting.Config
    const writable: bool   // whether a cache file can be created
    var stats: Stats

    constructor (config: Accounting.Config, writable: bool)
      ensures this.config == config && this.writable == writable && stats == Stats(0, 0, 0, 0, 0, 0)
    {
      this.config, this.writable, this.stats := config, writable, Stats(0, 0, 0, 0, 0, 0);
    }

    /** Whether a body of that length goes to disk. */
    predicate ChoosesDisk(length: nat)
      reads this
    {
      Accounting.ChoosesDisk(config, stats.diskUsage, length)
    }
  }

  // ------------------------------------------------------------------ memory

  class MemoryStorage {
    const data: seq<byte>
    const size: int
    const cache: Cache
    var position: nat
    var closed: bool

    ghost predicate Valid() { size == |data| }

    ghost function Value(): Buffer
      reads this
    {
      Buffer(data, position, closed)
    }

    constructor (data: seq<byte>, cache: Cache)
      modifies cache
      ensures Valid() && Value() == Buffer(data, 0, false) && this.cache == cache
      ensures cache.stats == Opened(old(cache.stats), InMemory, |data|)
    {
      this.data, this.size, this.cache, position, closed := data, |data|, cache, 0, false;
      new;
      cache.stats := Opened(cache.stats, InMemory, size);
    }

    method Read(p: array<byte>) returns (n: nat, error: Option<Error>)
      requires Valid()
      modifies this, p
      ensures Value() == After(old(Value()), Call.Read(p.Length)) && n <= p.Length
      ensures Got(p[..n], error) == Answer(InMemory, old(Value()), Call.Read(p.Length))
      ensures p[n..] == old(p[..])[n..]
    {
      if closed { return 0, Some(StorageClosed); }
      if position >= |data| { return 0, Some(Eof); }
      n := if p.Length < |data| - position then p.Length else |data| - position;
      Copy(data[position..position + n], p, 0);
      position, error := position + n, None;
    }

    method Seek(offset: int, whence: Whence) returns (r: Result<int, Error>)
      requires Valid()
      modifies this
      ensures Value() == After(old(Value()), Call.Seek(offset, whence))
      ensures Moved(r) == Answer(InMemory, old(Value()), Call.Seek(offset, whence))
    {
      if closed { return Err(StorageClosed); }
      var target := match whence case Start => offset case Current => position + offset case End => |data| + offset;
      if target < 0 { return Err(NegativePosition); }
      position, r := target, Ok(target);
    }

    method Bytes() returns (r: Result<seq<byte>, Error>)
      requires Valid()
      ensures Content(r) == Answer(InMemory, Value(), Call.Bytes)
    {
      r := if closed then Err(StorageClosed) else Ok(data);
    }

    method Close()
      requires Valid()
      modifies this, cache
      ensures Value() == After(old(Value()), Call.Close)
      ensures cache.stats == if old(closed) then old(cache.stats) else Released(old(cache.stats), InMemory, |data|)
    {
      if !closed {
        closed := true;
        cache.stats := Released(cache.stats, InMemory, size);
      }
    }
  }

  /** Copies data into p from index lo on. */
  method Copy(data: seq<byte>, p: array<byte>, lo: nat)
    requires lo + |data| <= p.Length
    modifies p
    ensures p[..] == old(p[..])[..lo] + data + old(p[..])[lo + |data|..]
  {
    forall i | 0 <= i < |data| { p[lo + i] := data[i]; }
  }

  // ------------------------------------------------------------------ disk

  /** What one read of a file at a valid offset delivers. */
  lemma AtOnce(b: Buffer, want: nat, n: nat, failed: Option<Error>, data: seq<byte>)
    requires want > 0 && !b.closed && b.cursor <= |b.bytes| && |data| == n
    requires Got(data, failed) == Answer(OnDisk, b, Call.Read(want))
    ensures b.cursor + n <= |b.bytes| && data == b.bytes[b.cursor..b.cursor + n]
    ensures After(b, Call.Read(want)) == b.(cursor := b.cursor + n)
    ensures failed.Some? <==> b.cursor == |b.bytes|
    ensures failed.None? ==> n > 0
  {
  }

  /** n bytes in place and k more behind them. */
  lemma Grown(was: seq<byte>, now: seq<byte>, content: seq<byte>, start: nat, n: nat, k: nat)
    requires n <= |was| && n + k <= |now| && start + n + k <= |content|
    requires now[..n] == was[..n] == content[start..start + n]
    requires now[n..n + k] == content[start + n..start + n + k]
    ensures now[..n + k] == content[start..start + n + k]
  {
    Adjacent(content, start, start + n, start + n + k);
    Adjacent(now, 0, n, n + k);
  }

  /** An open cache file: its content and the offset of its descriptor. */
  class File {
    var content: seq<byte>
    var offset: nat
    var open: bool
    var removed: bool

    constructor ()
      ensures content == [] && offset == 0 && open && !removed
    {
      content, offset, open, removed := [], 0, true, false;
    }

    ghost function Value(): Buffer
      reads this
    {
      Buffer(content, offset, false)
    }

    /** Appends, as a write at the end of the file does. */
    method Write(data: seq<byte>)
      requires open && offset == |content|
      modifies this
      ensures content == old(content) + data && offset == |content| && open && removed == old(removed)
    {
      content, offset := content + data, offset + |data|;
    }

    /** Reads into p[lo..]. */
    method Read(p: array<byte>, lo: nat) returns (n: nat, error: Option<Error>)
      requires open && lo <= p.Length
      modifies this, p
      ensures Value() == After(old(Value()), Call.Read(p.Length - lo)) && open && removed == old(removed)
      ensures lo + n <= p.Length && Got(p[lo..lo + n], error) == Answer(OnDisk, old(Value()), Call.Read(p.Length - lo))
      ensures p[..lo] == old(p[..])[..lo] && p[lo + n..] == old(p[..])[lo + n..]
    {
      if lo == p.Length { return 0, None; }
      if offset >= |content| { return 0, Some(Eof); }
      n := if p.Length - lo < |content| - offset then p.Length - lo else |content| - offset;
      Copy(content[offset..offset + n], p, lo);
      offset, error := offset + n, None;
    }

    method Seek(offset: int, whence: Whence) returns (r: Result<int, Error>)
      requires open
      modifies this
      ensures Value() == After(old(Value()), Call.Seek(offset, whence)) && open && removed == old(removed)
      ensures Moved(r) == Answer(OnDisk, old(Value()), Call.Seek(offset, whence))
    {
      var target := match whence
        case Start => offset
        case Current => this.offset + offset
        case End => |content| + offset;
      if target < 0 { return Err(NegativePosition); }
      this.offset, r := target, Ok(target);
    }

    /** One more read of io.ReadFull, behind the n bytes that p already holds. */
    method ReadMore(p: array<byte>, ghost start: nat, n: nat) returns (k: nat, failed: Option<Error>)
      requires open && n < p.Length && offset == start + n <= |content| && p[..n] == content[start..offset]
      modifies this, p
      ensures content == old(content) && open && removed == old(removed)
      ensures n + k <= p.Length && offset == start + n + k <= |content| && p[..n + k] == content[start..offset]
      ensures failed.Some? <==> old(offset) == |content|
      ensures failed.None? ==> k > 0
    {
      ghost var b, was := Value(), p[..];
      k, failed := Read(p, n);
      AtOnce(b, p.Length - n, k, failed, p[n..n + k]);
      Grown(was, p[..], content, start, n, k);
    }

    /** io.ReadFull: reads until p is full. */
    method ReadFull(p: array<byte>) returns (error: Option<Error>)
      requires open && offset <= |content|
      modifies this, p
      ensures content == old(content) && open && removed == old(removed)
      ensures offset == Min(old(offset) + p.Length, |content|)
      ensures error.None? <==> old(offset) + p.Length <= |content|
      ensures error.None? ==> p[..] == content[old(offset)..offset]
      ensures error.Some? ==> error == Some(if old(offset) < |content| then UnexpectedEof else Eof)
    {
      var n := 0;
      while n < p.Length
        invariant n <= p.Length && offset == old(offset) + n <= |content|
        invariant content == old(content) && open && removed == old(removed)
        invariant p[..n] == content[old(offset)..offset]
      {
        var k, failed := ReadMore(p, old(offset), n);
        if failed.Some? { return Some(if n > 0 then UnexpectedEof else Eof); }
        n := n + k;
      }
      error := None;
    }
  }

  class DiskStorage {
    const file: File
    const size: int
    const cache: Cache
    var closed: bool

    ghost predicate Valid()
      reads this, file
    {
      size == |file.content| && (if closed then !file.open && file.removed else file.open && !file.removed)
    }

    ghost function Value(): Buffer
      reads this, file
    {
      Buffer(file.content, file.offset, closed)
    }

    /** The common end of both constructors: rewind the written file and count it. */
    constructor (file: File, cache: Cache)
      requires file.open && !file.removed
      modifies cache, file
      ensures Valid() && Value() == Buffer(old(file.content), 0, false) && this.cache == cache && this.file == file
      ensures cache.stats == Opened(old(cache.stats), OnDisk, |old(file.content)|)
    {
      this.file, this.size, this.cache, closed := file, |file.content|, cache, false;
      new;
      var _ := file.Seek(0, Start);
      cache.stats := Opened(cache.stats, OnDisk, size);
    }

    method Read(p: array<byte>) returns (n: nat, error: Option<Error>)
      requires Valid()
      modifies this, file, p
      ensures Valid() && Value() == After(old(Value()), Call.Read(p.Length)) && n <= p.Length
      ensures Got(p[..n], error) == Answer(OnDisk, old(Value()), Call.Read(p.Length))
      ensures p[n..] == old(p[..])[n..]
    {
      if closed { return 0, Some(StorageClosed); }
      n, error := file.Read(p, 0);
    }

    method Seek(offset: int, whence: Whence) returns (r: Result<int, Error>)
      requires Valid()
      modifies this, file
      ensures Valid() && Value() == After(old(Value()), Call.Seek(offset, whence))
      ensures Moved(r) == Answer(OnDisk, old(Value()), Call.Seek(offset, whence))
    {
      if closed { return Err(StorageClosed); }
      r := file.Seek(offset, whence);
    }

    method Bytes() returns (r: Result<seq<byte>, Error>)
      requires Valid()
      modifies this, file
      ensures Valid() && Value() == old(Value())
      ensures Content(r) == Answer(OnDisk, old(Value()), Call.Bytes)
    {
      if closed { return Err(StorageClosed); }
      var current := file.Seek(0, Current);
      var _ := file.Seek(0, Start);
      var data := new byte[size];
      var error := file.ReadFull(data);
      match error {
        case Some(e) => return Err(e);
        case None => assert data[..] == file.content;
      }
      var _ := file.Seek(current.value, Start);
      r := Ok(data[..]);
    }

    method Close()
      requires Valid()
      modifies this, file, cache
      ensures Valid() && Value() == After(old(Value()), Call.Close)
      ensures cache.stats == if old(closed) then old(cache.stats) else Released(old(cache.stats), OnDisk, size)
    {
      if !closed {
        closed := true;
        file.open, file.removed := false, true;
        cache.stats := Released(cache.stats, OnDisk, size);
      }
    }
  }

  // ------------------------------------------------------------------ the interface

  datatype Storage = Memory(m: MemoryStorage) | Disk(d: DiskStorage) {
    ghost function Footprint(): set<object> {
      match this case Memory(m) => {m} case Disk(d) => {d, d.file}
    }

    ghost predicate Valid()
      reads Footprint()
    {
      match this case Memory(m) => m.Valid() case Disk(d) => d.Valid()
    }

    ghost function Value(): Buffer
      reads Footprint()
    {
      match this case Memory(m) => m.Value() case Disk(d) => d.Value()
    }

    function Kind(): Kind { if Disk? then OnDisk else InMemory }

    function Cache(): Cache { match this case Memory(m) => m.cache case Disk(d) => d.cache }

    function Size(): int { match this case Memory(m) => m.size case Disk(d) => d.size }

    method Perform(call: Call) returns (outcome: Outcome)
      requires Valid()
      modifies Footprint(), if call.Close? then {Cache()} else {}
      ensures Valid() && Value() == After(old(Value()), call) && outcome == Answer(Kind(), old(Value()), call)
      ensures Cache().stats ==
              if call.Close? && !old(Value()).closed then Released(old(Cache().stats), Kind(), Size())
              else old(Cache().stats)
    {
      match call
      case Read(want) =>
        var p := new byte[want];
        var n, error;
        if this.Memory? { n, error := m.Read(p); } else { n, error := d.Read(p); }
        outcome := Got(p[..n], error);
      case Seek(offset, whence) =>
        var r;
        if this.Memory? { r := m.Seek(offset, whence); } else { r := d.Seek(offset, whence); }
        outcome := Moved(r);
      case Bytes =>
        var r;
        if this.Memory? { r := m.Bytes(); } else { r := d.Bytes(); }
        outcome := Content(r);
      case Close =>
        if this.Memory? { m.Close(); } else { d.Close(); }
        outcome := Done;
    }
  }
}
