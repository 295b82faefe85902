/**
  The global counters of common/disk_cache_config.go under any interleaving of the storage
  creations and closes of common/body_storage.go. Every atomic add, load and store on a counter
  is a step of its own; a storage moves through the phases below.
 */
module StorageAccounting {
  import opened StorageKind

  datatype Config = Config(enabled: bool, threshold: int, maxBytes: int)

  datatype Phase =
    | Approved        // kind decided, content being stored, nothing counted
    | Abandoned       // creation failed or refused
    | Numbered        // after the add to the number counter
    | Open            // after the add to the byte counter: the constructor has returned
    | Closing         // the compare-and-swap on closed has succeeded
    | ClampingNumber  // the number counter went below zero, before the store of zero
    | Unnumbered      // after the subtraction from the number counter
    | ClampingBytes   // the byte counter went below zero, before the store of zero
    | Closed

  datatype Entry = Entry(kind: Kind, declared: nat, size: nat, phase: Phase)

  datatype State = State(
    config: Config, entries: seq<Entry>, files: int, diskUsage: int, buffers: int, memoryUsage: int)

  datatype Action =
    | Begin(declared: nat, size: nat)
    | Abandon(i: nat)
    | Fallback(i: nat)
    | AddNumber(i: nat)
    | AddBytes(i: nat)
    | Close(i: nat)
    | SubNumber(i: nat)
    | StoreNumber(i: nat)
    | SubBytes(i: nat)
    | StoreBytes(i: nat)

  /** The test of CreateBodyStorage and CreateBodyStorageFromReader, with IsDiskCacheAvailable in it. */
  predicate ChoosesDisk(config: Config, usage: int, declared: nat) {
    config.enabled && declared >= config.threshold && usage + declared <= config.maxBytes
  }

  predicate CanClose(phase: Phase) {
    phase != Approved && phase != Abandoned && phase != Numbered
  }

  predicate Enabled(s: State, a: Action) {
    match a
    case Begin(_, _) => true
    case Abandon(i) => i < |s.entries| && s.entries[i].phase == Approved
    case Fallback(i) => i < |s.entries| && s.entries[i].phase == Approved && s.entries[i].kind == OnDisk
    case AddNumber(i) => i < |s.entries| && s.entries[i].phase == Approved
    case AddBytes(i) => i < |s.entries| && s.entries[i].phase == Numbered
    case Close(i) => i < |s.entries| && CanClose(s.entries[i].phase)
    case SubNumber(i) => i < |s.entries| && s.entries[i].phase == Closing
    case StoreNumber(i) => i < |s.entries| && s.entries[i].phase == ClampingNumber
    case SubBytes(i) => i < |s.entries| && s.entries[i].phase == Unnumbered
    case StoreBytes(i) => i < |s.entries| && s.entries[i].phase == ClampingBytes
  }

  function Move(s: State, i: nat, phase: Phase): State
    requires i < |s.entries|
  {
    s.(entries := s.entries[i := s.entries[i].(phase := phase)])
  }

  function Number(s: State, kind: Kind): int { if kind == OnDisk then s.files else s.buffers }

  function Usage(s: State, kind: Kind): int { if kind == OnDisk then s.diskUsage else s.memoryUsage }

  function SetNumber(s: State, kind: Kind, n: int): State {
    if kind == OnDisk then s.(files := n) else s.(buffers := n)
  }

  function SetUsage(s: State, kind: Kind, n: int): State {
    if kind == OnDisk then s.(diskUsage := n) else s.(memoryUsage := n)
  }

  /** Only the disk counters are clamped at zero, by a store after the add. */
  function AfterSub(kind: Kind, value: int, clamping: Phase, next: Phase): Phase {
    if kind == OnDisk && value < 0 then clamping else next
  }

  function Do(s: State, a: Action): State
    requires Enabled(s, a)
  {
    match a
    case Begin(declared, size) =>
      var kind := if ChoosesDisk(s.config, s.diskUsage, declared) then OnDisk else InMemory;
      s.(entries := s.entries + [Entry(kind, declared, size, Approved)])
    case Abandon(i) => Move(s, i, Abandoned)
    case Fallback(i) =>
      // CreateBodyStorage after its cache file could not be created or written
      s.(entries := s.entries[i := s.entries[i].(kind := InMemory)])
    case AddNumber(i) =>
      var kind := s.entries[i].kind;
      SetNumber(Move(s, i, Numbered), kind, Number(s, kind) + 1)
    case AddBytes(i) =>
      var kind := s.entries[i].kind;
      SetUsage(Move(s, i, Open), kind, Usage(s, kind) + s.entries[i].size)
    case Close(i) =>
      // a failed compare-and-swap changes nothing
      if s.entries[i].phase == Open then Move(s, i, Closing) else s
    case SubNumber(i) =>
      var kind := s.entries[i].kind;
      var n := Number(s, kind) - 1;
      SetNumber(Move(s, i, AfterSub(kind, n, ClampingNumber, Unnumbered)), kind, n)
    case StoreNumber(i) => SetNumber(Move(s, i, Unnumbered), OnDisk, 0)
    case SubBytes(i) =>
      var kind := s.entries[i].kind;
      var n := Usage(s, kind) - s.entries[i].size;
      SetUsage(Move(s, i, AfterSub(kind, n, ClampingBytes, Closed)), kind, n)
    case StoreBytes(i) => SetUsage(Move(s, i, Closed), OnDisk, 0)
  }

  ghost predicate Init(s: State) {
    s.entries == [] && s.files == s.diskUsage == s.buffers == s.memoryUsage == 0
  }

  ghost predicate Step(s: State, s': State) {
    exists a :: Enabled(s, a) && s' == Do(s, a)
  }

  ghost predicate Run(run: seq<State>) {
    && |run| > 0 && Init(run[0])
    && forall k | 0 <= k < |run| - 1 :: Step(run[k], run[k + 1])
  }

  // ------------------------------------------------------------------ sums over the storages

  function Sum(entries: seq<Entry>, weight: Entry -> int): int {
    if entries == [] then 0 else Sum(entries[..|entries| - 1], weight) + weight(entries[|entries| - 1])
  }

  lemma {:induction false} SumUpdate(entries: seq<Entry>, i: nat, e: Entry, weight: Entry -> int)
    requires i < |entries|
    ensures Sum(entries[i := e], weight) == Sum(entries, weight) - weight(entries[i]) + weight(e)
  {
    var n := |entries| - 1;
    if i < n {
      assert entries[i := e][..n] == entries[..n][i := e];
      SumUpdate(entries[..n], i, e, weight);
    } else {
      assert entries[i := e][..n] == entries[..n];
    }
  }

  lemma SumAppend(entries: seq<Entry>, e: Entry, weight: Entry -> int)
    ensures Sum(entries + [e], weight) == Sum(entries, weight) + weight(e)
  {
    assert (entries + [e])[..|entries|] == entries;
  }

  lemma {:induction false} SumAtLeast(entries: seq<Entry>, i: nat, weight: Entry -> int)
    requires i < |entries| && forall e :: weight(e) >= 0
    ensures Sum(entries, weight) >= weight(entries[i])
  {
    var n := |entries| - 1;
    SumNonNegative(entries[..n], weight);
    if i == n {
    } else {
      SumAtLeast(entries[..n], i, weight);
    }
  }

  lemma {:induction false} SumNonNegative(entries: seq<Entry>, weight: Entry -> int)
    requires forall e :: weight(e) >= 0
    ensures Sum(entries, weight) >= 0
  {
    if entries == [] {
    } else {
      SumNonNegative(entries[..|entries| - 1], weight);
    }
  }

  lemma {:induction false} SumBounded(entries: seq<Entry>, weight: Entry -> int, other: Entry -> int)
    requires forall e | e in entries :: weight(e) <= other(e)
    ensures Sum(entries, weight) <= Sum(entries, other)
  {
    if entries == [] {
    } else {
      SumBounded(entries[..|entries| - 1], weight, other);
    }
  }

  /** What a storage adds to the number and byte counters of its kind. */
  function NumberWeight(kind: Kind): Entry -> int {
    (e: Entry) => if e.kind == kind && (e.phase == Numbered || e.phase == Open || e.phase == Closing) then 1 else 0
  }

  predicate BytesCounted(phase: Phase) {
    phase == Open || phase == Closing || phase == ClampingNumber || phase == Unnumbered
  }

  function BytesWeight(kind: Kind): Entry -> int {
    (e: Entry) => if e.kind == kind && BytesCounted(e.phase) then e.size else 0
  }

  // ------------------------------------------------------------------ the counters are exact

  ghost predicate NoClamp(s: State) {
    forall i | 0 <= i < |s.entries| :: s.entries[i].phase != ClampingNumber && s.entries[i].phase != ClampingBytes
  }

  ghost predicate Exact(s: State, kind: Kind) {
    && Number(s, kind) == Sum(s.entries, NumberWeight(kind))
    && Usage(s, kind) == Sum(s.entries, BytesWeight(kind))
  }

  lemma NumberChange(s: State, a: Action, kind: Kind)
    requires Enabled(s, a) && !a.Begin? && NoClamp(s)
    ensures var s' := Do(s, a);
            && s'.entries == s.entries[a.i := s'.entries[a.i]]
            && Number(s', kind) - Number(s, kind)
               == NumberWeight(kind)(s'.entries[a.i]) - NumberWeight(kind)(s.entries[a.i])
  {
  }

  lemma DoNumber(s: State, a: Action, kind: Kind)
    requires Enabled(s, a) && Number(s, kind) == Sum(s.entries, NumberWeight(kind)) && NoClamp(s)
    ensures Number(Do(s, a), kind) == Sum(Do(s, a).entries, NumberWeight(kind))
  {
    var s' := Do(s, a);
    if a.Begin? {
      SumAppend(s.entries, s'.entries[|s.entries|], NumberWeight(kind));
    } else {
      NumberChange(s, a, kind);
      SumUpdate(s.entries, a.i, s'.entries[a.i], NumberWeight(kind));
    }
  }

  lemma UsageChange(s: State, a: Action, kind: Kind)
    requires Enabled(s, a) && !a.Begin? && NoClamp(s)
    ensures var s' := Do(s, a);
            && s'.entries == s.entries[a.i := s'.entries[a.i]]
            && Usage(s', kind) - Usage(s, kind)
               == BytesWeight(kind)(s'.entries[a.i]) - BytesWeight(kind)(s.entries[a.i])
  {
  }

  lemma DoBytes(s: State, a: Action, kind: Kind)
    requires Enabled(s, a) && Usage(s, kind) == Sum(s.entries, BytesWeight(kind)) && NoClamp(s)
    ensures Usage(Do(s, a), kind) == Sum(Do(s, a).entries, BytesWeight(kind))
  {
    var s' := Do(s, a);
    if a.Begin? {
      SumAppend(s.entries, s'.entries[|s.entries|], BytesWeight(kind));
    } else {
      UsageChange(s, a, kind);
      SumUpdate(s.entries, a.i, s'.entries[a.i], BytesWeight(kind));
    }
  }

  lemma DoExact(s: State, a: Action, kind: Kind)
    requires Enabled(s, a) && Exact(s, kind) && NoClamp(s)
    ensures Exact(Do(s, a), kind)
  {
    DoNumber(s, a, kind);
    DoBytes(s, a, kind);
  }

  /** A subtraction never takes a disk counter below zero, so the stores of zero never happen. */
  lemma DoNoClamp(s: State, a: Action)
    requires Enabled(s, a) && Exact(s, OnDisk) && NoClamp(s)
    ensures NoClamp(Do(s, a))
  {
    if a.SubNumber? && s.entries[a.i].kind == OnDisk {
      SumAtLeast(s.entries, a.i, NumberWeight(OnDisk));
    } else if a.SubBytes? && s.entries[a.i].kind == OnDisk {
      SumAtLeast(s.entries, a.i, BytesWeight(OnDisk));
    }
  }

  ghost predicate Inv(s: State) {
    Exact(s, OnDisk) && Exact(s, InMemory) && NoClamp(s)
  }

  lemma {:induction false} RunInv(run: seq<State>, k: nat)
    requires Run(run) && k < |run|
    ensures Inv(run[k])
  {
    if k == 0 {
    } else {
      RunInv(run, k - 1);
      assert Step(run[k - 1], run[k - 1 + 1]);
      var a :| Enabled(run[k - 1], a) && run[k] == Do(run[k - 1], a);
      DoExact(run[k - 1], a, OnDisk);
      DoExact(run[k - 1], a, InMemory);
      DoNoClamp(run[k - 1], a);
    }
  }

  /** Every counter is never negative, and no clamp is ever pending. */
  lemma ClampsNeverFire(run: seq<State>, k: nat)
    requires Run(run) && k < |run|
    ensures NoClamp(run[k]) && forall kind: Kind :: Number(run[k], kind) >= 0 && Usage(run[k], kind) >= 0
  {
    RunInv(run, k);
    forall kind: Kind ensures Number(run[k], kind) >= 0 && Usage(run[k], kind) >= 0 {
      SumNonNegative(run[k].entries, NumberWeight(kind));
      SumNonNegative(run[k].entries, BytesWeight(kind));
      assert Exact(run[k], kind);
    }
  }

  // ------------------------------------------------------------------ at rest

  predicate Quiescent(s: State) {
    forall i | 0 <= i < |s.entries| ::
      s.entries[i].phase == Open || s.entries[i].phase == Closed || s.entries[i].phase == Abandoned
  }

  /** The storages of one kind that are open, oldest first. */
  function OpenOf(entries: seq<Entry>, kind: Kind): seq<Entry> {
    if entries == [] then []
    else
      var e := entries[|entries| - 1];
      OpenOf(entries[..|entries| - 1], kind) + if e.kind == kind && e.phase == Open then [e] else []
  }

  function TotalSize(entries: seq<Entry>): nat {
    if entries == [] then 0 else TotalSize(entries[..|entries| - 1]) + entries[|entries| - 1].size
  }

  lemma {:induction false} SumsAtRest(entries: seq<Entry>, kind: Kind)
    requires forall i | 0 <= i < |entries| ::
               entries[i].phase == Open || entries[i].phase == Closed || entries[i].phase == Abandoned
    ensures Sum(entries, NumberWeight(kind)) == |OpenOf(entries, kind)|
    ensures Sum(entries, BytesWeight(kind)) == TotalSize(OpenOf(entries, kind))
  {
    if entries == [] {
    } else {
      var rest, e := entries[..|entries| - 1], entries[|entries| - 1];
      SumsAtRest(rest, kind);
      assert (OpenOf(rest, kind) + [e])[..|OpenOf(rest, kind)|] == OpenOf(rest, kind);
      assert OpenOf(rest, kind) + [] == OpenOf(rest, kind);
    }
  }

  /** With no create or close under way, the counters are the number and total size of the open storages. */
  lemma QuiescentCounters(run: seq<State>, k: nat)
    requires Run(run) && k < |run| && Quiescent(run[k])
    ensures var s := run[k];
            && s.files == |OpenOf(s.entries, OnDisk)| && s.diskUsage == TotalSize(OpenOf(s.entries, OnDisk))
            && s.buffers == |OpenOf(s.entries, InMemory)| && s.memoryUsage == TotalSize(OpenOf(s.entries, InMemory))
  {
    RunInv(run, k);
    SumsAtRest(run[k].entries, OnDisk);
    SumsAtRest(run[k].entries, InMemory);
  }

  // ------------------------------------------------------------------ the disk limit

  /** A creation that was promised disk space and has not added its bytes yet. */
  predicate InFlight(e: Entry) {
    e.kind == OnDisk && (e.phase == Approved || e.phase == Numbered)
  }

  function FlightWeight(): Entry -> int { (e: Entry) => if InFlight(e) then 1 else 0 }

  function PendingWeight(): Entry -> int { (e: Entry) => if InFlight(e) then e.size else 0 }

  function ScaledFlight(most: nat): Entry -> int { (e: Entry) => if InFlight(e) then most else 0 }

  function Max(a: int, b: int): int { if a < b then b else a }

  /** At most n creations in flight, none larger than most or than it declared. */
  ghost predicate Crowd(s: State, n: nat, most: nat) {
    && Sum(s.entries, FlightWeight()) <= n
    && forall i | 0 <= i < |s.entries| && s.entries[i].kind == OnDisk ::
         s.entries[i].size <= s.entries[i].declared <= most
  }

  /** Bytes counted or promised. */
  function Reserved(s: State): int { s.diskUsage + Sum(s.entries, PendingWeight()) }

  function Limit(config: Config, n: nat, most: nat): int { Max(config.maxBytes, 0) + Max(n - 1, 0) * most }

  lemma {:induction false} Scaled(entries: seq<Entry>, most: nat)
    ensures Sum(entries, ScaledFlight(most)) == Sum(entries, FlightWeight()) * most
  {
    if entries == [] {
    } else {
      Scaled(entries[..|entries| - 1], most);
    }
  }

  lemma PendingBounded(entries: seq<Entry>, n: int, most: nat)
    requires Sum(entries, FlightWeight()) <= n && forall e | e in entries && e.kind == OnDisk :: e.size <= most
    ensures 0 <= n && Sum(entries, PendingWeight()) <= n * most
  {
    SumNonNegative(entries, FlightWeight());
    SumBounded(entries, PendingWeight(), ScaledFlight(most));
    Scaled(entries, most);
    Product(Sum(entries, FlightWeight()), n, most);
  }

  lemma Product(a: int, b: int, c: nat)
    requires a <= b
    ensures a * c <= b * c
  {
  }

  lemma BeginReserved(s: State, declared: nat, size: nat, n: nat, most: nat)
    requires Crowd(s, n, most) && Crowd(Do(s, Begin(declared, size)), n, most)
    requires Reserved(s) <= Limit(s.config, n, most)
    ensures Reserved(Do(s, Begin(declared, size))) <= Limit(s.config, n, most)
  {
    var s' := Do(s, Begin(declared, size));
    var e := s'.entries[|s.entries|];
    SumAppend(s.entries, e, PendingWeight());
    SumAppend(s.entries, e, FlightWeight());
    if e.kind == OnDisk {
      PendingBounded(s.entries, n - 1, most);
      assert e.size <= e.declared;
    }
  }

  lemma MoveReserved(s: State, a: Action)
    requires Enabled(s, a) && !a.Begin? && NoClamp(s)
    ensures Reserved(Do(s, a)) <= Reserved(s)
  {
    var s' := Do(s, a);
    SumUpdate(s.entries, a.i, s'.entries[a.i], PendingWeight());
    assert s'.entries == s.entries[a.i := s'.entries[a.i]];
  }

  lemma {:induction false} RunReserved(run: seq<State>, k: nat, n: nat, most: nat)
    requires Run(run) && k < |run| && forall j | 0 <= j < |run| :: Crowd(run[j], n, most)
    ensures run[k].config == run[0].config && Reserved(run[k]) <= Limit(run[k].config, n, most)
  {
    if k == 0 {
    } else {
      RunReserved(run, k - 1, n, most);
      RunInv(run, k - 1);
      assert Step(run[k - 1], run[k - 1 + 1]);
      var a :| Enabled(run[k - 1], a) && run[k] == Do(run[k - 1], a);
      if a.Begin? {
        BeginReserved(run[k - 1], a.declared, a.size, n, most);
      } else {
        MoveReserved(run[k - 1], a);
      }
    }
  }

  /**
    The check and the add are separate, so n creations at a time can overshoot, by at most n - 1
    bodies: the usage stays within the maximum plus n - 1 times the largest body.
   */
  lemma UsageBound(run: seq<State>, k: nat, n: nat, most: nat)
    requires Run(run) && k < |run| && forall j | 0 <= j < |run| :: Crowd(run[j], n, most)
    ensures run[k].diskUsage <= Limit(run[k].config, n, most)
  {
    RunReserved(run, k, n, most);
    SumNonNegative(run[k].entries, PendingWeight());
  }

  /** Creations one at a time, none longer than declared: the usage never exceeds the maximum. */
  lemma SerialUsageBound(run: seq<State>, k: nat, most: nat)
    requires Run(run) && k < |run| && run[k].config.maxBytes >= 0
    requires forall j | 0 <= j < |run| :: Crowd(run[j], 1, most)
    ensures run[k].diskUsage <= run[k].config.maxBytes
  {
    UsageBound(run, k, 1, most);
  }

  /** The phases in their order; the two clamps are never entered, and Abandoned is an end as well. */
  predicate Follows(p: Phase, q: Phase) {
    match p
    case Approved => q == Abandoned || q == Numbered
    case Numbered => q == Open
    case Open => q == Closing
    case Closing => q == Unnumbered
    case Unnumbered => q == Closed
    case _ => false
  }

  /** Of a storage that is there, a step changes the phase to the next, or the kind, before anything is counted. */
  lemma Lifecycle(s: State, a: Action, i: nat)
    requires Enabled(s, a) && Exact(s, OnDisk) && NoClamp(s) && i < |s.entries|
    ensures i < |Do(s, a).entries|
    ensures var e, e' := s.entries[i], Do(s, a).entries[i];
            || e' == e
            || (Follows(e.phase, e'.phase) && e' == e.(phase := e'.phase))
            || (e.phase == Approved && e.kind == OnDisk && e' == e.(kind := InMemory))
  {
    DoNoClamp(s, a);
  }

  /** A creation can fail until something is counted for it, and then nothing ever is. */
  lemma CreationFails(s: State, i: nat)
    requires i < |s.entries| && s.entries[i].phase == Approved
    ensures Enabled(s, Abandon(i))
    ensures Do(s, Abandon(i)) == s.(entries := s.entries[i := s.entries[i].(phase := Abandoned)])
  {
  }

  /** Until then a creation on disk can turn to memory instead. */
  lemma CreationFallsBack(s: State, i: nat)
    requires i < |s.entries| && s.entries[i].phase == Approved && s.entries[i].kind == OnDisk
    ensures Enabled(s, Fallback(i))
    ensures Do(s, Fallback(i)) == s.(entries := s.entries[i := s.entries[i].(kind := InMemory)])
  {
  }

  /** A creation is promised disk space exactly if the cache is on, the body large enough and the disk not full. */
  lemma PromisedIff(s: State, declared: nat, size: nat)
    ensures var s', c := Do(s, Begin(declared, size)), s.config;
            && |s'.entries| == |s.entries| + 1
            && (s'.entries[|s.entries|].kind == OnDisk <==>
                  c.enabled && c.threshold <= declared && declared <= c.maxBytes - s.diskUsage)
  {
  }

  /** With the cache switched off, or for a body below the threshold, nothing ever goes to disk. */
  lemma {:induction false} SmallStaysInMemory(run: seq<State>, k: nat, i: nat)
    requires Run(run) && k < |run| && i < |run[k].entries|
    requires !run[0].config.enabled || run[k].entries[i].declared < run[0].config.threshold
    ensures run[k].entries[i].kind == InMemory && run[k].config == run[0].config
  {
    if k == 0 {
      assert false;
    } else {
      ConfigStays(run, k - 1);
      assert Step(run[k - 1], run[k - 1 + 1]);
      var a :| Enabled(run[k - 1], a) && run[k] == Do(run[k - 1], a);
      EntryComesFrom(run[k - 1], a, i);
      if i < |run[k - 1].entries| {
        SmallStaysInMemory(run, k - 1, i);
      }
    }
  }

  lemma {:induction false} ConfigStays(run: seq<State>, k: nat)
    requires Run(run) && k < |run|
    ensures run[k].config == run[0].config
  {
    if k == 0 {
    } else {
      ConfigStays(run, k - 1);
      assert Step(run[k - 1], run[k - 1 + 1]);
      var a :| Enabled(run[k - 1], a) && run[k] == Do(run[k - 1], a);
    }
  }

  /** An entry is new and decided by the test, or it was there with that declared length. */
  lemma EntryComesFrom(s: State, a: Action, i: nat)
    requires Enabled(s, a) && i < |Do(s, a).entries|
    ensures var e := Do(s, a).entries[i];
            && Do(s, a).config == s.config
            && if i < |s.entries| then
                 && e.declared == s.entries[i].declared && e.size == s.entries[i].size
                 && (e.kind == s.entries[i].kind || e.kind == InMemory)
               else
                 a == Begin(e.declared, e.size)
                 && (e.kind == OnDisk ==> s.config.enabled && e.declared >= s.config.threshold)
  {
  }

  // ------------------------------------------------------------------ the bound is reached

  lemma Extend(run: seq<State>, a: Action) returns (longer: seq<State>)
    requires Run(run) && Enabled(run[|run| - 1], a)
    ensures Run(longer) && longer == run + [Do(run[|run| - 1], a)]
  {
    longer := run + [Do(run[|run| - 1], a)];
    forall k | 0 <= k < |longer| - 1 ensures Step(longer[k], longer[k + 1]) {
      if k < |run| - 1 { assert Step(run[k], run[k + 1]); }
    }
  }

  /** Of n creations of maxBytes bytes each, all approved before any was counted, the first done are open. */
  function Burst(maxBytes: nat, n: nat, done: nat): State
    requires done <= n
  {
    State(Config(true, 0, maxBytes), BurstEntries(maxBytes, n, done), done, done * maxBytes, 0, 0)
  }

  function BurstEntries(maxBytes: nat, n: nat, done: nat): seq<Entry>
    requires done <= n
  {
    seq(n, i => Entry(OnDisk, maxBytes, maxBytes, if i < done then Open else Approved))
  }

  ghost predicate BurstRun(run: seq<State>, n: nat, maxBytes: nat) {
    Run(run) && forall j | 0 <= j < |run| :: Crowd(run[j], n, maxBytes)
  }

  lemma SmallCrowd(s: State, n: nat, most: nat)
    requires |s.entries| <= n && forall e | e in s.entries :: e.size <= e.declared <= most
    ensures Crowd(s, n, most)
  {
    SumCount(s.entries);
  }

  lemma {:induction false} SumCount(entries: seq<Entry>)
    ensures Sum(entries, FlightWeight()) <= |entries|
  {
    if entries == [] {
    } else {
      SumCount(entries[..|entries| - 1]);
    }
  }

  lemma {:induction false} Approvals(maxBytes: nat, n: nat, started: nat) returns (run: seq<State>)
    requires started <= n
    ensures BurstRun(run, n, maxBytes) && run[|run| - 1] == Burst(maxBytes, started, 0)
  {
    if started == 0 {
      run := [Burst(maxBytes, 0, 0)];
    } else {
      run := Approvals(maxBytes, n, started - 1);
      var s := run[|run| - 1];
      run := Extend(run, Begin(maxBytes, maxBytes));
      assert run[|run| - 1].entries == BurstEntries(maxBytes, started, 0);
      SmallCrowd(run[|run| - 1], n, maxBytes);
    }
  }

  lemma {:induction false} Commits(maxBytes: nat, n: nat, done: nat) returns (run: seq<State>)
    requires done <= n
    ensures BurstRun(run, n, maxBytes) && run[|run| - 1] == Burst(maxBytes, n, done)
  {
    if done == 0 {
      run := Approvals(maxBytes, n, n);
    } else {
      run := Commits(maxBytes, n, done - 1);
      run := Extend(run, AddNumber(done - 1));
      SmallCrowd(run[|run| - 1], n, maxBytes);
      run := Extend(run, AddBytes(done - 1));
      assert run[|run| - 1].entries == BurstEntries(maxBytes, n, done);
      assert run[|run| - 1].diskUsage == (done - 1) * maxBytes + maxBytes == done * maxBytes;
      SmallCrowd(run[|run| - 1], n, maxBytes);
    }
  }

  /** Every bound is reached: n concurrent creations can fill the disk n times over. */
  lemma BoundReached(maxBytes: nat, n: nat) returns (run: seq<State>)
    requires n >= 1
    ensures BurstRun(run, n, maxBytes)
    ensures var s := run[|run| - 1];
            && s.config.maxBytes == maxBytes && Quiescent(s)
            && s.diskUsage == Limit(s.config, n, maxBytes) == n * maxBytes
  {
    run := Commits(maxBytes, n, n);
    assert (n - 1) * maxBytes + maxBytes == n * maxBytes;
  }

  /** One at a time is not enough when a body is longer than it declared. */
  lemma UnderdeclaredOvershoots() returns (run: seq<State>)
    ensures Run(run) && forall j | 0 <= j < |run| :: |run[j].entries| <= 1
    ensures var s := run[|run| - 1]; Quiescent(s) && s.diskUsage > s.config.maxBytes
  {
    run := [State(Config(true, 0, 10), [], 0, 0, 0, 0)];
    run := Extend(run, Begin(10, 11));
    run := Extend(run, AddNumber(0));
    run := Extend(run, AddBytes(0));
  }
}
