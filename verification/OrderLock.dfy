/**
  The per-order lock of controller/topup.go: a table of reference-counted mutexes that are
  created on demand by LockOrder and removed by the last UnlockOrder.

  Every access to shared memory is one step of a transition system, so a run may interleave
  any number of threads between any two of them. A `sync.Mutex` is recorded by its current
  owner; releasing one clears the owner without asking who calls, exactly as Go does.
 */
module OrderLock {
  import opened Wrappers

  type ThreadId = nat
  type TradeNo = string
  type LockId = nat

  datatype RefCountedMutex = RefCountedMutex(owner: Option<ThreadId>, refCount: int)

  /** Where a thread stands. A lock id in a program counter is the local variable `rcm`. */
  datatype Pc =
    | Idle                                    // outside LockOrder and UnlockOrder
    | WantCreate(tn: TradeNo)                 // before createLock.Lock() in LockOrder
    | Looking(tn: TradeNo)                    // before orderLocks.Load
    | Creating(tn: TradeNo)                   // Load missed, before orderLocks.Store
    | Found(tn: TradeNo, id: LockId)          // before refCount++
    | Counted(tn: TradeNo, id: LockId)        // before createLock.Unlock()
    | Waiting(tn: TradeNo, id: LockId)        // before rcm.mu.Lock()
    | Holding(tn: TradeNo, id: LockId)        // LockOrder has returned; `id` is auxiliary
    | Loaded(tn: TradeNo, id: LockId)         // UnlockOrder, before rcm.mu.Unlock()
    | Unlocked(tn: TradeNo, id: LockId)       // before the second createLock.Lock()
    | Decrementing(tn: TradeNo, id: LockId)   // before refCount--
    | Deleting(tn: TradeNo, id: LockId)       // refCount reached zero, before Delete
    | Releasing                               // before the last createLock.Unlock()

  datatype State = State(
    pcs: map<ThreadId, Pc>,
    table: map<TradeNo, LockId>,
    heap: seq<RefCountedMutex>,
    creator: Option<ThreadId>)
  {
    function Goto(t: ThreadId, pc: Pc): State {
      this.(pcs := pcs[t := pc])
    }

    function SetLock(id: LockId, m: RefCountedMutex): State
      requires id < |heap|
    {
      this.(heap := heap[id := m])
    }
  }

  /** No thread inside the lock code, no lock object, no table entry. */
  ghost predicate Init(s: State) {
    && (forall t | t in s.pcs :: s.pcs[t].Idle?)
    && s.table == map[] && s.heap == [] && s.creator.None?
  }

  /** The lock id a program counter carries points at an allocated object. */
  predicate PointersOk(s: State) {
    && (forall t | t in s.pcs && HasId(s.pcs[t]) :: s.pcs[t].id < |s.heap|)
    && (forall tn | tn in s.table :: s.table[tn] < |s.heap|)
  }

  predicate HasId(pc: Pc) {
    !pc.Idle? && !pc.WantCreate? && !pc.Looking? && !pc.Creating? && !pc.Releasing?
  }

  /** Only the two mutexes can block a thread. */
  predicate Enabled(s: State, t: ThreadId)
    requires PointersOk(s)
  {
    && t in s.pcs
    && (s.pcs[t].WantCreate? || s.pcs[t].Unlocked? ==> s.creator.None?)
    && (s.pcs[t].Waiting? ==> s.heap[s.pcs[t].id].owner.None?)
  }

  /** What the next atomic step of thread t does to shared memory. */
  function Effect(s: State, t: ThreadId): State
    requires PointersOk(s) && Enabled(s, t)
  {
    match s.pcs[t]
    case WantCreate(_) => s.(creator := Some(t))
    case Creating(n) => s.(heap := s.heap + [RefCountedMutex(None, 0)], table := s.table[n := |s.heap|])
    case Found(_, id) => s.SetLock(id, s.heap[id].(refCount := s.heap[id].refCount + 1))
    case Counted(_, _) => s.(creator := None)
    case Waiting(_, id) => s.SetLock(id, s.heap[id].(owner := Some(t)))
    case Loaded(_, id) => s.SetLock(id, s.heap[id].(owner := None))
    case Unlocked(_, _) => s.(creator := Some(t))
    case Decrementing(_, id) => s.SetLock(id, s.heap[id].(refCount := s.heap[id].refCount - 1))
    case Deleting(n, _) => s.(table := s.table - {n})
    case Releasing => s.(creator := None)
    case Idle => s
    case Looking(_) => s
    case Holding(_, _) => s
  }

  /** Where that step takes the thread; an idle thread calls LockOrder(tn). */
  function NextPc(s: State, t: ThreadId, tn: TradeNo): Pc
    requires PointersOk(s) && Enabled(s, t)
  {
    match s.pcs[t]
    case Idle => WantCreate(tn)
    case WantCreate(n) => Looking(n)
    case Looking(n) => if n in s.table then Found(n, s.table[n]) else Creating(n)
    case Creating(n) => Found(n, |s.heap|)
    case Found(n, id) => Counted(n, id)
    case Counted(n, id) => Waiting(n, id)
    case Waiting(n, id) => Holding(n, id)
    case Holding(n, _) => if n in s.table then Loaded(n, s.table[n]) else Idle
    case Loaded(n, id) => Unlocked(n, id)
    case Unlocked(n, id) => Decrementing(n, id)
    case Decrementing(n, id) => if s.heap[id].refCount - 1 == 0 then Deleting(n, id) else Releasing
    case Deleting(_, _) => Releasing
    case Releasing => Idle
  }

  function Next(s: State, t: ThreadId, tn: TradeNo): State
    requires PointersOk(s) && Enabled(s, t)
  {
    Effect(s, t).Goto(t, NextPc(s, t, tn))
  }

  // ------------------------------------------------------------------ the invariant

  /** t has added itself to the reference count of lock id and not yet removed itself. */
  predicate Counts(pc: Pc, id: LockId) {
    && (pc.Counted? || pc.Waiting? || pc.Holding? || pc.Loaded? || pc.Unlocked? || pc.Decrementing?)
    && pc.id == id
  }

  /** t is between rcm.mu.Lock() and rcm.mu.Unlock(). */
  predicate Owns(pc: Pc, id: LockId) {
    (pc.Holding? || pc.Loaded?) && pc.id == id
  }

  predicate InCreateSection(pc: Pc) {
    || pc.Looking? || pc.Creating? || pc.Found? || pc.Counted?
    || pc.Decrementing? || pc.Deleting? || pc.Releasing?
  }

  ghost function Users(s: State, id: LockId): set<ThreadId> {
    set t | t in s.pcs && Counts(s.pcs[t], id)
  }

  ghost predicate CreateLockOk(s: State) {
    && (s.creator.Some? ==> s.creator.value in s.pcs)
    && (forall t | t in s.pcs :: InCreateSection(s.pcs[t]) <==> s.creator == Some(t))
  }

  ghost predicate TableInjective(s: State) {
    forall m, n | m in s.table && n in s.table && s.table[m] == s.table[n] :: m == n
  }

  /** Every thread that has a lock object in hand has the one in the table. */
  ghost predicate PointsIntoTable(s: State) {
    && (forall t | t in s.pcs && HasId(s.pcs[t]) ::
          s.pcs[t].tn in s.table && s.table[s.pcs[t].tn] == s.pcs[t].id)
    && (forall t | t in s.pcs && s.pcs[t].Creating? :: s.pcs[t].tn !in s.table)
  }

  ghost predicate CountsExact(s: State) {
    forall id | 0 <= id < |s.heap| :: s.heap[id].refCount == |Users(s, id)|
  }

  ghost predicate OwnersExact(s: State)
    requires PointersOk(s)
  {
    && (forall t | t in s.pcs && (s.pcs[t].Holding? || s.pcs[t].Loaded?) ::
          s.heap[s.pcs[t].id].owner == Some(t))
    && (forall id | 0 <= id < |s.heap| && s.heap[id].owner.Some? ::
          s.heap[id].owner.value in s.pcs && Owns(s.pcs[s.heap[id].owner.value], id))
  }

  /** The creator is about to add the first reference or to drop the entry of the last one. */
  predicate InTransit(s: State, tn: TradeNo) {
    && s.creator.Some? && s.creator.value in s.pcs
    && var pc := s.pcs[s.creator.value];
       (pc.Found? || pc.Deleting?) && pc.tn == tn
  }

  /** A table entry without references exists only while the creator works on it. */
  ghost predicate EntriesUsed(s: State)
    requires PointersOk(s)
  {
    && (forall tn | tn in s.table :: s.heap[s.table[tn]].refCount > 0 || InTransit(s, tn))
    && (forall t | t in s.pcs && s.pcs[t].Deleting? :: s.heap[s.pcs[t].id].refCount == 0)
  }

  ghost predicate Inv(s: State) {
    && PointersOk(s) && CreateLockOk(s) && TableInjective(s) && PointsIntoTable(s)
    && CountsExact(s) && OwnersExact(s) && EntriesUsed(s)
  }

  // ------------------------------------------------------------------ preservation

  lemma InitInv(s: State)
    requires Init(s)
    ensures Inv(s)
  {
  }

  /** Moving one thread changes each user set by at most that thread. */
  lemma UsersAfter(s: State, s': State, t: ThreadId, pc: Pc, id: LockId)
    requires t in s.pcs && s'.pcs == s.pcs[t := pc]
    ensures Users(s', id) == if Counts(pc, id) then Users(s, id) + {t} else Users(s, id) - {t}
    ensures |Users(s', id)| == |Users(s, id)|
                               + (if Counts(pc, id) then 1 else 0)
                               - (if Counts(s.pcs[t], id) then 1 else 0)
  {
    var rest := Users(s, id) - {t};
    assert Users(s, id) == if Counts(s.pcs[t], id) then rest + {t} else rest;
    assert Users(s', id) == if Counts(pc, id) then rest + {t} else rest;
  }

  lemma NextMovesOne(s: State, t: ThreadId, tn: TradeNo)
    requires PointersOk(s) && Enabled(s, t)
    ensures Next(s, t, tn).pcs == s.pcs[t := Next(s, t, tn).pcs[t]]
    ensures |s.heap| <= |Next(s, t, tn).heap|
  {
  }

  /** What a step does to the owner of one lock object. */
  function OwnerAfter(s: State, t: ThreadId, id: LockId): Option<ThreadId>
    requires t in s.pcs
  {
    if id >= |s.heap| then None
    else if s.pcs[t].Waiting? && s.pcs[t].id == id then Some(t)
    else if s.pcs[t].Loaded? && s.pcs[t].id == id then None
    else s.heap[id].owner
  }

  lemma NextOwnerAt(s: State, t: ThreadId, tn: TradeNo, id: LockId)
    requires PointersOk(s) && Enabled(s, t) && id < |Next(s, t, tn).heap|
    ensures Next(s, t, tn).heap[id].owner == OwnerAfter(s, t, id)
  {
  }

  /** What a step does to the reference count of one lock object. */
  function RefCountAfter(s: State, t: ThreadId, id: LockId): int
    requires t in s.pcs
  {
    if id >= |s.heap| then 0
    else if s.pcs[t].Found? && s.pcs[t].id == id then s.heap[id].refCount + 1
    else if s.pcs[t].Decrementing? && s.pcs[t].id == id then s.heap[id].refCount - 1
    else s.heap[id].refCount
  }

  lemma NextRefCountAt(s: State, t: ThreadId, tn: TradeNo, id: LockId)
    requires PointersOk(s) && Enabled(s, t) && id < |Next(s, t, tn).heap|
    ensures Next(s, t, tn).heap[id].refCount == RefCountAfter(s, t, id)
  {
  }

  /** How a thread comes to hold a lock, to start releasing it, and to delete its entry. */
  lemma NewHolder(s: State, t: ThreadId, tn: TradeNo)
    requires PointersOk(s) && Enabled(s, t)
    ensures var pc, pc' := s.pcs[t], Next(s, t, tn).pcs[t];
            && (pc'.Holding? ==> pc.Waiting? && pc'.id == pc.id)
            && (pc'.Loaded? ==> pc.Holding? && pc.tn in s.table && pc'.id == s.table[pc.tn])
            && (pc'.Deleting? ==> pc.Decrementing? && pc'.id == pc.id && s.heap[pc.id].refCount == 1)
  {
  }

  /** A thread changes the reference count of an object exactly when it enters or leaves its users. */
  lemma CountMoves(s: State, t: ThreadId, tn: TradeNo, id: LockId)
    requires PointersOk(s) && PointsIntoTable(s) && Enabled(s, t) && id < |s.heap|
    ensures RefCountAfter(s, t, id) == s.heap[id].refCount
                                       + (if Counts(Next(s, t, tn).pcs[t], id) then 1 else 0)
                                       - (if Counts(s.pcs[t], id) then 1 else 0)
  {
  }

  lemma NewObjectUnused(s: State, t: ThreadId, tn: TradeNo)
    requires PointersOk(s) && Enabled(s, t)
    ensures !Counts(s.pcs[t], |s.heap|) && !Counts(Next(s, t, tn).pcs[t], |s.heap|) && Users(s, |s.heap|) == {}
    ensures |Next(s, t, tn).heap| <= |s.heap| + 1
  {
  }

  lemma NextPointers(s: State, t: ThreadId, tn: TradeNo)
    requires PointersOk(s) && Enabled(s, t)
    ensures PointersOk(Next(s, t, tn))
  {
  }

  lemma NextCreateLock(s: State, t: ThreadId, tn: TradeNo)
    requires PointersOk(s) && CreateLockOk(s) && PointsIntoTable(s) && Enabled(s, t)
    ensures CreateLockOk(Next(s, t, tn))
  {
  }

  lemma NextInjective(s: State, t: ThreadId, tn: TradeNo)
    requires PointersOk(s) && TableInjective(s) && Enabled(s, t)
    ensures TableInjective(Next(s, t, tn))
  {
  }

  lemma NextPoints(s: State, t: ThreadId, tn: TradeNo)
    requires Inv(s) && Enabled(s, t)
    ensures PointsIntoTable(Next(s, t, tn))
  {
    if s.pcs[t].Deleting? {
      DeletePoints(s, t, tn);
    } else if s.pcs[t].Creating? {
      CreatePoints(s, t, tn);
    } else {
      KeepPoints(s, t, tn);
    }
  }

  lemma KeepPoints(s: State, t: ThreadId, tn: TradeNo)
    requires PointersOk(s) && PointsIntoTable(s) && CreateLockOk(s) && Enabled(s, t)
    requires !s.pcs[t].Deleting? && !s.pcs[t].Creating?
    ensures PointsIntoTable(Next(s, t, tn))
  {
  }

  /** Nobody holds an object for an order that is not in the table yet. */
  lemma CreatePoints(s: State, t: ThreadId, tn: TradeNo)
    requires PointersOk(s) && PointsIntoTable(s) && CreateLockOk(s) && Enabled(s, t)
    requires s.pcs[t].Creating?
    ensures PointsIntoTable(Next(s, t, tn))
  {
  }

  /** The deleted entry has no user left, so nobody else can be pointing at it. */
  lemma DeletePoints(s: State, t: ThreadId, tn: TradeNo)
    requires PointersOk(s) && PointsIntoTable(s) && CreateLockOk(s) && CountsExact(s) && EntriesUsed(s)
    requires Enabled(s, t) && s.pcs[t].Deleting?
    ensures PointsIntoTable(Next(s, t, tn))
  {
    forall u | u in s.pcs && u != t && HasId(s.pcs[u])
      ensures s.pcs[u].tn != s.pcs[t].tn
    {
      assert u !in Users(s, s.pcs[t].id);
    }
  }

  lemma NextCounts(s: State, t: ThreadId, tn: TradeNo)
    requires PointersOk(s) && PointsIntoTable(s) && CountsExact(s) && Enabled(s, t)
    ensures CountsExact(Next(s, t, tn))
  {
    var s' := Next(s, t, tn);
    NextMovesOne(s, t, tn);
    forall id | 0 <= id < |s'.heap| ensures s'.heap[id].refCount == |Users(s', id)| {
      NextCountAt(s, t, tn, id);
      UsersAfter(s, s', t, s'.pcs[t], id);
    }
  }

  /** The reference count and the user count of one object move together. */
  lemma NextCountAt(s: State, t: ThreadId, tn: TradeNo, id: LockId)
    requires PointersOk(s) && PointsIntoTable(s) && CountsExact(s) && Enabled(s, t)
    requires id < |Next(s, t, tn).heap|
    ensures Next(s, t, tn).heap[id].refCount == |Users(s, id)|
                                                + (if Counts(Next(s, t, tn).pcs[t], id) then 1 else 0)
                                                - (if Counts(s.pcs[t], id) then 1 else 0)
  {
    NextRefCountAt(s, t, tn, id);
    NewObjectUnused(s, t, tn);
    if id < |s.heap| {
      CountMoves(s, t, tn, id);
    }
  }

  lemma NextOwners(s: State, t: ThreadId, tn: TradeNo)
    requires Inv(s) && Enabled(s, t)
    requires PointersOk(Next(s, t, tn))
    ensures OwnersExact(Next(s, t, tn))
  {
    var s' := Next(s, t, tn);
    forall u | u in s'.pcs && (s'.pcs[u].Holding? || s'.pcs[u].Loaded?)
      ensures s'.heap[s'.pcs[u].id].owner == Some(u)
    {
      HolderOwns(s, t, tn, u);
    }
    forall id | 0 <= id < |s'.heap| && s'.heap[id].owner.Some?
      ensures s'.heap[id].owner.value in s'.pcs && Owns(s'.pcs[s'.heap[id].owner.value], id)
    {
      OwnerHolds(s, t, tn, id);
    }
  }

  lemma HolderOwns(s: State, t: ThreadId, tn: TradeNo, u: ThreadId)
    requires PointersOk(s) && OwnersExact(s) && PointsIntoTable(s) && Enabled(s, t)
    requires PointersOk(Next(s, t, tn))
    requires var s' := Next(s, t, tn); u in s'.pcs && (s'.pcs[u].Holding? || s'.pcs[u].Loaded?)
    ensures var s' := Next(s, t, tn); s'.heap[s'.pcs[u].id].owner == Some(u)
  {
    var s' := Next(s, t, tn);
    NextOwnerAt(s, t, tn, s'.pcs[u].id);
    NextMovesOne(s, t, tn);
    if u != t {
      assert s.heap[s.pcs[u].id].owner == Some(u);
    } else {
      NewHolder(s, t, tn);
    }
  }

  lemma OwnerHolds(s: State, t: ThreadId, tn: TradeNo, id: LockId)
    requires PointersOk(s) && OwnersExact(s) && PointsIntoTable(s) && Enabled(s, t)
    requires id < |Next(s, t, tn).heap| && Next(s, t, tn).heap[id].owner.Some?
    ensures var s' := Next(s, t, tn);
            s'.heap[id].owner.value in s'.pcs && Owns(s'.pcs[s'.heap[id].owner.value], id)
  {
    NextOwnerAt(s, t, tn, id);
  }

  lemma NextEntries(s: State, t: ThreadId, tn: TradeNo)
    requires Inv(s) && Enabled(s, t)
    requires PointersOk(Next(s, t, tn))
    ensures EntriesUsed(Next(s, t, tn))
  {
    var s' := Next(s, t, tn);
    forall n | n in s'.table ensures s'.heap[s'.table[n]].refCount > 0 || InTransit(s', n) {
      NextEntryAt(s, t, tn, n);
    }
    forall u | u in s'.pcs && s'.pcs[u].Deleting? ensures s'.heap[s'.pcs[u].id].refCount == 0 {
      DeletingIsEmpty(s, t, tn, u);
    }
  }

  lemma NextEntryAt(s: State, t: ThreadId, tn: TradeNo, n: TradeNo)
    requires PointersOk(s) && CreateLockOk(s) && TableInjective(s) && PointsIntoTable(s)
    requires CountsExact(s) && EntriesUsed(s) && Enabled(s, t)
    requires PointersOk(Next(s, t, tn)) && n in Next(s, t, tn).table
    ensures var s' := Next(s, t, tn); s'.heap[s'.table[n]].refCount > 0 || InTransit(s', n)
  {
    if Counting(s.pcs[t]) {
      CountingEntryAt(s, t, tn, n);
    } else {
      OtherEntryAt(s, t, tn, n);
    }
  }

  /** The steps that change a reference count or the table. */
  predicate Counting(pc: Pc) {
    pc.Creating? || pc.Found? || pc.Decrementing? || pc.Deleting?
  }

  lemma CountingEntryAt(s: State, t: ThreadId, tn: TradeNo, n: TradeNo)
    requires PointersOk(s) && CreateLockOk(s) && TableInjective(s) && PointsIntoTable(s)
    requires CountsExact(s) && EntriesUsed(s) && Enabled(s, t) && Counting(s.pcs[t])
    requires PointersOk(Next(s, t, tn)) && n in Next(s, t, tn).table
    ensures var s' := Next(s, t, tn); s'.heap[s'.table[n]].refCount > 0 || InTransit(s', n)
  {
    NextRefCountAt(s, t, tn, Next(s, t, tn).table[n]);
  }

  lemma OtherEntryAt(s: State, t: ThreadId, tn: TradeNo, n: TradeNo)
    requires PointersOk(s) && CreateLockOk(s) && EntriesUsed(s) && Enabled(s, t) && !Counting(s.pcs[t])
    requires PointersOk(Next(s, t, tn)) && n in Next(s, t, tn).table
    ensures var s' := Next(s, t, tn); s'.heap[s'.table[n]].refCount > 0 || InTransit(s', n)
  {
    NextRefCountAt(s, t, tn, Next(s, t, tn).table[n]);
  }

  lemma DeletingIsEmpty(s: State, t: ThreadId, tn: TradeNo, u: ThreadId)
    requires PointersOk(s) && CreateLockOk(s) && EntriesUsed(s) && Enabled(s, t)
    requires PointersOk(Next(s, t, tn))
    requires var s' := Next(s, t, tn); u in s'.pcs && s'.pcs[u].Deleting?
    ensures var s' := Next(s, t, tn); s'.heap[s'.pcs[u].id].refCount == 0
  {
    NextRefCountAt(s, t, tn, Next(s, t, tn).pcs[u].id);
    NextMovesOne(s, t, tn);
    if u == t {
      NewHolder(s, t, tn);
    } else {
      assert s.creator == Some(u);
    }
  }

  lemma NextInv(s: State, t: ThreadId, tn: TradeNo)
    requires Inv(s) && Enabled(s, t)
    ensures Inv(Next(s, t, tn))
  {
    NextPointers(s, t, tn);
    NextCreateLock(s, t, tn);
    NextInjective(s, t, tn);
    NextPoints(s, t, tn);
    NextCounts(s, t, tn);
    NextOwners(s, t, tn);
    NextEntries(s, t, tn);
  }

  // ------------------------------------------------------------------ every run

  ghost predicate Step(s: State, s': State) {
    PointersOk(s) && exists t, tn :: Enabled(s, t) && s' == Next(s, t, tn)
  }

  /** A finite run: every finite prefix of every interleaving of any number of threads. */
  ghost predicate Run(run: seq<State>) {
    && |run| > 0 && Init(run[0])
    && forall i | 0 <= i < |run| - 1 :: Step(run[i], run[i + 1])
  }

  lemma {:induction false} RunInv(run: seq<State>, k: nat)
    requires Run(run) && k < |run|
    ensures Inv(run[k])
  {
    if k == 0 {
      InitInv(run[0]);
    } else {
      RunInv(run, k - 1);
      assert Step(run[k - 1], run[k - 1 + 1]);
      var t, tn :| Enabled(run[k - 1], t) && run[k] == Next(run[k - 1], t, tn);
      NextInv(run[k - 1], t, tn);
    }
  }

  predicate InCriticalSection(pc: Pc, tn: TradeNo) {
    (pc.Holding? || pc.Loaded?) && pc.tn == tn
  }

  /** Threads that LockOrder(tn) has counted and UnlockOrder(tn) has not yet uncounted. */
  ghost function UsersOf(s: State, tn: TradeNo): set<ThreadId> {
    set t | t in s.pcs && HasId(s.pcs[t]) && Counts(s.pcs[t], s.pcs[t].id) && s.pcs[t].tn == tn
  }

  /** At most one thread is inside the critical section of an order. */
  lemma MutualExclusion(run: seq<State>, k: nat, tn: TradeNo, t: ThreadId, u: ThreadId)
    requires Run(run) && k < |run| && t in run[k].pcs && u in run[k].pcs
    requires InCriticalSection(run[k].pcs[t], tn) && InCriticalSection(run[k].pcs[u], tn)
    ensures t == u
  {
    RunInv(run, k);
  }

  /**
    The reference count of the object in the table is the number of threads waiting for,
    holding or leaving that order, all of which have that very object in hand.
   */
  lemma RefCountIsUserCount(run: seq<State>, k: nat, tn: TradeNo)
    requires Run(run) && k < |run| && tn in run[k].table
    ensures PointersOk(run[k])
    ensures run[k].heap[run[k].table[tn]].refCount == |UsersOf(run[k], tn)|
    ensures forall t | t in UsersOf(run[k], tn) :: run[k].pcs[t].id == run[k].table[tn]
  {
    RunInv(run, k);
    assert UsersOf(run[k], tn) == Users(run[k], run[k].table[tn]);
  }

  /** Whenever createLock is free, an order is in the table exactly while somebody uses it. */
  lemma EntryIffUsed(run: seq<State>, k: nat, tn: TradeNo)
    requires Run(run) && k < |run| && run[k].creator.None?
    ensures tn in run[k].table <==> UsersOf(run[k], tn) != {}
  {
    RunInv(run, k);
    if tn in run[k].table {
      RefCountIsUserCount(run, k, tn);
    }
  }

  /** UnlockOrder by a holder always finds its own lock object, and finds its mutex locked. */
  lemma UnlockFindsOwnLock(run: seq<State>, k: nat, t: ThreadId)
    requires Run(run) && k < |run| && t in run[k].pcs
    ensures PointersOk(run[k])
    ensures run[k].pcs[t].Holding? ==>
              forall tn :: Next(run[k], t, tn).pcs[t] == Loaded(run[k].pcs[t].tn, run[k].pcs[t].id)
    ensures run[k].pcs[t].Loaded? ==> run[k].heap[run[k].pcs[t].id].owner == Some(t)
  {
    RunInv(run, k);
  }

  /** When nobody is inside the lock code the table is empty again. */
  lemma NoEntryLeaks(run: seq<State>, k: nat)
    requires Run(run) && k < |run| && forall t | t in run[k].pcs :: run[k].pcs[t].Idle?
    ensures run[k].table == map[]
  {
    RunInv(run, k);
    forall tn ensures tn !in run[k].table {
      EntryIffUsed(run, k, tn);
    }
  }

  lemma SomeEnabled(s: State, t: ThreadId) returns (u: ThreadId)
    requires Inv(s) && t in s.pcs && !s.pcs[t].Idle?
    ensures u in s.pcs && !s.pcs[u].Idle? && Enabled(s, u)
  {
    if Enabled(s, t) {
      u := t;
    } else if s.pcs[t].Waiting? {
      u := s.heap[s.pcs[t].id].owner.value;
    } else {
      u := s.creator.value;
    }
  }

  /** The lock code never deadlocks: while some thread is inside it, some such thread can move. */
  lemma DeadlockFree(run: seq<State>, k: nat, t: ThreadId) returns (u: ThreadId)
    requires Run(run) && k < |run| && t in run[k].pcs && !run[k].pcs[t].Idle?
    ensures PointersOk(run[k])
    ensures u in run[k].pcs && !run[k].pcs[u].Idle? && Enabled(run[k], u)
  {
    RunInv(run, k);
    u := SomeEnabled(run[k], t);
  }

  // ------------------------------------------------------------------ the order that was asked for

  /** Who makes a step, and with which trade number LockOrder is called if that thread is idle. */
  datatype Move = Move(t: ThreadId, tn: TradeNo)

  ghost predicate Makes(s: State, m: Move, s': State) {
    PointersOk(s) && Enabled(s, m.t) && s' == Next(s, m.t, m.tn)
  }

  ghost predicate Moved(s: State, s': State) {
    exists m :: Makes(s, m, s')
  }

  /** A run together with its moves. */
  ghost predicate Trace(run: seq<State>, moves: seq<Move>) {
    && |run| == |moves| + 1 && Init(run[0])
    && forall i | 0 <= i < |moves| :: Makes(run[i], moves[i], run[i + 1])
  }

  lemma TraceIsRun(run: seq<State>, moves: seq<Move>)
    requires Trace(run, moves)
    ensures Run(run)
  {
    forall i | 0 <= i < |run| - 1 ensures Step(run[i], run[i + 1]) {
      assert Makes(run[i], moves[i], run[i + 1]);
    }
  }

  lemma TraceInv(run: seq<State>, moves: seq<Move>, k: nat)
    requires Trace(run, moves) && k < |run|
    ensures Inv(run[k])
  {
    TraceIsRun(run, moves);
    RunInv(run, k);
  }

  /** Every run has such moves. */
  lemma RunHasTrace(run: seq<State>) returns (moves: seq<Move>)
    requires Run(run)
    ensures Trace(run, moves)
  {
    forall i | 0 <= i < |run| - 1 ensures Moved(run[i], run[i + 1]) {
      StepHasMove(run[i], run[i + 1]);
    }
    moves := seq(|run| - 1, i requires 0 <= i < |run| - 1 => MoveOf(run[i], run[i + 1]));
  }

  lemma StepHasMove(s: State, s': State)
    requires Step(s, s')
    ensures Moved(s, s')
  {
    var t, tn :| Enabled(s, t) && s' == Next(s, t, tn);
    assert Makes(s, Move(t, tn), s');
  }

  ghost function MoveOf(s: State, s': State): (m: Move)
    requires Moved(s, s')
    ensures Makes(s, m, s')
  {
    var m :| Makes(s, m, s'); m
  }

  /** From the call of LockOrder to the decrement in UnlockOrder a thread works on one order. */
  predicate Engaged(pc: Pc) {
    !pc.Idle? && !pc.Releasing?
  }

  /** A call of LockOrder starts on the order it was called with; no step changes the order of a thread. */
  lemma KeepsOrder(s: State, t: ThreadId, tn: TradeNo, u: ThreadId)
    requires PointersOk(s) && PointsIntoTable(s) && Enabled(s, t) && u in s.pcs
    ensures var pc, pc' := s.pcs[u], Next(s, t, tn).pcs[u];
            && (u == t && pc.Idle? ==> Engaged(pc') && pc'.tn == tn)
            && (u != t ==> pc' == pc)
            && (Engaged(pc) && Engaged(pc') ==> pc'.tn == pc.tn)
            && (pc.Releasing? && u == t ==> pc'.Idle?)
  {
  }

  predicate Inside(s: State, t: ThreadId) {
    t in s.pcs && !s.pcs[t].Idle?
  }

  /** At move i thread t calls LockOrder(tn), and up to state k it has not come back from UnlockOrder. */
  ghost predicate Serves(run: seq<State>, moves: seq<Move>, i: nat, k: nat, t: ThreadId, tn: TradeNo) {
    && i < k < |run| && k <= |moves|
    && moves[i] == Move(t, tn) && !Inside(run[i], t)
    && forall j | i < j <= k :: Inside(run[j], t)
  }

  /** In every run a thread locks, holds and unlocks the order that it called LockOrder with. */
  lemma {:induction false} LocksWhatWasAsked(
    run: seq<State>, moves: seq<Move>, i: nat, k: nat, t: ThreadId, tn: TradeNo)
    requires Trace(run, moves) && Serves(run, moves, i, k, t, tn)
    ensures Inside(run[k], t) && (Engaged(run[k].pcs[t]) ==> run[k].pcs[t].tn == tn)
  {
    assert Inside(run[k], t) && Makes(run[k - 1], moves[k - 1], run[k - 1 + 1]);
    TraceInv(run, moves, k - 1);
    if k - 1 == i {
      AskedNext(run[i], moves[i], run[k], t, tn);
    } else {
      LocksWhatWasAsked(run, moves, i, k - 1, t, tn);
      AskedNext(run[k - 1], moves[k - 1], run[k], t, tn);
    }
  }

  lemma AskedNext(s: State, m: Move, s': State, t: ThreadId, tn: TradeNo)
    requires PointersOk(s) && PointsIntoTable(s) && Makes(s, m, s') && Inside(s', t)
    requires if Inside(s, t) then Engaged(s.pcs[t]) ==> s.pcs[t].tn == tn else m == Move(t, tn)
    ensures Engaged(s'.pcs[t]) ==> s'.pcs[t].tn == tn
  {
    KeepsOrder(s, m.t, m.tn, t);
  }

  /** Two calls of LockOrder with the same trade number have never both returned without the unlock of one. */
  lemma ExclusionAsAsked(
    run: seq<State>, moves: seq<Move>, i: nat, j: nat, k: nat, t: ThreadId, u: ThreadId, tn: TradeNo)
    requires Trace(run, moves) && Serves(run, moves, i, k, t, tn) && Serves(run, moves, j, k, u, tn)
    requires run[k].pcs[t].Holding? && run[k].pcs[u].Holding?
    ensures t == u
  {
    LocksWhatWasAsked(run, moves, i, k, t, tn);
    LocksWhatWasAsked(run, moves, j, k, u, tn);
    TraceIsRun(run, moves);
    MutualExclusion(run, k, tn, t, u);
  }
}
