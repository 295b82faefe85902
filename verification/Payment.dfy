/**
  The payment handlers that run under the per-order lock: EpayNotify, AdminCompleteTopUp and
  the expiry of an unpaid order. The handler's database read, database write and quota
  increase are separate steps, interleaved with every step of every other thread, and with
  failure reports of other providers, which do not take the lock.
 */
module Payment {
  import opened OrderLock

  datatype Status = Pending | Success | Failed | Expired

  datatype Provider = EpayProvider | StripeProvider | OtherProvider(name: string)

  datatype Order = Order(
    userId: int, amount: int, money: real, provider: Provider, payMethod: string, status: Status)

  datatype Credit = Credit(tn: TradeNo, userId: int, quota: int)

  datatype Job =
    | EpayNotify(payType: string)
    | AdminComplete
    | Expire(provider: Provider)

  /** How far the handler of a thread has come while it holds the order lock. */
  datatype Work =
    | NoJob
    | Start(job: Job)
    | Writing(o: Order)     // EpayNotify saw a pending order, before topUp.Update()
    | Crediting(o: Order)   // topUp.Update() returned nil, before IncreaseUserQuota
    | Finished

  /** What a database call may do: succeed, fail without effect, or fail after its effect. */
  datatype Outcome = Done | FailedBefore | FailedAfter

  datatype Shop = Shop(
    locks: OrderLock.State,
    work: map<ThreadId, Work>,
    orders: map<TradeNo, Order>,
    credits: seq<Credit>,
    faults: set<TradeNo>,       // orders on which some database call reported an error
    quotaPerUnit: real)

  /** decimal.IntPart: truncation toward zero. */
  function IntPart(x: real): int {
    if x >= 0.0 then x.Floor else -((-x).Floor)
  }

  function QuotaFor(o: Order, quotaPerUnit: real): int {
    if o.provider.StripeProvider? then IntPart(o.money * quotaPerUnit)
    else IntPart(o.amount as real * quotaPerUnit)
  }

  function CreditsFor(credits: seq<Credit>, tn: TradeNo): nat {
    if credits == [] then 0
    else CreditsFor(credits[..|credits| - 1], tn) + (if credits[|credits| - 1].tn == tn then 1 else 0)
  }

  predicate Busy(s: Shop, t: ThreadId) {
    && t in s.locks.pcs && t in s.work
    && s.locks.pcs[t].Holding? && !s.work[t].Finished? && !s.work[t].NoJob?
  }

  function Finish(s: Shop, t: ThreadId): Shop {
    s.(work := s.work[t := Finished])
  }

  function Pay(s: Shop, tn: TradeNo, o: Order): Shop {
    s.(credits := s.credits + [Credit(tn, o.userId, QuotaFor(o, s.quotaPerUnit))])
  }

  function Fault(s: Shop, tn: TradeNo): Shop {
    s.(faults := s.faults + {tn})
  }

  /** ManualCompleteTopUp: one database transaction with a row lock. */
  function AdminTransaction(s: Shop, tn: TradeNo, outcome: Outcome): Shop {
    if tn !in s.orders || !s.orders[tn].status.Pending? then s
    else if QuotaFor(s.orders[tn], s.quotaPerUnit) <= 0 then s
    else if outcome.FailedBefore? then Fault(s, tn)
    else
      var paid := s.(orders := s.orders[tn := s.orders[tn].(status := Success)]);
      Pay(if outcome.Done? then paid else Fault(paid, tn), tn, s.orders[tn])
  }

  /** UpdatePendingTopUpStatus: one database transaction. */
  function CloseTransaction(s: Shop, tn: TradeNo, provider: Provider, target: Status, outcome: Outcome): Shop {
    if tn !in s.orders || !s.orders[tn].status.Pending? || s.orders[tn].provider != provider then s
    else if outcome.FailedBefore? then s
    else s.(orders := s.orders[tn := s.orders[tn].(status := target)])
  }

  /** The next step of a handler that holds the lock of its order. */
  function Handle(s: Shop, t: ThreadId, outcome: Outcome): Shop
    requires Busy(s, t)
  {
    var tn := s.locks.pcs[t].tn;
    match s.work[t]
    case Start(EpayNotify(payType)) =>
      // a failed read looks like a missing order
      if !outcome.Done? || tn !in s.orders || !s.orders[tn].provider.EpayProvider? || !s.orders[tn].status.Pending?
      then Finish(s, t)
      else s.(work := s.work[t := Writing(s.orders[tn].(payMethod := payType, status := Success))])
    case Start(AdminComplete) => Finish(AdminTransaction(s, tn, outcome), t)
    case Start(Expire(provider)) => Finish(CloseTransaction(s, tn, provider, Expired, outcome), t)
    case Writing(o) =>
      if outcome.FailedBefore? then Fault(Finish(s, t), tn)
      else
        var written := s.(orders := s.orders[tn := o]);
        if outcome.FailedAfter? then Fault(Finish(written, t), tn)
        else written.(work := s.work[t := Crediting(o)])
    case Crediting(o) =>
      if QuotaFor(o, s.quotaPerUnit) < 0 || outcome.FailedBefore? then Fault(Finish(s, t), tn)
      else Pay(if outcome.Done? then Finish(s, t) else Fault(Finish(s, t), tn), tn, o)
  }

  /** A step of the lock code; an idle thread receives a job for order tn. */
  function LockStep(s: Shop, t: ThreadId, tn: TradeNo, job: Job): Shop
    requires PointersOk(s.locks) && Enabled(s.locks, t)
  {
    s.(locks := OrderLock.Next(s.locks, t, tn),
       work := if s.locks.pcs[t].Idle? then s.work[t := Start(job)] else s.work)
  }

  /** A customer opens a new order; trade numbers are unique in the database. */
  function Insert(s: Shop, tn: TradeNo, o: Order): Shop {
    s.(orders := s.orders[tn := o])
  }

  /** The failure report of another provider, which closes a pending order without the order lock. */
  function FailReport(s: Shop, tn: TradeNo, provider: Provider, outcome: Outcome): Shop {
    CloseTransaction(s, tn, provider, Failed, outcome)
  }

  datatype Action =
    | Serve(t: ThreadId, outcome: Outcome)
    | Lock(t: ThreadId, tn: TradeNo, job: Job)
    | Report(tn: TradeNo, provider: Provider, outcome: Outcome)
    | Open(tn: TradeNo, o: Order)

  predicate CanDo(s: Shop, a: Action) {
    PointersOk(s.locks) &&
    match a
    case Serve(t, _) => Busy(s, t)
    case Lock(t, _, _) => Enabled(s.locks, t) && !Busy(s, t)
    case Report(_, provider, _) => !provider.EpayProvider?
    case Open(tn, o) => tn !in s.orders && o.status.Pending?
  }

  function Do(s: Shop, a: Action): Shop
    requires CanDo(s, a)
  {
    match a
    case Serve(t, outcome) => Handle(s, t, outcome)
    case Lock(t, tn, job) => LockStep(s, t, tn, job)
    case Report(tn, provider, outcome) => FailReport(s, tn, provider, outcome)
    case Open(tn, o) => Insert(s, tn, o)
  }

  ghost predicate Step(s: Shop, s': Shop) {
    exists a :: CanDo(s, a) && s' == Do(s, a)
  }

  ghost predicate Init(s: Shop) {
    && OrderLock.Init(s.locks) && s.orders == map[] && s.credits == [] && s.faults == {}
    && s.work.Keys == s.locks.pcs.Keys
    && forall t | t in s.work :: s.work[t].NoJob?
  }

  ghost predicate Run(run: seq<Shop>) {
    && |run| > 0 && Init(run[0])
    && forall i | 0 <= i < |run| - 1 :: Step(run[i], run[i + 1])
  }

  // ------------------------------------------------------------------ the invariant

  /** What the handler of thread t may rely on while it holds the lock. */
  predicate WorkOk(s: Shop, t: ThreadId) {
    t in s.locks.pcs && t in s.work &&
    match s.work[t]
    case Writing(o) =>
      && s.locks.pcs[t].Holding?
      && var tn := s.locks.pcs[t].tn;
         && tn in s.orders && s.orders[tn].status.Pending? && s.orders[tn].provider.EpayProvider?
         && o == s.orders[tn].(payMethod := o.payMethod, status := Success)
    case Crediting(o) =>
      && s.locks.pcs[t].Holding?
      && var tn := s.locks.pcs[t].tn;
         && tn in s.orders && s.orders[tn] == o && o.status.Success? && o.provider.EpayProvider?
         && CreditsFor(s.credits, tn) == 0
    case _ => true
  }

  predicate AboutToCredit(s: Shop, tn: TradeNo, t: ThreadId) {
    && t in s.work && t in s.locks.pcs
    && s.work[t].Crediting? && s.locks.pcs[t].Holding? && s.locks.pcs[t].tn == tn
  }

  ghost predicate CreditOk(s: Shop, c: Credit) {
    && c.tn in s.orders && s.orders[c.tn].status.Success?
    && c.userId == s.orders[c.tn].userId
    && c.quota == QuotaFor(s.orders[c.tn], s.quotaPerUnit) && c.quota >= 0
  }

  /** The ledger of one order: at most one credit, and exactly one once it is paid without fault. */
  ghost predicate LedgerOk(s: Shop, tn: TradeNo) {
    && CreditsFor(s.credits, tn) <= 1
    && (tn in s.orders && s.orders[tn].status.Success? && tn !in s.faults ==>
          CreditsFor(s.credits, tn) == 1 || exists t :: AboutToCredit(s, tn, t))
  }

  ghost predicate Inv(s: Shop) {
    && OrderLock.Inv(s.locks) && s.work.Keys == s.locks.pcs.Keys
    && (forall t | t in s.work :: WorkOk(s, t))
    && (forall c | c in s.credits :: CreditOk(s, c))
    && (forall tn :: LedgerOk(s, tn))
  }

  // ------------------------------------------------------------------ preservation

  lemma HolderUnique(s: Shop, t: ThreadId, u: ThreadId)
    requires OrderLock.Inv(s.locks) && t in s.locks.pcs && u in s.locks.pcs
    requires s.locks.pcs[t].Holding? && s.locks.pcs[u].Holding?
    requires s.locks.pcs[t].tn == s.locks.pcs[u].tn
    ensures t == u
  {
  }

  lemma CreditsAppend(credits: seq<Credit>, c: Credit, tn: TradeNo)
    ensures CreditsFor(credits + [c], tn) == CreditsFor(credits, tn) + (if c.tn == tn then 1 else 0)
  {
    assert (credits + [c])[..|credits + [c]| - 1] == credits;
  }

  /** s' differs from s at most in the work of t and in what concerns order tn. */
  ghost predicate OnlyTouches(s: Shop, s': Shop, t: ThreadId, tn: TradeNo) {
    && s'.locks == s.locks && s'.quotaPerUnit == s.quotaPerUnit
    && t in s'.work && s'.work == s.work[t := s'.work[t]]
    && (s'.credits == s.credits ||
        exists c: Credit :: c.tn == tn && s'.credits == s.credits + [c])
    && (s'.faults == s.faults || s'.faults == s.faults + {tn})
    && OtherOrdersKept(s, s', tn)
  }

  ghost predicate OtherOrdersKept(s: Shop, s': Shop, tn: TradeNo) {
    && (forall n | n != tn :: n in s'.orders <==> n in s.orders)
    && (forall n | n != tn && n in s.orders :: s'.orders[n] == s.orders[n])
  }

  lemma HandleKeepsOtherOrders(s: Shop, t: ThreadId, outcome: Outcome)
    requires Busy(s, t)
    ensures OtherOrdersKept(s, Handle(s, t, outcome), s.locks.pcs[t].tn)
  {
  }

  lemma HandleTouches(s: Shop, t: ThreadId, outcome: Outcome)
    requires Busy(s, t)
    ensures OnlyTouches(s, Handle(s, t, outcome), t, s.locks.pcs[t].tn)
  {
    HandleKeepsOtherOrders(s, t, outcome);
  }

  /** Handlers of other orders are not disturbed. */
  lemma OtherWork(s: Shop, s': Shop, t: ThreadId, u: ThreadId)
    requires Inv(s) && t in s.locks.pcs && s.locks.pcs[t].Holding? && u in s.work && u != t
    requires OnlyTouches(s, s', t, s.locks.pcs[t].tn)
    ensures WorkOk(s', u)
  {
    var tn := s.locks.pcs[t].tn;
    assert WorkOk(s, u);
    if s.work[u].Writing? || s.work[u].Crediting? {
      if s.locks.pcs[u].tn == tn {
        HolderUnique(s, t, u);
      }
      OtherCredits(s, s', t, tn, s.locks.pcs[u].tn);
    }
  }

  lemma OtherCredits(s: Shop, s': Shop, t: ThreadId, tn: TradeNo, n: TradeNo)
    requires OnlyTouches(s, s', t, tn) && n != tn
    ensures CreditsFor(s'.credits, n) == CreditsFor(s.credits, n)
  {
    if s'.credits != s.credits {
      var c: Credit :| c.tn == tn && s'.credits == s.credits + [c];
      CreditsAppend(s.credits, c, n);
    }
  }

  lemma OtherLedger(s: Shop, s': Shop, t: ThreadId, tn: TradeNo, n: TradeNo)
    requires OnlyTouches(s, s', t, tn) && n != tn && LedgerOk(s, n)
    requires t in s.locks.pcs && s.locks.pcs[t].Holding? && s.locks.pcs[t].tn == tn
    ensures LedgerOk(s', n)
  {
    OtherCredits(s, s', t, tn, n);
    if u :| AboutToCredit(s, n, u) {
      assert AboutToCredit(s', n, u);
    }
  }

  /** The order the handler works on keeps its ledger, step by step. */
  lemma OwnOrder(s: Shop, t: ThreadId, outcome: Outcome)
    requires Inv(s) && Busy(s, t)
    ensures WorkOk(Handle(s, t, outcome), t)
    ensures LedgerOk(Handle(s, t, outcome), s.locks.pcs[t].tn)
  {
    assert WorkOk(s, t) && LedgerOk(s, s.locks.pcs[t].tn);
    NoOtherCrediting(s, t);
    NoCreditWhilePending(s, s.locks.pcs[t].tn);
    match s.work[t]
    case Start(EpayNotify(_)) => OwnEpayStart(s, t, outcome);
    case Start(AdminComplete) => OwnAdmin(s, t, outcome);
    case Start(Expire(_)) => OwnExpire(s, t, outcome);
    case Writing(_) => OwnWriting(s, t, outcome);
    case Crediting(_) => OwnCrediting(s, t, outcome);
  }

  /** What OwnOrder knows about the order before the step. */
  ghost predicate Mine(s: Shop, t: ThreadId) {
    && Busy(s, t) && WorkOk(s, t)
    && var tn := s.locks.pcs[t].tn;
       && LedgerOk(s, tn)
       && (forall u | AboutToCredit(s, tn, u) :: u == t)
       && (CreditsFor(s.credits, tn) > 0 ==> tn in s.orders && s.orders[tn].status.Success?)
  }

  lemma OwnEpayStart(s: Shop, t: ThreadId, outcome: Outcome)
    requires Mine(s, t) && s.work[t].Start? && s.work[t].job.EpayNotify?
    ensures WorkOk(Handle(s, t, outcome), t)
    ensures LedgerOk(Handle(s, t, outcome), s.locks.pcs[t].tn)
  {
  }

  lemma OwnAdmin(s: Shop, t: ThreadId, outcome: Outcome)
    requires Mine(s, t) && s.work[t].Start? && s.work[t].job.AdminComplete?
    ensures WorkOk(Handle(s, t, outcome), t)
    ensures LedgerOk(Handle(s, t, outcome), s.locks.pcs[t].tn)
  {
    var s' := Handle(s, t, outcome);
    if s'.credits != s.credits {
      CreditsAppend(s.credits, s'.credits[|s.credits|], s.locks.pcs[t].tn);
    }
  }

  lemma OwnExpire(s: Shop, t: ThreadId, outcome: Outcome)
    requires Mine(s, t) && s.work[t].Start? && s.work[t].job.Expire?
    ensures WorkOk(Handle(s, t, outcome), t)
    ensures LedgerOk(Handle(s, t, outcome), s.locks.pcs[t].tn)
  {
  }

  lemma OwnWriting(s: Shop, t: ThreadId, outcome: Outcome)
    requires Mine(s, t) && s.work[t].Writing?
    ensures WorkOk(Handle(s, t, outcome), t)
    ensures LedgerOk(Handle(s, t, outcome), s.locks.pcs[t].tn)
  {
    if outcome.Done? {
      assert AboutToCredit(Handle(s, t, outcome), s.locks.pcs[t].tn, t);
    }
  }

  lemma OwnCrediting(s: Shop, t: ThreadId, outcome: Outcome)
    requires Mine(s, t) && s.work[t].Crediting?
    ensures WorkOk(Handle(s, t, outcome), t)
    ensures LedgerOk(Handle(s, t, outcome), s.locks.pcs[t].tn)
  {
    var s' := Handle(s, t, outcome);
    if s'.credits != s.credits {
      CreditsAppend(s.credits, s'.credits[|s.credits|], s.locks.pcs[t].tn);
    }
  }

  lemma NoOtherCrediting(s: Shop, t: ThreadId)
    requires OrderLock.Inv(s.locks) && t in s.locks.pcs && s.locks.pcs[t].Holding?
    ensures forall u | AboutToCredit(s, s.locks.pcs[t].tn, u) :: u == t
  {
    forall u | AboutToCredit(s, s.locks.pcs[t].tn, u) ensures u == t {
      HolderUnique(s, t, u);
    }
  }

  lemma {:induction false} CreditsPresent(credits: seq<Credit>, tn: TradeNo)
    ensures CreditsFor(credits, tn) > 0 ==> exists c :: c in credits && c.tn == tn
  {
    if credits == [] {
    } else {
      CreditsPresent(credits[..|credits| - 1], tn);
      assert credits[|credits| - 1] in credits;
    }
  }

  lemma NoCreditWhilePending(s: Shop, tn: TradeNo)
    requires forall c | c in s.credits :: CreditOk(s, c)
    ensures CreditsFor(s.credits, tn) > 0 ==> tn in s.orders && s.orders[tn].status.Success?
  {
    CreditsPresent(s.credits, tn);
  }

  /** A handler never rewrites an order whose status has left pending. */
  lemma HandleKeepsSettled(s: Shop, t: ThreadId, outcome: Outcome, tn: TradeNo)
    requires Busy(s, t) && WorkOk(s, t) && tn in s.orders && !s.orders[tn].status.Pending?
    ensures tn in Handle(s, t, outcome).orders
    ensures Handle(s, t, outcome).orders[tn] == s.orders[tn]
  {
    HandleTouches(s, t, outcome);
  }

  lemma HandleNewCredit(s: Shop, t: ThreadId, outcome: Outcome)
    requires Busy(s, t) && WorkOk(s, t) && Handle(s, t, outcome).credits != s.credits
    ensures var s' := Handle(s, t, outcome);
            |s'.credits| == |s.credits| + 1 && CreditOk(s', s'.credits[|s.credits|])
  {
  }

  lemma HandleCredits(s: Shop, t: ThreadId, outcome: Outcome, c: Credit)
    requires Inv(s) && Busy(s, t) && c in Handle(s, t, outcome).credits
    ensures CreditOk(Handle(s, t, outcome), c)
  {
    assert WorkOk(s, t);
    HandleTouches(s, t, outcome);
    if c in s.credits {
      assert CreditOk(s, c);
      HandleKeepsSettled(s, t, outcome, c.tn);
    } else {
      HandleNewCredit(s, t, outcome);
    }
  }

  lemma HandleInv(s: Shop, t: ThreadId, outcome: Outcome)
    requires Inv(s) && Busy(s, t)
    ensures Inv(Handle(s, t, outcome))
  {
    var s' := Handle(s, t, outcome);
    var tn := s.locks.pcs[t].tn;
    HandleTouches(s, t, outcome);
    OwnOrder(s, t, outcome);
    forall u | u in s'.work ensures WorkOk(s', u) {
      if u != t {
        OtherWork(s, s', t, u);
      }
    }
    forall c | c in s'.credits ensures CreditOk(s', c) {
      HandleCredits(s, t, outcome, c);
    }
    forall n ensures LedgerOk(s', n) {
      if n != tn {
        assert LedgerOk(s, n);
        OtherLedger(s, s', t, tn, n);
      }
    }
  }

  /** A step of the lock code leaves a handler that is not finished where it is. */
  lemma LockStepWork(s: Shop, t: ThreadId, tn: TradeNo, job: Job, u: ThreadId)
    requires PointersOk(s.locks) && Enabled(s.locks, t) && !Busy(s, t) && s.work.Keys == s.locks.pcs.Keys
    requires u in s.work && WorkOk(s, u) && WorkOk(s, t)
    ensures WorkOk(LockStep(s, t, tn, job), u)
    ensures forall n | AboutToCredit(s, n, u) :: AboutToCredit(LockStep(s, t, tn, job), n, u)
  {
    NextMovesOne(s.locks, t, tn);
  }

  lemma LockStepInv(s: Shop, t: ThreadId, tn: TradeNo, job: Job)
    requires Inv(s) && Enabled(s.locks, t) && !Busy(s, t)
    ensures Inv(LockStep(s, t, tn, job))
  {
    var s' := LockStep(s, t, tn, job);
    NextInv(s.locks, t, tn);
    NextMovesOne(s.locks, t, tn);
    assert WorkOk(s, t);
    forall u | u in s'.work ensures WorkOk(s', u) {
      assert WorkOk(s, u);
      LockStepWork(s, t, tn, job, u);
    }
    forall n ensures LedgerOk(s', n) {
      assert LedgerOk(s, n);
      if u :| AboutToCredit(s, n, u) {
        assert WorkOk(s, u);
        LockStepWork(s, t, tn, job, u);
        assert AboutToCredit(s', n, u);
      }
    }
  }

  lemma InsertInv(s: Shop, tn: TradeNo, o: Order)
    requires Inv(s) && tn !in s.orders && o.status.Pending?
    ensures Inv(Insert(s, tn, o))
  {
    var s' := Insert(s, tn, o);
    forall u | u in s'.work ensures WorkOk(s', u) {
      assert WorkOk(s, u);
    }
    forall n ensures LedgerOk(s', n) {
      assert LedgerOk(s, n);
      if u :| AboutToCredit(s, n, u) {
        assert AboutToCredit(s', n, u);
      }
    }
    forall c | c in s'.credits ensures CreditOk(s', c) {
      assert CreditOk(s, c);
    }
  }

  lemma FailReportInv(s: Shop, tn: TradeNo, provider: Provider, outcome: Outcome)
    requires Inv(s) && !provider.EpayProvider?
    ensures Inv(FailReport(s, tn, provider, outcome))
  {
    var s' := FailReport(s, tn, provider, outcome);
    forall u | u in s'.work ensures WorkOk(s', u) {
      assert WorkOk(s, u);
    }
    forall n ensures LedgerOk(s', n) {
      assert LedgerOk(s, n);
      if u :| AboutToCredit(s, n, u) {
        assert AboutToCredit(s', n, u);
      }
    }
    forall c | c in s'.credits ensures CreditOk(s', c) {
      assert CreditOk(s, c);
    }
  }

  lemma DoInv(s: Shop, a: Action)
    requires Inv(s) && CanDo(s, a)
    ensures Inv(Do(s, a))
  {
    match a
    case Serve(t, outcome) => HandleInv(s, t, outcome);
    case Lock(t, tn, job) => LockStepInv(s, t, tn, job);
    case Report(tn, provider, outcome) => FailReportInv(s, tn, provider, outcome);
    case Open(tn, o) => InsertInv(s, tn, o);
  }

  lemma StepInv(s: Shop, s': Shop)
    requires Inv(s) && Step(s, s')
    ensures Inv(s')
  {
    var a :| CanDo(s, a) && s' == Do(s, a);
    DoInv(s, a);
  }

  lemma {:induction false} RunInv(run: seq<Shop>, k: nat)
    requires Run(run) && k < |run|
    ensures Inv(run[k])
  {
    if k == 0 {
      InitInv(run[0].locks);
    } else {
      RunInv(run, k - 1);
      assert Step(run[k - 1], run[k - 1 + 1]);
      StepInv(run[k - 1], run[k]);
    }
  }

  // ------------------------------------------------------------------ every run

  /**
    In every interleaving an order is credited at most once, to its own user, by exactly the
    truncated product, and only while its stored status is success.
   */
  lemma CreditedAtMostOnce(run: seq<Shop>, k: nat, tn: TradeNo)
    requires Run(run) && k < |run|
    ensures CreditsFor(run[k].credits, tn) <= 1
    ensures CreditsFor(run[k].credits, tn) == 1 ==>
              && tn in run[k].orders && run[k].orders[tn].status.Success?
              && Credit(tn, run[k].orders[tn].userId, QuotaFor(run[k].orders[tn], run[k].quotaPerUnit))
                 in run[k].credits
  {
    RunInv(run, k);
    assert LedgerOk(run[k], tn);
    CreditsPresent(run[k].credits, tn);
    if CreditsFor(run[k].credits, tn) == 1 {
      var c :| c in run[k].credits && c.tn == tn;
      assert CreditOk(run[k], c);
    }
  }

  /** When no handler is running, an order without database faults is credited iff it is paid. */
  lemma PaidIffCredited(run: seq<Shop>, k: nat, tn: TradeNo)
    requires Run(run) && k < |run| && tn in run[k].orders && tn !in run[k].faults
    requires forall t | t in run[k].locks.pcs :: run[k].locks.pcs[t].Idle?
    ensures run[k].orders[tn].status.Success? <==> CreditsFor(run[k].credits, tn) == 1
  {
    RunInv(run, k);
    assert LedgerOk(run[k], tn);
    NoCreditWhilePending(run[k], tn);
  }

  /** At the moment EpayNotify increases the quota, the stored order has already left pending. */
  lemma CreditOnlyAfterStatusWritten(run: seq<Shop>, k: nat, t: ThreadId)
    requires Run(run) && k < |run| && t in run[k].work && run[k].work[t].Crediting?
    ensures t in run[k].locks.pcs && run[k].locks.pcs[t].Holding?
    ensures var tn := run[k].locks.pcs[t].tn;
            && tn in run[k].orders && run[k].orders[tn].status.Success?
            && CreditsFor(run[k].credits, tn) == 0
  {
    RunInv(run, k);
    assert WorkOk(run[k], t);
  }

  /** A status that has left pending never changes again, and nothing about a credited order does. */
  lemma SettledForever(run: seq<Shop>, k: nat, tn: TradeNo)
    requires Run(run) && k + 1 < |run| && tn in run[k].orders && !run[k].orders[tn].status.Pending?
    ensures tn in run[k + 1].orders && run[k + 1].orders[tn] == run[k].orders[tn]
  {
    RunInv(run, k);
    assert Step(run[k], run[k + 1]);
    StepKeepsSettled(run[k], run[k + 1], tn);
  }

  lemma DoKeepsSettled(s: Shop, a: Action, tn: TradeNo)
    requires CanDo(s, a) && (a.Serve? ==> WorkOk(s, a.t))
    requires tn in s.orders && !s.orders[tn].status.Pending?
    ensures tn in Do(s, a).orders && Do(s, a).orders[tn] == s.orders[tn]
  {
    match a
    case Serve(t, outcome) => HandleKeepsSettled(s, t, outcome, tn);
    case Lock(t, n, job) => assert Do(s, a).orders == s.orders;
    case Report(_, _, _) =>
    case Open(_, _) =>
  }

  lemma StepKeepsSettled(s: Shop, s': Shop, tn: TradeNo)
    requires forall t | t in s.work :: WorkOk(s, t)
    requires Step(s, s') && tn in s.orders && !s.orders[tn].status.Pending?
    ensures tn in s'.orders && s'.orders[tn] == s.orders[tn]
  {
    var a :| CanDo(s, a) && s' == Do(s, a);
    if a.Serve? {
      assert WorkOk(s, a.t);
    }
    DoKeepsSettled(s, a, tn);
  }

  // ------------------------------------------------------------------ the amount

  /** quota is x without its fraction. */
  predicate Truncates(x: real, quota: int) {
    if x >= 0.0 then 0.0 <= x - quota as real < 1.0 else -1.0 < x - quota as real <= 0.0
  }

  /**
    Every credit of every run is the truncated product of quotaPerUnit with the money of a Stripe
    order, or with the amount of any other order, is not negative, and goes to the user of that order.
   */
  lemma CreditIsTruncatedProduct(run: seq<Shop>, k: nat, c: Credit)
    requires Run(run) && k < |run| && c in run[k].credits
    ensures c.tn in run[k].orders && c.userId == run[k].orders[c.tn].userId && c.quota >= 0
    ensures var o := run[k].orders[c.tn];
            if o.provider == StripeProvider then Truncates(o.money * run[k].quotaPerUnit, c.quota)
            else Truncates(o.amount as real * run[k].quotaPerUnit, c.quota)
  {
    RunInv(run, k);
    assert CreditOk(run[k], c);
    QuotaTruncates(run[k].orders[c.tn], run[k].quotaPerUnit);
  }

  lemma QuotaTruncates(o: Order, quotaPerUnit: real)
    ensures if o.provider == StripeProvider then Truncates(o.money * quotaPerUnit, QuotaFor(o, quotaPerUnit))
            else Truncates(o.amount as real * quotaPerUnit, QuotaFor(o, quotaPerUnit))
  {
    IntPartTruncates(o.money * quotaPerUnit);
    IntPartTruncates(o.amount as real * quotaPerUnit);
  }

  lemma IntPartTruncates(x: real)
    ensures Truncates(x, IntPart(x))
  {
  }

  // ------------------------------------------------------------------ a handler does its job

  /** No step removes an order or changes what it is about. */
  lemma DoKeepsOrder(s: Shop, a: Action, tn: TradeNo)
    requires CanDo(s, a) && (a.Serve? ==> WorkOk(s, a.t)) && tn in s.orders
    ensures Do(s, a).quotaPerUnit == s.quotaPerUnit && tn in Do(s, a).orders
    ensures SameDeal(s.orders[tn], Do(s, a).orders[tn])
  {
    match a
    case Serve(t, outcome) => HandleKeepsOrder(s, t, outcome, tn);
    case Lock(t, n, job) => assert Do(s, a).orders == s.orders;
    case Report(_, _, _) =>
    case Open(_, _) =>
  }

  predicate SameDeal(o: Order, o': Order) {
    o' == o.(status := o'.status, payMethod := o'.payMethod)
  }

  lemma HandleKeepsOrder(s: Shop, t: ThreadId, outcome: Outcome, tn: TradeNo)
    requires Busy(s, t) && WorkOk(s, t) && tn in s.orders
    ensures Handle(s, t, outcome).quotaPerUnit == s.quotaPerUnit
    ensures tn in Handle(s, t, outcome).orders && SameDeal(s.orders[tn], Handle(s, t, outcome).orders[tn])
  {
    if tn != s.locks.pcs[t].tn {
      HandleKeepsOtherOrders(s, t, outcome);
    }
  }

  /** The orders a job is meant for; an order worth less than one unit of quota cannot be completed by hand. */
  predicate MeantFor(job: Job, o: Order, quotaPerUnit: real) {
    match job
    case EpayNotify(_) => o.provider == EpayProvider
    case AdminComplete =>
      if o.provider == StripeProvider then o.money * quotaPerUnit >= 1.0 else o.amount as real * quotaPerUnit >= 1.0
    case Expire(provider) => o.provider == provider
  }

  lemma WorthCompleting(o: Order, quotaPerUnit: real)
    ensures MeantFor(AdminComplete, o, quotaPerUnit) <==> QuotaFor(o, quotaPerUnit) > 0
  {
    if o.provider == StripeProvider {
      TruncatesPositive(o.money * quotaPerUnit);
    } else {
      TruncatesPositive(o.amount as real * quotaPerUnit);
    }
  }

  lemma TruncatesPositive(x: real)
    ensures x >= 1.0 <==> IntPart(x) > 0
  {
  }

  /** Thread t was given the job for order tn, which it is meant for, and has met no database error. */
  ghost predicate Answering(s: Shop, t: ThreadId, tn: TradeNo, job: Job) {
    && AtWork(s, t) && t in s.work && s.locks.pcs[t].tn == tn
    && tn in s.orders && MeantFor(job, s.orders[tn], s.quotaPerUnit)
    && match s.work[t]
       case NoJob => false
       case Start(j) => j == job
       case Writing(_) => true
       case Crediting(_) => true
       case Finished => !s.orders[tn].status.Pending?
  }

  lemma AnswerStep(s: Shop, a: Action, s': Shop, t: ThreadId, tn: TradeNo, job: Job)
    requires Inv(s) && Makes(s, a, s') && Answering(s, t, tn, job) && Unhurt(a, t) && AtWork(s', t)
    ensures Answering(s', t, tn, job)
  {
    assert a.Serve? ==> WorkOk(s, a.t);
    if a.Serve? && a.t == t {
      OwnAnswer(s, t, tn, job);
    } else {
      OthersKeepAnswer(s, a, t, tn, job);
    }
  }

  /** What others do while thread t answers can at most settle its order first. */
  lemma OthersKeepAnswer(s: Shop, a: Action, t: ThreadId, tn: TradeNo, job: Job)
    requires CanDo(s, a) && (a.Serve? ==> WorkOk(s, a.t) && a.t != t) && PointsIntoTable(s.locks)
    requires Answering(s, t, tn, job) && AtWork(Do(s, a), t)
    ensures Answering(Do(s, a), t, tn, job)
  {
    DoKeepsOrder(s, a, tn);
    if !s.orders[tn].status.Pending? {
      DoKeepsSettled(s, a, tn);
    }
    DoKeepsPlace(s, a, t);
  }

  /** Nobody but thread t moves it from one stage of its work, or from one order, to another. */
  lemma DoKeepsPlace(s: Shop, a: Action, t: ThreadId)
    requires CanDo(s, a) && (a.Serve? ==> a.t != t) && PointsIntoTable(s.locks)
    requires AtWork(s, t) && t in s.work && AtWork(Do(s, a), t)
    ensures t in Do(s, a).work && Do(s, a).work[t] == s.work[t]
    ensures Do(s, a).locks.pcs[t].tn == s.locks.pcs[t].tn
  {
    match a
    case Serve(u, outcome) => HandleTouches(s, u, outcome);
    case Lock(u, n, _) => KeepsOrder(s.locks, u, n, t);
    case Report(_, _, _) =>
    case Open(_, _) =>
  }

  lemma OwnAnswer(s: Shop, t: ThreadId, tn: TradeNo, job: Job)
    requires Answering(s, t, tn, job) && Busy(s, t) && WorkOk(s, t)
    ensures Answering(Handle(s, t, Done), t, tn, job)
  {
    WorthCompleting(s.orders[tn], s.quotaPerUnit);
  }

  /** The call itself: thread t, outside the lock code, is given the job. */
  lemma AnswerStart(s: Shop, a: Action, s': Shop, t: ThreadId, tn: TradeNo, job: Job)
    requires Inv(s) && Makes(s, a, s') && IsCall(s, a, t, tn, job) && AtWork(s', t)
    ensures Answering(s', t, tn, job)
  {
    KeepsOrder(s.locks, t, tn, t);
  }

  ghost predicate Makes(s: Shop, a: Action, s': Shop) {
    CanDo(s, a) && s' == Do(s, a)
  }

  /** The actions that take a run from each state to the next. */
  ghost predicate Trace(run: seq<Shop>, acts: seq<Action>) {
    && |run| == |acts| + 1 && Init(run[0])
    && forall i | 0 <= i < |acts| :: Makes(run[i], acts[i], run[i + 1])
  }

  lemma TraceInv(run: seq<Shop>, acts: seq<Action>, k: nat)
    requires Trace(run, acts) && k < |run|
    ensures Inv(run[k])
  {
    forall i | 0 <= i < |run| - 1 ensures Step(run[i], run[i + 1]) {
      assert Makes(run[i], acts[i], run[i + 1]);
    }
    RunInv(run, k);
  }

  lemma TraceStep(run: seq<Shop>, acts: seq<Action>, k: nat)
    requires Trace(run, acts) && 0 < k < |run|
    ensures Inv(run[k - 1]) && Makes(run[k - 1], acts[k - 1], run[k])
  {
    TraceInv(run, acts, k - 1);
    assert Makes(run[k - 1], acts[k - 1], run[k - 1 + 1]);
  }

  predicate IsCall(s: Shop, a: Action, t: ThreadId, tn: TradeNo, job: Job) {
    && a == Lock(t, tn, job) && t in s.locks.pcs && s.locks.pcs[t].Idle?
    && tn in s.orders && MeantFor(job, s.orders[tn], s.quotaPerUnit)
  }

  /** No database call that thread t makes in action a fails. */
  predicate Unhurt(a: Action, t: ThreadId) {
    a.Serve? && a.t == t ==> a.outcome.Done?
  }

  predicate AtWork(s: Shop, t: ThreadId) {
    t in s.locks.pcs && Engaged(s.locks.pcs[t])
  }

  /**
    At action i thread t is called with a job for order tn; up to state k it has not left that order,
    and no database call of its own has failed.
   */
  ghost predicate Called(
    run: seq<Shop>, acts: seq<Action>, i: nat, k: nat, t: ThreadId, tn: TradeNo, job: Job) {
    && i < k < |run| && k <= |acts| && IsCall(run[i], acts[i], t, tn, job)
    && (forall j | i < j <= k :: AtWork(run[j], t))
    && (forall j | i < j < k :: Unhurt(acts[j], t))
  }

  lemma CalledBefore(
    run: seq<Shop>, acts: seq<Action>, i: nat, k: nat, t: ThreadId, tn: TradeNo, job: Job)
    requires Called(run, acts, i, k, t, tn, job)
    ensures AtWork(run[k], t)
    ensures if k - 1 == i then IsCall(run[i], acts[i], t, tn, job)
            else Called(run, acts, i, k - 1, t, tn, job) && Unhurt(acts[k - 1], t)
  {
  }

  lemma {:induction false} CallAnswers(
    run: seq<Shop>, acts: seq<Action>, i: nat, k: nat, t: ThreadId, tn: TradeNo, job: Job)
    requires Trace(run, acts) && Called(run, acts, i, k, t, tn, job)
    ensures Answering(run[k], t, tn, job)
  {
    TraceStep(run, acts, k);
    CalledBefore(run, acts, i, k, t, tn, job);
    if k - 1 > i {
      CallAnswers(run, acts, i, k - 1, t, tn, job);
    }
    AnswerNext(run[k - 1], acts[k - 1], run[k], t, tn, job);
  }

  lemma AnswerNext(s: Shop, a: Action, s': Shop, t: ThreadId, tn: TradeNo, job: Job)
    requires Inv(s) && Makes(s, a, s') && AtWork(s', t)
    requires IsCall(s, a, t, tn, job) || (Answering(s, t, tn, job) && Unhurt(a, t))
    ensures Answering(s', t, tn, job)
  {
    if IsCall(s, a, t, tn, job) {
      AnswerStart(s, a, s', t, tn, job);
    } else {
      AnswerStep(s, a, s', t, tn, job);
    }
  }

  /**
    A handler called for an order it is meant for, and not hurt by a database error, leaves that very
    order settled; unless it was closed as failed or expired, its user has been credited for it once.
   */
  lemma CallSettles(run: seq<Shop>, acts: seq<Action>, i: nat, k: nat, t: ThreadId, tn: TradeNo, job: Job)
    requires Trace(run, acts) && Called(run, acts, i, k, t, tn, job)
    requires run[k].locks.pcs[t].Holding? && t in run[k].work && run[k].work[t].Finished?
    ensures tn in run[k].orders && !run[k].orders[tn].status.Pending?
    ensures run[k].orders[tn].status.Success? && tn !in run[k].faults ==> CreditsFor(run[k].credits, tn) == 1
  {
    CallAnswers(run, acts, i, k, t, tn, job);
    TraceInv(run, acts, k);
    assert LedgerOk(run[k], tn);
    NoOtherCrediting(run[k], t);
  }

  /** What thread t is doing, if it holds the lock of order tn. */
  predicate Doing(s: Shop, t: ThreadId, tn: TradeNo, job: Job) {
    && t in s.locks.pcs && t in s.work && s.locks.pcs[t].Holding? && s.locks.pcs[t].tn == tn
    && (s.work[t] == Start(job) || (job.EpayNotify? && s.work[t].Writing?))
  }

  /** Thread t holds the lock of order tn for a callback or an administrator, and the order is meant for that. */
  ghost predicate Paying(s: Shop, t: ThreadId, tn: TradeNo) {
    exists job: Job ::
      !job.Expire? && Doing(s, t, tn, job) && tn in s.orders && MeantFor(job, s.orders[tn], s.quotaPerUnit)
  }

  /**
    Who settles an order. It becomes a success only through a callback or an administrator who holds
    its lock, expired only through an expiry by its own provider that holds its lock, and failed only
    through a failure report of its own provider, never for an Epay order.
   */
  lemma WhoSettles(s: Shop, a: Action, tn: TradeNo)
    requires Inv(s) && CanDo(s, a) && tn in s.orders && tn in Do(s, a).orders
    requires s.orders[tn].status.Pending? && !Do(s, a).orders[tn].status.Pending?
    ensures var o := s.orders[tn];
            match Do(s, a).orders[tn].status
            case Success => a.Serve? && Paying(s, a.t, tn)
            case Expired => a.Serve? && Doing(s, a.t, tn, Expire(o.provider))
            case Failed => a.Report? && a.tn == tn && a.provider == o.provider && o.provider != EpayProvider
            case Pending => false
  {
    match a
    case Serve(t, outcome) =>
      assert WorkOk(s, t);
      HandleKeepsOtherOrders(s, t, outcome);
      HandlerSettles(s, t, outcome);
    case Lock(_, _, _) =>
    case Report(_, _, _) =>
    case Open(_, _) =>
  }

  lemma HandlerSettles(s: Shop, t: ThreadId, outcome: Outcome)
    requires Busy(s, t) && WorkOk(s, t)
    requires var tn := s.locks.pcs[t].tn;
             && tn in s.orders && s.orders[tn].status.Pending?
             && tn in Handle(s, t, outcome).orders && !Handle(s, t, outcome).orders[tn].status.Pending?
    ensures var tn := s.locks.pcs[t].tn;
            var o := s.orders[tn];
            if Handle(s, t, outcome).orders[tn].status.Success? then
              Paying(s, t, tn)
            else
              Handle(s, t, outcome).orders[tn].status.Expired? && Doing(s, t, tn, Expire(o.provider))
  {
    var tn := s.locks.pcs[t].tn;
    WorthCompleting(s.orders[tn], s.quotaPerUnit);
    match s.work[t]
    case Start(AdminComplete) => assert Doing(s, t, tn, AdminComplete);
    case Start(Expire(_)) =>
    case Start(EpayNotify(_)) =>
    case Writing(_) => assert Doing(s, t, tn, EpayNotify(""));
    case Crediting(_) =>
  }

  /** In action a an expiry of the Epay order tn is carried out. */
  predicate Expires(s: Shop, a: Action, tn: TradeNo) {
    a.Serve? && Doing(s, a.t, tn, Expire(EpayProvider))
  }

  predicate OpenOrPaid(s: Shop, tn: TradeNo) {
    && tn in s.orders && s.orders[tn].provider == EpayProvider
    && (s.orders[tn].status == Pending || s.orders[tn].status == Success)
  }

  lemma StaysOpenOrPaid(s: Shop, a: Action, s': Shop, tn: TradeNo)
    requires Inv(s) && Makes(s, a, s') && OpenOrPaid(s, tn) && !Expires(s, a, tn)
    ensures OpenOrPaid(s', tn)
  {
    assert a.Serve? ==> WorkOk(s, a.t);
    DoKeepsOrder(s, a, tn);
    if s.orders[tn].status == Success {
      DoKeepsSettled(s, a, tn);
    } else if s'.orders[tn].status != Pending {
      WhoSettles(s, a, tn);
    }
  }

  lemma {:induction false} NotExpired(run: seq<Shop>, acts: seq<Action>, i: nat, k: nat, tn: TradeNo)
    requires Trace(run, acts) && i <= k < |run| && OpenOrPaid(run[i], tn)
    requires forall j | i <= j < k :: !Expires(run[j], acts[j], tn)
    ensures OpenOrPaid(run[k], tn)
  {
    if k == i {
    } else {
      NotExpired(run, acts, i, k - 1, tn);
      TraceStep(run, acts, k);
      StaysOpenOrPaid(run[k - 1], acts[k - 1], run[k], tn);
    }
  }

  /**
    A callback for a pending Epay order, without database errors on that order, and with no expiry
    of it carried out in the meantime: when its handler is through, that very order is paid and
    credited once, whatever else happens.
   */
  lemma CallbackPays(run: seq<Shop>, acts: seq<Action>, i: nat, k: nat, t: ThreadId, tn: TradeNo, payType: string)
    requires Trace(run, acts) && Called(run, acts, i, k, t, tn, EpayNotify(payType))
    requires run[i].orders[tn].status == Pending && tn !in run[k].faults
    requires forall j | i <= j < k :: !Expires(run[j], acts[j], tn)
    requires run[k].locks.pcs[t].Holding? && t in run[k].work && run[k].work[t].Finished?
    ensures tn in run[k].orders && run[k].orders[tn].status == Success && CreditsFor(run[k].credits, tn) == 1
  {
    CallSettles(run, acts, i, k, t, tn, EpayNotify(payType));
    NotExpired(run, acts, i, k, tn);
  }

  /** While a thread is inside a handler or the lock code, some such thread can act: nobody waits for ever. */
  lemma NeverStuck(run: seq<Shop>, k: nat, t: ThreadId) returns (a: Action)
    requires Run(run) && k < |run| && t in run[k].locks.pcs && !run[k].locks.pcs[t].Idle?
    ensures CanDo(run[k], a) && (a.Serve? || a.Lock?)
    ensures a.t in run[k].locks.pcs && !run[k].locks.pcs[a.t].Idle?
  {
    var s := run[k];
    RunInv(run, k);
    var u := SomeEnabled(s.locks, t);
    a := if Busy(s, u) then Serve(u, Done) else Lock(u, "", AdminComplete);
  }

  // ------------------------------------------------------------------ one handler, undisturbed

  /** A callback for a pending Epay order: read, write and credit, each without error. */
  lemma UndisturbedCallback(s: Shop, t: ThreadId, payType: string)
    requires Busy(s, t) && s.work[t] == Start(EpayNotify(payType)) && s.locks.pcs[t].tn in s.orders
    requires var o := s.orders[s.locks.pcs[t].tn];
             o.status == Pending && o.provider == EpayProvider && o.amount as real * s.quotaPerUnit >= 0.0
    ensures var tn := s.locks.pcs[t].tn;
            var o := s.orders[tn];
            var read := Handle(s, t, Done);
            && read == s.(work := read.work) && Busy(read, t)
            && var written := Handle(read, t, Done);
               && Busy(written, t) && written.credits == s.credits && written.faults == s.faults
               && written.orders == s.orders[tn := o.(payMethod := payType, status := Success)]
               && var paid := Handle(written, t, Done);
                  && paid.work[t] == Finished && paid.orders == written.orders && paid.faults == s.faults
                  && NewCredit(s, paid, tn, o)
  {
    NegativeQuota(s.orders[s.locks.pcs[t].tn], s.quotaPerUnit);
  }

  /** One credit more, for order o, to its user. */
  predicate NewCredit(s: Shop, s': Shop, tn: TradeNo, o: Order) {
    && |s'.credits| == |s.credits| + 1 && s'.credits[..|s.credits|] == s.credits
    && s'.credits[|s.credits|].tn == tn && s'.credits[|s.credits|].userId == o.userId
  }

  /** Completion by hand of a pending order that is worth at least one unit; any other order stays as it is. */
  lemma UndisturbedCompletion(s: Shop, t: ThreadId)
    requires Busy(s, t) && s.work[t] == Start(AdminComplete)
    ensures var s', tn := Handle(s, t, Done), s.locks.pcs[t].tn;
            && s'.work[t] == Finished && s'.faults == s.faults
            && if tn in s.orders && s.orders[tn].status == Pending
                  && MeantFor(AdminComplete, s.orders[tn], s.quotaPerUnit)
               then
                 && s'.orders == s.orders[tn := s.orders[tn].(status := Success)]
                 && NewCredit(s, s', tn, s.orders[tn])
               else s'.orders == s.orders && s'.credits == s.credits
  {
    var tn := s.locks.pcs[t].tn;
    if tn in s.orders {
      WorthCompleting(s.orders[tn], s.quotaPerUnit);
    }
  }

  /** Expiry of a pending order by its own provider; any other order stays as it is. */
  lemma UndisturbedExpiry(s: Shop, t: ThreadId, provider: Provider)
    requires Busy(s, t) && s.work[t] == Start(Expire(provider))
    ensures var s', tn := Handle(s, t, Done), s.locks.pcs[t].tn;
            && s'.work[t] == Finished && s'.faults == s.faults && s'.credits == s.credits
            && s'.orders == if tn in s.orders && s.orders[tn].status == Pending && s.orders[tn].provider == provider
                            then s.orders[tn := s.orders[tn].(status := Expired)] else s.orders
  {
  }

  /** A pending order is opened under a new number, and nothing else. */
  lemma OpenAddsOrder(s: Shop, tn: TradeNo, o: Order)
    requires PointersOk(s.locks) && tn !in s.orders && o.status == Pending
    ensures CanDo(s, Open(tn, o))
    ensures Do(s, Open(tn, o)) == s.(orders := s.orders[tn := o])
  {
  }

  /** A failure report closes a pending order of its own provider as failed, whether or not an error is seen. */
  lemma ReportCloses(s: Shop, tn: TradeNo, provider: Provider, outcome: Outcome)
    requires PointersOk(s.locks) && provider != EpayProvider
    ensures CanDo(s, Report(tn, provider, outcome))
    ensures Do(s, Report(tn, provider, outcome)) ==
            if outcome != FailedBefore && tn in s.orders && s.orders[tn].status == Pending
               && s.orders[tn].provider == provider
            then s.(orders := s.orders[tn := s.orders[tn].(status := Failed)]) else s
  {
  }

  /** The threads run the lock code of OrderLock: every action is one of its steps or none of its business. */
  lemma LocksMove(s: Shop, a: Action)
    requires CanDo(s, a)
    ensures if a.Lock? then OrderLock.Makes(s.locks, Move(a.t, a.tn), Do(s, a).locks) else Do(s, a).locks == s.locks
    ensures a.Lock? && s.locks.pcs[a.t].Idle? ==> Do(s, a).work == s.work[a.t := Start(a.job)]
    ensures a.Lock? && !s.locks.pcs[a.t].Idle? ==> Do(s, a).work == s.work
  {
    if a.Serve? {
      HandleTouches(s, a.t, a.outcome);
    }
  }

  // ------------------------------------------------------------------ database errors

  /** A call that fails before its effect changes neither orders nor credits; the handler is then through. */
  lemma FailedBeforeIsNothing(s: Shop, t: ThreadId)
    requires Busy(s, t)
    ensures var s' := Handle(s, t, FailedBefore);
            s'.orders == s.orders && s'.credits == s.credits && s'.work == s.work[t := Finished]
  {
  }

  /** A write or transaction that fails after its effect has that effect; the handler is then through as well. */
  lemma FailedAfterIsDone(s: Shop, t: ThreadId)
    requires Busy(s, t) && !(s.work[t].Start? && s.work[t].job.EpayNotify?)
    ensures var s' := Handle(s, t, FailedAfter);
            && s'.orders == Handle(s, t, Done).orders && s'.credits == Handle(s, t, Done).credits
            && s'.work == s.work[t := Finished]
  {
  }

  /** The error of a write, of a credit or of a transaction that credited is on record. */
  lemma ErrorIsRecorded(s: Shop, t: ThreadId, outcome: Outcome)
    requires Busy(s, t) && outcome != Done
    requires s.work[t].Writing? || s.work[t].Crediting? || Handle(s, t, outcome).credits != s.credits
    ensures s.locks.pcs[t].tn in Handle(s, t, outcome).faults
  {
  }

  /** An order counts as faulty only through an error of its own handler, or through a negative amount. */
  lemma FaultHasCause(s: Shop, a: Action, tn: TradeNo)
    requires Inv(s) && CanDo(s, a) && tn !in s.faults && tn in Do(s, a).faults
    ensures a.Serve? && s.locks.pcs[a.t].Holding? && s.locks.pcs[a.t].tn == tn
    ensures a.outcome != Done || NegativeEpay(s, tn)
  {
    match a
    case Serve(t, outcome) =>
      assert WorkOk(s, t);
      HandlerFault(s, t, outcome, tn);
    case Lock(_, _, _) =>
    case Report(_, _, _) =>
    case Open(_, _) =>
  }

  predicate NegativeEpay(s: Shop, tn: TradeNo) {
    && tn in s.orders && s.orders[tn].provider == EpayProvider
    && s.orders[tn].amount as real * s.quotaPerUnit < 0.0
  }

  lemma HandlerFault(s: Shop, t: ThreadId, outcome: Outcome, tn: TradeNo)
    requires Busy(s, t) && WorkOk(s, t) && tn !in s.faults && tn in Handle(s, t, outcome).faults
    ensures s.locks.pcs[t].tn == tn
    ensures outcome != Done || NegativeEpay(s, tn)
  {
    if outcome.Done? && s.work[t].Crediting? {
      NegativeQuota(s.work[t].o, s.quotaPerUnit);
    }
  }

  lemma NegativeQuota(o: Order, quotaPerUnit: real)
    requires o.provider == EpayProvider
    ensures QuotaFor(o, quotaPerUnit) < 0 ==> o.amount as real * quotaPerUnit < 0.0
  {
    QuotaTruncates(o, quotaPerUnit);
  }
}
