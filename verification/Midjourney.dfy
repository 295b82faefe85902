/**
  The Midjourney poller of controller/midjourney.go: any number of pollers hold snapshots of
  one task, each writes back under a compare-and-set on the status it has seen, and a winner
  that found the task failed returns the quota. UpdateWithStatus (model/midjourney.go) is one
  atomic conditional update.
 */
module Midjourney {
  import opened Wrappers

  const FAILURE := "FAILURE"
  const COMPLETE := "100%"
  const TIMEOUT_MILLIS := 3600000
  const TIMEOUT_REASON := "上游任务超时（超过1小时）"

  /** The columns that the poller copies without looking into them. */
  datatype Details = Details(
    promptEn: string, state: string, startTime: int, finishTime: int,
    imageUrl: string, videoUrl: string, videoUrls: string)

  datatype Task = Task(
    userId: int, quota: int, code: int, status: string, progress: string,
    failReason: string, submitTime: int, details: Details)

  datatype Response = Response(
    status: string, progress: string, failReason: string, submitTime: int, details: Details)

  /** A task older than an hour counts as failed. */
  function Effective(task: Task, r: Response, now: int): Response {
    if now - task.submitTime > TIMEOUT_MILLIS && task.progress != COMPLETE
    then r.(failReason := TIMEOUT_REASON, status := FAILURE)
    else r
  }

  /** checkMjTaskNeedUpdate */
  predicate NeedsUpdate(task: Task, r: Response) {
    || task.code != 1 || task.progress != r.progress || task.submitTime != r.submitTime
    || task.status != r.status || task.failReason != r.failReason || task.details != r.details
    || (task.progress != COMPLETE && r.failReason != "")
  }

  /** The condition under which the poller logs a failed task. */
  predicate FailureTest(r: Response) {
    (r.progress != COMPLETE && r.failReason != "") || (r.progress == COMPLETE && r.status == FAILURE)
  }

  function Updated(task: Task, r: Response): Task {
    task.(code := 1, status := r.status, progress := if FailureTest(r) then COMPLETE else r.progress,
          failReason := r.failReason, submitTime := r.submitTime, details := r.details)
  }

  /** An unfinished response names a reason of failure exactly if its status says failure. */
  predicate Consistent(r: Response) {
    r.progress == "100%" || (r.status == "FAILURE" <==> r.failReason != "")
  }

  /** Which is when the failure test means what the status says. */
  lemma ConsistentIff(r: Response)
    ensures Consistent(r) <==> (FailureTest(r) <==> r.status == "FAILURE")
  {
  }

  /** An unfinished task is written exactly when that would change its row. */
  lemma UpdateNeededIff(task: Task, r: Response)
    requires task.progress != COMPLETE
    ensures NeedsUpdate(task, r) <==> Updated(task, r) != task
  {
  }

  // ------------------------------------------------------------------ the transition system

  datatype Poller =
    | Idle
    | Polling(snapshot: Task)   // fetched as unfinished, response outstanding
    | Refunding(quota: int)     // won the update of a failed task, before IncreaseUserQuota

  datatype State = State(row: Task, pollers: map<nat, Poller>, refunds: seq<int>)

  datatype Action =
    | Fetch(p: nat)
    | Handle(p: nat, r: Response, now: int)
    | Refund(p: nat, ok: bool)
    | BulkFail(reason: Option<string>)   // the bulk updates: no task id, or its channel is gone

  predicate Enabled(s: State, a: Action) {
    match a
    case Fetch(p) => p in s.pollers && s.pollers[p].Idle? && s.row.progress != COMPLETE
    case Handle(p, _, _) => p in s.pollers && s.pollers[p].Polling?
    case Refund(p, _) => p in s.pollers && s.pollers[p].Refunding?
    case BulkFail(_) => true
  }

  /** The loop body for one response: decide, compare-and-set, remember a refund. */
  function HandleResponse(s: State, p: nat, r: Response): State
    requires p in s.pollers && s.pollers[p].Polling?
  {
    var task := s.pollers[p].snapshot;
    if !NeedsUpdate(task, r) || s.row.status != task.status then s.(pollers := s.pollers[p := Idle])
    else
      var next := if FailureTest(r) && task.quota != 0 then Refunding(task.quota) else Idle;
      s.(row := Updated(task, r), pollers := s.pollers[p := next])
  }

  function Do(s: State, a: Action): State
    requires Enabled(s, a)
  {
    match a
    case Fetch(p) => s.(pollers := s.pollers[p := Polling(s.row)])
    case Handle(p, r, now) => HandleResponse(s, p, Effective(s.pollers[p].snapshot, r, now))
    case Refund(p, ok) =>
      s.(refunds := if ok then s.refunds + [s.pollers[p].quota] else s.refunds, pollers := s.pollers[p := Idle])
    case BulkFail(reason) =>
      var failReason := if reason.Some? then reason.value else s.row.failReason;
      s.(row := s.row.(status := FAILURE, progress := COMPLETE, failReason := failReason))
  }

  ghost predicate Init(s: State) {
    && s.refunds == [] && (s.row.status == FAILURE ==> s.row.progress == COMPLETE)
    && forall p | p in s.pollers :: s.pollers[p].Idle?
  }

  ghost predicate Step(s: State, s': State, allowed: Response -> bool) {
    exists a :: Enabled(s, a) && s' == Do(s, a) && (a.Handle? ==> allowed(a.r))
  }

  ghost predicate Run(run: seq<State>, allowed: Response -> bool) {
    && |run| > 0 && Init(run[0])
    && forall i | 0 <= i < |run| - 1 :: Step(run[i], run[i + 1], allowed)
  }

  // ------------------------------------------------------------------ safety

  ghost function Refunders(s: State): set<nat> {
    set p | p in s.pollers && s.pollers[p].Refunding?
  }

  ghost predicate Inv(s: State) {
    && (s.row.status == FAILURE ==> s.row.progress == COMPLETE)
    && (forall p | p in s.pollers && s.pollers[p].Polling? ::
          && s.pollers[p].snapshot.status != FAILURE
          && s.pollers[p].snapshot.quota == s.row.quota && s.pollers[p].snapshot.userId == s.row.userId)
    && (forall p | p in s.pollers && s.pollers[p].Refunding? :: s.pollers[p].quota == s.row.quota)
    && (forall i | 0 <= i < |s.refunds| :: s.refunds[i] == s.row.quota)
    && |Refunders(s)| + |s.refunds| <= 1
    && (|Refunders(s)| + |s.refunds| > 0 ==> s.row.status == FAILURE)
  }

  lemma RefundersAfter(s: State, s': State, p: nat, q: Poller)
    requires p in s.pollers && s'.pollers == s.pollers[p := q]
    ensures |Refunders(s')| == |Refunders(s)| + (if q.Refunding? then 1 else 0)
                               - (if s.pollers[p].Refunding? then 1 else 0)
  {
    var rest := Refunders(s) - {p};
    assert Refunders(s) == if s.pollers[p].Refunding? then rest + {p} else rest;
    assert Refunders(s') == if q.Refunding? then rest + {p} else rest;
  }

  /** The timeout rule only ever makes a response consistent. */
  lemma EffectiveConsistent(task: Task, r: Response, now: int)
    requires Consistent(r)
    ensures Consistent(Effective(task, r, now))
  {
    ConsistentIff(r);
  }

  lemma HandleInv(s: State, p: nat, r: Response)
    requires Inv(s) && p in s.pollers && s.pollers[p].Polling? && Consistent(r)
    ensures Inv(HandleResponse(s, p, r))
  {
    var s' := HandleResponse(s, p, r);
    RefundersAfter(s, s', p, s'.pollers[p]);
  }

  lemma DoInv(s: State, a: Action)
    requires Inv(s) && Enabled(s, a) && (a.Handle? ==> Consistent(a.r))
    ensures Inv(Do(s, a))
  {
    match a
    case Handle(p, r, now) =>
      EffectiveConsistent(s.pollers[p].snapshot, r, now);
      HandleInv(s, p, Effective(s.pollers[p].snapshot, r, now));
    case Fetch(p) => RefundersAfter(s, Do(s, a), p, Polling(s.row));
    case Refund(p, _) => RefundersAfter(s, Do(s, a), p, Idle);
    case BulkFail(_) => assert Refunders(Do(s, a)) == Refunders(s);
  }

  lemma {:induction false} RunInv(run: seq<State>, allowed: Response -> bool, k: nat)
    requires Run(run, allowed) && k < |run| && forall r | allowed(r) :: Consistent(r)
    ensures Inv(run[k])
  {
    if k == 0 {
      assert Refunders(run[0]) == {};
    } else {
      RunInv(run, allowed, k - 1);
      assert Step(run[k - 1], run[k - 1 + 1], allowed);
      var a :| Enabled(run[k - 1], a) && run[k] == Do(run[k - 1], a) && (a.Handle? ==> allowed(a.r));
      DoInv(run[k - 1], a);
    }
  }

  /** The quota is returned at most once, whole, and only if the task is stored as failed at 100%. */
  lemma RefundedAtMostOnce(run: seq<State>, allowed: Response -> bool, k: nat)
    requires Run(run, allowed) && k < |run| && forall r | allowed(r) :: Consistent(r)
    ensures var s := run[k];
            && |s.refunds| <= 1
            && (s.refunds != [] ==>
                  s.refunds[0] == s.row.quota && s.row.status == FAILURE && s.row.progress == COMPLETE)
  {
    RunInv(run, allowed, k);
  }

  // ------------------------------------------------------------------ every failed task is refunded

  /** What the winner of the update stores: the response, at 100% if it failed; nobody else stores anything. */
  lemma WinnerStores(s: State, p: nat, r: Response)
    requires Inv(s) && p in s.pollers && s.pollers[p].Polling? && Consistent(r)
    ensures var row := HandleResponse(s, p, r).row;
            if s.row.status != s.pollers[p].snapshot.status || !NeedsUpdate(s.pollers[p].snapshot, r) then row == s.row
            else
              row == Task(s.row.userId, s.row.quota, 1, r.status, if r.status == "FAILURE" then "100%" else r.progress,
                          r.failReason, r.submitTime, r.details)
  {
    ConsistentIff(r);
  }

  /** A poller that stores the task as failed goes on to return the whole quota. */
  lemma WinnerRefunds(s: State, p: nat, r: Response)
    requires Inv(s) && p in s.pollers && s.pollers[p].Polling? && Consistent(r)
    requires s.row.quota != 0 && s.row.status != "FAILURE"
    ensures var s' := HandleResponse(s, p, r);
            s'.row.status == "FAILURE" ==> s'.row.progress == "100%" && s'.pollers[p] == Refunding(s.row.quota)
  {
    ConsistentIff(r);
  }

  /** The first response handled more than an hour after the submission fails the task, whatever it says. */
  lemma TimeoutFails(s: State, p: nat, r: Response, now: int)
    requires Inv(s) && p in s.pollers && s.pollers[p].Polling? && s.pollers[p].snapshot == s.row
    requires s.row.progress != "100%" && s.row.quota != 0 && now > s.row.submitTime + 60 * 60 * 1000
    ensures var s' := Do(s, Handle(p, r, now));
            && s'.row.status == "FAILURE" && s'.row.progress == "100%"
            && s'.row.failReason == "上游任务超时（超过1小时）"
            && s'.pollers[p] == Refunding(s.row.quota)
  {
  }

  /** Up to then, and for a finished task, the response counts as it came. */
  lemma NoTimeout(s: State, p: nat, r: Response, now: int)
    requires p in s.pollers && s.pollers[p].Polling?
    requires now <= s.pollers[p].snapshot.submitTime + 60 * 60 * 1000 || s.pollers[p].snapshot.progress == "100%"
    ensures Do(s, Handle(p, r, now)) == HandleResponse(s, p, r)
  {
  }

  /** After its response a poller is idle again, or it has a failed task and a non-zero quota to return. */
  lemma HandlePollers(s: State, p: nat, r: Response, now: int)
    requires Inv(s) && p in s.pollers && s.pollers[p].Polling? && Consistent(r)
    ensures var s' := Do(s, Handle(p, r, now));
            var failed := s'.row.status == "FAILURE" && s.row.status != "FAILURE";
            && s'.refunds == s.refunds
            && s'.pollers == s.pollers[p := if failed && s.row.quota != 0 then Refunding(s.row.quota) else Idle]
  {
    EffectiveConsistent(s.pollers[p].snapshot, r, now);
    ConsistentIff(Effective(s.pollers[p].snapshot, r, now));
  }

  /** A poller starts on an unfinished task, with a copy of its row, when it is through with the last one. */
  lemma FetchTakesRow(s: State, p: nat)
    ensures Enabled(s, Fetch(p)) <==> p in s.pollers && s.pollers[p] == Idle && s.row.progress != "100%"
    ensures Enabled(s, Fetch(p)) ==> Do(s, Fetch(p)) == s.(pollers := s.pollers[p := Polling(s.row)])
  {
  }

  /** A refund that fails is not tried again. */
  lemma FailedRefundIsLost(s: State, p: nat)
    requires p in s.pollers && s.pollers[p].Refunding?
    ensures Do(s, Refund(p, false)) == s.(pollers := s.pollers[p := Idle])
  {
  }

  /** A bulk failure can come at any time. It finishes the task as failed and returns nothing. */
  lemma BulkFails(s: State, reason: Option<string>)
    ensures Enabled(s, BulkFail(reason))
    ensures Do(s, BulkFail(reason))
         == s.(row := Task(s.row.userId, s.row.quota, s.row.code, "FAILURE", "100%",
                           if reason.Some? then reason.value else s.row.failReason, s.row.submitTime, s.row.details))
  {
  }

  /** A task that is not yet failed and has a quota to return. */
  ghost predicate CleanInit(s: State) {
    Init(s) && s.row.status != "FAILURE" && s.row.quota != 0
  }

  /** A step other than a bulk failure or a refund that does not reach the database. */
  ghost predicate CleanStep(s: State, s': State, allowed: Response -> bool) {
    exists a :: Enabled(s, a) && s' == Do(s, a) && IsClean(a, allowed)
  }

  predicate IsClean(a: Action, allowed: Response -> bool) {
    match a
    case Fetch(_) => true
    case Handle(_, r, _) => allowed(r)
    case Refund(_, ok) => ok
    case BulkFail(_) => false
  }

  ghost predicate CleanRun(run: seq<State>, allowed: Response -> bool) {
    && |run| > 0 && CleanInit(run[0])
    && forall i | 0 <= i < |run| - 1 :: CleanStep(run[i], run[i + 1], allowed)
  }

  /** A failed task has been refunded or is just being refunded. */
  ghost predicate Owed(s: State, quota: int) {
    && Inv(s) && s.row.quota == quota
    && (s.row.status == "FAILURE" ==> |Refunders(s)| + |s.refunds| == 1)
  }

  lemma HandleOwed(s: State, p: nat, r: Response, quota: int)
    requires Owed(s, quota) && quota != 0 && p in s.pollers && s.pollers[p].Polling? && Consistent(r)
    ensures Owed(HandleResponse(s, p, r), quota)
  {
    var s' := HandleResponse(s, p, r);
    HandleInv(s, p, r);
    RefundersAfter(s, s', p, s'.pollers[p]);
    if s.row.status != "FAILURE" {
      WinnerRefunds(s, p, r);
    }
  }

  lemma DoOwed(s: State, a: Action, allowed: Response -> bool, quota: int)
    requires Owed(s, quota) && quota != 0 && Enabled(s, a) && IsClean(a, allowed)
    requires forall r | allowed(r) :: Consistent(r)
    ensures Owed(Do(s, a), quota)
  {
    match a
    case Handle(p, r, now) =>
      EffectiveConsistent(s.pollers[p].snapshot, r, now);
      HandleOwed(s, p, Effective(s.pollers[p].snapshot, r, now), quota);
    case Fetch(p) =>
      DoInv(s, a);
      RefundersAfter(s, Do(s, a), p, Polling(s.row));
    case Refund(p, _) =>
      DoInv(s, a);
      RefundersAfter(s, Do(s, a), p, Idle);
  }

  lemma {:induction false} CleanRunOwed(run: seq<State>, allowed: Response -> bool, k: nat)
    requires CleanRun(run, allowed) && k < |run| && forall r | allowed(r) :: Consistent(r)
    ensures Owed(run[k], run[0].row.quota)
  {
    if k == 0 {
      assert Refunders(run[0]) == {};
    } else {
      CleanRunOwed(run, allowed, k - 1);
      assert CleanStep(run[k - 1], run[k - 1 + 1], allowed);
      var a :| Enabled(run[k - 1], a) && run[k] == Do(run[k - 1], a) && IsClean(a, allowed);
      DoOwed(run[k - 1], a, allowed, run[0].row.quota);
    }
  }

  /**
    From a task that is not failed and has a quota, with consistent responses, no bulk failure and no
    failing refund: whenever all pollers are idle, the whole quota has been returned, once, if the
    task is stored as failed, and nothing otherwise.
   */
  lemma RefundedIffFailed(run: seq<State>, allowed: Response -> bool, k: nat)
    requires CleanRun(run, allowed) && k < |run| && forall r | allowed(r) :: Consistent(r)
    requires forall p | p in run[k].pollers :: run[k].pollers[p].Idle?
    ensures run[k].refunds == if run[k].row.status == "FAILURE" then [run[0].row.quota] else []
    ensures run[k].row.status == "FAILURE" ==> run[k].row.progress == "100%"
  {
    CleanRunOwed(run, allowed, k);
    assert Refunders(run[k]) == {};
  }

  /** Once a task is stored as failed, only a bulk failure writes to it, and that at most gives another reason. */
  lemma FailedStays(s: State, a: Action)
    requires Inv(s) && s.row.status == "FAILURE" && Enabled(s, a)
    ensures var row' := Do(s, a).row;
            if a.BulkFail? && a.reason.Some? then row' == s.row.(failReason := a.reason.value) else row' == s.row
  {
  }

  // ------------------------------------------------------------------ exactness

  /** No run in which the upstream only sends allowed responses returns a quota twice. */
  ghost predicate AtMostOnce(allowed: Response -> bool) {
    forall run: seq<State> | Run(run, allowed) :: |run[|run| - 1].refunds| <= 1
  }

  lemma Extend(run: seq<State>, allowed: Response -> bool, a: Action) returns (longer: seq<State>)
    requires Run(run, allowed) && Enabled(run[|run| - 1], a) && (a.Handle? ==> allowed(a.r))
    ensures Run(longer, allowed) && longer[|longer| - 1] == Do(run[|run| - 1], a)
  {
    longer := run + [Do(run[|run| - 1], a)];
    forall i | 0 <= i < |longer| - 1 ensures Step(longer[i], longer[i + 1], allowed) {
      if i < |run| - 1 { assert Step(run[i], run[i + 1], allowed); }
    }
  }

  function Fresh(r: Response): Task {
    Task(1, 1, 0, if r.status == FAILURE then "" else r.status, "0%", "", r.submitTime, r.details)
  }

  /** Two pollers that hold the same failed snapshot both win when the update keeps the status. */
  lemma TwoPollersRefund(run: seq<State>, allowed: Response -> bool, r: Response, now: int) returns (longer: seq<State>)
    requires Run(run, allowed) && allowed(r)
    requires var s := run[|run| - 1];
             && s.refunds == [] && s.pollers == map[1 := Idle, 2 := Idle]
             && s.row.progress != COMPLETE && s.row.quota != 0
             && var e := Effective(s.row, r, now); FailureTest(e) && NeedsUpdate(s.row, e) && e.status == s.row.status
    ensures Run(longer, allowed) && |longer[|longer| - 1].refunds| == 2
  {
    var row := run[|run| - 1].row;
    var failed := Updated(row, Effective(row, r, now));
    longer := Extend(run, allowed, Fetch(1));
    longer := Extend(longer, allowed, Fetch(2));
    longer := Extend(longer, allowed, Handle(1, r, now));
    assert longer[|longer| - 1] == State(failed, map[1 := Refunding(row.quota), 2 := Polling(row)], []);
    longer := Extend(longer, allowed, Refund(1, true));
    longer := Extend(longer, allowed, Handle(2, r, now));
    longer := Extend(longer, allowed, Refund(2, true));
  }

  /** One inconsistent response is enough to return the quota twice. */
  lemma InconsistentRefundsTwice(allowed: Response -> bool, r: Response) returns (run: seq<State>)
    requires allowed(r) && !Consistent(r)
    ensures Run(run, allowed) && |run[|run| - 1].refunds| == 2
  {
    run := [State(Fresh(r), map[1 := Idle, 2 := Idle], [])];
    if FailureTest(r) {
      run := TwoPollersRefund(run, allowed, r, r.submitTime);
    } else {
      run := Extend(run, allowed, Fetch(1));
      run := Extend(run, allowed, Handle(1, r, r.submitTime));
      assert run[|run| - 1] == State(Updated(Fresh(r), r), map[1 := Idle, 2 := Idle], []);
      run := TwoPollersRefund(run, allowed, r, r.submitTime + TIMEOUT_MILLIS + 1);
    }
  }

  /** The quota comes back at most once exactly when every response the upstream sends is consistent. */
  lemma AtMostOnceIff(allowed: Response -> bool)
    ensures AtMostOnce(allowed) <==> forall r | allowed(r) :: Consistent(r)
  {
    if forall r | allowed(r) :: Consistent(r) {
      forall run: seq<State> | Run(run, allowed) ensures |run[|run| - 1].refunds| <= 1 {
        RefundedAtMostOnce(run, allowed, |run| - 1);
      }
    } else {
      var r :| allowed(r) && !Consistent(r);
      var run := InconsistentRefundsTwice(allowed, r);
    }
  }
}
