/** Queries with a timeout: every query thread arms a cron task that drains its execution
    plan, and aborts the task before it looks at the plan and frees it. */
module QueryTimeout {
  import opened Options
  import opened CronTime
  import opened Cron
  import opened CronSafety

  type QueryId = Client

  /** Where a query thread stands. */
  datatype Step =
    | Planned     // has its execution context, may arm the timeout
    | Executing
    | Aborting    // inside the abort of its timeout
    | Deciding    // about to look whether the plan was drained
    | Decided     // about to free the plan
    | Cleaning    // about to free the execution context
    | Finished

  datatype Query = Query(
    step: Step,
    had: bool,                 // the query came with a plan; index operations do not
    hasPlan: bool,             // the execution context still refers to it
    timeout: Option<Handle>,
    drained: bool,
    verdict: Option<bool>,     // what the query thread read
    frees: nat)                // times the plan was freed

  datatype System = System(cron: State, queries: map<QueryId, Query>)

  const Empty := System(Start, map[])

  datatype Event =
    | Arrive(query: QueryId, plan: bool)
    | Arm(query: QueryId, now: Timespec, ms: nat)
    | Proceed(query: QueryId)                  // no timeout is enforced
    | Reject(query: QueryId)                   // an error before execution
    | Work(query: QueryId, drained: bool)      // the query thread works on its own plan
    | AbortTimeout(query: QueryId)
    | ReturnFromAbort(query: QueryId)
    | Decide(query: QueryId)
    | FreePlan(query: QueryId)
    | IndexOperation(query: QueryId)
    | CleanUp(query: QueryId)
    | Drain(query: QueryId)                    // the callback of its task drains the plan
    | Other(action: Action)                    // the cron thread, and threads with other tasks

  predicate At(s: System, q: QueryId, step: Step) { q in s.queries && s.queries[q].step == step }

  /** The task belongs to no query. */
  predicate Foreign(s: System, t: Handle) {
    forall q :: q in s.queries ==> s.queries[q].timeout != Some(t)
  }

  /** The step of the scheduler that ends an abort. */
  function AbortEnd(s: System, q: QueryId): Action {
    if q in s.cron.clients && s.cron.clients[q].Removed? then FreeAborted(q) else GiveUp(q)
  }

  predicate MayHappen(s: System, e: Event) {
    match e
    case Arrive(q, _) => q !in s.queries && q !in s.cron.clients
    case Arm(q, now, ms) => At(s, q, Planned) && s.queries[q].hasPlan && Enabled(s.cron, Add(now, ms))
    case Proceed(q) => At(s, q, Planned)
    case Reject(q) => At(s, q, Planned)
    case Work(q, _) => At(s, q, Executing) && s.queries[q].hasPlan
    case AbortTimeout(q) =>
      && At(s, q, Executing) && s.queries[q].hasPlan
      && (s.queries[q].timeout.Some? ==> Enabled(s.cron, Abort(q, s.queries[q].timeout.value)))
    case ReturnFromAbort(q) => At(s, q, Aborting) && Enabled(s.cron, AbortEnd(s, q))
    case Decide(q) => At(s, q, Deciding)
    case FreePlan(q) => At(s, q, Decided)
    case IndexOperation(q) => At(s, q, Executing) && !s.queries[q].hasPlan
    case CleanUp(q) => At(s, q, Cleaning)
    case Drain(q) => q in s.queries && s.cron.pc.Calling? && s.queries[q].timeout == Some(s.cron.pc.task)
    case Other(a) =>
      && Enabled(s.cron, a)
      && (a.Abort? ==> a.client !in s.queries && Foreign(s, a.task))
      && (a.FreeAborted? || a.GiveUp? ==> a.client !in s.queries)
  }

  function Set(s: System, q: QueryId, k: Query): System { s.(queries := s.queries[q := k]) }

  function Happen(s: System, e: Event): System
    requires MayHappen(s, e)
  {
    match e
    case Arrive(q, plan) => Set(s, q, Query(Planned, plan, plan, None, false, None, 0))
    case Arm(q, now, ms) =>
      Set(s.(cron := Apply(s.cron, Add(now, ms))), q, s.queries[q].(step := Executing, timeout := Some(s.cron.next)))
    case Proceed(q) => Set(s, q, s.queries[q].(step := Executing))
    case Reject(q) => Set(s, q, s.queries[q].(step := Cleaning))
    case Work(q, drained) => Set(s, q, s.queries[q].(drained := drained))
    case AbortTimeout(q) =>
      if s.queries[q].timeout.Some? then
        Set(s.(cron := Apply(s.cron, Abort(q, s.queries[q].timeout.value))), q, s.queries[q].(step := Aborting))
      else Set(s, q, s.queries[q].(step := Deciding))
    case ReturnFromAbort(q) =>
      Set(s.(cron := Apply(s.cron, AbortEnd(s, q))), q, s.queries[q].(step := Deciding))
    case Decide(q) => Set(s, q, s.queries[q].(step := Decided, verdict := Some(s.queries[q].drained)))
    case FreePlan(q) => Set(s, q, s.queries[q].(step := Cleaning, hasPlan := false, frees := s.queries[q].frees + 1))
    case IndexOperation(q) => Set(s, q, s.queries[q].(step := Cleaning))
    case CleanUp(q) =>
      var k := s.queries[q];
      Set(s, q, k.(step := Finished, hasPlan := false, frees := if k.hasPlan then k.frees + 1 else k.frees))
    case Drain(q) => Set(s, q, s.queries[q].(drained := true))
    case Other(a) => s.(cron := Apply(s.cron, a))
  }

  function History(events: seq<Event>): Option<System> {
    if events == [] then Some(Empty)
    else
      var before := History(events[..|events| - 1]);
      if before.Some? && MayHappen(before.value, events[|events| - 1])
      then Some(Happen(before.value, events[|events| - 1]))
      else None
  }

  // ---------------------------------------------------------------------------
  // Invariant
  // ---------------------------------------------------------------------------

  /** An abort of the task has returned. */
  predicate Settled(cron: State, t: Handle) {
    t in cron.tasks && (cron.tasks[t].aborted || cron.tasks[t].missed)
  }

  predicate Inside(cron: State, q: QueryId, t: Handle) {
    q in cron.clients && cron.clients[q].task == t
  }

  predicate QueryInv(cron: State, q: QueryId, k: Query) {
    && (k.timeout.Some? ==> k.timeout.value in cron.tasks && k.had)
    && (q in cron.clients <==> k.step == Aborting)
    && k.frees == One(k.had && !k.hasPlan)
    && (k.hasPlan ==> k.had)
    && match k.step
       case Planned => k.hasPlan == k.had && k.timeout.None? && k.verdict.None?
       case Executing => k.hasPlan == k.had && k.verdict.None?
       case Aborting => k.hasPlan && k.verdict.None? && k.timeout.Some? && Inside(cron, q, k.timeout.value)
       case Deciding => k.hasPlan && k.verdict.None? && (k.timeout.Some? ==> Settled(cron, k.timeout.value))
       case Decided => k.hasPlan && k.verdict == Some(k.drained) && (k.timeout.Some? ==> Settled(cron, k.timeout.value))
       case Cleaning => (k.verdict.Some? ==> k.verdict.value == k.drained)
                        && (k.timeout.Some? ==> Settled(cron, k.timeout.value))
       case Finished => !k.hasPlan && (k.verdict.Some? ==> k.verdict.value == k.drained)
                        && (k.timeout.Some? ==> Settled(cron, k.timeout.value))
  }

  ghost predicate SystemInv(s: System) {
    && Inv(s.cron)
    && (forall q :: q in s.queries ==> QueryInv(s.cron, q, s.queries[q]))
    && (forall q, r :: q in s.queries && r in s.queries && q != r && s.queries[q].timeout.Some? ==>
          s.queries[q].timeout != s.queries[r].timeout)
  }

  /** A settled task is not in its callback and will not be. */
  lemma SettledIsQuiet(cron: State, t: Handle)
    requires Inv(cron) && Settled(cron, t)
    ensures cron.pc != Calling(t)
  {
    assert Consistent(cron.tasks[t], ViewOf(cron, t));
  }

  /** What a query needs of the scheduler survives steps that are not its own. */
  lemma ForeignStep(cron: State, a: Action, q: QueryId, k: Query)
    requires Inv(cron) && Enabled(cron, a) && QueryInv(cron, q, k)
    requires a.Abort? || a.FreeAborted? || a.GiveUp? ==> a.client != q
    ensures QueryInv(Apply(cron, a), q, k)
  {
    if k.timeout.Some? { StepLater(cron, a, k.timeout.value); }
    hide Inv;
    assert q in Apply(cron, a).clients <==> q in cron.clients;
    assert q in cron.clients ==> Apply(cron, a).clients[q] == cron.clients[q];
    hide Apply, Enabled;
  }

  /** An abort that ended settled its task. */
  lemma AbortEndSettles(s: System, q: QueryId, t: Handle)
    requires Inv(s.cron) && Inside(s.cron, q, t) && Enabled(s.cron, AbortEnd(s, q))
    ensures Settled(Apply(s.cron, AbortEnd(s, q)), t) && q !in Apply(s.cron, AbortEnd(s, q)).clients
  {
    hide Inv;
  }

  /** The scheduler's part of an event. */
  function CronPart(s: System, e: Event): Option<Action>
    requires MayHappen(s, e)
  {
    match e
    case Arm(_, now, ms) => Some(Add(now, ms))
    case AbortTimeout(q) =>
      if s.queries[q].timeout.Some? then Some(Abort(q, s.queries[q].timeout.value)) else None
    case ReturnFromAbort(q) => Some(AbortEnd(s, q))
    case Other(a) => Some(a)
    case _ => None
  }

  lemma CronPartKept(s: System, e: Event)
    requires MayHappen(s, e)
    ensures CronPart(s, e).Some? ==> Enabled(s.cron, CronPart(s, e).value)
    ensures Happen(s, e).cron == if CronPart(s, e).Some? then Apply(s.cron, CronPart(s, e).value) else s.cron
  {
    hide Enabled, Apply;
  }

  lemma CronKept(s: System, e: Event)
    requires SystemInv(s) && MayHappen(s, e)
    ensures Inv(Happen(s, e).cron)
  {
    hide Inv, Happen;
    CronPartKept(s, e);
    if CronPart(s, e).Some? { InvKept(s.cron, CronPart(s, e).value); }
  }

  lemma OthersUntouched(s: System, e: Event, q: QueryId)
    requires SystemInv(s) && MayHappen(s, e) && q in s.queries && (e.Other? || e.query != q)
    ensures q in Happen(s, e).queries && Happen(s, e).queries[q] == s.queries[q]
    ensures QueryInv(Happen(s, e).cron, q, s.queries[q])
  {
    CronPartKept(s, e);
    assert CronPart(s, e).Some? ==>
      var a := CronPart(s, e).value; a.Abort? || a.FreeAborted? || a.GiveUp? ==> a.client != q;
    assert QueryInv(s.cron, q, s.queries[q]);
    assert q in Happen(s, e).queries && Happen(s, e).queries[q] == s.queries[q];
    hide Inv, Enabled, Apply, QueryInv, Happen;
    if CronPart(s, e).Some? { ForeignStep(s.cron, CronPart(s, e).value, q, s.queries[q]); }
  }

  lemma ArmKeeps(s: System, e: Event)
    requires SystemInv(s) && MayHappen(s, e) && e.Arm?
    ensures e.query in Happen(s, e).queries && QueryInv(Happen(s, e).cron, e.query, Happen(s, e).queries[e.query])
  {
    assert QueryInv(s.cron, e.query, s.queries[e.query]);
    hide Inv;
  }

  lemma AbortKeeps(s: System, e: Event)
    requires SystemInv(s) && MayHappen(s, e) && e.AbortTimeout?
    ensures e.query in Happen(s, e).queries && QueryInv(Happen(s, e).cron, e.query, Happen(s, e).queries[e.query])
  {
    assert QueryInv(s.cron, e.query, s.queries[e.query]);
    hide Inv;
  }

  lemma ReturnKeeps(s: System, e: Event)
    requires SystemInv(s) && MayHappen(s, e) && e.ReturnFromAbort?
    ensures e.query in Happen(s, e).queries && QueryInv(Happen(s, e).cron, e.query, Happen(s, e).queries[e.query])
  {
    var q := e.query;
    assert QueryInv(s.cron, q, s.queries[q]);
    AbortEndSettles(s, q, s.queries[q].timeout.value);
    hide Inv, Enabled, Apply;
  }

  /** The callback of a task finds its query before the verdict. */
  lemma DrainBeforeVerdict(s: System, q: QueryId)
    requires SystemInv(s) && MayHappen(s, Drain(q))
    ensures var k := s.queries[q];
      (k.step == Executing || k.step == Aborting) && k.hasPlan && k.frees == 0 && k.verdict.None?
  {
    var k := s.queries[q];
    assert QueryInv(s.cron, q, k);
    if Settled(s.cron, k.timeout.value) { SettledIsQuiet(s.cron, k.timeout.value); }
    hide Inv;
  }

  lemma SubjectKeeps(s: System, e: Event)
    requires SystemInv(s) && MayHappen(s, e) && !e.Other?
    ensures e.query in Happen(s, e).queries && QueryInv(Happen(s, e).cron, e.query, Happen(s, e).queries[e.query])
  {
    if e.Arm? { ArmKeeps(s, e); }
    else if e.AbortTimeout? { AbortKeeps(s, e); }
    else if e.ReturnFromAbort? { ReturnKeeps(s, e); }
    else {
      if e.Drain? { DrainBeforeVerdict(s, e.query); }
      else if !e.Arrive? { assert QueryInv(s.cron, e.query, s.queries[e.query]); }
      hide Inv, Apply, Enabled;
    }
  }

  lemma TimeoutSet(s: System, e: Event, q: QueryId)
    requires MayHappen(s, e) && q in Happen(s, e).queries
    ensures Happen(s, e).queries[q].timeout ==
      if e.Arm? && e.query == q then Some(s.cron.next) else if q in s.queries then s.queries[q].timeout else None
  {
    hide Apply, Enabled, Foreign;
  }

  lemma TimeoutsDiffer(s: System, e: Event, q: QueryId, r: QueryId)
    requires SystemInv(s) && MayHappen(s, e) && q in Happen(s, e).queries && r in Happen(s, e).queries && q != r
    requires Happen(s, e).queries[q].timeout.Some?
    ensures Happen(s, e).queries[q].timeout != Happen(s, e).queries[r].timeout
  {
    TimeoutSet(s, e, q);
    TimeoutSet(s, e, r);
    hide Happen, MayHappen;
    assert q in s.queries ==> QueryInv(s.cron, q, s.queries[q]);
    assert r in s.queries ==> QueryInv(s.cron, r, s.queries[r]);
    assert s.cron.next !in s.cron.tasks;
  }

  lemma SystemKept(s: System, e: Event)
    requires SystemInv(s) && MayHappen(s, e)
    ensures SystemInv(Happen(s, e))
  {
    CronKept(s, e);
    var s' := Happen(s, e);
    forall q | q in s'.queries
      ensures QueryInv(s'.cron, q, s'.queries[q])
    {
      if !e.Other? && e.query == q { SubjectKeeps(s, e); }
      else { assert q in s.queries; OthersUntouched(s, e, q); }
    }
    forall q, r | q in s'.queries && r in s'.queries && q != r && s'.queries[q].timeout.Some?
      ensures s'.queries[q].timeout != s'.queries[r].timeout
    {
      TimeoutsDiffer(s, e, q, r);
    }
    hide Inv, QueryInv, Happen, MayHappen;
  }

  lemma {:induction false} HistoryInv(events: seq<Event>)
    requires History(events).Some?
    ensures SystemInv(History(events).value)
  {
    if events == [] {
      StartInv();
    } else {
      var k := |events| - 1;
      HistoryInv(events[..k]);
      hide SystemInv, MayHappen, Happen;
      SystemKept(History(events[..k]).value, events[k]);
    }
  }

  // ---------------------------------------------------------------------------
  // Safety of all histories
  // ---------------------------------------------------------------------------

  /** Whenever a timeout callback may touch a plan, the plan has not been freed. */
  lemma CallbackFindsPlan(events: seq<Event>, q: QueryId)
    requires History(events).Some? && q in History(events).value.queries
    requires var s := History(events).value; s.cron.pc.Calling? && s.queries[q].timeout == Some(s.cron.pc.task)
    ensures var k := History(events).value.queries[q]; k.hasPlan && k.frees == 0
  {
    HistoryInv(events);
    DrainBeforeVerdict(History(events).value, q);
  }

  /** A plan is freed at most once, and exactly once by the time its query finished. */
  lemma PlanFreedOnce(events: seq<Event>, q: QueryId)
    requires History(events).Some? && q in History(events).value.queries
    ensures var k := History(events).value.queries[q];
      k.frees <= One(k.had) && (k.step == Finished ==> k.frees == One(k.had))
  {
    HistoryInv(events);
    var s := History(events).value;
    assert QueryInv(s.cron, q, s.queries[q]);
  }

  lemma VerdictStep(s: System, e: Event, q: QueryId)
    requires SystemInv(s) && MayHappen(s, e) && q in s.queries && s.queries[q].verdict.Some?
    ensures q in Happen(s, e).queries && Happen(s, e).queries[q].verdict == s.queries[q].verdict
  {
    assert QueryInv(s.cron, q, s.queries[q]);
    hide Inv, Apply, Enabled;
  }

  /** The verdict read after the abort is what the plan says ever after. */
  lemma {:induction false} VerdictStable(events: seq<Event>, more: seq<Event>, q: QueryId)
    requires History(events + more).Some? && History(events).Some? && q in History(events).value.queries
    requires History(events).value.queries[q].verdict.Some?
    ensures var k, s' := History(events).value.queries[q], History(events + more).value;
      q in s'.queries && s'.queries[q].verdict == k.verdict && s'.queries[q].drained == k.verdict.value
    decreases |more|
  {
    if more == [] {
      assert events + more == events;
    } else {
      var k := |more| - 1;
      assert (events + more)[..|events| + k] == events + more[..k];
      VerdictStable(events, more[..k], q);
      HistoryInv(events + more[..k]);
      VerdictStep(History(events + more[..k]).value, more[k], q);
    }
    HistoryInv(events + more);
    var s' := History(events + more).value;
    assert QueryInv(s'.cron, q, s'.queries[q]);
  }

  /** A query thread can always go on, except inside an abort whose task is running. */
  lemma QueryNotBlocked(events: seq<Event>, q: QueryId)
    requires History(events).Some? && q in History(events).value.queries
    ensures var s := History(events).value; var k := s.queries[q];
      && (k.step == Executing && k.hasPlan ==> MayHappen(s, AbortTimeout(q)))
      && (k.step == Executing && !k.hasPlan ==> MayHappen(s, IndexOperation(q)))
      && (k.step == Aborting ==>
            k.timeout.Some? && (MayHappen(s, ReturnFromAbort(q)) || s.cron.current == k.timeout))
  {
    HistoryInv(events);
    var s := History(events).value;
    hide History;
    assert QueryInv(s.cron, q, s.queries[q]);
    hide TaskInv, PcInv;
    if s.queries[q].step == Aborting {
      var t := s.queries[q].timeout.value;
      assert RemovedBy(s.cron, q, t) || WaitingBy(s.cron, q, t);
    }
  }
}
