/** What every run of the scheduler keeps. */
module CronSafety {
  import opened Options
  import opened CronTime
  import opened Cron

  predicate InHeap(s: State, t: Handle) { t in s.heap }

  /** Taken by the cron thread and not freed yet. */
  predicate Running(s: State, t: Handle) { StageOf(s.pc, t) != NotHeld }

  predicate Finished(s: State, t: Handle)
    requires t in s.tasks
  {
    s.tasks[t].claims > 0 && s.tasks[t].ends > 0 && !Running(s, t)
  }

  predicate Aborted(s: State, t: Handle)
    requires t in s.tasks
  {
    s.tasks[t].aborts > 0
  }

  predicate Cleared(s: State, t: Handle)
    requires t in s.tasks
  {
    s.tasks[t].clears > 0
  }

  /** The callback is being called or about to be. */
  predicate InCallback(s: State, t: Handle) { StageOf(s.pc, t).ToCall? || StageOf(s.pc, t).InCall? }

  /** Every task is in exactly one place. */
  lemma OnePlace(run: seq<Action>, t: Handle)
    requires Run(run).Some? && t in Run(run).value.tasks
    ensures var s := Run(run).value;
      One(InHeap(s, t)) + One(Running(s, t)) + One(Finished(s, t)) + One(Aborted(s, t)) + One(Cleared(s, t)) == 1
  {
    RunInv(run);
    hide Run;
    assert Consistent(Run(run).value.tasks[t], ViewOf(Run(run).value, t));
  }

  /** A callback is called at most once, and only by the cron thread that took the task. */
  lemma CalledAtMostOnce(run: seq<Action>, t: Handle)
    requires Run(run).Some? && t in Run(run).value.tasks
    ensures var s := Run(run).value; var k := s.tasks[t];
      && k.ends <= k.starts <= 1
      && (k.starts == 1 && k.ends == 0 <==> s.pc == Calling(t))
      && (k.starts == 1 ==> Running(s, t) || Finished(s, t))
  {
    RunInv(run);
    hide Run;
    assert Consistent(Run(run).value.tasks[t], ViewOf(Run(run).value, t));
  }

  /** A task is freed at most once, never while it waits or runs, and as soon as no thread
      has to do with it any more it is freed. */
  lemma FreedOnce(run: seq<Action>, t: Handle)
    requires Run(run).Some? && t in Run(run).value.tasks
    ensures var s := Run(run).value;
      && s.tasks[t].frees <= 1
      && (s.tasks[t].frees == 0 <==>
            InHeap(s, t) || Running(s, t) || (exists c :: RemovedBy(s, c, t)) || s.polled == Some(t))
  {
    RunInv(run);
    hide Run;
    assert Consistent(Run(run).value.tasks[t], ViewOf(Run(run).value, t));
  }

  /** The step the cron thread is about to take. */
  function NextStep(pc: Pc): Option<Action> {
    match pc
    case Due(_, _) => Some(Take)
    case Perform(_, _) => Some(Begin)
    case Calling(_) => Some(End)
    case Called(_) => Some(ClearCurrent)
    case Freeing(_) => Some(Free)
    case Asleep => Some(Wake)
    case _ => None
  }

  /** Until it has exited the cron thread has a step, whatever the clock shows; after that the
      stopping thread can poll the rest of the heap, and free what it polled. */
  ghost predicate CanGoOn(s: State, now: Timespec) {
    && (s.pc.Looking? ==> exists peeked :: Enabled(s, Look(peeked, now)))
    && (!s.pc.Looking? && !s.pc.Exited? ==> NextStep(s.pc).Some? && Enabled(s, NextStep(s.pc).value))
    && (s.pc.Exited? && s.polled.None? && s.heap != {} ==> exists t :: Enabled(s, Poll(t)))
    && (s.polled.Some? ==> Enabled(s, FreePolled))
  }

  lemma NextStepEnabled(s: State)
    requires s.pc.Due? || s.pc.Perform? || s.pc.Calling? || s.pc.Called? || s.pc.Freeing? ==> s.pc.task in s.tasks
    ensures !s.pc.Looking? && !s.pc.Exited? ==> NextStep(s.pc).Some? && Enabled(s, NextStep(s.pc).value)
  {
  }

  lemma PeekEnabled(s: State, now: Timespec)
    requires s.heap <= s.tasks.Keys
    ensures s.pc.Looking? ==> exists peeked :: Enabled(s, Look(peeked, now))
    ensures s.pc.Exited? && s.polled.None? && s.heap != {} ==> exists t :: Enabled(s, Poll(t))
  {
    if s.heap == {} {
      assert s.pc.Looking? ==> Enabled(s, Look(None, now));
    } else {
      var t :| t in s.heap;
      assert s.pc.Looking? ==> Enabled(s, Look(Some(t), now));
      assert s.pc.Exited? && s.polled.None? ==> Enabled(s, Poll(t));
    }
  }

  /** What the cron thread and the stopping thread are about to do is always possible. */
  lemma CronNotBlocked(run: seq<Action>, now: Timespec)
    requires Run(run).Some?
    ensures CanGoOn(Run(run).value, now)
  {
    RunInv(run);
    var s := Run(run).value;
    hide Run, PcInv, TaskInv, ClientInv, NextStep;
    PcTask(s);
    NextStepEnabled(s);
    PeekEnabled(s, now);
  }

  /** An abort can always go on, except that it waits exactly while its task is current. */
  lemma AbortBlockedWhileCurrent(run: seq<Action>, c: Client)
    requires Run(run).Some? && c in Run(run).value.clients
    ensures var s := Run(run).value; var t := s.clients[c].task;
      Enabled(s, FreeAborted(c)) || Enabled(s, GiveUp(c)) || (s.clients[c].Waiting? && s.current == Some(t))
  {
    RunInv(run);
    hide Run, TaskInv, PcInv;
    var s := Run(run).value;
    assert RemovedBy(s, c, s.clients[c].task) || WaitingBy(s, c, s.clients[c].task);
  }

  // ---------------------------------------------------------------------------
  // Aborting
  // ---------------------------------------------------------------------------

  /** What has happened to a task stays so. */
  predicate Later(k: Task, k': Task) {
    && k'.due == k.due && k.starts <= k'.starts
    && k.claims <= k'.claims && k.aborts <= k'.aborts && k.clears <= k'.clears
    && (k.aborted ==> k'.aborted) && (k.missed ==> k'.missed)
  }

  lemma StepLater(s: State, a: Action, t: Handle)
    requires Inv(s) && Enabled(s, a) && t in s.tasks
    ensures t in Apply(s, a).tasks && Later(s.tasks[t], Apply(s, a).tasks[t])
  {
    hide TaskInv, ClientInv, Compare, DueIn;
  }

  /** A run goes on by one step exactly when that step is possible. */
  lemma RunStep(run: seq<Action>, a: Action)
    ensures Run(run + [a]) == if Run(run).Some? && Enabled(Run(run).value, a)
                              then Some(Apply(Run(run).value, a)) else None
  {
    hide Enabled, Apply;
    assert (run + [a])[..|run|] == run;
  }

  lemma {:induction false} RunLater(run: seq<Action>, more: seq<Action>, t: Handle)
    requires Run(run + more).Some?
    ensures Run(run).Some?
    ensures t in Run(run).value.tasks ==>
      t in Run(run + more).value.tasks && Later(Run(run).value.tasks[t], Run(run + more).value.tasks[t])
    decreases |more|
  {
    if more == [] {
      assert run + more == run;
    } else {
      var k := |more| - 1;
      assert run + more == (run + more[..k]) + [more[k]];
      RunStep(run + more[..k], more[k]);
      hide Run, Inv, Enabled, Apply;
      RunLater(run, more[..k], t);
      RunInv(run + more[..k]);
      if t in Run(run).value.tasks { StepLater(Run(run + more[..k]).value, more[k], t); }
    }
  }

  /** After an abort returned true the callback never runs. */
  lemma AbortedNeverRuns(run: seq<Action>, more: seq<Action>, t: Handle)
    requires Run(run + more).Some? && Run(run).Some? && t in Run(run).value.tasks && Run(run).value.tasks[t].aborted
    ensures var s := Run(run + more).value; t in s.tasks && s.tasks[t].starts == 0 && !InCallback(s, t)
  {
    RunLater(run, more, t);
    RunInv(run + more);
    hide Run;
    var s := Run(run + more).value;
    assert Consistent(s.tasks[t], ViewOf(s, t));
  }

  /** After an abort returned false the callback is not running, and is not called again. */
  lemma MissedNotRunning(run: seq<Action>, more: seq<Action>, t: Handle)
    requires Run(run + more).Some? && Run(run).Some? && t in Run(run).value.tasks && Run(run).value.tasks[t].missed
    ensures var s, s' := Run(run).value, Run(run + more).value;
      t in s'.tasks && !InCallback(s', t) && s'.tasks[t].starts == s.tasks[t].starts == s'.tasks[t].ends
  {
    RunLater(run, more, t);
    RunInv(run);
    RunInv(run + more);
    var s, s' := Run(run).value, Run(run + more).value;
    assert Consistent(s.tasks[t], ViewOf(s, t));
    assert Consistent(s'.tasks[t], ViewOf(s', t));
    hide *;
    MissedSettled(s.tasks[t], ViewOf(s, t), s'.tasks[t], ViewOf(s', t));
    StageSeen(s', t);
  }

  lemma StageSeen(s: State, t: Handle)
    ensures InCallback(s, t) == (ViewOf(s, t).stage.ToCall? || ViewOf(s, t).stage.InCall?)
  {
  }

  lemma MissedSettled(k: Task, v: View, k': Task, v': View)
    requires Consistent(k, v) && Consistent(k', v') && Later(k, k') && k.missed
    ensures k'.starts == k.starts == k'.ends && !v'.stage.ToCall? && !v'.stage.InCall?
  {
    hide Compare;
  }

  // ---------------------------------------------------------------------------
  // Due times
  // ---------------------------------------------------------------------------

  const MAX_MS := 0x1_0000_0000                  // delays are unsigned ints
  const MAX_DELAY := MAX_MS / 1000 + 1           // seconds
  const WINDOW := INT_HALF - MAX_DELAY

  /** The clock stays within some 68 years. It may go back. */
  predicate ClockWithin(a: Action, base: int) {
    && (a.Look? || a.Add? ==> Valid(a.now) && base <= a.now.sec < base + WINDOW)
    && (a.Add? ==> a.ms < MAX_MS)
  }

  predicate TimeInv(s: State, base: int) {
    && (forall t :: t in s.tasks ==> Valid(s.tasks[t].due) && base <= s.tasks[t].due.sec < base + WINDOW + MAX_DELAY)
    && (forall t :: t in s.tasks ==> Valid(s.tasks[t].startedAt) && base <= s.tasks[t].startedAt.sec < base + WINDOW)
    && (s.pc.Due? || s.pc.Perform? ==> Valid(s.pc.now) && base <= s.pc.now.sec < base + WINDOW)
  }

  /** A step gives a task a due time when it adds it, and a starting time when it calls it. */
  lemma TimesSet(s: State, a: Action, t: Handle)
    requires Enabled(s, a) && t in Apply(s, a).tasks
    ensures var k' := Apply(s, a).tasks[t];
      || (a.Add? && t == s.next && k'.due == DueIn(a.now, a.ms) && k'.startedAt == a.now)
      || (&& t in s.tasks && k'.due == s.tasks[t].due
          && (k'.startedAt == s.tasks[t].startedAt || (s.pc.Perform? && k'.startedAt == s.pc.now)))
  {
    hide Compare, DueIn;
  }

  lemma ReadingKept(s: State, a: Action)
    requires Enabled(s, a)
    ensures var pc' := Apply(s, a).pc;
      pc'.Due? || pc'.Perform? ==>
        (a.Look? && pc'.now == a.now) || ((s.pc.Due? || s.pc.Perform?) && pc'.now == s.pc.now)
  {
    hide Compare, DueIn;
  }

  lemma TimeKept(s: State, a: Action, base: int)
    requires Enabled(s, a) && TimeInv(s, base) && ClockWithin(a, base)
    ensures TimeInv(Apply(s, a), base)
  {
    if a.Add? { DueInExact(a.now, a.ms); }
    ReadingKept(s, a);
    forall t | t in Apply(s, a).tasks
      ensures Valid(Apply(s, a).tasks[t].due) && base <= Apply(s, a).tasks[t].due.sec < base + WINDOW + MAX_DELAY
      ensures Valid(Apply(s, a).tasks[t].startedAt) && base <= Apply(s, a).tasks[t].startedAt.sec < base + WINDOW
    {
      TimesSet(s, a, t);
      hide Apply, Enabled, DueIn;
    }
    hide Apply, Enabled, DueIn;
  }

  lemma {:induction false} RunTime(run: seq<Action>, base: int)
    requires Run(run).Some? && forall i :: 0 <= i < |run| ==> ClockWithin(run[i], base)
    ensures TimeInv(Run(run).value, base)
  {
    if run != [] {
      var k := |run| - 1;
      RunTime(run[..k], base);
      TimeKept(Run(run[..k]).value, run[k], base);
    }
  }

  ghost predicate ReadingsValid(s: State) {
    && (forall t :: t in s.tasks ==> Valid(s.tasks[t].due) && Valid(s.tasks[t].startedAt))
    && (s.pc.Due? || s.pc.Perform? ==> Valid(s.pc.now))
  }

  lemma {:induction false} RunReadings(run: seq<Action>)
    requires Run(run).Some? && forall i :: 0 <= i < |run| && (run[i].Look? || run[i].Add?) ==> Valid(run[i].now)
    ensures ReadingsValid(Run(run).value)
  {
    if run != [] {
      var k := |run| - 1;
      var s, a := Run(run[..k]).value, run[k];
      RunReadings(run[..k]);
      ReadingKept(s, a);
      if a.Add? { DueInExact(a.now, a.ms); }
      forall t | t in Apply(s, a).tasks
        ensures Valid(Apply(s, a).tasks[t].due) && Valid(Apply(s, a).tasks[t].startedAt)
      {
        TimesSet(s, a, t);
        hide Apply, Enabled, DueIn;
      }
      hide Apply, Enabled, DueIn;
    }
  }

  /** Whatever the clock shows, a callback is called before its due time exactly when the
      reading is so far before it that the difference wraps around. */
  lemma EarlyExactly(run: seq<Action>, t: Handle)
    requires Run(run).Some? && forall i :: 0 <= i < |run| && (run[i].Look? || run[i].Add?) ==> Valid(run[i].now)
    requires t in Run(run).value.tasks && Run(run).value.tasks[t].starts > 0
    ensures var k := Run(run).value.tasks[t]; var d := k.startedAt.sec - k.due.sec;
      Nanos(k.startedAt) < Nanos(k.due) <==> d < 0 && d % INT_RANGE < INT_HALF
  {
    RunInv(run);
    RunReadings(run);
    hide Run;
    var s := Run(run).value;
    assert Consistent(s.tasks[t], ViewOf(s, t));
    hide Inv, Nanos, Compare;
    var k := s.tasks[t];
    CompareExact(k.startedAt, k.due);
    if k.startedAt.sec == k.due.sec { CompareSameSecond(k.startedAt, k.due); }
    SecondsDecide(k.startedAt, k.due);
  }

  /** A task added at second 2^31 + 1, with the clock then set back to 0, is called early. */
  lemma CalledEarly()
    ensures var run := [Wake, Add(Timespec(INT_HALF + 1, 0), 0), Look(Some(0), Timespec(0, 0)), Take, Begin];
      && Run(run).Some? && 0 in Run(run).value.tasks
      && var k := Run(run).value.tasks[0]; k.starts == 1 && Nanos(k.startedAt) < Nanos(k.due)
  {
    var a1, a2 := Add(Timespec(INT_HALF + 1, 0), 0), Look(Some(0), Timespec(0, 0));
    var run := [Wake, a1, a2, Take, Begin];
    var s1 := Apply(Start, Wake);
    var s2 := Apply(s1, a1);
    assert s2.tasks[0].due == Timespec(INT_HALF + 1, 0);
    assert Compare(Timespec(0, 0), s2.tasks[0].due) >= 0;
    var s3 := Apply(s2, a2);
    var s4 := Apply(s3, Take);
    RunStep([], Wake);
    RunStep([Wake], a1);
    RunStep([Wake, a1], a2);
    RunStep([Wake, a1, a2], Take);
    RunStep([Wake, a1, a2, Take], Begin);
    hide Run;
    assert [] + [Wake] == [Wake] && [Wake] + [a1] == [Wake, a1] && [Wake, a1] + [a2] == [Wake, a1, a2];
    assert [Wake, a1, a2] + [Take] == [Wake, a1, a2, Take] && [Wake, a1, a2, Take] + [Begin] == run;
    assert Run(run) == Some(Apply(s4, Begin));
  }

  /** A callback is called only after the clock was seen at or past its due time. */
  lemma NeverBeforeDue(run: seq<Action>, base: int, t: Handle)
    requires Run(run).Some? && forall i :: 0 <= i < |run| ==> ClockWithin(run[i], base)
    requires t in Run(run).value.tasks && Run(run).value.tasks[t].starts > 0
    ensures var k := Run(run).value.tasks[t]; Nanos(k.startedAt) >= Nanos(k.due)
  {
    RunInv(run);
    RunTime(run, base);
    hide Run;
    var s := Run(run).value;
    assert Consistent(s.tasks[t], ViewOf(s, t));
    CompareNear(s.tasks[t].startedAt, s.tasks[t].due);
  }

  /** A task added with a delay is due exactly that much later. */
  lemma AddedDueExact(run: seq<Action>, more: seq<Action>, now: Timespec, ms: nat)
    requires Valid(now) && Run(run).Some? && Run(run + [Add(now, ms)] + more).Some?
    ensures var t, s := Run(run).value.next, Run(run + [Add(now, ms)] + more).value;
      t in s.tasks && Nanos(s.tasks[t].due) == Nanos(now) + ms * 1_000_000
  {
    var added := run + [Add(now, ms)];
    RunLater(added, more, Run(run).value.next);
    assert added[..|added| - 1] == run;
    DueInExact(now, ms);
  }
}
