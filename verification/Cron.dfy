/** The task scheduler: one cron thread and any number of threads that add and abort
    tasks, as atomic steps in every interleaving. A task is named by a handle that is
    never used again. */
module Cron {
  import opened Options
  import opened CronTime

  type Handle = nat
  type Client = nat

  /** A task with what has happened to it so far. */
  datatype Task = Task(
    due: Timespec,
    claims: nat,            // taken from the heap by the cron thread
    aborts: nat,            // taken from the heap by an abort
    clears: nat,            // taken from the heap when the scheduler stopped
    starts: nat,            // calls of its callback
    ends: nat,              // returns of its callback
    frees: nat,
    startedAt: Timespec,    // clock reading that found it due, once started
    aborted: bool,          // some abort returned true
    missed: bool)           // some abort returned false

  /** Where the cron thread stands. */
  datatype Pc =
    | Looking                              // about to peek
    | Due(task: Handle, now: Timespec)     // peeked at a due task, about to take it
    | Perform(task: Handle, now: Timespec) // took it, about to call
    | Calling(task: Handle)                // in the callback
    | Called(task: Handle)                 // about to clear the current task
    | Freeing(task: Handle)                // about to free
    | Asleep                               // about to test whether to go on
    | Exited

  /** Threads inside an abort. */
  datatype Call = Removed(task: Handle) | Waiting(task: Handle)

  datatype State = State(
    alive: bool,
    heap: set<Handle>,
    current: Option<Handle>,
    pc: Pc,
    clients: map<Client, Call>,
    polled: Option<Handle>,   // task polled by the stopping thread, to be freed
    tasks: map<Handle, Task>,
    next: Handle)

  const Start := State(true, {}, None, Asleep, map[], None, map[], 0)

  datatype Action =
    | Look(peeked: Option<Handle>, now: Timespec)
    | Take
    | Begin
    | End
    | ClearCurrent
    | Free
    | Wake
    | Add(now: Timespec, ms: nat)
    | Abort(client: Client, task: Handle)
    | FreeAborted(client: Client)
    | GiveUp(client: Client)
    | Stop
    | Poll(task: Handle)
    | FreePolled

  /** The task may be at the root of the heap. Where differences of due times wrap around,
      the comparison can be cyclic, so any task may be. */
  predicate MayBeFirst(s: State, t: Handle) { t in s.heap && t in s.tasks }

  predicate Enabled(s: State, a: Action) {
    match a
    case Look(None, now) => s.pc.Looking? && s.heap == {}
    case Look(Some(t), now) => s.pc.Looking? && MayBeFirst(s, t)
    case Take => s.pc.Due?
    case Begin => s.pc.Perform? && s.pc.task in s.tasks
    case End => s.pc.Calling? && s.pc.task in s.tasks
    case ClearCurrent => s.pc.Called?
    case Free => s.pc.Freeing? && s.pc.task in s.tasks
    case Wake => s.pc.Asleep?
    case Add(_, _) => true
    case Abort(c, t) => c !in s.clients && t in s.tasks
    case FreeAborted(c) => c in s.clients && s.clients[c].Removed? && s.clients[c].task in s.tasks
    case GiveUp(c) =>
      c in s.clients && s.clients[c].Waiting? && s.clients[c].task in s.tasks && s.current != Some(s.clients[c].task)
    case Stop => s.alive
    case Poll(t) => s.pc.Exited? && s.polled.None? && MayBeFirst(s, t)
    case FreePolled => s.polled.Some? && s.polled.value in s.tasks
  }

  function Apply(s: State, a: Action): State
    requires Enabled(s, a)
  {
    match a
    case Look(peeked, now) =>
      if peeked.Some? && Compare(now, s.tasks[peeked.value].due) >= 0 then s.(pc := Due(peeked.value, now))
      else s.(pc := Asleep)
    case Take =>
      var t := s.pc.task;
      if t in s.heap && t in s.tasks then
        s.(heap := s.heap - {t}, current := Some(t), pc := Perform(t, s.pc.now),
           tasks := s.tasks[t := s.tasks[t].(claims := s.tasks[t].claims + 1)])
      else s.(current := None, pc := Looking)
    case Begin =>
      var t := s.pc.task;
      s.(pc := Calling(t),
         tasks := s.tasks[t := s.tasks[t].(starts := s.tasks[t].starts + 1, startedAt := s.pc.now)])
    case End =>
      var t := s.pc.task;
      s.(pc := Called(t), tasks := s.tasks[t := s.tasks[t].(ends := s.tasks[t].ends + 1)])
    case ClearCurrent => s.(current := None, pc := Freeing(s.pc.task))
    case Free => s.(pc := Looking, tasks := Freed(s.tasks, s.pc.task))
    case Wake => s.(pc := if s.alive then Looking else Exited)
    case Add(now, ms) =>
      s.(heap := s.heap + {s.next}, next := s.next + 1,
         tasks := s.tasks[s.next := Task(DueIn(now, ms), 0, 0, 0, 0, 0, 0, now, false, false)])
    case Abort(c, t) =>
      if t in s.heap then
        s.(heap := s.heap - {t}, clients := s.clients[c := Removed(t)],
           tasks := s.tasks[t := s.tasks[t].(aborts := s.tasks[t].aborts + 1)])
      else s.(clients := s.clients[c := Waiting(t)])
    case FreeAborted(c) =>
      var t := s.clients[c].task;
      var tasks := Freed(s.tasks, t);
      s.(clients := s.clients - {c}, tasks := tasks[t := tasks[t].(aborted := true)])
    case GiveUp(c) =>
      var t := s.clients[c].task;
      s.(clients := s.clients - {c}, tasks := s.tasks[t := s.tasks[t].(missed := true)])
    case Stop => s.(alive := false)
    case Poll(t) =>
      s.(heap := s.heap - {t}, polled := Some(t),
         tasks := s.tasks[t := s.tasks[t].(clears := s.tasks[t].clears + 1)])
    case FreePolled => s.(polled := None, tasks := Freed(s.tasks, s.polled.value))
  }

  function Freed(tasks: map<Handle, Task>, t: Handle): map<Handle, Task>
    requires t in tasks
  {
    tasks[t := tasks[t].(frees := tasks[t].frees + 1)]
  }

  /** The state after a run, if every step of it was possible. */
  function Run(run: seq<Action>): Option<State> {
    if run == [] then Some(Start)
    else
      var before := Run(run[..|run| - 1]);
      if before.Some? && Enabled(before.value, run[|run| - 1]) then Some(Apply(before.value, run[|run| - 1]))
      else None
  }

  // ---------------------------------------------------------------------------
  // Invariant
  // ---------------------------------------------------------------------------

  /** How far the cron thread has come with a task it took. */
  datatype Stage = NotHeld | ToCall | InCall | ToClear | ToFree

  function StageOf(pc: Pc, t: Handle): Stage {
    match pc
    case Perform(u, _) => if u == t then ToCall else NotHeld
    case Calling(u) => if u == t then InCall else NotHeld
    case Called(u) => if u == t then ToClear else NotHeld
    case Freeing(u) => if u == t then ToFree else NotHeld
    case _ => NotHeld
  }

  predicate RemovedBy(s: State, c: Client, t: Handle) { c in s.clients && s.clients[c] == Removed(t) }

  predicate WaitingBy(s: State, c: Client, t: Handle) { c in s.clients && s.clients[c] == Waiting(t) }

  /** What the threads have to do with a task at the moment. */
  datatype View = View(inHeap: bool, stage: Stage, removed: bool, polled: bool)

  ghost function ViewOf(s: State, t: Handle): View {
    View(t in s.heap, StageOf(s.pc, t), exists c :: RemovedBy(s, c, t), s.polled == Some(t))
  }

  /** The history of a task agrees with what the threads have to do with it. */
  predicate Consistent(k: Task, v: View) {
    && One(v.inHeap) + k.claims + k.aborts + k.clears == 1
    && (v.stage != NotHeld ==> k.claims == 1)
    && (v.removed ==> k.aborts == 1)
    && (v.polled ==> k.clears == 1)
    && k.starts == One(k.claims == 1 && v.stage != ToCall)
    && k.ends == One(k.claims == 1 && v.stage != ToCall && v.stage != InCall)
    && k.frees == One((k.claims == 1 && v.stage == NotHeld)
                   || (k.aborts == 1 && !v.removed)
                   || (k.clears == 1 && !v.polled))
    && (k.aborted ==> k.aborts == 1)
    && (k.missed ==> !v.inHeap && (v.stage == NotHeld || v.stage == ToFree))
    && (k.starts > 0 ==> Compare(k.startedAt, k.due) >= 0)
  }

  predicate PcInv(s: State) {
    && s.current == (if s.pc.Perform? || s.pc.Calling? || s.pc.Called? then Some(s.pc.task) else None)
    && (!s.pc.Looking? && !s.pc.Asleep? && !s.pc.Exited? ==> s.pc.task in s.tasks)
    && (s.pc.Due? || s.pc.Perform? ==> Compare(s.pc.now, s.tasks[s.pc.task].due) >= 0)
  }

  ghost predicate ClientInv(s: State) {
    && (forall c, t :: RemovedBy(s, c, t) ==> t in s.tasks)
    && (forall c, c', t :: RemovedBy(s, c, t) && RemovedBy(s, c', t) ==> c == c')
    && (forall c, t :: WaitingBy(s, c, t) ==> t in s.tasks && t !in s.heap)
  }

  ghost predicate TaskInv(s: State) {
    forall t :: t in s.tasks ==> Consistent(s.tasks[t], ViewOf(s, t))
  }

  ghost predicate Inv(s: State) {
    && (forall t: Handle :: t in s.tasks <==> t < s.next)
    && s.heap <= s.tasks.Keys
    && (s.polled.Some? ==> s.polled.value in s.tasks)
    && PcInv(s) && ClientInv(s) && TaskInv(s)
  }

  /** The task a step is about, if any. */
  function Subject(s: State, a: Action): Option<Handle>
    requires Enabled(s, a)
  {
    match a
    case Look(_, _) => None
    case Wake => None
    case Stop => None
    case Add(_, _) => Some(s.next)
    case Abort(_, t) => Some(t)
    case FreeAborted(c) => Some(s.clients[c].task)
    case GiveUp(c) => Some(s.clients[c].task)
    case Poll(t) => Some(t)
    case FreePolled => s.polled
    case _ => Some(s.pc.task)
  }

  predicate ByClient(a: Action) { a.Add? || a.Abort? || a.FreeAborted? || a.GiveUp? }

  lemma ClientKeepsOthers(s: State, a: Action, t: Handle)
    requires Inv(s) && Enabled(s, a) && ByClient(a) && t in s.tasks && Subject(s, a) != Some(t)
    ensures t in Apply(s, a).tasks && Apply(s, a).tasks[t] == s.tasks[t]
    ensures ViewOf(Apply(s, a), t) == ViewOf(s, t)
  {
    hide TaskInv, ClientInv, Compare, DueIn;
    var s' := Apply(s, a);
    assert forall c :: RemovedBy(s', c, t) == RemovedBy(s, c, t);
  }

  lemma CronKeepsOthers(s: State, a: Action, t: Handle)
    requires Inv(s) && Enabled(s, a) && !ByClient(a) && t in s.tasks && Subject(s, a) != Some(t)
    ensures t in Apply(s, a).tasks && Apply(s, a).tasks[t] == s.tasks[t]
    ensures ViewOf(Apply(s, a), t) == ViewOf(s, t)
  {
    hide TaskInv, ClientInv, Compare, DueIn;
    SameRemovals(s, Apply(s, a), t);
  }

  /** A step leaves every other task, and what the threads have to do with it, as it was. */
  lemma OthersKept(s: State, a: Action, t: Handle)
    requires Inv(s) && Enabled(s, a) && t in s.tasks && Subject(s, a) != Some(t)
    ensures t in Apply(s, a).tasks && Apply(s, a).tasks[t] == s.tasks[t]
    ensures ViewOf(Apply(s, a), t) == ViewOf(s, t)
  {
    hide Inv, Enabled, Apply, ViewOf;
    if ByClient(a) { ClientKeepsOthers(s, a, t); } else { CronKeepsOthers(s, a, t); }
  }

  lemma SameRemovals(s: State, s': State, t: Handle)
    requires s'.clients == s.clients
    ensures (exists c :: RemovedBy(s', c, t)) == (exists c :: RemovedBy(s, c, t))
  {
    assert forall c :: RemovedBy(s', c, t) == RemovedBy(s, c, t);
  }

  lemma TakeSubject(s: State)
    requires Inv(s) && Enabled(s, Take)
    ensures var s', t := Apply(s, Take), s.pc.task; t in s'.tasks && Consistent(s'.tasks[t], ViewOf(s', t))
  {
    var t := s.pc.task;
    assert Consistent(s.tasks[t], ViewOf(s, t));
    SameRemovals(s, Apply(s, Take), t);
    hide TaskInv, ClientInv, Compare, DueIn;
  }

  lemma CallSubject(s: State, a: Action)
    requires Inv(s) && Enabled(s, a) && (a.Begin? || a.End?)
    ensures var s', t := Apply(s, a), s.pc.task; t in s'.tasks && Consistent(s'.tasks[t], ViewOf(s', t))
  {
    var t := s.pc.task;
    assert Consistent(s.tasks[t], ViewOf(s, t));
    SameRemovals(s, Apply(s, a), t);
    hide TaskInv, ClientInv, Compare, DueIn;
  }

  lemma FreeSubject(s: State, a: Action)
    requires Inv(s) && Enabled(s, a) && (a.ClearCurrent? || a.Free?)
    ensures var s', t := Apply(s, a), s.pc.task; t in s'.tasks && Consistent(s'.tasks[t], ViewOf(s', t))
  {
    var t := s.pc.task;
    assert Consistent(s.tasks[t], ViewOf(s, t));
    SameRemovals(s, Apply(s, a), t);
    hide TaskInv, ClientInv, Compare, DueIn;
  }

  lemma AbortSubject(s: State, c: Client, t: Handle)
    requires Inv(s) && Enabled(s, Abort(c, t))
    ensures var s' := Apply(s, Abort(c, t)); t in s'.tasks && Consistent(s'.tasks[t], ViewOf(s', t))
  {
    var s' := Apply(s, Abort(c, t));
    assert Consistent(s.tasks[t], ViewOf(s, t));
    hide TaskInv, ClientInv, Compare, DueIn;
    if t in s.heap {
      assert RemovedBy(s', c, t);
    } else {
      assert forall d :: RemovedBy(s', d, t) == RemovedBy(s, d, t);
    }
  }

  lemma FreeAbortedSubject(s: State, c: Client)
    requires Inv(s) && Enabled(s, FreeAborted(c))
    ensures var s', t := Apply(s, FreeAborted(c)), s.clients[c].task;
      t in s'.tasks && Consistent(s'.tasks[t], ViewOf(s', t))
  {
    var s', t := Apply(s, FreeAborted(c)), s.clients[c].task;
    assert Consistent(s.tasks[t], ViewOf(s, t));
    hide TaskInv, Compare, DueIn;
    assert RemovedBy(s, c, t);
    assert forall d :: RemovedBy(s', d, t) ==> RemovedBy(s, d, t);
    assert !exists d :: RemovedBy(s', d, t);
  }

  lemma GiveUpSubject(s: State, c: Client)
    requires Inv(s) && Enabled(s, GiveUp(c))
    ensures var s', t := Apply(s, GiveUp(c)), s.clients[c].task;
      t in s'.tasks && Consistent(s'.tasks[t], ViewOf(s', t))
  {
    var s', t := Apply(s, GiveUp(c)), s.clients[c].task;
    assert Consistent(s.tasks[t], ViewOf(s, t));
    hide TaskInv, Compare, DueIn;
    assert WaitingBy(s, c, t);
    assert forall d :: RemovedBy(s', d, t) == RemovedBy(s, d, t);
  }

  lemma PolledSubject(s: State, a: Action, t: Handle)
    requires Inv(s) && Enabled(s, a) && (a == Poll(t) || (a == FreePolled && s.polled == Some(t)))
    ensures var s' := Apply(s, a); t in s'.tasks && Consistent(s'.tasks[t], ViewOf(s', t))
  {
    assert Consistent(s.tasks[t], ViewOf(s, t));
    SameRemovals(s, Apply(s, a), t);
    hide TaskInv, ClientInv, Compare, DueIn;
  }

  lemma AddSubject(s: State, a: Action)
    requires Inv(s) && Enabled(s, a) && a.Add?
    ensures var s' := Apply(s, a); s.next in s'.tasks && Consistent(s'.tasks[s.next], ViewOf(s', s.next))
  {
    var s', t := Apply(s, a), s.next;
    assert t !in s.tasks;
    assert !exists c :: RemovedBy(s', c, t) by {
      assert forall c :: RemovedBy(s', c, t) ==> RemovedBy(s, c, t);
    }
  }

  lemma SubjectKept(s: State, a: Action, t: Handle)
    requires Inv(s) && Enabled(s, a) && Subject(s, a) == Some(t)
    ensures t in Apply(s, a).tasks && Consistent(Apply(s, a).tasks[t], ViewOf(Apply(s, a), t))
  {
    hide Inv, Consistent, ViewOf, Apply;
    match a
    case Abort(c, _) => AbortSubject(s, c, t);
    case FreeAborted(c) => FreeAbortedSubject(s, c);
    case GiveUp(c) => GiveUpSubject(s, c);
    case Add(_, _) => AddSubject(s, a);
    case Poll(_) => PolledSubject(s, a, t);
    case FreePolled => PolledSubject(s, a, t);
    case Take => TakeSubject(s);
    case Begin => CallSubject(s, a);
    case End => CallSubject(s, a);
    case _ => FreeSubject(s, a);
  }

  lemma TasksKept(s: State, a: Action)
    requires Inv(s) && Enabled(s, a)
    ensures s.tasks.Keys <= Apply(s, a).tasks.Keys && TaskInv(Apply(s, a))
  {
    hide Consistent, ViewOf;
    var s' := Apply(s, a);
    forall t | t in s.tasks
      ensures t in s'.tasks
    {
      if Subject(s, a) == Some(t) { SubjectKept(s, a, t); } else { OthersKept(s, a, t); }
    }
    forall t | t in s'.tasks
      ensures Consistent(s'.tasks[t], ViewOf(s', t))
    {
      if Subject(s, a) == Some(t) { SubjectKept(s, a, t); } else { OthersKept(s, a, t); }
    }
  }

  lemma PcKept(s: State, a: Action)
    requires Inv(s) && Enabled(s, a)
    ensures PcInv(Apply(s, a))
  {
    hide TaskInv, ClientInv, Compare, DueIn;
  }

  /** Handles are never used again and a task never returns to the heap. */
  lemma DomainKept(s: State, a: Action)
    requires Inv(s) && Enabled(s, a)
    ensures var s' := Apply(s, a);
      && s.next <= s'.next && (forall t: Handle :: t in s'.tasks <==> t < s'.next)
      && s'.heap <= s'.tasks.Keys && (forall t :: t in s'.heap && t in s.tasks ==> t in s.heap)
      && (s'.polled.Some? ==> s'.polled.value in s'.tasks)
  {
    hide TaskInv, ClientInv, PcInv, Compare, DueIn;
    assert s.pc.Due? || s.pc.Perform? || s.pc.Calling? || s.pc.Freeing? ==> s.pc.task in s.tasks by { PcTask(s); }
  }

  lemma PcTask(s: State)
    requires PcInv(s)
    ensures s.pc.Due? || s.pc.Perform? || s.pc.Calling? || s.pc.Called? || s.pc.Freeing? ==> s.pc.task in s.tasks
  {
  }

  /** Only an abort adds a thread that has a task to free or to wait for. */
  lemma CallsKept(s: State, a: Action, c: Client, t: Handle)
    requires Enabled(s, a)
    ensures RemovedBy(Apply(s, a), c, t) ==> RemovedBy(s, c, t) || (a == Abort(c, t) && t in s.heap)
    ensures WaitingBy(Apply(s, a), c, t) ==> WaitingBy(s, c, t) || (a == Abort(c, t) && t !in s.heap)
  {
  }

  /** At most one thread has a task to free. */
  lemma OneRemover(s: State, a: Action, c: Client, c': Client, t: Handle)
    requires Inv(s) && Enabled(s, a) && RemovedBy(Apply(s, a), c, t) && RemovedBy(Apply(s, a), c', t)
    ensures c == c'
  {
    CallsKept(s, a, c, t);
    CallsKept(s, a, c', t);
    if a.Abort? && a.task == t && t in s.heap {
      assert Consistent(s.tasks[t], ViewOf(s, t));
      assert !RemovedBy(s, c, t) && !RemovedBy(s, c', t);
    }
  }

  lemma ClientsKept(s: State, a: Action)
    requires Inv(s) && Enabled(s, a)
    ensures ClientInv(Apply(s, a))
  {
    var s' := Apply(s, a);
    forall c, c', t | RemovedBy(s', c, t) && RemovedBy(s', c', t)
      ensures c == c'
    {
      OneRemover(s, a, c, c', t);
    }
    forall c, t | RemovedBy(s', c, t)
      ensures t in s'.tasks
    {
      CallsKept(s, a, c, t);
      DomainKept(s, a);
    }
    forall c, t | WaitingBy(s', c, t)
      ensures t in s'.tasks && t !in s'.heap
    {
      CallsKept(s, a, c, t);
      DomainKept(s, a);
    }
    hide Inv, RemovedBy, WaitingBy, Apply, Enabled;
  }

  lemma InvKept(s: State, a: Action)
    requires Inv(s) && Enabled(s, a)
    ensures Inv(Apply(s, a))
  {
    TasksKept(s, a);
    PcKept(s, a);
    ClientsKept(s, a);
    DomainKept(s, a);
    hide TaskInv, PcInv, ClientInv, Apply;
  }

  lemma StartInv()
    ensures Inv(Start)
  {
    assert Start.tasks == map[] && Start.clients == map[] && Start.heap == {};
    assert PcInv(Start);
    assert ClientInv(Start);
    assert TaskInv(Start);
  }

  lemma {:induction false} RunInv(run: seq<Action>)
    requires Run(run).Some?
    ensures Inv(Run(run).value)
  {
    hide Inv;
    if run == [] {
      StartInv();
    } else {
      var k := |run| - 1;
      RunInv(run[..k]);
      InvKept(Run(run[..k]).value, run[k]);
    }
  }
}
