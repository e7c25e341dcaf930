/** Command contexts: shared by the thread that executes a command, the table of running
    commands and any number of observers that list them. Steps of all threads come in
    every order. */
module CommandContexts {
  import opened Options

  type CtxId = nat
  type ThreadId = nat

  datatype Executor = Reader | Writer | Main

  /** What the owner of a context does next. */
  datatype Step =
    | Queued                              // waits for a reader thread
    | WriterQueued                        // waits for the writer thread
    | Arrived(thread: ThreadId)           // about to be tracked
    | Working(thread: ThreadId)
    | Handing(thread: ThreadId)           // untracked, about to be queued for the writer
    | Closing(host: Option<ThreadId>)     // about to drop the graph reference
    | Untracking(thread: ThreadId)
    | Unblocking(host: Option<ThreadId>)
    | Releasing(host: Option<ThreadId>)   // about to drop the owner's reference
    | Gone

  datatype Ctx = Ctx(
    step: Step,
    executor: Executor,
    client: bool,           // came with a blocked client
    blocked: bool,          // the client is still blocked
    unblocks: nat,
    refCount: int,
    graphDrops: nat,        // times the command dropped its reference to the graph
    frees: nat)

  datatype State = State(
    slots: seq<Option<CtxId>>,   // running command of each thread
    ctxs: map<CtxId, Ctx>,
    held: multiset<CtxId>,       // references of the observers
    next: CtxId)

  function Initial(threads: nat): State {
    State(seq(threads, i => None), map[], multiset{}, 0)
  }

  /** Steps of the owner of a context. */
  datatype Move =
    | Reject                     // the queue is full
    | Pick(thread: ThreadId)     // a thread takes the command from its queue
    | Track
    | Delegate                   // untrack, to go on in the writer thread
    | HandOver
    | Close                      // executed, or failed before
    | DropGraph
    | Untrack
    | Unblock
    | Release

  datatype Action =
    | New(main: Option<ThreadId>)            // on the main thread, or queued for a reader
    | Own(ctx: CtxId, move: Move)
    | Snapshot(cap: nat)                     // an observer lists the running commands
    | SnapshotQueued(waiting: set<CtxId>)    // an observer lists waiting commands
    | Observed(ctx: CtxId)                   // an observer drops a reference

  // ---------------------------------------------------------------------------
  // Listing the running commands
  // ---------------------------------------------------------------------------

  /** The contexts in the slots, in order. */
  function Tracked(slots: seq<Option<CtxId>>): seq<CtxId> {
    if slots == [] then []
    else Tracked(slots[..|slots| - 1]) + (if slots[|slots| - 1].Some? then [slots[|slots| - 1].value] else [])
  }

  function First(s: seq<CtxId>, cap: nat): seq<CtxId> { if |s| <= cap then s else s[..cap] }

  method GetCommandCtxs(slots: seq<Option<CtxId>>, cap: nat) returns (commands: seq<CtxId>)
    ensures commands == First(Tracked(slots), cap)
  {
    commands := [];
    var i := 0;
    while i < |slots| && |commands| < cap
      invariant 0 <= i <= |slots| && |commands| <= cap
      invariant commands == Tracked(slots[..i])
    {
      assert slots[..i + 1][..i] == slots[..i];
      if slots[i].Some? { commands := commands + [slots[i].value]; }
      i := i + 1;
    }
    TrackedPrefix(slots, i);
    if i == |slots| { assert slots[..i] == slots; }
  }

  lemma {:induction false} TrackedPrefix(slots: seq<Option<CtxId>>, i: nat)
    requires i <= |slots|
    ensures |Tracked(slots[..i])| <= |Tracked(slots)| && Tracked(slots)[..|Tracked(slots[..i])|] == Tracked(slots[..i])
  {
    if i == |slots| {
      assert slots[..i] == slots;
    } else {
      var f := slots[..|slots| - 1];
      TrackedPrefix(f, i);
      assert f[..i] == slots[..i];
    }
  }

  // ---------------------------------------------------------------------------
  // Steps
  // ---------------------------------------------------------------------------

  /** The thread that works on a command. */
  function Host(step: Step): Option<ThreadId> {
    match step
    case Arrived(t) => Some(t)
    case Working(t) => Some(t)
    case Handing(t) => Some(t)
    case Closing(h) => h
    case Untracking(t) => Some(t)
    case Unblocking(h) => h
    case Releasing(h) => h
    case _ => None
  }

  /** The slot a command occupies. */
  function Slot(step: Step): Option<ThreadId> {
    match step
    case Working(t) => Some(t)
    case Closing(h) => h
    case Untracking(t) => Some(t)
    case _ => None
  }

  predicate CanMove(k: Ctx, m: Move) {
    match m
    case Reject => k.step.Queued?
    case Pick(_) => k.step.Queued? || k.step.WriterQueued?
    case Track => k.step.Arrived?
    case Delegate => k.step.Working? && k.executor == Reader
    case HandOver => k.step.Handing?
    case Close => k.step.Working?
    case DropGraph => k.step.Closing?
    case Untrack => k.step.Untracking?
    case Unblock => k.step.Unblocking?
    case Release => k.step.Releasing?
  }

  /** Dropping a reference frees the context when it was the last one. */
  function Unref(k: Ctx): Ctx {
    k.(refCount := k.refCount - 1, frees := if k.refCount == 1 then k.frees + 1 else k.frees)
  }

  function Moved(k: Ctx, m: Move): Ctx
    requires CanMove(k, m)
  {
    match m
    case Reject => k.(step := Closing(None))
    case Pick(t) => k.(step := Arrived(t))
    case Track => k.(step := Working(k.step.thread))
    case Delegate => k.(step := Handing(k.step.thread), executor := Writer)
    case HandOver => k.(step := WriterQueued)
    case Close => k.(step := Closing(Some(k.step.thread)))
    case DropGraph =>
      k.(graphDrops := k.graphDrops + 1,
         step := if k.step.host.Some? then Untracking(k.step.host.value) else Unblocking(None))
    case Untrack => k.(step := Unblocking(Some(k.step.thread)))
    case Unblock =>
      k.(step := Releasing(k.step.host), blocked := false, unblocks := if k.blocked then k.unblocks + 1 else k.unblocks)
    case Release => Unref(k.(step := Gone))
  }

  /** What a step writes to the table of running commands. */
  function Slots(slots: seq<Option<CtxId>>, c: CtxId, k: Ctx, m: Move): seq<Option<CtxId>>
    requires CanMove(k, m) && (m.Track? || m.Delegate? || m.Untrack? ==> k.step.thread < |slots|)
  {
    if m.Track? then slots[k.step.thread := Some(c)]
    else if m.Delegate? || m.Untrack? then slots[k.step.thread := None]
    else slots
  }

  predicate Hosts(s: State, c: CtxId, t: ThreadId) { c in s.ctxs && Host(s.ctxs[c].step) == Some(t) }

  predicate Occupies(s: State, c: CtxId, t: ThreadId) { c in s.ctxs && Slot(s.ctxs[c].step) == Some(t) }

  predicate InSlot(s: State, t: ThreadId, c: CtxId) { t < |s.slots| && s.slots[t] == Some(c) }

  predicate Idle(s: State, t: ThreadId) {
    t < |s.slots| && forall c :: c in s.ctxs ==> !Hosts(s, c, t)
  }

  predicate Enabled(s: State, a: Action) {
    match a
    case New(main) => main.Some? ==> Idle(s, main.value)
    case Own(c, m) =>
      && c in s.ctxs && CanMove(s.ctxs[c], m)
      && (m.Pick? ==> Idle(s, m.thread))
      && (m.Track? || m.Delegate? || m.Untrack? ==> s.ctxs[c].step.thread < |s.slots|)
    case Snapshot(_) => true
    case SnapshotQueued(waiting) => forall c :: c in waiting ==> c in s.ctxs && s.ctxs[c].step.Queued?
    case Observed(c) => c in s.held && c in s.ctxs
  }

  function Incref(ctxs: map<CtxId, Ctx>, found: multiset<CtxId>): map<CtxId, Ctx> {
    map c | c in ctxs :: ctxs[c].(refCount := ctxs[c].refCount + found[c])
  }

  function Created(main: Option<ThreadId>): Ctx {
    if main.Some? then Ctx(Arrived(main.value), Main, false, false, 0, 1, 0, 0)
    else Ctx(Queued, Reader, true, true, 0, 1, 0, 0)
  }

  /** The references an observer takes. */
  function Found(s: State, a: Action): multiset<CtxId> {
    if a.Snapshot? then multiset(First(Tracked(s.slots), a.cap))
    else if a.SnapshotQueued? then multiset(a.waiting)
    else multiset{}
  }

  function Apply(s: State, a: Action): State
    requires Enabled(s, a)
  {
    match a
    case New(main) => s.(ctxs := s.ctxs[s.next := Created(main)], next := s.next + 1)
    case Own(c, m) =>
      s.(ctxs := s.ctxs[c := Moved(s.ctxs[c], m)], slots := Slots(s.slots, c, s.ctxs[c], m))
    case Observed(c) => s.(ctxs := s.ctxs[c := Unref(s.ctxs[c])], held := s.held - multiset{c})
    case _ => s.(ctxs := Incref(s.ctxs, Found(s, a)), held := s.held + Found(s, a))
  }

  function Run(threads: nat, run: seq<Action>): Option<State> {
    if run == [] then Some(Initial(threads))
    else
      var before := Run(threads, run[..|run| - 1]);
      if before.Some? && Enabled(before.value, run[|run| - 1]) then Some(Apply(before.value, run[|run| - 1]))
      else None
  }

  // ---------------------------------------------------------------------------
  // Invariant
  // ---------------------------------------------------------------------------

  predicate GraphDropped(step: Step) { step.Untracking? || step.Unblocking? || step.Releasing? || step.Gone? }

  predicate Unblocked(step: Step) { step.Releasing? || step.Gone? }

  predicate CtxInv(k: Ctx, observers: nat) {
    && k.refCount == One(!k.step.Gone?) + observers
    && k.frees == One(k.refCount == 0)
    && k.graphDrops == One(GraphDropped(k.step))
    && k.blocked == (k.client && !Unblocked(k.step))
    && k.unblocks == One(k.client && Unblocked(k.step))
  }

  /** The table lists exactly the commands that are being worked on, each in its thread's slot. */
  ghost predicate SlotInv(s: State) {
    && (forall c: CtxId, t: ThreadId :: Hosts(s, c, t) ==> t < |s.slots|)
    && (forall c: CtxId, d: CtxId, t: ThreadId :: Hosts(s, c, t) && Hosts(s, d, t) ==> c == d)
    && (forall c: CtxId, t: ThreadId :: Occupies(s, c, t) <==> InSlot(s, t, c))
  }

  ghost predicate RefInv(s: State) {
    && (forall c :: c in s.held ==> c in s.ctxs)
    && (forall c :: c in s.ctxs ==> CtxInv(s.ctxs[c], s.held[c]))
  }

  ghost predicate Inv(s: State) {
    && (forall c: CtxId :: c in s.ctxs <==> c < s.next)
    && RefInv(s) && SlotInv(s)
  }

  lemma MoveKeepsCtx(k: Ctx, m: Move, observers: nat)
    requires CtxInv(k, observers) && CanMove(k, m)
    ensures CtxInv(Moved(k, m), observers)
  {
  }

  lemma UnrefKeepsCtx(k: Ctx, observers: nat)
    requires CtxInv(k, observers) && observers > 0
    ensures CtxInv(Unref(k), observers - 1)
  {
  }

  lemma IncrefKeepsCtx(k: Ctx, observers: nat, more: nat)
    requires CtxInv(k, observers) && (more > 0 ==> !k.step.Gone?)
    ensures CtxInv(k.(refCount := k.refCount + more), observers + more)
  {
  }

  lemma {:induction false} TrackedInSlot(slots: seq<Option<CtxId>>, c: CtxId)
    requires c in Tracked(slots)
    ensures exists t :: 0 <= t < |slots| && slots[t] == Some(c)
  {
    var k := |slots| - 1;
    if slots[k] != Some(c) {
      TrackedInSlot(slots[..k], c);
      var t :| 0 <= t < k && slots[..k][t] == Some(c);
      assert slots[t] == Some(c);
    }
  }

  /** Whoever is listed exists and has not been released by its owner. */
  lemma FoundIsOwned(s: State, a: Action, c: CtxId)
    requires Inv(s) && Enabled(s, a) && c in Found(s, a)
    ensures c in s.ctxs && !s.ctxs[c].step.Gone?
  {
    if a.Snapshot? {
      assert c in Tracked(s.slots);
      TrackedInSlot(s.slots, c);
      var t :| 0 <= t < |s.slots| && s.slots[t] == Some(c);
      assert InSlot(s, t, c);
      assert Occupies(s, c, t);
    }
  }

  lemma RefsKept(s: State, a: Action)
    requires Inv(s) && Enabled(s, a)
    ensures RefInv(Apply(s, a))
  {
    var s' := Apply(s, a);
    forall c | c in s'.held
      ensures c in s'.ctxs
    {
      if c in Found(s, a) { FoundIsOwned(s, a, c); }
      hide SlotInv, CtxInv, Found;
    }
    forall c | c in s'.ctxs
      ensures CtxInv(s'.ctxs[c], s'.held[c])
    {
      CtxKept(s, a, c);
    }
    hide *;
  }

  lemma CtxKept(s: State, a: Action, c: CtxId)
    requires Inv(s) && Enabled(s, a) && c in Apply(s, a).ctxs
    ensures CtxInv(Apply(s, a).ctxs[c], Apply(s, a).held[c])
  {
    hide SlotInv, Idle;
    if a.New? && c == s.next {
      assert c !in s.held;
      return;
    }
    assert CtxInv(s.ctxs[c], s.held[c]);
    hide CtxInv, Found, Moved, Unref, CanMove;
    match a
    case New(_) =>
    case Own(d, m) => if c == d { MoveKeepsCtx(s.ctxs[c], m, s.held[c]); }
    case Observed(d) => if c == d { UnrefKeepsCtx(s.ctxs[c], s.held[c]); }
    case _ =>
      if c in Found(s, a) { FoundIsOwned(s, a, c); }
      IncrefKeepsCtx(s.ctxs[c], s.held[c], Found(s, a)[c]);
  }

  lemma MoveHost(k: Ctx, m: Move, t: ThreadId)
    requires CanMove(k, m) && Host(Moved(k, m).step) == Some(t)
    ensures Host(k.step) == Some(t) || m == Pick(t)
  {
  }

  lemma MoveSlot(k: Ctx, m: Move)
    requires CanMove(k, m)
    ensures Slot(Moved(k, m).step) ==
      if m.Track? then Some(k.step.thread) else if m.Delegate? || m.Untrack? then None else Slot(k.step)
    ensures m.Track? ==> Slot(k.step) == None && Host(k.step) == Some(k.step.thread)
    ensures m.Delegate? || m.Untrack? ==> Slot(k.step) == Some(k.step.thread)
  {
  }

  lemma SlotIsHost(s: State, c: CtxId, t: ThreadId)
    requires Occupies(s, c, t)
    ensures Hosts(s, c, t)
  {
  }

  /** A thread takes on a command only when it has none. */
  predicate Arrives(s: State, a: Action, c: CtxId, t: ThreadId) {
    Idle(s, t) && ((a.New? && a.main == Some(t) && c == s.next) || (a.Own? && a.ctx == c && a.move == Pick(t)))
  }

  lemma HostsStep(s: State, a: Action, c: CtxId, t: ThreadId)
    requires Enabled(s, a) && Hosts(Apply(s, a), c, t)
    ensures Hosts(s, c, t) || Arrives(s, a, c, t)
  {
    if a.Own? && a.ctx == c { MoveHost(s.ctxs[c], a.move, t); }
    hide CanMove, Moved, Host;
  }

  lemma OneHost(s: State, a: Action, c: CtxId, d: CtxId, t: ThreadId)
    requires Inv(s) && Enabled(s, a) && Hosts(Apply(s, a), c, t) && Hosts(Apply(s, a), d, t)
    ensures c == d
  {
    HostsStep(s, a, c, t);
    HostsStep(s, a, d, t);
    hide RefInv, Apply, Host;
  }

  /** The steps that leave the table alone leave every slot to its command. */
  lemma QuietStep(s: State, a: Action, c: CtxId, t: ThreadId)
    requires Inv(s) && Enabled(s, a) && (a.Own? ==> !a.move.Track? && !a.move.Delegate? && !a.move.Untrack?)
    ensures Occupies(Apply(s, a), c, t) <==> InSlot(Apply(s, a), t, c)
  {
    assert Occupies(s, c, t) <==> InSlot(s, t, c);
    if a.Own? { MoveSlot(s.ctxs[a.ctx], a.move); }
    hide RefInv, SlotInv, Moved, CanMove;
  }

  lemma TableStep(s: State, d: CtxId, m: Move, c: CtxId, t: ThreadId)
    requires Inv(s) && Enabled(s, Own(d, m)) && (m.Track? || m.Delegate? || m.Untrack?)
    ensures Occupies(Apply(s, Own(d, m)), c, t) <==> InSlot(Apply(s, Own(d, m)), t, c)
  {
    var u := s.ctxs[d].step.thread;
    MoveSlot(s.ctxs[d], m);
    assert Occupies(s, c, t) <==> InSlot(s, t, c);
    assert Occupies(s, d, t) <==> InSlot(s, t, d);
    assert Occupies(s, c, u) <==> InSlot(s, u, c);
    assert Occupies(s, d, u) <==> InSlot(s, u, d);
    assert Hosts(s, d, u) || !m.Track?;
    if m.Track? && Occupies(s, c, u) { SlotIsHost(s, c, u); }
    hide RefInv, SlotInv, Moved, CanMove, Host, Slot;
  }

  lemma SlotsKept(s: State, a: Action)
    requires Inv(s) && Enabled(s, a)
    ensures SlotInv(Apply(s, a))
  {
    var s' := Apply(s, a);
    assert |s'.slots| == |s.slots|;
    forall c: CtxId, t: ThreadId | Hosts(s', c, t)
      ensures t < |s'.slots|
    {
      HostsStep(s, a, c, t);
    }
    forall c: CtxId, d: CtxId, t: ThreadId | Hosts(s', c, t) && Hosts(s', d, t)
      ensures c == d
    {
      OneHost(s, a, c, d, t);
    }
    forall c: CtxId, t: ThreadId
      ensures Occupies(s', c, t) <==> InSlot(s', t, c)
    {
      if a.Own? && (a.move.Track? || a.move.Delegate? || a.move.Untrack?) { TableStep(s, a.ctx, a.move, c, t); }
      else { QuietStep(s, a, c, t); }
    }
    hide Inv, Apply, Enabled, Hosts, Occupies, InSlot;
  }

  lemma InvKept(s: State, a: Action)
    requires Inv(s) && Enabled(s, a)
    ensures Inv(Apply(s, a))
  {
    RefsKept(s, a);
    SlotsKept(s, a);
    hide RefInv, SlotInv, Found, Moved, Slots;
  }

  lemma {:induction false} RunInv(threads: nat, run: seq<Action>)
    requires Run(threads, run).Some?
    ensures Inv(Run(threads, run).value)
  {
    if run == [] {
      assert forall c: CtxId, t: ThreadId :: !InSlot(Initial(threads), t, c) && !Hosts(Initial(threads), c, t);
    } else {
      var k := |run| - 1;
      RunInv(threads, run[..k]);
      hide Inv, Enabled, Apply;
      InvKept(Run(threads, run[..k]).value, run[k]);
    }
  }

  // ---------------------------------------------------------------------------
  // Safety of all runs
  // ---------------------------------------------------------------------------

  /** Whatever is in the table or held by an observer has not been freed. */
  lemma ReachableIsAlive(threads: nat, run: seq<Action>, c: CtxId)
    requires Run(threads, run).Some?
    requires var s := Run(threads, run).value; c in s.held || exists t :: InSlot(s, t, c)
    ensures var s := Run(threads, run).value; c in s.ctxs && s.ctxs[c].frees == 0 && s.ctxs[c].refCount > 0
  {
    RunInv(threads, run);
    var s := Run(threads, run).value;
    hide Run;
    if c !in s.held {
      var t :| InSlot(s, t, c);
      assert Occupies(s, c, t);
    }
    assert CtxInv(s.ctxs[c], s.held[c]);
  }

  /** The count is one for the owner and one for each observer; a context is freed once, as
      soon as the count is zero, and then its client is not blocked any more. */
  lemma CountedAndFreedOnce(threads: nat, run: seq<Action>, c: CtxId)
    requires Run(threads, run).Some? && c in Run(threads, run).value.ctxs
    ensures var s := Run(threads, run).value; var k := s.ctxs[c];
      && k.refCount == One(!k.step.Gone?) + s.held[c]
      && k.frees <= 1 && (k.frees == 1 <==> k.step.Gone? && c !in s.held)
      && (k.frees == 1 ==> !k.blocked && k.unblocks == One(k.client))
  {
    RunInv(threads, run);
    assert CtxInv(Run(threads, run).value.ctxs[c], Run(threads, run).value.held[c]);
  }

  /** Every command drops its graph reference once: never twice, and not at all only while
      it has not been closed. */
  lemma GraphDroppedOnce(threads: nat, run: seq<Action>, c: CtxId)
    requires Run(threads, run).Some? && c in Run(threads, run).value.ctxs
    ensures var k := Run(threads, run).value.ctxs[c];
      k.graphDrops <= 1 && (k.step.Gone? ==> k.graphDrops == 1) && k.unblocks <= 1
  {
    RunInv(threads, run);
    assert CtxInv(Run(threads, run).value.ctxs[c], Run(threads, run).value.held[c]);
  }

  /** A command in the table still has its graph exactly until it is about to leave the table;
      one that only observers hold may have dropped it. */
  lemma TrackedHasGraph(threads: nat, run: seq<Action>, c: CtxId)
    requires Run(threads, run).Some? && c in Run(threads, run).value.ctxs
    ensures var s := Run(threads, run).value; var k := s.ctxs[c];
      && (k.graphDrops == 0 <==> !GraphDropped(k.step))
      && ((exists t :: InSlot(s, t, c)) ==> (k.graphDrops == 0 <==> !k.step.Untracking?))
  {
    RunInv(threads, run);
    var s := Run(threads, run).value;
    hide Run;
    assert CtxInv(s.ctxs[c], s.held[c]);
    if t :| InSlot(s, t, c) { assert Occupies(s, c, t); }
  }

  predicate Goes(s: State, a: Action, s': State) { Enabled(s, a) && Apply(s, a) == s' }

  lemma RunGoes(threads: nat, run: seq<Action>, s: State, a: Action, s': State)
    requires Run(threads, run) == Some(s) && Goes(s, a, s')
    ensures Run(threads, run + [a]) == Some(s')
  {
    hide Enabled, Apply;
    assert (run + [a])[..|run|] == run;
  }

  /** A single thread with its slot, and a command at some step of its own. */
  function Alone(slot: Option<CtxId>, step: Step, drops: nat): State {
    State([slot], map[0 := Ctx(step, Reader, true, true, 0, 1, drops, 0)], multiset{}, 1)
  }

  lemma StartAlone()
    ensures Goes(Initial(1), New(None), Alone(None, Queued, 0))
    ensures Goes(Alone(None, Queued, 0), Own(0, Pick(0)), Alone(None, Arrived(0), 0))
  {
    assert Idle(Alone(None, Queued, 0), 0);
  }

  lemma WorkAlone()
    ensures Goes(Alone(None, Arrived(0), 0), Own(0, Track), Alone(Some(0), Working(0), 0))
    ensures Goes(Alone(Some(0), Working(0), 0), Own(0, Close), Alone(Some(0), Closing(Some(0)), 0))
    ensures Goes(Alone(Some(0), Closing(Some(0)), 0), Own(0, DropGraph), Alone(Some(0), Untracking(0), 1))
  {
  }

  lemma ListAlone()
    ensures var s := Alone(Some(0), Untracking(0), 1); var s' := Apply(s, Snapshot(1));
      Goes(s, Snapshot(1), s') && 0 in s'.held && 0 in s'.ctxs && s'.ctxs[0].graphDrops == 1
  {
    var s := Alone(Some(0), Untracking(0), 1);
    assert Tracked(s.slots) == [0] by { assert s.slots[..0] == []; }
    assert Found(s, Snapshot(1)) == multiset([0]);
  }

  lemma RunAlone()
    ensures Run(1, [New(None), Own(0, Pick(0)), Own(0, Track)]) == Some(Alone(Some(0), Working(0), 0))
  {
    var a, b, c := New(None), Own(0, Pick(0)), Own(0, Track);
    assert Run(1, []) == Some(Initial(1));
    StartAlone();
    WorkAlone();
    hide *;
    RunGoes(1, [], Initial(1), a, Alone(None, Queued, 0));
    RunGoes(1, [] + [a], Alone(None, Queued, 0), b, Alone(None, Arrived(0), 0));
    RunGoes(1, [] + [a] + [b], Alone(None, Arrived(0), 0), c, Alone(Some(0), Working(0), 0));
    assert [] + [a] + [b] + [c] == [a, b, c];
  }

  /** Listed between dropping its graph and leaving the table, a command is held without one. */
  lemma HeldWithoutGraph()
    ensures var run := [New(None), Own(0, Pick(0)), Own(0, Track)] + [Own(0, Close), Own(0, DropGraph), Snapshot(1)];
      && Run(1, run).Some? && 0 in Run(1, run).value.held
      && 0 in Run(1, run).value.ctxs && Run(1, run).value.ctxs[0].graphDrops == 1
  {
    var run, a, b, c := [New(None), Own(0, Pick(0)), Own(0, Track)], Own(0, Close), Own(0, DropGraph), Snapshot(1);
    RunAlone();
    WorkAlone();
    ListAlone();
    hide *;
    var s := Alone(Some(0), Untracking(0), 1);
    RunGoes(1, run, Alone(Some(0), Working(0), 0), a, Alone(Some(0), Closing(Some(0)), 0));
    RunGoes(1, run + [a], Alone(Some(0), Closing(Some(0)), 0), b, s);
    RunGoes(1, run + [a] + [b], s, c, Apply(s, c));
    assert run + [a] + [b] + [c] == run + [a, b, c];
  }

  /** What the tracking functions assert: a thread that tracks finds its slot empty, and one
      that untracks finds its own command there. */
  lemma SlotsAsExpected(threads: nat, run: seq<Action>, c: CtxId, m: Move)
    requires Run(threads, run).Some? && c in Run(threads, run).value.ctxs
    requires CanMove(Run(threads, run).value.ctxs[c], m) && (m.Track? || m.Delegate? || m.Untrack?)
    ensures var s := Run(threads, run).value; var t := s.ctxs[c].step.thread;
      t < |s.slots| && s.slots[t] == if m.Track? then None else Some(c)
  {
    RunInv(threads, run);
    var s := Run(threads, run).value;
    hide Run;
    var t := s.ctxs[c].step.thread;
    assert Hosts(s, c, t);
    if m.Track? && s.slots[t].Some? {
      assert InSlot(s, t, s.slots[t].value);
      SlotIsHost(s, s.slots[t].value, t);
    } else if !m.Track? {
      assert Occupies(s, c, t);
    }
  }

  /** The owner of a context can always take its next step; only a command in a queue waits
      for an idle thread. */
  lemma OwnerNotBlocked(threads: nat, run: seq<Action>, c: CtxId, m: Move)
    requires Run(threads, run).Some? && c in Run(threads, run).value.ctxs
    requires CanMove(Run(threads, run).value.ctxs[c], m)
    ensures var s := Run(threads, run).value; Enabled(s, Own(c, m)) <==> (m.Pick? ==> Idle(s, m.thread))
  {
    if m.Track? || m.Delegate? || m.Untrack? { SlotsAsExpected(threads, run, c, m); }
  }
}
