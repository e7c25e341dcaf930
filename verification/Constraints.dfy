/** Mandatory and unique constraints on the nodes of a label. */
module Constraints {

  type NodeId = nat
  type Attribute = nat

  /** Values as far as the supporting index tells them apart: texts, numbers (truth
      values are numbers to it) and values that are not indexed. */
  datatype Value = Text(text: string) | Number(number: real) | Truth(truth: bool) | NotIndexed(id: nat)

  datatype Key = TextKey(text: string) | NumberKey(number: real)

  type Attributes = map<Attribute, Value>

  /** The nodes of the label. */
  type Nodes = map<NodeId, Attributes>

  datatype Kind = Mandatory | Unique

  datatype Constraint = Constraint(kind: Kind, attributes: seq<Attribute>)

  predicate Indexed(v: Value) { !v.NotIndexed? }

  function KeyOf(v: Value): Key
    requires Indexed(v)
  {
    match v
    case Text(s) => TextKey(s)
    case Number(n) => NumberKey(n)
    case Truth(b) => NumberKey(if b then 1.0 else 0.0)
  }

  predicate HasKey(n: Attributes, a: Attribute) { a in n && Indexed(n[a]) }

  predicate HasAllKeys(c: Constraint, n: Attributes) {
    forall i :: 0 <= i < |c.attributes| ==> HasKey(n, c.attributes[i])
  }

  /** Two nodes the index cannot tell apart on the attributes of the constraint. */
  predicate Clash(c: Constraint, n: Attributes, m: Attributes) {
    && HasAllKeys(c, n) && HasAllKeys(c, m)
    && forall i :: 0 <= i < |c.attributes| ==> KeyOf(n[c.attributes[i]]) == KeyOf(m[c.attributes[i]])
  }

  /** What the constraint demands of a node. */
  predicate Satisfies(c: Constraint, nodes: Nodes, id: NodeId)
    requires id in nodes
  {
    match c.kind
    case Mandatory => forall i :: 0 <= i < |c.attributes| ==> c.attributes[i] in nodes[id]
    case Unique => forall j :: j in nodes && j != id ==> !Clash(c, nodes[id], nodes[j])
  }

  method EnforceMandatory(c: Constraint, nodes: Nodes, id: NodeId) returns (holds: bool)
    requires c.kind == Mandatory && id in nodes
    ensures holds == Satisfies(c, nodes, id)
  {
    var i := 0;
    while i < |c.attributes|
      invariant 0 <= i <= |c.attributes|
      invariant forall j :: 0 <= j < i ==> c.attributes[j] in nodes[id]
    {
      if c.attributes[i] !in nodes[id] { return false; }
      i := i + 1;
    }
    return true;
  }

  /** Nodes the index finds for a list of keys. */
  function Matches(c: Constraint, nodes: Nodes, keys: seq<Key>): set<NodeId>
    requires |keys| <= |c.attributes|
  {
    set j | j in nodes && forall i :: 0 <= i < |keys| ==>
      HasKey(nodes[j], c.attributes[i]) && KeyOf(nodes[j][c.attributes[i]]) == keys[i]
  }

  /** A node without one of the attributes, or with a value that is not indexed, passes;
      otherwise the index has to find this node alone. */
  method EnforceUnique(c: Constraint, nodes: Nodes, id: NodeId) returns (holds: bool)
    requires c.kind == Unique && id in nodes
    ensures holds == Satisfies(c, nodes, id)
  {
    var keys: seq<Key> := [];
    var i := 0;
    while i < |c.attributes|
      invariant 0 <= i <= |c.attributes| && |keys| == i
      invariant forall j :: 0 <= j < i ==>
        HasKey(nodes[id], c.attributes[j]) && keys[j] == KeyOf(nodes[id][c.attributes[j]])
    {
      var a := c.attributes[i];
      if a !in nodes[id] { return true; }
      if !Indexed(nodes[id][a]) { return true; }
      keys := keys + [KeyOf(nodes[id][a])];
      i := i + 1;
    }
    var found := Matches(c, nodes, keys);
    assert id in found;
    assert forall j :: j in nodes ==> (j in found <==> Clash(c, nodes[id], nodes[j]));
    holds := found == {id};
  }

  lemma ClashSymmetric(c: Constraint, n: Attributes, m: Attributes)
    ensures Clash(c, n, m) == Clash(c, m, n)
  {
  }

  /** Committing a node that passes keeps every other node satisfied. */
  lemma PutKeeps(c: Constraint, nodes: Nodes, id: NodeId, n: Attributes, j: NodeId)
    requires Satisfies(c, nodes[id := n], id)
    requires j in nodes && j != id && Satisfies(c, nodes, j)
    ensures Satisfies(c, nodes[id := n], j)
  {
    var nodes' := nodes[id := n];
    if c.kind == Unique {
      ClashSymmetric(c, nodes'[id], nodes'[j]);
      assert forall k :: k in nodes' && k != id ==> k in nodes && nodes'[k] == nodes[k];
    }
  }

  lemma RemoveKeeps(c: Constraint, nodes: Nodes, id: NodeId, j: NodeId)
    requires j in nodes && j != id && Satisfies(c, nodes, j)
    ensures j in nodes - {id} && Satisfies(c, nodes - {id}, j)
  {
  }
}

/** Enforcing a new constraint on the nodes that exist already, in batches. The graph is
    read-locked during a batch and free for writers in between. Steps of the enforcing
    thread, of writers and of a thread that drops the constraint come in every order. */
module ConstraintEnforcement {
  import opened Options
  import opened Constraints

  const BATCH_SIZE := 10000

  datatype Status = Pending | Active | Failed

  /** Where the enforcing thread stands. */
  datatype Pc =
    | Top                          // about to lock and start a batch
    | Scanning(enforced: nat)      // in a batch, lock held
    | Verdict(holds: bool)         // left the loop, about to set the status
    | Unlocking
    | Done

  datatype State = State(
    nodes: Nodes,
    status: Status,
    changes: nat,          // pending changes: one for the creation, one for a drop
    pc: Pc,
    rowIdx: NodeId,        // where the scan goes on
    reading: bool,         // the enforcing thread holds the read lock
    writing: bool,         // a writer holds the write lock
    saved: Nodes,          // what a roll-back of the writer restores
    acquired: nat,
    released: nat,
    cut: bool)             // the scan was given up because of a drop

  function Created(nodes: Nodes): State {
    State(nodes, Pending, 1, Top, 0, false, false, nodes, 0, 0, false)
  }

  datatype Action =
    | Lock
    | Check(node: Option<NodeId>)    // the next node of the label, if there is one
    | EndBatch
    | SetStatus
    | Unlock
    | Drop
    | BeginWrite
    | Put(id: NodeId, attributes: Attributes)
    | Remove(id: NodeId)
    | RollBack
    | EndWrite

  predicate Dropped(s: State) { s.changes > 1 }

  /** Writers check what they commit unless the constraint failed or is gone. */
  predicate Guarded(s: State) { s.status != Failed && !Dropped(s) }

  predicate IsNext(s: State, id: NodeId) {
    id in s.nodes && s.rowIdx <= id && forall j :: j in s.nodes && s.rowIdx <= j ==> id <= j
  }

  predicate Enabled(s: State, c: Constraint, a: Action) {
    match a
    case Lock => s.pc.Top? && !s.writing
    case Check(None) => s.pc.Scanning? && s.pc.enforced < BATCH_SIZE && forall j :: j in s.nodes ==> j < s.rowIdx
    case Check(Some(id)) => s.pc.Scanning? && s.pc.enforced < BATCH_SIZE && IsNext(s, id)
    case EndBatch => s.pc == Scanning(BATCH_SIZE)
    case SetStatus => s.pc.Verdict? && s.status == Pending
    case Unlock => s.pc.Unlocking?
    case Drop => !Dropped(s)
    case BeginWrite => !s.reading && !s.writing
    case Put(id, n) => s.writing && (Guarded(s) ==> Satisfies(c, s.nodes[id := n], id))
    case Remove(id) => s.writing
    case RollBack => s.writing
    case EndWrite => s.writing
  }

  function Apply(s: State, c: Constraint, a: Action): State
    requires Enabled(s, c, a)
  {
    match a
    case Lock =>
      var s := s.(reading := true, acquired := s.acquired + 1);
      if Dropped(s) then s.(pc := Verdict(true), cut := true) else s.(pc := Scanning(0))
    case Check(None) => s.(pc := Verdict(true))
    case Check(Some(id)) =>
      if Satisfies(c, s.nodes, id) then s.(pc := Scanning(s.pc.enforced + 1), rowIdx := id + 1)
      else s.(pc := Verdict(false))
    case EndBatch => s.(pc := Top, reading := false, released := s.released + 1)
    case SetStatus => s.(pc := Unlocking, status := if s.pc.holds then Active else Failed)
    case Unlock => s.(pc := Done, reading := false, released := s.released + 1)
    case Drop => s.(changes := s.changes + 1)
    case BeginWrite => s.(writing := true, saved := s.nodes)
    case Put(id, n) => s.(nodes := s.nodes[id := n])
    case Remove(id) => s.(nodes := s.nodes - {id})
    case RollBack => s.(nodes := s.saved, writing := false)
    case EndWrite => s.(writing := false)
  }

  function Run(nodes: Nodes, c: Constraint, run: seq<Action>): Option<State> {
    if run == [] then Some(Created(nodes))
    else
      var before := Run(nodes, c, run[..|run| - 1]);
      if before.Some? && Enabled(before.value, c, run[|run| - 1])
      then Some(Apply(before.value, c, run[|run| - 1]))
      else None
  }

  // ---------------------------------------------------------------------------
  // Invariant
  // ---------------------------------------------------------------------------

  /** All nodes below `limit` satisfy the constraint. */
  predicate SatisfiedBelow(c: Constraint, nodes: Nodes, limit: Option<NodeId>) {
    forall id :: id in nodes && (limit.Some? ==> id < limit.value) ==> Satisfies(c, nodes, id)
  }

  predicate AllSatisfied(c: Constraint, nodes: Nodes) { SatisfiedBelow(c, nodes, None) }

  predicate LockInv(s: State) {
    && s.acquired == s.released + One(s.reading)
    && s.reading == (s.pc.Scanning? || s.pc.Verdict? || s.pc.Unlocking?)
    && !(s.reading && s.writing)
    && (s.status == Pending <==> !s.pc.Unlocking? && !s.pc.Done?)
    && (s.pc.Scanning? ==> s.pc.enforced <= BATCH_SIZE)
    && (s.cut ==> Dropped(s) && !s.pc.Top? && !s.pc.Scanning?)
    && (s.cut && s.pc.Verdict? ==> s.pc.holds)
  }

  /** How far the nodes are known to satisfy the constraint. */
  function Known(s: State): Option<Option<NodeId>> {
    match s.pc
    case Top => if Dropped(s) then None else Some(Some(s.rowIdx))
    case Scanning(_) => Some(Some(s.rowIdx))
    case Verdict(holds) => if s.cut || !holds then None else Some(None)
    case Unlocking => if s.cut || s.status == Failed then None else Some(None)
    case Done => if Dropped(s) || s.status == Failed then None else Some(None)
  }

  predicate ScanInv(s: State, c: Constraint) {
    && (Known(s).Some? ==> SatisfiedBelow(c, s.nodes, Known(s).value))
    && (Known(s).Some? && s.writing ==> SatisfiedBelow(c, s.saved, Known(s).value))
    && (s.pc == Verdict(false) || (s.pc.Unlocking? && s.status == Failed) ==> !AllSatisfied(c, s.nodes))
  }

  predicate Inv(s: State, c: Constraint) { LockInv(s) && ScanInv(s, c) }

  lemma LockKept(s: State, c: Constraint, a: Action)
    requires LockInv(s) && Enabled(s, c, a)
    ensures LockInv(Apply(s, c, a))
  {
    hide Satisfies;
  }

  lemma PutKeepsBelow(c: Constraint, nodes: Nodes, id: NodeId, n: Attributes, limit: Option<NodeId>)
    requires SatisfiedBelow(c, nodes, limit) && Satisfies(c, nodes[id := n], id)
    ensures SatisfiedBelow(c, nodes[id := n], limit)
  {
    hide Satisfies;
    var nodes' := nodes[id := n];
    forall j | j in nodes' && (limit.Some? ==> j < limit.value)
      ensures Satisfies(c, nodes', j)
    {
      if j != id { PutKeeps(c, nodes, id, n, j); }
    }
  }

  lemma RemoveKeepsBelow(c: Constraint, nodes: Nodes, id: NodeId, limit: Option<NodeId>)
    requires SatisfiedBelow(c, nodes, limit)
    ensures SatisfiedBelow(c, nodes - {id}, limit)
  {
    hide Satisfies;
    var nodes' := nodes - {id};
    forall j | j in nodes' && (limit.Some? ==> j < limit.value)
      ensures Satisfies(c, nodes', j)
    {
      RemoveKeeps(c, nodes, id, j);
    }
  }

  /** Rows come in ascending order: the next node extends what is known. */
  lemma CheckKeeps(s: State, c: Constraint, a: Action)
    requires Inv(s, c) && Enabled(s, c, a) && a.Check?
    ensures ScanInv(Apply(s, c, a), c)
  {
    hide Satisfies;
  }

  lemma WriteKeeps(s: State, c: Constraint, a: Action)
    requires Inv(s, c) && Enabled(s, c, a) && (a.Put? || a.Remove?)
    ensures ScanInv(Apply(s, c, a), c)
  {
    hide Satisfies;
    var known := Known(s);
    if known.Some? {
      if a.Put? { PutKeepsBelow(c, s.nodes, a.id, a.attributes, known.value); }
      else { RemoveKeepsBelow(c, s.nodes, a.id, known.value); }
    }
    hide SatisfiedBelow;
  }

  lemma ScanKept(s: State, c: Constraint, a: Action)
    requires Inv(s, c) && Enabled(s, c, a)
    ensures ScanInv(Apply(s, c, a), c)
  {
    if a.Check? { CheckKeeps(s, c, a); }
    else if a.Put? || a.Remove? { WriteKeeps(s, c, a); }
    else { hide Satisfies, SatisfiedBelow; }
  }

  lemma {:induction false} RunInv(nodes: Nodes, c: Constraint, run: seq<Action>)
    requires Run(nodes, c, run).Some?
    ensures Inv(Run(nodes, c, run).value, c)
  {
    if run != [] {
      var k := |run| - 1;
      RunInv(nodes, c, run[..k]);
      LockKept(Run(nodes, c, run[..k]).value, c, run[k]);
      ScanKept(Run(nodes, c, run[..k]).value, c, run[k]);
    }
  }

  // ---------------------------------------------------------------------------
  // Safety of all runs
  // ---------------------------------------------------------------------------

  /** An active constraint that was not dropped is satisfied by every node of the label, when
      it became active and ever after. */
  lemma ActiveIsSatisfied(nodes: Nodes, c: Constraint, run: seq<Action>)
    requires Run(nodes, c, run).Some?
    requires var s := Run(nodes, c, run).value; s.status == Active && !Dropped(s)
    ensures AllSatisfied(c, Run(nodes, c, run).value.nodes)
  {
    RunInv(nodes, c, run);
  }

  /** The constraint was dropped, and a batch was begun after that. */
  ghost predicate BatchAfterDrop(run: seq<Action>) {
    exists i, j :: 0 <= i < j < |run| && run[i] == Drop && run[j] == Lock
  }

  /** The scan is given up exactly when a batch begins after a drop. */
  lemma {:induction false} CutExact(nodes: Nodes, c: Constraint, run: seq<Action>)
    requires Run(nodes, c, run).Some?
    ensures var s := Run(nodes, c, run).value;
      && (Dropped(s) <==> Drop in run)
      && (s.cut <==> BatchAfterDrop(run))
      && s.changes >= 1
  {
    if run != [] {
      var k := |run| - 1;
      var f, a := run[..k], run[k];
      assert run == f + [a];
      CutExact(nodes, c, f);
      BatchAfterDropStep(f, a);
      var s := Run(nodes, c, f).value;
      assert Run(nodes, c, run).value == Apply(s, c, a);
      RunInv(nodes, c, f);
      hide Run, Satisfies, BatchAfterDrop;
    }
  }

  lemma BatchAfterDropStep(f: seq<Action>, a: Action)
    ensures BatchAfterDrop(f + [a]) <==> BatchAfterDrop(f) || (a == Lock && Drop in f)
  {
    var run := f + [a];
    assert forall i :: 0 <= i < |f| ==> run[i] == f[i];
    assert run[|f|] == a;
    if BatchAfterDrop(f) {
      var i, j :| 0 <= i < j < |f| && f[i] == Drop && f[j] == Lock;
      assert run[i] == Drop && run[j] == Lock;
    } else if a == Lock && Drop in f {
      var i :| 0 <= i < |f| && f[i] == Drop;
      assert run[i] == Drop && run[|f|] == Lock;
    }
  }

  /** The status is set under the lock, and the constraint becomes active exactly when every
      node satisfies it at that moment or a batch was begun after a drop. */
  lemma VerdictExact(nodes: Nodes, c: Constraint, run: seq<Action>)
    requires Run(nodes, c, run).Some? && Enabled(Run(nodes, c, run).value, c, SetStatus)
    ensures var s := Run(nodes, c, run).value; var s' := Apply(s, c, SetStatus);
      && s.reading && !s.writing && s'.status != Pending
      && (s'.status == Active <==> AllSatisfied(c, s.nodes) || BatchAfterDrop(run))
  {
    RunInv(nodes, c, run);
    CutExact(nodes, c, run);
    hide Run, BatchAfterDrop;
  }

  /** Every acquisition of the lock has one release. */
  lemma LocksBalanced(nodes: Nodes, c: Constraint, run: seq<Action>)
    requires Run(nodes, c, run).Some?
    ensures var s := Run(nodes, c, run).value;
      && s.acquired == s.released + One(s.reading)
      && (s.pc.Done? ==> s.acquired == s.released && s.status != Pending)
  {
    RunInv(nodes, c, run);
  }

  /** A batch begun after a drop makes the constraint active, whatever the nodes are. */
  lemma DropActivates(nodes: Nodes, c: Constraint, run: seq<Action>)
    requires Run(nodes, c, run).Some? && Enabled(Run(nodes, c, run).value, c, SetStatus) && BatchAfterDrop(run)
    ensures Apply(Run(nodes, c, run).value, c, SetStatus).status == Active
  {
    VerdictExact(nodes, c, run);
  }

  /** So an active constraint may be violated once it was dropped. */
  lemma DroppedMayBeViolated() returns (nodes: Nodes, c: Constraint)
    ensures var s := Run(nodes, c, [Drop, Lock, SetStatus]);
      s.Some? && s.value.status == Active && !AllSatisfied(c, s.value.nodes)
  {
    nodes, c := map[0 := map[]], Constraint(Mandatory, [7]);
    var s0 := Created(nodes);
    var s1 := Apply(s0, c, Drop);
    var s2 := Apply(s1, c, Lock);
    assert [Drop][..0] == [] && [Drop, Lock][..1] == [Drop] && [Drop, Lock, SetStatus][..2] == [Drop, Lock];
    assert Run(nodes, c, [Drop]) == Some(s1);
    assert Run(nodes, c, [Drop, Lock]) == Some(s2);
    assert c.attributes[0] !in nodes[0];
    assert !Satisfies(c, nodes, 0);
  }
}
