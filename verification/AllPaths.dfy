/** Enumeration of all paths from a source node, one path per call.

    `Explore` lists the paths a depth first search finds; it is the reference for
    the resumable loop (`NextPath`), and is itself characterised by `IsResult`,
    which speaks about the graph only. */
module AllPaths {
  import opened Options
  import opened PropertyGraph
  import opened AllPathsContext

  /** A fixed request: lengths count nodes, not edges. */
  datatype Query = Query(t: Traversal, dir: Direction, minLen: nat, maxLen: nat, dst: Option<NodeID>)

  // ---------------------------------------------------------------------------
  // What the search finds
  // ---------------------------------------------------------------------------

  /** A path has one edge between each two nodes. */
  predicate Shaped(p: Path) {
    |p.edges| == if p.nodes == [] then 0 else |p.nodes| - 1
  }

  function Append(p: Path, c: Connection): Path {
    Path(p.nodes + [c.node], if p.nodes == [] || c.edge.None? then p.edges else p.edges + [c.edge.value])
  }

  /** The path may be handed to the caller. */
  predicate Emits(q: Query, p: Path) {
    && p.nodes != []
    && q.minLen <= |p.nodes| <= q.maxLen
    && (q.dst.Some? ==> p.nodes[|p.nodes| - 1] == q.dst.value)
  }

  /** A node already on the path is appended but not expanded. */
  predicate Expands(q: Query, p: Path, c: Connection) {
    |p.nodes| + 1 < q.maxLen && c.node !in p.nodes
  }

  function Children(q: Query, p: Path, c: Connection): seq<Connection> {
    Neighbors(q.t, q.dir, c.node, if p.nodes != [] && c.edge.Some? then Some(c.edge.value.id) else None)
  }

  ghost function Unused(q: Query, p: Path): set<NodeID> {
    set n | n in q.t.g.nodes && n !in p.nodes
  }

  /** Every connection leads to a node of the graph, over an edge unless the
      path is empty. */
  ghost predicate Connected(q: Query, p: Path, conns: seq<Connection>) {
    forall c :: c in conns ==> c.node in q.t.g.nodes && (c.edge.Some? <==> p.nodes != [])
  }

  lemma AppendUses(q: Query, p: Path, c: Connection)
    requires c.node in q.t.g.nodes && c.node !in p.nodes
    ensures |Unused(q, Append(p, c))| < |Unused(q, p)|
  {
    assert Unused(q, Append(p, c)) == Unused(q, p) - {c.node};
    assert c.node in Unused(q, p);
  }

  lemma ChildrenConnected(q: Query, p: Path, c: Connection)
    requires q.t.g.Valid()
    ensures Connected(q, Append(p, c), Children(q, p, c))
  {
    NeighborsInGraph(q.t, q.dir, c.node, if p.nodes != [] && c.edge.Some? then Some(c.edge.value.id) else None);
  }

  /** Paths found below `p` when the connections `conns` are pending, last first. */
  ghost function Explore(q: Query, p: Path, conns: seq<Connection>): (r: seq<Path>)
    requires q.t.g.Valid() && Connected(q, p, conns)
    decreases |Unused(q, p)|, |conns|
  {
    if conns == [] then []
    else
      var k := |conns| - 1;
      ExploreOne(q, p, conns[k]) + Explore(q, p, conns[..k])
  }

  ghost function ExploreOne(q: Query, p: Path, c: Connection): (r: seq<Path>)
    requires q.t.g.Valid() && Connected(q, p, [c])
    decreases |Unused(q, p)|, 0
  {
    assert c in [c];
    var p' := Append(p, c);
    (if Emits(q, p') then [p'] else []) +
    (if Expands(q, p, c) then
       AppendUses(q, p, c); ChildrenConnected(q, p, c);
       Explore(q, p', Children(q, p, c))
     else [])
  }

  /** Loop iterations needed to work off the pending connections: one to append
      and one to drop each node. */
  ghost function Effort(q: Query, p: Path, conns: seq<Connection>): (n: nat)
    requires q.t.g.Valid() && Connected(q, p, conns)
    decreases |Unused(q, p)|, |conns|
  {
    if conns == [] then 0
    else
      var k := |conns| - 1;
      EffortOne(q, p, conns[k]) + Effort(q, p, conns[..k])
  }

  ghost function EffortOne(q: Query, p: Path, c: Connection): (n: nat)
    requires q.t.g.Valid() && Connected(q, p, [c])
    decreases |Unused(q, p)|, 0
  {
    assert c in [c];
    2 + if Expands(q, p, c) then
          AppendUses(q, p, c); ChildrenConnected(q, p, c);
          Effort(q, Append(p, c), Children(q, p, c))
        else 0
  }

  // ---------------------------------------------------------------------------
  // What the graph promises
  // ---------------------------------------------------------------------------

  /** `p` is a path the caller should receive: it starts at `src`, every edge is
      admissible and leads from one node to the next, no edge is followed twice
      in a row, only the last node may repeat an earlier one, and the length and
      the end are as requested. */
  ghost predicate IsResult(q: Query, src: NodeID, p: Path) {
    && |p.nodes| == |p.edges| + 1
    && p.nodes[0] == src
    && (forall i :: 0 <= i < |p.edges| ==> Admissible(q.t, p.edges[i]))
    && (forall i :: 0 <= i < |p.edges| ==> Leads(q.dir, p.edges[i], p.nodes[i], p.nodes[i + 1]))
    && (forall i, j :: 0 <= i < j < |p.nodes| - 1 ==> p.nodes[i] != p.nodes[j])
    && (forall i :: 0 <= i < |p.edges| - 1 ==> p.edges[i].id != p.edges[i + 1].id)
    && Emits(q, p)
  }

  /** Position `j` of path `r` is entered through connection `At(r, j)`. */
  function At(r: Path, j: nat): Connection
    requires |r.nodes| == |r.edges| + 1 && j < |r.nodes|
  {
    Connection(r.nodes[j], if j == 0 then None else Some(r.edges[j - 1]))
  }

  function Prefix(r: Path, k: nat): Path
    requires Shaped(r) && k <= |r.nodes|
  {
    Path(r.nodes[..k], r.edges[..if k == 0 then 0 else k - 1])
  }

  /** Every node of `r` from position `k` on was reached by expanding the one
      before it. */
  ghost predicate Grows(q: Query, r: Path, k: nat)
    requires |r.nodes| == |r.edges| + 1
  {
    forall j :: k <= j < |r.nodes| - 1 ==>
      r.nodes[j] !in r.nodes[..j] && At(r, j + 1) in Children(q, Prefix(r, j), At(r, j))
  }

  /** `r` continues `p` through one of the connections `conns`. */
  ghost predicate Continues(q: Query, p: Path, conns: seq<Connection>, r: Path) {
    && |r.nodes| == |r.edges| + 1
    && |p.nodes| < |r.nodes|
    && p == Prefix(r, |p.nodes|)
    && At(r, |p.nodes|) in conns
    && Grows(q, r, |p.nodes|)
    && Emits(q, r)
  }

  lemma AppendIsPrefix(p: Path, r: Path, c: Connection)
    requires |r.nodes| == |r.edges| + 1 && |p.nodes| < |r.nodes|
    requires p == Prefix(r, |p.nodes|) && c == At(r, |p.nodes|)
    ensures Append(p, c) == Prefix(r, |p.nodes| + 1)
  {
  }

  lemma PrefixIsAppend(p: Path, r: Path, c: Connection)
    requires |r.nodes| == |r.edges| + 1 && |p.nodes| < |r.nodes|
    requires Shaped(p)
    requires c.edge.Some? <==> p.nodes != []
    requires Append(p, c) == Prefix(r, |p.nodes| + 1)
    ensures p == Prefix(r, |p.nodes|) && c == At(r, |p.nodes|)
  {
    var n := |p.nodes|;
    var a := Append(p, c);
    assert p.nodes == a.nodes[..n];
    assert r.nodes[..n] == r.nodes[..n + 1][..n];
    assert a.nodes[n] == c.node;
    if n > 0 {
      assert a.edges[n - 1] == c.edge.value;
      assert p.edges == a.edges[..n - 1];
      assert r.edges[..n - 1] == r.edges[..n][..n - 1];
    }
  }

  /** The search finds exactly the continuations of `p`. */
  lemma {:induction false} ExploreExact(q: Query, p: Path, conns: seq<Connection>, r: Path)
    requires q.t.g.Valid() && Connected(q, p, conns) && Shaped(p)
    ensures r in Explore(q, p, conns) <==> Continues(q, p, conns, r)
    decreases |Unused(q, p)|, |conns|
  {
    if conns != [] {
      var k := |conns| - 1;
      assert conns == conns[..k] + [conns[k]];
      ExploreOneExact(q, p, conns[k], r);
      ExploreExact(q, p, conns[..k], r);
    }
  }

  lemma {:induction false} ExploreOneExact(q: Query, p: Path, c: Connection, r: Path)
    requires q.t.g.Valid() && Connected(q, p, [c]) && Shaped(p)
    ensures r in ExploreOne(q, p, c) <==> Continues(q, p, [c], r)
    decreases |Unused(q, p)|, 0
  {
    assert c in [c];
    ContinuesOne(q, p, c, r);
    if Expands(q, p, c) {
      AppendUses(q, p, c);
      ChildrenConnected(q, p, c);
      ExploreExact(q, Append(p, c), Children(q, p, c), r);
    }
  }

  /** A path through `c` either stops there or goes on to a neighbour of `c`. */
  lemma ContinuesOne(q: Query, p: Path, c: Connection, r: Path)
    requires Shaped(p) && (c.edge.Some? <==> p.nodes != [])
    ensures Continues(q, p, [c], r) <==>
      || (r == Append(p, c) && Emits(q, r))
      || (Expands(q, p, c) && Continues(q, Append(p, c), Children(q, p, c), r))
  {
    var p' := Append(p, c);
    if Continues(q, p, [c], r) {
      AppendIsPrefix(p, r, c);
      if |r.nodes| > |p'.nodes| {
        assert r.nodes[|p.nodes|] !in r.nodes[..|p.nodes|];
      } else {
        assert r == Prefix(r, |r.nodes|);
      }
    }
    if r == p' && Emits(q, r) {
      assert r == Prefix(r, |r.nodes|);
      PrefixIsAppend(p, r, c);
      assert Continues(q, p, [c], r);
    }
    if Expands(q, p, c) && Continues(q, p', Children(q, p, c), r) {
      PrefixIsAppend(p, r, c);
      assert Grows(q, r, |p.nodes|);
      assert Continues(q, p, [c], r);
    }
  }

  /** How often a path is found: going both ways, a self loop at its end is offered twice. */
  function Times(q: Query, r: Path): nat {
    var n := |r.nodes|;
    if q.dir == Both && n > 1 && r.nodes[n - 1] == r.nodes[n - 2] then 2 else 1
  }

  /** How often the step from position `j` is offered. */
  lemma StepCount(q: Query, r: Path, j: nat)
    requires q.t.g.Valid() && DistinctRelations(q.t.relationIDs)
    requires |r.nodes| == |r.edges| + 1 && j < |r.edges|
    requires At(r, j + 1) in Children(q, Prefix(r, j), At(r, j))
    ensures multiset(Children(q, Prefix(r, j), At(r, j)))[At(r, j + 1)] ==
      if q.dir == Both && r.nodes[j + 1] == r.nodes[j] then 2 else 1
  {
    NeighborsCount(q.t, q.dir, r.nodes[j], if j == 0 then None else Some(r.edges[j - 1].id), At(r, j + 1));
  }

  lemma ContinuesVia(q: Query, p: Path, conns: seq<Connection>, r: Path, some: seq<Connection>)
    requires Continues(q, p, conns, r)
    ensures Continues(q, p, some, r) <==> At(r, |p.nodes|) in some
  {
    hide Grows, Emits;
  }

  /** How often `r` is found below `p` through its first connection. */
  function TimesBelow(q: Query, p: Path, r: Path): nat {
    if |r.nodes| == |p.nodes| + 1 then 1 else Times(q, r)
  }

  function Product(m: nat, n: nat): nat { m * n }

  lemma Distribute(m: nat, n: nat)
    ensures Product(0, n) == 0 && Product(m + 1, n) == Product(m, n) + n
  {
  }

  /** Every continuation is found as often as its first connection is pending, times
      what its last step contributes. */
  lemma {:induction false} ExploreCount(q: Query, p: Path, conns: seq<Connection>, r: Path)
    requires q.t.g.Valid() && DistinctRelations(q.t.relationIDs)
    requires Connected(q, p, conns) && Shaped(p) && Continues(q, p, conns, r)
    ensures multiset(Explore(q, p, conns))[r] == Product(multiset(conns)[At(r, |p.nodes|)], TimesBelow(q, p, r))
    decreases |Unused(q, p)|, |conns|
  {
    hide Grows, Emits, ExploreOne, TimesBelow, Unused, Prefix, Product;
    var k, a := |conns| - 1, At(r, |p.nodes|);
    var c, f := conns[k], conns[..k];
    assert conns == f + [c];
    assert multiset(conns)[a] == multiset(f)[a] + if c == a then 1 else 0;
    ContinuesVia(q, p, conns, r, [c]);
    ContinuesVia(q, p, conns, r, f);
    hide Continues;
    if c == a { ExploreOneCount(q, p, c, r); } else { ExploreOneExact(q, p, c, r); }
    if a in f { ExploreCount(q, p, f, r); } else { ExploreExact(q, p, f, r); }
    Distribute(multiset(f)[a], TimesBelow(q, p, r));
  }

  lemma {:induction false} ExploreOneCount(q: Query, p: Path, c: Connection, r: Path)
    requires q.t.g.Valid() && DistinctRelations(q.t.relationIDs)
    requires Connected(q, p, [c]) && Shaped(p) && Continues(q, p, [c], r)
    ensures multiset(ExploreOne(q, p, c))[r] == TimesBelow(q, p, r)
    decreases |Unused(q, p)|, 0
  {
    assert c in [c];
    var p', cs := Append(p, c), Children(q, p, c);
    AppendIsPrefix(p, r, c);
    ContinuesOne(q, p, c, r);
    assert p'.nodes == p.nodes + [c.node] && c == At(r, |p.nodes|) && p == Prefix(r, |p.nodes|);
    if Expands(q, p, c) {
      AppendUses(q, p, c);
      ChildrenConnected(q, p, c);
      ExploreExact(q, p', cs, r);
      if Continues(q, p', cs, r) {
        ExploreCount(q, p', cs, r);
        ChildTimes(q, p, c, r);
      }
    }
    hide Explore, Connected, Prefix, Neighbors, Unused;
  }

  /** Only the last step can be a self loop. */
  lemma ChildStep(q: Query, p: Path, c: Connection, r: Path)
    requires q.t.g.Valid() && DistinctRelations(q.t.relationIDs)
    requires Shaped(p) && Continues(q, p, [c], r) && Continues(q, Append(p, c), Children(q, p, c), r)
    ensures var m := multiset(Children(q, p, c))[At(r, |p.nodes| + 1)];
      if |r.nodes| == |p.nodes| + 2 then m == Times(q, r) else m == 1
  {
    hide Neighbors, Children, Admissible, Emits;
    var n := |p.nodes|;
    assert p == Prefix(r, n) && c == At(r, n);
    StepCount(q, r, n);
    if |r.nodes| > n + 2 {
      assert r.nodes[n + 1] !in r.nodes[..n + 1];
      assert r.nodes[..n + 1][n] == r.nodes[n];
    }
  }

  lemma ChildTimes(q: Query, p: Path, c: Connection, r: Path)
    requires q.t.g.Valid() && DistinctRelations(q.t.relationIDs)
    requires Shaped(p) && Continues(q, p, [c], r) && Continues(q, Append(p, c), Children(q, p, c), r)
    ensures Product(multiset(Children(q, p, c))[At(r, |p.nodes| + 1)], TimesBelow(q, Append(p, c), r))
            == TimesBelow(q, p, r)
  {
    ChildStep(q, p, c, r);
    var m := multiset(Children(q, p, c))[At(r, |p.nodes| + 1)];
    hide Times, Children;
    if |r.nodes| == |p.nodes| + 2 {
      assert TimesBelow(q, Append(p, c), r) == 1;
    } else {
      assert m == 1;
    }
  }

  /** One step of a path, in terms of the graph. */
  lemma StepExact(q: Query, r: Path, j: nat)
    requires |r.nodes| == |r.edges| + 1 && j < |r.edges|
    ensures At(r, j + 1) in Children(q, Prefix(r, j), At(r, j)) <==>
      && Admissible(q.t, r.edges[j])
      && Leads(q.dir, r.edges[j], r.nodes[j], r.nodes[j + 1])
      && (j > 0 ==> r.edges[j - 1].id != r.edges[j].id)
  {
    NeighborsExact(q.t, q.dir, r.nodes[j], if j == 0 then None else Some(r.edges[j - 1].id), At(r, j + 1));
  }

  /** The continuations of the empty path are the promised paths. */
  lemma ContinuesIsResult(q: Query, src: NodeID, r: Path)
    ensures Continues(q, Path([], []), [Connection(src, None)], r) <==> IsResult(q, src, r)
  {
    if Continues(q, Path([], []), [Connection(src, None)], r) {
      assert At(r, 0).node == src;
      forall j | 0 <= j < |r.edges|
        ensures Admissible(q.t, r.edges[j]) && Leads(q.dir, r.edges[j], r.nodes[j], r.nodes[j + 1])
        ensures j > 0 ==> r.edges[j - 1].id != r.edges[j].id
      {
        StepExact(q, r, j);
      }
      forall i, j | 0 <= i < j < |r.nodes| - 1
        ensures r.nodes[i] != r.nodes[j]
      {
        assert r.nodes[i] in r.nodes[..j];
      }
    }
    if IsResult(q, src, r) {
      assert Prefix(r, 0) == Path([], []);
      assert At(r, 0) == Connection(src, None);
      forall j | 0 <= j < |r.nodes| - 1
        ensures r.nodes[j] !in r.nodes[..j] && At(r, j + 1) in Children(q, Prefix(r, j), At(r, j))
      {
        StepExact(q, r, j);
        assert j > 0 ==> r.edges[j - 1].id != r.edges[j - 1 + 1].id;
      }
    }
  }

  /** All paths from `src`, in the order they are returned. */
  ghost function Results(q: Query, src: NodeID): (r: seq<Path>)
    requires q.t.g.Valid() && src in q.t.g.nodes
  {
    Explore(q, Path([], []), [Connection(src, None)])
  }

  /** The enumeration returns the promised paths and no others, each exactly once; only
      going both ways, a path that ends with a self loop comes twice. */
  lemma ResultsExact(q: Query, src: NodeID, p: Path)
    requires q.t.g.Valid() && src in q.t.g.nodes
    ensures p in Results(q, src) <==> IsResult(q, src, p)
    ensures DistinctRelations(q.t.relationIDs) ==>
      multiset(Results(q, src))[p] == if IsResult(q, src, p) then Times(q, p) else 0
  {
    var conns := [Connection(src, None)];
    ExploreExact(q, Path([], []), conns, p);
    ContinuesIsResult(q, src, p);
    if IsResult(q, src, p) && DistinctRelations(q.t.relationIDs) {
      ExploreCount(q, Path([], []), conns, p);
      assert At(p, 0) == conns[0];
    }
  }

  /** Going one way, following an edge twice in a row would need a self loop on a
      repeated node, so that clause of `IsResult` excludes nothing. */
  lemma DirectedNeverRepeatsEdge(q: Query, src: NodeID, p: Path)
    requires q.dir != Both && q.t.g.Valid()
    requires |p.nodes| == |p.edges| + 1 && p.nodes[0] == src
    requires forall i :: 0 <= i < |p.edges| ==> Admissible(q.t, p.edges[i])
    requires forall i :: 0 <= i < |p.edges| ==> Leads(q.dir, p.edges[i], p.nodes[i], p.nodes[i + 1])
    requires forall i, j :: 0 <= i < j < |p.nodes| - 1 ==> p.nodes[i] != p.nodes[j]
    requires Emits(q, p)
    ensures IsResult(q, src, p)
  {
    forall i | 0 <= i < |p.edges| - 1
      ensures p.edges[i].id != p.edges[i + 1].id
    {
      var e, f := p.edges[i], p.edges[i + 1];
      assert p.nodes[i] != p.nodes[i + 1];
      assert Leads(q.dir, e, p.nodes[i], p.nodes[i + 1]) && Leads(q.dir, f, p.nodes[i + 1], p.nodes[i + 2]);
      assert Admissible(q.t, e) && Admissible(q.t, f);
      EdgeIdsUnique(q.t.g, e, f);
    }
  }

  // ---------------------------------------------------------------------------
  // The resumable search
  // ---------------------------------------------------------------------------

  /** The pending connections fit the current path, and nothing is pending above it. */
  ghost predicate Consistent(q: Query, p: Path, levels: seq<seq<Connection>>) {
    && Shaped(p)
    && 0 < |levels| && |p.nodes| <= |levels|
    && (forall k :: 0 <= k <= |p.nodes| ==> Connected(q, Prefix(p, k), LevelAt(levels, k)))
    && (forall k: nat :: k > |p.nodes| ==> LevelAt(levels, k) == [])
  }

  /** Paths still to come from levels `k` down to 0. */
  ghost function Pending(q: Query, p: Path, levels: seq<seq<Connection>>, k: nat): (r: seq<Path>)
    requires q.t.g.Valid() && Consistent(q, p, levels) && k <= |p.nodes|
  {
    Explore(q, Prefix(p, k), LevelAt(levels, k)) + if k == 0 then [] else Pending(q, p, levels, k - 1)
  }

  /** Loop iterations still to come from levels `k` down to 0. */
  ghost function Work(q: Query, p: Path, levels: seq<seq<Connection>>, k: nat): (n: nat)
    requires q.t.g.Valid() && Consistent(q, p, levels) && k <= |p.nodes|
  {
    Effort(q, Prefix(p, k), LevelAt(levels, k)) + if k == 0 then 0 else 1 + Work(q, p, levels, k - 1)
  }

  /** Lower levels depend on the lower part of the path only. */
  lemma {:induction false} LowerLevels(q: Query, p: Path, levels: seq<seq<Connection>>,
                                       p': Path, levels': seq<seq<Connection>>, k: nat)
    requires q.t.g.Valid() && Consistent(q, p, levels) && Consistent(q, p', levels')
    requires k <= |p.nodes| && k <= |p'.nodes| && Prefix(p, k) == Prefix(p', k)
    requires forall j: nat :: j <= k ==> LevelAt(levels, j) == LevelAt(levels', j)
    ensures Pending(q, p, levels, k) == Pending(q, p', levels', k)
    ensures Work(q, p, levels, k) == Work(q, p', levels', k)
  {
    if k > 0 {
      assert Prefix(p, k - 1) == Prefix(Prefix(p, k), k - 1) == Prefix(p', k - 1);
      LowerLevels(q, p, levels, p', levels', k - 1);
    }
  }

  /** The levels after the top connection `c` was popped and, if it may be,
      expanded. */
  ghost predicate Advanced(q: Query, p: Path, levels: seq<seq<Connection>>, rest: seq<Connection>, c: Connection,
                           levels': seq<seq<Connection>>) {
    && LevelAt(levels, |p.nodes|) == rest + [c]
    && |levels'| >= |p.nodes| + 1
    && (forall k: nat :: k < |p.nodes| ==> LevelAt(levels', k) == LevelAt(levels, k))
    && LevelAt(levels', |p.nodes|) == rest
    && LevelAt(levels', |p.nodes| + 1) == (if Expands(q, p, c) then Children(q, p, c) else [])
    && (forall k: nat :: k > |p.nodes| + 1 ==> LevelAt(levels', k) == [])
  }

  /** Popping `c` and then growing the level above it advances the levels. */
  lemma PoppedAndGrown(q: Query, p: Path, levels: seq<seq<Connection>>, popped: seq<seq<Connection>>,
                       levels': seq<seq<Connection>>, c: Connection)
    requires Consistent(q, p, levels)
    requires |levels| == |popped| && |p.nodes| < |popped|
    requires forall k: nat :: k != |p.nodes| ==> LevelAt(popped, k) == LevelAt(levels, k)
    requires popped[|p.nodes|] + [c] == LevelAt(levels, |p.nodes|)
    requires Grown(popped, levels', |p.nodes| + 1, if Expands(q, p, c) then Children(q, p, c) else [])
    ensures Advanced(q, p, levels, LevelAt(levels', |p.nodes|), c, levels')
  {
    var d := |p.nodes|;
    assert LevelAt(popped, d + 1) == LevelAt(levels, d + 1) == [];
    assert LevelAt(levels', d) == LevelAt(popped, d);
    forall k: nat | k < d
      ensures LevelAt(levels', k) == LevelAt(levels, k)
    {
      assert LevelAt(popped, k) == LevelAt(levels, k);
    }
    forall k: nat | k > d + 1
      ensures LevelAt(levels', k) == []
    {
      assert LevelAt(popped, k) == LevelAt(levels, k);
    }
  }

  lemma AdvanceConsistent(q: Query, p: Path, levels: seq<seq<Connection>>, rest: seq<Connection>, c: Connection,
                          levels': seq<seq<Connection>>)
    requires q.t.g.Valid() && Consistent(q, p, levels) && Advanced(q, p, levels, rest, c, levels')
    ensures Connected(q, p, [c]) && Connected(q, p, rest)
    ensures Consistent(q, Append(p, c), levels')
    ensures forall k: nat :: k <= |p.nodes| ==> Prefix(Append(p, c), k) == Prefix(p, k)
  {
    hide Neighbors;
    var p', d := Append(p, c), |p.nodes|;
    assert Prefix(p, d) == p;
    assert c in LevelAt(levels, d) && forall x :: x in rest ==> x in LevelAt(levels, d);
    ChildrenConnected(q, p, c);
    assert Prefix(p', d + 1) == p';
    forall k | 0 <= k <= d + 1
      ensures Connected(q, Prefix(p', k), LevelAt(levels', k))
      ensures k <= d ==> Prefix(p', k) == Prefix(p, k)
    {
      assert k <= d ==> Prefix(p', k) == Prefix(p, k);
    }
  }

  /** Appending the top connection to the path moves its part of the pending
      paths one level up. */
  lemma AdvancePending(q: Query, p: Path, levels: seq<seq<Connection>>, rest: seq<Connection>, c: Connection,
                       levels': seq<seq<Connection>>)
    requires q.t.g.Valid() && Consistent(q, p, levels) && Advanced(q, p, levels, rest, c, levels')
    ensures Consistent(q, Append(p, c), levels')
    ensures Pending(q, p, levels, |p.nodes|)
            == (if Emits(q, Append(p, c)) then [Append(p, c)] else [])
               + Pending(q, Append(p, c), levels', |p.nodes| + 1)
  {
    hide Neighbors;
    AdvanceConsistent(q, p, levels, rest, c, levels');
    var p', d := Append(p, c), |p.nodes|;
    assert Prefix(p, d) == p && Prefix(p', d + 1) == p';
    assert (rest + [c])[..|rest|] == rest;
    if d > 0 {
      LowerLevels(q, p, levels, p', levels', d - 1);
    }
    var emitted := if Emits(q, p') then [p'] else [];
    var below := if d == 0 then [] else Pending(q, p, levels, d - 1);
    var above := Explore(q, p', LevelAt(levels', d + 1));
    var here := Explore(q, p, rest);
    assert Explore(q, p, rest + [c]) == ExploreOne(q, p, c) + here;
    assert ExploreOne(q, p, c) == emitted + above;
    assert Pending(q, p', levels', d) == here + below;
    assert Pending(q, p', levels', d + 1) == above + Pending(q, p', levels', d);
    assert Pending(q, p, levels, d) == (ExploreOne(q, p, c) + here) + below;
    Regroup(emitted, above, here, below);
  }

  lemma Regroup<T>(a: seq<T>, b: seq<T>, c: seq<T>, d: seq<T>)
    ensures ((a + b) + c) + d == a + (b + (c + d))
  {
  }

  /** Appending the top connection takes one iteration. */
  lemma AdvanceWork(q: Query, p: Path, levels: seq<seq<Connection>>, rest: seq<Connection>, c: Connection,
                    levels': seq<seq<Connection>>)
    requires q.t.g.Valid() && Consistent(q, p, levels) && Advanced(q, p, levels, rest, c, levels')
    ensures Consistent(q, Append(p, c), levels')
    ensures Work(q, p, levels, |p.nodes|) == 1 + Work(q, Append(p, c), levels', |p.nodes| + 1)
  {
    hide Neighbors;
    AdvanceConsistent(q, p, levels, rest, c, levels');
    var p', d := Append(p, c), |p.nodes|;
    assert Prefix(p, d) == p && Prefix(p', d + 1) == p';
    assert (rest + [c])[..|rest|] == rest;
    if d > 0 {
      LowerLevels(q, p, levels, p', levels', d - 1);
    }
    assert Effort(q, p, rest + [c]) == EffortOne(q, p, c) + Effort(q, p, rest);
    assert EffortOne(q, p, c) == 2 + Effort(q, p', LevelAt(levels', d + 1));
    assert Work(q, p', levels', d + 1) == Effort(q, p', LevelAt(levels', d + 1)) + 1 + Work(q, p', levels', d);
  }

  /** Dropping the last node, once nothing is pending above it, loses no path. */
  lemma Backtrack(q: Query, p: Path, levels: seq<seq<Connection>>)
    requires q.t.g.Valid() && Consistent(q, p, levels)
    requires p.nodes != [] && LevelAt(levels, |p.nodes|) == []
    ensures var p' := Prefix(p, |p.nodes| - 1);
            && Consistent(q, p', levels)
            && Pending(q, p, levels, |p.nodes|) == Pending(q, p', levels, |p'.nodes|)
            && Work(q, p, levels, |p.nodes|) == 1 + Work(q, p', levels, |p'.nodes|)
  {
    hide Neighbors, ExploreOne, EffortOne;
    var d := |p.nodes|;
    var p' := Prefix(p, d - 1);
    forall k | 0 <= k <= d - 1
      ensures Prefix(p', k) == Prefix(p, k) && Connected(q, Prefix(p', k), LevelAt(levels, k))
    {
      assert Prefix(p', k) == Prefix(p, k);
    }
    LowerLevels(q, p, levels, p', levels, d - 1);
  }

  ghost predicate Ready(ctx: AllPathsCtx, q: Query)
    reads ctx
  {
    && q.t.g.Valid()
    && q == Query(ctx.t, ctx.dir, ctx.minLen, ctx.maxLen, ctx.dst)
    && ctx.neighbors == []
    && Consistent(q, Path(ctx.nodes, ctx.edges), ctx.levels)
  }

  /** The paths later calls will return. */
  ghost function Remaining(ctx: AllPathsCtx, q: Query): (r: seq<Path>)
    requires Ready(ctx, q)
    reads ctx
  {
    Pending(q, Path(ctx.nodes, ctx.edges), ctx.levels, |ctx.nodes|)
  }

  /** Iterations left until every path has been returned. */
  ghost function Remains(ctx: AllPathsCtx, q: Query): (n: nat)
    requires Ready(ctx, q)
    reads ctx
  {
    Work(q, Path(ctx.nodes, ctx.edges), ctx.levels, |ctx.nodes|)
  }

  /** Appends the top connection of the deepest level to the path, and adds its
      neighbours to the next level unless it may not be expanded. */
  method AdvancePath(ctx: AllPathsCtx, ghost q: Query) returns (frontier: Connection)
    requires Ready(ctx, q) && LevelAt(ctx.levels, |ctx.nodes|) != []
    modifies ctx`levels, ctx`neighbors, ctx`nodes, ctx`edges
    ensures ctx.neighbors == []
    ensures var p := old(Path(ctx.nodes, ctx.edges));
            && Path(ctx.nodes, ctx.edges) == Append(p, frontier)
            && Advanced(q, p, old(ctx.levels), LevelAt(ctx.levels, |p.nodes|), frontier, ctx.levels)
  {
    var depth := |ctx.nodes|;
    ghost var p, levels := Path(ctx.nodes, ctx.edges), ctx.levels;
    frontier := ctx.PopConnection(depth);
    assert frontier.edge.Some? <==> depth > 0 by {
      assert Prefix(p, depth) == p;
      assert frontier in LevelAt(levels, depth);
    }
    var onPath := frontier.node in ctx.nodes;
    ctx.nodes := ctx.nodes + [frontier.node];
    if depth > 0 { ctx.edges := ctx.edges + [frontier.edge.value]; }
    depth := depth + 1;
    ghost var popped := ctx.levels;
    if depth < ctx.maxLen && !onPath {
      ctx.AddNeighbors(frontier, depth);
    }
    PoppedAndGrown(q, p, levels, popped, ctx.levels, frontier);
  }

  /** One forward iteration: what it appends is the next path, if it may be
      returned, and no other path is gained or lost. */
  method Forward(ctx: AllPathsCtx, ghost q: Query)
    requires Ready(ctx, q) && LevelAt(ctx.levels, |ctx.nodes|) != []
    modifies ctx`levels, ctx`neighbors, ctx`nodes, ctx`edges
    ensures Ready(ctx, q) && ctx.nodes != []
    ensures var p := Path(ctx.nodes, ctx.edges);
            old(Remaining(ctx, q)) == (if Emits(q, p) then [p] else []) + Remaining(ctx, q)
    ensures Remains(ctx, q) + 1 == old(Remains(ctx, q))
  {
    hide Neighbors, Explore, ExploreOne, Effort, EffortOne, Advanced, Pending, Work, Connected;
    ghost var p, levels := Path(ctx.nodes, ctx.edges), ctx.levels;
    var frontier := AdvancePath(ctx, q);
    ghost var rest := LevelAt(ctx.levels, |p.nodes|);
    AdvancePending(q, p, levels, rest, frontier, ctx.levels);
    AdvanceWork(q, p, levels, rest, frontier, ctx.levels);
  }

  /** Drops the last node of the path. */
  method Backward(ctx: AllPathsCtx, ghost q: Query)
    requires Ready(ctx, q) && ctx.nodes != [] && LevelAt(ctx.levels, |ctx.nodes|) == []
    modifies ctx`nodes, ctx`edges
    ensures Ready(ctx, q) && old(Remaining(ctx, q)) == Remaining(ctx, q)
    ensures Remains(ctx, q) + 1 == old(Remains(ctx, q))
  {
    ghost var p := Path(ctx.nodes, ctx.edges);
    Backtrack(q, p, ctx.levels);
    ctx.nodes := ctx.nodes[..|ctx.nodes| - 1];
    if ctx.edges != [] { ctx.edges := ctx.edges[..|ctx.edges| - 1]; }
    assert Path(ctx.nodes, ctx.edges) == Prefix(p, |p.nodes| - 1);
  }

  /** Returns the next path, or none when all have been returned. */
  method NextPath(ctx: AllPathsCtx, ghost q: Query) returns (r: Option<Path>)
    requires Ready(ctx, q)
    modifies ctx`levels, ctx`neighbors, ctx`nodes, ctx`edges
    ensures Ready(ctx, q)
    ensures old(Remaining(ctx, q)) == [] ==> r.None? && Remaining(ctx, q) == []
    ensures old(Remaining(ctx, q)) != [] ==>
      && r == Some(old(Remaining(ctx, q))[0])
      && Remaining(ctx, q) == old(Remaining(ctx, q))[1..]
      && r.value == Path(ctx.nodes, ctx.edges)
  {
    while ctx.nodes != [] || ctx.levels[0] != []
      invariant Ready(ctx, q)
      invariant Remaining(ctx, q) == old(Remaining(ctx, q))
      decreases Remains(ctx, q)
    {
      var depth := |ctx.nodes|;
      if depth < |ctx.levels| && ctx.levels[depth] != [] {
        Forward(ctx, q);
        if ctx.minLen <= |ctx.nodes| <= ctx.maxLen {
          if ctx.dst.Some? && ctx.nodes[|ctx.nodes| - 1] != ctx.dst.value { continue; }
          return Some(Path(ctx.nodes, ctx.edges));
        }
      } else {
        Backward(ctx, q);
      }
    }
    return None;
  }
}
