/** Enumeration of all shortest paths, found by walking back from the destination
    through the nodes the distance search discovered. */
module AllShortestPaths {
  import opened Options
  import opened PropertyGraph
  import opened AllPathsContext
  import opened ShortestDistance

  function Reversed(dir: Direction): Direction {
    match dir
    case Outgoing => Incoming
    case Incoming => Outgoing
    case Both => Both
  }

  /** `back` is the direction walked, `len` the number of nodes on a path. */
  datatype Walk = Walk(t: Traversal, back: Direction, src: NodeID, len: nat, visited: set<NodeID>)

  // ---------------------------------------------------------------------------
  // What the walk finds
  // ---------------------------------------------------------------------------

  function Prepend(c: Connection, p: Path): Path
    requires c.edge.Some?
  {
    Path([c.node] + p.nodes, [c.edge.value] + p.edges)
  }

  /** The neighbours of `c`, which stands at depth `depth`. */
  function Before(w: Walk, c: Connection, depth: nat): seq<Connection> {
    Neighbors(w.t, w.back, c.node, if depth > 0 && c.edge.Some? then Some(c.edge.value.id) else None)
  }

  /** The node belongs on a path at this depth. */
  predicate Fits(w: Walk, c: Connection, depth: nat) {
    c.node in w.visited && (depth == w.len - 1 ==> c.node == w.src)
  }

  ghost predicate HaveEdges(conns: seq<Connection>) {
    forall c :: c in conns ==> c.edge.Some?
  }

  lemma NeighborsHaveEdges(w: Walk, c: Connection, depth: nat)
    ensures HaveEdges(Before(w, c, depth))
  {
    var last := if depth > 0 && c.edge.Some? then Some(c.edge.value.id) else None;
    forall x | x in Before(w, c, depth)
      ensures x.edge.Some?
    {
      NeighborsExact(w.t, w.back, c.node, last, x);
    }
  }

  /** Complete paths ending in `p`, when the connections `conns` may stand before it. */
  ghost function Back(w: Walk, p: Path, conns: seq<Connection>): (r: seq<Path>)
    requires HaveEdges(conns) && |p.nodes| < w.len
    decreases w.len - |p.nodes|, |conns|
  {
    if conns == [] then []
    else
      var k := |conns| - 1;
      BackOne(w, p, conns[k]) + Back(w, p, conns[..k])
  }

  ghost function BackOne(w: Walk, p: Path, c: Connection): (r: seq<Path>)
    requires c.edge.Some? && |p.nodes| < w.len
    decreases w.len - |p.nodes|, 0
  {
    if !Fits(w, c, |p.nodes|) then []
    else if |p.nodes| == w.len - 1 then [Prepend(c, p)]
    else NeighborsHaveEdges(w, c, |p.nodes|); Back(w, Prepend(c, p), Before(w, c, |p.nodes|))
  }

  /** Loop iterations spent on the connections `conns` at the depth of `p`. */
  ghost function Effort(w: Walk, depth: nat, conns: seq<Connection>): (n: nat)
    requires depth < w.len
    decreases w.len - depth, |conns|
  {
    if conns == [] then 0
    else
      var k := |conns| - 1;
      var c := conns[k];
      Effort(w, depth, conns[..k]) + 1 +
      if Fits(w, c, depth) && depth + 1 < w.len then 1 + Effort(w, depth + 1, Before(w, c, depth)) else 0
  }

  // ---------------------------------------------------------------------------
  // What the graph promises
  // ---------------------------------------------------------------------------

  /** A walk of `len - 1` admissible edges from `src` to `dest`; edge `i` leads from
      node `i` to node `i + 1`. */
  ghost predicate IsWalk(t: Traversal, dir: Direction, src: NodeID, dest: NodeID, len: nat, p: Path) {
    && |p.nodes| == len >= 1 && |p.edges| == len - 1
    && p.nodes[0] == src && p.nodes[len - 1] == dest
    && (forall i :: 0 <= i < |p.edges| ==> Admissible(t, p.edges[i]))
    && (forall i :: 0 <= i < |p.edges| ==> Leads(dir, p.edges[i], p.nodes[i], p.nodes[i + 1]))
  }

  /** The last `k` nodes of a path. */
  function Suffix(r: Path, k: nat): Path
    requires |r.nodes| == |r.edges| + 1 && 1 <= k <= |r.nodes|
  {
    Path(r.nodes[|r.nodes| - k..], r.edges[|r.nodes| - k..])
  }

  /** The connection through which the node at depth `k` from the end was entered. */
  function At(r: Path, k: nat): Connection
    requires |r.nodes| == |r.edges| + 1 && k < |r.nodes|
  {
    Connection(r.nodes[|r.nodes| - 1 - k], if k == 0 then None else Some(r.edges[|r.nodes| - 1 - k]))
  }

  /** From depth `k` on, `r` was built by fitting neighbours. */
  ghost predicate Built(w: Walk, r: Path, k: nat)
    requires |r.nodes| == |r.edges| + 1
  {
    && (forall j :: k <= j < |r.nodes| ==> Fits(w, At(r, j), j))
    && (forall j :: k < j < |r.nodes| ==> At(r, j) in Before(w, At(r, j - 1), j - 1))
  }

  ghost predicate Completes(w: Walk, p: Path, conns: seq<Connection>, r: Path) {
    && |r.nodes| == w.len && |r.edges| == w.len - 1
    && 1 <= |p.nodes| < w.len && p == Suffix(r, |p.nodes|)
    && At(r, |p.nodes|) in conns
    && Built(w, r, |p.nodes|)
  }

  lemma PrependIsSuffix(p: Path, r: Path, c: Connection)
    requires |r.nodes| == |r.edges| + 1 && 1 <= |p.nodes| < |r.nodes| && c.edge.Some?
    ensures p == Suffix(r, |p.nodes|) && c == At(r, |p.nodes|) <==> Prepend(c, p) == Suffix(r, |p.nodes| + 1)
  {
    var k := |r.nodes| - |p.nodes|;
    var s := Suffix(r, |p.nodes| + 1);
    assert s.nodes == [r.nodes[k - 1]] + r.nodes[k..];
    assert s.edges == [r.edges[k - 1]] + r.edges[k..];
    if Prepend(c, p) == s {
      assert p.nodes == s.nodes[1..] && p.edges == s.edges[1..];
      assert s.nodes[0] == c.node && s.edges[0] == c.edge.value;
    }
  }

  /** The walk finds exactly the completions of `p`. */
  lemma {:induction false} BackExact(w: Walk, p: Path, conns: seq<Connection>, r: Path)
    requires HaveEdges(conns) && 1 <= |p.nodes| < w.len && |p.edges| == |p.nodes| - 1
    ensures r in Back(w, p, conns) <==> Completes(w, p, conns, r)
    decreases w.len - |p.nodes|, |conns|
  {
    if conns != [] {
      var k := |conns| - 1;
      assert conns == conns[..k] + [conns[k]];
      BackOneExact(w, p, conns[k], r);
      BackExact(w, p, conns[..k], r);
    }
  }

  lemma {:induction false} BackOneExact(w: Walk, p: Path, c: Connection, r: Path)
    requires c.edge.Some? && 1 <= |p.nodes| < w.len && |p.edges| == |p.nodes| - 1
    ensures r in BackOne(w, p, c) <==> Completes(w, p, [c], r)
    decreases w.len - |p.nodes|, 0
  {
    var d := |p.nodes|;
    CompletesOne(w, p, c, r);
    if Fits(w, c, d) && d < w.len - 1 {
      NeighborsHaveEdges(w, c, d);
      BackExact(w, Prepend(c, p), Before(w, c, d), r);
    }
  }

  /** A path through `c` is complete there or goes on to a neighbour of `c`. */
  lemma CompletesOne(w: Walk, p: Path, c: Connection, r: Path)
    requires c.edge.Some? && 1 <= |p.nodes| < w.len && |p.edges| == |p.nodes| - 1
    ensures Completes(w, p, [c], r) <==>
      && Fits(w, c, |p.nodes|)
      && if |p.nodes| == w.len - 1 then r == Prepend(c, p)
         else Completes(w, Prepend(c, p), Before(w, c, |p.nodes|), r)
  {
    var d := |p.nodes|;
    if |r.nodes| == w.len && |r.edges| == w.len - 1 {
      PrependIsSuffix(p, r, c);
      assert d == w.len - 1 ==> Suffix(r, d + 1) == r;
      if Completes(w, p, [c], r) {
        assert Built(w, r, d + 1);
        assert Fits(w, At(r, d), d);
      }
      if Fits(w, c, d) && d < w.len - 1 && Completes(w, Prepend(c, p), Before(w, c, d), r) {
        assert Built(w, r, d);
      }
    }
  }

  lemma BackDisjoint(w: Walk, p: Path, c: Connection, conns: seq<Connection>)
    requires c.edge.Some? && HaveEdges(conns) && 1 <= |p.nodes| < w.len && |p.edges| == |p.nodes| - 1
    requires c !in conns
    ensures forall r :: r in BackOne(w, p, c) ==> r !in Back(w, p, conns)
  {
    forall r | r in BackOne(w, p, c)
      ensures r !in Back(w, p, conns)
    {
      BackOneExact(w, p, c, r);
      BackExact(w, p, conns, r);
    }
  }

  /** No path is found twice. */
  lemma {:induction false} BackUnique(w: Walk, p: Path, conns: seq<Connection>)
    requires w.t.g.Valid() && DistinctRelations(w.t.relationIDs) && w.back != Both
    requires HaveEdges(conns) && NoDuplicates(conns) && 1 <= |p.nodes| < w.len && |p.edges| == |p.nodes| - 1
    ensures NoDuplicates(Back(w, p, conns))
    decreases w.len - |p.nodes|, |conns|
  {
    if conns != [] {
      var k, d := |conns| - 1, |p.nodes|;
      var c := conns[k];
      if Fits(w, c, d) && d < w.len - 1 {
        NeighborsHaveEdges(w, c, d);
        NeighborsUnique(w.t, w.back, c.node, if d > 0 then Some(c.edge.value.id) else None);
        BackUnique(w, Prepend(c, p), Before(w, c, d));
      }
      BackUnique(w, p, conns[..k]);
      BackDisjoint(w, p, c, conns[..k]);
      ConcatenationUnique(BackOne(w, p, c), Back(w, p, conns[..k]));
    }
  }

  // ---------------------------------------------------------------------------
  // Walks of minimum length
  // ---------------------------------------------------------------------------

  lemma LeadsReversed(dir: Direction, e: Edge, u: NodeID, v: NodeID)
    ensures Leads(Reversed(dir), e, v, u) <==> Leads(dir, e, u, v)
  {
  }

  /** Node `i` of a walk is reached in `i` edges. */
  lemma {:induction false} WalkReaches(t: Traversal, dir: Direction, src: NodeID, dest: NodeID, len: nat,
                                       p: Path, i: nat)
    requires t.g.Valid() && src in t.g.nodes && IsWalk(t, dir, src, dest, len, p) && i < len
    ensures p.nodes[i] in Reach(t, dir, src, i)
  {
    if i > 0 {
      WalkReaches(t, dir, src, dest, len, p, i - 1);
      var e := p.edges[i - 1];
      assert Admissible(t, e) && Leads(dir, e, p.nodes[i - 1], p.nodes[i - 1 + 1]);
      assert Step(t, dir, p.nodes[i - 1], p.nodes[i]);
    }
  }

  /** Reaching node `i` in `a` edges reaches the end of the walk in `a + len - 1 - i`. */
  lemma {:induction false} WalkOn(t: Traversal, dir: Direction, src: NodeID, dest: NodeID, len: nat,
                                  p: Path, i: nat, a: nat)
    requires t.g.Valid() && src in t.g.nodes && IsWalk(t, dir, src, dest, len, p) && i < len
    requires p.nodes[i] in Reach(t, dir, src, a)
    ensures dest in Reach(t, dir, src, a + len - 1 - i)
    decreases len - i
  {
    if i < len - 1 {
      var e := p.edges[i];
      assert Admissible(t, e) && Leads(dir, e, p.nodes[i], p.nodes[i + 1]);
      assert Step(t, dir, p.nodes[i], p.nodes[i + 1]);
      assert p.nodes[i + 1] in Reach(t, dir, src, a + 1);
      WalkOn(t, dir, src, dest, len, p, i + 1, a + 1);
    }
  }

  /** A walk of minimum length never uses an edge twice in a row. */
  lemma MinimumNeverRepeatsEdge(s: Target, d: nat, p: Path, i: nat)
    requires s.t.g.Valid() && s.src in s.t.g.nodes && s.dir != Both
    requires IsMinimum(s, d) && IsWalk(s.t, s.dir, s.src, s.dest, d + 1, p) && i + 1 < d
    ensures p.edges[i].id != p.edges[i + 1].id
  {
    var e, f := p.edges[i], p.edges[i + 1];
    assert Admissible(s.t, e) && Admissible(s.t, f);
    EdgeIdsUnique(s.t.g, e, f);
    if e.id == f.id {
      assert Leads(s.dir, e, p.nodes[i], p.nodes[i + 1]) && Leads(s.dir, f, p.nodes[i + 1], p.nodes[i + 1 + 1]);
      assert p.nodes[i] == p.nodes[i + 1];
      WalkReaches(s.t, s.dir, s.src, s.dest, d + 1, p, i);
      WalkOn(s.t, s.dir, s.src, s.dest, d + 1, p, i + 1, i);
      assert Hits(s, d - 1);
    }
  }

  /** All shortest paths, in the order they are returned. */
  ghost function Results(w: Walk, dest: NodeID): (r: seq<Path>)
    requires w.len >= 2
  {
    NeighborsHaveEdges(w, Connection(dest, None), 0);
    Back(w, Path([dest], []), Before(w, Connection(dest, None), 0))
  }

  /** A walk of the right length is built backwards exactly when it stays inside
      the discovered nodes; for minimum length walks that is always so. */
  lemma ResultIsWalk(s: Target, d: nat, w: Walk, r: Path)
    requires s.t.g.Valid() && s.src in s.t.g.nodes && s.dir != Both && IsMinimum(s, d)
    requires w == Walk(s.t, Reversed(s.dir), s.src, d + 1, Within(s.t, s.dir, s.src, d))
    ensures Completes(w, Path([s.dest], []), Before(w, Connection(s.dest, None), 0), r)
        <==> IsWalk(s.t, s.dir, s.src, s.dest, d + 1, r)
  {
    hide Neighbors, Within, Reach, Admissible;
    var p, conns := Path([s.dest], []), Before(w, Connection(s.dest, None), 0);
    if |r.nodes| == d + 1 && |r.edges| == d {
      assert Suffix(r, 1) == Path([r.nodes[d]], []);
      if Completes(w, p, conns, r) {
        assert r.nodes[d] == Suffix(r, 1).nodes[0] == s.dest;
        assert At(r, 0) == Connection(s.dest, None);
        assert Fits(w, At(r, d), d);
        forall i | 0 <= i < d
          ensures Admissible(s.t, r.edges[i]) && Leads(s.dir, r.edges[i], r.nodes[i], r.nodes[i + 1])
        {
          EntryExact(w, r, d - i);
          LeadsReversed(s.dir, r.edges[i], r.nodes[i], r.nodes[i + 1]);
        }
      }
      if IsWalk(s.t, s.dir, s.src, s.dest, d + 1, r) {
        forall k | 1 <= k <= d
          ensures Fits(w, At(r, k), k) && At(r, k) in Before(w, At(r, k - 1), k - 1)
        {
          WalkReaches(s.t, s.dir, s.src, s.dest, d + 1, r, d - k);
          ReachIsWithin(s.t, s.dir, s.src, d - k, d);
          EntryExact(w, r, k);
          LeadsReversed(s.dir, r.edges[d - k], r.nodes[d - k], r.nodes[d - k + 1]);
          if k > 1 { MinimumNeverRepeatsEdge(s, d, r, d - k); }
        }
        assert At(r, 0) == Connection(s.dest, None);
        assert At(r, 1) in conns;
      }
    }
  }

  /** One backward step, in terms of the graph. */
  lemma EntryExact(w: Walk, r: Path, k: nat)
    requires |r.nodes| == |r.edges| + 1 && 1 <= k < |r.nodes|
    ensures var i := |r.nodes| - 1 - k;
      At(r, k) in Before(w, At(r, k - 1), k - 1) <==>
      && Admissible(w.t, r.edges[i])
      && Leads(w.back, r.edges[i], r.nodes[i + 1], r.nodes[i])
      && (k > 1 ==> r.edges[i + 1].id != r.edges[i].id)
  {
    var i := |r.nodes| - 1 - k;
    NeighborsExact(w.t, w.back, r.nodes[i + 1], if k > 1 then Some(r.edges[i + 1].id) else None, At(r, k));
  }

  /** The enumeration returns exactly the minimum length walks, each once. The
      source may equal the destination; the walks are then its shortest cycles. */
  lemma ResultsExact(s: Target, d: nat, w: Walk)
    requires s.t.g.Valid() && s.src in s.t.g.nodes && s.dir != Both && IsMinimum(s, d)
    requires w == Walk(s.t, Reversed(s.dir), s.src, d + 1, Within(s.t, s.dir, s.src, d))
    ensures forall p :: p in Results(w, s.dest) <==> IsWalk(s.t, s.dir, s.src, s.dest, d + 1, p)
    ensures DistinctRelations(s.t.relationIDs) ==> NoDuplicates(Results(w, s.dest))
  {
    var first := Connection(s.dest, None);
    NeighborsHaveEdges(w, first, 0);
    forall p
      ensures p in Results(w, s.dest) <==> IsWalk(s.t, s.dir, s.src, s.dest, d + 1, p)
    {
      BackExact(w, Path([s.dest], []), Before(w, first, 0), p);
      ResultIsWalk(s, d, w, p);
    }
    if DistinctRelations(s.t.relationIDs) {
      NeighborsUnique(w.t, w.back, s.dest, None);
      BackUnique(w, Path([s.dest], []), Before(w, first, 0));
    }
  }

  // ---------------------------------------------------------------------------
  // The resumable walk
  // ---------------------------------------------------------------------------

  /** The path has all its slots, the last `depth` of them filled, and nothing is
      pending beyond that depth. */
  ghost predicate Walking(w: Walk, r: Path, levels: seq<seq<Connection>>, depth: nat) {
    && Loaded(w, r, levels, depth)
    && 1 <= depth && w.len <= |levels|
    && levels[0] == []
    && (forall k: nat :: k > depth ==> LevelAt(levels, k) == [])
  }

  ghost predicate Loaded(w: Walk, r: Path, levels: seq<seq<Connection>>, k: nat) {
    && |r.nodes| == w.len && |r.edges| == w.len - 1 && k < w.len
    && (forall j :: 1 <= j <= k ==> HaveEdges(LevelAt(levels, j)))
  }

  /** Paths still to come from levels `k` down to 1. */
  ghost function Pending(w: Walk, r: Path, levels: seq<seq<Connection>>, k: nat): (ps: seq<Path>)
    requires Loaded(w, r, levels, k)
  {
    if k == 0 then [] else Back(w, Suffix(r, k), LevelAt(levels, k)) + Pending(w, r, levels, k - 1)
  }

  /** Loop iterations still to come from levels `k` down to 1. */
  ghost function Work(w: Walk, levels: seq<seq<Connection>>, k: nat): (n: nat)
    requires k < w.len
  {
    if k == 0 then 0 else Effort(w, k, LevelAt(levels, k)) + 1 + Work(w, levels, k - 1)
  }

  lemma {:induction false} LowerLevels(w: Walk, r: Path, levels: seq<seq<Connection>>,
                                       r': Path, levels': seq<seq<Connection>>, k: nat)
    requires Loaded(w, r, levels, k) && Loaded(w, r', levels', k)
    requires k > 0 ==> Suffix(r, k) == Suffix(r', k)
    requires forall j: nat :: j <= k ==> LevelAt(levels, j) == LevelAt(levels', j)
    ensures Pending(w, r, levels, k) == Pending(w, r', levels', k)
  {
    if k > 0 {
      assert k > 1 ==> Suffix(r, k - 1) == Suffix(Suffix(r, k), k - 1) == Suffix(r', k - 1);
      LowerLevels(w, r, levels, r', levels', k - 1);
    }
  }

  lemma {:induction false} SameWork(w: Walk, levels: seq<seq<Connection>>, levels': seq<seq<Connection>>, k: nat)
    requires k < w.len && forall j: nat :: j <= k ==> LevelAt(levels, j) == LevelAt(levels', j)
    ensures Work(w, levels, k) == Work(w, levels', k)
  {
    if k > 0 { SameWork(w, levels, levels', k - 1); }
  }

  function Placed(r: Path, depth: nat, c: Connection): Path
    requires |r.nodes| == |r.edges| + 1 && 1 <= depth < |r.nodes| && c.edge.Some?
  {
    var i := |r.nodes| - 1 - depth;
    Path(r.nodes[i := c.node], r.edges[i := c.edge.value])
  }

  lemma PlacedSuffix(r: Path, depth: nat, c: Connection)
    requires |r.nodes| == |r.edges| + 1 && 1 <= depth < |r.nodes| && c.edge.Some?
    ensures forall k :: 1 <= k <= depth ==> Suffix(Placed(r, depth, c), k) == Suffix(r, k)
    ensures Suffix(Placed(r, depth, c), depth + 1) == Prepend(c, Suffix(r, depth))
    ensures depth == |r.nodes| - 1 ==> Placed(r, depth, c) == Prepend(c, Suffix(r, depth))
  {
  }

  /** The levels after popping `c` off level `depth`, having filled the next one
      with `more`. */
  ghost predicate Taken(levels: seq<seq<Connection>>, levels': seq<seq<Connection>>, depth: nat,
                        c: Connection, more: seq<Connection>) {
    && |levels'| >= |levels| && depth < |levels|
    && levels'[depth] + [c] == levels[depth]
    && LevelAt(levels', depth + 1) == more
    && (forall k: nat :: k != depth && k != depth + 1 ==> LevelAt(levels', k) == LevelAt(levels, k))
  }

  /** The paths a walk that stands at `depth` will still complete. */
  ghost function Owed(w: Walk, r: Path, levels: seq<seq<Connection>>, depth: nat): Option<seq<Path>> {
    if Walking(w, r, levels, depth) then Some(Pending(w, r, levels, depth)) else None
  }

  /** A connection that does not fit contributes no path. */
  lemma Dropped(w: Walk, r: Path, levels: seq<seq<Connection>>, depth: nat, c: Connection,
                r': Path, levels': seq<seq<Connection>>, todo: seq<Path>)
    requires Owed(w, r, levels, depth) == Some(todo) && Taken(levels, levels', depth, c, []) && !Fits(w, c, depth)
    requires r' == r
    ensures Owed(w, r', levels', depth) == Some(todo)
    ensures Work(w, levels', depth) < Work(w, levels, depth)
  {
    hide Neighbors;
    StillWalking(w, r, levels, depth, c, levels');
    LowerLevels(w, r, levels, r, levels', depth - 1);
    SameWork(w, levels, levels', depth - 1);
    assert levels[depth][..|levels[depth]| - 1] == levels'[depth];
    assert LevelAt(levels, depth) == levels[depth];
    var here := Back(w, Suffix(r, depth), levels'[depth]);
    assert Back(w, Suffix(r, depth), levels[depth]) == [] + here == here;
  }

  /** A connection that fits at the last depth completes the next path. */
  lemma Completed(w: Walk, r: Path, levels: seq<seq<Connection>>, depth: nat, c: Connection,
                  r': Path, levels': seq<seq<Connection>>, todo: seq<Path>)
    requires Owed(w, r, levels, depth) == Some(todo) && Taken(levels, levels', depth, c, []) && Fits(w, c, depth)
    requires c.edge.Some? && depth == w.len - 1 && r' == Placed(r, depth, c)
    ensures todo != [] && todo[0] == r'
    ensures Owed(w, r', levels', w.len - 1) == Some(todo[1..])
  {
    hide Neighbors, Work, Effort;
    StillWalking(w, r, levels, depth, c, levels');
    PlacedSuffix(r, depth, c);
    var p := Suffix(r, depth);
    assert Walking(w, r', levels', depth);
    LowerLevels(w, r, levels, r', levels', depth - 1);
    assert levels[depth][..|levels[depth]| - 1] == levels'[depth];
    assert LevelAt(levels, depth) == levels[depth];
    var rest := Back(w, p, levels'[depth]) + Pending(w, r, levels, depth - 1);
    assert BackOne(w, p, c) == [r'];
    assert todo == [r'] + rest;
    assert Pending(w, r', levels', depth) == rest;
  }

  /** A connection that fits earlier hands its paths to the next level. */
  lemma Descended(w: Walk, r: Path, levels: seq<seq<Connection>>, depth: nat, c: Connection,
                  r': Path, levels': seq<seq<Connection>>, todo: seq<Path>)
    requires Owed(w, r, levels, depth) == Some(todo) && Fits(w, c, depth) && c.edge.Some? && depth < w.len - 1
    requires Taken(levels, levels', depth, c, Before(w, c, depth)) && r' == Placed(r, depth, c)
    ensures Owed(w, r', levels', depth + 1) == Some(todo)
  {
    hide Before, Work, Effort;
    var p := Suffix(r, depth);
    NeighborsHaveEdges(w, c, depth);
    StillHaveEdges(w, r, levels, depth, c, levels');
    assert Walking(w, r', levels', depth + 1);
    PlacedSuffix(r, depth, c);
    LowerLevels(w, r, levels, r', levels', depth - 1);
    assert levels[depth][..|levels[depth]| - 1] == levels'[depth];
    assert LevelAt(levels, depth) == levels[depth];
    var above := Back(w, Suffix(r', depth + 1), LevelAt(levels', depth + 1));
    assert BackOne(w, p, c) == above;
    var here := Back(w, p, levels'[depth]);
    var below := Pending(w, r, levels, depth - 1);
    assert Pending(w, r', levels', depth) == here + below;
    assert (above + here) + below == above + (here + below);
  }

  lemma DescendedWork(w: Walk, r: Path, levels: seq<seq<Connection>>, depth: nat, c: Connection,
                      levels': seq<seq<Connection>>)
    requires Walking(w, r, levels, depth) && Fits(w, c, depth) && depth < w.len - 1
    requires Taken(levels, levels', depth, c, Before(w, c, depth))
    ensures Work(w, levels', depth + 1) < Work(w, levels, depth)
  {
    hide Before;
    SameWork(w, levels, levels', depth - 1);
    assert levels[depth][..|levels[depth]| - 1] == levels'[depth];
    assert LevelAt(levels, depth) == levels[depth];
    assert Work(w, levels', depth + 1)
        == Effort(w, depth + 1, LevelAt(levels', depth + 1)) + 1 + Work(w, levels', depth);
  }

  /** Going back a level, once nothing is pending on it, loses no path. */
  lemma Rewound(w: Walk, r: Path, levels: seq<seq<Connection>>, depth: nat, todo: seq<Path>)
    requires Owed(w, r, levels, depth) == Some(todo) && levels[depth] == []
    ensures if depth == 1 then todo == [] else Owed(w, r, levels, depth - 1) == Some(todo)
    ensures Work(w, levels, depth - 1) < Work(w, levels, depth)
  {
    assert Walking(w, r, levels, depth) && LevelAt(levels, depth) == [];
    assert Pending(w, r, levels, depth) == Pending(w, r, levels, depth - 1);
  }

  lemma StillHaveEdges(w: Walk, r: Path, levels: seq<seq<Connection>>, depth: nat, c: Connection,
                       levels': seq<seq<Connection>>)
    requires Walking(w, r, levels, depth)
    requires Taken(levels, levels', depth, c, LevelAt(levels', depth + 1))
    ensures levels'[0] == [] && forall k :: 1 <= k <= depth ==> HaveEdges(LevelAt(levels', k))
    ensures c.edge.Some?
  {
    assert LevelAt(levels', 0) == LevelAt(levels, 0);
    assert c in levels[depth] && HaveEdges(LevelAt(levels, depth));
    forall k | 1 <= k <= depth
      ensures HaveEdges(LevelAt(levels', k))
    {
      if k < depth {
        assert LevelAt(levels', k) == LevelAt(levels, k);
      } else {
        assert forall x :: x in levels'[depth] ==> x in levels[depth];
      }
    }
  }

  lemma StillWalking(w: Walk, r: Path, levels: seq<seq<Connection>>, depth: nat, c: Connection,
                     levels': seq<seq<Connection>>)
    requires Walking(w, r, levels, depth) && Taken(levels, levels', depth, c, [])
    ensures Walking(w, r, levels', depth) && c.edge.Some?
  {
    StillHaveEdges(w, r, levels, depth, c, levels');
  }

  ghost predicate Fixed(ctx: AllPathsCtx, w: Walk)
    reads ctx
  {
    && w.len >= 2
    && ctx.t == w.t && ctx.dir == w.back && ctx.dst == Some(w.src) && ctx.visited == w.visited
    && ctx.minLen == ctx.maxLen == w.len
    && ctx.neighbors == []
  }

  /** Between calls: not started, a full path on hand, or finished. */
  ghost predicate Ready(ctx: AllPathsCtx, w: Walk, dest: NodeID)
    reads ctx
  {
    && Fixed(ctx, w)
    && |ctx.levels| >= w.len
    && if ctx.nodes == [] then
         && ctx.edges == []
         && (ctx.levels[0] == [] || ctx.levels[0] == [Connection(dest, None)])
         && forall k: nat :: k > 0 ==> LevelAt(ctx.levels, k) == []
       else Walking(w, Path(ctx.nodes, ctx.edges), ctx.levels, w.len - 1)
  }

  /** The paths later calls will return. */
  ghost function Remaining(ctx: AllPathsCtx, w: Walk, dest: NodeID): (r: seq<Path>)
    requires Ready(ctx, w, dest)
    reads ctx
  {
    if ctx.nodes != [] then Pending(w, Path(ctx.nodes, ctx.edges), ctx.levels, w.len - 1)
    else if ctx.levels[0] == [] then []
    else Results(w, dest)
  }

  /** Starts the walk at the destination, which takes the last slot of the path. */
  method Start(ctx: AllPathsCtx, ghost w: Walk, ghost dest: NodeID)
    requires Ready(ctx, w, dest) && ctx.nodes == [] && ctx.levels[0] != []
    modifies ctx`levels, ctx`neighbors, ctx`nodes, ctx`edges
    ensures Fixed(ctx, w)
    ensures Walking(w, Path(ctx.nodes, ctx.edges), ctx.levels, 1)
    ensures Pending(w, Path(ctx.nodes, ctx.edges), ctx.levels, 1) == Results(w, dest)
  {
    hide Neighbors, Admissible;
    ctx.nodes := seq(ctx.minLen, _ => 0);
    ctx.edges := seq(ctx.minLen - 1, _ => Edge(0, 0, 0, 0));
    assert ctx.levels[0] == [Connection(dest, None)];
    var frontier := ctx.PopConnection(0);
    assert |ctx.levels[0]| == 0 && (ctx.levels[0] + [frontier])[0] == Connection(dest, None);
    ctx.nodes := ctx.nodes[ctx.minLen - 1 := frontier.node];
    ghost var popped := ctx.levels;
    assert LevelAt(popped, 1) == [];
    ctx.AddNeighbors(frontier, 1);
    ghost var r := Path(ctx.nodes, ctx.edges);
    assert LevelAt(ctx.levels, 0) == LevelAt(popped, 0);
    assert LevelAt(ctx.levels, 1) == Before(w, frontier, 0);
    NeighborsHaveEdges(w, frontier, 0);
    assert Walking(w, r, ctx.levels, 1);
    assert Suffix(r, 1) == Path([dest], []);
    assert Pending(w, r, ctx.levels, 0) == [];
  }

  /** Takes one connection off level `depth`. If it fits, it takes its slot on
      the path and, unless that completes the path, its neighbours are added to
      the next level. */
  method Take(ctx: AllPathsCtx, ghost w: Walk, depth: nat) returns (c: Connection, fits: bool)
    requires Fixed(ctx, w) && Walking(w, Path(ctx.nodes, ctx.edges), ctx.levels, depth)
    requires ctx.levels[depth] != []
    modifies ctx`levels, ctx`neighbors, ctx`nodes, ctx`edges
    ensures Fixed(ctx, w)
    ensures fits == Fits(w, c, depth)
    ensures c.edge.Some?
    ensures Path(ctx.nodes, ctx.edges)
            == if fits then Placed(old(Path(ctx.nodes, ctx.edges)), depth, c) else old(Path(ctx.nodes, ctx.edges))
    ensures Taken(old(ctx.levels), ctx.levels, depth, c,
                  if fits && depth < w.len - 1 then Before(w, c, depth) else [])
  {
    ghost var r, levels := Path(ctx.nodes, ctx.edges), ctx.levels;
    assert LevelAt(levels, depth + 1) == [];
    c := ctx.PopConnection(depth);
    ghost var popped := ctx.levels;
    assert Taken(levels, popped, depth, c, []) by {
      assert LevelAt(popped, depth + 1) == LevelAt(levels, depth + 1);
    }
    StillWalking(w, r, levels, depth, c, popped);
    if c.node !in ctx.visited || (depth == ctx.maxLen - 1 && c.node != ctx.dst.value) {
      return c, false;
    }
    var i := ctx.minLen - depth - 1;
    ctx.nodes := ctx.nodes[i := c.node];
    ctx.edges := ctx.edges[i := c.edge.value];
    if depth < ctx.maxLen - 1 {
      ctx.AddNeighbors(c, depth + 1);
      Refilled(levels, popped, ctx.levels, depth, c, Before(w, c, depth));
    }
    return c, true;
  }

  lemma Refilled(levels: seq<seq<Connection>>, popped: seq<seq<Connection>>, levels': seq<seq<Connection>>,
                 depth: nat, c: Connection, more: seq<Connection>)
    requires Taken(levels, popped, depth, c, []) && Grown(popped, levels', depth + 1, more)
    ensures Taken(levels, levels', depth, c, more)
  {
    assert LevelAt(levels', depth) == LevelAt(popped, depth);
    forall k: nat | k != depth && k != depth + 1
      ensures LevelAt(levels', k) == LevelAt(levels, k)
    {
      assert LevelAt(levels', k) == LevelAt(popped, k);
    }
  }

  /** Takes one connection off level `depth`; reports whether it completed a path,
      and otherwise on which level to go on. */
  method Proceed(ctx: AllPathsCtx, ghost w: Walk, depth: nat, ghost todo: seq<Path>)
      returns (complete: bool, next: nat)
    requires Fixed(ctx, w) && Owed(w, Path(ctx.nodes, ctx.edges), ctx.levels, depth) == Some(todo)
    requires ctx.levels[depth] != []
    modifies ctx`levels, ctx`neighbors, ctx`nodes, ctx`edges
    ensures Fixed(ctx, w)
    ensures complete ==>
      && todo != [] && todo[0] == Path(ctx.nodes, ctx.edges)
      && Owed(w, Path(ctx.nodes, ctx.edges), ctx.levels, w.len - 1) == Some(todo[1..])
    ensures !complete ==>
      && Owed(w, Path(ctx.nodes, ctx.edges), ctx.levels, next) == Some(todo)
      && Work(w, ctx.levels, next) < old(Work(w, ctx.levels, depth))
  {
    hide Pending, Neighbors, Effort, Work, Taken;
    ghost var p, levels := Path(ctx.nodes, ctx.edges), ctx.levels;
    var c, fits := Take(ctx, w, depth);
    ghost var r := Path(ctx.nodes, ctx.edges);
    if !fits {
      Dropped(w, p, levels, depth, c, r, ctx.levels, todo);
      return false, depth;
    }
    if depth < ctx.maxLen - 1 {
      Descended(w, p, levels, depth, c, r, ctx.levels, todo);
      DescendedWork(w, p, levels, depth, c, ctx.levels);
      return false, depth + 1;
    }
    Completed(w, p, levels, depth, c, r, ctx.levels, todo);
    return true, depth;
  }

  /** Walks on from level `start` until a path is complete or nothing is left. */
  method Resume(ctx: AllPathsCtx, ghost w: Walk, start: nat, ghost todo: seq<Path>) returns (r: Option<Path>)
    requires Fixed(ctx, w) && Owed(w, Path(ctx.nodes, ctx.edges), ctx.levels, start) == Some(todo)
    modifies ctx`levels, ctx`neighbors, ctx`nodes, ctx`edges
    ensures Fixed(ctx, w) && |ctx.levels| >= w.len
    ensures todo != [] ==>
      && r == Some(todo[0]) && todo[0] == Path(ctx.nodes, ctx.edges)
      && Owed(w, Path(ctx.nodes, ctx.edges), ctx.levels, w.len - 1) == Some(todo[1..])
    ensures todo == [] ==>
      && r.None? && ctx.nodes == [] && ctx.edges == []
      && forall k: nat :: LevelAt(ctx.levels, k) == []
  {
    hide Neighbors, Pending, Effort;
    var depth: nat := start;
    while depth < ctx.maxLen
      invariant Fixed(ctx, w) && Owed(w, Path(ctx.nodes, ctx.edges), ctx.levels, depth) == Some(todo)
      decreases Work(w, ctx.levels, depth)
    {
      if ctx.levels[depth] != [] {
        var complete, next := Proceed(ctx, w, depth, todo);
        if complete { return Some(Path(ctx.nodes, ctx.edges)); }
        depth := next;
      } else {
        Rewound(w, Path(ctx.nodes, ctx.edges), ctx.levels, depth, todo);
        depth := depth - 1;
        if depth == 0 {
          ctx.nodes, ctx.edges := [], [];
          return None;
        }
      }
    }
    assert false;
    return None;
  }

  /** Returns the next shortest path, or none when all have been returned. */
  method NextPath(ctx: AllPathsCtx, ghost w: Walk, ghost dest: NodeID) returns (r: Option<Path>)
    requires Ready(ctx, w, dest)
    modifies ctx`levels, ctx`neighbors, ctx`nodes, ctx`edges
    ensures Ready(ctx, w, dest)
    ensures old(Remaining(ctx, w, dest)) == [] ==> r.None? && Remaining(ctx, w, dest) == []
    ensures old(Remaining(ctx, w, dest)) != [] ==>
      && r == Some(old(Remaining(ctx, w, dest))[0])
      && Remaining(ctx, w, dest) == old(Remaining(ctx, w, dest))[1..]
      && r.value == Path(ctx.nodes, ctx.edges)
  {
    ghost var todo := Remaining(ctx, w, dest);
    var depth: nat := |ctx.nodes|;
    if depth > 0 {
      depth := depth - 1;
    } else {
      if ctx.levels[0] == [] { return None; }
      Start(ctx, w, dest);
      depth := 1;
    }
    r := Resume(ctx, w, depth, todo);
    assert r.None? ==> LevelAt(ctx.levels, 0) == [];
  }
}
