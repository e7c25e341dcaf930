/** The breadth first search that finds how far the destination is.

    Distances are described by `Reach` (nodes at the end of some walk of `k`
    edges), independently of the search. */
module ShortestDistance {
  import opened Options
  import opened PropertyGraph
  import opened AllPathsContext

  /** Some admissible edge leads from `u` to `v`. */
  ghost predicate Step(t: Traversal, dir: Direction, u: NodeID, v: NodeID) {
    exists e :: e in t.g.edges && Admissible(t, e) && Leads(dir, e, u, v)
  }

  ghost function Successors(t: Traversal, dir: Direction, s: set<NodeID>): set<NodeID> {
    set v | v in t.g.nodes && exists u :: u in s && Step(t, dir, u, v)
  }

  /** Nodes at the end of a walk of exactly `k` edges from `src`. */
  ghost function Reach(t: Traversal, dir: Direction, src: NodeID, k: nat): set<NodeID> {
    if k == 0 then {src} else Successors(t, dir, Reach(t, dir, src, k - 1))
  }

  /** Nodes closer than `k` edges. */
  ghost function Within(t: Traversal, dir: Direction, src: NodeID, k: nat): set<NodeID> {
    if k == 0 then {} else Within(t, dir, src, k - 1) + Reach(t, dir, src, k - 1)
  }

  /** Nodes at distance exactly `k`. */
  ghost function Sphere(t: Traversal, dir: Direction, src: NodeID, k: nat): set<NodeID> {
    Reach(t, dir, src, k) - Within(t, dir, src, k)
  }

  lemma {:induction false} ReachIsWithin(t: Traversal, dir: Direction, src: NodeID, j: nat, k: nat)
    requires j < k
    ensures Reach(t, dir, src, j) <= Within(t, dir, src, k)
  {
    if j < k - 1 {
      ReachIsWithin(t, dir, src, j, k - 1);
    }
  }

  lemma {:induction false} WithinIsReached(t: Traversal, dir: Direction, src: NodeID, k: nat, v: NodeID)
      returns (j: nat)
    requires v in Within(t, dir, src, k)
    ensures j < k && v in Reach(t, dir, src, j)
  {
    if v in Reach(t, dir, src, k - 1) {
      j := k - 1;
    } else {
      j := WithinIsReached(t, dir, src, k - 1, v);
    }
  }

  lemma ReachStep(t: Traversal, dir: Direction, src: NodeID, j: nat, u: NodeID, v: NodeID)
    requires v in t.g.nodes && u in Reach(t, dir, src, j) && Step(t, dir, u, v)
    ensures v in Reach(t, dir, src, j + 1)
  {
    hide Step;
  }

  lemma {:induction false} SuccessorsOfWithin(t: Traversal, dir: Direction, src: NodeID, k: nat)
    ensures Successors(t, dir, Within(t, dir, src, k)) <= Within(t, dir, src, k + 1)
  {
    hide Step, Reach;
    forall v | v in Successors(t, dir, Within(t, dir, src, k))
      ensures v in Within(t, dir, src, k + 1)
    {
      var u :| u in Within(t, dir, src, k) && Step(t, dir, u, v);
      hide Within;
      var j := WithinIsReached(t, dir, src, k, u);
      ReachStep(t, dir, src, j, u, v);
      ReachIsWithin(t, dir, src, j + 1, k + 1);
    }
  }

  /** A node reached in `k + 1` edges but not earlier hangs off distance `k`. */
  lemma NextSphere(t: Traversal, dir: Direction, src: NodeID, k: nat)
    ensures Sphere(t, dir, src, k + 1) <= Successors(t, dir, Sphere(t, dir, src, k))
  {
    SuccessorsOfWithin(t, dir, src, k);
  }

  lemma {:induction false} EmptySphere(t: Traversal, dir: Direction, src: NodeID, k: nat, m: nat)
    requires k <= m && Sphere(t, dir, src, k) == {}
    ensures Sphere(t, dir, src, m) == {}
  {
    if k < m {
      EmptySphere(t, dir, src, k, m - 1);
      NextSphere(t, dir, src, m - 1);
    }
  }

  /** A search with its target and hop bound (in nodes). */
  datatype Target = Target(t: Traversal, dir: Direction, src: NodeID, dest: NodeID, maxLen: nat)

  /** Some walk of `k` edges ends at the destination. */
  ghost predicate Hits(s: Target, k: nat) {
    s.dest in Reach(s.t, s.dir, s.src, k)
  }

  /** The first positive walk to the destination passes the sphere just before it. */
  lemma FirstHit(s: Target, k: nat)
    requires Hits(s, k + 1)
    requires forall j :: 1 <= j <= k ==> !Hits(s, j)
    ensures s.dest in Successors(s.t, s.dir, Sphere(s.t, s.dir, s.src, k))
  {
    var u :| u in Reach(s.t, s.dir, s.src, k) && Step(s.t, s.dir, u, s.dest);
    if u in Within(s.t, s.dir, s.src, k) {
      var j := WithinIsReached(s.t, s.dir, s.src, k, u);
      assert s.dest in Successors(s.t, s.dir, Reach(s.t, s.dir, s.src, j));
      assert Hits(s, j + 1);
    }
  }

  /** Once no node is at distance `k`, later walks reach nothing new. */
  lemma {:induction false} NoLaterHit(s: Target, k: nat, m: nat)
    requires Sphere(s.t, s.dir, s.src, k) == {}
    requires forall j :: 1 <= j <= k ==> !Hits(s, j)
    ensures m >= 1 ==> !Hits(s, m)
    decreases m
  {
    if m > k {
      forall j | 1 <= j < m
        ensures !Hits(s, j)
      {
        NoLaterHit(s, k, j);
      }
      EmptySphere(s.t, s.dir, s.src, k, m - 1);
      if Hits(s, m) {
        FirstHit(s, m - 1);
      }
    }
  }

  // ---------------------------------------------------------------------------
  // Levels of the search
  // ---------------------------------------------------------------------------

  ghost function NodesOf(conns: seq<Connection>): set<NodeID> {
    set c | c in conns :: c.node
  }

  /** The candidates of level `k`. */
  ghost function Frontier(t: Traversal, dir: Direction, src: NodeID, k: nat): set<NodeID> {
    if k == 0 then {src} else Successors(t, dir, Sphere(t, dir, src, k - 1))
  }

  lemma {:induction false} FrontierReached(t: Traversal, dir: Direction, src: NodeID, k: nat)
    ensures Frontier(t, dir, src, k) <= Reach(t, dir, src, k)
    ensures Sphere(t, dir, src, k) <= Frontier(t, dir, src, k)
  {
    if k > 0 { NextSphere(t, dir, src, k - 1); }
  }

  /** Every connection was made by an admissible edge out of one of the nodes `from`. */
  ghost predicate ComesFrom(t: Traversal, dir: Direction, from: set<NodeID>, conns: seq<Connection>) {
    forall c :: c in conns ==>
      && c.edge.Some?
      && Admissible(t, c.edge.value)
      && Near(c.edge.value, dir == Outgoing) in from
      && Far(c.edge.value, dir == Outgoing) == c.node
  }

  /** Going one way, and not having arrived over a self loop, the neighbours of
      `v` are its successors. */
  lemma DirectedNeighbors(t: Traversal, dir: Direction, v: NodeID, last: Option<Edge>)
    requires t.g.Valid() && dir != Both
    requires last.Some? ==> last.value in t.g.edges && Near(last.value, dir == Outgoing) != v
    ensures var conns := Neighbors(t, dir, v, if last.Some? then Some(last.value.id) else None);
            NodesOf(conns) == Successors(t, dir, {v}) && ComesFrom(t, dir, {v}, conns)
  {
    var id := if last.Some? then Some(last.value.id) else None;
    var conns := Neighbors(t, dir, v, id);
    forall c | c in conns
      ensures c.node in Successors(t, dir, {v}) && ComesFrom(t, dir, {v}, [c])
    {
      NeighborsExact(t, dir, v, id, c);
      assert Step(t, dir, v, c.node);
    }
    forall w | w in Successors(t, dir, {v})
      ensures w in NodesOf(conns)
    {
      var e :| e in t.g.edges && Admissible(t, e) && Leads(dir, e, v, w);
      var c := Connection(w, Some(e));
      if last.Some? { EdgeIdsUnique(t.g, last.value, e); }
      NeighborsExact(t, dir, v, id, c);
      assert c in conns;
    }
    assert forall c :: c in conns ==> ComesFrom(t, dir, {v}, [c]) && c in [c];
  }

  /** Level `d` is being worked off. `visited` holds the closer nodes, `newly`
      the nodes of this level expanded so far, and `popped` the nodes already
      taken from this level. */
  ghost predicate Level(s: Target, level: seq<Connection>, d: nat,
                        visited: set<NodeID>, newly: set<NodeID>, popped: set<NodeID>) {
    && visited == Within(s.t, s.dir, s.src, d)
    && newly <= Sphere(s.t, s.dir, s.src, d)
    && (if d == s.maxLen - 1 then newly == {} else popped <= visited + newly)
    && (d > 0 ==> s.dest !in popped)
    && NodesOf(level) + popped == Frontier(s.t, s.dir, s.src, d)
    && (d > 0 ==> ComesFrom(s.t, s.dir, visited, level))
  }

  /** The level being filled holds the successors of the nodes expanded so far. */
  ghost predicate Filled(s: Target, level: seq<Connection>, newly: set<NodeID>) {
    && NodesOf(level) == Successors(s.t, s.dir, newly)
    && ComesFrom(s.t, s.dir, newly, level)
  }

  ghost predicate Searching(s: Target, levels: seq<seq<Connection>>, d: nat,
                            visited: set<NodeID>, newly: set<NodeID>, popped: set<NodeID>) {
    && d < s.maxLen
    && d < |levels| <= d + 2
    && (forall k :: 0 <= k < d ==> levels[k] == [])
    && Level(s, levels[d], d, visited, newly, popped)
    && Filled(s, LevelAt(levels, d + 1), newly)
    && (|levels| == d + 2 ==> levels[d + 1] != [])
    && (forall j :: 1 <= j < d ==> !Hits(s, j))
  }

  /** A level taken to the end did not contain the destination. */
  lemma LevelMissesTarget(s: Target, levels: seq<seq<Connection>>, d: nat,
                          visited: set<NodeID>, newly: set<NodeID>, popped: set<NodeID>)
    requires Searching(s, levels, d, visited, newly, popped) && levels[d] == []
    ensures forall j :: 1 <= j <= d ==> !Hits(s, j)
    ensures d < s.maxLen - 1 ==> newly == Sphere(s.t, s.dir, s.src, d)
  {
    assert NodesOf(levels[d]) == {};
    if d > 0 && Hits(s, d) {
      FirstHit(s, d - 1);
    }
    if d < s.maxLen - 1 {
      FrontierReached(s.t, s.dir, s.src, d);
    }
  }

  /** An exhausted level is followed by a level that holds something. */
  lemma NextLevel(s: Target, levels: seq<seq<Connection>>, d: nat,
                  visited: set<NodeID>, newly: set<NodeID>, popped: set<NodeID>)
    requires Searching(s, levels, d, visited, newly, popped) && levels[d] == []
    requires d + 1 < s.maxLen && d + 1 < |levels|
    ensures Searching(s, levels, d + 1, visited + newly, {}, {}) && levels[d + 1] != []
  {
    LevelMissesTarget(s, levels, d, visited, newly, popped);
    assert NodesOf([]) == {};
  }

  /** The search gives up only when no walk within the bound reaches the target. */
  lemma Unreachable(s: Target, levels: seq<seq<Connection>>, d: nat,
                    visited: set<NodeID>, newly: set<NodeID>, popped: set<NodeID>)
    requires Searching(s, levels, d, visited, newly, popped) && levels[d] == []
    requires d + 1 == s.maxLen || d + 1 >= |levels|
    ensures forall k :: 1 <= k < s.maxLen ==> !Hits(s, k)
  {
    LevelMissesTarget(s, levels, d, visited, newly, popped);
    if d + 1 < s.maxLen {
      assert Successors(s.t, s.dir, newly) == NodesOf([]) == {};
      NextSphere(s.t, s.dir, s.src, d);
      assert !Hits(s, d + 1) by {
        if Hits(s, d + 1) { FirstHit(s, d); }
      }
      forall k | 1 <= k < s.maxLen
        ensures !Hits(s, k)
      {
        NoLaterHit(s, d + 1, k);
      }
    }
  }

  /** Taking `c` off its level, having expanded it unless it was known already. */
  lemma TakeOff(s: Target, level: seq<Connection>, rest: seq<Connection>, d: nat,
                visited: set<NodeID>, newly: set<NodeID>, newly': set<NodeID>, popped: set<NodeID>, c: Connection)
    requires Level(s, level, d, visited, newly, popped) && level == rest + [c]
    requires d > 0 ==> c.node != s.dest
    requires if d == s.maxLen - 1 || c.node in visited + newly then newly' == newly else newly' == newly + {c.node}
    ensures Level(s, rest, d, visited, newly', popped + {c.node})
  {
    assert forall x :: x in level <==> x in rest || x == c;
    assert NodesOf(level) == NodesOf(rest) + {c.node};
    FrontierReached(s.t, s.dir, s.src, d);
  }

  /** What popping `c` off level `d` leaves. */
  ghost predicate Popped(levels: seq<seq<Connection>>, levels': seq<seq<Connection>>, d: nat, c: Connection) {
    && |levels'| == |levels| && d < |levels| && levels'[d] + [c] == levels[d]
    && (forall k: nat :: k != d ==> LevelAt(levels', k) == LevelAt(levels, k))
  }

  /** Popping a connection that is not expanded. */
  lemma Skip(s: Target, levels: seq<seq<Connection>>, levels': seq<seq<Connection>>, d: nat,
             visited: set<NodeID>, newly: set<NodeID>, popped: set<NodeID>, c: Connection)
    requires Searching(s, levels, d, visited, newly, popped) && Popped(levels, levels', d, c)
    requires d > 0 ==> c.node != s.dest
    requires d == s.maxLen - 1 || c.node in visited + newly
    ensures Searching(s, levels', d, visited, newly, popped + {c.node})
  {
    TakeOff(s, levels[d], levels'[d], d, visited, newly, newly, popped, c);
    forall k | 0 <= k < d
      ensures levels'[k] == []
    {
      assert LevelAt(levels', k) == LevelAt(levels, k);
    }
    assert LevelAt(levels', d + 1) == LevelAt(levels, d + 1);
  }

  /** Popping a connection to a new node and adding its neighbours. */
  lemma Expand(s: Target, levels: seq<seq<Connection>>, levels1: seq<seq<Connection>>, levels2: seq<seq<Connection>>,
               d: nat, visited: set<NodeID>, newly: set<NodeID>, popped: set<NodeID>, c: Connection)
    requires s.t.g.Valid() && s.dir != Both
    requires Searching(s, levels, d, visited, newly, popped) && Popped(levels, levels1, d, c)
    requires d > 0 ==> c.node != s.dest && c.edge.Some?
    requires d != s.maxLen - 1 && c.node !in visited + newly
    requires Grown(levels1, levels2, d + 1,
                   Neighbors(s.t, s.dir, c.node, if d > 0 then Some(c.edge.value.id) else None))
    requires |levels2| > |levels1| ==> PassingEdges(s.t, c.node, s.dir == Outgoing) != []
    ensures Searching(s, levels2, d, visited, newly + {c.node}, popped + {c.node})
  {
    assert c in levels[d];
    var more := Neighbors(s.t, s.dir, c.node, if d > 0 then Some(c.edge.value.id) else None);
    DirectedNeighbors(s.t, s.dir, c.node, if d > 0 then c.edge else None);
    assert levels2[d] == LevelAt(levels1, d);
    TakeOff(s, levels[d], levels2[d], d, visited, newly, newly + {c.node}, popped, c);
    forall k | 0 <= k < d
      ensures levels2[k] == []
    {
      assert LevelAt(levels2, k) == LevelAt(levels1, k) == LevelAt(levels, k);
    }
    assert LevelAt(levels1, d + 1) == LevelAt(levels, d + 1);
    MoreNodes(s, newly, c.node, LevelAt(levels, d + 1), more);
    if |levels2| > |levels1| {
      PassingEdgeLeadsOn(s.t, s.dir, c.node);
    }
  }

  lemma PassingEdgeLeadsOn(t: Traversal, dir: Direction, v: NodeID)
    requires t.g.Valid() && dir != Both && PassingEdges(t, v, dir == Outgoing) != []
    ensures Successors(t, dir, {v}) != {}
  {
    PassingEdgesExact(t, v, dir == Outgoing);
    var e := PassingEdges(t, v, dir == Outgoing)[0];
    assert e in PassingEdges(t, v, dir == Outgoing);
    assert Step(t, dir, v, Far(e, dir == Outgoing));
    assert Far(e, dir == Outgoing) in Successors(t, dir, {v});
  }

  /** Going both ways this fails: having arrived at `v` over `last`, nothing is added to the
      level that was made for it exactly when `last` is the only edge at `v`. */
  lemma DeadEndBothWays(t: Traversal, v: NodeID, last: Edge)
    requires t.g.Valid() && Admissible(t, last) && (last.src == v || last.dest == v)
    ensures PassingEdges(t, v, true) + PassingEdges(t, v, false) != []
    ensures Neighbors(t, Both, v, Some(last.id)) == [] <==>
      forall e :: Admissible(t, e) && (e.src == v || e.dest == v) ==> e == last
  {
    PassingEdgesExact(t, v, true);
    PassingEdgesExact(t, v, false);
    assert last in PassingEdges(t, v, true) + PassingEdges(t, v, false);
    var conns := Neighbors(t, Both, v, Some(last.id));
    forall e | Admissible(t, e) && (e.src == v || e.dest == v) && e != last
      ensures conns != []
    {
      EdgeIdsUnique(t.g, e, last);
      var c := Connection(if e.src == v then e.dest else e.src, Some(e));
      NeighborsExact(t, Both, v, Some(last.id), c);
      assert c in conns;
    }
    if conns != [] {
      NeighborsExact(t, Both, v, Some(last.id), conns[0]);
      assert conns[0] in conns;
    }
  }

  /** What the connections expanded at one depth put into the level below, going both ways. */
  function OfferedBothWays(t: Traversal, expanded: seq<Connection>): seq<Connection>
    requires forall c :: c in expanded ==> c.edge.Some?
  {
    if expanded == [] then []
    else
      var k := |expanded| - 1;
      OfferedBothWays(t, expanded[..k]) + Neighbors(t, Both, expanded[k].node, Some(expanded[k].edge.value.id))
  }

  /** The edge the connection came over is the only one at its node. */
  ghost predicate OnlyWayBack(t: Traversal, c: Connection)
    requires c.edge.Some?
  {
    forall e :: Admissible(t, e) && (e.src == c.node || e.dest == c.node) ==> e == c.edge.value
  }

  /** The level made below a depth, from which the search goes on popping, is empty exactly
      when every node expanded there has only the edge it was reached by. */
  lemma {:induction false} EmptyLevelBothWays(t: Traversal, expanded: seq<Connection>)
    requires t.g.Valid()
    requires forall c :: c in expanded ==>
      c.edge.Some? && Admissible(t, c.edge.value) && (c.edge.value.src == c.node || c.edge.value.dest == c.node)
    ensures forall c :: c in expanded ==> PassingEdges(t, c.node, true) + PassingEdges(t, c.node, false) != []
    ensures OfferedBothWays(t, expanded) == [] <==> forall c :: c in expanded ==> OnlyWayBack(t, c)
  {
    if expanded != [] {
      var k := |expanded| - 1;
      var front, last := expanded[..k], expanded[k];
      assert expanded == front + [last];
      EmptyLevelBothWays(t, front);
      DeadEndBothWays(t, last.node, last.edge.value);
      hide Neighbors, PassingEdges, Admissible;
    }
  }

  /** So it is for any graph of one edge, searched from one of its ends for a third node. */
  lemma OneEdgeEmptyLevel(t: Traversal, e: Edge, dest: NodeID)
    requires t.g.Valid() && t.g.edges == [e] && Admissible(t, e) && e.src != e.dest && dest != e.src && dest != e.dest
    ensures var level := Neighbors(t, Both, e.src, None);
      && level != [] && (forall c :: c in level ==> c == Connection(e.dest, Some(e)))
      && OfferedBothWays(t, level) == []
  {
    var level := Neighbors(t, Both, e.src, None);
    forall c: Connection
      ensures c in level <==> c == Connection(e.dest, Some(e))
    {
      NeighborsExact(t, Both, e.src, None, c);
    }
    assert Connection(e.dest, Some(e)) in level;
    EmptyLevelBothWays(t, level);
  }

  lemma MoreNodes(s: Target, newly: set<NodeID>, v: NodeID, a: seq<Connection>, b: seq<Connection>)
    requires Filled(s, a, newly) && Filled(s, b, {v})
    ensures Filled(s, a + b, newly + {v})
    ensures Successors(s.t, s.dir, {v}) != {} ==> b != []
  {
    assert NodesOf(a + b) == NodesOf(a) + NodesOf(b);
    assert Successors(s.t, s.dir, newly + {v}) == Successors(s.t, s.dir, newly) + Successors(s.t, s.dir, {v});
  }

  // ---------------------------------------------------------------------------
  // The search
  // ---------------------------------------------------------------------------

  /** `d` is the length of the shortest positive walk from source to target. */
  ghost predicate IsMinimum(s: Target, d: nat) {
    && d >= 1
    && Hits(s, d)
    && (forall j :: 1 <= j < d ==> !Hits(s, j))
  }

  lemma SearchBegins(s: Target)
    requires s.maxLen >= 1
    ensures Searching(s, [[Connection(s.src, None)]], 0, {}, {}, {})
  {
    assert NodesOf([Connection(s.src, None)]) == {s.src};
  }

  lemma CandidateInGraph(s: Target, levels: seq<seq<Connection>>, d: nat,
                         visited: set<NodeID>, newly: set<NodeID>, popped: set<NodeID>, c: Connection)
    requires Searching(s, levels, d, visited, newly, popped) && c in levels[d] && s.src in s.t.g.nodes
    ensures c.node in s.t.g.nodes
  {
    assert c.node in NodesOf(levels[d]);
  }

  /** The first level that holds the destination is at its distance. */
  lemma TargetTaken(s: Target, levels: seq<seq<Connection>>, d: nat,
                    visited: set<NodeID>, newly: set<NodeID>, popped: set<NodeID>, c: Connection)
    requires Searching(s, levels, d, visited, newly, popped) && c in levels[d] && d > 0 && c.node == s.dest
    ensures IsMinimum(s, d)
  {
    FrontierReached(s.t, s.dir, s.src, d);
    assert c.node in NodesOf(levels[d]);
  }

  ghost predicate Targets(ctx: AllPathsCtx, s: Target)
    reads ctx
  {
    && s.t.g.Valid() && s.dir != Both
    && ctx.t == s.t && ctx.dir == s.dir && ctx.maxLen == s.maxLen
    && ctx.neighbors == []
  }

  /** Takes one connection off level `depth`. Unless it is the destination, its
      node is expanded if it is new. */
  method Visit(ctx: AllPathsCtx, ghost s: Target, dest: NodeID, depth: nat,
               visited: set<NodeID>, newly: set<NodeID>, ghost popped: set<NodeID>)
      returns (found: bool, newly': set<NodeID>, ghost popped': set<NodeID>)
    requires Targets(ctx, s) && dest == s.dest
    requires Searching(s, ctx.levels, depth, visited, newly, popped)
    requires s.src in s.t.g.nodes && ctx.levels[depth] != []
    modifies ctx`levels, ctx`neighbors
    ensures Targets(ctx, s)
    ensures found ==>
      && depth > 0 && IsMinimum(s, depth)
      && |ctx.levels| == |old(ctx.levels)|
      && forall k :: 0 <= k < depth ==> ctx.levels[k] == []
    ensures !found ==>
      && Searching(s, ctx.levels, depth, visited, newly', popped')
      && |ctx.levels[depth]| < |old(ctx.levels)[depth]|
      && (newly' == newly ==> |ctx.levels| == |old(ctx.levels)|)
      && (newly' != newly ==> exists v :: v in s.t.g.nodes && v !in visited + newly && newly' == newly + {v})
  {
    hide Neighbors, PassingEdges, Within, Reach, Successors;
    ghost var levels := ctx.levels;
    var frontier := ctx.PopConnection(depth);
    assert frontier in levels[depth];
    ghost var levels1 := ctx.levels;
    assert Popped(levels, levels1, depth, frontier);
    newly', popped' := newly, popped + {frontier.node};
    found := dest == frontier.node && depth > 0;
    if found {
      TargetTaken(s, levels, depth, visited, newly, popped, frontier);
      forall k | 0 <= k < depth
        ensures ctx.levels[k] == []
      {
        assert LevelAt(ctx.levels, k) == LevelAt(levels, k);
      }
    } else if depth == ctx.maxLen - 1 || frontier.node in visited || frontier.node in newly {
      Skip(s, levels, levels1, depth, visited, newly, popped, frontier);
    } else {
      newly' := newly + {frontier.node};
      ctx.AddNeighbors(frontier, depth + 1);
      assert LevelAt(ctx.levels, depth) == LevelAt(levels1, depth);
      Expand(s, levels, levels1, ctx.levels, depth, visited, newly, popped, frontier);
      CandidateInGraph(s, levels, depth, visited, newly, popped, frontier);
    }
  }

  /** Works off level after level until the destination is taken from one. Returns
      its distance, or 0 when it is out of reach. */
  method SearchLevels(ctx: AllPathsCtx, src: NodeID, dest: NodeID, ghost s: Target)
      returns (depth: nat, visited: set<NodeID>)
    requires Targets(ctx, s) && s.src == src && s.dest == dest
    requires src in s.t.g.nodes && s.maxLen >= 1
    requires ctx.levels == [[Connection(src, None)]]
    modifies ctx`levels, ctx`neighbors
    ensures Targets(ctx, s) && |ctx.levels| >= 1
    ensures depth == 0 ==> forall k :: 1 <= k < s.maxLen ==> !Hits(s, k)
    ensures depth > 0 ==>
      && depth < s.maxLen && IsMinimum(s, depth)
      && visited == Within(s.t, s.dir, src, depth)
      && depth < |ctx.levels| <= depth + 2
      && forall k :: 0 <= k < depth ==> ctx.levels[k] == []
  {
    depth := 0;
    visited := {};
    var newly: set<NodeID> := {};
    ghost var popped: set<NodeID> := {};
    SearchBegins(s);
    hide Reach, Within, Sphere, Successors, Step, Level, Filled, Frontier;
    while true
      invariant Targets(ctx, s)
      invariant Searching(s, ctx.levels, depth, visited, newly, popped)
      decreases s.t.g.nodes - (visited + newly), |ctx.levels| - depth, |ctx.levels[depth]|
    {
      if ctx.levels[depth] == [] {
        ghost var d := depth;
        depth := depth + 1;
        if depth == ctx.maxLen || depth >= |ctx.levels| {
          Unreachable(s, ctx.levels, d, visited, newly, popped);
          depth := 0;
          return;
        }
        NextLevel(s, ctx.levels, d, visited, newly, popped);
        visited, newly, popped := visited + newly, {}, {};
      }
      var found, newly', popped' := Visit(ctx, s, dest, depth, visited, newly, popped);
      if found { return; }
      newly, popped := newly', popped';
    }
  }

  /** Returns the number of nodes on a shortest path of at least one edge, or 0
      when there is none within the hop bound. On success `visited` holds exactly
      the nodes closer than the destination, and no connection is left over. */
  method FindMinimumLength(ctx: AllPathsCtx, src: NodeID, dest: NodeID, ghost s: Target) returns (n: nat)
    requires Targets(ctx, s) && s.src == src && s.dest == dest
    requires src in s.t.g.nodes && s.maxLen >= 1
    requires ctx.levels == [[Connection(src, None)]]
    modifies ctx`levels, ctx`neighbors, ctx`visited
    ensures Targets(ctx, s) && |ctx.levels| >= 1
    ensures n == 0 <==> forall k :: 1 <= k < s.maxLen ==> !Hits(s, k)
    ensures n > 0 ==>
      && n - 1 < s.maxLen && IsMinimum(s, n - 1)
      && ctx.visited == Within(s.t, s.dir, src, n - 1)
      && n <= |ctx.levels|
      && forall k :: 0 <= k < |ctx.levels| ==> ctx.levels[k] == []
  {
    var depth, visited := SearchLevels(ctx, src, dest, s);
    ctx.visited := visited;
    n := 0;
    if depth > 0 {
      ctx.levels := ctx.levels[depth := []];
      n := depth + 1;
      if n < |ctx.levels| { ctx.levels := ctx.levels[n := []]; }
    }
  }
}
