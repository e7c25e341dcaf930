/** The longest path of the query graph, and the path of that length which is
    taken out of the graph to build one algebraic expression. */
module LongestPath {
  import opened QueryGraph
  import opened QueryGraphDfs
  import opened QueryGraphBfs
  import TreeDistance
  import DetectCycle

  /** Sweeps twice: from the first node, and from a node found deepest. In a tree
      the level returned is the diameter, and the node returned ends a path of that
      length. */
  method LongestPathTree(g: Graph) returns (n: Alias, level: int)
    requires g.Valid() && 0 < |g.nodes| < BFS_LOWEST_LEVEL
    ensures n in g.nodes && level >= 0
    ensures NoSelfLoops(g) ==> HasTrail(g, n, level, false, {}, {})
    ensures IsTree(g) ==>
      && (exists a :: a in g.nodes && TreeDistance.Distance(NetOf(g), a, n) == level)
      && (forall a, b :: a in g.nodes && b in g.nodes ==> TreeDistance.Distance(NetOf(g), a, b) <= level)
  {
    var leafs, l := BFS(g, g.nodes[0], BFS_LOWEST_LEVEL);
    var leaf := leafs[0];
    assert leaf in leafs;
    var leafs2, l2 := BFS(g, leaf, BFS_LOWEST_LEVEL);
    n, level := leafs2[0], l2;
    assert n in leafs2;
    if IsTree(g) {
      SweptTwice(g, g.nodes[0], l, leaf, level, n);
    }
  }

  lemma SweptTwice(g: Graph, s: Alias, l: nat, leaf: Alias, level: nat, n: Alias)
    requires IsTree(g) && s in g.nodes && leaf in g.nodes && n in g.nodes
    requires TreeDistance.Distance(NetOf(g), s, leaf) == l && AllNearer(g, s, l + 1)
    requires TreeDistance.Distance(NetOf(g), leaf, n) == level && AllNearer(g, leaf, level + 1)
    ensures forall a, b :: a in g.nodes && b in g.nodes ==> TreeDistance.Distance(NetOf(g), a, b) <= level
  {
    var t := NetOf(g);
    assert forall v :: v in g.nodes <==> v in t.nodes;
    forall a, b | a in g.nodes && b in g.nodes
      ensures TreeDistance.Distance(t, a, b) <= level
    {
      TreeDistance.DoubleSweep(t, s, leaf, n, a, b);
    }
  }

  /** Picks a node with only outgoing or only incoming edges, or else the first,
      and measures the longest trail from it. */
  method LongestPathGraph(g: Graph) returns (n: Alias, level: int)
    requires g.Valid() && g.nodes != []
    ensures n in g.nodes && level >= 0
    ensures forall k: nat :: HasTrail(g, n, k, true, {}, {}) <==> k <= level
    ensures |g.incoming[n]| == 0 || |g.outgoing[n]| == 0 ||
            (n == g.nodes[0] && forall m :: m in g.nodes ==> |g.incoming[m]| > 0 && |g.outgoing[m]| > 0)
  {
    var i := 0;
    while i < |g.nodes|
      invariant 0 <= i <= |g.nodes|
      invariant forall j :: 0 <= j < i ==> |g.incoming[g.nodes[j]]| > 0 && |g.outgoing[g.nodes[j]]| > 0
    {
      n := g.nodes[i];
      if |g.incoming[n]| == 0 || |g.outgoing[n]| == 0 {
        level := DFSMaxDepth(g, n);
        return;
      }
      i := i + 1;
    }
    n := g.nodes[0];
    level := DFSMaxDepth(g, n);
  }

  lemma AcyclicHasNoSelfLoops(g: Graph)
    requires g.Valid() && forall p :: DetectCycle.FollowsEdges(g, p) ==> p[0] != p[|p| - 1]
    ensures NoSelfLoops(g)
  {
    forall u
      ensures !Adjacent(g, u, u)
    {
      if Adjacent(g, u, u) { SelfLoopCycle(g, u); }
      hide Adjacent, DetectCycle.FollowsEdges;
    }
  }

  lemma SelfLoopCycle(g: Graph, u: Alias)
    requires g.Valid() && Adjacent(g, u, u)
    ensures var p := [u, u]; DetectCycle.FollowsEdges(g, p) && p[0] == p[|p| - 1]
  {
    hide Joins;
    var e :| Joins(g, e, u, u);
    JoinsEitherWay(g, e, u, u);
    EdgeLeadsOn(g.outgoing[u], e, u);
  }

  lemma EdgeLeadsOn(edges: seq<QGEdge>, e: QGEdge, u: Alias)
    requires e in edges && e.dest == u
    ensures DetectCycle.LeadsTo(edges, u)
  {
    var i :| 0 <= i < |edges| && edges[i] == e;
  }

  /** The path for the next expression. Whatever the graph, the search finds a path
      exactly as long as was announced. */
  method ExpressionPath(g: Graph, acyclic: bool) returns (path: seq<QGEdge>, depth: int)
    requires g.Valid() && 0 < |g.nodes| < BFS_LOWEST_LEVEL
    requires acyclic ==> forall p :: DetectCycle.FollowsEdges(g, p) ==> p[0] != p[|p| - 1]
    ensures depth >= 0 && |path| == depth
    ensures exists t: Trail ::
      |t.nodes| == depth + 1 && IsTrail(g, t, t.nodes[0], depth, !acyclic, {}, {}) && path == t.edges
    ensures acyclic && IsTree(g) ==>
      forall a, b :: a in g.nodes && b in g.nodes ==> TreeDistance.Distance(NetOf(g), a, b) <= depth
  {
    var n;
    if acyclic {
      AcyclicHasNoSelfLoops(g);
      n, depth := LongestPathTree(g);
    } else {
      n, depth := LongestPathGraph(g);
    }
    path := DFS(g, n, depth, !acyclic);
    ghost var t :| IsTrail(g, t, n, depth, !acyclic, {}, {}) && path == t.edges;
    assert |t.nodes| == depth + 1 && t.nodes[0] == n;
  }
}
