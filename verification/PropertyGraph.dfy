/** The property graph as the path algorithms see it: a finite set of node IDs
    and a list of edges with unique IDs, read through `Graph_GetNodeEdges`.
    Matrices, data blocks and attribute sets are not represented. */
module PropertyGraph {
  import opened Options

  type NodeID = nat
  type EdgeID = nat

  datatype Edge = Edge(id: EdgeID, src: NodeID, dest: NodeID, relation: int)

  datatype Direction = Outgoing | Incoming | Both

  /** Asks for edges of every relation. */
  const GRAPH_NO_RELATION: int := -1

  datatype Graph = Graph(nodes: set<NodeID>, edges: seq<Edge>) {
    ghost predicate Valid() {
      && (forall i :: 0 <= i < |edges| ==> edges[i].src in nodes && edges[i].dest in nodes)
      && (forall i, j :: 0 <= i < j < |edges| ==> edges[i].id != edges[j].id)
    }
  }

  /** What a traversal is allowed to follow. `ft` is the filter tree applied to
      each edge; no filter lets every edge pass. */
  datatype Traversal = Traversal(g: Graph, relationIDs: seq<int>, ft: Option<Edge -> bool>)

  predicate OfRelation(e: Edge, relation: int) {
    relation == GRAPH_NO_RELATION || e.relation == relation
  }

  predicate Passes(t: Traversal, e: Edge) {
    t.ft.None? || t.ft.value(e)
  }

  /** The node an edge is attached to when it is read as outgoing or incoming. */
  function Near(e: Edge, outgoing: bool): NodeID {
    if outgoing then e.src else e.dest
  }

  /** The node reached by following the edge. */
  function Far(e: Edge, outgoing: bool): NodeID {
    if outgoing then e.dest else e.src
  }

  /** Edge `e` leads from `u` to `v` when followed in direction `dir`. */
  predicate Leads(dir: Direction, e: Edge, u: NodeID, v: NodeID) {
    || (dir != Incoming && e.src == u && e.dest == v)
    || (dir != Outgoing && e.dest == u && e.src == v)
  }

  /** The edges a traversal may use: stored, of a requested relation, and let
      through by the filter. */
  ghost predicate Admissible(t: Traversal, e: Edge) {
    && e in t.g.edges
    && (exists r :: r in t.relationIDs && OfRelation(e, r))
    && Passes(t, e)
  }

  /** No edge is listed under two of the requested relations. */
  ghost predicate DistinctRelations(relationIDs: seq<int>) {
    && (forall i, j :: 0 <= i < j < |relationIDs| ==> relationIDs[i] != relationIDs[j])
    && (GRAPH_NO_RELATION in relationIDs ==> |relationIDs| == 1)
  }

  ghost predicate NoDuplicates<T>(s: seq<T>) {
    forall i, j :: 0 <= i < j < |s| ==> s[i] != s[j]
  }

  lemma ConcatenationUnique<T>(a: seq<T>, b: seq<T>)
    requires NoDuplicates(a) && NoDuplicates(b)
    requires forall x :: x in a ==> x !in b
    ensures NoDuplicates(a + b)
  {
    forall i, j | 0 <= i < j < |a + b|
      ensures (a + b)[i] != (a + b)[j]
    {
      if i < |a| <= j {
        assert a[i] in a && b[j - |a|] in b;
      }
    }
  }

  // ---------------------------------------------------------------------------
  // Reading edges
  // ---------------------------------------------------------------------------

  /** Edges of one relation leaving (or entering) `n`. */
  function NodeEdges(edges: seq<Edge>, n: NodeID, outgoing: bool, relation: int): (r: seq<Edge>) {
    if edges == [] then []
    else
      var rest := NodeEdges(edges[..|edges| - 1], n, outgoing, relation);
      var e := edges[|edges| - 1];
      if Near(e, outgoing) == n && OfRelation(e, relation) then rest + [e] else rest
  }

  /** Edges of all the requested relations, one relation after the other. */
  function CollectEdges(edges: seq<Edge>, n: NodeID, outgoing: bool, relationIDs: seq<int>): (r: seq<Edge>) {
    if relationIDs == [] then []
    else
      var k := |relationIDs| - 1;
      CollectEdges(edges, n, outgoing, relationIDs[..k]) + NodeEdges(edges, n, outgoing, relationIDs[k])
  }

  lemma {:induction false} NodeEdgesExact(edges: seq<Edge>, n: NodeID, outgoing: bool, relation: int)
    ensures forall e :: e in NodeEdges(edges, n, outgoing, relation) <==>
      e in edges && Near(e, outgoing) == n && OfRelation(e, relation)
  {
    if edges != [] {
      NodeEdgesExact(edges[..|edges| - 1], n, outgoing, relation);
      assert edges == edges[..|edges| - 1] + [edges[|edges| - 1]];
    }
  }

  lemma {:induction false} CollectEdgesExact(edges: seq<Edge>, n: NodeID, outgoing: bool, relationIDs: seq<int>)
    ensures forall e :: e in CollectEdges(edges, n, outgoing, relationIDs) <==>
      e in edges && Near(e, outgoing) == n && exists x :: x in relationIDs && OfRelation(e, x)
  {
    if relationIDs != [] {
      var k := |relationIDs| - 1;
      assert relationIDs == relationIDs[..k] + [relationIDs[k]];
      CollectEdgesExact(edges, n, outgoing, relationIDs[..k]);
      NodeEdgesExact(edges, n, outgoing, relationIDs[k]);
    }
  }

  lemma {:induction false} NodeEdgesUnique(edges: seq<Edge>, n: NodeID, outgoing: bool, relation: int)
    requires NoDuplicates(edges)
    ensures NoDuplicates(NodeEdges(edges, n, outgoing, relation))
  {
    if edges != [] {
      var front := edges[..|edges| - 1];
      NodeEdgesUnique(front, n, outgoing, relation);
      NodeEdgesExact(front, n, outgoing, relation);
      assert edges[|edges| - 1] !in front;
    }
  }

  lemma {:induction false} CollectEdgesUnique(edges: seq<Edge>, n: NodeID, outgoing: bool, relationIDs: seq<int>)
    requires NoDuplicates(edges) && DistinctRelations(relationIDs)
    ensures NoDuplicates(CollectEdges(edges, n, outgoing, relationIDs))
  {
    if relationIDs != [] {
      var k := |relationIDs| - 1;
      CollectEdgesUnique(edges, n, outgoing, relationIDs[..k]);
      NodeEdgesUnique(edges, n, outgoing, relationIDs[k]);
      CollectEdgesExact(edges, n, outgoing, relationIDs[..k]);
      NodeEdgesExact(edges, n, outgoing, relationIDs[k]);
      var a := CollectEdges(edges, n, outgoing, relationIDs[..k]);
      var b := NodeEdges(edges, n, outgoing, relationIDs[k]);
      forall e | e in a
        ensures e !in b
      {
        var x :| x in relationIDs[..k] && OfRelation(e, x);
        var i :| 0 <= i < k && relationIDs[i] == x;
        assert relationIDs[i] != relationIDs[k];
      }
      ConcatenationUnique(a, b);
    }
  }

  lemma EdgeIdsUnique(g: Graph, e: Edge, f: Edge)
    requires g.Valid() && e in g.edges && f in g.edges
    ensures e.id == f.id ==> e == f
  {
    var i :| 0 <= i < |g.edges| && g.edges[i] == e;
    var j :| 0 <= j < |g.edges| && g.edges[j] == f;
  }

  lemma ValidHasNoDuplicates(g: Graph)
    requires g.Valid()
    ensures NoDuplicates(g.edges)
  {
    forall i, j | 0 <= i < j < |g.edges|
      ensures g.edges[i] != g.edges[j]
    {
      assert g.edges[i].id != g.edges[j].id;
    }
  }

  // ---------------------------------------------------------------------------
  // The in-place filter
  // ---------------------------------------------------------------------------

  /** Drops the failing edges from position `i` on, moving the last edge into
      each hole, and looking at the moved edge next. */
  function SwapFilter(t: Traversal, s: seq<Edge>, i: nat): (r: seq<Edge>)
    requires i <= |s|
    ensures i <= |r|
    decreases |s| - i
  {
    if i == |s| then s
    else if Passes(t, s[i]) then SwapFilter(t, s, i + 1)
    else SwapFilter(t, DropFast(s, i), i)
  }

  function DropFast(s: seq<Edge>, i: nat): (r: seq<Edge>)
    requires i < |s|
    ensures |r| == |s| - 1
  {
    s[i := s[|s| - 1]][..|s| - 1]
  }

  lemma DropFastRemovesOne(s: seq<Edge>, i: nat)
    requires i < |s|
    ensures multiset(s) == multiset(DropFast(s, i)) + multiset{s[i]}
  {
    var last := |s| - 1;
    assert s == s[..last] + [s[last]];
    if i < last {
      assert DropFast(s, i) == s[..last][i := s[last]];
      assert s[..last] == s[..i] + [s[i]] + s[i + 1..last];
      assert DropFast(s, i) == s[..i] + [s[last]] + s[i + 1..last];
    }
  }

  /** The filter keeps exactly the passing edges, each as often as it was listed. */
  lemma {:induction false} SwapFilterKeepsPassing(t: Traversal, s: seq<Edge>, i: nat, e: Edge)
    requires i <= |s|
    requires forall j :: 0 <= j < i ==> Passes(t, s[j])
    ensures multiset(SwapFilter(t, s, i))[e] == if Passes(t, e) then multiset(s)[e] else 0
    decreases |s| - i
  {
    if i == |s| {
      if e in s {
        var j :| 0 <= j < |s| && s[j] == e;
      }
    } else if Passes(t, s[i]) {
      SwapFilterKeepsPassing(t, s, i + 1, e);
    } else {
      DropFastRemovesOne(s, i);
      SwapFilterKeepsPassing(t, DropFast(s, i), i, e);
    }
  }

  lemma UniqueCountsOne<T>(s: seq<T>, x: T)
    requires NoDuplicates(s) && x in s
    ensures multiset(s)[x] == 1
  {
    var i :| 0 <= i < |s| && s[i] == x;
    assert s == s[..i] + [s[i]] + s[i + 1..];
    assert x !in s[..i] && x !in s[i + 1..];
  }

  lemma CountsOneIsUnique<T>(s: seq<T>)
    requires forall x :: x in s ==> multiset(s)[x] == 1
    ensures NoDuplicates(s)
  {
    forall i, j | 0 <= i < j < |s|
      ensures s[i] != s[j]
    {
      assert s == s[..j] + [s[j]] + s[j + 1..];
      assert s[i] in s[..j];
      assert multiset(s)[s[j]] == multiset(s[..j])[s[j]] + 1 + multiset(s[j + 1..])[s[j]];
    }
  }

  /** The passing edges that leave (or enter) `n`, in the order the code builds them. */
  function PassingEdges(t: Traversal, n: NodeID, outgoing: bool): (r: seq<Edge>) {
    var all := CollectEdges(t.g.edges, n, outgoing, t.relationIDs);
    if t.ft.None? then all else SwapFilter(t, all, 0)
  }

  lemma PassingEdgesExact(t: Traversal, n: NodeID, outgoing: bool)
    ensures forall e :: e in PassingEdges(t, n, outgoing) <==> Admissible(t, e) && Near(e, outgoing) == n
    ensures t.g.Valid() && DistinctRelations(t.relationIDs) ==> NoDuplicates(PassingEdges(t, n, outgoing))
  {
    var all := CollectEdges(t.g.edges, n, outgoing, t.relationIDs);
    CollectEdgesExact(t.g.edges, n, outgoing, t.relationIDs);
    var kept := SwapFilter(t, all, 0);
    forall e
      ensures multiset(kept)[e] == if Passes(t, e) then multiset(all)[e] else 0
      ensures e in kept <==> e in all && Passes(t, e)
    {
      SwapFilterKeepsPassing(t, all, 0, e);
      assert e in kept <==> multiset(kept)[e] > 0;
      assert e in all <==> multiset(all)[e] > 0;
    }
    if t.g.Valid() && DistinctRelations(t.relationIDs) {
      ValidHasNoDuplicates(t.g);
      CollectEdgesUnique(t.g.edges, n, outgoing, t.relationIDs);
      forall e | e in kept
        ensures multiset(kept)[e] == 1
      {
        UniqueCountsOne(all, e);
      }
      CountsOneIsUnique(kept);
    }
  }

  // ---------------------------------------------------------------------------
  // Connections to the next level
  // ---------------------------------------------------------------------------

  /** A node waiting to be visited and the edge that led to it; the first node
      has none. */
  datatype Connection = Connection(node: NodeID, edge: Option<Edge>)

  /** Edges turned into connections, without the edge just followed. */
  function Follow(edges: seq<Edge>, outgoing: bool, last: Option<EdgeID>): (r: seq<Connection>) {
    if edges == [] then []
    else
      var k := |edges| - 1;
      var rest := Follow(edges[..k], outgoing, last);
      if last == Some(edges[k].id) then rest else rest + [Connection(Far(edges[k], outgoing), Some(edges[k]))]
  }

  lemma {:induction false} FollowExact(edges: seq<Edge>, outgoing: bool, last: Option<EdgeID>)
    ensures forall c :: c in Follow(edges, outgoing, last) <==>
      c.edge.Some? && c.edge.value in edges && c.node == Far(c.edge.value, outgoing) && last != Some(c.edge.value.id)
    ensures NoDuplicates(edges) ==> NoDuplicates(Follow(edges, outgoing, last))
  {
    if edges != [] {
      var k := |edges| - 1;
      FollowExact(edges[..k], outgoing, last);
      assert edges == edges[..k] + [edges[k]];
      assert NoDuplicates(edges) ==> edges[k] !in edges[..k];
    }
  }

  function OneWay(t: Traversal, outgoing: bool, node: NodeID, last: Option<EdgeID>): (r: seq<Connection>) {
    Follow(PassingEdges(t, node, outgoing), outgoing, last)
  }

  /** The connections added for `node`, reached over the edge with ID `last`. */
  function Neighbors(t: Traversal, dir: Direction, node: NodeID, last: Option<EdgeID>): (r: seq<Connection>) {
    match dir
    case Outgoing => OneWay(t, true, node, last)
    case Incoming => OneWay(t, false, node, last)
    case Both => OneWay(t, false, node, last) + OneWay(t, true, node, last)
  }

  lemma OneWayExact(t: Traversal, outgoing: bool, node: NodeID, last: Option<EdgeID>)
    ensures forall c :: c in OneWay(t, outgoing, node, last) <==>
      && c.edge.Some?
      && Admissible(t, c.edge.value)
      && Near(c.edge.value, outgoing) == node
      && Far(c.edge.value, outgoing) == c.node
      && last != Some(c.edge.value.id)
    ensures t.g.Valid() && DistinctRelations(t.relationIDs) ==> NoDuplicates(OneWay(t, outgoing, node, last))
  {
    PassingEdgesExact(t, node, outgoing);
    FollowExact(PassingEdges(t, node, outgoing), outgoing, last);
  }

  /** A connection can be added for `node` exactly when an admissible edge other
      than the last one leads to it. */
  lemma NeighborsExact(t: Traversal, dir: Direction, node: NodeID, last: Option<EdgeID>, c: Connection)
    ensures c in Neighbors(t, dir, node, last) <==>
      && c.edge.Some?
      && Admissible(t, c.edge.value)
      && Leads(dir, c.edge.value, node, c.node)
      && last != Some(c.edge.value.id)
  {
    OneWayExact(t, true, node, last);
    OneWayExact(t, false, node, last);
  }

  lemma NeighborsInGraph(t: Traversal, dir: Direction, node: NodeID, last: Option<EdgeID>)
    requires t.g.Valid()
    ensures forall c :: c in Neighbors(t, dir, node, last) ==> c.node in t.g.nodes && c.edge.Some?
  {
    forall c | c in Neighbors(t, dir, node, last)
      ensures c.node in t.g.nodes && c.edge.Some?
    {
      NeighborsExact(t, dir, node, last, c);
    }
  }

  /** An edge is offered at most once, except that going both ways offers a self
      loop twice. */
  lemma NeighborsUnique(t: Traversal, dir: Direction, node: NodeID, last: Option<EdgeID>)
    requires t.g.Valid() && DistinctRelations(t.relationIDs)
    requires dir == Both ==> forall e :: Admissible(t, e) ==> e.src != e.dest
    ensures NoDuplicates(Neighbors(t, dir, node, last))
  {
    OneWayExact(t, true, node, last);
    OneWayExact(t, false, node, last);
    if dir == Both {
      forall c | c in OneWay(t, false, node, last)
        ensures c !in OneWay(t, true, node, last)
      {
        assert c.edge.value.dest == node;
      }
      ConcatenationUnique(OneWay(t, false, node, last), OneWay(t, true, node, last));
    }
  }

  /** How often a connection is offered: once, or twice for a self loop going both ways. */
  lemma NeighborsCount(t: Traversal, dir: Direction, node: NodeID, last: Option<EdgeID>, c: Connection)
    requires t.g.Valid() && DistinctRelations(t.relationIDs)
    ensures multiset(Neighbors(t, dir, node, last))[c] ==
      if c !in Neighbors(t, dir, node, last) then 0 else if dir == Both && c.node == node then 2 else 1
  {
    NeighborsExact(t, dir, node, last, c);
    OneWayCount(t, true, node, last, c);
    OneWayCount(t, false, node, last, c);
    OneWayExact(t, true, node, last);
    OneWayExact(t, false, node, last);
    hide OneWay;
  }

  lemma OneWayCount(t: Traversal, outgoing: bool, node: NodeID, last: Option<EdgeID>, c: Connection)
    requires t.g.Valid() && DistinctRelations(t.relationIDs)
    ensures multiset(OneWay(t, outgoing, node, last))[c] == if c in OneWay(t, outgoing, node, last) then 1 else 0
  {
    OneWayExact(t, outgoing, node, last);
    if c in OneWay(t, outgoing, node, last) { UniqueCountsOne(OneWay(t, outgoing, node, last), c); }
  }
}
