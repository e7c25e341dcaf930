/** Breadth first layers of the query graph, the longest path of a tree, and the
    path taken out of the graph for one algebraic expression. */
module QueryGraphBfs {
  import opened QueryGraph
  import opened QueryGraphDfs
  import TreeDistance

  /** Asks for the deepest level. */
  const BFS_LOWEST_LEVEL: int := 0x7FFF_FFFF

  ghost predicate Adjacent(g: Graph, u: Alias, v: Alias) {
    exists e :: Joins(g, e, u, v)
  }

  ghost predicate NoSelfLoops(g: Graph) {
    forall u {:trigger Adjacent(g, u, u)} :: !Adjacent(g, u, u)
  }

  // ---------------------------------------------------------------------------
  // One level
  // ---------------------------------------------------------------------------

  /** Appends the neighbours of `n` in one edge list that were not visited. */
  method AppendUnvisited(g: Graph, n: Alias, outgoing: bool, visited: set<Alias>, queue: seq<Alias>)
      returns (next: seq<Alias>)
    requires g.Valid() && n in g.nodes
    ensures forall w :: w in next <==>
      || w in queue
      || (w !in visited && exists e :: e in EdgesOf(g, n, outgoing) && w == Other(e, outgoing))
  {
    var edges := EdgesOf(g, n, outgoing);
    next := queue;
    var j := 0;
    while j < |edges|
      invariant 0 <= j <= |edges|
      invariant forall w :: w in next <==>
        || w in queue
        || (w !in visited && exists i :: 0 <= i < j && w == Other(edges[i], outgoing))
    {
      if Other(edges[j], outgoing) !in visited {
        next := next + [Other(edges[j], outgoing)];
      }
      j := j + 1;
    }
  }

  /** What expanding the first `i` nodes of a level leaves: they are visited, the
      next level holds only unvisited neighbours of newly visited nodes, and of
      those at least the ones outside the level. */
  ghost predicate Expanded(g: Graph, current: seq<Alias>, i: nat, before: set<Alias>,
                           visited: set<Alias>, next: seq<Alias>)
    requires i <= |current|
  {
    && visited == before + (set n | n in current[..i])
    && (forall w :: w in next ==>
          w !in before && exists n :: n in current[..i] && n !in before && Adjacent(g, n, w))
    && (forall n, w :: n in current[..i] && n !in before && Adjacent(g, n, w) && w !in before && w !in current
          ==> w in next)
  }

  /** Expanding one more node. */
  lemma ExpandNode(g: Graph, current: seq<Alias>, i: nat, before: set<Alias>,
                   visited: set<Alias>, next: seq<Alias>, next1: seq<Alias>, next2: seq<Alias>)
    requires i < |current| && Expanded(g, current, i, before, visited, next)
    requires current[i] in g.outgoing && current[i] in g.incoming && current[i] !in visited
    requires forall w :: w in next1 <==>
      w in next || (w !in visited && exists e :: e in EdgesOf(g, current[i], true) && w == Other(e, true))
    requires forall w :: w in next2 <==>
      w in next1 || (w !in visited && exists e :: e in EdgesOf(g, current[i], false) && w == Other(e, false))
    ensures Expanded(g, current, i + 1, before, visited + {current[i]}, next2)
  {
    var n := current[i];
    assert current[..i + 1] == current[..i] + [n];
    forall w
      ensures w in next2 <==> w in next || (w !in visited && Adjacent(g, n, w))
    {
      AdjacentListed(g, n, w);
    }
    assert visited <= before + (set x | x in current);
    assert forall w :: w in next2 && w !in next ==> n in current[..i + 1] && Adjacent(g, n, w);
  }

  lemma AdjacentListed(g: Graph, n: Alias, w: Alias)
    requires n in g.outgoing && n in g.incoming
    ensures Adjacent(g, n, w) <==>
      || (exists e :: e in EdgesOf(g, n, true) && w == Other(e, true))
      || (exists e :: e in EdgesOf(g, n, false) && w == Other(e, false))
  {
    forall outgoing, e | e in EdgesOf(g, n, outgoing) && w == Other(e, outgoing)
      ensures Joins(g, e, n, w)
    {
    }
    if e :| e in EdgesOf(g, n, true) && w == Other(e, true) { assert Joins(g, e, n, w); }
    if e :| e in EdgesOf(g, n, false) && w == Other(e, false) { assert Joins(g, e, n, w); }
  }

  lemma ExpandSeen(g: Graph, current: seq<Alias>, i: nat, before: set<Alias>, visited: set<Alias>, next: seq<Alias>)
    requires i < |current| && Expanded(g, current, i, before, visited, next) && current[i] in visited
    ensures Expanded(g, current, i + 1, before, visited, next)
  {
    assert current[..i + 1] == current[..i] + [current[i]];
    if current[i] !in before {
      assert current[i] in current[..i];
    }
  }

  method ExpandLevel(g: Graph, current: seq<Alias>, before: set<Alias>) returns (visited: set<Alias>, next: seq<Alias>)
    requires g.Valid() && forall n :: n in current ==> n in g.nodes
    ensures Expanded(g, current, |current|, before, visited, next)
    ensures forall n :: n in next ==> n in g.nodes
  {
    visited, next := before, [];
    var i := 0;
    while i < |current|
      invariant 0 <= i <= |current|
      invariant Expanded(g, current, i, before, visited, next)
    {
      var n := current[i];
      if n in visited {
        ExpandSeen(g, current, i, before, visited, next);
      } else {
        var next1 := AppendUnvisited(g, n, true, visited, next);
        var next2 := AppendUnvisited(g, n, false, visited, next1);
        ExpandNode(g, current, i, before, visited, next, next1, next2);
        visited, next := visited + {n}, next2;
      }
      i := i + 1;
    }
    forall w | w in next
      ensures w in g.nodes
    {
      var n :| n in current[..i] && n !in before && Adjacent(g, n, w);
      var e :| Joins(g, e, n, w);
      JoinsEitherWay(g, e, n, w);
    }
  }

  // ---------------------------------------------------------------------------
  // Chains: every layer, in any graph without self loops
  // ---------------------------------------------------------------------------

  /** A path of `k` edges from `s` to `v` that repeats no node. */
  ghost predicate IsChain(g: Graph, p: seq<Alias>, s: Alias, k: nat, v: Alias) {
    && |p| == k + 1 && p[0] == s && p[k] == v
    && (forall i :: 0 <= i < k ==> Adjacent(g, p[i], p[i + 1]))
    && (forall i, j :: 0 <= i < j <= k ==> p[i] != p[j])
  }

  ghost predicate HasChain(g: Graph, s: Alias, k: nat, v: Alias, visited: set<Alias>) {
    exists p :: IsChain(g, p, s, k, v) && forall i :: 0 <= i < k ==> p[i] in visited
  }

  lemma ChainsGrow(g: Graph, s: Alias, k: nat, current: seq<Alias>, before: set<Alias>,
                   visited: set<Alias>, next: seq<Alias>)
    requires NoSelfLoops(g) && Expanded(g, current, |current|, before, visited, next)
    requires forall v :: v in current ==> HasChain(g, s, k, v, before)
    ensures forall w :: w in next ==> HasChain(g, s, k + 1, w, visited)
  {
    forall w | w in next
      ensures HasChain(g, s, k + 1, w, visited)
    {
      var n :| n in current[..|current|] && n !in before && Adjacent(g, n, w);
      assert n in current;
      var p :| IsChain(g, p, s, k, n) && forall i :: 0 <= i < k ==> p[i] in before;
      var p' := p + [w];
      assert w != n by { assert Adjacent(g, n, w) && !Adjacent(g, n, n); }
      forall i | 0 <= i < k + 1
        ensures Adjacent(g, p'[i], p'[i + 1]) && p'[i] in visited && p'[i] != w
      {
        assert i < k ==> Adjacent(g, p[i], p[i + 1]) && p[i] in before;
      }
      assert IsChain(g, p', s, k + 1, w);
    }
  }

  lemma AdjacentSymmetric(g: Graph, u: Alias, v: Alias)
    requires g.Valid() && Adjacent(g, u, v)
    ensures Adjacent(g, v, u)
  {
    var e :| Joins(g, e, u, v);
    JoinsEitherWay(g, e, u, v);
  }

  /** Walked backwards, a chain is a chain. */
  lemma ChainReversed(g: Graph, p: seq<Alias>, s: Alias, k: nat, v: Alias) returns (q: seq<Alias>)
    requires g.Valid() && IsChain(g, p, s, k, v)
    ensures IsChain(g, q, v, k, s)
  {
    hide Adjacent;
    q := seq(k + 1, i requires 0 <= i < k + 1 => p[k - i]);
    forall i | 0 <= i < k
      ensures Adjacent(g, q[i], q[i + 1])
    {
      assert Adjacent(g, p[k - i - 1], p[k - i - 1 + 1]);
      AdjacentSymmetric(g, p[k - i - 1], p[k - i]);
    }
  }

  /** A chain is a trail that closes no cycle. */
  lemma ChainIsTrail(g: Graph, p: seq<Alias>, s: Alias, k: nat, v: Alias)
    requires g.Valid() && IsChain(g, p, s, k, v)
    ensures HasTrail(g, s, k, false, {}, {})
  {
    hide Adjacent, Joins;
    var edges := PickEdges(g, p, k);
    forall i, j | 0 <= i < j < k
      ensures edges[i].alias != edges[j].alias
    {
      EdgesDiffer(g, edges[i], p[i], p[i + 1], edges[j], p[j], p[j + 1]);
    }
    assert IsTrail(g, Trail(p, edges), s, k, false, {}, {});
  }

  /** An edge for each two neighbouring nodes of `p`. */
  lemma {:induction false} PickEdges(g: Graph, p: seq<Alias>, k: nat) returns (edges: seq<QGEdge>)
    requires k < |p| && forall i :: 0 <= i < k ==> Adjacent(g, p[i], p[i + 1])
    ensures |edges| == k && forall i :: 0 <= i < k ==> Joins(g, edges[i], p[i], p[i + 1])
  {
    hide Joins;
    edges := [];
    if k > 0 {
      edges := PickEdges(g, p, k - 1);
      assert Adjacent(g, p[k - 1], p[k - 1 + 1]);
      var e :| Joins(g, e, p[k - 1], p[k]);
      edges := edges + [e];
    }
  }

  lemma EdgesDiffer(g: Graph, e: QGEdge, a: Alias, b: Alias, f: QGEdge, c: Alias, d: Alias)
    requires g.Valid() && Joins(g, e, a, b) && Joins(g, f, c, d)
    requires a != c && a != d
    ensures e.alias != f.alias
  {
    JoinsEitherWay(g, e, a, b);
    JoinsEitherWay(g, f, c, d);
  }

  // ---------------------------------------------------------------------------
  // Distances: every layer, in trees
  // ---------------------------------------------------------------------------

  /** The query graph without directions. */
  ghost function NetOf(g: Graph): TreeDistance.Net {
    TreeDistance.Net(set n | n in g.nodes, set u, v | u in g.nodes && v in g.nodes && Adjacent(g, u, v) :: (u, v))
  }

  ghost predicate IsTree(g: Graph) {
    g.Valid() && TreeDistance.IsTree(NetOf(g))
  }

  lemma NetLinks(g: Graph, u: Alias, v: Alias)
    requires g.Valid()
    ensures (u, v) in NetOf(g).links <==> Adjacent(g, u, v)
  {
    if e :| Joins(g, e, u, v) {
      JoinsEitherWay(g, e, u, v);
    }
  }

  ghost function Sphere(t: TreeDistance.Net, s: Alias, k: nat): set<Alias>
    requires TreeDistance.IsTree(t) && s in t.nodes
  {
    set v | v in t.nodes && TreeDistance.Distance(t, s, v) == k
  }

  ghost function Ball(t: TreeDistance.Net, s: Alias, k: nat): set<Alias>
    requires TreeDistance.IsTree(t) && s in t.nodes
  {
    set v | v in t.nodes && TreeDistance.Distance(t, s, v) < k
  }

  /** Linked nodes are one apart in their distance. */
  lemma OneApart(t: TreeDistance.Net, s: Alias, a: Alias, b: Alias)
    requires TreeDistance.IsTree(t) && s in t.nodes && (a, b) in t.links
    ensures TreeDistance.Distance(t, s, b) == TreeDistance.Distance(t, s, a) + 1
         || TreeDistance.Distance(t, s, a) == TreeDistance.Distance(t, s, b) + 1
  {
    TreeDistance.Parity(t, s, a, b);
    OneMore(t, s, a, b);
    OneMore(t, s, b, a);
  }

  lemma OneMore(t: TreeDistance.Net, s: Alias, a: Alias, b: Alias)
    requires TreeDistance.IsTree(t) && s in t.nodes && (a, b) in t.links
    ensures TreeDistance.Distance(t, s, b) <= TreeDistance.Distance(t, s, a) + 1
  {
    assert TreeDistance.Walk(t, b, 0, b);
    assert TreeDistance.Walk(t, a, 1, b);
    TreeDistance.DistanceLeast(t, a, b, 1);
    TreeDistance.Triangle(t, s, a, b);
  }

  /** A node at distance `k + 1` is linked to one at distance `k`. */
  lemma Nearer(t: TreeDistance.Net, s: Alias, w: Alias, k: nat) returns (n: Alias)
    requires TreeDistance.IsTree(t) && s in t.nodes && w in t.nodes && TreeDistance.Distance(t, s, w) == k + 1
    ensures (n, w) in t.links && TreeDistance.Distance(t, s, n) == k
  {
    TreeDistance.DistanceSymmetric(t, s, w);
    n :| (w, n) in t.links && TreeDistance.Walk(t, n, k, s);
    TreeDistance.DistanceLeast(t, n, s, k);
    TreeDistance.DistanceSymmetric(t, s, n);
    OneApart(t, s, w, n);
  }

  /** In a tree, expanding the nodes at distance `k` gives those at `k + 1`. */
  lemma TreeLayer(g: Graph, s: Alias, k: nat, current: seq<Alias>, before: set<Alias>,
                  visited: set<Alias>, next: seq<Alias>)
    requires IsTree(g) && s in g.nodes && Expanded(g, current, |current|, before, visited, next)
    requires before == Ball(NetOf(g), s, k) && (set v | v in current) == Sphere(NetOf(g), s, k)
    ensures visited == Ball(NetOf(g), s, k + 1) && (set v | v in next) == Sphere(NetOf(g), s, k + 1)
  {
    var t := NetOf(g);
    assert s in t.nodes;
    hide TreeDistance.Connected, TreeDistance.Acyclic, NetOf, Adjacent;
    assert current[..|current|] == current;
    assert forall v :: v in current <==> v in Sphere(t, s, k) by {
      assert forall v :: v in current <==> v in (set x | x in current);
    }
    forall w | w in next
      ensures w in Sphere(t, s, k + 1)
    {
      var n :| n in current && n !in before && Adjacent(g, n, w);
      NetLinks(g, n, w);
      OneApart(t, s, n, w);
    }
    forall w | w in Sphere(t, s, k + 1)
      ensures w in next
    {
      var n := Nearer(t, s, w, k);
      NetLinks(g, n, w);
      assert n in current;
    }
  }

  /** No node lies beyond an empty layer. */
  lemma {:induction false} NothingBeyond(t: TreeDistance.Net, s: Alias, k: nat, v: Alias)
    requires TreeDistance.IsTree(t) && s in t.nodes && v in t.nodes && Sphere(t, s, k + 1) == {}
    ensures TreeDistance.Distance(t, s, v) <= k
    decreases TreeDistance.Distance(t, s, v)
  {
    var d := TreeDistance.Distance(t, s, v);
    if d > k {
      assert v in Sphere(t, s, d);
      var n := Nearer(t, s, v, d - 1);
      NothingBeyond(t, s, k, n);
    }
  }

  // ---------------------------------------------------------------------------
  // The search
  // ---------------------------------------------------------------------------

  /** What holds of the layer at level `k`. */
  ghost predicate Layer(g: Graph, s: Alias, k: nat, current: seq<Alias>, visited: set<Alias>) {
    && (NoSelfLoops(g) ==> forall v :: v in current ==> HasChain(g, s, k, v, visited))
    && (IsTree(g) && s in g.nodes ==>
          && visited == Ball(NetOf(g), s, k)
          && (set v | v in current) == Sphere(NetOf(g), s, k))
  }

  lemma FirstLayer(g: Graph, s: Alias)
    requires g.Valid() && s in g.nodes
    ensures Layer(g, s, 0, [s], {})
  {
    assert IsChain(g, [s], s, 0, s);
    if IsTree(g) {
      var t := NetOf(g);
      assert TreeDistance.Walk(t, s, 0, s);
      TreeDistance.DistanceLeast(t, s, s, 0);
      assert Sphere(t, s, 0) == {s} by {
        forall v | v in Sphere(t, s, 0)
          ensures v == s
        {
          assert TreeDistance.Walk(t, s, 0, v);
        }
      }
    }
  }

  lemma NextLayer(g: Graph, s: Alias, k: nat, current: seq<Alias>, before: set<Alias>,
                  visited: set<Alias>, next: seq<Alias>)
    requires g.Valid() && s in g.nodes && Layer(g, s, k, current, before)
    requires Expanded(g, current, |current|, before, visited, next)
    ensures Layer(g, s, k + 1, next, visited)
  {
    if NoSelfLoops(g) { ChainsGrow(g, s, k, current, before, visited, next); }
    if IsTree(g) { TreeLayer(g, s, k, current, before, visited, next); }
  }

  /** A level that leads on visits something new. */
  lemma Progress(g: Graph, current: seq<Alias>, before: set<Alias>, visited: set<Alias>, next: seq<Alias>)
    requires Expanded(g, current, |current|, before, visited, next)
    ensures before <= visited <= before + (set n | n in current)
    ensures next != [] ==> before < visited && |before| < |visited|
  {
    assert current[..|current|] == current;
    if next != [] {
      assert next[0] in next;
      var n :| n in current && n !in before && Adjacent(g, n, next[0]);
      assert n in visited;
      SubsetSize(before + {n}, visited);
    }
  }

  lemma {:induction false} NodeCount(s: seq<Alias>)
    ensures |set n | n in s| <= |s|
  {
    if s != [] {
      NodeCount(s[1..]);
      assert (set n | n in s) == {s[0]} + (set n | n in s[1..]);
    }
  }

  /** The nodes in `current` end paths of exactly `k` edges that repeat no node; in a
      tree they are the nodes at distance `k` from `s`. */
  ghost predicate AtLevel(g: Graph, s: Alias, k: nat, current: seq<Alias>) {
    && (NoSelfLoops(g) ==> forall v :: v in current ==> HasTrail(g, v, k, false, {}, {}))
    && (IsTree(g) && s in g.nodes ==>
          forall v :: v in current <==> v in g.nodes && TreeDistance.Distance(NetOf(g), s, v) == k)
  }

  /** In a tree, no node is `k` or more away from `s`. */
  ghost predicate AllNearer(g: Graph, s: Alias, k: nat) {
    IsTree(g) && s in g.nodes ==> forall v :: v in g.nodes ==> TreeDistance.Distance(NetOf(g), s, v) < k
  }

  lemma LayerMeaning(g: Graph, s: Alias, k: nat, current: seq<Alias>, visited: set<Alias>)
    requires g.Valid() && s in g.nodes && Layer(g, s, k, current, visited)
    ensures AtLevel(g, s, k, current)
  {
    if NoSelfLoops(g) {
      forall v | v in current
        ensures HasTrail(g, v, k, false, {}, {})
      {
        var p :| IsChain(g, p, s, k, v) && forall i :: 0 <= i < k ==> p[i] in visited;
        var q := ChainReversed(g, p, s, k, v);
        ChainIsTrail(g, q, v, k, s);
      }
    }
    if IsTree(g) {
      assert forall v :: v in current <==> v in Sphere(NetOf(g), s, k);
    }
  }

  /** When a layer of a tree is empty, all nodes are nearer. */
  lemma EmptyLayer(g: Graph, s: Alias, k: nat, visited: set<Alias>)
    requires g.Valid() && s in g.nodes && Layer(g, s, k, [], visited)
    ensures AllNearer(g, s, k)
    ensures forall m: nat :: k <= m ==> AtLevel(g, s, m, [])
  {
    if IsTree(g) {
      var t := NetOf(g);
      assert Sphere(t, s, k) == {};
      assert TreeDistance.Walk(t, s, 0, s);
      TreeDistance.DistanceLeast(t, s, s, 0);
      assert s in Sphere(t, s, 0);
      forall v | v in g.nodes
        ensures TreeDistance.Distance(t, s, v) < k
      {
        NothingBeyond(t, s, k - 1, v);
      }
    }
  }

  /** Returns the nodes at the given level, or at the deepest level and which one that is. */
  method BFS(g: Graph, s: Alias, level: int) returns (current: seq<Alias>, reached: int)
    requires g.Valid() && s in g.nodes && |g.nodes| < BFS_LOWEST_LEVEL
    ensures level != BFS_LOWEST_LEVEL ==> reached == level
    ensures level == BFS_LOWEST_LEVEL ==> current != [] && 0 <= reached
    ensures forall v :: v in current ==> v in g.nodes
    ensures AtLevel(g, s, Left(reached, 0), current)
    ensures level == BFS_LOWEST_LEVEL ==> AllNearer(g, s, reached + 1)
  {
    hide Layer, AtLevel, AllNearer, Expanded;
    var k: nat := 0;
    var visited: set<Alias> := {};
    current := [s];
    reached := level;
    FirstLayer(g, s);
    ghost var all := set n | n in g.nodes;
    while k < level && current != []
      invariant Layer(g, s, k, current, visited)
      invariant forall v :: v in current ==> v in g.nodes
      invariant visited <= all && (current != [] ==> k <= |visited|)
      invariant k <= level || k == 0
      invariant level == BFS_LOWEST_LEVEL ==> current != []
      decreases all - visited, |current|
    {
      var before := visited;
      var next;
      visited, next := ExpandLevel(g, current, before);
      NextLayer(g, s, k, current, before, visited, next);
      Progress(g, current, before, visited, next);
      SubsetSize(visited, all);
      if next == [] && level == BFS_LOWEST_LEVEL {
        reached := k;
        LayerMeaning(g, s, k, current, before);
        EmptyLayer(g, s, k + 1, visited);
        return;
      }
      current := next;
      k := k + 1;
    }
    NodeCount(g.nodes);
    SubsetSize(visited, all);
    LayerMeaning(g, s, k, current, visited);
    assert level <= k || current == [];
    if current == [] { EmptyLayer(g, s, k, visited); }
  }
}
