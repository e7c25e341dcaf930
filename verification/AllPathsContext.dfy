/** The state shared by both path enumerations, and the step that adds the
    neighbours of a node to a level. */
module AllPathsContext {
  import opened Options
  import opened PropertyGraph

  /** A path under construction or returned: one edge less than nodes. */
  datatype Path = Path(nodes: seq<NodeID>, edges: seq<Edge>)

  /** Level `k` of the pending connections; a level not created yet is empty. */
  function LevelAt(levels: seq<seq<Connection>>, k: nat): seq<Connection> {
    if k < |levels| then levels[k] else []
  }

  /** The levels are the old ones, except that level `depth` has grown by `more`. */
  ghost predicate Grown(before: seq<seq<Connection>>, after: seq<seq<Connection>>, depth: nat, more: seq<Connection>) {
    && LevelAt(after, depth) == LevelAt(before, depth) + more
    && (|after| == |before| || (|before| == depth && |after| == depth + 1))
    && (forall k: nat :: k != depth ==> LevelAt(after, k) == LevelAt(before, k))
  }

  lemma GrownTwice(a: seq<seq<Connection>>, b: seq<seq<Connection>>, c: seq<seq<Connection>>,
                   depth: nat, x: seq<Connection>, y: seq<Connection>)
    requires Grown(a, b, depth, x) && Grown(b, c, depth, y)
    ensures Grown(a, c, depth, x + y)
  {
    assert LevelAt(a, depth) + (x + y) == LevelAt(a, depth) + x + y;
  }

  class AllPathsCtx {
    const t: Traversal
    var dir: Direction
    var minLen: nat                     // fewest nodes on a returned path
    var maxLen: nat                     // most nodes on a returned path
    var dst: Option<NodeID>
    var levels: seq<seq<Connection>>    // connections pending at each depth
    var nodes: seq<NodeID>              // nodes of the current path
    var edges: seq<Edge>                // edges of the current path
    var neighbors: seq<Edge>            // reusable buffer
    var visited: set<NodeID>            // nodes discovered by the shortest path search

    constructor (t: Traversal, dir: Direction, minLen: nat, maxLen: nat, src: NodeID, dst: Option<NodeID>)
      ensures this.t == t && this.dir == dir && this.dst == dst
      ensures this.minLen == minLen + 1 && this.maxLen == maxLen + 1
      ensures levels == [[Connection(src, None)]]
      ensures nodes == [] && edges == [] && neighbors == [] && visited == {}
    {
      this.t, this.dir, this.dst := t, dir, dst;
      this.minLen, this.maxLen := minLen + 1, maxLen + 1;
      levels := [[Connection(src, None)]];
      nodes, edges, neighbors, visited := [], [], [], {};
    }

    method EnsureLevel(depth: nat, cap: nat)
      requires depth <= |levels|
      modifies this`levels
      ensures Grown(old(levels), levels, depth, [])
      ensures cap > 0 ==> depth < |levels|
      ensures |levels| > |old(levels)| ==> cap > 0
    {
      if cap == 0 || depth < |levels| { return; }
      levels := levels + [[]];
    }

    method AddConnection(depth: nat, c: Connection)
      requires depth < |levels|
      modifies this`levels
      ensures Grown(old(levels), levels, depth, [c]) && |levels| == |old(levels)|
    {
      levels := levels[depth := levels[depth] + [c]];
    }

    /** Removes and returns the last connection of a level. */
    method PopConnection(depth: nat) returns (c: Connection)
      requires depth < |levels| && levels[depth] != []
      modifies this`levels
      ensures |levels| == |old(levels)|
      ensures forall k: nat :: k != depth ==> LevelAt(levels, k) == LevelAt(old(levels), k)
      ensures levels[depth] + [c] == old(levels[depth])
    {
      var level := levels[depth];
      c := level[|level| - 1];
      levels := levels[depth := level[..|level| - 1]];
    }

    /** Reads the edges of every requested relation into the buffer. */
    method FetchEdges(node: NodeID, outgoing: bool)
      requires neighbors == []
      modifies this`neighbors
      ensures neighbors == CollectEdges(t.g.edges, node, outgoing, t.relationIDs)
    {
      var i := 0;
      while i < |t.relationIDs|
        invariant 0 <= i <= |t.relationIDs|
        invariant neighbors == CollectEdges(t.g.edges, node, outgoing, t.relationIDs[..i])
      {
        assert t.relationIDs[..i + 1][..i] == t.relationIDs[..i];
        neighbors := neighbors + NodeEdges(t.g.edges, node, outgoing, t.relationIDs[i]);
        i := i + 1;
      }
      assert t.relationIDs[..i] == t.relationIDs;
    }

    /** Drops failing edges from the buffer, filling each hole with the last edge. */
    method FilterEdges()
      modifies this`neighbors
      ensures neighbors == SwapFilter(t, old(neighbors), 0)
    {
      var i := 0;
      while i < |neighbors|
        invariant 0 <= i <= |neighbors|
        invariant SwapFilter(t, neighbors, i) == SwapFilter(t, old(neighbors), 0)
        decreases |neighbors| - i
      {
        if Passes(t, neighbors[i]) {
          i := i + 1;
        } else {
          neighbors := neighbors[i := neighbors[|neighbors| - 1]][..|neighbors| - 1];
        }
      }
    }

    /** Turns the buffered edges into connections, skipping the frontier edge. */
    method AddConnections(depth: nat, outgoing: bool, frontierId: Option<EdgeID>)
      requires neighbors != [] ==> depth < |levels|
      modifies this`levels
      ensures Grown(old(levels), levels, depth, Follow(neighbors, outgoing, frontierId))
      ensures |levels| == |old(levels)|
    {
      var i := 0;
      while i < |neighbors|
        invariant 0 <= i <= |neighbors|
        invariant |levels| == |old(levels)|
        invariant Grown(old(levels), levels, depth, Follow(neighbors[..i], outgoing, frontierId))
      {
        assert neighbors[..i + 1][..i] == neighbors[..i];
        if frontierId != Some(neighbors[i].id) {
          ghost var before := levels;
          var c := Connection(Far(neighbors[i], outgoing), Some(neighbors[i]));
          AddConnection(depth, c);
          GrownTwice(old(levels), before, levels, depth, Follow(neighbors[..i], outgoing, frontierId), [c]);
        }
        i := i + 1;
      }
      assert neighbors[..i] == neighbors;
    }

    method AddOneWay(frontier: Connection, depth: nat, outgoing: bool)
      requires depth <= |levels| && neighbors == []
      requires depth > 1 ==> frontier.edge.Some?
      modifies this`levels, this`neighbors
      ensures neighbors == []
      ensures var last := if depth > 1 then Some(frontier.edge.value.id) else None;
              Grown(old(levels), levels, depth, OneWay(t, outgoing, frontier.node, last))
      ensures |levels| > |old(levels)| ==> PassingEdges(t, frontier.node, outgoing) != []
    {
      var frontierId := None;
      if depth > 1 { frontierId := Some(frontier.edge.value.id); }
      FetchEdges(frontier.node, outgoing);
      if t.ft.Some? { FilterEdges(); }
      EnsureLevel(depth, |neighbors|);
      ghost var before := levels;
      AddConnections(depth, outgoing, frontierId);
      ghost var more := Follow(neighbors, outgoing, frontierId);
      GrownTwice(old(levels), before, levels, depth, [], more);
      assert [] + more == more;
      neighbors := [];
    }

    /** Adds every neighbour of the frontier to level `depth`. */
    method AddNeighbors(frontier: Connection, depth: nat)
      requires depth <= |levels| && neighbors == []
      requires depth > 1 ==> frontier.edge.Some?
      modifies this`levels, this`neighbors
      ensures neighbors == []
      ensures var last := if depth > 1 then Some(frontier.edge.value.id) else None;
              Grown(old(levels), levels, depth, Neighbors(t, dir, frontier.node, last))
      ensures dir != Both && |levels| > |old(levels)| ==>
        PassingEdges(t, frontier.node, dir == Outgoing) != []
    {
      match dir
      case Outgoing => AddOneWay(frontier, depth, true);
      case Incoming => AddOneWay(frontier, depth, false);
      case Both =>
        AddOneWay(frontier, depth, false);
        ghost var between := levels;
        AddOneWay(frontier, depth, true);
        ghost var last := if depth > 1 then Some(frontier.edge.value.id) else None;
        GrownTwice(old(levels), between, levels, depth,
                   OneWay(t, false, frontier.node, last), OneWay(t, true, frontier.node, last));
    }
  }
}
