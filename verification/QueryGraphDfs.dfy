/** Backtracking searches over the query graph: a trail of a given length, and
    the length of the longest trail. */
module QueryGraphDfs {
  import opened QueryGraph

  /** A trail of `n + 1` edges starts over edge `i` of one of the lists at `from`. */
  ghost predicate HasTrailVia(g: Graph, from: Alias, outgoing: bool, i: nat, n: nat, closeCycle: bool,
                              visited: set<Alias>, used: set<string>)
    requires from in g.outgoing && from in g.incoming && i < |EdgesOf(g, from, outgoing)|
  {
    var e := EdgesOf(g, from, outgoing)[i];
    && CanStep(g, from, e, Other(e, outgoing), closeCycle, visited, used)
    && HasTrail(g, Other(e, outgoing), n, closeCycle, visited + {from}, used + {e.alias})
  }

  lemma EmptyTrail(g: Graph, from: Alias, closeCycle: bool, visited: set<Alias>, used: set<string>)
    ensures IsTrail(g, Trail([from], []), from, 0, closeCycle, visited, used)
    ensures HasTrail(g, from, 0, closeCycle, visited, used)
  {
    assert IsTrail(g, Trail([from], []), from, 0, closeCycle, visited, used);
  }

  lemma NoTrailFromVisited(g: Graph, from: Alias, n: nat, closeCycle: bool, visited: set<Alias>, used: set<string>)
    requires from in visited && n > 0
    ensures !HasTrail(g, from, n, closeCycle, visited, used)
  {
    forall t: Trail | |t.nodes| == n + 1 && t.nodes[0] == from
      ensures !IsTrail(g, t, from, n, closeCycle, visited, used)
    {
    }
  }

  /** Every trail starts over one of the listed edges. */
  lemma FirstEdge(g: Graph, from: Alias, n: nat, closeCycle: bool, visited: set<Alias>, used: set<string>)
      returns (outgoing: bool, i: nat)
    requires HasTrail(g, from, n + 1, closeCycle, visited, used)
    ensures from in g.outgoing && from in g.incoming && i < |EdgesOf(g, from, outgoing)|
    ensures HasTrailVia(g, from, outgoing, i, n, closeCycle, visited, used)
  {
    var t :| IsTrail(g, t, from, n + 1, closeCycle, visited, used);
    TrailStep(g, t, from, n + 1, closeCycle, visited, used);
    var e, m := t.edges[0], t.nodes[1];
    outgoing :| e in EdgesOf(g, from, outgoing) && m == Other(e, outgoing);
    i :| 0 <= i < |EdgesOf(g, from, outgoing)| && EdgesOf(g, from, outgoing)[i] == e;
    assert HasTrail(g, m, n, closeCycle, visited + {from}, used + {e.alias});
  }

  /** A trail found behind the first edge makes one from here. */
  lemma Extended(g: Graph, from: Alias, e: QGEdge, m: Alias, n: nat, closeCycle: bool,
                 visited: set<Alias>, used: set<string>, t: Trail)
    requires CanStep(g, from, e, m, closeCycle, visited, used)
    requires IsTrail(g, t, m, n, closeCycle, visited + {from}, used + {e.alias})
    ensures IsTrail(g, Trail([from] + t.nodes, [e] + t.edges), from, n + 1, closeCycle, visited, used)
    ensures HasTrail(g, from, n + 1, closeCycle, visited, used)
  {
    var t' := Trail([from] + t.nodes, [e] + t.edges);
    assert Rest(t') == t;
    TrailStep(g, t', from, n + 1, closeCycle, visited, used);
  }

  lemma ExtendedSome(g: Graph, from: Alias, e: QGEdge, m: Alias, n: nat, closeCycle: bool,
                     visited: set<Alias>, used: set<string>)
    requires CanStep(g, from, e, m, closeCycle, visited, used)
    requires HasTrail(g, m, n, closeCycle, visited + {from}, used + {e.alias})
    ensures HasTrail(g, from, n + 1, closeCycle, visited, used)
  {
    var t :| IsTrail(g, t, m, n, closeCycle, visited + {from}, used + {e.alias});
    Extended(g, from, e, m, n, closeCycle, visited, used, t);
  }

  lemma ListedEdgeJoins(g: Graph, n: Alias, outgoing: bool, i: nat)
    requires g.Valid() && n in g.nodes && i < |EdgesOf(g, n, outgoing)|
    ensures var e := EdgesOf(g, n, outgoing)[i];
      Joins(g, e, n, Other(e, outgoing)) && Other(e, outgoing) in g.nodes
  {
    var e := EdgesOf(g, n, outgoing)[i];
    assert e in EdgesOf(g, n, outgoing);
    JoinsEitherWay(g, e, n, Other(e, outgoing));
  }

  // ---------------------------------------------------------------------------
  // A trail of given length
  // ---------------------------------------------------------------------------

  function Left(level: int, current: nat): nat {
    if level > current then level - current else 0
  }

  /** No trail starts over one of the first `k` edges listed at `from`. */
  ghost predicate NoneVia(g: Graph, from: Alias, outgoing: bool, k: nat, n: nat, closeCycle: bool,
                          visited: set<Alias>, used: set<string>)
    requires from in g.outgoing && from in g.incoming && k <= |EdgesOf(g, from, outgoing)|
  {
    forall i :: 0 <= i < k ==> !HasTrailVia(g, from, outgoing, i, n, closeCycle, visited, used)
  }

  lemma NoneViaNothing(g: Graph, from: Alias, outgoing: bool, n: nat, closeCycle: bool,
                       visited: set<Alias>, used: set<string>)
    requires from in g.outgoing && from in g.incoming
    ensures NoneVia(g, from, outgoing, 0, n, closeCycle, visited, used)
  {
  }

  /** One more edge of a list that starts no trail. */
  lemma NoneViaEdge(g: Graph, from: Alias, outgoing: bool, i: nat, n: nat, closeCycle: bool,
                    visited: set<Alias>, used: set<string>)
    requires from in g.outgoing && from in g.incoming && i < |EdgesOf(g, from, outgoing)|
    requires NoneVia(g, from, outgoing, i, n, closeCycle, visited, used)
    requires var e := EdgesOf(g, from, outgoing)[i];
      var m := Other(e, outgoing);
      || e.alias in used
      || (!closeCycle && m in visited + {from})
      || !HasTrail(g, m, n, closeCycle, visited + {from}, used + {e.alias})
    ensures NoneVia(g, from, outgoing, i + 1, n, closeCycle, visited, used)
  {
    hide HasTrail;
  }

  /** Once both edge lists are exhausted, no trail starts at `from`. */
  lemma NoTrailLeft(g: Graph, from: Alias, n: nat, closeCycle: bool, visited: set<Alias>, used: set<string>)
    requires from in g.outgoing && from in g.incoming
    requires NoneVia(g, from, true, |g.outgoing[from]|, n, closeCycle, visited, used)
    requires NoneVia(g, from, false, |g.incoming[from]|, n, closeCycle, visited, used)
    ensures !HasTrail(g, from, n + 1, closeCycle, visited, used)
  {
    if HasTrail(g, from, n + 1, closeCycle, visited, used) {
      var outgoing, i := FirstEdge(g, from, n, closeCycle, visited, used);
    }
  }

  class Search {
    const g: Graph
    var visited: set<Alias>
    var used: set<string>
    var path: seq<QGEdge>

    constructor (g: Graph)
      ensures this.g == g && visited == {} && used == {} && path == []
    {
      this.g := g;
      visited, used, path := {}, {}, [];
    }

    /** Looks for a trail of `level - current` edges from `n`. The edges of the trail
        found are appended to the path; without one, nothing changes. */
    method Dfs(n: Alias, level: int, closeCycle: bool, current: nat) returns (found: bool, ghost t: Trail)
      requires g.Valid() && n in g.nodes
      modifies this
      ensures found == HasTrail(g, n, Left(level, current), closeCycle, old(visited), old(used))
      ensures found ==>
        && IsTrail(g, t, n, Left(level, current), closeCycle, old(visited), old(used))
        && path == old(path) + t.edges
      ensures !found ==> visited == old(visited) && used == old(used) && path == old(path)
      decreases level - current, 2
    {
      hide IsTrail, HasTrailVia, NoneVia;
      t := Trail([n], []);
      if current >= level {
        EmptyTrail(g, n, closeCycle, visited, used);
        return true, t;
      }
      if n in visited {
        NoTrailFromVisited(g, n, level - current, closeCycle, visited, used);
        return false, t;
      }
      visited := visited + {n};
      found, t := TryEdges(n, true, level, closeCycle, current, old(visited));
      if found { return; }
      found, t := TryEdges(n, false, level, closeCycle, current, old(visited));
      if found { return; }
      visited := visited - {n};
      NoTrailLeft(g, n, level - current - 1, closeCycle, visited, used);
    }

    /** Tries the edges of one list in turn. */
    method TryEdges(n: Alias, outgoing: bool, level: int, closeCycle: bool, current: nat, ghost before: set<Alias>)
        returns (found: bool, ghost t: Trail)
      requires g.Valid() && n in g.nodes && current < level
      requires n !in before && visited == before + {n}
      modifies this
      ensures found ==>
        && IsTrail(g, t, n, level - current, closeCycle, before, old(used))
        && HasTrail(g, n, level - current, closeCycle, before, old(used))
        && path == old(path) + t.edges
      ensures !found ==>
        && visited == old(visited) && used == old(used) && path == old(path)
        && NoneVia(g, n, outgoing, |EdgesOf(g, n, outgoing)|, level - current - 1, closeCycle, before, used)
      decreases level - current, 1
    {
      hide IsTrail, HasTrail, Joins, NoneVia, HasTrailVia;
      NoneViaNothing(g, n, outgoing, level - current - 1, closeCycle, before, used);
      var edges := EdgesOf(g, n, outgoing);
      var i := 0;
      found, t := false, Trail([n], []);
      while i < |edges|
        invariant 0 <= i <= |edges|
        invariant visited == old(visited) && used == old(used) && path == old(path)
        invariant NoneVia(g, n, outgoing, i, level - current - 1, closeCycle, before, used)
      {
        var e := edges[i];
        var m := Other(e, outgoing);
        ListedEdgeJoins(g, n, outgoing, i);
        var notSeen := m !in visited;
        if (notSeen || closeCycle) && e.alias !in used {
          found, t := TryEdge(n, e, m, level, closeCycle, current, before);
          if found { return; }
        }
        NoneViaEdge(g, n, outgoing, i, level - current - 1, closeCycle, before, used);
        i := i + 1;
      }
    }

    /** Goes on over one edge, which is given back when it leads nowhere. */
    method TryEdge(n: Alias, e: QGEdge, m: Alias, level: int, closeCycle: bool, current: nat, ghost before: set<Alias>)
        returns (found: bool, ghost t: Trail)
      requires g.Valid() && m in g.nodes && current < level && visited == before + {n}
      requires CanStep(g, n, e, m, closeCycle, before, used)
      modifies this
      ensures found ==>
        && IsTrail(g, t, n, level - current, closeCycle, before, old(used))
        && HasTrail(g, n, level - current, closeCycle, before, old(used))
        && path == old(path) + t.edges
      ensures !found ==>
        && visited == old(visited) && used == old(used) && path == old(path)
        && !HasTrail(g, m, level - current - 1, closeCycle, before + {n}, used + {e.alias})
      decreases level - current, 0
    {
      hide IsTrail, HasTrail, Joins;
      used := used + {e.alias};
      path := path + [e];
      found, t := Dfs(m, level, closeCycle, current + 1);
      if found {
        Extended(g, n, e, m, level - current - 1, closeCycle, before, old(used), t);
        assert old(path) + [e] + t.edges == old(path) + ([e] + t.edges);
        t := Trail([n] + t.nodes, [e] + t.edges);
      } else {
        path := path[..|path| - 1];
        used := used - {e.alias};
      }
    }
  }

  /** Returns the edges of a trail of `level` edges from `s`, or no edges if there is none. */
  method DFS(g: Graph, s: Alias, level: int, closeCycle: bool) returns (path: seq<QGEdge>)
    requires g.Valid() && s in g.nodes
    ensures HasTrail(g, s, Left(level, 0), closeCycle, {}, {}) ==>
      exists t :: IsTrail(g, t, s, Left(level, 0), closeCycle, {}, {}) && path == t.edges
    ensures !HasTrail(g, s, Left(level, 0), closeCycle, {}, {}) ==> path == []
  {
    var search := new Search(g);
    var found, t := search.Dfs(s, level, closeCycle, 0);
    path := search.path;
    assert found ==> path == t.edges;
  }

  // ---------------------------------------------------------------------------
  // The longest trail
  // ---------------------------------------------------------------------------

  /** `max` is the larger of `least` and of `level` plus the longest trail from `n`. */
  ghost predicate IsMaximum(g: Graph, n: Alias, level: nat, least: nat, max: nat,
                            visited: set<Alias>, used: set<string>) {
    && max >= least
    && (forall k: nat :: HasTrail(g, n, k, true, visited, used) ==> level + k <= max)
    && (max == least || (max >= level && HasTrail(g, n, max - level, true, visited, used)))
  }

  /** The same for trails that start over the first `k` edges of a list. */
  ghost predicate IsMaximumVia(g: Graph, n: Alias, outgoing: bool, k: nat, level: nat, least: nat, max: nat,
                               visited: set<Alias>, used: set<string>)
    requires n in g.outgoing && n in g.incoming && k <= |EdgesOf(g, n, outgoing)|
  {
    && max >= least
    && (forall i, j: nat :: 0 <= i < k && HasTrailVia(g, n, outgoing, i, j, true, visited, used) ==>
          level + 1 + j <= max)
    && (max == least || (max > level && HasTrail(g, n, max - level, true, visited, used)))
  }

  /** Both lists together give the maximum at `n`. */
  lemma MaximumOfLists(g: Graph, n: Alias, level: nat, least: nat, mid: nat, max: nat,
                       visited: set<Alias>, used: set<string>)
    requires g.Valid() && n in g.nodes && least >= level
    requires IsMaximumVia(g, n, true, |g.outgoing[n]|, level, least, mid, visited, used)
    requires IsMaximumVia(g, n, false, |g.incoming[n]|, level, mid, max, visited, used)
    ensures IsMaximum(g, n, level, least, max, visited, used)
  {
    hide HasTrail, HasTrailVia;
    forall k: nat | HasTrail(g, n, k, true, visited, used)
      ensures level + k <= max
    {
      if k > 0 {
        var outgoing, i := FirstEdge(g, n, k - 1, true, visited, used);
      }
    }
  }

  /** One more edge of a list: what lies behind it was measured from `level + 1`. */
  lemma MaximumOfEdge(g: Graph, n: Alias, outgoing: bool, i: nat, level: nat, least: nat, mid: nat, max: nat,
                      visited: set<Alias>, used: set<string>)
    requires g.Valid() && n in g.nodes && i < |EdgesOf(g, n, outgoing)| && n !in visited
    requires IsMaximumVia(g, n, outgoing, i, level, least, mid, visited, used)
    requires var e := EdgesOf(g, n, outgoing)[i];
      if e.alias in used then max == mid
      else IsMaximum(g, Other(e, outgoing), level + 1, mid, max, visited + {n}, used + {e.alias})
    ensures IsMaximumVia(g, n, outgoing, i + 1, level, least, max, visited, used)
  {
    hide HasTrail, Joins;
    var e := EdgesOf(g, n, outgoing)[i];
    if max > mid {
      ListedEdgeJoins(g, n, outgoing, i);
      ExtendedSome(g, n, e, Other(e, outgoing), max - (level + 1), true, visited, used);
    }
    forall k, j: nat | 0 <= k < i + 1 && HasTrailVia(g, n, outgoing, k, j, true, visited, used)
      ensures level + 1 + j <= max
    {
      if k == i { assert HasTrail(g, Other(e, outgoing), j, true, visited + {n}, used + {e.alias}); }
      hide HasTrailVia;
    }
    hide HasTrailVia, EdgesOf;
  }

  class Depth {
    const g: Graph
    var visited: set<Alias>
    var used: set<string>
    var maxDepth: nat

    constructor (g: Graph)
      ensures this.g == g && visited == {} && used == {} && maxDepth == 0
    {
      this.g := g;
      visited, used, maxDepth := {}, {}, 0;
    }

    /** Raises the maximum to the deepest level reached from `n`. */
    method Visit(n: Alias, level: nat)
      requires g.Valid() && n in g.nodes
      modifies this
      ensures visited == old(visited) && used == old(used)
      ensures IsMaximum(g, n, level, old(maxDepth), maxDepth, visited, used)
      decreases (set x | x in g.nodes) - visited, 1
    {
      hide IsTrail, HasTrail, IsMaximumVia;
      EmptyTrail(g, n, true, visited, used);
      if level > maxDepth { maxDepth := level; }
      ghost var least := maxDepth;
      if n in visited {
        forall k: nat | k > 0
          ensures !HasTrail(g, n, k, true, visited, used)
        {
          NoTrailFromVisited(g, n, k, true, visited, used);
        }
        return;
      }
      visited := visited + {n};
      VisitEdges(n, true, level, old(visited));
      ghost var mid := maxDepth;
      VisitEdges(n, false, level, old(visited));
      visited := visited - {n};
      MaximumOfLists(g, n, level, least, mid, maxDepth, visited, used);
    }

    method VisitEdges(n: Alias, outgoing: bool, level: nat, ghost before: set<Alias>)
      requires g.Valid() && n in g.nodes
      requires n !in before && visited == before + {n}
      modifies this
      ensures visited == old(visited) && used == old(used)
      ensures IsMaximumVia(g, n, outgoing, |EdgesOf(g, n, outgoing)|, level, old(maxDepth), maxDepth, before, used)
      decreases (set x | x in g.nodes) - visited, 2
    {
      hide IsTrail, HasTrail, IsMaximum, Joins;
      var edges := EdgesOf(g, n, outgoing);
      var i := 0;
      while i < |edges|
        invariant 0 <= i <= |edges|
        invariant visited == old(visited) && used == old(used)
        invariant IsMaximumVia(g, n, outgoing, i, level, old(maxDepth), maxDepth, before, used)
      {
        var e := edges[i];
        ghost var mid := maxDepth;
        ListedEdgeJoins(g, n, outgoing, i);
        if e.alias !in used {
          used := used + {e.alias};
          Visit(Other(e, outgoing), level + 1);
          used := used - {e.alias};
        }
        MaximumOfEdge(g, n, outgoing, i, level, old(maxDepth), mid, maxDepth, before, used);
        i := i + 1;
      }
    }
  }

  /** The length of the longest trail from `n`. */
  method DFSMaxDepth(g: Graph, n: Alias) returns (max: nat)
    requires g.Valid() && n in g.nodes
    ensures forall k: nat :: HasTrail(g, n, k, true, {}, {}) <==> k <= max
  {
    var depth := new Depth(g);
    depth.Visit(n, 0);
    max := depth.maxDepth;
    EmptyTrail(g, n, true, {}, {});
    forall k: nat | k <= max
      ensures HasTrail(g, n, k, true, {}, {})
    {
      var t :| IsTrail(g, t, n, max, true, {}, {});
      TrailPrefix(g, t, n, max, {}, {}, k);
    }
  }
}
