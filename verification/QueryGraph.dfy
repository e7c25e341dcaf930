/** The query graph: named nodes joined by named, directed edges, each edge kept
    in the outgoing list of its source and the incoming list of its destination. */
module QueryGraph {

  type Alias = string

  datatype QGEdge = QGEdge(alias: string, src: Alias, dest: Alias)

  datatype Graph = Graph(nodes: seq<Alias>, outgoing: map<Alias, seq<QGEdge>>, incoming: map<Alias, seq<QGEdge>>) {

    ghost predicate Valid() {
      && (forall n :: n in nodes <==> n in outgoing)
      && (forall n :: n in nodes <==> n in incoming)
      && (forall n, e :: n in nodes && e in outgoing[n] ==> e.src == n && e.dest in nodes && e in incoming[e.dest])
      && (forall n, e :: n in nodes && e in incoming[n] ==> e.dest == n && e.src in nodes && e in outgoing[e.src])
      && (forall n, m, e, f :: n in nodes && m in nodes && e in outgoing[n] && f in outgoing[m] && e.alias == f.alias
            ==> e == f)
    }
  }

  /** The edges listed at a node, and the node each leads to. */
  function EdgesOf(g: Graph, n: Alias, outgoing: bool): seq<QGEdge>
    requires n in g.outgoing && n in g.incoming
  {
    if outgoing then g.outgoing[n] else g.incoming[n]
  }

  function Other(e: QGEdge, outgoing: bool): Alias {
    if outgoing then e.dest else e.src
  }

  /** Edge `e` can be followed from `u` to `v`, along or against its direction. */
  ghost predicate Joins(g: Graph, e: QGEdge, u: Alias, v: Alias) {
    && u in g.outgoing && u in g.incoming
    && exists outgoing :: e in EdgesOf(g, u, outgoing) && v == Other(e, outgoing)
  }

  lemma JoinsEitherWay(g: Graph, e: QGEdge, u: Alias, v: Alias)
    requires g.Valid() && Joins(g, e, u, v)
    ensures Joins(g, e, v, u) && u in g.nodes && v in g.nodes
    ensures (e.src == u && e.dest == v) || (e.src == v && e.dest == u)
    ensures e.src in g.nodes && e in g.outgoing[e.src]
  {
    var outgoing :| e in EdgesOf(g, u, outgoing) && v == Other(e, outgoing);
    assert u in g.nodes;
    assert e in EdgesOf(g, v, !outgoing) && u == Other(e, !outgoing);
  }

  /** A walk through the graph: edge `i` joins nodes `i` and `i + 1`. */
  datatype Trail = Trail(nodes: seq<Alias>, edges: seq<QGEdge>)

  /** `t` is a trail of `n` edges from `from`: no edge is used twice or is in `used`,
      no node but the last is passed twice or is in `visited`. Only when cycles may
      be closed can the last node repeat one of those. */
  ghost predicate IsTrail(g: Graph, t: Trail, from: Alias, n: nat, closeCycle: bool,
                          visited: set<Alias>, used: set<string>) {
    && |t.nodes| == n + 1 && |t.edges| == n
    && t.nodes[0] == from
    && (forall i :: 0 <= i < n ==> Joins(g, t.edges[i], t.nodes[i], t.nodes[i + 1]))
    && (forall i, j :: 0 <= i < j < n ==> t.edges[i].alias != t.edges[j].alias)
    && (forall i :: 0 <= i < n ==> t.edges[i].alias !in used)
    && (forall i, j :: 0 <= i < j < n ==> t.nodes[i] != t.nodes[j])
    && (forall i :: 0 <= i < n ==> t.nodes[i] !in visited)
    && (n > 0 && !closeCycle ==> t.nodes[n] !in t.nodes[..n] && t.nodes[n] !in visited)
  }

  ghost predicate HasTrail(g: Graph, from: Alias, n: nat, closeCycle: bool, visited: set<Alias>, used: set<string>) {
    exists t :: IsTrail(g, t, from, n, closeCycle, visited, used)
  }

  /** The trail without its first edge. */
  function Rest(t: Trail): Trail
    requires t.nodes != [] && t.edges != []
  {
    Trail(t.nodes[1..], t.edges[1..])
  }

  /** What a first step over `e` to `m` needs. */
  ghost predicate CanStep(g: Graph, from: Alias, e: QGEdge, m: Alias, closeCycle: bool,
                          visited: set<Alias>, used: set<string>) {
    && from !in visited
    && Joins(g, e, from, m)
    && e.alias !in used
    && (closeCycle || m !in visited + {from})
  }

  /** A trail is a first step followed by a trail that avoids what was used. */
  lemma TrailStep(g: Graph, t: Trail, from: Alias, n: nat, closeCycle: bool, visited: set<Alias>, used: set<string>)
    requires n > 0 && |t.nodes| == n + 1 && |t.edges| == n
    ensures IsTrail(g, t, from, n, closeCycle, visited, used) <==>
      && t.nodes[0] == from
      && CanStep(g, from, t.edges[0], t.nodes[1], closeCycle, visited, used)
      && IsTrail(g, Rest(t), t.nodes[1], n - 1, closeCycle, visited + {from}, used + {t.edges[0].alias})
  {
    var r := Rest(t);
    if IsTrail(g, t, from, n, closeCycle, visited, used) {
      TrailStepDown(g, t, from, n, closeCycle, visited, used);
    }
    if t.nodes[0] == from && CanStep(g, from, t.edges[0], t.nodes[1], closeCycle, visited, used)
       && IsTrail(g, r, t.nodes[1], n - 1, closeCycle, visited + {from}, used + {t.edges[0].alias}) {
      TrailStepUp(g, t, from, n, closeCycle, visited, used);
    }
  }

  lemma TrailStepDown(g: Graph, t: Trail, from: Alias, n: nat, closeCycle: bool, visited: set<Alias>, used: set<string>)
    requires n > 0 && IsTrail(g, t, from, n, closeCycle, visited, used)
    ensures CanStep(g, from, t.edges[0], t.nodes[1], closeCycle, visited, used)
    ensures IsTrail(g, Rest(t), t.nodes[1], n - 1, closeCycle, visited + {from}, used + {t.edges[0].alias})
  {
    var r := Rest(t);
    assert Joins(g, t.edges[0], t.nodes[0], t.nodes[0 + 1]);
    forall i | 0 <= i < n - 1
      ensures Joins(g, r.edges[i], r.nodes[i], r.nodes[i + 1])
    {
      assert Joins(g, t.edges[i + 1], t.nodes[i + 1], t.nodes[i + 1 + 1]);
    }
    if !closeCycle {
      assert t.nodes[0] in t.nodes[..n];
      assert forall x :: x in r.nodes[..n - 1] ==> x in t.nodes[..n];
    }
  }

  lemma TrailStepUp(g: Graph, t: Trail, from: Alias, n: nat, closeCycle: bool, visited: set<Alias>, used: set<string>)
    requires n > 0 && |t.nodes| == n + 1 && |t.edges| == n && t.nodes[0] == from
    requires CanStep(g, from, t.edges[0], t.nodes[1], closeCycle, visited, used)
    requires IsTrail(g, Rest(t), t.nodes[1], n - 1, closeCycle, visited + {from}, used + {t.edges[0].alias})
    ensures IsTrail(g, t, from, n, closeCycle, visited, used)
  {
    var r := Rest(t);
    forall i | 0 <= i < n
      ensures Joins(g, t.edges[i], t.nodes[i], t.nodes[i + 1])
      ensures t.edges[i].alias !in used && t.nodes[i] !in visited
      ensures i > 0 ==> t.edges[i].alias != t.edges[0].alias && t.nodes[i] != from
    {
      if i > 0 {
        assert Joins(g, r.edges[i - 1], r.nodes[i - 1], r.nodes[i - 1 + 1]);
        assert r.edges[i - 1].alias !in used + {t.edges[0].alias} && r.nodes[i - 1] !in visited + {from};
      }
    }
    forall i, j | 0 <= i < j < n
      ensures t.edges[i].alias != t.edges[j].alias && t.nodes[i] != t.nodes[j]
    {
      if i > 0 {
        assert r.edges[i - 1].alias != r.edges[j - 1].alias && r.nodes[i - 1] != r.nodes[j - 1];
      }
    }
    if !closeCycle {
      assert t.nodes[..n] == [from] + r.nodes[..n - 1];
    }
  }

  /** A prefix of a trail is a trail. */
  lemma TrailPrefix(g: Graph, t: Trail, from: Alias, n: nat, visited: set<Alias>, used: set<string>, k: nat)
    requires IsTrail(g, t, from, n, true, visited, used) && k <= n
    ensures HasTrail(g, from, k, true, visited, used)
  {
    var p := Trail(t.nodes[..k + 1], t.edges[..k]);
    forall i | 0 <= i < k
      ensures Joins(g, p.edges[i], p.nodes[i], p.nodes[i + 1])
    {
      assert Joins(g, t.edges[i], t.nodes[i], t.nodes[i + 1]);
    }
    assert IsTrail(g, p, from, k, true, visited, used);
  }

  lemma {:induction false} SubsetSize<T>(a: set<T>, b: set<T>)
    requires a <= b
    ensures |a| <= |b|
  {
    if a != {} {
      var x :| x in a;
      SubsetSize(a - {x}, b - {x});
    }
  }
}
