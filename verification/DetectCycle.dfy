/** Cycle detection by boolean matrix products.

    A matrix is the set of its entries; rows and columns are named by the nodes. */
module DetectCycle {
  import opened QueryGraph

  type Matrix = set<(Alias, Alias)>

  /** Product over the any-pair semiring. */
  function Mxm(a: Matrix, b: Matrix): Matrix {
    set x, y | x in a && y in b && x.1 == y.0 :: (x.0, y.1)
  }

  function Diagonal(a: Matrix): Matrix {
    set x | x in a && x.0 == x.1
  }

  /** Each node of `p` has an entry to the next. */
  ghost predicate IsWalk(m: Matrix, p: seq<Alias>) {
    |p| >= 2 && forall i :: 0 <= i < |p| - 1 ==> (p[i], p[i + 1]) in m
  }

  ghost predicate IsClosedWalk(m: Matrix, p: seq<Alias>) {
    IsWalk(m, p) && p[0] == p[|p| - 1]
  }

  // ---------------------------------------------------------------------------
  // Powers are walks
  // ---------------------------------------------------------------------------

  /** `c` holds the end points of the walks of `k` entries. */
  ghost predicate IsPower(m: Matrix, k: nat, c: Matrix) {
    && (forall a, b :: (a, b) in c ==> exists p :: WalkBetween(m, p, k, a, b))
    && (forall p :: IsWalk(m, p) && |p| == k + 1 ==> (p[0], p[k]) in c)
  }

  ghost predicate WalkBetween(m: Matrix, p: seq<Alias>, k: nat, a: Alias, b: Alias) {
    IsWalk(m, p) && |p| == k + 1 && p[0] == a && p[k] == b
  }

  lemma FirstPower(m: Matrix)
    ensures IsPower(m, 1, m)
  {
    forall a, b | (a, b) in m
      ensures exists p :: WalkBetween(m, p, 1, a, b)
    {
      assert WalkBetween(m, [a, b], 1, a, b);
    }
    forall p | IsWalk(m, p) && |p| == 2
      ensures (p[0], p[1]) in m
    {
      assert (p[0], p[0 + 1]) in m;
    }
  }

  lemma NextPower(m: Matrix, k: nat, c: Matrix)
    requires k >= 1 && IsPower(m, k, c)
    ensures IsPower(m, k + 1, Mxm(c, m))
  {
    var k' := k + 1;
    forall a, b | (a, b) in Mxm(c, m)
      ensures exists p :: WalkBetween(m, p, k', a, b)
    {
      var x, y :| x in c && y in m && x.1 == y.0 && (x.0, y.1) == (a, b);
      assert (x.0, x.1) in c && (y.0, y.1) in m;
      var p :| WalkBetween(m, p, k, x.0, x.1);
      assert WalkBetween(m, p + [b], k', a, b);
    }
    forall p | IsWalk(m, p) && |p| == k + 2
      ensures (p[0], p[k + 1]) in Mxm(c, m)
    {
      var q := p[..k + 1];
      assert IsWalk(m, q) by {
        forall i | 0 <= i < k
          ensures (q[i], q[i + 1]) in m
        {
          assert (p[i], p[i + 1]) in m;
        }
      }
      assert (q[0], q[k]) in c && (p[k], p[k + 1]) in m;
    }
  }

  lemma ClosedWalkOnDiagonal(m: Matrix, k: nat, c: Matrix, p: seq<Alias>)
    requires IsPower(m, k, c) && IsClosedWalk(m, p) && |p| == k + 1
    ensures Diagonal(c) != {}
  {
    assert (p[0], p[k]) in Diagonal(c);
  }

  lemma DiagonalHasClosedWalk(m: Matrix, k: nat, c: Matrix)
    requires IsPower(m, k, c) && Diagonal(c) != {}
    ensures exists p :: IsClosedWalk(m, p)
  {
    var x :| x in Diagonal(c);
    assert (x.0, x.1) in c;
    var p :| WalkBetween(m, p, k, x.0, x.1);
    assert IsClosedWalk(m, p);
  }

  // ---------------------------------------------------------------------------
  // Short cycles
  // ---------------------------------------------------------------------------

  ghost predicate IsSimple(p: seq<Alias>) {
    forall i, j :: 0 <= i < j < |p| - 1 ==> p[i] != p[j]
  }

  /** Cutting out repetitions leaves a closed walk that repeats no node. */
  lemma {:induction false} SimpleCycle(m: Matrix, p: seq<Alias>) returns (q: seq<Alias>)
    requires IsClosedWalk(m, p)
    ensures IsClosedWalk(m, q) && IsSimple(q)
    decreases |p|
  {
    if i, j :| 0 <= i < j < |p| - 1 && p[i] == p[j] {
      var c := p[i..j + 1];
      forall k | 0 <= k < |c| - 1
        ensures (c[k], c[k + 1]) in m
      {
        assert (p[i + k], p[i + k + 1]) in m;
      }
      q := SimpleCycle(m, c);
    } else {
      q := p;
    }
  }

  /** The entries used by the first `k` steps. */
  ghost function Steps(p: seq<Alias>, k: nat): Matrix
    requires k < |p|
  {
    if k == 0 then {} else Steps(p, k - 1) + {(p[k - 1], p[k])}
  }

  /** A walk that repeats no node uses as many different entries as it has steps. */
  lemma {:induction false} StepsAreEntries(m: Matrix, p: seq<Alias>, k: nat)
    requires IsWalk(m, p) && IsSimple(p) && k < |p|
    ensures Steps(p, k) <= m && |Steps(p, k)| == k
    ensures forall x :: x in Steps(p, k) ==> exists i :: 0 <= i < k && x.0 == p[i]
  {
    if k > 0 {
      StepsAreEntries(m, p, k - 1);
      assert (p[k - 1], p[k - 1 + 1]) in m;
    }
  }

  /** If there is a closed walk, there is one of two up to one more than `bound` steps. */
  lemma ShortCycle(m: Matrix, p: seq<Alias>, bound: nat) returns (q: seq<Alias>)
    requires IsClosedWalk(m, p) && |m| <= bound
    ensures IsClosedWalk(m, q) && 2 <= |q| - 1 <= bound + 1
  {
    q := SimpleCycle(m, p);
    StepsAreEntries(m, q, |q| - 1);
    SubsetSize(Steps(q, |q| - 1), m);
    if |q| == 2 {
      q := [q[0], q[0], q[0]];
    }
  }

  // ---------------------------------------------------------------------------
  // The detection
  // ---------------------------------------------------------------------------

  /** Multiplies up to `edgeCount` times and looks at each diagonal. */
  method IsAcyclicMatrix(m: Matrix, edgeCount: nat) returns (acyclic: bool)
    requires |m| <= edgeCount
    ensures acyclic <==> forall p :: !IsClosedWalk(m, p)
  {
    hide IsPower;
    var c := m;
    FirstPower(m);
    var i := 0;
    while i < edgeCount
      invariant 0 <= i <= edgeCount
      invariant IsPower(m, i + 1, c)
      invariant forall p :: IsClosedWalk(m, p) ==> |p| == 2 || |p| > i + 2
    {
      NextPower(m, i + 1, c);
      c := Mxm(c, m);
      var t := Diagonal(c);
      if t != {} {
        DiagonalHasClosedWalk(m, i + 2, c);
        return false;
      }
      forall p | IsClosedWalk(m, p)
        ensures |p| != i + 3
      {
        if |p| == i + 3 { ClosedWalkOnDiagonal(m, i + 2, c, p); }
      }
      i := i + 1;
    }
    forall p | IsClosedWalk(m, p)
      ensures false
    {
      var q := ShortCycle(m, p, edgeCount);
    }
    return true;
  }

  /** Number of edges leaving the first `k` nodes. */
  function EdgesFrom(g: Graph, k: nat): nat
    requires k <= |g.nodes| && forall n :: n in g.nodes ==> n in g.outgoing
  {
    if k == 0 then 0 else EdgesFrom(g, k - 1) + |g.outgoing[g.nodes[k - 1]]|
  }

  ghost predicate LeadsTo(edges: seq<QGEdge>, b: Alias) {
    exists i :: 0 <= i < |edges| && edges[i].dest == b
  }

  /** Sets the entries of one row. */
  method AddRow(m: Matrix, n: Alias, edges: seq<QGEdge>) returns (r: Matrix)
    ensures forall a, b :: (a, b) in r <==> (a, b) in m || (a == n && LeadsTo(edges, b))
    ensures |r| <= |m| + |edges|
  {
    r := m;
    var j := 0;
    while j < |edges|
      invariant 0 <= j <= |edges|
      invariant forall a, b :: (a, b) in r <==> (a, b) in m || (a == n && LeadsTo(edges[..j], b))
      invariant |r| <= |m| + j
    {
      forall b
        ensures LeadsTo(edges[..j + 1], b) <==> LeadsTo(edges[..j], b) || b == edges[j].dest
      {
        assert edges[..j + 1] == edges[..j] + [edges[j]];
        if b == edges[j].dest { assert edges[..j + 1][j].dest == b; }
        if LeadsTo(edges[..j], b) {
          var i :| 0 <= i < j && edges[..j][i].dest == b;
          assert edges[..j + 1][i].dest == b;
        }
      }
      r := r + {(n, edges[j].dest)};
      j := j + 1;
    }
    assert edges[..j] == edges;
  }

  /** Sets one entry for each edge. */
  method MatrixRepresentation(g: Graph) returns (m: Matrix)
    requires g.Valid()
    ensures forall a, b :: (a, b) in m <==> a in g.nodes && LeadsTo(g.outgoing[a], b)
    ensures |m| <= EdgesFrom(g, |g.nodes|)
  {
    hide LeadsTo;
    m := {};
    var i := 0;
    while i < |g.nodes|
      invariant 0 <= i <= |g.nodes|
      invariant forall a, b :: (a, b) in m <==> a in g.nodes[..i] && LeadsTo(g.outgoing[a], b)
      invariant |m| <= EdgesFrom(g, i)
    {
      m := AddRow(m, g.nodes[i], g.outgoing[g.nodes[i]]);
      assert g.nodes[..i + 1] == g.nodes[..i] + [g.nodes[i]];
      i := i + 1;
    }
    assert g.nodes[..i] == g.nodes;
  }

  /** Each node has an edge to the next. */
  ghost predicate FollowsEdges(g: Graph, p: seq<Alias>)
    requires g.Valid()
  {
    && |p| >= 2
    && forall i :: 0 <= i < |p| - 1 ==> p[i] in g.nodes && LeadsTo(g.outgoing[p[i]], p[i + 1])
  }

  /** The query graph has no directed closed walk, self loops included. */
  method IsAcyclicGraph(g: Graph) returns (acyclic: bool)
    requires g.Valid()
    ensures acyclic <==> forall p :: FollowsEdges(g, p) ==> p[0] != p[|p| - 1]
  {
    hide LeadsTo;
    var m := MatrixRepresentation(g);
    acyclic := IsAcyclicMatrix(m, EdgesFrom(g, |g.nodes|));
    forall p
      ensures IsWalk(m, p) <==> FollowsEdges(g, p)
    {
      if IsWalk(m, p) {
        forall i | 0 <= i < |p| - 1
          ensures p[i] in g.nodes && LeadsTo(g.outgoing[p[i]], p[i + 1])
        {
          assert (p[i], p[i + 1]) in m;
        }
      }
    }
    assert acyclic ==> forall p :: FollowsEdges(g, p) ==> IsWalk(m, p) && !IsClosedWalk(m, p);
  }
}
