/** Distances in finite trees.

    A tree is a connected undirected graph without simple cycles. The proofs take
    leaves off one at a time; they lead to the four point condition, and from it
    to the fact that a node farthest from any node ends a longest path. */
module TreeDistance {

  type Node = string

  /** An undirected graph without self loops. */
  datatype Net = Net(nodes: set<Node>, links: set<(Node, Node)>) {
    ghost predicate Valid() {
      && (forall a, b :: (a, b) in links ==> a in nodes && b in nodes && a != b)
      && (forall a, b :: (a, b) in links ==> (b, a) in links)
    }
  }

  // ---------------------------------------------------------------------------
  // Walks and distances
  // ---------------------------------------------------------------------------

  /** A walk of `k` links leads from `a` to `b`. */
  ghost predicate Walk(t: Net, a: Node, k: nat, b: Node)
    decreases k
  {
    if k == 0 then a == b else exists c :: (a, c) in t.links && Walk(t, c, k - 1, b)
  }

  ghost predicate Linked(t: Net, a: Node, b: Node) {
    exists k: nat :: Walk(t, a, k, b)
  }

  ghost predicate Connected(t: Net) {
    forall a, b {:trigger Linked(t, a, b)} :: a in t.nodes && b in t.nodes ==> Linked(t, a, b)
  }

  /** The nodes of `p` are distinct and each is linked to the next. */
  ghost predicate SimplePath(t: Net, p: seq<Node>) {
    && (forall i :: 0 <= i < |p| - 1 ==> (p[i], p[i + 1]) in t.links)
    && (forall i, j :: 0 <= i < j < |p| ==> p[i] != p[j])
  }

  ghost predicate Acyclic(t: Net) {
    forall p :: SimplePath(t, p) && |p| >= 3 ==> (p[|p| - 1], p[0]) !in t.links
  }

  ghost predicate IsTree(t: Net) {
    t.Valid() && Connected(t) && Acyclic(t)
  }

  ghost predicate IsDistance(t: Net, a: Node, b: Node, d: nat) {
    Walk(t, a, d, b) && forall j: nat :: j < d ==> !Walk(t, a, j, b)
  }

  lemma {:induction false} LeastWalk(t: Net, a: Node, k: nat, b: Node)
    requires Walk(t, a, k, b)
    ensures exists d: nat :: d <= k && IsDistance(t, a, b, d)
    decreases k
  {
    if j: nat :| j < k && Walk(t, a, j, b) {
      LeastWalk(t, a, j, b);
    } else {
      assert IsDistance(t, a, b, k);
    }
  }

  /** The number of links between two nodes. */
  ghost function Distance(t: Net, a: Node, b: Node): (d: nat)
    requires Connected(t) && a in t.nodes && b in t.nodes
    ensures IsDistance(t, a, b, d)
  {
    assert Linked(t, a, b);
    var k: nat :| Walk(t, a, k, b);
    LeastWalk(t, a, k, b);
    var d: nat :| IsDistance(t, a, b, d);
    d
  }

  lemma DistanceLeast(t: Net, a: Node, b: Node, k: nat)
    requires Connected(t) && a in t.nodes && b in t.nodes && Walk(t, a, k, b)
    ensures Distance(t, a, b) <= k
  {
  }

  lemma {:induction false} WalkJoined(t: Net, a: Node, k: nat, b: Node, m: nat, c: Node)
    requires Walk(t, a, k, b) && Walk(t, b, m, c)
    ensures Walk(t, a, k + m, c)
    decreases k
  {
    if k > 0 {
      var x :| (a, x) in t.links && Walk(t, x, k - 1, b);
      WalkJoined(t, x, k - 1, b, m, c);
      assert Walk(t, x, k + m - 1, c);
    }
  }

  lemma {:induction false} WalkReversed(t: Net, a: Node, k: nat, b: Node)
    requires t.Valid() && Walk(t, a, k, b)
    ensures Walk(t, b, k, a)
    decreases k
  {
    if k > 0 {
      var x :| (a, x) in t.links && Walk(t, x, k - 1, b);
      WalkReversed(t, x, k - 1, b);
      assert (x, a) in t.links && Walk(t, a, 0, a);
      assert Walk(t, x, 1, a);
      WalkJoined(t, b, k - 1, x, 1, a);
    }
  }

  lemma DistanceSymmetric(t: Net, a: Node, b: Node)
    requires t.Valid() && Connected(t) && a in t.nodes && b in t.nodes
    ensures Distance(t, a, b) == Distance(t, b, a)
  {
    WalkReversed(t, a, Distance(t, a, b), b);
    WalkReversed(t, b, Distance(t, b, a), a);
    DistanceLeast(t, a, b, Distance(t, b, a));
    DistanceLeast(t, b, a, Distance(t, a, b));
  }

  lemma Triangle(t: Net, a: Node, b: Node, c: Node)
    requires t.Valid() && Connected(t) && a in t.nodes && b in t.nodes && c in t.nodes
    ensures Distance(t, a, c) <= Distance(t, a, b) + Distance(t, b, c)
  {
    WalkJoined(t, a, Distance(t, a, b), b, Distance(t, b, c), c);
    DistanceLeast(t, a, c, Distance(t, a, b) + Distance(t, b, c));
  }

  // ---------------------------------------------------------------------------
  // Leaves
  // ---------------------------------------------------------------------------

  /** `leaf` is linked to `stem` only. */
  ghost predicate IsLeaf(t: Net, leaf: Node, stem: Node) {
    && (leaf, stem) in t.links
    && forall x :: (leaf, x) in t.links ==> x == stem
  }

  /** Walking on as long as possible ends at a leaf. */
  lemma {:induction false} FindLeaf(t: Net, p: seq<Node>) returns (leaf: Node, stem: Node)
    requires IsTree(t) && SimplePath(t, p) && |p| >= 2 && forall i :: 0 <= i < |p| ==> p[i] in t.nodes
    ensures IsLeaf(t, leaf, stem)
    decreases t.nodes - (set x | x in p)
  {
    var last := |p| - 1;
    if x :| (p[last], x) in t.links && x !in p {
      var p' := p + [x];
      forall i | 0 <= i < |p'| - 1
        ensures (p'[i], p'[i + 1]) in t.links
      {
        if i < last { assert (p[i], p[i + 1]) in t.links; }
      }
      assert (set y | y in p') == (set y | y in p) + {x};
      assert x in t.nodes - (set y | y in p);
      leaf, stem := FindLeaf(t, p');
    } else {
      leaf, stem := p[last], p[last - 1];
      assert (p[last - 1], p[last - 1 + 1]) in t.links;
      forall x | (leaf, x) in t.links
        ensures x == stem
      {
        var i :| 0 <= i < |p| && p[i] == x;
        NoShortcut(t, p, i);
      }
    }
  }

  /** The end of a simple path is linked to no earlier node but the one before it. */
  lemma NoShortcut(t: Net, p: seq<Node>, i: nat)
    requires IsTree(t) && SimplePath(t, p) && i < |p| && (p[|p| - 1], p[i]) in t.links
    ensures i == |p| - 2
  {
    if i < |p| - 2 {
      var c := p[i..];
      forall k | 0 <= k < |c| - 1
        ensures (c[k], c[k + 1]) in t.links
      {
        assert (p[i + k], p[i + k + 1]) in t.links;
      }
      assert SimplePath(t, c);
    }
  }

  /** The tree without a leaf. */
  ghost function Pruned(t: Net, leaf: Node): Net {
    Net(t.nodes - {leaf}, set l | l in t.links && l.0 != leaf && l.1 != leaf)
  }

  lemma {:induction false} PrunedWalk(t: Net, leaf: Node, a: Node, k: nat, b: Node)
    requires Walk(Pruned(t, leaf), a, k, b)
    ensures Walk(t, a, k, b)
    decreases k
  {
    if k > 0 {
      var x :| (a, x) in Pruned(t, leaf).links && Walk(Pruned(t, leaf), x, k - 1, b);
      PrunedWalk(t, leaf, x, k - 1, b);
      assert (a, x) in t.links;
    }
  }

  /** A walk between other nodes can avoid the leaf without getting longer. */
  lemma {:induction false} AvoidLeaf(t: Net, leaf: Node, stem: Node, a: Node, k: nat, b: Node) returns (m: nat)
    requires t.Valid() && IsLeaf(t, leaf, stem) && a != leaf && b != leaf && Walk(t, a, k, b)
    ensures m <= k && Walk(Pruned(t, leaf), a, m, b)
    decreases k
  {
    if k == 0 {
      m := 0;
    } else {
      var x :| (a, x) in t.links && Walk(t, x, k - 1, b);
      if x != leaf {
        m := AvoidLeaf(t, leaf, stem, x, k - 1, b);
        m := m + 1;
        assert (a, x) in Pruned(t, leaf).links;
      } else {
        assert (leaf, a) in t.links;
        var y :| (x, y) in t.links && Walk(t, y, k - 2, b);
        m := AvoidLeaf(t, leaf, stem, a, k - 2, b);
      }
    }
  }

  lemma PrunedIsTree(t: Net, leaf: Node, stem: Node)
    requires IsTree(t) && IsLeaf(t, leaf, stem)
    ensures IsTree(Pruned(t, leaf))
    ensures Pruned(t, leaf).nodes < t.nodes && stem in Pruned(t, leaf).nodes
  {
    var s := Pruned(t, leaf);
    assert (leaf, stem) in t.links;
    forall a, b | a in s.nodes && b in s.nodes
      ensures exists k: nat :: Walk(s, a, k, b)
    {
      assert Linked(t, a, b);
      var k: nat :| Walk(t, a, k, b);
      var m := AvoidLeaf(t, leaf, stem, a, k, b);
    }
    forall p | SimplePath(s, p) && |p| >= 3
      ensures (p[|p| - 1], p[0]) !in s.links
    {
      assert SimplePath(t, p);
    }
  }

  /** Taking a leaf off changes no other distance; its own are one more than its
      stem's. */
  lemma PrunedDistance(t: Net, leaf: Node, stem: Node, a: Node, b: Node)
    requires IsTree(t) && IsLeaf(t, leaf, stem) && IsTree(Pruned(t, leaf)) && stem in Pruned(t, leaf).nodes
    requires a in t.nodes && b in t.nodes && b != leaf
    ensures Distance(t, a, b)
            == if a == leaf then 1 + Distance(Pruned(t, leaf), stem, b) else Distance(Pruned(t, leaf), a, b)
  {
    var s := Pruned(t, leaf);
    if a != leaf {
      var m := AvoidLeaf(t, leaf, stem, a, Distance(t, a, b), b);
      DistanceLeast(s, a, b, m);
      PrunedWalk(t, leaf, a, Distance(s, a, b), b);
      DistanceLeast(t, a, b, Distance(s, a, b));
    } else {
      var d := Distance(t, leaf, b);
      var x :| (leaf, x) in t.links && Walk(t, x, d - 1, b);
      var m := AvoidLeaf(t, leaf, stem, stem, d - 1, b);
      DistanceLeast(s, stem, b, m);
      PrunedWalk(t, leaf, stem, Distance(s, stem, b), b);
      assert Walk(t, leaf, 1 + Distance(s, stem, b), b);
      DistanceLeast(t, leaf, b, 1 + Distance(s, stem, b));
    }
  }

  /** A tree with two nodes has a leaf. */
  lemma LeafExists(t: Net, a: Node, b: Node) returns (leaf: Node, stem: Node)
    requires IsTree(t) && a in t.nodes && b in t.nodes && a != b
    ensures IsLeaf(t, leaf, stem)
  {
    assert Linked(t, a, b);
    var k: nat :| Walk(t, a, k, b);
    var x :| (a, x) in t.links && Walk(t, x, k - 1, b);
    leaf, stem := FindLeaf(t, [a, x]);
  }

  // ---------------------------------------------------------------------------
  // Facts about all trees
  // ---------------------------------------------------------------------------

  /** Linked nodes are never equally far from a node. */
  lemma {:induction false} Parity(t: Net, s: Node, a: Node, b: Node)
    requires IsTree(t) && s in t.nodes && (a, b) in t.links
    ensures Distance(t, s, a) != Distance(t, s, b)
    decreases t.nodes
  {
    var leaf, stem := LeafExists(t, a, b);
    PrunedIsTree(t, leaf, stem);
    var r := Pruned(t, leaf);
    DistanceSymmetric(t, s, a);
    DistanceSymmetric(t, s, b);
    if a == leaf || b == leaf {
      var c := if a == leaf then b else a;
      assert (leaf, c) in t.links;
      if s == leaf {
        DistanceLeast(t, s, s, 0);
        PrunedDistance(t, leaf, stem, s, stem);
      } else {
        PrunedDistance(t, leaf, stem, leaf, s);
        PrunedDistance(t, leaf, stem, stem, s);
      }
    } else {
      assert (a, b) in r.links;
      var s' := if s == leaf then stem else s;
      Parity(r, s', a, b);
      PrunedDistance(t, leaf, stem, s, a);
      PrunedDistance(t, leaf, stem, s, b);
    }
  }

  /** Of the three ways to pair four nodes, no pairing is longer than both others. */
  ghost predicate FourPoint(t: Net, x: Node, y: Node, u: Node, v: Node)
    requires Connected(t) && x in t.nodes && y in t.nodes && u in t.nodes && v in t.nodes
  {
    || Distance(t, x, y) + Distance(t, u, v) <= Distance(t, x, u) + Distance(t, y, v)
    || Distance(t, x, y) + Distance(t, u, v) <= Distance(t, x, v) + Distance(t, y, u)
  }

  lemma {:induction false} FourPointCondition(t: Net, x: Node, y: Node, u: Node, v: Node)
    requires IsTree(t) && x in t.nodes && y in t.nodes && u in t.nodes && v in t.nodes
    ensures FourPoint(t, x, y, u, v)
    decreases t.nodes
  {
    AllSymmetric(t, x, y, u, v);
    if x == y {
      Triangle(t, u, x, v);
      DistanceLeast(t, x, y, 0);
    } else if u == v {
      Triangle(t, x, u, y);
      DistanceLeast(t, u, v, 0);
    } else if x != u && x != v && y != u && y != v {
      var leaf, stem := LeafExists(t, x, y);
      PrunedIsTree(t, leaf, stem);
      FourDistinct(t, leaf, stem, x, y, u, v);
    }
  }

  lemma AllSymmetric(t: Net, x: Node, y: Node, u: Node, v: Node)
    requires t.Valid() && Connected(t) && x in t.nodes && y in t.nodes && u in t.nodes && v in t.nodes
    ensures Distance(t, x, y) == Distance(t, y, x) && Distance(t, u, v) == Distance(t, v, u)
    ensures Distance(t, x, u) == Distance(t, u, x) && Distance(t, y, v) == Distance(t, v, y)
    ensures Distance(t, x, v) == Distance(t, v, x) && Distance(t, y, u) == Distance(t, u, y)
  {
    DistanceSymmetric(t, x, y);
    DistanceSymmetric(t, u, v);
    DistanceSymmetric(t, x, u);
    DistanceSymmetric(t, y, v);
    DistanceSymmetric(t, x, v);
    DistanceSymmetric(t, y, u);
  }

  /** The distance of two different nodes, read in the tree without the leaf. */
  lemma Carried(t: Net, leaf: Node, stem: Node, a: Node, b: Node)
    requires IsTree(t) && IsLeaf(t, leaf, stem) && IsTree(Pruned(t, leaf)) && stem in Pruned(t, leaf).nodes
    requires a in t.nodes && b in t.nodes && a != b
    ensures var c, d := if a == leaf then stem else a, if b == leaf then stem else b;
      Distance(t, a, b)
      == Distance(Pruned(t, leaf), c, d) + (if a == leaf then 1 else 0) + (if b == leaf then 1 else 0)
  {
    if b != leaf {
      PrunedDistance(t, leaf, stem, a, b);
    } else {
      DistanceSymmetric(t, a, b);
      PrunedDistance(t, leaf, stem, b, a);
      DistanceSymmetric(Pruned(t, leaf), stem, a);
    }
  }

  lemma {:induction false} FourDistinct(t: Net, leaf: Node, stem: Node, x: Node, y: Node, u: Node, v: Node)
    requires IsTree(t) && IsLeaf(t, leaf, stem) && IsTree(Pruned(t, leaf)) && stem in Pruned(t, leaf).nodes
    requires Pruned(t, leaf).nodes < t.nodes
    requires x in t.nodes && y in t.nodes && u in t.nodes && v in t.nodes
    requires x != y && x != u && x != v && y != u && y != v && u != v
    ensures FourPoint(t, x, y, u, v)
    decreases t.nodes, 0
  {
    var s := Pruned(t, leaf);
    FourPointCondition(s, if x == leaf then stem else x, if y == leaf then stem else y,
                       if u == leaf then stem else u, if v == leaf then stem else v);
    Carried(t, leaf, stem, x, y);
    Carried(t, leaf, stem, u, v);
    Carried(t, leaf, stem, x, u);
    Carried(t, leaf, stem, y, v);
    Carried(t, leaf, stem, x, v);
    Carried(t, leaf, stem, y, u);
  }

  /** `a` is as far from `s` as any node. */
  ghost predicate Farthest(t: Net, s: Node, a: Node) {
    && Connected(t) && s in t.nodes && a in t.nodes
    && forall x :: x in t.nodes ==> Distance(t, s, x) <= Distance(t, s, a)
  }

  /** Going to a farthest node twice spans the tree: no two nodes are farther apart. */
  lemma DoubleSweep(t: Net, s: Node, a: Node, b: Node, x: Node, y: Node)
    requires IsTree(t) && Farthest(t, s, a) && Farthest(t, a, b) && x in t.nodes && y in t.nodes
    ensures Distance(t, x, y) <= Distance(t, a, b)
  {
    FourPointCondition(t, x, y, s, a);
    AllSymmetric(t, x, y, s, a);
  }
}
