/** Creating a path context in either mode, and the meaning of calling it until
    it has no more paths. */
module PathEnumeration {
  import opened Options
  import opened PropertyGraph
  import opened AllPathsContext
  import AllPaths
  import ShortestDistance
  import AllShortestPaths

  /** Largest value of the 32 bit lengths. */
  const UINT_MAX: nat := 0xFFFF_FFFF

  /** What a context was created for. `Nothing` is a shortest path request that
      cannot succeed. */
  datatype Mode =
    | General(q: AllPaths.Query, src: NodeID)
    | Shortest(s: ShortestDistance.Target, w: AllShortestPaths.Walk)
    | Nothing

  ghost predicate Ready(ctx: AllPathsCtx, m: Mode)
    reads ctx
  {
    match m
    case General(q, _) => ctx.maxLen > 0 && AllPaths.Ready(ctx, q)
    case Shortest(s, w) => AllShortestPaths.Ready(ctx, w, s.dest)
    case Nothing => ctx.maxLen == 0
  }

  ghost function Remaining(ctx: AllPathsCtx, m: Mode): (r: seq<Path>)
    requires Ready(ctx, m)
    reads ctx
  {
    match m
    case General(q, _) => AllPaths.Remaining(ctx, q)
    case Shortest(s, w) => AllShortestPaths.Remaining(ctx, w, s.dest)
    case Nothing => []
  }

  /** The paths a context was created to return. */
  ghost function Promised(m: Mode): (r: seq<Path>)
    requires m.General? ==> m.q.t.g.Valid() && m.src in m.q.t.g.nodes
    requires m.Shortest? ==> m.w.len >= 2
  {
    match m
    case General(q, src) => AllPaths.Results(q, src)
    case Shortest(s, w) => AllShortestPaths.Results(w, s.dest)
    case Nothing => []
  }

  /** The mode of a shortest path request, as the distance search leaves it. */
  ghost predicate ModeFor(s: ShortestDistance.Target, m: Mode) {
    if m.Nothing? then forall k :: 1 <= k < s.maxLen ==> !ShortestDistance.Hits(s, k)
    else
      && m.Shortest? && m.s == s && 2 <= m.w.len <= s.maxLen
      && ShortestDistance.IsMinimum(s, m.w.len - 1)
      && m.w == AllShortestPaths.Walk(s.t, AllShortestPaths.Reversed(s.dir), s.src, m.w.len,
                                      ShortestDistance.Within(s.t, s.dir, s.src, m.w.len - 1))
  }

  method New(src: NodeID, dst: Option<NodeID>, t: Traversal, dir: Direction, minLen: nat, maxLen: nat)
      returns (ctx: AllPathsCtx, ghost m: Mode)
    requires t.g.Valid() && src in t.g.nodes
    requires minLen < UINT_MAX && maxLen < UINT_MAX
    ensures fresh(ctx) && Ready(ctx, m)
    ensures m == General(AllPaths.Query(t, dir, minLen + 1, maxLen + 1, dst), src)
    ensures Remaining(ctx, m) == Promised(m)
  {
    ctx := new AllPathsCtx(t, dir, minLen, maxLen, src, dst);
    ghost var q := AllPaths.Query(t, dir, minLen + 1, maxLen + 1, dst);
    m := General(q, src);
    ghost var p := Path(ctx.nodes, ctx.edges);
    assert AllPaths.Prefix(p, 0) == p;
  }

  /** Creates a context that enumerates shortest paths. */
  method NewShortest(src: NodeID, dst: Option<NodeID>, t: Traversal, dir: Direction, minLen: nat, maxLen: nat)
      returns (ctx: AllPathsCtx, ghost m: Mode)
    requires t.g.Valid() && src in t.g.nodes && dir != Both
    requires minLen < UINT_MAX && maxLen < UINT_MAX
    ensures fresh(ctx) && Ready(ctx, m)
    ensures dst.None? ==> m == Nothing
    ensures dst.Some? ==> ModeFor(ShortestDistance.Target(t, dir, src, dst.value, maxLen + 1), m)
    ensures Remaining(ctx, m) == Promised(m)
  {
    hide ShortestDistance.Reach, ShortestDistance.Within, AllShortestPaths.Back, AllShortestPaths.Before;
    ctx := new AllPathsCtx(t, dir, minLen, maxLen, src, dst);
    m := Nothing;
    if dst.None? {
      ctx.maxLen := 0;
      return;
    }
    ghost var s := ShortestDistance.Target(t, dir, src, dst.value, maxLen + 1);
    var n := ShortestDistance.FindMinimumLength(ctx, src, dst.value, s);
    ctx.minLen := n;
    ctx.maxLen := n;
    ctx.dst := Some(src);
    if dir == Incoming {
      ctx.dir := Outgoing;
    } else if dir == Outgoing {
      ctx.dir := Incoming;
    }
    ctx.AddConnection(0, Connection(dst.value, None));
    if n > 0 {
      m := Shortest(s, AllShortestPaths.Walk(t, AllShortestPaths.Reversed(dir), src, n, ctx.visited));
    }
  }

  /** Returns the next path, or none when there is no other. */
  method NextPath(ctx: AllPathsCtx, shortestPaths: bool, ghost m: Mode) returns (r: Option<Path>)
    requires Ready(ctx, m) && (m.Shortest? ==> shortestPaths) && (m.General? ==> !shortestPaths)
    modifies ctx`levels, ctx`neighbors, ctx`nodes, ctx`edges
    ensures Ready(ctx, m)
    ensures old(Remaining(ctx, m)) == [] ==> r.None? && Remaining(ctx, m) == []
    ensures old(Remaining(ctx, m)) != [] ==>
      && r == Some(old(Remaining(ctx, m))[0])
      && Remaining(ctx, m) == old(Remaining(ctx, m))[1..]
  {
    if ctx.maxLen == 0 { return None; }
    if shortestPaths {
      r := AllShortestPaths.NextPath(ctx, m.w, m.s.dest);
    } else {
      r := AllPaths.NextPath(ctx, m.q);
    }
  }

  /** Calls `NextPath` until it returns none. */
  method Drain(ctx: AllPathsCtx, shortestPaths: bool, ghost m: Mode) returns (found: seq<Path>)
    requires Ready(ctx, m) && (m.Shortest? ==> shortestPaths) && (m.General? ==> !shortestPaths)
    modifies ctx`levels, ctx`neighbors, ctx`nodes, ctx`edges
    ensures found == old(Remaining(ctx, m))
  {
    found := [];
    ghost var all := Remaining(ctx, m);
    ghost var left := all;
    var r := NextPath(ctx, shortestPaths, m);
    while r.Some?
      invariant Ready(ctx, m)
      invariant all == found + left
      invariant if left == [] then r.None? else r == Some(left[0]) && Remaining(ctx, m) == left[1..]
      decreases |left|
    {
      MoveFirst(found, left);
      found := found + [r.value];
      left := left[1..];
      r := NextPath(ctx, shortestPaths, m);
    }
  }

  lemma MoveFirst<T>(a: seq<T>, b: seq<T>)
    requires b != []
    ensures a + b == (a + [b[0]]) + b[1..]
  {
  }

  /** Enumerating all paths returns exactly the promised ones, each once; only going both
      ways, a path that ends with a self loop comes twice. */
  method EnumerateAll(src: NodeID, dst: Option<NodeID>, t: Traversal, dir: Direction, minLen: nat, maxLen: nat)
      returns (found: seq<Path>)
    requires t.g.Valid() && src in t.g.nodes
    requires minLen < UINT_MAX && maxLen < UINT_MAX
    ensures var q := AllPaths.Query(t, dir, minLen + 1, maxLen + 1, dst);
      && (forall p :: p in found <==> AllPaths.IsResult(q, src, p))
      && (DistinctRelations(t.relationIDs) ==>
            forall p :: p in found ==> multiset(found)[p] == AllPaths.Times(q, p))
  {
    var ctx, m := New(src, dst, t, dir, minLen, maxLen);
    found := Drain(ctx, false, m);
    forall p
      ensures p in found <==> AllPaths.IsResult(m.q, src, p)
      ensures DistinctRelations(t.relationIDs) && p in found ==> multiset(found)[p] == AllPaths.Times(m.q, p)
    {
      AllPaths.ResultsExact(m.q, src, p);
    }
  }

  /** No walk of at least one edge but fewer than `n` reaches the destination. */
  ghost predicate NoShorter(s: ShortestDistance.Target, n: nat) {
    forall j :: 1 <= j < n ==> !ShortestDistance.Hits(s, j)
  }

  /** Enumerating shortest paths one way returns exactly the walks from source to
      destination of the least positive length, if that is within the bound. */
  method EnumerateShortest(src: NodeID, dst: Option<NodeID>, t: Traversal, dir: Direction, minLen: nat, maxLen: nat)
      returns (found: seq<Path>)
    requires t.g.Valid() && src in t.g.nodes && dir != Both
    requires minLen < UINT_MAX && maxLen < UINT_MAX
    ensures dst.None? ==> found == []
    ensures dst.Some? ==>
      forall p :: p in found <==>
        && 2 <= |p.nodes| <= maxLen + 1
        && AllShortestPaths.IsWalk(t, dir, src, dst.value, |p.nodes|, p)
        && NoShorter(ShortestDistance.Target(t, dir, src, dst.value, maxLen + 1), |p.edges|)
    ensures DistinctRelations(t.relationIDs) ==> NoDuplicates(found)
  {
    var ctx, m := NewShortest(src, dst, t, dir, minLen, maxLen);
    found := Drain(ctx, true, m);
    if dst.Some? {
      PromisedShortest(ShortestDistance.Target(t, dir, src, dst.value, maxLen + 1), m);
    }
  }

  /** With a minimum length on hand, the walks of that length are those with none
      shorter; without one, there are no walks within the bound. */
  lemma PromisedShortest(s: ShortestDistance.Target, m: Mode)
    requires s.t.g.Valid() && s.src in s.t.g.nodes && s.dir != Both && s.maxLen >= 1
    requires ModeFor(s, m)
    ensures forall p :: p in Promised(m) <==>
      && 2 <= |p.nodes| <= s.maxLen
      && AllShortestPaths.IsWalk(s.t, s.dir, s.src, s.dest, |p.nodes|, p)
      && NoShorter(s, |p.edges|)
    ensures DistinctRelations(s.t.relationIDs) ==> NoDuplicates(Promised(m))
  {
    if m.Shortest? {
      AllShortestPaths.ResultsExact(s, m.w.len - 1, m.w);
    }
    forall p
      ensures p in Promised(m) <==>
        && 2 <= |p.nodes| <= s.maxLen
        && AllShortestPaths.IsWalk(s.t, s.dir, s.src, s.dest, |p.nodes|, p)
        && NoShorter(s, |p.edges|)
    {
      var n := |p.nodes|;
      if 2 <= n <= s.maxLen && AllShortestPaths.IsWalk(s.t, s.dir, s.src, s.dest, n, p) {
        AllShortestPaths.WalkReaches(s.t, s.dir, s.src, s.dest, n, p, n - 1);
        assert ShortestDistance.Hits(s, n - 1);
      }
    }
  }
}
