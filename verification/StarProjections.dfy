/** Replacing `*` in WITH and RETURN by the variables in scope, for queries without CALL {}. */
module StarProjections {
  import opened Options

  // ---------------------------------------------------------------------------
  // Queries
  // ---------------------------------------------------------------------------

  datatype Expr = Identifier(name: string) | Null | Text(text: string)

  datatype Item = Item(exp: Expr, alias: Option<string>)

  /** ORDER BY, SKIP, LIMIT, DISTINCT and WHERE are one opaque text. */
  datatype Projection = Projection(star: bool, items: seq<Item>, modifiers: string)

  /** Even elements are nodes and odd ones are edges; unnamed elements are None. */
  datatype Path = Path(name: Option<string>, elements: seq<Option<string>>)

  datatype Clause =
    | Match(paths: seq<Path>)
    | Create(paths: seq<Path>)
    | Merge(path: Path)
    | Unwind(alias: string)
    | Call(outputs: seq<string>)
    | With(projection: Projection)
    | Return(projection: Projection)
    | Union
    | Other(text: string)

  predicate Projects(c: Clause) { c.With? || c.Return? }

  predicate HasStar(c: Clause) { Projects(c) && c.projection.star }

  /** The source asserts that what has no alias is an identifier. */
  predicate Nameable(item: Item) { item.alias.Some? || item.exp.Identifier? }

  function ColumnName(item: Item): string {
    if item.alias.Some? then item.alias.value else if item.exp.Identifier? then item.exp.name else ""
  }

  function Names(items: seq<Item>): set<string> { set i | 0 <= i < |items| :: ColumnName(items[i]) }

  // ---------------------------------------------------------------------------
  // The identifier map: names in ascending order
  // ---------------------------------------------------------------------------

  predicate Less(a: string, b: string) {
    b != [] && (a == [] || a[0] < b[0] || (a[0] == b[0] && Less(a[1..], b[1..])))
  }

  predicate Ascending(ids: seq<string>) { forall i, j :: 0 <= i < j < |ids| ==> Less(ids[i], ids[j]) }

  function Members(ids: seq<string>): set<string> { set x | x in ids }

  function TryInsert(ids: seq<string>, x: string): seq<string> {
    if ids == [] then [x]
    else if x == ids[0] then ids
    else if Less(x, ids[0]) then [x] + ids
    else [ids[0]] + TryInsert(ids[1..], x)
  }

  function Without(ids: seq<string>, x: string): seq<string> {
    if ids == [] then [] else (if ids[0] == x then [] else [ids[0]]) + Without(ids[1..], x)
  }

  lemma {:induction false} LessTransitive(a: string, b: string, c: string)
    requires Less(a, b) && Less(b, c)
    ensures Less(a, c)
  {
    if a != [] && a[0] == b[0] && b[0] == c[0] { LessTransitive(a[1..], b[1..], c[1..]); }
  }

  lemma {:induction false} LessTotal(a: string, b: string)
    ensures a == b || Less(a, b) || Less(b, a)
  {
    if a != [] && b != [] && a[0] == b[0] {
      LessTotal(a[1..], b[1..]);
      assert a == [a[0]] + a[1..] && b == [b[0]] + b[1..];
    }
  }

  lemma {:induction false} LessIrreflexive(a: string)
    ensures !Less(a, a)
  {
    if a != [] { LessIrreflexive(a[1..]); }
  }

  lemma AscendingCons(x: string, ids: seq<string>)
    requires Ascending(ids) && forall y :: y in ids ==> Less(x, y)
    ensures Ascending([x] + ids) && Members([x] + ids) == {x} + Members(ids)
  {
    hide Less;
    var all := [x] + ids;
    assert forall i :: 0 < i < |all| ==> all[i] == ids[i - 1] && all[i] in ids;
  }

  lemma AscendingTail(ids: seq<string>)
    requires Ascending(ids) && ids != []
    ensures Ascending(ids[1..]) && Members(ids) == {ids[0]} + Members(ids[1..])
    ensures forall y :: y in ids[1..] ==> Less(ids[0], y)
  {
    hide Less;
    assert ids == [ids[0]] + ids[1..];
  }

  lemma {:induction false} InsertExact(ids: seq<string>, x: string)
    requires Ascending(ids)
    ensures Ascending(TryInsert(ids, x)) && Members(TryInsert(ids, x)) == Members(ids) + {x}
  {
    if ids == [] || x == ids[0] { return; }
    LessTotal(x, ids[0]);
    AscendingTail(ids);
    if Less(x, ids[0]) {
      forall y | y in ids
        ensures Less(x, y)
      {
        assert y == ids[0] || y in ids[1..];
        if y != ids[0] { LessTransitive(x, ids[0], y); }
      }
      AscendingCons(x, ids);
    } else {
      InsertExact(ids[1..], x);
      hide Less;
      var r := TryInsert(ids[1..], x);
      assert forall y :: y in r ==> y in Members(r);
      AscendingCons(ids[0], r);
    }
  }

  lemma {:induction false} WithoutExact(ids: seq<string>, x: string)
    requires Ascending(ids)
    ensures Ascending(Without(ids, x)) && Members(Without(ids, x)) == Members(ids) - {x}
  {
    if ids == [] { return; }
    AscendingTail(ids);
    WithoutExact(ids[1..], x);
    LessIrreflexive(x);
    hide Less;
    var r := Without(ids[1..], x);
    assert forall y :: y in r ==> y in Members(r);
    AscendingCons(ids[0], r);
  }

  // ---------------------------------------------------------------------------
  // Collecting aliases
  // ---------------------------------------------------------------------------

  function Named(name: Option<string>): set<string> { if name.Some? then {name.value} else {} }

  function NamedFrom(elements: seq<Option<string>>, k: nat): set<string> {
    set i | k <= i < |elements| && elements[i].Some? :: elements[i].value
  }

  function PathAliases(path: Path): set<string> {
    Named(path.name) + NamedFrom(path.elements, 0)
  }

  function PathsAliases(paths: seq<Path>): set<string> {
    if paths == [] then {} else PathsAliases(paths[..|paths| - 1]) + PathAliases(paths[|paths| - 1])
  }

  /** Columns of a WITH, without the helper column of a WITH that had nothing to project. */
  function Columns(items: seq<Item>): set<string> {
    set i | 0 <= i < |items| && items[i].alias != Some("") :: ColumnName(items[i])
  }

  /** The variables a clause brings into scope. */
  function Aliases(c: Clause): set<string> {
    match c
    case Match(paths) => PathsAliases(paths)
    case Create(paths) => PathsAliases(paths)
    case Merge(path) => PathAliases(path)
    case Unwind(x) => {x}
    case Call(outputs) => Members(outputs)
    case With(p) => Columns(p.items)
    case _ => {}
  }

  function Collected(cs: seq<Clause>, lo: nat, hi: nat): set<string>
    requires lo <= hi <= |cs|
  {
    if lo == hi then {} else Collected(cs, lo, hi - 1) + Aliases(cs[hi - 1])
  }

  predicate WithoutOutputs(c: Clause) { c.Call? && c.outputs == [] }

  /** Every second element from `k` on. */
  function EverySecond(elements: seq<Option<string>>, k: nat): set<string>
    decreases |elements| - k
  {
    if k >= |elements| then {} else Named(elements[k]) + EverySecond(elements, k + 2)
  }

  lemma {:induction false} NodesAndEdges(elements: seq<Option<string>>, k: nat)
    ensures EverySecond(elements, k) + EverySecond(elements, k + 1) == NamedFrom(elements, k)
    decreases |elements| - k
  {
    if k < |elements| {
      NodesAndEdges(elements, k + 1);
      assert NamedFrom(elements, k) == Named(elements[k]) + NamedFrom(elements, k + 1);
    }
  }

  method CollectEverySecond(elements: seq<Option<string>>, start: nat, ids0: seq<string>) returns (ids: seq<string>)
    requires Ascending(ids0)
    ensures Ascending(ids) && Members(ids) == Members(ids0) + EverySecond(elements, start)
  {
    ids := ids0;
    var i := start;
    while i < |elements|
      invariant start <= i && Ascending(ids)
      invariant Members(ids) + EverySecond(elements, i) == Members(ids0) + EverySecond(elements, start)
    {
      if elements[i].Some? {
        InsertExact(ids, elements[i].value);
        ids := TryInsert(ids, elements[i].value);
      }
      i := i + 2;
    }
  }

  method CollectPath(path: Path, ids0: seq<string>) returns (ids: seq<string>)
    requires Ascending(ids0)
    ensures Ascending(ids) && Members(ids) == Members(ids0) + PathAliases(path)
  {
    ids := ids0;
    if path.name.Some? {
      InsertExact(ids, path.name.value);
      ids := TryInsert(ids, path.name.value);
    }
    ids := CollectEverySecond(path.elements, 0, ids);
    ids := CollectEverySecond(path.elements, 1, ids);
    NodesAndEdges(path.elements, 0);
  }

  method CollectPattern(paths: seq<Path>, ids0: seq<string>) returns (ids: seq<string>)
    requires Ascending(ids0)
    ensures Ascending(ids) && Members(ids) == Members(ids0) + PathsAliases(paths)
  {
    ids := ids0;
    var i := 0;
    while i < |paths|
      invariant 0 <= i <= |paths| && Ascending(ids)
      invariant Members(ids) == Members(ids0) + PathsAliases(paths[..i])
    {
      ids := CollectPath(paths[i], ids);
      assert paths[..i + 1][..i] == paths[..i];
      i := i + 1;
    }
    assert paths[..i] == paths;
  }

  method CollectWith(items: seq<Item>, ids0: seq<string>) returns (ids: seq<string>)
    requires Ascending(ids0) && forall i :: 0 <= i < |items| ==> Nameable(items[i])
    ensures Ascending(ids) && Members(ids) == Members(ids0) + Columns(items)
  {
    ids := ids0;
    var i := 0;
    while i < |items|
      invariant 0 <= i <= |items| && Ascending(ids)
      invariant Members(ids) == Members(ids0) + Columns(items[..i])
    {
      assert items[..i + 1] == items[..i] + [items[i]];
      ColumnsAppend(items[..i], items[i]);
      if items[i].alias != Some("") {
        InsertExact(ids, ColumnName(items[i]));
        ids := TryInsert(ids, ColumnName(items[i]));
      }
      i := i + 1;
    }
    assert items[..i] == items;
  }

  lemma ColumnsAppend(items: seq<Item>, item: Item)
    ensures Columns(items + [item]) == Columns(items) + if item.alias == Some("") then {} else {ColumnName(item)}
    ensures Names(items + [item]) == Names(items) + {ColumnName(item)}
  {
    var all := items + [item];
    assert forall i :: 0 <= i < |items| ==> all[i] == items[i];
    assert all[|items|] == item;
  }

  method CollectOutputs(outputs: seq<string>, ids0: seq<string>) returns (ids: seq<string>)
    requires Ascending(ids0)
    ensures Ascending(ids) && Members(ids) == Members(ids0) + Members(outputs)
  {
    ids := ids0;
    var i := 0;
    while i < |outputs|
      invariant 0 <= i <= |outputs| && Ascending(ids)
      invariant Members(ids) == Members(ids0) + Members(outputs[..i])
    {
      assert outputs[..i + 1] == outputs[..i] + [outputs[i]];
      InsertExact(ids, outputs[i]);
      ids := TryInsert(ids, outputs[i]);
      i := i + 1;
    }
    assert outputs[..i] == outputs;
  }

  method CollectClause(c: Clause, ids0: seq<string>) returns (ids: seq<string>)
    requires Ascending(ids0) && ItemsNameable(c)
    ensures Ascending(ids) && Members(ids) == Members(ids0) + Aliases(c)
  {
    ids := ids0;
    match c {
      case With(p) => ids := CollectWith(p.items, ids);
      case Match(paths) => ids := CollectPattern(paths, ids);
      case Create(paths) => ids := CollectPattern(paths, ids);
      case Merge(path) => ids := CollectPath(path, ids);
      case Unwind(x) =>
        InsertExact(ids, x);
        ids := TryInsert(ids, x);
      case Call(outputs) => ids := CollectOutputs(outputs, ids);
      case _ =>
    }
  }

  predicate ItemsNameable(c: Clause) {
    Projects(c) ==> forall i :: 0 <= i < |c.projection.items| ==> Nameable(c.projection.items[i])
  }

  /** The variables of the clauses between `lo` and `hi`; fails on a CALL without outputs. */
  method CollectAliasesInScope(cs: seq<Clause>, lo: nat, hi: nat) returns (ids: seq<string>, error: bool)
    requires lo < hi <= |cs| && forall i :: 0 <= i < |cs| ==> ItemsNameable(cs[i])
    ensures Ascending(ids) && Members(ids) == Collected(cs, lo, hi)
    ensures error == exists i :: lo <= i < hi && WithoutOutputs(cs[i])
  {
    ids, error := [], false;
    var i := lo;
    hide Aliases, Ascending, Members, ItemsNameable;
    assert Ascending([]) && Members([]) == {} by { NoMembers(); }
    while i < hi
      invariant lo <= i <= hi && Ascending(ids) && Members(ids) == Collected(cs, lo, i)
      invariant error == exists j :: lo <= j < i && WithoutOutputs(cs[j])
    {
      ids := CollectClause(cs[i], ids);
      error := error || WithoutOutputs(cs[i]);
      i := i + 1;
    }
  }

  lemma NoMembers()
    ensures Ascending([]) && Members([]) == {}
  {
  }

  // ---------------------------------------------------------------------------
  // Replacing a star
  // ---------------------------------------------------------------------------

  function Identifiers(ids: seq<string>): seq<Item> {
    seq(|ids|, i requires 0 <= i < |ids| => Item(Identifier(ids[i]), None))
  }

  /** `r` lists the variables of `scope` that `p` does not name itself, in ascending order,
      before the columns of `p`. A WITH left without columns projects null under no name. */
  ghost predicate ExpandsTo(p: Projection, scope: set<string>, isReturn: bool, r: Projection) {
    && r.modifiers == p.modifiers
    && if scope == {} && p.items == [] then
         if isReturn then r == p else !r.star && r.items == [Item(Null, Some(""))]
       else
         !r.star && exists ids {:trigger Identifiers(ids)} ::
           Ascending(ids) && Members(ids) == scope - Names(p.items) && r.items == Identifiers(ids) + p.items
  }

  method ReplaceProjection(p: Projection, isReturn: bool, ids0: seq<string>) returns (r: Projection, error: bool)
    requires Ascending(ids0)
    ensures ExpandsTo(p, Members(ids0), isReturn, r)
    ensures error <==> isReturn && Members(ids0) == {} && p.items == []
  {
    var ids, i := ids0, 0;
    while i < |p.items|
      invariant 0 <= i <= |p.items| && Ascending(ids)
      invariant Members(ids) == Members(ids0) - Names(p.items[..i])
    {
      assert p.items[..i + 1] == p.items[..i] + [p.items[i]];
      ColumnsAppend(p.items[..i], p.items[i]);
      WithoutExact(ids, ColumnName(p.items[i]));
      ids := Without(ids, ColumnName(p.items[i]));
      i := i + 1;
    }
    assert p.items[..i] == p.items;
    assert ids == [] <==> Members(ids) == {} by { if ids != [] { assert ids[0] in Members(ids); } }
    var projections := Identifiers(ids);
    if |ids| + |p.items| == 0 {
      if isReturn { return p, true; }
      projections := [Item(Null, Some(""))];
    }
    projections := projections + p.items;
    return Projection(false, projections, p.modifiers), false;
  }

  // ---------------------------------------------------------------------------
  // Scoping environment
  // ---------------------------------------------------------------------------

  /** The environment of the validations: a WITH starts afresh unless it has a star. */
  function NextEnv(c: Clause, env: set<string>): set<string> {
    match c
    case With(p) => (if p.star then env else {}) + Names(p.items)
    case Union => {}
    case _ => env + Aliases(c)
  }

  /** Variables in scope before clause `i`, computed from the beginning of the query. */
  function Env(cs: seq<Clause>, i: nat): set<string>
    requires i <= |cs|
  {
    if i == 0 then {} else NextEnv(cs[i - 1], Env(cs, i - 1))
  }

  /** Only UNION follows RETURN. */
  predicate ReturnsEnd(cs: seq<Clause>) {
    forall i :: 0 < i < |cs| && cs[i - 1].Return? ==> cs[i].Union?
  }

  function Unions(cs: seq<Clause>): nat {
    if cs == [] then 0 else Unions(cs[..|cs| - 1]) + if cs[|cs| - 1].Union? then 1 else 0
  }

  function Returns(cs: seq<Clause>): nat {
    if cs == [] then 0 else Returns(cs[..|cs| - 1]) + if cs[|cs| - 1].Return? then 1 else 0
  }

  /** What the validations guarantee of a query without CALL {}. */
  predicate Validated(cs: seq<Clause>) {
    && cs != [] && !HasStar(cs[0])
    && ReturnsEnd(cs)
    && (Unions(cs) > 0 ==> Returns(cs) == Unions(cs) + 1)
    && forall i :: 0 <= i < |cs| ==> ItemsNameable(cs[i]) && WellNamed(cs[i])
  }

  /** Names are never empty. */
  predicate WellNamed(c: Clause) {
    "" !in Aliases(c) && (Projects(c) ==> "" !in Names(c.projection.items))
  }

  predicate IsReturnAt(cs: seq<Clause>, i: int) { 0 <= i < |cs| && cs[i].Return? }

  /** UNIONs that do not follow a RETURN. */
  function Stray(cs: seq<Clause>): nat {
    if cs == [] then 0
    else Stray(cs[..|cs| - 1]) + if cs[|cs| - 1].Union? && !IsReturnAt(cs, |cs| - 2) then 1 else 0
  }

  lemma {:induction false} CountStray(cs: seq<Clause>)
    requires ReturnsEnd(cs)
    ensures Unions(cs) + (if IsReturnAt(cs, |cs| - 1) then 1 else 0) == Returns(cs) + Stray(cs)
  {
    if cs == [] { return; }
    var f := cs[..|cs| - 1];
    CountStray(f);
    assert IsReturnAt(cs, |cs| - 2) == IsReturnAt(f, |f| - 1);
  }

  lemma {:induction false} NoStray(cs: seq<Clause>, i: nat)
    requires Stray(cs) == 0 && i < |cs| && cs[i].Union?
    ensures IsReturnAt(cs, i - 1)
  {
    if i < |cs| - 1 { NoStray(cs[..|cs| - 1], i); }
  }

  /** Counting RETURNs and UNIONs is enough to know that each UNION follows a RETURN. */
  lemma UnionFollowsReturn(cs: seq<Clause>, i: nat)
    requires Validated(cs) && i < |cs| && cs[i].Union?
    ensures i > 0 && cs[i - 1].Return?
  {
    CountPositive(cs, i);
    CountStray(cs);
    NoStray(cs, i);
  }

  lemma {:induction false} CountPositive(cs: seq<Clause>, i: nat)
    requires i < |cs| && cs[i].Union?
    ensures Unions(cs) > 0
  {
    if i < |cs| - 1 { CountPositive(cs[..|cs| - 1], i); }
  }

  // ---------------------------------------------------------------------------
  // Rewriting a query
  // ---------------------------------------------------------------------------

  /** Where collection begins for clause `i`: at the last projection before it. */
  function ScopeStart(cs: seq<Clause>, i: nat): (lo: nat)
    requires i <= |cs|
    ensures lo <= i && (i > 0 ==> lo < i)
  {
    if i == 0 then 0 else if Projects(cs[i - 1]) then i - 1 else ScopeStart(cs, i - 1)
  }

  /** `c` is clause `i` with its star replaced by the whole environment. */
  ghost predicate RewrittenAt(cs: seq<Clause>, i: nat, c: Clause)
    requires i < |cs|
  {
    if HasStar(cs[i]) then
      && Projects(c) && c.With? == cs[i].With?
      && ExpandsTo(cs[i].projection, Env(cs, i), cs[i].Return?, c.projection)
    else c == cs[i]
  }

  ghost predicate RewrittenUpTo(cs: seq<Clause>, q: seq<Clause>, n: nat) {
    n <= |cs| == |q| && forall i :: 0 <= i < n ==> RewrittenAt(cs, i, q[i])
  }

  lemma {:induction false} EnvNamed(cs: seq<Clause>, i: nat)
    requires i <= |cs| && forall j :: 0 <= j < |cs| ==> WellNamed(cs[j])
    ensures "" !in Env(cs, i)
  {
    if i > 0 { EnvNamed(cs, i - 1); }
  }

  lemma ColumnsConcat(a: seq<Item>, b: seq<Item>)
    ensures Columns(a + b) == Columns(a) + Columns(b) && Names(a + b) == Names(a) + Names(b)
  {
    var all := a + b;
    assert forall i :: 0 <= i < |a| ==> all[i] == a[i];
    assert forall i :: 0 <= i < |b| ==> all[|a| + i] == b[i];
    assert forall i :: |a| <= i < |all| ==> all[i] == b[i - |a|];
  }

  lemma ColumnsOfIdentifiers(ids: seq<string>)
    ensures Columns(Identifiers(ids)) == Names(Identifiers(ids)) == Members(ids)
  {
    var items := Identifiers(ids);
    assert forall i :: 0 <= i < |ids| ==> ColumnName(items[i]) == ids[i] && items[i].alias == None;
    forall x | x in Members(ids)
      ensures x in Columns(items) && x in Names(items)
    {
      var i :| 0 <= i < |ids| && ids[i] == x;
      assert ColumnName(items[i]) == x;
    }
  }

  lemma ColumnsAreNames(items: seq<Item>)
    requires "" !in Names(items)
    ensures Columns(items) == Names(items)
  {
    assert forall i :: 0 <= i < |items| ==> ColumnName(items[i]) in Names(items);
  }

  /** An expanded WITH brings exactly the old scope and its own columns into the new one. */
  lemma ExpandedColumns(p: Projection, scope: set<string>, r: Projection)
    requires ExpandsTo(p, scope, false, r) && "" !in Names(p.items)
    ensures Columns(r.items) == scope + Names(p.items)
  {
    ColumnsAreNames(p.items);
    if scope == {} && p.items == [] {
      assert Columns(r.items) == {};
    } else {
      var ids :| Ascending(ids) && Members(ids) == scope - Names(p.items) && r.items == Identifiers(ids) + p.items;
      ColumnsConcat(Identifiers(ids), p.items);
      ColumnsOfIdentifiers(ids);
    }
  }

  lemma ExpandedNameable(cs: seq<Clause>, i: nat, c: Clause)
    requires i < |cs| && ItemsNameable(cs[i]) && RewrittenAt(cs, i, c)
    ensures ItemsNameable(c) && c.Return? == cs[i].Return? && c.Union? == cs[i].Union? && Projects(c) == Projects(cs[i])
    ensures WithoutOutputs(c) == WithoutOutputs(cs[i])
  {
  }

  /** Collecting since the last projection of the partly rewritten query gives the
      environment computed from the beginning of the original one. */
  lemma {:induction false} ScopeExact(cs: seq<Clause>, q: seq<Clause>, i: nat)
    requires Validated(cs) && i <= |cs| && RewrittenUpTo(cs, q, i) && !IsReturnAt(cs, i - 1)
    ensures Collected(q, ScopeStart(cs, i), i) == Env(cs, i)
  {
    if i == 0 { return; }
    var c, k := cs[i - 1], i - 1;
    assert RewrittenAt(cs, k, q[k]);
    assert WellNamed(c) && ItemsNameable(c);
    ExpandedNameable(cs, k, q[k]);
    if c.With? {
      assert Collected(q, k, i) == {} + Aliases(q[k]);
      if c.projection.star { ExpandedColumns(c.projection, Env(cs, k), q[k].projection); }
      else { ColumnsAreNames(c.projection.items); }
    } else if c.Union? {
      UnionFollowsReturn(cs, k);
      assert RewrittenAt(cs, k - 1, q[k - 1]);
      ExpandedNameable(cs, k - 1, q[k - 1]);
      assert Collected(q, k - 1, k) == {} + Aliases(q[k - 1]);
    } else {
      assert !IsReturnAt(cs, k - 1);
      ScopeExact(cs, q, k);
    }
  }

  predicate HasSilentCall(cs: seq<Clause>, lo: nat, hi: nat)
    requires lo <= hi <= |cs|
  {
    exists j :: lo <= j < hi && WithoutOutputs(cs[j])
  }

  /** What makes the rewrite of clause `i` fail. */
  predicate Fails(cs: seq<Clause>, i: nat)
    requires i < |cs|
  {
    && HasStar(cs[i])
    && (|| HasSilentCall(cs, ScopeStart(cs, i), i)
        || (cs[i].Return? && Env(cs, i) == {} && cs[i].projection.items == []))
  }

  /** Rewrites clause `i` of a query whose earlier clauses are rewritten. */
  method ReplaceClause(ghost cs: seq<Clause>, q: seq<Clause>, lo: nat, i: nat) returns (c: Clause, error: bool)
    requires Validated(cs) && i < |cs| && RewrittenUpTo(cs, q, i) && q[i..] == cs[i..]
    requires HasStar(cs[i]) && lo == ScopeStart(cs, i)
    ensures RewrittenAt(cs, i, c) && error == Fails(cs, i)
  {
    assert q[i] == q[i..][0] == cs[i];
    forall j | 0 <= j < |q|
      ensures ItemsNameable(q[j]) && (j < i ==> WithoutOutputs(q[j]) == WithoutOutputs(cs[j]))
    {
      assert ItemsNameable(cs[j]);
      if j < i { ExpandedNameable(cs, j, q[j]); } else { assert q[j] == q[i..][j - i] == cs[j]; }
    }
    assert !IsReturnAt(cs, i - 1);
    ScopeExact(cs, q, i);
    hide RewrittenUpTo, ItemsNameable, Env, ExpandsTo, Validated, Aliases;
    var ids, silent := CollectAliasesInScope(q, lo, i);
    var p, empty := ReplaceProjection(q[i].projection, q[i].Return?, ids);
    c := if q[i].With? then With(p) else Return(p);
    error := silent || empty;
  }

  /** The loop over the clauses; errors are reported but do not stop it. */
  method RewriteStarProjections(cs: seq<Clause>) returns (q: seq<Clause>, rewritten: bool, error: bool)
    requires Validated(cs)
    ensures RewrittenUpTo(cs, q, |cs|)
    ensures rewritten <==> exists i :: 0 <= i < |cs| && HasStar(cs[i])
    ensures error <==> exists i :: 0 <= i < |cs| && Fails(cs, i)
  {
    q, rewritten, error := cs, false, false;
    var scopeStart, i := 0, 0;
    while i < |cs|
      invariant 0 <= i <= |cs| == |q| && scopeStart == ScopeStart(cs, i)
      invariant RewrittenUpTo(cs, q, i) && q[i..] == cs[i..]
      invariant rewritten <==> exists j :: 0 <= j < i && HasStar(cs[j])
      invariant error <==> exists j :: 0 <= j < i && Fails(cs, j)
    {
      hide Fails, HasStar, Validated, ExpandsTo, Env;
      var c := q[i];
      assert c == q[i..][0] == cs[i];
      ghost var before := q;
      if Projects(c) {
        if HasStar(c) {
          var c', e := ReplaceClause(cs, q, scopeStart, i);
          q := q[i := c'];
          rewritten, error := true, error || e;
        } else {
          NoStarNoFailure(cs, i);
        }
        scopeStart := i;
      } else {
        NoStarNoFailure(cs, i);
      }
      assert RewrittenAt(cs, i, q[i]);
      assert forall j :: 0 <= j < i ==> q[j] == before[j];
      assert q[i + 1..] == before[i..][1..] == cs[i + 1..];
      i := i + 1;
    }
  }

  lemma NoStarNoFailure(cs: seq<Clause>, i: nat)
    requires i < |cs| && (!Projects(cs[i]) || !HasStar(cs[i]))
    ensures !HasStar(cs[i]) && !Fails(cs, i) && RewrittenAt(cs, i, cs[i])
  {
  }

  /** Without an error no star is left. */
  lemma NoStarLeft(cs: seq<Clause>, q: seq<Clause>, i: nat)
    requires RewrittenUpTo(cs, q, |cs|) && i < |cs|
    ensures HasStar(q[i]) <==>
      HasStar(cs[i]) && cs[i].Return? && Env(cs, i) == {} && cs[i].projection.items == []
  {
    assert RewrittenAt(cs, i, q[i]);
  }
}
