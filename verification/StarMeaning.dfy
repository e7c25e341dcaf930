/** What star rewriting means for the rows a query works on. */
module StarMeaning {
  import opened Options
  import opened StarProjections

  type Row<V> = map<string, V>

  /** `eval` evaluates an expression on a row, `bind` gives the rows a clause that does not
      project makes of a row, and `finish` orders, skips, limits and filters pairs of a row
      and its projection. */
  datatype Semantics<!V> = Semantics(
    eval: (Expr, Row<V>) -> V,
    bind: (Clause, Row<V>) -> seq<Row<V>>,
    finish: (string, seq<(Row<V>, Row<V>)>) -> seq<Row<V>>)

  ghost predicate Lawful<V(!new)>(s: Semantics<V>) {
    && (forall x, row :: x in row ==> s.eval(Identifier(x), row) == row[x])
    && (forall c, row, row' :: row' in s.bind(c, row) ==> row'.Keys == row.Keys + Aliases(c))
    && (forall m, pairs: seq<(Row<V>, Row<V>)>, row :: row in s.finish(m, pairs) ==>
          exists i :: 0 <= i < |pairs| && row == pairs[i].1)
  }

  /** The named columns of a projection on one row. */
  function Project<V>(s: Semantics<V>, items: seq<Item>, row: Row<V>): Row<V> {
    if items == [] then map[]
    else
      var k := |items| - 1;
      Project(s, items[..k], row)[ColumnName(items[k]) := s.eval(items[k].exp, row)]
  }

  /** A star keeps all that a row holds. The column without a name, which no query can
      refer to, is not shown. */
  function ProjectRow<V>(s: Semantics<V>, p: Projection, row: Row<V>): Row<V> {
    ((if p.star then row else map[]) + Project(s, p.items, row)) - {""}
  }

  function Pairs<V>(s: Semantics<V>, p: Projection, rows: seq<Row<V>>): seq<(Row<V>, Row<V>)> {
    seq(|rows|, i requires 0 <= i < |rows| => (rows[i], ProjectRow(s, p, rows[i])))
  }

  function BindAll<V>(s: Semantics<V>, c: Clause, rows: seq<Row<V>>): seq<Row<V>> {
    if rows == [] then [] else s.bind(c, rows[0]) + BindAll(s, c, rows[1..])
  }

  /** Results of the branches already ended by UNION, and the rows of the current one. */
  datatype State<!V> = State(results: seq<seq<Row<V>>>, rows: seq<Row<V>>)

  function Step<V>(s: Semantics<V>, c: Clause, st: State<V>): State<V> {
    if Projects(c) then st.(rows := s.finish(c.projection.modifiers, Pairs(s, c.projection, st.rows)))
    else if c.Union? then State(st.results + [st.rows], [map[]])
    else st.(rows := BindAll(s, c, st.rows))
  }

  /** The state before clause `i`. */
  function Run<V>(s: Semantics<V>, cs: seq<Clause>, i: nat): State<V>
    requires i <= |cs|
  {
    if i == 0 then State([], [map[]]) else Step(s, cs[i - 1], Run(s, cs, i - 1))
  }

  ghost predicate AllHold<V>(rows: seq<Row<V>>, env: set<string>) {
    forall i :: 0 <= i < |rows| ==> rows[i].Keys == env
  }

  // ---------------------------------------------------------------------------

  lemma {:induction false} ProjectKeys<V>(s: Semantics<V>, items: seq<Item>, row: Row<V>)
    ensures Project(s, items, row).Keys == Names(items)
  {
    if items == [] { return; }
    var k := |items| - 1;
    assert items == items[..k] + [items[k]];
    ColumnsAppend(items[..k], items[k]);
    ProjectKeys(s, items[..k], row);
  }

  lemma {:induction false} ProjectConcat<V>(s: Semantics<V>, a: seq<Item>, b: seq<Item>, row: Row<V>)
    ensures Project(s, a + b, row) == Project(s, a, row) + Project(s, b, row)
  {
    if b == [] {
      assert a + b == a;
    } else {
      var k := |b| - 1;
      var ab := a + b;
      assert ab[..|ab| - 1] == a + b[..k] && ab[|ab| - 1] == b[k];
      ProjectConcat(s, a, b[..k], row);
    }
  }

  /** A row cut down to some of its variables. */
  function Only<V>(row: Row<V>, names: set<string>): Row<V> {
    map x | x in names && x in row :: row[x]
  }

  lemma OnlyAppend<V>(row: Row<V>, names: set<string>, x: string)
    requires x in row
    ensures Only(row, names + {x}) == Only(row, names)[x := row[x]]
  {
  }

  lemma OnlyOverlay<V>(row: Row<V>, over: Row<V>)
    ensures Only(row, row.Keys - over.Keys) + over == row + over
  {
  }

  lemma {:induction false} ProjectIdentifiers<V(!new)>(s: Semantics<V>, ids: seq<string>, row: Row<V>)
    requires Lawful(s) && Members(ids) <= row.Keys
    ensures Project(s, Identifiers(ids), row) == Only(row, Members(ids))
  {
    if ids == [] { return; }
    var k := |ids| - 1;
    assert Members(ids) == Members(ids[..k]) + {ids[k]} by { assert ids == ids[..k] + [ids[k]]; }
    ProjectIdentifiers(s, ids[..k], row);
    assert Identifiers(ids)[..k] == Identifiers(ids[..k]);
    OnlyAppend(row, Members(ids[..k]), ids[k]);
  }

  /** The nameless column of a WITH that had nothing to project. */
  function Placeholder<V>(s: Semantics<V>, p: Projection, row: Row<V>): Row<V> {
    if row.Keys == {} && p.items == [] then map["" := s.eval(Null, row)] else map[]
  }

  /** The columns of a rewritten projection are those of the row, overlaid by the explicit ones. */
  lemma ExpansionColumns<V(!new)>(s: Semantics<V>, p: Projection, isReturn: bool, r: Projection, row: Row<V>)
    requires Lawful(s) && p.star && ExpandsTo(p, row.Keys, isReturn, r) && !r.star
    ensures Project(s, r.items, row) == row + Project(s, p.items, row) + Placeholder(s, p, row)
  {
    if row.Keys == {} && p.items == [] {
      assert r.items == [Item(Null, Some(""))];
      PlaceholderColumn(s, row);
      assert row == map[] && Project(s, [], row) == map[];
    } else {
      var ids :| Ascending(ids) && Members(ids) == row.Keys - Names(p.items) && r.items == Identifiers(ids) + p.items;
      OverlaidColumns(s, ids, p.items, row);
      hide Project, Lawful;
      var shown := row + Project(s, p.items, row);
      assert shown + map[] == shown;
    }
  }

  lemma PlaceholderColumn<V>(s: Semantics<V>, row: Row<V>)
    ensures Project(s, [Item(Null, Some(""))], row) == map["" := s.eval(Null, row)]
  {
    assert [Item(Null, Some(""))][..0] == [];
  }

  lemma OverlaidColumns<V(!new)>(s: Semantics<V>, ids: seq<string>, items: seq<Item>, row: Row<V>)
    requires Lawful(s) && Members(ids) == row.Keys - Names(items)
    ensures Project(s, Identifiers(ids) + items, row) == row + Project(s, items, row)
  {
    ProjectKeys(s, items, row);
    ProjectConcat(s, Identifiers(ids), items, row);
    ProjectIdentifiers(s, ids, row);
    OnlyOverlay(row, Project(s, items, row));
  }

  /** The rewritten projection gives every row what the star gives it. */
  lemma ExpansionKeepsRow<V(!new)>(s: Semantics<V>, p: Projection, isReturn: bool, r: Projection, row: Row<V>)
    requires Lawful(s) && p.star && ExpandsTo(p, row.Keys, isReturn, r)
    ensures ProjectRow(s, r, row) == ProjectRow(s, p, row)
  {
    if r.star { return; }
    ExpansionColumns(s, p, isReturn, r, row);
    hide Project, ExpandsTo, Lawful;
    var shown := row + Project(s, p.items, row);
    assert (shown + Placeholder(s, p, row)) - {""} == shown - {""};
    assert map[] + Project(s, r.items, row) == Project(s, r.items, row);
  }

  lemma {:induction false} BindAllHolds<V(!new)>(s: Semantics<V>, c: Clause, rows: seq<Row<V>>, env: set<string>)
    requires Lawful(s) && AllHold(rows, env)
    ensures AllHold(BindAll(s, c, rows), env + Aliases(c))
  {
    if rows == [] { return; }
    BindAllHolds(s, c, rows[1..], env);
    var first := s.bind(c, rows[0]);
    assert forall i :: 0 <= i < |first| ==> first[i] in first;
  }

  lemma ProjectedHold<V(!new)>(s: Semantics<V>, p: Projection, rows: seq<Row<V>>, env: set<string>)
    requires Lawful(s) && AllHold(rows, env) && "" !in env && "" !in Names(p.items)
    ensures AllHold(s.finish(p.modifiers, Pairs(s, p, rows)), (if p.star then env else {}) + Names(p.items))
  {
    var pairs := Pairs(s, p, rows);
    var out := s.finish(p.modifiers, pairs);
    forall i | 0 <= i < |out|
      ensures out[i].Keys == (if p.star then env else {}) + Names(p.items)
    {
      assert out[i] in out;
      var j :| 0 <= j < |pairs| && out[i] == pairs[j].1;
      ProjectKeys(s, p.items, rows[j]);
    }
  }

  /** Rows hold exactly the variables of the environment, in every validated query. */
  lemma {:induction false} RowsHoldEnv<V(!new)>(s: Semantics<V>, cs: seq<Clause>, i: nat)
    requires Lawful(s) && Validated(cs) && i <= |cs| && !IsReturnAt(cs, i - 1)
    ensures AllHold(Run(s, cs, i).rows, Env(cs, i))
  {
    if i == 0 { return; }
    var c := cs[i - 1];
    assert WellNamed(c);
    if c.Union? { return; }
    assert !IsReturnAt(cs, i - 2);
    RowsHoldEnv(s, cs, i - 1);
    EnvNamed(cs, i - 1);
    if c.With? { ProjectedHold(s, c.projection, Run(s, cs, i - 1).rows, Env(cs, i - 1)); }
    else { BindAllHolds(s, c, Run(s, cs, i - 1).rows, Env(cs, i - 1)); }
  }

  lemma StepKept<V(!new)>(s: Semantics<V>, cs: seq<Clause>, i: nat, c: Clause)
    requires Lawful(s) && Validated(cs) && i < |cs| && RewrittenAt(cs, i, c)
    ensures Step(s, c, Run(s, cs, i)) == Run(s, cs, i + 1)
  {
    if !HasStar(cs[i]) { return; }
    assert !IsReturnAt(cs, i - 1);
    RowsHoldEnv(s, cs, i);
    EnvNamed(cs, i);
    var rows := Run(s, cs, i).rows;
    forall j | 0 <= j < |rows|
      ensures ProjectRow(s, c.projection, rows[j]) == ProjectRow(s, cs[i].projection, rows[j])
    {
      assert rows[j].Keys == Env(cs, i);
      ExpansionKeepsRow(s, cs[i].projection, cs[i].Return?, c.projection, rows[j]);
    }
    assert Pairs(s, c.projection, rows) == Pairs(s, cs[i].projection, rows);
  }

  /** Star rewriting preserves meaning: the rewritten query goes through the same rows. */
  lemma {:induction false} MeaningKept<V(!new)>(s: Semantics<V>, cs: seq<Clause>, q: seq<Clause>, i: nat)
    requires Lawful(s) && Validated(cs) && RewrittenUpTo(cs, q, |cs|) && i <= |cs|
    ensures Run(s, q, i) == Run(s, cs, i)
  {
    if i > 0 {
      MeaningKept(s, cs, q, i - 1);
      assert RewrittenAt(cs, i - 1, q[i - 1]);
      StepKept(s, cs, i - 1, q[i - 1]);
    }
  }
}
