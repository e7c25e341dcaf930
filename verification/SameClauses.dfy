/** Compression of consecutive clauses of one kind into a single clause.

    Patterns, set items and the like are opaque texts; what matters is which clause
    they stand in and in which order. Clauses that are never compressed keep their
    kind and text. */
module SameClauses {
  import opened Options

  type PathPattern = string

  datatype Expr = Identifier(name: string) | And(left: Expr, right: Expr) | Text(text: string)

  datatype PlainKind = Merge | Unwind | With | Return | Call | Union

  datatype Clause =
    | Match(optional: bool, paths: seq<PathPattern>, filter: Option<Expr>, hints: seq<string>)
    | Create(paths: seq<PathPattern>, unique: bool)
    | Delete(exps: seq<Expr>, detach: bool)
    | Set(items: seq<string>)
    | Remove(items: seq<string>)
    | Foreach(header: string, body: seq<Clause>)
    | CallSubquery(body: seq<Clause>)
    | Plain(kind: PlainKind, text: string)

  predicate SameType(a: Clause, b: Clause) {
    || (a.Match? && b.Match?) || (a.Create? && b.Create?) || (a.Delete? && b.Delete?)
    || (a.Set? && b.Set?) || (a.Remove? && b.Remove?)
  }

  predicate IsCompressible(c: Clause) {
    (c.Match? && !c.optional) || c.Create? || c.Set? || c.Delete? || c.Remove?
  }

  // ---------------------------------------------------------------------------
  // Merging a run
  // ---------------------------------------------------------------------------

  /** Compressible clauses of one type. */
  predicate IsRun(run: seq<Clause>) {
    run != [] && forall i :: 0 <= i < |run| ==> IsCompressible(run[i]) && SameType(run[0], run[i])
  }

  function PathsOf(c: Clause): seq<PathPattern> {
    if c.Match? || c.Create? then c.paths else []
  }

  function ItemsOf(c: Clause): seq<string> {
    if c.Set? || c.Remove? then c.items else []
  }

  function ExpsOf(c: Clause): seq<Expr> {
    if c.Delete? then c.exps else []
  }

  function AllPaths(run: seq<Clause>): seq<PathPattern> {
    if run == [] then [] else AllPaths(run[..|run| - 1]) + PathsOf(run[|run| - 1])
  }

  function AllItems(run: seq<Clause>): seq<string> {
    if run == [] then [] else AllItems(run[..|run| - 1]) + ItemsOf(run[|run| - 1])
  }

  function AllExps(run: seq<Clause>): seq<Expr> {
    if run == [] then [] else AllExps(run[..|run| - 1]) + ExpsOf(run[|run| - 1])
  }

  function PredicateOf(c: Clause): Option<Expr> {
    if c.Match? then c.filter else None
  }

  function Both(p: Option<Expr>, q: Option<Expr>): Option<Expr> {
    if q.None? then p else if p.None? then q else Some(And(p.value, q.value))
  }

  /** The predicates of a run, connected by AND from left to right. */
  function AllPredicates(run: seq<Clause>): Option<Expr> {
    if run == [] then None else Both(AllPredicates(run[..|run| - 1]), PredicateOf(run[|run| - 1]))
  }

  /** Identifiers among the expressions. */
  function Names(exps: seq<Expr>): set<string> {
    set e | e in exps && e.Identifier? :: e.name
  }

  /** Expressions without repeated identifiers; `seen` are the identifiers met before. */
  function Distinct(exps: seq<Expr>, seen: set<string>): seq<Expr> {
    if exps == [] then []
    else
      var k := |exps| - 1;
      var front := Distinct(exps[..k], seen);
      var e := exps[k];
      if e.Identifier? && e.name in seen + Names(exps[..k]) then front else front + [e]
  }

  function MergeRun(run: seq<Clause>): Clause
    requires IsRun(run)
  {
    match run[0]
    case Match(_, _, _, _) => Match(false, AllPaths(run), AllPredicates(run), [])
    case Create(_, _) => Create(AllPaths(run), false)
    case Delete(_, _) => Delete(Distinct(AllExps(run), {}), false)
    case Set(_) => Set(AllItems(run))
    case _ => Remove(AllItems(run))
  }

  method ReplaceMatch(run: seq<Clause>) returns (c: Clause)
    requires IsRun(run) && run[0].Match?
    ensures c == MergeRun(run)
  {
    var filter: Option<Expr>, paths: seq<PathPattern> := None, [];
    var i := 0;
    while i < |run|
      invariant 0 <= i <= |run|
      invariant paths == AllPaths(run[..i]) && filter == AllPredicates(run[..i])
    {
      assert run[..i + 1][..i] == run[..i];
      paths := paths + run[i].paths;
      var newFilter := run[i].filter;
      if newFilter.Some? {
        if filter.None? { filter := newFilter; }
        else { filter := Some(And(filter.value, newFilter.value)); }
      }
      i := i + 1;
    }
    assert run[..i] == run;
    return Match(false, paths, filter, []);
  }

  method ReplaceDelete(run: seq<Clause>) returns (c: Clause)
    requires IsRun(run) && run[0].Delete?
    ensures c == MergeRun(run)
  {
    var exps: seq<Expr>, identifiers: set<string> := [], {};
    var i := 0;
    while i < |run|
      invariant 0 <= i <= |run|
      invariant exps == Distinct(AllExps(run[..i]), {}) && identifiers == Names(AllExps(run[..i]))
    {
      exps, identifiers := CollectDeleted(AllExps(run[..i]), exps, identifiers, run[i].exps);
      assert run[..i + 1][..i] == run[..i];
      i := i + 1;
    }
    assert run[..i] == run;
    return Delete(exps, false);
  }

  method CollectDeleted(ghost before: seq<Expr>, exps0: seq<Expr>, identifiers0: set<string>, more: seq<Expr>)
    returns (exps: seq<Expr>, identifiers: set<string>)
    requires exps0 == Distinct(before, {}) && identifiers0 == Names(before)
    ensures exps == Distinct(before + more, {}) && identifiers == Names(before + more)
  {
    hide Distinct, Names;
    exps, identifiers := exps0, identifiers0;
    var j := 0;
    assert before + more[..0] == before;
    while j < |more|
      invariant 0 <= j <= |more|
      invariant exps == Distinct(before + more[..j], {}) && identifiers == Names(before + more[..j])
    {
      var e := more[j];
      assert before + more[..j + 1] == (before + more[..j]) + [e];
      DistinctAppend(before + more[..j], e);
      if e.Identifier? {
        if e.name !in identifiers {
          identifiers := identifiers + {e.name};
          exps := exps + [e];
        }
      } else {
        exps := exps + [e];
      }
      j := j + 1;
    }
    assert before + more[..j] == before + more;
  }

  lemma DistinctAppend(exps: seq<Expr>, e: Expr)
    ensures Names(exps + [e]) == Names(exps) + if e.Identifier? then {e.name} else {}
    ensures Distinct(exps + [e], {}) ==
      Distinct(exps, {}) + if e.Identifier? && e.name in Names(exps) then [] else [e]
  {
    assert (exps + [e])[..|exps|] == exps;
    NamesAppend(exps, e);
    assert {} + Names(exps) == Names(exps);
  }

  lemma NamesAppend(exps: seq<Expr>, e: Expr)
    ensures Names(exps + [e]) == Names(exps) + if e.Identifier? then {e.name} else {}
  {
    assert forall x :: x in exps + [e] <==> x in exps || x == e;
  }

  /** Merges clauses that only list paths or items. */
  method ReplaceList(run: seq<Clause>) returns (c: Clause)
    requires IsRun(run) && (run[0].Create? || run[0].Set? || run[0].Remove?)
    ensures c == MergeRun(run)
  {
    var paths: seq<PathPattern>, items: seq<string> := [], [];
    var i := 0;
    while i < |run|
      invariant 0 <= i <= |run|
      invariant paths == AllPaths(run[..i]) && items == AllItems(run[..i])
    {
      assert run[..i + 1][..i] == run[..i];
      paths, items := paths + PathsOf(run[i]), items + ItemsOf(run[i]);
      i := i + 1;
    }
    assert run[..i] == run;
    return if run[0].Create? then Create(paths, false) else if run[0].Set? then Set(items) else Remove(items);
  }

  method MergeClauses(run: seq<Clause>) returns (c: Clause)
    requires IsRun(run)
    ensures c == Merged(run)
  {
    if |run| == 1 { c := run[0]; }
    else if run[0].Match? { c := ReplaceMatch(run); }
    else if run[0].Delete? { c := ReplaceDelete(run); }
    else { c := ReplaceList(run); }
  }

  // ---------------------------------------------------------------------------
  // Compressing a clause list
  // ---------------------------------------------------------------------------

  /** Length of the run at the beginning of a list. */
  function RunLength(cs: seq<Clause>): (n: nat)
    requires cs != [] && IsCompressible(cs[0])
    ensures 1 <= n <= |cs| && IsRun(cs[..n])
    ensures n < |cs| ==> !(SameType(cs[0], cs[n]) && IsCompressible(cs[n]))
  {
    RunFrom(cs, 1)
  }

  function RunFrom(cs: seq<Clause>, k: nat): (n: nat)
    requires 1 <= k <= |cs| && IsRun(cs[..k])
    ensures k <= n <= |cs| && IsRun(cs[..n])
    ensures n < |cs| ==> !(SameType(cs[0], cs[n]) && IsCompressible(cs[n]))
    decreases |cs| - k
  {
    if k < |cs| && SameType(cs[0], cs[k]) && IsCompressible(cs[k]) then
      assert cs[..k + 1] == cs[..k] + [cs[k]];
      RunFrom(cs, k + 1)
    else k
  }

  /** A clause that is not merged, with the clauses inside it compressed. */
  function Inside(c: Clause): Clause
    decreases c
  {
    match c
    case Foreach(h, body) => Foreach(h, Compress(body))
    case CallSubquery(body) => CallSubquery(Compress(body))
    case _ => c
  }

  function Merged(run: seq<Clause>): Clause
    requires IsRun(run)
  {
    if |run| == 1 then run[0] else MergeRun(run)
  }

  function Compress(cs: seq<Clause>): (r: seq<Clause>)
    ensures cs != [] ==> r != []
    decreases cs
  {
    if cs == [] then []
    else if IsCompressible(cs[0]) then
      var n := RunLength(cs);
      [Merged(cs[..n])] + Compress(cs[n..])
    else
      [Inside(cs[0])] + Compress(cs[1..])
  }

  /** The clause that stands for the first `n` clauses of the list. */
  method CompressFirst(cs: seq<Clause>) returns (c: Clause, n: nat, rewritten: bool)
    requires cs != []
    ensures 1 <= n <= |cs| && Compress(cs) == [c] + Compress(cs[n..])
    ensures rewritten == (n > 1 || c != cs[0])
    decreases cs, 0
  {
    c, n, rewritten := cs[0], 1, false;
    if IsCompressible(c) {
      n := RunLength(cs);
      c := MergeClauses(cs[..n]);
      rewritten := n > 1;
    } else if c.Foreach? || c.CallSubquery? {
      var body;
      body, rewritten := CompressClauses(c.body);
      c := if c.Foreach? then Foreach(c.header, body) else CallSubquery(body);
    }
  }

  predicate Unchanged(done: seq<Clause>, cs: seq<Clause>, taken: nat) {
    taken <= |cs| && done == cs[..taken]
  }

  /** One step of the loop below: `done` stands for the first `taken` clauses, `c` for the next `n`. */
  lemma CompressStep(cs: seq<Clause>, done: seq<Clause>, taken: nat, c: Clause, n: nat)
    requires |done| <= taken < taken + n <= |cs|
    requires Compress(cs[taken..]) == [c] + Compress(cs[taken..][n..])
    ensures done + Compress(cs[taken..]) == (done + [c]) + Compress(cs[taken + n..])
    ensures Unchanged(done + [c], cs, taken + n) == (Unchanged(done, cs, taken) && n == 1 && c == cs[taken])
  {
    hide Compress;
    assert cs[taken..][n..] == cs[taken + n..];
    assert n == 1 ==> cs[..taken + n] == cs[..taken] + [cs[taken]];
    if done + [c] == cs[..taken + n] {
      assert n == 1;
      assert (done + [c])[..taken] == done && (done + [c])[taken] == c;
    }
  }

  /** The index loop over the clauses, replacing runs as it goes. */
  method CompressClauses(cs: seq<Clause>) returns (clauses: seq<Clause>, rewritten: bool)
    ensures clauses == Compress(cs)
    ensures rewritten == (clauses != cs)
    decreases cs, 1
  {
    clauses, rewritten := cs, false;
    var i := 0;
    ghost var taken := 0;  // clauses of the original list handled so far
    Outset(cs);
    hide Compress, Unchanged;
    while i < |clauses|
      invariant 0 <= i <= |clauses| && i <= taken <= |cs|
      invariant clauses[i..] == cs[taken..]
      invariant clauses[..i] + Compress(cs[taken..]) == Compress(cs)
      invariant rewritten == !Unchanged(clauses[..i], cs, taken)
      decreases |clauses| - i
    {
      ghost var before, rest := clauses, cs[taken..];
      var c, n, changed := CompressFirst(clauses[i..]);
      CompressStep(cs, before[..i], taken, c, n);
      rewritten := rewritten || changed;
      clauses := clauses[..i] + [c] + clauses[i + n..];
      assert clauses[..i + 1] == before[..i] + [c];
      assert clauses[i + 1..] == before[i..][n..];
      assert rest[n..] == cs[taken + n..];
      i, taken := i + 1, taken + n;
    }
    assert cs[taken..] == [] && clauses[..i] == clauses;
  }

  lemma Outset(cs: seq<Clause>)
    ensures Compress([]) == [] && cs[..0] + Compress(cs[0..]) == Compress(cs)
    ensures Unchanged(cs[..0], cs, 0) && Unchanged(Compress(cs), cs, |cs|) == (Compress(cs) == cs)
  {
    assert cs[0..] == cs && cs[..|cs|] == cs;
  }
}
