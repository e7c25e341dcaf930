/** What clause compression keeps: the payload of every clause, the verdicts of the
    query validations and the rows matched. */
module SameClausesLaws {
  import opened Options
  import opened SameClauses

  // ---------------------------------------------------------------------------
  // Nothing is left to compress
  // ---------------------------------------------------------------------------

  predicate Mergeable(a: Clause, b: Clause) {
    IsCompressible(a) && IsCompressible(b) && SameType(a, b)
  }

  /** No two neighbours could be merged, at any depth. */
  predicate Compressed(cs: seq<Clause>)
    decreases cs
  {
    cs == [] ||
    (&& (|cs| > 1 ==> !Mergeable(cs[0], cs[1]))
     && (cs[0].Foreach? || cs[0].CallSubquery? ==> Compressed(cs[0].body))
     && Compressed(cs[1..]))
  }

  lemma MergedMergesAlike(run: seq<Clause>, c: Clause)
    requires IsRun(run)
    ensures IsCompressible(Merged(run)) && SameType(run[0], Merged(run))
    ensures Mergeable(Merged(run), c) == Mergeable(run[0], c)
  {
  }

  /** The first clause of the result could be merged with exactly what the first clause could. */
  lemma HeadMergesAlike(cs: seq<Clause>, c: Clause)
    requires cs != []
    ensures Mergeable(c, Compress(cs)[0]) == Mergeable(c, cs[0])
  {
    if IsCompressible(cs[0]) { MergedMergesAlike(cs[..RunLength(cs)], c); }
  }

  lemma {:induction false} CompressCompresses(cs: seq<Clause>)
    ensures Compressed(Compress(cs))
    decreases cs
  {
    if cs == [] { return; }
    var n := if IsCompressible(cs[0]) then RunLength(cs) else 1;
    CompressCompresses(cs[n..]);
    var r := Compress(cs);
    assert r[1..] == Compress(cs[n..]);
    if IsCompressible(cs[0]) {
      if n < |cs| {
        MergedMergesAlike(cs[..n], r[1]);
        HeadMergesAlike(cs[n..], cs[0]);
      }
    } else if cs[0].Foreach? || cs[0].CallSubquery? {
      CompressCompresses(cs[0].body);
    }
  }

  lemma RunOfCompressed(cs: seq<Clause>)
    requires cs != [] && IsCompressible(cs[0]) && Compressed(cs)
    ensures RunLength(cs) == 1 && Merged(cs[..1]) == cs[0]
  {
    var n := RunLength(cs);
    assert forall i :: 0 <= i < n ==> cs[..n][i] == cs[i];
  }

  lemma {:induction false} CompressedIsKept(cs: seq<Clause>)
    requires Compressed(cs)
    ensures Compress(cs) == cs
    decreases cs
  {
    if cs == [] { return; }
    CompressedIsKept(cs[1..]);
    if IsCompressible(cs[0]) {
      RunOfCompressed(cs);
    } else if cs[0].Foreach? || cs[0].CallSubquery? {
      CompressedIsKept(cs[0].body);
    }
    hide Compressed;
    assert [cs[0]] + cs[1..] == cs;
  }

  lemma CompressIdempotent(cs: seq<Clause>)
    ensures Compress(Compress(cs)) == Compress(cs)
  {
    CompressCompresses(cs);
    CompressedIsKept(Compress(cs));
  }

  // ---------------------------------------------------------------------------
  // Clause order
  // ---------------------------------------------------------------------------

  predicate IsPlain(c: Clause, kind: PlainKind) { c.Plain? && c.kind == kind }

  predicate Updating(c: Clause) {
    c.Create? || IsPlain(c, Merge) || c.Delete? || c.Set? || c.Remove? || c.Foreach?
  }

  predicate Resets(c: Clause) { IsPlain(c, With) || IsPlain(c, Union) }

  /** Whether a clause may stand after an OPTIONAL MATCH or an updating clause of its scope. */
  predicate MayFollow(c: Clause, optional: bool, updating: bool) {
    && !(updating && (c.Match? || IsPlain(c, Unwind) || IsPlain(c, Call) || c.CallSubquery?))
    && !(optional && c.Match? && !c.optional)
  }

  function NowOptional(c: Clause, optional: bool): bool {
    !Resets(c) && (optional || (c.Match? && c.optional))
  }

  function NowUpdating(c: Clause, updating: bool): bool {
    !Resets(c) && (updating || Updating(c))
  }

  /** The order verdict, from a state of the scan. */
  predicate OrderValid(cs: seq<Clause>, optional: bool, updating: bool)
    decreases cs
  {
    cs == [] ||
    (&& MayFollow(cs[0], optional, updating)
     && (cs[0].CallSubquery? ==> OrderValid(cs[0].body, false, false))
     && OrderValid(cs[1..], NowOptional(cs[0], optional), NowUpdating(cs[0], updating)))
  }

  method ValidateClauseOrder(cs: seq<Clause>) returns (valid: bool)
    ensures valid == OrderValid(cs, false, false)
    decreases cs
  {
    var optional, updating := false, false;
    var i := 0;
    assert cs[0..] == cs;
    while i < |cs|
      invariant 0 <= i <= |cs|
      invariant OrderValid(cs, false, false) == OrderValid(cs[i..], optional, updating)
    {
      var c := cs[i];
      assert cs[i..][0] == c && cs[i..][1..] == cs[i + 1..];
      if updating && (c.Match? || IsPlain(c, Unwind) || IsPlain(c, Call) || c.CallSubquery?) { return false; }
      if IsPlain(c, Union) {
        optional, updating := false, false;
      } else {
        updating := updating || Updating(c);
        if c.Match? {
          if !c.optional && optional { return false; }
          optional := optional || c.optional;
        }
        if IsPlain(c, With) { optional, updating := false, false; }
        if c.CallSubquery? {
          var inner := ValidateClauseOrder(c.body);
          if !inner { return false; }
        }
      }
      i := i + 1;
    }
    return true;
  }

  /** Of two mergeable neighbours one is enough. */
  lemma OrderOfPair(a: Clause, b: Clause, rest: seq<Clause>, optional: bool, updating: bool)
    requires Mergeable(a, b)
    ensures OrderValid([a] + rest, optional, updating) == OrderValid([b] + rest, optional, updating)
    ensures OrderValid([a, b] + rest, optional, updating) == OrderValid([b] + rest, optional, updating)
  {
    assert ([a] + rest)[1..] == rest && ([b] + rest)[1..] == rest;
    assert ([a, b] + rest)[1..] == [b] + rest;
  }

  lemma {:induction false} OrderOfRun(run: seq<Clause>, c: Clause, rest: seq<Clause>, optional: bool, updating: bool)
    requires IsRun(run) && Mergeable(run[0], c)
    ensures OrderValid(run + rest, optional, updating) == OrderValid([c] + rest, optional, updating)
  {
    if |run| == 1 {
      assert run == [run[0]];
      OrderOfPair(run[0], c, rest, optional, updating);
    } else {
      assert run + rest == [run[0], run[1]] + (run[2..] + rest);
      assert run[1..] + rest == [run[1]] + (run[2..] + rest);
      OrderOfPair(run[0], run[1], run[2..] + rest, optional, updating);
      OrderOfRun(run[1..], c, rest, optional, updating);
    }
  }

  lemma OrderStep(c: Clause, c': Clause, a: seq<Clause>, b: seq<Clause>, optional: bool, updating: bool)
    requires Mergeable(c, c') || c' == Inside(c)
    requires c.CallSubquery? ==> OrderValid(Compress(c.body), false, false) == OrderValid(c.body, false, false)
    requires OrderValid(a, NowOptional(c, optional), NowUpdating(c, updating))
          == OrderValid(b, NowOptional(c, optional), NowUpdating(c, updating))
    ensures OrderValid([c] + a, optional, updating) == OrderValid([c'] + b, optional, updating)
  {
    hide Compress;
    assert ([c] + a)[1..] == a && ([c'] + b)[1..] == b;
  }

  /** Compression does not change what the order validation says. */
  lemma {:induction false} OrderVerdictKept(cs: seq<Clause>, optional: bool, updating: bool)
    ensures OrderValid(Compress(cs), optional, updating) == OrderValid(cs, optional, updating)
    decreases cs
  {
    if cs == [] { return; }
    hide OrderValid;
    if IsCompressible(cs[0]) {
      var n := RunLength(cs);
      var c := Merged(cs[..n]);
      MergedMergesAlike(cs[..n], c);
      OrderOfRun(cs[..n], c, cs[n..], optional, updating);
      assert cs == cs[..n] + cs[n..];
      OrderVerdictKept(cs[n..], NowOptional(c, optional), NowUpdating(c, updating));
      OrderStep(c, c, cs[n..], Compress(cs[n..]), optional, updating);
    } else {
      var c := cs[0];
      if c.CallSubquery? { OrderVerdictKept(c.body, false, false); }
      assert cs == [c] + cs[1..];
      OrderVerdictKept(cs[1..], NowOptional(c, optional), NowUpdating(c, updating));
      OrderStep(c, Inside(c), cs[1..], Compress(cs[1..]), optional, updating);
    }
  }

  // ---------------------------------------------------------------------------
  // Termination
  // ---------------------------------------------------------------------------

  predicate Returning(cs: seq<Clause>) { cs != [] && IsPlain(cs[|cs| - 1], Return) }

  predicate MayEnd(c: Clause) {
    && (Updating(c) || IsPlain(c, Return) || IsPlain(c, Call) || c.CallSubquery?)
    && (c.CallSubquery? ==> !Returning(c.body))
  }

  /** Only UNION follows RETURN, and every subquery terminates properly. */
  predicate ReturnsValid(cs: seq<Clause>, lastWasReturn: bool)
    decreases cs, 0
  {
    cs == [] ||
    (&& !(lastWasReturn && !IsPlain(cs[0], Union))
     && (cs[0].CallSubquery? ==> TerminationValid(cs[0].body))
     && ReturnsValid(cs[1..], IsPlain(cs[0], Return)))
  }

  predicate TerminationValid(cs: seq<Clause>)
    decreases cs, 1
  {
    cs != [] && MayEnd(cs[|cs| - 1]) && ReturnsValid(cs, false)
  }

  method ValidateQueryTermination(cs: seq<Clause>) returns (valid: bool)
    ensures valid == TerminationValid(cs)
    decreases cs
  {
    if cs == [] || !MayEnd(cs[|cs| - 1]) { return false; }
    var lastWasReturn := false;
    var i := 0;
    assert cs[0..] == cs;
    while i < |cs|
      invariant 0 <= i <= |cs|
      invariant ReturnsValid(cs, false) == ReturnsValid(cs[i..], lastWasReturn)
    {
      var c := cs[i];
      assert cs[i..][0] == c && cs[i..][1..] == cs[i + 1..];
      if !IsPlain(c, Union) && lastWasReturn { return false; }
      if IsPlain(c, Return) {
        lastWasReturn := true;
      } else {
        if c.CallSubquery? {
          var inner := ValidateQueryTermination(c.body);
          if !inner { return false; }
        }
        lastWasReturn := false;
      }
      i := i + 1;
    }
    return true;
  }

  lemma {:induction false} LastKept(cs: seq<Clause>)
    requires cs != []
    ensures var a, b := cs[|cs| - 1], Compress(cs)[|Compress(cs)| - 1]; Mergeable(a, b) || b == Inside(a)
    decreases |cs|
  {
    var n := if IsCompressible(cs[0]) then RunLength(cs) else 1;
    if n == |cs| {
      assert cs[n..] == [];
      if IsCompressible(cs[0]) {
        MergedMergesAlike(cs[..n], cs[..n][n - 1]);
      }
    } else {
      LastKept(cs[n..]);
      assert Compress(cs)[1..] == Compress(cs[n..]);
      assert cs[n..][|cs[n..]| - 1] == cs[|cs| - 1];
    }
  }

  lemma ReturningKept(cs: seq<Clause>)
    ensures Returning(Compress(cs)) == Returning(cs)
  {
    if cs != [] {
      LastKept(cs);
    }
  }

  lemma EndKept(cs: seq<Clause>)
    requires cs != []
    ensures MayEnd(Compress(cs)[|Compress(cs)| - 1]) == MayEnd(cs[|cs| - 1])
  {
    hide Compress, Returning;
    LastKept(cs);
    var a := cs[|cs| - 1];
    if a.CallSubquery? { ReturningKept(a.body); }
  }

  lemma {:induction false} ReturnsOfRun(run: seq<Clause>, c: Clause, rest: seq<Clause>, lastWasReturn: bool)
    requires IsRun(run) && Mergeable(run[0], c)
    ensures ReturnsValid(run + rest, lastWasReturn) == ReturnsValid([c] + rest, lastWasReturn)
  {
    assert ([c] + rest)[1..] == rest;
    assert (run + rest)[1..] == run[1..] + rest;
    if |run| == 1 {
      assert run[1..] + rest == rest;
    } else {
      ReturnsOfRun(run[1..], c, rest, false);
    }
  }

  lemma {:induction false} ReturnsVerdictKept(cs: seq<Clause>, lastWasReturn: bool)
    ensures ReturnsValid(Compress(cs), lastWasReturn) == ReturnsValid(cs, lastWasReturn)
    decreases cs, 0
  {
    if cs == [] { return; }
    var r := Compress(cs);
    if IsCompressible(cs[0]) {
      var n := RunLength(cs);
      var c := Merged(cs[..n]);
      MergedMergesAlike(cs[..n], c);
      ReturnsOfRun(cs[..n], c, cs[n..], lastWasReturn);
      assert cs == cs[..n] + cs[n..];
      assert ([c] + cs[n..])[1..] == cs[n..] && r[1..] == Compress(cs[n..]);
      ReturnsVerdictKept(cs[n..], false);
    } else {
      if cs[0].CallSubquery? { TerminationVerdictKept(cs[0].body); }
      assert r[1..] == Compress(cs[1..]);
      ReturnsVerdictKept(cs[1..], IsPlain(cs[0], Return));
    }
  }

  /** Compression does not change what the termination validation says. */
  lemma {:induction false} TerminationVerdictKept(cs: seq<Clause>)
    ensures TerminationValid(Compress(cs)) == TerminationValid(cs)
    decreases cs, 1
  {
    if cs == [] { return; }
    EndKept(cs);
    ReturnsVerdictKept(cs, false);
  }

  // ---------------------------------------------------------------------------
  // Payload
  // ---------------------------------------------------------------------------

  datatype Token =
    | PathToken(create: bool, path: PathPattern)
    | FilterToken(exp: Expr)
    | SetToken(item: string)
    | RemoveToken(item: string)
    | DeleteToken(exp: Expr)
    | NestedToken(header: Option<string>, inner: seq<Token>)
    | OtherToken(clause: Clause)

  function Conjuncts(e: Expr): seq<Expr> {
    match e
    case And(l, r) => Conjuncts(l) + Conjuncts(r)
    case _ => [e]
  }

  function FilterConjuncts(filter: Option<Expr>): seq<Expr> {
    if filter.None? then [] else Conjuncts(filter.value)
  }

  function Tag<A, B>(f: A -> B, s: seq<A>): (r: seq<B>)
  {
    seq(|s|, i requires 0 <= i < |s| => f(s[i]))
  }

  lemma TagConcat<A, B>(f: A -> B, s: seq<A>, t: seq<A>)
    ensures Tag(f, s + t) == Tag(f, s) + Tag(f, t)
  {
  }

  /** What a clause carries, in order. Of a MATCH that may be merged, the conjuncts of its
      filter when `filters` is set and its paths otherwise. */
  function Tokens(c: Clause, filters: bool): seq<Token>
    decreases c
  {
    match c
    case Match(false, paths, filter, _) =>
      if filters then Tag(e => FilterToken(e), FilterConjuncts(filter)) else Tag(p => PathToken(false, p), paths)
    case Create(paths, _) => Tag(p => PathToken(true, p), paths)
    case Delete(exps, _) => Tag(e => DeleteToken(e), exps)
    case Set(items) => Tag(i => SetToken(i), items)
    case Remove(items) => Tag(i => RemoveToken(i), items)
    case Foreach(h, body) => [NestedToken(Some(h), Settle(Stream(body, filters), {}))]
    case CallSubquery(body) => [NestedToken(None, Settle(Stream(body, filters), {}))]
    case _ => [OtherToken(c)]
  }

  function Stream(cs: seq<Clause>, filters: bool): seq<Token>
    decreases cs
  {
    if cs == [] then [] else Tokens(cs[0], filters) + Stream(cs[1..], filters)
  }

  /** What is left of a token once `seen` were deleted. */
  function Emit(t: Token, seen: set<string>): seq<Token> {
    if t.DeleteToken? && t.exp.Identifier? && t.exp.name in seen then [] else [t]
  }

  function SeenNext(t: Token, seen: set<string>): set<string> {
    if !t.DeleteToken? then {} else if t.exp.Identifier? then seen + {t.exp.name} else seen
  }

  /** A stream without the identifiers deleted twice in a row of deletions. */
  function Settle(tokens: seq<Token>, seen: set<string>): seq<Token> {
    if tokens == [] then [] else Emit(tokens[0], seen) + Settle(tokens[1..], SeenNext(tokens[0], seen))
  }

  function SeenAfter(tokens: seq<Token>, seen: set<string>): set<string> {
    if tokens == [] then seen else SeenAfter(tokens[1..], SeenNext(tokens[0], seen))
  }

  lemma {:induction false} SettleConcat(a: seq<Token>, b: seq<Token>, seen: set<string>)
    ensures Settle(a + b, seen) == Settle(a, seen) + Settle(b, SeenAfter(a, seen))
    ensures SeenAfter(a + b, seen) == SeenAfter(b, SeenAfter(a, seen))
  {
    hide Emit, SeenNext;
    if a == [] {
      assert a + b == b;
    } else {
      assert (a + b)[1..] == a[1..] + b;
      SettleConcat(a[1..], b, SeenNext(a[0], seen));
    }
  }

  lemma {:induction false} StreamConcat(a: seq<Clause>, b: seq<Clause>, filters: bool)
    ensures Stream(a + b, filters) == Stream(a, filters) + Stream(b, filters)
  {
    if a == [] {
      assert a + b == b;
    } else {
      assert (a + b)[1..] == a[1..] + b;
      StreamConcat(a[1..], b, filters);
    }
  }

  /** Repeated identifiers of deletions are what Distinct drops. */
  lemma {:induction false} SettleDeletions(exps: seq<Expr>, seen: set<string>)
    ensures Settle(Tag(e => DeleteToken(e), exps), seen) == Tag(e => DeleteToken(e), Distinct(exps, seen))
    ensures SeenAfter(Tag(e => DeleteToken(e), exps), seen) == seen + Names(exps)
  {
    var tag := e => DeleteToken(e);
    if exps == [] { return; }
    var k := |exps| - 1;
    var f, e := exps[..k], exps[k];
    assert exps == f + [e];
    SettleDeletions(f, seen);
    TagConcat(tag, f, [e]);
    SettleConcat(Tag(tag, f), Tag(tag, [e]), seen);
    NamesAppend(f, e);
    TagConcat(tag, Distinct(f, seen), [e]);
    assert Tag(tag, [e]) == [tag(e)] && [tag(e)][1..] == [];
  }

  lemma {:induction false} DistinctTwice(exps: seq<Expr>, seen: set<string>)
    ensures Distinct(Distinct(exps, {}), seen) == Distinct(exps, seen)
    ensures Names(Distinct(exps, {})) == Names(exps)
  {
    if exps == [] { return; }
    var k := |exps| - 1;
    var f, e := exps[..k], exps[k];
    assert exps == f + [e];
    DistinctTwice(f, seen);
    NamesAppend(f, e);
    assert {} + Names(f) == Names(f);
    if e.Identifier? && e.name in Names(f) {
      assert Names(exps) == Names(f);
    } else {
      var d := Distinct(f, {});
      NamesAppend(d, e);
      assert (d + [e])[..|d|] == d;
    }
  }

  lemma {:induction false} ConjunctsOfRun(run: seq<Clause>, c: Clause)
    ensures FilterConjuncts(AllPredicates(run + [c])) ==
      FilterConjuncts(AllPredicates(run)) + FilterConjuncts(PredicateOf(c))
  {
    assert (run + [c])[..|run|] == run;
  }

  lemma RunOfOne(c: Clause)
    ensures AllPaths([c]) == PathsOf(c) && AllExps([c]) == ExpsOf(c) && AllItems([c]) == ItemsOf(c)
    ensures AllPredicates([c]) == PredicateOf(c)
  {
    assert [c][..0] == [];
  }

  lemma RunAppend(f: seq<Clause>, c: Clause)
    ensures AllPaths(f + [c]) == AllPaths(f) + PathsOf(c)
    ensures AllExps(f + [c]) == AllExps(f) + ExpsOf(c)
    ensures AllItems(f + [c]) == AllItems(f) + ItemsOf(c)
  {
    assert (f + [c])[..|f|] == f;
  }

  /** The tokens of a merged run, before repeated identifiers are dropped. */
  lemma {:induction false} StreamOfRun(run: seq<Clause>, filters: bool)
    requires IsRun(run)
    ensures Stream(run, filters) == match run[0]
      case Match(_, _, _, _) =>
        if filters then Tag(e => FilterToken(e), FilterConjuncts(AllPredicates(run)))
        else Tag(p => PathToken(false, p), AllPaths(run))
      case Create(_, _) => Tag(p => PathToken(true, p), AllPaths(run))
      case Delete(_, _) => Tag(e => DeleteToken(e), AllExps(run))
      case Set(_) => Tag(i => SetToken(i), AllItems(run))
      case _ => Tag(i => RemoveToken(i), AllItems(run))
  {
    hide Settle, Conjuncts, Tag, AllPaths, AllExps, AllItems, AllPredicates, FilterConjuncts;
    var k := |run| - 1;
    var f, c := run[..k], run[k];
    assert run == f + [c];
    StreamConcat(f, [c], filters);
    assert [c][1..] == [];
    assert Stream([c], filters) == Tokens(c, filters) + [];
    ConjunctsOfRun(f, c);
    RunAppend(f, c);
    if k == 0 {
      assert run == [c];
      RunOfOne(c);
    } else {
      StreamOfRun(f, filters);
      match c
      case Match(_, _, _, _) =>
        TagConcat(e => FilterToken(e), FilterConjuncts(AllPredicates(f)), FilterConjuncts(PredicateOf(c)));
        TagConcat(p => PathToken(false, p), AllPaths(f), PathsOf(c));
      case Create(_, _) => TagConcat(p => PathToken(true, p), AllPaths(f), PathsOf(c));
      case Delete(_, _) => TagConcat(e => DeleteToken(e), AllExps(f), ExpsOf(c));
      case Set(_) => TagConcat(i => SetToken(i), AllItems(f), ItemsOf(c));
      case _ => TagConcat(i => RemoveToken(i), AllItems(f), ItemsOf(c));
    }
  }

  lemma MergedPayload(run: seq<Clause>, filters: bool, seen: set<string>)
    requires IsRun(run)
    ensures Settle(Tokens(Merged(run), filters), seen) == Settle(Stream(run, filters), seen)
    ensures SeenAfter(Tokens(Merged(run), filters), seen) == SeenAfter(Stream(run, filters), seen)
  {
    if |run| == 1 {
      assert run[1..] == [];
      assert Stream(run, filters) == Tokens(run[0], filters) + [] == Tokens(run[0], filters);
      return;
    }
    StreamOfRun(run, filters);
    if run[0].Delete? {
      SettleDeletions(AllExps(run), seen);
      SettleDeletions(Distinct(AllExps(run), {}), seen);
      DistinctTwice(AllExps(run), seen);
    }
  }

  /** Every clause keeps its payload in order: paths, items, filters and deleted
      expressions, the latter up to identifiers deleted again. */
  lemma {:induction false} PayloadKept(cs: seq<Clause>, filters: bool, seen: set<string>)
    ensures Settle(Stream(Compress(cs), filters), seen) == Settle(Stream(cs, filters), seen)
    decreases cs
  {
    if cs == [] { return; }
    var r := Compress(cs);
    var n := if IsCompressible(cs[0]) then RunLength(cs) else 1;
    assert r[1..] == Compress(cs[n..]);
    assert cs == cs[..n] + cs[n..];
    StreamConcat(cs[..n], cs[n..], filters);
    var a, b := Tokens(r[0], filters), Stream(cs[..n], filters);
    if IsCompressible(cs[0]) {
      MergedPayload(cs[..n], filters, seen);
    } else {
      assert cs[..n] == [cs[0]] && [cs[0]][1..] == [];
      assert b == Tokens(cs[0], filters) + [];
      if cs[0].Foreach? || cs[0].CallSubquery? { PayloadKept(cs[0].body, filters, {}); }
    }
    SettleConcat(a, Stream(r[1..], filters), seen);
    SettleConcat(b, Stream(cs[n..], filters), seen);
    PayloadKept(cs[n..], filters, SeenAfter(a, seen));
  }

  // ---------------------------------------------------------------------------
  // Flags
  // ---------------------------------------------------------------------------

  datatype Flag = Hint(text: string) | UniqueFlag | DetachFlag

  /** What qualifies a clause as a whole: hints of MATCH, UNIQUE of CREATE, DETACH of DELETE. */
  function FlagsOf(c: Clause): seq<Flag>
    decreases c
  {
    match c
    case Match(false, _, _, hints) => Tag(h => Hint(h), hints)
    case Create(_, unique) => if unique then [UniqueFlag] else []
    case Delete(_, detach) => if detach then [DetachFlag] else []
    case Foreach(_, body) => AllFlags(body)
    case CallSubquery(body) => AllFlags(body)
    case _ => []
  }

  function AllFlags(cs: seq<Clause>): seq<Flag>
    decreases cs
  {
    if cs == [] then [] else FlagsOf(cs[0]) + AllFlags(cs[1..])
  }

  /** No qualified clause stands beside one it is merged with, at any depth. */
  predicate FlagsSafe(cs: seq<Clause>)
    decreases cs
  {
    cs == [] ||
    (&& (|cs| > 1 && Mergeable(cs[0], cs[1]) ==> FlagsOf(cs[0]) == [] && FlagsOf(cs[1]) == [])
     && (cs[0].Foreach? || cs[0].CallSubquery? ==> FlagsSafe(cs[0].body))
     && FlagsSafe(cs[1..]))
  }

  lemma {:induction false} FlagsConcat(a: seq<Clause>, b: seq<Clause>)
    ensures AllFlags(a + b) == AllFlags(a) + AllFlags(b)
  {
    if a == [] {
      assert a + b == b;
    } else {
      assert (a + b)[1..] == a[1..] + b;
      FlagsConcat(a[1..], b);
    }
  }

  /** A run of several clauses must carry no flags. */
  lemma {:induction false} SafeRun(run: seq<Clause>, rest: seq<Clause>)
    requires IsRun(run) && (rest != [] ==> !Mergeable(run[0], rest[0]))
    ensures FlagsSafe(run + rest) <==> (|run| == 1 || AllFlags(run) == []) && FlagsSafe(rest)
  {
    var cs := run + rest;
    assert cs[1..] == run[1..] + rest;
    if |run| == 1 {
      assert run[1..] + rest == rest;
    } else {
      var f := run[1..];
      SafeRun(f, rest);
      assert f[1..] == [] || |f| > 1;
      assert |f| == 1 ==> AllFlags(f) == FlagsOf(f[0]) + [];
      assert AllFlags(f) == FlagsOf(f[0]) + AllFlags(f[1..]);
      assert cs[1] == f[0] && Mergeable(cs[0], cs[1]);
    }
  }

  lemma PartsAgree<T>(x: seq<T>, t: seq<T>, y: seq<T>, u: seq<T>)
    requires |x| <= |y| && |t| <= |u|
    ensures x + t == y + u <==> x == y && t == u
  {
    if x + t == y + u {
      assert |x| == |y|;
      assert x == (x + t)[..|x|] && y == (y + u)[..|x|];
      assert t == (x + t)[|x|..] && u == (y + u)[|x|..];
    }
  }

  lemma FlagsStep(c: Clause, run: seq<Clause>, rest: seq<Clause>, rest': seq<Clause>)
    requires |FlagsOf(c)| <= |AllFlags(run)| && |AllFlags(rest')| <= |AllFlags(rest)|
    ensures |AllFlags([c] + rest')| <= |AllFlags(run + rest)|
    ensures AllFlags([c] + rest') == AllFlags(run + rest) <==>
      FlagsOf(c) == AllFlags(run) && AllFlags(rest') == AllFlags(rest)
  {
    FlagsConcat(run, rest);
    assert ([c] + rest')[1..] == rest';
    assert AllFlags([c] + rest') == FlagsOf(c) + AllFlags(rest');
    hide AllFlags, FlagsOf;
    PartsAgree(FlagsOf(c), AllFlags(rest'), AllFlags(run), AllFlags(rest));
  }

  lemma FlagsOfOne(c: Clause)
    ensures AllFlags([c]) == FlagsOf(c)
  {
    assert [c][1..] == [];
  }

  /** Compression keeps all flags exactly when no flagged clause is merged. */
  lemma {:induction false} FlagsKept(cs: seq<Clause>)
    ensures |AllFlags(Compress(cs))| <= |AllFlags(cs)|
    ensures AllFlags(Compress(cs)) == AllFlags(cs) <==> FlagsSafe(cs)
    decreases cs
  {
    if cs == [] { return; }
    FlagsOfOne(cs[0]);
    if IsCompressible(cs[0]) {
      var n := RunLength(cs);
      var run, rest := cs[..n], cs[n..];
      assert cs == run + rest;
      FlagsKept(rest);
      SafeRun(run, rest);
      assert n == 1 ==> run == [cs[0]];
      assert n > 1 ==> FlagsOf(Merged(run)) == [];
      hide AllFlags, FlagsOf, FlagsSafe, Merged;
      FlagsStep(Merged(run), run, rest, Compress(rest));
    } else {
      var c, rest := cs[0], cs[1..];
      assert cs == [c] + rest;
      FlagsKept(rest);
      if c.Foreach? || c.CallSubquery? { FlagsKept(c.body); }
      assert |FlagsOf(Inside(c))| <= |FlagsOf(c)|;
      hide AllFlags, Inside, Mergeable;
      FlagsStep(Inside(c), [c], rest, Compress(rest));
    }
  }

  /** DETACH DELETE next to DELETE loses its flag, whatever they delete. */
  lemma DetachLost(a: seq<Expr>, b: seq<Expr>)
    ensures var cs := [Delete(a, true), Delete(b, false)]; AllFlags(Compress(cs)) == [] != AllFlags(cs)
  {
    var cs := [Delete(a, true), Delete(b, false)];
    assert Mergeable(cs[0], cs[1]) && FlagsOf(cs[0]) != [];
    assert !FlagsSafe(cs);
    FlagsKept(cs);
    assert |AllFlags(cs)| == 1 by {
      FlagsConcat([cs[0]], [cs[1]]);
      FlagsOfOne(cs[0]);
      FlagsOfOne(cs[1]);
      assert cs == [cs[0]] + [cs[1]];
    }
    hide Compress, FlagsSafe, FlagsOf, AllFlags;
  }

  // ---------------------------------------------------------------------------
  // Rows
  // ---------------------------------------------------------------------------

  type Row<V> = map<string, V>

  /** How patterns and filters work on rows: a path extends a row to rows that bind its
      variables too, and a filter looks at the variables it reads. */
  datatype Semantics<!V> = Semantics(
    binds: PathPattern -> set<string>,
    extend: (PathPattern, Row<V>) -> seq<Row<V>>,
    reads_: Expr -> set<string>,
    holds: (Expr, Row<V>) -> bool)

  predicate Extends<V(==)>(r: Row<V>, r': Row<V>, bound: set<string>) {
    r'.Keys == r.Keys + bound && forall x :: x in r ==> r'[x] == r[x]
  }

  ghost predicate Lawful<V(!new)>(s: Semantics<V>) {
    && (forall p, r, r' :: r' in s.extend(p, r) ==> Extends(r, r', s.binds(p)))
    && (forall a, b :: s.reads_(And(a, b)) == s.reads_(a) + s.reads_(b))
    && (forall a, b, r :: s.holds(And(a, b), r) == (s.holds(a, r) && s.holds(b, r)))
    && (forall e, r, r' :: (forall x :: x in s.reads_(e) ==> x in r && x in r' && r[x] == r'[x]) ==>
          s.holds(e, r) == s.holds(e, r'))
  }

  function ExtendAll<V>(s: Semantics<V>, p: PathPattern, rows: seq<Row<V>>): seq<Row<V>> {
    if rows == [] then [] else s.extend(p, rows[0]) + ExtendAll(s, p, rows[1..])
  }

  function Join<V>(s: Semantics<V>, paths: seq<PathPattern>, rows: seq<Row<V>>): seq<Row<V>> {
    if paths == [] then rows else Join(s, paths[1..], ExtendAll(s, paths[0], rows))
  }

  function Keep<V>(s: Semantics<V>, filter: Option<Expr>, rows: seq<Row<V>>): seq<Row<V>> {
    if filter.None? || rows == [] then rows
    else (if s.holds(filter.value, rows[0]) then [rows[0]] else []) + Keep(s, filter, rows[1..])
  }

  /** A MATCH joins its paths and filters. */
  function Matched<V>(s: Semantics<V>, c: Clause, rows: seq<Row<V>>): seq<Row<V>> {
    Keep(s, PredicateOf(c), Join(s, PathsOf(c), rows))
  }

  function MatchedAll<V>(s: Semantics<V>, run: seq<Clause>, rows: seq<Row<V>>): seq<Row<V>> {
    if run == [] then rows else Matched(s, run[|run| - 1], MatchedAll(s, run[..|run| - 1], rows))
  }

  function Bound<V>(s: Semantics<V>, paths: seq<PathPattern>): set<string> {
    if paths == [] then {} else s.binds(paths[0]) + Bound(s, paths[1..])
  }

  function ReadBy<V>(s: Semantics<V>, filter: Option<Expr>): set<string> {
    if filter.None? then {} else s.reads_(filter.value)
  }

  /** Each filter reads only variables bound by its own or an earlier clause. */
  predicate Scoped<V>(s: Semantics<V>, run: seq<Clause>, bound: set<string>) {
    run == [] ||
    (&& Scoped(s, run[..|run| - 1], bound)
     && ReadBy(s, PredicateOf(run[|run| - 1])) <= bound + Bound(s, AllPaths(run)))
  }

  predicate AllBind<V>(rows: seq<Row<V>>, bound: set<string>) {
    forall i :: 0 <= i < |rows| ==> bound <= rows[i].Keys
  }

  lemma {:induction false} KeepConcat<V>(s: Semantics<V>, w: Option<Expr>, a: seq<Row<V>>, b: seq<Row<V>>)
    ensures Keep(s, w, a + b) == Keep(s, w, a) + Keep(s, w, b)
  {
    if a == [] {
      assert a + b == b;
    } else {
      assert (a + b)[1..] == a[1..] + b;
      KeepConcat(s, w, a[1..], b);
    }
  }

  /** A filter that looks the same on all rows keeps all or none. */
  lemma {:induction false} KeepUniform<V>(s: Semantics<V>, w: Option<Expr>, rows: seq<Row<V>>, v: bool)
    requires w.Some? && forall i :: 0 <= i < |rows| ==> s.holds(w.value, rows[i]) == v
    ensures Keep(s, w, rows) == if v then rows else []
  {
    if rows != [] { KeepUniform(s, w, rows[1..], v); }
  }

  lemma {:induction false} KeepCommutes<V(!new)>(s: Semantics<V>, w: Option<Expr>, p: PathPattern, rows: seq<Row<V>>)
    requires Lawful(s) && AllBind(rows, ReadBy(s, w))
    ensures Keep(s, w, ExtendAll(s, p, rows)) == ExtendAll(s, p, Keep(s, w, rows))
  {
    if w.None? || rows == [] { return; }
    var r, ext := rows[0], s.extend(p, rows[0]);
    forall i | 0 <= i < |ext|
      ensures s.holds(w.value, ext[i]) == s.holds(w.value, r)
    {
      assert ext[i] in ext;
      assert Extends(r, ext[i], s.binds(p));
    }
    KeepUniform(s, w, ext, s.holds(w.value, r));
    KeepConcat(s, w, ext, ExtendAll(s, p, rows[1..]));
    KeepCommutes(s, w, p, rows[1..]);
    var kept := Keep(s, w, rows[1..]);
    assert ([r] + kept)[1..] == kept && [] + kept == kept;
  }

  lemma {:induction false} ExtendBinds<V(!new)>(s: Semantics<V>, p: PathPattern, rows: seq<Row<V>>, bound: set<string>)
    requires Lawful(s) && AllBind(rows, bound)
    ensures AllBind(ExtendAll(s, p, rows), bound + s.binds(p))
  {
    if rows == [] { return; }
    ExtendBinds(s, p, rows[1..], bound);
    var ext := s.extend(p, rows[0]);
    forall i | 0 <= i < |ext|
      ensures bound + s.binds(p) <= ext[i].Keys
    {
      assert ext[i] in ext;
    }
  }

  lemma {:induction false} JoinBinds<V(!new)>(s: Semantics<V>, paths: seq<PathPattern>, rows: seq<Row<V>>,
                                               bound: set<string>)
    requires Lawful(s) && AllBind(rows, bound)
    ensures AllBind(Join(s, paths, rows), bound + Bound(s, paths))
  {
    if paths == [] { return; }
    ExtendBinds(s, paths[0], rows, bound);
    JoinBinds(s, paths[1..], ExtendAll(s, paths[0], rows), bound + s.binds(paths[0]));
    assert bound + s.binds(paths[0]) + Bound(s, paths[1..]) == bound + Bound(s, paths);
  }

  lemma {:induction false} JoinKeeps<V(!new)>(s: Semantics<V>, w: Option<Expr>, paths: seq<PathPattern>,
                                               rows: seq<Row<V>>)
    requires Lawful(s) && AllBind(rows, ReadBy(s, w))
    ensures Keep(s, w, Join(s, paths, rows)) == Join(s, paths, Keep(s, w, rows))
  {
    if paths == [] { return; }
    KeepCommutes(s, w, paths[0], rows);
    ExtendBinds(s, paths[0], rows, ReadBy(s, w));
    JoinKeeps(s, w, paths[1..], ExtendAll(s, paths[0], rows));
  }

  lemma {:induction false} JoinConcat<V>(s: Semantics<V>, p: seq<PathPattern>, q: seq<PathPattern>, rows: seq<Row<V>>)
    ensures Join(s, p + q, rows) == Join(s, q, Join(s, p, rows))
    ensures Bound(s, p + q) == Bound(s, p) + Bound(s, q)
    decreases p
  {
    if p == [] {
      assert p + q == q;
    } else {
      assert (p + q)[1..] == p[1..] + q;
      JoinConcat(s, p[1..], q, ExtendAll(s, p[0], rows));
    }
  }

  lemma {:induction false} KeepBoth<V(!new)>(s: Semantics<V>, p: Option<Expr>, q: Option<Expr>, rows: seq<Row<V>>)
    requires Lawful(s)
    ensures Keep(s, Both(p, q), rows) == Keep(s, q, Keep(s, p, rows))
  {
    if p.None? || q.None? || rows == [] { return; }
    KeepBoth(s, p, q, rows[1..]);
    var kept := Keep(s, p, rows[1..]);
    assert ([rows[0]] + kept)[1..] == kept && [] + kept == kept;
    assert [] + Keep(s, q, kept) == Keep(s, q, kept);
  }

  lemma {:induction false} ScopedReads<V(!new)>(s: Semantics<V>, run: seq<Clause>, bound: set<string>)
    requires Lawful(s) && Scoped(s, run, bound)
    ensures ReadBy(s, AllPredicates(run)) <= bound + Bound(s, AllPaths(run))
  {
    if run == [] { return; }
    var f, c := run[..|run| - 1], run[|run| - 1];
    ScopedReads(s, f, bound);
    JoinConcat(s, AllPaths(f), PathsOf(c), []);
    assert ReadBy(s, Both(AllPredicates(f), PredicateOf(c))) <= ReadBy(s, AllPredicates(f)) + ReadBy(s, PredicateOf(c));
  }

  /** A merged MATCH yields the rows of the run it stands for, in the same order. */
  lemma {:induction false} RowsKept<V(!new)>(s: Semantics<V>, run: seq<Clause>, rows: seq<Row<V>>, bound: set<string>)
    requires Lawful(s) && Scoped(s, run, bound) && AllBind(rows, bound)
    ensures MatchedAll(s, run, rows) == Keep(s, AllPredicates(run), Join(s, AllPaths(run), rows))
  {
    if run == [] { return; }
    var f, c := run[..|run| - 1], run[|run| - 1];
    RowsKept(s, f, rows, bound);
    var joined, w := Join(s, AllPaths(f), rows), AllPredicates(f);
    JoinBinds(s, AllPaths(f), rows, bound);
    ScopedReads(s, f, bound);
    JoinKeeps(s, w, PathsOf(c), joined);
    JoinConcat(s, AllPaths(f), PathsOf(c), rows);
    KeepBoth(s, w, PredicateOf(c), Join(s, PathsOf(c), joined));
  }

  lemma MergedMatchKeepsRows<V(!new)>(s: Semantics<V>, run: seq<Clause>, rows: seq<Row<V>>, bound: set<string>)
    requires Lawful(s) && IsRun(run) && run[0].Match? && Scoped(s, run, bound) && AllBind(rows, bound)
    ensures Matched(s, Merged(run), rows) == MatchedAll(s, run, rows)
  {
    RowsKept(s, run, rows, bound);
    if |run| == 1 {
      assert run == [run[0]];
      RunOfOne(run[0]);
    }
  }
}
