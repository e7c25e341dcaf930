/** Arithmetic expression trees: evaluation, folding of constant subtrees, and
    replacement of variables by the values of a record.

    The source rewrites tree nodes in place; here an operation returns the tree it
    leaves behind. `Eval` says what a tree means and rewrites nothing. */
module ExpressionFolding {
  import opened Options

  datatype SIType = TNull | TBool | TInt | TDouble | TString | TArray | TPtr

  datatype Value =
    | Null
    | Bool(b: bool)
    | Int(i: int)
    | Double(d: real)
    | String(s: string)
    | Array(elements: seq<Value>)
    | Ptr(record: Option<map<string, Option<Value>>>)

  /** The aliases a record knows; an alias whose entry is not set maps to none. */
  type Record = map<string, Option<Value>>

  /** Query parameters, if the query was given any. */
  type Params = Option<map<string, Value>>

  function TypeOf(v: Value): SIType {
    match v
    case Null => TNull
    case Bool(_) => TBool
    case Int(_) => TInt
    case Double(_) => TDouble
    case String(_) => TString
    case Array(_) => TArray
    case Ptr(_) => TPtr
  }

  /** Everything outside the tree that a function may read or change, such as the random
      generator, the clock, or the failures a query has noted. */
  type Session = nat

  /** A null returned together with an error is a failure. */
  datatype Outcome = Ok(v: Value) | Err

  datatype FuncDesc = FuncDesc(name: string, types: seq<set<SIType>>, reducible: bool,
                               func: (seq<Value>, Session) -> (Outcome, Session))

  datatype Exp =
    | Constant(v: Value)
    | Variadic(alias: string)
    | Param(name: string)
    | BorrowRecord
    | Op(f: FuncDesc, children: seq<Exp>)

  /** A function marked reducible neither depends on the session nor changes it. */
  ghost predicate Deterministic(f: FuncDesc) {
    f.reducible ==> forall args, w: Session :: f.func(args, w) == (f.func(args, 0).0, w)
  }

  /** A call that borrows the record is never folded, so its function may do as it likes. */
  ghost predicate WellFormed(e: Exp) {
    e.Op? ==>
      && (Deterministic(e.f) || BorrowRecord in e.children)
      && forall i :: 0 <= i < |e.children| ==> WellFormed(e.children[i])
  }

  /** Borrowed records are kept where they are. */
  ghost predicate KeepsBorrowed(es: seq<Exp>, es': seq<Exp>) {
    |es'| == |es| && forall i :: 0 <= i < |es| && es[i].BorrowRecord? ==> es'[i].BorrowRecord?
  }

  lemma StillBorrowed(es: seq<Exp>, es': seq<Exp>)
    requires KeepsBorrowed(es, es')
    ensures BorrowRecord in es ==> BorrowRecord in es'
  {
    if BorrowRecord in es {
      var i :| 0 <= i < |es| && es[i] == BorrowRecord;
      assert es'[i] == BorrowRecord;
    }
  }

  // ---------------------------------------------------------------------------
  // Meaning
  // ---------------------------------------------------------------------------

  /** The type expected of argument `i`; the last one listed repeats. */
  function Expected(types: seq<set<SIType>>, i: nat): set<SIType> {
    if i < |types| then types[i] else if types == [] then {TNull} else types[|types| - 1]
  }

  predicate Accepts(types: seq<set<SIType>>, args: seq<Value>) {
    forall i :: 0 <= i < |args| ==> TypeOf(args[i]) in Expected(types, i)
  }

  function Lookup(r: Option<Record>, alias: string): Outcome {
    if r.None? || alias !in r.value then Err
    else if r.value[alias].None? then Ok(Null)
    else Ok(r.value[alias].value)
  }

  function Bound(p: Params, name: string): Outcome {
    if p.None? || name !in p.value then Err else Ok(p.value[name])
  }

  datatype ArgsOutcome = Args(vs: seq<Value>) | NoArgs

  /** Value or error of an expression, and the session it leaves. */
  function Eval(e: Exp, r: Option<Record>, p: Params, w: Session): (o: (Outcome, Session))
    decreases e, 1
  {
    match e
    case Constant(v) => (Ok(v), w)
    case Variadic(alias) => (Lookup(r, alias), w)
    case Param(name) => (Bound(p, name), w)
    case BorrowRecord => (Ok(Ptr(r)), w)
    case Op(f, children) =>
      var (args, w') := EvalArgs(children, r, p, w);
      Call(f, args, w')
  }

  function Call(f: FuncDesc, args: ArgsOutcome, w: Session): (o: (Outcome, Session)) {
    if args.NoArgs? || !Accepts(f.types, args.vs) then (Err, w) else f.func(args.vs, w)
  }

  /** Arguments are evaluated in order, up to the first error. */
  function EvalArgs(es: seq<Exp>, r: Option<Record>, p: Params, w: Session): (o: (ArgsOutcome, Session))
    decreases es, 0
  {
    if es == [] then (Args([]), w)
    else
      var k := |es| - 1;
      var (front, w') := EvalArgs(es[..k], r, p, w);
      if front.NoArgs? then (NoArgs, w')
      else
        var (last, w'') := Eval(es[k], r, p, w');
        if last.Err? then (NoArgs, w'') else (Args(front.vs + [last.v]), w'')
  }

  /** The trees agree on every record and session, given these parameters. */
  ghost predicate Equivalent(a: Exp, b: Exp, p: Params) {
    forall r: Option<Record>, w: Session :: Eval(a, r, p, w) == Eval(b, r, p, w)
  }

  ghost predicate AllEquivalent(a: seq<Exp>, b: seq<Exp>, p: Params) {
    |a| == |b| && forall i :: 0 <= i < |a| ==> Equivalent(a[i], b[i], p)
  }

  lemma {:induction false} EquivalentArgs(a: seq<Exp>, b: seq<Exp>, r: Option<Record>, p: Params, w: Session)
    requires AllEquivalent(a, b, p)
    ensures EvalArgs(a, r, p, w) == EvalArgs(b, r, p, w)
    decreases |a|
  {
    if a != [] {
      var k := |a| - 1;
      EquivalentArgs(a[..k], b[..k], r, p, w);
      assert Equivalent(a[k], b[k], p);
    }
  }

  lemma EquivalentOp(f: FuncDesc, a: seq<Exp>, b: seq<Exp>, p: Params)
    requires AllEquivalent(a, b, p)
    ensures Equivalent(Op(f, a), Op(f, b), p)
  {
    forall r: Option<Record>, w: Session
      ensures Eval(Op(f, a), r, p, w) == Eval(Op(f, b), r, p, w)
    {
      EquivalentArgs(a, b, r, p, w);
    }
  }

  // ---------------------------------------------------------------------------
  // Folding
  // ---------------------------------------------------------------------------

  /** A node that counts as reduced: a constant, or a parameter that was asked to be
      reduced but has no value. */
  predicate IsReduced(e: Exp, p: Params) {
    e.Constant? || (e.Param? && Bound(p, e.name).Err?)
  }

  /** Reduced nodes do not look at the record or the session. */
  lemma {:induction false} ReducedArgs(es: seq<Exp>, r: Option<Record>, p: Params, w: Session)
    requires forall i :: 0 <= i < |es| ==> IsReduced(es[i], p)
    ensures EvalArgs(es, r, p, w) == (EvalArgs(es, None, p, 0).0, w)
    decreases |es|
  {
    if es != [] {
      ReducedArgs(es[..|es| - 1], r, p, w);
      ReducedArgs(es[..|es| - 1], None, p, 0);
    }
  }

  /** Folding: the tree it leaves, and whether its root counts as reduced. */
  function Fold(e: Exp, reduceParams: bool, p: Params): (o: (Exp, bool))
    decreases e, 1
  {
    match e
    case Constant(_) => (e, true)
    case Param(name) =>
      if !reduceParams then (e, false)
      else if Bound(p, name).Ok? then (Constant(Bound(p, name).v), true)
      else (e, true)
    case Variadic(_) => (e, false)
    case BorrowRecord => (e, false)
    case Op(f, children) =>
      var (children', all) := FoldAll(children, reduceParams, p);
      FoldOp(f, children', all, p)
  }

  function FoldOp(f: FuncDesc, children: seq<Exp>, all: bool, p: Params): (o: (Exp, bool)) {
    if !all || !f.reducible then (Op(f, children), false)
    else
      var out := Eval(Op(f, children), None, p, 0).0;
      if out.Err? || out.v.Null? then (Op(f, children), false) else (Constant(out.v), true)
  }

  function FoldAll(es: seq<Exp>, reduceParams: bool, p: Params): (o: (seq<Exp>, bool))
    decreases es, 0
  {
    if es == [] then ([], true)
    else
      var k := |es| - 1;
      var (front, all) := FoldAll(es[..k], reduceParams, p);
      var (last, ok) := Fold(es[k], reduceParams, p);
      (front + [last], all && ok)
  }

  lemma {:induction false} FoldAllPointwise(es: seq<Exp>, reduceParams: bool, p: Params)
    ensures var (es', all) := FoldAll(es, reduceParams, p);
      && |es'| == |es|
      && (forall i :: 0 <= i < |es| ==> es'[i] == Fold(es[i], reduceParams, p).0)
      && (all <==> forall i :: 0 <= i < |es| ==> Fold(es[i], reduceParams, p).1)
    decreases |es|
  {
    if es != [] {
      FoldAllPointwise(es[..|es| - 1], reduceParams, p);
    }
  }

  /** What `Fold` says about its result. */
  lemma {:induction false} FoldFlag(e: Exp, reduceParams: bool, p: Params)
    ensures var (e', ok) := Fold(e, reduceParams, p);
      && (ok ==> IsReduced(e', p))
      && (WellFormed(e) ==> WellFormed(e'))
    decreases e
  {
    if e.Op? {
      FoldAllPointwise(e.children, reduceParams, p);
      forall i | 0 <= i < |e.children|
        ensures WellFormed(e.children[i]) ==> WellFormed(Fold(e.children[i], reduceParams, p).0)
      {
        FoldFlag(e.children[i], reduceParams, p);
      }
      StillBorrowed(e.children, FoldAll(e.children, reduceParams, p).0);
    }
  }

  /** A reducible call on reduced arguments means the same everywhere. */
  lemma ReducedCall(f: FuncDesc, es: seq<Exp>, p: Params, r: Option<Record>, w: Session)
    requires f.reducible && Deterministic(f)
    requires forall i :: 0 <= i < |es| ==> IsReduced(es[i], p)
    ensures Eval(Op(f, es), r, p, w) == (Eval(Op(f, es), None, p, 0).0, w)
  {
    ReducedArgs(es, r, p, w);
    ReducedArgs(es, None, p, 0);
  }

  /** Folding preserves meaning: values, errors, nulls and effects on the session. */
  lemma {:induction false} FoldPreservesMeaning(e: Exp, reduceParams: bool, p: Params)
    requires WellFormed(e)
    ensures Equivalent(e, Fold(e, reduceParams, p).0, p)
    decreases e
  {
    if e.Op? {
      var (es, all) := FoldAll(e.children, reduceParams, p);
      FoldAllPointwise(e.children, reduceParams, p);
      forall i | 0 <= i < |es|
        ensures Equivalent(e.children[i], es[i], p) && (all ==> IsReduced(es[i], p))
      {
        FoldPreservesMeaning(e.children[i], reduceParams, p);
        FoldFlag(e.children[i], reduceParams, p);
      }
      EquivalentOp(e.f, e.children, es, p);
      if all && e.f.reducible {
        assert BorrowRecord !in e.children;
        forall r: Option<Record>, w: Session
          ensures Eval(Op(e.f, es), r, p, w) == (Eval(Op(e.f, es), None, p, 0).0, w)
        {
          ReducedCall(e.f, es, p, r, w);
        }
      }
    }
  }

  /** Without reducing parameters the result does not depend on them, so folding
      before the parameters are known is safe for all of them. */
  lemma {:induction false} FoldIgnoresParams(e: Exp, p: Params, q: Params)
    ensures Fold(e, false, p) == Fold(e, false, q)
    ensures Fold(e, false, p).1 ==> Fold(e, false, p).0.Constant?
    decreases e
  {
    hide Eval, EvalArgs, FoldOp;
    if e.Op? {
      FoldAllPointwise(e.children, false, p);
      FoldAllPointwise(e.children, false, q);
      forall i | 0 <= i < |e.children|
        ensures Fold(e.children[i], false, p) == Fold(e.children[i], false, q)
        ensures Fold(e.children[i], false, p).1 ==> Fold(e.children[i], false, p).0.Constant?
      {
        FoldIgnoresParams(e.children[i], p, q);
      }
      var (es, all) := FoldAll(e.children, false, p);
      assert es == FoldAll(e.children, false, q).0;
      FoldOpIgnoresParams(e.f, es, all, p, q);
    }
  }

  lemma FoldOpIgnoresParams(f: FuncDesc, es: seq<Exp>, all: bool, p: Params, q: Params)
    requires all ==> forall i :: 0 <= i < |es| ==> es[i].Constant?
    ensures FoldOp(f, es, all, p) == FoldOp(f, es, all, q)
    ensures FoldOp(f, es, all, p).1 ==> FoldOp(f, es, all, p).0.Constant?
  {
    if all { ConstantArgs(es, p, q); }
  }

  lemma {:induction false} ConstantArgs(es: seq<Exp>, p: Params, q: Params)
    requires forall i :: 0 <= i < |es| ==> es[i].Constant?
    ensures EvalArgs(es, None, p, 0) == EvalArgs(es, None, q, 0)
    decreases |es|
  {
    if es != [] { ConstantArgs(es[..|es| - 1], p, q); }
  }

  lemma FoldEarlyPreservesMeaning(e: Exp, p: Params, q: Params)
    requires WellFormed(e)
    ensures Equivalent(e, Fold(e, false, p).0, q)
  {
    FoldIgnoresParams(e, p, q);
    FoldPreservesMeaning(e, false, q);
  }

  /** Folding twice changes nothing more. */
  lemma {:induction false} FoldIdempotent(e: Exp, reduceParams: bool, p: Params)
    ensures Fold(Fold(e, reduceParams, p).0, reduceParams, p) == Fold(e, reduceParams, p)
    decreases e, 1
  {
    if e.Op? {
      FoldAllIdempotent(e.children, reduceParams, p);
      hide FoldAll, Eval;
    }
  }

  lemma {:induction false} FoldAllIdempotent(es: seq<Exp>, reduceParams: bool, p: Params)
    ensures FoldAll(FoldAll(es, reduceParams, p).0, reduceParams, p) == FoldAll(es, reduceParams, p)
    decreases es, 0
  {
    hide Fold, FoldAll;
    var (es', all) := FoldAll(es, reduceParams, p);
    FoldAllPointwise(es, reduceParams, p);
    forall i | 0 <= i < |es|
      ensures Fold(es'[i], reduceParams, p) == (es'[i], Fold(es[i], reduceParams, p).1)
    {
      FoldIdempotent(es[i], reduceParams, p);
    }
    FoldAllPointwise(es', reduceParams, p);
    assert FoldAll(es', reduceParams, p).0 == es';
  }

  // ---------------------------------------------------------------------------
  // Resolving variables
  // ---------------------------------------------------------------------------

  /** Replaces the variables that have a value in `r`. */
  function Substitute(e: Exp, r: Record): (e': Exp)
    decreases e, 1
  {
    match e
    case Variadic(alias) => if alias in r && r[alias].Some? then Constant(r[alias].value) else e
    case Op(f, children) => Op(f, SubstituteAll(children, r))
    case _ => e
  }

  function SubstituteAll(es: seq<Exp>, r: Record): (es': seq<Exp>)
    ensures |es'| == |es| && forall i :: 0 <= i < |es| ==> es'[i] == Substitute(es[i], r)
    decreases es, 0
  {
    if es == [] then []
    else
      var k := |es| - 1;
      SubstituteAll(es[..k], r) + [Substitute(es[k], r)]
  }

  /** `base` with the values of `r` put over it. */
  function Override(base: Option<Record>, r: Record): Record {
    var under: Record := if base.Some? then base.value else map[];
    under + map a | a in r && r[a].Some? :: r[a]
  }

  ghost predicate BorrowsRecord(e: Exp) {
    e.BorrowRecord? || (e.Op? && exists i :: 0 <= i < |e.children| && BorrowsRecord(e.children[i]))
  }

  /** What a borrowed record could miss: the tree borrows none, or `r` adds nothing. */
  ghost predicate SeesAll(e: Exp, r: Record, base: Option<Record>) {
    !BorrowsRecord(e) || base == Some(Override(base, r))
  }

  lemma EvalAppend(front: seq<Exp>, last: Exp, r: Option<Record>, p: Params, w: Session)
    ensures EvalArgs(front + [last], r, p, w) ==
      var (args, w') := EvalArgs(front, r, p, w);
      var (v, w'') := Eval(last, r, p, w');
      if args.NoArgs? then (NoArgs, w') else if v.Err? then (NoArgs, w'') else (Args(args.vs + [v.v]), w'')
  {
    assert (front + [last])[..|front|] == front;
  }

  lemma SubstituteOneMore(front: seq<Exp>, last: Exp, r: Record)
    ensures SubstituteAll(front + [last], r) == SubstituteAll(front, r) + [Substitute(last, r)]
  {
    assert (front + [last])[..|front|] == front;
  }

  lemma {:induction false} SubstituteMeaning(e: Exp, r: Record, base: Option<Record>, p: Params, w: Session)
    requires SeesAll(e, r, base)
    ensures Eval(Substitute(e, r), base, p, w) == Eval(e, Some(Override(base, r)), p, w)
    decreases e, 1
  {
    if e.Op? {
      SubstituteArgs(e.children, r, base, p, w);
    }
  }

  lemma {:induction false} SubstituteArgs(es: seq<Exp>, r: Record, base: Option<Record>, p: Params, w: Session)
    requires forall i :: 0 <= i < |es| ==> SeesAll(es[i], r, base)
    ensures EvalArgs(SubstituteAll(es, r), base, p, w) == EvalArgs(es, Some(Override(base, r)), p, w)
    decreases es, 0
  {
    if es != [] {
      var k, o := |es| - 1, Some(Override(base, r));
      var f, e := es[..k], es[k];
      assert es == f + [e];
      SubstituteArgs(f, r, base, p, w);
      SubstituteMeaning(e, r, base, p, EvalArgs(f, o, p, w).1);
      hide *;
      SubstituteOneMore(f, e, r);
      EvalAppend(SubstituteAll(f, r), Substitute(e, r), base, p, w);
      EvalAppend(f, e, o, p, w);
    }
  }

  lemma {:induction false} SubstituteWellFormed(e: Exp, r: Record)
    requires WellFormed(e)
    ensures WellFormed(Substitute(e, r))
    decreases e
  {
    if e.Op? {
      forall i | 0 <= i < |e.children|
        ensures WellFormed(Substitute(e.children[i], r))
      {
        SubstituteWellFormed(e.children[i], r);
      }
      StillBorrowed(e.children, SubstituteAll(e.children, r));
    }
  }

  /** What resolving leaves: variables replaced, then folded with parameters. */
  function Resolved(e: Exp, r: Record, p: Params): (e': Exp) {
    Fold(Substitute(e, r), true, p).0
  }

  /** Resolving with `r` and evaluating under another record is evaluating under
      that record overridden by `r`. */
  lemma ResolveMeaning(e: Exp, r: Record, base: Option<Record>, p: Params, w: Session)
    requires WellFormed(e) && SeesAll(e, r, base)
    ensures Eval(Resolved(e, r, p), base, p, w) == Eval(e, Some(Override(base, r)), p, w)
  {
    SubstituteMeaning(e, r, base, p, w);
    SubstituteWellFormed(e, r);
    FoldPreservesMeaning(Substitute(e, r), true, p);
  }

  // ---------------------------------------------------------------------------
  // Where resolving changes the meaning
  // ---------------------------------------------------------------------------

  /** Resolving with `r` keeps what `e` means over `base`. */
  ghost predicate ResolvesWell(e: Exp, r: Record, base: Option<Record>, p: Params, w: Session) {
    Eval(Resolved(e, r, p), base, p, w) == Eval(e, Some(Override(base, r)), p, w)
  }

  /** Every variable and parameter has an entry. */
  ghost predicate AllBound(e: Exp, r: Record, p: Params) {
    match e
    case Variadic(alias) => alias in r
    case Param(name) => Bound(p, name).Ok?
    case Op(_, children) => forall i :: 0 <= i < |children| ==> AllBound(children[i], r, p)
    case _ => true
  }

  /** A function that shows all it was given: it takes any arguments and returns them. */
  ghost predicate Tells(f: FuncDesc) {
    && (forall args :: Accepts(f.types, args))
    && (forall args, w: Session :: f.func(args, w) == (Ok(Array(args)), w))
  }

  ghost predicate TellsAll(e: Exp) {
    e.Op? ==> Tells(e.f) && forall i :: 0 <= i < |e.children| ==> TellsAll(e.children[i])
  }

  lemma TellsCall(f: FuncDesc, args: seq<Value>, w: Session)
    requires Tells(f)
    ensures Call(f, Args(args), w) == (Ok(Array(args)), w)
  {
    assert f.func(args, w) == (Ok(Array(args)), w);
  }

  /** What substitution leaves and the original tell different things exactly when the
      tree borrows a record that `r` would change. */
  lemma {:induction false} SubstituteTells(e: Exp, r: Record, base: Option<Record>, p: Params, w: Session)
    requires TellsAll(e) && AllBound(e, Override(base, r), p)
    ensures var x, y := Eval(Substitute(e, r), base, p, w), Eval(e, Some(Override(base, r)), p, w);
      && x.0.Ok? && y.0.Ok? && x.1 == y.1 == w
      && (x == y <==> SeesAll(e, r, base))
    decreases e, 1
  {
    if e.Op? {
      SubstituteArgsTell(e.children, r, base, p, w);
      hide EvalArgs, Override, Tells, Call;
      TellsCall(e.f, EvalArgs(SubstituteAll(e.children, r), base, p, w).0.vs, w);
      TellsCall(e.f, EvalArgs(e.children, Some(Override(base, r)), p, w).0.vs, w);
    }
  }

  ghost predicate EachSeesAll(es: seq<Exp>, r: Record, base: Option<Record>) {
    forall i :: 0 <= i < |es| ==> SeesAll(es[i], r, base)
  }

  lemma OneMoreSees(front: seq<Exp>, last: Exp, r: Record, base: Option<Record>)
    ensures EachSeesAll(front + [last], r, base) <==> EachSeesAll(front, r, base) && SeesAll(last, r, base)
  {
    hide SeesAll;
    var es := front + [last];
    assert forall i :: 0 <= i < |front| ==> es[i] == front[i];
    assert es[|front|] == last;
  }

  lemma {:induction false} SubstituteArgsTell(es: seq<Exp>, r: Record, base: Option<Record>, p: Params, w: Session)
    requires forall i :: 0 <= i < |es| ==> TellsAll(es[i]) && AllBound(es[i], Override(base, r), p)
    ensures var x, y := EvalArgs(SubstituteAll(es, r), base, p, w), EvalArgs(es, Some(Override(base, r)), p, w);
      && x.0.Args? && y.0.Args? && x.1 == y.1 == w && |x.0.vs| == |y.0.vs|
      && (x == y <==> EachSeesAll(es, r, base))
    decreases es, 0
  {
    if es != [] {
      var k, o := |es| - 1, Some(Override(base, r));
      var f, e := es[..k], es[k];
      assert es == f + [e];
      SubstituteArgsTell(f, r, base, p, w);
      SubstituteTells(e, r, base, p, w);
      hide *;
      SubstituteOneMore(f, e, r);
      EvalAppend(SubstituteAll(f, r), Substitute(e, r), base, p, w);
      EvalAppend(f, e, o, p, w);
      OneMoreSees(f, e, r, base);
      AppendsAgree(EvalArgs(SubstituteAll(f, r), base, p, w).0.vs, Eval(Substitute(e, r), base, p, w).0.v,
                   EvalArgs(f, o, p, w).0.vs, Eval(e, o, p, w).0.v);
    }
  }

  lemma AppendsAgree<T>(x: seq<T>, u: T, y: seq<T>, v: T)
    requires |x| == |y|
    ensures x + [u] == y + [v] <==> x == y && u == v
  {
    if x + [u] == y + [v] {
      assert x == (x + [u])[..|x|] && y == (y + [v])[..|x|];
      assert u == (x + [u])[|x|] && v == (y + [v])[|x|];
    }
  }

  lemma {:induction false} TellingIsWellFormed(e: Exp)
    requires TellsAll(e)
    ensures WellFormed(e)
    decreases e
  {
    if e.Op? {
      forall i | 0 <= i < |e.children|
        ensures WellFormed(e.children[i])
      {
        TellingIsWellFormed(e.children[i]);
      }
    }
  }

  /** For every tree of telling functions the law holds exactly when no borrowed record
      misses a value. */
  lemma TellingExact(e: Exp, r: Record, base: Option<Record>, p: Params, w: Session)
    requires TellsAll(e) && AllBound(e, Override(base, r), p)
    ensures ResolvesWell(e, r, base, p, w) <==> SeesAll(e, r, base)
  {
    TellingIsWellFormed(e);
    SubstituteTells(e, r, base, p, w);
    SubstituteWellFormed(e, r);
    FoldPreservesMeaning(Substitute(e, r), true, p);
    assert Equivalent(Substitute(e, r), Resolved(e, r, p), p);
    hide Override, Eval, SeesAll, Resolved, Substitute;
  }

  /** The same operands and calls, with other functions. */
  ghost predicate SameShape(a: Exp, b: Exp) {
    if a.Op? then
      && b.Op? && |a.children| == |b.children|
      && forall i :: 0 <= i < |a.children| ==> SameShape(a.children[i], b.children[i])
    else a == b
  }

  function Tell(args: seq<Value>, w: Session): (Outcome, Session) { (Ok(Array(args)), w) }

  const Telling := FuncDesc("tell", [{TNull, TBool, TInt, TDouble, TString, TArray, TPtr}], false, Tell)

  /** A tree with every function replaced by one that tells. */
  function Retold(e: Exp): Exp {
    if e.Op? then Op(Telling, seq(|e.children|, i requires 0 <= i < |e.children| => Retold(e.children[i]))) else e
  }

  lemma {:induction false} RetoldTells(e: Exp, r: Record, p: Params)
    requires AllBound(e, r, p)
    ensures SameShape(e, Retold(e)) && TellsAll(Retold(e)) && AllBound(Retold(e), r, p)
    decreases e
  {
    if e.Op? {
      forall i | 0 <= i < |e.children|
        ensures SameShape(e.children[i], Retold(e).children[i])
        ensures TellsAll(Retold(e).children[i]) && AllBound(Retold(e).children[i], r, p)
      {
        RetoldTells(e.children[i], r, p);
      }
      TellingTells();
    }
  }

  lemma TellingTells()
    ensures Tells(Telling)
  {
    forall args: seq<Value>
      ensures Accepts(Telling.types, args)
    {
      assert forall i :: 0 <= i < |args| ==> TypeOf(args[i]) in Expected(Telling.types, i);
    }
  }

  lemma {:induction false} SameShapeBorrows(a: Exp, b: Exp)
    requires SameShape(a, b)
    ensures BorrowsRecord(a) == BorrowsRecord(b)
    decreases a
  {
    if a.Op? {
      forall i | 0 <= i < |a.children|
        ensures BorrowsRecord(a.children[i]) == BorrowsRecord(b.children[i])
      {
        SameShapeBorrows(a.children[i], b.children[i]);
      }
    }
  }

  /** A tree can be resolved whatever its functions compute exactly when no borrowed record
      misses a value; nothing weaker that only looks at the operands will do. */
  lemma ShapeExact(e: Exp, r: Record, base: Option<Record>, p: Params, w: Session)
    requires AllBound(e, Override(base, r), p)
    ensures (forall e' :: SameShape(e, e') && WellFormed(e') ==> ResolvesWell(e', r, base, p, w))
        <==> SeesAll(e, r, base)
  {
    hide Eval, Resolved, Override;
    if SeesAll(e, r, base) {
      forall e' | SameShape(e, e') && WellFormed(e')
        ensures ResolvesWell(e', r, base, p, w)
      {
        SameShapeBorrows(e, e');
        ResolveMeaning(e', r, base, p, w);
      }
    } else {
      var e' := Retold(e);
      RetoldTells(e, Override(base, r), p);
      SameShapeBorrows(e, e');
      TellingIsWellFormed(e');
      TellingExact(e', r, base, p, w);
    }
  }

  /** The function of a list comprehension `[_ IN list | x]`: it looks `x` up, for every
      element of the list, in the record it borrows. Where it finds none the element is null,
      and the session remembers that the query has failed. */
  function Comprehension(x: string): FuncDesc {
    FuncDesc("list comprehension", [{TArray, TNull}, {TPtr}], true, (args: seq<Value>, w: Session) =>
      if |args| != 2 || !args[0].Array? || !args[1].Ptr? then (Ok(Null), w)
      else if args[0].elements == [] then (Ok(Array([])), w)
      else
        var v := Lookup(args[1].record, x);
        (Ok(Array(seq(|args[0].elements|, _ => if v.Ok? then v.v else Null))), if v.Ok? then w else w + 1))
  }

  /** A list comprehension as the parser builds it: its list, and the borrowed record. */
  function ComprehensionOver(x: string, list: seq<Value>): Exp {
    Op(Comprehension(x), [Constant(Array(list)), BorrowRecord])
  }

  lemma ComprehensionMeaning(x: string, list: seq<Value>, r: Option<Record>, p: Params, w: Session)
    ensures Eval(ComprehensionOver(x, list), r, p, w) == Comprehension(x).func([Array(list), Ptr(r)], w)
  {
    var c := ComprehensionOver(x, list).children;
    assert c == ([] + [c[0]]) + [c[1]];
    assert EvalArgs([], r, p, w) == (Args([]), w);
    EvalAppend([], c[0], r, p, w);
    EvalAppend([] + [c[0]], c[1], r, p, w);
    hide EvalArgs;
    assert [] + [Array(list)] + [Ptr(r)] == [Array(list), Ptr(r)];
  }

  lemma ComprehensionStays(x: string, list: seq<Value>, r: Record, p: Params)
    ensures Resolved(ComprehensionOver(x, list), r, p) == ComprehensionOver(x, list)
  {
    var e := ComprehensionOver(x, list);
    BorrowerStays(e.f, e.children[0], p);
    assert SubstituteAll(e.children, r) == e.children;
    hide Fold;
  }

  /** A call that borrows the record is never folded. */
  lemma BorrowerStays(f: FuncDesc, list: Exp, p: Params)
    requires list.Constant?
    ensures Fold(Op(f, [list, BorrowRecord]), true, p).0 == Op(f, [list, BorrowRecord])
  {
    var es := [list, BorrowRecord];
    FoldAllPointwise(es, true, p);
    assert Fold(es[0], true, p) == (list, true) && Fold(es[1], true, p) == (BorrowRecord, false);
    assert FoldAll(es, true, p) == (es, false) by {
      hide Fold, FoldAll;
      assert FoldAll(es, true, p).0 == es;
    }
    hide FoldAll, Eval;
  }

  /** A list comprehension can be resolved exactly when its list is empty or the variable
      means the same without the values resolved. */
  lemma ComprehensionExact(x: string, list: seq<Value>, r: Record, base: Option<Record>, p: Params, w: Session)
    ensures ResolvesWell(ComprehensionOver(x, list), r, base, p, w)
        <==> list == [] || Lookup(base, x) == Lookup(Some(Override(base, r)), x)
  {
    ComprehensionStays(x, list, r, p);
    ComprehensionMeaning(x, list, base, p, w);
    ComprehensionMeaning(x, list, Some(Override(base, r)), p, w);
    hide Override, Eval;
    var o := Some(Override(base, r));
    var u, v := Lookup(base, x), Lookup(o, x);
    if list != [] {
      var us := Comprehension(x).func([Array(list), Ptr(base)], w).0.v.elements;
      var vs := Comprehension(x).func([Array(list), Ptr(o)], w).0.v.elements;
      assert us[0] == (if u.Ok? then u.v else Null) && vs[0] == (if v.Ok? then v.v else Null);
      if u == v { assert us == vs; }
    }
  }

  /** `[_ IN [1] | x]`, resolved where `x` is 1 and evaluated where it is not known. */
  lemma ResolveMissesBorrowedRecord(p: Params, w: Session)
    ensures !ResolvesWell(ComprehensionOver("x", [Int(1)]), map["x" := Some(Int(1))], Some(map[]), p, w)
  {
    var r: Record := map["x" := Some(Int(1))];
    ComprehensionExact("x", [Int(1)], r, Some(map[]), p, w);
    assert "x" in Override(Some(map[]), r);
  }

  // ---------------------------------------------------------------------------
  // The operations
  // ---------------------------------------------------------------------------

  /** Checks the argument types one by one. */
  method ValidateInvocation(f: FuncDesc, args: seq<Value>) returns (valid: bool)
    ensures valid == Accepts(f.types, args)
  {
    var expected := {TNull};
    var i := 0;
    while i < |args|
      invariant 0 <= i <= |args|
      invariant i > 0 ==> expected == Expected(f.types, i - 1)
      invariant i == 0 ==> expected == {TNull}
      invariant forall j :: 0 <= j < i ==> TypeOf(args[j]) in Expected(f.types, j)
    {
      if i < |f.types| { expected := f.types[i]; }
      assert expected == Expected(f.types, i);
      if TypeOf(args[i]) !in expected { return false; }
      i := i + 1;
    }
    return true;
  }

  /** Parameters still in the tree. */
  function ParamCount(e: Exp): nat
    decreases e, 1
  {
    match e
    case Param(_) => 1
    case Op(_, children) => ParamCounts(children)
    case _ => 0
  }

  function ParamCounts(es: seq<Exp>): nat
    decreases es, 0
  {
    if es == [] then 0 else ParamCounts(es[..|es| - 1]) + ParamCount(es[|es| - 1])
  }

  lemma {:induction false} ParamCountsSum(a: seq<Exp>, b: seq<Exp>)
    ensures ParamCounts(a + b) == ParamCounts(a) + ParamCounts(b)
    decreases |b|
  {
    if b == [] {
      assert a + b == a;
    } else {
      var k := |b| - 1;
      ParamCountsSum(a, b[..k]);
      assert (a + b)[..|a + b| - 1] == a + b[..k];
    }
  }

  /** Evaluates a tree. Every parameter met is replaced by its value in the tree. */
  method EvaluateNode(e: Exp, r: Option<Record>, p: Params, w: Session)
      returns (out: Outcome, foundParam: bool, e': Exp, w': Session)
    requires WellFormed(e)
    ensures (out, w') == Eval(e, r, p, w)
    ensures Equivalent(e, e', p) && WellFormed(e')
    ensures if foundParam then out.Ok? && ParamCount(e') < ParamCount(e) else ParamCount(e') <= ParamCount(e)
    ensures (out.Ok? && !foundParam) || e.BorrowRecord? ==> e' == e
    decreases e, 1
  {
    match e
    case Constant(v) => return Ok(v), false, e, w;
    case Variadic(alias) => return Lookup(r, alias), false, e, w;
    case Param(name) =>
      if Bound(p, name).Err? { return Err, false, e, w; }
      return Bound(p, name), true, Constant(Bound(p, name).v), w;
    case BorrowRecord => return Ok(Ptr(r)), false, e, w;
    case Op(f, children) => out, foundParam, e', w' := EvaluateFunctionCall(f, children, r, p, w);
  }

  method EvaluateFunctionCall(f: FuncDesc, children: seq<Exp>, r: Option<Record>, p: Params, w: Session)
      returns (out: Outcome, foundParam: bool, e': Exp, w': Session)
    requires WellFormed(Op(f, children))
    ensures (out, w') == Eval(Op(f, children), r, p, w)
    ensures Equivalent(Op(f, children), e', p) && WellFormed(e')
    ensures if foundParam then out.Ok? && ParamCount(e') < ParamCount(Op(f, children))
            else ParamCount(e') <= ParamCount(Op(f, children))
    ensures out.Ok? && !foundParam ==> e' == Op(f, children)
    decreases children, 1
  {
    var args, es;
    args, foundParam, es, w' := EvaluateChildren(children, r, p, w);
    EquivalentOp(f, children, es, p);
    StillBorrowed(children, es);
    e' := Op(f, es);
    if args.NoArgs? { return Err, false, e', w'; }
    var valid := ValidateInvocation(f, args.vs);
    if !valid { return Err, false, e', w'; }
    var result := f.func(args.vs, w');
    out, w' := result.0, result.1;
    if out.Err? { foundParam := false; }
  }

  /** Evaluates arguments up to the first error, and says whether parameters were met. */
  method EvaluateChildren(children: seq<Exp>, r: Option<Record>, p: Params, w: Session)
      returns (args: ArgsOutcome, foundParam: bool, es: seq<Exp>, w': Session)
    requires forall j :: 0 <= j < |children| ==> WellFormed(children[j])
    ensures (args, w') == EvalArgs(children, r, p, w)
    ensures AllEquivalent(children, es, p) && forall j :: 0 <= j < |es| ==> WellFormed(es[j])
    ensures KeepsBorrowed(children, es)
    ensures ParamCounts(es) <= ParamCounts(children)
    ensures foundParam ==> args.Args? && ParamCounts(es) < ParamCounts(children)
    ensures args.Args? && !foundParam ==> es == children
    decreases children, 0
  {
    hide Equivalent, Eval, WellFormed, ParamCounts;
    es := children;
    var vs: seq<Value> := [];
    w', foundParam := w, false;
    assert AllEquivalent(children, es, p) by { SameMeaning(children, p); }
    var i := 0;
    while i < |children|
      invariant 0 <= i <= |children| && |es| == |children| && es[i..] == children[i..]
      invariant EvalArgs(children[..i], r, p, w) == (Args(vs), w')
      invariant AllEquivalent(children, es, p) && forall j :: 0 <= j < |es| ==> WellFormed(es[j])
      invariant KeepsBorrowed(children, es)
      invariant if foundParam then ParamCounts(es) < ParamCounts(children) else es == children
    {
      assert es[i] == es[i..][0] == children[i];
      var o, found, c, w1 := EvaluateNode(children[i], r, p, w');
      ParamCountsUpdate(es, i, c);
      assert es[i + 1..] == es[i..][1..] == children[i + 1..];
      es := es[i := c];
      ArgsSoFar(children, i, r, p, w);
      w' := w1;
      if o.Err? {
        ArgsFail(children, i + 1, r, p, w);
        return NoArgs, false, es, w';
      }
      if !found && !foundParam { assert es == children; }
      foundParam := foundParam || found;
      vs := vs + [o.v];
      i := i + 1;
    }
    assert children[..i] == children;
    return Args(vs), foundParam, es, w';
  }

  lemma SameMeaning(es: seq<Exp>, p: Params)
    ensures AllEquivalent(es, es, p)
  {
  }

  lemma ParamCountsUpdate(es: seq<Exp>, i: nat, c: Exp)
    requires i < |es|
    ensures ParamCounts(es[i := c]) == ParamCounts(es) - ParamCount(es[i]) + ParamCount(c)
  {
    assert es == es[..i] + [es[i]] + es[i + 1..];
    assert es[i := c] == es[..i] + [c] + es[i + 1..];
    ParamCountsSum(es[..i], [es[i]]);
    ParamCountsSum(es[..i] + [es[i]], es[i + 1..]);
    ParamCountsSum(es[..i], [c]);
    ParamCountsSum(es[..i] + [c], es[i + 1..]);
    assert ParamCounts([es[i]]) == ParamCount(es[i]) && ParamCounts([c]) == ParamCount(c);
  }

  lemma ArgsSoFar(es: seq<Exp>, i: nat, r: Option<Record>, p: Params, w: Session)
    requires i < |es|
    ensures EvalArgs(es[..i + 1], r, p, w) ==
      var (front, w') := EvalArgs(es[..i], r, p, w);
      if front.NoArgs? then (NoArgs, w')
      else
        var (last, w'') := Eval(es[i], r, p, w');
        if last.Err? then (NoArgs, w'') else (Args(front.vs + [last.v]), w'')
  {
    assert es[..i + 1][..i] == es[..i];
  }

  /** After an error no further argument is evaluated. */
  lemma {:induction false} ArgsFail(es: seq<Exp>, i: nat, r: Option<Record>, p: Params, w: Session)
    requires i <= |es| && EvalArgs(es[..i], r, p, w).0.NoArgs?
    ensures EvalArgs(es, r, p, w) == EvalArgs(es[..i], r, p, w)
    decreases |es|
  {
    if i == |es| {
      assert es[..i] == es;
    } else {
      var front := es[..|es| - 1];
      assert front[..i] == es[..i];
      ArgsFail(front, i, r, p, w);
    }
  }

  /** Evaluates a tree and, if it met parameters, folds what is left of it. */
  method Evaluate(e: Exp, r: Option<Record>, p: Params, w: Session)
      returns (out: Outcome, e': Exp, w': Session)
    requires WellFormed(e)
    ensures (out, w') == Eval(e, r, p, w)
    ensures Equivalent(e, e', p) && WellFormed(e')
    decreases ParamCount(e), 0
  {
    var found, t;
    out, found, t, w' := EvaluateNode(e, r, p, w);
    e' := t;
    if found {
      var reduced, val;
      e', reduced, val := ReduceToScalar(t, true, p);
      FoldPreservesMeaning(t, true, p);
      FoldFlag(t, true, p);
    }
  }

  /** Folds a tree; `val` is the value of the root when it was reduced or evaluated. */
  method ReduceToScalar(e: Exp, reduceParams: bool, p: Params) returns (e': Exp, reduced: bool, val: Value)
    requires WellFormed(e)
    ensures (e', reduced) == Fold(e, reduceParams, p)
    ensures e'.Constant? && reduced ==> val == e'.v
    decreases ParamCount(e), 2, e
  {
    assert e.Param? ==> Eval(e, None, p, 0).0 == Bound(p, e.name);
    hide Eval, Equivalent, WellFormed;
    e', reduced, val := e, false, Null;
    match e
    case Constant(v) => return e, true, v;
    case Param(name) =>
      if reduceParams {
        var out, t, w := Evaluate(e, None, p, 0);
        if out.Ok? { return Constant(out.v), true, out.v; }
        return e, true, Null;
      }
    case Variadic(_) =>
    case BorrowRecord =>
    case Op(f, children) =>
      var es, all := ReduceChildren(e, reduceParams, p);
      ReducedChildren(children, reduceParams, p);
      assert WellFormed(Op(f, es)) by { FoldedChildren(e, reduceParams, p); }
      e', reduced, val := ReduceOp(f, es, all, p);
  }

  lemma FoldedChildren(e: Exp, reduceParams: bool, p: Params)
    requires WellFormed(e) && e.Op?
    ensures WellFormed(Op(e.f, FoldAll(e.children, reduceParams, p).0))
  {
    FoldAllPointwise(e.children, reduceParams, p);
    forall i | 0 <= i < |e.children|
      ensures WellFormed(Fold(e.children[i], reduceParams, p).0)
    {
      FoldFlag(e.children[i], reduceParams, p);
    }
    StillBorrowed(e.children, FoldAll(e.children, reduceParams, p).0);
  }

  /** Evaluates a call whose arguments were reduced, and replaces it by its value. */
  method ReduceOp(f: FuncDesc, es: seq<Exp>, all: bool, p: Params) returns (e': Exp, reduced: bool, val: Value)
    requires WellFormed(Op(f, es))
    ensures (e', reduced) == FoldOp(f, es, all, p)
    ensures e'.Constant? && reduced ==> val == e'.v
    decreases ParamCount(Op(f, es)), 1
  {
    hide Eval, Equivalent;
    e', reduced, val := Op(f, es), false, Null;
    if !all || !f.reducible { return; }
    var out, t, w := Evaluate(e', None, p, 0);
    if out.Err? || out.v == Null { return; }
    return Constant(out.v), true, out.v;
  }

  method ReduceChildren(e: Exp, reduceParams: bool, p: Params) returns (es: seq<Exp>, all: bool)
    requires WellFormed(e) && e.Op?
    ensures (es, all) == FoldAll(e.children, reduceParams, p)
    decreases ParamCount(e), 2, e, 0
  {
    es, all := [], true;
    var i := 0;
    while i < |e.children|
      invariant 0 <= i <= |e.children|
      invariant (es, all) == FoldAll(e.children[..i], reduceParams, p)
    {
      ParamCountOfChild(e.children, i);
      var c, ok, v := ReduceToScalar(e.children[i], reduceParams, p);
      assert e.children[..i + 1][..i] == e.children[..i];
      es := es + [c];
      if !ok { all := false; }
      i := i + 1;
    }
    assert e.children[..i] == e.children;
  }

  lemma ParamCountOfChild(es: seq<Exp>, i: nat)
    requires i < |es|
    ensures ParamCount(es[i]) <= ParamCounts(es)
  {
    assert es == es[..i] + [es[i]] + es[i + 1..];
    ParamCountsSum(es[..i], [es[i]]);
    ParamCountsSum(es[..i] + [es[i]], es[i + 1..]);
    assert ParamCounts([es[i]]) == ParamCount(es[i]);
  }

  /** Folding does not add parameters. */
  lemma {:induction false} ReducedChildren(es: seq<Exp>, reduceParams: bool, p: Params)
    ensures ParamCounts(FoldAll(es, reduceParams, p).0) <= ParamCounts(es)
    decreases es, 0
  {
    if es != [] {
      var k := |es| - 1;
      ReducedChildren(es[..k], reduceParams, p);
      ReducedParams(es[k], reduceParams, p);
      var front := FoldAll(es[..k], reduceParams, p).0;
      var last := Fold(es[k], reduceParams, p).0;
      assert (front + [last])[..k] == front by { FoldAllPointwise(es[..k], reduceParams, p); }
    }
  }

  lemma {:induction false} ReducedParams(e: Exp, reduceParams: bool, p: Params)
    ensures ParamCount(Fold(e, reduceParams, p).0) <= ParamCount(e)
    decreases e, 1
  {
    if e.Op? { ReducedChildren(e.children, reduceParams, p); }
  }

  /** Replaces variables that have a value in `r`, then folds. */
  method ResolveVariables(e: Exp, r: Record, p: Params) returns (e': Exp)
    requires WellFormed(e)
    ensures e' == Resolved(e, r, p)
  {
    SubstituteWellFormed(e, r);
    var t := ReplaceVariables(e, r);
    var reduced, val;
    e', reduced, val := ReduceToScalar(t, true, p);
  }

  method ReplaceVariables(e: Exp, r: Record) returns (e': Exp)
    ensures e' == Substitute(e, r)
    decreases e
  {
    match e
    case Variadic(alias) =>
      if alias in r && r[alias].Some? { return Constant(r[alias].value); }
      return e;
    case Op(f, children) =>
      var es := [];
      var i := 0;
      while i < |children|
        invariant 0 <= i <= |children|
        invariant es == SubstituteAll(children[..i], r)
      {
        var c := ReplaceVariables(children[i], r);
        assert children[..i + 1][..i] == children[..i];
        es := es + [c];
        i := i + 1;
      }
      assert children[..i] == children;
      return Op(f, es);
    case _ => return e;
  }
}
