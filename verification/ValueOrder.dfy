/** The order of values used for sorting, across types.

    `Compare` follows the source, with its 64 bit subtraction, 32 bit truncation
    and conversion of integers to doubles written out. `Order` is the order the
    query language asks for. Doubles and floats are finite reals; maps, paths and
    temporal values are not represented. */
module ValueOrder {

  /** A byte of a string; strings hold no terminator. */
  type Byte = b: int | 1 <= b < 256 witness 1

  datatype Value =
    | Null
    | Bool(b: bool)
    | Int(i: int)
    | Double(d: real)
    | String(s: seq<Byte>)
    | Node(id: nat)
    | Edge(id: nat)
    | Point(lon: real, lat: real)
    | Array(elements: seq<Value>)

  /** The bit that stands for the type of a value. */
  function TypeBit(v: Value): nat {
    match v
    case Node(_) => 0x2
    case Edge(_) => 0x4
    case Array(_) => 0x8
    case String(_) => 0x800
    case Bool(_) => 0x1000
    case Int(_) => 0x2000
    case Double(_) => 0x4000
    case Null => 0x8000
    case Point(_, _) => 0x2_0000
  }

  datatype Flag = NoFlag | Disjoint | ComparedNull

  datatype Result = Result(sign: int, flag: Flag)

  const TWO_31: int := 0x8000_0000
  const TWO_32: int := 0x1_0000_0000
  const TWO_53: int := 0x20_0000_0000_0000
  const TWO_63: int := 0x8000_0000_0000_0000
  const TWO_64: int := 0x1_0000_0000_0000_0000

  function Sign(x: int): int {
    if x > 0 then 1 else if x < 0 then -1 else 0
  }

  function RealSign(x: real): int {
    if x > 0.0 then 1 else if x < 0.0 then -1 else 0
  }

  // ---------------------------------------------------------------------------
  // Machine arithmetic
  // ---------------------------------------------------------------------------

  /** Two's complement of 64 bits. */
  function Wrap64(x: int): int {
    var m := x % TWO_64;
    if m < TWO_63 then m else m - TWO_64
  }

  /** The low 32 bits, read as a signed number. */
  function Truncate32(x: int): int {
    var m := x % TWO_32;
    if m < TWO_31 then m else m - TWO_32
  }

  /** The power of two by which a magnitude is scaled to 53 bits. */
  function Scale(m: nat): (s: nat)
    ensures s >= 1
  {
    if m < TWO_53 then 1 else 2 * Scale(m / 2)
  }

  /** Conversion to a double: nearest, ties to even. */
  function ToDouble(i: int): real {
    if i < 0 then -(RoundMagnitude(-i) as real) else RoundMagnitude(i) as real
  }

  function RoundMagnitude(m: nat): nat {
    var s := Scale(m);
    var q, r := m / s, m % s;
    if 2 * r < s || (2 * r == s && q % 2 == 0) then q * s else (q + 1) * s
  }

  function Abs(i: int): nat { if i < 0 then -i else i }

  /** The integer is the value of a double. */
  predicate Representable(i: int) { ToDouble(i) == i as real }

  /** Integers are representable exactly when scaling to 53 bits loses nothing; all those
      below 2^53 are. */
  lemma RepresentableExact(i: int)
    ensures Representable(i) <==> Abs(i) % Scale(Abs(i)) == 0
    ensures -TWO_53 < i < TWO_53 ==> Representable(i)
  {
    var m := Abs(i);
    var s := Scale(m);
    var q, r := m / s, m % s;
    assert m == q * s + r;
    assert (q + 1) * s == q * s + s;
    assert Representable(i) <==> RoundMagnitude(m) == m;
    if m < TWO_53 { assert s == 1; }
  }

  /** Numbers of 53 bits, scaled, keep their scale. */
  lemma {:induction false} ScaleOfMultiple(k: nat, m: nat)
    requires TWO_53 / 2 <= k < TWO_53
    ensures Scale(k * Scale(m)) == Scale(m)
  {
    if m >= TWO_53 {
      var t := Scale(m / 2);
      ScaleOfMultiple(k, m / 2);
      assert k * (2 * t) == 2 * (k * t) >= TWO_53;
    }
  }

  lemma {:induction false} ScaledBits(m: nat)
    requires m >= TWO_53
    ensures TWO_53 / 2 <= m / Scale(m) < TWO_53
  {
    var h := m / 2;
    var t := Scale(h);
    if h >= TWO_53 { ScaledBits(h); }
    HalfThenDivide(m, t);
  }

  lemma HalfThenDivide(m: nat, t: nat)
    requires t >= 1
    ensures m / (2 * t) == m / 2 / t
  {
    var h := m / 2;
    var q, r := h / t, h % t;
    assert h == q * t + r && m == 2 * h + m % 2;
    var rest := 2 * r + m % 2;
    assert m == q * (2 * t) + rest && 0 <= rest < 2 * t;
    DivideUnique(m, 2 * t, q, rest);
  }

  lemma DivideUnique(m: nat, d: nat, q: nat, r: nat)
    requires d >= 1 && m == q * d + r && r < d
    ensures m / d == q
  {
    var q' := m / d;
    assert m == q' * d + m % d;
    if q' < q { NextMultiple(q', q, d); } else if q < q' { NextMultiple(q, q', d); }
  }

  lemma {:induction false} NextMultiple(a: nat, b: nat, d: nat)
    requires a < b
    ensures a * d + d <= b * d
  {
    assert (b - 1) * d == b * d - d;
    if a < b - 1 { NextMultiple(a, b - 1, d); }
  }

  lemma MultipleHasNoRest(k: nat, s: nat)
    requires s >= 1
    ensures k * s % s == 0
  {
    DivideUnique(k * s, s, k, 0);
    assert k * s == (k * s / s) * s + k * s % s;
  }

  lemma ScaleDoubles(m: nat)
    requires m >= TWO_53
    ensures Scale(2 * m) == 2 * Scale(m)
  {
    assert 2 * m / 2 == m;
  }

  lemma BelowIsRepresentable(k: nat, m: nat)
    requires TWO_53 / 2 <= k < TWO_53
    ensures Representable(k * Scale(m))
  {
    hide Scale, Representable;
    ScaleOfMultiple(k, m);
    MultipleHasNoRest(k, Scale(m));
    assert Abs(k * Scale(m)) == k * Scale(m);
    RepresentableExact(k * Scale(m));
  }

  /** Up to 2^53 times the scale of a large number is representable. */
  lemma ScaledIsRepresentable(k: nat, m: nat)
    requires TWO_53 / 2 <= k <= TWO_53 && m >= TWO_53
    ensures Representable(k * Scale(m))
  {
    hide Scale, Representable;
    if k < TWO_53 {
      BelowIsRepresentable(k, m);
    } else {
      ScaleDoubles(m);
      BelowIsRepresentable(TWO_53 / 2, 2 * m);
      assert k * Scale(m) == (TWO_53 / 2) * (2 * Scale(m));
    }
  }

  /** Rounding gives a representable integer. */
  lemma RoundedIsRepresentable(m: nat)
    ensures Representable(RoundMagnitude(m))
  {
    if m < TWO_53 {
      assert Scale(m) == 1 && RoundMagnitude(m) == m;
      RepresentableExact(m);
    } else {
      ScaledBits(m);
      hide Scale, Representable;
      ScaledIsRepresentable(m / Scale(m), m);
      ScaledIsRepresentable(m / Scale(m) + 1, m);
    }
  }

  // ---------------------------------------------------------------------------
  // Comparison as the source performs it
  // ---------------------------------------------------------------------------

  /** Byte-wise comparison of two strings. */
  function StringCompare(a: seq<Byte>, b: seq<Byte>): int {
    if a == [] && b == [] then 0
    else if a == [] then -1
    else if b == [] then 1
    else if a[0] != b[0] then (if a[0] > b[0] then 1 else -1)
    else StringCompare(a[1..], b[1..])
  }

  function Compare(a: Value, b: Value): (r: Result)
    decreases a, 1
  {
    match (a, b)
    case (Int(x), Int(y)) => Result(Sign(Wrap64(x - y)), NoFlag)
    case (Bool(x), Bool(y)) => Result(Sign((if x then 1 else 0) - (if y then 1 else 0)), NoFlag)
    case (Double(x), Double(y)) => Result(RealSign(x - y), NoFlag)
    case (String(x), String(y)) => Result(StringCompare(x, y), NoFlag)
    case (Node(x), Node(y)) => Result(Truncate32(x - y), NoFlag)
    case (Edge(x), Edge(y)) => Result(Truncate32(x - y), NoFlag)
    case (Array(x), Array(y)) => CompareArrays(x, y)
    case (Point(_, _), Point(_, _)) =>
      Result(if a.lon != b.lon then RealSign(a.lon - b.lon) else RealSign(a.lat - b.lat), NoFlag)
    case (Int(x), Double(y)) => Result(RealSign(ToDouble(x) - y), NoFlag)
    case (Double(x), Int(y)) => Result(RealSign(x - ToDouble(y)), NoFlag)
    case _ => Result(TypeBit(a) - TypeBit(b), if a.Null? || b.Null? then ComparedNull else Disjoint)
  }

  /** Counters after comparing the first elements of two arrays. */
  datatype Tally = Tally(notEqual: int, nulls: nat, unequal: nat)

  function Count(t: Tally, r: Result): Tally {
    if r.flag != NoFlag then
      Tally(if t.notEqual == 0 then r.sign else t.notEqual,
            if r.flag == ComparedNull then t.nulls + 1 else t.nulls, t.unequal + 1)
    else if r.sign != 0 then
      Tally(if t.notEqual == 0 then r.sign else t.notEqual, t.nulls, t.unequal + 1)
    else t
  }

  function TallyOf(a: seq<Value>, b: seq<Value>, n: nat): (t: Tally)
    requires n <= |a| && n <= |b|
    decreases a, 0, n
  {
    if n == 0 then Tally(0, 0, 0) else Count(TallyOf(a, b, n - 1), Compare(a[n - 1], b[n - 1]))
  }

  function Verdict(t: Tally, lenA: nat, lenB: nat): Result {
    var common := if lenA <= lenB then lenA else lenB;
    if t.unequal == common && t.unequal > t.nulls then Result(t.notEqual, NoFlag)
    else if t.nulls > 0 && lenA == lenB then Result(t.notEqual, ComparedNull)
    else if t.notEqual != 0 then Result(t.notEqual, NoFlag)
    else Result(lenA - lenB, NoFlag)
  }

  function CompareArrays(a: seq<Value>, b: seq<Value>): (r: Result)
    decreases a, 1
  {
    var common := if |a| <= |b| then |a| else |b|;
    if a == [] && b == [] then Result(0, NoFlag) else Verdict(TallyOf(a, b, common), |a|, |b|)
  }

  /** The comparison loop of two arrays. */
  method SIArrayCompare(a: seq<Value>, b: seq<Value>) returns (r: Result)
    ensures r == CompareArrays(a, b)
  {
    if |a| == 0 && |b| == 0 { return Result(0, NoFlag); }
    var lenDiff := |a| - |b|;
    var minLength := if |a| <= |b| then |a| else |b|;
    var notEqual, nullCounter, notEqualCounter := 0, 0, 0;
    var i := 0;
    while i < minLength
      invariant 0 <= i <= minLength
      invariant Tally(notEqual, nullCounter, notEqualCounter) == TallyOf(a, b, i)
    {
      var c := Compare(a[i], b[i]);
      if c.flag != NoFlag {
        if c.flag == ComparedNull { nullCounter := nullCounter + 1; }
        notEqualCounter := notEqualCounter + 1;
        if notEqual == 0 { notEqual := c.sign; }
      } else if c.sign != 0 {
        notEqualCounter := notEqualCounter + 1;
        if notEqual == 0 { notEqual := c.sign; }
      }
      i := i + 1;
    }
    if notEqualCounter == minLength && notEqualCounter > nullCounter { return Result(notEqual, NoFlag); }
    if nullCounter > 0 && |a| == |b| { return Result(notEqual, ComparedNull); }
    if notEqual != 0 { return Result(notEqual, NoFlag); }
    return Result(lenDiff, NoFlag);
  }

  // ---------------------------------------------------------------------------
  // The order that is wanted
  // ---------------------------------------------------------------------------

  /** Groups of comparable types, in ascending order. */
  function Group(v: Value): nat {
    match v
    case Node(_) => 1
    case Edge(_) => 2
    case Array(_) => 3
    case String(_) => 4
    case Bool(_) => 5
    case Int(_) => 6
    case Double(_) => 6
    case Null => 7
    case Point(_, _) => 8
  }

  function Magnitude(v: Value): real
    requires v.Int? || v.Double?
  {
    if v.Int? then v.i as real else v.d
  }

  function Order(a: Value, b: Value): int
    decreases a, 1
  {
    if Group(a) != Group(b) then Sign(Group(a) - Group(b))
    else
      match a
      case Null => 0
      case Bool(x) => if x == b.b then 0 else if b.b then -1 else 1
      case Int(_) => RealSign(Magnitude(a) - Magnitude(b))
      case Double(_) => RealSign(Magnitude(a) - Magnitude(b))
      case String(s) => StringCompare(s, b.s)
      case Node(id) => Sign(id - b.id)
      case Edge(id) => Sign(id - b.id)
      case Point(lon, lat) => if lon != b.lon then RealSign(lon - b.lon) else RealSign(lat - b.lat)
      case Array(es) => Lexicographic(es, b.elements)
  }

  /** The first difference decides; of equal beginnings the shorter comes first. */
  function Lexicographic(a: seq<Value>, b: seq<Value>): int
    decreases a, 0
  {
    if a == [] && b == [] then 0
    else if a == [] then -1
    else if b == [] then 1
    else if Order(a[0], b[0]) != 0 then Order(a[0], b[0])
    else Lexicographic(a[1..], b[1..])
  }

  // ---------------------------------------------------------------------------
  // The order is a total preorder
  // ---------------------------------------------------------------------------

  lemma {:induction false} StringAntisymmetric(a: seq<Byte>, b: seq<Byte>)
    ensures StringCompare(a, b) == -StringCompare(b, a)
    decreases |a|
  {
    if a != [] && b != [] { StringAntisymmetric(a[1..], b[1..]); }
  }

  lemma {:induction false} StringTransitive(a: seq<Byte>, b: seq<Byte>, c: seq<Byte>)
    requires StringCompare(a, b) <= 0 && StringCompare(b, c) <= 0
    ensures StringCompare(a, c) <= 0
    ensures StringCompare(a, c) == 0 ==> StringCompare(a, b) == 0 && StringCompare(b, c) == 0
    decreases |a|
  {
    if a != [] && b != [] && c != [] && a[0] == b[0] == c[0] { StringTransitive(a[1..], b[1..], c[1..]); }
  }

  lemma {:induction false} OrderAntisymmetric(a: Value, b: Value)
    ensures Order(a, b) == -Order(b, a)
    decreases a, 1
  {
    if a.Array? && b.Array? { LexicographicAntisymmetric(a.elements, b.elements); }
    if a.String? && b.String? { StringAntisymmetric(a.s, b.s); }
  }

  lemma {:induction false} LexicographicAntisymmetric(a: seq<Value>, b: seq<Value>)
    ensures Lexicographic(a, b) == -Lexicographic(b, a)
    decreases a, 0
  {
    if a != [] && b != [] {
      OrderAntisymmetric(a[0], b[0]);
      LexicographicAntisymmetric(a[1..], b[1..]);
    }
  }

  /** Ascending twice ascends, and stays level only if both steps do. */
  lemma {:induction false} OrderTransitive(a: Value, b: Value, c: Value)
    requires Order(a, b) <= 0 && Order(b, c) <= 0
    ensures Order(a, c) <= 0
    ensures Order(a, c) == 0 ==> Order(a, b) == 0 && Order(b, c) == 0
    decreases a, 1
  {
    if Group(a) == Group(b) == Group(c) {
      if a.Array? { LexicographicTransitive(a.elements, b.elements, c.elements); }
      if a.String? { StringTransitive(a.s, b.s, c.s); }
    }
  }

  lemma {:induction false} LexicographicTransitive(a: seq<Value>, b: seq<Value>, c: seq<Value>)
    requires Lexicographic(a, b) <= 0 && Lexicographic(b, c) <= 0
    ensures Lexicographic(a, c) <= 0
    ensures Lexicographic(a, c) == 0 ==> Lexicographic(a, b) == 0 && Lexicographic(b, c) == 0
    decreases a, 0
  {
    if a != [] && b != [] && c != [] {
      OrderTransitive(a[0], b[0], c[0]);
      if Order(a[0], b[0]) == 0 && Order(b[0], c[0]) == 0 {
        LexicographicTransitive(a[1..], b[1..], c[1..]);
      }
    }
  }

  // ---------------------------------------------------------------------------
  // The source computes this order
  // ---------------------------------------------------------------------------

  /** The order of the first `n` elements only. */
  function LexicographicTo(a: seq<Value>, b: seq<Value>, n: nat): int
    requires n <= |a| && n <= |b|
  {
    if n == 0 then 0
    else
      var before := LexicographicTo(a, b, n - 1);
      if before != 0 then before else Order(a[n - 1], b[n - 1])
  }

  /** The conversion of `x` lies on the same side of `y` as `x` itself. */
  predicate SameSide(x: int, y: real) {
    Representable(x) || (y < ToDouble(x) && y < x as real) || (ToDouble(x) < y && x as real < y)
  }

  /** A difference keeps its sign when it is cut to 32 bits. */
  predicate SignKept(d: int) {
    d == 0 || (d > 0 && 0 < d % TWO_32 < TWO_31) || (d < 0 && d % TWO_32 >= TWO_31)
  }

  /** Machine arithmetic decides between `a` and `b` as exact arithmetic does: differences
      of integers fit 64 bits, conversions to doubles and cut differences of IDs keep the
      side, and so for the elements of arrays up to the first difference. */
  ghost predicate ExactPair(a: Value, b: Value)
    decreases a
  {
    match (a, b)
    case (Int(x), Int(y)) => -TWO_63 <= x - y < TWO_63
    case (Int(x), Double(y)) => SameSide(x, y)
    case (Double(x), Int(y)) => SameSide(y, x)
    case (Node(x), Node(y)) => SignKept(x - y)
    case (Edge(x), Edge(y)) => SignKept(x - y)
    case (Array(x), Array(y)) =>
      forall i :: 0 <= i < |x| && i < |y| && LexicographicTo(x, y, i) == 0 ==> ExactPair(x[i], y[i])
    case _ => true
  }

  /** Values any two of which are decided exactly. */
  ghost predicate Exact(v: Value) {
    match v
    case Int(i) => Representable(i) && -TWO_63 <= 2 * i < TWO_63
    case Node(id) => id < TWO_31
    case Edge(id) => id < TWO_31
    case Array(es) => forall i :: 0 <= i < |es| ==> Exact(es[i])
    case _ => true
  }

  lemma {:induction false} ExactValuesPair(a: Value, b: Value)
    requires Exact(a) && Exact(b)
    ensures ExactPair(a, b)
    decreases a
  {
    if a.Array? && b.Array? {
      forall i | 0 <= i < |a.elements| && i < |b.elements|
        ensures ExactPair(a.elements[i], b.elements[i])
      {
        ExactValuesPair(a.elements[i], b.elements[i]);
      }
    }
  }

  lemma {:induction false} ExactWithItself(a: Value)
    ensures ExactPair(a, a)
    decreases a
  {
    if a.Array? {
      forall i | 0 <= i < |a.elements|
        ensures ExactPair(a.elements[i], a.elements[i])
      {
        ExactWithItself(a.elements[i]);
      }
    }
  }

  lemma {:induction false} LexicographicSplit(a: seq<Value>, b: seq<Value>, n: nat)
    requires n <= |a| && n <= |b|
    ensures Lexicographic(a, b)
            == if LexicographicTo(a, b, n) != 0 then LexicographicTo(a, b, n) else Lexicographic(a[n..], b[n..])
  {
    if n == 0 {
      assert a[0..] == a && b[0..] == b;
    } else {
      LexicographicSplit(a, b, n - 1);
      assert a[n - 1..][1..] == a[n..] && b[n - 1..][1..] == b[n..];
    }
  }

  /** On a pair decided exactly the sign of the comparison is the order. */
  lemma {:induction false} CompareIsOrder(a: Value, b: Value)
    requires ExactPair(a, b)
    ensures Sign(Compare(a, b).sign) == Order(a, b)
    ensures Compare(a, b).flag == Disjoint ==> Order(a, b) != 0
    decreases a, 1
  {
    if a.Array? && b.Array? {
      CompareArraysIsOrder(a.elements, b.elements);
    } else if a.Int? && b.Int? {
      assert Wrap64(a.i - b.i) == a.i - b.i;
    } else {
      DisjointDiffer(a, b);
      hide Order, ExactPair, Compare;
      ScalarsExact(a, b);
    }
  }

  /** Of values other than arrays, exactly these pairs are compared correctly. */
  lemma ScalarsExact(a: Value, b: Value)
    requires !(a.Array? && b.Array?) && (a.Int? && b.Int? ==> Fits(a.i) && Fits(b.i))
    ensures Sign(Compare(a, b).sign) == Order(a, b) <==> ExactPair(a, b)
  {
    if a.Int? && b.Int? {
      IntegersExact(a.i, b.i);
    } else if a.String? && b.String? {
      StringSign(a.s, b.s);
    }
  }

  /** Integers have 64 bits. */
  predicate Fits(i: int) { -TWO_63 <= i < TWO_63 }

  lemma {:induction false} StringSign(a: seq<Byte>, b: seq<Byte>)
    ensures -1 <= StringCompare(a, b) <= 1
    decreases |a|
  {
    if a != [] && b != [] { StringSign(a[1..], b[1..]); }
  }

  /** What the comparison tells of the first `n` elements. */
  function ToldTo(a: seq<Value>, b: seq<Value>, n: nat): int
    requires n <= |a| && n <= |b|
  {
    if n == 0 then 0
    else
      var before := ToldTo(a, b, n - 1);
      if before != 0 then before else Sign(Compare(a[n - 1], b[n - 1]).sign)
  }

  /** Only the first elements told apart count, whatever is counted after them. */
  lemma {:induction false} TallyTells(a: seq<Value>, b: seq<Value>, n: nat)
    requires n <= |a| && n <= |b|
    ensures var t := TallyOf(a, b, n);
      && Sign(t.notEqual) == ToldTo(a, b, n)
      && t.nulls <= t.unequal <= n
      && (t.unequal > t.nulls ==> t.notEqual != 0)
  {
    if n > 0 {
      TallyTells(a, b, n - 1);
      DisjointDiffer(a[n - 1], b[n - 1]);
      hide Compare;
    }
  }

  /** Comparing arrays tells of the first elements told apart, or else of the lengths: the
      counting of nulls and differences does not change what decides. */
  lemma ArraysTold(a: seq<Value>, b: seq<Value>)
    ensures var common := if |a| <= |b| then |a| else |b|;
      Sign(CompareArrays(a, b).sign)
      == if ToldTo(a, b, common) != 0 then ToldTo(a, b, common) else Sign(|a| - |b|)
    ensures CompareArrays(a, b).flag != Disjoint
  {
    TallyTells(a, b, if |a| <= |b| then |a| else |b|);
    hide TallyOf, ToldTo;
  }

  lemma {:induction false} ToldIsOrder(a: seq<Value>, b: seq<Value>, n: nat)
    requires n <= |a| && n <= |b|
    requires forall i :: 0 <= i < n && LexicographicTo(a, b, i) == 0 ==> ExactPair(a[i], b[i])
    ensures ToldTo(a, b, n) == LexicographicTo(a, b, n)
    decreases a, 0, n
  {
    if n > 0 {
      ToldIsOrder(a, b, n - 1);
      if LexicographicTo(a, b, n - 1) == 0 { CompareIsOrder(a[n - 1], b[n - 1]); }
    }
  }

  lemma DisjointDiffer(a: Value, b: Value)
    ensures Compare(a, b).flag == Disjoint ==> Compare(a, b).sign != 0
  {
  }

  /** On arrays decided exactly the first difference decides, or else the length. */
  lemma {:induction false} CompareArraysIsOrder(a: seq<Value>, b: seq<Value>)
    requires forall i :: 0 <= i < |a| && i < |b| && LexicographicTo(a, b, i) == 0 ==> ExactPair(a[i], b[i])
    ensures Sign(CompareArrays(a, b).sign) == Lexicographic(a, b)
    ensures CompareArrays(a, b).flag != Disjoint
    decreases a, 1
  {
    var common := if |a| <= |b| then |a| else |b|;
    ArraysTold(a, b);
    ToldIsOrder(a, b, common);
    LexicographicSplit(a, b, common);
  }

  // ---------------------------------------------------------------------------
  // Which arrays are compared correctly
  // ---------------------------------------------------------------------------

  predicate Told(a: Value, b: Value) { Compare(a, b).sign != 0 }

  predicate Differ(a: Value, b: Value) { Order(a, b) != 0 }

  /** Up to `k` the comparison tells nothing apart, and nothing differs. */
  predicate TiedTo(a: seq<Value>, b: seq<Value>, k: nat) {
    k <= |a| && k <= |b| && forall i :: 0 <= i < k ==> !Told(a[i], b[i]) && !Differ(a[i], b[i])
  }

  /** What the comparison tells of what follows the first `k` elements. */
  function ToldAfter(a: seq<Value>, b: seq<Value>, k: nat): int
    requires k <= |a| && k <= |b|
  {
    Sign(CompareArrays(a[k..], b[k..]).sign)
  }

  lemma {:induction false} ToldSplit(a: seq<Value>, b: seq<Value>, k: nat, n: nat)
    requires k <= n <= |a| && n <= |b|
    ensures ToldTo(a, b, n) == if ToldTo(a, b, k) != 0 then ToldTo(a, b, k) else ToldTo(a[k..], b[k..], n - k)
    decreases n
  {
    hide Compare;
    if n > k { ToldSplit(a, b, k, n - 1); }
  }

  lemma {:induction false} NothingToldTo(a: seq<Value>, b: seq<Value>, k: nat)
    requires TiedTo(a, b, k)
    ensures ToldTo(a, b, k) == 0 && LexicographicTo(a, b, k) == 0
  {
    hide Compare, Order;
    if k > 0 { NothingToldTo(a, b, k - 1); }
  }

  /** A tied beginning takes no part in either comparison. */
  lemma SkipTied(a: seq<Value>, b: seq<Value>, k: nat)
    requires TiedTo(a, b, k)
    ensures Sign(CompareArrays(a, b).sign) == ToldAfter(a, b, k)
    ensures Lexicographic(a, b) == Lexicographic(a[k..], b[k..])
  {
    NothingToldTo(a, b, k);
    LexicographicSplit(a, b, k);
    ToldSplit(a, b, k, if |a| <= |b| then |a| else |b|);
    ArraysTold(a, b);
    ArraysTold(a[k..], b[k..]);
    hide CompareArrays, ToldTo, Lexicographic, LexicographicTo;
  }

  lemma FirstDecides(a: seq<Value>, b: seq<Value>)
    requires a != [] && b != []
    ensures Sign(CompareArrays(a, b).sign)
            == if Told(a[0], b[0]) then Sign(Compare(a[0], b[0]).sign) else ToldAfter(a, b, 1)
  {
    ArraysTold(a, b);
    ArraysTold(a[1..], b[1..]);
    ToldSplit(a, b, 1, if |a| <= |b| then |a| else |b|);
    assert ToldTo(a, b, 1) == Sign(Compare(a[0], b[0]).sign) by { assert ToldTo(a, b, 0) == 0; hide Compare; }
    hide CompareArrays, ToldTo, Compare;
  }

  /** Arrays tied all along are compared correctly. */
  lemma TiedArraysExact(a: seq<Value>, b: seq<Value>, k: nat)
    requires TiedTo(a, b, k) && (k == |a| || k == |b|)
    ensures Sign(CompareArrays(a, b).sign) == Lexicographic(a, b)
  {
    SkipTied(a, b, k);
    ArraysTold(a[k..], b[k..]);
  }

  /** Exactly which arrays are compared correctly, by the first elements `k` that are told
      apart or differ. If they are told apart and differ, they alone decide. If they differ
      but are not told apart, what follows them has to make up for it; if they are told apart
      but do not differ, what is told of them has to be the order of what follows. */
  lemma ArraysExact(a: seq<Value>, b: seq<Value>, k: nat)
    requires TiedTo(a, b, k) && k < |a| && k < |b| && (Told(a[k], b[k]) || Differ(a[k], b[k]))
    ensures Sign(CompareArrays(a, b).sign) == Lexicographic(a, b) <==>
      if !Told(a[k], b[k]) then ToldAfter(a, b, k + 1) == Order(a[k], b[k])
      else if !Differ(a[k], b[k]) then Sign(Compare(a[k], b[k]).sign) == Lexicographic(a[k + 1..], b[k + 1..])
      else Sign(Compare(a[k], b[k]).sign) == Order(a[k], b[k])
  {
    SkipTied(a, b, k);
    var x, y := a[k..], b[k..];
    FirstDecides(x, y);
    assert x[1..] == a[k + 1..] && y[1..] == b[k + 1..];
    assert Lexicographic(x, y) == if Differ(x[0], y[0]) then Order(x[0], y[0]) else Lexicographic(x[1..], y[1..]);
    hide *;
  }

  /** Arrays of other values that are told apart where they first differ are compared
      correctly exactly when these two are decided exactly. */
  lemma FlatArraysExact(a: seq<Value>, b: seq<Value>, k: nat)
    requires TiedTo(a, b, k) && k < |a| && k < |b| && Told(a[k], b[k]) && Differ(a[k], b[k])
    requires !(a[k].Array? && b[k].Array?) && (a[k].Int? && b[k].Int? ==> Fits(a[k].i) && Fits(b[k].i))
    ensures Sign(CompareArrays(a, b).sign) == Lexicographic(a, b) <==> ExactPair(a[k], b[k])
  {
    ArraysExact(a, b, k);
    ScalarsExact(a[k], b[k]);
  }

  /** Nodes 2^32 apart are not told apart; what follows may make up for that, or not. */
  lemma TieMadeUpFor(x: nat)
    ensures var a, b := [Node(x + TWO_32), Int(1)], [Node(x), Int(0)];
      !ExactPair(a[0], b[0]) && Sign(CompareArrays(a, b).sign) == Lexicographic(a, b)
    ensures var a, b := [Node(x + TWO_32), Int(0)], [Node(x), Int(1)];
      !ExactPair(a[0], b[0]) && Sign(CompareArrays(a, b).sign) != Lexicographic(a, b)
  {
    NodesMadeUpFor(x, 1, 0);
    NodesMadeUpFor(x, 0, 1);
  }

  lemma NodesMadeUpFor(x: nat, i: int, j: int)
    requires Fits(i) && Fits(j) && Fits(i - j)
    ensures var a, b := [Node(x + TWO_32), Int(i)], [Node(x), Int(j)];
      !ExactPair(a[0], b[0]) && (Sign(CompareArrays(a, b).sign) == Lexicographic(a, b) <==> i > j)
  {
    var a, b := [Node(x + TWO_32), Int(i)], [Node(x), Int(j)];
    assert !Told(a[0], b[0]) && Order(a[0], b[0]) == 1;
    ArraysExact(a, b, 0);
    assert a[1..] == [Int(i)] && b[1..] == [Int(j)];
    FirstDecides(a[1..], b[1..]);
    assert Compare(Int(i), Int(j)).sign == Sign(i - j);
    hide ToldTo, Lexicographic, ExactPair, Compare;
    if i == j { ArraysTold(a[1..], b[1..]); }
  }

  ghost predicate ExactBothWays(a: Value, b: Value) { ExactPair(a, b) && ExactPair(b, a) }

  /** On values decided exactly the comparison used for sorting is a total preorder. */
  lemma ComparisonIsPreorder(a: Value, b: Value, c: Value)
    requires ExactBothWays(a, b) && ExactBothWays(b, c) && ExactBothWays(a, c)
    ensures Sign(Compare(a, b).sign) == -Sign(Compare(b, a).sign)
    ensures Compare(a, a).sign == 0
    ensures Compare(a, b).sign <= 0 && Compare(b, c).sign <= 0 ==> Compare(a, c).sign <= 0
    ensures Compare(a, b).sign == 0 && Compare(b, c).sign == 0 ==> Compare(a, c).sign == 0
  {
    hide Compare, Order;
    CompareIsOrder(a, b);
    CompareIsOrder(b, a);
    CompareIsOrder(b, c);
    CompareIsOrder(a, c);
    ExactWithItself(a);
    CompareIsOrder(a, a);
    OrderAntisymmetric(a, b);
    OrderAntisymmetric(a, a);
    OrderAntisymmetric(b, c);
    OrderAntisymmetric(a, c);
    if Order(a, b) <= 0 && Order(b, c) <= 0 { OrderTransitive(a, b, c); }
    if Order(c, b) <= 0 && Order(b, a) <= 0 { OrderTransitive(c, b, a); }
  }

  // ---------------------------------------------------------------------------
  // Where the arithmetic is not exact
  // ---------------------------------------------------------------------------

  /** Two integers are ordered correctly exactly when their difference fits 64 bits. */
  lemma IntegersExact(x: int, y: int)
    requires Fits(x) && Fits(y)
    ensures Compare(Int(x), Int(y)).sign == Order(Int(x), Int(y)) <==> -TWO_63 <= x - y < TWO_63
  {
    var d := x - y;
    if d < -TWO_63 {
      assert d % TWO_64 == d + TWO_64;
    } else if d >= TWO_63 {
      assert d % TWO_64 == d;
    }
    assert RealSign(x as real - y as real) == Sign(d);
  }

  /** Beyond that the comparison is not even antisymmetric. */
  lemma SmallestIntegerBelowAndAboveZero()
    ensures Compare(Int(-TWO_63), Int(0)).sign < 0 && Compare(Int(0), Int(-TWO_63)).sign < 0
  {
  }

  /** Entities are ordered by their IDs exactly when the difference of the IDs, taken modulo
      2^32, keeps its sign; so whenever they differ by less than 2^31, ... */
  lemma EntitiesExact(x: nat, y: nat)
    ensures var d := (x - y) % TWO_32;
      Sign(Compare(Node(x), Node(y)).sign) == Order(Node(x), Node(y)) <==>
      x == y || (x > y && 0 < d < TWO_31) || (x < y && d >= TWO_31)
    ensures Compare(Edge(x), Edge(y)).sign == Compare(Node(x), Node(y)).sign
    ensures -TWO_31 < x - y < TWO_31 ==> Sign(Compare(Node(x), Node(y)).sign) == Order(Node(x), Node(y))
  {
    assert -TWO_31 < x - y < TWO_31 ==> Truncate32(x - y) == x - y;
  }

  /** ... but at 2^31 each precedes the other, and at 2^32 two nodes are taken for equal. */
  lemma DistantEntitiesConfused(x: nat)
    ensures Compare(Node(x + TWO_31), Node(x)).sign < 0 && Compare(Node(x), Node(x + TWO_31)).sign < 0
    ensures Compare(Node(x + TWO_32), Node(x)).sign == 0
  {
  }

  /** An integer and a double are ordered correctly exactly when the conversion of the
      integer keeps its side of the double, ... */
  lemma MixedExact(x: int, y: real)
    ensures Sign(Compare(Int(x), Double(y)).sign) == Order(Int(x), Double(y)) <==> SameSide(x, y)
    ensures Sign(Compare(Double(y), Int(x)).sign) == Order(Double(y), Int(x)) <==> SameSide(x, y)
  {
  }

  /** ... and so against every double exactly when the integer is representable. */
  lemma RepresentableIsOrdered(x: int)
    ensures (forall y :: Sign(Compare(Int(x), Double(y)).sign) == Order(Int(x), Double(y))) <==> Representable(x)
  {
    forall y
      ensures Sign(Compare(Int(x), Double(y)).sign) == Order(Int(x), Double(y)) <==> SameSide(x, y)
    {
      MixedExact(x, y);
    }
    assert SameSide(x, ToDouble(x)) <==> Representable(x);
  }

  /** Every other integer equals a double that equals a different integer. */
  lemma UnrepresentableBreaksEquality(x: int) returns (z: int)
    requires !Representable(x)
    ensures z != x && Compare(Int(x), Double(z as real)).sign == 0 && Compare(Double(z as real), Int(z)).sign == 0
  {
    var n: int := RoundMagnitude(Abs(x));
    RoundedIsRepresentable(Abs(x));
    hide RoundMagnitude;
    z := if x < 0 then -n else n;
    assert ToDouble(x) == z as real;
    assert n == 0 ==> ToDouble(0) == 0.0;
    assert ToDouble(z) == z as real;
  }

  /** The first such integer. */
  lemma FirstUnrepresentable()
    ensures !Representable(TWO_53 + 1) && Representable(TWO_53)
  {
    assert Scale(TWO_53 / 2) == 1;
    assert Scale(TWO_53 + 1) == 2 * Scale((TWO_53 + 1) / 2) == 2;
    assert Scale(TWO_53) == 2;
    RepresentableExact(TWO_53 + 1);
    RepresentableExact(TWO_53);
  }
}
