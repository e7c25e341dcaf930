/** The binary format of bulk insertion: property values, headers, and the loops
    that create nodes and edges.

    The source reads without looking at the end of the buffer and asserts that type
    bytes are known; here reading past the end or an unknown type is `Malformed`.
    Doubles are kept as their 64 bit pattern. Byte order is little endian. */
module BulkInsert {
  import opened Options

  type Byte = b: int | 0 <= b < 256
  type Data = seq<Byte>

  const TWO_32: int := 0x1_0000_0000
  const TWO_63: int := 0x8000_0000_0000_0000
  const TWO_64: int := 0x1_0000_0000_0000_0000
  const NUL: Byte := 0
  const COLON: Byte := 58

  const BI_NULL: Byte := 0
  const BI_BOOL: Byte := 1
  const BI_DOUBLE: Byte := 2
  const BI_STRING: Byte := 3
  const BI_LONG: Byte := 4
  const BI_ARRAY: Byte := 5

  datatype Value =
    | Null
    | Bool(b: bool)
    | Double(bits: nat)
    | String(s: Data)
    | Long(i: int)
    | Array(elements: seq<Value>)

  datatype Read<+T> = Malformed | Read(value: T, next: nat)

  /** The given bytes stand in the data from position `idx` on. */
  ghost predicate At(data: Data, idx: nat, bytes: Data) {
    idx + |bytes| <= |data| && data[idx..idx + |bytes|] == bytes
  }

  lemma AtSplit(data: Data, idx: nat, a: Data, b: Data)
    requires At(data, idx, a + b)
    ensures At(data, idx, a) && At(data, idx + |a|, b)
  {
    var c := a + b;
    assert a == c[..|a|] && b == c[|a|..];
    assert data[idx..idx + |a|] == data[idx..idx + |c|][..|a|];
    assert data[idx + |a|..idx + |c|] == data[idx..idx + |c|][|a|..];
  }

  lemma AtByte(data: Data, idx: nat, bytes: Data, k: nat)
    requires At(data, idx, bytes) && k < |bytes|
    ensures idx + |bytes| <= |data| && data[idx + k] == bytes[k]
  {
    assert data[idx..idx + |bytes|][k] == bytes[k];
  }

  // ---------------------------------------------------------------------------
  // Numbers
  // ---------------------------------------------------------------------------

  /** The low `k` bytes of `n`, least significant first. */
  function ToLittle(n: nat, k: nat): (r: Data)
    ensures |r| == k
  {
    if k == 0 then [] else [n % 256] + ToLittle(n / 256, k - 1)
  }

  function FromLittle(bytes: Data): (n: nat) {
    if bytes == [] then 0 else bytes[0] + 256 * FromLittle(bytes[1..])
  }

  function Power256(k: nat): (p: nat)
    ensures p >= 1
  {
    if k == 0 then 1 else 256 * Power256(k - 1)
  }

  lemma {:induction false} LittleRoundTrip(n: nat, k: nat)
    requires n < Power256(k)
    ensures FromLittle(ToLittle(n, k)) == n
    decreases k
  {
    if k > 0 {
      assert n / 256 < Power256(k - 1);
      LittleRoundTrip(n / 256, k - 1);
      assert ToLittle(n, k)[1..] == ToLittle(n / 256, k - 1);
    }
  }

  lemma Powers()
    ensures Power256(8) == TWO_64 && Power256(4) == TWO_32
  {
    assert Power256(4) == 256 * (256 * (256 * (256 * Power256(0))));
    assert Power256(8) == 256 * (256 * (256 * (256 * Power256(4))));
  }

  function Unsigned(i: int): int {
    i % TWO_64
  }

  function Signed(n: int): int {
    if n < TWO_63 then n else n - TWO_64
  }

  /** An unsigned number of `k` bytes. */
  function ReadLittle(data: Data, idx: nat, k: nat): (r: Read<nat>) {
    if idx + k > |data| then Malformed else Read(FromLittle(data[idx..idx + k]), idx + k)
  }

  lemma ReadLittleEncoded(data: Data, idx: nat, n: nat, k: nat)
    requires At(data, idx, ToLittle(n, k)) && n < Power256(k)
    ensures ReadLittle(data, idx, k) == Read(n, idx + k)
  {
    LittleRoundTrip(n, k);
  }

  // ---------------------------------------------------------------------------
  // Strings
  // ---------------------------------------------------------------------------

  /** Distance from `idx` to the terminator. */
  function StringLength(data: Data, idx: nat): (r: Read<nat>)
    ensures r.Read? ==> idx + r.value < |data| && r.next == idx + r.value + 1
    decreases |data| - idx
  {
    if idx >= |data| then Malformed
    else if data[idx] == NUL then Read(0, idx + 1)
    else
      var r := StringLength(data, idx + 1);
      if r.Malformed? then Malformed else Read(r.value + 1, r.next)
  }

  function ReadString(data: Data, idx: nat): (r: Read<Data>) {
    var n := StringLength(data, idx);
    if n.Malformed? then Malformed else Read(data[idx..idx + n.value], n.next)
  }

  lemma {:induction false} StringLengthEncoded(data: Data, idx: nat, s: Data)
    requires At(data, idx, s + [NUL]) && NUL !in s
    ensures StringLength(data, idx) == Read(|s|, idx + |s| + 1)
    decreases |s|
  {
    AtByte(data, idx, s + [NUL], 0);
    if s != [] {
      assert s + [NUL] == [s[0]] + (s[1..] + [NUL]);
      AtSplit(data, idx, [s[0]], s[1..] + [NUL]);
      StringLengthEncoded(data, idx + 1, s[1..]);
    }
  }

  lemma ReadStringEncoded(data: Data, idx: nat, s: Data)
    requires At(data, idx, s + [NUL]) && NUL !in s
    ensures ReadString(data, idx) == Read(s, idx + |s| + 1)
  {
    StringLengthEncoded(data, idx, s);
    AtSplit(data, idx, s, [NUL]);
  }

  // ---------------------------------------------------------------------------
  // Property values
  // ---------------------------------------------------------------------------

  /** Values the format can hold. The array index has 32 bits. */
  ghost predicate Encodable(v: Value) {
    match v
    case Double(bits) => bits < TWO_64
    case String(s) => NUL !in s
    case Long(i) => -TWO_63 <= i < TWO_63
    case Array(es) => |es| < TWO_32 && forall i :: 0 <= i < |es| ==> Encodable(es[i])
    case _ => true
  }

  /** The documented format of a value. */
  function Encode(v: Value): (r: Data)
    ensures r != []
    decreases v, 1
  {
    match v
    case Null => [BI_NULL]
    case Bool(b) => [BI_BOOL, if b then 1 else 0]
    case Double(bits) => [BI_DOUBLE] + ToLittle(bits, 8)
    case String(s) => [BI_STRING] + (s + [NUL])
    case Long(i) => [BI_LONG] + ToLittle(Unsigned(i), 8)
    case Array(es) => [BI_ARRAY] + (ToLittle(|es|, 8) + EncodeAll(es))
  }

  function EncodeAll(vs: seq<Value>): (r: Data)
    decreases vs, 0
  {
    if vs == [] then [] else EncodeAll(vs[..|vs| - 1]) + Encode(vs[|vs| - 1])
  }

  /** Reading one value: the type byte decides how it goes on. */
  function ReadValue(data: Data, idx: nat): (r: Read<Value>)
    ensures r.Read? ==> idx < r.next <= |data|
    decreases |data| - idx, 0
  {
    if idx >= |data| then Malformed
    else
      var t, i := data[idx], idx + 1;
      if t == BI_NULL then Read(Null, i)
      else if t == BI_BOOL then
        if i >= |data| then Malformed else Read(Bool(data[i] != 0), i + 1)
      else if t == BI_DOUBLE then
        var n := ReadLittle(data, i, 8);
        if n.Malformed? then Malformed else Read(Double(n.value), n.next)
      else if t == BI_LONG then
        var n := ReadLittle(data, i, 8);
        if n.Malformed? then Malformed else Read(Long(Signed(n.value)), n.next)
      else if t == BI_STRING then
        var s := ReadString(data, i);
        if s.Malformed? then Malformed else Read(String(s.value), s.next)
      else if t == BI_ARRAY then
        var n := ReadLittle(data, i, 8);
        if n.Malformed? then Malformed
        else
          var es := ReadValues(data, n.next, if Signed(n.value) < 0 then 0 else Signed(n.value));
          if es.Malformed? then Malformed else Read(Array(es.value), es.next)
      else Malformed
  }

  function ReadValues(data: Data, idx: nat, n: nat): (r: Read<seq<Value>>)
    requires idx <= |data|
    ensures r.Read? ==> idx <= r.next <= |data| && |r.value| == n
    ensures r.Read? && n > 0 ==> idx < r.next
    decreases |data| - idx, 1, n
  {
    if n == 0 then Read([], idx)
    else
      var front := ReadValues(data, idx, n - 1);
      if front.Malformed? then Malformed
      else
        var last := ReadValue(data, front.next);
        if last.Malformed? then Malformed else Read(front.value + [last.value], last.next)
  }

  /** Decoding inverts encoding and moves on by exactly the encoded length. */
  lemma {:induction false} ReadEncoded(data: Data, idx: nat, v: Value)
    requires Encodable(v) && At(data, idx, Encode(v))
    ensures ReadValue(data, idx) == Read(v, idx + |Encode(v)|)
    decreases v, 1
  {
    hide ToLittle, FromLittle, At, StringLength, ReadLittle, ReadString, EncodeAll, ReadValues, Power256;
    Powers();
    AtByte(data, idx, Encode(v), 0);
    match v
    case Null =>
    case Bool(b) => AtByte(data, idx, Encode(v), 1);
    case Double(bits) =>
      AtSplit(data, idx, [BI_DOUBLE], ToLittle(bits, 8));
      ReadLittleEncoded(data, idx + 1, bits, 8);
    case String(s) =>
      AtSplit(data, idx, [BI_STRING], s + [NUL]);
      ReadStringEncoded(data, idx + 1, s);
    case Long(i) =>
      AtSplit(data, idx, [BI_LONG], ToLittle(Unsigned(i), 8));
      ReadLittleEncoded(data, idx + 1, Unsigned(i), 8);
    case Array(es) =>
      AtSplit(data, idx, [BI_ARRAY], ToLittle(|es|, 8) + EncodeAll(es));
      AtSplit(data, idx + 1, ToLittle(|es|, 8), EncodeAll(es));
      ReadLittleEncoded(data, idx + 1, |es|, 8);
      ReadAllEncoded(data, idx + 9, es);
  }

  lemma {:induction false} ReadAllEncoded(data: Data, idx: nat, vs: seq<Value>)
    requires (forall i :: 0 <= i < |vs| ==> Encodable(vs[i])) && At(data, idx, EncodeAll(vs))
    ensures ReadValues(data, idx, |vs|) == Read(vs, idx + |EncodeAll(vs)|)
    decreases vs, 0
  {
    hide Encode, ReadValue, ToLittle, At, Encodable;
    if vs != [] {
      var k := |vs| - 1;
      AtSplit(data, idx, EncodeAll(vs[..k]), Encode(vs[k]));
      ReadAllEncoded(data, idx, vs[..k]);
      ReadEncoded(data, idx + |EncodeAll(vs[..k])|, vs[k]);
      assert vs == vs[..k] + [vs[k]];
    }
  }

  /** Reads a value, advancing the index. */
  method ReadProperty(data: Data, idx: nat) returns (r: Read<Value>)
    ensures r == ReadValue(data, idx)
    decreases |data| - idx
  {
    if idx >= |data| { return Malformed; }
    var t, i := data[idx], idx + 1;
    if t == BI_NULL {
      return Read(Null, i);
    } else if t == BI_BOOL {
      if i >= |data| { return Malformed; }
      return Read(Bool(data[i] != 0), i + 1);
    } else if t == BI_DOUBLE || t == BI_LONG {
      var n := ReadLittle(data, i, 8);
      if n.Malformed? { return Malformed; }
      return Read(if t == BI_DOUBLE then Double(n.value) else Long(Signed(n.value)), n.next);
    } else if t == BI_STRING {
      var s := ReadString(data, i);
      if s.Malformed? { return Malformed; }
      return Read(String(s.value), s.next);
    } else if t == BI_ARRAY {
      var n := ReadLittle(data, i, 8);
      if n.Malformed? { return Malformed; }
      var len := Signed(n.value);
      var es: seq<Value>, next := [], n.next;
      var j := 0;
      while j < len
        invariant 0 <= j && (j <= len || j == 0)
        invariant ReadValues(data, n.next, j) == Read(es, next)
      {
        var e := ReadProperty(data, next);
        if e.Malformed? {
          StopsEarly(data, n.next, j + 1, len);
          return Malformed;
        }
        es, next := es + [e.value], e.next;
        j := j + 1;
      }
      return Read(Array(es), next);
    }
    return Malformed;
  }

  lemma {:induction false} StopsEarly(data: Data, idx: nat, j: nat, n: nat)
    requires j <= n && idx <= |data| && ReadValues(data, idx, j).Malformed?
    ensures ReadValues(data, idx, n).Malformed?
    decreases n
  {
    if j < n { StopsEarly(data, idx, j, n - 1); }
  }

  // ---------------------------------------------------------------------------
  // Headers
  // ---------------------------------------------------------------------------

  /** Position of the first colon, or the length if there is none. */
  function FirstColon(s: Data): (i: nat)
    ensures i <= |s| && COLON !in s[..i] && (i < |s| ==> s[i] == COLON)
  {
    if s == [] || s[0] == COLON then 0 else 1 + FirstColon(s[1..])
  }

  /** The parts between colons. */
  function Split(s: Data): (r: seq<Data>)
    ensures r != []
  {
    var i := FirstColon(s);
    if i == |s| then [s] else [s[..i]] + Split(s[i + 1..])
  }

  function Join(labels: seq<Data>): (r: Data)
    requires labels != []
  {
    if |labels| == 1 then labels[0] else labels[0] + [COLON] + Join(labels[1..])
  }

  /** A label as the format can hold it. */
  predicate IsLabel(s: Data) {
    NUL !in s && COLON !in s
  }

  lemma {:induction false} SplitJoin(labels: seq<Data>)
    requires labels != [] && forall i :: 0 <= i < |labels| ==> IsLabel(labels[i])
    ensures Split(Join(labels)) == labels && NUL !in Join(labels)
    decreases |labels|
  {
    if |labels| > 1 {
      var rest := Join(labels[1..]);
      SplitJoin(labels[1..]);
      SplitFirst(labels[0], rest);
      assert Join(labels) == labels[0] + [COLON] + rest;
      hide Split, Join;
      assert [labels[0]] + labels[1..] == labels;
    } else {
      var s := labels[0];
      assert s[..|s|] == s;
      FirstColonAt(s, |s|);
      hide FirstColon;
      assert labels == [s];
    }
  }

  lemma SplitFirst(first: Data, rest: Data)
    requires COLON !in first
    ensures Split(first + [COLON] + rest) == [first] + Split(rest)
  {
    var s, n := first + [COLON] + rest, |first|;
    assert s[..n] == first && s[n] == COLON && s[n + 1..] == rest;
    FirstColonAt(s, n);
    hide FirstColon;
  }

  lemma FirstColonAt(s: Data, n: nat)
    requires n <= |s| && COLON !in s[..n] && (n < |s| ==> s[n] == COLON)
    ensures FirstColon(s) == n
  {
    var i := FirstColon(s);
    assert forall k :: 0 <= k < n ==> s[k] in s[..n];
    assert forall k :: 0 <= k < i ==> s[k] in s[..i];
  }

  function LabelsOf(data: Data, idx: nat): Read<seq<Data>> {
    var s := ReadString(data, idx);
    if s.Malformed? then Malformed else Read(Split(s.value), s.next)
  }

  /** Reads the label list of a header, one label after the other. */
  method ReadHeaderLabels(data: Data, idx: nat) returns (r: Read<seq<Data>>)
    ensures r == LabelsOf(data, idx)
  {
    hide ReadString;
    var s := ReadString(data, idx);
    if s.Malformed? { return Malformed; }
    var labels: seq<Data>, rest := [], s.value;
    assert labels + Split(rest) == Split(s.value);
    while true
      invariant labels + Split(rest) == Split(s.value)
      decreases |rest|
    {
      var found := FirstColon(rest);
      if found == |rest| {
        return Read(labels + [rest], s.next);
      }
      assert labels + ([rest[..found]] + Split(rest[found + 1..]))
          == labels + [rest[..found]] + Split(rest[found + 1..]);
      labels, rest := labels + [rest[..found]], rest[found + 1..];
    }
  }

  function EncodeStrings(ss: seq<Data>): Data {
    if ss == [] then [] else EncodeStrings(ss[..|ss| - 1]) + (ss[|ss| - 1] + [NUL])
  }

  function ReadStrings(data: Data, idx: nat, n: nat): (r: Read<seq<Data>>) {
    if n == 0 then Read([], idx)
    else
      var front := ReadStrings(data, idx, n - 1);
      if front.Malformed? then Malformed
      else
        var last := ReadString(data, front.next);
        if last.Malformed? then Malformed else Read(front.value + [last.value], last.next)
  }

  lemma {:induction false} ReadStringsEncoded(data: Data, idx: nat, ss: seq<Data>)
    requires (forall i :: 0 <= i < |ss| ==> NUL !in ss[i]) && At(data, idx, EncodeStrings(ss))
    ensures ReadStrings(data, idx, |ss|) == Read(ss, idx + |EncodeStrings(ss)|)
    decreases |ss|
  {
    hide At, ReadString;
    if ss != [] {
      var k := |ss| - 1;
      AtSplit(data, idx, EncodeStrings(ss[..k]), ss[k] + [NUL]);
      ReadStringsEncoded(data, idx, ss[..k]);
      ReadStringEncoded(data, idx + |EncodeStrings(ss[..k])|, ss[k]);
      assert ss == ss[..k] + [ss[k]];
    }
  }

  datatype Header = Header(labels: seq<Data>, properties: seq<Data>)

  ghost predicate ValidHeader(h: Header) {
    && h.labels != [] && (forall i :: 0 <= i < |h.labels| ==> IsLabel(h.labels[i]))
    && |h.properties| < TWO_32 && (forall i :: 0 <= i < |h.properties| ==> NUL !in h.properties[i])
  }

  function EncodeHeader(h: Header): Data
    requires h.labels != []
  {
    (Join(h.labels) + [NUL]) + (ToLittle(|h.properties|, 4) + EncodeStrings(h.properties))
  }

  function ReadHeader(data: Data): (r: Read<Header>) {
    var labels := LabelsOf(data, 0);
    if labels.Malformed? then Malformed
    else
      var n := ReadLittle(data, labels.next, 4);
      if n.Malformed? then Malformed
      else
        var ps := ReadStrings(data, n.next, n.value);
        if ps.Malformed? then Malformed else Read(Header(labels.value, ps.value), ps.next)
  }

  lemma ReadHeaderEncoded(data: Data, h: Header)
    requires ValidHeader(h) && At(data, 0, EncodeHeader(h))
    ensures ReadHeader(data) == Read(h, |EncodeHeader(h)|)
  {
    hide At, Join, Split, ReadString, ReadLittle, ReadStrings, EncodeStrings, ToLittle, Power256, IsLabel;
    Powers();
    var a, b, c := Join(h.labels) + [NUL], ToLittle(|h.properties|, 4), EncodeStrings(h.properties);
    AtSplit(data, 0, a, b + c);
    AtSplit(data, |a|, b, c);
    SplitJoin(h.labels);
    ReadStringEncoded(data, 0, Join(h.labels));
    ReadLittleEncoded(data, |a|, |h.properties|, 4);
    ReadStringsEncoded(data, |a| + 4, h.properties);
  }

  // ---------------------------------------------------------------------------
  // Entities
  // ---------------------------------------------------------------------------

  /** The attributes set from a row: nulls are skipped. */
  function Attributes(row: seq<Value>): (r: seq<(nat, Value)>) {
    if row == [] then []
    else
      var k := |row| - 1;
      Attributes(row[..k]) + if row[k].Null? then [] else [(k, row[k])]
  }

  /** An attribute is set exactly for each value of the row that is not null. */
  lemma {:induction false} AttributesExact(row: seq<Value>, k: nat, v: Value)
    ensures (k, v) in Attributes(row) <==> k < |row| && row[k] == v && !v.Null?
    decreases |row|
  {
    if row != [] { AttributesExact(row[..|row| - 1], k, v); }
  }

  /** Attributes under the names of their columns; columns of one name set the same attribute. */
  function Named(properties: seq<Data>, attributes: seq<(nat, Value)>): seq<(Data, Value)>
    requires forall i :: 0 <= i < |attributes| ==> attributes[i].0 < |properties|
  {
    seq(|attributes|, i requires 0 <= i < |attributes| => (properties[attributes[i].0], attributes[i].1))
  }

  lemma ColumnsInRow(row: seq<Value>, i: nat)
    requires i < |Attributes(row)|
    ensures Attributes(row)[i].0 < |row|
  {
    var (k, v) := Attributes(row)[i];
    assert (k, v) in Attributes(row);
    AttributesExact(row, k, v);
  }

  /** A name is given a value exactly when some column of that name holds it. */
  lemma NamedExact(properties: seq<Data>, row: seq<Value>, name: Data, v: Value)
    requires |properties| == |row|
    ensures forall i :: 0 <= i < |Attributes(row)| ==> Attributes(row)[i].0 < |properties|
    ensures (name, v) in Named(properties, Attributes(row)) <==>
      !v.Null? && exists k :: 0 <= k < |row| && properties[k] == name && row[k] == v
  {
    forall i | 0 <= i < |Attributes(row)|
      ensures Attributes(row)[i].0 < |properties|
    {
      ColumnsInRow(row, i);
    }
    var named := Named(properties, Attributes(row));
    hide Attributes;
    if (name, v) in named {
      var i :| 0 <= i < |named| && named[i] == (name, v);
      var k := Attributes(row)[i].0;
      assert (k, v) in Attributes(row);
      AttributesExact(row, k, v);
    }
    if !v.Null? {
      forall k | 0 <= k < |row| && properties[k] == name && row[k] == v
        ensures (name, v) in named
      {
        AttributesExact(row, k, v);
        var i :| 0 <= i < |Attributes(row)| && Attributes(row)[i] == (k, v);
        assert named[i] == (name, v);
      }
    }
  }

  /** One entity of a file; nodes have no end points. */
  datatype Entity = Node(attributes: seq<(nat, Value)>) | Edge(src: nat, dest: nat, attributes: seq<(nat, Value)>)

  /** An entity before nulls are skipped. */
  datatype Row = NodeRow(values: seq<Value>) | EdgeRow(src: nat, dest: nat, values: seq<Value>)

  function EntityOf(row: Row): Entity {
    match row
    case NodeRow(vs) => Node(Attributes(vs))
    case EdgeRow(src, dest, vs) => Edge(src, dest, Attributes(vs))
  }

  function EncodeRow(row: Row): Data {
    match row
    case NodeRow(vs) => EncodeAll(vs)
    case EdgeRow(src, dest, vs) => (ToLittle(src, 8) + ToLittle(dest, 8)) + EncodeAll(vs)
  }

  ghost predicate ValidRow(row: Row, edges: bool, n: nat) {
    && row.EdgeRow? == edges && |row.values| == n
    && (forall i :: 0 <= i < n ==> Encodable(row.values[i]))
    && (edges ==> row.src < TWO_64 && row.dest < TWO_64)
  }

  function ReadRow(data: Data, idx: nat, edges: bool, n: nat): (r: Read<Row>)
    requires idx <= |data|
    ensures r.Read? ==> idx <= r.next <= |data|
    ensures r.Read? ==> (idx < r.next <==> edges || n > 0)
  {
    if !edges then
      var vs := ReadValues(data, idx, n);
      if vs.Malformed? then Malformed else Read(NodeRow(vs.value), vs.next)
    else
      var src := ReadLittle(data, idx, 8);
      if src.Malformed? then Malformed
      else
        var dest := ReadLittle(data, src.next, 8);
        if dest.Malformed? then Malformed
        else
          var vs := ReadValues(data, dest.next, n);
          if vs.Malformed? then Malformed else Read(EdgeRow(src.value, dest.value, vs.value), vs.next)
  }

  lemma ReadRowEncoded(data: Data, idx: nat, row: Row, edges: bool, n: nat)
    requires ValidRow(row, edges, n) && At(data, idx, EncodeRow(row))
    ensures ReadRow(data, idx, edges, n) == Read(row, idx + |EncodeRow(row)|)
  {
    if edges {
      Powers();
      var a, b, c := ToLittle(row.src, 8), ToLittle(row.dest, 8), EncodeAll(row.values);
      AtSplit(data, idx, a + b, c);
      AtSplit(data, idx, a, b);
      ReadLittleEncoded(data, idx, row.src, 8);
      ReadLittleEncoded(data, idx + 8, row.dest, 8);
      ReadAllEncoded(data, idx + 16, row.values);
    } else {
      ReadAllEncoded(data, idx, row.values);
    }
  }

  /** The rows of a file come to an end: each moves on, or there is none left. */
  predicate Ends(data: Data, idx: nat, edges: bool, n: nat) { edges || n > 0 || idx == |data| }

  /** The rest of a file. */
  function ReadRows(data: Data, idx: nat, edges: bool, n: nat): (r: Read<seq<Entity>>)
    requires idx <= |data| && Ends(data, idx, edges, n)
    decreases |data| - idx
  {
    if idx == |data| then Read([], idx)
    else
      var row := ReadRow(data, idx, edges, n);
      if row.Malformed? then Malformed
      else
        var rest := ReadRows(data, row.next, edges, n);
        if rest.Malformed? then Malformed else Read([EntityOf(row.value)] + rest.value, rest.next)
  }

  function EncodeRows(rows: seq<Row>): Data {
    if rows == [] then [] else EncodeRow(rows[0]) + EncodeRows(rows[1..])
  }

  /** The entities of a list of rows. */
  function EntitiesOf(rows: seq<Row>): (r: seq<Entity>) {
    if rows == [] then [] else [EntityOf(rows[0])] + EntitiesOf(rows[1..])
  }

  lemma {:induction false} ReadRowsEncoded(data: Data, idx: nat, rows: seq<Row>, edges: bool, n: nat)
    requires (edges || n > 0) && idx + |EncodeRows(rows)| == |data| && At(data, idx, EncodeRows(rows))
    requires forall i :: 0 <= i < |rows| ==> ValidRow(rows[i], edges, n)
    ensures ReadRows(data, idx, edges, n) == Read(EntitiesOf(rows), |data|)
    decreases |rows|
  {
    hide EncodeRow, ReadRow, ValidRow, EntityOf;
    if rows != [] {
      AtSplit(data, idx, EncodeRow(rows[0]), EncodeRows(rows[1..]));
      ReadRowEncoded(data, idx, rows[0], edges, n);
      ReadRowsEncoded(data, idx + |EncodeRow(rows[0])|, rows[1..], edges, n);
    }
  }

  datatype File = File(header: Header, entities: seq<Entity>)

  function ReadFile(data: Data, edges: bool): (r: Read<File>)
    requires var h := ReadHeader(data);
      h.Read? ==> h.next <= |data| && Ends(data, h.next, edges, |h.value.properties|)
  {
    var h := ReadHeader(data);
    if h.Malformed? then Malformed
    else
      var es := ReadRows(data, h.next, edges, |h.value.properties|);
      if es.Malformed? then Malformed else Read(File(h.value, es.value), es.next)
  }

  /** A whole file: what was written is what is created, entity by entity, except that
      nodes without properties leave no trace. */
  lemma ReadFileEncoded(h: Header, rows: seq<Row>, edges: bool)
    requires ValidHeader(h)
    requires forall i :: 0 <= i < |rows| ==> ValidRow(rows[i], edges, |h.properties|)
    ensures var data := EncodeHeader(h) + EncodeRows(rows);
      && ReadHeader(data) == Read(h, |EncodeHeader(h)|)
      && Ends(data, |EncodeHeader(h)|, edges, |h.properties|)
      && ReadFile(data, edges) ==
           Read(File(h, if edges || h.properties != [] then EntitiesOf(rows) else []), |data|)
    ensures ReadFile(EncodeHeader(h) + EncodeRows(rows), edges).value.entities == EntitiesOf(rows)
        <==> edges || h.properties != [] || rows == []
  {
    var data, n := EncodeHeader(h) + EncodeRows(rows), |EncodeHeader(h)|;
    HeaderThenRest(h, EncodeRows(rows));
    hide ReadHeader, EncodeHeader, ReadRow, ReadRows, EntityOf, At, ValidRow, ValidHeader;
    if edges || h.properties != [] {
      ReadRowsEncoded(data, n, rows, edges, |h.properties|);
    } else {
      BareRowsAreEmpty(rows);
      NoRowsLeft(data, edges, |h.properties|);
      assert rows != [] ==> EntitiesOf(rows) != [];
    }
  }

  lemma NoRowsLeft(data: Data, edges: bool, n: nat)
    ensures ReadRows(data, |data|, edges, n) == Read([], |data|)
  {
  }

  lemma HeaderThenRest(h: Header, rest: Data)
    requires ValidHeader(h)
    ensures var data := EncodeHeader(h) + rest;
      ReadHeader(data) == Read(h, |EncodeHeader(h)|) && At(data, |EncodeHeader(h)|, rest)
  {
    var data := EncodeHeader(h) + rest;
    assert data[0..|data|] == data;
    AtSplit(data, 0, EncodeHeader(h), rest);
    hide EncodeHeader, ReadHeader;
    ReadHeaderEncoded(data, h);
  }

  lemma {:induction false} BareRowsAreEmpty(rows: seq<Row>)
    requires forall i :: 0 <= i < |rows| ==> ValidRow(rows[i], false, 0)
    ensures EncodeRows(rows) == []
  {
    if rows != [] {
      BareRowsAreEmpty(rows[1..]);
      assert rows[0].values == [];
    }
  }

  // ---------------------------------------------------------------------------
  // The loop over the rows
  // ---------------------------------------------------------------------------

  /** Where the loop stands after `k` iterations, or none once it met malformed data. */
  function Position(data: Data, idx: nat, edges: bool, n: nat, k: nat): (i: Option<nat>)
    requires idx <= |data|
    ensures i.Some? ==> i.value <= |data|
  {
    if k == 0 then Some(idx)
    else
      var before := Position(data, idx, edges, n, k - 1);
      if before.None? || before.value == |data| then before
      else
        var row := ReadRow(data, before.value, edges, n);
        if row.Malformed? then None else Some(row.next)
  }

  predicate Stopped(data: Data, i: Option<nat>) { i.None? || i.value == |data| }

  /** Every iteration of a loop that can end comes at least one byte nearer to it. */
  lemma {:induction false} PositionAdvances(data: Data, idx: nat, edges: bool, n: nat, k: nat)
    requires idx <= |data| && (edges || n > 0)
    ensures var i := Position(data, idx, edges, n, k); Stopped(data, i) || i.value >= idx + k
  {
    if k > 0 { PositionAdvances(data, idx, edges, n, k - 1); }
  }

  /** A row of a node without properties takes no space, so the loop stays where it is. */
  lemma {:induction false} BareNodesStay(data: Data, idx: nat, k: nat)
    requires idx <= |data|
    ensures ReadRow(data, idx, false, 0) == Read(NodeRow([]), idx)
    ensures Position(data, idx, false, 0, k) == Some(idx)
  {
    if k > 0 { BareNodesStay(data, idx, k - 1); }
  }

  /** The loop stops exactly when rows move on or no data is left. */
  lemma LoopEndsExactly(data: Data, idx: nat, edges: bool, n: nat)
    requires idx <= |data|
    ensures (exists k :: Stopped(data, Position(data, idx, edges, n, k))) <==> Ends(data, idx, edges, n)
  {
    if edges || n > 0 {
      PositionAdvances(data, idx, edges, n, |data| - idx);
      assert Stopped(data, Position(data, idx, edges, n, |data| - idx));
    } else {
      forall k: nat
        ensures Position(data, idx, edges, n, k) == Some(idx)
      {
        BareNodesStay(data, idx, k);
      }
      assert idx == |data| ==> Stopped(data, Position(data, idx, edges, n, 0));
    }
  }

  /** A node file whose header lists no properties, with anything after it, is never done. */
  lemma BareFileNeverEnds(h: Header, more: Data, k: nat)
    requires ValidHeader(h) && h.properties == [] && more != []
    ensures var data := EncodeHeader(h) + more;
      && ReadHeader(data) == Read(h, |EncodeHeader(h)|)
      && !Stopped(data, Position(data, |EncodeHeader(h)|, false, |h.properties|, k))
  {
    var data := EncodeHeader(h) + more;
    HeaderThenRest(h, more);
    BareNodesStay(data, |EncodeHeader(h)|, k);
  }

  /** The loop that creates the entities of a file, for all files on which it ends. */
  method ProcessRows(data: Data, start: nat, edges: bool, n: nat) returns (r: Read<seq<Entity>>)
    requires start <= |data| && Ends(data, start, edges, n)
    ensures r == ReadRows(data, start, edges, n)
  {
    var created: seq<Entity>, idx := [], start;
    assert forall rest: seq<Entity> :: created + rest == rest;
    while idx < |data|
      invariant start <= idx <= |data| && Ends(data, idx, edges, n)
      invariant ReadRows(data, start, edges, n) ==
        var rest := ReadRows(data, idx, edges, n);
        if rest.Malformed? then Malformed else Read(created + rest.value, rest.next)
    {
      var row := ProcessRow(data, idx, edges, n);
      if row.Malformed? { return Malformed; }
      ghost var rest := ReadRows(data, row.next, edges, n);
      assert rest.Read? ==> created + ([row.value] + rest.value) == created + [row.value] + rest.value;
      created, idx := created + [row.value], row.next;
    }
    assert created + [] == created;
    return Read(created, idx);
  }

  /** Reads one row, setting each property that is not null. */
  method ProcessRow(data: Data, start: nat, edges: bool, n: nat) returns (r: Read<Entity>)
    requires start <= |data|
    ensures var row := ReadRow(data, start, edges, n);
      r == if row.Malformed? then Malformed else Read(EntityOf(row.value), row.next)
  {
    var idx, src, dest := start, 0, 0;
    if edges {
      var a := ReadLittle(data, idx, 8);
      if a.Malformed? { return Malformed; }
      var b := ReadLittle(data, a.next, 8);
      if b.Malformed? { return Malformed; }
      src, dest, idx := a.value, b.value, b.next;
    }
    var attributes: seq<(nat, Value)> := [];
    ghost var first := idx;
    ghost var vs: seq<Value> := [];
    var i := 0;
    while i < n
      invariant 0 <= i <= n && first <= |data|
      invariant ReadValues(data, first, i) == Read(vs, idx) && |vs| == i
      invariant attributes == Attributes(vs)
    {
      var v := ReadProperty(data, idx);
      if v.Malformed? {
        StopsEarly(data, first, i + 1, n);
        return Malformed;
      }
      assert (vs + [v.value])[..i] == vs;
      if !v.value.Null? { attributes := attributes + [(i, v.value)]; }
      vs, idx := vs + [v.value], v.next;
      i := i + 1;
    }
    return Read(if edges then Edge(src, dest, attributes) else Node(attributes), idx);
  }
}
