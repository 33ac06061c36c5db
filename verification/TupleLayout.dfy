/** Tuples as bytes: a fixed cell per column at the schema's offsets, then the VARCHAR
    payloads (a length word and the characters), each pointed to by its column's cell. */
module TupleLayout {
  import opened Bytes

  datatype TypeId = BOOLEAN | TINYINT | SMALLINT | INTEGER | BIGINT | DECIMAL | TIMESTAMP | VARCHAR

  /** A value by its serialized bytes; a null of a fixed-size type is one of its bit patterns. */
  datatype Value = Fixed(bytes: seq<byte>) | Varchar(chars: seq<byte>) | NullVarchar

  const NULL_LENGTH: uint32 := 0xFFFF_FFFF

  function TypeSize(t: TypeId): (n: nat)
    ensures 1 <= n <= 12
  {
    match t
    case BOOLEAN => 1
    case TINYINT => 1
    case SMALLINT => 2
    case INTEGER => 4
    case BIGINT => 8
    case DECIMAL => 8
    case TIMESTAMP => 8
    case VARCHAR => 12
  }

  predicate HasType(v: Value, t: TypeId) {
    if v.Fixed? then t != VARCHAR && |v.bytes| == TypeSize(t)
    else t == VARCHAR && (v.Varchar? ==> |v.chars| < NULL_LENGTH)
  }

  predicate Matches(schema: seq<TypeId>, values: seq<Value>) {
    |values| == |schema| && forall i :: 0 <= i < |schema| ==> HasType(values[i], schema[i])
  }

  /** Where the cell of column `i` belongs; for `i == |schema|`, the length of the cells. */
  function Offset(schema: seq<TypeId>, i: nat): nat
    requires i <= |schema|
  {
    if i == 0 then 0 else Offset(schema, i - 1) + TypeSize(schema[i - 1])
  }

  function Length(schema: seq<TypeId>): nat {
    Offset(schema, |schema|)
  }

  /** The same in the code's 32-bit counter. */
  function Offset32(schema: seq<TypeId>, i: nat): (o: nat)
    requires i <= |schema|
    ensures o < TWO_32
  {
    if i == 0 then 0 else (Offset32(schema, i - 1) + TypeSize(schema[i - 1])) % TWO_32
  }

  /** What the size computation sets aside: 32-bit, so a null's length of all ones wraps. */
  function Allotted(v: Value): nat {
    match v
    case Fixed(_) => 0
    case Varchar(chars) => (|chars| + 4) % TWO_32
    case NullVarchar => (NULL_LENGTH + 4) % TWO_32
  }

  /** What serialization writes. */
  function Written(v: Value): nat {
    match v
    case Fixed(_) => 0
    case Varchar(chars) => |chars| + 4
    case NullVarchar => 4
  }

  /** Where the payload of column `i` belongs; for `i == |values|`, the size of the tuple. */
  function Start(schema: seq<TypeId>, values: seq<Value>, i: nat): nat
    requires i <= |values|
  {
    if i == 0 then Length(schema) else Start(schema, values, i - 1) + Allotted(values[i - 1])
  }

  function TupleSize(schema: seq<TypeId>, values: seq<Value>): nat {
    Start(schema, values, |values|)
  }

  /** The same in the code's 32-bit counters. */
  function Start32(schema: seq<TypeId>, values: seq<Value>, i: nat): (o: nat)
    requires i <= |values|
    ensures o < TWO_32
  {
    if i == 0 then Offset32(schema, |schema|) else (Start32(schema, values, i - 1) + Allotted(values[i - 1])) % TWO_32
  }

  function Size32(schema: seq<TypeId>, values: seq<Value>): (n: nat)
    ensures n < TWO_32
  {
    Start32(schema, values, |values|)
  }

  /** Cells are apart and inside the cells' length. */
  lemma {:induction false} OffsetGrows(schema: seq<TypeId>, i: nat, j: nat)
    requires i <= j <= |schema|
    ensures Offset(schema, i) <= Offset(schema, j)
    ensures i < j ==> Offset(schema, i) + TypeSize(schema[i]) <= Offset(schema, j)
    decreases j
  {
    hide TypeSize;
    if i < j {
      OffsetGrows(schema, i, j - 1);
    }
  }

  lemma {:induction false} StartGrows(schema: seq<TypeId>, values: seq<Value>, i: nat, j: nat)
    requires i <= j <= |values|
    ensures Start(schema, values, i) <= Start(schema, values, j)
    ensures i < j ==> Start(schema, values, i) + Allotted(values[i]) <= Start(schema, values, j)
    decreases j
  {
    if i < j {
      StartGrows(schema, values, i, j - 1);
    }
  }

  lemma {:induction false} PayloadsPastCells(schema: seq<TypeId>, values: seq<Value>, i: nat)
    requires i <= |values|
    ensures Length(schema) <= Start(schema, values, i)
  {
    StartGrows(schema, values, 0, i);
  }

  // ---------- when the counters wrap ----------

  lemma {:induction false} OffsetsExact(schema: seq<TypeId>, n: nat, i: nat)
    requires i <= n <= |schema| && Offset(schema, n) < TWO_32
    ensures Offset32(schema, i) == Offset(schema, i)
    decreases i
  {
    hide TypeSize;
    OffsetGrows(schema, i, n);
    if i > 0 {
      OffsetsExact(schema, n, i - 1);
    }
  }

  /** As long as the sums stay below 2^32 the counters hold them. */
  lemma {:induction false} StartsExact(schema: seq<TypeId>, values: seq<Value>, n: nat, i: nat)
    requires i <= n <= |values| && Start(schema, values, n) < TWO_32
    ensures Start32(schema, values, i) == Start(schema, values, i)
    decreases i
  {
    hide Allotted;
    StartGrows(schema, values, i, n);
    if i > 0 {
      StartsExact(schema, values, n, i - 1);
    } else {
      OffsetsExact(schema, |schema|, |schema|);
    }
  }

  // ---------- when the layout is sound ----------

  predicate HasPayload(v: Value) { !v.Fixed? }

  predicate Apart(a: nat, n: nat, b: nat, m: nat) { a + n <= b || b + m <= a }

  ghost predicate CellsSound(schema: seq<TypeId>, size: nat) {
    && (forall i :: 0 <= i < |schema| ==> Offset32(schema, i) + TypeSize(schema[i]) <= size)
    && forall i, j :: 0 <= i < j < |schema| ==>
         Apart(Offset32(schema, i), TypeSize(schema[i]), Offset32(schema, j), TypeSize(schema[j]))
  }

  ghost predicate PayloadsSound(schema: seq<TypeId>, values: seq<Value>) {
    && (forall i :: 0 <= i < |values| && HasPayload(values[i]) ==>
          Start32(schema, values, i) + Written(values[i]) <= Size32(schema, values))
    && forall i, j :: 0 <= i < j < |values| && HasPayload(values[i]) && HasPayload(values[j]) ==>
         Apart(Start32(schema, values, i), Written(values[i]), Start32(schema, values, j), Written(values[j]))
  }

  ghost predicate CellsApartFromPayloads(schema: seq<TypeId>, values: seq<Value>) {
    forall i, j :: 0 <= i < |schema| && 0 <= j < |values| && HasPayload(values[j]) ==>
      Apart(Offset32(schema, i), TypeSize(schema[i]), Start32(schema, values, j), Written(values[j]))
  }

  /** Cells and payloads, where the code puts them, lie inside the computed size and apart. */
  ghost predicate LayoutSound(schema: seq<TypeId>, values: seq<Value>) {
    && CellsSound(schema, Size32(schema, values))
    && PayloadsSound(schema, values)
    && CellsApartFromPayloads(schema, values)
  }

  /** A length that does not wrap by itself: no null, none of the last four. */
  predicate Countable(v: Value) {
    match v
    case Fixed(_) => true
    case Varchar(chars) => |chars| + 4 < TWO_32
    case NullVarchar => false
  }

  ghost predicate AllCountable(values: seq<Value>) {
    forall i :: 0 <= i < |values| ==> Countable(values[i])
  }

  lemma {:induction false} AllottedExact(v: Value, t: TypeId)
    requires HasType(v, t)
    ensures Countable(v) ==> Allotted(v) == Written(v)
    ensures v.Varchar? && !Countable(v) ==> TWO_32 <= Written(v)
    ensures v.NullVarchar? ==> Allotted(v) == 3 && Written(v) == 4
    ensures HasPayload(v) ==> 4 <= Written(v)
  {
  }

  lemma {:induction false} SoundIfSmall(schema: seq<TypeId>, values: seq<Value>)
    requires Matches(schema, values) && AllCountable(values) && TupleSize(schema, values) < TWO_32
    ensures LayoutSound(schema, values)
  {
    hide Allotted, Written, Countable, HasType, Start, Start32, Offset, Offset32, TypeSize;
    var size := Size32(schema, values);
    StartsExact(schema, values, |values|, |values|);
    PayloadsPastCells(schema, values, |values|);
    forall i, j | 0 <= i < j <= |schema|
      ensures Offset32(schema, i) + TypeSize(schema[i]) <= Offset(schema, j)
    {
      OffsetGrows(schema, i, j);
      OffsetGrows(schema, j, |schema|);
      OffsetsExact(schema, |schema|, i);
    }
    forall i | 0 <= i <= |schema|
      ensures Offset32(schema, i) == Offset(schema, i)
    {
      OffsetsExact(schema, |schema|, i);
    }
    forall i | 0 <= i <= |values|
      ensures Start32(schema, values, i) == Start(schema, values, i) && Length(schema) <= Start(schema, values, i)
    {
      StartsExact(schema, values, |values|, i);
      PayloadsPastCells(schema, values, i);
    }
    forall i, j | 0 <= i < j <= |values|
      ensures Start(schema, values, i) + Written(values[i]) <= Start(schema, values, j)
    {
      AllottedExact(values[i], schema[i]);
      StartGrows(schema, values, i, j);
    }
  }

  lemma {:induction false} NothingAllotted(schema: seq<TypeId>, values: seq<Value>, i: nat, n: nat)
    requires i <= n <= |values| && forall k :: i <= k < n ==> !HasPayload(values[k])
    ensures Start32(schema, values, n) == Start32(schema, values, i)
    decreases n
  {
    if i < n {
      NothingAllotted(schema, values, i, n - 1);
    }
  }

  /** The first payload at or after column `i`, or the end. */
  function NextPayload(values: seq<Value>, i: nat): (n: nat)
    requires i <= |values|
    ensures i <= n <= |values| && (n < |values| ==> HasPayload(values[n]))
    ensures forall k :: i <= k < n ==> !HasPayload(values[k])
    decreases |values| - i
  {
    if i == |values| || HasPayload(values[i]) then i else NextPayload(values, i + 1)
  }

  /** A null is given three bytes and writes four. */
  lemma {:induction false} NullOverlaps(schema: seq<TypeId>, values: seq<Value>, i: nat)
    requires Matches(schema, values) && i < |values| && values[i].NullVarchar?
    ensures !PayloadsSound(schema, values)
  {
    hide Allotted, Written, HasType;
    AllottedExact(values[i], schema[i]);
    var n := NextPayload(values, i + 1);
    NothingAllotted(schema, values, i + 1, n);
    if n < |values| {
      AllottedExact(values[n], schema[n]);
    }
  }

  /** The first cell at which the offset counter wraps does not fit. */
  lemma {:induction false} CellsWrap(schema: seq<TypeId>, i: nat, size: nat)
    requires i <= |schema| && Offset(schema, i) < TWO_32 <= Length(schema) && size < TWO_32
    ensures !CellsSound(schema, size)
    decreases |schema| - i
  {
    hide TypeSize;
    OffsetsExact(schema, i, i);
    if Offset(schema, i + 1) < TWO_32 {
      CellsWrap(schema, i + 1, size);
    }
  }

  /** The first payload at which the size counter wraps does not fit, or is null. */
  lemma {:induction false} PayloadsWrap(schema: seq<TypeId>, values: seq<Value>, i: nat)
    requires Matches(schema, values) && i <= |values| && Start(schema, values, i) < TWO_32
    requires forall j :: 0 <= j < i ==> Countable(values[j])
    requires !(AllCountable(values) && TupleSize(schema, values) < TWO_32)
    ensures !PayloadsSound(schema, values)
    decreases |values| - i
  {
    if i < |values| {
      var v := values[i];
      AllottedExact(v, schema[i]);
      StartsExact(schema, values, i, i);
      hide Allotted, Written, HasType;
      if v.NullVarchar? {
        NullOverlaps(schema, values, i);
      } else if Countable(v) && Start(schema, values, i + 1) < TWO_32 {
        PayloadsWrap(schema, values, i + 1);
      }
    }
  }

  /** The layout is sound exactly when no VARCHAR is null, no length wraps and the whole tuple
      stays below 4 GiB. */
  lemma {:induction false} SoundIffSmall(schema: seq<TypeId>, values: seq<Value>)
    requires Matches(schema, values)
    ensures LayoutSound(schema, values) <==> AllCountable(values) && TupleSize(schema, values) < TWO_32
  {
    if AllCountable(values) && TupleSize(schema, values) < TWO_32 {
      SoundIfSmall(schema, values);
    } else if Length(schema) >= TWO_32 {
      CellsWrap(schema, 0, Size32(schema, values));
    } else {
      PayloadsWrap(schema, values, 0);
    }
  }

  /** Two VARCHARs of 2 GiB: 32 bytes are allocated for them. */
  lemma {:induction false} TwoHugeVarchars(a: seq<byte>, b: seq<byte>)
    requires |a| == |b| == TWO_31
    ensures var schema, values := [VARCHAR, VARCHAR], [Varchar(a), Varchar(b)];
            && Matches(schema, values) && AllCountable(values)
            && Size32(schema, values) == 32 && !LayoutSound(schema, values)
  {
    var schema, values := [VARCHAR, VARCHAR], [Varchar(a), Varchar(b)];
    TwoCells(schema);
    TwoPayloads(schema, values);
    hide Offset, Offset32, Start, Start32, LayoutSound;
    SoundIffSmall(schema, values);
  }

  lemma {:induction false} TwoCells(schema: seq<TypeId>)
    requires schema == [VARCHAR, VARCHAR]
    ensures Length(schema) == 24 && Offset32(schema, 2) == 24
  {
    assert Offset(schema, 0) == 0 && Offset32(schema, 0) == 0;
    assert Offset(schema, 1) == 12;
    assert 12 % TWO_32 == 12 && 24 % TWO_32 == 24;
    assert Offset32(schema, 1) == 12;
  }

  lemma {:induction false} TwoPayloads(schema: seq<TypeId>, values: seq<Value>)
    requires Length(schema) == 24 && Offset32(schema, |schema|) == 24
    requires |values| == 2 && values[0].Varchar? && values[1].Varchar?
    requires |values[0].chars| == |values[1].chars| == TWO_31
    ensures TupleSize(schema, values) == TWO_32 + 32 && Size32(schema, values) == 32
  {
    hide Offset, Offset32;
    assert Allotted(values[0]) == Allotted(values[1]) == TWO_31 + 4;
    hide Allotted;
    assert Start(schema, values, 1) == TWO_31 + 28;
    assert Start32(schema, values, 1) == TWO_31 + 28;
  }

  // ---------- round trip ----------

  function PayloadAt(data: seq<byte>, at: nat): Option<Value> {
    if at + 4 > |data| then None
    else
      var len := ReadU32(data, at);
      if len == NULL_LENGTH then Some(NullVarchar)
      else if at + 4 + len > |data| then None
      else Some(Varchar(data[at + 4..at + 4 + len]))
  }

  /** Reads column `i`; `None` where the code would read outside the tuple. */
  function GetValue(schema: seq<TypeId>, data: seq<byte>, i: nat): Option<Value>
    requires i < |schema|
  {
    var at := Offset32(schema, i);
    if at + TypeSize(schema[i]) > |data| then None
    else if schema[i] != VARCHAR then Some(Fixed(data[at..at + TypeSize(schema[i])]))
    else
      var payload := ReadI32(data, at);
      if payload < 0 then None else PayloadAt(data, payload)
  }

  /** The first `i` columns are stored. */
  ghost predicate StoredTo(schema: seq<TypeId>, values: seq<Value>, data: seq<byte>, i: nat)
    requires |values| == |schema| && i <= |schema|
  {
    forall j :: 0 <= j < i ==> Stored(schema, values, data, j)
  }

  ghost predicate Stored(schema: seq<TypeId>, values: seq<Value>, data: seq<byte>, j: nat)
    requires |values| == |schema| && j < |schema|
  {
    var at, start := Offset(schema, j), Start(schema, values, j);
    match values[j]
    case Fixed(bytes) => at + |bytes| <= |data| && data[at..at + |bytes|] == bytes
    case Varchar(chars) =>
      && at + 4 <= |data| && data[at..at + 4] == EncodeU32Of(start)
      && start + 4 + |chars| <= |data| && data[start..start + 4] == EncodeU32Of(|chars|)
      && data[start + 4..start + 4 + |chars|] == chars
    case NullVarchar => false
  }

  function EncodeU32Of(n: nat): seq<byte> {
    if n < TWO_32 then EncodeU32(n) else []
  }

  /** Storage of column `j` depends only on its cell and its payload. */
  lemma {:induction false} StoredSame(schema: seq<TypeId>, values: seq<Value>, p: seq<byte>, q: seq<byte>, j: nat)
    requires |values| == |schema| && j < |schema| && HasType(values[j], schema[j]) && |p| == |q|
    requires Stored(schema, values, p, j)
    requires var at, start := Offset(schema, j), Start(schema, values, j);
             forall k :: 0 <= k < |p| ==>
               at <= k < at + TypeSize(schema[j]) || start <= k < start + Written(values[j]) ==> q[k] == p[k]
    ensures Stored(schema, values, q, j)
  {
    hide EncodeU32Of, Offset, Start;
    var at, start := Offset(schema, j), Start(schema, values, j);
    match values[j]
    case Fixed(bytes) =>
      assert q[at..at + |bytes|] == p[at..at + |bytes|];
    case Varchar(chars) =>
      assert q[at..at + 4] == p[at..at + 4];
      assert q[start..start + 4] == p[start..start + 4];
      assert q[start + 4..start + 4 + |chars|] == p[start + 4..start + 4 + |chars|];
  }

  /** Bytes that belong to the first `i` columns. */
  ghost predicate Taken(schema: seq<TypeId>, values: seq<Value>, i: nat, k: int)
    requires |values| == |schema| && i <= |schema|
  {
    k < Offset(schema, i) || Length(schema) <= k < Start(schema, values, i)
  }

  lemma {:induction false} StoredKept(schema: seq<TypeId>, values: seq<Value>, p: seq<byte>, q: seq<byte>, i: nat)
    requires Matches(schema, values) && AllCountable(values) && i <= |schema| && |p| == |q|
    requires StoredTo(schema, values, p, i)
    requires forall k :: 0 <= k < |p| && Taken(schema, values, i, k) ==> q[k] == p[k]
    ensures StoredTo(schema, values, q, i)
  {
    hide Stored, Allotted, Written, Countable, HasType, TypeSize, Offset, Start;
    forall j | 0 <= j < i
      ensures Stored(schema, values, q, j)
    {
      AllottedExact(values[j], schema[j]);
      OffsetGrows(schema, j, i);
      StartGrows(schema, values, j, i);
      PayloadsPastCells(schema, values, j);
      StoredSame(schema, values, p, q, j);
    }
  }

  /** The payload of column `j` starts where its offset, read back as a signed word, is not negative. */
  predicate SignedStart(schema: seq<TypeId>, values: seq<Value>, j: nat)
    requires j < |values|
  {
    values[j].Varchar? ==> Start(schema, values, j) < TWO_31
  }

  /** A stored column reads back exactly when its payload starts below 2 GiB. */
  lemma {:induction false} StoredReads(schema: seq<TypeId>, values: seq<Value>, data: seq<byte>, j: nat)
    requires Matches(schema, values) && AllCountable(values) && j < |schema|
    requires |data| == TupleSize(schema, values) < TWO_32 && Stored(schema, values, data, j)
    ensures GetValue(schema, data, j) == Some(values[j]) <==> SignedStart(schema, values, j)
  {
    hide Offset, Offset32, Start, EncodeU32, ReadU32, Allotted;
    OffsetGrows(schema, j, |schema|);
    PayloadsPastCells(schema, values, |values|);
    OffsetsExact(schema, |schema|, j);
    if values[j].Varchar? {
      VarcharReads(schema, values, data, j);
    }
  }

  lemma {:induction false} VarcharReads(schema: seq<TypeId>, values: seq<Value>, data: seq<byte>, j: nat)
    requires |values| == |schema| && j < |schema| && values[j].Varchar? && schema[j] == VARCHAR
    requires |data| < TWO_32 && Stored(schema, values, data, j)
    requires Offset32(schema, j) == Offset(schema, j) && Offset(schema, j) + 12 <= |data|
    ensures GetValue(schema, data, j) == Some(values[j]) <==> Start(schema, values, j) < TWO_31
  {
    hide Offset, Offset32, Start, EncodeU32, ReadU32, PayloadAt;
    var at, start, chars := Offset(schema, j), Start(schema, values, j), values[j].chars;
    EncodeReadU32(data, at, start);
    PayloadReads(data, start, chars);
  }

  /** A payload reads back from where it starts. */
  lemma {:induction false} PayloadReads(data: seq<byte>, start: nat, chars: seq<byte>)
    requires start + 4 + |chars| <= |data| < TWO_32
    requires data[start..start + 4] == EncodeU32Of(|chars|) && data[start + 4..start + 4 + |chars|] == chars
    ensures PayloadAt(data, start) == Some(Varchar(chars))
  {
    hide EncodeU32, ReadU32;
    EncodeReadU32(data, start, |chars|);
  }

  /** A VARCHAR of 2 GiB before a short one: the layout is sound, and the short one cannot be read. */
  lemma {:induction false} SecondPayloadUnreadable(a: seq<byte>, b: seq<byte>)
    requires |a| == TWO_31 && |b| == 1
    ensures var schema, values := [VARCHAR, VARCHAR], [Varchar(a), Varchar(b)];
            && Matches(schema, values) && AllCountable(values) && TupleSize(schema, values) < TWO_32
            && LayoutSound(schema, values) && SignedStart(schema, values, 0) && !SignedStart(schema, values, 1)
  {
    var schema, values := [VARCHAR, VARCHAR], [Varchar(a), Varchar(b)];
    TwoCells(schema);
    hide Offset, Offset32, Start32, LayoutSound;
    assert Allotted(values[0]) == TWO_31 + 4 && Allotted(values[1]) == 5;
    hide Allotted;
    assert Start(schema, values, 1) == TWO_31 + 28;
    assert TupleSize(schema, values) == TWO_31 + 33;
    SoundIffSmall(schema, values);
  }

  /** The VARCHAR columns among the first `n`, in order. */
  ghost predicate Uninlined(columns: seq<TypeId>, n: nat, list: seq<nat>)
    requires n <= |columns|
  {
    && (forall i: nat :: i in list <==> i < n && columns[i] == VARCHAR)
    && forall a, b :: 0 <= a < b < |list| ==> list[a] < list[b]
  }

  lemma {:induction false} NoneUninlined(columns: seq<TypeId>)
    ensures Uninlined(columns, 0, [])
  {
  }

  lemma {:induction false} UninlinedNext(columns: seq<TypeId>, n: nat, list: seq<nat>)
    requires n < |columns| && Uninlined(columns, n, list)
    ensures Uninlined(columns, n + 1, if columns[n] == VARCHAR then list + [n] else list)
  {
    assert forall a :: 0 <= a < |list| ==> list[a] in list;
  }

  /** The schema constructor: offsets in column order, and which columns are not inlined. */
  method MakeSchema(columns: seq<TypeId>) returns (offsets: seq<nat>, length: nat, uninlined: seq<nat>)
    ensures |offsets| == |columns| && length == Offset32(columns, |columns|)
    ensures forall i :: 0 <= i < |columns| ==> offsets[i] == Offset32(columns, i)
    ensures Uninlined(columns, |columns|, uninlined)
  {
    hide TypeSize, Uninlined;
    offsets, length, uninlined := [], 0, [];
    NoneUninlined(columns);
    for i := 0 to |columns|
      invariant |offsets| == i && length == Offset32(columns, i)
      invariant forall k :: 0 <= k < i ==> offsets[k] == Offset32(columns, k)
      invariant Uninlined(columns, i, uninlined)
    {
      UninlinedNext(columns, i, uninlined);
      if columns[i] == VARCHAR {
        uninlined := uninlined + [i];
      }
      offsets := offsets + [length];
      length := (length + TypeSize(columns[i])) % TWO_32;
    }
  }

  /** One column of every type. */
  method EveryType() returns (offsets: seq<nat>, length: nat)
    ensures offsets == [0, 1, 2, 4, 8, 16, 24, 32] && length == 44
  {
    var all := [BOOLEAN, TINYINT, SMALLINT, INTEGER, BIGINT, DECIMAL, TIMESTAMP, VARCHAR];
    var uninlined;
    offsets, length, uninlined := MakeSchema(all);
    EveryOffset(all);
  }

  lemma {:induction false} EveryOffset(all: seq<TypeId>)
    requires all == [BOOLEAN, TINYINT, SMALLINT, INTEGER, BIGINT, DECIMAL, TIMESTAMP, VARCHAR]
    ensures Offset32(all, 0) == 0 && Offset32(all, 1) == 1 && Offset32(all, 2) == 2 && Offset32(all, 3) == 4
    ensures Offset32(all, 4) == 8 && Offset32(all, 5) == 16 && Offset32(all, 6) == 24 && Offset32(all, 7) == 32
    ensures Offset32(all, 8) == 44
  {
    assert Offset32(all, 1) == 1;
    assert Offset32(all, 2) == 2;
    assert Offset32(all, 3) == 4;
    assert Offset32(all, 4) == 8;
    assert Offset32(all, 5) == 16;
    assert Offset32(all, 6) == 24;
    assert Offset32(all, 7) == 32;
  }

  /** The column the size computation has reached after `a` of the uninlined columns. */
  ghost function Reached(uninlined: seq<nat>, n: nat, a: nat): nat {
    if a < |uninlined| then uninlined[a] else n
  }

  ghost predicate ListsPayloads(uninlined: seq<nat>, values: seq<Value>) {
    && (forall i: nat :: i in uninlined <==> i < |values| && HasPayload(values[i]))
    && forall a, b :: 0 <= a < b < |uninlined| ==> uninlined[a] < uninlined[b]
  }

  lemma {:induction false} NoneBetween(uninlined: seq<nat>, values: seq<Value>, a: nat, k: nat)
    requires ListsPayloads(uninlined, values) && a <= |uninlined|
    requires (a > 0 ==> uninlined[a - 1] < k) && k < Reached(uninlined, |values|, a) && k < |values|
    ensures !HasPayload(values[k])
  {
    assert forall b :: 0 <= b < |uninlined| ==> uninlined[b] != k;
  }

  lemma {:induction false} ReachedNext(schema: seq<TypeId>, values: seq<Value>, uninlined: seq<nat>, a: nat)
    requires ListsPayloads(uninlined, values) && a <= |uninlined|
    ensures var from := if a == 0 then 0 else uninlined[a - 1] + 1;
            from <= Reached(uninlined, |values|, a) <= |values|
            && Start32(schema, values, from) == Start32(schema, values, Reached(uninlined, |values|, a))
  {
    hide Start32;
    assert forall b :: 0 <= b < |uninlined| ==> uninlined[b] in uninlined;
    var from, to := if a == 0 then 0 else uninlined[a - 1] + 1, Reached(uninlined, |values|, a);
    forall k | from <= k < to
      ensures !HasPayload(values[k])
    {
      NoneBetween(uninlined, values, a, k);
    }
    NothingAllotted(schema, values, from, to);
  }

  lemma {:induction false} PayloadColumns(schema: seq<TypeId>, values: seq<Value>, uninlined: seq<nat>)
    requires Matches(schema, values)
    requires Uninlined(schema, |schema|, uninlined)
    ensures ListsPayloads(uninlined, values)
  {
    assert forall i :: 0 <= i < |schema| ==> HasType(values[i], schema[i]);
  }

  lemma {:induction false} ColumnValue(schema: seq<TypeId>, values: seq<Value>, i: nat)
    requires Matches(schema, values) && AllCountable(values) && i < |schema|
    ensures HasType(values[i], schema[i]) && Countable(values[i])
    ensures schema[i] == VARCHAR ==> values[i].Varchar? && Allotted(values[i]) == |values[i].chars| + 4
    ensures schema[i] != VARCHAR ==> values[i].Fixed? && Allotted(values[i]) == 0
  {
  }

  /** The size computation over the uninlined columns. */
  method SizeOf(schema: seq<TypeId>, values: seq<Value>, length: nat, uninlined: seq<nat>) returns (size: nat)
    requires Matches(schema, values) && ListsPayloads(uninlined, values) && length == Offset32(schema, |schema|)
    ensures size == Size32(schema, values)
  {
    hide HasType, Allotted, Matches, Offset32;
    size := length;
    ReachedNext(schema, values, uninlined, 0);
    for a := 0 to |uninlined|
      invariant Reached(uninlined, |values|, a) <= |values|
      invariant size == Start32(schema, values, Reached(uninlined, |values|, a))
    {
      assert uninlined[a] in uninlined;
      size := (size + Allotted(values[uninlined[a]])) % TWO_32;
      ReachedNext(schema, values, uninlined, a + 1);
    }
  }

  /** What a column's writes leave alone and what they store. */
  ghost predicate Stores(schema: seq<TypeId>, values: seq<Value>, i: nat, p: seq<byte>, q: seq<byte>)
    requires |values| == |schema| && i < |schema|
  {
    && |q| == |p| && Stored(schema, values, q, i)
    && forall k :: 0 <= k < |p| && Taken(schema, values, i, k) ==> q[k] == p[k]
  }

  lemma {:induction false} StoredNext(schema: seq<TypeId>, values: seq<Value>, i: nat, p: seq<byte>, q: seq<byte>)
    requires Matches(schema, values) && AllCountable(values) && i < |schema|
    requires StoredTo(schema, values, p, i) && Stores(schema, values, i, p, q)
    ensures StoredTo(schema, values, q, i + 1)
  {
    hide Stored, Taken;
    StoredKept(schema, values, p, q, i);
  }

  method StoreFixed(data: array<byte>, schema: seq<TypeId>, values: seq<Value>, i: nat, at: nat)
    requires |values| == |schema| && i < |schema| && values[i].Fixed? && HasType(values[i], schema[i])
    requires data.Length == TupleSize(schema, values) && at == Offset(schema, i)
    modifies data
    ensures Stores(schema, values, i, old(data[..]), data[..])
  {
    hide Offset, Start, TypeSize;
    OffsetGrows(schema, i, |schema|);
    PayloadsPastCells(schema, values, |values|);
    SpliceAt(data[..], at, values[i].bytes);
    Copy(data, at, values[i].bytes);
    assert data[at..at + |values[i].bytes|] == values[i].bytes;
  }

  method StoreVarchar(data: array<byte>, schema: seq<TypeId>, values: seq<Value>, i: nat, at: nat, offset: nat)
    requires |values| == |schema| && i < |schema| && values[i].Varchar? && schema[i] == VARCHAR && Countable(values[i])
    requires data.Length == TupleSize(schema, values) < TWO_32
    requires at == Offset(schema, i) && offset == Start(schema, values, i)
    modifies data
    ensures Stores(schema, values, i, old(data[..]), data[..])
  {
    hide Offset, Start, EncodeU32, Stores, Splice;
    var chars := values[i].chars;
    VarcharFits(schema, values, i);
    ghost var p := data[..];
    Copy(data, at, EncodeU32(offset));
    Copy(data, offset, EncodeU32(|chars|));
    Copy(data, offset + 4, chars);
    VarcharStores(schema, values, i, p, data[..]);
  }

  lemma {:induction false} VarcharFits(schema: seq<TypeId>, values: seq<Value>, i: nat)
    requires |values| == |schema| && i < |schema| && values[i].Varchar? && schema[i] == VARCHAR && Countable(values[i])
    ensures Offset(schema, i) + 12 <= Length(schema) <= Start(schema, values, i)
    ensures Start(schema, values, i) + 4 + |values[i].chars| <= TupleSize(schema, values)
  {
    hide Offset, Start;
    OffsetGrows(schema, i, |schema|);
    PayloadsPastCells(schema, values, i);
    StartGrows(schema, values, i, |values|);
    AllottedExact(values[i], schema[i]);
  }

  lemma {:induction false} VarcharStores(schema: seq<TypeId>, values: seq<Value>, i: nat, p: seq<byte>, q: seq<byte>)
    requires |values| == |schema| && i < |schema| && values[i].Varchar? && schema[i] == VARCHAR && Countable(values[i])
    requires |p| == TupleSize(schema, values) < TWO_32
    requires var at, start, chars := Offset(schema, i), Start(schema, values, i), values[i].chars;
             && at + 4 <= start && start + 4 + |chars| <= |p|
             && q == Splice(Splice(Splice(p, at, EncodeU32(start)), start, EncodeU32(|chars|)), start + 4, chars)
    ensures Stores(schema, values, i, p, q)
  {
    hide Offset, Start, EncodeU32, Splice;
    VarcharFits(schema, values, i);
    var at, start, chars := Offset(schema, i), Start(schema, values, i), values[i].chars;
    var p1 := Splice(p, at, EncodeU32(start));
    var p2 := Splice(p1, start, EncodeU32(|chars|));
    SpliceAt(p, at, EncodeU32(start));
    SpliceAt(p1, start, EncodeU32(|chars|));
    SpliceAt(p2, start + 4, chars);
    assert q[at..at + 4] == EncodeU32(start);
    assert q[start..start + 4] == EncodeU32(|chars|);
    assert q[start + 4..start + 4 + |chars|] == chars;
  }

  lemma {:induction false} CountersExact(schema: seq<TypeId>, values: seq<Value>)
    requires TupleSize(schema, values) < TWO_32
    ensures forall i :: 0 <= i <= |schema| ==> Offset32(schema, i) == Offset(schema, i)
    ensures forall i :: 0 <= i <= |values| ==> Start32(schema, values, i) == Start(schema, values, i) < TWO_32
  {
    hide Offset, Offset32, Start, Start32;
    PayloadsPastCells(schema, values, |values|);
    forall i | 0 <= i <= |schema|
      ensures Offset32(schema, i) == Offset(schema, i)
    {
      OffsetsExact(schema, |schema|, i);
    }
    forall i | 0 <= i <= |values|
      ensures Start32(schema, values, i) == Start(schema, values, i)
    {
      StartsExact(schema, values, |values|, i);
    }
  }

  /** The tuple constructor, for every sound layout: a column reads back as the value given for it
      exactly when its payload starts below 2 GiB. */
  method MakeTuple(schema: seq<TypeId>, values: seq<Value>) returns (data: array<byte>)
    requires Matches(schema, values) && AllCountable(values) && TupleSize(schema, values) < TWO_32
    ensures fresh(data) && data.Length == TupleSize(schema, values)
    ensures forall i :: 0 <= i < |schema| ==>
              (GetValue(schema, data[..], i) == Some(values[i]) <==> SignedStart(schema, values, i))
  {
    hide Stored, Allotted, Written, Countable, HasType, TypeSize, EncodeU32, Splice, GetValue, AllCountable;
    var offsets, length, uninlined := MakeSchema(schema);
    PayloadColumns(schema, values, uninlined);
    CountersExact(schema, values);
    var size := SizeOf(schema, values, length, uninlined);
    data := new byte[size](_ => 0);
    var offset := length;
    for i := 0 to |schema|
      invariant offset == Start(schema, values, i)
      invariant StoredTo(schema, values, data[..], i)
    {
      ghost var p := data[..];
      ColumnValue(schema, values, i);
      if schema[i] == VARCHAR {
        StoreVarchar(data, schema, values, i, offsets[i], offset);
        offset := (offset + |values[i].chars| + 4) % TWO_32;
      } else {
        StoreFixed(data, schema, values, i, offsets[i]);
      }
      StoredNext(schema, values, i, p, data[..]);
    }
    forall i | 0 <= i < |schema|
      ensures GetValue(schema, data[..], i) == Some(values[i]) <==> SignedStart(schema, values, i)
    {
      StoredReads(schema, values, data[..], i);
    }
  }

  /** A tuple with a column of every type reads back as a whole. */
  method EveryTypeReadsBack(values: seq<Value>) returns (data: array<byte>)
    requires |values| == 8 && (forall i :: 0 <= i < 7 ==> values[i].Fixed?) && values[7].Varchar?
    requires |values[0].bytes| == |values[1].bytes| == 1 && |values[2].bytes| == 2 && |values[3].bytes| == 4
    requires |values[4].bytes| == |values[5].bytes| == |values[6].bytes| == 8 && |values[7].chars| <= 4000
    ensures fresh(data) && data.Length == 48 + |values[7].chars|
    ensures var all := [BOOLEAN, TINYINT, SMALLINT, INTEGER, BIGINT, DECIMAL, TIMESTAMP, VARCHAR];
            forall i :: 0 <= i < 8 ==> GetValue(all, data[..], i) == Some(values[i])
  {
    hide GetValue;
    var all := [BOOLEAN, TINYINT, SMALLINT, INTEGER, BIGINT, DECIMAL, TIMESTAMP, VARCHAR];
    EveryStart(all, values);
    data := MakeTuple(all, values);
  }

  lemma {:induction false} EveryStart(all: seq<TypeId>, values: seq<Value>)
    requires all == [BOOLEAN, TINYINT, SMALLINT, INTEGER, BIGINT, DECIMAL, TIMESTAMP, VARCHAR]
    requires |values| == 8 && (forall i :: 0 <= i < 7 ==> values[i].Fixed?) && values[7].Varchar?
    requires |values[7].chars| <= 4000
    ensures Start(all, values, 7) == 44 && TupleSize(all, values) == 48 + |values[7].chars|
  {
    assert Offset(all, 1) == 1;
    assert Offset(all, 2) == 2;
    assert Offset(all, 3) == 4;
    assert Offset(all, 4) == 8;
    assert Offset(all, 5) == 16;
    assert Offset(all, 6) == 24;
    assert Offset(all, 7) == 32;
    assert Length(all) == 44;
    hide Offset;
    assert Start(all, values, 1) == 44;
    assert Start(all, values, 2) == 44;
    assert Start(all, values, 3) == 44;
    assert Start(all, values, 4) == 44;
    assert Start(all, values, 5) == 44;
    assert Start(all, values, 6) == 44;
  }
}
