/** Log records and their byte form: a 20-byte header
    | size | LSN | transaction | previous LSN | type | and a body by type. */
module LogCodec {
  import opened Bytes
  import opened TablePageModel

  const HEADER_SIZE := 20
  const INVALID_LSN: int32 := -1
  const INVALID_TXN_ID: int32 := -1

  datatype Op =
    | Insert(rid: RID, tuple: seq<byte>)
    | MarkDelete(rid: RID, tuple: seq<byte>)
    | ApplyDelete(rid: RID, tuple: seq<byte>)
    | RollbackDelete(rid: RID, tuple: seq<byte>)
    | Update(rid: RID, oldTuple: seq<byte>, newTuple: seq<byte>)
    | Begin
    | Commit
    | Abort
    | NewPage(prevPageId: int32, pageId: int32)

  datatype LogRecord = LogRecord(lsn: int32, txn: int32, prevLsn: int32, op: Op)

  predicate EndsTxn(op: Op) { op.Commit? || op.Abort? }

  /** What the deserializer fills in: the record and the size word of its header. */
  datatype Parsed = Parsed(size: int32, record: LogRecord)

  function TypeCode(op: Op): uint32 {
    match op
    case Insert(_, _) => 1
    case MarkDelete(_, _) => 2
    case ApplyDelete(_, _) => 3
    case RollbackDelete(_, _) => 4
    case Update(_, _, _) => 5
    case Begin => 6
    case Commit => 7
    case Abort => 8
    case NewPage(_, _) => 9
  }

  /** The size each record constructor computes. */
  function RecordSize(op: Op): nat {
    match op
    case Begin => HEADER_SIZE
    case Commit => HEADER_SIZE
    case Abort => HEADER_SIZE
    case Update(_, o, n) => HEADER_SIZE + 8 + |o| + |n| + 2 * 4
    case NewPage(_, _) => HEADER_SIZE + 2 * 4
    case _ => HEADER_SIZE + 8 + 4 + |op.tuple|
  }

  predicate Encodable(r: LogRecord) {
    r.lsn != INVALID_LSN && r.txn != INVALID_TXN_ID && RecordSize(r.op) < TWO_31
  }

  /** Every record the log manager can be given has a byte form. */
  lemma AnyRecordEncodable(r: LogRecord)
    requires r.lsn >= 0 && r.txn >= 0 && RecordSize(r.op) < TWO_31
    ensures Encodable(r)
  {
  }

  function EncodeRid(rid: RID): (s: seq<byte>)
    ensures |s| == 8
  {
    EncodeI32(rid.pageId) + EncodeU32(rid.slot)
  }

  function EncodeTuple(t: seq<byte>): (s: seq<byte>)
    requires |t| < TWO_32
    ensures |s| == 4 + |t|
  {
    EncodeU32(|t|) + t
  }

  function EncodeHeader(r: LogRecord): (s: seq<byte>)
    requires RecordSize(r.op) < TWO_31
    ensures |s| == HEADER_SIZE
  {
    EncodeI32(RecordSize(r.op)) +
    (EncodeI32(r.lsn) + (EncodeI32(r.txn) + (EncodeI32(r.prevLsn) + EncodeU32(TypeCode(r.op)))))
  }

  function EncodeBody(op: Op): seq<byte>
    requires RecordSize(op) < TWO_31
  {
    match op
    case Begin => []
    case Commit => []
    case Abort => []
    case Update(rid, o, n) => EncodeRid(rid) + (EncodeTuple(o) + EncodeTuple(n))
    case NewPage(prev, page) => EncodeI32(prev) + EncodeI32(page)
    case _ => EncodeRid(op.rid) + EncodeTuple(op.tuple)
  }

  /** The constructor's size is exactly the number of bytes written. */
  function Encode(r: LogRecord): (s: seq<byte>)
    requires RecordSize(r.op) < TWO_31
    ensures |s| == RecordSize(r.op)
  {
    EncodeHeader(r) + EncodeBody(r.op)
  }

  /** A record byte by byte: size, LSN, transaction, previous LSN, type. */
  lemma BeginBytes()
    ensures Encode(LogRecord(1, 2, -1, Begin)) == [20, 0, 0, 0, 1, 0, 0, 0, 2, 0, 0, 0, 255, 255, 255, 255, 6, 0, 0, 0]
  {
  }

  /** The numbers of the record types. */
  lemma TypeCodes(rid: RID, t: seq<byte>, o: seq<byte>, a: int32, b: int32)
    ensures [TypeCode(Insert(rid, t)), TypeCode(MarkDelete(rid, t)), TypeCode(ApplyDelete(rid, t)),
             TypeCode(RollbackDelete(rid, t)), TypeCode(Update(rid, o, t)), TypeCode(Begin), TypeCode(Commit),
             TypeCode(Abort), TypeCode(NewPage(a, b))] == [1, 2, 3, 4, 5, 6, 7, 8, 9]
  {
  }

  predicate AllEncodable(rs: seq<LogRecord>) {
    forall i :: 0 <= i < |rs| ==> Encodable(rs[i])
  }

  /** The log file: the records back to back. */
  function EncodeAll(rs: seq<LogRecord>): seq<byte>
    requires AllEncodable(rs)
  {
    if rs == [] then [] else EncodeAll(rs[..|rs| - 1]) + Encode(rs[|rs| - 1])
  }

  // ---------- decoding ----------

  /** The header checks of the deserializer. */
  predicate HeaderOk(buf: seq<byte>, pos: nat)
    requires pos + HEADER_SIZE <= |buf|
  {
    && ReadI32(buf, pos) >= 0
    && ReadI32(buf, pos + 4) != INVALID_LSN
    && ReadI32(buf, pos + 8) != INVALID_TXN_ID
    && ReadU32(buf, pos + 16) != 0
  }

  /** Every byte the deserializer reads lies inside the buffer; it does not check this. */
  predicate InWindow(buf: seq<byte>, pos: nat) {
    && pos + HEADER_SIZE <= |buf|
    && (HeaderOk(buf, pos) ==>
          var t := ReadU32(buf, pos + 16);
          && (1 <= t <= 5 ==> TupleInWindow(buf, pos + 28))
          && (t == 5 ==> TupleInWindow(buf, pos + 32 + ReadU32(buf, pos + 28)))
          && (t == 9 ==> pos + 28 <= |buf|))
  }

  predicate TupleInWindow(buf: seq<byte>, at: nat) {
    at + 4 <= |buf| && at + 4 + ReadU32(buf, at) <= |buf|
  }

  function ReadRid(buf: seq<byte>, at: nat): RID
    requires at + 8 <= |buf|
  {
    RID(ReadI32(buf, at), ReadU32(buf, at + 4))
  }

  function ReadTuple(buf: seq<byte>, at: nat): seq<byte>
    requires TupleInWindow(buf, at)
  {
    buf[at + 4..at + 4 + ReadU32(buf, at)]
  }

  function ReadOp(buf: seq<byte>, pos: nat): Option<Op>
    requires InWindow(buf, pos) && HeaderOk(buf, pos)
  {
    var t := ReadU32(buf, pos + 16);
    if t == 6 then Some(Begin)
    else if t == 7 then Some(Commit)
    else if t == 8 then Some(Abort)
    else if t == 1 then Some(Insert(ReadRid(buf, pos + 20), ReadTuple(buf, pos + 28)))
    else if t == 2 then Some(MarkDelete(ReadRid(buf, pos + 20), ReadTuple(buf, pos + 28)))
    else if t == 3 then Some(ApplyDelete(ReadRid(buf, pos + 20), ReadTuple(buf, pos + 28)))
    else if t == 4 then Some(RollbackDelete(ReadRid(buf, pos + 20), ReadTuple(buf, pos + 28)))
    else if t == 5 then
      var o := ReadTuple(buf, pos + 28);
      Some(Update(ReadRid(buf, pos + 20), o, ReadTuple(buf, pos + 32 + |o|)))
    else if t == 9 then Some(NewPage(ReadI32(buf, pos + 20), ReadI32(buf, pos + 24)))
    else None
  }

  function Deserialize(buf: seq<byte>, pos: nat): Option<Parsed>
    requires InWindow(buf, pos)
  {
    if !HeaderOk(buf, pos) then None
    else
      match ReadOp(buf, pos)
      case None => None
      case Some(op) =>
        Some(Parsed(ReadI32(buf, pos),
                    LogRecord(ReadI32(buf, pos + 4), ReadI32(buf, pos + 8), ReadI32(buf, pos + 12), op)))
  }

  /** The parser stops exactly at a negative size, an invalid LSN or transaction, or a type that
      is none of the nine. */
  lemma StopsIff(buf: seq<byte>, pos: nat)
    requires InWindow(buf, pos)
    ensures Deserialize(buf, pos).None? <==>
            (ReadI32(buf, pos) < 0 || ReadI32(buf, pos + 4) == -1 || ReadI32(buf, pos + 8) == -1
             || ReadU32(buf, pos + 16) == 0 || ReadU32(buf, pos + 16) > 9)
  {
    hide ReadU32;
  }

  // ---------- round trip ----------

  predicate At(buf: seq<byte>, pos: nat, b: seq<byte>) {
    pos + |b| <= |buf| && buf[pos..pos + |b|] == b
  }

  lemma AtSplit(buf: seq<byte>, pos: nat, a: seq<byte>, b: seq<byte>)
    requires At(buf, pos, a + b)
    ensures At(buf, pos, a) && At(buf, pos + |a|, b)
  {
    var s := buf[pos..pos + |a + b|];
    assert buf[pos..pos + |a|] == s[..|a|] == a;
    assert buf[pos + |a|..pos + |a| + |b|] == s[|a|..] == b;
  }

  lemma AtU32(buf: seq<byte>, pos: nat, n: uint32)
    requires At(buf, pos, EncodeU32(n))
    ensures ReadU32(buf, pos) == n
  {
    EncodeReadU32(buf, pos, n);
  }

  lemma AtI32(buf: seq<byte>, pos: nat, n: int32)
    requires At(buf, pos, EncodeI32(n))
    ensures ReadI32(buf, pos) == n
  {
    EncodeReadU32(buf, pos, AsU32(n));
  }

  lemma AtRid(buf: seq<byte>, pos: nat, rid: RID)
    requires At(buf, pos, EncodeRid(rid))
    ensures ReadRid(buf, pos) == rid
  {
    AtSplit(buf, pos, EncodeI32(rid.pageId), EncodeU32(rid.slot));
    AtI32(buf, pos, rid.pageId);
    AtU32(buf, pos + 4, rid.slot);
  }

  lemma AtTuple(buf: seq<byte>, pos: nat, t: seq<byte>)
    requires |t| < TWO_32 && At(buf, pos, EncodeTuple(t))
    ensures TupleInWindow(buf, pos) && ReadTuple(buf, pos) == t && ReadU32(buf, pos) == |t|
  {
    AtSplit(buf, pos, EncodeU32(|t|), t);
    AtU32(buf, pos, |t|);
  }

  lemma AtHeader(buf: seq<byte>, pos: nat, r: LogRecord)
    requires RecordSize(r.op) < TWO_31 && At(buf, pos, EncodeHeader(r))
    ensures ReadI32(buf, pos) == RecordSize(r.op)
    ensures ReadI32(buf, pos + 4) == r.lsn
    ensures ReadI32(buf, pos + 8) == r.txn
    ensures ReadI32(buf, pos + 12) == r.prevLsn
    ensures ReadU32(buf, pos + 16) == TypeCode(r.op)
  {
    hide ReadU32, EncodeU32;
    var t := EncodeU32(TypeCode(r.op));
    var p := EncodeI32(r.prevLsn) + t;
    var x := EncodeI32(r.txn) + p;
    var l := EncodeI32(r.lsn) + x;
    AtSplit(buf, pos, EncodeI32(RecordSize(r.op)), l);
    AtSplit(buf, pos + 4, EncodeI32(r.lsn), x);
    AtSplit(buf, pos + 8, EncodeI32(r.txn), p);
    AtSplit(buf, pos + 12, EncodeI32(r.prevLsn), t);
    AtI32(buf, pos, RecordSize(r.op));
    AtI32(buf, pos + 4, r.lsn);
    AtI32(buf, pos + 8, r.txn);
    AtI32(buf, pos + 12, r.prevLsn);
    AtU32(buf, pos + 16, TypeCode(r.op));
  }

  /** The header words of record `r`, as loaded from `pos`. */
  ghost predicate HeaderReads(buf: seq<byte>, pos: nat, r: LogRecord) {
    && pos + HEADER_SIZE <= |buf|
    && ReadI32(buf, pos) == RecordSize(r.op)
    && ReadI32(buf, pos + 4) == r.lsn
    && ReadI32(buf, pos + 8) == r.txn
    && ReadI32(buf, pos + 12) == r.prevLsn
    && ReadU32(buf, pos + 16) == TypeCode(r.op)
  }

  lemma UpdateReads(buf: seq<byte>, pos: nat, r: LogRecord)
    requires Encodable(r) && r.op.Update? && HeaderReads(buf, pos, r) && At(buf, pos + 20, EncodeBody(r.op))
    ensures InWindow(buf, pos) && HeaderOk(buf, pos) && ReadOp(buf, pos) == Some(r.op)
  {
    hide ReadU32, EncodeU32, EncodeRid, EncodeTuple, ReadTuple, ReadRid;
    var Update(rid, o, n) := r.op;
    AtSplit(buf, pos + 20, EncodeRid(rid), EncodeTuple(o) + EncodeTuple(n));
    AtSplit(buf, pos + 28, EncodeTuple(o), EncodeTuple(n));
    AtRid(buf, pos + 20, rid);
    AtTuple(buf, pos + 28, o);
    AtTuple(buf, pos + 32 + |o|, n);
  }

  lemma TupleOpReads(buf: seq<byte>, pos: nat, r: LogRecord)
    requires Encodable(r) && 1 <= TypeCode(r.op) <= 4
    requires HeaderReads(buf, pos, r) && At(buf, pos + 20, EncodeBody(r.op))
    ensures InWindow(buf, pos) && HeaderOk(buf, pos) && ReadOp(buf, pos) == Some(r.op)
  {
    hide ReadU32, EncodeU32, EncodeRid, EncodeTuple, ReadTuple, ReadRid;
    AtSplit(buf, pos + 20, EncodeRid(r.op.rid), EncodeTuple(r.op.tuple));
    AtRid(buf, pos + 20, r.op.rid);
    AtTuple(buf, pos + 28, r.op.tuple);
  }

  lemma NewPageReads(buf: seq<byte>, pos: nat, r: LogRecord)
    requires Encodable(r) && r.op.NewPage? && HeaderReads(buf, pos, r) && At(buf, pos + 20, EncodeBody(r.op))
    ensures InWindow(buf, pos) && HeaderOk(buf, pos) && ReadOp(buf, pos) == Some(r.op)
  {
    hide ReadU32, EncodeU32;
    AtSplit(buf, pos + 20, EncodeI32(r.op.prevPageId), EncodeI32(r.op.pageId));
    AtI32(buf, pos + 20, r.op.prevPageId);
    AtI32(buf, pos + 24, r.op.pageId);
  }

  /** One record reads back from wherever its bytes lie. */
  lemma DecodeEncode(buf: seq<byte>, pos: nat, r: LogRecord)
    requires Encodable(r) && At(buf, pos, Encode(r))
    ensures InWindow(buf, pos)
    ensures Deserialize(buf, pos) == Some(Parsed(RecordSize(r.op), r))
  {
    hide ReadU32, EncodeU32, EncodeHeader, EncodeBody, ReadTuple, ReadRid;
    AtSplit(buf, pos, EncodeHeader(r), EncodeBody(r.op));
    AtHeader(buf, pos, r);
    if r.op.Update? {
      UpdateReads(buf, pos, r);
    } else if r.op.NewPage? {
      NewPageReads(buf, pos, r);
    } else if TypeCode(r.op) <= 4 {
      TupleOpReads(buf, pos, r);
    }
  }

  lemma ZeroWord(buf: seq<byte>, at: nat)
    requires at + 4 <= |buf| && forall i :: at <= i < at + 4 ==> buf[i] == 0
    ensures ReadU32(buf, at) == 0
  {
  }

  /** Zero bytes stop the parser: the type word reads as invalid. */
  lemma ZerosStop(buf: seq<byte>, pos: nat)
    requires pos + HEADER_SIZE <= |buf| && forall i :: pos <= i < pos + HEADER_SIZE ==> buf[i] == 0
    ensures InWindow(buf, pos) && Deserialize(buf, pos) == None
  {
    hide ReadU32;
    ZeroWord(buf, pos + 16);
  }

  lemma {:induction false} EncodeAllSplit(rs: seq<LogRecord>, k: nat)
    requires AllEncodable(rs) && k <= |rs|
    ensures EncodeAll(rs) == EncodeAll(rs[..k]) + EncodeAll(rs[k..])
    decreases |rs|
  {
    hide Encode;
    if k == |rs| {
      assert rs[..k] == rs && rs[k..] == [];
    } else {
      var init := rs[..|rs| - 1];
      EncodeAllSplit(init, k);
      assert init[..k] == rs[..k] && init[k..] == rs[k..][..|rs| - 1 - k];
    }
  }

  lemma RecordAt(rs: seq<LogRecord>, k: nat)
    requires AllEncodable(rs) && k < |rs|
    ensures At(EncodeAll(rs), |EncodeAll(rs[..k])|, Encode(rs[k]))
    ensures |EncodeAll(rs[..k + 1])| == |EncodeAll(rs[..k])| + RecordSize(rs[k].op) <= |EncodeAll(rs)|
  {
    hide Encode;
    EncodeAllSplit(rs, k + 1);
    assert rs[..k + 1][..k] == rs[..k];
    var (a, b, c) := (EncodeAll(rs[..k]), Encode(rs[k]), EncodeAll(rs[k + 1..]));
    assert EncodeAll(rs) == a + b + c;
  }

  /** The log file as the recovery buffer holds it, zeros after its end. */
  function Window(file: seq<byte>, slack: nat): seq<byte> {
    file + Zeros(slack)
  }

  /** Codec round trip: reading record by record from the start yields exactly the
      records appended, in order, and stops at the end. */
  lemma ParseYieldsRecords(rs: seq<LogRecord>, slack: nat, k: nat)
    requires AllEncodable(rs) && slack >= HEADER_SIZE && k <= |rs|
    ensures var buf, pos := Window(EncodeAll(rs), slack), |EncodeAll(rs[..k])|;
            && InWindow(buf, pos)
            && Deserialize(buf, pos) == (if k < |rs| then Some(Parsed(RecordSize(rs[k].op), rs[k])) else None)
            && (k < |rs| ==> |EncodeAll(rs[..k + 1])| == pos + RecordSize(rs[k].op))
  {
    hide Encode, Deserialize, InWindow, EncodeAll;
    var file := EncodeAll(rs);
    var buf, pos := Window(file, slack), |EncodeAll(rs[..k])|;
    if k < |rs| {
      RecordAt(rs, k);
      var b := Encode(rs[k]);
      assert buf[pos..pos + |b|] == file[pos..pos + |b|];
      DecodeEncode(buf, pos, rs[k]);
    } else {
      assert rs[..k] == rs;
      ZerosStop(buf, pos);
    }
  }
}
