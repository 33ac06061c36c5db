/** The write-ahead log manager: two buffers swapped by the flush thread, LSN
    counters and the log file. Every method is one critical section under `latch_`. */
module LogManagerModel {
  import opened Bytes
  import opened LogCodec

  const LOG_BUFFER_SIZE := 45056

  /** What the log manager stands for: the records appended so far, how many of them
      are in the log file, and the flush request flag. The LSN of a record is its index. */
  datatype LogState = LogState(records: seq<LogRecord>, durable: nat, needsFlush: bool)

  ghost predicate WellFormed(s: LogState) {
    && s.durable <= |s.records|
    && AllEncodable(s.records)
    && (forall i :: 0 <= i < |s.records| ==> s.records[i].lsn == i)
    && |EncodeAll(s.records[s.durable..])| <= LOG_BUFFER_SIZE
  }

  ghost predicate Fits(s: LogState, op: Op)
    requires WellFormed(s)
  {
    |EncodeAll(s.records[s.durable..])| + RecordSize(op) <= LOG_BUFFER_SIZE
  }

  /** A record fits exactly when the bytes of all records, less those in the file, leave room for it. */
  lemma FitsIff(s: LogState, op: Op)
    requires WellFormed(s)
    ensures Fits(s, op) <==>
            |EncodeAll(s.records)| - |EncodeAll(s.records[..s.durable])| + RecordSize(op) <= 45056
  {
    hide Encode, RecordSize;
    EncodeAllSplit(s.records, s.durable);
  }

  function Stamped(s: LogState, txn: int32, prevLsn: int32, op: Op): LogRecord
    requires |s.records| < TWO_31
  {
    LogRecord(|s.records|, txn, prevLsn, op)
  }

  function AppendStep(s: LogState, txn: int32, prevLsn: int32, op: Op): LogState
    requires |s.records| < TWO_31
  {
    s.(records := s.records + [Stamped(s, txn, prevLsn, op)])
  }

  function FlushStep(s: LogState): LogState {
    s.(durable := |s.records|, needsFlush := false)
  }

  lemma AppendKeeps(s: LogState, txn: int32, prevLsn: int32, op: Op)
    requires WellFormed(s) && |s.records| < TWO_31 && Encodable(Stamped(s, txn, prevLsn, op))
    ensures var r, t := Stamped(s, txn, prevLsn, op), AppendStep(s, txn, prevLsn, op);
            && AllEncodable(t.records)
            && EncodeAll(t.records[s.durable..]) == EncodeAll(s.records[s.durable..]) + Encode(r)
            && t.records[..s.durable] == s.records[..s.durable]
            && (Fits(s, op) ==> WellFormed(t))
  {
    hide Encode;
    var r := Stamped(s, txn, prevLsn, op);
    var tail := (s.records + [r])[s.durable..];
    assert tail[..|tail| - 1] == s.records[s.durable..];
  }

  /** A flush makes the file the encoding of everything. */
  lemma FlushKeeps(s: LogState)
    requires WellFormed(s)
    ensures WellFormed(FlushStep(s))
    ensures EncodeAll(s.records) == EncodeAll(s.records[..s.durable]) + EncodeAll(s.records[s.durable..])
    ensures s.durable <= |s.records| && s.records[..|s.records|] == s.records
    ensures s.records[|s.records|..] == [] && EncodeAll([]) == []
    ensures EncodeAll(s.records[s.durable..]) == [] <==> s.durable == |s.records|
  {
    hide Encode;
    EncodeAllSplit(s.records, s.durable);
    var tail := s.records[s.durable..];
    assert tail != [] ==> |EncodeAll(tail)| >= |Encode(tail[|tail| - 1])| >= HEADER_SIZE;
  }

  /** Writing two pieces one after the other writes their concatenation. */
  lemma SpliceTwice(p: seq<byte>, at: nat, a: seq<byte>, b: seq<byte>)
    requires at + |a| + |b| <= |p|
    ensures Splice(Splice(p, at, a), at + |a|, b) == Splice(p, at, a + b)
  {
    SpliceAt(p, at, a);
    SpliceAt(Splice(p, at, a), at + |a|, b);
    SpliceAt(p, at, a + b);
  }

  class LogManager {
    var logBuffer: array<byte>
    var flushBuffer: array<byte>
    var logOffset: nat
    var flushOffset: nat
    var nextLsn: int
    var persistentLsn: int
    var lastLsn: int
    var needsFlush: bool
    /** The log file, and the buffer the disk manager was given last. */
    var diskLog: seq<byte>
    var bufferUsed: array?<byte>

    ghost var records: seq<LogRecord>

    ghost function State(): LogState
      reads this
      requires persistentLsn >= -1
    {
      LogState(records, persistentLsn + 1, needsFlush)
    }

    /** The file followed by the live prefix of the log buffer is the encoding of all
        records in LSN order, split at `persistentLsn`. */
    ghost predicate Valid()
      reads this, logBuffer, flushBuffer
    {
      && logBuffer != flushBuffer
      && logBuffer.Length == flushBuffer.Length == LOG_BUFFER_SIZE
      && flushOffset == 0 && logOffset <= LOG_BUFFER_SIZE
      && bufferUsed != logBuffer
      && persistentLsn >= -1
      && WellFormed(State())
      && nextLsn == |records| && lastLsn == |records| - 1
      && diskLog == EncodeAll(records[..persistentLsn + 1])
      && logBuffer[..logOffset] == EncodeAll(records[persistentLsn + 1..])
    }

    constructor ()
      ensures Valid() && fresh(logBuffer) && fresh(flushBuffer)
      ensures State() == LogState([], 0, false) && diskLog == []
    {
      logBuffer := new byte[LOG_BUFFER_SIZE](_ => 0);
      flushBuffer := new byte[LOG_BUFFER_SIZE](_ => 0);
      logOffset, flushOffset := 0, 0;
      nextLsn, persistentLsn, lastLsn := 0, INVALID_LSN, INVALID_LSN;
      needsFlush := false;
      diskLog, bufferUsed := [], null;
      records := [];
      new;
      assert EncodeAll([]) == [];
      hide EncodeAll;
      assert records[..0] == [] && records[0..] == [] && logBuffer[..0] == [];
    }

    /** One attempt of `AppendLogRecord` under the latch: it either writes the record and
        returns its LSN, or finds the buffer too full, asks for a flush and goes to sleep
        (`None`), to try again when woken. */
    method AppendLogRecord(txn: int32, prevLsn: int32, op: Op) returns (lsn: Option<int32>)
      requires Valid() && |records| < TWO_31 && Encodable(Stamped(State(), txn, prevLsn, op))
      modifies this, logBuffer
      ensures Valid() && logBuffer == old(logBuffer) && flushBuffer == old(flushBuffer)
      ensures lsn.Some? <==> Fits(old(State()), op)
      ensures lsn.Some? ==> lsn.value == |old(records)| && State() == AppendStep(old(State()), txn, prevLsn, op)
      ensures lsn.Some? ==> records == old(records) + [LogRecord(lsn.value, txn, prevLsn, op)]
      ensures lsn.Some? ==> needsFlush == old(needsFlush) && nextLsn == lsn.value + 1
      ensures lsn.None? ==> needsFlush && records == old(records)
      ensures persistentLsn == old(persistentLsn)
      ensures lsn.None? ==> State() == old(State()).(needsFlush := true)
      ensures diskLog == old(diskLog) && bufferUsed == old(bufferUsed)
    {
      hide EncodeAll, Encode, RecordSize;
      var size := RecordSize(op);
      if logOffset + size > LOG_BUFFER_SIZE {
        needsFlush := true;
        return None;
      }
      var record := LogRecord(nextLsn, txn, prevLsn, op);
      ghost var s := State();
      AppendKeeps(s, txn, prevLsn, op);
      nextLsn := nextLsn + 1;
      Serialize(record);
      logOffset := logOffset + size;
      lastLsn := record.lsn;
      records := records + [record];
      return Some(record.lsn);
    }

    /** Header first, then the body piece by piece. */
    method Serialize(r: LogRecord)
      requires logBuffer.Length == LOG_BUFFER_SIZE && Encodable(r) && logOffset + RecordSize(r.op) <= LOG_BUFFER_SIZE
      modifies logBuffer
      ensures logBuffer[..] == Splice(old(logBuffer[..]), logOffset, Encode(r))
      ensures logBuffer[..logOffset + RecordSize(r.op)] == old(logBuffer[..logOffset]) + Encode(r)
    {
      hide EncodeHeader, EncodeTuple, EncodeRid, EncodeI32, Splice;
      ghost var b := logBuffer[..];
      Copy(logBuffer, logOffset, EncodeHeader(r));
      SerializeBody(r.op, logOffset + HEADER_SIZE);
      SpliceTwice(b, logOffset, EncodeHeader(r), EncodeBody(r.op));
      SpliceAt(b, logOffset, Encode(r));
      assert logBuffer[..logOffset + RecordSize(r.op)] == logBuffer[..][..logOffset + RecordSize(r.op)]
          == b[..logOffset] + Encode(r);
    }

    method SerializeBody(op: Op, at: nat)
      requires logBuffer.Length == LOG_BUFFER_SIZE && RecordSize(op) < TWO_31
      requires at + |EncodeBody(op)| <= LOG_BUFFER_SIZE
      modifies logBuffer
      ensures logBuffer[..] == Splice(old(logBuffer[..]), at, EncodeBody(op))
    {
      hide EncodeTuple, EncodeRid, EncodeI32, Splice;
      ghost var b := logBuffer[..];
      if op.Begin? || op.Commit? || op.Abort? {
        SpliceAt(b, at, []);
        assert Splice(b, at, []) == b;
      } else if op.Update? {
        var pos := at;
        Copy(logBuffer, pos, EncodeRid(op.rid));
        pos := pos + 8;
        Copy(logBuffer, pos, EncodeTuple(op.oldTuple));
        pos := pos + 4 + |op.oldTuple|;
        Copy(logBuffer, pos, EncodeTuple(op.newTuple));
        SpliceTwice(Splice(b, at, EncodeRid(op.rid)), at + 8, EncodeTuple(op.oldTuple), EncodeTuple(op.newTuple));
        SpliceTwice(b, at, EncodeRid(op.rid), EncodeTuple(op.oldTuple) + EncodeTuple(op.newTuple));
      } else if op.NewPage? {
        Copy(logBuffer, at, EncodeI32(op.prevPageId));
        Copy(logBuffer, at + 4, EncodeI32(op.pageId));
        SpliceTwice(b, at, EncodeI32(op.prevPageId), EncodeI32(op.pageId));
      } else {
        Copy(logBuffer, at, EncodeRid(op.rid));
        Copy(logBuffer, at + 8, EncodeTuple(op.tuple));
        SpliceTwice(b, at, EncodeRid(op.rid), EncodeTuple(op.tuple));
      }
    }

    /** One round of the flush thread. The disk manager insists on alternating buffers. */
    method FlushRound()
      requires Valid()
      modifies this
      ensures Valid()
      ensures {logBuffer, flushBuffer} == {old(logBuffer), old(flushBuffer)}
      ensures State() == FlushStep(old(State()))
      ensures old(persistentLsn) <= persistentLsn
      ensures diskLog == EncodeAll(records) && old(diskLog) <= diskLog
      ensures logOffset == 0 && !needsFlush && records == old(records) && persistentLsn == |records| - 1
    {
      hide EncodeAll, WellFormed;
      FlushKeeps(State());
      if logOffset > 0 {
        logBuffer, flushBuffer := flushBuffer, logBuffer;
        logOffset, flushOffset := flushOffset, logOffset;
        assert logOffset == 0;
        WriteLog(flushBuffer, flushOffset);
        flushOffset := 0;
        persistentLsn := lastLsn;
      }
      needsFlush := false;
    }

    method WriteLog(buffer: array<byte>, size: nat)
      requires size <= buffer.Length && buffer != bufferUsed
      modifies this`diskLog, this`bufferUsed
      ensures diskLog == old(diskLog) + buffer[..size] && bufferUsed == buffer
    {
      bufferUsed := buffer;
      diskLog := diskLog + buffer[..size];
    }

    /** `Flush(true)` up to its wait. */
    method RequestFlush()
      requires Valid()
      modifies this`needsFlush
      ensures Valid() && State() == old(State()).(needsFlush := true)
    {
      needsFlush := true;
    }
  }
}
