/** Crash recovery: the redo pass over the log file and the undo pass along the
    `prevLsn` chains. */
module LogRecoveryModel {
  import opened Bytes
  import opened SlotMap
  import opened TablePageModel
  import opened LogCodec
  import opened LogManagerModel
  import opened Replay
  import opened RedoPass
  import opened UndoPass

  class LogRecovery {
    const logFile: seq<byte>
    var store: Store
    var activeTxn: map<int32, int32>
    var lsnMapping: map<int32, int>
    var offset: nat

    constructor (logFile: seq<byte>, disk: Store)
      ensures this.logFile == logFile && store == disk && activeTxn == map[] && lsnMapping == map[] && offset == 0
    {
      this.logFile := logFile;
      store := disk;
      activeTxn, lsnMapping := map[], map[];
      offset := 0;
    }

    /** `ReadLog`: `size` bytes of the file from `at`, zeros past its end. */
    method ReadLog(size: nat, at: nat) returns (ok: bool, buffer: seq<byte>)
      ensures ok == (at < |logFile|)
      ensures ok && at + size <= |logFile| ==> buffer == logFile[at..at + size]
      ensures ok && at + size > |logFile| ==> buffer == Window(logFile[at..], size - (|logFile| - at))
    {
      if at >= |logFile| {
        return false, [];
      }
      if at + size <= |logFile| {
        return true, logFile[at..at + size];
      }
      return true, logFile[at..] + Zeros(size - (|logFile| - at));
    }

    /** Redo of a page creation, and the repair of the link that leads to it. */
    method RedoNewPage(prevPageId: int32, pageId: int32)
      requires prevPageId != pageId
      modifies this`store
      ensures forall pid: int32 :: pid != pageId ==> SamePage(old(Fetch(store, pid)), Fetch(store, pid))
      ensures Lsn(Fetch(store, pageId)) == old(Lsn(Fetch(store, pageId)))
      ensures ImageOf(Fetch(store, pageId)) == Slotted([])
      ensures PageId(Fetch(store, pageId)) == pageId && PrevId(Fetch(store, pageId)) == prevPageId
      ensures prevPageId != INVALID_PAGE_ID ==> NextId(Fetch(store, prevPageId)) == pageId
    {
      hide Lsn, ImageOf, PageId, PrevId, NextId;
      var q := RedoneNewPage(Fetch(store, pageId), prevPageId, pageId);
      store := store[pageId := q];
      if prevPageId != INVALID_PAGE_ID {
        var r := RelinkedPage(Fetch(store, prevPageId), pageId);
        store := store[prevPageId := r];
      }
    }

    method RedoTuple(op: Op)
      requires IsTupleOp(op) && Defined(ImageOf(Fetch(store, op.rid.pageId)), op)
      modifies this`store
      ensures forall pid: int32 :: pid != op.rid.pageId ==> Fetch(store, pid) == old(Fetch(store, pid))
      ensures Lsn(Fetch(store, op.rid.pageId)) == old(Lsn(Fetch(store, op.rid.pageId)))
      ensures ImageOf(Fetch(store, op.rid.pageId)) == Apply(old(ImageOf(Fetch(store, op.rid.pageId))), op)
    {
      hide Lsn, ImageOf;
      var q := RedoneTuplePage(Fetch(store, op.rid.pageId), op);
      store := store[op.rid.pageId := q];
    }

    /** One record: compare page LSN and record LSN, apply the record if the page is older. */
    method RedoRecord(r: LogRecord, ghost log: seq<LogRecord>, ghost start: Store, ghost k: nat)
      requires k < |log| && r == log[k] && r.lsn == k && RedoDefined(log, start) && RedoneTo(log, start, store, k)
      modifies this`store
      ensures RedoneTo(log, start, store, k + 1)
    {
      hide Lsn, ImageOf, Fetch, Defined, Apply, RedoImage;
      ghost var before := store;
      if r.op.NewPage? {
        var pid := r.op.pageId;
        assert PageAt(log, Fetch(start, pid), Fetch(store, pid), pid, k);
        if Lsn(Fetch(store, pid)) < r.lsn {
          NewPageDefined(ImageOf(Fetch(store, pid)), r.op);
          RedoNewPage(r.op.prevPageId, pid);
        }
      } else if IsTupleOp(r.op) {
        var pid := r.op.rid.pageId;
        assert PageAt(log, Fetch(start, pid), Fetch(store, pid), pid, k);
        if Lsn(Fetch(store, pid)) < r.lsn {
          RedoTuple(r.op);
        }
      }
      RedoStep(log, start, before, store, k);
    }

    /** What redo leaves, from any disk: on each page the records newer than its LSN are
        applied, and the two tables are filled for undo. If each page on disk holds its
        records up to its LSN, redo is complete: every page is as after the whole log. */
    method Redo(ghost base: Base, ghost log: seq<LogRecord>)
      requires AllEncodable(log) && logFile == EncodeAll(log) && |logFile| + HEADER_SIZE <= LOG_BUFFER_SIZE
      requires Sequenced(log) && RedoDefined(log, store)
      requires activeTxn == map[] && lsnMapping == map[] && offset == 0
      modifies this
      ensures forall pid: int32 ::
                ImageOf(Fetch(store, pid)) ==
                RedoImage(old(ImageOf(Fetch(store, pid))), old(Lsn(Fetch(store, pid))), pid, log, |log|)
      ensures forall pid: int32 :: Lsn(Fetch(store, pid)) == old(Lsn(Fetch(store, pid)))
      ensures LegalLog(base, log) && old(DiskOk(base, log, store)) ==>
                forall pid: int32 :: ImageOf(Fetch(store, pid)) == ImageAfter(base, pid, log, |log|)
      ensures ActiveAt(log, |log|, activeTxn) && OffsetsAt(log, |log|, lsnMapping)
      ensures TxnLog(log) ==> forall x: int32 :: x in activeTxn <==> Running(log, x)
      ensures offset == |logFile|
    {
      hide EncodeAll, Encodable, DiskOk, Sequenced, LegalLog, Deserialize, InWindow, RecordSize, RedoDefined, ImageOf,
        Lsn, Fetch, RedoImage, ImageAfter, PageAt, Running, TxnLog;
      ghost var start := store;
      ghost var k := 0;
      StartTables(log, store);
      var more, buffer := ReadLog(LOG_BUFFER_SIZE, offset);
      while more
        invariant 0 <= k <= |log| && offset == |EncodeAll(log[..k])|
        invariant RedoneTo(log, start, store, k) && ActiveAt(log, k, activeTxn) && OffsetsAt(log, k, lsnMapping)
        invariant more ==> k == 0 && log != [] && buffer == Window(EncodeAll(log), LOG_BUFFER_SIZE - |logFile|)
        invariant !more ==> k == |log|
        decreases |log| - k
      {
        var pos := RedoBuffer(buffer, log, start);
        offset := offset + pos;
        k := |log|;
        assert log[..k] == log;
        more, buffer := ReadLog(LOG_BUFFER_SIZE, offset);
      }
      assert log[..k] == log;
      FinalPages(log, start, store);
      if LegalLog(base, log) && DiskOk(base, log, start) {
        RedoIsComplete(base, log, start);
      }
      if TxnLog(log) {
        ActiveAreRunning(log, activeTxn);
      }
    }

    /** The inner loop: deserialize and redo record after record until one fails to parse. */
    method RedoBuffer(buffer: seq<byte>, ghost log: seq<LogRecord>, ghost start: Store) returns (pos: nat)
      requires AllEncodable(log) && |EncodeAll(log)| + HEADER_SIZE <= LOG_BUFFER_SIZE
      requires buffer == Window(EncodeAll(log), LOG_BUFFER_SIZE - |EncodeAll(log)|)
      requires Sequenced(log) && RedoDefined(log, start) && offset == 0
      requires RedoneTo(log, start, store, 0) && ActiveAt(log, 0, activeTxn) && OffsetsAt(log, 0, lsnMapping)
      modifies this`store, this`activeTxn, this`lsnMapping
      ensures pos == |EncodeAll(log)|
      ensures RedoneTo(log, start, store, |log|)
      ensures ActiveAt(log, |log|, activeTxn) && OffsetsAt(log, |log|, lsnMapping)
    {
      hide EncodeAll, Encodable, Sequenced, RedoDefined, Deserialize, InWindow, RecordSize, RedoneTo, ActiveAt,
        SequencedRecord, Window;
      ghost var slack := LOG_BUFFER_SIZE - |EncodeAll(log)|;
      ghost var k := 0;
      pos := 0;
      EmptyLog(log);
      ParseYieldsRecords(log, slack, 0);
      var parsed := Deserialize(buffer, pos);
      while parsed.Some?
        invariant 0 <= k <= |log| && pos == |EncodeAll(log[..k])|
        invariant parsed.Some? <==> k < |log|
        invariant k < |log| ==> parsed.value.record == log[k] && parsed.value.size == RecordSize(log[k].op)
        invariant RedoneTo(log, start, store, k) && ActiveAt(log, k, activeTxn) && OffsetsAt(log, k, lsnMapping)
        decreases |log| - k
      {
        var r := parsed.value.record;
        LsnIsIndex(log, k);
        ActiveStep(log, k, activeTxn);
        activeTxn := activeTxn[r.txn := r.lsn];
        lsnMapping := lsnMapping[r.lsn := offset + pos];
        ParseYieldsRecords(log, slack, k);
        ParseYieldsRecords(log, slack, k + 1);
        pos := pos + parsed.value.size;
        if EndsTxn(r.op) {
          activeTxn := activeTxn - {r.txn};
        }
        RedoRecord(r, log, start, k);
        k := k + 1;
        parsed := Deserialize(buffer, pos);
      }
      assert log[..k] == log;
    }

    /** One stop of the walk; fails exactly where an assertion does. */
    method UndoRecord(r: LogRecord, ghost base: Base, ghost log: seq<LogRecord>, ghost stops: seq<nat>, ghost n: nat)
      returns (ok: bool)
      requires LegalLog(base, log) && InLog(log, stops) && n < |stops| && r == log[stops[n]]
      requires PagesUndone(base, log, store, stops, n)
      modifies this`store
      ensures ok <==> StopOk(base, log, stops, n)
      ensures ok ==> PagesUndone(base, log, store, stops, n + 1)
    {
      hide ImageOf, LegalLog, ImageAfter, UndoOn, UndoOk;
      ok := true;
      ghost var before := store;
      if IsTupleOp(r.op) {
        var pid := r.op.rid.pageId;
        StopFindsPage(base, log, stops, n);
        assert ImageOf(Fetch(store, pid)) == UndoneImage(base, pid, log, stops, n);
        var q: Page;
        ok, q := UndonePage(Fetch(store, pid), r.op);
        store := store[pid := q];
      }
      if ok {
        forall other: int32
          ensures ImageOf(Fetch(store, other)) == UndoneImage(base, other, log, stops, n + 1)
        {
          assert ImageOf(Fetch(before, other)) == UndoneImage(base, other, log, stops, n);
        }
      }
    }

    /** Reads the record with this LSN back from the file. */
    method ReadRecord(lsn: int32, ghost log: seq<LogRecord>) returns (r: LogRecord)
      requires AllEncodable(log) && logFile == EncodeAll(log) && OffsetsAt(log, |log|, lsnMapping)
      requires 0 <= lsn < |log| && RecordSize(log[lsn].op) <= PAGE_SIZE
      ensures r == log[lsn]
    {
      hide EncodeAll, Deserialize, InWindow, Encodable, Window, RecordSize;
      var at := lsnMapping[lsn];
      var more, buffer := ReadLog(PAGE_SIZE, at);
      RecordAt(log, lsn);
      ReadBack(log, lsn, logFile, buffer);
      r := Deserialize(buffer, 0).value.record;
    }

    /** The inner loop: along the `prevLsn` chain of one transaction, down to its BEGIN. */
    method UndoTransaction(x: int32, last: int32, before: seq<nat>, ghost base: Base, ghost log: seq<LogRecord>,
                           ghost stops: seq<nat>) returns (ok: bool, visited: seq<nat>)
      requires AllEncodable(log) && logFile == EncodeAll(log) && TxnLog(log) && LegalLog(base, log)
      requires SmallRecords(log) && OffsetsAt(log, |log|, lsnMapping)
      requires Unfinished(log, |log|, x) && last == LastLsn(log, |log|, x)
      requires InLog(log, stops) && before + RecordsOf(log, x, |log|) <= stops
      requires PagesUndone(base, log, store, stops, |before|)
      modifies this`store
      ensures visited <= stops && |before| <= |visited|
      ensures Walked(base, log, stops, |before|, |visited|, ok)
      ensures ok ==> visited == before + RecordsOf(log, x, |log|) && PagesUndone(base, log, store, stops, |visited|)
    {
      hide EncodeAll, LegalLog, TxnLog, SmallRecords, PagesUndone, Encodable, Walked, RecordSize, Unfinished, ChainFrom,
        LastLsn, OffsetsAt, AllEncodable, RecordsOf;
      ok, visited := true, before;
      var lsn := last;
      ghost var goal := before + RecordsOf(log, x, |log|);
      ChainStarts(base, log, x, stops, before);
      while lsn != INVALID_LSN && ok
        invariant -1 <= lsn < |log| && (lsn >= 0 ==> log[lsn].txn == x)
        invariant visited <= stops && |before| <= |visited| && Walked(base, log, stops, |before|, |visited|, ok)
        invariant ok ==> goal == visited + ChainFrom(log, x, lsn)
        invariant ok ==> PagesUndone(base, log, store, stops, |visited|)
        decreases lsn
      {
        ChainLink(log, x, lsn, visited, stops);
        LoserIsSmall(log, x, lsn);
        var r := ReadRecord(lsn, log);
        ok := UndoRecord(r, base, log, stops, |visited|);
        WalkedNext(base, log, stops, |before|, |visited|, ok);
        visited := visited + [lsn];
        lsn := r.prevLsn;
      }
      ChainEnds(log, x);
    }

    /** Undo ends, whatever the order of the active table: it visits the records of every
        unfinished transaction exactly once, each transaction newest first, and stops early
        exactly at the first failed assertion. With row locks held and every stop fine it
        leaves in each slot what the finished transactions alone put there. */
    method Undo(order: seq<int32>, ghost base: Base, ghost log: seq<LogRecord>) returns (ok: bool, visited: seq<nat>)
      requires AllEncodable(log) && logFile == EncodeAll(log) && TxnLog(log) && LegalLog(base, log)
      requires SmallRecords(log) && OrderOk(log, order)
      requires ActiveAt(log, |log|, activeTxn) && OffsetsAt(log, |log|, lsnMapping)
      requires forall pid: int32 :: ImageOf(Fetch(store, pid)) == ImageAfter(base, pid, log, |log|)
      modifies this
      ensures VisitsLosers(log, Stops(log, order)) && visited <= Stops(log, order)
      ensures ok <==> AllOk(base, log, Stops(log, order))
      ensures ok ==> visited == Stops(log, order) && PagesUndone(base, log, store, visited, |visited|)
      ensures !ok ==> visited != [] && !StopOk(base, log, Stops(log, order), |visited| - 1)
                      && forall i :: 0 <= i < |visited| - 1 ==> StopOk(base, log, Stops(log, order), i)
      ensures forall i :: 0 <= i < |visited| ==> visited[i] < |log| && Running(log, log[visited[i]].txn)
      ensures ok ==> forall k: nat :: k in visited <==> k < |log| && Running(log, log[k].txn)
      ensures ok ==> activeTxn == map[] && lsnMapping == map[]
      ensures LocksHeld(log) ==>
                (AllFine(base, log, Stops(log, order)) <==> ok && AlwaysOnTrack(base, log, Stops(log, order)))
      ensures LocksHeld(log) && NoAppliedDeletes(log) ==> (ok <==> AllFine(base, log, Stops(log, order)))
      ensures LocksHeld(log) && CompensatesOwn(log) && AllFine(base, log, Stops(log, order)) ==>
                ok && forall pid: int32 ::
                        ImageOf(Fetch(store, pid)) == ImageWithout(base, pid, log, LoserRecords(log))
    {
      hide EncodeAll, LegalLog, TxnLog, SmallRecords, PagesUndone, ImageAfter, AllEncodable, NewestFirst, LoserRecords,
        Walked, OrderOk, Unfinished, LastLsn, OffsetsAt, LocksHeld, CompensatesOwn, ImageWithout, ImageOf, Fetch,
        RecordsOf, StopOk, AllOk, NoAppliedDeletes, AllFine, AlwaysOnTrack, Running;
      ghost var stops := Stops(log, order);
      StopsAreLosers(log, order);
      NothingUndone(base, log, store, stops);
      ok, visited := true, [];
      var i := 0;
      NothingWalked(base, log, stops);
      while i < |order| && ok
        invariant 0 <= i <= |order| && activeTxn == old(activeTxn) && lsnMapping == old(lsnMapping)
        invariant visited <= stops && Walked(base, log, stops, 0, |visited|, ok)
        invariant ok ==> visited == Stops(log, order[..i]) && PagesUndone(base, log, store, stops, |visited|)
        decreases |order| - i
      {
        OrderedTxn(log, order, i);
        StopsNext(log, order, i);
        ghost var n := |visited|;
        ok, visited := UndoTransaction(order[i], activeTxn[order[i]], visited, base, log, stops);
        WalkedOn(base, log, stops, n, |visited|, ok);
        i := i + 1;
      }
      assert order[..|order|] == order;
      WalkedAll(base, log, stops, |visited|, ok);
      if ok {
        activeTxn, lsnMapping := map[], map[];
      }
      StopsAreRunning(log, stops);
      if LocksHeld(log) {
        AllFineIff(base, log, stops);
      }
      if LocksHeld(log) && NoAppliedDeletes(log) {
        CompletesIffFine(base, log, stops);
      }
      if LocksHeld(log) && CompensatesOwn(log) && AllFine(base, log, stops) {
        CompleteEverywhere(base, log, store, stops);
      }
    }
  }
}
