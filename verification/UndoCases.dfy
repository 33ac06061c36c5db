/** When undo completes whatever the order of the active table, and a log where the order decides. */
module UndoCases {
  import opened Bytes
  import opened SlotMap
  import opened TablePageModel
  import opened LogCodec
  import opened Replay
  import opened UndoPass

  /** No loser shrank a tuple or had begun to compensate. */
  ghost predicate NoShrink(log: seq<LogRecord>) {
    forall k :: 0 <= k < |log| && Unfinished(log, |log|, log[k].txn) ==> GrowsOnly(log[k].op)
  }

  predicate GrowsOnly(op: Op) {
    !Compensates(op) && (op.Update? ==> |op.oldTuple| <= |op.newTuple|)
  }

  predicate Fits(img: Image) { img.Slotted? ==> 0 <= FreeSpace(img.slots) }

  ghost predicate BaseFits(base: Base) {
    forall pid :: pid in base ==> Fits(base[pid])
  }

  lemma {:induction false} ApplyFits(img: Image, op: Op)
    requires Fits(img) && Legal(img, op) && (op.NewPage? || IsTupleOp(op))
    ensures Fits(Apply(img, op))
  {
    if IsTupleOp(op) {
      var v, s := img.slots, op.rid.slot;
      match op
      case Insert(_, t) => UsedPut(v, FirstEmpty(v), Tuple(t, false));
      case Update(_, _, n) => UsedPut(v, s, Tuple(n, false));
      case ApplyDelete(_, _) => UsedPut(v, s, Empty);
      case MarkDelete(_, _) => UsedPut(v, s, Tuple(v[s].data, true));
      case RollbackDelete(_, _) =>
        if v[s].Tuple? {
          UsedPut(v, s, Tuple(v[s].data, false));
        }
    }
  }

  /** A page image of a legal log has room for its tuples. */
  lemma {:induction false} ImageFits(base: Base, pid: int32, log: seq<LogRecord>, n: nat)
    requires LegalLog(base, log) && BaseFits(base) && n <= |log|
    ensures Fits(ImageAfter(base, pid, log, n))
  {
    hide Legal, Apply, Fits;
    if n > 0 {
      ImageFits(base, pid, log, n - 1);
      if Touches(log[n - 1].op, pid) {
        ApplyFits(ImageAfter(base, pid, log, n - 1), log[n - 1].op);
      }
    } else {
      BlankFits();
    }
  }

  lemma BlankFits()
    ensures Fits(Blank)
  {
  }

  /** What the undo of an update finds. */
  lemma UpdateFound(base: Base, log: seq<LogRecord>, undone: set<nat>, k: nat)
    requires LegalLog(base, log) && Next(log, undone, k) && log[k].op.Update?
    ensures var op := log[k].op; var pid, s := op.rid.pageId, op.rid.slot;
            var j := Oldest(log, pid, s, undone, |log|);
            SlotLeft(base, pid, s, log, undone) == Tuple(op.newTuple, j >= 0 && log[j].op.RollbackDelete?)
  {
    hide ImageAfter, SlotWithout, Oldest, LegalLog;
    SlotBeforeUndo(base, log, undone, k);
  }

  /** One growing record undone leaves at least as much room. */
  lemma GrowsOnlyStep(v: seq<Slot>, op: Op)
    requires IsTupleOp(op) && GrowsOnly(op) && op.rid.slot < |v| && 0 <= FreeSpace(v)
    requires op.Update? ==> v[op.rid.slot] == Tuple(op.newTuple, false)
    ensures FineOn(v, op) && 0 <= FreeSpace(UndoOn(v, op))
  {
    var s := op.rid.slot;
    match op
    case Insert(_, _) => UsedPut(v, s, Empty);
    case Update(_, o, _) => UsedPut(v, s, Tuple(o, false));
    case MarkDelete(_, _) =>
      if v[s].Tuple? {
        UsedPut(v, s, Tuple(v[s].data, false));
      }
  }

  ghost predicate RoomAfter(base: Base, log: seq<LogRecord>, stops: seq<nat>, n: nat, pid: int32)
    requires n <= |stops|
  {
    ImageAfter(base, pid, log, |log|).Slotted? ==> 0 <= FreeSpace(SlotsLeft(base, pid, log, Positions(stops[..n])))
  }

  /** One stop on a page with room is fine and leaves room. */
  lemma RoomStep(base: Base, log: seq<LogRecord>, stops: seq<nat>, n: nat, pid: int32)
    requires LegalLog(base, log) && LocksHeld(log) && NoShrink(log) && VisitsLosers(log, stops) && n < |stops|
    requires RoomAfter(base, log, stops, n, pid) && TupleOpOn(log[stops[n]].op, pid)
    ensures FineAt(base, log, stops, n) && RoomAfter(base, log, stops, n + 1, pid)
  {
    hide LegalLog, LocksHeld, ImageAfter, SlotLeft, FreeSpace, UndoOn, UndoOk, FineOn, NewestFirst, Unfinished, Oldest,
      GrowsOnly;
    var k, op, undone := stops[n], log[stops[n]].op, Positions(stops[..n]);
    assert k in Positions(stops);
    StopIsNext(log, stops, n);
    OneMore(stops, n);
    UndoStep(base, log, undone, k);
    var v := SlotsLeft(base, pid, log, undone);
    if op.Update? {
      UpdateFound(base, log, undone, k);
      NotRolledBack(log, stops, n, pid, op.rid.slot);
    }
    GrowsOnlyStep(v, op);
  }

  lemma NotRolledBack(log: seq<LogRecord>, stops: seq<nat>, n: nat, pid: int32, s: nat)
    requires NoShrink(log) && VisitsLosers(log, stops) && n <= |stops|
    ensures var j := Oldest(log, pid, s, Positions(stops[..n]), |log|); j >= 0 ==> !log[j].op.RollbackDelete?
  {
    hide Unfinished, Oldest, NewestFirst;
    var j := Oldest(log, pid, s, Positions(stops[..n]), |log|);
    assert j >= 0 ==> j in Positions(stops);
  }

  lemma {:induction false} RoomStays(base: Base, log: seq<LogRecord>, stops: seq<nat>, n: nat, pid: int32)
    requires LegalLog(base, log) && LocksHeld(log) && NoShrink(log) && BaseFits(base) && VisitsLosers(log, stops)
    requires n <= |stops|
    ensures RoomAfter(base, log, stops, n, pid)
  {
    hide LegalLog, LocksHeld, NoShrink, BaseFits, ImageAfter, NewestFirst, LoserRecords, FreeSpace;
    if n == 0 {
      assert Positions(stops[..0]) == {};
      NothingLeftOut(base, pid, log);
      ImageFits(base, pid, log, |log|);
    } else {
      RoomStays(base, log, stops, n - 1, pid);
      if TupleOpOn(log[stops[n - 1]].op, pid) {
        RoomStep(base, log, stops, n - 1, pid);
      } else {
        OneMore(stops, n - 1);
        LeftSame(base, pid, log, Positions(stops[..n - 1]), stops[n - 1]);
      }
    }
  }

  /** If no loser shrank a tuple or had begun to compensate, undo completes in every order of the
      active table. */
  lemma NoShrinkIsFine(base: Base, log: seq<LogRecord>, order: seq<int32>)
    requires LegalLog(base, log) && LocksHeld(log) && NoShrink(log) && BaseFits(base) && OrderOk(log, order)
    ensures VisitsLosers(log, Stops(log, order)) && AllFine(base, log, Stops(log, order)) && CompensatesOwn(log)
  {
    hide LegalLog, LocksHeld, BaseFits, NewestFirst, LoserRecords, OrderOk, Unfinished, RoomAfter;
    StopsAreLosers(log, order);
    var stops := Stops(log, order);
    forall i | 0 <= i < |stops|
      ensures FineAt(base, log, stops, i)
    {
      var op := log[stops[i]].op;
      if IsTupleOp(op) {
        RoomStays(base, log, stops, i, op.rid.pageId);
        RoomStep(base, log, stops, i, op.rid.pageId);
      }
    }
  }

  /** A legal update of a tuple of 2040 bytes by another: its record is larger than a page. */
  lemma LargeUpdateRecord(o: seq<byte>, n: seq<byte>)
    requires |o| == |n| == 2040
    ensures Legal(Slotted([Tuple(o, false)]), Update(RID(0, 0), o, n))
    ensures PAGE_SIZE < RecordSize(Update(RID(0, 0), o, n))
  {
    var v := [Tuple(o, false)];
    assert v[..0] == [];
    assert Used(v) == 2040;
  }

  // ---------- the order decides ----------

  /** On a full page transaction 0 shrinks slot 0 and transaction 1 grows slot 1; neither ends. */
  function TwoLosers(a: seq<byte>, b: seq<byte>, c: seq<byte>, d: seq<byte>): seq<LogRecord> {
    [LogRecord(0, 0, -1, Begin), LogRecord(1, 1, -1, Begin),
     LogRecord(2, 0, 0, Update(RID(0, 0), a, b)), LogRecord(3, 1, 1, Update(RID(0, 1), c, d))]
  }

  ghost predicate Sized(a: seq<byte>, b: seq<byte>, c: seq<byte>, d: seq<byte>, f: seq<byte>) {
    |a| == |d| == 20 && |b| == |c| == 10 && |f| == 4018
  }

  function FullPage(a: seq<byte>, c: seq<byte>, f: seq<byte>): seq<Slot> {
    [Tuple(a, false), Tuple(c, false), Tuple(f, false)]
  }

  lemma FullPageRoom(a: seq<byte>, c: seq<byte>, f: seq<byte>)
    ensures FreeSpace(FullPage(a, c, f)) == PAGE_SIZE - 48 - |a| - |c| - |f|
  {
    UsedThree(Tuple(a, false), Tuple(c, false), Tuple(f, false));
  }

  lemma TwoImages(a: seq<byte>, b: seq<byte>, c: seq<byte>, d: seq<byte>, f: seq<byte>)
    requires Sized(a, b, c, d, f)
    ensures var base: Base, log := map[0 := Slotted(FullPage(a, c, f))], TwoLosers(a, b, c, d);
            && ImageAfter(base, 0, log, 2) == Slotted(FullPage(a, c, f))
            && ImageAfter(base, 0, log, 3) == Slotted(FullPage(b, c, f))
            && ImageAfter(base, 0, log, 4) == Slotted(FullPage(b, d, f))
            && LegalLog(base, log)
  {
    var base: Base, log := map[0 := Slotted(FullPage(a, c, f))], TwoLosers(a, b, c, d);
    FullPageRoom(a, c, f);
    FullPageRoom(b, c, f);
    hide FreeSpace;
    assert ImageAfter(base, 0, log, 1) == Slotted(FullPage(a, c, f));
    assert ImageAfter(base, 0, log, 2) == Slotted(FullPage(a, c, f));
    assert FullPage(a, c, f)[0 := Tuple(b, false)] == FullPage(b, c, f);
    assert FullPage(b, c, f)[1 := Tuple(d, false)] == FullPage(b, d, f);
    hide ImageAfter;
    forall k, pid | 0 <= k < |log| && Touches(log[k].op, pid)
      ensures Legal(ImageAfter(base, pid, log, k), log[k].op)
    {
      assert pid == 0 && (k == 2 || k == 3);
    }
  }

  lemma TwoTxns(a: seq<byte>, b: seq<byte>, c: seq<byte>, d: seq<byte>)
    ensures var log := TwoLosers(a, b, c, d);
            && TxnLog(log) && LocksHeld(log) && OrderOk(log, [0, 1]) && OrderOk(log, [1, 0])
            && Stops(log, [0, 1]) == [2, 0, 3, 1] && Stops(log, [1, 0]) == [3, 1, 2, 0]
  {
    var log := TwoLosers(a, b, c, d);
    forall k | 0 <= k < |log|
      ensures TxnRecord(log, k)
    {
      TwoLast(log, k, log[k].txn);
    }
    forall x: int32
      ensures Unfinished(log, 4, x) <==> x == 0 || x == 1
    {
      TwoLast(log, 4, x);
    }
    TwoRecords(log);
    hide LastLsn, Unfinished, RecordsOf;
    assert [0, 1][..1] == [0] && [1, 0][..1] == [1] && [0][..0] == [] && [1][..0] == [];
    assert Stops(log, [0]) == RecordsOf(log, 0, 4) && Stops(log, [1]) == RecordsOf(log, 1, 4);
  }

  lemma TwoLast(log: seq<LogRecord>, n: nat, x: int32)
    requires |log| == 4 && n <= 4 && log[0].txn == log[2].txn == 0 && log[1].txn == log[3].txn == 1
    ensures LastLsn(log, n, x) ==
            if x == 0 then (if n > 2 then 2 else if n > 0 then 0 else -1)
            else if x == 1 then (if n > 3 then 3 else if n > 1 then 1 else -1) else -1
  {
    hide LastLsn;
    var l := LastLsn(log, n, x);
  }

  lemma TwoRecords(log: seq<LogRecord>)
    requires |log| == 4 && log[0].txn == log[2].txn == 0 && log[1].txn == log[3].txn == 1
    ensures RecordsOf(log, 0, 4) == [2, 0] && RecordsOf(log, 1, 4) == [3, 1]
  {
    assert RecordsOf(log, 0, 0) == [] && RecordsOf(log, 1, 0) == [];
    assert RecordsOf(log, 0, 1) == [0] && RecordsOf(log, 1, 1) == [];
    assert RecordsOf(log, 0, 2) == [0] && RecordsOf(log, 1, 2) == [1];
    assert RecordsOf(log, 0, 3) == [2, 0] && RecordsOf(log, 1, 3) == [1];
  }

  /** The same log with a growing first update: nobody shrank a tuple or applied a delete. */
  lemma TwoGrowers(a: seq<byte>, b: seq<byte>, c: seq<byte>, d: seq<byte>, f: seq<byte>)
    requires |a| <= |b| && |c| <= |d| && |a| + |c| + |f| + 48 <= PAGE_SIZE
    ensures NoShrink(TwoLosers(a, b, c, d)) && NoAppliedDeletes(TwoLosers(a, b, c, d))
    ensures BaseFits(map[0 := Slotted(FullPage(a, c, f))])
  {
    FullPageRoom(a, c, f);
  }

  /** Undo fails if it takes transaction 0 first, and completes if it takes 1 first: the
      outcome hangs on the iteration order of the active table. */
  lemma OrderDecides(a: seq<byte>, b: seq<byte>, c: seq<byte>, d: seq<byte>, f: seq<byte>)
    requires Sized(a, b, c, d, f)
    ensures var base: Base, log := map[0 := Slotted(FullPage(a, c, f))], TwoLosers(a, b, c, d);
            && LegalLog(base, log) && TxnLog(log) && LocksHeld(log) && SmallRecords(log)
            && OrderOk(log, [0, 1]) && OrderOk(log, [1, 0])
            && InLog(log, Stops(log, [0, 1])) && !AllOk(base, log, Stops(log, [0, 1]))
            && InLog(log, Stops(log, [1, 0])) && AllOk(base, log, Stops(log, [1, 0]))
  {
    var base: Base, log := map[0 := Slotted(FullPage(a, c, f))], TwoLosers(a, b, c, d);
    TwoImages(a, b, c, d, f);
    TwoTxns(a, b, c, d);
    FullPageRoom(b, d, f);
    FullPageRoom(b, c, f);
    hide FreeSpace, LegalLog, TxnLog, LocksHeld, OrderOk, ImageAfter, Stops;
    var p, q := [2, 0, 3, 1], [3, 1, 2, 0];
    assert UndoneImage(base, 0, log, p, 0) == Slotted(FullPage(b, d, f));
    assert !StopOk(base, log, p, 0);
    assert UndoneImage(base, 0, log, q, 0) == Slotted(FullPage(b, d, f));
    assert FullPage(b, d, f)[1 := Tuple(c, false)] == FullPage(b, c, f);
    assert UndoneImage(base, 0, log, q, 1) == Slotted(FullPage(b, c, f));
    assert UndoneImage(base, 0, log, q, 2) == Slotted(FullPage(b, c, f));
    assert StopOk(base, log, q, 0) && StopOk(base, log, q, 1) && StopOk(base, log, q, 2) && StopOk(base, log, q, 3);
  }
}
