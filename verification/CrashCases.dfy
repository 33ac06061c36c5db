/** A crash between an applied delete and the COMMIT or ABORT record behind it: what recovery
    makes of the tuple, on every page. */
module CrashCases {
  import opened Bytes
  import opened SlotMap
  import opened TablePageModel
  import opened LogCodec
  import opened Replay
  import opened UndoPass
  import opened CrashRun

  /** Transaction 0 marks slot `s` of page 0 and applies the delete; the crash comes next. */
  function MidCommitLog(s: uint32, t: seq<byte>): seq<LogRecord> {
    [LogRecord(0, 0, -1, Begin), LogRecord(1, 0, 0, MarkDelete(RID(0, s), [])),
     LogRecord(2, 0, 1, ApplyDelete(RID(0, s), t))]
  }

  function OnePage(v: seq<Slot>): Base {
    map[0 := Slotted(v)]
  }

  /** The slot holds `t`, live. */
  predicate HoldsLive(v: seq<Slot>, s: nat, t: seq<byte>) {
    t != [] && s < |v| && v[s] == Tuple(t, false)
  }

  lemma MidCommitRun(v: seq<Slot>, s: uint32, t: seq<byte>) returns (states: seq<Engine>, actions: seq<Action>)
    requires HoldsLive(v, s, t)
    ensures Run(OnePage(v), states, actions) && states[|actions|].log == MidCommitLog(s, t)
  {
    var base, log := OnePage(v), MidCommitLog(s, t);
    states, actions := [Engine([], map[], map[], map[], 0)], [];
    var next := MayBegin(base, states, actions);
    states, actions := states + [next], actions + [BeginTxn];
    next := MayWrite(base, states, actions, 0, log[1].op, 0);
    states, actions := states + [next], actions + [Write(0, log[1].op)];
    next := MayWrite(base, states, actions, 0, log[2].op, 0);
    states, actions := states + [next], actions + [Write(0, log[2].op)];
    RunLength(base, states, actions);
  }

  lemma MidCommitImages(v: seq<Slot>, s: uint32, t: seq<byte>)
    requires HoldsLive(v, s, t)
    ensures var base, log := OnePage(v), MidCommitLog(s, t);
            LegalLog(base, log) && ImageAfter(base, 0, log, 3) == Slotted(v[s := Empty])
  {
    var base, log := OnePage(v), MidCommitLog(s, t);
    assert ImageAfter(base, 0, log, 0) == Slotted(v);
    assert ImageAfter(base, 0, log, 1) == Slotted(v);
    assert ImageAfter(base, 0, log, 2) == Slotted(v[s := Tuple(t, true)]);
    assert v[s := Tuple(t, true)][s := Empty] == v[s := Empty];
    hide ImageAfter;
    forall k, pid | 0 <= k < |log| && Touches(log[k].op, pid)
      ensures Legal(ImageAfter(base, pid, log, k), log[k].op)
    {
      assert pid == 0 && (k == 1 || k == 2);
    }
  }

  /** Transaction 0 began and wrote one slot twice. */
  ghost predicate LoneLoser(log: seq<LogRecord>, pid: int32, s: nat) {
    && |log| == 3 && log[0].op == Begin
    && (forall k :: 0 <= k < 3 ==> log[k].txn == 0 && log[k].lsn == k && log[k].prevLsn == k - 1)
    && TouchesSlot(log[1].op, pid, s) && TouchesSlot(log[2].op, pid, s) && !Compensates(log[1].op)
  }

  lemma LoneLoserLog(log: seq<LogRecord>, pid: int32, s: nat)
    requires LoneLoser(log, pid, s)
    ensures TxnLog(log) && LocksHeld(log) && CompensatesOwn(log) && OrderOk(log, [0])
    ensures Stops(log, [0]) == [2, 1, 0] && LoserRecords(log) == {0, 1, 2}
  {
    forall n: nat, x: int32 | n <= 3
      ensures LastLsn(log, n, x) == if x == 0 then n - 1 else -1
    {
      OneTxn(log, n, x);
    }
    assert forall k :: 0 <= k < |log| ==> TxnRecord(log, k);
    assert HasOwnWrite(log, 2);
    OneTxnRecords(log);
    assert [0][..0] == [];
    assert Stops(log, [0]) == Stops(log, []) + RecordsOf(log, 0, 3);
  }

  lemma OneTxn(log: seq<LogRecord>, n: nat, x: int32)
    requires n <= |log| && forall k :: 0 <= k < |log| ==> log[k].txn == 0
    ensures LastLsn(log, n, x) == if x == 0 then n - 1 else -1
  {
  }

  lemma OneTxnRecords(log: seq<LogRecord>)
    requires |log| == 3 && forall k :: 0 <= k < |log| ==> log[k].txn == 0
    ensures RecordsOf(log, 0, 3) == [2, 1, 0]
  {
    assert RecordsOf(log, 0, 0) == [];
    assert RecordsOf(log, 0, 1) == [0];
    assert RecordsOf(log, 0, 2) == [1, 0];
  }

  /** The stops of a log of BEGIN and two records on page 0, newest first. */
  lemma TwoStops(base: Base, log: seq<LogRecord>, w: seq<Slot>)
    requires |log| == 3 && log[0].op == Begin && TupleOpOn(log[1].op, 0) && TupleOpOn(log[2].op, 0)
    requires ImageAfter(base, 0, log, 3) == Slotted(w)
    ensures var u := UndoOn(w, log[2].op);
            && InLog(log, [2, 1, 0])
            && UndoneImage(base, 0, log, [2, 1, 0], 3) == Slotted(UndoOn(u, log[1].op))
            && (AllOk(base, log, [2, 1, 0]) <==> UndoOk(w, log[2].op) && UndoOk(u, log[1].op))
  {
    hide ImageAfter, UndoOn, UndoOk;
    var stops := [2, 1, 0];
    var a, b := log[2].op, log[1].op;
    assert UndoneImage(base, 0, log, stops, 0) == Slotted(w);
    assert UndoneImage(base, 0, log, stops, 1) == Slotted(UndoOn(w, a));
    assert UndoneImage(base, 0, log, stops, 2) == Slotted(UndoOn(UndoOn(w, a), b));
    hide UndoneImage;
    assert StopOk(base, log, stops, 0) <==> UndoOk(w, a);
    assert StopOk(base, log, stops, 1) <==> UndoOk(UndoOn(w, a), b);
    assert StopOk(base, log, stops, 2);
  }

  /** What undo leaves: the tuple goes into the first empty slot if it fits with a directory
      entry, and is gone otherwise. */
  function Reinserted(v: seq<Slot>, s: nat, t: seq<byte>): seq<Slot>
    requires s < |v|
  {
    var w := v[s := Empty];
    if CanInsert(w, t) then Inserted(w, t) else w
  }

  /** The three stops, on the bytes of page 0. */
  lemma MidCommitUndone(v: seq<Slot>, s: uint32, t: seq<byte>)
    requires HoldsLive(v, s, t)
    ensures var base, log, stops := OnePage(v), MidCommitLog(s, t), [2, 1, 0];
            && InLog(log, stops) && AllOk(base, log, stops)
            && UndoneImage(base, 0, log, stops, 3) == Slotted(Reinserted(v, s, t))
  {
    var base, log := OnePage(v), MidCommitLog(s, t);
    var w, u := v[s := Empty], Reinserted(v, s, t);
    MidCommitImages(v, s, t);
    TwoStops(base, log, w);
    hide ImageAfter, CanInsert, LegalLog, UndoneImage, AllOk;
    assert UndoOn(w, log[2].op) == u && UndoOk(w, log[2].op);
    assert WithMark(u, s, false) == u;
  }

  /** The transaction never ended, so its delete should be gone. */
  lemma MidCommitIntended(v: seq<Slot>, s: uint32, t: seq<byte>)
    requires HoldsLive(v, s, t)
    ensures ImageWithout(OnePage(v), 0, MidCommitLog(s, t), {0, 1, 2}) == Slotted(v)
  {
    var base, log := OnePage(v), MidCommitLog(s, t);
    MidCommitImages(v, s, t);
    hide ImageAfter, LegalLog;
    var w := SlotsWithout(base, 0, log, {0, 1, 2});
    forall i | 0 <= i < |w|
      ensures w[i] == v[i]
    {
      assert SlotWithout(base, 0, i, log, 0, {0, 1, 2}) == v[i];
      assert SlotWithout(base, 0, i, log, 1, {0, 1, 2}) == v[i];
      assert SlotWithout(base, 0, i, log, 2, {0, 1, 2}) == v[i];
    }
    assert w == v;
  }

  /** Recovery after a crash in the middle of a commit puts the deleted tuple back exactly when
      its slot is then the first empty one of the page and the page has room for the tuple
      and a directory entry. */
  lemma MidCommitRestoredIff(v: seq<Slot>, s: uint32, t: seq<byte>)
    requires HoldsLive(v, s, t)
    ensures var base, log := OnePage(v), MidCommitLog(s, t);
            && LegalLog(base, log) && TxnLog(log) && LocksHeld(log) && CompensatesOwn(log) && OrderOk(log, [0])
            && Stops(log, [0]) == [2, 1, 0] && InLog(log, [2, 1, 0]) && AllOk(base, log, [2, 1, 0])
            && (UndoneImage(base, 0, log, [2, 1, 0], 3) == ImageWithout(base, 0, log, LoserRecords(log)) <==>
                CanInsert(v[s := Empty], t) && FirstEmpty(v[s := Empty]) == s)
  {
    MidCommitImages(v, s, t);
    LoneLoserLog(MidCommitLog(s, t), 0, s);
    MidCommitUndone(v, s, t);
    MidCommitIntended(v, s, t);
    hide LegalLog, TxnLog, LocksHeld, CompensatesOwn, OrderOk, ImageAfter, UndoneImage, ImageWithout, AllOk, CanInsert;
    var w := v[s := Empty];
    if CanInsert(w, t) {
      assert Inserted(w, t) == v <==> FirstEmpty(w) == s by {
        assert FirstEmpty(w) == s ==> w[s := Tuple(t, false)] == v;
        assert FirstEmpty(w) != s ==> Inserted(w, t)[s] == w[s];
      }
    } else {
      assert w[s] != v[s];
    }
  }

  /** With an empty slot before it the tuple lands there. */
  lemma DeletedTupleMoves(t: seq<byte>)
    requires 0 < |t| <= 4048
    ensures HoldsLive([Empty, Tuple(t, false)], 1, t)
    ensures Reinserted([Empty, Tuple(t, false)], 1, t) == [Tuple(t, false), Empty]
  {
    var v, e := [Empty, Tuple(t, false)], [Empty, Empty];
    assert v[1 := Empty] == e;
    UsedThree(Empty, Empty, Empty);
    assert CanInsert(e, t) && FirstEmpty(e) == 0;
    assert Inserted(e, t) == [Tuple(t, false), Empty];
  }

  /** On a full page it is lost: the freed bytes hold the tuple but no second directory entry. */
  lemma DeletedTupleIsLost(t: seq<byte>)
    requires |t| == 4064
    ensures HoldsLive([Tuple(t, false)], 0, t) && Reinserted([Tuple(t, false)], 0, t) == [Empty]
  {
    var v := [Tuple(t, false)];
    assert v[0 := Empty] == [Empty];
    assert [Empty][..0] == [];
    assert Used([Empty]) == 0;
  }

  // ---------- in the middle of an abort ----------

  /** Transaction 0 inserts `t` into slot `s` of page 0 and its abort takes it out; the crash
      comes next. */
  function MidAbortLog(s: uint32, t: seq<byte>): seq<LogRecord> {
    [LogRecord(0, 0, -1, Begin), LogRecord(1, 0, 0, Insert(RID(0, s), t)),
     LogRecord(2, 0, 1, ApplyDelete(RID(0, s), t))]
  }

  predicate Inserts(v: seq<Slot>, s: nat, t: seq<byte>) {
    t != [] && CanInsert(v, t) && s == FirstEmpty(v)
  }

  /** The page once the tuple is out again: its directory entry stays. */
  function TakenOut(v: seq<Slot>, s: nat): (w: seq<Slot>)
    requires s <= |v|
    ensures |w| == if s == |v| then |v| + 1 else |v|
  {
    Put(v, s, Empty)
  }

  lemma MidAbortRun(v: seq<Slot>, s: uint32, t: seq<byte>) returns (states: seq<Engine>, actions: seq<Action>)
    requires Inserts(v, s, t)
    ensures Run(OnePage(v), states, actions) && states[|actions|].log == MidAbortLog(s, t)
  {
    var base, log := OnePage(v), MidAbortLog(s, t);
    hide CanInsert, FirstEmpty;
    states, actions := [Engine([], map[], map[], map[], 0)], [];
    var next := MayBegin(base, states, actions);
    states, actions := states + [next], actions + [BeginTxn];
    next := MayWrite(base, states, actions, 0, log[1].op, 0);
    states, actions := states + [next], actions + [Write(0, log[1].op)];
    next := MayWrite(base, states, actions, 0, log[2].op, 0);
    states, actions := states + [next], actions + [Write(0, log[2].op)];
    RunLength(base, states, actions);
  }

  lemma MidAbortImages(v: seq<Slot>, s: uint32, t: seq<byte>)
    requires Inserts(v, s, t)
    ensures var base, log := OnePage(v), MidAbortLog(s, t);
            LegalLog(base, log) && ImageAfter(base, 0, log, 3) == Slotted(TakenOut(v, s))
  {
    var base, log := OnePage(v), MidAbortLog(s, t);
    hide CanInsert;
    assert ImageAfter(base, 0, log, 0) == Slotted(v);
    assert ImageAfter(base, 0, log, 1) == Slotted(v);
    assert ImageAfter(base, 0, log, 2) == Slotted(Inserted(v, t));
    assert Inserted(v, t)[s := Empty] == TakenOut(v, s);
    hide ImageAfter;
    forall k, pid | 0 <= k < |log| && Touches(log[k].op, pid)
      ensures Legal(ImageAfter(base, pid, log, k), log[k].op)
    {
      assert pid == 0 && (k == 1 || k == 2);
    }
  }

  /** The reinsert goes back to the same slot or is refused. */
  lemma Reinsert(v: seq<Slot>, s: nat, t: seq<byte>)
    requires Inserts(v, s, t)
    ensures var w := TakenOut(v, s);
            && FirstEmpty(w) == s && w[s].Empty?
            && (CanInsert(w, t) <==> s < |v| || |t| + 16 <= FreeSpace(v))
            && (CanInsert(w, t) ==> Inserted(w, t) == w[s := Tuple(t, false)])
  {
    UsedPut(v, s, Empty);
    var w := TakenOut(v, s);
    assert FirstEmpty(w) == s;
  }

  /** The page after the reinsert. */
  function Retried(v: seq<Slot>, s: nat, t: seq<byte>): seq<Slot>
    requires s <= |v|
  {
    var w := TakenOut(v, s);
    if CanInsert(w, t) then w[s := Tuple(t, false)] else w
  }

  /** The two stops on the slot map: undo of the applied delete, undo of the insert. */
  lemma MidAbortSteps(v: seq<Slot>, s: uint32, t: seq<byte>)
    requires Inserts(v, s, t)
    ensures var w, u := TakenOut(v, s), Retried(v, s, t);
            var applied, inserted := ApplyDelete(RID(0, s), t), Insert(RID(0, s), t);
            && UndoOk(w, applied) && UndoOn(w, applied) == u
            && (UndoOk(u, inserted) <==> CanInsert(w, t)) && UndoOn(u, inserted) == w
  {
    Reinsert(v, s, t);
    hide CanInsert, Inserted;
    var w := TakenOut(v, s);
    assert w[s := Tuple(t, false)][s := Empty] == w;
  }

  lemma MidAbortUndone(v: seq<Slot>, s: uint32, t: seq<byte>)
    requires Inserts(v, s, t)
    ensures var base, log, stops := OnePage(v), MidAbortLog(s, t), [2, 1, 0];
            && InLog(log, stops)
            && (AllOk(base, log, stops) <==> CanInsert(TakenOut(v, s), t))
            && UndoneImage(base, 0, log, stops, 3) == Slotted(TakenOut(v, s))
  {
    var base, log := OnePage(v), MidAbortLog(s, t);
    MidAbortImages(v, s, t);
    MidAbortSteps(v, s, t);
    hide ImageAfter, CanInsert, LegalLog, UndoOn, UndoOk, UndoneImage, AllOk, TakenOut, Retried;
    TwoStops(base, log, TakenOut(v, s));
  }

  /** Recovery after a crash in the middle of an abort completes exactly when the insert had
      reused a free slot or the page had room for a second directory entry: otherwise the
      reinsert is refused, and undoing the insert fails on the empty slot. */
  lemma MidAbortCompletesIff(v: seq<Slot>, s: uint32, t: seq<byte>)
    requires Inserts(v, s, t)
    ensures var base, log := OnePage(v), MidAbortLog(s, t);
            && LegalLog(base, log) && TxnLog(log) && LocksHeld(log) && CompensatesOwn(log) && OrderOk(log, [0])
            && Stops(log, [0]) == [2, 1, 0] && InLog(log, [2, 1, 0])
            && (AllOk(base, log, [2, 1, 0]) <==> s < |v| || |t| + 16 <= FreeSpace(v))
            && (AllOk(base, log, [2, 1, 0]) ==>
                  UndoneImage(base, 0, log, [2, 1, 0], 3) == ImageWithout(base, 0, log, LoserRecords(log)))
  {
    MidAbortImages(v, s, t);
    LoneLoserLog(MidAbortLog(s, t), 0, s);
    MidAbortUndone(v, s, t);
    MidAbortIntended(v, s, t);
    Reinsert(v, s, t);
    hide LegalLog, TxnLog, LocksHeld, CompensatesOwn, OrderOk, ImageAfter, UndoneImage, ImageWithout, AllOk, CanInsert;
  }

  /** The transaction never ended, so its tuple should be gone. */
  lemma MidAbortIntended(v: seq<Slot>, s: uint32, t: seq<byte>)
    requires Inserts(v, s, t)
    ensures ImageWithout(OnePage(v), 0, MidAbortLog(s, t), {0, 1, 2}) == Slotted(TakenOut(v, s))
  {
    var base, log, x := OnePage(v), MidAbortLog(s, t), TakenOut(v, s);
    MidAbortImages(v, s, t);
    hide ImageAfter, LegalLog, CanInsert;
    var w := SlotsWithout(base, 0, log, {0, 1, 2});
    forall i | 0 <= i < |w|
      ensures w[i] == x[i]
    {
      assert SlotWithout(base, 0, i, log, 0, {0, 1, 2}) == x[i];
      assert SlotWithout(base, 0, i, log, 1, {0, 1, 2}) == x[i];
      assert SlotWithout(base, 0, i, log, 2, {0, 1, 2}) == x[i];
    }
    assert w == x;
  }

  /** The largest tuple the table heap accepts, on an empty page: the restart fails. */
  lemma MidAbortFails(t: seq<byte>) returns (states: seq<Engine>, actions: seq<Action>)
    requires |t| == 4064
    ensures Run(OnePage([]), states, actions) && states[|actions|].log == MidAbortLog(0, t)
    ensures SmallRecords(MidAbortLog(0, t)) && OrderOk(MidAbortLog(0, t), [0])
    ensures InLog(MidAbortLog(0, t), [2, 1, 0]) && !AllOk(OnePage([]), MidAbortLog(0, t), [2, 1, 0])
  {
    assert Inserts([], 0, t);
    states, actions := MidAbortRun([], 0, t);
    MidAbortCompletesIff([], 0, t);
  }

  // ---------- a delete that was aborted ----------

  function AbortedDeleteLog(s: uint32, t: seq<byte>): seq<LogRecord> {
    [LogRecord(0, 0, -1, Begin), LogRecord(1, 0, 0, MarkDelete(RID(0, s), [])),
     LogRecord(2, 0, 1, RollbackDelete(RID(0, s), [])), LogRecord(3, 0, 2, Abort)]
  }

  /** A transaction marks a tuple on any page, rolls the delete back and aborts: the page is as
      before, and the transaction is no loser. */
  lemma AbortedDeleteRun(v: seq<Slot>, s: uint32, t: seq<byte>) returns (states: seq<Engine>, actions: seq<Action>)
    requires HoldsLive(v, s, t)
    ensures Run(OnePage(v), states, actions) && states != []
    ensures Last(states).log == AbortedDeleteLog(s, t)
    ensures PageIn(OnePage(v), Last(states).mem, 0) == PageState(2, Slotted(v))
    ensures !Running(Last(states).log, 0) && 0 !in Last(states).prev
  {
    var base, log := OnePage(v), AbortedDeleteLog(s, t);
    states, actions := [Engine([], map[], map[], map[], 0)], [];
    var next := MayBegin(base, states, actions);
    states, actions := states + [next], actions + [BeginTxn];
    next := MayWrite(base, states, actions, 0, log[1].op, 0);
    states, actions := states + [next], actions + [Write(0, log[1].op)];
    next := MayWrite(base, states, actions, 0, log[2].op, 0);
    states, actions := states + [next], actions + [Write(0, log[2].op)];
    assert v[s := Tuple(t, true)][s := Tuple(t, false)] == v;
    hide Run;
    next := MayEnd(base, states, actions, 0, Abort);
    states, actions := states + [next], actions + [Write(0, Abort)];
    assert log[3].op.Abort?;
  }
}
