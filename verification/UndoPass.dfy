/** The undo pass: which records it visits, and what it leaves in every slot. */
module UndoPass {
  import opened Bytes
  import opened SlotMap
  import opened TablePageModel
  import opened LogCodec
  import opened Replay
  import opened RedoPass

  /** The records of the unfinished transactions. */
  ghost function LoserRecords(log: seq<LogRecord>): set<nat> {
    set k: nat | k < |log| && Unfinished(log, |log|, log[k].txn)
  }

  /** Undo reads each record into a one-page buffer. */
  ghost predicate SmallRecords(log: seq<LogRecord>) {
    forall k :: 0 <= k < |log| && Unfinished(log, |log|, log[k].txn) ==> RecordSize(log[k].op) <= PAGE_SIZE
  }

  /** Row locks are held to the end: nobody else writes a slot after an unfinished transaction. */
  ghost predicate LocksHeld(log: seq<LogRecord>) {
    forall i, j, pid, s ::
      && 0 <= i < j < |log| && Unfinished(log, |log|, log[i].txn)
      && TouchesSlot(log[i].op, pid, s) && TouchesSlot(log[j].op, pid, s)
      ==> log[j].txn == log[i].txn
  }

  /** The slots of page `pid` after the whole log without the records in `undone`. */
  ghost function SlotsWithout(base: Base, pid: int32, log: seq<LogRecord>, undone: set<nat>): (v: seq<Slot>)
    requires ImageAfter(base, pid, log, |log|).Slotted?
    ensures |v| == |ImageAfter(base, pid, log, |log|).slots|
    ensures forall s :: 0 <= s < |v| ==> v[s] == SlotWithout(base, pid, s, log, |log|, undone)
  {
    seq(|ImageAfter(base, pid, log, |log|).slots|, s requires 0 <= s => SlotWithout(base, pid, s, log, |log|, undone))
  }

  ghost function ImageWithout(base: Base, pid: int32, log: seq<LogRecord>, undone: set<nat>): Image {
    if ImageAfter(base, pid, log, |log|).Blank? then Blank
    else Slotted(SlotsWithout(base, pid, log, undone))
  }

  // ---------- one record on one page ----------

  /** What undoing one record does to a slot map. */
  function UndoOn(v: seq<Slot>, op: Op): seq<Slot>
    requires IsTupleOp(op)
  {
    var s := op.rid.slot;
    match op
    case Insert(_, _) => if Occupied(v, s) then v[s := Empty] else v
    case Update(_, o, _) => if CanUpdate(v, s, o) then Updated(v, s, o) else v
    case MarkDelete(_, _) => if s < |v| then WithMark(v, s, false) else v
    case ApplyDelete(_, t) => if CanInsert(v, t) then Inserted(v, t) else v
    case RollbackDelete(_, _) => if Live(v, s) then WithMark(v, s, true) else v
  }

  /** The assertions on the way hold: those of the page operation, and for an update that the
      tuple replaced is the one the record wrote. */
  predicate UndoOk(v: seq<Slot>, op: Op)
    requires IsTupleOp(op)
  {
    var s := op.rid.slot;
    match op
    case Insert(_, _) => Occupied(v, s)
    case Update(_, o, n) => o != [] && n == if CanUpdate(v, s, o) then v[s].data else []
    case MarkDelete(_, _) => s < |v|
    case ApplyDelete(_, t) => t != []
    case RollbackDelete(_, _) => true
  }

  /** Undoing a record right after it was written: an insert leaves its slot free, an update and a
      mark are taken back, a rolled-back delete exactly if it did clear a mark, an applied
      delete exactly if the slot had no mark, is the first empty one and has room. */
  lemma UndoInverts(v: seq<Slot>, op: Op)
    requires IsTupleOp(op) && Legal(Slotted(v), op) && 0 <= FreeSpace(v)
    ensures var w, s := ApplyTo(v, op), op.rid.slot;
            && UndoOk(w, op)
            && (op.Insert? ==> UndoOn(w, op) == Put(v, s, Empty))
            && (op.Update? || op.MarkDelete? ==> UndoOn(w, op) == v)
            && (op.RollbackDelete? ==> (UndoOn(w, op) == v <==> !Live(v, s)))
            && (op.ApplyDelete? ==>
                  (UndoOn(w, op) == v <==> !v[s].marked && CanInsert(w, op.tuple) && FirstEmpty(w) == s))
  {
    var w, s := ApplyTo(v, op), op.rid.slot;
    match op
    case Insert(_, t) => assert UndoOn(w, op) == Put(v, s, Empty);
    case Update(_, o, n) =>
      UsedPut(v, s, Tuple(n, false));
      assert UndoOn(w, op) == v;
    case MarkDelete(_, _) => assert UndoOn(w, op) == v;
    case RollbackDelete(_, _) =>
      assert v[s].Tuple? ==> UndoOn(w, op)[s] == Tuple(v[s].data, true);
      assert !Live(v, s) ==> UndoOn(w, op) == v;
    case ApplyDelete(_, t) =>
      if CanInsert(w, t) && FirstEmpty(w) == s {
        assert UndoOn(w, op) == v[s := Tuple(t, false)];
        assert UndoOn(w, op)[s] == Tuple(t, false);
      } else {
        assert UndoOn(w, op)[s] != v[s];
      }
  }

  /** The opposite page operation; fails where an assertion does. */
  method UndoOnPage(page: TablePage, op: Op) returns (ok: bool)
    requires page.Valid() && IsTupleOp(op)
    modifies page.data
    ensures page.Valid() && ok == UndoOk(old(View(page.data[..])), op)
    ensures ok ==> View(page.data[..]) == UndoOn(old(View(page.data[..])), op)
  {
    hide Inv, View, FreeSpace;
    ok := true;
    ViewCount(page.data[..]);
    match op {
      case Insert(rid, _) =>
        if rid.slot >= Count(page.data[..]) {
          return false;
        }
        ReadSlot(page.data[..], rid.slot);
        if Sz(page.data[..], rid.slot) == 0 {
          return false;
        }
        var t := page.ApplyDelete(rid.slot);
      case Update(rid, o, n) =>
        if o == [] {
          return false;
        }
        var updated, replaced := page.UpdateTuple(o, rid.slot);
        ok := n == replaced;
      case MarkDelete(rid, _) =>
        if rid.slot >= Count(page.data[..]) {
          return false;
        }
        page.RollbackDelete(rid.slot);
      case ApplyDelete(_, tuple) =>
        if tuple == [] {
          return false;
        }
        var inserted, r := page.InsertTuple(tuple);
      case RollbackDelete(rid, _) =>
        var marked := page.MarkDelete(rid.slot);
    }
  }

  method UndonePage(p: Page, op: Op) returns (ok: bool, q: Page)
    requires ImageOf(p).Slotted? && IsTupleOp(op)
    ensures ok == UndoOk(ImageOf(p).slots, op)
    ensures ok ==> ImageOf(q) == Slotted(UndoOn(ImageOf(p).slots, op))
  {
    hide Inv, View, FreeSpace, UndoOn, UndoOk;
    var page := new TablePage(p);
    ok := UndoOnPage(page, op);
    q := page.data[..];
  }

  // ---------- the stops of the pass ----------

  /** The records of `txn` among the first `n`, newest first. */
  function RecordsOf(log: seq<LogRecord>, txn: int32, n: nat): seq<nat>
    requires n <= |log|
  {
    if n == 0 then []
    else if log[n - 1].txn == txn then [n - 1] + RecordsOf(log, txn, n - 1)
    else RecordsOf(log, txn, n - 1)
  }

  /** All stops, if the active transactions are taken in this order. */
  function Stops(log: seq<LogRecord>, order: seq<int32>): seq<nat> {
    if order == [] then []
    else Stops(log, order[..|order| - 1]) + RecordsOf(log, order[|order| - 1], |log|)
  }

  /** `order` lists the unfinished transactions, each once. */
  ghost predicate OrderOk(log: seq<LogRecord>, order: seq<int32>) {
    && (forall i, j :: 0 <= i < j < |order| ==> order[i] != order[j])
    && forall x: int32 :: x in order <==> Unfinished(log, |log|, x)
  }

  ghost predicate InLog(log: seq<LogRecord>, stops: seq<nat>) {
    forall i :: 0 <= i < |stops| ==> stops[i] < |log|
  }

  ghost function Positions(visited: seq<nat>): set<nat> {
    set k | k in visited
  }

  /** Each record once, and each transaction newest first. */
  ghost predicate NewestFirst(log: seq<LogRecord>, visited: seq<nat>) {
    && InLog(log, visited)
    && (forall i, j :: 0 <= i < j < |visited| ==> visited[i] != visited[j])
    && (forall i, j :: 0 <= i < j < |visited| && log[visited[i]].txn == log[visited[j]].txn ==> visited[i] > visited[j])
  }

  /** Exactly the records of the unfinished transactions, each once, newest first. */
  ghost predicate VisitsLosers(log: seq<LogRecord>, stops: seq<nat>) {
    InLog(log, stops) && NewestFirst(log, stops) && Positions(stops) == LoserRecords(log)
  }

  lemma {:induction false} RecordsOfAre(log: seq<LogRecord>, txn: int32, n: nat)
    requires n <= |log|
    ensures var rs := RecordsOf(log, txn, n);
            && (forall k :: k in rs <==> 0 <= k < n && log[k].txn == txn)
            && forall i, j :: 0 <= i < j < |rs| ==> rs[i] > rs[j]
  {
    if n > 0 {
      RecordsOfAre(log, txn, n - 1);
      var rs := RecordsOf(log, txn, n - 1);
      assert forall i :: 0 <= i < |rs| ==> rs[i] in rs;
    }
  }

  /** The chain of a transaction: its last record, then those before it. */
  lemma {:induction false} RecordsFromLast(log: seq<LogRecord>, txn: int32, n: nat)
    requires n <= |log|
    ensures var l := LastLsn(log, n, txn);
            RecordsOf(log, txn, n) == if l < 0 then [] else [l] + RecordsOf(log, txn, l)
  {
    if n > 0 && log[n - 1].txn != txn {
      RecordsFromLast(log, txn, n - 1);
    }
  }

  lemma {:induction false} StopsAre(log: seq<LogRecord>, order: seq<int32>)
    requires forall i, j :: 0 <= i < j < |order| ==> order[i] != order[j]
    ensures NewestFirst(log, Stops(log, order))
    ensures forall k: nat :: k in Stops(log, order) <==> k < |log| && log[k].txn in order
    decreases |order|
  {
    if order != [] {
      var init, x := order[..|order| - 1], order[|order| - 1];
      StopsAre(log, init);
      RecordsOfAre(log, x, |log|);
      var a, b := Stops(log, init), RecordsOf(log, x, |log|);
      assert forall y :: y in order <==> y in init || y == x by {
        assert order == init + [x];
      }
      JoinNewestFirst(log, a, b, x);
    }
  }

  lemma JoinNewestFirst(log: seq<LogRecord>, a: seq<nat>, b: seq<nat>, x: int32)
    requires NewestFirst(log, a) && (forall i :: 0 <= i < |a| ==> log[a[i]].txn != x)
    requires (forall k :: k in b ==> 0 <= k < |log| && log[k].txn == x)
    requires forall i, j :: 0 <= i < j < |b| ==> b[i] > b[j]
    ensures NewestFirst(log, a + b)
  {
    assert forall i :: 0 <= i < |b| ==> b[i] in b;
  }

  /** Whatever the order, the pass stops at every record of every unfinished transaction
      exactly once, each transaction newest first. */
  lemma StopsAreLosers(log: seq<LogRecord>, order: seq<int32>)
    requires OrderOk(log, order)
    ensures VisitsLosers(log, Stops(log, order))
  {
    hide Unfinished, Stops;
    StopsAre(log, order);
  }

  /** A transaction with a COMMIT or ABORT record is no loser, and only a transaction without is. */
  lemma LosersAreRunning(log: seq<LogRecord>, k: nat)
    requires TxnLog(log) && k < |log|
    ensures k in LoserRecords(log) <==> Running(log, log[k].txn)
  {
    hide Unfinished, Running;
    UnfinishedIff(log, log[k].txn);
  }

  lemma ActiveAreRunning(log: seq<LogRecord>, active: map<int32, int32>)
    requires TxnLog(log) && ActiveAt(log, |log|, active)
    ensures forall x: int32 :: x in active <==> Running(log, x)
  {
    hide Unfinished, Running, TxnLog;
    forall x: int32
      ensures x in active <==> Running(log, x)
    {
      UnfinishedIff(log, x);
    }
  }

  lemma StopsAreRunning(log: seq<LogRecord>, stops: seq<nat>)
    requires TxnLog(log) && VisitsLosers(log, stops)
    ensures forall k: nat :: k in stops <==> k < |log| && Running(log, log[k].txn)
    ensures forall i :: 0 <= i < |stops| ==> Running(log, log[stops[i]].txn)
  {
    hide NewestFirst, TxnLog, Running, Unfinished;
    forall k: nat
      ensures k in stops <==> k < |log| && Running(log, log[k].txn)
    {
      assert k in stops <==> k in Positions(stops);
      if k < |log| {
        LosersAreRunning(log, k);
      }
    }
    assert forall i :: 0 <= i < |stops| ==> stops[i] in stops;
  }

  // ---------- the pass on images ----------

  predicate TupleOpOn(op: Op, pid: int32) {
    IsTupleOp(op) && op.rid.pageId == pid
  }

  /** Page `pid` after the log and the first `n` stops. */
  ghost function UndoneImage(base: Base, pid: int32, log: seq<LogRecord>, stops: seq<nat>, n: nat): Image
    requires InLog(log, stops) && n <= |stops|
  {
    if n == 0 then ImageAfter(base, pid, log, |log|)
    else
      var img := UndoneImage(base, pid, log, stops, n - 1);
      var op := log[stops[n - 1]].op;
      if img.Slotted? && TupleOpOn(op, pid) then Slotted(UndoOn(img.slots, op)) else img
  }

  /** The assertions at stop `i` hold. */
  ghost predicate StopOk(base: Base, log: seq<LogRecord>, stops: seq<nat>, i: nat)
    requires InLog(log, stops) && i < |stops|
  {
    var op := log[stops[i]].op;
    IsTupleOp(op) ==>
      var img := UndoneImage(base, op.rid.pageId, log, stops, i);
      img.Slotted? && UndoOk(img.slots, op)
  }

  ghost predicate AllOk(base: Base, log: seq<LogRecord>, stops: seq<nat>)
    requires InLog(log, stops)
  {
    forall i :: 0 <= i < |stops| ==> StopOk(base, log, stops, i)
  }

  /** The pages are those after the first `n` stops. */
  ghost predicate PagesUndone(base: Base, log: seq<LogRecord>, store: Store, stops: seq<nat>, n: nat)
    requires InLog(log, stops) && n <= |stops|
  {
    forall pid: int32 :: ImageOf(Fetch(store, pid)) == UndoneImage(base, pid, log, stops, n)
  }

  lemma {:induction false} StaysSlotted(base: Base, pid: int32, log: seq<LogRecord>, stops: seq<nat>, n: nat)
    requires InLog(log, stops) && n <= |stops|
    ensures UndoneImage(base, pid, log, stops, n).Slotted? <==> ImageAfter(base, pid, log, |log|).Slotted?
    ensures UndoneImage(base, pid, log, stops, n).Slotted? ==>
              |UndoneImage(base, pid, log, stops, n).slots| >= |ImageAfter(base, pid, log, |log|).slots|
  {
    hide ImageAfter;
    if n > 0 {
      StaysSlotted(base, pid, log, stops, n - 1);
    }
  }

  /** A page keeps every slot it ever had. */
  lemma {:induction false} SlotStays(base: Base, pid: int32, s: nat, log: seq<LogRecord>, k: nat, n: nat)
    requires LegalLog(base, log) && k < n <= |log| && TouchesSlot(log[k].op, pid, s)
    ensures ImageAfter(base, pid, log, n).Slotted? && s < |ImageAfter(base, pid, log, n).slots|
    decreases n
  {
    var img := ImageAfter(base, pid, log, n - 1);
    if n - 1 > k {
      SlotStays(base, pid, s, log, k, n - 1);
    }
    if Touches(log[n - 1].op, pid) {
      assert Legal(img, log[n - 1].op);
    }
  }

  /** A stop at a tuple record finds a page with slots. */
  lemma StopFindsPage(base: Base, log: seq<LogRecord>, stops: seq<nat>, n: nat)
    requires LegalLog(base, log) && InLog(log, stops) && n < |stops| && IsTupleOp(log[stops[n]].op)
    ensures UndoneImage(base, log[stops[n]].op.rid.pageId, log, stops, n).Slotted?
  {
    hide LegalLog, ImageAfter;
    var op := log[stops[n]].op;
    SlotStays(base, op.rid.pageId, op.rid.slot, log, stops[n], |log|);
    StaysSlotted(base, op.rid.pageId, log, stops, n);
  }

  // ---------- the pages without some records ----------

  /** The state in which undo reaches record `k`: of the slot it wrote, no earlier record
      is undone and all later ones are. */
  ghost predicate Next(log: seq<LogRecord>, undone: set<nat>, k: nat) {
    && k < |log| && k !in undone
    && (forall j, pid, s :: 0 <= j < k && TouchesSlot(log[j].op, pid, s) && TouchesSlot(log[k].op, pid, s) ==>
          j !in undone)
    && (forall j, pid, s :: k < j < |log| && TouchesSlot(log[j].op, pid, s) && TouchesSlot(log[k].op, pid, s) ==>
          j in undone)
  }

  /** What the slot of record `k` holds then, and what it held before `k`. */
  lemma SlotBeforeUndo(base: Base, log: seq<LogRecord>, undone: set<nat>, k: nat)
    requires LegalLog(base, log) && Next(log, undone, k) && IsTupleOp(log[k].op)
    ensures var op := log[k].op; var pid, s := op.rid.pageId, op.rid.slot;
            var c := SlotIn(ImageAfter(base, pid, log, k), s);
            && Legal(ImageAfter(base, pid, log, k), op)
            && SlotWithout(base, pid, s, log, |log|, undone) == SlotStep(c, op)
            && SlotWithout(base, pid, s, log, |log|, undone + {k}) == c
            && ImageAfter(base, pid, log, |log|).Slotted? && s < |ImageAfter(base, pid, log, |log|).slots|
  {
    hide Legal, Apply, SlotIn, SlotStep, ImageAfter, SlotWithout;
    var op := log[k].op;
    var pid, s := op.rid.pageId, op.rid.slot;
    assert TouchesSlot(op, pid, s) && Touches(op, pid);
    LeaveOut(base, pid, s, log, |log|, undone, k);
    SlotOfImage(base, pid, s, log, k);
    SlotStays(base, pid, s, log, k, |log|);
  }

  /** The oldest record left out of slot `s`, or -1. */
  ghost function Oldest(log: seq<LogRecord>, pid: int32, s: nat, undone: set<nat>, n: nat): (k: int)
    requires n <= |log|
    ensures -1 <= k < n
    ensures k >= 0 ==> k in undone && TouchesSlot(log[k].op, pid, s)
    ensures forall j :: 0 <= j < n && (k < 0 || j < k) && TouchesSlot(log[j].op, pid, s) ==> j !in undone
  {
    if n == 0 then -1
    else
      var k := Oldest(log, pid, s, undone, n - 1);
      if k >= 0 then k else if TouchesSlot(log[n - 1].op, pid, s) && (n - 1) in undone then n - 1 else -1
  }

  /** A tuple with its mark set as undoing `op` leaves it: only the undo of a rolled-back
      delete marks. */
  function Remarked(slot: Slot, op: Op): Slot {
    if slot.Empty? then slot else Tuple(slot.data, op.RollbackDelete?)
  }

  /** What undo leaves in a slot: the slot without the records undone, up to the mark, which
      the oldest of them decides. */
  ghost function SlotLeft(base: Base, pid: int32, s: nat, log: seq<LogRecord>, undone: set<nat>): Slot {
    var c, k := SlotWithout(base, pid, s, log, |log|, undone), Oldest(log, pid, s, undone, |log|);
    if k < 0 then c else Remarked(c, log[k].op)
  }

  ghost function SlotsLeft(base: Base, pid: int32, log: seq<LogRecord>, undone: set<nat>): (v: seq<Slot>)
    requires ImageAfter(base, pid, log, |log|).Slotted?
    ensures |v| == |ImageAfter(base, pid, log, |log|).slots|
    ensures forall s :: 0 <= s < |v| ==> v[s] == SlotLeft(base, pid, s, log, undone)
  {
    seq(|ImageAfter(base, pid, log, |log|).slots|, s requires 0 <= s => SlotLeft(base, pid, s, log, undone))
  }

  ghost function ImageLeft(base: Base, pid: int32, log: seq<LogRecord>, undone: set<nat>): Image {
    if ImageAfter(base, pid, log, |log|).Blank? then Blank
    else Slotted(SlotsLeft(base, pid, log, undone))
  }

  lemma OldestSame(log: seq<LogRecord>, pid: int32, s: nat, u: set<nat>, w: set<nat>)
    requires forall j :: 0 <= j < |log| && TouchesSlot(log[j].op, pid, s) ==> (j in u <==> j in w)
    ensures Oldest(log, pid, s, u, |log|) == Oldest(log, pid, s, w, |log|)
  {
    hide Oldest;
    var a, b := Oldest(log, pid, s, u, |log|), Oldest(log, pid, s, w, |log|);
  }

  lemma OldestIsNext(log: seq<LogRecord>, pid: int32, s: nat, undone: set<nat>, k: nat)
    requires Next(log, undone, k) && TouchesSlot(log[k].op, pid, s)
    ensures Oldest(log, pid, s, undone + {k}, |log|) == k
  {
    hide Oldest;
    var r := Oldest(log, pid, s, undone + {k}, |log|);
    assert k in undone + {k};
    assert r < k ==> r !in undone;
  }

  /** What a legal record found in its slot. */
  predicate LegalSlot(c: Slot, op: Op)
    requires IsTupleOp(op)
  {
    match op
    case Insert(_, t) => c.Empty? && t != []
    case Update(_, o, n) => c == Tuple(o, false) && o != [] && n != []
    case MarkDelete(_, _) => c.Tuple? && !c.marked
    case ApplyDelete(_, t) => c.Tuple? && c.data == t && t != []
    case RollbackDelete(_, _) => true
  }

  lemma LegalFound(img: Image, op: Op)
    requires IsTupleOp(op) && Legal(img, op)
    ensures LegalSlot(SlotIn(img, op.rid.slot), op)
  {
  }

  /** When the opposite operation gives back what the record found, up to the mark: an update
      must fit and find its tuple unmarked; an applied delete must find its slot the first
      empty one and room for the tuple and a directory entry; the others always do. */
  predicate FineOn(v: seq<Slot>, op: Op)
    requires IsTupleOp(op)
  {
    match op
    case Update(rid, o, _) => CanUpdate(v, rid.slot, o)
    case ApplyDelete(rid, t) => CanInsert(v, t) && FirstEmpty(v) == rid.slot
    case _ => true
  }

  /** One kind of record after the other: `c` is what the record found. */
  lemma UndoKinds(v: seq<Slot>, w: seq<Slot>, c: Slot, op: Op)
    requires IsTupleOp(op) && LegalSlot(c, op) && op.rid.slot < |v|
    requires v[op.rid.slot].Empty? <==> SlotStep(c, op).Empty?
    requires v[op.rid.slot].Tuple? ==> v[op.rid.slot].data == SlotStep(c, op).data
    requires w == v[op.rid.slot := Remarked(c, op)]
    ensures UndoOk(v, op) && UndoOn(v, op) == w <==> FineOn(v, op)
    ensures !op.ApplyDelete? ==> (UndoOk(v, op) <==> FineOn(v, op))
    ensures op.Update? ==> (FineOn(v, op) <==> Live(v, op.rid.slot) && 0 <= FreeSpace(w))
  {
    var s := op.rid.slot;
    UsedPut(v, s, w[s]);
    if op.ApplyDelete? && CanInsert(v, op.tuple) && FirstEmpty(v) != s {
      assert Inserted(v, op.tuple)[s] == v[s];
    }
  }

  /** Undoing record `k` on the page as the pass left it gives the page it should, exactly
      when the step is fine. */
  lemma UndoStep(base: Base, log: seq<LogRecord>, undone: set<nat>, k: nat)
    requires LegalLog(base, log) && Next(log, undone, k) && IsTupleOp(log[k].op)
    ensures var op := log[k].op; var pid, s := op.rid.pageId, op.rid.slot;
            && ImageAfter(base, pid, log, |log|).Slotted?
            && var v, w := SlotsLeft(base, pid, log, undone), SlotsLeft(base, pid, log, undone + {k});
               && s < |v|
               && (UndoOk(v, op) && UndoOn(v, op) == w <==> FineOn(v, op))
               && (!op.ApplyDelete? ==> (UndoOk(v, op) <==> FineOn(v, op)))
               && (op.Update? ==> (FineOn(v, op) <==> Live(v, s) && 0 <= FreeSpace(w)))
  {
    hide ImageAfter, SlotWithout, LegalLog, Oldest, FineOn, UndoOk, UndoOn, FreeSpace, LegalSlot, SlotStep, Legal;
    SlotBeforeUndo(base, log, undone, k);
    var op := log[k].op;
    var pid, s := op.rid.pageId, op.rid.slot;
    var v, w := SlotsLeft(base, pid, log, undone), SlotsLeft(base, pid, log, undone + {k});
    var c := SlotIn(ImageAfter(base, pid, log, k), s);
    LegalFound(ImageAfter(base, pid, log, k), op);
    forall i | 0 <= i < |v| && i != s
      ensures w[i] == v[i]
    {
      SlotSame(base, pid, i, log, |log|, undone, undone + {k});
      OldestSame(log, pid, i, undone, undone + {k});
    }
    OldestIsNext(log, pid, s, undone, k);
    assert w == v[s := Remarked(c, op)];
    UndoKinds(v, w, c, op);
  }

  // ---------- the whole pass ----------

  /** Stop `i` is fine on the page as the pass should have left it. */
  ghost predicate FineAt(base: Base, log: seq<LogRecord>, stops: seq<nat>, i: nat)
    requires InLog(log, stops) && i < |stops|
  {
    var op := log[stops[i]].op;
    IsTupleOp(op) ==>
      && ImageAfter(base, op.rid.pageId, log, |log|).Slotted?
      && FineOn(SlotsLeft(base, op.rid.pageId, log, Positions(stops[..i])), op)
  }

  ghost predicate AllFine(base: Base, log: seq<LogRecord>, stops: seq<nat>)
    requires InLog(log, stops)
  {
    forall i :: 0 <= i < |stops| ==> FineAt(base, log, stops, i)
  }

  /** Of two stops at one slot, the earlier is at the later record. */
  lemma EarlierStop(log: seq<LogRecord>, stops: seq<nat>, i: nat, n: nat, pid: int32, s: nat)
    requires LocksHeld(log) && VisitsLosers(log, stops) && i < n < |stops|
    requires TouchesSlot(log[stops[i]].op, pid, s) && TouchesSlot(log[stops[n]].op, pid, s)
    ensures stops[i] > stops[n]
  {
    hide Unfinished;
    var a, b := stops[i], stops[n];
    var x, y := log[a].txn, log[b].txn;
    assert a in Positions(stops);
    assert a < b ==> x == y;
  }

  /** Later records of a stop's slot are stops before it. */
  lemma LaterIsEarlierStop(log: seq<LogRecord>, stops: seq<nat>, n: nat, j: nat, pid: int32, s: nat)
    requires LocksHeld(log) && VisitsLosers(log, stops) && n < |stops| && stops[n] < j < |log|
    requires TouchesSlot(log[j].op, pid, s) && TouchesSlot(log[stops[n]].op, pid, s)
    ensures j in Positions(stops[..n])
  {
    hide Unfinished;
    assert stops[n] in Positions(stops);
    assert log[j].txn == log[stops[n]].txn;
    assert j in LoserRecords(log);
    var i :| 0 <= i < |stops| && stops[i] == j;
    assert stops[..n][i] == j;
  }

  /** With locks held, each stop is the next record of its slot that may be undone. */
  lemma StopIsNext(log: seq<LogRecord>, stops: seq<nat>, n: nat)
    requires LocksHeld(log) && VisitsLosers(log, stops) && n < |stops|
    ensures Next(log, Positions(stops[..n]), stops[n])
  {
    var k, undone := stops[n], Positions(stops[..n]);
    assert k !in undone;
    hide LocksHeld, NewestFirst, LoserRecords;
    forall j, pid, s | 0 <= j < k && TouchesSlot(log[j].op, pid, s) && TouchesSlot(log[k].op, pid, s)
      ensures j !in undone
    {
      if j in undone {
        var i :| 0 <= i < n && stops[i] == j;
        EarlierStop(log, stops, i, n, pid, s);
      }
    }
    forall j, pid, s | k < j < |log| && TouchesSlot(log[j].op, pid, s) && TouchesSlot(log[k].op, pid, s)
      ensures j in undone
    {
      LaterIsEarlierStop(log, stops, n, j, pid, s);
    }
  }

  lemma OneMore(stops: seq<nat>, n: nat)
    requires n < |stops|
    ensures Positions(stops[..n + 1]) == Positions(stops[..n]) + {stops[n]}
  {
    assert stops[..n + 1] == stops[..n] + [stops[n]];
  }

  /** Undoing a record matters to its own page only. */
  lemma LeftSame(base: Base, pid: int32, log: seq<LogRecord>, undone: set<nat>, k: nat)
    requires k < |log| && !TupleOpOn(log[k].op, pid)
    ensures ImageLeft(base, pid, log, undone + {k}) == ImageLeft(base, pid, log, undone)
  {
    hide ImageAfter, SlotWithout, Oldest;
    if ImageAfter(base, pid, log, |log|).Slotted? {
      var v, w := SlotsLeft(base, pid, log, undone), SlotsLeft(base, pid, log, undone + {k});
      forall s | 0 <= s < |v|
        ensures w[s] == v[s]
      {
        SlotSame(base, pid, s, log, |log|, undone, undone + {k});
        OldestSame(log, pid, s, undone, undone + {k});
      }
      assert w == v;
    }
  }

  lemma NothingLeftOut(base: Base, pid: int32, log: seq<LogRecord>)
    requires LegalLog(base, log)
    ensures ImageLeft(base, pid, log, {}) == ImageAfter(base, pid, log, |log|)
  {
    hide LegalLog, ImageAfter, SlotWithout;
    var img := ImageAfter(base, pid, log, |log|);
    if img.Slotted? {
      var v := SlotsLeft(base, pid, log, {});
      forall s | 0 <= s < |v|
        ensures v[s] == img.slots[s]
      {
        SlotOfImage(base, pid, s, log, |log|);
      }
      assert v == img.slots;
    }
  }

  /** The pages stand where they should after `n` stops. */
  ghost predicate OnTrack(base: Base, log: seq<LogRecord>, stops: seq<nat>, n: nat)
    requires InLog(log, stops) && n <= |stops|
  {
    forall pid: int32 :: UndoneImage(base, pid, log, stops, n) == ImageLeft(base, pid, log, Positions(stops[..n]))
  }

  lemma TrackStarts(base: Base, log: seq<LogRecord>, stops: seq<nat>)
    requires LegalLog(base, log) && InLog(log, stops)
    ensures OnTrack(base, log, stops, 0)
  {
    hide LegalLog, ImageAfter, ImageLeft;
    assert Positions(stops[..0]) == {};
    forall pid: int32
      ensures UndoneImage(base, pid, log, stops, 0) == ImageLeft(base, pid, log, {})
    {
      NothingLeftOut(base, pid, log);
    }
  }

  /** One stop: it is fine exactly when its assertions hold and it stays on track. */
  lemma TrackStep(base: Base, log: seq<LogRecord>, stops: seq<nat>, n: nat)
    requires LegalLog(base, log) && LocksHeld(log) && VisitsLosers(log, stops) && n < |stops|
    requires OnTrack(base, log, stops, n)
    ensures FineAt(base, log, stops, n) <==> StopOk(base, log, stops, n) && OnTrack(base, log, stops, n + 1)
    ensures !log[stops[n]].op.ApplyDelete? ==> (FineAt(base, log, stops, n) <==> StopOk(base, log, stops, n))
  {
    hide LegalLog, LocksHeld, ImageAfter, SlotWithout, Oldest, FineOn, UndoOk, UndoOn, Next, NewestFirst, LoserRecords;
    var k, op, undone := stops[n], log[stops[n]].op, Positions(stops[..n]);
    OneMore(stops, n);
    var m := n + 1;
    var more := Positions(stops[..m]);
    forall pid: int32 | !TupleOpOn(op, pid)
      ensures UndoneImage(base, pid, log, stops, m) == ImageLeft(base, pid, log, more)
    {
      LeftSame(base, pid, log, undone, k);
      assert UndoneImage(base, pid, log, stops, n) == ImageLeft(base, pid, log, undone);
    }
    if IsTupleOp(op) {
      StopIsNext(log, stops, n);
      UndoStep(base, log, undone, k);
      var pid := op.rid.pageId;
      assert UndoneImage(base, pid, log, stops, n) == ImageLeft(base, pid, log, undone);
      var v, w := SlotsLeft(base, pid, log, undone), SlotsLeft(base, pid, log, undone + {k});
      assert UndoneImage(base, pid, log, stops, m) == Slotted(UndoOn(v, op));
      assert OnTrack(base, log, stops, m) <==> UndoOn(v, op) == w;
    }
  }

  /** As long as every stop is fine, no assertion fails and the pages are on track. */
  lemma {:induction false} FineMeansOnTrack(base: Base, log: seq<LogRecord>, stops: seq<nat>, n: nat)
    requires LegalLog(base, log) && LocksHeld(log) && VisitsLosers(log, stops) && n <= |stops|
    requires forall i :: 0 <= i < n ==> FineAt(base, log, stops, i)
    ensures OnTrack(base, log, stops, n) && forall i :: 0 <= i < n ==> StopOk(base, log, stops, i)
    decreases n
  {
    hide LegalLog, LocksHeld, NewestFirst, LoserRecords, FineAt, StopOk, OnTrack;
    if n == 0 {
      TrackStarts(base, log, stops);
    } else {
      FineMeansOnTrack(base, log, stops, n - 1);
      TrackStep(base, log, stops, n - 1);
    }
  }

  /** The pages are where they should be after every stop. */
  ghost predicate AlwaysOnTrack(base: Base, log: seq<LogRecord>, stops: seq<nat>)
    requires InLog(log, stops)
  {
    forall n :: 0 <= n <= |stops| ==> OnTrack(base, log, stops, n)
  }

  /** Every stop is fine exactly when no assertion fails and the pages are on track throughout. */
  lemma AllFineIff(base: Base, log: seq<LogRecord>, stops: seq<nat>)
    requires LegalLog(base, log) && LocksHeld(log) && VisitsLosers(log, stops)
    ensures AllFine(base, log, stops) <==> AllOk(base, log, stops) && AlwaysOnTrack(base, log, stops)
  {
    hide LegalLog, LocksHeld, NewestFirst, LoserRecords, FineAt, StopOk, OnTrack;
    if AllFine(base, log, stops) {
      forall n | 0 <= n <= |stops|
        ensures OnTrack(base, log, stops, n)
      {
        FineMeansOnTrack(base, log, stops, n);
      }
      FineMeansOnTrack(base, log, stops, |stops|);
    }
    if AllOk(base, log, stops) && AlwaysOnTrack(base, log, stops) {
      forall i | 0 <= i < |stops|
        ensures FineAt(base, log, stops, i)
      {
        assert OnTrack(base, log, stops, i) && OnTrack(base, log, stops, i + 1);
        TrackStep(base, log, stops, i);
      }
    }
  }

  /** If no loser had applied a delete, undo completes exactly when every stop is fine. */
  lemma {:induction false} OkIffFine(base: Base, log: seq<LogRecord>, stops: seq<nat>, n: nat)
    requires LegalLog(base, log) && LocksHeld(log) && VisitsLosers(log, stops) && n <= |stops|
    requires forall i :: 0 <= i < n ==> !log[stops[i]].op.ApplyDelete?
    ensures (forall i :: 0 <= i < n ==> StopOk(base, log, stops, i)) <==>
            (forall i :: 0 <= i < n ==> FineAt(base, log, stops, i))
    decreases n
  {
    hide LegalLog, LocksHeld, NewestFirst, LoserRecords, FineAt, StopOk, OnTrack;
    if n > 0 {
      OkIffFine(base, log, stops, n - 1);
      if forall i :: 0 <= i < n - 1 ==> FineAt(base, log, stops, i) {
        FineMeansOnTrack(base, log, stops, n - 1);
        TrackStep(base, log, stops, n - 1);
      }
    }
  }

  ghost predicate NoAppliedDeletes(log: seq<LogRecord>) {
    forall k :: 0 <= k < |log| && Unfinished(log, |log|, log[k].txn) ==> !log[k].op.ApplyDelete?
  }

  lemma CompletesIffFine(base: Base, log: seq<LogRecord>, stops: seq<nat>)
    requires LegalLog(base, log) && LocksHeld(log) && NoAppliedDeletes(log) && VisitsLosers(log, stops)
    ensures AllOk(base, log, stops) <==> AllFine(base, log, stops)
  {
    hide LegalLog, LocksHeld, NewestFirst, Unfinished, FineAt, StopOk;
    forall i | 0 <= i < |stops|
      ensures !log[stops[i]].op.ApplyDelete?
    {
      assert stops[i] in Positions(stops);
    }
    OkIffFine(base, log, stops, |stops|);
  }

  /** A loser caught in its commit or abort has compensated only what it wrote itself. */
  ghost predicate CompensatesOwn(log: seq<LogRecord>) {
    forall k :: 0 <= k < |log| && Unfinished(log, |log|, log[k].txn) && Compensates(log[k].op) ==> HasOwnWrite(log, k)
  }

  predicate Compensates(op: Op) { op.ApplyDelete? || op.RollbackDelete? }

  ghost predicate HasOwnWrite(log: seq<LogRecord>, k: nat)
    requires k < |log| && IsTupleOp(log[k].op)
  {
    exists j :: 0 <= j < k && log[j].txn == log[k].txn
                && TouchesSlot(log[j].op, log[k].op.rid.pageId, log[k].op.rid.slot)
  }

  /** Then the last mark set is the right one. */
  lemma MarksRight(base: Base, pid: int32, s: nat, log: seq<LogRecord>)
    requires LegalLog(base, log) && LocksHeld(log) && CompensatesOwn(log)
    ensures SlotLeft(base, pid, s, log, LoserRecords(log)) ==
            SlotWithout(base, pid, s, log, |log|, LoserRecords(log))
  {
    hide Legal, SlotWithout, ImageAfter, Unfinished, Oldest;
    var losers := LoserRecords(log);
    var k := Oldest(log, pid, s, losers, |log|);
    if k >= 0 {
      var rest := losers - {k};
      assert rest + {k} == losers;
      forall j | k < j < |log| && TouchesSlot(log[j].op, pid, s)
        ensures j in rest
      {
        assert log[j].txn == log[k].txn;
      }
      LeaveOut(base, pid, s, log, |log|, rest, k);
      SlotOfImage(base, pid, s, log, k);
      assert Touches(log[k].op, pid);
      LegalFound(ImageAfter(base, pid, log, k), log[k].op);
      assert Compensates(log[k].op) ==> HasOwnWrite(log, k);
    }
  }

  /** Undo is complete: if every stop is fine, no assertion fails and every slot ends with
      what the finished transactions alone put there, also after a crash in the middle of a
      commit or an abort. */
  lemma FineUndoIsComplete(base: Base, log: seq<LogRecord>, stops: seq<nat>, pid: int32)
    requires LegalLog(base, log) && LocksHeld(log) && CompensatesOwn(log) && VisitsLosers(log, stops)
    requires AllFine(base, log, stops)
    ensures AllOk(base, log, stops)
    ensures UndoneImage(base, pid, log, stops, |stops|) == ImageWithout(base, pid, log, LoserRecords(log))
  {
    hide LegalLog, LocksHeld, CompensatesOwn, NewestFirst, LoserRecords, FineAt, StopOk, UndoneImage, ImageAfter,
      SlotLeft, SlotWithout;
    FineMeansOnTrack(base, log, stops, |stops|);
    assert stops[..|stops|] == stops;
    assert UndoneImage(base, pid, log, stops, |stops|) == ImageLeft(base, pid, log, LoserRecords(log));
    if ImageAfter(base, pid, log, |log|).Slotted? {
      var v, w := SlotsLeft(base, pid, log, LoserRecords(log)), SlotsWithout(base, pid, log, LoserRecords(log));
      forall s | 0 <= s < |v|
        ensures v[s] == w[s]
      {
        MarksRight(base, pid, s, log);
      }
      assert v == w;
    }
  }

  // ---------- facts the walk uses ----------

  /** The walk went through stops `m` to `n`: every assertion but the last held, and `ok` says
      whether that one did. */
  ghost predicate Walked(base: Base, log: seq<LogRecord>, stops: seq<nat>, m: nat, n: nat, ok: bool)
    requires InLog(log, stops)
  {
    && m <= n <= |stops|
    && (forall i :: m <= i < n - 1 ==> StopOk(base, log, stops, i))
    && (ok <==> m == n || StopOk(base, log, stops, n - 1))
  }

  lemma NothingWalked(base: Base, log: seq<LogRecord>, stops: seq<nat>)
    requires InLog(log, stops)
    ensures Walked(base, log, stops, 0, 0, true)
  {
  }

  lemma WalkedNext(base: Base, log: seq<LogRecord>, stops: seq<nat>, m: nat, n: nat, ok: bool)
    requires InLog(log, stops) && Walked(base, log, stops, m, n, true) && n < |stops|
    requires ok <==> StopOk(base, log, stops, n)
    ensures Walked(base, log, stops, m, n + 1, ok)
  {
    hide StopOk;
  }

  lemma WalkedOn(base: Base, log: seq<LogRecord>, stops: seq<nat>, n: nat, k: nat, ok: bool)
    requires InLog(log, stops) && Walked(base, log, stops, 0, n, true) && Walked(base, log, stops, n, k, ok)
    ensures Walked(base, log, stops, 0, k, ok)
  {
    hide StopOk;
  }

  lemma WalkedAll(base: Base, log: seq<LogRecord>, stops: seq<nat>, n: nat, ok: bool)
    requires InLog(log, stops) && Walked(base, log, stops, 0, n, ok) && (ok ==> n == |stops|)
    ensures ok <==> AllOk(base, log, stops)
    ensures !ok ==> n > 0 && !StopOk(base, log, stops, n - 1)
    ensures !ok ==> forall i :: 0 <= i < n - 1 ==> StopOk(base, log, stops, i)
  {
    hide StopOk;
  }

  /** The records of `x` from `lsn` down. */
  ghost function ChainFrom(log: seq<LogRecord>, x: int32, lsn: int): seq<nat>
    requires lsn < |log|
  {
    if lsn < 0 then [] else [lsn] + RecordsOf(log, x, lsn)
  }

  lemma ChainStarts(base: Base, log: seq<LogRecord>, x: int32, stops: seq<nat>, before: seq<nat>)
    requires InLog(log, stops) && Unfinished(log, |log|, x) && |before| <= |stops|
    ensures RecordsOf(log, x, |log|) == ChainFrom(log, x, LastLsn(log, |log|, x))
    ensures Walked(base, log, stops, |before|, |before|, true)
  {
    hide RecordsOf, LastLsn;
    RecordsFromLast(log, x, |log|);
  }

  lemma ChainEnds(log: seq<LogRecord>, x: int32)
    ensures ChainFrom(log, x, -1) == []
  {
  }

  /** One record on along the chain. */
  lemma ChainLink(log: seq<LogRecord>, x: int32, lsn: nat, visited: seq<nat>, stops: seq<nat>)
    requires TxnLog(log) && lsn < |log| && log[lsn].txn == x && visited + ChainFrom(log, x, lsn) <= stops
    ensures log[lsn].lsn == lsn && -1 <= log[lsn].prevLsn < lsn
    ensures log[lsn].prevLsn >= 0 ==> log[log[lsn].prevLsn].txn == x
    ensures visited + ChainFrom(log, x, lsn) == visited + [lsn] + ChainFrom(log, x, log[lsn].prevLsn)
    ensures |visited| < |stops| && stops[|visited|] == lsn && visited + [lsn] <= stops
  {
    hide LastLsn, RecordsOf;
    assert TxnRecord(log, lsn);
    RecordsFromLast(log, x, lsn);
    assert ChainFrom(log, x, lsn) == [lsn] + ChainFrom(log, x, log[lsn].prevLsn);
    assert (visited + ChainFrom(log, x, lsn))[|visited|] == lsn;
  }

  lemma LoserIsSmall(log: seq<LogRecord>, x: int32, k: nat)
    requires SmallRecords(log) && k < |log| && log[k].txn == x && Unfinished(log, |log|, x)
    ensures RecordSize(log[k].op) <= PAGE_SIZE
  {
  }

  lemma OrderedTxn(log: seq<LogRecord>, order: seq<int32>, i: nat)
    requires OrderOk(log, order) && i < |order|
    ensures Unfinished(log, |log|, order[i])
  {
  }

  lemma {:induction false} StopsSplit(log: seq<LogRecord>, order: seq<int32>, i: nat)
    requires i <= |order|
    ensures Stops(log, order[..i]) <= Stops(log, order)
    decreases |order|
  {
    if i < |order| {
      var init := order[..|order| - 1];
      StopsSplit(log, init, i);
      assert init[..i] == order[..i];
    } else {
      assert order[..i] == order;
    }
  }

  lemma {:induction false} StopsNext(log: seq<LogRecord>, order: seq<int32>, i: nat)
    requires i < |order|
    ensures Stops(log, order[..i + 1]) == Stops(log, order[..i]) + RecordsOf(log, order[i], |log|)
    ensures Stops(log, order[..i]) + RecordsOf(log, order[i], |log|) <= Stops(log, order)
  {
    hide RecordsOf;
    StopsSplit(log, order, i + 1);
    var longer := order[..i + 1];
    assert longer[..|longer| - 1] == order[..i];
  }

  lemma NothingUndone(base: Base, log: seq<LogRecord>, store: Store, stops: seq<nat>)
    requires InLog(log, stops)
    requires forall pid: int32 :: ImageOf(Fetch(store, pid)) == ImageAfter(base, pid, log, |log|)
    ensures PagesUndone(base, log, store, stops, 0)
  {
    hide ImageOf, Fetch, ImageAfter;
  }

  lemma CompleteEverywhere(base: Base, log: seq<LogRecord>, store: Store, stops: seq<nat>)
    requires LegalLog(base, log) && LocksHeld(log) && CompensatesOwn(log) && VisitsLosers(log, stops)
    requires AllFine(base, log, stops)
    ensures AllOk(base, log, stops)
    ensures PagesUndone(base, log, store, stops, |stops|) ==>
              forall pid: int32 :: ImageOf(Fetch(store, pid)) == ImageWithout(base, pid, log, LoserRecords(log))
  {
    hide LegalLog, LocksHeld, CompensatesOwn, NewestFirst, AllFine, AllOk, ImageOf, Fetch, UndoneImage, ImageWithout,
      LoserRecords;
    FineUndoIsComplete(base, log, stops, 0);
    if PagesUndone(base, log, store, stops, |stops|) {
      forall pid: int32
        ensures ImageOf(Fetch(store, pid)) == ImageWithout(base, pid, log, LoserRecords(log))
      {
        FineUndoIsComplete(base, log, stops, pid);
      }
    }
  }

  /** A log record of at most a page reads back from the one-page buffer. */
  lemma ReadBack(log: seq<LogRecord>, k: nat, file: seq<byte>, buffer: seq<byte>)
    requires AllEncodable(log) && k < |log| && file == EncodeAll(log) && RecordSize(log[k].op) <= PAGE_SIZE
    requires var at := |EncodeAll(log[..k])|; at <= |file| && buffer == PageRead(file, at)
    ensures |EncodeAll(log[..k])| < |file|
    ensures InWindow(buffer, 0) && Deserialize(buffer, 0).Some? && Deserialize(buffer, 0).value.record == log[k]
  {
    hide EncodeAll, Encode, Deserialize, InWindow;
    var at := |EncodeAll(log[..k])|;
    RecordAt(log, k);
    var b := Encode(log[k]);
    assert file[at..at + |b|] == b;
    assert buffer[0..|b|] == file[at..at + |b|];
    DecodeEncode(buffer, 0, log[k]);
  }

  /** One page of the log from `at` on, zeros past its end. */
  function PageRead(file: seq<byte>, at: nat): (buffer: seq<byte>)
    requires at <= |file|
    ensures |buffer| == PAGE_SIZE
  {
    if at + PAGE_SIZE <= |file| then file[at..at + PAGE_SIZE] else Window(file[at..], PAGE_SIZE - (|file| - at))
  }

  /** Undo reads one page of the log from the record's offset on. The deserializer, which does
      not check this, stays inside what was read exactly if the record is at most a page. */
  lemma InWindowIff(r: LogRecord, file: seq<byte>, at: nat)
    requires Encodable(r) && At(file, at, Encode(r))
    ensures InWindow(PageRead(file, at), 0) <==> RecordSize(r.op) <= PAGE_SIZE
  {
    hide Encode, InWindow, EncodeHeader, EncodeBody;
    var buffer := PageRead(file, at);
    if RecordSize(r.op) <= PAGE_SIZE {
      var b := Encode(r);
      assert buffer[0..|b|] == file[at..at + |b|];
      DecodeEncode(buffer, 0, r);
    } else {
      LeavesWindow(r, file, at);
    }
  }

  /** A word of the file, seen from the buffer. */
  lemma SameWord(file: seq<byte>, at: nat, o: nat)
    requires at + PAGE_SIZE <= |file| && o + 4 <= PAGE_SIZE
    ensures ReadU32(file[at..at + PAGE_SIZE], o) == ReadU32(file, at + o)
  {
    var buffer := file[at..at + PAGE_SIZE];
    assert buffer[o] == file[at + o] && buffer[o + 1] == file[at + o + 1];
    assert buffer[o + 2] == file[at + o + 2] && buffer[o + 3] == file[at + o + 3];
    FourBytes(buffer, o);
    FourBytes(file, at + o);
  }

  lemma LeavesWindow(r: LogRecord, file: seq<byte>, at: nat)
    requires Encodable(r) && At(file, at, Encode(r)) && at + PAGE_SIZE <= |file| && PAGE_SIZE < RecordSize(r.op)
    ensures !InWindow(file[at..at + PAGE_SIZE], 0)
  {
    hide ReadU32, EncodeU32, EncodeHeader, EncodeRid, EncodeTuple, ReadTuple, At;
    var op := r.op;
    AtSplit(file, at, EncodeHeader(r), EncodeBody(op));
    AtHeader(file, at, r);
    SameWord(file, at, 0);
    SameWord(file, at, 4);
    SameWord(file, at, 8);
    SameWord(file, at, 16);
    SameWord(file, at, 28);
    if op.Update? {
      AtSplit(file, at + 20, EncodeRid(op.rid), EncodeTuple(op.oldTuple) + EncodeTuple(op.newTuple));
      AtSplit(file, at + 28, EncodeTuple(op.oldTuple), EncodeTuple(op.newTuple));
      AtTuple(file, at + 28, op.oldTuple);
      AtTuple(file, at + 32 + |op.oldTuple|, op.newTuple);
      if 36 + |op.oldTuple| <= PAGE_SIZE {
        SameWord(file, at, 32 + |op.oldTuple|);
      }
    } else {
      AtSplit(file, at + 20, EncodeRid(op.rid), EncodeTuple(op.tuple));
      AtTuple(file, at + 28, op.tuple);
    }
  }

  /** Of the records for tuples the table heap accepts, only updates can be larger than a page. */
  lemma SmallUnlessUpdate(op: Op)
    requires op.Update? ==> |op.oldTuple| <= 4064 && |op.newTuple| <= 4064
    requires IsTupleOp(op) && !op.Update? ==> |op.tuple| <= 4064
    ensures RecordSize(op) <= PAGE_SIZE <==> (op.Update? ==> |op.oldTuple| + |op.newTuple| <= 4060)
  {
  }
}
