/** What a log means for the pages: the image a page has after a prefix of the log,
    and the image of one slot when some records are left out. */
module Replay {
  import opened Bytes
  import opened SlotMap
  import opened TablePageModel
  import opened LogCodec

  /** A page not yet initialised, or a slot map. */
  datatype Image = Blank | Slotted(slots: seq<Slot>)

  ghost function ImageOf(p: seq<byte>): Image {
    if Inv(p) then Slotted(View(p)) else Blank
  }

  predicate IsTupleOp(op: Op) {
    op.Insert? || op.MarkDelete? || op.ApplyDelete? || op.RollbackDelete? || op.Update?
  }

  predicate Touches(op: Op, pid: int32) {
    (op.NewPage? && op.pageId == pid) || (IsTupleOp(op) && op.rid.pageId == pid)
  }

  /** What the page operation behind a record does to a slot map. */
  function ApplyTo(v: seq<Slot>, op: Op): seq<Slot>
    requires IsTupleOp(op)
  {
    var s := op.rid.slot;
    match op
    case Insert(_, t) => if CanInsert(v, t) then Inserted(v, t) else v
    case Update(_, _, n) => if CanUpdate(v, s, n) then Updated(v, s, n) else v
    case MarkDelete(_, _) => if Live(v, s) then WithMark(v, s, true) else v
    case ApplyDelete(_, _) => if Occupied(v, s) then v[s := Empty] else v
    case RollbackDelete(_, _) => if s < |v| then WithMark(v, s, false) else v
  }

  function Apply(img: Image, op: Op): Image {
    if op.NewPage? then Slotted([])
    else if img.Slotted? && IsTupleOp(op) then Slotted(ApplyTo(img.slots, op))
    else img
  }

  /** The page operation succeeds on this image and writes exactly this record. */
  predicate Legal(img: Image, op: Op) {
    match op
    case NewPage(prev, page) => img.Blank? && prev != page
    case Insert(rid, t) =>
      img.Slotted? && t != [] && CanInsert(img.slots, t) && rid.slot == FirstEmpty(img.slots)
    case Update(rid, o, n) =>
      img.Slotted? && o != [] && n != [] && CanUpdate(img.slots, rid.slot, n) && o == img.slots[rid.slot].data
    case MarkDelete(rid, _) => img.Slotted? && Live(img.slots, rid.slot)
    case ApplyDelete(rid, t) =>
      img.Slotted? && t != [] && Occupied(img.slots, rid.slot) && t == img.slots[rid.slot].data
    case RollbackDelete(rid, _) => img.Slotted? && rid.slot < |img.slots|
    case _ => true
  }

  /** The page operation meets no failed assertion, whether or not it is refused. */
  predicate Defined(img: Image, op: Op) {
    match op
    case NewPage(prev, page) => prev != page
    case Insert(_, t) => img.Slotted? && t != []
    case Update(_, _, n) => img.Slotted? && n != []
    case MarkDelete(_, _) => img.Slotted?
    case ApplyDelete(rid, _) => img.Slotted? && Occupied(img.slots, rid.slot)
    case RollbackDelete(rid, _) => img.Slotted? && rid.slot < |img.slots|
    case _ => true
  }

  type Base = map<int32, Image>

  function BaseImage(base: Base, pid: int32): Image {
    if pid in base then base[pid] else Blank
  }

  /** The image of page `pid` after the first `n` records. */
  function ImageAfter(base: Base, pid: int32, log: seq<LogRecord>, n: nat): Image
    requires n <= |log|
  {
    if n == 0 then BaseImage(base, pid)
    else
      var img := ImageAfter(base, pid, log, n - 1);
      if Touches(log[n - 1].op, pid) then Apply(img, log[n - 1].op) else img
  }

  /** Every record was written by an operation that succeeded on the page as it then was. */
  ghost predicate LegalLog(base: Base, log: seq<LogRecord>) {
    forall k, pid :: 0 <= k < |log| && Touches(log[k].op, pid) ==> Legal(ImageAfter(base, pid, log, k), log[k].op)
  }

  lemma {:induction false} ImageAfterPrefix(base: Base, pid: int32, log: seq<LogRecord>, d: nat, n: nat)
    requires n <= d <= |log|
    ensures ImageAfter(base, pid, log[..d], n) == ImageAfter(base, pid, log, n)
  {
    if n > 0 {
      ImageAfterPrefix(base, pid, log, d, n - 1);
      assert log[..d][n - 1] == log[n - 1];
    }
  }

  /** Records that do not touch a page leave it as it was. */
  lemma {:induction false} ImageUntouched(base: Base, pid: int32, log: seq<LogRecord>, m: nat, n: nat)
    requires m <= n <= |log|
    requires forall k :: m <= k < n ==> !Touches(log[k].op, pid)
    ensures ImageAfter(base, pid, log, m) == ImageAfter(base, pid, log, n)
  {
    if m < n {
      ImageUntouched(base, pid, log, m, n - 1);
    }
  }

  /** What redo makes of a page with image `img` and page LSN `lsn`: of the first `n` records
      it applies those that touch the page and are newer. */
  function RedoImage(img: Image, lsn: int, pid: int32, log: seq<LogRecord>, n: nat): Image
    requires n <= |log|
  {
    if n == 0 then img
    else
      var before := RedoImage(img, lsn, pid, log, n - 1);
      if Touches(log[n - 1].op, pid) && lsn < n - 1 then Apply(before, log[n - 1].op) else before
  }

  /** How many records a page with this LSN has seen. */
  function Seen(log: seq<LogRecord>, lsn: int): (n: nat)
    ensures n <= |log|
  {
    if lsn < 0 then 0 else if lsn < |log| then lsn + 1 else |log|
  }

  /** A page that holds its records up to its LSN is taken through all later ones. */
  lemma {:induction false} RedoCatchesUp(base: Base, img: Image, lsn: int, pid: int32, log: seq<LogRecord>, n: nat)
    requires n <= |log| && img == ImageAfter(base, pid, log, Seen(log, lsn))
    ensures RedoImage(img, lsn, pid, log, n) ==
            if n <= Seen(log, lsn) then img else ImageAfter(base, pid, log, n)
    decreases n
  {
    hide Apply;
    if n > 0 {
      RedoCatchesUp(base, img, lsn, pid, log, n - 1);
    }
  }

  // ---------- one slot, with some records left out ----------

  predicate TouchesSlot(op: Op, pid: int32, s: nat) {
    IsTupleOp(op) && op.rid.pageId == pid && op.rid.slot == s
  }

  function SlotStep(c: Slot, op: Op): Slot {
    match op
    case Insert(_, t) => Tuple(t, false)
    case Update(_, _, n) => Tuple(n, false)
    case MarkDelete(_, _) => if c.Empty? then c else Tuple(c.data, true)
    case RollbackDelete(_, _) => if c.Empty? then c else Tuple(c.data, false)
    case _ => Empty
  }

  function SlotIn(img: Image, s: nat): Slot {
    if img.Slotted? && s < |img.slots| then img.slots[s] else Empty
  }

  /** The content of slot `s` of page `pid` after the first `n` records, without those in `undone`. */
  ghost function SlotWithout(base: Base, pid: int32, s: nat, log: seq<LogRecord>, n: nat, undone: set<nat>): Slot
    requires n <= |log|
  {
    if n == 0 then SlotIn(BaseImage(base, pid), s)
    else
      var c := SlotWithout(base, pid, s, log, n - 1, undone);
      if TouchesSlot(log[n - 1].op, pid, s) && (n - 1) !in undone then SlotStep(c, log[n - 1].op) else c
  }

  /** A legal record changes its own slot only. */
  lemma ApplyOneSlot(img: Image, op: Op, s: nat)
    requires Legal(img, op) && (op.NewPage? || IsTupleOp(op))
    ensures SlotIn(Apply(img, op), s) ==
            if IsTupleOp(op) && op.rid.slot == s then SlotStep(SlotIn(img, s), op) else SlotIn(img, s)
  {
  }

  /** With nothing left out this is the slot of the page image. */
  lemma {:induction false} SlotOfImage(base: Base, pid: int32, s: nat, log: seq<LogRecord>, n: nat)
    requires LegalLog(base, log) && n <= |log|
    ensures SlotIn(ImageAfter(base, pid, log, n), s) == SlotWithout(base, pid, s, log, n, {})
  {
    if n > 0 {
      SlotOfImage(base, pid, s, log, n - 1);
      if Touches(log[n - 1].op, pid) {
        ApplyOneSlot(ImageAfter(base, pid, log, n - 1), log[n - 1].op, s);
      }
    }
  }

  /** Leaving out the last record of a slot that counts: everything before it is intact,
      everything after it is already left out. */
  lemma {:induction false} LeaveOut(base: Base, pid: int32, s: nat, log: seq<LogRecord>, n: nat, undone: set<nat>,
                                    k: nat)
    requires k < n <= |log| && k !in undone && TouchesSlot(log[k].op, pid, s)
    requires forall j :: 0 <= j < k && TouchesSlot(log[j].op, pid, s) ==> j !in undone
    requires forall j :: k < j < n && TouchesSlot(log[j].op, pid, s) ==> j in undone
    ensures var c := SlotWithout(base, pid, s, log, k, {});
            && SlotWithout(base, pid, s, log, n, undone) == SlotStep(c, log[k].op)
            && SlotWithout(base, pid, s, log, n, undone + {k}) == c
    decreases n
  {
    if n == k + 1 {
      SlotSame(base, pid, s, log, k, undone, {});
      SlotSame(base, pid, s, log, k, undone + {k}, {});
    } else {
      LeaveOut(base, pid, s, log, n - 1, undone, k);
    }
  }

  /** Only left-out records of this very slot matter. */
  lemma {:induction false} SlotSame(base: Base, pid: int32, s: nat, log: seq<LogRecord>, n: nat, u: set<nat>,
                                    w: set<nat>)
    requires n <= |log|
    requires forall j :: 0 <= j < n && TouchesSlot(log[j].op, pid, s) ==> (j in u <==> j in w)
    ensures SlotWithout(base, pid, s, log, n, u) == SlotWithout(base, pid, s, log, n, w)
  {
    if n > 0 {
      SlotSame(base, pid, s, log, n - 1, u, w);
    }
  }

  // ---------- transactions in the log ----------

  /** The last record of `txn` among the first `n`, or -1. */
  function LastLsn(log: seq<LogRecord>, n: nat, txn: int32): (l: int)
    requires n <= |log|
    ensures -1 <= l < n
    ensures l >= 0 ==> log[l].txn == txn
    ensures forall k :: l < k < n ==> log[k].txn != txn
  {
    if n == 0 then -1 else if log[n - 1].txn == txn then n - 1 else LastLsn(log, n - 1, txn)
  }

  /** The LSN of a record is its index; each transaction starts with BEGIN, links its
      records backwards through `prevLsn`, and writes nothing after COMMIT or ABORT. */
  ghost predicate TxnRecord(log: seq<LogRecord>, k: nat)
    requires k < |log|
  {
    var r, l := log[k], LastLsn(log, k, log[k].txn);
    && r.lsn == k && r.prevLsn == l && r.txn != INVALID_TXN_ID
    && (r.op.Begin? <==> l == -1)
    && (l >= 0 ==> !EndsTxn(log[l].op))
  }

  ghost predicate TxnLog(log: seq<LogRecord>) {
    forall k :: 0 <= k < |log| ==> TxnRecord(log, k)
  }

  /** `txn` has records but neither COMMIT nor ABORT among the first `n`. */
  predicate Unfinished(log: seq<LogRecord>, n: nat, txn: int32)
    requires n <= |log|
  {
    var l := LastLsn(log, n, txn);
    l >= 0 && !EndsTxn(log[l].op)
  }

  /** What redo asks of a record's header: LSNs count up from 0, BEGIN has no predecessor, and
      only a running transaction ends. */
  ghost predicate SequencedRecord(log: seq<LogRecord>, k: nat)
    requires k < |log|
  {
    && log[k].lsn == k && log[k].txn != INVALID_TXN_ID
    && (log[k].op.Begin? ==> log[k].prevLsn == INVALID_LSN)
    && (EndsTxn(log[k].op) ==> Unfinished(log, k, log[k].txn))
  }

  ghost predicate Sequenced(log: seq<LogRecord>) {
    forall k :: 0 <= k < |log| ==> SequencedRecord(log, k)
  }

  lemma TxnLogSequenced(log: seq<LogRecord>)
    requires TxnLog(log)
    ensures Sequenced(log)
  {
    hide LastLsn;
    forall k | 0 <= k < |log|
      ensures SequencedRecord(log, k)
    {
      assert TxnRecord(log, k);
    }
  }

  /** `txn` has records, and none of them is COMMIT or ABORT. */
  ghost predicate Running(log: seq<LogRecord>, txn: int32) {
    && (exists k :: 0 <= k < |log| && log[k].txn == txn)
    && forall k :: 0 <= k < |log| && log[k].txn == txn ==> !log[k].op.Commit? && !log[k].op.Abort?
  }

  /** Only the last record of a transaction ends it. */
  lemma {:induction false} EarlierDoesNotEnd(log: seq<LogRecord>, n: nat, txn: int32, k: nat)
    requires TxnLog(log) && n <= |log| && k < LastLsn(log, n, txn) && log[k].txn == txn
    ensures !EndsTxn(log[k].op)
    decreases n
  {
    hide LastLsn, EndsTxn;
    var l := LastLsn(log, n, txn);
    assert TxnRecord(log, l);
    var p := LastLsn(log, l, txn);
    if k < p {
      EarlierDoesNotEnd(log, l, txn, k);
    }
  }

  /** What the code calls unfinished is what the log shows as such. */
  lemma UnfinishedIff(log: seq<LogRecord>, txn: int32)
    requires TxnLog(log)
    ensures Unfinished(log, |log|, txn) <==> Running(log, txn)
  {
    hide LastLsn;
    var l := LastLsn(log, |log|, txn);
    forall k | 0 <= k < l && log[k].txn == txn
      ensures !EndsTxn(log[k].op)
    {
      EarlierDoesNotEnd(log, |log|, txn, k);
    }
  }

  /** Every kind of record counts, on its own page and its own slot, and does there what its page
      operation does. */
  lemma EveryKindCounts(rid: RID, t: seq<byte>, o: seq<byte>, v: seq<Slot>, page: int32, prev: int32)
    ensures forall op :: op in {Insert(rid, t), MarkDelete(rid, t), ApplyDelete(rid, t), RollbackDelete(rid, t),
                                Update(rid, o, t)} ==>
              && Touches(op, rid.pageId) && TouchesSlot(op, rid.pageId, rid.slot)
              && (page != rid.pageId ==> !Touches(op, page))
    ensures Touches(NewPage(prev, page), page) && (prev != page ==> !Touches(NewPage(prev, page), prev))
    ensures Apply(Slotted(v), NewPage(prev, page)) == Slotted([]) == Apply(Blank, NewPage(prev, page))
    ensures Legal(Slotted(v), Insert(rid, t)) ==>
              Apply(Slotted(v), Insert(rid, t)) == Slotted(Put(v, rid.slot, Tuple(t, false)))
    ensures Legal(Slotted(v), Update(rid, o, t)) ==>
              Apply(Slotted(v), Update(rid, o, t)) == Slotted(v[rid.slot := Tuple(t, false)])
    ensures Legal(Slotted(v), MarkDelete(rid, o)) ==>
              Apply(Slotted(v), MarkDelete(rid, o)) == Slotted(v[rid.slot := Tuple(v[rid.slot].data, true)])
    ensures Legal(Slotted(v), ApplyDelete(rid, t)) ==>
              Apply(Slotted(v), ApplyDelete(rid, t)) == Slotted(v[rid.slot := Empty])
    ensures Legal(Slotted(v), RollbackDelete(rid, o)) && v[rid.slot].Tuple? ==>
              Apply(Slotted(v), RollbackDelete(rid, o)) == Slotted(v[rid.slot := Tuple(v[rid.slot].data, false)])
  {
  }
}
