/** The redo pass, page by page and record by record. Pages live in a store where
    writes stick; a page never written reads as zeros. */
module RedoPass {
  import opened Bytes
  import opened SlotMap
  import opened TablePageModel
  import opened LogCodec
  import opened Replay

  type Store = map<int32, Page>

  function Fetch(store: Store, pid: int32): Page {
    if pid in store then store[pid] else Zeros(PAGE_SIZE)
  }

  /** Two pages with the same image and the same LSN. */
  ghost predicate SamePage(p: Page, q: Page) {
    ImageOf(q) == ImageOf(p) && Lsn(q) == Lsn(p)
  }

  /** The image and the LSN ignore the link words of the header. */
  lemma LinkIgnored(p: seq<byte>, q: seq<byte>)
    requires IsPage(p) && IsPage(q) && q[..12] == p[..12] && q[16..] == p[16..]
    ensures ImageOf(q) == ImageOf(p) && Lsn(q) == Lsn(p)
  {
    assert forall k :: 0 <= k < 12 ==> q[k] == q[..12][k] && p[k] == p[..12][k];
    assert Lsn(q) == Lsn(p);
    hide Inv, View;
    if Inv(p) {
      TailDecides(p, q);
    } else if Inv(q) {
      TailDecides(q, p);
    }
  }

  // ---------- redo ----------

  ghost predicate PageAt(log: seq<LogRecord>, start: Page, page: Page, pid: int32, k: nat)
    requires k <= |log|
  {
    && Lsn(page) == Lsn(start)
    && ImageOf(page) == RedoImage(ImageOf(start), Lsn(start), pid, log, k)
  }

  /** Redo has worked through `k` records. */
  ghost predicate RedoneTo(log: seq<LogRecord>, start: Store, store: Store, k: nat)
    requires k <= |log|
  {
    forall pid: int32 :: PageAt(log, Fetch(start, pid), Fetch(store, pid), pid, k)
  }

  /** The pages redo starts from: each is its base image plus the records up to its page LSN. */
  ghost predicate DiskOk(base: Base, log: seq<LogRecord>, store: Store) {
    forall pid: int32 :: ImageOf(Fetch(store, pid)) == ImageAfter(base, pid, log, Seen(log, Lsn(Fetch(store, pid))))
  }

  /** No record redo applies meets a failed assertion on its page. */
  ghost predicate RedoDefined(log: seq<LogRecord>, start: Store) {
    forall k, pid :: 0 <= k < |log| && Touches(log[k].op, pid) && Lsn(Fetch(start, pid)) < k ==>
      Defined(RedoImage(ImageOf(Fetch(start, pid)), Lsn(Fetch(start, pid)), pid, log, k), log[k].op)
  }

  /** What redoing record `k` may do to page `pid`. */
  ghost predicate PageStep(op: Op, k: nat, pid: int32, p: Page, q: Page) {
    if Touches(op, pid) && Lsn(p) < k then Lsn(q) == Lsn(p) && ImageOf(q) == Apply(ImageOf(p), op)
    else SamePage(p, q)
  }

  lemma RedoPageStep(log: seq<LogRecord>, start: Page, p: Page, q: Page, pid: int32, k: nat)
    requires k < |log| && PageAt(log, start, p, pid, k) && PageStep(log[k].op, k, pid, p, q)
    ensures PageAt(log, start, q, pid, k + 1)
  {
    hide ImageOf, Apply, Lsn;
  }

  lemma RedoStep(log: seq<LogRecord>, start: Store, store: Store, next: Store, k: nat)
    requires k < |log| && RedoneTo(log, start, store, k)
    requires forall pid: int32 :: PageStep(log[k].op, k, pid, Fetch(store, pid), Fetch(next, pid))
    ensures RedoneTo(log, start, next, k + 1)
  {
    hide PageAt, PageStep, Fetch;
    forall pid: int32
      ensures PageAt(log, Fetch(start, pid), Fetch(next, pid), pid, k + 1)
    {
      RedoPageStep(log, Fetch(start, pid), Fetch(store, pid), Fetch(next, pid), pid, k);
    }
  }

  /** From pages that hold their records up to their LSN, a record newer than its page finds
      it exactly as it was when the record was written, and the pass ends with the whole log. */
  lemma RedoIsComplete(base: Base, log: seq<LogRecord>, start: Store)
    requires LegalLog(base, log) && DiskOk(base, log, start)
    ensures RedoDefined(log, start)
    ensures forall pid: int32 ::
              RedoImage(ImageOf(Fetch(start, pid)), Lsn(Fetch(start, pid)), pid, log, |log|) ==
              ImageAfter(base, pid, log, |log|)
  {
    hide ImageOf, Lsn, Fetch, RedoImage, ImageAfter;
    forall k, pid | 0 <= k < |log| && Touches(log[k].op, pid) && Lsn(Fetch(start, pid)) < k
      ensures Defined(RedoImage(ImageOf(Fetch(start, pid)), Lsn(Fetch(start, pid)), pid, log, k), log[k].op)
    {
      NeedsRedo(base, log, start, pid, k);
    }
    forall pid: int32
      ensures RedoImage(ImageOf(Fetch(start, pid)), Lsn(Fetch(start, pid)), pid, log, |log|) ==
              ImageAfter(base, pid, log, |log|)
    {
      RedoCatchesUp(base, ImageOf(Fetch(start, pid)), Lsn(Fetch(start, pid)), pid, log, |log|);
    }
  }

  lemma NeedsRedo(base: Base, log: seq<LogRecord>, start: Store, pid: int32, k: nat)
    requires LegalLog(base, log) && DiskOk(base, log, start) && k < |log|
    requires Touches(log[k].op, pid) && Lsn(Fetch(start, pid)) < k
    ensures var img := RedoImage(ImageOf(Fetch(start, pid)), Lsn(Fetch(start, pid)), pid, log, k);
            img == ImageAfter(base, pid, log, k) && Legal(img, log[k].op) && Defined(img, log[k].op)
  {
    hide ImageOf, Lsn, Fetch, RedoImage, ImageAfter;
    RedoCatchesUp(base, ImageOf(Fetch(start, pid)), Lsn(Fetch(start, pid)), pid, log, k);
  }

  /** The page operation a tuple record stands for. On the page it was written on, an insert
      takes its original slot. */
  method RedoOnPage(page: TablePage, op: Op)
    requires page.Valid() && IsTupleOp(op) && Defined(Slotted(View(page.data[..])), op)
    modifies page.data
    ensures page.Valid() && page.data[..16] == old(page.data[..16])
    ensures View(page.data[..]) == ApplyTo(old(View(page.data[..])), op)
    ensures op.Insert? && Legal(Slotted(old(View(page.data[..]))), op) ==>
              Occupied(View(page.data[..]), op.rid.slot) && View(page.data[..])[op.rid.slot] == Tuple(op.tuple, false)
  {
    hide Inv, View, FreeSpace;
    match op {
      case Insert(rid, tuple) =>
        var ok, r := page.InsertTuple(tuple);
      case Update(rid, _, n) =>
        var ok, o := page.UpdateTuple(n, rid.slot);
      case MarkDelete(rid, _) =>
        var ok := page.MarkDelete(rid.slot);
      case ApplyDelete(rid, _) =>
        var t := page.ApplyDelete(rid.slot);
      case RollbackDelete(rid, _) =>
        ViewCount(page.data[..]);
        page.RollbackDelete(rid.slot);
    }
  }

  /** Fetch, apply under the latch, unpin dirty: the page before and after. */
  method RedoneTuplePage(p: Page, op: Op) returns (q: Page)
    requires IsTupleOp(op) && Defined(ImageOf(p), op)
    ensures Lsn(q) == Lsn(p) && ImageOf(q) == Apply(ImageOf(p), op)
  {
    hide Inv, View, Lsn, ApplyTo;
    var page := new TablePage(p);
    RedoOnPage(page, op);
    q := page.data[..];
    HeaderSame(p, q);
  }

  method RedoneNewPage(p: Page, prevPageId: int32, pageId: int32) returns (q: Page)
    ensures Lsn(q) == Lsn(p) && ImageOf(q) == Slotted([])
    ensures PageId(q) == pageId && PrevId(q) == prevPageId && NextId(q) == INVALID_PAGE_ID
  {
    hide Inv, View, Lsn;
    var page := new TablePage(p);
    page.Init(pageId, prevPageId);
    q := page.data[..];
  }

  /** The previous page gets its link repaired; its tuples and LSN do not change. */
  method RelinkedPage(p: Page, nextPageId: int32) returns (q: Page)
    ensures SamePage(p, q) && NextId(q) == nextPageId
  {
    hide Inv, View, Lsn, NextId;
    var page := new TablePage(p);
    if NextId(page.data[..]) != nextPageId {
      page.SetNextPageId(nextPageId);
    }
    q := page.data[..];
    LinkIgnored(p, q);
  }

  /** `active_txn_` after `k` records: the unfinished transactions with their last LSN. */
  ghost predicate ActiveAt(log: seq<LogRecord>, k: nat, active: map<int32, int32>)
    requires k <= |log|
  {
    && (forall x: int32 :: x in active <==> Unfinished(log, k, x))
    && (forall x: int32 :: x in active ==> active[x] == LastLsn(log, k, x))
  }

  /** `lsn_mapping_` after `k` records: the file offset of each. */
  ghost predicate OffsetsAt(log: seq<LogRecord>, k: nat, offsets: map<int32, int>)
    requires k <= |log| && AllEncodable(log)
  {
    && (forall i: int32 :: i in offsets <==> 0 <= i < k)
    && (forall i: int32 :: i in offsets ==> offsets[i] == |EncodeAll(log[..i])|)
  }

  lemma ActiveStep(log: seq<LogRecord>, k: nat, active: map<int32, int32>)
    requires k < |log| && SequencedRecord(log, k) && ActiveAt(log, k, active)
    ensures EndsTxn(log[k].op) ==> log[k].txn in active
    ensures var added := active[log[k].txn := log[k].lsn];
            ActiveAt(log, k + 1, if EndsTxn(log[k].op) then added - {log[k].txn} else added)
  {
    forall x: int32
      ensures Unfinished(log, k + 1, x) == if x == log[k].txn then !EndsTxn(log[k].op) else Unfinished(log, k, x)
      ensures LastLsn(log, k + 1, x) == if x == log[k].txn then k else LastLsn(log, k, x)
    {
    }
    hide LastLsn, Unfinished;
  }

  lemma EmptyLog(log: seq<LogRecord>)
    requires AllEncodable(log)
    ensures EncodeAll(log[..0]) == []
  {
  }

  lemma NewPageDefined(img: Image, op: Op)
    requires op.NewPage? && Defined(img, op)
    ensures op.prevPageId != op.pageId && Apply(img, op) == Slotted([])
  {
  }

  lemma LsnIsIndex(log: seq<LogRecord>, k: nat)
    requires Sequenced(log) && k < |log|
    ensures SequencedRecord(log, k) && log[k].lsn == k
  {
  }

  lemma StartTables(log: seq<LogRecord>, store: Store)
    requires AllEncodable(log)
    ensures RedoneTo(log, store, store, 0) && ActiveAt(log, 0, map[]) && OffsetsAt(log, 0, map[])
    ensures EncodeAll(log[..0]) == []
    ensures EncodeAll(log) == [] <==> log == []
  {
    hide Encode, ImageOf, Lsn;
    assert log != [] ==> |EncodeAll(log)| >= |Encode(log[|log| - 1])| >= HEADER_SIZE;
  }

  lemma FinalPages(log: seq<LogRecord>, start: Store, store: Store)
    requires RedoneTo(log, start, store, |log|)
    ensures forall pid: int32 :: Lsn(Fetch(store, pid)) == Lsn(Fetch(start, pid))
    ensures forall pid: int32 ::
              ImageOf(Fetch(store, pid)) ==
              RedoImage(ImageOf(Fetch(start, pid)), Lsn(Fetch(start, pid)), pid, log, |log|)
  {
    hide ImageOf, Lsn, Fetch, RedoImage;
    forall pid: int32
      ensures Lsn(Fetch(store, pid)) == Lsn(Fetch(start, pid))
      ensures ImageOf(Fetch(store, pid)) ==
              RedoImage(ImageOf(Fetch(start, pid)), Lsn(Fetch(start, pid)), pid, log, |log|)
    {
      assert PageAt(log, Fetch(start, pid), Fetch(store, pid), pid, |log|);
    }
  }
}
