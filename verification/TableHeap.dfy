/** The table heap: a chain of slotted pages linked by their next ids, the write set its
    operations leave behind, and the abort that walks the write set back. */
module TableHeapModel {
  import opened Bytes
  import opened SlotMap
  import opened TablePageModel
  import opened Rollback

  type Store = map<int32, Page>

  ghost predicate Linked(store: Store, chain: seq<int32>, i: nat)
    requires i < |chain|
  {
    && chain[i] in store && chain[i] != INVALID_PAGE_ID
    && Inv(store[chain[i]])
    && PageId(store[chain[i]]) == chain[i]
    && NextId(store[chain[i]]) == (if i + 1 < |chain| then chain[i + 1] else INVALID_PAGE_ID)
    && PrevId(store[chain[i]]) == if i > 0 then chain[i - 1] else INVALID_PAGE_ID
  }

  /** `chain` is the heap from its first page along the next ids, and back along the previous
      ids: it has no cycle, ends with the invalid id and passes through every page of the heap. */
  ghost predicate ChainOk(store: Store, first: int32, chain: seq<int32>) {
    && chain != [] && chain[0] == first
    && (forall i, j :: 0 <= i < j < |chain| ==> chain[i] != chain[j])
    && (forall i :: 0 <= i < |chain| ==> Linked(store, chain, i))
    && forall pid :: pid in store ==> pid in chain
  }

  ghost predicate PagesOk(store: Store) {
    forall pid :: pid in store ==> Inv(store[pid])
  }

  /** The slot maps of the pages. */
  ghost function HeapOf(store: Store): Heap
    requires PagesOk(store)
  {
    map pid | pid in store :: View(store[pid])
  }

  lemma SameKeys(store: Store)
    requires PagesOk(store)
    ensures HeapOf(store).Keys == store.Keys
  {
    hide View, Inv;
  }

  /** A page operation that leaves the page's header alone keeps the chain. */
  lemma SwapPage(store: Store, first: int32, chain: seq<int32>, pid: int32, q: Page)
    requires ChainOk(store, first, chain) && PagesOk(store) && pid in store
    requires Inv(q) && q[..16] == store[pid][..16]
    ensures ChainOk(store[pid := q], first, chain) && PagesOk(store[pid := q])
    ensures HeapOf(store[pid := q]) == HeapOf(store)[pid := View(q)]
  {
    hide Inv, View, ReadU32, ReadI32;
    FreeSpaceExact(q);
    HeaderSame(store[pid], q);
    var changed := store[pid := q];
    forall i | 0 <= i < |chain|
      ensures Linked(changed, chain, i)
    {
      assert Linked(store, chain, i);
    }
    assert HeapOf(changed) == HeapOf(store)[pid := View(q)];
  }

  /** Linking a page behind another changes nothing but the next id. */
  ghost predicate Relinked(p: Page, q: Page, id: int32) {
    q[..12] == p[..12] && q[16..] == p[16..] && NextId(q) == id
  }

  lemma RelinkedSame(p: Page, q: Page, id: int32)
    requires Inv(p) && Relinked(p, q, id)
    ensures Inv(q) && View(q) == View(p) && PageId(q) == PageId(p) && PrevId(q) == PrevId(p)
  {
    hide Inv, View;
    TailDecides(p, q);
    assert forall k :: 0 <= k < 12 ==> q[k] == q[..12][k] && p[k] == p[..12][k];
  }

  /** Linking a new page behind the last one makes the chain one page longer. */
  lemma GrowChain(store: Store, first: int32, chain: seq<int32>, last: int32, id: int32, q: Page, added: Page)
    requires ChainOk(store, first, chain) && PagesOk(store) && id !in store && id != INVALID_PAGE_ID
    requires last == chain[|chain| - 1] && last in store && Relinked(store[last], q, id)
    requires Inv(added) && View(added) == [] && PageId(added) == id && NextId(added) == INVALID_PAGE_ID
    requires PrevId(added) == last
    ensures var grown := store[last := q][id := added];
            ChainOk(grown, first, chain + [id]) && PagesOk(grown) && HeapOf(grown) == HeapOf(store)[id := []]
  {
    hide Inv, View, ReadU32, ReadI32;
    RelinkedSame(store[last], q, id);
    FreeSpaceExact(q);
    FreeSpaceExact(added);
    var grown, longer := store[last := q][id := added], chain + [id];
    forall i | 0 <= i < |longer|
      ensures Linked(grown, longer, i)
    {
      if i < |chain| {
        assert Linked(store, chain, i);
      }
    }
    forall pid | pid in grown
      ensures pid in longer
    {
      assert pid == longer[|chain|] || pid in chain;
    }
    forall i | 0 <= i < |chain|
      ensures longer[i] != id
    {
      assert Linked(store, chain, i);
    }
    assert HeapOf(grown) == HeapOf(store)[id := []];
  }

  /** The page an insert goes to: the first of the chain with room, or none. */
  ghost function FirstFit(h: Heap, chain: seq<int32>, t: seq<byte>): (i: nat)
    ensures i <= |chain|
    ensures i < |chain| ==> chain[i] in h && CanInsert(h[chain[i]], t)
    ensures forall j :: 0 <= j < i && chain[j] in h ==> !CanInsert(h[chain[j]], t)
  {
    if chain == [] then 0
    else
      var i := FirstFit(h, chain[..|chain| - 1], t);
      var last := chain[|chain| - 1];
      if i < |chain| - 1 then i
      else if last in h && CanInsert(h[last], t) then |chain| - 1 else |chain|
  }

  /** The guard adds in 32 bits. */
  predicate PassesSizeGuard(t: seq<byte>) {
    (|t| + 32) % TWO_32 <= PAGE_SIZE
  }

  /** The sizes for which that sum wraps. */
  predicate GuardWraps(t: seq<byte>) {
    TWO_32 - 32 <= |t|
  }

  /** Ids the buffer pool may give to new pages. */
  ghost predicate NewIds(used: set<int32>, ids: seq<int32>) {
    && (forall i :: 0 <= i < |ids| ==> ids[i] !in used && ids[i] != INVALID_PAGE_ID)
    && forall i, j :: 0 <= i < j < |ids| ==> ids[i] != ids[j]
  }

  function FirstOf(ids: seq<int32>): Option<int32> {
    if ids == [] then None else Some(ids[0])
  }

  /** The heap with these empty pages added. */
  function WithEmptyPages(h: Heap, ids: seq<int32>): Heap {
    if ids == [] then h else WithEmptyPages(h, ids[..|ids| - 1])[ids[|ids| - 1] := []]
  }

  function InsertRecord(rid: RID): WriteRecord {
    WriteRecord(rid, INSERT, [])
  }

  /** `t` went into heap `h` at `rid`: into the first page of the chain with room, and only if
      there is none into one new page behind the last. */
  ghost predicate Placed(h: Heap, chain: seq<int32>, t: seq<byte>, newPage: Option<int32>,
                         k: Heap, longer: seq<int32>, rid: RID) {
    var i, w := FirstFit(h, chain, t), Wrote(InsertRecord(rid), t);
    if i < |chain| then
      && longer == chain && rid.pageId == chain[i]
      && CanStep(h, w) && k == AfterStep(h, w)
    else
      && newPage.Some? && longer == chain + [newPage.value] && rid.pageId == newPage.value
      && CanStep(h, AddedPage(newPage.value))
      && var g := AfterStep(h, AddedPage(newPage.value)); CanStep(g, w) && k == AfterStep(g, w)
  }

  /** No page of the chain up to `n` has room. */
  ghost predicate NoRoom(h: Heap, chain: seq<int32>, t: seq<byte>, n: nat) {
    n <= |chain| && forall j :: 0 <= j < n ==> chain[j] in h && !CanInsert(h[chain[j]], t)
  }

  lemma PlacedInChain(h: Heap, chain: seq<int32>, t: seq<byte>, newPage: Option<int32>, i: nat, rid: RID)
    requires NoRoom(h, chain, t, i) && i < |chain| && t != [] && chain[i] in h && CanInsert(h[chain[i]], t)
    requires rid.pageId == chain[i] && rid.slot == FirstEmpty(h[chain[i]])
    ensures FirstFit(h, chain, t) == i
    ensures Placed(h, chain, t, newPage, h[chain[i] := Inserted(h[chain[i]], t)], chain, rid)
  {
    hide CanInsert, Inserted;
    assert FirstFit(h, chain, t) == i;
  }

  /** The size guard passes exactly the tuples that fit an empty page and those for which its
      sum wraps; the latter fit no page at all. */
  lemma GuardIsExact(t: seq<byte>)
    requires |t| < TWO_32
    ensures PassesSizeGuard(t) <==> CanInsert([], t) || GuardWraps(t)
    ensures GuardWraps(t) ==> forall v :: !CanInsert(v, t)
  {
    if GuardWraps(t) {
      assert (|t| + 32) % TWO_32 == |t| + 32 - TWO_32;
    }
  }

  /** The smallest tuple the guard lets through although it fits nowhere. */
  lemma HugeTuplePasses(t: seq<byte>)
    requires |t| == TWO_32 - 32
    ensures PassesSizeGuard(t) && GuardWraps(t) && forall v :: !CanInsert(v, t)
  {
    GuardIsExact(t);
  }

  lemma PlacedInNewPage(h: Heap, chain: seq<int32>, t: seq<byte>, id: int32, rid: RID)
    requires NoRoom(h, chain, t, |chain|) && t != [] && CanInsert([], t) && id !in h && rid == RID(id, 0)
    ensures FirstFit(h, chain, t) == |chain|
    ensures Placed(h, chain, t, Some(id), h[id := []][id := Inserted([], t)], chain + [id], rid)
  {
    assert FirstFit(h, chain, t) == |chain|;
  }

  lemma NoRoomNoFit(h: Heap, chain: seq<int32>, t: seq<byte>)
    requires NoRoom(h, chain, t, |chain|)
    ensures FirstFit(h, chain, t) == |chain|
  {
    hide CanInsert;
  }

  /** The pages an insert has linked so far, `n` of those it was given. */
  ghost predicate Grown(h: Heap, chain: seq<int32>, ids: seq<int32>, n: nat, k: Heap, longer: seq<int32>) {
    n <= |ids| && longer == chain + ids[..n] && k == WithEmptyPages(h, ids[..n])
  }

  lemma GrownNext(h: Heap, chain: seq<int32>, ids: seq<int32>, n: nat, k: Heap, longer: seq<int32>)
    requires Grown(h, chain, ids, n, k, longer) && n < |ids|
    ensures Grown(h, chain, ids, n + 1, k[ids[n] := []], longer + [ids[n]])
  {
    assert ids[..n + 1][..n] == ids[..n];
    assert ids[..n + 1] == ids[..n] + [ids[n]];
  }

  /** The loop of an insert stands at page `i` of the chain and found no room so far; it has
      linked new pages only for a tuple that fits nowhere. */
  ghost predicate Searching(h: Heap, chain: seq<int32>, ids: seq<int32>, t: seq<byte>, n: nat, i: nat,
                            k: Heap, longer: seq<int32>) {
    && Grown(h, chain, ids, n, k, longer) && i < |longer| && NoRoom(k, longer, t, i + 1)
    && (n > 0 ==> GuardWraps(t) && i == |longer| - 1)
  }

  /** What the loop ends with. */
  ghost predicate Searched(h: Heap, chain: seq<int32>, ids: seq<int32>, t: seq<byte>, ok: bool, rid: RID,
                           k: Heap, longer: seq<int32>) {
    && ok == (!GuardWraps(t) && (FirstFit(h, chain, t) < |chain| || ids != []))
    && (ok ==> Placed(h, chain, t, FirstOf(ids), k, longer, rid))
    && (!ok ==> longer == chain + ids && k == WithEmptyPages(h, ids))
  }

  /** Trying page `i` of the chain itself. */
  lemma SearchHere(h: Heap, chain: seq<int32>, ids: seq<int32>, t: seq<byte>, i: nat, rid: RID)
    requires 0 < |t| < TWO_32 && NoRoom(h, chain, t, i) && i < |chain| && chain[i] in h
    ensures !CanInsert(h[chain[i]], t) ==> Searching(h, chain, ids, t, 0, i, h, chain)
    ensures CanInsert(h[chain[i]], t) && rid.pageId == chain[i] && rid.slot == FirstEmpty(h[chain[i]]) ==>
              Searched(h, chain, ids, t, true, rid, h[chain[i] := Inserted(h[chain[i]], t)], chain)
  {
    GuardIsExact(t);
    hide CanInsert, Inserted, Placed, PassesSizeGuard, FirstFit;
    assert ids[..0] == [] && chain + [] == chain;
    if CanInsert(h[chain[i]], t) && rid.pageId == chain[i] && rid.slot == FirstEmpty(h[chain[i]]) {
      PlacedInChain(h, chain, t, FirstOf(ids), i, rid);
    }
  }

  lemma SearchBound(h: Heap, chain: seq<int32>, ids: seq<int32>, t: seq<byte>, n: nat, i: nat,
                    k: Heap, longer: seq<int32>)
    requires Searching(h, chain, ids, t, n, i, k, longer)
    ensures i < |longer| <= |chain| + |ids|
  {
    hide CanInsert, WithEmptyPages;
  }

  /** Before the end of the chain no page was added. */
  lemma SearchInside(h: Heap, chain: seq<int32>, ids: seq<int32>, t: seq<byte>, n: nat, i: nat,
                     k: Heap, longer: seq<int32>)
    requires Searching(h, chain, ids, t, n, i, k, longer) && i + 1 < |longer|
    ensures n == 0 && k == h && longer == chain && NoRoom(h, chain, t, i + 1)
  {
    hide CanInsert;
    assert ids[..0] == [] && chain + [] == chain;
  }

  /** Trying a new page behind the last. */
  lemma SearchBehind(h: Heap, chain: seq<int32>, ids: seq<int32>, t: seq<byte>, n: nat, i: nat,
                     k: Heap, longer: seq<int32>, rid: RID)
    requires 0 < |t| < TWO_32 && PassesSizeGuard(t)
    requires Searching(h, chain, ids, t, n, i, k, longer) && i + 1 == |longer| && n < |ids| && ids[n] !in k
    ensures !CanInsert([], t) ==>
              Searching(h, chain, ids, t, n + 1, i + 1, k[ids[n] := []], longer + [ids[n]])
    ensures CanInsert([], t) && rid == RID(ids[n], 0) ==>
              Searched(h, chain, ids, t, true, rid, k[ids[n] := []][ids[n] := Inserted([], t)], longer + [ids[n]])
  {
    GuardIsExact(t);
    hide CanInsert, Inserted, Placed, PassesSizeGuard, FirstFit, WithEmptyPages;
    GrownNext(h, chain, ids, n, k, longer);
    if CanInsert([], t) && rid == RID(ids[n], 0) {
      GrownNothing(h, chain, ids, k, longer);
      PlacedInNewPage(h, chain, t, ids[0], rid);
    }
  }

  lemma GrownNothing(h: Heap, chain: seq<int32>, ids: seq<int32>, k: Heap, longer: seq<int32>)
    ensures Grown(h, chain, ids, 0, k, longer) ==> k == h && longer == chain
  {
    assert ids[..0] == [] && chain + [] == chain;
  }

  lemma SearchFails(h: Heap, chain: seq<int32>, ids: seq<int32>, t: seq<byte>, i: nat, k: Heap, longer: seq<int32>,
                    rid: RID)
    requires Searching(h, chain, ids, t, |ids|, i, k, longer) && i + 1 == |longer|
    ensures Searched(h, chain, ids, t, false, rid, k, longer)
  {
    hide CanInsert, FirstFit, WithEmptyPages;
    assert ids[..|ids|] == ids;
    GrownNothing(h, chain, ids, k, longer);
    if |ids| == 0 {
      NoRoomNoFit(h, chain, t);
    }
  }

  datatype TransactionState = GROWING | SHRINKING | COMMITTED | ABORTED

  class Transaction {
    var state: TransactionState
    var writeSet: seq<WriteRecord>

    constructor ()
      ensures state == GROWING && writeSet == []
    {
      state, writeSet := GROWING, [];
    }
  }

  class TableHeap {
    const firstPageId: int32
    var store: Store
    ghost var chain: seq<int32>

    ghost predicate Valid()
      reads this
    {
      ChainOk(store, firstPageId, chain) && PagesOk(store)
    }

    /** A heap with one empty page. */
    constructor (newId: int32)
      requires newId != INVALID_PAGE_ID
      ensures Valid() && firstPageId == newId && chain == [newId] && HeapOf(store) == map[newId := []]
    {
      hide Inv, View, ReadU32;
      firstPageId := newId;
      var page := new TablePage(Zeros(PAGE_SIZE));
      page.Init(newId, -1);
      FreeSpaceExact(page.data[..]);
      store := map[newId := page.data[..]];
      chain := [newId];
      new;
      assert Linked(store, chain, 0);
    }

    /** One try of the insert loop. */
    method InsertAt(pid: int32, tuple: seq<byte>) returns (ok: bool, rid: RID)
      requires Valid() && pid in store && 0 < |tuple|
      modifies this
      ensures Valid() && chain == old(chain) && ok == CanInsert(old(HeapOf(store))[pid], tuple)
      ensures !ok ==> store == old(store)
      ensures ok ==> HeapOf(store) == old(HeapOf(store))[pid := Inserted(old(HeapOf(store))[pid], tuple)]
      ensures ok ==> rid.pageId == pid && rid.slot == FirstEmpty(old(HeapOf(store))[pid])
    {
      hide Inv, View, ReadU32, ReadI32, Inserted, CanInsert, Linked;
      ChainIds(store, firstPageId, chain, pid);
      var page := new TablePage(store[pid]);
      ok, rid := page.InsertTuple(tuple);
      HeaderSame(store[pid], page.data[..]);
      if ok {
        SwapPage(store, firstPageId, chain, pid, page.data[..]);
        store := store[pid := page.data[..]];
      }
    }

    /** Links a new, empty page behind page `last`. */
    method AddPage(last: int32, id: int32)
      requires Valid() && last == chain[|chain| - 1] && last in store && id !in store && id != INVALID_PAGE_ID
      modifies this
      ensures Valid() && chain == old(chain) + [id] && id in store && HeapOf(store) == old(HeapOf(store))[id := []]
    {
      hide Inv, View, ReadU32, ReadI32;
      var page := new TablePage(store[last]);
      var next := new TablePage(Zeros(PAGE_SIZE));
      page.SetNextPageId(id);
      ChainIds(store, firstPageId, chain, last);
      RelinkedSame(store[last], page.data[..], id);
      next.Init(id, PageId(page.data[..]));
      GrowChain(store, firstPageId, chain, last, id, page.data[..], next.data[..]);
      store := store[last := page.data[..]][id := next.data[..]];
      chain := chain + [id];
    }

    /** The insert loop, with `newPages` the ids the buffer pool gives before it refuses. A tuple
        that fits an empty page goes into the first page with room and adds at most one page. A
        tuple whose guard wrapped fits nowhere: every new page there is gets linked, in vain. */
    method InsertAlong(tuple: seq<byte>, newPages: seq<int32>) returns (ok: bool, rid: RID)
      requires Valid() && 0 < |tuple| < TWO_32 && PassesSizeGuard(tuple) && NewIds(store.Keys, newPages)
      modifies this
      ensures Valid()
      ensures Searched(old(HeapOf(store)), old(chain), newPages, tuple, ok, rid, HeapOf(store), chain)
    {
      hide Inv, View, ReadU32, ReadI32, CanInsert, Inserted, Placed, FirstFit, Linked, WithEmptyPages, PassesSizeGuard,
        ChainOk, GuardWraps, FirstOf;
      ghost var h, c, i := HeapOf(store), chain, 0;
      var n := 0;
      SameKeys(store);
      var cur := firstPageId;
      ChainStarts(store, firstPageId, chain);
      LinkAt(store, firstPageId, chain, 0);
      ok, rid := InsertAt(cur, tuple);
      SearchHere(h, c, newPages, tuple, 0, rid);
      while !ok
        invariant Valid() && n <= |newPages|
        invariant !ok ==> Searching(h, c, newPages, tuple, n, i, HeapOf(store), chain) && cur == chain[i]
        invariant !ok ==> forall j :: n <= j < |newPages| ==> newPages[j] !in store
        invariant ok ==> Searched(h, c, newPages, tuple, true, rid, HeapOf(store), chain)
        decreases if ok then 0 else |c| + |newPages| - i
      {
        hide Searching, Searched;
        SearchBound(h, c, newPages, tuple, n, i, HeapOf(store), chain);
        LinkAt(store, firstPageId, chain, i);
        SameKeys(store);
        var next := NextId(store[cur]);
        if next != INVALID_PAGE_ID {
          SearchInside(h, c, newPages, tuple, n, i, HeapOf(store), chain);
          cur, i := next, i + 1;
          LinkAt(store, firstPageId, chain, i);
          ok, rid := InsertAt(cur, tuple);
          SearchHere(h, c, newPages, tuple, i, rid);
        } else {
          if n == |newPages| {
            SearchFails(h, c, newPages, tuple, i, HeapOf(store), chain, rid);
            return;
          }
          ghost var k, longer := HeapOf(store), chain;
          AddPage(cur, newPages[n]);
          cur := newPages[n];
          ok, rid := InsertAt(cur, tuple);
          SearchBehind(h, c, newPages, tuple, n, i, k, longer, rid);
          SameKeys(store);
          i, n := i + 1, n + 1;
        }
      }
    }

    /** Inserts into the first page of the chain with room; if there is none, links a new
        page behind the last. `frame` says whether the buffer pool could fetch the first
        page, `newPages` what it gives for new ones before it refuses. */
    method InsertTuple(tuple: seq<byte>, txn: Transaction, frame: bool, newPages: seq<int32>)
        returns (ok: bool, rid: RID)
      requires Valid() && 0 < |tuple| < TWO_32 && NewIds(store.Keys, newPages)
      modifies this, txn
      ensures Valid()
      ensures ok == (PassesSizeGuard(tuple) && !GuardWraps(tuple) && frame
                     && (FirstFit(old(HeapOf(store)), old(chain), tuple) < |old(chain)| || newPages != []))
      ensures txn.state == if ok then old(txn.state) else ABORTED
      ensures !ok ==> txn.writeSet == old(txn.writeSet)
      ensures !ok && PassesSizeGuard(tuple) && frame ==>
                chain == old(chain) + newPages && HeapOf(store) == WithEmptyPages(old(HeapOf(store)), newPages)
      ensures !(PassesSizeGuard(tuple) && frame) ==> store == old(store) && chain == old(chain)
      ensures ok ==> Placed(old(HeapOf(store)), old(chain), tuple, FirstOf(newPages), HeapOf(store), chain, rid)
                     && txn.writeSet == old(txn.writeSet) + [InsertRecord(rid)]
    {
      hide Inv, View, FirstFit, Placed, ChainOk, WithEmptyPages, NewIds;
      rid := RID(INVALID_PAGE_ID, 0);
      if (|tuple| + 32) % TWO_32 > PAGE_SIZE || !frame {
        txn.state := ABORTED;
        return false, rid;
      }
      ok, rid := InsertAlong(tuple, newPages);
      if ok {
        txn.writeSet := txn.writeSet + [InsertRecord(rid)];
      } else {
        txn.state := ABORTED;
      }
    }

    /** The record is added whether or not the page had a live tuple to mark. */
    method MarkDelete(rid: RID, txn: Transaction, frame: bool) returns (ok: bool)
      requires Valid() && (frame ==> rid.pageId in store)
      modifies this, txn
      ensures Valid() && chain == old(chain) && ok == frame
      ensures txn.state == if ok then old(txn.state) else ABORTED
      ensures !ok ==> store == old(store) && txn.writeSet == old(txn.writeSet)
      ensures ok ==> txn.writeSet == old(txn.writeSet) + [WriteRecord(rid, DELETE, [])]
      ensures ok ==> var h := old(HeapOf(store)); var w := Wrote(WriteRecord(rid, DELETE, []), []);
                     HeapOf(store) == if CanStep(h, w) then AfterStep(h, w) else h
    {
      hide Inv, View, ReadU32, ReadI32, Linked;
      if !frame {
        txn.state := ABORTED;
        return false;
      }
      var page := new TablePage(store[rid.pageId]);
      var _ := page.MarkDelete(rid.slot);
      SwapPage(store, firstPageId, chain, rid.pageId, page.data[..]);
      store := store[rid.pageId := page.data[..]];
      txn.writeSet := txn.writeSet + [WriteRecord(rid, DELETE, [])];
      return true;
    }

    /** Adds no record for a transaction that is being aborted. */
    method UpdateTuple(tuple: seq<byte>, rid: RID, txn: Transaction, frame: bool) returns (ok: bool)
      requires Valid() && 0 < |tuple| && (frame ==> rid.pageId in store)
      modifies this, txn
      ensures Valid() && chain == old(chain)
      ensures txn.state == if frame then old(txn.state) else ABORTED
      ensures ok == (frame && CanUpdate(old(HeapOf(store))[rid.pageId], rid.slot, tuple))
      ensures !ok ==> HeapOf(store) == old(HeapOf(store)) && txn.writeSet == old(txn.writeSet)
      ensures ok ==> var h := old(HeapOf(store));
                     var r := WriteRecord(rid, UPDATE, h[rid.pageId][rid.slot].data);
                     && CanStep(h, Wrote(r, tuple)) && HeapOf(store) == AfterStep(h, Wrote(r, tuple))
                     && txn.writeSet == old(txn.writeSet) + if txn.state == ABORTED then [] else [r]
    {
      hide Inv, View, ReadU32, ReadI32, Linked, CanUpdate;
      if !frame {
        txn.state := ABORTED;
        return false;
      }
      var page := new TablePage(store[rid.pageId]);
      var before;
      ok, before := page.UpdateTuple(tuple, rid.slot);
      SwapPage(store, firstPageId, chain, rid.pageId, page.data[..]);
      store := store[rid.pageId := page.data[..]];
      if ok && txn.state != ABORTED {
        txn.writeSet := txn.writeSet + [WriteRecord(rid, UPDATE, before)];
      }
    }

    /** Fails, where the code asserts, exactly on a slot that holds no tuple. */
    method ApplyDelete(rid: RID) returns (ok: bool)
      requires Valid() && rid.pageId in store
      modifies this
      ensures Valid() && chain == old(chain) && ok == Occupied(old(HeapOf(store))[rid.pageId], rid.slot)
      ensures !ok ==> store == old(store)
      ensures ok ==>
                HeapOf(store) == old(HeapOf(store))[rid.pageId := old(HeapOf(store))[rid.pageId][rid.slot := Empty]]
    {
      hide Inv, View, ReadU32, ReadI32, Linked;
      var page := new TablePage(store[rid.pageId]);
      ViewCount(page.data[..]);
      if rid.slot >= Count(page.data[..]) {
        return false;
      }
      ReadSlot(page.data[..], rid.slot);
      if Sz(page.data[..], rid.slot) == 0 {
        return false;
      }
      var _ := page.ApplyDelete(rid.slot);
      SwapPage(store, firstPageId, chain, rid.pageId, page.data[..]);
      store := store[rid.pageId := page.data[..]];
      return true;
    }

    /** Fails, where the code asserts, exactly on a slot the page does not have. */
    method RollbackDelete(rid: RID) returns (ok: bool)
      requires Valid() && rid.pageId in store
      modifies this
      ensures Valid() && chain == old(chain) && ok == (rid.slot < |old(HeapOf(store))[rid.pageId]|)
      ensures !ok ==> store == old(store)
      ensures ok ==> HeapOf(store) ==
                     old(HeapOf(store))[rid.pageId := WithMark(old(HeapOf(store))[rid.pageId], rid.slot, false)]
    {
      hide Inv, View, ReadU32, ReadI32, Linked;
      var page := new TablePage(store[rid.pageId]);
      ViewCount(page.data[..]);
      if rid.slot >= Count(page.data[..]) {
        return false;
      }
      page.RollbackDelete(rid.slot);
      SwapPage(store, firstPageId, chain, rid.pageId, page.data[..]);
      store := store[rid.pageId := page.data[..]];
      return true;
    }

    method GetTuple(rid: RID, txn: Transaction, frame: bool) returns (ok: bool, tuple: seq<byte>)
      requires Valid() && (frame ==> rid.pageId in store)
      modifies txn
      ensures txn.writeSet == old(txn.writeSet) && txn.state == if frame then old(txn.state) else ABORTED
      ensures ok == (frame && Live(HeapOf(store)[rid.pageId], rid.slot))
      ensures ok ==> tuple == HeapOf(store)[rid.pageId][rid.slot].data
    {
      hide Inv, View, ReadU32, ReadI32, Linked;
      if !frame {
        txn.state := ABORTED;
        return false, [];
      }
      var page := new TablePage(store[rid.pageId]);
      ok, tuple := page.GetTuple(rid.slot);
    }
  }

  lemma ChainStarts(store: Store, first: int32, chain: seq<int32>)
    requires ChainOk(store, first, chain)
    ensures chain != [] && chain[0] == first
  {
    hide Linked;
  }

  lemma LinkAt(store: Store, first: int32, chain: seq<int32>, i: nat)
    requires ChainOk(store, first, chain) && i < |chain|
    ensures chain[i] in store && chain[i] != INVALID_PAGE_ID
    ensures NextId(store[chain[i]]) == INVALID_PAGE_ID <==> i + 1 == |chain|
    ensures i + 1 < |chain| ==> NextId(store[chain[i]]) == chain[i + 1]
  {
    hide Inv, View, ReadI32;
    assert Linked(store, chain, i);
    assert i + 1 < |chain| ==> Linked(store, chain, i + 1);
  }

  lemma ChainIds(store: Store, first: int32, chain: seq<int32>, pid: int32)
    requires ChainOk(store, first, chain) && pid in store
    ensures PageId(store[pid]) == pid
  {
    hide Inv, View, ReadI32;
    var i :| 0 <= i < |chain| && chain[i] == pid;
    assert Linked(store, chain, i);
  }

  /** A tuple whose guard wraps: two new pages are linked in vain, and the transaction aborts. */
  method HugeInsertLinksPages(a: int32, b: int32, c: int32, t: seq<byte>) returns (heap: TableHeap, ok: bool)
    requires |t| == TWO_32 - 32 && INVALID_PAGE_ID !in {a, b, c} && a != b && b != c && c != a
    ensures fresh(heap) && heap.Valid() && !ok && heap.chain == [a, b, c]
    ensures HeapOf(heap.store) == map[a := [], b := [], c := []]
  {
    hide Inv, View, ChainOk, HeapOf, Placed, FirstFit;
    HugeTuplePasses(t);
    var txn := new Transaction();
    heap := new TableHeap(a);
    SameKeys(heap.store);
    var rid;
    ok, rid := heap.InsertTuple(t, txn, true, [b, c]);
    assert [b, c][..1] == [b] && [b][..0] == [];
    assert WithEmptyPages(map[a := []], [b]) == map[a := [], b := []];
  }
}
