/** The table iterator: `++` over the page chain, and what a whole scan sees. */
module TableScan {
  import opened Bytes
  import opened SlotMap
  import opened TablePageModel
  import opened Rollback
  import opened TableHeapModel

  /** Where a tuple is, as the iterator counts slots. */
  datatype Place = Place(pageId: int32, slot: nat)

  /** The occupied slots of a page at or after `from`, marked ones included. */
  ghost function PagePlaces(v: seq<Slot>, pid: int32, from: nat): seq<Place>
    decreases |v| - from
  {
    if from >= |v| then []
    else (if v[from].Tuple? then [Place(pid, from)] else []) + PagePlaces(v, pid, from + 1)
  }

  /** The occupied slots of the chain from slot `from` of page `i` on. */
  ghost function PlacesFrom(h: Heap, chain: seq<int32>, i: nat, from: nat): seq<Place>
    decreases |chain| - i
  {
    if i >= |chain| || chain[i] !in h then []
    else PagePlaces(h[chain[i]], chain[i], from) + PlacesFrom(h, chain, i + 1, 0)
  }

  ghost predicate IsPlace(h: Heap, p: Place) {
    p.pageId in h && Occupied(h[p.pageId], p.slot)
  }

  lemma {:induction false} PagePlacesStep(v: seq<Slot>, pid: int32, from: nat)
    ensures from >= |v| ==> PagePlaces(v, pid, from) == [] && NextOccupied(v, from) == |v|
    ensures from < |v| && v[from].Empty? ==>
              && PagePlaces(v, pid, from) == PagePlaces(v, pid, from + 1)
              && NextOccupied(v, from) == NextOccupied(v, from + 1)
    ensures from < |v| && v[from].Tuple? ==>
              && PagePlaces(v, pid, from) == [Place(pid, from)] + PagePlaces(v, pid, from + 1)
              && NextOccupied(v, from) == from
  {
  }

  /** The list `ps` holds the occupied slots of the page at or after `from`, in order. */
  ghost predicate ListsPage(v: seq<Slot>, pid: int32, from: nat, ps: seq<Place>) {
    && (forall p :: p in ps <==> p.pageId == pid && from <= p.slot && Occupied(v, p.slot))
    && forall a, b :: 0 <= a < b < |ps| ==> ps[a].slot < ps[b].slot
  }

  lemma ListsPageStep(v: seq<Slot>, pid: int32, from: nat, ps: seq<Place>)
    requires from < |v| && ListsPage(v, pid, from + 1, ps)
    ensures v[from].Empty? ==> ListsPage(v, pid, from, ps)
    ensures v[from].Tuple? ==> ListsPage(v, pid, from, [Place(pid, from)] + ps)
  {
    assert forall b :: 0 <= b < |ps| ==> ps[b] in ps;
  }

  lemma {:induction false} PagePlacesAre(v: seq<Slot>, pid: int32, from: nat)
    ensures ListsPage(v, pid, from, PagePlaces(v, pid, from))
    decreases |v| - from
  {
    hide PagePlaces;
    PagePlacesStep(v, pid, from);
    if from < |v| {
      hide ListsPage;
      PagePlacesAre(v, pid, from + 1);
      ListsPageStep(v, pid, from, PagePlaces(v, pid, from + 1));
    }
  }

  /** `p` comes before `q` in the order of the chain. */
  ghost predicate Earlier(chain: seq<int32>, p: Place, q: Place) {
    exists i, j :: 0 <= i <= j < |chain| && chain[i] == p.pageId && chain[j] == q.pageId && (i == j ==> p.slot < q.slot)
  }

  /** The list from page `i` on holds every occupied slot there, in chain order. */
  lemma {:induction false} PlacesFromAre(h: Heap, chain: seq<int32>, i: nat)
    requires forall k :: 0 <= k < |chain| ==> chain[k] in h
    ensures var ps := PlacesFrom(h, chain, i, 0);
            && (forall p :: p in ps <==> IsPlace(h, p) && i <= |chain| && p.pageId in chain[i..])
            && forall a, b :: 0 <= a < b < |ps| ==> Earlier(chain, ps[a], ps[b])
    decreases |chain| - i
  {
    if i < |chain| {
      var here, rest := PagePlaces(h[chain[i]], chain[i], 0), PlacesFrom(h, chain, i + 1, 0);
      PagePlacesAre(h[chain[i]], chain[i], 0);
      PlacesFromAre(h, chain, i + 1);
      var ps := PlacesFrom(h, chain, i, 0);
      assert ps == here + rest;
      assert chain[i..] == [chain[i]] + chain[i + 1..];
      forall a, b | 0 <= a < b < |ps|
        ensures Earlier(chain, ps[a], ps[b])
      {
        if b < |here| {
          assert here[a] in here && here[b] in here;
        } else if a < |here| {
          var q := rest[b - |here|];
          assert here[a] in here && q in rest;
          var j :| 0 <= j < |chain[i + 1..]| && chain[i + 1..][j] == q.pageId;
          assert chain[i + 1 + j] == q.pageId;
        } else {
          assert Earlier(chain, rest[a - |here|], rest[b - |here|]);
        }
      }
    }
  }

  /** Every occupied slot of the heap is listed, each once, in the order of the chain. */
  lemma WholeHeap(store: Store, first: int32, chain: seq<int32>)
    requires ChainOk(store, first, chain) && PagesOk(store)
    ensures var h := HeapOf(store); var ps := PlacesFrom(h, chain, 0, 0);
            && (forall p :: p in ps <==> IsPlace(h, p))
            && (forall a, b :: 0 <= a < b < |ps| ==> Earlier(chain, ps[a], ps[b]) && ps[a] != ps[b])
  {
    hide Inv, View;
    var h := HeapOf(store);
    forall k | 0 <= k < |chain|
      ensures chain[k] in h
    {
      assert Linked(store, chain, k);
    }
    PlacesFromAre(h, chain, 0);
    assert chain[0..] == chain;
  }

  lemma {:induction false} PlacesSkip(v: seq<Slot>, pid: int32, from: nat)
    ensures var n := NextOccupied(v, from);
            PagePlaces(v, pid, from) == if n < |v| then [Place(pid, n)] + PagePlaces(v, pid, n + 1) else []
    decreases |v| - from
  {
    hide PagePlaces, NextOccupied;
    PagePlacesStep(v, pid, from);
    if from < |v| && v[from].Empty? {
      PlacesSkip(v, pid, from + 1);
    }
  }

  const END := RID(INVALID_PAGE_ID, 0)

  /** `next` is the first of the places `rest`, and lies on page `pos` of the chain; or
      there is none up to the end of that page. */
  ghost predicate Found(h: Heap, chain: seq<int32>, pos: nat, next: RID, rest: seq<Place>) {
    && pos < |chain|
    && if next == END then rest == PlacesFrom(h, chain, pos + 1, 0)
       else
         && next.pageId == chain[pos] && next.pageId in h && Occupied(h[next.pageId], next.slot)
         && rest == PlacesFrom(h, chain, pos, next.slot)
  }

  /** What a page scan from slot `from` finds. */
  ghost predicate PageScan(v: seq<Slot>, pid: int32, from: nat, next: RID) {
    var n := NextOccupied(v, from);
    if n < |v| then next.pageId == pid && next.slot == n else next == END
  }

  lemma FoundOnPage(h: Heap, chain: seq<int32>, pos: nat, from: nat, next: RID)
    requires pos < |chain| && chain[pos] in h && chain[pos] != INVALID_PAGE_ID
    requires PageScan(h[chain[pos]], chain[pos], from, next)
    ensures Found(h, chain, pos, next, PlacesFrom(h, chain, pos, from))
  {
    hide NextOccupied, PagePlaces;
    var v := h[chain[pos]];
    PlacesSkip(v, chain[pos], from);
    PagePlacesStep(v, chain[pos], NextOccupied(v, from));
  }

  /** An occupied slot comes first among the places from it on. */
  lemma CurrentIsFirst(h: Heap, chain: seq<int32>, pos: nat, s: nat)
    requires pos < |chain| && chain[pos] in h && Occupied(h[chain[pos]], s)
    ensures PlacesFrom(h, chain, pos, s) == [Place(chain[pos], s)] + PlacesFrom(h, chain, pos, s + 1)
  {
  }

  class TableIterator {
    const heap: TableHeap
    const txn: Transaction
    var rid: RID
    var tuple: seq<byte>
    ghost var pos: nat

    ghost predicate Valid()
      reads this, heap
    {
      && heap.Valid()
      && (rid != END ==>
            && pos < |heap.chain| && rid.pageId == heap.chain[pos] && rid.pageId in heap.store
            && Occupied(HeapOf(heap.store)[rid.pageId], rid.slot))
    }

    /** The places the iterator has still to visit, the current one first. */
    ghost function Remaining(): seq<Place>
      requires Valid()
      reads this, heap
    {
      if rid == END then [] else PlacesFrom(HeapOf(heap.store), heap.chain, pos, rid.slot)
    }

    /** What the iterator shows at its place: a marked tuple leaves the previous bytes. */
    ghost function Shown(before: seq<byte>): seq<byte>
      requires Valid()
      reads this, heap
    {
      if rid != END && Live(HeapOf(heap.store)[rid.pageId], rid.slot)
      then HeapOf(heap.store)[rid.pageId][rid.slot].data else before
    }

    constructor (heap: TableHeap, txn: Transaction, rid: RID, ghost pos: nat)
      requires heap.Valid()
      requires rid != END ==>
                 && pos < |heap.chain| && rid.pageId == heap.chain[pos] && rid.pageId in heap.store
                 && Occupied(HeapOf(heap.store)[rid.pageId], rid.slot)
      modifies txn
      ensures this.heap == heap && this.txn == txn && this.rid == rid && this.pos == pos
      ensures Valid() && tuple == Shown([])
      ensures txn.state == old(txn.state) && txn.writeSet == old(txn.writeSet)
    {
      hide Inv, View, ChainOk, PagesOk, NextOccupied;
      this.heap, this.txn, this.rid, this.pos := heap, txn, rid, pos;
      tuple := [];
      new;
      Load();
    }

    method Load()
      requires Valid()
      modifies this`tuple, txn
      ensures tuple == Shown(old(tuple))
      ensures txn.state == old(txn.state) && txn.writeSet == old(txn.writeSet)
    {
      hide Inv, View, ChainOk, PagesOk;
      if rid != END {
        var ok, bytes := heap.GetTuple(rid, txn, true);
        if ok {
          tuple := bytes;
        }
      }
    }

    /** `++` drops the current place from those to visit and moves to the next. */
    method Next()
      requires Valid() && rid != END
      modifies this, txn
      ensures Valid() && old(Remaining()) != [] && Remaining() == old(Remaining())[1..]
      ensures rid == END <==> Remaining() == []
      ensures rid != END ==> Remaining()[0] == Place(rid.pageId, rid.slot)
      ensures tuple == Shown(old(tuple))
      ensures txn.state == old(txn.state) && txn.writeSet == old(txn.writeSet)
    {
      hide Inv, View, PlacesFrom, ReadU32, ReadI32, ChainOk, PagesOk;
      ghost var h, c := HeapOf(heap.store), heap.chain;
      CurrentIsFirst(h, c, pos, rid.slot);
      rid, pos := FindNext();
      if rid != END {
        CurrentIsFirst(h, c, pos, rid.slot);
      }
      Load();
    }

    /** The search along the chain for the slot after the current one. */
    method FindNext() returns (next: RID, ghost p: nat)
      requires Valid() && rid != END
      ensures var rest := PlacesFrom(HeapOf(heap.store), heap.chain, pos, rid.slot + 1);
              Found(HeapOf(heap.store), heap.chain, p, next, rest) && (next == END ==> rest == [])
    {
      hide Inv, View, PlacesFrom, ReadU32, ReadI32, Linked, Found, NextOccupied;
      ghost var h, c := HeapOf(heap.store), heap.chain;
      ghost var rest := PlacesFrom(h, c, pos, rid.slot + 1);
      p := pos;
      var cur := rid.pageId;
      LinkAt(heap.store, heap.firstPageId, c, p);
      next := ScanPage(cur, rid.slot + 1);
      FoundOnPage(h, c, p, rid.slot + 1, next);
      while next == END && NextId(heap.store[cur]) != INVALID_PAGE_ID
        invariant p < |c| && cur == c[p] && cur in heap.store
        invariant Found(h, c, p, next, rest)
        decreases |c| - p
      {
        LinkAt(heap.store, heap.firstPageId, c, p);
        FoundNothing(h, c, p, rest);
        cur, p := NextId(heap.store[cur]), p + 1;
        LinkAt(heap.store, heap.firstPageId, c, p);
        next := ScanPage(cur, 0);
        FoundOnPage(h, c, p, 0, next);
      }
      LinkAt(heap.store, heap.firstPageId, c, p);
      if next == END {
        FoundNothing(h, c, p, rest);
        NoPlacesPast(h, c);
      }
    }

    /** `GetNextTupleRid` after slot `from - 1`; `GetFirstTupleRid` for `from == 0`. */
    method ScanPage(pid: int32, from: nat) returns (next: RID)
      requires heap.Valid() && pid in heap.store
      ensures PageScan(HeapOf(heap.store)[pid], pid, from, next)
    {
      hide Inv, View, ReadU32, ReadI32, Linked, NextOccupied;
      ChainIds(heap.store, heap.firstPageId, heap.chain, pid);
      var page := new TablePage(heap.store[pid]);
      var _, found := page.ScanFrom(from);
      next := found;
    }
  }

  lemma FoundNothing(h: Heap, chain: seq<int32>, pos: nat, rest: seq<Place>)
    requires Found(h, chain, pos, END, rest)
    ensures rest == PlacesFrom(h, chain, pos + 1, 0)
  {
    hide PlacesFrom;
  }

  lemma NoPlacesPast(h: Heap, chain: seq<int32>)
    ensures PlacesFrom(h, chain, |chain|, 0) == []
  {
  }

  // ---------- a whole scan ----------

  /** Starts at the first tuple of the first page, and at the end if that page has none. */
  method Begin(heap: TableHeap, txn: Transaction) returns (it: TableIterator)
    requires heap.Valid()
    modifies txn
    ensures fresh(it) && it.heap == heap && it.txn == txn && it.Valid() && it.tuple == it.Shown([])
    ensures heap.firstPageId in heap.store
    ensures var h := HeapOf(heap.store);
            it.Remaining() == if SeenByBegin(h, heap.firstPageId) then PlacesFrom(h, heap.chain, 0, 0) else []
    ensures it.rid == END <==> it.Remaining() == []
    ensures it.rid != END ==> it.Remaining()[0] == Place(it.rid.pageId, it.rid.slot)
    ensures txn.state == old(txn.state) && txn.writeSet == old(txn.writeSet)
  {
    hide Inv, View, ReadU32, ReadI32, Linked, NextOccupied, PlacesFrom;
    ghost var h, c := HeapOf(heap.store), heap.chain;
    LinkAt(heap.store, heap.firstPageId, c, 0);
    ChainIds(heap.store, heap.firstPageId, c, heap.firstPageId);
    var page := new TablePage(heap.store[heap.firstPageId]);
    var _, rid := page.GetFirstTupleRid();
    FoundOnPage(h, c, 0, 0, rid);
    SeenIsOccupied(h, heap.firstPageId);
    if rid != END {
      CurrentIsFirst(h, c, 0, rid.slot);
    }
    it := new TableIterator(heap, txn, rid, 0);
  }

  ghost predicate SeenByBegin(h: Heap, first: int32) {
    first in h && exists s: nat :: Occupied(h[first], s)
  }

  lemma SeenIsOccupied(h: Heap, first: int32)
    requires first in h
    ensures SeenByBegin(h, first) <==> NextOccupied(h[first], 0) < |h[first]|
  {
    var n := NextOccupied(h[first], 0);
    assert n < |h[first]| ==> Occupied(h[first], n);
  }

  /** The bytes shown at each place: its own if the tuple is live, the ones before if not. */
  ghost function ShownAt(h: Heap, places: seq<Place>, k: nat): seq<byte>
    requires k < |places|
  {
    var p := places[k];
    if p.pageId in h && Live(h[p.pageId], p.slot) then h[p.pageId][p.slot].data
    else if k == 0 then [] else ShownAt(h, places, k - 1)
  }

  /** The scan has listed the first of the places `all`, with the bytes shown there. */
  ghost predicate Listed(h: Heap, all: seq<Place>, rids: seq<RID>, tuples: seq<seq<byte>>) {
    && |tuples| == |rids| <= |all|
    && (forall k :: 0 <= k < |rids| ==> IsAt(rids[k], all[k]))
    && forall k :: 0 <= k < |rids| ==> tuples[k] == ShownAt(h, all, k)
  }

  ghost predicate IsAt(rid: RID, p: Place) {
    rid.pageId == p.pageId && rid.slot == p.slot
  }

  lemma ListedNext(h: Heap, all: seq<Place>, rids: seq<RID>, tuples: seq<seq<byte>>, rid: RID, tuple: seq<byte>)
    requires Listed(h, all, rids, tuples) && |rids| < |all|
    requires IsAt(rid, all[|rids|]) && tuple == ShownAt(h, all, |rids|)
    ensures Listed(h, all, rids + [rid], tuples + [tuple])
  {
    hide IsAt, ShownAt;
  }

  ghost predicate Visited(rids: seq<RID>, p: Place) {
    exists k :: 0 <= k < |rids| && IsAt(rids[k], p)
  }

  /** A scan visits every occupied slot exactly once in chain order if the first page holds
      a tuple, and nothing at all if it does not. So it misses a tuple exactly when the
      first page holds none and another page does. */
  method Scan(heap: TableHeap, txn: Transaction) returns (rids: seq<RID>, tuples: seq<seq<byte>>)
    requires heap.Valid()
    modifies txn
    ensures var h := HeapOf(heap.store);
            var all := if SeenByBegin(h, heap.firstPageId) then PlacesFrom(h, heap.chain, 0, 0) else [];
            |rids| == |all| && Listed(h, all, rids, tuples)
    ensures var h := HeapOf(heap.store);
            (forall p :: IsPlace(h, p) ==> Visited(rids, p)) <==>
            (SeenByBegin(h, heap.firstPageId) || forall p :: !IsPlace(h, p))
  {
    hide Inv, View, PlacesFrom, ChainOk, SeenByBegin, PagesOk, HeapOf, Listed, ShownAt;
    var it := Begin(heap, txn);
    rids, tuples := [], [];
    ghost var h, all := HeapOf(heap.store), it.Remaining();
    ListedNone(h, all);
    FirstShown(h, all, it);
    while it.rid != END
      invariant it.heap == heap && it.txn == txn && it.Valid()
      invariant Listed(h, all, rids, tuples) && |rids| <= |all| && it.Remaining() == all[|rids|..]
      invariant it.rid == END <==> |rids| == |all|
      invariant it.rid != END ==> IsAt(it.rid, all[|rids|]) && it.tuple == ShownAt(h, all, |rids|)
      decreases |all| - |rids|
    {
      ListedNext(h, all, rids, tuples, it.rid, it.tuple);
      rids, tuples := rids + [it.rid], tuples + [it.tuple];
      ghost var before := it.tuple;
      it.Next();
      assert it.Remaining() == all[|rids|..];
      NextShown(h, all, |rids|, it, before);
    }
    ScanIsWholeIff(heap.store, heap.firstPageId, heap.chain, all, rids, tuples);
  }

  lemma ListedNone(h: Heap, all: seq<Place>)
    ensures Listed(h, all, [], [])
  {
  }

  lemma FirstShown(h: Heap, all: seq<Place>, it: TableIterator)
    requires it.Valid() && h == HeapOf(it.heap.store) && it.tuple == it.Shown([])
    requires it.rid != END ==> all != [] && IsAt(it.rid, all[0])
    ensures it.rid != END ==> it.tuple == ShownAt(h, all, 0)
  {
    hide Inv, View, ChainOk, PagesOk;
  }

  lemma NextShown(h: Heap, all: seq<Place>, k: nat, it: TableIterator, before: seq<byte>)
    requires it.Valid() && h == HeapOf(it.heap.store) && it.tuple == it.Shown(before)
    requires 0 < k <= |all| && before == ShownAt(h, all, k - 1)
    requires it.rid != END ==> k < |all| && IsAt(it.rid, all[k])
    ensures it.rid != END ==> it.tuple == ShownAt(h, all, k)
  {
    hide Inv, View, ChainOk, PagesOk;
  }

  /** What a finished scan has missed. */
  lemma ScanIsWholeIff(store: Store, first: int32, chain: seq<int32>, all: seq<Place>, rids: seq<RID>,
                       tuples: seq<seq<byte>>)
    requires ChainOk(store, first, chain) && PagesOk(store)
    requires var h := HeapOf(store); all == if SeenByBegin(h, first) then PlacesFrom(h, chain, 0, 0) else []
    requires |rids| == |all| && Listed(HeapOf(store), all, rids, tuples)
    ensures var h := HeapOf(store);
            (forall p :: IsPlace(h, p) ==> Visited(rids, p)) <==> (SeenByBegin(h, first) || forall p :: !IsPlace(h, p))
  {
    hide Inv, View, PlacesFrom, ChainOk, PagesOk, HeapOf, SeenByBegin, ShownAt;
    var h := HeapOf(store);
    WholeHeap(store, first, chain);
    if SeenByBegin(h, first) {
      forall p | IsPlace(h, p)
        ensures Visited(rids, p)
      {
        var k :| 0 <= k < |all| && all[k] == p;
        assert IsAt(rids[k], p);
      }
    }
  }

  /** A tuple of 4000 bytes fits an empty page, but not beside another. */
  lemma BigInsert(a: int32, t: seq<byte>)
    requires |t| == 4000
    ensures FirstFit(map[a := []], [a], t) == 0 && FirstFit(map[a := [Tuple(t, false)]], [a], t) == 1
  {
    var v := [Tuple(t, false)];
    assert v[..0] == [];
    assert Used(v) == 4000;
    assert CanInsert([], t) && !CanInsert(v, t);
  }

  lemma BigPlaced(a: int32, b: int32, t: seq<byte>, newPage: Option<int32>, k: Heap, longer: seq<int32>, rid: RID)
    requires |t| == 4000 && a != b
    ensures Placed(map[a := []], [a], t, newPage, k, longer, rid) ==> k == map[a := [Tuple(t, false)]] && longer == [a]
    ensures Placed(map[a := [Tuple(t, false)]], [a], t, Some(b), k, longer, rid) ==>
              k == map[a := [Tuple(t, false)], b := [Tuple(t, false)]] && longer == [a, b]
  {
    hide FirstFit, CanInsert;
    BigInsert(a, t);
    assert Inserted([], t) == [Tuple(t, false)];
  }

  /** Two inserts and one delete make a heap whose first page is empty again. */
  method TwoPageHeap(a: int32, b: int32, t: seq<byte>, txn: Transaction) returns (heap: TableHeap)
    requires a != b && a != INVALID_PAGE_ID && b != INVALID_PAGE_ID && |t| == 4000
    modifies txn
    ensures fresh(heap) && heap.Valid() && heap.chain == [a, b] && heap.firstPageId == a
    ensures HeapOf(heap.store) == map[a := [Empty], b := [Tuple(t, false)]]
  {
    hide Inv, View, ChainOk, FirstFit, Placed, HeapOf, PagesOk;
    heap := new TableHeap(a);
    BigInsert(a, t);
    var ok, rid := heap.InsertTuple(t, txn, true, []);
    BigPlaced(a, b, t, None, HeapOf(heap.store), heap.chain, rid);
    SameKeys(heap.store);
    ok, rid := heap.InsertTuple(t, txn, true, [b]);
    BigPlaced(a, b, t, None, HeapOf(heap.store), heap.chain, rid);
    SameKeys(heap.store);
    ok := heap.ApplyDelete(RID(a, 0));
    assert [Tuple(t, false)][0 := Empty] == [Empty];
  }

  /** On that heap a scan returns nothing, although page `b` holds a tuple. */
  method ScanMissesTuple(a: int32, b: int32, t: seq<byte>) returns (heap: TableHeap, rids: seq<RID>)
    requires a != b && a != INVALID_PAGE_ID && b != INVALID_PAGE_ID && |t| == 4000
    ensures fresh(heap) && heap.Valid() && rids == [] && IsPlace(HeapOf(heap.store), Place(b, 0))
  {
    hide Inv, View, ChainOk, PlacesFrom, HeapOf, PagesOk;
    var txn := new Transaction();
    heap := TwoPageHeap(a, b, t, txn);
    var tuples;
    rids, tuples := Scan(heap, txn);
  }
}
