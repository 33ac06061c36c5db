/** Transactions over one table heap: the commit and abort walks over the write set, and
    what they leave behind any transaction that runs alone. */
module TransactionRuns {
  import opened Bytes
  import opened SlotMap
  import opened TablePageModel
  import opened Rollback
  import opened TableHeapModel

  /** Undoes one entry of the write set; fails where a page operation asserts. */
  method UndoEntry(heap: TableHeap, txn: Transaction, item: WriteRecord) returns (ok: bool)
    requires heap.Valid() && txn.state == ABORTED && item.rid.pageId in heap.store
    modifies heap, txn
    ensures heap.Valid() && heap.chain == old(heap.chain) && heap.store.Keys == old(heap.store.Keys)
    ensures ok == EntryOk(old(HeapOf(heap.store)), item)
    ensures ok ==> HeapOf(heap.store) == Undone(old(HeapOf(heap.store)), item)
    ensures txn.state == ABORTED && txn.writeSet == old(txn.writeSet)
  {
    hide Inv, View, ChainOk;
    SameKeys(heap.store);
    match item.wtype {
      case DELETE => ok := heap.RollbackDelete(item.rid);
      case INSERT => ok := heap.ApplyDelete(item.rid);
      case UPDATE =>
        ok := item.tuple != [];
        if ok {
          var _ := heap.UpdateTuple(item.tuple, item.rid, txn, true);
        }
    }
    SameKeys(heap.store);
  }

  /** Every entry names a page of the heap. */
  ghost predicate OnPages(store: Store, ws: seq<WriteRecord>) {
    forall i :: 0 <= i < |ws| ==> ws[i].rid.pageId in store
  }

  /** The reverse walk over the write set. It ends because an aborting transaction's
      updates add no records, and stops early exactly where a page operation asserts. */
  method Abort(heap: TableHeap, txn: Transaction) returns (ok: bool)
    requires heap.Valid() && OnPages(heap.store, txn.writeSet)
    modifies heap, txn
    ensures heap.Valid() && heap.chain == old(heap.chain) && txn.state == ABORTED
    ensures ok == WalkOk(old(HeapOf(heap.store)), old(txn.writeSet))
    ensures ok ==> HeapOf(heap.store) == RolledBack(old(HeapOf(heap.store)), old(txn.writeSet)) && txn.writeSet == []
  {
    hide Inv, View, ChainOk, EntryOk, Undone, PagesOk, HeapOf;
    txn.state := ABORTED;
    ok := true;
    while txn.writeSet != [] && ok
      invariant heap.Valid() && heap.chain == old(heap.chain) && txn.state == ABORTED
      invariant OnPages(heap.store, txn.writeSet)
      invariant WalkOk(old(HeapOf(heap.store)), old(txn.writeSet)) ==
                (ok && WalkOk(HeapOf(heap.store), txn.writeSet))
      invariant ok ==> RolledBack(HeapOf(heap.store), txn.writeSet) ==
                       RolledBack(old(HeapOf(heap.store)), old(txn.writeSet))
      decreases |txn.writeSet|
    {
      ok := UndoEntry(heap, txn, txn.writeSet[|txn.writeSet| - 1]);
      txn.writeSet := txn.writeSet[..|txn.writeSet| - 1];
    }
  }

  // ---------- commit ----------

  /** What a committed delete leaves of a heap. */
  function Freed(h: Heap, r: WriteRecord): Heap {
    var pid, s := r.rid.pageId, r.rid.slot;
    if r.wtype.DELETE? && pid in h && Occupied(h[pid], s) then h[pid := h[pid][s := Empty]] else h
  }

  function AllFreed(h: Heap, ws: seq<WriteRecord>): Heap {
    if ws == [] then h else AllFreed(Freed(h, ws[|ws| - 1]), ws[..|ws| - 1])
  }

  ghost predicate Holds(h: Heap, rid: RID) {
    SlotOf(h, rid.pageId, rid.slot).Tuple?
  }

  /** Every apply-delete of the walk finds a tuple, as the page asserts. */
  ghost predicate CommitOk(h: Heap, ws: seq<WriteRecord>) {
    ws == [] ||
    ((ws[|ws| - 1].wtype.DELETE? ==> Holds(h, ws[|ws| - 1].rid))
     && CommitOk(Freed(h, ws[|ws| - 1]), ws[..|ws| - 1]))
  }

  /** No slot is recorded as deleted twice, and every one recorded holds a tuple. */
  ghost predicate DeletesDefined(h: Heap, ws: seq<WriteRecord>) {
    && (forall i, j :: 0 <= i < j < |ws| && ws[i].wtype.DELETE? && ws[j].wtype.DELETE? ==> ws[i].rid != ws[j].rid)
    && forall i :: 0 <= i < |ws| && ws[i].wtype.DELETE? ==> Holds(h, ws[i].rid)
  }

  lemma FreedHolds(h: Heap, r: WriteRecord, rid: RID)
    ensures Holds(Freed(h, r), rid) <==> Holds(h, rid) && !(r.wtype.DELETE? && r.rid == rid)
  {
  }

  /** A commit meets no failed assertion exactly when no slot is recorded as deleted twice
      and every one recorded holds a tuple at the end. */
  lemma {:induction false} CommitDefinedIff(h: Heap, ws: seq<WriteRecord>)
    ensures CommitOk(h, ws) <==> DeletesDefined(h, ws)
    decreases |ws|
  {
    hide Holds, Freed;
    if ws != [] {
      var r, rest := ws[|ws| - 1], ws[..|ws| - 1];
      CommitDefinedIff(Freed(h, r), rest);
      forall i | 0 <= i < |rest|
        ensures Holds(Freed(h, r), rest[i].rid) <==> Holds(h, ws[i].rid) && !(r.wtype.DELETE? && r.rid == ws[i].rid)
      {
        FreedHolds(h, r, rest[i].rid);
      }
    }
  }

  /** The write set names slot `s` of page `pid` as deleted. */
  ghost predicate Deleted(ws: seq<WriteRecord>, pid: int32, s: nat) {
    exists i :: 0 <= i < |ws| && ws[i].wtype.DELETE? && ws[i].rid.pageId == pid && ws[i].rid.slot == s
  }

  /** The commit's walk frees the slots the write set names as deleted and nothing else. */
  lemma {:induction false} CommitFrees(h: Heap, ws: seq<WriteRecord>, pid: int32, s: nat)
    ensures SlotOf(AllFreed(h, ws), pid, s) == if Deleted(ws, pid, s) then Empty else SlotOf(h, pid, s)
    decreases |ws|
  {
    if ws != [] {
      var r, rest := ws[|ws| - 1], ws[..|ws| - 1];
      CommitFrees(Freed(h, r), rest, pid, s);
      assert Deleted(ws, pid, s) <==>
        (Deleted(rest, pid, s) || (r.wtype.DELETE? && r.rid.pageId == pid && r.rid.slot == s)) by {
        assert forall i :: 0 <= i < |rest| ==> rest[i] == ws[i];
      }
    }
  }

  /** Applies one entry of the write set; fails where the page asserts. */
  method CommitEntry(heap: TableHeap, item: WriteRecord) returns (ok: bool)
    requires heap.Valid() && item.rid.pageId in heap.store
    modifies heap
    ensures heap.Valid() && heap.chain == old(heap.chain) && heap.store.Keys == old(heap.store.Keys)
    ensures ok == (item.wtype.DELETE? ==> Holds(old(HeapOf(heap.store)), item.rid))
    ensures ok ==> HeapOf(heap.store) == Freed(old(HeapOf(heap.store)), item)
  {
    hide Inv, View, ChainOk, PagesOk, HeapOf;
    SameKeys(heap.store);
    ok := true;
    if item.wtype == DELETE {
      ok := heap.ApplyDelete(item.rid);
    }
    SameKeys(heap.store);
  }

  /** The commit's walk over the write set: deletes are applied, newest first. */
  method Commit(heap: TableHeap, txn: Transaction) returns (ok: bool)
    requires heap.Valid() && OnPages(heap.store, txn.writeSet)
    modifies heap, txn
    ensures heap.Valid() && heap.chain == old(heap.chain) && txn.state == COMMITTED
    ensures ok == CommitOk(old(HeapOf(heap.store)), old(txn.writeSet))
    ensures ok ==> HeapOf(heap.store) == AllFreed(old(HeapOf(heap.store)), old(txn.writeSet)) && txn.writeSet == []
  {
    hide Inv, View, ChainOk, PagesOk, HeapOf, Holds, Freed;
    txn.state := COMMITTED;
    ok := true;
    while txn.writeSet != [] && ok
      invariant heap.Valid() && heap.chain == old(heap.chain) && txn.state == COMMITTED
      invariant OnPages(heap.store, txn.writeSet)
      invariant CommitOk(old(HeapOf(heap.store)), old(txn.writeSet)) ==
                (ok && CommitOk(HeapOf(heap.store), txn.writeSet))
      invariant ok ==> AllFreed(HeapOf(heap.store), txn.writeSet) ==
                       AllFreed(old(HeapOf(heap.store)), old(txn.writeSet))
      decreases |txn.writeSet|
    {
      ok := CommitEntry(heap, txn.writeSet[|txn.writeSet| - 1]);
      txn.writeSet := txn.writeSet[..|txn.writeSet| - 1];
    }
  }

  // ---------- commit of a transaction that runs alone ----------

  predicate Deletes(step: Step) {
    step.Wrote? && step.record.wtype.DELETE?
  }

  ghost predicate Pending(h: Heap, rid: RID) {
    Marked(SlotOf(h, rid.pageId, rid.slot))
  }

  /** No slot is deleted twice, and every deleted tuple is still there, marked. */
  ghost predicate DeletesPending(h: Heap, steps: seq<Step>, n: nat)
    requires n <= |steps|
  {
    && (forall i, j :: 0 <= i < j < n && Deletes(steps[i]) && Deletes(steps[j]) ==>
          steps[i].record.rid != steps[j].record.rid)
    && forall i :: 0 <= i < n && Deletes(steps[i]) ==> Pending(h, steps[i].record.rid)
  }

  /** A step of a transaction that runs alone touches none of its deleted tuples. */
  lemma StepKeepsPending(h: Heap, steps: seq<Step>, n: nat)
    requires n < |steps| && DeletesPending(h, steps, n) && CanStep(h, steps[n])
    ensures DeletesPending(AfterStep(h, steps[n]), steps, n + 1)
  {
    var step, k := steps[n], AfterStep(h, steps[n]);
    forall i | 0 <= i < n && Deletes(steps[i])
      ensures Pending(k, steps[i].record.rid) && (Deletes(step) ==> step.record.rid != steps[i].record.rid)
    {
      assert Pending(h, steps[i].record.rid);
    }
  }

  lemma {:induction false} RunKeepsPending(heaps: seq<Heap>, steps: seq<Step>, n: nat)
    requires Ran(heaps, steps) && n <= |steps|
    ensures DeletesPending(heaps[n], steps, n)
    decreases n
  {
    hide DeletesPending, CanStep, AfterStep;
    if n == 0 {
      NothingPending(heaps[0], steps);
    } else {
      RunKeepsPending(heaps, steps, n - 1);
      StepKeepsPending(heaps[n - 1], steps, n - 1);
    }
  }

  lemma NothingPending(h: Heap, steps: seq<Step>)
    ensures DeletesPending(h, steps, 0)
  {
  }

  /** The step behind entry `a` of the write set. */
  ghost function Origin(steps: seq<Step>, a: nat): (i: nat)
    requires a < |WriteSet(steps)|
    ensures i < |steps| && !steps[i].AddedPage? && steps[i].record == WriteSet(steps)[a]
  {
    var init := steps[..|steps| - 1];
    if a < |WriteSet(init)| then Origin(init, a) else |steps| - 1
  }

  lemma {:induction false} OriginGrows(steps: seq<Step>, a: nat, b: nat)
    requires a < b < |WriteSet(steps)|
    ensures Origin(steps, a) < Origin(steps, b)
    decreases |steps|
  {
    var init := steps[..|steps| - 1];
    if b < |WriteSet(init)| {
      OriginGrows(init, a, b);
    }
  }

  /** Every step that leaves a record is behind one entry. */
  lemma {:induction false} EntryOf(steps: seq<Step>, i: nat) returns (a: nat)
    requires i < |steps| && !steps[i].AddedPage?
    ensures a < |WriteSet(steps)| && Origin(steps, a) == i
    decreases |steps|
  {
    var init := steps[..|steps| - 1];
    if i < |steps| - 1 {
      a := EntryOf(init, i);
    } else {
      a := |WriteSet(init)|;
    }
  }

  ghost predicate DeletedBy(steps: seq<Step>, pid: int32, s: nat) {
    exists i :: 0 <= i < |steps| && Deletes(steps[i])
                && steps[i].record.rid.pageId == pid && steps[i].record.rid.slot == s
  }

  /** The commit is defined and frees the slots the transaction deleted, and only those. */
  ghost predicate CommitsItsDeletes(h: Heap, steps: seq<Step>) {
    && CommitOk(h, WriteSet(steps))
    && forall pid: int32, s: nat :: Deleted(WriteSet(steps), pid, s) <==> DeletedBy(steps, pid, s)
  }

  ghost predicate NoneRefused(steps: seq<Step>) {
    forall i :: 0 <= i < |steps| ==> !steps[i].Refused?
  }

  /** A transaction alone commits its deletes and nothing else exactly when none was refused. */
  lemma CommitSoundIff(heaps: seq<Heap>, steps: seq<Step>)
    requires Ran(heaps, steps)
    ensures CommitsItsDeletes(heaps[|steps|], steps) <==> NoneRefused(steps)
  {
    hide CanStep, AfterStep, CommitOk, WriteSet;
    var h, ws := heaps[|steps|], WriteSet(steps);
    CommitDefinedIff(h, ws);
    if NoneRefused(steps) {
      NoneRefusedCommits(heaps, steps);
    } else if CommitsItsDeletes(h, steps) {
      var i :| 0 <= i < |steps| && steps[i].Refused?;
      RefusedSpoils(heaps, steps, i);
    }
  }

  lemma NoneRefusedCommits(heaps: seq<Heap>, steps: seq<Step>)
    requires Ran(heaps, steps) && NoneRefused(steps)
    ensures DeletesDefined(heaps[|steps|], WriteSet(steps))
    ensures forall pid: int32, s: nat :: Deleted(WriteSet(steps), pid, s) <==> DeletedBy(steps, pid, s)
  {
    hide Ran, WriteSet, Origin;
    EndPending(heaps, steps);
    var h, ws := heaps[|steps|], WriteSet(steps);
    forall a, b | 0 <= a < b < |ws| && ws[a].wtype.DELETE? && ws[b].wtype.DELETE?
      ensures ws[a].rid != ws[b].rid
    {
      OriginGrows(steps, a, b);
      assert steps[Origin(steps, a)].record == ws[a] && steps[Origin(steps, b)].record == ws[b];
    }
    forall a | 0 <= a < |ws| && ws[a].wtype.DELETE?
      ensures Holds(h, ws[a].rid) && Deletes(steps[Origin(steps, a)])
    {
      assert steps[Origin(steps, a)].record == ws[a];
    }
    forall i | 0 <= i < |steps| && Deletes(steps[i])
      ensures Deleted(ws, steps[i].record.rid.pageId, steps[i].record.rid.slot)
    {
      var a := EntryOf(steps, i);
      assert ws[a] == steps[i].record;
    }
  }

  lemma EndPending(heaps: seq<Heap>, steps: seq<Step>)
    requires Ran(heaps, steps)
    ensures |heaps| == |steps| + 1 && DeletesPending(heaps[|steps|], steps, |steps|)
  {
    RunKeepsPending(heaps, steps, |steps|);
  }

  lemma RefusedSpoils(heaps: seq<Heap>, steps: seq<Step>, i: nat)
    requires Ran(heaps, steps) && i < |steps| && steps[i].Refused?
    requires forall pid: int32, s: nat :: Deleted(WriteSet(steps), pid, s) <==> DeletedBy(steps, pid, s)
    ensures !DeletesDefined(heaps[|steps|], WriteSet(steps))
  {
    hide WriteSet, Origin;
    assert CanStep(heaps[i], steps[i]);
    hide CanStep, AfterStep;
    var ws, rid := WriteSet(steps), steps[i].record.rid;
    var a := EntryOf(steps, i);
    assert ws[a] == steps[i].record;
    assert Deleted(ws, rid.pageId, rid.slot);
    assert DeletedBy(steps, rid.pageId, rid.slot);
    var j :| 0 <= j < |steps| && Deletes(steps[j])
             && steps[j].record.rid.pageId == rid.pageId && steps[j].record.rid.slot == rid.slot;
    var b := EntryOf(steps, j);
    assert ws[b] == steps[j].record && a != b;
  }

  /** Deleting one tuple twice leaves two records; the commit's second apply-delete finds the
      slot empty and fails. */
  lemma CommitFailsOnSecondDelete(t: seq<byte>) returns (heaps: seq<Heap>, steps: seq<Step>)
    ensures Ran(heaps, steps) && |steps| == 2 && Deletes(steps[0]) && steps[1] == Refused(steps[0].record)
    ensures SlotOf(heaps[0], 0, 0) == Tuple(t, false) && !CommitOk(heaps[2], WriteSet(steps))
  {
    var h: Heap, k: Heap := map[0 := [Tuple(t, false)]], map[0 := [Tuple(t, true)]];
    var r := WriteRecord(RID(0, 0), DELETE, []);
    var w := Wrote(r, []);
    assert [Tuple(t, false)][0 := Tuple(t, true)] == [Tuple(t, true)];
    assert AfterStep(h, w) == k;
    heaps, steps := [h, k, k], [w, Refused(r)];
    TwoRecords(w, Refused(r));
    CommitDefinedIff(k, [r, r]);
    assert [r, r][0].rid == [r, r][1].rid;
  }

  lemma TwoRecords(a: Step, b: Step)
    requires !a.AddedPage? && !b.AddedPage?
    ensures WriteSet([a, b]) == [a.record, b.record]
  {
    assert [a, b][..1] == [a] && [a][..0] == [];
    assert WriteSet([a]) == [a.record];
  }

  lemma FirstInsert(t: seq<byte>)
    requires 0 < |t| && CanInsert([], t)
    ensures var w := Wrote(InsertRecord(RID(0, 0)), t);
            CanStep(Page0([]), w) && AfterStep(Page0([]), w) == Page0([Tuple(t, false)])
  {
    assert Inserted([], t) == [Tuple(t, false)];
  }

  /** A refused delete of a slot that an insert then takes: the commit frees the new tuple. */
  lemma CommitDropsOwnInsert(t: seq<byte>) returns (heaps: seq<Heap>, steps: seq<Step>)
    requires 0 < |t| && CanInsert([], t)
    ensures Ran(heaps, steps) && SlotOf(heaps[|steps|], 0, 0) == Tuple(t, false)
    ensures CommitOk(heaps[|steps|], WriteSet(steps)) && !DeletedBy(steps, 0, 0)
    ensures SlotOf(AllFreed(heaps[|steps|], WriteSet(steps)), 0, 0) == Empty
  {
    var h, k := Page0([]), Page0([Tuple(t, false)]);
    var d, r := WriteRecord(RID(0, 0), DELETE, []), InsertRecord(RID(0, 0));
    assert CanStep(h, Refused(d)) && AfterStep(h, Refused(d)) == h;
    FirstInsert(t);
    hide CanStep, AfterStep, WriteSet, CommitOk, AllFreed, CanInsert;
    heaps, steps := [h, h, k], [Refused(d), Wrote(r, t)];
    TwoRecords(steps[0], steps[1]);
    FreesFirstSlot(t, d, r);
  }

  lemma FreesFirstSlot(t: seq<byte>, d: WriteRecord, r: WriteRecord)
    requires d == WriteRecord(RID(0, 0), DELETE, []) && r == InsertRecord(RID(0, 0))
    ensures CommitOk(Page0([Tuple(t, false)]), [d, r])
    ensures SlotOf(AllFreed(Page0([Tuple(t, false)]), [d, r]), 0, 0) == Empty
  {
    hide CommitOk, AllFreed;
    var k, ws := Page0([Tuple(t, false)]), [d, r];
    CommitDefinedIff(k, ws);
    CommitFrees(k, ws, 0, 0);
    assert ws[0].wtype.DELETE?;
  }

  // ---------- any transaction that runs alone ----------

  /** A call of the transaction; `frame` and `newPages` are the buffer pool's answers. */
  datatype Call =
    | Insert(tuple: seq<byte>, frame: bool, newPages: seq<int32>)
    | Delete(rid: RID, frame: bool)
    | Update(tuple: seq<byte>, rid: RID, frame: bool)

  predicate CallOk(call: Call) {
    !call.Delete? ==> 0 < |call.tuple| < TWO_32
  }

  ghost predicate History(heaps: seq<Heap>, steps: seq<Step>, h: Heap, ws: seq<WriteRecord>) {
    Ran(heaps, steps) && heaps[|steps|] == h && WriteSet(steps) == ws
  }

  lemma HistoryNext(heaps: seq<Heap>, steps: seq<Step>, h: Heap, ws: seq<WriteRecord>, step: Step)
    requires History(heaps, steps, h, ws) && CanStep(h, step)
    ensures History(heaps + [AfterStep(h, step)], steps + [step], AfterStep(h, step),
                    ws + RecordOf(step))
  {
    hide CanStep, AfterStep;
    assert (steps + [step])[..|steps|] == steps;
  }

  // What a call does, on slot maps.

  /** The new pages the pool can give: none if these ids are taken or not distinct. */
  ghost function Usable(h: Heap, ids: seq<int32>): seq<int32> {
    if NewIds(h.Keys, ids) then ids else []
  }

  function AddSteps(ids: seq<int32>): (steps: seq<Step>)
    ensures |steps| == |ids|
  {
    seq(|ids|, i requires 0 <= i < |ids| => AddedPage(ids[i]))
  }

  ghost predicate Inserts(step: Step, pid: int32, t: seq<byte>) {
    step.Wrote? && step.tuple == t && step.record == InsertRecord(step.record.rid) && step.record.rid.pageId == pid
  }

  /** The call fails in a way that aborts the transaction. */
  ghost predicate Aborts(h: Heap, chain: seq<int32>, call: Call) {
    if call.Insert? then
      !PassesSizeGuard(call.tuple) || GuardWraps(call.tuple) || !call.frame ||
      (FirstFit(h, chain, call.tuple) == |chain| && Usable(h, call.newPages) == [])
    else !call.frame || call.rid.pageId !in h
  }

  /** The steps `done` are what the call does to heap `h`. A call that aborts does nothing, but
      for an insert that passes the guard: all new pages there are stay linked. */
  ghost predicate Performed(h: Heap, chain: seq<int32>, call: Call, done: seq<Step>) {
    if Aborts(h, chain, call) then
      done == if call.Insert? && call.frame && PassesSizeGuard(call.tuple)
              then AddSteps(Usable(h, call.newPages)) else []
    else
      match call
      case Insert(t, _, ids) =>
        var i := FirstFit(h, chain, t);
        if i < |chain| then |done| == 1 && Inserts(done[0], chain[i], t)
        else |done| == 2 && done[0] == AddedPage(ids[0]) && Inserts(done[1], ids[0], t)
      case Delete(rid, _) =>
        var r := WriteRecord(rid, DELETE, []);
        done == if Live(h[rid.pageId], rid.slot) then [Wrote(r, [])] else [Refused(r)]
      case Update(t, rid, _) =>
        done == if CanUpdate(h[rid.pageId], rid.slot, t)
                then [Wrote(WriteRecord(rid, UPDATE, h[rid.pageId][rid.slot].data), t)] else []
  }

  /** The pages the steps added to the chain. */
  ghost function AddedPages(steps: seq<Step>): seq<int32> {
    if steps == [] then []
    else
      AddedPages(steps[..|steps| - 1]) + if steps[|steps| - 1].AddedPage? then [steps[|steps| - 1].pid] else []
  }

  lemma {:induction false} AddedPagesSplit(a: seq<Step>, b: seq<Step>)
    ensures AddedPages(a + b) == AddedPages(a) + AddedPages(b)
    decreases |b|
  {
    if b == [] {
      assert a + b == a;
    } else {
      var init := b[..|b| - 1];
      assert (a + b)[..|a + b| - 1] == a + init;
      AddedPagesSplit(a, init);
    }
  }

  lemma FewAdded(a: Step, b: Step)
    ensures AddedPages([a]) == (if a.AddedPage? then [a.pid] else [])
    ensures AddedPages([a, b]) == AddedPages([a]) + AddedPages([b])
  {
    assert [a][..0] == [] && [b][..0] == [] && [a, b][..1] == [a];
  }

  /** One call: what it does to the bytes is what `Performed` says of the slot maps. */
  method RunCall(heap: TableHeap, txn: Transaction, call: Call, ghost heaps: seq<Heap>, ghost steps: seq<Step>)
      returns (ghost heaps': seq<Heap>, ghost done: seq<Step>)
    requires heap.Valid() && txn.state == GROWING && CallOk(call)
    requires History(heaps, steps, HeapOf(heap.store), txn.writeSet)
    modifies heap, txn
    ensures heap.Valid() && History(heaps', steps + done, HeapOf(heap.store), txn.writeSet) && heaps <= heaps'
    ensures heap.chain == old(heap.chain) + AddedPages(done)
    ensures Performed(old(HeapOf(heap.store)), old(heap.chain), call, done)
    ensures txn.state == if Aborts(old(HeapOf(heap.store)), old(heap.chain), call) then ABORTED else GROWING
  {
    hide Inv, View, ChainOk, CanStep, AfterStep, History, HeapOf, PagesOk, FirstFit, AddedPages, CanUpdate,
      PassesSizeGuard;
    match call
    case Insert(_, _, _) => heaps', done := RunInsert(heap, txn, call, heaps, steps);
    case Delete(rid, frame) => heaps', done := RunDelete(heap, txn, call, heaps, steps);
    case Update(_, _, _) => heaps', done := RunUpdate(heap, txn, call, heaps, steps);
  }

  method RunInsert(heap: TableHeap, txn: Transaction, call: Call, ghost heaps: seq<Heap>, ghost steps: seq<Step>)
      returns (ghost heaps': seq<Heap>, ghost done: seq<Step>)
    requires heap.Valid() && txn.state == GROWING && call.Insert? && CallOk(call)
    requires History(heaps, steps, HeapOf(heap.store), txn.writeSet)
    modifies heap, txn
    ensures heap.Valid() && History(heaps', steps + done, HeapOf(heap.store), txn.writeSet) && heaps <= heaps'
    ensures heap.chain == old(heap.chain) + AddedPages(done)
    ensures Performed(old(HeapOf(heap.store)), old(heap.chain), call, done)
    ensures txn.state == if Aborts(old(HeapOf(heap.store)), old(heap.chain), call) then ABORTED else GROWING
  {
    hide Inv, View, ChainOk, CanStep, AfterStep, History, HeapOf, PagesOk, FirstFit, AddedPages, PassesSizeGuard,
      NewIds, WithEmptyPages, AddSteps;
    ghost var h, c, ws := HeapOf(heap.store), heap.chain, txn.writeSet;
    var Insert(tuple, frame, newPages) := call;
    SameKeys(heap.store);
    var usable := UsableIds(heap, newPages);
    var ok, rid := heap.InsertTuple(tuple, txn, frame, usable);
    heaps', done := heaps, [];
    NothingDone(steps);
    if ok {
      ghost var w := Wrote(InsertRecord(rid), tuple);
      if FirstFit(h, c, tuple) == |c| {
        ghost var a := AddedPage(newPages[0]);
        ghost var g := AfterStep(h, a);
        HistoryNext(heaps, steps, h, ws, a);
        assert ws + [] == ws;
        HistoryNext(heaps + [g], steps + [a], g, ws, w);
        heaps', done := heaps + [g] + [AfterStep(g, w)], [a, w];
        assert steps + [a] + [w] == steps + done;
        FewAdded(a, w);
        FewAdded(w, w);
      } else {
        HistoryNext(heaps, steps, h, ws, w);
        heaps', done := heaps + [AfterStep(h, w)], [w];
        FewAdded(w, w);
      }
    } else if PassesSizeGuard(tuple) && frame {
      done := AddSteps(usable);
      heaps' := HistoryPages(heaps, steps, h, ws, usable);
      AddStepsAdd(usable);
    }
  }

  /** Gives back the ids, or none if the pool could not give these. */
  method UsableIds(heap: TableHeap, ids: seq<int32>) returns (usable: seq<int32>)
    requires heap.Valid()
    ensures usable == Usable(HeapOf(heap.store), ids) && NewIds(heap.store.Keys, usable)
  {
    hide Inv, View, ChainOk, PagesOk, HeapOf;
    SameKeys(heap.store);
    var i := 0;
    while i < |ids|
      invariant 0 <= i <= |ids|
      invariant forall k :: 0 <= k < i ==> ids[k] !in heap.store && ids[k] != INVALID_PAGE_ID
      invariant forall k, j :: 0 <= k < j < i ==> ids[k] != ids[j]
    {
      if ids[i] in heap.store || ids[i] == INVALID_PAGE_ID || ids[i] in ids[..i] {
        return [];
      }
      i := i + 1;
    }
    return ids;
  }

  lemma {:induction false} EmptyPageKeys(h: Heap, ids: seq<int32>)
    ensures WithEmptyPages(h, ids).Keys == h.Keys + set id | id in ids
    decreases |ids|
  {
    if ids != [] {
      var init, id := ids[..|ids| - 1], ids[|ids| - 1];
      EmptyPageKeys(h, init);
      assert ids == init + [id];
    }
  }

  /** Adding empty pages one by one. */
  lemma {:induction false} HistoryPages(heaps: seq<Heap>, steps: seq<Step>, h: Heap, ws: seq<WriteRecord>,
                                        ids: seq<int32>) returns (heaps': seq<Heap>)
    requires History(heaps, steps, h, ws) && NewIds(h.Keys, ids)
    ensures History(heaps', steps + AddSteps(ids), WithEmptyPages(h, ids), ws) && heaps <= heaps'
    decreases |ids|
  {
    hide History, AfterStep, CanStep, AddSteps;
    if ids == [] {
      heaps' := heaps;
      NoAddSteps(steps);
    } else {
      var init, id := ids[..|ids| - 1], ids[|ids| - 1];
      heaps' := HistoryPages(heaps, steps, h, ws, init);
      var k, a := WithEmptyPages(h, init), AddedPage(id);
      EmptyPageKeys(h, init);
      AddedEmpty(k, id);
      HistoryNext(heaps', steps + AddSteps(init), k, ws, a);
      heaps' := heaps' + [AfterStep(k, a)];
      MoreAddSteps(steps, ids);
      assert ws + [] == ws;
    }
  }

  lemma NoAddSteps(steps: seq<Step>)
    ensures steps + AddSteps([]) == steps
  {
  }

  lemma MoreAddSteps(steps: seq<Step>, ids: seq<int32>)
    requires ids != []
    ensures steps + AddSteps(ids[..|ids| - 1]) + [AddedPage(ids[|ids| - 1])] == steps + AddSteps(ids)
  {
  }

  lemma AddedEmpty(h: Heap, id: int32)
    requires id !in h
    ensures CanStep(h, AddedPage(id)) && AfterStep(h, AddedPage(id)) == h[id := []]
  {
  }

  lemma {:induction false} AddStepsAdd(ids: seq<int32>)
    ensures AddedPages(AddSteps(ids)) == ids
    decreases |ids|
  {
    if ids != [] {
      var init := ids[..|ids| - 1];
      AddStepsAdd(init);
      assert AddSteps(ids)[..|ids| - 1] == AddSteps(init);
    }
  }

  method RunDelete(heap: TableHeap, txn: Transaction, call: Call, ghost heaps: seq<Heap>, ghost steps: seq<Step>)
      returns (ghost heaps': seq<Heap>, ghost done: seq<Step>)
    requires heap.Valid() && txn.state == GROWING && call.Delete?
    requires History(heaps, steps, HeapOf(heap.store), txn.writeSet)
    modifies heap, txn
    ensures heap.Valid() && History(heaps', steps + done, HeapOf(heap.store), txn.writeSet) && heaps <= heaps'
    ensures heap.chain == old(heap.chain) + AddedPages(done)
    ensures Performed(old(HeapOf(heap.store)), old(heap.chain), call, done)
    ensures txn.state == if Aborts(old(HeapOf(heap.store)), old(heap.chain), call) then ABORTED else GROWING
  {
    hide Inv, View, ChainOk, History, HeapOf, PagesOk, AddedPages;
    ghost var h, ws := HeapOf(heap.store), txn.writeSet;
    var Delete(rid, frame) := call;
    SameKeys(heap.store);
    NothingDone(steps);
    var ok := heap.MarkDelete(rid, txn, frame && rid.pageId in heap.store);
    heaps', done := heaps, [];
    if ok {
      ghost var r := WriteRecord(rid, DELETE, []);
      ghost var w := if Live(h[rid.pageId], rid.slot) then Wrote(r, []) else Refused(r);
      HistoryNext(heaps, steps, h, ws, w);
      heaps', done := heaps + [AfterStep(h, w)], [w];
      FewAdded(w, w);
    }
  }

  method RunUpdate(heap: TableHeap, txn: Transaction, call: Call, ghost heaps: seq<Heap>, ghost steps: seq<Step>)
      returns (ghost heaps': seq<Heap>, ghost done: seq<Step>)
    requires heap.Valid() && txn.state == GROWING && call.Update? && CallOk(call)
    requires History(heaps, steps, HeapOf(heap.store), txn.writeSet)
    modifies heap, txn
    ensures heap.Valid() && History(heaps', steps + done, HeapOf(heap.store), txn.writeSet) && heaps <= heaps'
    ensures heap.chain == old(heap.chain) + AddedPages(done)
    ensures Performed(old(HeapOf(heap.store)), old(heap.chain), call, done)
    ensures txn.state == if Aborts(old(HeapOf(heap.store)), old(heap.chain), call) then ABORTED else GROWING
  {
    hide Inv, View, ChainOk, CanStep, AfterStep, History, HeapOf, PagesOk, AddedPages, CanUpdate;
    ghost var h, ws := HeapOf(heap.store), txn.writeSet;
    var Update(tuple, rid, frame) := call;
    SameKeys(heap.store);
    NothingDone(steps);
    var ok := heap.UpdateTuple(tuple, rid, txn, frame && rid.pageId in heap.store);
    heaps', done := heaps, [];
    if ok {
      ghost var w := Wrote(txn.writeSet[|ws|], tuple);
      HistoryNext(heaps, steps, h, ws, w);
      heaps', done := heaps + [AfterStep(h, w)], [w];
      FewAdded(w, w);
    }
  }

  lemma NothingDone(steps: seq<Step>)
    ensures steps + [] == steps && AddedPages([]) == []
  {
  }

  /** Call `j` of a run took the steps from `marks[j]` to `marks[j + 1]`. */
  ghost predicate CallAt(heaps: seq<Heap>, steps: seq<Step>, chain: seq<int32>, call: Call, a: nat, b: nat)
    requires |heaps| == |steps| + 1
  {
    a <= b <= |steps| && Performed(heaps[a], chain + AddedPages(steps[..a]), call, steps[a..b])
  }

  /** The steps are those of the first calls, one after the other. */
  ghost predicate Executed(heaps: seq<Heap>, steps: seq<Step>, chain: seq<int32>, calls: seq<Call>, marks: seq<nat>) {
    && |heaps| == |steps| + 1 && 1 <= |marks| <= |calls| + 1
    && marks[0] == 0 && marks[|marks| - 1] == |steps|
    && forall j :: 0 <= j < |marks| - 1 ==> CallAt(heaps, steps, chain, calls[j], marks[j], marks[j + 1])
  }

  /** Every call was made, or the last one made aborted the transaction. */
  ghost predicate Stopped(heaps: seq<Heap>, steps: seq<Step>, chain: seq<int32>, calls: seq<Call>, marks: seq<nat>,
                          aborted: bool)
    requires Executed(heaps, steps, chain, calls, marks)
  {
    var n := |marks| - 1;
    if aborted then
      n > 0 && marks[n - 1] <= |steps| &&
      Aborts(heaps[marks[n - 1]], chain + AddedPages(steps[..marks[n - 1]]), calls[n - 1])
    else n == |calls|
  }

  lemma ExecutedNext(heaps: seq<Heap>, steps: seq<Step>, chain: seq<int32>, calls: seq<Call>, marks: seq<nat>,
                     heaps': seq<Heap>, done: seq<Step>)
    requires Executed(heaps, steps, chain, calls, marks) && |marks| <= |calls|
    requires heaps <= heaps' && |heaps'| == |steps + done| + 1
    requires Performed(heaps[|steps|], chain + AddedPages(steps), calls[|marks| - 1], done)
    ensures Executed(heaps', steps + done, chain, calls, marks + [|steps + done|])
  {
    hide Performed, AddedPages;
    var all, more := steps + done, marks + [|steps + done|];
    forall j | 0 <= j < |more| - 1
      ensures CallAt(heaps', all, chain, calls[j], more[j], more[j + 1])
    {
      if j < |marks| - 1 {
        assert CallAt(heaps, steps, chain, calls[j], marks[j], marks[j + 1]);
        assert all[..marks[j]] == steps[..marks[j]] && all[marks[j]..marks[j + 1]] == steps[marks[j]..marks[j + 1]];
      } else {
        assert all[..|steps|] == steps && all[|steps|..|all|] == done;
      }
    }
  }

  /** Makes the calls in order, up to the first that aborts the transaction. */
  method RunCalls(heap: TableHeap, calls: seq<Call>)
      returns (txn: Transaction, ghost heaps: seq<Heap>, ghost steps: seq<Step>, ghost marks: seq<nat>)
    requires heap.Valid() && forall i :: 0 <= i < |calls| ==> CallOk(calls[i])
    modifies heap
    ensures heap.Valid() && fresh(txn) && txn.state in {GROWING, ABORTED}
    ensures History(heaps, steps, HeapOf(heap.store), txn.writeSet) && heaps[0] == old(HeapOf(heap.store))
    ensures Executed(heaps, steps, old(heap.chain), calls, marks)
    ensures Stopped(heaps, steps, old(heap.chain), calls, marks, txn.state == ABORTED)
  {
    hide Inv, View, ChainOk, CanStep, AfterStep, HeapOf, PagesOk, Performed, Aborts, AddedPages, WriteSet,
      CallOk, Executed, Stopped;
    txn := new Transaction();
    heaps, steps, marks := [HeapOf(heap.store)], [], [0];
    ghost var c := heap.chain;
    StartRun(heaps[0], c, calls);
    var i := 0;
    while i < |calls| && txn.state == GROWING
      invariant 0 <= i <= |calls| && |marks| == i + 1 && heap.Valid() && fresh(txn) && txn.state in {GROWING, ABORTED}
      invariant History(heaps, steps, HeapOf(heap.store), txn.writeSet)
      invariant heaps[0] == old(HeapOf(heap.store)) && heap.chain == c + AddedPages(steps)
      invariant Executed(heaps, steps, c, calls, marks)
      invariant txn.state == ABORTED ==> Stopped(heaps, steps, c, calls, marks, true)
    {
      ghost var heaps', done := RunCall(heap, txn, calls[i], heaps, steps);
      ExecutedNext(heaps, steps, c, calls, marks, heaps', done);
      StoppedNext(heaps, steps, c, calls, marks, heaps', done);
      AddedPagesSplit(steps, done);
      heaps, steps, marks := heaps', steps + done, marks + [|steps + done|];
      i := i + 1;
    }
    AllMade(heaps, steps, c, calls, marks);
  }

  lemma StartRun(h: Heap, chain: seq<int32>, calls: seq<Call>)
    ensures Executed([h], [], chain, calls, [0]) && AddedPages([]) == [] && chain + [] == chain && WriteSet([]) == []
  {
  }

  lemma StoppedNext(heaps: seq<Heap>, steps: seq<Step>, chain: seq<int32>, calls: seq<Call>, marks: seq<nat>,
                    heaps': seq<Heap>, done: seq<Step>)
    requires Executed(heaps, steps, chain, calls, marks) && |marks| <= |calls| && heaps <= heaps'
    requires Executed(heaps', steps + done, chain, calls, marks + [|steps + done|])
    ensures Stopped(heaps', steps + done, chain, calls, marks + [|steps + done|], true) <==>
            Aborts(heaps[|steps|], chain + AddedPages(steps), calls[|marks| - 1])
  {
    hide Aborts, AddedPages, CallAt;
    assert (steps + done)[..|steps|] == steps;
  }

  lemma AllMade(heaps: seq<Heap>, steps: seq<Step>, chain: seq<int32>, calls: seq<Call>, marks: seq<nat>)
    requires Executed(heaps, steps, chain, calls, marks)
    ensures Stopped(heaps, steps, chain, calls, marks, false) <==> |marks| == |calls| + 1
  {
  }

  /** Whatever a transaction that runs alone calls, its abort fails exactly when it deleted a
      slot its page does not have in the end. Otherwise every update is taken back exactly
      when each page, with the slots it has at the end, still has room for what it held
      before each update; and then every slot of the heap is as before the transaction
      exactly when no delete met a mark set before it. */
  method AbortedRun(heap: TableHeap, calls: seq<Call>)
      returns (ok: bool, txn: Transaction, ghost heaps: seq<Heap>, ghost steps: seq<Step>, ghost marks: seq<nat>)
    requires heap.Valid() && forall i :: 0 <= i < |calls| ==> CallOk(calls[i])
    modifies heap
    ensures heap.Valid() && Ran(heaps, steps) && heaps[0] == old(HeapOf(heap.store))
    ensures Executed(heaps, steps, old(heap.chain), calls, marks)
    ensures exists aborted :: Stopped(heaps, steps, old(heap.chain), calls, marks, aborted)
    ensures ok <==> RefusedInRange(heaps[|steps|], steps, |steps|)
    ensures ok ==> HeapOf(heap.store) == RolledBack(heaps[|steps|], WriteSet(steps)) && txn.writeSet == []
    ensures AllRestored(heaps[|steps|], WriteSet(steps)) <==> AllFit(heaps, steps, |steps|)
    ensures ok && AllFit(heaps, steps, |steps|) ==>
              (SameSlots(old(HeapOf(heap.store)), HeapOf(heap.store)) <==> NoForeignMark(heaps[0], steps))
    ensures txn.state == ABORTED
  {
    hide Inv, View, ChainOk, CanStep, AfterStep, HeapOf, PagesOk, SameSlots, AllFit, Executed, Stopped, NoForeignMark,
      RefusedInRange, OnPages, WriteSet;
    txn, heaps, steps, marks := RunCalls(heap, calls);
    AbortDefinedIff(heaps, steps);
    AbortRestores(heaps, steps);
    RecordsOnPages(heap.store, heaps, steps);
    ok := Abort(heap, txn);
  }

  /** Whatever a transaction that runs alone calls, if no call aborts it then its commit
      fails exactly when a slot was recorded as deleted twice or is empty at the end, keeps
      every insert and update, and frees exactly the slots recorded. */
  method CommittedRun(heap: TableHeap, calls: seq<Call>)
      returns (ok: bool, txn: Transaction, ghost heaps: seq<Heap>, ghost steps: seq<Step>, ghost marks: seq<nat>)
    requires heap.Valid() && forall i :: 0 <= i < |calls| ==> CallOk(calls[i])
    modifies heap
    ensures heap.Valid() && Ran(heaps, steps) && heaps[0] == old(HeapOf(heap.store))
    ensures Executed(heaps, steps, old(heap.chain), calls, marks)
    ensures Stopped(heaps, steps, old(heap.chain), calls, marks, txn.state == ABORTED)
    ensures txn.state == COMMITTED || (txn.state == ABORTED && HeapOf(heap.store) == heaps[|steps|])
    ensures ok <==> txn.state == COMMITTED && DeletesDefined(heaps[|steps|], WriteSet(steps))
    ensures ok ==>
              txn.writeSet == [] &&
              forall pid: int32, s: nat ::
                SlotOf(HeapOf(heap.store), pid, s) ==
                if Deleted(WriteSet(steps), pid, s) then Empty else SlotOf(heaps[|steps|], pid, s)
    ensures NoneRefused(steps) <==> CommitsItsDeletes(heaps[|steps|], steps)
  {
    hide Inv, View, ChainOk, CanStep, AfterStep, HeapOf, PagesOk, Executed, Stopped, OnPages, WriteSet,
      CommitsItsDeletes, DeletesDefined, CommitOk, Deleted;
    txn, heaps, steps, marks := RunCalls(heap, calls);
    CommitSoundIff(heaps, steps);
    CommitDefinedIff(heaps[|steps|], WriteSet(steps));
    ok := false;
    if txn.state == GROWING {
      RecordsOnPages(heap.store, heaps, steps);
      ok := Commit(heap, txn);
      forall pid: int32, s: nat
        ensures SlotOf(AllFreed(heaps[|steps|], WriteSet(steps)), pid, s) ==
                if Deleted(WriteSet(steps), pid, s) then Empty else SlotOf(heaps[|steps|], pid, s)
      {
        CommitFrees(heaps[|steps|], WriteSet(steps), pid, s);
      }
    }
  }

  lemma RecordsOnPages(store: Store, heaps: seq<Heap>, steps: seq<Step>)
    requires Ran(heaps, steps) && PagesOk(store) && heaps[|steps|] == HeapOf(store)
    ensures OnPages(store, WriteSet(steps))
  {
    hide AfterStep, WriteSet, Origin, PagesOk, HeapOf;
    var ws := WriteSet(steps);
    SameKeys(store);
    forall a | 0 <= a < |ws|
      ensures ws[a].rid.pageId in store
    {
      var i := Origin(steps, a);
      assert CanStep(heaps[i], steps[i]);
      RanGrows(heaps, steps, i, |steps|);
    }
  }

  /** A transaction of one insert and an abort: the heap has a page with a free slot, and no tuple. */
  method InsertIsTakenBack(id: int32, t: seq<byte>) returns (heap: TableHeap)
    requires id != INVALID_PAGE_ID && 0 < |t| <= 4064
    ensures fresh(heap) && heap.Valid() && SameSlots(map[id := []], HeapOf(heap.store))
  {
    hide Inv, View, ChainOk, PagesOk, HeapOf, Stopped, SameSlots;
    heap := new TableHeap(id);
    var calls := [Insert(t, true, [])];
    var ok, txn;
    ghost var heaps, steps, marks;
    ok, txn, heaps, steps, marks := AbortedRun(heap, calls);
    OnlyInserts(heaps, steps, [id], calls[0], marks);
  }

  /** A run of one insert refuses nothing and updates nothing. */
  lemma OnlyInserts(heaps: seq<Heap>, steps: seq<Step>, chain: seq<int32>, call: Call, marks: seq<nat>)
    requires Executed(heaps, steps, chain, [call], marks) && call.Insert?
    ensures AllFit(heaps, steps, |steps|) && NoForeignMark(heaps[0], steps)
    ensures RefusedInRange(heaps[|steps|], steps, |steps|)
  {
    hide FirstFit, AddedPages, Usable, PassesSizeGuard, HasSlot, NewIds;
    if |marks| == 2 {
      assert CallAt(heaps, steps, chain, call, marks[0], marks[1]);
      assert steps[0..|steps|] == steps;
    }
  }
}
