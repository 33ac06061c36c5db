/** What the reverse walk over a transaction's write set does to the slot maps of a heap,
    and when it restores them. */
module Rollback {
  import opened Bytes
  import opened SlotMap
  import opened TablePageModel

  type Heap = map<int32, seq<Slot>>

  datatype WType = INSERT | DELETE | UPDATE

  /** One entry of the write set; `tuple` is the old value of an update. */
  datatype WriteRecord = WriteRecord(rid: RID, wtype: WType, tuple: seq<byte>)

  function SlotOf(h: Heap, pid: int32, s: nat): Slot {
    if pid in h && s < |h[pid]| then h[pid][s] else Empty
  }

  /** The same tuples in the same slots; a heap may have more empty slots and pages. */
  ghost predicate SameSlots(h: Heap, g: Heap) {
    forall pid: int32, s: nat :: SlotOf(g, pid, s) == SlotOf(h, pid, s)
  }

  /** A step of the transaction on its heap: a write that succeeded, with its record; a
      delete the page refused, which leaves its record all the same; or a page added for
      an insert. */
  datatype Step =
    | Wrote(record: WriteRecord, tuple: seq<byte>)
    | Refused(record: WriteRecord)
    | AddedPage(pid: int32)

  ghost predicate CanStep(h: Heap, step: Step) {
    match step
    case AddedPage(pid) => pid !in h
    case Refused(r) => r.wtype.DELETE? && r.rid.pageId in h && !Live(h[r.rid.pageId], r.rid.slot)
    case Wrote(r, t) =>
      && r.rid.pageId in h
      && var v, s := h[r.rid.pageId], r.rid.slot;
         match r.wtype
         case INSERT => t != [] && CanInsert(v, t) && s == FirstEmpty(v)
         case DELETE => Live(v, s)
         case UPDATE => t != [] && CanUpdate(v, s, t) && r.tuple == v[s].data && r.tuple != []
  }

  ghost function AfterStep(h: Heap, step: Step): Heap
    requires CanStep(h, step)
  {
    match step
    case AddedPage(pid) => h[pid := []]
    case Refused(_) => h
    case Wrote(r, t) =>
      var pid, s := r.rid.pageId, r.rid.slot;
      match r.wtype
      case INSERT => h[pid := Inserted(h[pid], t)]
      case DELETE => h[pid := WithMark(h[pid], s, true)]
      case UPDATE => h[pid := Updated(h[pid], s, t)]
  }

  /** A transaction that ran alone: heap `0` is the heap before it began. */
  ghost predicate Ran(heaps: seq<Heap>, steps: seq<Step>) {
    && |heaps| == |steps| + 1
    && forall i :: 0 <= i < |steps| ==>
         CanStep(heaps[i], steps[i]) && heaps[i + 1] == AfterStep(heaps[i], steps[i])
  }

  /** The write set after those steps. */
  function WriteSet(steps: seq<Step>): seq<WriteRecord> {
    if steps == [] then []
    else WriteSet(steps[..|steps| - 1]) + RecordOf(steps[|steps| - 1])
  }

  function RecordOf(step: Step): seq<WriteRecord> {
    if step.AddedPage? then [] else [step.record]
  }

  /** What undoing one entry does; a restored tuple that does not fit is dropped silently. */
  function Undone(h: Heap, r: WriteRecord): Heap {
    var pid, s := r.rid.pageId, r.rid.slot;
    if pid !in h then h
    else
      var v := h[pid];
      match r.wtype
      case INSERT => if Occupied(v, s) then h[pid := v[s := Empty]] else h
      case DELETE => if s < |v| then h[pid := WithMark(v, s, false)] else h
      case UPDATE => if CanUpdate(v, s, r.tuple) then h[pid := Updated(v, s, r.tuple)] else h
  }

  /** The reverse walk over the write set. */
  function RolledBack(h: Heap, ws: seq<WriteRecord>): Heap {
    if ws == [] then h else RolledBack(Undone(h, ws[|ws| - 1]), ws[..|ws| - 1])
  }

  // ---------- one step back ----------

  predicate RefusedAt(step: Step, pid: int32, s: nat) {
    step.Refused? && step.record.rid.pageId == pid && step.record.rid.slot == s
  }

  ghost predicate RefusedFrom(steps: seq<Step>, n: nat, pid: int32, s: nat) {
    exists i :: n <= i < |steps| && RefusedAt(steps[i], pid, s)
  }

  predicate Marked(slot: Slot) { slot.Tuple? && slot.marked }

  function Unmarked(slot: Slot): Slot {
    if slot.Empty? then slot else Tuple(slot.data, false)
  }

  /** What the walk makes of a slot of heap `n`: undoing a refused delete clears the mark. */
  ghost function WalkedSlot(h: Heap, steps: seq<Step>, n: nat, pid: int32, s: nat): Slot {
    var slot := SlotOf(h, pid, s);
    if RefusedFrom(steps, n, pid, s) then Unmarked(slot) else slot
  }

  /** The pages and slots of `g` are those of `last`. */
  ghost predicate SameShape(g: Heap, last: Heap) {
    g.Keys == last.Keys && forall pid :: pid in g ==> |g[pid]| == |last[pid]|
  }

  /** `g` stands where the walk is after undoing everything past heap `h`: the tuples of
      `h`, in the pages and slots of the final heap `last`. */
  ghost predicate Level(h: Heap, g: Heap, last: Heap, steps: seq<Step>, n: nat) {
    && SameShape(g, last)
    && forall pid: int32, s: nat :: SlotOf(g, pid, s) == WalkedSlot(h, steps, n, pid, s)
  }

  lemma {:induction false} UsedPadded(v: seq<Slot>, w: seq<Slot>)
    requires |v| <= |w| && (forall i :: 0 <= i < |v| ==> Size(w[i]) == Size(v[i]))
    requires forall i :: |v| <= i < |w| ==> w[i].Empty?
    ensures Used(w) == Used(v)
    decreases |w|
  {
    if |w| > |v| {
      UsedPadded(v, w[..|w| - 1]);
    } else if |w| > 0 {
      UsedPadded(v[..|v| - 1], w[..|w| - 1]);
    }
  }

  /** Pages and slots never go away. */
  ghost predicate Grows(h: Heap, k: Heap) {
    forall pid :: pid in h ==> pid in k && |h[pid]| <= |k[pid]|
  }

  lemma StepGrows(h: Heap, step: Step)
    requires CanStep(h, step)
    ensures Grows(h, AfterStep(h, step))
  {
  }

  lemma {:induction false} RanGrows(heaps: seq<Heap>, steps: seq<Step>, i: nat, j: nat)
    requires Ran(heaps, steps) && i <= j < |heaps|
    ensures Grows(heaps[i], heaps[j])
    decreases j
  {
    if i < j {
      RanGrows(heaps, steps, i, j - 1);
      StepGrows(heaps[j - 1], steps[j - 1]);
    }
  }

  /** What the page must have room for when the update behind `r` is taken back. */
  ghost predicate Fits(h: Heap, last: Heap, r: WriteRecord) {
    var pid := r.rid.pageId;
    r.wtype.UPDATE? && pid in h && pid in last ==>
      Used(h[pid]) + SIZE_TABLE_PAGE_HEADER + SIZE_TUPLE * |last[pid]| <= PAGE_SIZE
  }

  ghost predicate Restores(g: Heap, r: WriteRecord) {
    r.wtype.UPDATE? && r.rid.pageId in g ==> CanUpdate(g[r.rid.pageId], r.rid.slot, r.tuple)
  }

  /** The same on one page: `v` before the write, `w` after it, `u` like `w` with some marks
      cleared and more empty slots. */
  lemma PageBack(v: seq<Slot>, w: seq<Slot>, u: seq<Slot>, r: WriteRecord, t: seq<byte>)
    requires CanStep(map[r.rid.pageId := v], Wrote(r, t))
    requires w == AfterStep(map[r.rid.pageId := v], Wrote(r, t))[r.rid.pageId]
    requires |w| <= |u| && forall i :: 0 <= i < |w| ==> u[i] == w[i] || u[i] == Unmarked(w[i])
    requires forall i :: |w| <= i < |u| ==> u[i].Empty?
    ensures r.rid.slot < |u|
    ensures r.wtype.UPDATE? ==>
              (CanUpdate(u, r.rid.slot, r.tuple) <==> Used(v) + SIZE_TABLE_PAGE_HEADER + SIZE_TUPLE * |u| <= PAGE_SIZE)
    ensures var s, b := r.rid.slot, Undone(map[r.rid.pageId := u], r)[r.rid.pageId];
            (r.wtype.UPDATE? ==> CanUpdate(u, s, r.tuple)) ==>
            b == u[s := if s < |v| then v[s] else Empty]
  {
    UsedPadded(w, u);
    if r.wtype.UPDATE? {
      UsedPut(v, r.rid.slot, Tuple(t, false));
    }
  }

  /** Undoing a write that succeeded. */
  lemma StepBack(h: Heap, steps: seq<Step>, n: nat, g: Heap, last: Heap)
    requires n < |steps| && CanStep(h, steps[n]) && steps[n].Wrote? && Grows(AfterStep(h, steps[n]), last)
    requires Level(AfterStep(h, steps[n]), g, last, steps, n + 1)
    ensures Restores(g, steps[n].record) <==> Fits(h, last, steps[n].record)
    ensures Restores(g, steps[n].record) ==> Level(h, Undone(g, steps[n].record), last, steps, n)
  {
    hide RefusedFrom, FreeSpace, FirstEmpty;
    var r, t := steps[n].record, steps[n].tuple;
    var pid, s := r.rid.pageId, r.rid.slot;
    var k := AfterStep(h, steps[n]);
    var v, w, u := h[pid], k[pid], g[pid];
    forall i: nat | i < |u|
      ensures u[i] == WalkedSlot(k, steps, n + 1, pid, i)
    {
      assert SlotOf(g, pid, i) == WalkedSlot(k, steps, n + 1, pid, i);
    }
    PageBack(v, w, u, r, t);
    if Restores(g, r) {
      var slot := if s < |v| then v[s] else Empty;
      assert Undone(g, r) == g[pid := u[s := slot]];
      StepElsewhere(h, steps[n]);
      SlotsBack(h, k, steps, n, g, pid, s);
    }
  }

  lemma StepElsewhere(h: Heap, step: Step)
    requires CanStep(h, step) && step.Wrote?
    ensures var k, rid := AfterStep(h, step), step.record.rid;
            && !Marked(SlotOf(h, rid.pageId, rid.slot))
            && forall p: int32, i: nat ::
                 SlotOf(k, p, i) == SlotOf(h, p, i) || (p == rid.pageId && i == rid.slot)
  {
  }

  /** Only the slot written differs, and it is put back. */
  lemma SlotsBack(h: Heap, k: Heap, steps: seq<Step>, n: nat, g: Heap, pid: int32, s: nat)
    requires n < |steps| && !steps[n].Refused? && pid in g && s < |g[pid]| && !Marked(SlotOf(h, pid, s))
    requires forall p: int32, i: nat :: SlotOf(k, p, i) == SlotOf(h, p, i) || (p == pid && i == s)
    requires forall p: int32, i: nat :: SlotOf(g, p, i) == WalkedSlot(k, steps, n + 1, p, i)
    ensures var b := g[pid := g[pid][s := SlotOf(h, pid, s)]];
            forall p: int32, i: nat :: SlotOf(b, p, i) == WalkedSlot(h, steps, n, p, i)
  {
    hide RefusedFrom;
    var b := g[pid := g[pid][s := SlotOf(h, pid, s)]];
    forall p: int32, i: nat
      ensures SlotOf(b, p, i) == WalkedSlot(h, steps, n, p, i)
    {
      assert SlotOf(g, p, i) == WalkedSlot(k, steps, n + 1, p, i);
      LaterRefused(steps, n, p, i);
    }
  }

  lemma LaterRefused(steps: seq<Step>, n: nat, pid: int32, s: nat)
    requires n < |steps|
    ensures RefusedFrom(steps, n, pid, s) <==> RefusedAt(steps[n], pid, s) || RefusedFrom(steps, n + 1, pid, s)
  {
  }

  /** Undoing the record of a refused delete clears the mark the slot had. */
  lemma RefusedBack(h: Heap, steps: seq<Step>, n: nat, g: Heap, last: Heap)
    requires n < |steps| && CanStep(h, steps[n]) && steps[n].Refused?
    requires Level(h, g, last, steps, n + 1)
    ensures Level(h, Undone(g, steps[n].record), last, steps, n)
  {
    var b := Undone(g, steps[n].record);
    forall p: int32, i: nat
      ensures SlotOf(b, p, i) == WalkedSlot(h, steps, n, p, i)
    {
      assert SlotOf(g, p, i) == WalkedSlot(h, steps, n + 1, p, i);
      LaterRefused(steps, n, p, i);
    }
  }

  lemma EmptyPageBack(h: Heap, steps: seq<Step>, n: nat, g: Heap, last: Heap)
    requires n < |steps| && CanStep(h, steps[n]) && steps[n].AddedPage?
    requires Level(AfterStep(h, steps[n]), g, last, steps, n + 1)
    ensures Level(h, g, last, steps, n)
  {
    forall p: int32, i: nat
      ensures SlotOf(g, p, i) == WalkedSlot(h, steps, n, p, i)
    {
      assert SlotOf(g, p, i) == WalkedSlot(AfterStep(h, steps[n]), steps, n + 1, p, i);
      LaterRefused(steps, n, p, i);
    }
  }

  // ---------- the whole walk ----------

  /** Every update of the walk is taken back. */
  ghost predicate AllRestored(h: Heap, ws: seq<WriteRecord>) {
    ws == [] || (Restores(h, ws[|ws| - 1]) && AllRestored(Undone(h, ws[|ws| - 1]), ws[..|ws| - 1]))
  }

  /** Each page, with the slots it has at the end, has room for what it held before each update. */
  ghost predicate AllFit(heaps: seq<Heap>, steps: seq<Step>, n: nat)
    requires |heaps| == |steps| + 1 && n <= |steps|
  {
    forall i :: 0 <= i < n && steps[i].Wrote? ==> Fits(heaps[i], heaps[|steps|], steps[i].record)
  }

  lemma WriteSetNext(steps: seq<Step>, n: nat)
    requires 0 < n <= |steps|
    ensures WriteSet(steps[..n]) == WriteSet(steps[..n - 1]) + RecordOf(steps[n - 1])
  {
    assert steps[..n][..n - 1] == steps[..n - 1];
  }

  lemma {:induction false} WalkBack(heaps: seq<Heap>, steps: seq<Step>, n: nat, g: Heap)
    requires Ran(heaps, steps) && n <= |steps| && Level(heaps[n], g, heaps[|steps|], steps, n)
    ensures AllRestored(g, WriteSet(steps[..n])) <==> AllFit(heaps, steps, n)
    ensures AllFit(heaps, steps, n) ==>
              Level(heaps[0], RolledBack(g, WriteSet(steps[..n])), heaps[|steps|], steps, 0)
    decreases n
  {
    hide Level, Fits, Restores, CanStep, AfterStep, Undone;
    if n == 0 {
      assert steps[..0] == [];
    } else {
      var last, step, ws := heaps[|steps|], steps[n - 1], WriteSet(steps[..n - 1]);
      WriteSetNext(steps, n);
      if step.AddedPage? {
        EmptyPageBack(heaps[n - 1], steps, n - 1, g, last);
        assert ws + [] == ws;
        WalkBack(heaps, steps, n - 1, g);
      } else {
        var all := ws + [step.record];
        assert all[..|all| - 1] == ws;
        RanGrows(heaps, steps, n, |steps|);
        OneBack(heaps, steps, n, g);
        if Restores(g, step.record) {
          WalkBack(heaps, steps, n - 1, Undone(g, step.record));
        }
      }
    }
  }

  lemma OneBack(heaps: seq<Heap>, steps: seq<Step>, n: nat, g: Heap)
    requires Ran(heaps, steps) && 0 < n <= |steps| && !steps[n - 1].AddedPage?
    requires Level(heaps[n], g, heaps[|steps|], steps, n) && Grows(heaps[n], heaps[|steps|])
    ensures var r := steps[n - 1].record;
            && (Restores(g, r) <==> (steps[n - 1].Wrote? ==> Fits(heaps[n - 1], heaps[|steps|], r)))
            && (Restores(g, r) ==> Level(heaps[n - 1], Undone(g, r), heaps[|steps|], steps, n - 1))
  {
    hide Level, Fits, Undone, Grows;
    if steps[n - 1].Wrote? {
      StepBack(heaps[n - 1], steps, n - 1, g, heaps[|steps|]);
    } else {
      RefusedBack(heaps[n - 1], steps, n - 1, g, heaps[|steps|]);
    }
  }

  /** No delete was refused because of a mark that was there before the transaction. */
  ghost predicate NoForeignMark(h: Heap, steps: seq<Step>) {
    forall i :: 0 <= i < |steps| && steps[i].Refused? ==>
      !Marked(SlotOf(h, steps[i].record.rid.pageId, steps[i].record.rid.slot))
  }

  /** Abort takes back every update exactly when each page still has room for what it held
      before each update; then every slot is back to its content before the transaction
      exactly when no delete met a mark set before it. */
  lemma AbortRestores(heaps: seq<Heap>, steps: seq<Step>)
    requires Ran(heaps, steps)
    ensures AllRestored(heaps[|steps|], WriteSet(steps)) <==> AllFit(heaps, steps, |steps|)
    ensures AllFit(heaps, steps, |steps|) ==>
              (SameSlots(heaps[0], RolledBack(heaps[|steps|], WriteSet(steps))) <==> NoForeignMark(heaps[0], steps))
  {
    hide CanStep, AfterStep, Undone, Fits, Restores;
    assert steps[..|steps|] == steps;
    WalkBack(heaps, steps, |steps|, heaps[|steps|]);
    if AllFit(heaps, steps, |steps|) {
      MarksDecide(heaps[0], RolledBack(heaps[|steps|], WriteSet(steps)), heaps[|steps|], steps);
    }
  }

  lemma MarksDecide(h: Heap, g: Heap, last: Heap, steps: seq<Step>)
    requires Level(h, g, last, steps, 0)
    ensures SameSlots(h, g) <==> NoForeignMark(h, steps)
  {
    if NoForeignMark(h, steps) {
      forall pid: int32, s: nat
        ensures SlotOf(g, pid, s) == SlotOf(h, pid, s)
      {
        assert SlotOf(g, pid, s) == WalkedSlot(h, steps, 0, pid, s);
      }
    } else {
      var i :| 0 <= i < |steps| && steps[i].Refused?
               && Marked(SlotOf(h, steps[i].record.rid.pageId, steps[i].record.rid.slot));
      var pid, s := steps[i].record.rid.pageId, steps[i].record.rid.slot;
      assert RefusedAt(steps[i], pid, s);
      assert SlotOf(g, pid, s) == WalkedSlot(h, steps, 0, pid, s);
    }
  }

  /** A transaction whose inserts reuse free slots can always be taken back. */
  lemma NoNewSlotsFit(heaps: seq<Heap>, steps: seq<Step>)
    requires Ran(heaps, steps)
    requires forall i, pid :: 0 <= i < |heaps| && pid in heaps[i] ==>
               0 <= FreeSpace(heaps[i][pid]) && pid in heaps[|steps|] && |heaps[i][pid]| == |heaps[|steps|][pid]|
    ensures AllFit(heaps, steps, |steps|)
  {
    forall i | 0 <= i < |steps| && steps[i].Wrote?
      ensures Fits(heaps[i], heaps[|steps|], steps[i].record)
    {
      var pid := steps[i].record.rid.pageId;
      assert pid in heaps[i];
    }
  }

  function Page0(v: seq<Slot>): Heap {
    map[0 := v]
  }

  lemma ShrinkStep(o: Slot, n: Slot, f: Slot)
    requires o.Tuple? && n.Tuple? && !o.marked && !n.marked && 0 < |n.data| <= |o.data|
    requires |o.data| + Size(f) + 40 <= PAGE_SIZE
    ensures var w := Wrote(WriteRecord(RID(0, 0), UPDATE, o.data), n.data);
            CanStep(Page0([o, f]), w) && AfterStep(Page0([o, f]), w) == Page0([n, f])
  {
    UsedThree(o, f, Empty);
    assert [o, f][0 := n] == [n, f];
  }

  lemma InsertStep(n: Slot, f: Slot, x: Slot)
    requires n.Tuple? && f.Tuple? && x.Tuple? && !x.marked && x.data != []
    requires Size(n) + Size(f) + |x.data| + 48 <= PAGE_SIZE
    ensures var w := Wrote(WriteRecord(RID(0, 2), INSERT, []), x.data);
            CanStep(Page0([n, f]), w) && AfterStep(Page0([n, f]), w) == Page0([n, f, x])
  {
    UsedThree(n, f, Empty);
    assert FirstEmpty([n, f]) == 2;
    assert Inserted([n, f], x.data) == [n, f, x];
  }

  lemma UndoInsertThenUpdate(n: Slot, f: Slot, x: Slot, t: seq<byte>)
    requires n.Tuple? && x.Tuple? && PAGE_SIZE < |t| + Size(f) + 48
    ensures Undone(Page0([n, f, x]), WriteRecord(RID(0, 2), INSERT, [])) == Page0([n, f, Empty])
    ensures Undone(Page0([n, f, Empty]), WriteRecord(RID(0, 0), UPDATE, t)) == Page0([n, f, Empty])
  {
    UsedThree(n, f, Empty);
    assert [n, f, x][2 := Empty] == [n, f, Empty];
  }

  /** The condition is needed. On a full page, shrink a tuple and insert another into a new
      slot: the slot's directory entry outlives the abort, so the old tuple no longer fits
      and the abort leaves the new one in place. */
  lemma AbortLosesTuple(large: seq<byte>, small: seq<byte>, filler: seq<byte>, extra: seq<byte>)
      returns (heaps: seq<Heap>, steps: seq<Step>)
    requires |large| == 20 && |small| == 10 && |filler| == 4036 && |extra| == 1
    ensures Ran(heaps, steps)
    ensures SlotOf(heaps[0], 0, 0) == Tuple(large, false)
    ensures SlotOf(RolledBack(heaps[|steps|], WriteSet(steps)), 0, 0) == Tuple(small, false)
  {
    hide CanStep, AfterStep, Undone, Used;
    var o, n, f, x := Tuple(large, false), Tuple(small, false), Tuple(filler, false), Tuple(extra, false);
    var r1, r2 := WriteRecord(RID(0, 0), UPDATE, large), WriteRecord(RID(0, 2), INSERT, []);
    heaps := [Page0([o, f]), Page0([n, f]), Page0([n, f, x])];
    steps := [Wrote(r1, small), Wrote(r2, extra)];
    ShrinkStep(o, n, f);
    InsertStep(n, f, x);
    UndoInsertThenUpdate(n, f, x, large);
    TwoWrites(steps[0], steps[1]);
    TwoUndone(heaps[2], r1, r2);
  }

  lemma TwoWrites(a: Step, b: Step)
    requires a.Wrote? && b.Wrote?
    ensures WriteSet([a, b]) == [a.record, b.record]
  {
    assert [a, b][..1] == [a] && [a][..0] == [];
    assert WriteSet([a]) == [a.record];
  }

  lemma TwoUndone(h: Heap, a: WriteRecord, b: WriteRecord)
    ensures RolledBack(h, [a, b]) == Undone(Undone(h, b), a)
  {
    hide Undone;
    assert [a, b][..1] == [a] && [a][..0] == [];
    assert RolledBack(Undone(h, b), [a]) == RolledBack(Undone(Undone(h, b), a), []);
  }

  /** The other condition is needed too. A delete of a slot that was marked before is refused
      and recorded, and the abort clears the mark. */
  lemma AbortClearsForeignMark(t: seq<byte>) returns (heaps: seq<Heap>, steps: seq<Step>)
    ensures Ran(heaps, steps) && AllFit(heaps, steps, |steps|)
    ensures SlotOf(heaps[0], 0, 0) == Tuple(t, true)
    ensures SlotOf(RolledBack(heaps[|steps|], WriteSet(steps)), 0, 0) == Tuple(t, false)
  {
    var h: Heap := map[0 := [Tuple(t, true)]];
    var r := WriteRecord(RID(0, 0), DELETE, []);
    heaps, steps := [h, h], [Refused(r)];
    OneRecord(h, steps[0]);
  }

  lemma OneRecord(h: Heap, step: Step)
    requires !step.AddedPage?
    ensures WriteSet([step]) == [step.record] && RolledBack(h, [step.record]) == Undone(h, step.record)
  {
    assert [step][..0] == [] && [step.record][..0] == [];
    assert RolledBack(Undone(h, step.record), []) == Undone(h, step.record);
  }

  // ---------- when the walk meets a failed assertion ----------

  /** What the page operations behind an entry assert. */
  ghost predicate EntryOk(h: Heap, r: WriteRecord) {
    && r.rid.pageId in h
    && match r.wtype
       case INSERT => Occupied(h[r.rid.pageId], r.rid.slot)
       case DELETE => r.rid.slot < |h[r.rid.pageId]|
       case UPDATE => r.tuple != []
  }

  ghost predicate WalkOk(h: Heap, ws: seq<WriteRecord>) {
    ws == [] || (EntryOk(h, ws[|ws| - 1]) && WalkOk(Undone(h, ws[|ws| - 1]), ws[..|ws| - 1]))
  }

  /** The same slots are in use, whatever tuples and marks they hold. */
  ghost predicate SameUse(h: Heap, g: Heap, last: Heap) {
    && SameShape(g, last)
    && forall pid: int32, s: nat :: SlotOf(h, pid, s).Empty? <==> SlotOf(g, pid, s).Empty?
  }

  lemma UseBack(h: Heap, step: Step, g: Heap, last: Heap)
    requires CanStep(h, step) && Grows(AfterStep(h, step), last) && SameUse(AfterStep(h, step), g, last)
    ensures step.AddedPage? ==> SameUse(h, g, last)
    ensures !step.AddedPage? ==> SameUse(h, Undone(g, step.record), last)
    ensures step.Wrote? ==> EntryOk(g, step.record)
    ensures step.Refused? ==> (EntryOk(g, step.record) <==> HasSlot(last, step.record.rid))
  {
    var k := AfterStep(h, step);
    var b := if step.AddedPage? then g else Undone(g, step.record);
    if step.Wrote? {
      var r := step.record.rid;
      assert SlotOf(k, r.pageId, r.slot).Empty? <==> SlotOf(g, r.pageId, r.slot).Empty?;
    }
    forall pid: int32, s: nat
      ensures SlotOf(h, pid, s).Empty? <==> SlotOf(b, pid, s).Empty?
    {
      assert SlotOf(k, pid, s).Empty? <==> SlotOf(g, pid, s).Empty?;
    }
  }

  predicate HasSlot(h: Heap, rid: RID) {
    rid.pageId in h && rid.slot < |h[rid.pageId]|
  }

  /** No refused delete named a slot its page does not have in the end. */
  ghost predicate RefusedInRange(last: Heap, steps: seq<Step>, n: nat)
    requires n <= |steps|
  {
    forall i :: 0 <= i < n && steps[i].Refused? ==> HasSlot(last, steps[i].record.rid)
  }

  lemma InRangeNext(last: Heap, steps: seq<Step>, n: nat)
    requires 0 < n <= |steps|
    ensures RefusedInRange(last, steps, n) <==>
            RefusedInRange(last, steps, n - 1) && (steps[n - 1].Refused? ==> HasSlot(last, steps[n - 1].record.rid))
  {
    hide HasSlot;
  }

  lemma OneUseBack(heaps: seq<Heap>, steps: seq<Step>, n: nat, g: Heap)
    requires Ran(heaps, steps) && 0 < n <= |steps| && SameUse(heaps[n], g, heaps[|steps|])
    ensures var last, step := heaps[|steps|], steps[n - 1];
            && (step.AddedPage? ==> SameUse(heaps[n - 1], g, last))
            && (!step.AddedPage? ==> SameUse(heaps[n - 1], Undone(g, step.record), last))
            && (!step.AddedPage? ==> (EntryOk(g, step.record) <==> (step.Refused? ==> HasSlot(last, step.record.rid))))
  {
    hide SameUse, Undone, EntryOk, HasSlot, Grows;
    RanGrows(heaps, steps, n, |steps|);
    UseBack(heaps[n - 1], steps[n - 1], g, heaps[|steps|]);
  }

  lemma NothingToWalk(last: Heap, steps: seq<Step>)
    ensures WriteSet(steps[..0]) == [] && RefusedInRange(last, steps, 0)
  {
  }

  lemma {:induction false} WalkDefinedIff(heaps: seq<Heap>, steps: seq<Step>, n: nat, g: Heap)
    requires Ran(heaps, steps) && n <= |steps| && SameUse(heaps[n], g, heaps[|steps|])
    ensures WalkOk(g, WriteSet(steps[..n])) <==> RefusedInRange(heaps[|steps|], steps, n)
    decreases n
  {
    hide SameUse, CanStep, AfterStep, Undone, EntryOk, HasSlot, RefusedInRange, WriteSet;
    if n == 0 {
      NothingToWalk(heaps[|steps|], steps);
    } else {
      var step, ws := steps[n - 1], WriteSet(steps[..n - 1]);
      WriteSetNext(steps, n);
      InRangeNext(heaps[|steps|], steps, n);
      OneUseBack(heaps, steps, n, g);
      if step.AddedPage? {
        assert ws + [] == ws;
        WalkDefinedIff(heaps, steps, n - 1, g);
      } else {
        var all := ws + [step.record];
        assert all[..|all| - 1] == ws;
        WalkDefinedIff(heaps, steps, n - 1, Undone(g, step.record));
      }
    }
  }

  /** The abort of a transaction alone meets no failed assertion exactly when no refused
      delete named a slot its page does not have in the end, whether or not the old tuples fit. */
  lemma AbortDefinedIff(heaps: seq<Heap>, steps: seq<Step>)
    requires Ran(heaps, steps)
    ensures WalkOk(heaps[|steps|], WriteSet(steps)) <==> RefusedInRange(heaps[|steps|], steps, |steps|)
  {
    hide CanStep, AfterStep, Undone, EntryOk, HasSlot;
    assert steps[..|steps|] == steps;
    WalkDefinedIff(heaps, steps, |steps|, heaps[|steps|]);
  }

  /** A delete of a slot the page does not have is recorded, and the abort fails on it. */
  lemma AbortFailsOnMissingSlot() returns (heaps: seq<Heap>, steps: seq<Step>)
    ensures Ran(heaps, steps) && !WalkOk(heaps[|steps|], WriteSet(steps))
  {
    var h: Heap := map[0 := []];
    heaps, steps := [h, h], [Refused(WriteRecord(RID(0, 0), DELETE, []))];
    OneRecord(h, steps[0]);
  }

  // ---------- what the walk leaves when something does not fit ----------

  predicate UpdatesSlot(step: Step, pid: int32, s: nat) {
    step.Wrote? && step.record.wtype.UPDATE? && step.record.rid.pageId == pid && step.record.rid.slot == s
  }

  ghost predicate UpdatedBy(steps: seq<Step>, pid: int32, s: nat) {
    exists i :: 0 <= i < |steps| && UpdatesSlot(steps[i], pid, s)
  }

  /** Like `Level`, but saying of a slot the transaction updated only whether it is in use. */
  ghost predicate RestLevel(h: Heap, g: Heap, last: Heap, steps: seq<Step>, n: nat) {
    && SameUse(h, g, last)
    && forall pid: int32, s: nat :: UpdatedBy(steps, pid, s) || SlotOf(g, pid, s) == WalkedSlot(h, steps, n, pid, s)
  }

  lemma UndoneElsewhere(g: Heap, r: WriteRecord, pid: int32, s: nat)
    requires r.rid.pageId != pid || r.rid.slot != s
    ensures SlotOf(Undone(g, r), pid, s) == SlotOf(g, pid, s)
  {
  }

  /** The slot of a step that is no update, put back. */
  lemma UndoneHere(h: Heap, step: Step, g: Heap)
    requires CanStep(h, step) && !step.AddedPage? && !step.record.wtype.UPDATE?
    requires var rid := step.record.rid; var k := SlotOf(AfterStep(h, step), rid.pageId, rid.slot);
             SlotOf(g, rid.pageId, rid.slot) == k || SlotOf(g, rid.pageId, rid.slot) == Unmarked(k)
    ensures var rid := step.record.rid; var c := SlotOf(h, rid.pageId, rid.slot);
            SlotOf(Undone(g, step.record), rid.pageId, rid.slot) == if step.Refused? then Unmarked(c) else c
  {
  }

  lemma StepOneSlot(h: Heap, step: Step, pid: int32, s: nat)
    requires CanStep(h, step)
    requires step.AddedPage? || step.record.rid.pageId != pid || step.record.rid.slot != s
    ensures SlotOf(AfterStep(h, step), pid, s) == SlotOf(h, pid, s)
  {
  }

  /** One slot over one step back. */
  lemma RestSlotBack(h: Heap, steps: seq<Step>, n: nat, g: Heap, pid: int32, s: nat)
    requires n < |steps| && CanStep(h, steps[n]) && !UpdatesSlot(steps[n], pid, s)
    requires SlotOf(g, pid, s) == WalkedSlot(AfterStep(h, steps[n]), steps, n + 1, pid, s)
    ensures var b := if steps[n].AddedPage? then g else Undone(g, steps[n].record);
            SlotOf(b, pid, s) == WalkedSlot(h, steps, n, pid, s)
  {
    LaterRefused(steps, n, pid, s);
    var step := steps[n];
    if step.AddedPage? || step.record.rid.pageId != pid || step.record.rid.slot != s {
      StepOneSlot(h, step, pid, s);
      if !step.AddedPage? {
        UndoneElsewhere(g, step.record, pid, s);
      }
      hide CanStep, AfterStep, Undone, SlotOf, RefusedFrom;
    } else {
      assert !step.record.wtype.UPDATE? by {
        assert step.Refused? ==> step.record.wtype.DELETE?;
      }
      UndoneHere(h, step, g);
      if step.Wrote? {
        WrittenUnmarked(h, step);
      }
      hide CanStep, AfterStep, Undone, SlotOf, RefusedFrom;
    }
  }

  lemma WrittenUnmarked(h: Heap, step: Step)
    requires CanStep(h, step) && step.Wrote?
    ensures !Marked(SlotOf(h, step.record.rid.pageId, step.record.rid.slot))
  {
  }

  lemma RestBack(h: Heap, steps: seq<Step>, n: nat, g: Heap, last: Heap)
    requires n < |steps| && CanStep(h, steps[n]) && Grows(AfterStep(h, steps[n]), last)
    requires RestLevel(AfterStep(h, steps[n]), g, last, steps, n + 1)
    ensures RestLevel(h, if steps[n].AddedPage? then g else Undone(g, steps[n].record), last, steps, n)
  {
    hide CanStep, AfterStep, Undone, SameUse, WalkedSlot, Grows, SlotOf, UpdatesSlot;
    var step, k := steps[n], AfterStep(h, steps[n]);
    UseBack(h, step, g, last);
    var b := if step.AddedPage? then g else Undone(g, step.record);
    forall p: int32, i: nat
      ensures UpdatedBy(steps, p, i) || SlotOf(b, p, i) == WalkedSlot(h, steps, n, p, i)
    {
      if !UpdatedBy(steps, p, i) {
        assert SlotOf(g, p, i) == WalkedSlot(k, steps, n + 1, p, i);
        RestSlotBack(h, steps, n, g, p, i);
      }
    }
  }

  lemma {:induction false} RestWalkBack(heaps: seq<Heap>, steps: seq<Step>, n: nat, g: Heap)
    requires Ran(heaps, steps) && n <= |steps| && RestLevel(heaps[n], g, heaps[|steps|], steps, n)
    ensures RestLevel(heaps[0], RolledBack(g, WriteSet(steps[..n])), heaps[|steps|], steps, 0)
    decreases n
  {
    hide RestLevel, CanStep, AfterStep, Undone;
    if n == 0 {
      assert steps[..0] == [];
    } else {
      var step, ws := steps[n - 1], WriteSet(steps[..n - 1]);
      WriteSetNext(steps, n);
      RanGrows(heaps, steps, n, |steps|);
      RestBack(heaps[n - 1], steps, n - 1, g, heaps[|steps|]);
      if step.AddedPage? {
        assert ws + [] == ws;
        RestWalkBack(heaps, steps, n - 1, g);
      } else {
        var all := ws + [step.record];
        assert all[..|all| - 1] == ws;
        RestWalkBack(heaps, steps, n - 1, Undone(g, step.record));
      }
    }
  }

  /** Whether or not the old tuples fit, the abort leaves exactly the slots in use that were in
      use before, and in every slot the transaction did not update what was there before, up
      to marks met by refused deletes. */
  lemma AbortKeepsRest(heaps: seq<Heap>, steps: seq<Step>, pid: int32, s: nat)
    requires Ran(heaps, steps)
    ensures var b := RolledBack(heaps[|steps|], WriteSet(steps));
            && (SlotOf(b, pid, s).Empty? <==> SlotOf(heaps[0], pid, s).Empty?)
            && (UpdatedBy(steps, pid, s) || SlotOf(b, pid, s) == WalkedSlot(heaps[0], steps, 0, pid, s))
  {
    hide CanStep, AfterStep, Undone, UpdatedBy;
    assert steps[..|steps|] == steps;
    RestWalkBack(heaps, steps, |steps|, heaps[|steps|]);
  }
}
