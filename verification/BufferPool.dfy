/** The buffer pool: a fixed array of frames, a page table, a free list and the clock
    replacer in front of a disk. Each call is one atomic step; clients write to pinned
    pages and must unpin as dirty what they changed. */
module BufferPool {
  import opened Bytes
  import opened SlotMap
  import TablePageModel
  import opened ClockReplacerModel

  type Page = TablePageModel.Page

  const NO_PAGE: int := -1

  datatype Frame = Frame(data: Page, pageId: int, pin: nat, dirty: bool)

  function FreeFrame(): Frame { Frame(Zeros(PAGE_SIZE), NO_PAGE, 0, false) }

  /** The state the pool's methods work on. `idle` is the set of frames in the replacer;
      `contents` is the page store the pool stands for: the last bytes written to every
      live page id; `debt` is the set of pages a client changed and has not yet unpinned
      as dirty. */
  datatype Pool = Pool(
    frames: seq<Frame>, table: map<int, nat>, free: seq<nat>, idle: set<nat>, disk: map<int, Page>, next: int,
    contents: map<int, Page>, debt: set<int>)

  ghost predicate TableOk(p: Pool) {
    && (forall q :: q in p.table ==> 0 <= q < p.next && p.table[q] < |p.frames| && p.frames[p.table[q]].pageId == q)
    && (forall f :: 0 <= f < |p.frames| && p.frames[f].pageId != NO_PAGE ==>
          p.frames[f].pageId in p.table && p.table[p.frames[f].pageId] == f)
  }

  /** The free list holds each unmapped frame once, and such frames are zeroed. */
  ghost predicate FreeOk(p: Pool) {
    && (forall i :: 0 <= i < |p.free| ==> p.free[i] < |p.frames| && p.frames[p.free[i]] == FreeFrame())
    && (forall i, j :: 0 <= i < j < |p.free| ==> p.free[i] != p.free[j])
    && (forall f :: 0 <= f < |p.frames| && p.frames[f].pageId == NO_PAGE ==> f in p.free)
  }

  /** A frame is in the replacer exactly when it is mapped and unpinned. */
  ghost predicate IdleOk(p: Pool) {
    forall f: nat :: f in p.idle <==> f < |p.frames| && p.frames[f].pageId != NO_PAGE && p.frames[f].pin == 0
  }

  predicate Clean(p: Pool, q: int) {
    q in p.contents && q in p.disk && p.disk[q] == p.contents[q]
  }

  /** What the memory and the disk hold of page `q`. */
  ghost predicate PageOk(p: Pool, q: int)
    requires TableOk(p)
  {
    if q in p.table then
      var fr := p.frames[p.table[q]];
      && q in p.contents && fr.data == p.contents[q]
      && (fr.dirty || q in p.debt || Clean(p, q))
      && (q in p.debt ==> fr.pin > 0)
    else
      (q in p.contents ==> 0 <= q < p.next && Clean(p, q)) && q !in p.debt
  }

  ghost predicate Inv(p: Pool) {
    TableOk(p) && FreeOk(p) && IdleOk(p) && forall q :: PageOk(p, q)
  }

  ghost predicate AllPinned(p: Pool) {
    forall f :: 0 <= f < |p.frames| ==> p.frames[f].pin > 0
  }

  /** No frame to hand out means every frame is pinned. */
  lemma NoFrameIffAllPinned(p: Pool)
    requires Inv(p)
    ensures p.free == [] && p.idle == {} <==> AllPinned(p)
  {
    if p.free == [] && p.idle == {} {
      forall f | 0 <= f < |p.frames|
        ensures p.frames[f].pin > 0
      {
        assert f !in p.idle && f !in p.free;
      }
    }
    if p.free != [] {
      assert p.frames[p.free[0]].pin == 0;
    }
    if p.idle != {} {
      var f :| f in p.idle;
      assert p.frames[f].pin == 0;
    }
  }

  // ---------- the transitions ----------

  /** Frame `f` now holds page `q`, pinned once. */
  function Mapped(p: Pool, f: nat, q: int, data: Page, dirty: bool): Pool
    requires f < |p.frames|
  {
    p.(frames := p.frames[f := Frame(data, q, 1, dirty)], table := p.table[q := f])
  }

  /** The first half of eviction: the victim's page leaves the pool, written back if dirty. */
  function Expelled(p: Pool, f: nat): Pool
    requires f < |p.frames|
  {
    var fr := p.frames[f];
    p.(frames := p.frames[f := FreeFrame()],
       table := p.table - {fr.pageId},
       free := p.free + [f],
       idle := p.idle - {f},
       disk := if fr.dirty then p.disk[fr.pageId := fr.data] else p.disk)
  }

  /** What one eviction does: a free frame first, otherwise a frame from the replacer. */
  ghost predicate Evicted(p: Pool, e: Pool, f: nat, q: int, isNew: bool) {
    && f < |p.frames| && q in p.contents
    && if p.free != [] then f == p.free[0] && e == Mapped(p.(free := p.free[1..]), f, q, p.contents[q], isNew)
       else f in p.idle && e == Mapped(Expelled(p, f).(free := p.free), f, q, p.contents[q], isNew)
  }

  ghost predicate Structure(p: Pool) {
    TableOk(p) && FreeOk(p) && IdleOk(p)
  }

  lemma FreeFrameTaken(p: Pool, e: Pool, f: nat, q: int, isNew: bool)
    requires Structure(p) && Evicted(p, e, f, q, isNew) && q !in p.table && 0 <= q < p.next && p.free != []
    ensures Structure(e) && p.frames[f].pin == 0
  {
    hide Zeros;
    assert p.frames[p.free[0]] == FreeFrame();
    assert forall g: nat :: g in p.free && g != f ==> g in e.free;
  }

  lemma VictimTaken(p: Pool, e: Pool, f: nat, q: int, isNew: bool)
    requires Structure(p) && Evicted(p, e, f, q, isNew) && q !in p.table && 0 <= q < p.next && p.free == []
    ensures Structure(e) && p.frames[f].pin == 0
  {
    hide Zeros;
  }

  lemma EvictStructure(p: Pool, e: Pool, f: nat, q: int, isNew: bool)
    requires TableOk(p) && FreeOk(p) && IdleOk(p) && Evicted(p, e, f, q, isNew) && q !in p.table && 0 <= q < p.next
    ensures TableOk(e) && FreeOk(e) && IdleOk(e) && p.frames[f].pin == 0
  {
    hide TableOk, FreeOk, IdleOk;
    if p.free != [] {
      FreeFrameTaken(p, e, f, q, isNew);
    } else {
      VictimTaken(p, e, f, q, isNew);
    }
  }

  /** Eviction loses no bytes: page `r` after it, given the pages before. */
  lemma EvictPage(p: Pool, e: Pool, f: nat, q: int, isNew: bool, r: int)
    requires TableOk(p) && FreeOk(p) && IdleOk(p) && TableOk(e) && Evicted(p, e, f, q, isNew)
    requires q !in p.table && q !in p.debt && (isNew || Clean(p, q))
    requires r != q ==> PageOk(p, r)
    requires p.free == [] ==> PageOk(p, p.frames[f].pageId)
    ensures PageOk(e, r)
  {
    if p.free != [] {
      assert p.frames[p.free[0]] == FreeFrame();
    }
  }

  lemma EvictKeepsInv(p: Pool, e: Pool, f: nat, q: int, isNew: bool)
    requires Inv(p) && Evicted(p, e, f, q, isNew) && q !in p.table && 0 <= q < p.next
    requires isNew || Clean(p, q)
    ensures Inv(e)
  {
    hide PageOk, TableOk, FreeOk, IdleOk;
    EvictStructure(p, e, f, q, isNew);
    NoDebt(p, q);
    forall r
      ensures PageOk(e, r)
    {
      EvictPage(p, e, f, q, isNew, r);
    }
  }

  lemma NoDebt(p: Pool, q: int)
    requires Inv(p) && q !in p.table
    ensures q !in p.debt
  {
    assert PageOk(p, q);
  }

  lemma InvParts(p: Pool)
    requires Inv(p)
    ensures TableOk(p) && FreeOk(p) && IdleOk(p)
  {
  }

  /** Pinned pages stay in their frames, with their bytes. `q` gets one pin more. */
  ghost predicate PinsKept(p: Pool, e: Pool, q: int)
    requires TableOk(p) && TableOk(e)
  {
    forall r :: r in p.table && p.frames[p.table[r]].pin > 0 ==>
      && r in e.table && e.table[r] == p.table[r]
      && e.frames[e.table[r]].data == p.frames[p.table[r]].data
      && e.frames[e.table[r]].pin == p.frames[p.table[r]].pin + if r == q then 1 else 0
  }

  lemma EvictKeepsPins(p: Pool, e: Pool, f: nat, q: int, isNew: bool)
    requires Inv(p) && Evicted(p, e, f, q, isNew) && q !in p.table && 0 <= q < p.next && Inv(e)
    ensures PinsKept(p, e, q)
  {
    hide PageOk, FreeOk, IdleOk;
    NoDebt(p, q);
    EvictStructure(p, e, f, q, isNew);
  }

  // ---------- the other transitions ----------

  function WithFrame(p: Pool, q: int, fr: Frame): Pool
    requires q in p.table && p.table[q] < |p.frames|
  {
    p.(frames := p.frames[p.table[q] := fr])
  }

  /** A new page id: its content is all zeros from now on. */
  function Allocated(p: Pool): Pool {
    p.(next := p.next + 1, contents := p.contents[p.next := Zeros(PAGE_SIZE)])
  }

  lemma NewPageKeepsInv(p: Pool, e: Pool, f: nat)
    requires Inv(p) && p.next >= 0 && Evicted(Allocated(p), e, f, p.next, true)
    ensures Inv(e) && PinsKept(p, e, p.next)
  {
    hide PageOk, FreeOk, IdleOk;
    FreshId(p);
    NoDebt(p, p.next);
    EvictStructure(Allocated(p), e, f, p.next, true);
    forall r
      ensures PageOk(e, r)
    {
      AllocateKeepsPage(p, r);
      if p.free == [] {
        VictimIsOld(p, f);
        AllocateKeepsPage(p, p.frames[f].pageId);
      }
      EvictPage(Allocated(p), e, f, p.next, true, r);
    }
  }

  lemma AllocateKeepsPage(p: Pool, r: int)
    requires Inv(p) && TableOk(Allocated(p))
    ensures r != p.next ==> PageOk(Allocated(p), r)
  {
    assert PageOk(p, r);
  }

  lemma VictimIsOld(p: Pool, f: nat)
    requires Inv(p) && f in p.idle
    ensures f < |p.frames| && p.frames[f].pageId < p.next
  {
  }

  predicate Resident(p: Pool, q: int) { q in p.table && p.table[q] < |p.frames| }

  function FrameOf(p: Pool, q: int): Frame
    requires Resident(p, q)
  {
    p.frames[p.table[q]]
  }

  function Unpinned(p: Pool, q: int, isDirty: bool): Pool
    requires Resident(p, q) && FrameOf(p, q).pin > 0
  {
    var fr := FrameOf(p, q);
    WithFrame(p, q, fr.(pin := fr.pin - 1, dirty := fr.dirty || isDirty))
      .(idle := if fr.pin == 1 then p.idle + {p.table[q]} else p.idle,
        debt := if isDirty then p.debt - {q} else p.debt)
  }

  /** What a client owes: the last pin of a changed page is given back as dirty. */
  predicate MayUnpin(p: Pool, q: int, isDirty: bool)
    requires Resident(p, q)
  {
    q in p.debt && !isDirty ==> FrameOf(p, q).pin > 1
  }

  lemma UnpinKeepsInv(p: Pool, q: int, isDirty: bool)
    requires Inv(p) && Resident(p, q) && FrameOf(p, q).pin > 0 && MayUnpin(p, q, isDirty)
    ensures Inv(Unpinned(p, q, isDirty))
  {
    var e := Unpinned(p, q, isDirty);
    assert p.table[q] !in p.free;
    forall r
      ensures PageOk(e, r)
    {
      assert PageOk(p, r);
    }
  }

  function Flushed(p: Pool, q: int): Pool
    requires Resident(p, q)
  {
    var fr := FrameOf(p, q);
    if fr.dirty then WithFrame(p, q, fr.(dirty := false)).(disk := p.disk[q := fr.data]) else p
  }

  lemma FlushKeepsInv(p: Pool, q: int)
    requires Inv(p) && Resident(p, q)
    ensures Inv(Flushed(p, q))
  {
    var e := Flushed(p, q);
    assert p.table[q] !in p.free;
    forall r
      ensures PageOk(e, r)
    {
      assert PageOk(p, r);
    }
  }

  /** A client's store into a pinned page. */
  function Written(p: Pool, q: int, data: Page): Pool
    requires Resident(p, q)
  {
    WithFrame(p, q, FrameOf(p, q).(data := data)).(contents := p.contents[q := data], debt := p.debt + {q})
  }

  lemma WriteKeepsInv(p: Pool, q: int, data: Page)
    requires Inv(p) && Resident(p, q) && FrameOf(p, q).pin > 0
    ensures Inv(Written(p, q, data))
  {
    var e := Written(p, q, data);
    assert p.table[q] !in p.free;
    forall r
      ensures PageOk(e, r)
    {
      assert PageOk(p, r);
    }
  }

  function Deleted(p: Pool, q: int): Pool {
    var gone := p.(contents := p.contents - {q});
    if !Resident(p, q) then gone
    else gone.(frames := p.frames[p.table[q] := FreeFrame()], table := p.table - {q},
               free := p.free + [p.table[q]], idle := p.idle - {p.table[q]})
  }

  lemma DeleteKeepsInv(p: Pool, q: int)
    requires Inv(p) && (Resident(p, q) ==> FrameOf(p, q).pin == 0)
    ensures Inv(Deleted(p, q))
  {
    var e := Deleted(p, q);
    assert Resident(p, q) ==> p.table[q] !in p.free;
    forall r
      ensures PageOk(e, r)
    {
      assert PageOk(p, r);
    }
  }

  class BufferPoolManager {
    const frames: array<Frame>
    const replacer: ClockReplacer
    var pageTable: map<int, nat>
    var freeList: seq<nat>
    /** The disk manager: the database file and the page-id counter. */
    var disk: map<int, Page>
    var nextPageId: int

    ghost var contents: map<int, Page>
    ghost var debt: set<int>

    ghost function State(): Pool
      reads this, frames, replacer, replacer.clock
    {
      Pool(frames[..], pageTable, freeList, PresentSet(replacer.clock[..]), disk, nextPageId, contents, debt)
    }

    ghost predicate Valid()
      reads this, frames, replacer, replacer.clock
    {
      && replacer.Valid() && replacer.clock.Length == frames.Length && nextPageId >= 0
      && Inv(State())
    }

    constructor (poolSize: nat)
      ensures Valid() && frames.Length == poolSize && contents == map[] && debt == {}
      ensures forall f :: 0 <= f < poolSize ==> frames[f].pin == 0
      ensures fresh(frames) && fresh(replacer) && fresh(replacer.clock)
    {
      frames := new Frame[poolSize](_ => FreeFrame());
      replacer := new ClockReplacer(poolSize);
      pageTable := map[];
      freeList := seq(poolSize, i => i);
      disk, nextPageId := map[], 0;
      contents, debt := map[], {};
      new;
      var p := State();
      forall f | 0 <= f < poolSize
        ensures f in p.free
      {
        assert p.free[f] == f;
      }
      assert forall r :: PageOk(p, r);
    }

    /** Returns the frame that holds the last bytes written to page `q`; fails exactly
        when `q` is not resident and every frame is pinned. */
    method FetchPage(q: int) returns (frame: Option<nat>)
      requires Valid() && q in contents
      modifies this, frames, replacer, replacer.clock
      ensures Valid() && contents == old(contents) && debt == old(debt) && nextPageId == old(nextPageId)
      ensures frame.None? <==> q !in old(pageTable) && AllPinned(old(State()))
      ensures frame.None? ==> State() == old(State())
      ensures frame.Some? ==> q in pageTable && pageTable[q] == frame.value < frames.Length
      ensures frame.Some? ==> frames[frame.value].data == contents[q] && frames[frame.value].pin > 0
      ensures frame.Some? && q in old(pageTable) ==>
                var was := old(frames[pageTable[q]]);
                frames[..] == old(frames[..])[frame.value := Frame(was.data, was.pageId, was.pin + 1, was.dirty)]
      ensures frame.Some? && q !in old(pageTable) ==> frames[frame.value] == Frame(contents[q], q, 1, false)
      ensures frame.Some? && q !in old(pageTable) ==>
                if old(freeList) != [] then frame.value == old(freeList)[0]
                else IsVictim(old(replacer.clock[..]), old(replacer.hand), frame.value)
      ensures frame.Some? ==> frame.value !in PresentSet(replacer.clock[..])
      ensures PinsKept(old(State()), State(), q) || frame.None?
    {
      hide Inv, PageOk, FreeOk, IdleOk, AllPinned, PinsKept, Evicted, PresentSet, Clean;
      ghost var p := State();
      InvParts(p);
      ResidentData(p, q);
      if q in pageTable {
        PinKeepsInv(p, q);
        PinEffect(p, q);
        var f := PinResident(q);
        return Some(f);
      }
      NoFrameIffAllPinned(p);
      if freeList == [] && replacer.size == 0 {
        return None;
      }
      var f := Evict(q, false);
      EvictKeepsInv(p, State(), f, q, false);
      EvictKeepsPins(p, State(), f, q, false);
      EvictData(p, State(), f, q, false);
      PinnedIsNotIdle(State(), f);
      return Some(f);
    }

    method PinResident(q: int) returns (f: nat)
      requires replacer.Valid() && replacer.clock.Length == frames.Length
      requires q in pageTable && pageTable[q] < frames.Length && IdleOk(State())
      modifies frames, replacer, replacer.clock
      ensures replacer.Valid() && f == pageTable[q]
      ensures State() == Pinned(old(State()), q)
    {
      f := pageTable[q];
      var fr := frames[f];
      frames[f] := fr.(pin := fr.pin + 1);
      if fr.pin == 0 {
        replacer.Pin(f);
      }
    }

    /** Finds a frame for page `q`, from the free list if it can, and loads `q` into it. */
    method Evict(q: int, isNew: bool) returns (f: nat)
      requires replacer.Valid() && replacer.clock.Length == frames.Length
      requires TableOk(State()) && FreeOk(State()) && IdleOk(State())
      requires freeList != [] || replacer.size != 0
      requires q !in pageTable && q in contents
      requires if isNew then contents[q] == Zeros(PAGE_SIZE) else Clean(State(), q)
      modifies this, frames, replacer, replacer.clock
      ensures replacer.Valid()
      ensures contents == old(contents) && debt == old(debt) && nextPageId == old(nextPageId)
      ensures Evicted(old(State()), State(), f, q, isNew)
      ensures old(freeList) == [] ==> IsVictim(old(replacer.clock[..]), old(replacer.hand), f)
      ensures old(freeList) != [] ==>
                && f == old(freeList)[0] && freeList == old(freeList)[1..]
                && pageTable == old(pageTable)[q := f] && disk == old(disk)
      ensures old(freeList) == [] ==>
                var was := old(frames[..])[f];
                && freeList == [] && pageTable == (old(pageTable) - {was.pageId})[q := f]
                && disk == if was.dirty then old(disk)[was.pageId := was.data] else old(disk)
      ensures frames[..] == old(frames[..])[f := Frame(contents[q], q, 1, isNew)]
    {
      hide TableOk, FreeOk, IdleOk, PresentSet, Zeros, FreeFrame, IsVictim;
      ghost var p := State();
      EvictFacts(p, q);
      if freeList != [] {
        f := freeList[0];
        freeList := freeList[1..];
        pageTable := pageTable[q := f];
        var data := if isNew then frames[f].data else disk[q];
        frames[f] := Frame(data, q, 1, isNew);
        assert frames[..] == p.frames[f := Frame(data, q, 1, isNew)];
      } else {
        f := EvictVictim(q, isNew);
      }
    }

    /** The other case: the replacer's victim leaves, written back if dirty. */
    method EvictVictim(q: int, isNew: bool) returns (f: nat)
      requires replacer.Valid() && replacer.clock.Length == frames.Length && replacer.size != 0
      requires q !in pageTable && q in contents
      requires if isNew then contents[q] == Zeros(PAGE_SIZE) else Clean(State(), q)
      requires forall g: nat :: g in State().idle ==> g < frames.Length && frames[g].pageId != q
      modifies this, frames, replacer, replacer.clock
      ensures replacer.Valid()
      ensures contents == old(contents) && debt == old(debt) && nextPageId == old(nextPageId)
      ensures f < frames.Length && f in old(State()).idle
      ensures State() == Mapped(Expelled(old(State()), f).(free := old(freeList)), f, q, contents[q], isNew)
      ensures IsVictim(old(replacer.clock[..]), old(replacer.hand), f)
    {
      hide PresentSet, IsVictim, Swept, FreeFrame, Zeros, ClockReplacer.Valid;
      ghost var p := State();
      f := TakeVictim();
      assert State() == p.(idle := p.idle - {f});
      var fr := frames[f];
      pageTable := pageTable - {fr.pageId};
      pageTable := pageTable[q := f];
      if fr.dirty {
        disk := disk[fr.pageId := fr.data];
      }
      assert State() == p.(idle := p.idle - {f}, table := pageTable, disk := disk);
      var data := if isNew then Zeros(PAGE_SIZE) else disk[q];
      frames[f] := Frame(data, q, 1, isNew);
      assert frames[..] == p.frames[f := FreeFrame()][f := Frame(data, q, 1, isNew)];
    }

    /** A fresh zero page, pinned; fails exactly when every frame is pinned. */
    method NewPage() returns (frame: Option<nat>, q: int)
      requires Valid()
      modifies this, frames, replacer, replacer.clock
      ensures Valid() && debt == old(debt)
      ensures frame.None? <==> AllPinned(old(State()))
      ensures frame.None? ==> State() == old(State()) && q == NO_PAGE
      ensures frame.Some? ==> q == old(nextPageId) && q !in old(contents)
      ensures frame.Some? ==> contents == old(contents)[q := Zeros(PAGE_SIZE)]
      ensures frame.Some? ==> q in pageTable && pageTable[q] == frame.value < frames.Length
      ensures frame.Some? ==> frames[frame.value] == Frame(Zeros(PAGE_SIZE), q, 1, true) && nextPageId == q + 1
      ensures frame.Some? ==>
                if old(freeList) != [] then frame.value == old(freeList)[0]
                else IsVictim(old(replacer.clock[..]), old(replacer.hand), frame.value)
      ensures frame.Some? ==> PinsKept(old(State()), State(), q)
    {
      hide Inv, PageOk, FreeOk, IdleOk, AllPinned, PinsKept, Evicted, TableOk, Zeros, IsVictim;
      ghost var p := State();
      InvParts(p);
      NoFrameIffAllPinned(p);
      if freeList == [] && replacer.size == 0 {
        return None, NO_PAGE;
      }
      FreshId(p);
      q := nextPageId;
      nextPageId := nextPageId + 1;
      contents := contents[q := Zeros(PAGE_SIZE)];
      assert State() == Allocated(p);
      var f := Evict(q, true);
      NewPageKeepsInv(p, State(), f);
      EvictData(Allocated(p), State(), f, q, true);
      return Some(f), q;
    }

    /** Fails exactly when the page is not pinned. */
    method UnpinPage(q: int, isDirty: bool) returns (ok: bool)
      requires Valid() && q in pageTable && MayUnpin(State(), q, isDirty)
      modifies this`debt, frames, replacer, replacer.clock
      ensures Valid()
      ensures ok == (FrameOf(old(State()), q).pin > 0)
      ensures State() == if ok then Unpinned(old(State()), q, isDirty) else old(State())
      ensures ok ==>
                var f, was := pageTable[q], old(frames[pageTable[q]]);
                && frames[f] == Frame(was.data, was.pageId, was.pin - 1, was.dirty || isDirty)
                && (forall g :: 0 <= g < frames.Length && g != f ==> frames[g] == old(frames[g]))
                && (f in PresentSet(replacer.clock[..]) <==> frames[f].pin == 0)
                && PresentSet(replacer.clock[..]) - {f} == old(PresentSet(replacer.clock[..])) - {f}
      ensures !ok ==> frames[..] == old(frames[..]) && replacer.clock[..] == old(replacer.clock[..])
      ensures pageTable == old(pageTable) && freeList == old(freeList) && disk == old(disk) && contents == old(contents)
      ensures debt == if ok && isDirty then old(debt) - {q} else old(debt)
    {
      hide Inv, PageOk, FreeOk, IdleOk, TableOk, PresentSet;
      ghost var p := State();
      InvParts(p);
      TableAt(p, q);
      if frames[pageTable[q]].pin == 0 {
        return false;
      }
      UnpinKeepsInv(p, q, isDirty);
      IdleIffUnpinned(p, q);
      ReleasePin(q, isDirty);
      return true;
    }

    method ReleasePin(q: int, isDirty: bool)
      requires replacer.Valid() && replacer.clock.Length == frames.Length
      requires q in pageTable && pageTable[q] < frames.Length && frames[pageTable[q]].pin > 0
      modifies this`debt, frames, replacer, replacer.clock
      ensures replacer.Valid() && debt == if isDirty then old(debt) - {q} else old(debt)
      ensures var f, was := pageTable[q], old(frames[pageTable[q]]);
              && frames[..] == old(frames[..])[f := Frame(was.data, was.pageId, was.pin - 1, was.dirty || isDirty)]
              && PresentSet(replacer.clock[..]) ==
                 if was.pin == 1 then old(PresentSet(replacer.clock[..])) + {f} else old(PresentSet(replacer.clock[..]))
    {
      hide PresentSet;
      var f := pageTable[q];
      var fr := frames[f];
      frames[f] := fr.(pin := fr.pin - 1, dirty := fr.dirty || isDirty);
      if fr.pin == 1 {
        replacer.Unpin(f);
      }
      debt := if isDirty then debt - {q} else debt;
    }

    method FlushPage(q: int) returns (ok: bool)
      requires Valid()
      modifies this`disk, frames
      ensures Valid() && ok == (q in old(pageTable))
      ensures State() == if ok then Flushed(old(State()), q) else old(State())
      ensures ok ==>
                var f, was := pageTable[q], old(frames[pageTable[q]]);
                && frames[f] == Frame(was.data, was.pageId, was.pin, false)
                && (forall g :: 0 <= g < frames.Length && g != f ==> frames[g] == old(frames[g]))
                && disk == (if was.dirty then old(disk)[q := was.data] else old(disk))
                && (q !in debt ==> q in disk && q in contents && disk[q] == contents[q])
      ensures !ok ==> frames[..] == old(frames[..]) && disk == old(disk)
      ensures pageTable == old(pageTable) && freeList == old(freeList) && contents == old(contents) && debt == old(debt)
    {
      hide Inv, PageOk, FreeOk, IdleOk;
      ghost var p := State();
      InvParts(p);
      if q !in pageTable {
        return false;
      }
      FlushKeepsInv(p, q);
      FlushedIsClean(p, q);
      var f := pageTable[q];
      var fr := frames[f];
      if fr.pageId != NO_PAGE && fr.dirty {
        frames[f] := fr.(dirty := false);
        disk := disk[fr.pageId := fr.data];
        assert frames[..] == Flushed(p, q).frames;
      }
      return true;
    }

    /** Afterwards nothing is dirty and every page no client owes is on disk. */
    method FlushAllPages()
      requires Valid()
      modifies this`disk, frames
      ensures Valid()
      ensures forall f :: 0 <= f < frames.Length ==> frames[f] == old(frames[f]).(dirty := frames[f].dirty)
      ensures forall f :: 0 <= f < frames.Length && frames[f].pageId != NO_PAGE ==> !frames[f].dirty
      ensures forall r :: r in contents && r !in debt ==> r in disk && disk[r] == contents[r]
    {
      hide Inv, PageOk, FreeOk, IdleOk;
      var i := 0;
      while i < frames.Length
        invariant 0 <= i <= frames.Length && Valid()
        invariant forall f :: 0 <= f < frames.Length ==> frames[f] == old(frames[f]).(dirty := frames[f].dirty)
        invariant forall f :: 0 <= f < i && frames[f].pageId != NO_PAGE ==> !frames[f].dirty
      {
        ghost var p := State();
        InvParts(p);
        var fr := frames[i];
        if fr.pageId != NO_PAGE && fr.dirty {
          FlushKeepsInv(p, fr.pageId);
          disk := disk[fr.pageId := fr.data];
          frames[i] := fr.(dirty := false);
          assert frames[..] == Flushed(p, fr.pageId).frames;
          assert State() == Flushed(p, fr.pageId);
        }
        i := i + 1;
      }
      InvParts(State());
      AllClean(State());
    }

    /** Gives up a page nobody pins. */
    method DeletePage(q: int) returns (ok: bool)
      requires Valid()
      modifies this, frames, replacer, replacer.clock
      ensures Valid()
      ensures ok == (q in old(pageTable) ==> FrameOf(old(State()), q).pin == 0)
      ensures State() == if ok then Deleted(old(State()), q) else old(State())
      ensures ok ==> q !in pageTable && q !in contents && contents == old(contents) - {q} && disk == old(disk)
      ensures ok && q in old(pageTable) ==>
                var f := old(pageTable)[q];
                && frames[..] == old(frames[..])[f := Frame(Zeros(PAGE_SIZE), NO_PAGE, 0, false)]
                && pageTable == old(pageTable) - {q} && freeList == old(freeList) + [f]
                && PresentSet(replacer.clock[..]) == old(PresentSet(replacer.clock[..])) - {f}
      ensures !ok || q !in old(pageTable) ==>
                frames[..] == old(frames[..]) && pageTable == old(pageTable) && freeList == old(freeList)
    {
      hide Inv, PageOk, FreeOk, IdleOk;
      ghost var p := State();
      InvParts(p);
      if q !in pageTable {
        DeleteKeepsInv(p, q);
        contents := contents - {q};
        return true;
      }
      var f := pageTable[q];
      if frames[f].pin != 0 {
        return false;
      }
      DeleteKeepsInv(p, q);
      replacer.Pin(f);
      pageTable := pageTable - {q};
      freeList := freeList + [f];
      frames[f] := FreeFrame();
      contents := contents - {q};
      assert frames[..] == Deleted(p, q).frames;
      return true;
    }

    /** A client writes to a page it has pinned. */
    method WriteThroughPin(q: int, data: Page)
      requires Valid() && q in pageTable && FrameOf(State(), q).pin > 0
      modifies this`contents, this`debt, frames
      ensures Valid() && State() == Written(old(State()), q, data)
      ensures frames[..] == old(frames[..])[pageTable[q] := old(frames[pageTable[q]]).(data := data)]
      ensures contents == old(contents)[q := data] && debt == old(debt) + {q}
    {
      hide Inv, PageOk, FreeOk, IdleOk;
      ghost var p := State();
      InvParts(p);
      WriteKeepsInv(p, q, data);
      frames[pageTable[q]] := frames[pageTable[q]].(data := data);
      contents := contents[q := data];
      debt := debt + {q};
      assert frames[..] == Written(p, q, data).frames;
    }

    method TakeVictim() returns (f: nat)
      requires replacer.Valid() && replacer.size != 0
      modifies replacer, replacer.clock
      ensures replacer.Valid()
      ensures f in old(PresentSet(replacer.clock[..])) && f < replacer.clock.Length
      ensures PresentSet(replacer.clock[..]) == old(PresentSet(replacer.clock[..])) - {f}
      ensures IsVictim(old(replacer.clock[..]), old(replacer.hand), f)
    {
      hide PresentSet, Swept;
      var found;
      found, f := replacer.Victim();
      VictimPresent(old(replacer.clock[..]), old(replacer.hand), f);
      replacer.Pin(f);
    }
  }

  lemma EvictFacts(p: Pool, q: int)
    requires TableOk(p) && FreeOk(p) && IdleOk(p) && q !in p.table
    ensures p.free != [] ==> p.free[0] < |p.frames| && p.frames[p.free[0]].data == Zeros(PAGE_SIZE)
    ensures forall f: nat :: f in p.idle ==> f < |p.frames| && p.frames[f].pageId != q
  {
  }

  lemma VictimPresent(s: seq<Cell>, hand: nat, f: nat)
    requires IsVictim(s, hand, f)
    ensures f in PresentSet(s)
  {
  }

  lemma ResidentData(p: Pool, q: int)
    requires Inv(p) && q in p.contents
    ensures q in p.table ==> p.frames[p.table[q]].data == p.contents[q]
    ensures q !in p.table ==> 0 <= q < p.next && Clean(p, q)
  {
    assert PageOk(p, q);
  }

  lemma EvictData(p: Pool, e: Pool, f: nat, q: int, isNew: bool)
    requires Evicted(p, e, f, q, isNew)
    ensures q in e.table && e.table[q] == f < |e.frames| && e.frames[f] == Frame(p.contents[q], q, 1, isNew)
    ensures p.free != [] ==> f == p.free[0]
  {
  }

  /** A pin count one higher, and the frame out of the replacer. */
  lemma PinEffect(p: Pool, q: int)
    requires Inv(p) && q in p.table
    ensures var e, f := Pinned(p, q), p.table[q];
            && e.frames == p.frames[f := p.frames[f].(pin := p.frames[f].pin + 1)] && f !in e.idle
            && e.table == p.table
  {
  }

  lemma TableAt(p: Pool, q: int)
    requires TableOk(p) && q in p.table
    ensures p.table[q] < |p.frames|
  {
  }

  lemma PinnedIsNotIdle(p: Pool, f: nat)
    requires Inv(p) && f < |p.frames| && p.frames[f].pin > 0
    ensures f !in p.idle
  {
  }

  lemma IdleIffUnpinned(p: Pool, q: int)
    requires Inv(p) && q in p.table
    ensures p.table[q] in p.idle <==> p.frames[p.table[q]].pin == 0
  {
  }

  lemma FlushedIsClean(p: Pool, q: int)
    requires Inv(p) && Resident(p, q)
    ensures q !in p.debt ==> Clean(Flushed(p, q), q)
    ensures FrameOf(p, q).pageId == q != NO_PAGE
  {
    assert PageOk(p, q);
  }

  function Pinned(p: Pool, q: int): Pool
    requires q in p.table && p.table[q] < |p.frames|
  {
    var fr := p.frames[p.table[q]];
    WithFrame(p, q, fr.(pin := fr.pin + 1)).(idle := p.idle - {p.table[q]})
  }

  lemma PinKeepsInv(p: Pool, q: int)
    requires Inv(p) && q in p.table
    ensures Inv(Pinned(p, q)) && PinsKept(p, Pinned(p, q), q)
  {
    var e := Pinned(p, q);
    assert p.table[q] !in p.free;
    forall r
      ensures PageOk(e, r)
    {
      assert PageOk(p, r);
    }
  }

  lemma FreshId(p: Pool)
    requires Inv(p)
    ensures p.next !in p.table && p.next !in p.contents
    ensures TableOk(Allocated(p)) && FreeOk(Allocated(p)) && IdleOk(Allocated(p))
  {
    assert PageOk(p, p.next);
  }

  lemma AllClean(p: Pool)
    requires Inv(p) && forall f :: 0 <= f < |p.frames| && p.frames[f].pageId != NO_PAGE ==> !p.frames[f].dirty
    ensures forall r :: r in p.contents && r !in p.debt ==> Clean(p, r)
  {
    forall r | r in p.contents && r !in p.debt
      ensures Clean(p, r)
    {
      assert PageOk(p, r);
    }
  }

  /** One frame, two pages: the first page is written, given back, evicted by the second, and
      fetched again with its bytes. */
  method SurvivesEviction(data: Page) returns (back: Page)
    ensures back == data
  {
    hide Inv, PinsKept, IsVictim, PresentSet;
    var pool := new BufferPoolManager(1);
    SomeUnpinned(pool.State());
    var frame, a := pool.NewPage();
    pool.WriteThroughPin(a, data);
    var ok := pool.UnpinPage(a, true);
    SomeUnpinned(pool.State());
    var b;
    frame, b := pool.NewPage();
    ok := pool.UnpinPage(b, true);
    SomeUnpinned(pool.State());
    frame := pool.FetchPage(a);
    back := pool.frames[frame.value].data;
  }

  lemma SomeUnpinned(p: Pool)
    requires |p.frames| > 0 && p.frames[0].pin == 0
    ensures !AllPinned(p)
  {
  }
}
