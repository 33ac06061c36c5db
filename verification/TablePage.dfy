/** The slotted page: 4096 bytes changed in place. The header is
    page id, LSN, previous id, next id, free-space pointer, slot count (4 bytes each);
    the directory of (offset, size) pairs grows up from byte 24, tuples grow down
    from the page end. `View` reads the page as a slot map. */
module TablePageModel {
  import opened Bytes
  import opened SlotMap

  const MAX_SLOTS := 509
  const INVALID_PAGE_ID: int32 := -1

  datatype RID = RID(pageId: int32, slot: uint32)

  predicate IsPage(p: seq<byte>) { |p| == PAGE_SIZE }

  type Page = p: seq<byte> | IsPage(p) witness Zeros(PAGE_SIZE)

  function PageId(p: seq<byte>): int32 requires IsPage(p) { ReadI32(p, 0) }
  function Lsn(p: seq<byte>): int32 requires IsPage(p) { ReadI32(p, 4) }
  function PrevId(p: seq<byte>): int32 requires IsPage(p) { ReadI32(p, 8) }
  function NextId(p: seq<byte>): int32 requires IsPage(p) { ReadI32(p, 12) }
  function Fsp(p: seq<byte>): uint32 requires IsPage(p) { ReadU32(p, 16) }
  function Count(p: seq<byte>): uint32 requires IsPage(p) { ReadU32(p, 20) }

  function Off(p: seq<byte>, i: nat): uint32
    requires IsPage(p) && i < MAX_SLOTS
  {
    ReadU32(p, 24 + 8 * i)
  }

  function Sz(p: seq<byte>, i: nat): uint32
    requires IsPage(p) && i < MAX_SLOTS
  {
    ReadU32(p, 28 + 8 * i)
  }

  /** The top bit of the size word is the delete mark; a zero word is a free slot. */
  predicate IsDeleted(size: uint32) { size >= TWO_31 || size == 0 }
  function SetDeletedFlag(size: uint32): uint32 { if size >= TWO_31 then size else size + TWO_31 }
  function UnsetDeletedFlag(size: uint32): uint32 { size % TWO_31 }

  function Len(p: seq<byte>, i: nat): uint32
    requires IsPage(p) && i < MAX_SLOTS
  {
    UnsetDeletedFlag(Sz(p, i))
  }

  function SlotAt(p: seq<byte>, i: nat): Slot
    requires IsPage(p) && i < MAX_SLOTS
  {
    if Sz(p, i) == 0 || Off(p, i) + Len(p, i) > PAGE_SIZE then Empty
    else Tuple(p[Off(p, i)..Off(p, i) + Len(p, i)], Sz(p, i) >= TWO_31)
  }

  predicate DirectoryFits(p: seq<byte>) {
    IsPage(p) && SIZE_TABLE_PAGE_HEADER + SIZE_TUPLE * Count(p) <= Fsp(p) <= PAGE_SIZE
  }

  function View(p: seq<byte>): (v: seq<Slot>)
    requires DirectoryFits(p)
    ensures |v| == Count(p)
  {
    seq(Count(p), i requires 0 <= i < Count(p) => SlotAt(p, i))
  }

  predicate InHeap(p: seq<byte>, i: nat)
    requires IsPage(p) && i < MAX_SLOTS
  {
    0 < Len(p, i) && Fsp(p) <= Off(p, i) && Off(p, i) + Len(p, i) <= PAGE_SIZE
  }

  predicate Apart(p: seq<byte>, i: nat, j: nat)
    requires IsPage(p) && i < MAX_SLOTS && j < MAX_SLOTS
  {
    Off(p, i) + Len(p, i) <= Off(p, j) || Off(p, j) + Len(p, j) <= Off(p, i)
  }

  ghost predicate SlotsInHeap(p: seq<byte>)
    requires DirectoryFits(p)
  {
    forall i :: 0 <= i < Count(p) && Sz(p, i) != 0 ==> InHeap(p, i)
  }

  ghost predicate SlotsApart(p: seq<byte>)
    requires DirectoryFits(p)
  {
    forall i, j :: 0 <= i < j < Count(p) && Sz(p, i) != 0 && Sz(p, j) != 0 ==> Apart(p, i, j)
  }

  /** The page invariant: the directory stays below the free-space pointer, tuples lie
      above it, do not overlap, and take up exactly the bytes above it. */
  ghost predicate Inv(p: seq<byte>) {
    && DirectoryFits(p)
    && SlotsInHeap(p)
    && SlotsApart(p)
    && Used(View(p)) == PAGE_SIZE - Fsp(p)
  }

  /** No unsigned subtraction wraps on a valid page: the 32-bit computation in the code
      is the free space of the slot map. */
  lemma FreeSpaceExact(p: seq<byte>)
    requires Inv(p)
    ensures DirectoryFits(p) && FreeSpace(View(p)) == Fsp(p) - SIZE_TABLE_PAGE_HEADER - SIZE_TUPLE * Count(p)
    ensures 0 <= FreeSpace(View(p))
  {
  }

  lemma ViewCount(p: seq<byte>)
    requires Inv(p)
    ensures DirectoryFits(p) && |View(p)| == Count(p)
  {
  }

  /** On a valid page the size word alone tells what a slot holds. */
  lemma ReadSlot(p: seq<byte>, i: nat)
    requires Inv(p) && i < Count(p)
    ensures View(p)[i] == SlotAt(p, i)
    ensures Sz(p, i) == 0 <==> View(p)[i].Empty?
    ensures Sz(p, i) != 0 ==> InHeap(p, i)
    ensures Sz(p, i) != 0 ==> View(p)[i].marked == (Sz(p, i) >= TWO_31) && |View(p)[i].data| == Len(p, i)
    ensures Live(View(p), i) <==> !IsDeleted(Sz(p, i))
  {
    hide ReadU32;
    if Sz(p, i) != 0 {
      assert InHeap(p, i);
    }
  }

  lemma LiveLen(size: uint32)
    requires size < TWO_31
    ensures UnsetDeletedFlag(size) == size
  {
  }

  // ---------- refinement ----------

  /** Slot `j` holds the same tuple in `q` as in `p`, wherever it now lies. */
  ghost predicate SameTuple(p: seq<byte>, q: seq<byte>, j: nat)
    requires IsPage(p) && IsPage(q) && j < MAX_SLOTS
  {
    && Sz(q, j) == Sz(p, j)
    && (Sz(p, j) != 0 ==> InHeap(q, j) && SlotAt(q, j) == SlotAt(p, j))
  }

  /** `q` is `p` with the tuple of slot `s` replaced by `slot`. */
  ghost predicate Replaced(p: seq<byte>, q: seq<byte>, s: nat, slot: Slot)
    requires DirectoryFits(p) && DirectoryFits(q)
  {
    && s <= Count(p)
    && Count(q) == (if s == Count(p) then Count(p) + 1 else Count(p))
    && (forall j :: 0 <= j < Count(p) && j != s ==> SameTuple(p, q, j))
    && SlotAt(q, s) == slot
    && (Sz(q, s) != 0 ==> InHeap(q, s))
  }

  lemma ReplacedView(p: seq<byte>, q: seq<byte>, s: nat, slot: Slot)
    requires DirectoryFits(p) && DirectoryFits(q) && Replaced(p, q, s, slot)
    ensures View(q) == Put(View(p), s, slot)
  {
    hide ReadU32, UnsetDeletedFlag;
    var w := Put(View(p), s, slot);
    forall j | 0 <= j < Count(q)
      ensures View(q)[j] == w[j]
    {
      if j != s {
        assert SameTuple(p, q, j);
      }
    }
  }

  /** If only slot `s` changed its tuple and the free-space pointer moved by the size
      difference, the page is valid and its view changed at `s` only. */
  lemma OneSlotChanged(p: seq<byte>, q: seq<byte>, s: nat, slot: Slot)
    requires Inv(p) && DirectoryFits(q) && Replaced(p, q, s, slot) && SlotsApart(q)
    requires Fsp(q) == Fsp(p) - Size(slot) + if s < Count(p) then Size(SlotAt(p, s)) else 0
    ensures Inv(q) && View(q) == Put(View(p), s, slot)
  {
    hide ReadU32, UnsetDeletedFlag;
    ReplacedView(p, q, s, slot);
    UsedPut(View(p), s, slot);
    forall j | 0 <= j < Count(q) && Sz(q, j) != 0
      ensures InHeap(q, j)
    {
      if j != s {
        assert SameTuple(p, q, j);
      }
    }
  }

  /** Page id, LSN and links do not matter to the slots. */
  lemma TailDecides(p: seq<byte>, q: seq<byte>)
    requires Inv(p) && IsPage(q) && q[16..] == p[16..]
    ensures Inv(q) && View(q) == View(p)
  {
    assert forall k :: 16 <= k < PAGE_SIZE ==> q[k] == q[16..][k - 16] && p[k] == p[16..][k - 16];
    assert forall o: nat :: 16 <= o && o + 4 <= PAGE_SIZE ==> ReadU32(q, o) == ReadU32(p, o);
    hide ReadU32;
    assert Fsp(q) == Fsp(p) && Count(q) == Count(p);
    assert forall j :: 0 <= j < Count(p) ==> Off(q, j) == Off(p, j) && Sz(q, j) == Sz(p, j);
    TailSlots(p, q);
  }

  lemma TailSlots(p: seq<byte>, q: seq<byte>)
    requires Inv(p) && DirectoryFits(q) && Fsp(q) == Fsp(p) && Count(q) == Count(p)
    requires forall k :: 16 <= k < PAGE_SIZE ==> q[k] == p[k]
    requires forall j :: 0 <= j < Count(p) ==> Off(q, j) == Off(p, j) && Sz(q, j) == Sz(p, j)
    ensures Inv(q) && View(q) == View(p)
  {
    hide ReadU32;
    forall j | 0 <= j < Count(p)
      ensures View(q)[j] == View(p)[j] && (Sz(q, j) != 0 ==> InHeap(q, j))
    {
      ReadSlot(p, j);
      assert Sz(p, j) != 0 ==> q[Off(q, j)..Off(q, j) + Len(q, j)] == p[Off(p, j)..Off(p, j) + Len(p, j)];
    }
    assert View(q) == View(p);
    forall i, j | 0 <= i < j < Count(q) && Sz(q, i) != 0 && Sz(q, j) != 0
      ensures Apart(q, i, j)
    {
      assert Apart(p, i, j);
    }
  }

  /** What storing one directory word does to the rest of the page. */
  lemma StoreOff(p: seq<byte>, i: nat, o: uint32)
    requires IsPage(p) && i < MAX_SLOTS
    ensures var q := Splice(p, 24 + 8 * i, EncodeU32(o));
            && q[..24] == p[..24] && Fsp(q) == Fsp(p) && Count(q) == Count(p)
            && Off(q, i) == o
            && (forall j :: 0 <= j < MAX_SLOTS && j != i ==> Off(q, j) == Off(p, j))
            && (forall j :: 0 <= j < MAX_SLOTS ==> Sz(q, j) == Sz(p, j))
            && forall k :: 32 + 8 * i <= k < PAGE_SIZE ==> q[k] == p[k]
  {
    hide ReadU32;
    SpliceAt(p, 24 + 8 * i, EncodeU32(o));
    StoreU32(p, 24 + 8 * i, o);
  }

  lemma StoreSz(p: seq<byte>, i: nat, n: uint32)
    requires IsPage(p) && i < MAX_SLOTS
    ensures var q := Splice(p, 28 + 8 * i, EncodeU32(n));
            && q[..24] == p[..24] && Fsp(q) == Fsp(p) && Count(q) == Count(p)
            && Sz(q, i) == n
            && (forall j :: 0 <= j < MAX_SLOTS && j != i ==> Sz(q, j) == Sz(p, j))
            && (forall j :: 0 <= j < MAX_SLOTS ==> Off(q, j) == Off(p, j))
            && forall k :: 32 + 8 * i <= k < PAGE_SIZE ==> q[k] == p[k]
  {
    hide ReadU32;
    SpliceAt(p, 28 + 8 * i, EncodeU32(n));
    StoreU32(p, 28 + 8 * i, n);
  }

  lemma StoreHeader(p: seq<byte>, at: nat, n: uint32)
    requires IsPage(p) && at in {0, 4, 8, 12, 16, 20}
    ensures var q := Splice(p, at, EncodeU32(n));
            && ReadU32(q, at) == n
            && (forall o :: o in {0, 4, 8, 12, 16, 20} && o != at ==> ReadU32(q, o) == ReadU32(p, o))
            && (forall j :: 0 <= j < MAX_SLOTS ==> Off(q, j) == Off(p, j) && Sz(q, j) == Sz(p, j))
            && q[24..] == p[24..]
            && (at >= 16 ==> q[..16] == p[..16])
  {
    SpliceAt(p, at, EncodeU32(n));
    StoreU32(p, at, n);
  }

  /** Copying bytes above the directory leaves the header and directory alone. */
  lemma StoreHeap(p: seq<byte>, at: nat, b: seq<byte>, n: nat)
    requires IsPage(p) && n <= MAX_SLOTS && 24 + 8 * n <= at && at + |b| <= PAGE_SIZE
    ensures var q := Splice(p, at, b);
            && q[..24] == p[..24] && Fsp(q) == Fsp(p) && Count(q) == Count(p)
            && (forall j :: 0 <= j < n ==> Off(q, j) == Off(p, j) && Sz(q, j) == Sz(p, j))
  {
    SpliceAt(p, at, b);
  }

  /** Insert: the tuple goes right below the old free-space pointer. */
  lemma InsertRefines(p: seq<byte>, q: seq<byte>, i: nat, t: seq<byte>)
    requires Inv(p) && IsPage(q) && 0 < |t| && CanInsert(View(p), t) && i == FirstEmpty(View(p))
    requires Count(q) == (if i == Count(p) then Count(p) + 1 else Count(p)) && Fsp(q) == Fsp(p) - |t|
    requires Off(q, i) == Fsp(q) && Sz(q, i) == |t|
    requires forall j :: 0 <= j < Count(p) && j != i ==> Off(q, j) == Off(p, j) && Sz(q, j) == Sz(p, j)
    requires forall k :: Fsp(q) <= k < PAGE_SIZE ==> q[k] == if k < Fsp(p) then t[k - Fsp(q)] else p[k]
    ensures Inv(q) && View(q) == Inserted(View(p), t)
  {
    hide ReadU32;
    forall j | 0 <= j < Count(p) && j != i
      ensures SameTuple(p, q, j)
    {
      assert Sz(p, j) != 0 ==> InHeap(p, j);
    }
    assert forall k :: 0 <= k < |t| ==> q[Fsp(q) + k] == t[k];
    assert q[Fsp(q)..Fsp(q) + |t|] == t;
    if i < Count(p) {
      ReadSlot(p, i);
    }
    assert SlotsApart(q) by {
      forall j, k | 0 <= j < k < Count(q) && Sz(q, j) != 0 && Sz(q, k) != 0
        ensures Apart(q, j, k)
      {
        assert j != i && k != i ==> Apart(p, j, k);
        assert j != i ==> InHeap(p, j);
        assert k != i ==> InHeap(p, k);
      }
    }
    OneSlotChanged(p, q, i, Tuple(t, false));
  }

  lemma FirstFree(p: seq<byte>, i: nat)
    requires Inv(p) && i <= Count(p)
    requires forall j :: 0 <= j < i ==> Sz(p, j) != 0
    requires i < Count(p) ==> Sz(p, i) == 0
    ensures i == FirstEmpty(View(p))
  {
    hide ReadU32;
    assert forall j :: 0 <= j < i ==> InHeap(p, j) && View(p)[j].Tuple?;
    assert i < Count(p) ==> View(p)[i].Empty?;
  }

  /** The page after the insert's writes. */
  ghost function Added(p: seq<byte>, i: nat, t: seq<byte>): (q: seq<byte>)
    requires DirectoryFits(p) && i <= Count(p)
    requires |t| + SIZE_TUPLE <= Fsp(p) - SIZE_TABLE_PAGE_HEADER - SIZE_TUPLE * Count(p)
    ensures IsPage(q)
  {
    var f := Fsp(p) - |t|;
    var p1 := Splice(p, 16, EncodeU32(f));
    var p2 := Splice(p1, f, t);
    var p3 := Splice(p2, 24 + 8 * i, EncodeU32(f));
    var p4 := Splice(p3, 28 + 8 * i, EncodeU32(|t|));
    if i == Count(p) then Splice(p4, 20, EncodeU32(i + 1)) else p4
  }

  lemma AddedWords(p: seq<byte>, i: nat, t: seq<byte>)
    requires DirectoryFits(p) && i <= Count(p)
    requires |t| + SIZE_TUPLE <= Fsp(p) - SIZE_TABLE_PAGE_HEADER - SIZE_TUPLE * Count(p)
    ensures var q := Added(p, i, t);
            && q[..16] == p[..16] && Fsp(q) == Fsp(p) - |t|
            && Count(q) == (if i == Count(p) then Count(p) + 1 else Count(p))
            && Off(q, i) == Fsp(q) && Sz(q, i) == |t|
            && forall j :: 0 <= j < Count(p) && j != i ==> Off(q, j) == Off(p, j) && Sz(q, j) == Sz(p, j)
  {
    hide ReadU32, EncodeU32;
    var n, f := Count(p), Fsp(p) - |t|;
    StoreHeader(p, 16, f);
    var p1 := Splice(p, 16, EncodeU32(f));
    StoreHeap(p1, f, t, n + 1);
    var p2 := Splice(p1, f, t);
    StoreOff(p2, i, f);
    var p3 := Splice(p2, 24 + 8 * i, EncodeU32(f));
    StoreSz(p3, i, |t|);
    var p4 := Splice(p3, 28 + 8 * i, EncodeU32(|t|));
    StoreHeader(p4, 20, n + 1);
  }

  lemma AddedRefines(p: seq<byte>, t: seq<byte>)
    requires Inv(p) && CanInsert(View(p), t) && 0 < |t|
    ensures var q := Added(p, FirstEmpty(View(p)), t);
            Inv(q) && View(q) == Inserted(View(p), t) && q[..16] == p[..16]
  {
    hide ReadU32, Added;
    var i := FirstEmpty(View(p));
    AddedWords(p, i, t);
    AddedBytes(p, i, t);
    InsertRefines(p, Added(p, i, t), i, t);
  }

  lemma AddedBytes(p: seq<byte>, i: nat, t: seq<byte>)
    requires DirectoryFits(p) && i <= Count(p)
    requires |t| + SIZE_TUPLE <= Fsp(p) - SIZE_TABLE_PAGE_HEADER - SIZE_TUPLE * Count(p)
    ensures forall k :: Fsp(p) - |t| <= k < PAGE_SIZE ==>
              Added(p, i, t)[k] == if k < Fsp(p) then t[k - Fsp(p) + |t|] else p[k]
  {
    hide ReadU32, EncodeU32, Splice;
    var n, f := Count(p), Fsp(p) - |t|;
    var p1 := Splice(p, 16, EncodeU32(f));
    SpliceAt(p, 16, EncodeU32(f));
    var p2 := Splice(p1, f, t);
    SpliceAt(p1, f, t);
    var p3 := Splice(p2, 24 + 8 * i, EncodeU32(f));
    SpliceAt(p2, 24 + 8 * i, EncodeU32(f));
    var p4 := Splice(p3, 28 + 8 * i, EncodeU32(|t|));
    SpliceAt(p3, 28 + 8 * i, EncodeU32(|t|));
    SpliceAt(p4, 20, EncodeU32(n + 1));
  }

  lemma MarkRefines(p: seq<byte>, s: nat, size: uint32)
    requires Inv(p) && s < Count(p) && UnsetDeletedFlag(size) == Len(p, s) && (size == 0 <==> Sz(p, s) == 0)
    ensures var q := Splice(p, 28 + 8 * s, EncodeU32(size));
            Inv(q) && View(q) == WithMark(View(p), s, size >= TWO_31) && q[..16] == p[..16]
  {
    hide ReadU32, EncodeU32;
    StoreSz(p, s, size);
    var q := Splice(p, 28 + 8 * s, EncodeU32(size));
    Prefix(p, q);
    ReadSlot(p, s);
    var slot := if Sz(p, s) == 0 then Empty else Tuple(SlotAt(p, s).data, size >= TWO_31);
    assert SlotAt(q, s) == slot;
    forall j | 0 <= j < Count(p) && j != s
      ensures SameTuple(p, q, j)
    {
      assert Sz(p, j) != 0 ==> InHeap(p, j);
      assert Sz(p, j) != 0 ==> SlotAt(q, j).data == SlotAt(p, j).data;
    }
    assert SlotsApart(q) by {
      forall j, k | 0 <= j < k < Count(q) && Sz(q, j) != 0 && Sz(q, k) != 0
        ensures Apart(q, j, k)
      {
        assert Apart(p, j, k);
      }
    }
    OneSlotChanged(p, q, s, slot);
  }

  /** Update and apply-delete: everything below tuple `s` slid by the size difference.
      `slot` is the new tuple, or `Empty` for apply-delete. */
  ghost predicate Slid(p: seq<byte>, q: seq<byte>, s: nat, slot: Slot)
    requires DirectoryFits(p) && IsPage(q) && s < Count(p)
  {
    var d := Len(p, s) - Size(slot);
    && Count(q) == Count(p) && Fsp(q) == Fsp(p) + d
    && (forall j :: 0 <= j < Count(p) && j != s ==> Sz(q, j) == Sz(p, j))
    && (forall j :: 0 <= j < Count(p) && j != s && Sz(p, j) != 0 ==>
          Off(q, j) == Off(p, j) + if Off(p, j) < Off(p, s) then d else 0)
    && Sz(q, s) == Size(slot) && (slot.Tuple? ==> Off(q, s) == Off(p, s) + d)
    && (forall k :: Off(p, s) + Len(p, s) <= k < PAGE_SIZE ==> q[k] == p[k])
    && (forall k :: Fsp(p) <= k < PAGE_SIZE && k < Off(p, s) && 0 <= k + d < PAGE_SIZE ==> q[k + d] == p[k])
  }

  lemma SlidTuple(p: seq<byte>, q: seq<byte>, s: nat, slot: Slot, j: nat)
    requires Inv(p) && IsPage(q) && Occupied(View(p), s) && Slid(p, q, s, slot)
    requires j < Count(p) && j != s
    ensures SameTuple(p, q, j)
  {
    hide ReadU32, UnsetDeletedFlag;
    assert View(p)[s] == SlotAt(p, s);
    if Sz(p, j) != 0 {
      assert InHeap(p, s) && InHeap(p, j);
      assert if j < s then Apart(p, j, s) else Apart(p, s, j);
      var d := Len(p, s) - Size(slot);
      if Off(p, j) < Off(p, s) {
        assert forall k :: Off(p, j) <= k < Off(p, j) + Len(p, j) ==> q[k + d] == p[k];
      }
      assert SlotAt(q, j).data == SlotAt(p, j).data;
    }
  }

  lemma SlidApart(p: seq<byte>, q: seq<byte>, s: nat, slot: Slot)
    requires Inv(p) && DirectoryFits(q) && Occupied(View(p), s) && Slid(p, q, s, slot)
    requires Size(slot) < TWO_31
    ensures SlotsApart(q)
  {
    hide ReadU32;
    assert View(p)[s] == SlotAt(p, s);
    forall j, k | 0 <= j < k < Count(q) && Sz(q, j) != 0 && Sz(q, k) != 0
      ensures Apart(q, j, k)
    {
      assert InHeap(p, j) && InHeap(p, k) && Apart(p, j, k) && InHeap(p, s);
      assert if j < s then Apart(p, j, s) else j == s || Apart(p, s, j);
      assert if k < s then Apart(p, k, s) else k == s || Apart(p, s, k);
    }
  }

  lemma SlidRefines(p: seq<byte>, q: seq<byte>, s: nat, slot: Slot)
    requires Inv(p) && IsPage(q) && Occupied(View(p), s) && Slid(p, q, s, slot)
    requires Size(slot) <= FreeSpace(View(p)) + Len(p, s)
    requires slot.Tuple? ==> !slot.marked && slot.data != [] && q[Off(q, s)..Off(q, s) + |slot.data|] == slot.data
    ensures Inv(q) && View(q) == View(p)[s := slot]
  {
    hide ReadU32;
    assert View(p)[s] == SlotAt(p, s);
    assert InHeap(p, s);
    forall j | 0 <= j < Count(p) && j != s
      ensures SameTuple(p, q, j)
    {
      SlidTuple(p, q, s, slot, j);
    }
    SlidApart(p, q, s, slot);
    OneSlotChanged(p, q, s, slot);
  }

  predicate CanOverwrite(p: seq<byte>, s: nat, t: seq<byte>) {
    && DirectoryFits(p) && s < Count(p) <= MAX_SLOTS && InHeap(p, s)
    && SIZE_TABLE_PAGE_HEADER + SIZE_TUPLE * Count(p) <= Fsp(p) + Len(p, s) - |t|
  }

  /** The page after the update's four writes, before the offset loop: tuples below
      moved, free-space pointer moved, new tuple copied in, its size word set. */
  ghost function Overwritten(p: seq<byte>, s: nat, t: seq<byte>): (q: seq<byte>)
    requires CanOverwrite(p, s, t)
    ensures IsPage(q)
  {
    var (f, o, d) := (Fsp(p), Off(p, s), Len(p, s) - |t|);
    var p1 := Splice(p, f + d, p[f..o]);
    var p2 := Splice(p1, 16, EncodeU32(f + d));
    var p3 := Splice(p2, o + d, t);
    Splice(p3, 28 + 8 * s, EncodeU32(|t|))
  }

  lemma Prefix(p: seq<byte>, q: seq<byte>)
    requires IsPage(p) && IsPage(q) && q[..24] == p[..24]
    ensures q[..16] == p[..16]
  {
    assert q[..16] == q[..24][..16] && p[..16] == p[..24][..16];
  }

  lemma OverwrittenWords(p: seq<byte>, s: nat, t: seq<byte>)
    requires CanOverwrite(p, s, t)
    ensures var q := Overwritten(p, s, t);
            && q[..16] == p[..16] && Count(q) == Count(p) && Fsp(q) == Fsp(p) + Len(p, s) - |t|
            && Sz(q, s) == |t|
            && (forall j :: 0 <= j < Count(p) && j != s ==> Sz(q, j) == Sz(p, j))
            && (forall j :: 0 <= j < Count(p) ==> Off(q, j) == Off(p, j))
  {
    hide ReadU32, EncodeU32;
    var (n, f, o, d) := (Count(p), Fsp(p), Off(p, s), Len(p, s) - |t|);
    var p1 := Splice(p, f + d, p[f..o]);
    StoreHeap(p, f + d, p[f..o], n);
    var p2 := Splice(p1, 16, EncodeU32(f + d));
    StoreHeader(p1, 16, f + d);
    var p3 := Splice(p2, o + d, t);
    StoreHeap(p2, o + d, t, n);
    StoreSz(p3, s, |t|);
    Prefix(p, p1);
    Prefix(p2, p3);
    Prefix(p3, Overwritten(p, s, t));
  }

  lemma OverwrittenBytes(p: seq<byte>, s: nat, t: seq<byte>)
    requires CanOverwrite(p, s, t)
    ensures var q, d := Overwritten(p, s, t), Len(p, s) - |t|;
            && (forall k :: Off(p, s) + Len(p, s) <= k < PAGE_SIZE ==> q[k] == p[k])
            && (forall k :: Fsp(p) <= k < Off(p, s) ==> q[k + d] == p[k])
            && (forall k :: 0 <= k < |t| ==> q[Off(p, s) + d + k] == t[k])
  {
    hide ReadU32, EncodeU32, Splice;
    var (f, o, d) := (Fsp(p), Off(p, s), Len(p, s) - |t|);
    var p1 := Splice(p, f + d, p[f..o]);
    SpliceAt(p, f + d, p[f..o]);
    var p2 := Splice(p1, 16, EncodeU32(f + d));
    SpliceAt(p1, 16, EncodeU32(f + d));
    var p3 := Splice(p2, o + d, t);
    SpliceAt(p2, o + d, t);
    SpliceAt(p3, 28 + 8 * s, EncodeU32(|t|));
  }

  /** What the offset loop does to the directory. */
  ghost predicate Shifted(p: seq<byte>, q: seq<byte>, limit: nat, delta: int)
    requires DirectoryFits(p)
  {
    && DirectoryFits(q) && q[..24] == p[..24] && Fsp(q) == Fsp(p) && Count(q) == Count(p)
    && (forall k :: 24 + 8 * Count(p) <= k < PAGE_SIZE ==> q[k] == p[k])
    && (forall j :: 0 <= j < Count(p) ==> Sz(q, j) == Sz(p, j))
    && (forall j :: 0 <= j < Count(p) ==>
          Off(q, j) == Off(p, j) + if Sz(p, j) != 0 && Off(p, j) < limit then delta else 0)
  }

  ghost predicate CanShift(p: seq<byte>, limit: nat, delta: int) {
    && DirectoryFits(p)
    && forall j :: 0 <= j < Count(p) && Sz(p, j) != 0 && Off(p, j) < limit ==> 0 <= Off(p, j) + delta < TWO_32
  }

  lemma UpdateCanShift(p: seq<byte>, s: nat, t: seq<byte>)
    requires Inv(p) && CanUpdate(View(p), s, t) && 0 < |t|
    ensures CanOverwrite(p, s, t) && Sz(p, s) == Len(p, s)
    ensures CanShift(Overwritten(p, s, t), Off(p, s) + Len(p, s), Len(p, s) - |t|)
  {
    hide ReadU32, UnsetDeletedFlag, Overwritten;
    ReadSlot(p, s);
    LiveLen(Sz(p, s));
    FreeSpaceExact(p);
    OverwrittenWords(p, s, t);
    assert forall j :: 0 <= j < Count(p) && Sz(p, j) != 0 ==> InHeap(p, j);
  }

  lemma UpdateRefines(p: seq<byte>, s: nat, t: seq<byte>, q: seq<byte>)
    requires Inv(p) && CanUpdate(View(p), s, t) && 0 < |t| && CanOverwrite(p, s, t)
    requires CanShift(Overwritten(p, s, t), Off(p, s) + Len(p, s), Len(p, s) - |t|)
    requires Shifted(Overwritten(p, s, t), q, Off(p, s) + Len(p, s), Len(p, s) - |t|)
    ensures Inv(q) && View(q) == Updated(View(p), s, t) && q[..16] == p[..16]
  {
    hide ReadU32, UnsetDeletedFlag, Overwritten;
    assert View(p)[s] == SlotAt(p, s);
    var r := Overwritten(p, s, t);
    OverwrittenWords(p, s, t);
    OverwrittenBytes(p, s, t);
    Prefix(r, q);
    assert Slid(p, q, s, Tuple(t, false)) by {
      forall j | 0 <= j < Count(p) && j != s && Sz(p, j) != 0
        ensures Off(q, j) == Off(p, j) + if Off(p, j) < Off(p, s) then Len(p, s) - |t| else 0
      {
        assert InHeap(p, j) && if j < s then Apart(p, j, s) else Apart(p, s, j);
      }
    }
    assert q[Off(q, s)..Off(q, s) + |t|] == t;
    SlidRefines(p, q, s, Tuple(t, false));
  }

  /** The page after apply-delete's writes, before the offset loop. */
  ghost function Vacated(p: seq<byte>, s: nat): (q: seq<byte>)
    requires DirectoryFits(p) && s < Count(p) <= MAX_SLOTS && InHeap(p, s)
    ensures IsPage(q)
  {
    var (f, o, d) := (Fsp(p), Off(p, s), Len(p, s));
    var p1 := Splice(p, f + d, p[f..o]);
    var p2 := Splice(p1, 16, EncodeU32(f + d));
    var p3 := Splice(p2, 28 + 8 * s, EncodeU32(0));
    Splice(p3, 24 + 8 * s, EncodeU32(0))
  }

  lemma VacatedWords(p: seq<byte>, s: nat)
    requires DirectoryFits(p) && s < Count(p) <= MAX_SLOTS && InHeap(p, s)
    ensures var q := Vacated(p, s);
            && q[..16] == p[..16] && Count(q) == Count(p) && Fsp(q) == Fsp(p) + Len(p, s)
            && Sz(q, s) == 0
            && forall j :: 0 <= j < Count(p) && j != s ==> Sz(q, j) == Sz(p, j) && Off(q, j) == Off(p, j)
  {
    hide ReadU32, EncodeU32;
    var (n, f, o, d) := (Count(p), Fsp(p), Off(p, s), Len(p, s));
    var p1 := Splice(p, f + d, p[f..o]);
    StoreHeap(p, f + d, p[f..o], n);
    var p2 := Splice(p1, 16, EncodeU32(f + d));
    StoreHeader(p1, 16, f + d);
    var p3 := Splice(p2, 28 + 8 * s, EncodeU32(0));
    StoreSz(p2, s, 0);
    StoreOff(p3, s, 0);
    Prefix(p, p1);
    Prefix(p2, p3);
    Prefix(p3, Vacated(p, s));
  }

  lemma VacatedBytes(p: seq<byte>, s: nat)
    requires DirectoryFits(p) && s < Count(p) <= MAX_SLOTS && InHeap(p, s)
    ensures var q := Vacated(p, s);
            && (forall k :: Off(p, s) + Len(p, s) <= k < PAGE_SIZE ==> q[k] == p[k])
            && (forall k :: Fsp(p) <= k < Off(p, s) ==> q[k + Len(p, s)] == p[k])
  {
    hide ReadU32, EncodeU32, Splice;
    var (f, o, d) := (Fsp(p), Off(p, s), Len(p, s));
    var p1 := Splice(p, f + d, p[f..o]);
    SpliceAt(p, f + d, p[f..o]);
    var p2 := Splice(p1, 16, EncodeU32(f + d));
    SpliceAt(p1, 16, EncodeU32(f + d));
    var p3 := Splice(p2, 28 + 8 * s, EncodeU32(0));
    SpliceAt(p2, 28 + 8 * s, EncodeU32(0));
    SpliceAt(p3, 24 + 8 * s, EncodeU32(0));
  }

  lemma DeleteCanShift(p: seq<byte>, s: nat)
    requires Inv(p) && Occupied(View(p), s)
    ensures DirectoryFits(p) && s < Count(p) <= MAX_SLOTS && InHeap(p, s)
    ensures CanShift(Vacated(p, s), Off(p, s), Len(p, s))
  {
    hide ReadU32;
    ReadSlot(p, s);
    VacatedWords(p, s);
    assert forall j :: 0 <= j < Count(p) && Sz(p, j) != 0 ==> InHeap(p, j);
  }

  lemma DeleteRefines(p: seq<byte>, s: nat, q: seq<byte>)
    requires Inv(p) && Occupied(View(p), s) && Count(p) <= MAX_SLOTS && InHeap(p, s)
    requires CanShift(Vacated(p, s), Off(p, s), Len(p, s))
    requires Shifted(Vacated(p, s), q, Off(p, s), Len(p, s))
    ensures Inv(q) && View(q) == View(p)[s := Empty] && q[..16] == p[..16]
  {
    hide ReadU32, Vacated;
    VacatedWords(p, s);
    VacatedBytes(p, s);
    Prefix(Vacated(p, s), q);
    SlidRefines(p, q, s, Empty);
  }

  /** The header words an initialised page holds, at their offsets. */
  lemma InitBytes(p: seq<byte>, q: seq<byte>, id: uint32, prev: uint32, next: uint32)
    requires IsPage(p)
    requires q == Splice(Splice(Splice(Splice(Splice(p, 0, EncodeU32(id)), 8, EncodeU32(prev)), 12, EncodeU32(next)),
                                16, EncodeU32(PAGE_SIZE)), 20, EncodeU32(0))
    ensures q[0..4] == EncodeU32(id) && q[4..8] == p[4..8] && q[8..12] == EncodeU32(prev)
    ensures q[12..16] == EncodeU32(next) && q[16..20] == EncodeU32(PAGE_SIZE) && q[20..24] == EncodeU32(0)
    ensures q[24..] == p[24..]
  {
    hide EncodeU32, Splice;
    var a := Splice(p, 0, EncodeU32(id));
    SpliceAt(p, 0, EncodeU32(id));
    var b := Splice(a, 8, EncodeU32(prev));
    SpliceAt(a, 8, EncodeU32(prev));
    var c := Splice(b, 12, EncodeU32(next));
    SpliceAt(b, 12, EncodeU32(next));
    var d := Splice(c, 16, EncodeU32(PAGE_SIZE));
    SpliceAt(c, 16, EncodeU32(PAGE_SIZE));
    SpliceAt(d, 20, EncodeU32(0));
  }

  // ---------- the page object ----------

  class TablePage {
    const data: array<byte>

    constructor (image: seq<byte>)
      requires IsPage(image)
      ensures fresh(data) && data[..] == image
    {
      data := new byte[PAGE_SIZE](i requires 0 <= i < PAGE_SIZE => image[i]);
    }

    ghost predicate Valid()
      reads data
    {
      Inv(data[..])
    }

    method Store(at: nat, n: uint32)
      requires at + 4 <= data.Length
      modifies data
      ensures data[..] == Splice(old(data[..]), at, EncodeU32(n))
    {
      Copy(data, at, EncodeU32(n));
    }

    method Init(pageId: int32, prevPageId: int32)
      requires data.Length == PAGE_SIZE
      modifies data
      ensures Valid() && View(data[..]) == []
      ensures PageId(data[..]) == pageId && PrevId(data[..]) == prevPageId
      ensures NextId(data[..]) == INVALID_PAGE_ID && Lsn(data[..]) == old(Lsn(data[..]))
      ensures data[0..4] == EncodeI32(pageId) && data[4..8] == old(data[4..8]) && data[8..12] == EncodeI32(prevPageId)
      ensures data[12..16] == EncodeI32(-1) && data[16..20] == EncodeU32(4096) && data[20..24] == EncodeU32(0)
      ensures data[24..] == old(data[24..])
    {
      hide ReadU32, EncodeU32, Splice;
      ghost var p := data[..];
      StoreHeader(data[..], 0, AsU32(pageId));
      Store(0, AsU32(pageId));
      StoreHeader(data[..], 8, AsU32(prevPageId));
      Store(8, AsU32(prevPageId));
      StoreHeader(data[..], 12, AsU32(INVALID_PAGE_ID));
      Store(12, AsU32(INVALID_PAGE_ID));
      StoreHeader(data[..], 16, PAGE_SIZE);
      Store(16, PAGE_SIZE);
      StoreHeader(data[..], 20, 0);
      Store(20, 0);
      InitBytes(p, data[..], AsU32(pageId), AsU32(prevPageId), AsU32(INVALID_PAGE_ID));
    }

    method SetNextPageId(nextPageId: int32)
      requires data.Length == PAGE_SIZE
      modifies data
      ensures NextId(data[..]) == nextPageId
      ensures data[..12] == old(data[..12]) && data[16..] == old(data[16..])
    {
      StoreHeader(data[..], 12, AsU32(nextPageId));
      Store(12, AsU32(nextPageId));
    }

    method SetLSN(lsn: int32)
      requires data.Length == PAGE_SIZE
      modifies data
      ensures Lsn(data[..]) == lsn
      ensures data[..4] == old(data[..4]) && data[8..] == old(data[8..])
    {
      StoreHeader(data[..], 4, AsU32(lsn));
      Store(4, AsU32(lsn));
    }

    /** The rewrite loop shared by update and apply-delete: every used slot whose
        tuple lies below `limit` moves by `delta`. */
    method ShiftOffsets(limit: nat, delta: int)
      requires CanShift(data[..], limit, delta)
      modifies data
      ensures Shifted(old(data[..]), data[..], limit, delta)
    {
      hide ReadU32;
      ghost var p := data[..];
      var n := Count(data[..]);
      var i := 0;
      while i < n
        invariant 0 <= i <= n
        invariant data[..24] == p[..24]
        invariant Fsp(data[..]) == Fsp(p) && Count(data[..]) == n
        invariant forall k :: 24 + 8 * n <= k < PAGE_SIZE ==> data[k] == p[k]
        invariant forall j :: 0 <= j < n ==> Sz(data[..], j) == Sz(p, j)
        invariant forall j :: 0 <= j < i ==>
                    Off(data[..], j) == Off(p, j) + if Sz(p, j) != 0 && Off(p, j) < limit then delta else 0
        invariant forall j :: i <= j < n ==> Off(data[..], j) == Off(p, j)
      {
        var o := Off(data[..], i);
        if Sz(data[..], i) > 0 && o < limit {
          StoreOff(data[..], i, o + delta);
          Store(24 + 8 * i, o + delta);
        }
        i := i + 1;
      }
    }

    /** Fails exactly when the tuple and a fresh directory entry do not fit. */
    method InsertTuple(tuple: seq<byte>) returns (ok: bool, rid: RID)
      requires Valid() && 0 < |tuple|
      modifies data
      ensures Valid() && data[..16] == old(data[..16])
      ensures ok == CanInsert(old(View(data[..])), tuple)
      ensures !ok ==> data[..] == old(data[..])
      ensures ok ==> rid == RID(PageId(data[..]), FirstEmpty(old(View(data[..]))))
      ensures ok ==> View(data[..]) == Inserted(old(View(data[..])), tuple)
    {
      hide ReadU32, Inv, View, EncodeU32, FreeSpace, Splice;
      ghost var p := data[..];
      FreeSpaceExact(p);
      rid := RID(INVALID_PAGE_ID, 0);
      var fsp, n := Fsp(data[..]), Count(data[..]);
      if fsp - SIZE_TABLE_PAGE_HEADER - SIZE_TUPLE * n < |tuple| + SIZE_TUPLE {
        return false, rid;
      }
      var i := FindFreeSlot();
      AddedRefines(p, tuple);
      var f := fsp - |tuple|;
      Store(16, f);
      Copy(data, f, tuple);
      Store(24 + 8 * i, f);
      Store(28 + 8 * i, |tuple|);
      if i == n {
        Store(20, n + 1);
      }
      assert data[..] == Added(p, i, tuple);
      return true, RID(PageId(data[..]), i);
    }

    method FindFreeSlot() returns (i: nat)
      requires Valid()
      ensures i == FirstEmpty(View(data[..]))
    {
      hide ReadU32, View;
      i := 0;
      while i < Count(data[..])
        invariant 0 <= i <= Count(data[..])
        invariant forall j :: 0 <= j < i ==> Sz(data[..], j) != 0
      {
        if Sz(data[..], i) == 0 {
          break;
        }
        i := i + 1;
      }
      FirstFree(data[..], i);
    }

    method MarkDelete(slot: uint32) returns (ok: bool)
      requires Valid()
      modifies data
      ensures Valid() && data[..16] == old(data[..16])
      ensures ok == Live(old(View(data[..])), slot)
      ensures !ok ==> data[..] == old(data[..])
      ensures ok ==> View(data[..]) == WithMark(old(View(data[..])), slot, true)
      ensures ok ==> Sz(data[..], slot) == old(Sz(data[..], slot)) + 0x8000_0000
    {
      hide ReadU32;
      ghost var p := data[..];
      if slot >= Count(data[..]) {
        return false;
      }
      assert View(p)[slot] == SlotAt(p, slot) && (Sz(p, slot) != 0 ==> InHeap(p, slot));
      var size := Sz(data[..], slot);
      if IsDeleted(size) {
        return false;
      }
      MarkRefines(p, slot, SetDeletedFlag(size));
      StoreSz(p, slot, SetDeletedFlag(size));
      Store(28 + 8 * slot, SetDeletedFlag(size));
      return true;
    }

    /** Fails exactly when the slot holds no live tuple or the new one does not fit. */
    method UpdateTuple(newTuple: seq<byte>, slot: uint32) returns (ok: bool, oldTuple: seq<byte>)
      requires Valid() && 0 < |newTuple|
      modifies data
      ensures Valid() && data[..16] == old(data[..16])
      ensures ok == CanUpdate(old(View(data[..])), slot, newTuple)
      ensures !ok ==> data[..] == old(data[..]) && oldTuple == []
      ensures ok ==> oldTuple == old(View(data[..]))[slot].data && oldTuple != []
      ensures ok ==> View(data[..]) == Updated(old(View(data[..])), slot, newTuple)
    {
      hide ReadU32;
      ghost var p := data[..];
      oldTuple := [];
      if slot >= Count(data[..]) {
        return false, oldTuple;
      }
      assert View(p)[slot] == SlotAt(p, slot) && (Sz(p, slot) != 0 ==> InHeap(p, slot));
      var size := Sz(data[..], slot);
      if IsDeleted(size) {
        return false, oldTuple;
      }
      var fsp, n := Fsp(data[..]), Count(data[..]);
      if fsp - SIZE_TABLE_PAGE_HEADER - SIZE_TUPLE * n + size < |newTuple| {
        return false, oldTuple;
      }
      var off := Off(data[..], slot);
      oldTuple := data[off..off + size];
      Slide(slot, off, size, newTuple);
      return true, oldTuple;
    }

    /** The body of the update: move the tuples below, copy the new one in, fix offsets. */
    method Slide(slot: nat, off: nat, size: nat, newTuple: seq<byte>)
      requires Valid() && CanUpdate(View(data[..]), slot, newTuple) && 0 < |newTuple|
      requires off == Off(data[..], slot) && size == Sz(data[..], slot)
      modifies data
      ensures Valid() && data[..16] == old(data[..16])
      ensures View(data[..]) == Updated(old(View(data[..])), slot, newTuple)
    {
      hide ReadU32, Inv, View, CanUpdate, EncodeU32, Shifted, CanShift, Splice;
      ghost var p := data[..];
      UpdateCanShift(p, slot, newTuple);
      var fsp, d := Fsp(data[..]), size - |newTuple|;
      Copy(data, fsp + d, data[fsp..off]);
      Store(16, fsp + d);
      Copy(data, off + d, newTuple);
      Store(28 + 8 * slot, |newTuple|);
      assert data[..] == Overwritten(p, slot, newTuple);
      ShiftOffsets(off + size, d);
      UpdateRefines(p, slot, newTuple, data[..]);
    }

    /** Commits a delete or rolls back an insert: the slot becomes free. */
    method ApplyDelete(slot: uint32) returns (deleted: seq<byte>)
      requires Valid() && Occupied(View(data[..]), slot)
      modifies data
      ensures Valid() && data[..16] == old(data[..16])
      ensures deleted == old(View(data[..]))[slot].data
      ensures View(data[..]) == old(View(data[..]))[slot := Empty]
    {
      hide ReadU32, Inv, View, EncodeU32, Shifted, CanShift, Splice;
      ghost var p := data[..];
      ReadSlot(p, slot);
      DeleteCanShift(p, slot);
      var off, size := Off(data[..], slot), Sz(data[..], slot);
      if IsDeleted(size) {
        size := UnsetDeletedFlag(size);
      }
      deleted := data[off..off + size];
      var fsp := Fsp(data[..]);
      Copy(data, fsp + size, data[fsp..off]);
      Store(16, fsp + size);
      Store(28 + 8 * slot, 0);
      Store(24 + 8 * slot, 0);
      assert data[..] == Vacated(p, slot);
      ShiftOffsets(off, size);
      DeleteRefines(p, slot, data[..]);
    }

    method RollbackDelete(slot: uint32)
      requires Valid() && slot < Count(data[..])
      modifies data
      ensures Valid() && data[..16] == old(data[..16])
      ensures View(data[..]) == WithMark(old(View(data[..])), slot, false)
    {
      hide ReadU32, View;
      ghost var p := data[..];
      ReadSlot(p, slot);
      var size := Sz(data[..], slot);
      if IsDeleted(size) {
        MarkRefines(p, slot, UnsetDeletedFlag(size));
        Store(28 + 8 * slot, UnsetDeletedFlag(size));
      }
    }

    method GetTuple(slot: uint32) returns (ok: bool, tuple: seq<byte>)
      requires Valid()
      ensures ok == Live(View(data[..]), slot)
      ensures ok ==> tuple == View(data[..])[slot].data
    {
      hide ReadU32, View;
      if slot >= Count(data[..]) {
        return false, [];
      }
      ReadSlot(data[..], slot);
      var size := Sz(data[..], slot);
      if IsDeleted(size) {
        return false, [];
      }
      var off := Off(data[..], slot);
      return true, data[off..off + size];
    }

    method GetFirstTupleRid() returns (ok: bool, rid: RID)
      requires Valid()
      ensures ok == (NextOccupied(View(data[..]), 0) < |View(data[..])|)
      ensures rid == if ok then RID(PageId(data[..]), NextOccupied(View(data[..]), 0)) else RID(INVALID_PAGE_ID, 0)
    {
      ok, rid := ScanFrom(0);
    }

    /** The slot number after the current one is a 32-bit sum. */
    method GetNextTupleRid(current: RID) returns (ok: bool, rid: RID)
      requires Valid() && current.pageId == PageId(data[..])
      ensures var from := (current.slot + 1) % TWO_32;
              && ok == (NextOccupied(View(data[..]), from) < |View(data[..])|)
              && rid == if ok then RID(PageId(data[..]), NextOccupied(View(data[..]), from))
                        else RID(INVALID_PAGE_ID, 0)
    {
      ok, rid := ScanFrom((current.slot + 1) % TWO_32);
    }

    method ScanFrom(from: nat) returns (ok: bool, rid: RID)
      requires Valid()
      ensures ok == (NextOccupied(View(data[..]), from) < |View(data[..])|)
      ensures rid == if ok then RID(PageId(data[..]), NextOccupied(View(data[..]), from)) else RID(INVALID_PAGE_ID, 0)
    {
      hide ReadU32, View;
      var i := from;
      while i < Count(data[..])
        invariant from <= i
        invariant NextOccupied(View(data[..]), i) == NextOccupied(View(data[..]), from)
      {
        ReadSlot(data[..], i);
        if Sz(data[..], i) > 0 {
          return true, RID(PageId(data[..]), i);
        }
        i := i + 1;
      }
      return false, RID(INVALID_PAGE_ID, 0);
    }
  }

  lemma HeaderSame(p: seq<byte>, q: seq<byte>)
    requires IsPage(p) && IsPage(q) && p[..16] == q[..16]
    ensures PageId(p) == PageId(q) && Lsn(p) == Lsn(q) && PrevId(p) == PrevId(q) && NextId(p) == NextId(q)
  {
    assert forall k :: 0 <= k < 16 ==> p[k] == p[..16][k] && q[k] == q[..16][k];
  }
}
