/** The linear-probe hash table over block pages. A slot has a page index and an offset;
    the last page may be short. Pages are a store where writes stick. */
module HashTableModel {
  import opened Bytes
  import opened ProbeTable
  import opened BlockPageModel

  datatype InsertResult = Inserted | AlreadyThere | TableFull

  // ---------- slot numbers ----------

  lemma MulGap(b: nat, x: nat, y: nat)
    ensures x < y ==> x * b + b <= y * b
  {
    if x < y {
      assert y * b == (x + 1) * b + (y - x - 1) * b;
    }
  }

  lemma Quotient(x: nat, b: nat)
    requires b > 0
    ensures 0 <= x - x / b * b < b
  {
    assert x == x / b * b + x % b;
  }

  /** Page index and offset are quotient and remainder. */
  lemma DivMod(b: nat, page: nat, slot: nat)
    requires b > 0 && slot < b
    ensures (page * b + slot) / b == page && (page * b + slot) % b == slot
  {
    var g := page * b + slot;
    assert g == (g / b) * b + g % b;
    MulGap(b, page, g / b);
    MulGap(b, g / b, page);
  }

  /** Number of pages for `size` slots, and the slots on the last one. */
  function PageCount(size: nat, b: nat): (n: nat)
    requires b > 0 && size > 0
    ensures n > 0
  {
    (size - 1) / b + 1
  }

  function LastPageSize(size: nat, b: nat): int
    requires b > 0 && size > 0
  {
    size - b * (PageCount(size, b) - 1)
  }

  lemma Sizes(size: nat, b: nat)
    requires b > 0 && size > 0
    ensures size == (PageCount(size, b) - 1) * b + LastPageSize(size, b)
    ensures 1 <= LastPageSize(size, b) <= b
  {
    assert size - 1 == (size - 1) / b * b + (size - 1) % b;
  }

  function SlotNumber(b: nat, page: nat, slot: nat): nat { page * b + slot }

  /** A slot number below `size` lies on an existing page, on the last one below its size. */
  lemma Located(size: nat, b: nat, page: nat, slot: nat)
    requires b > 0 && slot < b && SlotNumber(b, page, slot) < size
    ensures page < PageCount(size, b)
    ensures page == PageCount(size, b) - 1 ==> slot < LastPageSize(size, b)
  {
    Sizes(size, b);
    MulGap(b, PageCount(size, b) - 1, page);
  }

  /** The step every probe loop takes, in pages and offsets, is one slot on. */
  lemma Advance(size: nat, b: nat, page: nat, slot: nat)
    requires b > 0 && slot < b && SlotNumber(b, page, slot) < size
    ensures var g, count := SlotNumber(b, page, slot), PageCount(size, b);
            var next := if g + 1 == size then 0 else g + 1;
            if slot + 1 == (if page == count - 1 then LastPageSize(size, b) else b)
            then next == SlotNumber(b, if page + 1 == count then 0 else page + 1, 0)
            else slot + 1 < b && next == SlotNumber(b, page, slot + 1)
  {
    Sizes(size, b);
    Located(size, b, page, slot);
    MulGap(b, page, PageCount(size, b) - 1);
    assert SlotNumber(b, page + 1, 0) == page * b + b;
  }

  lemma SameSlot(b: nat, page: nat, slot: nat, page': nat, slot': nat)
    requires b > 0 && slot < b && slot' < b
    ensures page == page' && slot == slot' <==> SlotNumber(b, page, slot) == SlotNumber(b, page', slot')
  {
    DivMod(b, page, slot);
    DivMod(b, page', slot');
  }

  // ---------- pages side by side ----------

  ghost predicate Even<K, V>(views: seq<seq<Cell<K, V>>>, b: nat) {
    forall i :: 0 <= i < |views| ==> |views[i]| == b
  }

  /** The pages as one sequence of `size` slots. */
  ghost function Flat<K, V>(views: seq<seq<Cell<K, V>>>, b: nat, size: nat): (cells: seq<Cell<K, V>>)
    requires b > 0 && size > 0 && |views| == PageCount(size, b) && Even(views, b)
    ensures |cells| == size
  {
    seq(size, g requires 0 <= g < size => CellOf(views, b, size, g))
  }

  ghost function CellOf<K, V>(views: seq<seq<Cell<K, V>>>, b: nat, size: nat, g: nat): Cell<K, V>
    requires b > 0 && g < size && |views| == PageCount(size, b) && Even(views, b)
  {
    assert g == SlotNumber(b, g / b, g % b);
    Located(size, b, g / b, g % b);
    views[g / b][g % b]
  }

  /** The slots of a page from `from` on hold no pair. */
  ghost predicate Spare<K, V>(view: seq<Cell<K, V>>, from: int) {
    forall j :: 0 <= j < |view| && from <= j ==> !view[j].Full?
  }

  lemma FlatAt<K, V>(views: seq<seq<Cell<K, V>>>, b: nat, size: nat, page: nat, slot: nat)
    requires b > 0 && |views| == PageCount(if size == 0 then 1 else size, b) && Even(views, b)
    requires slot < b && SlotNumber(b, page, slot) < size
    ensures page < |views| && Flat(views, b, size)[SlotNumber(b, page, slot)] == views[page][slot]
  {
    DivMod(b, page, slot);
    Located(size, b, page, slot);
  }

  lemma FlatUpdate<K, V>(views: seq<seq<Cell<K, V>>>, b: nat, size: nat, page: nat, slot: nat, c: Cell<K, V>)
    requires b > 0 && size > 0 && |views| == PageCount(size, b) && Even(views, b)
    requires slot < b && SlotNumber(b, page, slot) < size && page < |views|
    ensures Flat(views[page := views[page][slot := c]], b, size) == Flat(views, b, size)[SlotNumber(b, page, slot) := c]
  {
    var after := views[page := views[page][slot := c]];
    var g0 := SlotNumber(b, page, slot);
    DivMod(b, page, slot);
    forall g | 0 <= g < size
      ensures CellOf(after, b, size, g) == if g == g0 then c else CellOf(views, b, size, g)
    {
      assert g == SlotNumber(b, g / b, g % b);
      Located(size, b, g / b, g % b);
    }
    assert Flat(after, b, size) == Flat(views, b, size)[g0 := c];
  }

  class LinearProbeHashTable<K(==, !new), V(==, !new)> {
    const hash: K -> nat
    const blockSize: nat
    const zero: (K, V)
    var pageNumber: nat
    var lastPageSize: int
    var size: nat
    var pages: seq<BlockPage<K, V>>

    /** The pages are separate and in good order. */
    ghost predicate PagesOk()
      reads this, pages
    {
      && (forall i :: 0 <= i < |pages| ==> pages[i].Valid() && |pages[i].pairs| == blockSize)
      && (forall i, j :: 0 <= i < j < |pages| ==> pages[i] != pages[j])
    }

    /** The size fields agree with the pages. */
    ghost predicate Shape()
      reads this, pages
    {
      && blockSize > 0 && size > 0
      && pageNumber == |pages| == PageCount(size, blockSize) && lastPageSize == LastPageSize(size, blockSize)
      && PagesOk()
    }

    ghost function PageViews(): (views: seq<seq<Cell<K, V>>>)
      requires PagesOk()
      reads this, pages
      ensures |views| == |pages| && Even(views, blockSize)
      ensures forall i :: 0 <= i < |views| ==> views[i] == pages[i].View()
    {
      seq(|pages|, i requires 0 <= i < |pages| && PagesOk() reads this, pages => pages[i].View())
    }

    ghost function Views(): (views: seq<seq<Cell<K, V>>>)
      requires Shape()
      reads this, pages
    {
      PageViews()
    }

    /** The table as one sequence of slots. */
    ghost function Cells(): (cells: seq<Cell<K, V>>)
      requires Shape()
      reads this, pages
      ensures |cells| == size
    {
      Flat(Views(), blockSize, size)
    }

    /** The slots behind the end of a short last page hold no pair. */
    ghost predicate SpareOk()
      requires Shape()
      reads this, pages
    {
      Spare(Views()[pageNumber - 1], lastPageSize)
    }

    ghost predicate Valid()
      reads this, pages
    {
      Shape() && SpareOk() && Reachable(Cells(), hash)
    }

    constructor (hash: K -> nat, blockSize: nat, zero: (K, V), numBuckets: nat)
      requires blockSize > 0 && numBuckets > 0
      ensures Valid() && size == numBuckets && this.hash == hash && this.blockSize == blockSize && fresh(pages)
      ensures Contents(Cells()) == multiset{} && Packed(Cells(), hash)
    {
      this.hash, this.blockSize, this.zero := hash, blockSize, zero;
      size := numBuckets;
      pageNumber := PageCount(numBuckets, blockSize);
      lastPageSize := LastPageSize(numBuckets, blockSize);
      pages := [];
      new;
      hide Reachable, Flat, Packed, Contents, PageCount, LastPageSize, Spare;
      AllocatePages(0);
      EmptyTable(Views(), hash, blockSize, size);
    }

    /** Appends zeroed pages until the directory has `pageNumber` of them. */
    method AllocatePages(kept: nat)
      requires kept == |pages| <= pageNumber && blockSize > 0 && size > 0
      requires pageNumber == PageCount(size, blockSize) && lastPageSize == LastPageSize(size, blockSize)
      requires PagesOk()
      modifies this`pages
      ensures Shape() && forall i :: 0 <= i < kept ==> pages[i] == old(pages)[i]
      ensures forall i :: kept <= i < |pages| ==> fresh(pages[i])
      ensures Views()[..kept] == old(PageViews())
      ensures forall i :: kept <= i < |pages| ==> Views()[i] == seq(blockSize, _ => Fresh)
    {
      hide BlockPage.Valid, BlockPage.View, PageCount, LastPageSize;
      ghost var before := PageViews();
      while |pages| < pageNumber
        invariant kept <= |pages| <= pageNumber && PagesOk() && forall i :: 0 <= i < kept ==> pages[i] == old(pages)[i]
        invariant forall i :: kept <= i < |pages| ==> fresh(pages[i])
        invariant PageViews()[..kept] == before
        invariant forall i :: kept <= i < |pages| ==> PageViews()[i] == seq(blockSize, _ => Fresh)
        decreases pageNumber - |pages|
      {
        ghost var views := PageViews();
        var page := new BlockPage<K, V>(blockSize, zero);
        pages := pages + [page];
        assert PageViews() == views + [page.View()];
      }
    }

    /** `Insert` on one block page leaves the others alone. */
    method PageInsert(page: nat, slot: nat, k: K, v: V) returns (ok: bool)
      requires Shape() && slot < blockSize && page < |pages|
      modifies pages[page]
      ensures Shape() && ok == !old(Views())[page][slot].Full?
      ensures Views() == if ok then old(Views())[page := old(Views())[page][slot := Full(k, v)]] else old(Views())
    {
      hide BlockPage.Valid, BlockPage.View, PageCount, LastPageSize;
      ghost var views := Views();
      ok := pages[page].Insert(slot, k, v);
      forall i | 0 <= i < |pages| && i != page
        ensures pages[i].Valid() && pages[i].View() == views[i] && |pages[i].pairs| == blockSize
      {
        assert pages[i] != pages[page];
      }
      assert PagesOk();
      assert Views() == views[page := pages[page].View()];
    }

    method PageRemove(page: nat, slot: nat)
      requires Shape() && slot < blockSize && page < |pages| && Views()[page][slot].Full?
      modifies pages[page]
      ensures Shape() && Views() == old(Views())[page := old(Views())[page][slot := Tomb]]
    {
      hide BlockPage.Valid, BlockPage.View, PageCount, LastPageSize;
      ghost var views := Views();
      pages[page].Remove(slot);
      forall i | 0 <= i < |pages| && i != page
        ensures pages[i].Valid() && pages[i].View() == views[i] && |pages[i].pairs| == blockSize
      {
        assert pages[i] != pages[page];
      }
      assert PagesOk();
      assert Views() == views[page := pages[page].View()];
    }

    /** The same, in slot numbers. */
    method InsertAt(page: nat, slot: nat, k: K, v: V) returns (ok: bool)
      requires Shape() && slot < blockSize && SlotNumber(blockSize, page, slot) < size && SpareOk()
      modifies pages
      ensures Shape() && SpareOk()
      ensures ok == !old(Cells())[SlotNumber(blockSize, page, slot)].Full?
      ensures Cells() == if ok then old(Cells())[SlotNumber(blockSize, page, slot) := Full(k, v)] else old(Cells())
    {
      hide PagesOk, PageCount, LastPageSize, Flat, SlotNumber, PageViews;
      FlatAt(Views(), blockSize, size, page, slot);
      Located(size, blockSize, page, slot);
      FlatUpdate(Views(), blockSize, size, page, slot, Full(k, v));
      ok := PageInsert(page, slot, k, v);
    }

    method RemoveAt(page: nat, slot: nat)
      requires Shape() && slot < blockSize && SlotNumber(blockSize, page, slot) < size
      requires Cells()[SlotNumber(blockSize, page, slot)].Full? && SpareOk()
      modifies pages
      ensures Shape() && SpareOk()
      ensures Cells() == old(Cells())[SlotNumber(blockSize, page, slot) := Tomb]
    {
      hide PagesOk, PageCount, LastPageSize, Flat, SlotNumber, PageViews;
      FlatAt(Views(), blockSize, size, page, slot);
      Located(size, blockSize, page, slot);
      FlatUpdate(Views(), blockSize, size, page, slot, Tomb);
      PageRemove(page, slot);
    }

    /** One slot on, over the page border and around the end of the table. */
    method NextSlot(page: nat, slot: nat) returns (p: nat, s: nat)
      requires Shape() && slot < blockSize && SlotNumber(blockSize, page, slot) < size
      ensures s < blockSize && p < |pages|
      ensures SlotNumber(blockSize, p, s) ==
              if SlotNumber(blockSize, page, slot) + 1 == size then 0 else SlotNumber(blockSize, page, slot) + 1
    {
      Advance(size, blockSize, page, slot);
      p, s := page, slot + 1;
      if s == (if page == pageNumber - 1 then lastPageSize else blockSize) {
        s := 0;
        p := p + 1;
        if p == pageNumber {
          p := 0;
        }
      }
      Located(size, blockSize, p, s);
    }

    /** Where the probe for `k` starts. */
    method GetPagePosition(k: K) returns (page: nat, slot: nat)
      requires Shape()
      ensures slot < blockSize && page < |pages| && SlotNumber(blockSize, page, slot) == Home(hash, size, k)
      ensures page * blockSize + slot == hash(k) % size
    {
      hide PageCount, LastPageSize, PagesOk;
      var position := hash(k) % size;
      page := position / blockSize;
      Quotient(position, blockSize);
      slot := position - page * blockSize;
      Located(size, blockSize, page, slot);
    }

    /** Slot `g` of the table as its page shows it. */
    method ReadSlot(page: nat, slot: nat) returns (occupied: bool, pair: Option<(K, V)>)
      requires Shape() && slot < blockSize && SlotNumber(blockSize, page, slot) < size
      ensures var c := Cells()[SlotNumber(blockSize, page, slot)];
              occupied == !c.Fresh? && pair == if c.Full? then Some((c.key, c.value)) else None
    {
      hide BlockPage.Valid, BlockPage.View, PageCount, LastPageSize, Flat, SlotNumber;
      FlatAt(Views(), blockSize, size, page, slot);
      occupied := pages[page].IsOccupied(slot);
      var readable := pages[page].IsReadable(slot);
      pair := None;
      if readable {
        var key, value := pages[page].PairAt(slot);
        pair := Some((key, value));
      }
    }

    /** Lookup is exact: all values stored under the key and no others. */
    method GetValue(k: K) returns (found: bool, result: seq<V>)
      requires Valid()
      ensures multiset(result) == ValuesOf(Cells(), k)
      ensures found <==> ValuesOf(Cells(), k) != multiset{}
    {
      hide Reachable, Home, Found, Cells, SlotNumber, PageCount, LastPageSize, PagesOk, SpareOk, ValuesOf, At,
        BlockPage.Valid;
      ghost var cells, h := Cells(), Home(hash, size, k);
      var page0, slot0 := GetPagePosition(k);
      var page: nat, slot: nat := page0, slot0;
      ghost var i := 0;
      result := [];
      StartFound(cells, h, k);
      var occupied, pair := ReadSlot(page, slot);
      while occupied
        invariant 0 <= i < size && slot < blockSize && SlotNumber(blockSize, page, slot) == At(size, h, i)
        invariant multiset(result) == Found(cells, h, i, k)
        invariant var c := cells[At(size, h, i)];
                  occupied == !c.Fresh? && pair == if c.Full? then Some((c.key, c.value)) else None
        decreases size - i
      {
        Collect(cells, h, i, k, result);
        if pair.Some? && pair.value.0 == k {
          result := result + [pair.value.1];
        }
        AtStep(size, h, i);
        page, slot := NextSlot(page, slot);
        SameSlot(blockSize, page, slot, page0, slot0);
        i := i + 1;
        if page == page0 && slot == slot0 {
          FoundAll(cells, h, k);
          EmptyResult(result);
          return result != [], result;
        }
        occupied, pair := ReadSlot(page, slot);
      }
      FoundEnough(cells, hash, k, i, size);
      FoundAll(cells, h, k);
      EmptyResult(result);
      return result != [], result;
    }

    /** The probe of an insert: to the pair itself, to the first unused slot, or once around. */
    method ProbeForInsert(k: K, v: V) returns (r: InsertResult, page: nat, slot: nat, ghost steps: nat)
      requires Shape()
      ensures var cells, h := Cells(), Home(hash, size, k);
              && slot < blockSize
              && (r.Inserted? ==> && steps < size && FreeAfter(cells, h, steps, (k, v))
                                  && SlotNumber(blockSize, page, slot) == At(size, h, steps))
              && (r.AlreadyThere? ==> (k, v) in Contents(cells))
              && (r.TableFull? ==> (k, v) !in Contents(cells) && forall p :: 0 <= p < size ==> cells[p].Full?)
    {
      hide Home, Cells, SlotNumber, PageCount, LastPageSize, PagesOk, At, Contents;
      ghost var cells, h := Cells(), Home(hash, size, k);
      var page0, slot0 := GetPagePosition(k);
      page, slot := page0, slot0;
      steps := 0;
      StartAt(size, h);
      var occupied, pair := ReadSlot(page, slot);
      while pair.Some?
        invariant 0 <= steps < size && slot < blockSize && SlotNumber(blockSize, page, slot) == At(size, h, steps)
        invariant Passed(cells, h, steps, (k, v))
        invariant var c := cells[At(size, h, steps)]; pair == if c.Full? then Some((c.key, c.value)) else None
        decreases size - steps
      {
        if pair.value == (k, v) {
          ContentsHas(cells, (k, v));
          return AlreadyThere, page, slot, steps;
        }
        AtStep(size, h, steps);
        page, slot := NextSlot(page, slot);
        SameSlot(blockSize, page, slot, page0, slot0);
        steps := steps + 1;
        if page == page0 && slot == slot0 {
          AllFull(cells, h, (k, v));
          return TableFull, page, slot, steps;
        }
        occupied, pair := ReadSlot(page, slot);
      }
      return Inserted, page, slot, steps;
    }

    /** Refines adding a pair to a multiset: it refuses only a pair the table holds and is
        full only when every slot holds a pair. */
    method InsertHelper(k: K, v: V) returns (r: InsertResult, ghost steps: nat)
      requires Valid()
      modifies pages
      ensures Valid()
      ensures r.Inserted? ==>
                && steps < size && FreeAfter(old(Cells()), Home(hash, size, k), steps, (k, v))
                && Cells() == old(Cells())[At(size, Home(hash, size, k), steps) := Full(k, v)]
                && Contents(Cells()) == Contents(old(Cells())) + multiset{(k, v)}
      ensures !r.Inserted? ==> Cells() == old(Cells())
      ensures r.AlreadyThere? ==> (k, v) in Contents(Cells())
      ensures r.TableFull? ==> (k, v) !in Contents(Cells()) && forall p :: 0 <= p < size ==> Cells()[p].Full?
      ensures old(Packed(Cells(), hash) && Distinct(Contents(Cells()))) ==>
                Packed(Cells(), hash) && Distinct(Contents(Cells()))
    {
      hide Reachable, Home, Cells, SlotNumber, PageCount, LastPageSize, PagesOk, SpareOk, At, Contents, Passed, Packed,
        Distinct;
      ghost var cells := Cells();
      var page, slot;
      r, page, slot, steps := ProbeForInsert(k, v);
      if r.Inserted? {
        var ok := InsertAt(page, slot, k, v);
        InsertKeeps(cells, hash, k, v, steps);
        if Packed(cells, hash) && Distinct(Contents(cells)) {
          PackedNoCopies(cells, hash, k, v, steps);
        }
      }
    }

    /** The probe of a remove: to the first copy of the pair, or until it is known absent. */
    method ProbeForRemove(k: K, v: V) returns (found: bool, page: nat, slot: nat)
      requires Valid()
      ensures found <==> (k, v) in Contents(Cells())
      ensures found ==> slot < blockSize && SlotNumber(blockSize, page, slot) < size
                        && Cells()[SlotNumber(blockSize, page, slot)] == Full(k, v)
    {
      hide Reachable, Home, Cells, SlotNumber, PageCount, LastPageSize, PagesOk, SpareOk, At, Contents;
      ghost var cells, h := Cells(), Home(hash, size, k);
      var page0, slot0 := GetPagePosition(k);
      page, slot := page0, slot0;
      ghost var i := 0;
      StartAt(size, h);
      var occupied, pair := ReadSlot(page, slot);
      while occupied
        invariant 0 <= i < size && slot < blockSize && SlotNumber(blockSize, page, slot) == At(size, h, i)
        invariant forall j :: 0 <= j < i ==> cells[At(size, h, j)] != Full(k, v)
        invariant var c := cells[At(size, h, i)];
                  occupied == !c.Fresh? && pair == if c.Full? then Some((c.key, c.value)) else None
        decreases size - i
      {
        if pair == Some((k, v)) {
          ContentsHas(cells, (k, v));
          return true, page, slot;
        }
        AtStep(size, h, i);
        page, slot := NextSlot(page, slot);
        SameSlot(blockSize, page, slot, page0, slot0);
        i := i + 1;
        if page == page0 && slot == slot0 {
          AbsentAfter(cells, hash, k, v, i);
          return false, page, slot;
        }
        occupied, pair := ReadSlot(page, slot);
      }
      AbsentAfter(cells, hash, k, v, i);
      return false, page, slot;
    }

    /** Refines taking one copy of a pair out of a multiset; fails exactly on an absent pair. */
    method Remove(k: K, v: V) returns (ok: bool)
      requires Valid()
      modifies pages
      ensures Valid()
      ensures ok <==> (k, v) in Contents(old(Cells()))
      ensures ok ==> Contents(Cells()) == Contents(old(Cells())) - multiset{(k, v)}
      ensures !ok ==> Cells() == old(Cells())
    {
      hide Reachable, Cells, SlotNumber, PageCount, LastPageSize, PagesOk, SpareOk, Contents;
      ghost var cells := Cells();
      var page, slot;
      ok, page, slot := ProbeForRemove(k, v);
      if ok {
        RemoveAt(page, slot);
        RemoveKeeps(cells, hash, SlotNumber(blockSize, page, slot));
      }
    }

    /** Step one of a resize: copy every pair out, page by page, and leave tombstones. */
    method TakeOutPairs() returns (cache: seq<(K, V)>)
      requires Shape() && SpareOk()
      modifies pages
      ensures Shape() && SpareOk()
      ensures cache == Collected(old(Cells()), size) && Cells() == TakenOut(old(Cells()), size)
    {
      hide Cells, SlotNumber, PageCount, LastPageSize, PagesOk, SpareOk, Collected, TakenOut;
      ghost var cells := Cells();
      cache := [];
      NothingTaken(cells);
      ghost var g := 0;
      var page := 0;
      SlotZero(size, blockSize);
      while page < pageNumber
        invariant 0 <= page <= pageNumber && g <= size && Shape() && SpareOk()
        invariant g == if page == pageNumber then size else SlotNumber(blockSize, page, 0)
        invariant cache == Collected(cells, g) && Cells() == TakenOut(cells, g)
      {
        PageSlots(size, blockSize, page);
        cache, g := TakeOutPage(page, cache, cells);
        page := page + 1;
      }
    }

    method TakeOutPage(page: nat, before: seq<(K, V)>, ghost cells: seq<Cell<K, V>>)
      returns (cache: seq<(K, V)>, ghost g: nat)
      requires Shape() && SpareOk() && page < pageNumber && |cells| == size && SlotNumber(blockSize, page, 0) <= size
      requires before == Collected(cells, SlotNumber(blockSize, page, 0))
      requires Cells() == TakenOut(cells, SlotNumber(blockSize, page, 0))
      modifies pages
      ensures Shape() && SpareOk()
      ensures g == if page + 1 == pageNumber then size else SlotNumber(blockSize, page + 1, 0)
      ensures g <= size && cache == Collected(cells, g) && Cells() == TakenOut(cells, g)
    {
      hide Cells, SlotNumber, PageCount, LastPageSize, PagesOk, SpareOk, Collected, TakenOut;
      g := SlotNumber(blockSize, page, 0);
      cache := before;
      var slot := 0;
      var limit := if page == pageNumber - 1 then lastPageSize else blockSize;
      PageSlots(size, blockSize, page);
      while slot < limit
        invariant 0 <= slot <= limit && Shape() && SpareOk()
        invariant g == SlotNumber(blockSize, page, slot) == SlotNumber(blockSize, page, 0) + slot && g <= size
        invariant cache == Collected(cells, g) && Cells() == TakenOut(cells, g)
      {
        var pair := TakeOutSlot(page, slot);
        CollectNext(cells, g);
        SlotSucc(blockSize, page, slot);
        cache := cache + if pair.Some? then [pair.value] else [];
        slot := slot + 1;
        g := g + 1;
      }
    }

    method TakeOutSlot(page: nat, slot: nat) returns (pair: Option<(K, V)>)
      requires Shape() && SpareOk()
      requires slot < blockSize && SlotNumber(blockSize, page, slot) < size
      modifies pages
      ensures Shape() && SpareOk()
      ensures var c := old(Cells())[SlotNumber(blockSize, page, slot)];
              && pair == (if c.Full? then Some((c.key, c.value)) else None)
              && Cells() == if c.Full? then old(Cells())[SlotNumber(blockSize, page, slot) := Tomb] else old(Cells())
    {
      hide Cells, SlotNumber, PageCount, LastPageSize, PagesOk, SpareOk;
      var occupied;
      occupied, pair := ReadSlot(page, slot);
      if pair.Some? {
        RemoveAt(page, slot);
      }
    }

    /** Resizes the table in place. It succeeds exactly when no pair is stored twice and the pairs
        fit the new size, and then keeps the contents: no reinsert is refused and the table
        never fills up, whatever tombstones are left over. */
    method Resize(initialSize: nat) returns (ok: bool)
      requires Valid() && initialSize > 0 && PageCount(size, blockSize) <= PageCount(2 * initialSize, blockSize)
      modifies this, pages
      ensures Shape() && size == 2 * initialSize
      ensures ok <==> Distinct(Contents(old(Cells()))) && |Contents(old(Cells()))| <= size
      ensures ok ==> Valid() && Contents(Cells()) == Contents(old(Cells())) && Packed(Cells(), hash)
    {
      hide Cells, SlotNumber, PageCount, LastPageSize, PagesOk, SpareOk, Collected, TakenOut, Stored, Reachable,
        Packed, Distinct;
      ghost var cells := Cells();
      var cache := TakeOutPairs();
      CollectedAll(cells, size);
      SetSize(initialSize, cells);
      ok := Rehash(cache);
      DistinctPairs(cache);
    }

    /** A size not below the current one always has room for the pairs. */
    lemma GrowingFits(initialSize: nat)
      requires Shape() && 0 < initialSize && size <= 2 * initialSize
      ensures PageCount(size, blockSize) <= PageCount(2 * initialSize, blockSize)
      ensures |Contents(Cells())| <= 2 * initialSize
    {
      hide Flat, PageCount, PagesOk, Stored;
      PageCountGrows(size, 2 * initialSize, blockSize);
      CollectedAll(Cells(), size);
    }

    /** Step two: new size fields and fresh pages behind the old ones. */
    method SetSize(initialSize: nat, ghost cells: seq<Cell<K, V>>)
      requires Shape() && SpareOk() && initialSize > 0
      requires PageCount(size, blockSize) <= PageCount(2 * initialSize, blockSize)
      requires |cells| == size && Cells() == TakenOut(cells, size)
      modifies this
      ensures Valid() && size == 2 * initialSize && |old(pages)| <= |pages|
      ensures forall i :: 0 <= i < |old(pages)| ==> pages[i] == old(pages)[i]
      ensures forall i :: |old(pages)| <= i < |pages| ==> fresh(pages[i])
      ensures NoneFull(Cells()) && Packed(Cells(), hash) && Contents(Cells()) == multiset{}
    {
      hide Flat, SlotNumber, PageCount, LastPageSize, TakenOut, Contents, Reachable, Packed, NoneFull, Spare,
        BlockPage.Valid, BlockPage.View, Even;
      ghost var views, n := Views(), size;
      var oldPages := pageNumber;
      size := 2 * initialSize;
      pageNumber := PageCount(size, blockSize);
      lastPageSize := LastPageSize(size, blockSize);
      AllocatePages(oldPages);
      FlatResized(views, Views(), blockSize, n, size, cells);
      NoneFullHoldsNothing(Cells(), hash);
    }

    /** Step three: insert the copied pairs again, in order. */
    method Rehash(cache: seq<(K, V)>) returns (ok: bool)
      requires Valid() && Packed(Cells(), hash) && Contents(Cells()) == multiset{}
      modifies pages
      ensures Shape() && size == old(size)
      ensures ok <==> |cache| <= size && forall i, j :: 0 <= i < j < |cache| ==> cache[i] != cache[j]
      ensures ok ==> Valid() && Contents(Cells()) == multiset(cache) && Packed(Cells(), hash)
    {
      hide Cells, SlotNumber, PageCount, LastPageSize, PagesOk, SpareOk, Contents, Reachable, Packed, Home, At,
        FreeAfter, Distinct, Even, Flat;
      var i := 0;
      while i < |cache|
        invariant 0 <= i <= |cache| && i <= size && Valid() && Packed(Cells(), hash)
        invariant Contents(Cells()) == multiset(cache[..i])
        invariant forall x, y :: 0 <= x < y < i ==> cache[x] != cache[y]
      {
        ghost var cells := Cells();
        var r, steps := InsertHelper(cache[i].0, cache[i].1);
        NotYetFull(cells, cache, i);
        if !r.Inserted? {
          return false;
        }
        InsertPacked(cells, hash, cache[i].0, cache[i].1, steps);
        assert cache[..i + 1] == cache[..i] + [cache[i]];
        i := i + 1;
        AtMostFull(Cells(), cache, i);
      }
      assert cache[..i] == cache;
      return true;
    }
  }

  /** Before pair `i` goes in, the table has an unused slot if it has more than `i`. */
  lemma NotYetFull<K, V>(cells: seq<Cell<K, V>>, cache: seq<(K, V)>, i: nat)
    requires i < |cache| && Contents(cells) == multiset(cache[..i])
    ensures i < |cells| ==> !forall p :: 0 <= p < |cells| ==> cells[p].Full?
    ensures cache[i] in Contents(cells) <==> exists j :: 0 <= j < i && cache[j] == cache[i]
  {
    assert |multiset(cache[..i])| == i;
    if forall p :: 0 <= p < |cells| ==> cells[p].Full? {
      FullStretch(cells, 0, |cells|);
    }
    assert cache[i] in multiset(cache[..i]) <==> cache[i] in cache[..i];
  }

  lemma AtMostFull<K, V>(cells: seq<Cell<K, V>>, cache: seq<(K, V)>, i: nat)
    requires i <= |cache| && Contents(cells) == multiset(cache[..i])
    ensures i <= |cells|
  {
    CollectedAll(cells, |cells|);
    assert |multiset(cache[..i])| == i;
  }

  lemma NothingTaken<K, V>(cells: seq<Cell<K, V>>)
    ensures TakenOut(cells, 0) == cells && Collected(cells, 0) == []
  {
  }

  lemma CollectNext<K, V>(cells: seq<Cell<K, V>>, g: nat)
    requires g < |cells|
    ensures TakenOut(cells, g)[g] == cells[g]
    ensures TakenOut(cells, g + 1) == if cells[g].Full? then TakenOut(cells, g)[g := Tomb] else TakenOut(cells, g)
    ensures Collected(cells, g + 1) ==
            Collected(cells, g) + if cells[g].Full? then [(cells[g].key, cells[g].value)] else []
  {
    TakeOutNext(cells, g);
  }

  /** A sequence without repetitions is a multiset without repetitions. */
  lemma DistinctPairs<K(!new), V(!new)>(s: seq<(K, V)>)
    ensures Distinct(multiset(s)) <==> forall i, j :: 0 <= i < j < |s| ==> s[i] != s[j]
  {
    if forall i, j :: 0 <= i < j < |s| ==> s[i] != s[j] {
      forall x
        ensures multiset(s)[x] <= 1
      {
        CountOnce(s, x);
      }
    } else {
      var i, j :| 0 <= i < j < |s| && s[i] == s[j];
      assert s == s[..j] + [s[j]] + s[j + 1..];
      assert s[i] in s[..j];
      assert multiset(s)[s[i]] >= 2;
    }
  }

  lemma {:induction false} CountOnce<T>(s: seq<T>, x: T)
    requires forall i, j :: 0 <= i < j < |s| ==> s[i] != s[j]
    ensures multiset(s)[x] <= 1
  {
    if s != [] {
      var init := s[..|s| - 1];
      CountOnce(init, x);
      assert s == init + [s[|s| - 1]];
      assert s[|s| - 1] !in init;
    }
  }

  lemma SlotZero(size: nat, b: nat)
    requires b > 0 && size > 0
    ensures SlotNumber(b, 0, 0) == 0
  {
  }

  lemma SlotSucc(b: nat, page: nat, slot: nat)
    ensures SlotNumber(b, page, slot + 1) == SlotNumber(b, page, slot) + 1
  {
  }

  /** The slots of one page are numbered without a gap up to the next page or the end. */
  lemma PageSlots(size: nat, b: nat, page: nat)
    requires b > 0 && size > 0 && page < PageCount(size, b)
    ensures var limit := if page == PageCount(size, b) - 1 then LastPageSize(size, b) else b;
            && 0 < limit <= b
            && SlotNumber(b, page, 0) + limit ==
               (if page + 1 == PageCount(size, b) then size else SlotNumber(b, page + 1, 0))
            && forall slot :: 0 <= slot < limit ==> SlotNumber(b, page, slot) < size
  {
    Sizes(size, b);
    MulGap(b, page, PageCount(size, b) - 1);
    assert SlotNumber(b, page + 1, 0) == page * b + b;
  }

  lemma PageCountGrows(n: nat, size: nat, b: nat)
    requires b > 0 && 0 < n <= size
    ensures PageCount(n, b) <= PageCount(size, b)
  {
    Sizes(n, b);
    Sizes(size, b);
    MulGap(b, PageCount(size, b) - 1, PageCount(n, b) - 1);
  }

  /** Slots without pairs stay so, whatever numbers they get. */
  lemma FlatResized<K, V>(views: seq<seq<Cell<K, V>>>, after: seq<seq<Cell<K, V>>>, b: nat, n: nat, size: nat,
                          cells: seq<Cell<K, V>>)
    requires b > 0 && 0 < n && 0 < size && |views| == PageCount(n, b) <= |after| == PageCount(size, b)
    requires Even(views, b) && Even(after, b) && after[..|views|] == views
    requires forall i :: |views| <= i < |after| ==> after[i] == seq(b, _ => Fresh)
    requires Spare(views[|views| - 1], LastPageSize(n, b))
    requires |cells| == n && Flat(views, b, n) == TakenOut(cells, n)
    ensures NoneFull(Flat(after, b, size))
    ensures Spare(after[|after| - 1], LastPageSize(size, b))
  {
    hide PageCount, LastPageSize, Spare, Flat, TakenOut;
    forall page, slot | 0 <= page < |after| && 0 <= slot < b
      ensures !after[page][slot].Full?
    {
      if page < |views| {
        assert after[page] == views[page];
        UnusedSlot(views, b, n, cells, page, slot);
      }
    }
    FlatNoneFull(after, b, size);
  }

  lemma UnusedSlot<K, V>(views: seq<seq<Cell<K, V>>>, b: nat, n: nat, cells: seq<Cell<K, V>>, page: nat, slot: nat)
    requires b > 0 && 0 < n && |views| == PageCount(n, b) && Even(views, b) && page < |views| && slot < b
    requires Spare(views[|views| - 1], LastPageSize(n, b))
    requires |cells| == n && Flat(views, b, n) == TakenOut(cells, n)
    ensures !views[page][slot].Full?
  {
    hide Flat, PageCount, LastPageSize;
    if SlotNumber(b, page, slot) < n {
      FlatAt(views, b, n, page, slot);
    } else {
      PageSlots(n, b, page);
      MulGap(b, page, |views| - 1);
    }
  }

  lemma FlatNoneFull<K, V>(views: seq<seq<Cell<K, V>>>, b: nat, size: nat)
    requires b > 0 && 0 < size && |views| == PageCount(size, b) && Even(views, b)
    requires forall page, slot :: 0 <= page < |views| && 0 <= slot < b ==> !views[page][slot].Full?
    ensures NoneFull(Flat(views, b, size)) && Spare(views[|views| - 1], LastPageSize(size, b))
  {
    hide PageCount, LastPageSize;
    forall g | 0 <= g < size
      ensures !CellOf(views, b, size, g).Full?
    {
      assert g == SlotNumber(b, g / b, g % b);
      Located(size, b, g / b, g % b);
    }
  }

  lemma StartAt(n: nat, h: nat)
    requires h < n
    ensures At(n, h, 0) == h
  {
  }

  /** A full turn over pairs other than `x`. */
  lemma AllFull<K, V>(cells: seq<Cell<K, V>>, h: nat, x: (K, V))
    requires h < |cells| && Passed(cells, h, |cells|, x)
    ensures x !in Contents(cells) && forall p :: 0 <= p < |cells| ==> cells[p].Full?
  {
    hide Contents;
    ContentsHas(cells, x);
    forall p | 0 <= p < |cells|
      ensures cells[p].Full? && cells[p] != Full(x.0, x.1)
    {
      assert At(|cells|, h, Steps(|cells|, h, p)) == p;
    }
  }

  lemma StartFound<K, V>(cells: seq<Cell<K, V>>, h: nat, k: K)
    requires h < |cells|
    ensures Found(cells, h, 0, k) == multiset{} && At(|cells|, h, 0) == h
  {
  }

  lemma EmptyResult<V>(result: seq<V>)
    ensures result != [] <==> multiset(result) != multiset{}
  {
    assert result != [] ==> result[0] in multiset(result);
  }

  lemma AtStep(n: nat, h: nat, i: nat)
    requires h < n && i < n
    ensures At(n, h, i + 1) == if At(n, h, i) + 1 == n then 0 else At(n, h, i) + 1
    ensures At(n, h, i + 1) == h <==> i + 1 == n
  {
  }

  lemma Collect<K, V>(cells: seq<Cell<K, V>>, h: nat, i: nat, k: K, result: seq<V>)
    requires h < |cells| && i < |cells| && multiset(result) == Found(cells, h, i, k)
    ensures var c := cells[At(|cells|, h, i)];
            Found(cells, h, i + 1, k) == multiset(if c.Full? && c.key == k then result + [c.value] else result)
  {
    hide Found;
    FoundStep(cells, h, i, k);
  }

  lemma FreshTable<K, V>(views: seq<seq<Cell<K, V>>>, b: nat, size: nat, p: nat)
    requires b > 0 && size > 0 && |views| == PageCount(size, b) && Even(views, b) && p < size
    requires forall i :: 0 <= i < |views| ==> views[i] == seq(b, _ => Fresh)
    ensures Flat(views, b, size)[p].Fresh?
  {
    hide PageCount;
    assert p == SlotNumber(b, p / b, p % b);
    Located(size, b, p / b, p % b);
  }

  lemma EmptyTable<K, V>(views: seq<seq<Cell<K, V>>>, hash: K -> nat, b: nat, size: nat)
    requires b > 0 && size > 0 && |views| == PageCount(size, b) && Even(views, b)
    requires forall i :: 0 <= i < |views| ==> views[i] == seq(b, _ => Fresh)
    ensures var cells := Flat(views, b, size);
            && Reachable(cells, hash) && Contents(cells) == multiset{}
            && Packed(cells, hash) && Spare(views[|views| - 1], LastPageSize(size, b))
  {
    hide PageCount, LastPageSize, Flat, PathTo, FullPathTo;
    var cells := Flat(views, b, size);
    forall p | 0 <= p < size
      ensures cells[p].Fresh?
    {
      FreshTable(views, b, size, p);
    }
    NothingStored(cells, 0, size);
  }
}
