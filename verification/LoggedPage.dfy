/** Page operations with logging on: the operation, its log record, and the page LSN. */
module LoggedPage {
  import opened Bytes
  import opened SlotMap
  import opened TablePageModel
  import opened LogCodec
  import opened Replay

  datatype Request =
    | DoInsert(tuple: seq<byte>)
    | DoMarkDelete(slot: uint32)
    | DoUpdate(slot: uint32, tuple: seq<byte>)
    | DoApplyDelete(slot: uint32)
    | DoRollbackDelete(slot: uint32)

  /** What the page operation asserts. */
  predicate Allowed(v: seq<Slot>, req: Request) {
    match req
    case DoInsert(t) => t != []
    case DoMarkDelete(_) => true
    case DoUpdate(_, t) => t != []
    case DoApplyDelete(s) => Occupied(v, s)
    case DoRollbackDelete(s) => s < |v|
  }

  /** The page operation succeeds. */
  predicate Succeeds(v: seq<Slot>, req: Request) {
    match req
    case DoInsert(t) => CanInsert(v, t)
    case DoMarkDelete(s) => Live(v, s)
    case DoUpdate(s, t) => CanUpdate(v, s, t)
    case DoApplyDelete(_) => true
    case DoRollbackDelete(_) => true
  }

  /** The record is of the request's kind, names its slot and carries its tuple. */
  predicate RecordsRequest(op: Op, req: Request) {
    match req
    case DoInsert(t) => op.Insert? && op.tuple == t
    case DoMarkDelete(s) => op.MarkDelete? && op.rid.slot == s && op.tuple == []
    case DoUpdate(s, t) => op.Update? && op.rid.slot == s && op.newTuple == t
    case DoApplyDelete(s) => op.ApplyDelete? && op.rid.slot == s
    case DoRollbackDelete(s) => op.RollbackDelete? && op.rid.slot == s && op.tuple == []
  }

  /** The operation on the page, and the record it logs if it succeeds. */
  method Operate(page: TablePage, req: Request) returns (op: Option<Op>)
    requires page.Valid() && Allowed(View(page.data[..]), req)
    modifies page.data
    ensures page.Valid() && page.data[..16] == old(page.data[..16])
    ensures op.Some? <==> Succeeds(old(View(page.data[..])), req)
    ensures op.None? ==> page.data[..] == old(page.data[..])
    ensures op.Some? ==> RecordsRequest(op.value, req) && op.value.rid.pageId == PageId(page.data[..])
    ensures op.Some? ==> Legal(Slotted(old(View(page.data[..]))), op.value)
    ensures op.Some? ==> View(page.data[..]) == ApplyTo(old(View(page.data[..])), op.value)
  {
    hide Inv, View, FreeSpace, ReadI32;
    ViewCount(page.data[..]);
    var pid := PageId(page.data[..]);
    ghost var p := page.data[..];
    op := None;
    match req {
      case DoInsert(tuple) =>
        var ok, rid := page.InsertTuple(tuple);
        if ok {
          op := Some(Insert(rid, tuple));
        }
      case DoMarkDelete(slot) =>
        var ok := page.MarkDelete(slot);
        if ok {
          op := Some(MarkDelete(RID(pid, slot), []));
        }
      case DoUpdate(slot, tuple) =>
        var ok, before := page.UpdateTuple(tuple, slot);
        if ok {
          op := Some(Update(RID(pid, slot), before, tuple));
        }
      case DoApplyDelete(slot) =>
        NonEmpty(page.data[..], slot);
        var deleted := page.ApplyDelete(slot);
        op := Some(ApplyDelete(RID(pid, slot), deleted));
      case DoRollbackDelete(slot) =>
        page.RollbackDelete(slot);
        op := Some(RollbackDelete(RID(pid, slot), []));
    }
    ViewCount(page.data[..]);
    HeaderSame(p, page.data[..]);
  }

  lemma NonEmpty(p: seq<byte>, s: nat)
    requires Inv(p) && Occupied(View(p), s)
    ensures View(p)[s].data != []
  {
    hide View, ReadU32;
    ViewCount(p);
    ReadSlot(p, s);
  }

  /** The whole write: a success sets the page LSN to that of its record, so the page is the
      replay of the record on what it was; a failure changes no byte. */
  method Write(page: TablePage, req: Request, lsn: int32) returns (op: Option<Op>)
    requires page.Valid() && Allowed(View(page.data[..]), req)
    modifies page.data
    ensures page.Valid() && (op.Some? <==> Succeeds(old(View(page.data[..])), req))
    ensures op.None? ==> page.data[..] == old(page.data[..])
    ensures op.Some? ==> RecordsRequest(op.value, req) && Touches(op.value, old(PageId(page.data[..])))
    ensures op.Some? ==> Legal(ImageOf(old(page.data[..])), op.value) && Lsn(page.data[..]) == lsn
    ensures op.Some? ==> ImageOf(page.data[..]) == Apply(ImageOf(old(page.data[..])), op.value)
  {
    hide Inv, View, ReadI32, ReadU32, ApplyTo, Legal;
    ghost var p := page.data[..];
    ViewCount(p);
    op := Operate(page, req);
    ViewCount(page.data[..]);
    HeaderSame(p, page.data[..]);
    if op.Some? {
      ghost var q := page.data[..];
      page.SetLSN(lsn);
      assert page.data[..][16..] == q[16..] by {
        assert page.data[8..] == q[8..];
        assert page.data[..][16..] == page.data[8..][8..] && q[16..] == q[8..][8..];
      }
      TailDecides(q, page.data[..]);
    }
  }

  lemma LifeSteps(t: seq<byte>, u: seq<byte>)
    requires 0 < |t| <= 2000 && 0 < |u| <= 2000
    ensures var rid, a, b, c := RID(7, 0), [Tuple(t, false)], [Tuple(t, true)], [Tuple(u, false)];
            && CanInsert([], t) && ApplyTo([], Insert(rid, t)) == a && FirstEmpty([]) == 0
            && Live(a, 0) && ApplyTo(a, MarkDelete(rid, [])) == b
            && ApplyTo(b, RollbackDelete(rid, [])) == a
            && CanUpdate(a, 0, u) && ApplyTo(a, Update(rid, t, u)) == c && Occupied(c, 0)
  {
    var a := [Tuple(t, false)];
    assert a[..0] == [];
    assert Used(a) == |t|;
    assert Inserted([], t) == a;
    assert a[0 := Tuple(t, true)] == [Tuple(t, true)];
    assert [Tuple(t, true)][0 := Tuple(t, false)] == a;
    assert a[0 := Tuple(u, false)] == [Tuple(u, false)];
  }

  /** One tuple from its insert on an empty page to its removal, with every kind of record. */
  method LifeOfATuple(t: seq<byte>, u: seq<byte>) returns (log: seq<Op>)
    requires 0 < |t| <= 2000 && 0 < |u| <= 2000
    ensures |log| == 5 && log[0] == Insert(RID(7, 0), t) && log[1] == MarkDelete(RID(7, 0), [])
    ensures log[2] == RollbackDelete(RID(7, 0), []) && log[3] == Update(RID(7, 0), t, u)
    ensures log[4] == ApplyDelete(RID(7, 0), u)
  {
    hide Inv, View, ReadI32, ReadU32, ApplyTo, FreeSpace, CanInsert, CanUpdate;
    var page := new TablePage(Zeros(PAGE_SIZE));
    page.Init(7, INVALID_PAGE_ID);
    LifeSteps(t, u);
    var op := Step(page, DoInsert(t));
    log := [op];
    op := Step(page, DoMarkDelete(0));
    log := log + [op];
    op := Step(page, DoRollbackDelete(0));
    log := log + [op];
    op := Step(page, DoUpdate(0, u));
    log := log + [op];
    op := Step(page, DoApplyDelete(0));
    log := log + [op];
  }

  /** One request that succeeds, on page 7. */
  method Step(page: TablePage, req: Request) returns (op: Op)
    requires page.Valid() && PageId(page.data[..]) == 7
    requires Allowed(View(page.data[..]), req) && Succeeds(View(page.data[..]), req)
    modifies page.data
    ensures page.Valid() && PageId(page.data[..]) == 7 && IsTupleOp(op) && op.rid.pageId == 7
    ensures RecordsRequest(op, req) && Legal(Slotted(old(View(page.data[..]))), op)
    ensures View(page.data[..]) == ApplyTo(old(View(page.data[..])), op)
  {
    hide Inv, View, ReadI32, ReadU32, ApplyTo, Legal, Succeeds, Allowed;
    ghost var p := page.data[..];
    ViewCount(p);
    var r := Operate(page, req);
    ViewCount(page.data[..]);
    HeaderSame(p, page.data[..]);
    op := r.value;
  }
}
