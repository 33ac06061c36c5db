/** Normal operation up to a crash: transactions log what they do to pages in memory,
    pages are written back to disk at any time, and a crash keeps a prefix of the log.
    Every such run leaves a disk and a log from which recovery works. */
module CrashRun {
  import opened Bytes
  import opened SlotMap
  import opened TablePageModel
  import opened LogCodec
  import opened LogManagerModel
  import opened Replay
  import opened RedoPass
  import opened UndoPass
  import opened LogRecoveryModel

  datatype PageState = PageState(lsn: int, image: Image)

  /** `prev` is the last LSN of each running transaction. */
  datatype Engine = Engine(
    log: seq<LogRecord>, mem: map<int32, PageState>, disk: map<int32, PageState>, prev: map<int32, int32>, nextTxn: int)

  datatype Action =
    | BeginTxn
    | Write(txn: int32, op: Op)
    | WriteBack(pid: int32)

  /** A page nobody touched still has its base image and page LSN 0. */
  function PageIn(base: Base, pages: map<int32, PageState>, pid: int32): PageState {
    if pid in pages then pages[pid] else PageState(0, BaseImage(base, pid))
  }

  function PageOf(op: Op): Option<int32> {
    if op.NewPage? then Some(op.pageId) else if IsTupleOp(op) then Some(op.rid.pageId) else None
  }

  ghost predicate Enabled(base: Base, e: Engine, a: Action) {
    && |e.log| < TWO_31
    && match a
       case BeginTxn => 0 <= e.nextTxn < TWO_31
       case Write(txn, op) =>
         && txn in e.prev && !op.Begin?
         && (PageOf(op).Some? ==> Legal(PageIn(base, e.mem, PageOf(op).value).image, op))
       case WriteBack(_) => true
  }

  /** The effect on the page and its LSN of logging `op` as record number `lsn`. */
  function Dirtied(base: Base, mem: map<int32, PageState>, op: Op, lsn: int): map<int32, PageState> {
    match PageOf(op)
    case None => mem
    case Some(pid) => mem[pid := PageState(lsn, Apply(PageIn(base, mem, pid).image, op))]
  }

  ghost function After(base: Base, e: Engine, a: Action): Engine
    requires Enabled(base, e, a)
  {
    match a
    case BeginTxn =>
      e.(log := e.log + [LogRecord(|e.log|, e.nextTxn, INVALID_LSN, Begin)],
         prev := e.prev[e.nextTxn := |e.log|], nextTxn := e.nextTxn + 1)
    case Write(txn, op) =>
      e.(log := e.log + [LogRecord(|e.log|, txn, e.prev[txn], op)],
         mem := Dirtied(base, e.mem, op, |e.log|),
         prev := if EndsTxn(op) then e.prev - {txn} else e.prev[txn := |e.log|])
    case WriteBack(pid) => e.(disk := e.disk[pid := PageIn(base, e.mem, pid)])
  }

  ghost predicate Run(base: Base, states: seq<Engine>, actions: seq<Action>) {
    && |states| == |actions| + 1
    && states[0] == Engine([], map[], map[], map[], 0)
    && forall i :: 0 <= i < |actions| ==>
         Enabled(base, states[i], actions[i]) && states[i + 1] == After(base, states[i], actions[i])
  }

  // ---------- what every run keeps ----------

  ghost predicate PrevOk(e: Engine) {
    && (forall x: int32 :: x in e.prev ==> Unfinished(e.log, |e.log|, x) && e.prev[x] == LastLsn(e.log, |e.log|, x))
    && (forall k :: 0 <= k < |e.log| ==> 0 <= e.log[k].txn < e.nextTxn)
    && e.nextTxn >= 0 && (e.prev != map[] ==> e.log != [])
  }

  /** A page state is the replay of the log up to its LSN. */
  ghost predicate Dated(base: Base, log: seq<LogRecord>, pid: int32, s: PageState) {
    && 0 <= s.lsn && (s.lsn < |log| || (log == [] && s.lsn == 0))
    && s.image == ImageAfter(base, pid, log, if log == [] then 0 else s.lsn + 1)
  }

  ghost predicate PagesOk(base: Base, e: Engine) {
    && (forall pid: int32 :: Dated(base, e.log, pid, PageIn(base, e.disk, pid)))
    && (forall pid: int32 :: Dated(base, e.log, pid, PageIn(base, e.mem, pid)))
    && (forall pid: int32 :: PageIn(base, e.mem, pid).image == ImageAfter(base, pid, e.log, |e.log|))
  }

  ghost predicate Inv(base: Base, e: Engine) {
    TxnLog(e.log) && LegalLog(base, e.log) && PrevOk(e) && PagesOk(base, e)
  }

  lemma {:induction false} LastLsnPrefix(log: seq<LogRecord>, d: nat, n: nat, x: int32)
    requires n <= d <= |log|
    ensures LastLsn(log[..d], n, x) == LastLsn(log, n, x)
  {
    if n > 0 {
      LastLsnPrefix(log, d, n - 1, x);
    }
  }

  /** A prefix of the log is as well formed as the log. */
  lemma PrefixOk(base: Base, log: seq<LogRecord>, d: nat)
    requires d <= |log| && TxnLog(log) && LegalLog(base, log)
    ensures TxnLog(log[..d]) && LegalLog(base, log[..d])
  {
    forall k | 0 <= k < d
      ensures TxnRecord(log[..d], k)
    {
      assert TxnRecord(log, k);
      LastLsnPrefix(log, d, k, log[k].txn);
    }
    forall k, pid | 0 <= k < d && Touches(log[..d][k].op, pid)
      ensures Legal(ImageAfter(base, pid, log[..d], k), log[..d][k].op)
    {
      ImageAfterPrefix(base, pid, log, d, k);
    }
  }

  /** Appending one record that fits what came before. */
  lemma AppendOk(base: Base, log: seq<LogRecord>, r: LogRecord)
    requires TxnLog(log) && LegalLog(base, log)
    requires r.lsn == |log| && r.prevLsn == LastLsn(log, |log|, r.txn) && r.txn != INVALID_TXN_ID
    requires r.op.Begin? <==> r.prevLsn == -1
    requires r.prevLsn >= 0 ==> !EndsTxn(log[r.prevLsn].op)
    requires forall pid: int32 :: Touches(r.op, pid) ==> Legal(ImageAfter(base, pid, log, |log|), r.op)
    ensures TxnLog(log + [r]) && LegalLog(base, log + [r])
  {
    hide ImageAfter, Legal;
    var longer := log + [r];
    assert longer[..|log|] == log;
    forall k | 0 <= k < |longer|
      ensures TxnRecord(longer, k)
    {
      LastLsnPrefix(longer, |log|, k, longer[k].txn);
      assert k < |log| ==> TxnRecord(log, k);
    }
    forall k, pid | 0 <= k < |longer| && Touches(longer[k].op, pid)
      ensures Legal(ImageAfter(base, pid, longer, k), longer[k].op)
    {
      ImageAfterPrefix(base, pid, longer, |log|, k);
    }
  }

  /** A dated page stays dated when the log grows, if the first record touches no page. */
  lemma DatedGrows(base: Base, log: seq<LogRecord>, r: LogRecord, pid: int32, s: PageState)
    requires Dated(base, log, pid, s) && (log == [] ==> !Touches(r.op, pid))
    ensures Dated(base, log + [r], pid, s)
  {
    var longer := log + [r];
    assert longer[..|log|] == log;
    if log == [] {
      assert ImageAfter(base, pid, longer, 1) == ImageAfter(base, pid, longer, 0);
    } else {
      ImageAfterPrefix(base, pid, longer, |log|, s.lsn + 1);
    }
  }

  lemma PageAppended(base: Base, e: Engine, r: LogRecord, mem: map<int32, PageState>, pid: int32)
    requires PagesOk(base, e) && (e.log == [] ==> !Touches(r.op, pid))
    requires mem == Dirtied(base, e.mem, r.op, |e.log|)
    ensures Dated(base, e.log + [r], pid, PageIn(base, e.disk, pid))
    ensures Dated(base, e.log + [r], pid, PageIn(base, mem, pid))
    ensures PageIn(base, mem, pid).image == ImageAfter(base, pid, e.log + [r], |e.log| + 1)
  {
    hide Apply;
    var longer := e.log + [r];
    assert longer[..|e.log|] == e.log;
    DatedGrows(base, e.log, r, pid, PageIn(base, e.disk, pid));
    DatedGrows(base, e.log, r, pid, PageIn(base, e.mem, pid));
    ImageAfterPrefix(base, pid, longer, |e.log|, |e.log|);
    assert PageIn(base, e.mem, pid).image == ImageAfter(base, pid, longer, |e.log|);
  }

  lemma PrevAppended(e: Engine, r: LogRecord, prev: map<int32, int32>, nextTxn: int)
    requires PrevOk(e) && |e.log| < TWO_31
    requires 0 <= r.txn < nextTxn && e.nextTxn <= nextTxn
    requires prev == if EndsTxn(r.op) then e.prev - {r.txn} else e.prev[r.txn := |e.log|]
    ensures PrevOk(e.(log := e.log + [r], prev := prev, nextTxn := nextTxn))
  {
    var longer := e.log + [r];
    assert longer[..|e.log|] == e.log;
    forall x: int32
      ensures LastLsn(longer, |longer|, x) == if x == r.txn then |e.log| else LastLsn(e.log, |e.log|, x)
    {
      LastLsnPrefix(longer, |e.log|, |e.log|, x);
    }
  }

  lemma BeginKeepsInv(base: Base, e: Engine)
    requires Inv(base, e) && Enabled(base, e, BeginTxn)
    ensures Inv(base, After(base, e, BeginTxn))
  {
    hide Legal, ImageAfter, LegalLog, TxnLog, PagesOk, PrevOk;
    var e' := After(base, e, BeginTxn);
    var r := LogRecord(|e.log|, e.nextTxn, INVALID_LSN, Begin);
    FreshTxn(e);
    AppendOk(base, e.log, r);
    PrevAppended(e, r, e'.prev, e'.nextTxn);
    PagesAppended(base, e, r, e.mem);
    PagesDepend(base, e.(log := e.log + [r], mem := e.mem), e');
    PrevDepends(e.(log := e.log + [r], prev := e'.prev, nextTxn := e'.nextTxn), e');
  }

  lemma FreshTxn(e: Engine)
    requires PrevOk(e) && 0 <= e.nextTxn < TWO_31
    ensures LastLsn(e.log, |e.log|, e.nextTxn) == -1
  {
  }

  lemma RunningTxn(e: Engine, txn: int32)
    requires PrevOk(e) && txn in e.prev
    ensures e.log != [] && 0 <= txn < e.nextTxn
    ensures e.prev[txn] == LastLsn(e.log, |e.log|, txn) >= 0 && !EndsTxn(e.log[e.prev[txn]].op)
  {
  }

  lemma PagesAppended(base: Base, e: Engine, r: LogRecord, mem: map<int32, PageState>)
    requires PagesOk(base, e) && (e.log == [] ==> r.op.Begin?)
    requires mem == Dirtied(base, e.mem, r.op, |e.log|)
    ensures PagesOk(base, e.(log := e.log + [r], mem := mem))
  {
    hide Dated, ImageAfter, Dirtied;
    forall pid: int32
      ensures Dated(base, e.log + [r], pid, PageIn(base, e.disk, pid))
      ensures Dated(base, e.log + [r], pid, PageIn(base, mem, pid))
      ensures PageIn(base, mem, pid).image == ImageAfter(base, pid, e.log + [r], |e.log| + 1)
    {
      PageAppended(base, e, r, mem, pid);
    }
  }

  lemma PagesDepend(base: Base, a: Engine, b: Engine)
    requires PagesOk(base, a) && a.log == b.log && a.mem == b.mem && a.disk == b.disk
    ensures PagesOk(base, b)
  {
  }

  lemma PrevDepends(a: Engine, b: Engine)
    requires PrevOk(a) && a.log == b.log && a.prev == b.prev && a.nextTxn == b.nextTxn
    ensures PrevOk(b)
  {
  }

  lemma WriteKeepsInv(base: Base, e: Engine, txn: int32, op: Op)
    requires Inv(base, e) && Enabled(base, e, Write(txn, op))
    ensures Inv(base, After(base, e, Write(txn, op)))
  {
    hide Legal, ImageAfter, LegalLog, TxnLog, PagesOk, PrevOk, LastLsn;
    var e' := After(base, e, Write(txn, op));
    var r := LogRecord(|e.log|, txn, e.prev[txn], op);
    RunningTxn(e, txn);
    LegalNow(base, e, op);
    AppendOk(base, e.log, r);
    PrevAppended(e, r, e'.prev, e'.nextTxn);
    PagesAppended(base, e, r, e'.mem);
    PagesDepend(base, e.(log := e.log + [r], mem := e'.mem), e');
    PrevDepends(e.(log := e.log + [r], prev := e'.prev, nextTxn := e'.nextTxn), e');
  }

  lemma LegalNow(base: Base, e: Engine, op: Op)
    requires PagesOk(base, e)
    requires PageOf(op).Some? ==> Legal(PageIn(base, e.mem, PageOf(op).value).image, op)
    ensures forall pid: int32 :: Touches(op, pid) ==> Legal(ImageAfter(base, pid, e.log, |e.log|), op)
  {
    hide Legal, ImageAfter;
  }

  lemma {:induction false} RunKeepsInv(base: Base, states: seq<Engine>, actions: seq<Action>, i: nat)
    requires Run(base, states, actions) && i < |states|
    ensures Inv(base, states[i])
  {
    if i > 0 {
      RunKeepsInv(base, states, actions, i - 1);
      var e := states[i - 1];
      match actions[i - 1]
      case BeginTxn => BeginKeepsInv(base, e);
      case Write(txn, op) => WriteKeepsInv(base, e, txn, op);
      case WriteBack(pid) => WriteBackKeepsInv(base, e, pid);
    } else {
      StartInv(base);
    }
  }

  lemma WriteBackKeepsInv(base: Base, e: Engine, pid: int32)
    requires Inv(base, e) && Enabled(base, e, WriteBack(pid))
    ensures Inv(base, After(base, e, WriteBack(pid)))
  {
    hide ImageAfter, LegalLog, TxnLog, Dated;
    var e' := After(base, e, WriteBack(pid));
    forall other: int32
      ensures Dated(base, e.log, other, PageIn(base, e'.disk, other))
    {
      assert PageIn(base, e'.disk, other) ==
             if other == pid then PageIn(base, e.mem, pid) else PageIn(base, e.disk, other);
    }
  }

  lemma StartInv(base: Base)
    ensures Inv(base, Engine([], map[], map[], map[], 0))
  {
  }

  // ---------- what can happen next ----------

  ghost function Last(states: seq<Engine>): Engine
    requires states != []
  {
    states[|states| - 1]
  }

  lemma GoesOn(base: Base, states: seq<Engine>, actions: seq<Action>, a: Action)
    requires Run(base, states, actions) && Enabled(base, Last(states), a)
    ensures Run(base, states + [After(base, Last(states), a)], actions + [a])
  {
    hide Enabled, After;
    var longer, more := states + [After(base, Last(states), a)], actions + [a];
    forall i | 0 <= i < |more|
      ensures Enabled(base, longer[i], more[i]) && longer[i + 1] == After(base, longer[i], more[i])
    {
      assert i < |actions| ==> more[i] == actions[i] && longer[i] == states[i] && longer[i + 1] == states[i + 1];
    }
  }

  /** A transaction may begin at any time; its BEGIN record has no predecessor. */
  lemma MayBegin(base: Base, states: seq<Engine>, actions: seq<Action>) returns (next: Engine)
    requires Run(base, states, actions) && |Last(states).log| < TWO_31 && 0 <= Last(states).nextTxn < TWO_31
    ensures Run(base, states + [next], actions + [BeginTxn])
    ensures var e := Last(states);
            && next.log == e.log + [LogRecord(|e.log|, e.nextTxn, -1, Begin)]
            && next.prev == e.prev[e.nextTxn := |e.log|]
            && next.mem == e.mem && next.disk == e.disk && next.nextTxn == e.nextTxn + 1
  {
    next := After(base, Last(states), BeginTxn);
    GoesOn(base, states, actions, BeginTxn);
  }

  /** A running transaction may do anything its pages allow. */
  lemma MayWrite(base: Base, states: seq<Engine>, actions: seq<Action>, txn: int32, op: Op, pid: int32)
      returns (next: Engine)
    requires Run(base, states, actions) && |Last(states).log| < TWO_31 && txn in Last(states).prev
    requires Touches(op, pid) && Legal(PageIn(base, Last(states).mem, pid).image, op)
    ensures Run(base, states + [next], actions + [Write(txn, op)])
    ensures var e := Last(states);
            && next.log == e.log + [LogRecord(|e.log|, txn, e.prev[txn], op)] && next.prev == e.prev[txn := |e.log|]
            && next.mem == e.mem[pid := PageState(|e.log|, Apply(PageIn(base, e.mem, pid).image, op))]
            && next.disk == e.disk && next.nextTxn == e.nextTxn
  {
    hide Legal, Apply;
    next := After(base, Last(states), Write(txn, op));
    GoesOn(base, states, actions, Write(txn, op));
  }

  /** A running transaction may commit or abort, and is then no longer running. */
  lemma MayEnd(base: Base, states: seq<Engine>, actions: seq<Action>, txn: int32, op: Op) returns (next: Engine)
    requires Run(base, states, actions) && |Last(states).log| < TWO_31 && txn in Last(states).prev
    requires op == Commit || op == Abort
    ensures Run(base, states + [next], actions + [Write(txn, op)])
    ensures var e := Last(states);
            && next.log == e.log + [LogRecord(|e.log|, txn, e.prev[txn], op)] && next.prev == e.prev - {txn}
            && next.mem == e.mem && next.disk == e.disk && next.nextTxn == e.nextTxn
  {
    next := After(base, Last(states), Write(txn, op));
    GoesOn(base, states, actions, Write(txn, op));
  }

  /** Any page may be written back at any time. */
  lemma MayWriteBack(base: Base, states: seq<Engine>, actions: seq<Action>, pid: int32) returns (next: Engine)
    requires Run(base, states, actions) && |Last(states).log| < TWO_31
    ensures Run(base, states + [next], actions + [WriteBack(pid)])
    ensures next == Last(states).(disk := Last(states).disk[pid := PageIn(base, Last(states).mem, pid)])
  {
    next := After(base, Last(states), WriteBack(pid));
    GoesOn(base, states, actions, WriteBack(pid));
  }

  /** What a crash leaves: the first `durable` records, and the pages written back. */
  ghost predicate CrashedAnyhow(base: Base, e: Engine, durable: nat, store: Store) {
    && durable <= |e.log|
    && forall pid: int32 ::
         && ImageOf(Fetch(store, pid)) == PageIn(base, e.disk, pid).image
         && Lsn(Fetch(store, pid)) == PageIn(base, e.disk, pid).lsn
  }

  /** A crash that leaves no page newer than the log (write-ahead). */
  ghost predicate Crashed(base: Base, e: Engine, durable: nat, store: Store) {
    && CrashedAnyhow(base, e, durable, store)
    && forall pid: int32 ::
         && (durable > 0 ==> PageIn(base, e.disk, pid).lsn < durable)
         && (durable == 0 ==> PageIn(base, e.disk, pid).image == BaseImage(base, pid))
  }

  /** Nothing else is asked of a crash: any durable prefix that covers the pages on disk will do. */
  lemma AnyCoveredCrash(base: Base, e: Engine, durable: nat, store: Store)
    requires 0 < durable <= |e.log|
    requires forall pid: int32 ::
               && ImageOf(Fetch(store, pid)) == PageIn(base, e.disk, pid).image
               && Lsn(Fetch(store, pid)) == PageIn(base, e.disk, pid).lsn < durable
    ensures Crashed(base, e, durable, store)
  {
    hide ImageOf, Lsn, Fetch;
  }

  /** Any crash of any run meets what redo asks for. */
  lemma CrashIsRedoable(base: Base, e: Engine, durable: nat, store: Store)
    requires Inv(base, e) && Crashed(base, e, durable, store)
    ensures TxnLog(e.log[..durable]) && LegalLog(base, e.log[..durable]) && DiskOk(base, e.log[..durable], store)
    ensures Sequenced(e.log[..durable]) && RedoDefined(e.log[..durable], store)
  {
    hide ImageOf, Lsn, ImageAfter, LegalLog, TxnLog, RedoImage;
    PrefixOk(base, e.log, durable);
    var log := e.log[..durable];
    forall pid: int32
      ensures ImageOf(Fetch(store, pid)) == ImageAfter(base, pid, log, Seen(log, Lsn(Fetch(store, pid))))
    {
      CrashedPage(base, e, durable, store, pid);
    }
    TxnLogSequenced(log);
    RedoIsComplete(base, log, store);
  }

  lemma CrashedPage(base: Base, e: Engine, durable: nat, store: Store, pid: int32)
    requires PagesOk(base, e) && Crashed(base, e, durable, store)
    ensures var log := e.log[..durable];
            ImageOf(Fetch(store, pid)) == ImageAfter(base, pid, log, Seen(log, Lsn(Fetch(store, pid))))
  {
    hide ImageOf, Lsn;
    var log := e.log[..durable];
    var s := PageIn(base, e.disk, pid);
    assert Dated(base, e.log, pid, s);
    assert ImageOf(Fetch(store, pid)) == s.image && Lsn(Fetch(store, pid)) == s.lsn;
    if durable > 0 {
      ImageAfterPrefix(base, pid, e.log, durable, s.lsn + 1);
    }
  }

  /** Restart after any crash of any run that respects write-ahead: redo brings every page to
      the last durable record; undo ends, visits exactly the losers' records, and stops early
      exactly at a failed assertion. With row locks held and every stop fine, every slot ends
      with what the finished transactions alone wrote. */
  method Recover(recovery: LogRecovery, order: seq<int32>, ghost base: Base, ghost states: seq<Engine>,
                 ghost actions: seq<Action>, ghost durable: nat) returns (ok: bool, visited: seq<nat>)
    requires Run(base, states, actions)
    requires Crashed(base, states[|actions|], durable, recovery.store)
    requires AllEncodable(states[|actions|].log[..durable])
    requires recovery.logFile == EncodeAll(states[|actions|].log[..durable])
    requires |recovery.logFile| + HEADER_SIZE <= LOG_BUFFER_SIZE
    requires SmallRecords(states[|actions|].log[..durable]) && OrderOk(states[|actions|].log[..durable], order)
    requires recovery.activeTxn == map[] && recovery.lsnMapping == map[] && recovery.offset == 0
    modifies recovery
    ensures var log := states[|actions|].log[..durable];
            && VisitsLosers(log, Stops(log, order)) && visited <= Stops(log, order)
            && (ok <==> AllOk(base, log, Stops(log, order)))
            && (ok ==> visited == Stops(log, order) && PagesUndone(base, log, recovery.store, visited, |visited|))
            && (LocksHeld(log) && CompensatesOwn(log) && AllFine(base, log, Stops(log, order)) ==>
                  ok && forall pid: int32 ::
                          ImageOf(Fetch(recovery.store, pid)) == ImageWithout(base, pid, log, LoserRecords(log)))
  {
    hide Run, Inv, EncodeAll, AllEncodable, SmallRecords, LocksHeld, NewestFirst, PagesUndone, OrderOk, AllOk,
      CompensatesOwn, AllFine, LoserRecords, TxnLog, LegalLog, DiskOk, ImageOf, Lsn, ImageAfter, ActiveAt, OffsetsAt,
      Sequenced, RedoDefined, RedoImage, ImageWithout, Fetch, Stops;
    RunLength(base, states, actions);
    ghost var e := states[|actions|];
    ghost var log := e.log[..durable];
    RunKeepsInv(base, states, actions, |actions|);
    CrashIsRedoable(base, e, durable, recovery.store);
    recovery.Redo(base, log);
    ok, visited := recovery.Undo(order, base, log);
  }

  lemma RunLength(base: Base, states: seq<Engine>, actions: seq<Action>)
    requires Run(base, states, actions)
    ensures |states| == |actions| + 1
  {
  }

  // ---------- a crash that breaks write-ahead ----------

  lemma {:induction false} NothingNewer(img: Image, lsn: int, pid: int32, log: seq<LogRecord>, n: nat)
    requires n <= |log| && n <= lsn + 1
    ensures RedoImage(img, lsn, pid, log, n) == img
  {
    if n > 0 {
      NothingNewer(img, lsn, pid, log, n - 1);
    }
  }

  /** Without write-ahead, redo brings a page to the last durable record exactly when the page on
      disk is not newer, or what it has seen since changed nothing. */
  lemma RedoneIffWriteAhead(base: Base, e: Engine, durable: nat, store: Store, pid: int32)
    requires Inv(base, e) && CrashedAnyhow(base, e, durable, store) && durable > 0
    ensures var log, p, s := e.log[..durable], Fetch(store, pid), PageIn(base, e.disk, pid);
            RedoImage(ImageOf(p), Lsn(p), pid, log, durable) == ImageAfter(base, pid, log, durable) <==>
            (s.lsn < durable || s.image == ImageAfter(base, pid, log, durable))
  {
    hide ImageOf, Lsn, Fetch, LegalLog, TxnLog, PrevOk, ImageAfter, RedoImage;
    var log, s := e.log[..durable], PageIn(base, e.disk, pid);
    assert ImageOf(Fetch(store, pid)) == s.image && Lsn(Fetch(store, pid)) == s.lsn;
    assert Dated(base, e.log, pid, s);
    if s.lsn < durable {
      ImageAfterPrefix(base, pid, e.log, durable, s.lsn + 1);
      RedoCatchesUp(base, s.image, s.lsn, pid, log, durable);
    } else {
      NothingNewer(s.image, s.lsn, pid, log, durable);
    }
  }

  /** A page created and written back before its record is on disk: the log knows nothing of it,
      and redo leaves it there. */
  lemma PageAheadOfLog() returns (states: seq<Engine>, actions: seq<Action>)
    ensures Run(map[], states, actions)
    ensures var e := states[|actions|];
            && |e.log| == 2 && PageIn(map[], e.disk, 0) == PageState(1, Slotted([]))
            && ImageAfter(map[], 0, e.log[..1], 1) == Blank
  {
    var r0, r1 := LogRecord(0, 0, -1, Begin), LogRecord(1, 0, 0, NewPage(-1, 0));
    var page := PageState(1, Slotted([]));
    var e0 := Engine([], map[], map[], map[], 0);
    var e1 := Engine([r0], map[], map[], map[0 := 0], 1);
    var e2 := Engine([r0, r1], map[0 := page], map[], map[0 := 1], 1);
    var e3 := Engine([r0, r1], map[0 := page], map[0 := page], map[0 := 1], 1);
    actions := [BeginTxn, Write(0, r1.op), WriteBack(0)];
    states := [e0, e1, e2, e3];
    assert e1 == After(map[], e0, actions[0]);
    assert e2 == After(map[], e1, actions[1]);
    assert e3 == After(map[], e2, actions[2]);
    assert e3.log[..1] == [r0];
    assert ImageAfter(map[], 0, [r0], 0) == Blank;
  }

  // ---------- the record with LSN 0 ----------

  /** What redo leaves of page `pid` if nothing was ever written back. */
  ghost function RedoneFromNothing(log: seq<LogRecord>, pid: int32): Image {
    RedoImage(ImageOf(Fetch(map[], pid)), Lsn(Fetch(map[], pid)), pid, log, |log|)
  }

  /** A page never written back reads LSN 0, so redo takes it to have seen record 0 already.
      With nothing on disk redo brings every page to the end of the log exactly when the
      first record touches no page. */
  lemma FirstRecordMustTouchNoPage(log: seq<LogRecord>)
    requires LegalLog(map[], log)
    ensures (forall pid: int32 :: RedoneFromNothing(log, pid) == ImageAfter(map[], pid, log, |log|)) <==>
            (log == [] || forall pid: int32 :: !Touches(log[0].op, pid))
  {
    hide RedoImage, ImageAfter, RedoneFromNothing;
    forall pid: int32
      ensures RedoneFromNothing(log, pid) == ImageAfter(map[], pid, log, |log|) <==>
              (log == [] || !Touches(log[0].op, pid))
    {
      ZeroPage(pid);
      RedoneOrBlank(log, pid, |log|);
      FromNothing(log, pid);
    }
  }

  lemma FromNothing(log: seq<LogRecord>, pid: int32)
    requires ImageOf(Fetch(map[], pid)) == Blank && Lsn(Fetch(map[], pid)) == 0
    ensures RedoneFromNothing(log, pid) == RedoImage(Blank, 0, pid, log, |log|)
  {
    hide ImageOf, Lsn, Fetch, RedoImage;
  }

  lemma {:induction false} RedoneOrBlank(log: seq<LogRecord>, pid: int32, n: nat)
    requires LegalLog(map[], log) && n <= |log|
    ensures log == [] || !Touches(log[0].op, pid) ==>
              RedoImage(Blank, 0, pid, log, n) == ImageAfter(map[], pid, log, n)
    ensures n > 0 && Touches(log[0].op, pid) ==>
              RedoImage(Blank, 0, pid, log, n) == Blank && ImageAfter(map[], pid, log, n).Slotted?
  {
    if n > 0 {
      RedoneOrBlank(log, pid, n - 1);
      assert Touches(log[n - 1].op, pid) ==> Legal(ImageAfter(map[], pid, log, n - 1), log[n - 1].op);
    }
  }

  lemma ZeroPage(pid: int32)
    ensures Lsn(Fetch(map[], pid)) == 0 && ImageOf(Fetch(map[], pid)) == Blank
  {
    hide ReadU32;
    var p := Zeros(PAGE_SIZE);
    ZeroWord(p, 4);
    ZeroWord(p, 16);
    assert !DirectoryFits(p);
  }

  /** The smallest case: page 0 created by record 0 stays blank. */
  lemma RecordZeroIsSkipped()
    ensures var log := [LogRecord(0, 0, -1, NewPage(-1, 0))];
            && LegalLog(map[], log) && Sequenced(log) && RedoDefined(log, map[])
            && ImageAfter(map[], 0, log, 1) == Slotted([]) && RedoneFromNothing(log, 0) == Blank
  {
    var log := [LogRecord(0, 0, -1, NewPage(-1, 0))];
    ZeroPage(0);
    assert RedoImage(Blank, 0, 0, log, 0) == Blank;
    hide ImageOf, Lsn;
    forall k, pid | 0 <= k < |log| && Touches(log[k].op, pid)
      ensures pid == 0 && !(Lsn(Fetch(map[], pid)) < k)
    {
    }
  }
}
