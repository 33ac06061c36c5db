/** The log manager shared by any number of threads. A step is one critical section:
    an append, a wait, a round of the flush thread. Commit and abort append their
    record, release the latch, then wait in `Flush(false)` on a condition variable
    without a predicate; only the flush thread notifies it. */
module LogProtocol {
  import opened Bytes
  import opened LogCodec
  import opened LogManagerModel

  datatype Phase =
    | Idle
    | AppendWait(op: Op)
    | EndLogged(lsn: nat)
    | EndAsleep(lsn: nat)
    | EndDone(lsn: nat)
    | ForceWait(mark: nat)
    | ForceDone(mark: nat)

  datatype Sys = Sys(log: LogState, threads: map<nat, Phase>)

  datatype Action =
    | Append(t: nat, txn: int32, prevLsn: int32, op: Op)
    | AppendBlocks(t: nat, op: Op)
    | EnterWait(t: nat)
    | ForceStart(t: nat)
    | ForceWake(t: nat)
    | Return(t: nat)
    | FlushRound
    /** A wake-up the C++ library permits although nobody notified. */
    | SpuriousWake(t: nat)

  ghost predicate MayAppend(p: Phase, op: Op) { p.Idle? || p == AppendWait(op) }

  function Notified(threads: map<nat, Phase>): map<nat, Phase> {
    map t | t in threads :: if threads[t].EndAsleep? then EndDone(threads[t].lsn) else threads[t]
  }

  ghost predicate Init(s: Sys) {
    s.log == LogState([], 0, false) && forall t :: t in s.threads ==> s.threads[t] == Idle
  }

  ghost predicate Enabled(s: Sys, a: Action) {
    match a
    case FlushRound => true
    case Append(t, txn, prevLsn, op) =>
      && t in s.threads && MayAppend(s.threads[t], op) && WellFormed(s.log) && |s.log.records| < TWO_31
      && Encodable(Stamped(s.log, txn, prevLsn, op)) && Fits(s.log, op)
    case AppendBlocks(t, op) =>
      t in s.threads && MayAppend(s.threads[t], op) && WellFormed(s.log) && !Fits(s.log, op)
    case EnterWait(t) => t in s.threads && s.threads[t].EndLogged?
    case SpuriousWake(t) => t in s.threads && s.threads[t].EndAsleep?
    case ForceStart(t) => t in s.threads && s.threads[t].Idle?
    case ForceWake(t) => t in s.threads && s.threads[t].ForceWait? && !s.log.needsFlush
    case Return(t) => t in s.threads && (s.threads[t].EndDone? || s.threads[t].ForceDone?)
  }

  ghost function After(s: Sys, a: Action): Sys
    requires Enabled(s, a)
  {
    match a
    case FlushRound => Sys(FlushStep(s.log), Notified(s.threads))
    case Append(t, txn, prevLsn, op) =>
      Sys(AppendStep(s.log, txn, prevLsn, op),
          s.threads[t := if EndsTxn(op) then EndLogged(|s.log.records|) else Idle])
    case AppendBlocks(t, op) => Sys(s.log.(needsFlush := true), s.threads[t := AppendWait(op)])
    case EnterWait(t) => s.(threads := s.threads[t := EndAsleep(s.threads[t].lsn)])
    case SpuriousWake(t) => s.(threads := s.threads[t := EndDone(s.threads[t].lsn)])
    case ForceStart(t) => Sys(s.log.(needsFlush := true), s.threads[t := ForceWait(|s.log.records|)])
    case ForceWake(t) => s.(threads := s.threads[t := ForceDone(s.threads[t].mark)])
    case Return(t) => s.(threads := s.threads[t := Idle])
  }

  /** A run: any interleaving of steps from the start. */
  ghost predicate Run(states: seq<Sys>, actions: seq<Action>) {
    && |states| == |actions| + 1
    && Init(states[0])
    && forall i :: 0 <= i < |actions| ==>
         Enabled(states[i], actions[i]) && states[i + 1] == After(states[i], actions[i])
  }

  // ---------- what every run keeps ----------

  ghost predicate PhaseOk(log: LogState, p: Phase) {
    match p
    case EndLogged(l) => l < |log.records| && EndsTxn(log.records[l].op)
    case EndAsleep(l) => l < |log.records| && EndsTxn(log.records[l].op)
    case EndDone(l) => l < |log.records| && EndsTxn(log.records[l].op)
    case ForceWait(m) => m <= |log.records| && (log.needsFlush || m <= log.durable)
    case ForceDone(m) => m <= log.durable
    case _ => true
  }

  ghost predicate Inv(s: Sys) {
    && WellFormed(s.log)
    && forall t :: t in s.threads ==> PhaseOk(s.log, s.threads[t])
  }

  lemma StepKeepsInv(s: Sys, a: Action)
    requires Inv(s) && Enabled(s, a)
    ensures Inv(After(s, a))
  {
    hide EncodeAll, Encodable, Fits;
    match a
    case Append(t, txn, prevLsn, op) => AppendKeeps(s.log, txn, prevLsn, op);
    case FlushRound => FlushKeeps(s.log);
    case _ =>
  }

  lemma {:induction false} RunKeepsInv(states: seq<Sys>, actions: seq<Action>, i: nat)
    requires Run(states, actions) && i < |states|
    ensures Inv(states[i])
  {
    if i > 0 {
      RunKeepsInv(states, actions, i - 1);
      StepKeepsInv(states[i - 1], actions[i - 1]);
    }
  }

  lemma StepLog(s: Sys, a: Action)
    requires Inv(s) && Enabled(s, a)
    ensures s.log.records <= After(s, a).log.records && s.log.durable <= |s.log.records|
    ensures a.Append? ==> |After(s, a).log.records| == |s.log.records| + 1
    ensures After(s, a).log.durable == if a.FlushRound? then |s.log.records| else s.log.durable
  {
    hide EncodeAll, Encodable, Fits;
  }

  /** `persistent_lsn_` never falls and the log only grows at its end. */
  lemma {:induction false} LogOnlyGrows(states: seq<Sys>, actions: seq<Action>, i: nat, j: nat)
    requires Run(states, actions) && i <= j < |states|
    ensures states[i].log.durable <= states[j].log.durable
    ensures states[i].log.records <= states[j].log.records
    decreases j - i
  {
    hide After, Enabled, Inv;
    if i < j {
      LogOnlyGrows(states, actions, i, j - 1);
      RunKeepsInv(states, actions, j - 1);
      StepLog(states[j - 1], actions[j - 1]);
    }
  }

  ghost predicate FlushedBetween(actions: seq<Action>, i: nat, j: nat) {
    exists k :: i < k < j && k < |actions| && actions[k].FlushRound?
  }

  /** A record appended by step `i` is in the log file at state `j` exactly when a
      round of the flush thread came in between. */
  lemma {:induction false} DurableIffFlushed(states: seq<Sys>, actions: seq<Action>, i: nat, j: nat)
    requires Run(states, actions) && i < |actions| && actions[i].Append? && i < j < |states|
    ensures |states[i].log.records| < states[j].log.durable <==> FlushedBetween(actions, i, j)
    decreases j - i
  {
    hide After, Enabled, Inv;
    RunKeepsInv(states, actions, i);
    StepLog(states[i], actions[i]);
    if i + 1 < j {
      DurableIffFlushed(states, actions, i, j - 1);
      RunKeepsInv(states, actions, j - 1);
      StepLog(states[j - 1], actions[j - 1]);
      LogOnlyGrows(states, actions, i + 1, j - 1);
      if actions[j - 1].FlushRound? {
        assert FlushedBetween(actions, i, j);
      } else if FlushedBetween(actions, i, j) {
        var k :| i < k < j && k < |actions| && actions[k].FlushRound?;
        assert k < j - 1;
      }
    }
  }

  // ---------- commit durability ----------

  /** No step from `m` to `i` wakes thread `t` without a notification. */
  ghost predicate WokenByFlushOnly(actions: seq<Action>, t: nat, m: nat, i: nat)
    requires i <= |actions|
  {
    forall a :: m <= a < i ==> actions[a] != SpuriousWake(t)
  }

  /** A thread that had not finished waiting at state `m` and is woken by the flush thread only
      has its record on disk when it has. */
  lemma {:induction false} NotifiedMeansDurable(states: seq<Sys>, actions: seq<Action>, t: nat, m: nat, i: nat)
    requires Run(states, actions) && m <= i < |states| && t in states[m].threads && !states[m].threads[t].EndDone?
    requires WokenByFlushOnly(actions, t, m, i)
    ensures t in states[i].threads
    ensures states[i].threads[t].EndDone? ==> states[i].threads[t].lsn < states[i].log.durable
    decreases i
  {
    hide Inv, Enabled, After;
    if i > m {
      NotifiedMeansDurable(states, actions, t, m, i - 1);
      RunKeepsInv(states, actions, i - 1);
      assert actions[i - 1] != SpuriousWake(t);
      StepNotifies(states[i - 1], actions[i - 1], t);
    }
  }

  /** One step that is no spurious wake-up of `t`. */
  lemma StepNotifies(s: Sys, a: Action, t: nat)
    requires Inv(s) && Enabled(s, a) && t in s.threads && a != SpuriousWake(t)
    requires s.threads[t].EndDone? ==> s.threads[t].lsn < s.log.durable
    ensures t in After(s, a).threads
    ensures After(s, a).threads[t].EndDone? ==> After(s, a).threads[t].lsn < After(s, a).log.durable
  {
    hide EncodeAll, Encodable, Fits, AllEncodable;
  }

  /** When commit (or abort) returns, its record and every earlier one read back from the
      log file, provided that since its append nothing but the flush thread woke it. */
  lemma CommitIsDurable(states: seq<Sys>, actions: seq<Action>, t: nat, m: nat, i: nat, k: nat)
    requires Run(states, actions) && m < i < |states| && actions[m].Append? && actions[m].t == t
    requires WokenByFlushOnly(actions, t, m, i)
    requires t in states[i].threads && states[i].threads[t].EndDone? && k <= states[i].threads[t].lsn
    ensures var log := states[i].log;
            && WellFormed(log) && k < log.durable && log.records[k].lsn == k
            && states[i].threads[t].lsn < log.durable && EndsTxn(log.records[states[i].threads[t].lsn].op)
            && var file := EncodeAll(log.records[..log.durable]);
               var pos := |EncodeAll(log.records[..k])|;
               && pos + RecordSize(log.records[k].op) <= |file|
               && InWindow(Window(file, HEADER_SIZE), pos)
               && Deserialize(Window(file, HEADER_SIZE), pos) ==
                  Some(Parsed(RecordSize(log.records[k].op), log.records[k]))
  {
    hide EncodeAll, Deserialize, InWindow;
    RunKeepsInv(states, actions, i);
    assert Enabled(states[m], actions[m]);
    NotifiedMeansDurable(states, actions, t, m, i);
    var log := states[i].log;
    var rs := log.records[..log.durable];
    assert rs[..k] == log.records[..k];
    ParseYieldsRecords(rs, HEADER_SIZE, k);
    RecordAt(rs, k);
  }

  // ---------- waiting ends ----------

  /** A flush round puts everything on disk, lowers the flag and wakes every sleeping commit and
      abort; it leaves the other threads where they are. */
  lemma FlushWakes(s: Sys, t: nat)
    requires t in s.threads
    ensures var e := After(s, FlushRound);
            && e.log.records == s.log.records && e.log.durable == |s.log.records| && !e.log.needsFlush
            && e.threads.Keys == s.threads.Keys
            && (s.threads[t].EndAsleep? ==> e.threads[t] == EndDone(s.threads[t].lsn))
            && (!s.threads[t].EndAsleep? ==> e.threads[t] == s.threads[t])
  {
  }

  lemma StaysAsleep(s: Sys, a: Action, t: nat)
    requires Enabled(s, a) && t in s.threads && s.threads[t].EndAsleep? && !a.FlushRound? && a != SpuriousWake(t)
    ensures t in After(s, a).threads && After(s, a).threads[t] == s.threads[t]
  {
  }

  /** In every run a sleeping commit is woken by the next flush round, and has its record on disk. */
  lemma {:induction false} NextFlushEndsWait(states: seq<Sys>, actions: seq<Action>, t: nat, i: nat, k: nat)
    requires Run(states, actions) && i <= k < |actions| && t in states[i].threads && states[i].threads[t].EndAsleep?
    requires actions[k].FlushRound? && WokenByFlushOnly(actions, t, i, k)
    requires forall a :: i <= a < k ==> !actions[a].FlushRound?
    ensures t in states[k + 1].threads && states[k + 1].threads[t] == EndDone(states[i].threads[t].lsn)
    ensures states[i].threads[t].lsn < states[k + 1].log.durable
    decreases k - i
  {
    if i == k {
      FlushWakes(states[k], t);
      RunKeepsInv(states, actions, k);
    } else {
      assert actions[i] != SpuriousWake(t) && !actions[i].FlushRound?;
      StaysAsleep(states[i], actions[i], t);
      NextFlushEndsWait(states, actions, t, i + 1, k);
    }
  }

  /** From any state a thread with a commit or abort record that fits gets through: it appends,
      waits, is woken by the flush thread with the record on disk, and returns. */
  lemma EndGoesThrough(s: Sys, t: nat, txn: int32, prevLsn: int32, op: Op) returns (a: Sys, b: Sys, c: Sys, d: Sys)
    requires Inv(s) && t in s.threads && s.threads[t].Idle? && (op == Commit || op == Abort)
    requires |s.log.records| < TWO_31 && txn != INVALID_TXN_ID && Fits(s.log, op)
    ensures Enabled(s, Append(t, txn, prevLsn, op)) && a == After(s, Append(t, txn, prevLsn, op))
    ensures a.log.records == s.log.records + [LogRecord(|s.log.records|, txn, prevLsn, op)]
    ensures t in a.threads && a.threads[t] == EndLogged(|s.log.records|)
    ensures Enabled(a, EnterWait(t)) && b == After(a, EnterWait(t)) && b.threads[t] == EndAsleep(|s.log.records|)
    ensures Enabled(b, FlushRound) && c == After(b, FlushRound) && c.threads[t] == EndDone(|s.log.records|)
    ensures |s.log.records| < c.log.durable
    ensures Enabled(c, Return(t)) && d == After(c, Return(t)) && d.threads[t] == Idle
  {
    hide WellFormed, Fits;
    a := After(s, Append(t, txn, prevLsn, op));
    b := After(a, EnterWait(t));
    FlushWakes(b, t);
    c := After(b, FlushRound);
    d := After(c, Return(t));
  }

  /** An append that finds the buffer too full waits, and after a flush round goes on, if the
      record fits an empty buffer. */
  lemma BlockedAppendGoesOn(s: Sys, t: nat, txn: int32, prevLsn: int32, op: Op)
    requires Inv(s) && t in s.threads && s.threads[t].Idle? && !Fits(s.log, op) && RecordSize(op) <= LOG_BUFFER_SIZE
    requires |s.log.records| < TWO_31 && Encodable(Stamped(s.log, txn, prevLsn, op))
    ensures Enabled(s, AppendBlocks(t, op)) && var a := After(s, AppendBlocks(t, op));
            && a.threads[t] == AppendWait(op) && a.log.needsFlush
            && Enabled(a, FlushRound) && var b := After(a, FlushRound);
               t in b.threads && b.threads[t] == AppendWait(op) && Enabled(b, Append(t, txn, prevLsn, op))
  {
    hide Encodable, RecordSize, Fits, WellFormed;
    var a := After(s, AppendBlocks(t, op));
    EmptyBufferFits(s.log, op);
    FlushWakes(a, t);
    assert After(a, FlushRound).log == FlushStep(s.log);
  }

  /** After a flush everything that fits a buffer fits. */
  lemma EmptyBufferFits(log: LogState, op: Op)
    requires WellFormed(log)
    ensures WellFormed(FlushStep(log)) && (Fits(FlushStep(log), op) <==> RecordSize(op) <= LOG_BUFFER_SIZE)
  {
    hide EncodeAll, Encodable, RecordSize;
    FlushKeeps(log);
  }

  /** A forced flush asks for a round and returns after it. */
  lemma ForceGoesThrough(s: Sys, t: nat)
    requires t in s.threads && s.threads[t].Idle?
    ensures Enabled(s, ForceStart(t)) && var a := After(s, ForceStart(t));
            && a.threads[t] == ForceWait(|s.log.records|) && a.log == s.log.(needsFlush := true)
            && !Enabled(a, ForceWake(t))
            && Enabled(a, FlushRound) && var b := After(a, FlushRound);
               && b.log.durable == |s.log.records| && t in b.threads && Enabled(b, ForceWake(t))
               && After(b, ForceWake(t)).threads[t] == ForceDone(|s.log.records|)
               && Enabled(After(b, ForceWake(t)), Return(t))
  {
    FlushWakes(After(s, ForceStart(t)), t);
  }

  /** A run in which a commit returns through the flush thread. */
  lemma CommitReturns() returns (states: seq<Sys>, actions: seq<Action>)
    ensures Run(states, actions) && actions == [Append(0, 0, -1, Commit), EnterWait(0), FlushRound, Return(0)]
    ensures states[3].threads == map[0 := EndDone(0)] && states[3].log.durable == 1
    ensures states[4].threads == map[0 := Idle] && WokenByFlushOnly(actions, 0, 0, 4)
  {
    var r := LogRecord(0, 0, -1, Commit);
    var s0 := Sys(LogState([], 0, false), map[0 := Idle]);
    var s1 := Sys(LogState([r], 0, false), map[0 := EndLogged(0)]);
    var s2 := s1.(threads := map[0 := EndAsleep(0)]);
    var s3 := Sys(LogState([r], 1, false), map[0 := EndDone(0)]);
    var s4 := s3.(threads := map[0 := Idle]);
    states := [s0, s1, s2, s3, s4];
    actions := [Append(0, 0, -1, Commit), EnterWait(0), FlushRound, Return(0)];
    assert s1 == After(s0, actions[0]);
    assert s2 == After(s1, actions[1]);
    assert s3 == After(s2, actions[2]);
    assert s4 == After(s3, actions[3]);
  }

  /** `Flush(true)` returns only after everything appended before the call is on disk,
      whatever wakes it, because it re-checks the flag. */
  lemma ForcedFlushIsDurable(states: seq<Sys>, actions: seq<Action>, i: nat, t: nat)
    requires Run(states, actions) && i < |states|
    requires t in states[i].threads && states[i].threads[t].ForceDone?
    ensures states[i].threads[t].mark <= states[i].log.durable
  {
    RunKeepsInv(states, actions, i);
  }

  /** The assumption is needed: `Flush(false)` waits without a predicate, so one
      spurious wake-up lets a commit return with nothing on disk. */
  lemma SpuriousWakeLosesCommit() returns (states: seq<Sys>, actions: seq<Action>)
    ensures Run(states, actions) && actions == [Append(0, 0, -1, Commit), EnterWait(0), SpuriousWake(0)]
    ensures states[3].threads == map[0 := EndDone(0)] && states[3].log.durable == 0
  {
    var s0 := Sys(LogState([], 0, false), map[0 := Idle]);
    var s1 := Sys(LogState([LogRecord(0, 0, -1, Commit)], 0, false), map[0 := EndLogged(0)]);
    var s2 := s1.(threads := map[0 := EndAsleep(0)]);
    var s3 := s1.(threads := map[0 := EndDone(0)]);
    states := [s0, s1, s2, s3];
    actions := [Append(0, 0, -1, Commit), EnterWait(0), SpuriousWake(0)];
    assert s1 == After(s0, actions[0]);
    assert s2 == After(s1, actions[1]);
    assert s3 == After(s2, actions[2]);
  }
}
