/** The reader-writer latch as steps over any number of threads. A step is what a thread
    does while it holds the mutex: it runs until it waits, returns, or has notified.
    Sleepers may also wake on their own. */
module RWLatch {

  datatype Phase =
    | Out
    | EntryAsleep   // WLock, waiting on reader_ for another writer to leave
    | EntryAwake
    | DrainAsleep   // WLock, writer_entered_ set, waiting on writer_ for readers to leave
    | DrainAwake
    | WriteIn
    | ReadAsleep    // RLock, waiting on reader_
    | ReadAwake
    | ReadIn

  datatype Latch = Latch(readerCount: nat, writerEntered: bool, threads: map<nat, Phase>)

  datatype Action =
    | WLock(t: nat)
    | Drain(t: nat)
    | WUnlock(t: nat)
    | RLock(t: nat)
    /** `woken` is the sleeper the notification reaches, if there is one. */
    | RUnlock(t: nat, woken: nat)
    | SpuriousWake(t: nat)

  predicate OnReaderQueue(p: Phase) { p.EntryAsleep? || p.ReadAsleep? }

  function Woken(p: Phase): Phase {
    match p
    case EntryAsleep => EntryAwake
    case ReadAsleep => ReadAwake
    case DrainAsleep => DrainAwake
    case _ => p
  }

  /** `notify_all` on `reader_`. */
  function NotifyAllReaders(threads: map<nat, Phase>): map<nat, Phase> {
    map t | t in threads :: if OnReaderQueue(threads[t]) then Woken(threads[t]) else threads[t]
  }

  ghost predicate Enabled(s: Latch, a: Action) {
    && a.t in s.threads
    && match a
       case WLock(t) => s.threads[t].Out? || s.threads[t].EntryAwake?
       case Drain(t) => s.threads[t].DrainAwake?
       case WUnlock(t) => s.threads[t].WriteIn?
       case RLock(t) => s.threads[t].Out? || s.threads[t].ReadAwake?
       case RUnlock(t, w) => s.threads[t].ReadIn? && s.readerCount > 0
       case SpuriousWake(t) => OnReaderQueue(s.threads[t]) || s.threads[t].DrainAsleep?
  }

  /** Which queue `RUnlock` notifies, after the count went down to `count`. */
  predicate NotifiesWriter(s: Latch, count: nat) { s.writerEntered && count == 0 }
  predicate NotifiesReader(s: Latch, count: nat, limit: nat) { !s.writerEntered && count + 1 == limit }

  /** A notification is lost only if nobody sleeps on that queue. */
  ghost predicate Next(limit: nat, s: Latch, a: Action, s': Latch) {
    && Enabled(s, a)
    && match a
       case WLock(t) =>
         if s.writerEntered then s' == s.(threads := s.threads[t := EntryAsleep])
         else
           var next := if s.readerCount > 0 then DrainAsleep else WriteIn;
           s' == s.(writerEntered := true, threads := s.threads[t := next])
       case Drain(t) =>
         s' == s.(threads := s.threads[t := if s.readerCount > 0 then DrainAsleep else WriteIn])
       case WUnlock(t) =>
         s' == s.(writerEntered := false, threads := NotifyAllReaders(s.threads[t := Out]))
       case RLock(t) =>
         if s.writerEntered || s.readerCount == limit then s' == s.(threads := s.threads[t := ReadAsleep])
         else s' == s.(readerCount := s.readerCount + 1, threads := s.threads[t := ReadIn])
       case RUnlock(t, w) =>
         var count := s.readerCount - 1;
         var left := s.threads[t := Out];
         && s'.readerCount == count && s'.writerEntered == s.writerEntered
         && if NotifiesWriter(s, count) then NotifyOne(left, w, x => x == DrainAsleep, s'.threads)
            else if NotifiesReader(s, count, limit) then NotifyOne(left, w, OnReaderQueue, s'.threads)
            else s'.threads == left
       case SpuriousWake(t) => s' == s.(threads := s.threads[t := Woken(s.threads[t])])
  }

  /** `notify_one`: one sleeper of the queue wakes, if any sleeps there. */
  ghost predicate NotifyOne(threads: map<nat, Phase>, w: nat, queue: Phase -> bool, after: map<nat, Phase>) {
    if exists x :: x in threads && queue(threads[x]) then
      w in threads && queue(threads[w]) && after == threads[w := Woken(threads[w])]
    else after == threads
  }

  ghost predicate Init(s: Latch) {
    s.readerCount == 0 && !s.writerEntered && forall t :: t in s.threads ==> s.threads[t] == Out
  }

  ghost predicate Run(limit: nat, states: seq<Latch>, actions: seq<Action>) {
    && |states| == |actions| + 1
    && Init(states[0])
    && forall i :: 0 <= i < |actions| ==> Next(limit, states[i], actions[i], states[i + 1])
  }

  // ---------- safety ----------

  ghost function Readers(s: Latch): set<nat> {
    set t | t in s.threads && s.threads[t] == ReadIn
  }

  predicate IsWriter(p: Phase) { p.DrainAsleep? || p.DrainAwake? || p.WriteIn? }

  ghost predicate Safe(s: Latch) {
    && s.readerCount == |Readers(s)|
    && (s.writerEntered <==> exists t :: t in s.threads && IsWriter(s.threads[t]))
    && (forall t, u :: t in s.threads && u in s.threads && IsWriter(s.threads[t]) && IsWriter(s.threads[u]) ==> t == u)
    && (forall t :: t in s.threads && s.threads[t].WriteIn? ==> s.readerCount == 0)
    && (forall t :: t in s.threads && s.threads[t].DrainAsleep? ==> s.readerCount > 0)
  }

  /** Mutual exclusion, spelled out. */
  lemma SafeExcludes(s: Latch, t: nat, u: nat)
    requires Safe(s) && t in s.threads && u in s.threads && t != u && s.threads[t].WriteIn?
    ensures !s.threads[u].WriteIn? && !s.threads[u].ReadIn?
  {
    assert u in Readers(s) ==> |Readers(s)| > 0;
  }

  lemma ReadersAfter(limit: nat, s: Latch, a: Action, s': Latch)
    requires Next(limit, s, a, s')
    ensures s'.threads.Keys == s.threads.Keys
    ensures Readers(s') == if a.RUnlock? then Readers(s) - {a.t}
                           else if a.RLock? && s'.threads[a.t] == ReadIn then Readers(s) + {a.t}
                           else Readers(s)
  {
    var r := Readers(s');
  }

  lemma CountAfter(limit: nat, s: Latch, a: Action, s': Latch)
    requires Next(limit, s, a, s') && s.readerCount == |Readers(s)|
    ensures s'.readerCount == |Readers(s')|
  {
    ReadersAfter(limit, s, a, s');
    assert s.threads[a.t] == ReadIn <==> a.t in Readers(s);
  }

  ghost predicate WriterOk(s: Latch) {
    && (s.writerEntered <==> exists t :: t in s.threads && IsWriter(s.threads[t]))
    && (forall t, u :: t in s.threads && u in s.threads && IsWriter(s.threads[t]) && IsWriter(s.threads[u]) ==> t == u)
  }

  /** The writer flag always belongs to one thread. */
  lemma WriterAfter(limit: nat, s: Latch, a: Action, s': Latch)
    requires Next(limit, s, a, s') && WriterOk(s)
    ensures WriterOk(s')
  {
    assert IsWriter(s'.threads[a.t]) || !IsWriter(s'.threads[a.t]);
    if s.writerEntered {
      var w :| w in s.threads && IsWriter(s.threads[w]);
      assert !a.WUnlock? ==> IsWriter(s'.threads[w]);
    }
  }

  /** Nobody writes while a reader is inside, and nobody sleeps on `writer_` once the
      last reader has left. */
  lemma DrainAfter(limit: nat, s: Latch, a: Action, s': Latch)
    requires Next(limit, s, a, s') && Safe(s)
    ensures forall t :: t in s'.threads && s'.threads[t].WriteIn? ==> s'.readerCount == 0
    ensures forall t :: t in s'.threads && s'.threads[t].DrainAsleep? ==> s'.readerCount > 0
  {
    hide Readers;
    if a.RUnlock? && s.readerCount == 1 {
      forall t | t in s'.threads
        ensures !s'.threads[t].DrainAsleep?
      {
        assert s.threads[t].DrainAsleep? ==> s.writerEntered;
      }
    }
  }

  lemma StepSafe(limit: nat, s: Latch, a: Action, s': Latch)
    requires Safe(s) && Next(limit, s, a, s')
    ensures Safe(s')
  {
    CountAfter(limit, s, a, s');
    DrainAfter(limit, s, a, s');
    assert WriterOk(s);
    WriterAfter(limit, s, a, s');
    hide Readers, Next, IsWriter;
  }

  lemma {:induction false} RunIsSafe(limit: nat, states: seq<Latch>, actions: seq<Action>, i: nat)
    requires Run(limit, states, actions) && i < |states|
    ensures Safe(states[i])
  {
    hide Next, Safe;
    if i == 0 {
      InitSafe(states[0]);
    } else {
      RunIsSafe(limit, states, actions, i - 1);
      StepSafe(limit, states[i - 1], actions[i - 1], states[i]);
    }
  }

  lemma InitSafe(s: Latch)
    requires Init(s)
    ensures Safe(s)
  {
    assert Readers(s) == {};
  }

  // ---------- no lost wake-up ----------

  /** Whoever sleeps on `reader_` has a reason to: a writer, or a full house. */
  ghost predicate NoneForgotten(limit: nat, s: Latch) {
    forall t :: t in s.threads && OnReaderQueue(s.threads[t]) ==> s.writerEntered || s.readerCount == limit
  }

  /** With at most `limit + 1` threads a full house leaves room for one sleeper only. */
  lemma OneSleeper(limit: nat, s: Latch, t: nat, u: nat)
    requires Safe(s) && |s.threads| <= limit + 1 && s.readerCount == limit
    requires t in s.threads && u in s.threads && !s.threads[t].ReadIn? && !s.threads[u].ReadIn?
    ensures t == u
  {
    if t != u {
      var rest := s.threads.Keys - {t, u};
      assert s.threads.Keys == rest + {t, u};
      assert |s.threads.Keys| == |rest| + 2;
      SubsetSize(Readers(s), rest);
      assert false;
    }
  }

  lemma {:induction false} SubsetSize(a: set<nat>, b: set<nat>)
    requires a <= b
    ensures |a| <= |b|
  {
    assert b == a + (b - a);
  }

  lemma StepForgetsNone(limit: nat, s: Latch, a: Action, s': Latch)
    requires Safe(s) && Next(limit, s, a, s') && NoneForgotten(limit, s) && |s.threads| <= limit + 1
    ensures NoneForgotten(limit, s')
  {
    hide Readers, IsWriter;
    if a.RUnlock? && !s.writerEntered && s.readerCount == limit {
      forall t | t in s'.threads
        ensures !OnReaderQueue(s'.threads[t])
      {
        if OnReaderQueue(s.threads[t]) {
          var left := s.threads[a.t := Out];
          assert t in left && OnReaderQueue(left[t]);
          OneSleeper(limit, s, t, a.woken);
        }
      }
    }
  }

  /** In every run of at most `limit + 1` threads, nobody sleeps without a reason. */
  lemma {:induction false} RunForgetsNone(limit: nat, states: seq<Latch>, actions: seq<Action>, i: nat)
    requires Run(limit, states, actions) && i < |states| && |states[0].threads| <= limit + 1
    ensures NoneForgotten(limit, states[i]) && states[i].threads.Keys == states[0].threads.Keys
  {
    hide Next, Safe;
    if i == 0 {
      assert Init(states[0]);
    } else {
      RunForgetsNone(limit, states, actions, i - 1);
      RunIsSafe(limit, states, actions, i - 1);
      assert |states[i - 1].threads| == |states[i - 1].threads.Keys|;
      StepForgetsNone(limit, states[i - 1], actions[i - 1], states[i]);
      ReadersAfter(limit, states[i - 1], actions[i - 1], states[i]);
    }
  }

  /** With no more threads than the limit, a sleeper on `reader_` always waits for a writer. */
  lemma SleeperWaitsForWriter(limit: nat, states: seq<Latch>, actions: seq<Action>, i: nat, t: nat)
    requires Run(limit, states, actions) && i < |states| && |states[0].threads| <= limit
    requires t in states[i].threads && OnReaderQueue(states[i].threads[t])
    ensures states[i].writerEntered
  {
    hide Next, Run;
    RunForgetsNone(limit, states, actions, i);
    RunIsSafe(limit, states, actions, i);
    var s := states[i];
    assert |s.threads| == |s.threads.Keys| == |states[0].threads.Keys|;
    SubsetSize(Readers(s), s.threads.Keys - {t});
  }

  predicate Asleep(p: Phase) { OnReaderQueue(p) || p.DrainAsleep? }

  predicate Inside(p: Phase) { p.WriteIn? || p.ReadIn? }

  /** So a sleeper never waits alone: some thread that is awake and not out can take a step that
      brings it into the latch or out of it. */
  lemma SomebodyMoves(limit: nat, s: Latch, t: nat) returns (a: Action, s': Latch)
    requires Safe(s) && NoneForgotten(limit, s) && limit > 0 && t in s.threads && Asleep(s.threads[t])
    ensures Next(limit, s, a, s') && !a.SpuriousWake?
    ensures a.t in s.threads && !Asleep(s.threads[a.t]) && !s.threads[a.t].Out?
    ensures a.t in s'.threads && (Inside(s'.threads[a.t]) <==> !Inside(s.threads[a.t]))
  {
    if s.readerCount > 0 {
      var u :| u in Readers(s);
      var woken;
      s', woken := ReaderLeaves(limit, s, u);
      a := RUnlock(u, woken);
    } else {
      var w :| w in s.threads && IsWriter(s.threads[w]);
      if s.threads[w].WriteIn? {
        a := WUnlock(w);
        s' := s.(writerEntered := false, threads := NotifyAllReaders(s.threads[w := Out]));
      } else {
        a := Drain(w);
        s' := s.(threads := s.threads[w := WriteIn]);
      }
    }
  }

  /** A reader inside can always leave. */
  lemma ReaderLeaves(limit: nat, s: Latch, t: nat) returns (s': Latch, woken: nat)
    requires t in s.threads && s.threads[t].ReadIn? && s.readerCount > 0
    ensures Next(limit, s, RUnlock(t, woken), s') && t in s'.threads && s'.threads[t].Out?
  {
    var left, count := s.threads[t := Out], s.readerCount - 1;
    woken := t;
    var after := left;
    if NotifiesWriter(s, count) {
      if u :| u in left && left[u] == DrainAsleep {
        woken, after := u, left[u := Woken(left[u])];
      }
    } else if NotifiesReader(s, count, limit) {
      if u :| u in left && OnReaderQueue(left[u]) {
        woken, after := u, left[u := Woken(left[u])];
      }
    }
    s' := s.(readerCount := count, threads := after);
  }

  // ---------- what each call does ----------

  /** A thread that asks for the latch gets it at once exactly when nothing is in its way, and
      otherwise sleeps on the queue its call names. */
  lemma LockEffect(limit: nat, s: Latch, a: Action, s': Latch)
    requires Next(limit, s, a, s')
    ensures a.WLock? ==>
              && s'.readerCount == s.readerCount && s'.writerEntered
              && s'.threads == s.threads[a.t := if s.writerEntered then EntryAsleep
                                                else if s.readerCount == 0 then WriteIn else DrainAsleep]
    ensures a.Drain? ==>
              && s'.readerCount == s.readerCount && s'.writerEntered == s.writerEntered
              && s'.threads == s.threads[a.t := if s.readerCount == 0 then WriteIn else DrainAsleep]
    ensures a.RLock? ==>
              && s'.writerEntered == s.writerEntered
              && (!s.writerEntered && s.readerCount != limit ==>
                    s'.readerCount == s.readerCount + 1 && s'.threads == s.threads[a.t := ReadIn])
              && (s.writerEntered || s.readerCount == limit ==>
                    s'.readerCount == s.readerCount && s'.threads == s.threads[a.t := ReadAsleep])
  {
  }

  /** A writer that leaves wakes every sleeper on `reader_`; nobody else's place changes. */
  lemma WUnlockEffect(limit: nat, s: Latch, t: nat, s': Latch)
    requires Next(limit, s, WUnlock(t), s')
    ensures !s'.writerEntered && s'.readerCount == s.readerCount && s'.threads.Keys == s.threads.Keys
    ensures s'.threads[t] == Out
    ensures forall u :: u in s.threads && u != t ==>
              s'.threads[u] == match s.threads[u]
                               case EntryAsleep => EntryAwake
                               case ReadAsleep => ReadAwake
                               case p => p
  {
  }

  /** The last reader to leave wakes the writer that waits for it, who can then go in. */
  lemma LastReaderWakesWriter(limit: nat, s: Latch, t: nat, woken: nat, s': Latch, u: nat)
    requires Safe(s) && Next(limit, s, RUnlock(t, woken), s') && s.readerCount == 1
    requires u in s.threads && s.threads[u].DrainAsleep?
    ensures s'.readerCount == 0 && s'.threads[t] == Out && s'.threads[u] == DrainAwake
    ensures Next(limit, s', Drain(u), s'.(threads := s'.threads[u := WriteIn]))
  {
    var left := s.threads[t := Out];
    assert u in left && left[u] == DrainAsleep;
    assert IsWriter(s.threads[u]) && s.writerEntered;
  }

  /** The reader that leaves a full house wakes one sleeper on `reader_`, if there is one. */
  lemma FullHouseWakesOne(limit: nat, s: Latch, t: nat, woken: nat, s': Latch, u: nat)
    requires Next(limit, s, RUnlock(t, woken), s') && s.readerCount == limit && !s.writerEntered
    requires u in s.threads && OnReaderQueue(s.threads[u])
    ensures woken in s.threads && OnReaderQueue(s.threads[woken]) && !Asleep(s'.threads[woken])
    ensures s'.readerCount == limit - 1 && s'.threads[t] == Out
  {
    var left := s.threads[t := Out];
    assert u in left && OnReaderQueue(left[u]);
  }

  /** Who has been woken may ask again. */
  lemma AwakeAsksAgain(s: Latch, t: nat)
    requires t in s.threads
    ensures s.threads[t].EntryAwake? ==> Enabled(s, WLock(t))
    ensures s.threads[t].ReadAwake? ==> Enabled(s, RLock(t))
    ensures s.threads[t].DrainAwake? ==> Enabled(s, Drain(t))
    ensures s.threads[t].Out? ==> Enabled(s, WLock(t)) && Enabled(s, RLock(t))
  {
  }

  /** A run in which a writer waits for a reader to leave and gets in. */
  lemma WriterGetsIn(limit: nat) returns (states: seq<Latch>, actions: seq<Action>)
    requires limit >= 2
    ensures Run(limit, states, actions) && actions == [RLock(0), WLock(1), RUnlock(0, 1), Drain(1)]
    ensures states[4] == Latch(0, true, map[0 := Out, 1 := WriteIn])
  {
    var s0 := Latch(0, false, map[0 := Out, 1 := Out]);
    var s1 := Latch(1, false, map[0 := ReadIn, 1 := Out]);
    var s2 := Latch(1, true, map[0 := ReadIn, 1 := DrainAsleep]);
    var s3 := Latch(0, true, map[0 := Out, 1 := DrainAwake]);
    var s4 := Latch(0, true, map[0 := Out, 1 := WriteIn]);
    states, actions := [s0, s1, s2, s3, s4], [RLock(0), WLock(1), RUnlock(0, 1), Drain(1)];
    assert s2.threads[0 := Out][1] == DrainAsleep;
    assert Next(limit, s0, actions[0], s1);
    assert Next(limit, s1, actions[1], s2);
    assert Next(limit, s2, actions[2], s3);
    assert Next(limit, s3, actions[3], s4);
  }

  function Three(a: Phase, b: Phase, c: Phase): map<nat, Phase> {
    map[0 := a, 1 := b, 2 := c]
  }

  lemma WaitersSleep(limit: nat)
    requires limit >= 2
    ensures Next(limit, Latch(0, false, Three(Out, Out, Out)), WLock(0), Latch(0, true, Three(WriteIn, Out, Out)))
    ensures Next(limit, Latch(0, true, Three(WriteIn, Out, Out)), RLock(1),
                 Latch(0, true, Three(WriteIn, ReadAsleep, Out)))
    ensures Next(limit, Latch(0, true, Three(WriteIn, ReadAsleep, Out)), WLock(2),
                 Latch(0, true, Three(WriteIn, ReadAsleep, EntryAsleep)))
  {
  }

  lemma WaitersWake(limit: nat)
    requires limit >= 2
    ensures Next(limit, Latch(0, true, Three(WriteIn, ReadAsleep, EntryAsleep)), WUnlock(0),
                 Latch(0, false, Three(Out, ReadAwake, EntryAwake)))
    ensures Next(limit, Latch(0, false, Three(Out, ReadAwake, EntryAwake)), RLock(1),
                 Latch(1, false, Three(Out, ReadIn, EntryAwake)))
    ensures Next(limit, Latch(1, false, Three(Out, ReadIn, EntryAwake)), RUnlock(1, 1),
                 Latch(0, false, Three(Out, Out, EntryAwake)))
    ensures Next(limit, Latch(0, false, Three(Out, Out, EntryAwake)), WLock(2),
                 Latch(0, true, Three(Out, Out, WriteIn)))
  {
    assert NotifyAllReaders(Three(WriteIn, ReadAsleep, EntryAsleep)[0 := Out]) == Three(Out, ReadAwake, EntryAwake);
  }

  /** A run in which a reader and a writer wait for a writer to leave and get in one after the other. */
  lemma WaitersGetIn(limit: nat) returns (states: seq<Latch>, actions: seq<Action>)
    requires limit >= 2
    ensures Run(limit, states, actions)
    ensures actions == [WLock(0), RLock(1), WLock(2), WUnlock(0), RLock(1), RUnlock(1, 1), WLock(2)]
    ensures states[5] == Latch(1, false, Three(Out, ReadIn, EntryAwake))
    ensures states[7] == Latch(0, true, Three(Out, Out, WriteIn))
  {
    WaitersSleep(limit);
    WaitersWake(limit);
    hide Next;
    states := [Latch(0, false, Three(Out, Out, Out)), Latch(0, true, Three(WriteIn, Out, Out)),
               Latch(0, true, Three(WriteIn, ReadAsleep, Out)), Latch(0, true, Three(WriteIn, ReadAsleep, EntryAsleep)),
               Latch(0, false, Three(Out, ReadAwake, EntryAwake)), Latch(1, false, Three(Out, ReadIn, EntryAwake)),
               Latch(0, false, Three(Out, Out, EntryAwake)), Latch(0, true, Three(Out, Out, WriteIn))];
    actions := [WLock(0), RLock(1), WLock(2), WUnlock(0), RLock(1), RUnlock(1, 1), WLock(2)];
  }

  // ---------- the bound is exact ----------

  predicate Below(t: nat, n: nat) { t < n }

  /** `n` threads, of which the first `k` have entered as readers. */
  ghost function Filled(n: nat, k: nat): map<nat, Phase> {
    map t: nat | t < n && Below(t, n) :: if t < k then ReadIn else Out
  }

  lemma {:induction false} FillReaders(limit: nat, n: nat, k: nat) returns (states: seq<Latch>, actions: seq<Action>)
    requires k <= limit && k <= n
    ensures Run(limit, states, actions) && states[0].threads == Filled(n, 0)
    ensures states[|actions|] == Latch(k, false, Filled(n, k))
  {
    if k == 0 {
      states, actions := [Latch(0, false, Filled(n, 0))], [];
    } else {
      states, actions := FillReaders(limit, n, k - 1);
      var s := states[|actions|];
      assert Filled(n, k) == s.threads[k - 1 := ReadIn];
      states, actions := Extend(limit, states, actions, RLock(k - 1), Latch(k, false, Filled(n, k)));
    }
  }

  lemma Extend(limit: nat, states: seq<Latch>, actions: seq<Action>, a: Action, s': Latch)
    returns (longer: seq<Latch>, more: seq<Action>)
    requires Run(limit, states, actions) && Next(limit, states[|actions|], a, s')
    ensures Run(limit, longer, more) && longer == states + [s'] && more == actions + [a]
  {
    hide Next;
    longer, more := states + [s'], actions + [a];
  }

  /** With one thread more there is a run that leaves a reader asleep on a free latch:
      two readers sleep on a full house, two leave, and only the first departure notifies. */
  lemma OneThreadTooMany(limit: nat, n: nat) returns (states: seq<Latch>, actions: seq<Action>)
    requires limit >= 2 && n >= limit + 2
    ensures Run(limit, states, actions) && states[0].threads == Filled(n, 0)
    ensures !NoneForgotten(limit, states[|actions|])
  {
    states, actions := FillReaders(limit, n, limit);
    var s0 := states[|actions|];
    var s1 := s0.(threads := s0.threads[limit := ReadAsleep]);
    states, actions := Extend(limit, states, actions, RLock(limit), s1);
    var s2 := s1.(threads := s1.threads[limit + 1 := ReadAsleep]);
    states, actions := Extend(limit, states, actions, RLock(limit + 1), s2);
    var s3 := Latch(limit - 1, false, s2.threads[0 := Out][limit := ReadAwake]);
    assert OnReaderQueue(s2.threads[0 := Out][limit]);
    states, actions := Extend(limit, states, actions, RUnlock(0, limit), s3);
    var s4 := Latch(limit - 2, false, s3.threads[1 := Out]);
    states, actions := Extend(limit, states, actions, RUnlock(1, limit), s4);
    assert OnReaderQueue(s4.threads[limit + 1]);
  }
}
