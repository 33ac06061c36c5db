/** Linear probing with tombstones, on the flat sequence of slots: what the probe loops
    of the hash table mean. A slot is fresh until first used, and a tombstone after
    its pair is removed. */
module ProbeTable {

  datatype Cell<K, V> = Fresh | Tomb | Full(key: K, value: V)

  /** The slot reached after `i` steps from `start`, around the end of the table. */
  function At(n: nat, start: nat, i: nat): (p: nat)
    requires start < n && i <= n
    ensures p < n
  {
    if start + i < n then start + i else start + i - n
  }

  /** How many steps lead from `start` to `p`. */
  function Steps(n: nat, start: nat, p: nat): (i: nat)
    requires start < n && p < n
    ensures i < n && At(n, start, i) == p
  {
    if p >= start then p - start else p + n - start
  }

  function Home<K>(hash: K -> nat, n: nat, k: K): (p: nat)
    requires n > 0
    ensures p < n
  {
    hash(k) % n
  }

  /** All slots from `start` up to `p` have been used. */
  ghost predicate PathTo<K, V>(cells: seq<Cell<K, V>>, start: nat, p: nat)
    requires start < |cells| && p < |cells|
  {
    forall i :: 0 <= i < Steps(|cells|, start, p) ==> !cells[At(|cells|, start, i)].Fresh?
  }

  /** Every pair can be reached from its home slot over occupied slots only. */
  ghost predicate Reachable<K, V>(cells: seq<Cell<K, V>>, hash: K -> nat) {
    forall p :: 0 <= p < |cells| && cells[p].Full? ==> PathTo(cells, Home(hash, |cells|, cells[p].key), p)
  }

  // ---------- contents ----------

  ghost function Pair<K, V>(c: Cell<K, V>): multiset<(K, V)> {
    if c.Full? then multiset{(c.key, c.value)} else multiset{}
  }

  /** The pairs stored in slots `lo` to `hi`. */
  ghost function Stored<K, V>(cells: seq<Cell<K, V>>, lo: nat, hi: nat): multiset<(K, V)>
    requires lo <= hi <= |cells|
    decreases hi - lo
  {
    if lo == hi then multiset{} else Stored(cells, lo, hi - 1) + Pair(cells[hi - 1])
  }

  ghost function Contents<K, V>(cells: seq<Cell<K, V>>): multiset<(K, V)> {
    Stored(cells, 0, |cells|)
  }

  lemma {:induction false} StoredSplit<K, V>(cells: seq<Cell<K, V>>, lo: nat, mid: nat, hi: nat)
    requires lo <= mid <= hi <= |cells|
    ensures Stored(cells, lo, hi) == Stored(cells, lo, mid) + Stored(cells, mid, hi)
    decreases hi - mid
  {
    if mid < hi {
      StoredSplit(cells, lo, mid, hi - 1);
    }
  }

  lemma {:induction false} StoredHas<K, V>(cells: seq<Cell<K, V>>, lo: nat, hi: nat, x: (K, V))
    requires lo <= hi <= |cells|
    ensures x in Stored(cells, lo, hi) <==> exists p :: lo <= p < hi && cells[p] == Full(x.0, x.1)
    decreases hi - lo
  {
    hide Stored, Pair;
    StoredNone(cells, lo);
    if lo < hi {
      StoredHas(cells, lo, hi - 1, x);
      StoredNext(cells, lo, hi - 1);
      PairHas(cells[hi - 1], x);
      assert x in Stored(cells, lo, hi) <==> x in Stored(cells, lo, hi - 1) || x in Pair(cells[hi - 1]);
    }
  }

  lemma StoredNone<K, V>(cells: seq<Cell<K, V>>, lo: nat)
    requires lo <= |cells|
    ensures Stored(cells, lo, lo) == multiset{}
  {
  }

  lemma PairHas<K, V>(c: Cell<K, V>, x: (K, V))
    ensures x in Pair(c) <==> c == Full(x.0, x.1)
  {
  }

  lemma StoredNext<K, V>(cells: seq<Cell<K, V>>, lo: nat, hi: nat)
    requires lo <= hi < |cells|
    ensures Stored(cells, lo, hi + 1) == Stored(cells, lo, hi) + Pair(cells[hi])
  {
  }

  lemma ContentsHas<K, V>(cells: seq<Cell<K, V>>, x: (K, V))
    ensures x in Contents(cells) <==> exists p :: 0 <= p < |cells| && cells[p] == Full(x.0, x.1)
  {
    StoredHas(cells, 0, |cells|, x);
  }

  lemma {:induction false} StoredSame<K, V>(a: seq<Cell<K, V>>, b: seq<Cell<K, V>>, lo: nat, hi: nat)
    requires lo <= hi <= |a| && hi <= |b| && forall p :: lo <= p < hi ==> a[p] == b[p]
    ensures Stored(a, lo, hi) == Stored(b, lo, hi)
    decreases hi - lo
  {
    if lo < hi {
      StoredSame(a, b, lo, hi - 1);
    }
  }

  lemma AroundSlot<K, V>(cells: seq<Cell<K, V>>, p: nat)
    requires p < |cells|
    ensures Contents(cells) == Stored(cells, 0, p) + Pair(cells[p]) + Stored(cells, p + 1, |cells|)
  {
    StoredSplit(cells, 0, p + 1, |cells|);
  }

  /** Changing one slot changes the contents by that slot's pair. */
  lemma ContentsUpdate<K, V>(cells: seq<Cell<K, V>>, p: nat, c: Cell<K, V>)
    requires p < |cells|
    ensures Contents(cells[p := c]) + Pair(cells[p]) == Contents(cells) + Pair(c)
  {
    var d := cells[p := c];
    AroundSlot(cells, p);
    AroundSlot(d, p);
    StoredSame(cells, d, 0, p);
    StoredSame(cells, d, p + 1, |cells|);
    hide Stored, Pair;
  }

  // ---------- lookup ----------

  /** The values stored under `k` in slots `lo` to `hi`, in slot order. */
  ghost function Values<K, V>(cells: seq<Cell<K, V>>, lo: nat, hi: nat, k: K): multiset<V>
    requires lo <= hi <= |cells|
    decreases hi - lo
  {
    if lo == hi then multiset{}
    else Values(cells, lo, hi - 1, k) + ValueIf(cells[hi - 1], k)
  }

  ghost function ValueIf<K, V>(c: Cell<K, V>, k: K): multiset<V> {
    if c.Full? && c.key == k then multiset{c.value} else multiset{}
  }

  /** All values stored under `k`. */
  ghost function ValuesOf<K, V>(cells: seq<Cell<K, V>>, k: K): multiset<V> {
    Values(cells, 0, |cells|, k)
  }

  /** The values found in the first `i` steps from `start`. */
  ghost function Found<K, V>(cells: seq<Cell<K, V>>, start: nat, i: nat, k: K): multiset<V>
    requires start < |cells| && i <= |cells|
  {
    if start + i <= |cells| then Values(cells, start, start + i, k)
    else Values(cells, start, |cells|, k) + Values(cells, 0, start + i - |cells|, k)
  }

  lemma FoundStep<K, V>(cells: seq<Cell<K, V>>, start: nat, i: nat, k: K)
    requires start < |cells| && i < |cells|
    ensures Found(cells, start, i + 1, k) == Found(cells, start, i, k) + ValueIf(cells[At(|cells|, start, i)], k)
  {
    hide Values, ValueIf;
    var n := |cells|;
    if start + i < n {
      ValuesNext(cells, start, start + i, k);
    } else {
      NoValues(cells, k);
      ValuesNext(cells, 0, start + i - n, k);
    }
  }

  lemma NoValues<K, V>(cells: seq<Cell<K, V>>, k: K)
    ensures Values(cells, 0, 0, k) == multiset{} && Stored(cells, 0, 0) == multiset{}
  {
  }

  lemma ValuesNext<K, V>(cells: seq<Cell<K, V>>, lo: nat, hi: nat, k: K)
    requires lo <= hi < |cells|
    ensures Values(cells, lo, hi + 1, k) == Values(cells, lo, hi, k) + ValueIf(cells[hi], k)
  {
  }

  lemma {:induction false} ValuesSplit<K, V>(cells: seq<Cell<K, V>>, lo: nat, mid: nat, hi: nat, k: K)
    requires lo <= mid <= hi <= |cells|
    ensures Values(cells, lo, hi, k) == Values(cells, lo, mid, k) + Values(cells, mid, hi, k)
    decreases hi - mid
  {
    if mid < hi {
      ValuesSplit(cells, lo, mid, hi - 1, k);
    }
  }

  /** A full turn sees everything. */
  lemma FoundAll<K, V>(cells: seq<Cell<K, V>>, start: nat, k: K)
    requires start < |cells|
    ensures Found(cells, start, |cells|, k) == ValuesOf(cells, k)
  {
    ValuesSplit(cells, 0, start, |cells|, k);
  }

  /** Past a fresh slot on its probe path no pair of `k` can lie. */
  lemma NothingPast<K, V>(cells: seq<Cell<K, V>>, hash: K -> nat, k: K, i: nat, m: nat)
    requires Reachable(cells, hash) && i <= m < |cells|
    requires cells[At(|cells|, Home(hash, |cells|, k), i)].Fresh?
    ensures var c := cells[At(|cells|, Home(hash, |cells|, k), m)]; !(c.Full? && c.key == k)
  {
    hide Home;
    var n, h := |cells|, Home(hash, |cells|, k);
    var p := At(n, h, m);
    assert Steps(n, h, p) == m;
  }

  /** So stopping at a fresh slot loses nothing. */
  lemma {:induction false} FoundEnough<K, V>(cells: seq<Cell<K, V>>, hash: K -> nat, k: K, i: nat, j: nat)
    requires Reachable(cells, hash) && i <= j <= |cells| && i < |cells|
    requires cells[At(|cells|, Home(hash, |cells|, k), i)].Fresh?
    ensures Found(cells, Home(hash, |cells|, k), j, k) == Found(cells, Home(hash, |cells|, k), i, k)
    decreases j
  {
    hide Home, Reachable, Found;
    if i < j {
      FoundEnough(cells, hash, k, i, j - 1);
      FoundStep(cells, Home(hash, |cells|, k), j - 1, k);
      NothingPast(cells, hash, k, i, j - 1);
    }
  }

  // ---------- insert and remove ----------

  /** The first `i` slots from `start` hold pairs, none of them `x`. */
  ghost predicate Passed<K, V>(cells: seq<Cell<K, V>>, start: nat, i: nat, x: (K, V))
    requires start < |cells| && i <= |cells|
  {
    forall j :: 0 <= j < i ==> var c := cells[At(|cells|, start, j)]; c.Full? && c != Full(x.0, x.1)
  }

  /** The probe for `x` meets its first unused slot after `i` steps. */
  ghost predicate FreeAfter<K, V>(cells: seq<Cell<K, V>>, start: nat, i: nat, x: (K, V))
    requires start < |cells| && i < |cells|
  {
    Passed(cells, start, i, x) && !cells[At(|cells|, start, i)].Full?
  }

  /** Inserting at the first unused slot keeps every pair reachable and adds one. */
  lemma InsertKeeps<K, V>(cells: seq<Cell<K, V>>, hash: K -> nat, k: K, v: V, i: nat)
    requires Reachable(cells, hash) && i < |cells| && FreeAfter(cells, Home(hash, |cells|, k), i, (k, v))
    ensures var after := cells[At(|cells|, Home(hash, |cells|, k), i) := Full(k, v)];
            Reachable(after, hash) && Contents(after) == Contents(cells) + multiset{(k, v)}
  {
    hide Home, Stored;
    var n, h := |cells|, Home(hash, |cells|, k);
    var p := At(n, h, i);
    var after := cells[p := Full(k, v)];
    assert Steps(n, h, p) == i;
    forall q | 0 <= q < n && after[q].Full?
      ensures PathTo(after, Home(hash, n, after[q].key), q)
    {
      if q != p {
        assert PathTo(cells, Home(hash, n, cells[q].key), q);
      }
    }
    ContentsUpdate(cells, p, Full(k, v));
  }

  /** A tombstone keeps the path over it. */
  lemma RemoveKeeps<K, V>(cells: seq<Cell<K, V>>, hash: K -> nat, p: nat)
    requires Reachable(cells, hash) && p < |cells| && cells[p].Full?
    ensures Reachable(cells[p := Tomb], hash)
    ensures Contents(cells[p := Tomb]) == Contents(cells) - multiset{(cells[p].key, cells[p].value)}
  {
    hide Home, Stored;
    var n := |cells|;
    var after := cells[p := Tomb];
    forall q | 0 <= q < n && after[q].Full?
      ensures PathTo(after, Home(hash, n, after[q].key), q)
    {
      assert PathTo(cells, Home(hash, n, cells[q].key), q);
    }
    ContentsUpdate(cells, p, Tomb);
    var x := multiset{(cells[p].key, cells[p].value)};
    assert Contents(after) + x - x == Contents(after);
  }

  /** A probe that did not meet `(k, v)` before a fresh slot, or in a full turn, shows
      that the table does not hold it. */
  lemma AbsentAfter<K, V>(cells: seq<Cell<K, V>>, hash: K -> nat, k: K, v: V, i: nat)
    requires Reachable(cells, hash) && i <= |cells| && cells != []
    requires forall j :: 0 <= j < i ==> cells[At(|cells|, Home(hash, |cells|, k), j)] != Full(k, v)
    requires i < |cells| ==> cells[At(|cells|, Home(hash, |cells|, k), i)].Fresh?
    ensures (k, v) !in Contents(cells)
  {
    hide Home, Stored, Reachable;
    var n, h := |cells|, Home(hash, |cells|, k);
    ContentsHas(cells, (k, v));
    forall p | 0 <= p < n
      ensures cells[p] != Full(k, v)
    {
      var m := Steps(n, h, p);
      assert At(n, h, m) == p;
      if m >= i {
        NothingPast(cells, hash, k, i, m);
      }
    }
  }

  /** Insert answers "already there" only for pairs it meets before the first unused slot.
      It stores a second copy exactly when every copy lies beyond that slot. */
  lemma SecondCopyIff<K, V>(cells: seq<Cell<K, V>>, hash: K -> nat, k: K, v: V, i: nat)
    requires Reachable(cells, hash) && i < |cells| && FreeAfter(cells, Home(hash, |cells|, k), i, (k, v))
    ensures (k, v) in Contents(cells) <==>
            exists p :: 0 <= p < |cells| && cells[p] == Full(k, v) && Steps(|cells|, Home(hash, |cells|, k), p) > i
    ensures (k, v) in Contents(cells) ==> cells[At(|cells|, Home(hash, |cells|, k), i)].Tomb?
  {
    hide Home, Stored;
    var n, h := |cells|, Home(hash, |cells|, k);
    ContentsHas(cells, (k, v));
    forall p | 0 <= p < n && cells[p] == Full(k, v)
      ensures Steps(n, h, p) > i && !cells[At(n, h, i)].Fresh?
    {
      assert At(n, h, Steps(n, h, p)) == p;
      assert PathTo(cells, h, p);
    }
  }

  ghost predicate Distinct<K(!new), V(!new)>(m: multiset<(K, V)>) {
    forall x :: m[x] <= 1
  }

  // ---------- tables nobody removed from ----------

  /** All slots from `start` up to `p` hold pairs. */
  ghost predicate FullPathTo<K, V>(cells: seq<Cell<K, V>>, start: nat, p: nat)
    requires start < |cells| && p < |cells|
  {
    forall i :: 0 <= i < Steps(|cells|, start, p) ==> cells[At(|cells|, start, i)].Full?
  }

  /** In a table filled by inserts and resizes only, every pair lies behind pairs only,
      whatever tombstones the resizes left over. */
  ghost predicate Packed<K, V>(cells: seq<Cell<K, V>>, hash: K -> nat) {
    forall p :: 0 <= p < |cells| && cells[p].Full? ==> FullPathTo(cells, Home(hash, |cells|, cells[p].key), p)
  }

  lemma InsertPacked<K, V>(cells: seq<Cell<K, V>>, hash: K -> nat, k: K, v: V, i: nat)
    requires Packed(cells, hash) && i < |cells| && FreeAfter(cells, Home(hash, |cells|, k), i, (k, v))
    ensures Packed(cells[At(|cells|, Home(hash, |cells|, k), i) := Full(k, v)], hash)
    ensures (k, v) !in Contents(cells)
  {
    hide Home, Stored;
    var n, h := |cells|, Home(hash, |cells|, k);
    var p := At(n, h, i);
    var after := cells[p := Full(k, v)];
    assert Steps(n, h, p) == i;
    forall q | 0 <= q < n && after[q].Full?
      ensures FullPathTo(after, Home(hash, n, after[q].key), q)
    {
      if q != p {
        assert FullPathTo(cells, Home(hash, n, cells[q].key), q);
      }
    }
    ContentsHas(cells, (k, v));
    forall q | 0 <= q < n
      ensures cells[q] != Full(k, v)
    {
      assert At(n, h, Steps(n, h, q)) == q;
      assert cells[q].Full? && cells[q].key == k ==> FullPathTo(cells, h, q);
    }
  }

  /** So without removals insert never stores a pair twice. */
  lemma PackedNoCopies<K(!new), V(!new)>(cells: seq<Cell<K, V>>, hash: K -> nat, k: K, v: V, i: nat)
    requires Reachable(cells, hash) && i < |cells| && FreeAfter(cells, Home(hash, |cells|, k), i, (k, v))
    requires Packed(cells, hash) && Distinct(Contents(cells))
    ensures var after := cells[At(|cells|, Home(hash, |cells|, k), i) := Full(k, v)];
            Packed(after, hash) && Distinct(Contents(after))
  {
    hide Home, Stored, Reachable, Packed, FreeAfter, At;
    InsertPacked(cells, hash, k, v, i);
    InsertKeeps(cells, hash, k, v, i);
  }

  // ---------- resize ----------

  /** The first `g` slots with their pairs taken out. */
  function TakenOut<K, V>(cells: seq<Cell<K, V>>, g: nat): (r: seq<Cell<K, V>>)
    ensures |r| == |cells|
  {
    seq(|cells|, p requires 0 <= p < |cells| => if p < g && cells[p].Full? then Tomb else cells[p])
  }

  lemma TakeOutNext<K, V>(cells: seq<Cell<K, V>>, g: nat)
    requires g < |cells|
    ensures TakenOut(cells, g)[g] == cells[g]
    ensures TakenOut(cells, g + 1) == if cells[g].Full? then TakenOut(cells, g)[g := Tomb] else TakenOut(cells, g)
  {
  }

  /** No slot holds a pair; tombstones may be left. */
  ghost predicate NoneFull<K, V>(cells: seq<Cell<K, V>>) {
    forall p :: 0 <= p < |cells| ==> !cells[p].Full?
  }

  lemma {:induction false} NothingStored<K, V>(cells: seq<Cell<K, V>>, lo: nat, hi: nat)
    requires lo <= hi <= |cells| && forall p :: lo <= p < hi ==> !cells[p].Full?
    ensures Stored(cells, lo, hi) == multiset{}
    decreases hi - lo
  {
    if lo < hi {
      NothingStored(cells, lo, hi - 1);
    }
  }

  lemma NoneFullHoldsNothing<K, V>(cells: seq<Cell<K, V>>, hash: K -> nat)
    requires NoneFull(cells)
    ensures Reachable(cells, hash) && Packed(cells, hash) && Contents(cells) == multiset{}
  {
    NothingStored(cells, 0, |cells|);
  }

  /** The pairs of slots `0` to `hi`, in slot order, as a resize collects them. */
  ghost function Collected<K, V>(cells: seq<Cell<K, V>>, hi: nat): (s: seq<(K, V)>)
    requires hi <= |cells|
  {
    if hi == 0 then []
    else Collected(cells, hi - 1) + if cells[hi - 1].Full? then [(cells[hi - 1].key, cells[hi - 1].value)] else []
  }

  lemma {:induction false} CollectedAll<K, V>(cells: seq<Cell<K, V>>, hi: nat)
    requires hi <= |cells|
    ensures multiset(Collected(cells, hi)) == Stored(cells, 0, hi) && |Collected(cells, hi)| <= hi
  {
    if hi > 0 {
      CollectedAll(cells, hi - 1);
    }
  }

  /** A full stretch holds as many pairs as slots. */
  lemma {:induction false} FullStretch<K, V>(cells: seq<Cell<K, V>>, lo: nat, hi: nat)
    requires lo <= hi <= |cells| && forall p :: lo <= p < hi ==> cells[p].Full?
    ensures |Stored(cells, lo, hi)| == hi - lo
    decreases hi - lo
  {
    if lo < hi {
      FullStretch(cells, lo, hi - 1);
    }
  }

  lemma OneValue<K, V>(c: Cell<K, V>, k: K, v: V)
    ensures ValueIf(c, k)[v] == Pair(c)[(k, v)]
  {
  }

  /** Contents decide lookups. */
  lemma {:induction false} ValuesFromStored<K, V>(cells: seq<Cell<K, V>>, hi: nat, k: K, v: V)
    requires hi <= |cells|
    ensures Values(cells, 0, hi, k)[v] == Stored(cells, 0, hi)[(k, v)]
  {
    hide ValueIf, Pair, Stored, Values;
    if hi == 0 {
      NoValues(cells, k);
    } else {
      ValuesFromStored(cells, hi - 1, k, v);
      OneValue(cells[hi - 1], k, v);
      ValuesNext(cells, 0, hi - 1, k);
      StoredNext(cells, 0, hi - 1);
    }
  }

  lemma SameContentsSameValues<K, V(!new)>(a: seq<Cell<K, V>>, b: seq<Cell<K, V>>, k: K)
    requires Contents(a) == Contents(b)
    ensures ValuesOf(a, k) == ValuesOf(b, k)
  {
    forall v
      ensures ValuesOf(a, k)[v] == ValuesOf(b, k)[v]
    {
      ValuesFromStored(a, |a|, k, v);
      ValuesFromStored(b, |b|, k, v);
    }
  }

  /** Two keys with one home slot: once the first pair is removed, inserting the second
      again stores it twice. */
  lemma RemoveAllowsSecondCopy(first: int, second: int, hash: int -> nat)
    requires first != second && Home(hash, 4, first) == 0 && Home(hash, 4, second) == 0
    ensures var cells := [Full(first, 0), Full(second, 0), Fresh, Fresh];
            var removed := cells[0 := Tomb];
            && Reachable(cells, hash) && Distinct(Contents(cells))
            && Reachable(removed, hash) && FreeAfter(removed, 0, 0, (second, 0))
            && !Distinct(Contents(removed[0 := Full(second, 0)]))
  {
    hide Stored, Home;
    var cells := [Full(first, 0), Full(second, 0), Fresh, Fresh];
    var empty: seq<Cell<int, int>> := [Fresh, Fresh, Fresh, Fresh];
    NothingStored(empty, 0, 4);
    assert Reachable(empty, hash);
    var one := empty[0 := Full(first, 0)];
    InsertKeeps(empty, hash, first, 0, 0);
    InsertKeeps(one, hash, second, 0, 1);
    assert cells == one[1 := Full(second, 0)];
    var removed := cells[0 := Tomb];
    RemoveKeeps(cells, hash, 0);
    InsertKeeps(removed, hash, second, 0, 0);
    assert Contents(removed[0 := Full(second, 0)])[(second, 0)] == 2;
  }
}
