/** The plain value a slotted page stands for: one entry per directory slot.
    Everything the page operations decide (does it fit, which slot is taken,
    may it be deleted) is decided by this value alone. */
module SlotMap {
  import opened Bytes

  const PAGE_SIZE := 4096
  const SIZE_TABLE_PAGE_HEADER := 24
  const SIZE_TUPLE := 8

  /** A directory entry: free, or a tuple that may carry the delete mark. */
  datatype Slot = Empty | Tuple(data: seq<byte>, marked: bool)

  function Size(s: Slot): nat {
    if s.Empty? then 0 else |s.data|
  }

  /** Bytes taken by all tuples, marked ones included. */
  function Used(v: seq<Slot>): nat {
    if v == [] then 0 else Used(v[..|v| - 1]) + Size(v[|v| - 1])
  }

  function FreeSpace(v: seq<Slot>): int {
    PAGE_SIZE - SIZE_TABLE_PAGE_HEADER - SIZE_TUPLE * |v| - Used(v)
  }

  /** The slot an insert takes: the first empty one, or a new one at the end. */
  function FirstEmpty(v: seq<Slot>): (i: nat)
    ensures i <= |v|
    ensures i < |v| ==> v[i].Empty?
    ensures forall j :: 0 <= j < i ==> v[j].Tuple?
  {
    if v == [] then 0
    else
      var i := FirstEmpty(v[..|v| - 1]);
      if i < |v| - 1 || v[|v| - 1].Empty? then i else |v|
  }

  function Put(v: seq<Slot>, i: nat, s: Slot): (w: seq<Slot>)
    requires i <= |v|
    ensures |w| == if i == |v| then |v| + 1 else |v|
    ensures w[i] == s && forall j :: 0 <= j < |v| && j != i ==> w[j] == v[j]
  {
    if i == |v| then v + [s] else v[i := s]
  }

  predicate Live(v: seq<Slot>, i: nat) {
    i < |v| && v[i].Tuple? && !v[i].marked
  }

  predicate Occupied(v: seq<Slot>, i: nat) {
    i < |v| && v[i].Tuple?
  }

  predicate CanInsert(v: seq<Slot>, t: seq<byte>) {
    |t| + SIZE_TUPLE <= FreeSpace(v)
  }

  function Inserted(v: seq<Slot>, t: seq<byte>): seq<Slot> {
    Put(v, FirstEmpty(v), Tuple(t, false))
  }

  predicate CanUpdate(v: seq<Slot>, i: nat, t: seq<byte>) {
    Live(v, i) && |t| <= FreeSpace(v) + |v[i].data|
  }

  function Updated(v: seq<Slot>, i: nat, t: seq<byte>): seq<Slot>
    requires i < |v|
  {
    v[i := Tuple(t, false)]
  }

  function WithMark(v: seq<Slot>, i: nat, marked: bool): seq<Slot>
    requires i < |v|
  {
    if v[i].Empty? then v else v[i := Tuple(v[i].data, marked)]
  }

  /** The first occupied slot at or after `from`, or `|v|`. */
  function NextOccupied(v: seq<Slot>, from: nat): (i: nat)
    ensures from <= |v| ==> from <= i <= |v|
    ensures from > |v| ==> i == |v|
    ensures i < |v| ==> v[i].Tuple?
    ensures forall j :: from <= j < i ==> v[j].Empty?
    decreases |v| - from
  {
    if from >= |v| then |v| else if v[from].Tuple? then from else NextOccupied(v, from + 1)
  }

  lemma {:induction false} UsedPut(v: seq<Slot>, i: nat, s: Slot)
    requires i <= |v|
    ensures Used(Put(v, i, s)) == Used(v) + Size(s) - if i < |v| then Size(v[i]) else 0
    decreases |v|
  {
    var w := Put(v, i, s);
    if i == |v| {
      assert w[..|w| - 1] == v;
    } else if i < |v| - 1 {
      UsedPut(v[..|v| - 1], i, s);
      assert w[..|w| - 1] == Put(v[..|v| - 1], i, s);
    } else {
      assert w[..|w| - 1] == v[..|v| - 1];
    }
  }

  lemma {:induction false} SizeWithinUsed(v: seq<Slot>, i: nat)
    requires i < |v|
    ensures Size(v[i]) <= Used(v)
    decreases |v|
  {
    if i < |v| - 1 {
      SizeWithinUsed(v[..|v| - 1], i);
    }
  }

  lemma UsedThree(a: Slot, b: Slot, c: Slot)
    ensures Used([a, b]) == Size(a) + Size(b)
    ensures Used([a, b, c]) == Size(a) + Size(b) + Size(c)
  {
    assert [a, b, c][..2] == [a, b] && [a, b][..1] == [a] && [a][..0] == [];
    assert Used([a]) == Size(a);
  }
}
