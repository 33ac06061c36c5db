/** A block page of the hash table: an occupied bitmap, a readable bitmap and the pairs. */
module BlockPageModel {
  import opened ProbeTable

  // ---------- bitmaps ----------

  /** Bit `j` of a byte, counted from the most significant. */
  function Mask(j: nat): bv8
    requires j < 8
  {
    if j == 0 then 0x80 else if j == 1 then 0x40 else if j == 2 then 0x20 else if j == 3 then 0x10
    else if j == 4 then 0x08 else if j == 5 then 0x04 else if j == 6 then 0x02 else 0x01
  }

  predicate HasBit(x: bv8, j: nat) requires j < 8 { x & Mask(j) != 0 }
  function WithBit(x: bv8, j: nat): bv8 requires j < 8 { x | Mask(j) }
  function WithoutBit(x: bv8, j: nat): bv8 requires j < 8 { x & !Mask(j) }

  /** Slot 0 is the most significant bit of the first byte. */
  lemma BitOrder(j: nat)
    requires j < 8
    ensures Mask(j) == (0x80 as bv8) >> j
    ensures GetBit([0x80, 0x01], 0) && GetBit([0x80, 0x01], 15)
    ensures forall i: nat :: 1 <= i < 15 ==> !GetBit([0x80, 0x01], i)
  {
    forall i: nat | 1 <= i < 15
      ensures !GetBit([0x80, 0x01], i)
    {
      assert i / 8 == 0 || i / 8 == 1;
    }
  }

  lemma OneBit(x: bv8, a: nat, b: nat)
    requires a < 8 && b < 8
    ensures HasBit(WithBit(x, a), b) <==> a == b || HasBit(x, b)
    ensures HasBit(WithoutBit(x, a), b) <==> a != b && HasBit(x, b)
  {
  }

  predicate GetBit(bits: seq<bv8>, i: nat)
    requires i / 8 < |bits|
  {
    HasBit(bits[i / 8], i % 8)
  }

  function SetBit(bits: seq<bv8>, i: nat): seq<bv8>
    requires i / 8 < |bits|
  {
    bits[i / 8 := WithBit(bits[i / 8], i % 8)]
  }

  function UnsetBit(bits: seq<bv8>, i: nat): seq<bv8>
    requires i / 8 < |bits|
  {
    bits[i / 8 := WithoutBit(bits[i / 8], i % 8)]
  }

  /** Setting or clearing a bit changes that bit only: the bitmap is an array of booleans. */
  lemma BitUpdate(bits: seq<bv8>, i: nat, j: nat)
    requires i / 8 < |bits| && j / 8 < |bits|
    ensures GetBit(SetBit(bits, i), j) == (i == j || GetBit(bits, j))
    ensures GetBit(UnsetBit(bits, i), j) == (i != j && GetBit(bits, j))
  {
    hide Mask, HasBit, WithBit, WithoutBit;
    if i / 8 == j / 8 {
      OneBit(bits[i / 8], i % 8, j % 8);
    }
  }

  // ---------- the page ----------

  class BlockPage<K, V> {
    var occupied: seq<bv8>
    var readable: seq<bv8>
    var pairs: seq<(K, V)>

    ghost predicate Valid()
      reads this
    {
      && |occupied| == |readable| && |pairs| <= 8 * |occupied|
      && forall i :: 0 <= i < |pairs| && GetBit(readable, i) ==> GetBit(occupied, i)
    }

    /** A zeroed page: nothing occupied. */
    constructor (capacity: nat, zero: (K, V))
      requires capacity > 0
      ensures Valid() && |pairs| == capacity && View() == seq(capacity, _ => Fresh)
    {
      occupied := seq((capacity - 1) / 8 + 1, _ => 0);
      readable := seq((capacity - 1) / 8 + 1, _ => 0);
      pairs := seq(capacity, _ => zero);
      new;
      assert forall i :: 0 <= i < capacity ==> !GetBit(occupied, i) && !GetBit(readable, i);
    }

    ghost function CellAt(i: nat): Cell<K, V>
      requires Valid() && i < |pairs|
      reads this
    {
      if GetBit(readable, i) then Full(pairs[i].0, pairs[i].1)
      else if GetBit(occupied, i) then Tomb else Fresh
    }

    ghost function View(): (v: seq<Cell<K, V>>)
      requires Valid()
      reads this
      ensures |v| == |pairs| && forall i :: 0 <= i < |v| ==> v[i] == CellAt(i)
    {
      seq(|pairs|, i requires 0 <= i < |pairs| && Valid() reads this => CellAt(i))
    }

    method IsOccupied(i: nat) returns (b: bool)
      requires Valid() && i < |pairs|
      ensures b == !View()[i].Fresh?
    {
      b := GetBit(occupied, i);
    }

    method IsReadable(i: nat) returns (b: bool)
      requires Valid() && i < |pairs|
      ensures b == View()[i].Full?
    {
      b := GetBit(readable, i);
    }

    method PairAt(i: nat) returns (k: K, v: V)
      requires Valid() && i < |pairs| && View()[i].Full?
      ensures View()[i] == Full(k, v)
    {
      k, v := pairs[i].0, pairs[i].1;
    }

    /** Fails exactly on a readable slot; tombstones are reused. */
    method Insert(i: nat, k: K, v: V) returns (ok: bool)
      requires Valid() && i < |pairs|
      modifies this
      ensures Valid() && ok == !old(View())[i].Full?
      ensures View() == if ok then old(View())[i := Full(k, v)] else old(View())
    {
      hide HasBit, WithBit;
      if GetBit(readable, i) {
        return false;
      }
      ghost var o, r := occupied, readable;
      occupied := SetBit(occupied, i);
      readable := SetBit(readable, i);
      pairs := pairs[i := (k, v)];
      forall j | 0 <= j < |pairs|
        ensures GetBit(occupied, j) == (i == j || GetBit(o, j))
        ensures GetBit(readable, j) == (i == j || GetBit(r, j))
      {
        BitUpdate(o, i, j);
        BitUpdate(r, i, j);
      }
      return true;
    }

    method Remove(i: nat)
      requires Valid() && i < |pairs| && View()[i].Full?
      modifies this
      ensures Valid() && View() == old(View())[i := Tomb]
    {
      hide HasBit, WithoutBit;
      ghost var r := readable;
      readable := UnsetBit(readable, i);
      forall j | 0 <= j < |pairs|
        ensures GetBit(readable, j) == (i != j && GetBit(r, j))
      {
        BitUpdate(r, i, j);
      }
    }
  }
}
