/** Page space is conserved: the tuples of a valid page tile the bytes above the
    free-space pointer exactly. */
module Tiling {
  import opened Bytes
  import opened SlotMap
  import opened TablePageModel

  datatype Interval = Interval(lo: int, len: nat)

  predicate Has(v: Interval, x: int) {
    v.lo <= x < v.lo + v.len
  }

  ghost function Total(s: seq<Interval>): nat {
    if s == [] then 0 else Total(s[..|s| - 1]) + s[|s| - 1].len
  }

  predicate Between(a: int, x: int, b: int) {
    a <= x < b
  }

  ghost function Range(a: int, b: int): set<int> {
    set x | a <= x < b && Between(a, x, b)
  }

  lemma {:induction false} RangeSize(a: int, b: int)
    requires a <= b
    ensures |Range(a, b)| == b - a
    decreases b - a
  {
    if a < b {
      RangeSize(a, b - 1);
      assert Range(a, b) == Range(a, b - 1) + {b - 1};
    }
  }

  /** All points of the intervals. */
  ghost function Points(s: seq<Interval>): set<int> {
    if s == [] then {} else Points(s[..|s| - 1]) + Range(s[|s| - 1].lo, s[|s| - 1].lo + s[|s| - 1].len)
  }

  lemma {:induction false} InPoints(s: seq<Interval>, x: int)
    ensures x in Points(s) <==> exists i :: 0 <= i < |s| && Has(s[i], x)
  {
    if s != [] {
      var r := s[..|s| - 1];
      InPoints(r, x);
      assert forall i :: 0 <= i < |r| ==> r[i] == s[i];
      if i :| 0 <= i < |s| && Has(s[i], x) {
        assert i < |r| ==> Has(r[i], x);
      }
    }
  }

  ghost predicate Disjoint(s: seq<Interval>) {
    forall i, j, x :: 0 <= i < j < |s| && Has(s[i], x) ==> !Has(s[j], x)
  }

  lemma {:induction false} PointsSize(s: seq<Interval>)
    requires Disjoint(s)
    ensures |Points(s)| == Total(s)
  {
    if s != [] {
      var r, v := s[..|s| - 1], s[|s| - 1];
      PointsSize(r);
      RangeSize(v.lo, v.lo + v.len);
      forall x | x in Points(r)
        ensures x !in Range(v.lo, v.lo + v.len)
      {
        InPoints(r, x);
        var i :| 0 <= i < |r| && Has(r[i], x);
        assert Has(s[i], x);
        assert !Has(s[|s| - 1], x);
      }
      assert Points(r) !! Range(v.lo, v.lo + v.len);
    }
  }

  /** Disjoint intervals inside [a, b) whose lengths add up to b - a leave no gap. */
  lemma NoGap(s: seq<Interval>, a: int, b: int, x: int)
    requires Disjoint(s) && a <= b && Total(s) == b - a
    requires forall i, y :: 0 <= i < |s| && Has(s[i], y) ==> a <= y < b
    requires a <= x < b
    ensures exists i :: 0 <= i < |s| && Has(s[i], x)
  {
    PointsSize(s);
    RangeSize(a, b);
    forall y | y in Points(s)
      ensures y in Range(a, b)
    {
      InPoints(s, y);
    }
    assert |Range(a, b)| == |Points(s)| + |Range(a, b) - Points(s)|
      by { assert Range(a, b) == Points(s) + (Range(a, b) - Points(s)); }
    assert x in Range(a, b);
    InPoints(s, x);
  }

  /** The byte range of slot `i`; a free slot holds no byte. */
  ghost function SlotRange(p: seq<byte>, i: nat): Interval
    requires DirectoryFits(p) && i < Count(p)
  {
    if Sz(p, i) == 0 then Interval(PAGE_SIZE, 0) else Interval(Off(p, i), Len(p, i))
  }

  ghost function Ranges(p: seq<byte>, n: nat): (s: seq<Interval>)
    requires DirectoryFits(p) && n <= Count(p)
    ensures |s| == n && forall i :: 0 <= i < n ==> s[i] == SlotRange(p, i)
  {
    seq(n, i requires 0 <= i < n => SlotRange(p, i))
  }

  lemma {:induction false} TotalIsUsed(p: seq<byte>, n: nat)
    requires Inv(p) && n <= Count(p)
    ensures Total(Ranges(p, n)) == Used(View(p)[..n])
  {
    hide ReadU32, View;
    if n > 0 {
      TotalIsUsed(p, n - 1);
      assert View(p)[..n][..n - 1] == View(p)[..n - 1];
      assert Ranges(p, n)[..n - 1] == Ranges(p, n - 1);
      ReadSlot(p, n - 1);
    }
  }

  /** Every byte from the free-space pointer to the page end belongs to exactly one
      tuple, marked ones included, and no tuple holds any other byte. */
  lemma ExactTiling(p: seq<byte>, x: int)
    requires Inv(p)
    ensures Fsp(p) <= x < PAGE_SIZE <==> exists i :: 0 <= i < Count(p) && Has(SlotRange(p, i), x)
    ensures forall i, j ::
              0 <= i < Count(p) && 0 <= j < Count(p) && Has(SlotRange(p, i), x) && Has(SlotRange(p, j), x) ==> i == j
  {
    hide ReadU32, View;
    var s := Ranges(p, Count(p));
    forall i, y | 0 <= i < |s| && Has(s[i], y)
      ensures Fsp(p) <= y < PAGE_SIZE
    {
      ReadSlot(p, i);
    }
    forall i, j, y | 0 <= i < j < |s| && Has(s[i], y)
      ensures !Has(s[j], y)
    {
      if Sz(p, j) != 0 {
        assert Apart(p, i, j);
      }
    }
    TotalIsUsed(p, Count(p));
    assert View(p)[..Count(p)] == View(p);
    if Fsp(p) <= x < PAGE_SIZE {
      NoGap(s, Fsp(p), PAGE_SIZE, x);
    }
  }
}
