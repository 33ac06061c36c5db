/** The clock replacer: one (present, referenced) pair per frame and a hand. */
module ClockReplacerModel {

  datatype Cell = Cell(present: bool, referenced: bool)

  /** How many steps the hand, standing at `hand`, needs to reach frame `g`. */
  function Steps(hand: nat, g: nat, n: nat): nat
    requires hand < n && g < n
  {
    if g >= hand then g - hand else g + n - hand
  }

  ghost function PresentSet(s: seq<Cell>): set<nat> {
    set g: nat | g < |s| && s[g].present
  }

  /** A present frame that has not been referenced since the hand last passed. */
  predicate Idle(s: seq<Cell>, g: nat) {
    g < |s| && s[g].present && !s[g].referenced
  }

  ghost predicate SomeIdle(s: seq<Cell>) {
    exists g: nat :: Idle(s, g)
  }

  /** The frame the clock policy names: the first idle one from the hand, or, if every
      present frame is referenced, the first present one. */
  ghost predicate IsVictim(s: seq<Cell>, hand: nat, f: nat) {
    && hand < |s| && f < |s| && s[f].present
    && (s[f].referenced <==> !SomeIdle(s))
    && forall g: nat :: g < |s| && Steps(hand, g, |s|) < Steps(hand, f, |s|) && s[g].present ==>
         SomeIdle(s) && s[g].referenced
  }

  /** The clock after `f` is taken: reference bits are cleared on the frames the hand
      passed (all of them after a full sweep) and nowhere else. */
  ghost predicate Swept(s: seq<Cell>, hand: nat, f: nat, t: seq<Cell>) {
    && |t| == |s| && hand < |s| && f < |s|
    && forall g: nat :: g < |s| ==>
         t[g] == if g == f then Cell(false, false)
                 else if s[g].present && (!SomeIdle(s) || Steps(hand, g, |s|) < Steps(hand, f, |s|))
                 then Cell(true, false)
                 else s[g]
  }

  /** There is only one such frame. */
  lemma VictimUnique(s: seq<Cell>, hand: nat, f: nat, g: nat)
    requires IsVictim(s, hand, f) && IsVictim(s, hand, g)
    ensures f == g
  {
  }

  class ClockReplacer {
    const clock: array<Cell>
    var hand: nat
    var size: nat

    ghost predicate Valid()
      reads this, clock
    {
      && (hand < clock.Length || clock.Length == 0 == hand)
      && size == |PresentSet(clock[..])|
    }

    constructor (numPages: nat)
      ensures Valid() && fresh(clock) && clock.Length == numPages
      ensures PresentSet(clock[..]) == {}
    {
      clock := new Cell[numPages](_ => Cell(false, false));
      hand, size := 0, 0;
      new;
      assert PresentSet(clock[..]) == {};
    }

    /** The loop has no exit condition of its own; it ends within two sweeps. */
    method Victim() returns (found: bool, frame: nat)
      requires Valid()
      modifies this, clock
      ensures Valid()
      ensures found <==> old(PresentSet(clock[..])) != {}
      ensures !found ==> clock[..] == old(clock[..]) && hand == old(hand)
      ensures found ==> IsVictim(old(clock[..]), old(hand), frame)
      ensures found ==> Swept(old(clock[..]), old(hand), frame, clock[..]) && hand == frame
      ensures found ==> PresentSet(clock[..]) == old(PresentSet(clock[..])) - {frame}
    {
      hide PresentSet, IsVictim, Swept, Sweeping;
      if size == 0 {
        return false, 0;
      }
      ghost var s, h := clock[..], hand;
      ghost var i := 0;
      NotEmpty(s);
      while true
        invariant h < |s| == clock.Length && 0 <= i < 2 * |s| && hand == At(h, i, |s|)
        invariant Sweeping(s, h, i, clock[..])
        invariant size == |PresentSet(s)|
        decreases 2 * clock.Length - i
      {
        ghost var t := clock[..];
        if clock[hand].present {
          if clock[hand].referenced {
            clock[hand] := Cell(true, false);
          } else {
            frame := hand;
            clock[hand] := Cell(false, clock[hand].referenced);
            FoundVictim(s, h, i, t);
            TakenVictim(s, h, t, frame);
            assert clock[..] == t[frame := Cell(false, false)];
            size := size - 1;
            return true, frame;
          }
        }
        SweepStep(s, h, i, t);
        assert clock[..] == if t[hand].present then t[hand := Cell(true, false)] else t;
        hand := hand + 1;
        if hand == clock.Length {
          hand := 0;
        }
        i := i + 1;
      }
    }

    method Pin(frame: nat)
      requires Valid() && frame < clock.Length
      modifies this, clock
      ensures Valid() && hand == old(hand)
      ensures clock[..] == old(clock[..])[frame := Cell(false, false)]
      ensures PresentSet(clock[..]) == old(PresentSet(clock[..])) - {frame}
    {
      ghost var s := clock[..];
      if clock[frame].present {
        assert frame in PresentSet(s);
        clock[frame] := Cell(false, clock[frame].referenced);
        size := size - 1;
      }
      clock[frame] := Cell(clock[frame].present, false);
      assert clock[..] == s[frame := Cell(false, false)];
      assert PresentSet(clock[..]) == PresentSet(s) - {frame};
    }

    method Unpin(frame: nat)
      requires Valid() && frame < clock.Length
      modifies this, clock
      ensures Valid() && hand == old(hand)
      ensures clock[..] == old(clock[..])[frame := Cell(true, true)]
      ensures PresentSet(clock[..]) == old(PresentSet(clock[..])) + {frame}
    {
      ghost var s := clock[..];
      if !clock[frame].present {
        clock[frame] := Cell(true, clock[frame].referenced);
        size := size + 1;
      }
      clock[frame] := Cell(clock[frame].present, true);
      assert clock[..] == s[frame := Cell(true, true)];
      assert PresentSet(clock[..]) == PresentSet(s) + {frame};
    }
  }

  /** The first `i` frames from the hand were passed: present ones were referenced and
      are not any more. */
  ghost predicate SweptTo(s: seq<Cell>, hand: nat, i: nat, t: seq<Cell>) {
    && |t| == |s| && hand < |s|
    && forall g: nat :: g < |s| ==>
         if Steps(hand, g, |s|) < i && s[g].present then s[g].referenced && t[g] == Cell(true, false) else t[g] == s[g]
  }

  ghost predicate NonePresentTo(s: seq<Cell>, hand: nat, i: nat) {
    hand < |s| && forall g: nat :: g < |s| && Steps(hand, g, |s|) < i ==> !s[g].present
  }

  /** Where the hand is after `i` steps. */
  function At(hand: nat, i: nat, n: nat): nat
    requires hand < n && i < 2 * n
  {
    if hand + i < n then hand + i else if hand + i < 2 * n then hand + i - n else hand + i - 2 * n
  }

  /** The loop invariant: a first sweep that clears, then a second that finds. */
  ghost predicate Sweeping(s: seq<Cell>, hand: nat, i: nat, t: seq<Cell>) {
    && hand < |s| == |t| && i < 2 * |s| && PresentSet(s) != {}
    && if i <= |s| then SweptTo(s, hand, i, t) else SweptTo(s, hand, |s|, t) && NonePresentTo(s, hand, i - |s|)
  }

  lemma NotEmpty(s: seq<Cell>)
    requires |PresentSet(s)| != 0
    ensures PresentSet(s) != {} && |s| > 0
    ensures forall hand: nat :: hand < |s| ==> Sweeping(s, hand, 0, s)
  {
    var g :| g in PresentSet(s);
  }

  /** Passing a frame that is absent or referenced. */
  lemma SweepStep(s: seq<Cell>, hand: nat, i: nat, t: seq<Cell>)
    requires Sweeping(s, hand, i, t) && !Idle(t, At(hand, i, |s|))
    ensures i + 1 < 2 * |s|
    ensures At(hand, i + 1, |s|) == if At(hand, i, |s|) + 1 == |s| then 0 else At(hand, i, |s|) + 1
    ensures var f := At(hand, i, |s|);
            Sweeping(s, hand, i + 1, if t[f].present then t[f := Cell(true, false)] else t)
  {
    var g :| g in PresentSet(s);
    assert Steps(hand, g, |s|) < |s|;
    assert Steps(hand, At(hand, i, |s|), |s|) == if i < |s| then i else i - |s|;
  }

  /** The hand finds a frame present and unreferenced after `i` steps. */
  lemma FoundVictim(s: seq<Cell>, hand: nat, i: nat, t: seq<Cell>)
    requires Sweeping(s, hand, i, t) && Idle(t, At(hand, i, |s|))
    ensures var f := At(hand, i, |s|);
            f < |t| && IsVictim(s, hand, f) && Swept(s, hand, f, t[f := Cell(false, false)])
  {
    var f := At(hand, i, |s|);
    assert Steps(hand, f, |s|) == if i < |s| then i else i - |s|;
    if i < |s| {
      assert Idle(s, f);
    } else {
      forall g: nat | g < |s|
        ensures !Idle(s, g)
      {
        assert Steps(hand, g, |s|) < |s|;
      }
    }
  }

  lemma TakenVictim(s: seq<Cell>, hand: nat, t: seq<Cell>, f: nat)
    requires IsVictim(s, hand, f) && |t| == |s| && Swept(s, hand, f, t[f := Cell(false, false)])
    ensures PresentSet(t[f := Cell(false, false)]) == PresentSet(s) - {f} && f in PresentSet(s)
    ensures |PresentSet(s)| == |PresentSet(t[f := Cell(false, false)])| + 1
  {
    var w := PresentSet(t[f := Cell(false, false)]);
    assert w == PresentSet(s) - {f};
  }
}
