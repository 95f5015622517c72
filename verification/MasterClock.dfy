/** The master clock: which frame an instant belongs to, and the instant a frame
    begins. Instants are whole nanoseconds. */
module MasterClock {
  import opened Common
  import opened IntFacts

  const NS_PER_SECOND := 1000000000
  const U64_MAX := 0xFFFF_FFFF_FFFF_FFFF

  /** The clock's register, as one reading of it sees it. */
  datatype Clock = Stopped | Running(epoch: nat)

  /** Nanoseconds from the epoch to the start of frame `f`, rounded up. */
  function BoundaryNs(rate: nat, f: nat): (ns: nat)
  {
    var r := if rate == 0 then 1 else rate;
    CeilBounds(f * NS_PER_SECOND, r);
    Ceil(f * NS_PER_SECOND, r)
  }

  /** The instant frame `f` begins; `None` while stopped, or past what the
      duration's 64 bits hold. */
  function Boundary(rate: nat, clock: Clock, f: nat): Option<nat> {
    if clock.Stopped? || BoundaryNs(rate, f) > U64_MAX then None
    else Some(clock.epoch + BoundaryNs(rate, f))
  }

  /** Whole frames in `elapsed` nanoseconds. */
  function Frames(rate: nat, elapsed: nat): nat { elapsed * rate / NS_PER_SECOND }

  /** The frame at instant `now`; an instant before the epoch reads as the epoch. */
  function FrameAt(rate: nat, clock: Clock, now: nat): Option<nat> {
    if clock.Stopped? then None
    else
      var f := Frames(rate, if now < clock.epoch then 0 else now - clock.epoch);
      if f > U64_MAX then None else Some(f)
  }

  /** The two are adjoint: the clock has reached frame `f` exactly from its
      boundary on, whatever the rate. */
  lemma ReachedFromBoundary(rate: nat, f: nat, elapsed: nat)
    requires rate >= 1
    ensures f <= Frames(rate, elapsed) <==> BoundaryNs(rate, f) <= elapsed
  {
    FloorReaches(elapsed, f, rate, NS_PER_SECOND);
  }

  /** At rate zero the adjunction fails: the boundary divides by one, the frame
      multiplies by zero. So it holds exactly for the rates that tick. */
  lemma AdjointExactlyForTickingRates(rate: nat)
    ensures rate >= 1 <==> forall f: nat, elapsed: nat :: f <= Frames(rate, elapsed) <==> BoundaryNs(rate, f) <= elapsed
  {
    if rate >= 1 {
      forall f: nat, elapsed: nat
        ensures f <= Frames(rate, elapsed) <==> BoundaryNs(rate, f) <= elapsed
      {
        ReachedFromBoundary(rate, f, elapsed);
      }
    } else {
      assert Frames(rate, NS_PER_SECOND) == 0 && BoundaryNs(rate, 1) == NS_PER_SECOND;
    }
  }

  /** At rates up to a frame a nanosecond, a boundary reads as its own frame, and the
      nanosecond preceding it as the frame before. */
  lemma NamesFrameFromItsBoundary(rate: nat, f: nat)
    requires 1 <= rate <= NS_PER_SECOND
    ensures Frames(rate, BoundaryNs(rate, f)) == f
    ensures f >= 1 ==> BoundaryNs(rate, f) >= 1 && Frames(rate, BoundaryNs(rate, f) - 1) == f - 1
  {
    var b := BoundaryNs(rate, f);
    BoundariesRise(rate, f);
    ReachedFromBoundary(rate, f, b);
    ReachedFromBoundary(rate, f + 1, b);
    if f >= 1 {
      BoundariesRise(rate, f - 1);
      ReachedFromBoundary(rate, f, b - 1);
      ReachedFromBoundary(rate, f - 1, b - 1);
    }
  }

  /** Boundaries are at least a nanosecond apart. */
  lemma BoundariesRise(rate: nat, f: nat)
    requires 1 <= rate <= NS_PER_SECOND
    ensures BoundaryNs(rate, f) < BoundaryNs(rate, f + 1)
  {
    var b := BoundaryNs(rate, f);
    CeilBounds(f * NS_PER_SECOND, rate);
    AtMostCeil((f + 1) * NS_PER_SECOND, rate, b);
  }

  /** Past a frame a nanosecond a boundary no longer names its own frame, so the
      round trip holds for every frame exactly up to that rate. */
  lemma RoundTripExactlyUpToNanosecondFrames(rate: nat)
    requires rate >= 1
    ensures rate <= NS_PER_SECOND <==> forall f: nat :: Frames(rate, BoundaryNs(rate, f)) == f
  {
    if rate <= NS_PER_SECOND {
      forall f: nat
        ensures Frames(rate, BoundaryNs(rate, f)) == f
      {
        NamesFrameFromItsBoundary(rate, f);
      }
    } else {
      // Frames `rate - 1` and `rate` begin in the same nanosecond.
      AtMostCeil((rate - 1) * NS_PER_SECOND, rate, NS_PER_SECOND);
      AtMostCeil((rate - 1) * NS_PER_SECOND, rate, NS_PER_SECOND - 1);
      AtMostCeil(rate * NS_PER_SECOND, rate, NS_PER_SECOND);
      AtMostCeil(rate * NS_PER_SECOND, rate, NS_PER_SECOND - 1);
      assert BoundaryNs(rate, rate - 1) == BoundaryNs(rate, rate);
    }
  }

  /** In every thousand million nanoseconds, `rate` frames begin. */
  lemma ASecondIsRateFrames(rate: nat, f: nat, elapsed: nat)
    requires rate >= 1
    ensures BoundaryNs(rate, f + rate) == BoundaryNs(rate, f) + 1000000000
    ensures Frames(rate, elapsed + 1000000000) == Frames(rate, elapsed) + rate
  {
    assert (f + rate) * NS_PER_SECOND == f * NS_PER_SECOND + NS_PER_SECOND * rate;
    CeilShifts(f * NS_PER_SECOND, NS_PER_SECOND, rate);
    assert (elapsed + NS_PER_SECOND) * rate == elapsed * rate + rate * NS_PER_SECOND;
    FloorShifts(elapsed * rate, rate, NS_PER_SECOND);
  }

  /** What a running clock reads against where its boundaries fall: it has reached
      frame `f` from that frame's boundary on, and frame 0 always. */
  lemma ClockReaches(rate: nat, epoch: nat, f: nat, now: nat)
    requires rate >= 1 && FrameAt(rate, Running(epoch), now).Some? && Boundary(rate, Running(epoch), f).Some?
    ensures f <= FrameAt(rate, Running(epoch), now).value
       <==> f == 0 || Boundary(rate, Running(epoch), f).value <= now
  {
    hide Frames, BoundaryNs;
    ReachedFromBoundary(rate, f, if now < epoch then 0 else now - epoch);
    if f == 0 {
      ReachedFromBoundary(rate, 0, 0);
    } else {
      ReachedFromBoundary(rate, f, 0);
      AfterTheEpoch(rate, f);
    }
  }

  lemma AfterTheEpoch(rate: nat, f: nat)
    requires rate >= 1 && f >= 1
    ensures BoundaryNs(rate, f) >= 1
  {
    AtMostCeil(f * NS_PER_SECOND, rate, 0);
  }

  /** Asked at its own boundary the clock names the frame, and a nanosecond sooner
      the frame before. */
  lemma ClockNamesFrame(rate: nat, epoch: nat, f: nat)
    requires 1 <= rate <= NS_PER_SECOND && f <= U64_MAX && Boundary(rate, Running(epoch), f).Some?
    ensures var b := Boundary(rate, Running(epoch), f).value;
            && b >= epoch && FrameAt(rate, Running(epoch), b) == Some(f)
            && (f >= 1 ==> b > epoch && FrameAt(rate, Running(epoch), b - 1) == Some(f - 1))
  {
    hide Frames, BoundaryNs;
    NamesFrameFromItsBoundary(rate, f);
  }

  class MasterClock {
    const houseRate: nat
    var clock: Clock

    constructor (houseRate: nat)
      ensures this.houseRate == houseRate && clock == Stopped
    {
      this.houseRate, clock := houseRate, Stopped;
    }

    /** Starting a running clock leaves its epoch alone. */
    method Start(now: nat)
      modifies this
      ensures clock == if old(clock).Stopped? then Running(now) else old(clock)
    {
      if clock.Stopped? {
        clock := Running(now);
      }
    }

    method Stop()
      modifies this
      ensures clock == Stopped
    {
      clock := Stopped;
    }
  }
}
