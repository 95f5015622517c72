/** The frame watchdog and the degradation ladder: two accumulators over the same
    frames, each raising something under lateness and standing it down again. */
module WatchdogLadder {
  const CLEAR_AFTER_ON_TIME := 30
  const RUNG1_AFTER_LATE := 2
  const RUNG2_AFTER_LATE := 2
  const RESTORE_AFTER_ON_TIME := 30

  /** Those who may put the slate up, each for itself. */
  datatype Source = Held | Watchdog

  datatype Rung = Nominal | PreviewHalfRate | LoopsShed

  /** The watchdog's own counters, and what it shares: who holds the slate, and how
      often it tripped and cleared. */
  datatype Guard = Guard(misses: nat, tripped: bool, onTime: nat, sources: set<Source>, trips: nat, clears: nat)

  datatype Ladder = Ladder(rung: Rung, late: nat, onTime: nat, lateAtRung1: nat)

  datatype Health = Health(guard: Guard, ladder: Ladder)

  const FRESH := Health(Guard(0, false, 0, {}, 0, 0), Ladder(Nominal, 0, 0, 0))

  /** One frame's report to the watchdog: how many frames it missed. */
  function Reported(g: Guard, threshold: nat, missed: nat): Guard {
    if missed == 0 then
      if !g.tripped then g.(misses := 0)
      else if g.onTime + 1 < CLEAR_AFTER_ON_TIME then g.(misses := 0, onTime := g.onTime + 1)
      else Guard(0, false, 0, g.sources - {Watchdog}, g.trips, g.clears + 1)
    else if g.misses + missed > threshold && !g.tripped then
      Guard(g.misses + missed, true, 0, g.sources + {Watchdog}, g.trips + 1, g.clears)
    else
      g.(misses := g.misses + missed, onTime := 0)
  }

  function Climbed(l: Ladder, late: bool): Ladder {
    if late then
      match l.rung
      case Nominal =>
        if l.late + 1 >= RUNG1_AFTER_LATE then Ladder(PreviewHalfRate, l.late + 1, 0, 0)
        else l.(late := l.late + 1, onTime := 0)
      case PreviewHalfRate =>
        Ladder(if l.lateAtRung1 + 1 >= RUNG2_AFTER_LATE then LoopsShed else PreviewHalfRate,
               l.late + 1, 0, l.lateAtRung1 + 1)
      case LoopsShed => l.(late := l.late + 1, onTime := 0)
    else if l.onTime + 1 >= RESTORE_AFTER_ON_TIME then Ladder(Nominal, 0, l.onTime + 1, 0)
    else l.(late := 0, onTime := l.onTime + 1)
  }

  /** The end of a View frame: the watchdog hears it, and then the ladder. */
  function Ended(s: Health, threshold: nat, missed: nat): Health {
    Health(Reported(s.guard, threshold, missed), Climbed(s.ladder, missed > 0))
  }

  class EngineState {
    var sources: set<Source>
    var trips: nat
    var clears: nat
    var rung: Rung

    constructor ()
      ensures sources == {} && trips == 0 && clears == 0 && rung == Nominal
    {
      sources, trips, clears, rung := {}, 0, 0, Nominal;
    }
  }

  class FrameWatchdog {
    const state: EngineState
    const threshold: nat
    var consecutiveMisses: nat
    var tripped: bool
    var consecutiveOnTime: nat

    constructor (state: EngineState, threshold: nat)
      ensures this.state == state && this.threshold == threshold
      ensures Current() == Guard(0, false, 0, state.sources, state.trips, state.clears)
    {
      this.state, this.threshold := state, threshold;
      consecutiveMisses, tripped, consecutiveOnTime := 0, false, 0;
    }

    ghost function Current(): Guard
      reads this, state
    {
      Guard(consecutiveMisses, tripped, consecutiveOnTime, state.sources, state.trips, state.clears)
    }

    method ReportFrame(missed: nat)
      modifies this, state`sources, state`trips, state`clears
      ensures Current() == Reported(old(Current()), threshold, missed)
    {
      if missed == 0 {
        consecutiveMisses := 0;
        if tripped {
          consecutiveOnTime := consecutiveOnTime + 1;
          if consecutiveOnTime >= CLEAR_AFTER_ON_TIME {
            tripped := false;
            consecutiveOnTime := 0;
            state.sources := state.sources - {Watchdog};
            state.clears := state.clears + 1;
          }
        }
        return;
      }
      consecutiveOnTime := 0;
      consecutiveMisses := consecutiveMisses + missed;
      if consecutiveMisses > threshold && !tripped {
        tripped := true;
        state.sources := state.sources + {Watchdog};
        state.trips := state.trips + 1;
      }
    }
  }

  class Renderer {
    const state: EngineState
    const watchdog: FrameWatchdog
    var consecutiveLate: nat
    var consecutiveOnTime: nat
    var lateAtRung1: nat
    /** What each frame so far missed. */
    ghost var frames: seq<nat>

    ghost predicate Valid()
      reads this, state, watchdog, watchdog.state
    {
      watchdog.state == state && Current() == After(watchdog.threshold, frames)
    }

    constructor (threshold: nat)
      ensures Valid() && fresh(state) && fresh(watchdog) && watchdog.threshold == threshold && frames == []
    {
      var shared := new EngineState();
      state := shared;
      watchdog := new FrameWatchdog(shared, threshold);
      consecutiveLate, consecutiveOnTime, lateAtRung1, frames := 0, 0, 0, [];
    }

    ghost function Standing(): Ladder
      reads this, state
    {
      Ladder(state.rung, consecutiveLate, consecutiveOnTime, lateAtRung1)
    }

    ghost function Current(): Health
      reads this, state, watchdog, watchdog.state
    {
      Health(watchdog.Current(), Standing())
    }

    /** The end of a View frame that missed `missed`. Whatever the frames so far, the
        rung is the one they call for, and the watchdog holds the slate exactly
        while a late run past its threshold is unrecovered. */
    method EndFrame(missed: nat)
      requires Valid()
      modifies this, state, watchdog
      ensures Valid() && frames == old(frames) + [missed]
      ensures state.rung == CalledFor(frames)
      ensures Watchdog in state.sources <==> Unrecovered(frames, watchdog.threshold)
      ensures state.trips == state.clears + (if Watchdog in state.sources then 1 else 0)
    {
      hide Reported, Climbed, CalledFor, Unrecovered, OnTimeRun, LateRunSum;
      watchdog.ReportFrame(missed);
      UpdateRung(missed > 0);
      assert (frames + [missed])[..|frames|] == frames;
      frames := frames + [missed];
      CountersAlwaysMatch(watchdog.threshold, frames);
      SlateIsUpExactlyWhileUnrecovered(watchdog.threshold, frames);
      RungIsCalledFor(watchdog.threshold, frames);
    }

    method UpdateRung(isLate: bool)
      modifies this`consecutiveLate, this`consecutiveOnTime, this`lateAtRung1, state`rung
      ensures Standing() == Climbed(old(Standing()), isLate)
    {
      if isLate {
        consecutiveLate := consecutiveLate + 1;
        consecutiveOnTime := 0;
        if state.rung == Nominal && consecutiveLate >= RUNG1_AFTER_LATE {
          state.rung := PreviewHalfRate;
          lateAtRung1 := 0;
        } else if state.rung == PreviewHalfRate {
          lateAtRung1 := lateAtRung1 + 1;
          if lateAtRung1 >= RUNG2_AFTER_LATE {
            state.rung := LoopsShed;
          }
        }
      } else {
        consecutiveOnTime := consecutiveOnTime + 1;
        consecutiveLate := 0;
        if consecutiveOnTime >= RESTORE_AFTER_ON_TIME {
          state.rung := Nominal;
          lateAtRung1 := 0;
        }
      }
    }
  }

  // ---------------------------------------------------------------------
  // What the two owe the frames so far. `frames` lists what each missed.
  // ---------------------------------------------------------------------

  ghost function After(threshold: nat, frames: seq<nat>): Health
    decreases |frames|
  {
    if frames == [] then FRESH
    else Ended(After(threshold, frames[..|frames| - 1]), threshold, frames[|frames| - 1])
  }

  /** The length of the on-time run that ends here. */
  ghost function OnTimeRun(frames: seq<nat>): nat
    decreases |frames|
  {
    if frames == [] || frames[|frames| - 1] > 0 then 0 else 1 + OnTimeRun(frames[..|frames| - 1])
  }

  /** Frames missed over the unbroken run of late frames that ends here. */
  ghost function LateRunSum(frames: seq<nat>): nat
    decreases |frames|
  {
    if frames == [] || frames[|frames| - 1] == 0 then 0
    else LateRunSum(frames[..|frames| - 1]) + frames[|frames| - 1]
  }

  ghost function Lates(frames: seq<nat>): nat
    decreases |frames|
  {
    if frames == [] then 0
    else Lates(frames[..|frames| - 1]) + (if frames[|frames| - 1] > 0 then 1 else 0)
  }

  /** Nowhere after frame `k` have thirty consecutive frames been on time. */
  ghost predicate NoRecoverySince(frames: seq<nat>, k: nat) {
    forall m | k < m <= |frames| :: OnTimeRun(frames[..m]) < CLEAR_AFTER_ON_TIME
  }

  /** At frame `k` a late run had missed more than the threshold, and there has
      been no recovery since. */
  ghost predicate TrippedAt(frames: seq<nat>, threshold: nat, k: nat) {
    k < |frames| && LateRunSum(frames[..k + 1]) > threshold && NoRecoverySince(frames, k)
  }

  ghost predicate Unrecovered(frames: seq<nat>, threshold: nat) {
    exists k: nat :: TrippedAt(frames, threshold, k)
  }

  /** Frame `k` was the second late in a row, and no recovery since. */
  ghost predicate PressedAt(frames: seq<nat>, k: nat) {
    1 <= k < |frames| && frames[k - 1] > 0 && frames[k] > 0 && NoRecoverySince(frames, k)
  }

  /** The counters are what the frames say. */
  ghost predicate CountersMatch(s: Health, frames: seq<nat>) {
    && s.guard.misses == LateRunSum(frames)
    && s.ladder.onTime == OnTimeRun(frames)
    && (s.guard.tripped ==> s.guard.onTime == s.ladder.onTime < CLEAR_AFTER_ON_TIME)
    && (s.ladder.late > 0 <==> frames != [] && frames[|frames| - 1] > 0)
    && (s.ladder.rung == Nominal ==> s.ladder.late <= 1)
    && (s.ladder.rung != Nominal ==> s.ladder.onTime < RESTORE_AFTER_ON_TIME)
    && (Watchdog in s.guard.sources <==> s.guard.tripped)
    && s.guard.trips == s.guard.clears + (if s.guard.tripped then 1 else 0)
  }

  /** While the watchdog is tripped its on-time count is the ladder's; it holds the
      slate exactly then; and trips exceed clears by one exactly then. */
  lemma {:induction false} CountersAlwaysMatch(threshold: nat, frames: seq<nat>)
    ensures CountersMatch(After(threshold, frames), frames)
    decreases |frames|
  {
    if frames != [] {
      var earlier := frames[..|frames| - 1];
      CountersAlwaysMatch(threshold, earlier);
      assert frames[|frames| - 1] == 0 ==> OnTimeRun(frames) == 1 + OnTimeRun(earlier);
    }
  }

  lemma SinceExtends(frames: seq<nat>, missed: nat, k: nat)
    requires k < |frames|
    ensures NoRecoverySince(frames + [missed], k)
       <==> NoRecoverySince(frames, k) && OnTimeRun(frames + [missed]) < CLEAR_AFTER_ON_TIME
  {
    hide OnTimeRun;
    var longer := frames + [missed];
    assert longer[..|longer|] == longer;
    assert forall m | k < m <= |frames| :: longer[..m] == frames[..m];
    if NoRecoverySince(frames, k) && OnTimeRun(longer) < CLEAR_AFTER_ON_TIME {
      forall m | k < m <= |longer| ensures OnTimeRun(longer[..m]) < CLEAR_AFTER_ON_TIME {
        if m <= |frames| {
          assert OnTimeRun(frames[..m]) < CLEAR_AFTER_ON_TIME;
        }
      }
    }
    if NoRecoverySince(longer, k) {
      forall m | k < m <= |frames| ensures OnTimeRun(frames[..m]) < CLEAR_AFTER_ON_TIME {
        assert OnTimeRun(longer[..m]) < CLEAR_AFTER_ON_TIME;
      }
      assert OnTimeRun(longer[..|longer|]) < CLEAR_AFTER_ON_TIME;
    }
  }

  /** The slate is up exactly while some late run that passed the threshold has seen no
      thirty consecutive frames on time since: nothing else raises it or takes it down. */
  lemma {:induction false} SlateIsUpExactlyWhileUnrecovered(threshold: nat, frames: seq<nat>)
    ensures Watchdog in After(threshold, frames).guard.sources <==> Unrecovered(frames, threshold)
    decreases |frames|
  {
    CountersAlwaysMatch(threshold, frames);
    if frames != [] {
      var earlier, missed := frames[..|frames| - 1], frames[|frames| - 1];
      var before := After(threshold, earlier);
      SlateIsUpExactlyWhileUnrecovered(threshold, earlier);
      CountersAlwaysMatch(threshold, earlier);
      TripExtends(earlier, missed, threshold);
      assert frames == earlier + [missed];
    }
  }

  lemma TripExtends(frames: seq<nat>, missed: nat, threshold: nat)
    ensures Unrecovered(frames + [missed], threshold)
       <==> OnTimeRun(frames + [missed]) < CLEAR_AFTER_ON_TIME
            && (Unrecovered(frames, threshold) || LateRunSum(frames + [missed]) > threshold)
  {
    var longer := frames + [missed];
    assert longer[..|longer|] == longer && longer[..|frames|] == frames;
    forall k: nat | k < |frames|
      ensures TrippedAt(longer, threshold, k)
         <==> TrippedAt(frames, threshold, k) && OnTimeRun(longer) < CLEAR_AFTER_ON_TIME
    {
      SinceExtends(frames, missed, k);
      assert longer[..k + 1] == frames[..k + 1];
    }
    LastIsTheirs(longer);
    if k: nat :| TrippedAt(longer, threshold, k) {
      if k < |frames| {
        assert TrippedAt(frames, threshold, k);
      }
    }
    if LateRunSum(longer) > threshold {
      assert TrippedAt(longer, threshold, |frames|);
    }
    if OnTimeRun(longer) < CLEAR_AFTER_ON_TIME && Unrecovered(frames, threshold) {
      var k: nat :| TrippedAt(frames, threshold, k);
      assert TrippedAt(longer, threshold, k);
    }
  }

  lemma LastIsTheirs(frames: seq<nat>)
    requires frames != []
    ensures NoRecoverySince(frames, |frames| - 1) <==> OnTimeRun(frames) < CLEAR_AFTER_ON_TIME
  {
    assert frames[..|frames|] == frames;
  }

  /** A clear lands on the thirtieth on-time frame in a row, and the ladder is at
      nominal when that frame ends; while the slate is up and the ladder is not at
      nominal, neither stands down without the other. */
  lemma ClearsWithTheLadder(threshold: nat, frames: seq<nat>, missed: nat)
    ensures var before, after := After(threshold, frames), After(threshold, frames + [missed]);
            && (after.guard.clears > before.guard.clears ==>
                  after.ladder.rung == Nominal && OnTimeRun(frames + [missed]) == CLEAR_AFTER_ON_TIME)
            && (before.guard.tripped && before.ladder.rung != Nominal ==>
                  (after.guard.clears > before.guard.clears <==> after.ladder.rung == Nominal))
  {
    CountersAlwaysMatch(threshold, frames);
    CountersAlwaysMatch(threshold, frames + [missed]);
    assert (frames + [missed])[..|frames|] == frames;
  }

  /** Rung 2 is entered only from rung 1, and rung 1 only from nominal. */
  lemma RungsClimbInOrder(threshold: nat, frames: seq<nat>, missed: nat)
    ensures var before, after := After(threshold, frames).ladder.rung,
                                 After(threshold, frames + [missed]).ladder.rung;
            && (after == LoopsShed ==> before != Nominal)
            && (after == PreviewHalfRate ==> before != LoopsShed)
            && (after == Nominal && before != Nominal ==> OnTimeRun(frames + [missed]) == RESTORE_AFTER_ON_TIME)
  {
    CountersAlwaysMatch(threshold, frames);
    CountersAlwaysMatch(threshold, frames + [missed]);
    assert (frames + [missed])[..|frames|] == frames;
  }

  ghost predicate Pressed(frames: seq<nat>) { exists k: nat :: PressedAt(frames, k) }

  /** Frame `k` pressed, and two more late frames, not needing to be in a row,
      came after it. */
  ghost predicate ShedAt(frames: seq<nat>, k: nat) {
    PressedAt(frames, k) && Lates(frames[k + 1..]) >= RUNG2_AFTER_LATE
  }

  ghost predicate Sheds(frames: seq<nat>) { exists k: nat :: ShedAt(frames, k) }

  ghost function CalledFor(frames: seq<nat>): Rung {
    if Sheds(frames) then LoopsShed else if Pressed(frames) then PreviewHalfRate else Nominal
  }

  /** Frame `first` is where the ladder left nominal. */
  ghost predicate Since(l: Ladder, frames: seq<nat>, first: nat) {
    && PressedAt(frames, first)
    && (forall k: nat | PressedAt(frames, k) :: first <= k)
    && (l.rung == PreviewHalfRate ==> l.lateAtRung1 == Lates(frames[first + 1..]) < RUNG2_AFTER_LATE)
    && (l.rung == LoopsShed ==> Lates(frames[first + 1..]) >= RUNG2_AFTER_LATE)
  }

  lemma PressExtends(frames: seq<nat>, missed: nat, k: nat)
    ensures k < |frames| ==>
              (PressedAt(frames + [missed], k)
               <==> PressedAt(frames, k) && OnTimeRun(frames + [missed]) < CLEAR_AFTER_ON_TIME)
    ensures k == |frames| ==>
              (PressedAt(frames + [missed], k)
               <==> k >= 1 && frames[k - 1] > 0 && missed > 0)
  {
    var longer := frames + [missed];
    if k < |frames| {
      SinceExtends(frames, missed, k);
    } else if k == |frames| {
      LastIsTheirs(longer);
    }
  }

  lemma LatesExtend(frames: seq<nat>, missed: nat, k: nat)
    requires k < |frames|
    ensures Lates((frames + [missed])[k + 1..]) == Lates(frames[k + 1..]) + (if missed > 0 then 1 else 0)
  {
    var rest := (frames + [missed])[k + 1..];
    assert rest[..|rest| - 1] == frames[k + 1..] && rest[|rest| - 1] == missed;
  }

  /** The ladder stands off nominal exactly while some two late frames in a row
      have gone unrecovered; and it remembers the first such pair. */
  lemma {:induction false} LadderRemembers(threshold: nat, frames: seq<nat>) returns (first: nat)
    ensures After(threshold, frames).ladder.rung != Nominal <==> Pressed(frames)
    ensures Pressed(frames) ==> Since(After(threshold, frames).ladder, frames, first)
    decreases |frames|
  {
    if frames == [] {
      first := 0;
    } else {
      hide CountersMatch, Pressed, Since, Climbed;
      var earlier, missed := frames[..|frames| - 1], frames[|frames| - 1];
      var before := After(threshold, earlier);
      assert frames == earlier + [missed];
      assert After(threshold, frames).ladder == Climbed(before.ladder, missed > 0);
      first := LadderRemembers(threshold, earlier);
      CountersAlwaysMatch(threshold, earlier);
      if Pressed(earlier) {
        StaysPressed(before, earlier, missed, first);
      } else {
        first := |earlier|;
        BecomesPressed(before, earlier, missed);
      }
    }
  }

  lemma PressesExtend(frames: seq<nat>, missed: nat)
    ensures forall k: nat | PressedAt(frames + [missed], k) ::
              k == |frames| || (k < |frames| && PressedAt(frames, k))
  {
    forall k: nat | PressedAt(frames + [missed], k)
      ensures k == |frames| || (k < |frames| && PressedAt(frames, k))
    {
      PressExtends(frames, missed, k);
    }
  }

  lemma StaysPressed(s: Health, frames: seq<nat>, missed: nat, first: nat)
    requires CountersMatch(s, frames) && s.ladder.rung != Nominal && Since(s.ladder, frames, first)
    ensures var l, longer := Climbed(s.ladder, missed > 0), frames + [missed];
            && (l.rung != Nominal <==> Pressed(longer))
            && (Pressed(longer) ==> Since(l, longer, first))
  {
    hide NoRecoverySince, Lates;
    var l, longer := Climbed(s.ladder, missed > 0), frames + [missed];
    assert longer[..|frames|] == frames;
    assert OnTimeRun(longer) == l.onTime;
    PressesExtend(frames, missed);
    PressExtends(frames, missed, first);
    LatesExtend(frames, missed, first);
    if l.rung == Nominal {
      forall k: nat ensures !PressedAt(longer, k) {
        PressExtends(frames, missed, k);
      }
    }
  }

  lemma BecomesPressed(s: Health, frames: seq<nat>, missed: nat)
    requires CountersMatch(s, frames) && s.ladder.rung == Nominal && !Pressed(frames)
    ensures var l, longer := Climbed(s.ladder, missed > 0), frames + [missed];
            && (l.rung != Nominal <==> Pressed(longer))
            && (Pressed(longer) ==> Since(l, longer, |frames|))
  {
    hide NoRecoverySince, OnTimeRun, LateRunSum;
    var longer := frames + [missed];
    PressesExtend(frames, missed);
    PressExtends(frames, missed, |frames|);
    assert longer[|frames| + 1..] == [];
  }

  /** The rung is what the frames call for: nominal exactly when no two late frames
      in a row have gone unrecovered, and loops shed exactly when two more late
      frames followed such a pair. */
  lemma RungIsCalledFor(threshold: nat, frames: seq<nat>)
    ensures After(threshold, frames).ladder.rung == CalledFor(frames)
  {
    var first := LadderRemembers(threshold, frames);
    if k: nat :| ShedAt(frames, k) {
      assert Pressed(frames);
      LatesShrink(frames, first, k);
      assert ShedAt(frames, first);
    } else if Pressed(frames) {
      assert !ShedAt(frames, first);
    }
  }

  lemma {:induction false} LatesShrink(frames: seq<nat>, a: nat, b: nat)
    requires a <= b < |frames|
    ensures Lates(frames[b + 1..]) <= Lates(frames[a + 1..])
    decreases |frames|
  {
    var earlier, missed := frames[..|frames| - 1], frames[|frames| - 1];
    if b + 1 < |frames| {
      assert frames == earlier + [missed];
      LatesShrink(earlier, a, b);
      LatesExtend(earlier, missed, a);
      LatesExtend(earlier, missed, b);
    } else {
      assert frames[b + 1..] == [];
    }
  }
}
