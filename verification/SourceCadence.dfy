/** Playing a source at the house's rate: which of its frames each house frame shows,
    for clips and for loops, and how long each is held. */
module SourceCadence {
  import opened Common
  import opened IntFacts

  const TWO_64 := 0x1_0000_0000_0000_0000

  /** The source frame at an offset in house frames, negative before a loop starts; a
      zero or equal rate leaves the offset as it is. */
  function SourceIndexAt(elapsed: int, source: nat, house: nat): int {
    if house == 0 || source == 0 || source == house then elapsed
    else Floor(elapsed * source, house)
  }

  /** House frames a clip of `n` source frames covers. */
  function Span(n: int, source: nat, house: nat): int {
    if house == 0 || source == 0 then n else Ceil(n * house, source)
  }

  /** The index narrows to 64 bits before it is compared with the clip's length. */
  function ClipSourceIndex(master: nat, start: nat, n: nat, source: nat, house: nat): Option<nat> {
    if n == 0 || master < start then None
    else
      var index := SourceIndexAt(master - start, source, house);
      if index >= 0 && index % TWO_64 < n then Some(index % TWO_64) else None
  }

  function LoopSourceIndex(master: nat, t0: nat, period: nat, source: nat, house: nat): Option<nat> {
    if period == 0 then None
    else Some(SourceIndexAt(master - t0, source, house) % period)
  }

  // ---------------------------------------------------------------------
  // Clips and loops.
  // ---------------------------------------------------------------------

  /** The source has reached frame `q` exactly from house frame `Span(q)` on. */
  lemma ReachesFrom(elapsed: int, q: int, source: nat, house: nat)
    ensures q <= SourceIndexAt(elapsed, source, house) <==> Span(q, source, house) <= elapsed
  {
    if house > 0 && source > 0 {
      FloorReaches(elapsed, q, source, house);
      if source == house {
        AtMostCeil(q * house, source, elapsed);
        if q <= elapsed {
          MulMono(q, elapsed, house);
        } else {
          MulMono(elapsed + 1, q, house);
          assert (elapsed + 1) * house == elapsed * house + house;
        }
      }
    }
  }

  /** The clip covers `Span(n)` house frames from its start, no more and no fewer,
      showing at each the source frame due. */
  ghost predicate PlaysItsSpan(master: nat, start: nat, n: nat, source: nat, house: nat) {
    ClipSourceIndex(master, start, n, source, house)
    == if start <= master && master - start < Span(n, source, house)
       then Some(var i := SourceIndexAt(master - start, source, house); if i < 0 then 0 else i)
       else None
  }

  /** Every frame plays its span, but for those whose index passes 64 bits and
      wraps back inside the clip. */
  lemma ClipPlaysItsSpanUnlessWrapped(master: nat, start: nat, n: nat, source: nat, house: nat)
    requires n < TWO_64
    ensures PlaysItsSpan(master, start, n, source, house)
       <==> !(start <= master && SourceIndexAt(master - start, source, house) >= TWO_64
              && SourceIndexAt(master - start, source, house) % TWO_64 < n)
  {
    if start <= master {
      var elapsed := master - start;
      ReachesFrom(elapsed, 0, source, house);
      ReachesFrom(elapsed, n, source, house);
      SpanOfNothing(source, house);
    }
  }

  lemma SpanOfNothing(source: nat, house: nat)
    ensures Span(0, source, house) == 0
  {
    if house > 0 && source > 0 {
      assert 0 * house == 0;
      AtMostCeil(0, source, 0);
      AtMostCeil(0, source, -1);
    }
  }

  /** A source no faster than the house never wraps: for it every 64-bit master
      frame plays its span. */
  lemma SlowSourcesNeverWrap(master: nat, start: nat, n: nat, source: nat, house: nat)
    requires n < TWO_64 && master < TWO_64 && source <= house
    ensures PlaysItsSpan(master, start, n, source, house)
  {
    if start <= master {
      var elapsed := master - start;
      if house > 0 && source > 0 && source != house {
        MulMono(source, house, elapsed);
        AtLeastFloor(elapsed * source, house, TWO_64);
        MulMono(elapsed + 1, TWO_64, house);
        assert (elapsed + 1) * house == elapsed * house + house;
      }
    }
    ClipPlaysItsSpanUnlessWrapped(master, start, n, source, house);
  }

  /** A faster source can wrap: a one-frame clip at twice the house rate shows its
      frame again at master frame 2^63. */
  lemma FastSourceWraps()
    ensures ClipSourceIndex(0x8000_0000_0000_0000, 0, 1, 2, 1) == Some(0)
    ensures !PlaysItsSpan(0x8000_0000_0000_0000, 0, 1, 2, 1)
  {
  }

  /** A loop plays its frames in order, lap after lap: it shows frame `i` exactly while
      the source, run on without end, is at frame `i` of some lap. */
  lemma LoopPlaysInOrder(master: nat, t0: nat, period: nat, source: nat, house: nat, i: nat)
    ensures LoopSourceIndex(master, t0, period, source, house) == Some(i)
       <==> i < period && exists lap: int :: OnLap(master - t0, lap * period + i, source, house)
  {
    hide SourceIndexAt, OnLap;
    if period > 0 {
      var e := master - t0;
      var index := SourceIndexAt(e, source, house);
      var lap := LapOf(index, period);
      PlaysAlone(e, lap * period + index % period, source, house);
      forall lap: int | i < period && OnLap(e, lap * period + i, source, house)
        ensures index % period == i
      {
        PlaysAlone(e, lap * period + i, source, house);
        InLap(lap, period, i);
      }
    }
  }

  lemma PlaysAlone(e: int, q: int, source: nat, house: nat)
    ensures OnLap(e, q, source, house) <==> SourceIndexAt(e, source, house) == q
  {
    hide SourceIndexAt, Span;
    ReachesFrom(e, q, source, house);
    ReachesFrom(e, q + 1, source, house);
  }

  lemma LapOf(index: int, period: nat) returns (lap: int)
    requires period > 0
    ensures lap * period + index % period == index
  {
    lap := index / period;
  }

  lemma InLap(lap: int, period: nat, i: nat)
    requires i < period
    ensures (lap * period + i) % period == i
  {
    SameModulo(i, lap, period);
  }

  /** House frame `elapsed` falls while source frame `q` plays. */
  ghost predicate OnLap(elapsed: int, q: int, source: nat, house: nat) {
    Span(q, source, house) <= elapsed < Span(q + 1, source, house)
  }

  /** Nothing marks a loop's boundary: `laps` periods of house frames later, or
      earlier, before the loop's start or after it, the index is the same. */
  lemma LoopRepeats(master: nat, later: nat, t0: nat, period: nat, source: nat, house: nat, laps: nat)
    requires later == master + laps * period * house
    ensures LoopSourceIndex(later, t0, period, source, house) == LoopSourceIndex(master, t0, period, source, house)
  {
    hide SourceIndexAt;
    if period > 0 {
      var k := IndexShifts(master - t0, later - t0, period, source, house, laps);
      SameModulo(SourceIndexAt(master - t0, source, house), k, period);
    }
  }

  /** Shifting by periods of house frames shifts the index by whole periods. */
  lemma IndexShifts(e: int, later: int, period: nat, source: nat, house: nat, laps: nat) returns (k: nat)
    requires later == e + laps * period * house
    ensures SourceIndexAt(later, source, house) == SourceIndexAt(e, source, house) + k * period
  {
    var lap := laps * period;
    if house == 0 || source == 0 || source == house {
      k := laps * house;
      assert lap * house == k * period;
    } else {
      k := laps * source;
      assert (e + lap * house) * source == e * source + (lap * source) * house by {
        assert (lap * house) * source == (lap * source) * house;
      }
      FloorShifts(e * source, lap * source, house);
      assert lap * source == k * period;
    }
  }

  lemma SameModulo(n: int, k: int, d: nat)
    requires d > 0
    ensures (n + k * d) % d == n % d
  {
    FloorShifts(n, k, d);
    assert n == Floor(n, d) * d + n % d;
    assert n + k * d == Floor(n + k * d, d) * d + (n + k * d) % d;
    assert (Floor(n, d) + k) * d == Floor(n, d) * d + k * d;
  }

  // ---------------------------------------------------------------------
  // Hold patterns.
  // ---------------------------------------------------------------------

  /** The source index at each of the first `frames` house frames. */
  function CadencePattern(source: nat, house: nat, frames: nat): seq<nat> {
    if source == 0 || house == 0 then []
    else seq(frames, f requires 0 <= f < frames => PatternAt(source, house, f))
  }

  function PatternAt(source: nat, house: nat, f: nat): nat {
    var i := SourceIndexAt(f, source, house);
    if i < 0 then 0 else i % TWO_64
  }

  function Sum(holds: seq<nat>): nat {
    if holds == [] then 0 else Sum(holds[..|holds| - 1]) + holds[|holds| - 1]
  }

  /** Where hold `j` starts. */
  function StartOf(holds: seq<nat>, j: nat): nat
    requires j <= |holds|
  {
    Sum(holds[..j])
  }

  /** `holds` are the lengths of the pattern's maximal runs, in order. */
  ghost predicate RunLengths(pattern: seq<nat>, holds: seq<nat>) {
    Sum(holds) == |pattern| && forall j | 0 <= j < |holds| :: RunAt(pattern, holds, j)
  }

  ghost predicate RunAt(pattern: seq<nat>, holds: seq<nat>, j: nat)
    requires j < |holds|
  {
    var start := StartOf(holds, j);
    && holds[j] > 0 && start + holds[j] <= |pattern|
    && (forall p | start <= p < start + holds[j] :: pattern[p] == pattern[start])
    && (start > 0 ==> pattern[start - 1] != pattern[start])
  }

  lemma RunsAppend(pattern: seq<nat>, holds: seq<nat>, run: nat, longer: seq<nat>)
    requires RunLengths(pattern, holds) && run > 0
    requires |longer| == |pattern| + run && longer[..|pattern|] == pattern
    requires forall p | |pattern| <= p < |longer| :: longer[p] == longer[|pattern|]
    requires |pattern| > 0 ==> longer[|pattern| - 1] != longer[|pattern|]
    ensures RunLengths(longer, holds + [run])
  {
    var all := holds + [run];
    assert all[..|holds|] == holds;
    assert Sum(all) == Sum(holds) + run;
    forall j | 0 <= j < |all|
      ensures RunAt(longer, all, j)
    {
      assert all[..j] == holds[..j];
      if j < |holds| {
        assert RunAt(pattern, holds, j);
        forall p | 0 <= p < |pattern| ensures longer[p] == pattern[p] {
          assert longer[..|pattern|][p] == pattern[p];
        }
      } else {
        assert holds[..j] == holds;
      }
    }
  }

  method CadenceHolds(pattern: seq<nat>) returns (holds: seq<nat>)
    ensures RunLengths(pattern, holds)
  {
    holds := [];
    var current: Option<nat> := None;
    var run := 0;
    for i := 0 to |pattern|
      invariant run <= i && (current.None? <==> i == 0) && (current.None? <==> run == 0)
      invariant RunLengths(pattern[..i - run], holds)
      invariant forall p | i - run <= p < i :: pattern[p] == current.value
      invariant 0 < i - run ==> i - run < i && pattern[i - run - 1] != current.value
    {
      var index := pattern[i];
      match current {
        case Some(c) =>
          if c == index {
            run := run + 1;
          } else {
            RunsAppend(pattern[..i - run], holds, run, pattern[..i]);
            holds := holds + [run];
            run := 1;
            current := Some(index);
          }
        case None =>
          run := 1;
          current := Some(index);
      }
    }
    assert pattern[..|pattern|] == pattern;
    if run > 0 {
      RunsAppend(pattern[..|pattern| - run], holds, run, pattern);
      holds := holds + [run];
    }
  }

  lemma StartsAdd(holds: seq<nat>, j: nat)
    requires j < |holds|
    ensures StartOf(holds, j + 1) == StartOf(holds, j) + holds[j]
  {
    assert holds[..j + 1][..j] == holds[..j];
  }

  lemma {:induction false} StartsWithin(holds: seq<nat>, j: nat)
    requires j <= |holds|
    ensures StartOf(holds, j) <= Sum(holds)
    decreases |holds| - j
  {
    if j < |holds| {
      StartsAdd(holds, j);
      StartsWithin(holds, j + 1);
    } else {
      assert holds[..j] == holds;
    }
  }

  /** Hold `j` is source frame `j`'s, from the first house frame that reaches it. */
  lemma {:induction false} HoldStarts(source: nat, house: nat, frames: nat, holds: seq<nat>, j: nat)
    requires 0 < source <= house && frames < TWO_64
    requires RunLengths(CadencePattern(source, house, frames), holds) && j < |holds|
    ensures StartOf(holds, j) == Span(j, source, house)
    ensures StartOf(holds, j) < frames && CadencePattern(source, house, frames)[StartOf(holds, j)] == j
  {
    var pattern := CadencePattern(source, house, frames);
    var start := StartOf(holds, j);
    assert RunAt(pattern, holds, j);
    PatternIsIndex(source, house, start);
    if j == 0 {
      SpanOfNothing(source, house);
      ReachesFrom(0, 0, source, house);
      ReachesFrom(0, 1, source, house);
      FirstFrame(source, house);
    } else {
      var before := StartOf(holds, j - 1);
      HoldStarts(source, house, frames, holds, j - 1);
      StartsAdd(holds, j - 1);
      assert RunAt(pattern, holds, j - 1);
      PatternIsIndex(source, house, start - 1);
      assert pattern[start - 1] == j - 1;
      ReachesFrom(start - 1, j - 1, source, house);
      ReachesFrom(start - 1, j, source, house);
      ReachesFrom(start, j - 1, source, house);
      ReachesFrom(start, j, source, house);
      ReachesFrom(start, j + 1, source, house);
      SpanStep(j, source, house);
    }
  }

  lemma PatternIsIndex(source: nat, house: nat, f: nat)
    requires 0 < source <= house && f < TWO_64
    ensures PatternAt(source, house, f) == SourceIndexAt(f, source, house)
  {
    if source != house {
      MulMono(source, house, f);
      AtLeastFloor(f * source, house, TWO_64);
      AtLeastFloor(f * source, house, 0);
      MulMono(f + 1, TWO_64, house);
      assert (f + 1) * house == f * house + house;
    }
  }

  lemma FirstFrame(source: nat, house: nat)
    requires 0 < source <= house
    ensures SourceIndexAt(0, source, house) == 0
  {
    assert 0 * source == 0;
  }

  /** A source frame is held `house / source` frames, rounded down or up. */
  lemma SpanStep(j: nat, source: nat, house: nat)
    requires 0 < source <= house
    ensures var held := Span(j + 1, source, house) - Span(j, source, house);
            Floor(house, source) <= held <= Ceil(house, source) && 1 <= held
  {
    var c, d := Span(j, source, house), Span(j + 1, source, house);
    assert (j + 1) * house == j * house + house;
    CeilBounds(j * house, source);
    CeilBounds((j + 1) * house, source);
    var held := d - c;
    assert held * source == d * source - c * source;
    assert (held + 1) * source == held * source + source;
    assert (held - 1) * source == held * source - source;
    AtLeastFloor(house, source, held + 1);
    FloorBelow(house, source, held + 1);
    AtMostCeil(house, source, held - 1);
    AtLeastFloor(house, source, 1);
  }

  lemma FloorBelow(n: int, d: nat, q: int)
    requires d > 0 && q * d > n
    ensures Floor(n, d) < q
  {
    AtLeastFloor(n, d, q);
  }

  /** The holds sum to the house frames, expand to the pattern, and for a source
      no faster than the house each but the last is the rate ratio rounded down
      or up, and no source frame is skipped. */
  lemma HoldsAreEven(source: nat, house: nat, frames: nat, holds: seq<nat>, j: nat)
    requires 0 < source <= house && frames < TWO_64
    requires RunLengths(CadencePattern(source, house, frames), holds) && j < |holds|
    ensures Sum(holds) == frames
    ensures StartOf(holds, j) == Span(j, source, house)
    ensures j + 1 < |holds| ==>
              holds[j] == Floor(house, source) || holds[j] == Ceil(house, source)
    ensures holds[j] <= Ceil(house, source)
  {
    HoldStarts(source, house, frames, holds, j);
    assert RunAt(CadencePattern(source, house, frames), holds, j);
    SpanStep(j, source, house);
    FloorAndCeil(house, source);
    if j + 1 < |holds| {
      HoldStarts(source, house, frames, holds, j + 1);
      StartsAdd(holds, j);
    } else {
      LastHold(source, house, frames, holds, j);
    }
  }

  /** Within hold `j` every house frame shows source frame `j`. */
  lemma HoldShows(source: nat, house: nat, frames: nat, holds: seq<nat>, j: nat, p: nat)
    requires 0 < source <= house && frames < TWO_64
    requires RunLengths(CadencePattern(source, house, frames), holds) && j < |holds|
    requires StartOf(holds, j) <= p < StartOf(holds, j) + holds[j]
    ensures p < frames && PatternAt(source, house, p) == j
  {
    HoldStarts(source, house, frames, holds, j);
    var pattern := CadencePattern(source, house, frames);
    hide PatternAt, StartOf;
    assert RunAt(pattern, holds, j);
    assert pattern[p] == pattern[StartOf(holds, j)];
  }

  lemma LastHold(source: nat, house: nat, frames: nat, holds: seq<nat>, j: nat)
    requires 0 < source <= house && frames < TWO_64
    requires RunLengths(CadencePattern(source, house, frames), holds) && j < |holds|
    ensures StartOf(holds, j) + holds[j] <= Span(j + 1, source, house)
  {
    hide Span, PatternAt, StartOf, CadencePattern;
    var end := StartOf(holds, j) + holds[j] - 1;
    assert RunAt(CadencePattern(source, house, frames), holds, j);
    HoldShows(source, house, frames, holds, j, end);
    IsBefore(source, house, end, j);
  }

  lemma IsBefore(source: nat, house: nat, f: nat, j: nat)
    requires 0 < source <= house && f < TWO_64 && PatternAt(source, house, f) == j
    ensures f < Span(j + 1, source, house)
  {
    PatternIsIndex(source, house, f);
    ReachesFrom(f, j + 1, source, house);
  }

  /** Every source frame the pattern reaches has its hold. */
  lemma OneHoldPerSourceFrame(source: nat, house: nat, frames: nat, holds: seq<nat>)
    requires 0 < source <= house && 0 < frames < TWO_64
    requires RunLengths(CadencePattern(source, house, frames), holds)
    ensures |holds| == SourceIndexAt(frames - 1, source, house) + 1
  {
    assert |CadencePattern(source, house, frames)| == frames;
    assert holds != [];
    var j := |holds| - 1;
    StartsAdd(holds, j);
    assert holds[..j + 1] == holds;
    hide CadencePattern, PatternAt, StartOf;
    assert RunAt(CadencePattern(source, house, frames), holds, j);
    HoldShows(source, house, frames, holds, j, frames - 1);
    PatternIsIndex(source, house, frames - 1);
  }

  lemma FloorAndCeil(n: int, d: nat)
    requires d > 0
    ensures Floor(n, d) <= Ceil(n, d) <= Floor(n, d) + 1
  {
    FloorBounds(n, d);
    CeilBounds(n, d);
    AtMostCeil(n, d, Floor(n, d) + 1);
    AtMostCeil(n, d, Floor(n, d) - 1);
    assert (Floor(n, d) + 1) * d == Floor(n, d) * d + d;
    assert (Floor(n, d) - 1) * d == Floor(n, d) * d - d;
  }

  /** Twelve frames a second in a house of thirty: each frame's first house frame
      is the first that reaches it, so the longer hold comes first. */
  lemma TwelveInThirty(holds: seq<nat>)
    requires RunLengths(CadencePattern(12, 30, 10), holds)
    ensures holds == [3, 2, 3, 2]
  {
    OneHoldPerSourceFrame(12, 30, 10, holds);
    assert |holds| == 4;
    HoldStarts(12, 30, 10, holds, 1);
    HoldStarts(12, 30, 10, holds, 2);
    HoldStarts(12, 30, 10, holds, 3);
    StartsAdd(holds, 0);
    StartsAdd(holds, 1);
    StartsAdd(holds, 2);
    StartsAdd(holds, 3);
    assert holds[..4] == holds;
  }
}
