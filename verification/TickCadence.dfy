/** The render loop's accounts: which frames it draws as the clock runs, what it
    counts as lost, and which of those losses reach the log. */
module TickCadence {
  import opened Common
  import opened MasterClock
  import opened DropAccount
  import opened LineBudgets

  /** One counting of dropped frames: `n` of them, bringing the counter to
      `total`; the line that names them, and whether the budget let it through. */
  datatype DropEvent = DropEvent(n: nat, total: nat, line: Line, emitted: bool) {
    ghost predicate Ok() {
      && 1 <= n <= total && Readable(line) && First(line) == total - n + 1 && Last(line) == total
    }

    predicate Covers(c: int) { total - n < c <= total }
  }

  /** The events' counts follow one another from nothing to `total`. */
  ghost predicate Chain(events: seq<DropEvent>, total: nat) {
    if events == [] then total == 0
    else
      var e := events[|events| - 1];
      e.Ok() && e.total == total && Chain(events[..|events| - 1], total - e.n)
  }

  /** The lines let through, in order. */
  function Emitted(events: seq<DropEvent>): seq<Line> {
    if events == [] then []
    else
      var e := events[|events| - 1];
      Emitted(events[..|events| - 1]) + (if e.emitted then [e.line] else [])
  }

  ghost predicate Suppressed(events: seq<DropEvent>, c: int) {
    exists e <- events :: e.Covers(c) && !e.emitted
  }

  /** The event that counted `c`. */
  ghost function CountedBy(events: seq<DropEvent>, total: nat, c: int): (e: DropEvent)
    requires Chain(events, total) && 0 < c <= total
    ensures e in events && e.Covers(c)
    ensures forall d <- events :: d.Covers(c) ==> d == e
  {
    var last, rest := events[|events| - 1], events[..|events| - 1];
    assert events == rest + [last];
    ChainBounds(rest, total - last.n);
    if last.Covers(c) then last else CountedBy(rest, total - last.n, c)
  }

  lemma {:induction false} ChainBounds(events: seq<DropEvent>, total: nat)
    requires Chain(events, total)
    ensures forall e <- events, c :: e.Covers(c) ==> 0 < c <= total
  {
    if events != [] {
      var last, rest := events[|events| - 1], events[..|events| - 1];
      assert events == rest + [last];
      ChainBounds(rest, total - last.n);
    }
  }

  /** A count is explained by its own event's line, exactly when that line was let
      through; a number that is no count, by none. */
  lemma {:induction false} ExplainedByOwnLine(events: seq<DropEvent>, total: nat, c: int)
    requires Chain(events, total)
    ensures Explanation(Emitted(events), c)
         == if 0 < c <= total && CountedBy(events, total, c).emitted
            then Some(CountedBy(events, total, c).line) else None
  {
    if events != [] {
      var last, rest := events[|events| - 1], events[..|events| - 1];
      ExplainedByOwnLine(rest, total - last.n, c);
      if last.emitted {
        var lines := Emitted(events);
        assert lines[..|lines| - 1] == Emitted(rest);
        assert lines[|lines| - 1] == last.line;
      } else {
        assert Emitted(events) == Emitted(rest);
      }
    }
  }

  /** Counting and logging agree end to end: read against the lines the engine
      wrote, the unexplained counts of a step are exactly those whose line the
      budget suppressed, and every other count is placed by its own line. */
  lemma AccountAgreesWithLog(events: seq<DropEvent>, total: nat, before: nat, after: nat, houseRate: real, a: Account)
    requires houseRate > 0.0 && Chain(events, total) && before <= after <= total
    requires Accounts(a, Emitted(events), before, after, houseRate)
    ensures forall c :: c in a.unexplained <==> before < c <= after && Suppressed(events, c)
    ensures forall c :: before < c <= after && CountedBy(events, total, c).emitted ==>
              var line := Some(CountedBy(events, total, c).line);
              (c in a.tied <==> TiedBy(line, houseRate)) && (c in a.untied <==> !TiedBy(line, houseRate))
  {
    ChainOk(events, total);
    forall c
      ensures c in a.unexplained <==> before < c <= after && Suppressed(events, c)
      ensures before < c <= after && CountedBy(events, total, c).emitted ==>
                var line := Some(CountedBy(events, total, c).line);
                (c in a.tied <==> TiedBy(line, houseRate)) && (c in a.untied <==> !TiedBy(line, houseRate))
    {
      ExplainedByOwnLine(events, total, c);
      assert Placed(a, Emitted(events), before, after, houseRate, c);
      if 0 < c <= total {
        var e := CountedBy(events, total, c);
      }
    }
  }

  lemma {:induction false} ChainOk(events: seq<DropEvent>, total: nat)
    requires Chain(events, total)
    ensures forall e <- events :: e.Ok()
  {
    if events != [] {
      var last, rest := events[|events| - 1], events[..|events| - 1];
      assert events == rest + [last];
      ChainOk(rest, total - last.n);
    }
  }

  // ---------------------------------------------------------------------
  // The loop.
  // ---------------------------------------------------------------------

  function Interval(lo: nat, hi: nat): (s: set<nat>)
    requires lo <= hi + 1
    ensures forall f: nat :: f in s <==> lo <= f <= hi
    ensures |s| == hi - lo + 1
    decreases hi - lo + 1
  {
    if lo == hi + 1 then {} else {lo} + Interval(lo + 1, hi)
  }

  lemma IntervalGrows(drawn: set<nat>, skipped: set<nat>, first: nat, from: nat, f: nat)
    requires first <= from < f && drawn !! skipped && drawn + skipped == Interval(first, from)
    ensures var d, s := drawn + {f}, skipped + Interval(from + 1, f - 1);
            && f !in drawn && d !! s && d + s == Interval(first, f)
            && |s| == |skipped| + (f - from - 1)
  {
    hide Interval;
    var passed := Interval(from + 1, f - 1);
    assert forall x <- skipped :: x in drawn + skipped;
    assert forall x <- drawn :: x in drawn + skipped;
    assert skipped !! passed;
    assert |skipped + passed| == |skipped| + |passed|;
    forall x: nat
      ensures x in drawn + {f} + (skipped + passed) <==> x in Interval(first, f)
    {
      assert x in drawn + skipped <==> first <= x <= from;
    }
  }

  datatype Reading = Reading(epoch: nat, frame: nat)

  /** One run of the clock: its frames so far, drawn, passed over, and drawn but
      submitted late; and the counters when it began. */
  datatype Run = Run(
    first: nat, drawn: set<nat>, skipped: set<nat>, late: set<nat>, skippedBefore: nat, droppedBefore: nat)

  /** Within the run every frame from the first drawn to the last was drawn once or
      passed over once, and each drop was counted once: a frame passed over, or one
      drawn and submitted late. */
  ghost predicate RunHolds(run: Run, r: Option<Reading>, skipped: nat, dropped: nat) {
    r.Some? ==>
      && run.first <= r.value.frame && r.value.frame in run.drawn && run.first in run.drawn
      && run.drawn !! run.skipped && run.drawn + run.skipped == Interval(run.first, r.value.frame)
      && run.late <= run.drawn
      && skipped - run.skippedBefore == |run.skipped|
      && dropped - run.droppedBefore == |run.skipped| + |run.late|
  }

  /** The run once the frame `r` reads is drawn: the same run grown, or a new one
      begun with the counters as they stand. */
  ghost function RunWith(run: Run, was: Option<Reading>, r: Option<Reading>, skipped: nat, dropped: nat): Run {
    if r.None? then run
    else if SameRun(was, r) && was.value.frame < r.value.frame then
      run.(drawn := run.drawn + {r.value.frame},
           skipped := run.skipped + Interval(was.value.frame + 1, r.value.frame - 1))
    else Run(r.value.frame, {r.value.frame}, {}, {}, skipped, dropped)
  }

  /** Frames passed over between one reading and the next: none across runs. */
  function Gap(was: Option<Reading>, r: Option<Reading>): nat {
    if SameRun(was, r) && was.value.frame + 1 < r.value.frame then r.value.frame - was.value.frame - 1 else 0
  }

  lemma GrownRunHolds(run: Run, was: Option<Reading>, r: Option<Reading>, skipped: nat, dropped: nat)
    requires RunHolds(run, was, skipped, dropped)
    requires SameRun(was, r) ==> was.value.frame < r.value.frame
    ensures var grown := RunWith(run, was, r, skipped, dropped);
            && RunHolds(grown, r, skipped + Gap(was, r), dropped + Gap(was, r))
            && (r.Some? ==> r.value.frame !in grown.late)
  {
    hide Interval, RunHolds;
    if SameRun(was, r) {
      LaterFrameHolds(run, was.value.epoch, was.value.frame, r.value.frame, skipped, dropped);
    } else if r.Some? {
      FirstFrameHolds(r.value, skipped, dropped);
    } else {
      NoReadingHolds(run, skipped, dropped);
    }
  }

  lemma NoReadingHolds(run: Run, skipped: nat, dropped: nat)
    ensures RunHolds(run, None, skipped, dropped)
  {
  }

  lemma FirstFrameHolds(r: Reading, skipped: nat, dropped: nat)
    ensures RunHolds(Run(r.frame, {r.frame}, {}, {}, skipped, dropped), Some(r), skipped, dropped)
  {
  }

  lemma LaterFrameHolds(run: Run, epoch: nat, from: nat, f: nat, skipped: nat, dropped: nat)
    requires RunHolds(run, Some(Reading(epoch, from)), skipped, dropped) && from < f
    ensures var passed := Interval(from + 1, f - 1);
            var grown := run.(drawn := run.drawn + {f}, skipped := run.skipped + passed);
            && RunHolds(grown, Some(Reading(epoch, f)), skipped + (f - from - 1), dropped + (f - from - 1))
            && f !in grown.late
  {
    hide Interval;
    IntervalGrows(run.drawn, run.skipped, run.first, from, f);
  }

  /** The run in numbers: every frame from its first to its last is drawn or
      skipped, and the drops are the skips and the late submits. */
  lemma RunTotals(run: Run, r: Option<Reading>, skipped: nat, dropped: nat)
    requires RunHolds(run, r, skipped, dropped) && r.Some?
    ensures |run.drawn| + (skipped - run.skippedBefore) == r.value.frame - run.first + 1
    ensures dropped - run.droppedBefore == (skipped - run.skippedBefore) + |run.late|
    ensures |run.late| <= |run.drawn|
  {
    hide Interval;
    assert |run.drawn + run.skipped| == |run.drawn| + |run.skipped|;
    var onTime := run.drawn - run.late;
    assert run.drawn == onTime + run.late;
  }

  /** What a running clock shows at an instant. */
  function Read(rate: nat, clock: Clock, now: nat): Option<Reading> {
    var f := FrameAt(rate, clock, now);
    if f.Some? then Some(Reading(clock.epoch, f.value)) else None
  }

  /** One turn of the loop, as the world supplies it: the clock and the instant
      before the sleep, the grid kept for a stopped clock, the instant of waking, the clock and
      instant it then read, when and under which clock the frame was submitted, and
      when a line would be asked for. */
  datatype Turn = Turn(
    before: Clock, now: nat, ownGrid: nat, woke: nat, after: Clock, readAt: nat, atSubmit: Clock, submitted: nat,
    skipAskAt: nat, lateAskAt: nat, wokeLateMs: real, lateMs: real, previousTickMs: real)

  function ReadingOf(rate: nat, t: Turn): Option<Reading> { Read(rate, t.after, t.readAt) }

  /** The turn's frame was submitted at or past the boundary of the frame after it. */
  predicate IsLate(rate: nat, t: Turn) {
    var r := ReadingOf(rate, t);
    r.Some?
    && var next := Boundary(rate, t.atSubmit, r.value.frame + 1);
       next.Some? && t.submitted >= next.value
  }

  /** When a turn means to wake: inside a run, as the frame after the previous one
      begins; on a run's first turn, at once; with the clock stopped, on the grid. */
  function Intended(rate: nat, drawn: Option<Reading>, t: Turn): nat {
    match (t.before, drawn)
    case (Running(epoch), Some(r)) =>
      if epoch == r.epoch then
        var b := Boundary(rate, t.before, r.frame + 1);
        if b.Some? then b.value else t.ownGrid
      else t.now
    case (Running(_), None) => t.now
    case (Stopped, _) => t.ownGrid
  }

  /** What the world promises of a turn: time runs forward, sleeping never
      cuts short, a clock that reads the epoch last drawn has run
      unbroken since (each start takes a later instant), and that run is short
      of the 584 years its nanoseconds hold. */
  ghost predicate Plausible(rate: nat, drawn: Option<Reading>, t: Turn) {
    && t.now <= t.woke <= t.readAt && Intended(rate, drawn, t) <= t.woke
    && (drawn.Some? && t.after == Running(drawn.value.epoch) ==>
          t.before == t.after && BoundaryNs(rate, drawn.value.frame + 1) <= U64_MAX)
  }

  /** Within a run of the clock, a wake reads a frame past the last one drawn. */
  lemma WakeReadsALaterFrame(rate: nat, drawn: Option<Reading>, t: Turn)
    requires rate >= 1 && Plausible(rate, drawn, t) && SameRun(drawn, ReadingOf(rate, t))
    ensures drawn.value.frame < ReadingOf(rate, t).value.frame
  {
    ReachedFromBoundary(rate, drawn.value.frame + 1, t.readAt - t.after.epoch);
  }

  /** A turn inside a run passes over `n` frames or more exactly when it reads the clock
      at or past the boundary `n` frames after the one it meant to draw. So a turn
      that reads it before the next boundary loses nothing. */
  lemma GapIsBoundariesPassed(rate: nat, drawn: Option<Reading>, t: Turn, n: nat)
    requires rate >= 1 && Plausible(rate, drawn, t) && SameRun(drawn, ReadingOf(rate, t))
    ensures n <= Gap(drawn, ReadingOf(rate, t))
       <==> t.after.epoch + BoundaryNs(rate, drawn.value.frame + 1 + n) <= t.readAt
  {
    WakeReadsALaterFrame(rate, drawn, t);
    ReachedFromBoundary(rate, drawn.value.frame + 1 + n, t.readAt - t.after.epoch);
  }

  /** A frame is submitted late exactly when the clock, asked at that instant, would
      already name a later one. */
  lemma LateOnceTheNextIsReached(rate: nat, t: Turn)
    requires rate >= 1 && ReadingOf(rate, t).Some? && FrameAt(rate, t.atSubmit, t.submitted).Some?
    requires Boundary(rate, t.atSubmit, ReadingOf(rate, t).value.frame + 1).Some?
    ensures IsLate(rate, t)
       <==> ReadingOf(rate, t).value.frame < FrameAt(rate, t.atSubmit, t.submitted).value
  {
    hide Read, FrameAt, Boundary;
    NoEpochNoFrame(rate, t.submitted);
    ClockReaches(rate, t.atSubmit.epoch, ReadingOf(rate, t).value.frame + 1, t.submitted);
  }

  lemma NoEpochNoFrame(rate: nat, now: nat)
    ensures FrameAt(rate, Stopped, now).None?
  {
  }

  /** A skip's line ties its counts exactly when the wake was late by what `n` frames
      last, and a late submit's exactly when the wake was late by as much as the
      submit; either only when the tick before took no longer than a frame. */
  lemma LateWakeTies(t: Turn, f: nat, n: nat, total: nat, houseRate: real)
    requires houseRate > 0.0
    ensures TiedBy(Some(SkipLine(t, f, n, total)), houseRate)
       <==> n as real * 1000.0 <= t.wokeLateMs * houseRate && t.previousTickMs * houseRate <= 1000.0
    ensures TiedBy(Some(LateLine(t, f, total)), houseRate)
       <==> t.lateMs <= t.wokeLateMs && t.previousTickMs * houseRate <= 1000.0
  {
    TiesByTheNumbers(SkipLine(t, f, n, total), houseRate);
    TiesByTheNumbers(LateLine(t, f, total), houseRate);
  }

  /** Everything the loop keeps: the counters, the frame last drawn by a running tick
      and the clock reading last taken, the two line budgets, the lines written, every
      counting of drops, and the account of this run of the clock. */
  datatype Tally = Tally(
    repeated: nat, skipped: nat, dropped: nat, last: Option<nat>, drawn: Option<Reading>,
    skipLines: Budget, lateLines: Budget, log: seq<Line>, events: seq<DropEvent>, run: Run)

  const START := Tally(0, 0, 0, None, None, UNUSED, UNUSED, [], [], Run(0, {}, {}, {}, 0, 0))

  /** `n` drops counted, and their line written if its budget has room. */
  ghost function Counted(s: Tally, n: nat, line: Line, now: nat): Tally {
    var budget := if line.r21 then s.lateLines else s.skipLines;
    var e := DropEvent(n, s.dropped + n, line, budget.HasRoom(now));
    s.(dropped := s.dropped + n,
       log := if e.emitted then s.log + [line] else s.log,
       events := s.events + [e],
       skipLines := if line.r21 then s.skipLines else budget.Asked(now),
       lateLines := if line.r21 then budget.Asked(now) else s.lateLines)
  }

  function SkipLine(t: Turn, f: nat, n: nat, total: nat): Line {
    Line(false, f, Some(n as real), Some(total as real), Some(t.wokeLateMs), None, Some(t.previousTickMs))
  }

  function LateLine(t: Turn, f: nat, total: nat): Line {
    Line(true, f, None, Some(total as real), Some(t.wokeLateMs), Some(t.lateMs), Some(t.previousTickMs))
  }

  /** A tick: a frame drawn again is a repeat, and the frames between the last drawn
      and this one are skips, each a drop. */
  ghost function Ticked(s: Tally, master: Option<nat>, t: Turn): Tally {
    var last := if master.None? || (s.last.Some? && master.value < s.last.value) then None else s.last;
    var counted :=
      if last.None? then s
      else if master.value == last.value then
        s.(repeated := s.repeated + 1, skipLines := s.skipLines.Asked(t.skipAskAt))
      else if master.value > last.value + 1 then
        var n := master.value - last.value - 1;
        Counted(s.(skipped := s.skipped + n), n, SkipLine(t, master.value, n, s.dropped + n), t.skipAskAt)
      else s;
    counted.(last := master)
  }

  ghost function AfterTicks(s: Tally, ticks: seq<Pair<nat, Turn>>): Tally
    decreases |ticks|
  {
    if ticks == [] then s else AfterTicks(Ticked(s, Some(ticks[0].fst), ticks[0].snd), ticks[1..])
  }

  /** How often a frame comes again straight after itself. */
  ghost function Repeats(prev: nat, ticks: seq<Pair<nat, Turn>>): nat
    decreases |ticks|
  {
    if ticks == [] then 0 else (if ticks[0].fst == prev then 1 else 0) + Repeats(ticks[0].fst, ticks[1..])
  }

  ghost predicate NeverFall(prev: nat, ticks: seq<Pair<nat, Turn>>)
    decreases |ticks|
  {
    ticks == [] || (prev <= ticks[0].fst && NeverFall(ticks[0].fst, ticks[1..]))
  }

  /** While the frames ticked do not fall, every frame up to the last is ticked or
      skipped, each skip is a drop, and every tick on a frame after its first a repeat. */
  lemma {:induction false} TicksConserve(s: Tally, ticks: seq<Pair<nat, Turn>>)
    requires s.last.Some? && NeverFall(s.last.value, ticks)
    ensures var u := AfterTicks(s, ticks);
            && u.last == Some(if ticks == [] then s.last.value else ticks[|ticks| - 1].fst)
            && u.repeated - s.repeated == Repeats(s.last.value, ticks)
            && (u.skipped - s.skipped) + |ticks| - (u.repeated - s.repeated) == u.last.value - s.last.value
            && u.dropped - s.dropped == u.skipped - s.skipped
    decreases |ticks|
  {
    if ticks != [] {
      TicksConserve(Ticked(s, Some(ticks[0].fst), ticks[0].snd), ticks[1..]);
    }
  }

  /** The clock's reading taken, and what it passed over counted. */
  ghost function Advanced(s: Tally, rate: nat, t: Turn): Tally {
    var r := ReadingOf(rate, t);
    var newRun := r.Some? && s.drawn.Some? && r.value.epoch != s.drawn.value.epoch;
    Ticked(s.(last := if newRun then None else s.last, drawn := r,
              run := RunWith(s.run, s.drawn, r, s.skipped, s.dropped)),
           FrameOf(r), t)
  }

  /** The frame drawn, counted once more if it was submitted late. */
  ghost function Submitted(s: Tally, rate: nat, t: Turn): Tally {
    if IsLate(rate, t) then
      var f := ReadingOf(rate, t).value.frame;
      Counted(s, 1, LateLine(t, f, s.dropped + 1), t.lateAskAt).(run := s.run.(late := s.run.late + {f}))
    else s
  }

  ghost function Turned(s: Tally, rate: nat, t: Turn): Tally { Submitted(Advanced(s, rate, t), rate, t) }

  ghost predicate Sound(s: Tally) {
    && Chain(s.events, s.dropped) && s.log == Emitted(s.events)
    && s.last == FrameOf(s.drawn) && RunHolds(s.run, s.drawn, s.skipped, s.dropped)
  }

  lemma CountedKeeps(s: Tally, n: nat, line: Line, now: nat)
    requires Chain(s.events, s.dropped) && s.log == Emitted(s.events) && n >= 1
    requires Readable(line) && First(line) == s.dropped + 1 && Last(line) == s.dropped + n
    ensures var c := Counted(s, n, line, now);
            Chain(c.events, c.dropped) && c.log == Emitted(c.events)
  {
    var c := Counted(s, n, line, now);
    assert c.events[..|c.events| - 1] == s.events;
  }

  lemma AdvanceKeeps(s: Tally, rate: nat, t: Turn)
    requires rate >= 1 && Sound(s) && Plausible(rate, s.drawn, t)
    ensures var a, gap := Advanced(s, rate, t), Gap(s.drawn, ReadingOf(rate, t));
            && Sound(a) && a.drawn == ReadingOf(rate, t)
            && a.repeated == s.repeated && a.skipped == s.skipped + gap && a.dropped == s.dropped + gap
            && (a.drawn.Some? ==> a.drawn.value.frame !in a.run.late)
  {
    hide RunHolds, RunWith, Chain, Emitted, Plausible;
    var r := ReadingOf(rate, t);
    if SameRun(s.drawn, r) {
      WakeReadsALaterFrame(rate, s.drawn, t);
    }
    GrownRunHolds(s.run, s.drawn, r, s.skipped, s.dropped);
    var n := Gap(s.drawn, r);
    if n > 0 {
      CountedKeeps(s.(skipped := s.skipped + n, drawn := r, run := RunWith(s.run, s.drawn, r, s.skipped, s.dropped)),
                   n, SkipLine(t, r.value.frame, n, s.dropped + n), t.skipAskAt);
    }
  }

  lemma SubmitKeeps(s: Tally, rate: nat, t: Turn)
    requires Sound(s) && s.drawn == ReadingOf(rate, t)
    requires s.drawn.Some? ==> s.drawn.value.frame !in s.run.late
    ensures Sound(Submitted(s, rate, t))
  {
    hide Chain, Emitted, Interval;
    if IsLate(rate, t) {
      CountedKeeps(s, 1, LateLine(t, s.drawn.value.frame, s.dropped + 1), t.lateAskAt);
    }
  }

  /** One turn, in the counters: no repeat; each frame passed over a skip and a drop;
      and one drop more if the frame drawn was submitted late. */
  lemma TurnKeeps(s: Tally, rate: nat, t: Turn)
    requires rate >= 1 && Sound(s) && Plausible(rate, s.drawn, t)
    ensures var u, gap := Turned(s, rate, t), Gap(s.drawn, ReadingOf(rate, t));
            && Sound(u) && u.drawn == ReadingOf(rate, t) && u.repeated == s.repeated
            && u.skipped == s.skipped + gap
            && u.dropped == s.dropped + gap + (if IsLate(rate, t) then 1 else 0)
  {
    hide Sound, Advanced;
    AdvanceKeeps(s, rate, t);
    SubmitKeeps(Advanced(s, rate, t), rate, t);
  }

  /** How a turn grows the run: within it a later frame is drawn and nothing it began
      with moves; a new one begins at its frame with the counters as they stood. */
  lemma TurnGrowsRun(s: Tally, rate: nat, t: Turn)
    requires rate >= 1 && Sound(s) && Plausible(rate, s.drawn, t) && ReadingOf(rate, t).Some?
    ensures var u, f := Turned(s, rate, t).run, ReadingOf(rate, t).value.frame;
            var late := if IsLate(rate, t) then {f} else {};
            if SameRun(s.drawn, ReadingOf(rate, t))
            then s.drawn.value.frame < f && s.run.skipped <= u.skipped
                 && u == Run(s.run.first, s.run.drawn + {f}, u.skipped, s.run.late + late,
                             s.run.skippedBefore, s.run.droppedBefore)
            else u == Run(f, {f}, {}, late, s.skipped, s.dropped)
  {
    hide Interval, Chain, Emitted, Plausible, RunHolds, Read, Boundary;
    if SameRun(s.drawn, ReadingOf(rate, t)) {
      WakeReadsALaterFrame(rate, s.drawn, t);
    }
    assert Advanced(s, rate, t).run == RunWith(s.run, s.drawn, ReadingOf(rate, t), s.skipped, s.dropped);
  }

  // ---------------------------------------------------------------------
  // Whole runs of the loop.
  // ---------------------------------------------------------------------

  ghost predicate PlausibleRun(rate: nat, drawn: Option<Reading>, turns: seq<Turn>)
    decreases |turns|
  {
    turns == [] || (Plausible(rate, drawn, turns[0]) && PlausibleRun(rate, ReadingOf(rate, turns[0]), turns[1..]))
  }

  ghost function AfterTurns(s: Tally, rate: nat, turns: seq<Turn>): Tally
    decreases |turns|
  {
    if turns == [] then s else AfterTurns(Turned(s, rate, turns[0]), rate, turns[1..])
  }

  /** Frames the readings pass over, and frames submitted late. */
  ghost function GapsOver(rate: nat, drawn: Option<Reading>, turns: seq<Turn>): nat
    decreases |turns|
  {
    if turns == [] then 0
    else Gap(drawn, ReadingOf(rate, turns[0])) + GapsOver(rate, ReadingOf(rate, turns[0]), turns[1..])
  }

  ghost function LatesOver(rate: nat, turns: seq<Turn>): (n: nat)
    ensures n <= |turns|
    decreases |turns|
  {
    if turns == [] then 0 else (if IsLate(rate, turns[0]) then 1 else 0) + LatesOver(rate, turns[1..])
  }

  /** Over any turns, with any starts and stops of the clock: no repeat, the skips are
      exactly the frames passed over, and the drops those and the late submits. */
  lemma {:induction false} TotalsOver(s: Tally, rate: nat, turns: seq<Turn>)
    requires rate >= 1 && Sound(s) && PlausibleRun(rate, s.drawn, turns)
    ensures var u := AfterTurns(s, rate, turns);
            && Sound(u) && u.repeated == s.repeated
            && u.skipped == s.skipped + GapsOver(rate, s.drawn, turns)
            && u.dropped == s.dropped + GapsOver(rate, s.drawn, turns) + LatesOver(rate, turns)
    decreases |turns|
  {
    hide Sound, Turned, Plausible;
    if turns != [] {
      TurnKeeps(s, rate, turns[0]);
      TotalsOver(Turned(s, rate, turns[0]), rate, turns[1..]);
    }
  }

  /** Every turn reads the clock started at `epoch`. */
  ghost predicate OneRun(rate: nat, epoch: nat, turns: seq<Turn>) {
    forall k | 0 <= k < |turns| :: ReadsEpoch(rate, epoch, turns[k])
  }

  predicate ReadsEpoch(rate: nat, epoch: nat, t: Turn) {
    ReadingOf(rate, t).Some? && ReadingOf(rate, t).value.epoch == epoch
  }

  function FrameRead(rate: nat, t: Turn): nat {
    if ReadingOf(rate, t).Some? then ReadingOf(rate, t).value.frame else 0
  }

  ghost predicate FramesRise(rate: nat, turns: seq<Turn>) {
    forall j, k | 0 <= j < k < |turns| :: FrameRead(rate, turns[j]) < FrameRead(rate, turns[k])
  }

  /** Inside a run the frames drawn rise, and with the frames passed over make up
      every frame from the one before to the last. */
  lemma {:induction false} RunFills(rate: nat, r: Reading, turns: seq<Turn>)
    requires rate >= 1 && PlausibleRun(rate, Some(r), turns) && OneRun(rate, r.epoch, turns) && turns != []
    ensures FramesRise(rate, turns) && r.frame < FrameRead(rate, turns[0])
    ensures |turns| + GapsOver(rate, Some(r), turns) == FrameRead(rate, turns[|turns| - 1]) - r.frame
    decreases |turns|
  {
    hide Plausible, Read, IsLate;
    assert ReadsEpoch(rate, r.epoch, turns[0]);
    WakeReadsALaterFrame(rate, Some(r), turns[0]);
    var next, rest := ReadingOf(rate, turns[0]).value, turns[1..];
    if rest != [] {
      assert OneRun(rate, r.epoch, rest);
      RunFills(rate, next, rest);
      assert forall j | 0 <= j < |rest| :: rest[j] == turns[j + 1];
    }
  }

  /** Inside a run its account keeps the first frame and the counters it began with. */
  lemma {:induction false} RunKeepsItsStart(s: Tally, rate: nat, turns: seq<Turn>)
    requires rate >= 1 && Sound(s) && PlausibleRun(rate, s.drawn, turns)
    requires s.drawn.Some? && OneRun(rate, s.drawn.value.epoch, turns)
    ensures var u := AfterTurns(s, rate, turns).run;
            && u.first == s.run.first && s.run.drawn <= u.drawn && s.run.late <= u.late
            && u.skippedBefore == s.run.skippedBefore && u.droppedBefore == s.run.droppedBefore
    decreases |turns|
  {
    hide Sound, Turned, Plausible, Read, IsLate;
    if turns != [] {
      assert ReadsEpoch(rate, s.drawn.value.epoch, turns[0]);
      TurnKeeps(s, rate, turns[0]);
      TurnGrowsRun(s, rate, turns[0]);
      assert OneRun(rate, s.drawn.value.epoch, turns[1..]);
      RunKeepsItsStart(Turned(s, rate, turns[0]), rate, turns[1..]);
    }
  }

  /** A whole run of the clock in numbers, from its first turn on: the frames drawn
      rise, so none is drawn twice; drawn + skipped = last - first + 1; dropped =
      skipped + late-submitted; and nothing counts as a repeat. */
  lemma RunInNumbers(s: Tally, rate: nat, epoch: nat, turns: seq<Turn>)
    requires rate >= 1 && Sound(s) && PlausibleRun(rate, s.drawn, turns) && OneRun(rate, epoch, turns) && turns != []
    requires s.drawn.Some? ==> s.drawn.value.epoch != epoch
    ensures FramesRise(rate, turns)
    ensures var u := AfterTurns(s, rate, turns);
            && |turns| + (u.skipped - s.skipped) == FrameRead(rate, turns[|turns| - 1]) - FrameRead(rate, turns[0]) + 1
            && u.dropped - s.dropped == (u.skipped - s.skipped) + LatesOver(rate, turns)
            && u.repeated == s.repeated
            && u.run.first == FrameRead(rate, turns[0])
            && u.run.skippedBefore == s.skipped && u.run.droppedBefore == s.dropped
  {
    hide Sound, Plausible, Read, IsLate, Turned;
    TotalsOver(s, rate, turns);
    assert ReadsEpoch(rate, epoch, turns[0]);
    var r, rest := ReadingOf(rate, turns[0]).value, turns[1..];
    assert forall j | 0 <= j < |rest| :: rest[j] == turns[j + 1];
    assert OneRun(rate, epoch, rest);
    if rest != [] {
      RunFills(rate, r, rest);
    }
    TurnKeeps(s, rate, turns[0]);
    TurnGrowsRun(s, rate, turns[0]);
    RunKeepsItsStart(Turned(s, rate, turns[0]), rate, rest);
  }

  /** The instants at which a run of the loop asks one of its budgets for a line. */
  ghost function Asks(rate: nat, drawn: Option<Reading>, turns: seq<Turn>, late: bool): seq<nat>
    decreases |turns|
  {
    if turns == [] then []
    else
      var t, r := turns[0], ReadingOf(rate, turns[0]);
      (if late then (if IsLate(rate, t) then [t.lateAskAt] else [])
       else if Gap(drawn, r) > 0 then [t.skipAskAt] else [])
      + Asks(rate, r, turns[1..], late)
  }

  /** Which of the events of one kind had their line written. */
  ghost function Written(events: seq<DropEvent>, late: bool): seq<bool> {
    if events == [] then []
    else
      var e := events[|events| - 1];
      Written(events[..|events| - 1], late) + (if e.line.r21 == late then [e.emitted] else [])
  }

  ghost function BudgetOf(s: Tally, late: bool): Budget { if late then s.lateLines else s.skipLines }

  lemma CountedAsks(s: Tally, n: nat, line: Line, now: nat, late: bool)
    ensures var c := Counted(s, n, line, now);
            && Written(c.events, late)
               == Written(s.events, late) + (if line.r21 == late then [BudgetOf(s, late).HasRoom(now)] else [])
            && BudgetOf(c, late) == if line.r21 == late then BudgetOf(s, late).Asked(now) else BudgetOf(s, late)
  {
    var c := Counted(s, n, line, now);
    assert c.events[..|c.events| - 1] == s.events;
  }

  lemma AdvanceAsks(s: Tally, rate: nat, t: Turn, late: bool)
    requires rate >= 1 && Sound(s) && Plausible(rate, s.drawn, t)
    ensures var a, asked := Advanced(s, rate, t), !late && Gap(s.drawn, ReadingOf(rate, t)) > 0;
            && Written(a.events, late)
               == Written(s.events, late) + (if asked then [BudgetOf(s, late).HasRoom(t.skipAskAt)] else [])
            && BudgetOf(a, late) == if asked then BudgetOf(s, late).Asked(t.skipAskAt) else BudgetOf(s, late)
  {
    hide RunHolds, RunWith, Chain, Emitted, Plausible, Written, Counted, Read;
    var r := ReadingOf(rate, t);
    if SameRun(s.drawn, r) {
      WakeReadsALaterFrame(rate, s.drawn, t);
    }
    var n := Gap(s.drawn, r);
    if n > 0 {
      CountedAsks(s.(skipped := s.skipped + n, drawn := r, run := RunWith(s.run, s.drawn, r, s.skipped, s.dropped)),
                  n, SkipLine(t, r.value.frame, n, s.dropped + n), t.skipAskAt, late);
    }
  }

  lemma TurnAsks(s: Tally, rate: nat, t: Turn, late: bool)
    requires rate >= 1 && Sound(s) && Plausible(rate, s.drawn, t)
    ensures var u, asks := Turned(s, rate, t), Asks(rate, s.drawn, [t], late);
            && Written(u.events, late) == Written(s.events, late) + Answers(BudgetOf(s, late), asks)
            && BudgetOf(u, late) == AfterAsks(BudgetOf(s, late), asks)
  {
    hide Sound, Plausible, Advanced, Written, Counted, Read, Gap, Boundary;
    var a := Advanced(s, rate, t);
    AdvanceAsks(s, rate, t, late);
    AdvanceKeeps(s, rate, t);
    if IsLate(rate, t) {
      CountedAsks(a, 1, LateLine(t, ReadingOf(rate, t).value.frame, a.dropped + 1), t.lateAskAt, late);
    }
    assert [t][1..] == [];
  }

  lemma {:induction false} AskedInTurn(b: Budget, asks: seq<nat>, more: seq<nat>)
    ensures Answers(b, asks + more) == Answers(b, asks) + Answers(AfterAsks(b, asks), more)
    ensures AfterAsks(b, asks + more) == AfterAsks(AfterAsks(b, asks), more)
    decreases |asks|
  {
    if asks == [] {
      assert asks + more == more;
    } else {
      AskedInTurn(b.Asked(asks[0]), asks[1..], more);
      assert (asks + more)[1..] == asks[1..] + more;
    }
  }

  /** Over any turns, the lines written are exactly those their budget let through. */
  lemma {:induction false} WrittenAsBudgeted(s: Tally, rate: nat, turns: seq<Turn>, late: bool)
    requires rate >= 1 && Sound(s) && PlausibleRun(rate, s.drawn, turns)
    ensures Written(AfterTurns(s, rate, turns).events, late)
         == Written(s.events, late) + Answers(BudgetOf(s, late), Asks(rate, s.drawn, turns, late))
    decreases |turns|
  {
    hide Sound, Turned, Plausible, Written, Answers, AfterAsks;
    if turns == [] {
      NothingAsked(BudgetOf(s, late));
    } else {
      var t, asks := turns[0], Asks(rate, s.drawn, [turns[0]], late);
      var more := Asks(rate, ReadingOf(rate, t), turns[1..], late);
      TurnKeeps(s, rate, t);
      TurnAsks(s, rate, t, late);
      WrittenAsBudgeted(Turned(s, rate, t), rate, turns[1..], late);
      AskedInTurn(BudgetOf(s, late), asks, more);
      assert [t][1..] == [];
      assert Asks(rate, s.drawn, turns, late) == asks + more;
    }
  }

  lemma NothingAsked(b: Budget)
    ensures Answers(b, []) == []
  {
  }

  /** End to end, from the loop's start: the unexplained counts of a step are exactly
      those whose line its budget withheld, and each budget let through at most five
      lines in any one second. */
  lemma UnexplainedIsWithheld(rate: nat, turns: seq<Turn>, before: nat, after: nat, houseRate: real, a: Account)
    requires rate >= 1 && PlausibleRun(rate, None, turns) && houseRate > 0.0
    requires var u := AfterTurns(START, rate, turns);
             before <= after <= u.dropped && Accounts(a, u.log, before, after, houseRate)
    ensures var u := AfterTurns(START, rate, turns);
            && (forall c :: c in a.unexplained <==> before < c <= after && Suppressed(u.events, c))
            && (forall late :: Written(u.events, late) == Answers(UNUSED, Asks(rate, None, turns, late)))
            && (forall late, w :: PassedIn(UNUSED, Asks(rate, None, turns, late), w) <= LINES_PER_SECOND)
  {
    hide Accounts, Suppressed, AfterTurns;
    var u := AfterTurns(START, rate, turns);
    TotalsOver(START, rate, turns);
    AccountAgreesWithLog(u.events, u.dropped, before, after, houseRate, a);
    forall late
      ensures Written(u.events, late) == Answers(UNUSED, Asks(rate, None, turns, late))
    {
      WrittenAsBudgeted(START, rate, turns, late);
    }
    forall late, w
      ensures PassedIn(UNUSED, Asks(rate, None, turns, late), w) <= LINES_PER_SECOND
    {
      AtMostFivePerWindow(UNUSED, Asks(rate, None, turns, late), w);
    }
  }

  // ---------------------------------------------------------------------
  // The loop.
  // ---------------------------------------------------------------------

  class Cadence {
    const rate: nat
    // The counters.
    var repeated: nat
    var skipped: nat
    var dropped: nat
    var last: Option<nat>
    var drawn: Option<Reading>
    const lines: LineBudget
    const lateLines: LineBudget
    var log: seq<Line>
    ghost var events: seq<DropEvent>
    ghost var run: Run

    ghost predicate Valid()
      reads this, lines, lateLines
    {
      lines != lateLines && lines.Valid() && lateLines.Valid() && Sound(Current())
    }

    ghost function Current(): Tally
      reads this, lines, lateLines
    {
      Tally(repeated, skipped, dropped, last, drawn, lines.Current(), lateLines.Current(), log, events, run)
    }

    constructor (rate: nat)
      ensures Valid() && this.rate == rate && Current() == START && fresh(lines) && fresh(lateLines)
    {
      this.rate := rate;
      repeated, skipped, dropped := 0, 0, 0;
      last, drawn, log, events := None, None, [], [];
      lines := new LineBudget();
      lateLines := new LineBudget();
      run := Run(0, {}, {}, {}, 0, 0);
    }

    /** Count `n` drops, and write their line exactly when its budget has room. */
    method CountDrops(n: nat, line: Line, now: nat)
      requires lines != lateLines && lines.Valid() && lateLines.Valid()
      modifies this`dropped, this`log, this`events, lines, lateLines
      ensures lines.Valid() && lateLines.Valid() && Current() == Counted(old(Current()), n, line, now)
    {
      dropped := dropped + n;
      var let;
      if line.r21 {
        let := lateLines.Take(now);
      } else {
        let := lines.Take(now);
      }
      if let.Some? {
        log := log + [line];
      }
      events := events + [DropEvent(n, dropped, line, let.Some?)];
    }

    method Tick(master: Option<nat>, t: Turn)
      requires lines != lateLines && lines.Valid() && lateLines.Valid()
      modifies this`repeated, this`skipped, this`dropped, this`last, this`log, this`events, lines, lateLines
      ensures lines.Valid() && lateLines.Valid() && Current() == Ticked(old(Current()), master, t)
    {
      if master.None? || (last.Some? && master.value < last.value) {
        last := None;
      }
      if master.Some? && last.Some? {
        var f, prev := master.value, last.value;
        if f == prev {
          repeated := repeated + 1;
          var _ := lines.Take(t.skipAskAt);
        } else if f > prev + 1 {
          var n := f - prev - 1;
          skipped := skipped + n;
          CountDrops(n, SkipLine(t, f, n, dropped + n), t.skipAskAt);
        }
      }
      last := master;
    }

    /** Take the clock's reading, and count what was passed over: each frame once as a
        skip and once as a drop, and nothing as a repeat. */
    method Advance(t: Turn) returns (master: Option<nat>)
      requires rate >= 1 && Valid() && Plausible(rate, drawn, t)
      modifies this, lines, lateLines
      ensures Valid() && Current() == Advanced(old(Current()), rate, t) && master == FrameOf(drawn)
      ensures drawn == ReadingOf(rate, t) && (drawn.Some? ==> drawn.value.frame !in run.late)
      ensures repeated == old(repeated)
      ensures skipped - old(skipped) == dropped - old(dropped) == Gap(old(drawn), drawn)
    {
      hide Sound, Plausible, Ticked, RunWith, Read;
      AdvanceKeeps(Current(), rate, t);
      var reading := Read(rate, t.after, t.readAt);
      run := RunWith(run, drawn, reading, skipped, dropped);
      if reading.Some? && drawn.Some? && reading.value.epoch != drawn.value.epoch {
        last := None;
      }
      drawn := reading;
      master := FrameOf(reading);
      Tick(master, t);
    }

    /** Count the frame just drawn if it was submitted late, and ask for its line. */
    method Submit(t: Turn, f: nat)
      requires Valid() && drawn == ReadingOf(rate, t) && FrameOf(drawn) == Some(f) && f !in run.late
      modifies this`dropped, this`log, this`events, this`run, lines, lateLines
      ensures Valid() && Current() == Submitted(old(Current()), rate, t)
      ensures dropped == old(dropped) + (if IsLate(rate, t) then 1 else 0)
    {
      hide Sound, Read, Boundary;
      SubmitKeeps(Current(), rate, t);
      var next := Boundary(rate, t.atSubmit, f + 1);
      if next.Some? && t.submitted >= next.value {
        CountDrops(1, LateLine(t, f, dropped + 1), t.lateAskAt);
        run := run.(late := run.late + {f});
      }
    }

    /** One turn: read the clock, count what was passed over, draw, and count the
        frame if it was submitted late. */
    method RunTurn(t: Turn) returns (master: Option<nat>)
      requires rate >= 1 && Valid() && Plausible(rate, drawn, t)
      modifies this, lines, lateLines
      ensures Valid() && Current() == Turned(old(Current()), rate, t)
      ensures master == FrameOf(drawn) && drawn == ReadingOf(rate, t)
      ensures repeated == old(repeated) && skipped == old(skipped) + Gap(old(drawn), drawn)
      ensures dropped == old(dropped) + Gap(old(drawn), drawn) + (if IsLate(rate, t) then 1 else 0)
    {
      hide Sound, Plausible, Advanced, Submitted, Read;
      TurnKeeps(Current(), rate, t);
      master := Advance(t);
      if master.Some? {
        Submit(t, master.value);
      } else {
        NothingSubmitted(Current(), rate, t);
      }
    }

    /** The loop over any turns, with any starts and stops of the clock: the frame
        drawn at each, and exact totals. */
    method RunLoop(turns: seq<Turn>) returns (masters: seq<Option<nat>>)
      requires rate >= 1 && Valid() && PlausibleRun(rate, drawn, turns)
      modifies this, lines, lateLines
      ensures Valid() && Current() == AfterTurns(old(Current()), rate, turns)
      ensures |masters| == |turns| && forall k | 0 <= k < |turns| :: masters[k] == FrameOf(ReadingOf(rate, turns[k]))
      ensures repeated == old(repeated) && skipped == old(skipped) + GapsOver(rate, old(drawn), turns)
      ensures dropped == old(dropped) + GapsOver(rate, old(drawn), turns) + LatesOver(rate, turns)
    {
      hide Sound, Plausible, Turned, Read, IsLate;
      TotalsOver(Current(), rate, turns);
      ghost var began := Current();
      masters := [];
      assert turns[0..] == turns;
      for k := 0 to |turns|
        invariant Valid() && PlausibleRun(rate, drawn, turns[k..])
        invariant AfterTurns(began, rate, turns) == AfterTurns(Current(), rate, turns[k..])
        invariant |masters| == k && forall j | 0 <= j < k :: masters[j] == FrameOf(ReadingOf(rate, turns[j]))
      {
        assert turns[k..][1..] == turns[k + 1..];
        var master := RunTurn(turns[k]);
        masters := masters + [master];
      }
    }
  }

  lemma NothingSubmitted(s: Tally, rate: nat, t: Turn)
    requires ReadingOf(rate, t).None?
    ensures Submitted(s, rate, t) == s
  {
  }

  function FrameOf(r: Option<Reading>): Option<nat> {
    if r.Some? then Some(r.value.frame) else None
  }

  /** The second reading belongs to the run of the clock the first does. */
  predicate SameRun(a: Option<Reading>, b: Option<Reading>) {
    a.Some? && b.Some? && a.value.epoch == b.value.epoch
  }
}
