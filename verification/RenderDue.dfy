/** The null sink's schedule: a late wake renders the blocks it missed, past a
    cap gives silence for the rest, and keeps the schedule's phase. Instants and
    lengths are whole nanoseconds. */
module RenderDue {
  import opened Common
  import opened IntFacts
  import opened MasterClock

  const MAX_CATCH_UP_BLOCKS := 30
  const U32_MAX := 0xFFFF_FFFF

  /** What the taps are given: a block rendered at a master frame, or zeros. */
  datatype Block = Rendered(frame: nat) | Silence

  datatype CapLine = CapLine(silentNs: nat, caughtUp: nat)

  datatype Schedule = Schedule(next: nat, blocks: seq<Block>, underruns: nat, lines: seq<CapLine>)

  /** Every deadline of the schedule, the first at `next`. */
  function Deadline(next: nat, block: nat, i: nat): nat { next + i * block }

  function Due(next: nat, now: nat, block: nat): nat {
    var late := if now < next then 0 else now - next;
    var length := if block == 0 then 1 else block;
    CeilBounds(late, length);
    AtMostCeil(late, length, -1);
    var due := Ceil(late, length);
    if due < 1 then 1 else due
  }

  function BlocksDue(next: nat, now: nat, block: nat): nat {
    if Due(next, now, block) > U32_MAX then U32_MAX else Due(next, now, block)
  }

  /** A wake always owes the first block, and owes another for each further deadline
      strictly earlier than `now`. */
  lemma DueCountsDeadlinesBehind(next: nat, now: nat, block: nat, i: nat)
    requires block > 0
    ensures i < Due(next, now, block) <==> i == 0 || Deadline(next, block, i) < now
  {
    AtMostCeil(if now < next then 0 else now - next, block, i);
  }

  function FrameFor(rate: nat, clock: Clock, instant: nat): nat {
    match FrameAt(rate, clock, instant)
    case Some(f) => f
    case None => 0
  }

  /** `n` blocks from deadline `next` on, each rendered at its own deadline's frame. */
  function Render(rate: nat, clock: Clock, next: nat, block: nat, n: nat): seq<Block> {
    seq(n, i requires 0 <= i < n => Rendered(FrameFor(rate, clock, Deadline(next, block, i))))
  }

  function Silent(n: nat): seq<Block> { seq(n, _ => Silence) }

  function CaughtUp(due: nat): nat {
    if due < MAX_CATCH_UP_BLOCKS + 1 then due else MAX_CATCH_UP_BLOCKS + 1
  }

  /** One wake at `now`. */
  function Woken(s: Schedule, rate: nat, clock: Clock, block: nat, now: nat): Schedule {
    var due := BlocksDue(s.next, now, block);
    var rendered := CaughtUp(due);
    Schedule(
      Deadline(s.next, block, due),
      s.blocks + Render(rate, clock, s.next, block, rendered) + Silent(due - rendered),
      s.underruns + (if due > 1 then 1 else 0),
      s.lines + (if due > rendered then [CapLine(block * (due - rendered), rendered - 1)] else []))
  }

  class NullSink {
    const rate: nat
    const block: nat
    const start: nat
    var next: nat
    var blocks: seq<Block>
    var underruns: nat
    var lines: seq<CapLine>
    ghost var wakes: seq<Wake>

    ghost predicate Valid()
      reads this
    {
      Current() == After(Schedule(start, [], 0, []), rate, block, wakes)
    }

    constructor (rate: nat, block: nat, start: nat)
      ensures Valid() && this.rate == rate && this.block == block && this.start == start && wakes == []
    {
      this.rate, this.block, this.start := rate, block, start;
      next, blocks, underruns, lines, wakes := start, [], 0, [], [];
    }

    ghost function Current(): Schedule
      reads this
    {
      Schedule(next, blocks, underruns, lines)
    }

    /** One wake. Whatever the wakes so far, the schedule is in phase, and underruns
        count the late ones. */
    method OnWake(clock: Clock, now: nat)
      requires Valid()
      modifies this
      ensures Valid() && wakes == old(wakes) + [Wake(clock, now)]
      ensures Current() == Woken(old(Current()), rate, clock, block, now)
      ensures next == Deadline(start, block, |blocks|) && AllInPhase(blocks, rate, block, start, wakes)
      ensures block > 0 ==> underruns == LateWakes(Schedule(start, [], 0, []), rate, block, wakes)
    {
      hide Woken, AllInPhase, LateWakes, Deadline;
      RenderDueBlocks(clock, now);
      assert (wakes + [Wake(clock, now)])[..|wakes|] == wakes;
      wakes := wakes + [Wake(clock, now)];
      PhaseIsKept(start, rate, block, wakes);
      if block > 0 {
        OneUnderrunPerLateWake(Schedule(start, [], 0, []), rate, block, wakes);
      }
    }

    method RenderDueBlocks(clock: Clock, now: nat)
      modifies `next, `blocks, `underruns, `lines
      ensures Current() == Woken(old(Current()), rate, clock, block, now)
    {
      var due := BlocksDue(next, now, block);
      var rendered := CaughtUp(due);
      RenderBlocks(clock, rendered);
      if due > 1 {
        underruns := underruns + 1;
      }
      if due > rendered {
        var silent := due - rendered;
        for i := 0 to silent
          modifies `blocks
          invariant blocks == old(blocks) + Render(rate, clock, old(next), block, rendered) + Silent(i)
        {
          blocks := blocks + [Silence];
        }
        next := next + block * silent;
        lines := lines + [CapLine(block * silent, rendered - 1)];
      }
      assert due == rendered ==> Silent(due - rendered) == [];
    }

    method RenderBlocks(clock: Clock, rendered: nat)
      modifies `next, `blocks
      ensures next == Deadline(old(next), block, rendered)
      ensures blocks == old(blocks) + Render(rate, clock, old(next), block, rendered)
    {
      for i := 0 to rendered
        invariant next == Deadline(old(next), block, i)
        invariant blocks == old(blocks) + Render(rate, clock, old(next), block, i)
      {
        var frame := FrameFor(rate, clock, next);
        blocks := blocks + [Rendered(frame)];
        next := next + block;
      }
    }
  }

  // ---------------------------------------------------------------------
  // Over any sequence of wakes.
  // ---------------------------------------------------------------------

  /** One wake of the loop: the clock it read, and when. */
  datatype Wake = Wake(clock: Clock, now: nat)

  ghost function After(s: Schedule, rate: nat, block: nat, wakes: seq<Wake>): Schedule
    decreases |wakes|
  {
    if wakes == [] then s
    else
      var last := |wakes| - 1;
      Woken(After(s, rate, block, wakes[..last]), rate, wakes[last].clock, block, wakes[last].now)
  }

  /** The wakes that came more than a block past their deadline. */
  ghost function LateWakes(s: Schedule, rate: nat, block: nat, wakes: seq<Wake>): nat
    decreases |wakes|
  {
    if wakes == [] then 0
    else
      var last := |wakes| - 1;
      LateWakes(s, rate, block, wakes[..last])
      + (if wakes[last].now > After(s, rate, block, wakes[..last]).next + block then 1 else 0)
  }

  /** Block `k` belongs to the schedule's deadline `k`: if it was rendered, at the
      frame some wake's clock gives that deadline. */
  ghost predicate InPhase(b: Block, rate: nat, wakes: seq<Wake>, deadline: nat) {
    b.Silence? || exists w | w in wakes :: b == Rendered(FrameFor(rate, w.clock, deadline))
  }

  ghost predicate AllInPhase(blocks: seq<Block>, rate: nat, block: nat, start: nat, wakes: seq<Wake>) {
    forall k | 0 <= k < |blocks| :: InPhase(blocks[k], rate, wakes, Deadline(start, block, k))
  }

  lemma DeadlinesAdd(start: nat, block: nat, k: nat, i: nat)
    ensures Deadline(Deadline(start, block, k), block, i) == Deadline(start, block, k + i)
  {
    assert k * block + i * block == (k + i) * block;
  }

  lemma WakeKeepsPhase(s: Schedule, rate: nat, block: nat, start: nat, wakes: seq<Wake>, w: Wake)
    requires AllInPhase(s.blocks, rate, block, start, wakes) && s.next == Deadline(start, block, |s.blocks|)
    ensures var t := Woken(s, rate, w.clock, block, w.now);
            && AllInPhase(t.blocks, rate, block, start, wakes + [w])
            && t.next == Deadline(start, block, |t.blocks|)
  {
    hide FrameFor, BlocksDue, Deadline;
    var n := |s.blocks|;
    var due := BlocksDue(s.next, w.now, block);
    var rendered := CaughtUp(due);
    var t := Woken(s, rate, w.clock, block, w.now);
    assert w in wakes + [w];
    forall k | 0 <= k < |t.blocks|
      ensures InPhase(t.blocks[k], rate, wakes + [w], Deadline(start, block, k))
    {
      if k < n {
        assert InPhase(s.blocks[k], rate, wakes, Deadline(start, block, k));
        assert t.blocks[k] == s.blocks[k];
      } else if k < n + rendered {
        DeadlinesAdd(start, block, n, k - n);
        assert t.blocks[k] == Rendered(FrameFor(rate, w.clock, Deadline(start, block, k)));
      } else {
        assert t.blocks[k] == Silence;
      }
    }
    DeadlinesAdd(start, block, n, due);
  }

  /** However the wakes fall, deadlines never shift: after `k` blocks the next deadline
      is the `k`th from the start, and a rendered block is the one for its deadline. */
  lemma {:induction false} PhaseIsKept(start: nat, rate: nat, block: nat, wakes: seq<Wake>)
    ensures var s := After(Schedule(start, [], 0, []), rate, block, wakes);
            && s.next == Deadline(start, block, |s.blocks|)
            && AllInPhase(s.blocks, rate, block, start, wakes)
  {
    hide Woken, InPhase;
    if wakes != [] {
      var last := |wakes| - 1;
      PhaseIsKept(start, rate, block, wakes[..last]);
      WakeKeepsPhase(After(Schedule(start, [], 0, []), rate, block, wakes[..last]), rate, block, start,
                     wakes[..last], wakes[last]);
      assert wakes == wakes[..last] + [wakes[last]];
    }
  }

  /** Each wake more than a block late counts one underrun, however late. */
  lemma {:induction false} OneUnderrunPerLateWake(s: Schedule, rate: nat, block: nat, wakes: seq<Wake>)
    requires block > 0
    ensures After(s, rate, block, wakes).underruns == s.underruns + LateWakes(s, rate, block, wakes)
  {
    if wakes != [] {
      var last := |wakes| - 1;
      OneUnderrunPerLateWake(s, rate, block, wakes[..last]);
      var before := After(s, rate, block, wakes[..last]);
      DueCountsDeadlinesBehind(before.next, wakes[last].now, block, 1);
    }
  }

  /** Of a wake's blocks the first thirty-one are rendered, and no more. */
  lemma RenderWorkIsBounded(s: Schedule, rate: nat, clock: Clock, block: nat, now: nat, k: nat)
    requires |s.blocks| <= k < |Woken(s, rate, clock, block, now).blocks|
    ensures Woken(s, rate, clock, block, now).blocks[k].Rendered?
       <==> k - |s.blocks| <= MAX_CATCH_UP_BLOCKS
  {
  }

  /** A wake that gives silence says so in one line, naming how long the silence is and
      how many blocks it caught up; any other wake is silent in the log. */
  lemma SilenceIsNamed(s: Schedule, rate: nat, clock: Clock, block: nat, now: nat)
    ensures var t := Woken(s, rate, clock, block, now);
            var n := |t.blocks| - |s.blocks|;
            && n >= 1 && t.next == s.next + n * block
            && if n <= 31 then t.lines == s.lines
               else
                 && |t.lines| == |s.lines| + 1 && s.lines <= t.lines
                 && t.lines[|s.lines|].silentNs == (n - 31) * block && t.lines[|s.lines|].caughtUp == 30
  {
    OneIsDue(s.next, now, block);
    hide BlocksDue, FrameFor;
    var due := BlocksDue(s.next, now, block);
    assert |Render(rate, clock, s.next, block, CaughtUp(due)) + Silent(due - CaughtUp(due))| == due;
    assert block * (due - CaughtUp(due)) == (due - CaughtUp(due)) * block;
  }

  lemma OneIsDue(next: nat, now: nat, block: nat)
    ensures BlocksDue(next, now, block) >= 1
  {
  }

  /** A wake leaves the schedule at or past `now`, and less than a block past it
      unless it woke early, exactly when the blocks due fit the counter's 32 bits. */
  lemma WakeCatchesUp(s: Schedule, rate: nat, clock: Clock, block: nat, now: nat)
    requires block > 0
    ensures var next := Woken(s, rate, clock, block, now).next;
            && (next >= now <==> Due(s.next, now, block) <= U32_MAX)
            && (next >= now ==> next - now < block || next == s.next + block)
  {
    var due := BlocksDue(s.next, now, block);
    DueCountsDeadlinesBehind(s.next, now, block, due);
    DueCountsDeadlinesBehind(s.next, now, block, due - 1);
    assert due * block == (due - 1) * block + block;
  }

  /** The taps carry elapsed time: after a wake at or past its deadline, the
      blocks they were given reach `now` and pass it by at most one block. */
  lemma TapsCarryElapsedTime(start: nat, rate: nat, block: nat, wakes: seq<Wake>, w: Wake)
    requires block > 0
    requires var s := After(Schedule(start, [], 0, []), rate, block, wakes);
             s.next <= w.now && Due(s.next, w.now, block) <= U32_MAX
    ensures var s := After(Schedule(start, [], 0, []), rate, block, wakes + [w]);
            w.now <= start + |s.blocks| * block <= w.now + block
  {
    PhaseIsKept(start, rate, block, wakes + [w]);
    assert (wakes + [w])[..|wakes|] == wakes;
    WakeCatchesUp(After(Schedule(start, [], 0, []), rate, block, wakes), rate, w.clock, block, w.now);
  }
}
