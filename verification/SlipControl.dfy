/** Holding a device to master time: each block is given its first master sample, and
    loses or gains a sample when the two clocks have drifted too far apart. */
module SlipControl {
  import opened Common

  /** Nanoseconds per sample at 48 kHz. */
  const NS_PER_SAMPLE := 62500.0 / 3.0
  const SLIP_THRESHOLD_MS := 0.5
  const REALIGN_MS := 4.0
  const NS_PER_MS := 1000000.0

  datatype Mark = Mark(frame: nat, ns: nat)

  datatype Plan = Plan(baseSample: int, outFrames: int, epoch: Option<int>, skewMs: real)

  /** `slipGain` and `injectPpm` are 1 and 0 in production. */
  datatype Settings = Settings(block: nat, slipGain: int, injectPpm: real)

  datatype State = State(cursor: Option<int>, anchored: Option<int>, drops: nat, duplicates: nat, realigns: nat)

  function Abs(x: real): real { if x < 0.0 then -x else x }

  /** Rounded half away from zero. */
  function Round(x: real): int {
    if x >= 0.0 then (x + 0.5).Floor else -((0.5 - x).Floor)
  }

  function Signum(x: int): int { if x < 0 then -1 else if x > 0 then 1 else 0 }

  /** The predicted instant of a block's first frame, counted on from a mark if there
      is one and from now otherwise. */
  function Heard(cfg: Settings, nextRing: nat, mark: Option<Mark>, nowNs: nat, leadFrames: nat): real {
    (match mark
     case Some(m) => m.ns as real + (if nextRing < m.frame then 0 else nextRing - m.frame) as real * NS_PER_SAMPLE
     case None => nowNs as real + leadFrames as real * NS_PER_SAMPLE)
    * (1.0 + cfg.injectPpm * 0.000001)
  }

  /** The master sample due at `heard`. */
  function Anchor(heard: real, epoch: int): int {
    Round((heard - epoch as real) / NS_PER_SAMPLE)
  }

  /** How late master sample `cursor` will be heard, in ms. */
  function SkewMs(heard: real, epoch: int, cursor: int): real {
    (heard - (epoch as real + cursor as real * NS_PER_SAMPLE)) / NS_PER_MS
  }

  /** Late: drop a sample. Early: duplicate one. */
  function Slip(cfg: Settings, skewMs: real): int {
    Signum((if skewMs > SLIP_THRESHOLD_MS then -1 else if skewMs < -SLIP_THRESHOLD_MS then 1 else 0) * cfg.slipGain)
  }

  /** The cursor the block is planned at: anchored afresh when the clock has
      started, and again when the skew is past what slipping can recover. */
  function Cursor(st: State, epoch: int, heard: real): int {
    var held := if st.anchored != Some(epoch) || st.cursor.None? then Anchor(heard, epoch) else st.cursor.value;
    if Abs(SkewMs(heard, epoch, held)) > REALIGN_MS then Anchor(heard, epoch) else held
  }

  function Realigned(st: State, epoch: int, heard: real): bool {
    var held := if st.anchored != Some(epoch) || st.cursor.None? then Anchor(heard, epoch) else st.cursor.value;
    Abs(SkewMs(heard, epoch, held)) > REALIGN_MS
  }

  function PlanRunning(cfg: Settings, st: State, epoch: int, heard: real): (State, Plan) {
    var cursor := Cursor(st, epoch, heard);
    var skew := SkewMs(heard, epoch, cursor);
    var slip := Slip(cfg, skew);
    (State(Some(cursor + cfg.block), Some(epoch),
           st.drops + (if slip == -1 then 1 else 0), st.duplicates + (if slip == 1 then 1 else 0),
           st.realigns + (if Realigned(st, epoch, heard) then 1 else 0)),
     Plan(cursor, cfg.block + slip, Some(epoch), skew))
  }

  function PlanStopped(cfg: Settings, st: State): (State, Plan) {
    (st.(cursor := None, anchored := None), Plan(0, cfg.block, None, 0.0))
  }

  /** With no skew injected, a block is heard once the ring frames the device has not
      yet reached have played, or with no mark once the lead has. */
  lemma HeardFrom(cfg: Settings, nextRing: nat, mark: Option<Mark>, nowNs: nat, leadFrames: nat)
    requires cfg.injectPpm == 0.0
    ensures mark.None? ==>
              Heard(cfg, nextRing, mark, nowNs, leadFrames) == nowNs as real + leadFrames as real * NS_PER_SAMPLE
    ensures mark.Some? && mark.value.frame <= nextRing ==>
              Heard(cfg, nextRing, mark, nowNs, leadFrames)
              == mark.value.ns as real + (nextRing - mark.value.frame) as real * NS_PER_SAMPLE
    ensures mark.Some? && mark.value.frame > nextRing ==>
              Heard(cfg, nextRing, mark, nowNs, leadFrames) == mark.value.ns as real
  {
  }

  /** Anchoring leaves at most half a sample of skew. */
  lemma AnchorIsNear(heard: real, epoch: int)
    ensures Abs(SkewMs(heard, epoch, Anchor(heard, epoch))) <= NS_PER_SAMPLE / 2.0 / NS_PER_MS
  {
  }

  /** Whatever the clock and the device do, every block is planned within the
      realign limit, and the frames pushed account for every slip counted. */
  lemma PlanIsWithinRealign(cfg: Settings, st: State, epoch: int, heard: real)
    ensures var (next, plan) := PlanRunning(cfg, st, epoch, heard);
            && Abs(plan.skewMs) <= REALIGN_MS
            && plan.outFrames - cfg.block == (next.duplicates - st.duplicates) - (next.drops - st.drops)
  {
  }

  /** A block goes on where the last one ended, unless the clock has started since or
      it would be heard more than 4 ms from its time. Then it is anchored afresh, and
      never slips; and in the latter case alone a realign is counted. */
  lemma FollowsOrAnchors(cfg: Settings, st: State, epoch: int, heard: real)
    ensures var (next, plan) := PlanRunning(cfg, st, epoch, heard);
            if st.anchored != Some(epoch) || st.cursor.None?
            then plan.baseSample == Anchor(heard, epoch) && plan.outFrames == cfg.block && next.realigns == st.realigns
            else if -4000000.0 <= heard - (epoch as real + st.cursor.value as real * NS_PER_SAMPLE) <= 4000000.0
            then plan.baseSample == st.cursor.value && next.realigns == st.realigns
            else plan.baseSample == Anchor(heard, epoch) && plan.outFrames == cfg.block && next.realigns == st.realigns + 1
  {
    AnchorIsNear(heard, epoch);
  }

  // ---------------------------------------------------------------------
  // Runs against one epoch: the prediction moves on by the frames pushed, and by
  // whatever the device has drifted.
  // ---------------------------------------------------------------------

  function NextHeard(heard: real, plan: Plan, drift: real): real {
    heard + plan.outFrames as real * NS_PER_SAMPLE + drift
  }

  /** The plans of a run, one more than its drifts. */
  ghost function Plans(cfg: Settings, st: State, epoch: int, heard: real, drifts: seq<real>): (plans: seq<Plan>)
    ensures |plans| == |drifts| + 1
    decreases |drifts|
  {
    var (next, plan) := PlanRunning(cfg, st, epoch, heard);
    if drifts == [] then [plan]
    else [plan] + Plans(cfg, next, epoch, NextHeard(heard, plan, drifts[0]), drifts[1..])
  }

  ghost function Final(cfg: Settings, st: State, epoch: int, heard: real, drifts: seq<real>): State
    decreases |drifts|
  {
    var (next, plan) := PlanRunning(cfg, st, epoch, heard);
    if drifts == [] then next
    else Final(cfg, next, epoch, NextHeard(heard, plan, drifts[0]), drifts[1..])
  }

  ghost predicate DriftsWithin(drifts: seq<real>, d: real) {
    forall i | 0 <= i < |drifts| :: -d <= drifts[i] <= d
  }

  ghost predicate Contiguous(plans: seq<Plan>, block: nat) {
    forall k | 0 <= k < |plans| - 1 :: plans[k + 1].baseSample == plans[k].baseSample + block
  }

  ghost predicate SkewsWithin(plans: seq<Plan>, limitMs: real) {
    forall k | 0 <= k < |plans| :: Abs(plans[k].skewMs) <= limitMs
  }

  /** The skew a state stands at, once anchored to `epoch`. */
  ghost predicate StandsWithin(st: State, epoch: int, heard: real, limitMs: real) {
    st.anchored == Some(epoch) && st.cursor.Some? && Abs(SkewMs(heard, epoch, st.cursor.value)) <= limitMs
  }

  /** One block: the skew moves by the slip and the drift. */
  lemma StepMovesSkew(cfg: Settings, st: State, epoch: int, heard: real, drift: real)
    requires cfg.slipGain == 1 && StandsWithin(st, epoch, heard, REALIGN_MS)
    ensures var (next, plan) := PlanRunning(cfg, st, epoch, heard);
            && plan.baseSample == st.cursor.value && next.realigns == st.realigns
            && next.anchored == Some(epoch) && next.cursor == Some(plan.baseSample + cfg.block)
            && plan.skewMs == SkewMs(heard, epoch, st.cursor.value)
            && SkewMs(NextHeard(heard, plan, drift), epoch, plan.baseSample + cfg.block)
               == plan.skewMs + (Slip(cfg, plan.skewMs) as real * NS_PER_SAMPLE + drift) / NS_PER_MS
  {
  }

  /** Inside the threshold by no more than the drift, the skew stays so for ever:
      no realign, and every block starts where the last one ended. */
  lemma {:induction false} StaysWithin(cfg: Settings, st: State, epoch: int, heard: real, drifts: seq<real>, d: real)
    requires cfg.slipGain == 1 && 0.0 <= d < NS_PER_SAMPLE && DriftsWithin(drifts, d)
    requires StandsWithin(st, epoch, heard, SLIP_THRESHOLD_MS + d / NS_PER_MS)
    ensures SkewsWithin(Plans(cfg, st, epoch, heard, drifts), SLIP_THRESHOLD_MS + d / NS_PER_MS)
    ensures Contiguous(Plans(cfg, st, epoch, heard, drifts), cfg.block)
    ensures Plans(cfg, st, epoch, heard, drifts)[0].baseSample == st.cursor.value
    ensures Final(cfg, st, epoch, heard, drifts).realigns == st.realigns
    decreases |drifts|
  {
    var (next, plan) := PlanRunning(cfg, st, epoch, heard);
    StepMovesSkew(cfg, st, epoch, heard, if drifts == [] then 0.0 else drifts[0]);
    if drifts != [] {
      StaysWithin(cfg, next, epoch, NextHeard(heard, plan, drifts[0]), drifts[1..], d);
    }
  }

  /** From the moment the clock starts, while the device drifts by less than a
      sample a block: the planned skew stays within the threshold plus the drift,
      nothing realigns, and the master samples are rendered without a gap. */
  lemma StartHoldsSkew(cfg: Settings, st: State, epoch: int, heard: real, drifts: seq<real>, d: real)
    requires cfg.slipGain == 1 && 0.0 <= d < NS_PER_SAMPLE && DriftsWithin(drifts, d)
    requires st.anchored != Some(epoch) || st.cursor.None?
    ensures SkewsWithin(Plans(cfg, st, epoch, heard, drifts), SLIP_THRESHOLD_MS + d / NS_PER_MS)
    ensures Contiguous(Plans(cfg, st, epoch, heard, drifts), cfg.block)
    ensures Final(cfg, st, epoch, heard, drifts).realigns == st.realigns
  {
    AnchorIsNear(heard, epoch);
    var anchored := st.(cursor := Some(Anchor(heard, epoch)), anchored := Some(epoch));
    assert PlanRunning(cfg, st, epoch, heard) == PlanRunning(cfg, anchored, epoch, heard);
    StaysWithin(cfg, anchored, epoch, heard, drifts, d);
  }

  /** One slip takes at least a sample less the drift off the skew. */
  lemma SlipShrinks(cfg: Settings, skew: real, drift: real, d: real)
    requires cfg.slipGain == 1 && 0.0 <= d < NS_PER_SAMPLE && -d <= drift <= d
    requires SLIP_THRESHOLD_MS < Abs(skew) <= REALIGN_MS
    ensures Abs(skew + (Slip(cfg, skew) as real * NS_PER_SAMPLE + drift) / NS_PER_MS)
            <= Abs(skew) - (NS_PER_SAMPLE - d) / NS_PER_MS
  {
  }

  /** From any skew within the realign limit, slipping alone brings it inside the
      threshold: once the blocks planned, at a sample less the drift each, cover
      the `excess`, one of them was inside it, with no realign or gap on the way. */
  lemma {:induction false} SkewReturns(cfg: Settings, st: State, epoch: int, heard: real, drifts: seq<real>, d: real, excess: real)
    returns (k: nat)
    requires cfg.slipGain == 1 && 0.0 <= d < NS_PER_SAMPLE && DriftsWithin(drifts, d)
    requires StandsWithin(st, epoch, heard, REALIGN_MS)
    requires Abs(SkewMs(heard, epoch, st.cursor.value)) <= SLIP_THRESHOLD_MS + excess / NS_PER_MS
    requires Covers(|drifts|, NS_PER_SAMPLE - d, excess)
    ensures k <= |drifts| && Abs(Plans(cfg, st, epoch, heard, drifts)[k].skewMs) <= SLIP_THRESHOLD_MS
    ensures SkewsWithin(Plans(cfg, st, epoch, heard, drifts), REALIGN_MS)
    ensures Contiguous(Plans(cfg, st, epoch, heard, drifts), cfg.block)
    ensures Plans(cfg, st, epoch, heard, drifts)[0].baseSample == st.cursor.value
    ensures Final(cfg, st, epoch, heard, drifts).realigns == st.realigns
    decreases |drifts|
  {
    var skew := SkewMs(heard, epoch, st.cursor.value);
    if Abs(skew) <= SLIP_THRESHOLD_MS {
      k := 0;
      StaysWithin(cfg, st, epoch, heard, drifts, d);
    } else {
      hide Slip, Covers, Round;
      CoversOneLess(|drifts|, NS_PER_SAMPLE - d, excess);
      StepMovesSkew(cfg, st, epoch, heard, drifts[0]);
      SlipShrinks(cfg, skew, drifts[0], d);
      var (next, plan) := PlanRunning(cfg, st, epoch, heard);
      var later := SkewReturns(cfg, next, epoch, NextHeard(heard, plan, drifts[0]), drifts[1..], d, excess - (NS_PER_SAMPLE - d));
      k := later + 1;
    }
  }

  /** `n` blocks at `gain` each reach `excess`. */
  ghost predicate Covers(n: nat, gain: real, excess: real) { n as real * gain >= excess }

  lemma CoversOneLess(n: nat, gain: real, excess: real)
    requires Covers(n, gain, excess) && excess > 0.0
    ensures n >= 1 && Covers(n - 1, gain, excess - gain)
  {
    assert n == 0 ==> n as real * gain == 0.0;
    if n >= 1 {
      assert (n - 1) as real * gain == n as real * gain - gain;
    }
  }
}
