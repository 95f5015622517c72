/** Feeding the device: each block is planned, stretched to fit, and recorded, so that
    the master time of any frame being heard can be looked up afterwards. */
module Feeding {
  import opened Common
  import opened Respacing
  import SampleRing
  import SlipControl
  import IntFacts

  const LOG_LEN := 32

  /** What the log keeps of a block: the ring frames it took, and the master samples
      stretched over them. */
  datatype PushRecord = PushRecord(ringStart: nat, masterStart: int, inFrames: nat, outFrames: nat, epoch: Option<int>) {

    predicate Carries(frame: nat) {
      epoch.Some? && outFrames > 0 && ringStart <= frame < ringStart + outFrames
    }

    /** Where in master time one of the record's frames lies. */
    function MasterAt(frame: nat): real
      requires Carries(frame)
    {
      masterStart as real + Place(frame - ringStart, inFrames, outFrames)
    }
  }

  const NO_PUSH := PushRecord(0, 0, 0, 0, None)

  /** Ring frames are handed out in order, and none twice. */
  ghost predicate InOrder(pushes: seq<PushRecord>) {
    forall j, k | 0 <= j < k < |pushes| :: pushes[j].ringStart + pushes[j].outFrames <= pushes[k].ringStart
  }

  class PushLog {
    const entries: array<PushRecord>
    var next: nat
    ghost var pushes: seq<PushRecord>

    ghost predicate Valid()
      reads this, entries
    {
      && entries.Length == LOG_LEN && next == |pushes| && InOrder(pushes)
      && (forall k | 0 <= k < |pushes| && k + LOG_LEN >= |pushes| :: entries[k % LOG_LEN] == pushes[k])
      && (forall i | |pushes| <= i < LOG_LEN :: entries[i] == NO_PUSH)
    }

    constructor ()
      ensures Valid() && pushes == [] && fresh(entries)
    {
      entries := new PushRecord[LOG_LEN](_ => NO_PUSH);
      next, pushes := 0, [];
    }

    method Push(r: PushRecord)
      requires Valid() && InOrder(pushes + [r])
      modifies this, entries
      ensures Valid() && pushes == old(pushes) + [r]
    {
      entries[next % LOG_LEN] := r;
      next := next + 1;
      pushes := pushes + [r];
    }

    /** The first entry from slot `i` on that carries `frame`. */
    function Find(frame: nat, i: nat): (r: Option<PushRecord>)
      requires entries.Length == LOG_LEN && i <= LOG_LEN
      reads entries
      ensures r.Some? ==> r.value.Carries(frame) && exists j | i <= j < LOG_LEN :: entries[j] == r.value
      ensures r.None? ==> forall j | i <= j < LOG_LEN :: !entries[j].Carries(frame)
      decreases LOG_LEN - i
    {
      if i == LOG_LEN then None
      else if entries[i].Carries(frame) then Some(entries[i])
      else Find(frame, i + 1)
    }

    /** The lookup: a frame's place in master time, and the clock start it counts from. */
    function MasterAt(frame: nat): Option<Pair<real, int>>
      requires entries.Length == LOG_LEN
      reads entries
    {
      var r := Find(frame, 0);
      if r.Some? then Some(Pair(r.value.MasterAt(frame), r.value.epoch.value)) else None
    }

    /** The slot's push, when one is held there. */
    lemma SlotHolds(i: nat) returns (k: nat)
      requires Valid() && i < LOG_LEN && entries[i].epoch.Some?
      ensures k < |pushes| && k + LOG_LEN >= |pushes| && pushes[k] == entries[i]
    {
      var n := |pushes|;
      k := if i < n % LOG_LEN then n - n % LOG_LEN + i else n - n % LOG_LEN + i - LOG_LEN;
    }

    /** The log answers for a frame exactly when one of the last 32 pushes,
        rendered against a running clock, carries it; and then that push alone
        decides the answer. */
    lemma LogAnswers(frame: nat, k: nat)
      requires Valid() && k < |pushes| && k + LOG_LEN >= |pushes| && pushes[k].Carries(frame)
      ensures MasterAt(frame) == Some(Pair(pushes[k].MasterAt(frame), pushes[k].epoch.value))
    {
      assert entries[k % LOG_LEN] == pushes[k];
      var r := Find(frame, 0);
      var j :| 0 <= j < LOG_LEN && entries[j] == r.value;
      var m := SlotHolds(j);
    }

    lemma LogIsSilent(frame: nat)
      requires Valid()
      requires forall k | 0 <= k < |pushes| && k + LOG_LEN >= |pushes| :: !pushes[k].Carries(frame)
      ensures MasterAt(frame) == None
    {
      var r := Find(frame, 0);
      if r.Some? {
        var j :| 0 <= j < LOG_LEN && entries[j] == r.value;
        var m := SlotHolds(j);
      }
    }
  }

  /** One block as it was pushed: what was rendered, and the plan it met. */
  type Frames = s: Samples | |s| % CHANNELS == 0

  datatype Block = Block(rendered: Frames, base: int, outFrames: nat, epoch: Option<int>) {
    predicate Slips() { |rendered| != outFrames * CHANNELS }
  }

  /** The block's last frame: the next block's left neighbour. */
  function LastFrame(rendered: Samples, prev: Samples): (last: Samples)
    requires |prev| == CHANNELS
    ensures |last| == CHANNELS
  {
    if |rendered| / CHANNELS == 0 then prev
    else
      var n := |rendered| / CHANNELS;
      rendered[(n - 1) * CHANNELS..n * CHANNELS]
  }

  /** A planned block is its length, or a sample short of it or over. */
  ghost predicate PlanOk(cfg: SlipControl.Settings, plan: SlipControl.Plan) {
    0 <= plan.outFrames && cfg.block - 1 <= plan.outFrames <= cfg.block + 1
  }

  ghost predicate FitPlans(blocks: seq<Block>, block: nat) {
    forall k | 0 <= k < |blocks| :: block - 1 <= blocks[k].outFrames <= block + 1
  }

  class Feeder {
    const cfg: SlipControl.Settings
    const log: PushLog
    /** One past the master samples planned so far, and the clock start they count from. */
    var cursor: Option<int>
    var anchored: Option<int>
    var drops: nat
    var duplicates: nat
    var realigns: nat
    /** The left neighbour `Respace` is given next. */
    var prev: Samples
    const out: array<real>
    /** Every block pushed since the ring opened. */
    ghost var blocks: seq<Block>

    ghost predicate Valid()
      reads this, log, log.entries, out
    {
      && log.Valid() && out.Length == (cfg.block + 1) * CHANNELS
      && log.pushes == Records(blocks, 0) && |prev| == CHANNELS && prev == PrevAfter(blocks, [0.0, 0.0])
      && FitPlans(blocks, cfg.block)
    }

    ghost function State(): SlipControl.State
      reads this
    {
      SlipControl.State(cursor, anchored, drops, duplicates, realigns)
    }

    constructor (cfg: SlipControl.Settings)
      ensures Valid() && this.cfg == cfg && fresh(log) && fresh(log.entries) && fresh(out)
      ensures State() == SlipControl.State(None, None, 0, 0, 0) && blocks == []
    {
      this.cfg := cfg;
      log := new PushLog();
      cursor, anchored, drops, duplicates, realigns := None, None, 0, 0, 0;
      prev, blocks := [0.0, 0.0], [];
      out := new real[(cfg.block + 1) * CHANNELS](_ => 0.0);
    }

    /** Plan the next block. */
    method PlanBlock(epoch: Option<int>, nextRing: nat, mark: Option<SlipControl.Mark>, nowNs: nat, leadFrames: nat)
      returns (plan: SlipControl.Plan)
      modifies this`cursor, this`anchored, this`drops, this`duplicates, this`realigns
      ensures epoch.None? ==> (State(), plan) == SlipControl.PlanStopped(cfg, old(State()))
      ensures epoch.Some? ==>
                (State(), plan) == SlipControl.PlanRunning(cfg, old(State()), epoch.value,
                                                           SlipControl.Heard(cfg, nextRing, mark, nowNs, leadFrames))
      ensures plan.epoch == epoch && (cfg.block >= 1 ==> PlanOk(cfg, plan))
    {
      if epoch.None? {
        cursor, anchored := None, None;
        return SlipControl.Plan(0, cfg.block, None, 0.0);
      }
      var heard := SlipControl.Heard(cfg, nextRing, mark, nowNs, leadFrames);
      if anchored != epoch || cursor.None? {
        cursor := Some(SlipControl.Anchor(heard, epoch.value));
        anchored := epoch;
      }
      var at := cursor.value;
      var skew := SlipControl.SkewMs(heard, epoch.value, at);
      if SlipControl.Abs(skew) > SlipControl.REALIGN_MS {
        at := SlipControl.Anchor(heard, epoch.value);
        realigns := realigns + 1;
        skew := SlipControl.SkewMs(heard, epoch.value, at);
      }
      var slip := SlipControl.Slip(cfg, skew);
      if slip == -1 {
        drops := drops + 1;
      } else if slip == 1 {
        duplicates := duplicates + 1;
      }
      cursor := Some(at + cfg.block);
      plan := SlipControl.Plan(at, cfg.block + slip, epoch, skew);
    }

    /** Stretch a block as planned, record it at its place in the ring, and hand over
        its samples. */
    method Emit(rendered: Frames, plan: SlipControl.Plan, ringStart: nat) returns (pushed: Samples)
      requires Valid() && PlanOk(cfg, plan) && ringStart == RingFrames(blocks)
      modifies this`prev, this`blocks, out, log, log.entries
      ensures Valid() && blocks == old(blocks) + [Block(rendered, plan.baseSample, plan.outFrames, plan.epoch)]
      ensures |pushed| == plan.outFrames * CHANNELS
      ensures forall k | 0 <= k < |pushed| :: pushed[k] == Respaced(rendered, old(prev), plan.outFrames, k)
    {
      hide Respaced, Records, RingFrames, PrevAfter, LastFrame, InOrder;
      var n := plan.outFrames;
      Respace(rendered, prev, out, n);
      pushed := out[..n * CHANNELS];
      AppendBlock(blocks, Block(rendered, plan.baseSample, n, plan.epoch), 0, [0.0, 0.0]);
      RecordsInOrder(blocks + [Block(rendered, plan.baseSample, n, plan.epoch)], 0);
      prev := LastFrame(rendered, prev);
      log.Push(PushRecord(ringStart, plan.baseSample, |rendered| / CHANNELS, n, plan.epoch));
      blocks := blocks + [Block(rendered, plan.baseSample, n, plan.epoch)];
    }

    /** One turn of the device's fill loop: plan a block, have it rendered, push it.

        Whenever its first frame really is heard where the ring stands now (after every
        frame still ahead of it in the ring, or, before any mark, after the whole
        lead), the skew read back for it is the skew it was planned with; it is heard
        within 4 ms of the instant its first master sample is due; and it loses or gains
        a sample exactly when the two are more than half a millisecond apart. */
    method FeedBlock(epoch: Option<int>, nextRing: nat, mark: Option<SlipControl.Mark>, nowNs: nat, leadFrames: nat,
                     render: int -> Frames)
      returns (plan: SlipControl.Plan, pushed: Samples)
      requires Valid() && cfg.block >= 1 && nextRing == RingFrames(blocks)
      modifies this`cursor, this`anchored, this`drops, this`duplicates, this`realigns,
               this`prev, this`blocks, out, log, log.entries
      ensures Valid() && PlanOk(cfg, plan) && plan.epoch == epoch
      ensures blocks == old(blocks) + [Block(render(plan.baseSample), plan.baseSample, plan.outFrames, epoch)]
      ensures |pushed| == plan.outFrames * CHANNELS
      ensures forall k | 0 <= k < |pushed| ::
                pushed[k] == Respaced(render(plan.baseSample), old(prev), plan.outFrames, k)
      ensures epoch.Some? && cfg.injectPpm == 0.0 && mark.Some? && mark.value.frame <= nextRing ==>
                FedFor(epoch.value, plan, nextRing,
                       mark.value.ns as real + (nextRing - mark.value.frame) as real * SlipControl.NS_PER_SAMPLE)
      ensures epoch.Some? && cfg.injectPpm == 0.0 && mark.Some? && mark.value.frame > nextRing ==>
                FedFor(epoch.value, plan, nextRing, mark.value.ns as real)
      ensures epoch.Some? && cfg.injectPpm == 0.0 && mark.None? ==>
                FedFor(epoch.value, plan, nextRing, nowNs as real + leadFrames as real * SlipControl.NS_PER_SAMPLE)
    {
      hide RingFrames, Records, PrevAfter, InOrder, Respaced, FedFor, FitPlans;
      hide SlipControl.Heard, SlipControl.PlanRunning, SlipControl.SkewMs, SlipControl.PlanStopped;
      plan := PlanBlock(epoch, nextRing, mark, nowNs, leadFrames);
      pushed := Emit(render(plan.baseSample), plan, nextRing);
      if epoch.Some? {
        var heard := SlipControl.Heard(cfg, nextRing, mark, nowNs, leadFrames);
        assert blocks[..|blocks| - 1] == old(blocks);
        LastBlockIsFed(epoch.value, heard, old(State()), plan);
        if cfg.injectPpm == 0.0 {
          SlipControl.HeardFrom(cfg, nextRing, mark, nowNs, leadFrames);
        }
      }
    }

    /** The last block starts at ring frame `first`; heard from `instant` on, it is
        where its plan says. */
    ghost predicate FedFor(epoch: int, plan: SlipControl.Plan, first: nat, instant: real)
      requires log.entries.Length == LOG_LEN
      reads log, log.entries
    {
      var late := instant - (epoch as real + plan.baseSample as real * SlipControl.NS_PER_SAMPLE);
      && (plan.outFrames > 0 ==>
            && SkewHeardAt(first, instant) == Some(plan.skewMs)
            && forall m: SlipControl.Mark | m.frame == first && m.ns as real == instant ::
                 PresentedSkewMs(m) == Some(plan.skewMs))
      && -4000000.0 <= late <= 4000000.0
      && (cfg.slipGain == 1 ==>
            plan.outFrames == cfg.block + (if late > 500000.0 then -1 else if late < -500000.0 then 1 else 0))
    }

    lemma LastBlockIsFed(epoch: int, heard: real, st: SlipControl.State, plan: SlipControl.Plan)
      requires Valid() && blocks != []
      requires (State(), plan) == SlipControl.PlanRunning(cfg, st, epoch, heard)
      requires var b := blocks[|blocks| - 1];
               b.base == plan.baseSample && b.outFrames == plan.outFrames && b.epoch == plan.epoch
      ensures FedFor(epoch, plan, RingFrames(blocks[..|blocks| - 1]), heard)
    {
      hide RingFrames, Records, PrevAfter, SkewHeardAt;
      if plan.outFrames > 0 {
        PresentedIsPlanned(|blocks| - 1, heard);
      }
      SlipControl.PlanIsWithinRealign(cfg, st, epoch, heard);
    }

    /** Milliseconds after its master time at which a ring frame, heard at `instant`,
        is heard. */
    function SkewHeardAt(frame: nat, instant: real): Option<real>
      requires log.entries.Length == LOG_LEN
      reads log, log.entries
    {
      match log.MasterAt(frame)
      case None => None
      case Some(at) =>
        Some((instant - (at.snd as real + at.fst * SlipControl.NS_PER_SAMPLE)) / SlipControl.NS_PER_MS)
    }

    /** Milliseconds by which the marked frame was heard after its master time. */
    function PresentedSkewMs(mark: SlipControl.Mark): Option<real>
      requires log.entries.Length == LOG_LEN
      reads log, log.entries
    {
      SkewHeardAt(mark.frame, mark.ns as real)
    }

    /** The skew read back for a block's first frame, for as long as the log reaches
        that far back, is the planner's for that instant, the block's epoch and its
        base sample. */
    lemma PresentedIsPlanned(k: nat, instant: real)
      requires Valid() && k < |blocks| && k + LOG_LEN >= |blocks|
      requires blocks[k].epoch.Some? && blocks[k].outFrames > 0
      ensures SkewHeardAt(RingFrames(blocks[..k]), instant)
           == Some(SlipControl.SkewMs(instant, blocks[k].epoch.value, blocks[k].base))
    {
      hide Records, RingFrames, PrevAfter, PushLog.MasterAt;
      RecordAt(blocks, 0, k);
      var r := log.pushes[k];
      FirstPlace(r.inFrames, r.outFrames);
      log.LogAnswers(r.ringStart, k);
      assert r.MasterAt(r.ringStart) == blocks[k].base as real;
    }

    /** Take any stretch of blocks `m..e` rendering one signal without a gap, the first
        unslipped, whatever was pushed before or after. The master sample the log names
        for one of the stretch's frames is the one whose sound is on that frame, for
        every signal affine in the master sample. */
    lemma NamedIsPlayed(signal: Affine, m: nat, e: nat, base: int, frame: nat, c: nat)
      requires Valid() && signal.Valid() && c < CHANNELS && m < e <= |blocks|
      requires ContiguousRender(signal, blocks[m..e], base) && !blocks[m].Slips()
      requires RingFrames(blocks[..m]) <= frame < RingFrames(blocks[..e])
      requires log.MasterAt(frame).Some?
      ensures frame < RingFrames(blocks)
      ensures RingSample(blocks, [0.0, 0.0], frame, c) == signal.Value(log.MasterAt(frame).value.fst, c)
    {
      var r := log.Find(frame, 0);
      var j :| 0 <= j < LOG_LEN && log.entries[j] == r.value;
      var k := log.SlotHolds(j);
      log.LogAnswers(frame, k);
      hide Records, RingFrames, PrevAfter, RingSample, PushLog.MasterAt, PushLog.Find;
      StretchPlays(signal, blocks, [0.0, 0.0], m, e, base, k, frame, c);
    }

    /** Every ring frame still in a ring of eight blocks was carried by one of the last
        32 pushes, however they slipped; so the log answers for it whenever that push
        was rendered against a running clock, and only then. */
    lemma LogCoversTheRing(frame: nat) returns (k: nat)
      requires Valid() && cfg.block >= 2
      requires frame < RingFrames(blocks) <= frame + SampleRing.RING_BLOCKS * cfg.block
      ensures k < |blocks| && k + LOG_LEN >= |blocks|
      ensures RingFrames(blocks[..k]) <= frame < RingFrames(blocks[..k]) + blocks[k].outFrames
      ensures blocks[k].epoch.Some? ==>
                log.MasterAt(frame).Some? && log.MasterAt(frame).value.snd == blocks[k].epoch.value
      ensures blocks[k].epoch.None? ==> log.MasterAt(frame).None?
    {
      hide Records, PrevAfter, PushLog.MasterAt;
      k := Carrier(blocks, frame);
      RecentBlocksFill(blocks, k, cfg.block);
      RecordAt(blocks, 0, k);
      if blocks[k].epoch.Some? {
        log.LogAnswers(frame, k);
      } else {
        forall i | 0 <= i < |blocks|
          ensures !log.pushes[i].Carries(frame)
        {
          RecordAt(blocks, 0, i);
          OneCarrier(blocks, frame, i, k);
        }
        log.LogIsSilent(frame);
      }
    }
  }

  // ---------------------------------------------------------------------
  // A whole run of blocks: what is on the ring, and what the log says of it.
  // ---------------------------------------------------------------------

  /** Channel `c` of the run's ring frame `f`. */
  ghost function RingSample(blocks: seq<Block>, prev: Samples, f: nat, c: nat): real
    requires |prev| == CHANNELS && f < RingFrames(blocks) && c < CHANNELS
    decreases |blocks|
  {
    var b := blocks[0];
    if f < b.outFrames then Respaced(b.rendered, prev, b.outFrames, f * CHANNELS + c)
    else RingSample(blocks[1..], LastFrame(b.rendered, prev), f - b.outFrames, c)
  }

  ghost function RingFrames(blocks: seq<Block>): nat {
    if blocks == [] then 0 else blocks[0].outFrames + RingFrames(blocks[1..])
  }

  /** The push records of the run, the first at ring frame `start`. */
  ghost function Records(blocks: seq<Block>, start: nat): (rs: seq<PushRecord>)
    ensures |rs| == |blocks|
  {
    if blocks == [] then []
    else
      var b := blocks[0];
      [PushRecord(start, b.base, |b.rendered| / CHANNELS, b.outFrames, b.epoch)] + Records(blocks[1..], start + b.outFrames)
  }

  /** The blocks render one signal over contiguous master samples from `base`. */
  ghost predicate ContiguousRender(signal: Affine, blocks: seq<Block>, base: int)
    requires signal.Valid()
    decreases |blocks|
  {
    blocks == [] ||
    (var b := blocks[0];
     && |b.rendered| > 0 && b.base == base && Renders(signal, b.rendered, base)
     && ContiguousRender(signal, blocks[1..], base + |b.rendered| / CHANNELS))
  }

  lemma LastFramePrecedes(signal: Affine, rendered: Samples, prev: Samples, base: int)
    requires signal.Valid() && |rendered| > 0 && Renders(signal, rendered, base) && |prev| == CHANNELS
    ensures Precedes(signal, LastFrame(rendered, prev), base + |rendered| / CHANNELS)
  {
    var n := |rendered| / CHANNELS;
    forall c | 0 <= c < CHANNELS
      ensures LastFrame(rendered, prev)[c] == signal.Value((base + n - 1) as real, c)
    {
      assert Channel(rendered, n - 1, c) == signal.Value((base + (n - 1)) as real, c);
    }
  }

  lemma {:induction false} RingFramesAppend(a: seq<Block>, b: seq<Block>)
    ensures RingFrames(a + b) == RingFrames(a) + RingFrames(b)
  {
    if a == [] {
      assert a + b == b;
    } else {
      RingFramesAppend(a[1..], b);
      assert (a + b)[1..] == a[1..] + b;
    }
  }

  lemma OneBlock(b: Block)
    ensures RingFrames([b]) == b.outFrames
  {
    assert [b][1..] == [];
  }

  lemma RingFramesSplit(blocks: seq<Block>, k: nat)
    requires k < |blocks|
    ensures RingFrames(blocks[..k + 1]) == RingFrames(blocks[..k]) + blocks[k].outFrames
    ensures RingFrames(blocks) == RingFrames(blocks[..k]) + RingFrames(blocks[k..])
  {
    hide RingFrames;
    RingFramesAppend(blocks[..k], [blocks[k]]);
    OneBlock(blocks[k]);
    assert blocks[..k + 1] == blocks[..k] + [blocks[k]];
    RingFramesAppend(blocks[..k], blocks[k..]);
    assert blocks == blocks[..k] + blocks[k..];
  }

  /** The block that carries a ring frame. */
  lemma {:induction false} Carrier(blocks: seq<Block>, frame: nat) returns (k: nat)
    requires frame < RingFrames(blocks)
    ensures k < |blocks|
    ensures RingFrames(blocks[..k]) <= frame < RingFrames(blocks[..k]) + blocks[k].outFrames
  {
    if frame < blocks[0].outFrames {
      k := 0;
    } else {
      var later := Carrier(blocks[1..], frame - blocks[0].outFrames);
      k := later + 1;
      assert blocks[..k][1..] == blocks[1..][..later];
    }
  }

  lemma {:induction false} PrefixFrames(blocks: seq<Block>, i: nat, k: nat)
    requires i <= k <= |blocks|
    ensures RingFrames(blocks[..i]) <= RingFrames(blocks[..k])
  {
    RingFramesAppend(blocks[..i], blocks[i..k]);
    assert blocks[..k] == blocks[..i] + blocks[i..k];
  }

  /** No two blocks carry one ring frame. */
  lemma OneCarrier(blocks: seq<Block>, frame: nat, i: nat, k: nat)
    requires i < |blocks| && k < |blocks|
    requires RingFrames(blocks[..k]) <= frame < RingFrames(blocks[..k]) + blocks[k].outFrames
    ensures RingFrames(blocks[..i]) <= frame < RingFrames(blocks[..i]) + blocks[i].outFrames ==> i == k
  {
    RingFramesSplit(blocks, i);
    RingFramesSplit(blocks, k);
    if i < k {
      PrefixFrames(blocks, i + 1, k);
    } else if k < i {
      PrefixFrames(blocks, k + 1, i);
    }
  }

  lemma {:induction false} AtLeastShort(blocks: seq<Block>, block: nat)
    requires FitPlans(blocks, block)
    ensures RingFrames(blocks) >= |blocks| * (block - 1)
  {
    if blocks != [] {
      AtLeastShort(blocks[1..], block);
      assert |blocks| * (block - 1) == (|blocks| - 1) * (block - 1) + (block - 1);
    }
  }

  /** A block older than the last 32 lies wholly further back than the ring reaches. */
  lemma RecentBlocksFill(blocks: seq<Block>, k: nat, block: nat)
    requires block >= 2 && FitPlans(blocks, block) && k < |blocks|
    requires RingFrames(blocks) < RingFrames(blocks[..k]) + blocks[k].outFrames + SampleRing.RING_BLOCKS * block
    ensures k + LOG_LEN >= |blocks|
  {
    if k + LOG_LEN < |blocks| {
      RingFramesSplit(blocks, k);
      var rest := blocks[k + 1..];
      assert blocks[k..] == [blocks[k]] + rest;
      AtLeastShort(rest, block);
      EnoughShort(|rest|, block);
    }
  }

  lemma EnoughShort(n: nat, block: nat)
    requires n >= LOG_LEN && block >= 2
    ensures n * (block - 1) >= SampleRing.RING_BLOCKS * block
  {
    IntFacts.MulMono(LOG_LEN, n, block - 1);
  }

  /** A block of one frame is the exception: 32 of them, each a sample dropped, push
      nothing, and a frame the ring still holds has left the log. */
  lemma OneFrameBlocksOutrunTheLog(log: PushLog)
    requires log.Valid() && log.pushes == Records(DROPPING, 0)
    ensures FitPlans(DROPPING, 1) && 0 < RingFrames(DROPPING) <= SampleRing.RING_BLOCKS
    ensures log.MasterAt(0) == None
  {
    var dropped := seq(LOG_LEN, _ => Block([0.0, 0.0], 0, 0, Some(0)));
    assert DROPPING[1..] == dropped;
    AllDropped(dropped);
    forall k | 0 <= k < |log.pushes| && k + LOG_LEN >= |log.pushes|
      ensures !log.pushes[k].Carries(0)
    {
      RecordAt(DROPPING, 0, k);
    }
    log.LogIsSilent(0);
  }

  const DROPPING: seq<Block> :=
    [Block([0.0, 0.0], 0, 1, Some(0))] + seq(LOG_LEN, _ => Block([0.0, 0.0], 0, 0, Some(0)))

  lemma {:induction false} AllDropped(blocks: seq<Block>)
    requires forall k | 0 <= k < |blocks| :: blocks[k].outFrames == 0
    ensures RingFrames(blocks) == 0
  {
    if blocks != [] {
      AllDropped(blocks[1..]);
    }
  }

  lemma FirstPlace(nIn: nat, nOut: nat)
    requires nOut > 0
    ensures Place(0, nIn, nOut) == 0.0
  {
  }

  lemma {:induction false} RecordAt(blocks: seq<Block>, start: nat, k: nat)
    requires k < |blocks|
    ensures Records(blocks, start)[k]
         == PushRecord(start + RingFrames(blocks[..k]), blocks[k].base, |blocks[k].rendered| / CHANNELS,
                       blocks[k].outFrames, blocks[k].epoch)
  {
    if k > 0 {
      RecordAt(blocks[1..], start + blocks[0].outFrames, k - 1);
      assert blocks[..k][1..] == blocks[1..][..k - 1];
    }
  }

  lemma {:induction false} RecordsLie(blocks: seq<Block>, start: nat, k: nat)
    requires k < |blocks|
    ensures start <= Records(blocks, start)[k].ringStart
    ensures Records(blocks, start)[k].ringStart + Records(blocks, start)[k].outFrames <= start + RingFrames(blocks)
  {
    if k > 0 {
      RecordsLie(blocks[1..], start + blocks[0].outFrames, k - 1);
    }
  }

  /** The log tells what plays: given contiguous blocks of an affine signal, slipped or
      not, every ring frame has the signal's value at the place its record names. */
  lemma {:induction false} LogTellsWhatPlays(
      signal: Affine, blocks: seq<Block>, prev: Samples, base: int, start: nat, k: nat, frame: nat, c: nat)
    requires signal.Valid() && c < CHANNELS && ContiguousRender(signal, blocks, base) && |prev| == CHANNELS
    requires k < |blocks| && Records(blocks, start)[k].Carries(frame)
    requires blocks[0].Slips() ==> Precedes(signal, prev, base)
    ensures start <= frame < start + RingFrames(blocks)
    ensures RingSample(blocks, prev, frame - start, c) == signal.Value(Records(blocks, start)[k].MasterAt(frame), c)
    decreases |blocks|
  {
    var b := blocks[0];
    RecordsLie(blocks, start, k);
    if k == 0 {
      FirstBlockPlays(signal, blocks, prev, base, start, frame, c);
    } else {
      hide Respaced, Renders, Affine.Value, Precedes, LastFrame, PushRecord.MasterAt;
      RecordsLie(blocks[1..], start + b.outFrames, k - 1);
      LastFramePrecedes(signal, b.rendered, prev, base);
      LogTellsWhatPlays(signal, blocks[1..], LastFrame(b.rendered, prev), base + |b.rendered| / CHANNELS,
                        start + b.outFrames, k - 1, frame, c);
    }
  }

  lemma FirstBlockPlays(
      signal: Affine, blocks: seq<Block>, prev: Samples, base: int, start: nat, frame: nat, c: nat)
    requires signal.Valid() && c < CHANNELS && ContiguousRender(signal, blocks, base) && |prev| == CHANNELS
    requires blocks != [] && Records(blocks, start)[0].Carries(frame) && frame - start < RingFrames(blocks)
    requires blocks[0].Slips() ==> Precedes(signal, prev, base)
    ensures RingSample(blocks, prev, frame - start, c) == signal.Value(Records(blocks, start)[0].MasterAt(frame), c)
  {
    hide Respaced, Renders, Affine.Value, Precedes, LastFrame;
    var b := blocks[0];
    AffineIsKept(signal, b.rendered, prev, base, b.outFrames, frame - start, c);
  }

  /** What is on a ring frame does not depend on the blocks pushed after it. */
  lemma {:induction false} LaterBlocksDoNotMatter(blocks: seq<Block>, prev: Samples, e: nat, f: nat, c: nat)
    requires |prev| == CHANNELS && e <= |blocks| && f < RingFrames(blocks[..e]) && c < CHANNELS
    ensures f < RingFrames(blocks)
    ensures RingSample(blocks, prev, f, c) == RingSample(blocks[..e], prev, f, c)
    decreases |blocks|
  {
    hide Respaced, LastFrame;
    var b := blocks[0];
    assert blocks[..e][1..] == blocks[1..][..e - 1];
    PrefixFrames(blocks, e, |blocks|);
    assert blocks[..|blocks|] == blocks;
    if f >= b.outFrames {
      LaterBlocksDoNotMatter(blocks[1..], LastFrame(b.rendered, prev), e - 1, f - b.outFrames, c);
    }
  }

  /** Past its first `m` blocks a run is the run of the rest. */
  lemma {:induction false} EarlierBlocksDrop(blocks: seq<Block>, prev: Samples, m: nat, f: nat, c: nat)
    requires |prev| == CHANNELS && m <= |blocks| && RingFrames(blocks[..m]) <= f < RingFrames(blocks) && c < CHANNELS
    ensures f - RingFrames(blocks[..m]) < RingFrames(blocks[m..])
    ensures RingSample(blocks, prev, f, c)
         == RingSample(blocks[m..], PrevAfter(blocks[..m], prev), f - RingFrames(blocks[..m]), c)
    decreases |blocks|
  {
    hide Respaced, LastFrame;
    if m == 0 {
      assert blocks[0..] == blocks;
    } else {
      var b := blocks[0];
      assert blocks[..m][1..] == blocks[1..][..m - 1] && blocks[1..][m - 1..] == blocks[m..];
      EarlierBlocksDrop(blocks[1..], LastFrame(b.rendered, prev), m - 1, f - b.outFrames, c);
    }
  }

  /** The stretch's frames, as its own records name them. */
  lemma StretchPlays(signal: Affine, blocks: seq<Block>, prev: Samples, m: nat, e: nat, base: int,
                     k: nat, frame: nat, c: nat)
    requires signal.Valid() && c < CHANNELS && |prev| == CHANNELS && m < e <= |blocks|
    requires ContiguousRender(signal, blocks[m..e], base) && !blocks[m].Slips()
    requires RingFrames(blocks[..m]) <= frame < RingFrames(blocks[..e])
    requires k < |blocks| && Records(blocks, 0)[k].Carries(frame)
    ensures frame < RingFrames(blocks)
    ensures RingSample(blocks, prev, frame, c) == signal.Value(Records(blocks, 0)[k].MasterAt(frame), c)
  {
    hide Records, RingFrames, PrevAfter, RingSample, PushRecord.MasterAt, ContiguousRender, Affine.Value;
    var start, stretch := RingFrames(blocks[..m]), blocks[m..e];
    RecordAt(blocks, 0, k);
    assert m <= k < e by {
      if k < m {
        RingFramesSplit(blocks, k);
        PrefixFrames(blocks, k + 1, m);
      } else if e <= k {
        PrefixFrames(blocks, e, k);
      }
    }
    LaterBlocksDoNotMatter(blocks, prev, e, frame, c);
    assert blocks[..e][..m] == blocks[..m] && blocks[..e][m..] == stretch;
    EarlierBlocksDrop(blocks[..e], prev, m, frame, c);
    RecordAt(stretch, start, k - m);
    RingFramesAppend(blocks[..m], stretch[..k - m]);
    assert blocks[..k] == blocks[..m] + stretch[..k - m];
    assert Records(stretch, start)[k - m] == Records(blocks, 0)[k];
    LogTellsWhatPlays(signal, stretch, PrevAfter(blocks[..m], prev), base, start, k - m, frame, c);
  }

  /** The left neighbour the next block would have. */
  ghost function PrevAfter(blocks: seq<Block>, prev: Samples): (last: Samples)
    requires |prev| == CHANNELS
    ensures |last| == CHANNELS
    decreases |blocks|
  {
    if blocks == [] then prev else PrevAfter(blocks[1..], LastFrame(blocks[0].rendered, prev))
  }

  lemma {:induction false} AppendBlock(blocks: seq<Block>, b: Block, start: nat, prev: Samples)
    requires |prev| == CHANNELS
    ensures Records(blocks + [b], start)
         == Records(blocks, start)
            + [PushRecord(start + RingFrames(blocks), b.base, |b.rendered| / CHANNELS, b.outFrames, b.epoch)]
    ensures PrevAfter(blocks + [b], prev) == LastFrame(b.rendered, PrevAfter(blocks, prev))
    decreases |blocks|
  {
    hide LastFrame;
    if blocks != [] {
      AppendBlock(blocks[1..], b, start + blocks[0].outFrames, LastFrame(blocks[0].rendered, prev));
      assert (blocks + [b])[1..] == blocks[1..] + [b];
    }
  }

  lemma {:induction false} RecordsInOrder(blocks: seq<Block>, start: nat)
    ensures InOrder(Records(blocks, start))
  {
    if blocks != [] {
      var b := blocks[0];
      RecordsInOrder(blocks[1..], start + b.outFrames);
      var rest := Records(blocks[1..], start + b.outFrames);
      forall k | 0 <= k < |rest|
        ensures start + b.outFrames <= rest[k].ringStart
      {
        RecordsLie(blocks[1..], start + b.outFrames, k);
      }
    }
  }
}
