/** The master limiter as it runs: fixed buffers updated in place, one stereo
    frame at a time, proved against LimiterSpec. */
module MasterLimiting {
  import opened LimiterSpec

  /** `i mod cap` for an index that has wrapped at most once. */
  function Wrap(i: nat, cap: nat): nat {
    if i < cap then i else i - cap
  }

  lemma WrapIsMod(i: nat, cap: nat)
    requires i < 2 * cap
    ensures i % cap == Wrap(i, cap)
  {
  }

  /** `q` holds the suffix minima of `rs[lo..]`: positions and required gains
      both strictly increase, and every sample in reach requires at least the
      gain of some entry at or after it. */
  ghost predicate IsMinQueue(q: seq<nat>, rs: seq<real>, lo: nat) {
    && Rising(q, rs)
    && (forall i | 0 <= i < |q| :: lo <= q[i])
    && (forall t | lo <= t < |rs| :: Covered(q, rs, t))
  }

  ghost predicate Rising(q: seq<nat>, rs: seq<real>) {
    && (forall i | 0 <= i < |q| :: q[i] < |rs|)
    && (forall i, j | 0 <= i < j < |q| :: q[i] < q[j] && rs[q[i]] < rs[q[j]])
  }

  ghost predicate Covered(q: seq<nat>, rs: seq<real>, t: nat) {
    exists i | 0 <= i < |q| :: t <= q[i] < |rs| && t < |rs| && rs[q[i]] <= rs[t]
  }

  /** While `value` waits to join: what the popped entries covered, it covers. */
  ghost predicate Staged(q: seq<nat>, rs: seq<real>, lo: nat, value: real) {
    && Rising(q, rs)
    && (forall i | 0 <= i < |q| :: lo <= q[i])
    && (forall t | lo <= t < |rs| :: Covered(q, rs, t) || value <= rs[t])
  }

  lemma PopBack(q: seq<nat>, rs: seq<real>, lo: nat, value: real)
    requires Staged(q, rs, lo, value) && |q| > 0 && rs[q[|q| - 1]] >= value
    ensures Staged(q[..|q| - 1], rs, lo, value)
  {
  }

  lemma CoveredPushed(q: seq<nat>, rs: seq<real>, value: real, t: nat)
    requires t <= |rs|
    requires t < |rs| ==> Covered(q, rs, t) || value <= rs[t]
    ensures Covered(q + [|rs|], rs + [value], t)
  {
    var p, vs := q + [|rs|], rs + [value];
    if t < |rs| && Covered(q, rs, t) {
      var i :| 0 <= i < |q| && t <= q[i] < |rs| && rs[q[i]] <= rs[t];
      assert p[i] == q[i] && vs[p[i]] == rs[q[i]];
    } else {
      assert p[|q|] == |rs| && vs[p[|q|]] == value;
    }
  }

  lemma PushBack(q: seq<nat>, rs: seq<real>, lo: nat, value: real)
    requires Staged(q, rs, lo, value) && lo <= |rs| && (|q| == 0 || rs[q[|q| - 1]] < value)
    ensures IsMinQueue(q + [|rs|], rs + [value], lo)
  {
    hide Covered;
    forall t | lo <= t <= |rs|
      ensures Covered(q + [|rs|], rs + [value], t)
    {
      CoveredPushed(q, rs, value, t);
    }
  }

  lemma PopFront(q: seq<nat>, rs: seq<real>, lo: nat)
    requires Rising(q, rs) && |q| > 0 && q[0] < lo
    requires forall t | lo <= t < |rs| :: Covered(q, rs, t)
    ensures Rising(q[1..], rs)
    ensures forall t | lo <= t < |rs| :: Covered(q[1..], rs, t)
  {
    forall t | lo <= t < |rs|
      ensures Covered(q[1..], rs, t)
    {
      assert Covered(q, rs, t);
      var i :| 0 <= i < |q| && t <= q[i] < |rs| && rs[q[i]] <= rs[t];
      assert q[1..][i - 1] == q[i];
    }
  }

  lemma HeadExists(q: seq<nat>, rs: seq<real>, lo: nat)
    requires lo < |rs| && forall t | lo <= t < |rs| :: Covered(q, rs, t)
    ensures |q| > 0
  {
    assert Covered(q, rs, lo);
  }

  lemma HeadIsWindowMin(q: seq<nat>, rs: seq<real>, lo: nat)
    requires IsMinQueue(q, rs, lo) && lo < |rs|
    ensures |q| > 0 && rs[q[0]] == WindowMin(rs, lo, |rs| - 1)
  {
    WindowMinIsMin(rs, lo, |rs| - 1);
    assert Covered(q, rs, lo);
    var t :| lo <= t <= |rs| - 1 && WindowMin(rs, lo, |rs| - 1) == rs[t];
    assert Covered(q, rs, t);
    var i :| 0 <= i < |q| && t <= q[i] < |rs| && rs[q[i]] <= rs[t];
    assert rs[q[0]] <= rs[q[i]];
  }

  lemma QueueLength(q: seq<nat>, lo: nat, hi: nat)
    requires forall i | 0 <= i < |q| :: lo <= q[i] < hi
    requires forall i, j | 0 <= i < j < |q| :: q[i] < q[j]
    requires lo <= hi
    ensures |q| <= hi - lo
    decreases |q|
  {
    if |q| > 0 {
      QueueLength(q[..|q| - 1], lo, q[|q| - 1]);
    }
  }

  function CountNotUnity(s: seq<real>): nat {
    if s == [] then 0 else (if s[0] != 1.0 then 1 else 0) + CountNotUnity(s[1..])
  }

  lemma {:induction false} CountUpdate(s: seq<real>, i: nat, v: real)
    requires i < |s|
    ensures CountNotUnity(s[i := v]) + (if s[i] != 1.0 then 1 else 0)
         == CountNotUnity(s) + (if v != 1.0 then 1 else 0)
  {
    if i == 0 {
      assert s[0 := v][1..] == s[1..];
    } else {
      CountUpdate(s[1..], i - 1, v);
      assert s[i := v][1..] == s[1..][i - 1 := v];
    }
  }

  lemma {:induction false} NoneNotUnity(s: seq<real>)
    requires CountNotUnity(s) == 0
    ensures Sum(s) == |s| as real
  {
    if s != [] {
      NoneNotUnity(s[1..]);
    }
  }

  lemma {:induction false} CountPositive(s: seq<real>, i: nat)
    requires i < |s| && s[i] != 1.0
    ensures CountNotUnity(s) > 0
  {
    if i > 0 {
      CountPositive(s[1..], i - 1);
    }
  }

  /** Replacing the oldest entry of a ring and moving past it is dropping the
      first of the rotated contents and appending. */
  lemma Rotate(s: seq<real>, pos: nat, v: real)
    requires pos < |s|
    ensures (pos + 1) % |s| < |s|
    ensures var t, next := s[pos := v], (pos + 1) % |s|;
            t[next..] + t[..next] == (s[pos..] + s[..pos])[1..] + [v]
  {
    WrapIsMod(pos + 1, |s|);
  }

  lemma SumRotated(s: seq<real>, pos: nat)
    requires pos <= |s|
    ensures Sum(s[pos..] + s[..pos]) == Sum(s)
  {
    SumAppend(s[pos..], s[..pos]);
    SumAppend(s[..pos], s[pos..]);
    assert s[..pos] + s[pos..] == s;
  }

  ghost predicate AllSilent(a: array<real>, length: nat)
    reads a
  {
    a.Length == length && forall i | 0 <= i < length :: a[i] == 0.0
  }

  class MasterLimiter {
    const p: Shape
    var ceiling: real
    const histL: array<real>
    const histR: array<real>
    var histPos: nat
    const tp: array<real>
    const minIdx: array<nat>
    const minVal: array<real>
    var minHead: nat
    var minLen: nat
    const boxRing: array<real>
    var boxPos: nat
    var boxSum: real
    var boxNotUnity: nat
    const delay: array<real>
    var delayPos: nat
    var gain: real
    var n: nat

    // The run so far: the frames taken, the ceiling in force at each, the gain
    // each required, and the queue the circular arrays hold.
    ghost var xs: seq<Frame>
    ghost var cs: seq<real>
    ghost var rs: seq<real>
    ghost var queue: seq<nat>

    ghost predicate Separate() {
      && histL != histR && histL != tp && histL != minVal && histL != boxRing && histL != delay
      && histR != tp && histR != minVal && histR != boxRing && histR != delay
      && tp != minVal && tp != boxRing && tp != delay
      && minVal != boxRing && minVal != delay && boxRing != delay
    }

    ghost predicate Valid()
      reads this, histL, histR, tp, minIdx, minVal, boxRing, delay
    {
      && p.Valid() && Separate() && ceiling > 0.0
      && |cs| == |xs| && Positive(cs) && rs == Requireds(p, xs, cs) && n == |xs| + DETECTOR_DELAY
      && Detected(xs)
      && QueueOk(queue, rs) && IsMinQueue(queue, rs, QueueStart(|rs|))
      && BoxOk(Minima(p.lookahead, rs, |rs| - 1))
      && gain == Gain(p, rs, |rs| - 1)
      && DelayOk(xs)
    }

    /** The last 12 samples of a channel, each held twice. */
    ghost predicate HistoryOk(h: array<real>, left: bool, xs: seq<Frame>)
      reads h
    {
      && h.Length == 2 * TAPS
      && (forall i | 0 <= i < TAPS :: h[i] == h[i + TAPS])
      && (forall t | |xs| - DETECTOR_DELAY <= t < |xs| + DETECTOR_DELAY ::
            h[(t + DETECTOR_DELAY) % TAPS] == Channel(Sample(xs, t), left))
    }

    /** The slots of the six samples whose true peak is not complete. Only the
        oldest has had one of its two neighbouring interpolated peaks. */
    ghost predicate PeaksOk(xs: seq<Frame>)
      requires p.Valid()
      reads tp
    {
      && tp.Length == DETECTOR_DELAY + 2
      && tp[|xs| % 8] == Max(OwnPeak(Sample(xs, |xs|)), Between(p, xs, |xs| + DETECTOR_DELAY - 1))
      && (forall t | |xs| < t < |xs| + DETECTOR_DELAY :: tp[t % 8] == OwnPeak(Sample(xs, t)))
    }

    ghost function QueueStart(count: nat): nat {
      if count < p.lookahead then 0 else count - p.lookahead
    }

    /** The circular arrays hold exactly the queue and its required gains. */
    ghost predicate QueueOk(q: seq<nat>, rs: seq<real>)
      reads this`minHead, this`minLen, minIdx, minVal
    {
      && minIdx.Length == minVal.Length == p.lookahead + 1
      && minHead < minIdx.Length && minLen == |q| <= minIdx.Length
      && (forall i | 0 <= i < |q| ::
            && q[i] < |rs|
            && minIdx[Wrap(minHead + i, minIdx.Length)] == q[i]
            && minVal[Wrap(minHead + i, minIdx.Length)] == rs[q[i]])
    }

    /** The box ring holds the minima `w`, oldest at `boxPos`; its running sum
        and its count of non-unity entries are those of its contents. */
    ghost predicate BoxOk(w: seq<real>)
      reads this`boxPos, this`boxSum, this`boxNotUnity, boxRing
    {
      && boxRing.Length == |w| && boxPos < |w|
      && boxRing[boxPos..] + boxRing[..boxPos] == w
      && boxSum == Sum(boxRing[..])
      && boxNotUnity == CountNotUnity(boxRing[..])
    }

    /** The delay line holds the last `latency` frames, oldest at `delayPos`. */
    ghost predicate DelayOk(xs: seq<Frame>)
      requires p.Valid()
      reads this`delayPos, delay
    {
      && delay.Length == 2 * p.Latency()
      && delayPos % 2 == 0 && delayPos < delay.Length
      && (forall j | 0 <= j < p.Latency() :: DelayHolds(j, Held(xs, j)))
    }

    /** The frame that leaves `j` frames from now. */
    ghost function Held(xs: seq<Frame>, j: nat): Frame
      requires p.Valid() && j < p.Latency()
    {
      if |xs| + j < p.Latency() then SILENCE else xs[|xs| + j - p.Latency()]
    }

    ghost predicate DelayHolds(j: nat, f: Frame)
      requires p.Valid() && delay.Length == 2 * p.Latency() && delayPos % 2 == 0 && delayPos < delay.Length
      requires j < p.Latency()
      reads this`delayPos, delay
    {
      var at := Wrap(delayPos + 2 * j, delay.Length);
      delay[at] == f.l && delay[at + 1] == f.r
    }

    constructor (shape: Shape, startCeiling: real)
      requires shape.Valid() && startCeiling > 0.0
      ensures Valid() && p == shape && ceiling == startCeiling
      ensures xs == [] && cs == [] && gain == 1.0
      ensures fresh(histL) && fresh(histR) && fresh(tp) && fresh(minIdx) && fresh(minVal)
      ensures fresh(boxRing) && fresh(delay)
    {
      p := shape;
      ceiling := startCeiling;
      histL := new real[2 * TAPS](_ => 0.0);
      histR := new real[2 * TAPS](_ => 0.0);
      histPos := 0;
      tp := new real[DETECTOR_DELAY + 2](_ => 0.0);
      minIdx := new nat[shape.lookahead + 1](_ => 0);
      minVal := new real[shape.lookahead + 1](_ => 1.0);
      minHead, minLen := 0, 0;
      boxRing := new real[shape.lookahead](_ => 1.0);
      boxPos, boxSum, boxNotUnity := 0, shape.lookahead as real, 0;
      delay := new real[shape.Latency() * 2](_ => 0.0);
      delayPos := 0;
      gain := 1.0;
      n := DETECTOR_DELAY;
      xs, cs, rs, queue := [], [], [], [];
      new;
      SilenceIsValid();
    }

    lemma SilentDelay()
      requires p.Valid() && AllSilent(delay, 2 * p.Latency()) && delayPos == 0
      ensures DelayOk([])
    {
    }

    lemma SilentPeaks()
      requires p.Valid() && AllSilent(tp, DETECTOR_DELAY + 2)
      ensures PeaksOk([])
    {
      hide Between;
      SilentBetween(p, DETECTOR_DELAY - 1);
      assert tp[0] == 0.0;
      forall t | 0 < t < DETECTOR_DELAY
        ensures tp[t % 8] == OwnPeak(Sample([], t))
      {
        assert t % 8 == t;
      }
    }

    lemma UnityBox()
      requires p.Valid() && boxRing[..] == seq(p.lookahead, _ => 1.0)
      requires boxPos == boxNotUnity == 0 && boxSum == p.lookahead as real
      ensures BoxOk(Minima(p.lookahead, [], -1))
    {
      hide Sum, Minima, CountNotUnity;
      StartingMinima(p.lookahead);
      assert boxRing[0..] + boxRing[..0] == boxRing[..];
      SumUnity(boxRing[..]);
      AllUnity(boxRing[..]);
    }

    lemma SilentHistory(h: array<real>, left: bool)
      requires AllSilent(h, 2 * TAPS)
      ensures HistoryOk(h, left, [])
    {
    }

    /** Before the first frame every buffer holds silence, and every gain unity. */
    lemma SilenceIsValid()
      requires p.Valid() && Separate() && ceiling > 0.0 && n == DETECTOR_DELAY && histPos == 0
      requires xs == [] && cs == [] && rs == [] && queue == [] && gain == 1.0
      requires AllSilent(histL, 2 * TAPS) && AllSilent(histR, 2 * TAPS) && AllSilent(tp, DETECTOR_DELAY + 2)
      requires AllSilent(delay, 2 * p.Latency()) && delayPos == 0
      requires minIdx.Length == minVal.Length == p.lookahead + 1 && minHead == minLen == 0
      requires boxRing[..] == seq(p.lookahead, _ => 1.0)
      requires boxPos == boxNotUnity == 0 && boxSum == p.lookahead as real
      ensures Valid()
    {
      hide Requireds, AllSilent, HistoryOk, DelayOk, PeaksOk, BoxOk, Minima, Attack, TruePeak, RequiredGain;
      SilentHistory(histL, true);
      SilentHistory(histR, false);
      SilentDelay();
      SilentPeaks();
      UnityBox();
    }

    /** A change of ceiling touches nothing but the ceiling. */
    method SetCeiling(c: real)
      requires Valid() && c > 0.0
      modifies this`ceiling
      ensures Valid() && ceiling == c
    {
      ceiling := c;
    }

    /** The history slot `j` places before the newest holds the sample `j`
        before the newest. */
    lemma HistoryAt(h: array<real>, left: bool, ys: seq<Frame>, j: nat)
      requires |ys| > 0 && HistoryOk(h, left, ys) && histPos == (|ys| - 1) % TAPS && j < TAPS
      ensures h[histPos + TAPS - j] == Channel(Sample(ys, |ys| + DETECTOR_DELAY - 1 - j), left)
    {
    }

    /** One interpolated point: the taps of `phase` against the newest samples. */
    method Convolve(h: array<real>, left: bool, phase: seq<real>, ghost ys: seq<Frame>) returns (y: real)
      requires |phase| == TAPS && |ys| > 0 && HistoryOk(h, left, ys) && histPos == (|ys| - 1) % TAPS
      ensures y == Fir(phase, ys, left, |ys| + DETECTOR_DELAY - 1, TAPS)
    {
      y := 0.0;
      var newest := histPos + TAPS;
      assert h.Length == 2 * TAPS;
      hide HistoryOk, Sample, Channel;
      for j := 0 to TAPS
        invariant y == Fir(phase, ys, left, |ys| + DETECTOR_DELAY - 1, j)
      {
        HistoryAt(h, left, ys, j);
        y := y + phase[j] * h[newest - j];
      }
    }

    /** The largest interpolated point of one channel, folded into `start`. */
    method Interpolate(h: array<real>, left: bool, start: real, ghost ys: seq<Frame>) returns (between: real)
      requires p.Valid() && start >= 0.0
      requires |ys| > 0 && HistoryOk(h, left, ys) && histPos == (|ys| - 1) % TAPS
      ensures between == Max(start, Points(p, ys, left, |ys| + DETECTOR_DELAY - 1, PHASES))
    {
      hide Fir;
      between := start;
      for k := 0 to PHASES
        invariant between == Max(start, Points(p, ys, left, |ys| + DETECTOR_DELAY - 1, k))
      {
        var y := Convolve(h, left, p.phases[k], ys);
        between := Max(between, Abs(y));
      }
    }

    /** Write the newest sample into its two places in a channel's history. */
    method Remember(h: array<real>, left: bool, x: Frame)
      requires histPos == |xs| % TAPS && HistoryOk(h, left, xs)
      modifies h
      ensures HistoryOk(h, left, xs + [x])
    {
      h[histPos] := Channel(x, left);
      h[histPos + TAPS] := Channel(x, left);
      ghost var ys := xs + [x];
      forall t | |ys| - DETECTOR_DELAY <= t < |ys| + DETECTOR_DELAY
        ensures h[(t + DETECTOR_DELAY) % TAPS] == Channel(Sample(ys, t), left)
      {
        if t < |xs| + DETECTOR_DELAY {
          assert Sample(ys, t) == Sample(xs, t);
          SlotMoves(|xs|, t);
        }
      }
    }

    /** The state once the newest frame `ys` ends with has been metered: the
        detector and the minimum are a frame ahead of the box and the delay. */
    ghost predicate Metered(ys: seq<Frame>, qs: seq<real>)
      reads this, histL, histR, tp, minIdx, minVal, boxRing, delay
    {
      && p.Valid() && Separate() && |rs| == |xs| && |qs| == |ys| > 0
      && Detected(ys)
      && QueueOk(queue, qs) && IsMinQueue(queue, qs, QueueStart(|qs|))
      && BoxOk(Minima(p.lookahead, rs, |rs| - 1)) && DelayOk(xs)
    }

    /** The detector and the sliding minimum. */
    method Meter(x: Frame, ghost qs: seq<real>) returns (minimum: real)
      requires Valid() && qs == rs + [RequiredGain(TruePeak(p, xs + [x], |xs|), ceiling)]
      modifies histL, histR, tp, this`histPos, minIdx, minVal, this`minHead, this`minLen, this`queue
      ensures Metered(xs + [x], qs) && minimum == Minimum(p.lookahead, qs, |rs|)
    {
      hide Gain, Minima, Minimum, TruePeak, Requireds, RequiredGain, Positive, IsMinQueue;
      hide Detected, QueueOk, BoxOk, DelayOk;
      var peak := Detect(x);
      PushMin(n - DETECTOR_DELAY, RequiredGain(peak, ceiling));
      HeadHolds(qs);
      minimum := minVal[minHead];
    }

    /** The gain, and the delayed frame it belongs to. */
    method Level(x: Frame, minimum: real, ghost qs: seq<real>) returns (out: Frame)
      requires Metered(xs + [x], qs) && rs < qs
      requires minimum == Minimum(p.lookahead, qs, |rs|) && gain == Gain(p, rs, |rs| - 1)
      modifies boxRing, this`boxPos, this`boxSum, this`boxNotUnity, this`gain, delay, this`delayPos
      ensures Detected(xs + [x]) && QueueOk(queue, qs) && IsMinQueue(queue, qs, QueueStart(|qs|))
      ensures BoxOk(Minima(p.lookahead, qs, |rs|)) && DelayOk(xs + [x])
      ensures gain == Gain(p, qs, |rs|) && out == Scale(Delayed(p, xs + [x], |xs|), gain)
    {
      hide Gain, Minima, Minimum, IsMinQueue, NextGain, Detected, QueueOk, BoxOk, DelayOk, Scale, Delayed, Sum;
      assert qs == rs + [qs[|rs|]];
      NextGainUnfold(p, rs, qs[|rs|]);
      var attack := Average(minimum, Minima(p.lookahead, rs, |rs| - 1));
      gain := NextGain(p.release, gain, attack);
      var d := Delay(x);
      out := Scale(d, gain);
    }

    /** Take one frame, and give back the specified output for the run it extends. */
    method Process(x: Frame) returns (out: Frame)
      requires Valid()
      modifies this, histL, histR, tp, minIdx, minVal, boxRing, delay
      ensures Valid()
      ensures ceiling == old(ceiling) && xs == old(xs) + [x] && cs == old(cs) + [ceiling]
      ensures out == Output(p, xs, cs, |xs| - 1)
    {
      hide Gain, Minima, Minimum, TruePeak, Requireds, RequiredGain, Positive, IsMinQueue;
      hide Detected, QueueOk, BoxOk, DelayOk, Scale, Delayed, Output;
      ghost var ys, ds := xs + [x], cs + [ceiling];
      ghost var qs := rs + [RequiredGain(TruePeak(p, ys, |xs|), ceiling)];
      NextRequired(p, xs, cs, x, ceiling);
      OutputUnfold(p, ys, ds, qs);
      var minimum := Meter(x, qs);
      out := Level(x, minimum, qs);
      n := n + 1;
      xs, cs, rs := ys, ds, qs;
      Assemble();
    }

    lemma Assemble()
      requires p.Valid() && Separate() && ceiling > 0.0
      requires |cs| == |xs| && Positive(cs) && rs == Requireds(p, xs, cs) && n == |xs| + DETECTOR_DELAY
      requires Detected(xs) && QueueOk(queue, rs) && IsMinQueue(queue, rs, QueueStart(|rs|))
      requires BoxOk(Minima(p.lookahead, rs, |rs| - 1)) && gain == Gain(p, rs, |rs| - 1) && DelayOk(xs)
      ensures Valid()
    {
      hide Gain, Minima, Requireds, Positive, IsMinQueue, Detected, QueueOk, BoxOk, DelayOk;
    }

    ghost predicate Detected(ys: seq<Frame>)
      requires p.Valid()
      reads histL, histR, tp, this`histPos
    {
      HistoryOk(histL, true, ys) && HistoryOk(histR, false, ys) && histPos == |ys| % TAPS && PeaksOk(ys)
    }

    lemma HeadHolds(qs: seq<real>)
      requires p.Valid() && |qs| > 0 && QueueOk(queue, qs) && IsMinQueue(queue, qs, QueueStart(|qs|))
      ensures minHead < minVal.Length && minVal[minHead] == Minimum(p.lookahead, qs, |qs| - 1)
    {
      HeadIsWindowMin(queue, qs, QueueStart(|qs|));
      assert minVal[Wrap(minHead + 0, minIdx.Length)] == qs[queue[0]];
    }

    /** Meter the newest frame. The true peak returned is of the sample six earlier,
        which nothing still to come can raise. */
    method Detect(x: Frame) returns (peak: real)
      requires p.Valid() && Separate() && n == |xs| + DETECTOR_DELAY
      requires Detected(xs)
      modifies histL, histR, tp, this`histPos
      ensures Detected(xs + [x])
      ensures peak == TruePeak(p, xs + [x], |xs|)
    {
      hide Points, Between;
      ghost var ys := xs + [x];
      Remember(histL, true, x);
      Remember(histR, false, x);
      var between := Interpolate(histL, true, 0.0, ys);
      between := Interpolate(histR, false, between, ys);
      PointsJoin(p, ys, n);
      NextSlot(|xs|);
      histPos := (histPos + 1) % TAPS;
      peak := CountPeaks(x, between);
    }

    /** Slide the window over the required gains on by one. */
    method PushMin(s: nat, value: real)
      requires p.Valid() && s == |rs| && QueueOk(queue, rs) && IsMinQueue(queue, rs, QueueStart(s))
      modifies minIdx, minVal, this`minHead, this`minLen, this`queue
      ensures QueueOk(queue, rs + [value]) && IsMinQueue(queue, rs + [value], QueueStart(s + 1))
    {
      hide Covered, Rising, QueueOk;
      PopDominated(value, QueueStart(s));
      Append(s, value);
      PopExpired(if s < p.lookahead - 1 then 0 else s - (p.lookahead - 1), rs + [value]);
    }

    method PopDominated(value: real, ghost lo: nat)
      requires QueueOk(queue, rs) && Staged(queue, rs, lo, value)
      modifies this`minLen, this`queue
      ensures QueueOk(queue, rs) && Staged(queue, rs, lo, value)
      ensures |queue| > 0 ==> rs[queue[|queue| - 1]] < value
    {
      hide Covered;
      while minLen > 0
        invariant QueueOk(queue, rs) && Staged(queue, rs, lo, value)
        decreases minLen
      {
        WrapIsMod(minHead + minLen - 1, minIdx.Length);
        var back := (minHead + minLen - 1) % minIdx.Length;
        if minVal[back] >= value {
          PopBack(queue, rs, lo, value);
          minLen := minLen - 1;
          queue := queue[..minLen];
        } else {
          break;
        }
      }
    }

    method Append(s: nat, value: real)
      requires p.Valid() && s == |rs| && QueueOk(queue, rs) && Staged(queue, rs, QueueStart(s), value)
      requires |queue| > 0 ==> rs[queue[|queue| - 1]] < value
      modifies minIdx, minVal, this`minLen, this`queue
      ensures QueueOk(queue, rs + [value]) && IsMinQueue(queue, rs + [value], QueueStart(s))
    {
      hide Covered;
      PushBack(queue, rs, QueueStart(s), value);
      QueueLength(queue, QueueStart(s), s);
      WrapIsMod(minHead + minLen, minIdx.Length);
      var slot := (minHead + minLen) % minIdx.Length;
      minIdx[slot] := s;
      minVal[slot] := value;
      minLen := minLen + 1;
      queue := queue + [s];
    }

    method PopExpired(oldest: nat, ghost vs: seq<real>)
      requires oldest < |vs| && QueueOk(queue, vs) && Rising(queue, vs)
      requires forall t | oldest <= t < |vs| :: Covered(queue, vs, t)
      modifies this`minHead, this`minLen, this`queue
      ensures QueueOk(queue, vs) && IsMinQueue(queue, vs, oldest)
    {
      hide Covered;
      HeadExists(queue, vs, oldest);
      while minIdx[minHead] < oldest
        invariant QueueOk(queue, vs) && Rising(queue, vs)
        invariant |queue| > 0 && minIdx[minHead] == queue[0]
        invariant forall t | oldest <= t < |vs| :: Covered(queue, vs, t)
        decreases |queue|
      {
        PopFront(queue, vs, oldest);
        HeadExists(queue[1..], vs, oldest);
        WrapIsMod(minHead + 1, minIdx.Length);
        minHead := (minHead + 1) % minIdx.Length;
        minLen := minLen - 1;
        queue := queue[1..];
        assert minIdx[Wrap(minHead, minIdx.Length)] == queue[0];
      }
    }

    method SumRing() returns (sum: real)
      ensures sum == Sum(boxRing[..])
    {
      sum := 0.0;
      for i := 0 to boxRing.Length
        invariant sum == Sum(boxRing[..i])
      {
        SumAppend(boxRing[..i], [boxRing[i]]);
        assert boxRing[..i + 1] == boxRing[..i] + [boxRing[i]];
        assert Sum([boxRing[i]]) == boxRing[i];
        sum := sum + boxRing[i];
      }
      assert boxRing[..boxRing.Length] == boxRing[..];
    }

    /** Replace the oldest minimum and return the mean of those now held. The two
        ways the sum is re-established leave its exact value alone. */
    method Average(minimum: real, ghost w: seq<real>) returns (attack: real)
      requires |w| == p.lookahead >= 1 && BoxOk(w)
      modifies boxRing, this`boxPos, this`boxSum, this`boxNotUnity
      ensures BoxOk(w[1..] + [minimum])
      ensures attack == Sum(w[1..] + [minimum]) / p.lookahead as real
    {
      hide Sum, CountNotUnity;
      ghost var before := boxRing[..];
      var leaving := boxRing[boxPos];
      CountUpdate(before, boxPos, minimum);
      SumUpdate(before, boxPos, minimum);
      if leaving != 1.0 {
        CountPositive(before, boxPos);
        boxNotUnity := boxNotUnity - 1;
      }
      if minimum != 1.0 {
        boxNotUnity := boxNotUnity + 1;
      }
      boxRing[boxPos] := minimum;
      assert boxRing[..] == before[boxPos := minimum];
      Rotate(before, boxPos, minimum);
      boxPos := (boxPos + 1) % p.lookahead;
      boxSum := boxSum + (minimum - leaving);
      if boxNotUnity == 0 {
        NoneNotUnity(boxRing[..]);
        boxSum := p.lookahead as real;
      } else if boxPos == 0 {
        boxSum := SumRing();
      }
      SumRotated(boxRing[..], boxPos);
      assert boxRing[boxPos..] + boxRing[..boxPos] == boxRing[..][boxPos..] + boxRing[..][..boxPos];
      attack := boxSum / p.lookahead as real;
    }

    /** The delayed frame out, the newest frame in its place. */
    method Delay(x: Frame) returns (d: Frame)
      requires p.Valid() && DelayOk(xs)
      modifies delay, this`delayPos
      ensures DelayOk(xs + [x]) && d == Delayed(p, xs + [x], |xs|)
    {
      assert DelayHolds(0, Held(xs, 0));
      ghost var was := delayPos;
      d := Frame(delay[delayPos], delay[delayPos + 1]);
      delay[delayPos] := x.l;
      delay[delayPos + 1] := x.r;
      WrapIsMod(delayPos + 2, delay.Length);
      delayPos := (delayPos + 2) % delay.Length;
      ghost var latency := p.Latency();
      forall j | 0 <= j < latency
        ensures DelayHolds(j, Held(xs + [x], j))
      {
        if j < latency - 1 {
          assert old(DelayHolds(j + 1, Held(xs, j + 1)));
          assert Held(xs + [x], j) == Held(xs, j + 1);
          assert Wrap(delayPos + 2 * j, delay.Length) == Wrap(was + 2 * (j + 1), delay.Length) != was;
        } else {
          assert Wrap(delayPos + 2 * j, delay.Length) == was;
        }
      }
    }

    method CountPeaks(x: Frame, between: real) returns (peak: real)
      requires p.Valid() && n == |xs| + DETECTOR_DELAY && PeaksOk(xs)
      requires between == Between(p, xs + [x], n)
      modifies tp
      ensures PeaksOk(xs + [x])
      ensures peak == TruePeak(p, xs + [x], |xs|)
    {
      hide Between;
      ghost var ys := xs + [x];
      BetweenPrefix(p, xs, x, n - 1);
      assert forall t | |xs| <= t < |xs| + DETECTOR_DELAY :: Sample(ys, t) == Sample(xs, t);
      var s := n - DETECTOR_DELAY;
      SlotsDistinct(|xs|);
      tp[n % 8] := OwnPeak(x);
      tp[s % 8] := Max(tp[s % 8], between);
      tp[(s + 1) % 8] := Max(tp[(s + 1) % 8], between);
      peak := tp[s % 8];
    }
  }

  lemma SlotsDistinct(s: nat)
    ensures forall t, u {:trigger t % 8, u % 8} | s <= t < u < s + 8 :: t % 8 != u % 8
  {
  }

  lemma PointsJoin(p: Shape, ys: seq<Frame>, t: nat)
    requires p.Valid() && t < |ys| + DETECTOR_DELAY
    ensures Max(Max(0.0, Points(p, ys, true, t, PHASES)), Points(p, ys, false, t, PHASES)) == Between(p, ys, t)
  {
  }

  lemma NextSlot(k: nat)
    ensures (k % TAPS + 1) % TAPS == (k + 1) % TAPS
  {
  }

  lemma SlotMoves(k: nat, t: int)
    requires k + 1 - DETECTOR_DELAY <= t < k + DETECTOR_DELAY
    ensures (t + DETECTOR_DELAY) % TAPS != k % TAPS
  {
  }

  lemma NextRequired(p: Shape, xs: seq<Frame>, cs: seq<real>, x: Frame, c: real)
    requires p.Valid() && |cs| == |xs| && c > 0.0 && Positive(cs)
    ensures Positive(cs + [c])
    ensures Requireds(p, xs + [x], cs + [c])
         == Requireds(p, xs, cs) + [RequiredGain(TruePeak(p, xs + [x], |xs|), c)]
  {
    hide TruePeak, RequiredGain;
    RequiredsPrefix(p, xs, cs, x, c);
  }

  lemma NextMinima(lookahead: nat, rs: seq<real>, r: real)
    requires lookahead >= 1
    ensures Minima(lookahead, rs + [r], |rs|)
         == Minima(lookahead, rs, |rs| - 1)[1..] + [Minimum(lookahead, rs + [r], |rs|)]
  {
    hide Minima;
    MinimaPrefix(lookahead, rs, r, |rs| - 1);
    MinimaSlide(lookahead, rs + [r], |rs|);
  }

  /** The gain after one more required gain, in terms of the gain before it. */
  lemma NextGainUnfold(p: Shape, rs: seq<real>, r: real)
    requires p.Valid()
    ensures Minima(p.lookahead, rs + [r], |rs|)
         == Minima(p.lookahead, rs, |rs| - 1)[1..] + [Minimum(p.lookahead, rs + [r], |rs|)]
    ensures Gain(p, rs + [r], |rs|)
         == NextGain(p.release, Gain(p, rs, |rs| - 1),
                     Sum(Minima(p.lookahead, rs + [r], |rs|)) / p.lookahead as real)
  {
    hide Sum, Minima, Minimum, NextGain;
    NextMinima(p.lookahead, rs, r);
    GainPrefix(p, rs, r, |rs| - 1);
  }

  lemma OutputUnfold(p: Shape, xs: seq<Frame>, cs: seq<real>, rs: seq<real>)
    requires p.Valid() && |cs| == |xs| > 0 && Positive(cs) && rs == Requireds(p, xs, cs)
    ensures Output(p, xs, cs, |xs| - 1) == Scale(Delayed(p, xs, |xs| - 1), Gain(p, rs, |rs| - 1))
  {
  }

  lemma StartingMinima(lookahead: nat)
    requires lookahead >= 1
    ensures Minima(lookahead, [], -1) == seq(lookahead, _ => 1.0)
  {
    forall i | 0 <= i < lookahead
      ensures Minima(lookahead, [], -1)[i] == 1.0
    {
      assert Minima(lookahead, [], -1)[i] == Minimum(lookahead, [], i - lookahead);
    }
  }

  lemma {:induction false} SilentFir(phase: seq<real>, left: bool, t: int, j: nat)
    requires j <= |phase| && t < DETECTOR_DELAY
    ensures Fir(phase, [], left, t, j) == 0.0
  {
    if j > 0 {
      SilentFir(phase, left, t, j - 1);
    }
  }

  lemma {:induction false} SilentPoints(p: Shape, left: bool, t: int, k: nat)
    requires p.Valid() && k <= PHASES && t < DETECTOR_DELAY
    ensures Points(p, [], left, t, k) == 0.0
  {
    if k > 0 {
      SilentPoints(p, left, t, k - 1);
      SilentFir(p.phases[k - 1], left, t, TAPS);
    }
  }

  lemma SilentBetween(p: Shape, t: int)
    requires p.Valid() && t < DETECTOR_DELAY
    ensures Between(p, [], t) == 0.0
  {
    SilentPoints(p, true, t, PHASES);
    SilentPoints(p, false, t, PHASES);
  }

  lemma {:induction false} AllUnity(s: seq<real>)
    requires forall i | 0 <= i < |s| :: s[i] == 1.0
    ensures CountNotUnity(s) == 0
  {
    if s != [] {
      AllUnity(s[1..]);
    }
  }
}
