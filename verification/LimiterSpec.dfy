/** What the master limiter computes, as functions of the whole run: the true
    peaks, the gain each sample requires, the sliding minimum, its average over
    the lookahead, and the released gain. The theorems at the end say what that
    gain does to the audio. */
module LimiterSpec {
  import opened RealFacts

  datatype Frame = Frame(l: real, r: real)

  const SILENCE := Frame(0.0, 0.0)
  const PHASES := 4
  const TAPS := 12
  const DETECTOR_DELAY := 6
  const UNITY_SNAP := 0.0000001

  /** A limiter's fixed parameters. The filter coefficients and the release
      coefficient are arbitrary here: nothing below depends on their values. */
  datatype Shape = Shape(lookahead: nat, phases: seq<seq<real>>, release: real) {
    ghost predicate Valid() {
      && lookahead >= 1
      && |phases| == PHASES
      && (forall k | 0 <= k < PHASES :: |phases[k]| == TAPS)
      && 0.0 < release < 1.0
    }

    function Latency(): nat
      requires lookahead >= 1
    {
      lookahead + DETECTOR_DELAY - 1
    }
  }

  function Abs(x: real): real { if x < 0.0 then -x else x }

  function Max(x: real, y: real): real { if x < y then y else x }

  function Min(x: real, y: real): real { if y < x then y else x }

  // ---------------------------------------------------------------------
  // The detector. Samples are numbered from DETECTOR_DELAY: input `k` is
  // sample `k + 6`, and everything before it is silence.
  // ---------------------------------------------------------------------

  function Sample(xs: seq<Frame>, t: int): Frame
    requires t < |xs| + DETECTOR_DELAY
  {
    if t < DETECTOR_DELAY then SILENCE else xs[t - DETECTOR_DELAY]
  }

  function Channel(f: Frame, left: bool): real { if left then f.l else f.r }

  /** The first `j` taps of one phase's filter, ending at sample `t`. */
  function Fir(phase: seq<real>, xs: seq<Frame>, left: bool, t: int, j: nat): real
    requires j <= |phase| && t < |xs| + DETECTOR_DELAY
  {
    if j == 0 then 0.0
    else Fir(phase, xs, left, t, j - 1) + phase[j - 1] * Channel(Sample(xs, t - (j - 1)), left)
  }

  /** The largest interpolated point of one channel over the first `k` phases. */
  function Points(p: Shape, xs: seq<Frame>, left: bool, t: int, k: nat): real
    requires p.Valid() && k <= PHASES && t < |xs| + DETECTOR_DELAY
  {
    if k == 0 then 0.0
    else Max(Points(p, xs, left, t, k - 1), Abs(Fir(p.phases[k - 1], xs, left, t, TAPS)))
  }

  /** The interpolated peak produced as sample `t` arrives. */
  function Between(p: Shape, xs: seq<Frame>, t: int): real
    requires p.Valid() && t < |xs| + DETECTOR_DELAY
  {
    Max(Points(p, xs, true, t, PHASES), Points(p, xs, false, t, PHASES))
  }

  function OwnPeak(f: Frame): real { Max(Abs(f.l), Abs(f.r)) }

  /** Sample `s`'s true peak, complete once sample `s + 6` has arrived: its own
      magnitude and the interpolated points on both sides of it. */
  function TruePeak(p: Shape, xs: seq<Frame>, s: nat): real
    requires p.Valid() && s < |xs|
  {
    Max(Max(OwnPeak(Sample(xs, s)), Between(p, xs, s + DETECTOR_DELAY - 1)), Between(p, xs, s + DETECTOR_DELAY))
  }

  function RequiredGain(peak: real, ceiling: real): real
    requires ceiling > 0.0
  {
    if peak <= ceiling then 1.0 else ceiling / peak
  }

  ghost predicate Positive(s: seq<real>) { forall i | 0 <= i < |s| :: s[i] > 0.0 }

  /** The gain each completed sample requires, under the ceiling in force when
      its true peak was completed. */
  ghost function Requireds(p: Shape, xs: seq<Frame>, cs: seq<real>): (rs: seq<real>)
    requires p.Valid() && |cs| == |xs| && Positive(cs)
    ensures |rs| == |xs|
  {
    seq(|xs|, s requires 0 <= s < |xs| => RequiredGain(TruePeak(p, xs, s), cs[s]))
  }

  // ---------------------------------------------------------------------
  // The gain, as a function of the required gains alone.
  // ---------------------------------------------------------------------

  function WindowMin(rs: seq<real>, lo: nat, hi: nat): real
    requires lo <= hi < |rs|
    decreases hi - lo
  {
    if lo == hi then rs[hi] else Min(WindowMin(rs, lo, hi - 1), rs[hi])
  }

  function WindowStart(lookahead: nat, k: nat): nat {
    if k + 1 < lookahead then 0 else k + 1 - lookahead
  }

  /** The least gain required over the `lookahead` samples ending at `k`. */
  function Minimum(lookahead: nat, rs: seq<real>, k: int): real
    requires lookahead >= 1 && k < |rs|
  {
    if k < 0 then 1.0 else WindowMin(rs, WindowStart(lookahead, k), k)
  }

  /** The `lookahead` sliding minima ending at `k`, oldest first. */
  function Minima(lookahead: nat, rs: seq<real>, k: int): (w: seq<real>)
    requires lookahead >= 1 && -1 <= k < |rs|
    ensures |w| == lookahead
  {
    seq(lookahead, i requires 0 <= i < lookahead => Minimum(lookahead, rs, k - lookahead + 1 + i))
  }

  function Sum(s: seq<real>): real {
    if s == [] then 0.0 else s[0] + Sum(s[1..])
  }

  function Attack(lookahead: nat, rs: seq<real>, k: int): real
    requires lookahead >= 1 && -1 <= k < |rs|
  {
    Sum(Minima(lookahead, rs, k)) / lookahead as real
  }

  /** The lower of the attack and one release step upward; and one, when the attack is
      one and what is left falls inside the snap. */
  function NextGain(release: real, gain: real, attack: real): real {
    var g := Min(attack, Approach(gain, release));
    if g > 1.0 - UNITY_SNAP && attack >= 1.0 then 1.0 else g
  }

  function Gain(p: Shape, rs: seq<real>, k: int): real
    requires p.lookahead >= 1 && -1 <= k < |rs|
    decreases k + 1
  {
    if k < 0 then 1.0 else NextGain(p.release, Gain(p, rs, k - 1), Attack(p.lookahead, rs, k))
  }

  /** The input frame that leaves as input `k` arrives. */
  function Delayed(p: Shape, xs: seq<Frame>, k: nat): Frame
    requires p.lookahead >= 1 && k < |xs|
  {
    if k < p.Latency() then SILENCE else xs[k - p.Latency()]
  }

  function Scale(f: Frame, g: real): Frame { Frame(f.l * g, f.r * g) }

  ghost function Output(p: Shape, xs: seq<Frame>, cs: seq<real>, k: nat): Frame
    requires p.Valid() && |cs| == |xs| && k < |xs| && Positive(cs)
  {
    Scale(Delayed(p, xs, k), Gain(p, Requireds(p, xs, cs), k))
  }

  // ---------------------------------------------------------------------
  // The past does not change as frames arrive.
  // ---------------------------------------------------------------------

  lemma {:induction false} FirPrefix(phase: seq<real>, xs: seq<Frame>, x: Frame, left: bool, t: int, j: nat)
    requires j <= |phase| && t < |xs| + DETECTOR_DELAY
    ensures Fir(phase, xs + [x], left, t, j) == Fir(phase, xs, left, t, j)
  {
    if j > 0 {
      FirPrefix(phase, xs, x, left, t, j - 1);
    }
  }

  lemma {:induction false} PointsPrefix(p: Shape, xs: seq<Frame>, x: Frame, left: bool, t: int, k: nat)
    requires p.Valid() && k <= PHASES && t < |xs| + DETECTOR_DELAY
    ensures Points(p, xs + [x], left, t, k) == Points(p, xs, left, t, k)
  {
    if k > 0 {
      PointsPrefix(p, xs, x, left, t, k - 1);
      FirPrefix(p.phases[k - 1], xs, x, left, t, TAPS);
    }
  }

  lemma BetweenPrefix(p: Shape, xs: seq<Frame>, x: Frame, t: int)
    requires p.Valid() && t < |xs| + DETECTOR_DELAY
    ensures Between(p, xs + [x], t) == Between(p, xs, t)
  {
    PointsPrefix(p, xs, x, true, t, PHASES);
    PointsPrefix(p, xs, x, false, t, PHASES);
  }

  lemma RequiredsPrefix(p: Shape, xs: seq<Frame>, cs: seq<real>, x: Frame, c: real)
    requires p.Valid() && |cs| == |xs| && c > 0.0 && Positive(cs)
    ensures Requireds(p, xs + [x], cs + [c])
         == Requireds(p, xs, cs) + [RequiredGain(TruePeak(p, xs + [x], |xs|), c)]
  {
    forall s | 0 <= s < |xs|
      ensures TruePeak(p, xs + [x], s) == TruePeak(p, xs, s)
    {
      BetweenPrefix(p, xs, x, s + DETECTOR_DELAY - 1);
      BetweenPrefix(p, xs, x, s + DETECTOR_DELAY);
    }
  }

  lemma {:induction false} WindowMinPrefix(rs: seq<real>, r: real, lo: nat, hi: nat)
    requires lo <= hi < |rs|
    ensures WindowMin(rs + [r], lo, hi) == WindowMin(rs, lo, hi)
    decreases hi - lo
  {
    if lo < hi {
      WindowMinPrefix(rs, r, lo, hi - 1);
    }
  }

  lemma MinimumPrefix(lookahead: nat, rs: seq<real>, r: real, k: int)
    requires lookahead >= 1 && k < |rs|
    ensures Minimum(lookahead, rs + [r], k) == Minimum(lookahead, rs, k)
  {
    if k >= 0 {
      WindowMinPrefix(rs, r, WindowStart(lookahead, k), k);
    }
  }

  lemma MinimaPrefix(lookahead: nat, rs: seq<real>, r: real, k: int)
    requires lookahead >= 1 && -1 <= k < |rs|
    ensures Minima(lookahead, rs + [r], k) == Minima(lookahead, rs, k)
  {
    forall i | 0 <= i < lookahead
      ensures Minima(lookahead, rs + [r], k)[i] == Minima(lookahead, rs, k)[i]
    {
      MinimumPrefix(lookahead, rs, r, k - lookahead + 1 + i);
    }
  }

  lemma {:induction false} GainPrefix(p: Shape, rs: seq<real>, r: real, k: int)
    requires p.lookahead >= 1 && -1 <= k < |rs|
    ensures Gain(p, rs + [r], k) == Gain(p, rs, k)
    decreases k + 1
  {
    if k >= 0 {
      GainPrefix(p, rs, r, k - 1);
      MinimaPrefix(p.lookahead, rs, r, k);
    }
  }

  /** The window slides by one: the oldest minimum leaves and `k`'s joins. */
  lemma MinimaSlide(lookahead: nat, rs: seq<real>, k: nat)
    requires lookahead >= 1 && k < |rs|
    ensures Minima(lookahead, rs, k) == Minima(lookahead, rs, k - 1)[1..] + [Minimum(lookahead, rs, k)]
  {
  }

  // ---------------------------------------------------------------------
  // Sums and minima.
  // ---------------------------------------------------------------------

  lemma {:induction false} SumAppend(a: seq<real>, b: seq<real>)
    ensures Sum(a + b) == Sum(a) + Sum(b)
  {
    if a == [] {
      assert a + b == b;
    } else {
      SumAppend(a[1..], b);
      assert (a + b)[1..] == a[1..] + b;
    }
  }

  lemma {:induction false} SumUpdate(s: seq<real>, i: nat, v: real)
    requires i < |s|
    ensures Sum(s[i := v]) == Sum(s) - s[i] + v
  {
    if i == 0 {
      assert s[0 := v][1..] == s[1..];
    } else {
      SumUpdate(s[1..], i - 1, v);
      assert s[i := v][1..] == s[1..][i - 1 := v];
    }
  }

  lemma {:induction false} SumUpper(s: seq<real>, bound: real)
    requires forall i | 0 <= i < |s| :: s[i] <= bound
    ensures Sum(s) <= |s| as real * bound
  {
    if s != [] {
      SumUpper(s[1..], bound);
    }
  }

  lemma {:induction false} SumPositive(s: seq<real>)
    requires Positive(s)
    ensures Sum(s) >= 0.0 && (s != [] ==> Sum(s) > 0.0)
  {
    if s != [] {
      SumPositive(s[1..]);
    }
  }

  lemma {:induction false} SumUnity(s: seq<real>)
    requires forall i | 0 <= i < |s| :: s[i] == 1.0
    ensures Sum(s) == |s| as real
  {
    if s != [] {
      SumUnity(s[1..]);
    }
  }

  /** The window minimum is a lower bound of the window, and is attained. */
  lemma {:induction false} WindowMinIsMin(rs: seq<real>, lo: nat, hi: nat)
    requires lo <= hi < |rs|
    ensures forall t | lo <= t <= hi :: WindowMin(rs, lo, hi) <= rs[t]
    ensures exists t | lo <= t <= hi :: WindowMin(rs, lo, hi) == rs[t]
    decreases hi - lo
  {
    if lo == hi {
      assert WindowMin(rs, lo, hi) == rs[hi];
    } else {
      WindowMinIsMin(rs, lo, hi - 1);
      var t :| lo <= t <= hi - 1 && WindowMin(rs, lo, hi - 1) == rs[t];
      assert WindowMin(rs, lo, hi) == rs[t] || WindowMin(rs, lo, hi) == rs[hi];
    }
  }

  ghost predicate Gains(rs: seq<real>) { forall i | 0 <= i < |rs| :: 0.0 < rs[i] <= 1.0 }

  lemma MinimumRange(lookahead: nat, rs: seq<real>, k: int)
    requires lookahead >= 1 && k < |rs| && Gains(rs)
    ensures 0.0 < Minimum(lookahead, rs, k) <= 1.0
  {
    if k >= 0 {
      WindowMinIsMin(rs, WindowStart(lookahead, k), k);
    }
  }

  lemma RequiredsAreGains(p: Shape, xs: seq<Frame>, cs: seq<real>)
    requires p.Valid() && |cs| == |xs| && Positive(cs)
    ensures Gains(Requireds(p, xs, cs))
    ensures forall s | 0 <= s < |xs| :: TruePeak(p, xs, s) * Requireds(p, xs, cs)[s] <= cs[s]
  {
    hide RequiredGain, TruePeak;
    forall s | 0 <= s < |xs|
      ensures 0.0 < Requireds(p, xs, cs)[s] <= 1.0
      ensures TruePeak(p, xs, s) * Requireds(p, xs, cs)[s] <= cs[s]
    {
      Quotient(TruePeak(p, xs, s), cs[s]);
    }
  }

  lemma Quotient(peak: real, ceiling: real)
    requires ceiling > 0.0
    ensures 0.0 < RequiredGain(peak, ceiling) <= 1.0
    ensures peak * RequiredGain(peak, ceiling) <= ceiling
  {
    if peak > ceiling {
      var q := ceiling / peak;
      assert q * peak == ceiling;
    }
  }

  // ---------------------------------------------------------------------
  // What a required gain answers to.
  // ---------------------------------------------------------------------

  /** One phase's twelve taps against the twelve samples ending at `t`, newest first. */
  function TapSum(phase: seq<real>, xs: seq<Frame>, left: bool, t: int): real
    requires |phase| == TAPS && t < |xs| + DETECTOR_DELAY
  {
    phase[0] * LevelAt(xs, left, t) + phase[1] * LevelAt(xs, left, t - 1) + phase[2] * LevelAt(xs, left, t - 2)
    + phase[3] * LevelAt(xs, left, t - 3) + phase[4] * LevelAt(xs, left, t - 4) + phase[5] * LevelAt(xs, left, t - 5)
    + phase[6] * LevelAt(xs, left, t - 6) + phase[7] * LevelAt(xs, left, t - 7) + phase[8] * LevelAt(xs, left, t - 8)
    + phase[9] * LevelAt(xs, left, t - 9) + phase[10] * LevelAt(xs, left, t - 10) + phase[11] * LevelAt(xs, left, t - 11)
  }

  function LevelAt(xs: seq<Frame>, left: bool, t: int): real
    requires t < |xs| + DETECTOR_DELAY
  {
    Channel(Sample(xs, t), left)
  }

  lemma FirIsTapSum(phase: seq<real>, xs: seq<Frame>, left: bool, t: int)
    requires |phase| == TAPS && t < |xs| + DETECTOR_DELAY
    ensures Fir(phase, xs, left, t, TAPS) == TapSum(phase, xs, left, t)
  {
    hide LevelAt, Sample;
    FirSteps(phase, xs, left, t, 0);
    FirSteps(phase, xs, left, t, 3);
    FirSteps(phase, xs, left, t, 6);
    FirSteps(phase, xs, left, t, 9);
  }

  lemma FirSteps(phase: seq<real>, xs: seq<Frame>, left: bool, t: int, j: nat)
    requires j + 3 <= |phase| && t < |xs| + DETECTOR_DELAY
    ensures j == 0 ==> Fir(phase, xs, left, t, j) == 0.0
    ensures Fir(phase, xs, left, t, j + 3)
         == Fir(phase, xs, left, t, j) + phase[j] * LevelAt(xs, left, t - j)
            + phase[j + 1] * LevelAt(xs, left, t - j - 1) + phase[j + 2] * LevelAt(xs, left, t - j - 2)
  {
    assert Fir(phase, xs, left, t, j + 1) == Fir(phase, xs, left, t, j) + phase[j] * LevelAt(xs, left, t - j);
    assert Fir(phase, xs, left, t, j + 2)
        == Fir(phase, xs, left, t, j + 1) + phase[j + 1] * LevelAt(xs, left, t - j - 1);
  }

  /** `m` is the magnitude of sample `s` on some channel, or of a point some phase
      interpolates beside it. */
  ghost predicate Magnitude(p: Shape, xs: seq<Frame>, s: nat, m: real)
    requires p.Valid() && s < |xs|
  {
    || (exists left :: m == Abs(LevelAt(xs, left, s)))
    || (exists k, left, t | 0 <= k < PHASES && s + 5 <= t <= s + 6 :: m == Abs(TapSum(p.phases[k], xs, left, t)))
  }

  /** The largest of the points one channel is interpolated at as `t` arrives. */
  lemma {:induction false} PointsAreMagnitudes(p: Shape, xs: seq<Frame>, left: bool, t: int, k: nat)
    requires p.Valid() && 1 <= k <= PHASES && t < |xs| + DETECTOR_DELAY
    ensures forall i | 0 <= i < k :: Abs(TapSum(p.phases[i], xs, left, t)) <= Points(p, xs, left, t, k)
    ensures exists i | 0 <= i < k :: Abs(TapSum(p.phases[i], xs, left, t)) == Points(p, xs, left, t, k)
  {
    hide TapSum, Fir;
    FirIsTapSum(p.phases[k - 1], xs, left, t);
    assert Abs(TapSum(p.phases[k - 1], xs, left, t)) == Abs(Fir(p.phases[k - 1], xs, left, t, TAPS));
    if k > 1 {
      PointsAreMagnitudes(p, xs, left, t, k - 1);
      var i :| 0 <= i < k - 1 && Abs(TapSum(p.phases[i], xs, left, t)) == Points(p, xs, left, t, k - 1);
    } else {
      assert Points(p, xs, left, t, 0) == 0.0;
    }
  }

  lemma LargestMagnitude(p: Shape, xs: seq<Frame>, s: nat)
    requires p.Valid() && s < |xs|
    ensures Magnitude(p, xs, s, TruePeak(p, xs, s))
    ensures forall m | Magnitude(p, xs, s, m) :: m <= TruePeak(p, xs, s)
  {
    hide TapSum, Points, Sample;
    forall left, t | s + 5 <= t <= s + 6
      ensures forall i | 0 <= i < PHASES :: Abs(TapSum(p.phases[i], xs, left, t)) <= Points(p, xs, left, t, PHASES)
      ensures exists i | 0 <= i < PHASES :: Abs(TapSum(p.phases[i], xs, left, t)) == Points(p, xs, left, t, PHASES)
    {
      PointsAreMagnitudes(p, xs, left, t, PHASES);
    }
    assert Abs(LevelAt(xs, true, s)) <= OwnPeak(Sample(xs, s)) && Abs(LevelAt(xs, false, s)) <= OwnPeak(Sample(xs, s));
    assert TruePeak(p, xs, s) in {Abs(LevelAt(xs, true, s)), Abs(LevelAt(xs, false, s)),
                                  Points(p, xs, true, s + 5, PHASES), Points(p, xs, false, s + 5, PHASES),
                                  Points(p, xs, true, s + 6, PHASES), Points(p, xs, false, s + 6, PHASES)};
  }

  /** A sample requires unity unless some magnitude is over its ceiling, and otherwise
      the ceiling over the largest of them. */
  lemma RequiredByLargest(p: Shape, xs: seq<Frame>, cs: seq<real>, s: nat) returns (largest: real)
    requires p.Valid() && |cs| == |xs| && Positive(cs) && s < |xs|
    ensures Magnitude(p, xs, s, largest) && forall m | Magnitude(p, xs, s, m) :: m <= largest
    ensures Requireds(p, xs, cs)[s] == if largest <= cs[s] then 1.0 else cs[s] / largest
  {
    hide Magnitude, TruePeak;
    largest := TruePeak(p, xs, s);
    LargestMagnitude(p, xs, s);
  }

  /** Scaled by what its sample requires, no interpolated point beside a sample, of
      either sign, is past the ceiling. */
  lemma PointsAreHeld(p: Shape, xs: seq<Frame>, cs: seq<real>, s: nat, k: nat, left: bool, t: nat)
    requires p.Valid() && |cs| == |xs| && Positive(cs) && s < |xs| && k < PHASES && s + 5 <= t <= s + 6
    ensures -cs[s] <= TapSum(p.phases[k], xs, left, t) * Requireds(p, xs, cs)[s] <= cs[s]
  {
    hide TapSum, TruePeak, Requireds, Magnitude;
    TapIsMagnitude(p, xs, s, k, left, t);
    LargestMagnitude(p, xs, s);
    PeakIsHeld(p, xs, cs, s);
    HeldBelow(TapSum(p.phases[k], xs, left, t), Requireds(p, xs, cs)[s], TruePeak(p, xs, s), cs[s]);
  }

  lemma TapIsMagnitude(p: Shape, xs: seq<Frame>, s: nat, k: nat, left: bool, t: nat)
    requires p.Valid() && s < |xs| && k < PHASES && s + 5 <= t <= s + 6
    ensures Magnitude(p, xs, s, Abs(TapSum(p.phases[k], xs, left, t)))
  {
    hide TapSum, LevelAt;
  }

  lemma PeakIsHeld(p: Shape, xs: seq<Frame>, cs: seq<real>, s: nat)
    requires p.Valid() && |cs| == |xs| && Positive(cs) && s < |xs|
    ensures Requireds(p, xs, cs)[s] > 0.0 && TruePeak(p, xs, s) * Requireds(p, xs, cs)[s] <= cs[s]
  {
    hide TruePeak;
    RequiredsAreGains(p, xs, cs);
  }

  lemma HeldBelow(x: real, g: real, peak: real, ceiling: real)
    requires Abs(x) <= peak && g > 0.0 && peak * g <= ceiling
    ensures -ceiling <= x * g <= ceiling
  {
    MulMono(x, peak, g);
    MulMono(-peak, x, g);
  }

  // ---------------------------------------------------------------------
  // The theorems.
  // ---------------------------------------------------------------------

  /** Every one of the averaged minima covers the sample that leaves, so the
      attack gain is at most the gain that sample requires. */
  lemma AttackCoversDelayed(lookahead: nat, rs: seq<real>, k: nat)
    requires lookahead >= 1 && k < |rs| && Gains(rs) && k + 1 >= lookahead
    ensures Attack(lookahead, rs, k) <= rs[k + 1 - lookahead]
  {
    var w := Minima(lookahead, rs, k);
    var s := k + 1 - lookahead;
    forall i | 0 <= i < lookahead
      ensures w[i] <= rs[s]
    {
      assert w[i] == Minimum(lookahead, rs, s + i);
      WindowMinIsMin(rs, WindowStart(lookahead, s + i), s + i);
    }
    SumUpper(w, rs[s]);
    Divide(Sum(w), lookahead, rs[s]);
  }

  lemma Divide(sum: real, n: nat, bound: real)
    requires n >= 1 && sum <= n as real * bound
    ensures sum / n as real <= bound
  {
    var q := sum / n as real;
    assert q * n as real == sum;
  }

  lemma AttackRange(lookahead: nat, rs: seq<real>, k: int)
    requires lookahead >= 1 && -1 <= k < |rs| && Gains(rs)
    ensures 0.0 < Attack(lookahead, rs, k) <= 1.0
  {
    var w := Minima(lookahead, rs, k);
    forall i | 0 <= i < lookahead
      ensures 0.0 < w[i] <= 1.0
    {
      MinimumRange(lookahead, rs, k - lookahead + 1 + i);
    }
    SumUpper(w, 1.0);
    SumPositive(w);
    Divide(Sum(w), lookahead, 1.0);
  }

  /** The gain stays in (0, 1], and never exceeds the attack gain. */
  lemma {:induction false} GainRange(p: Shape, rs: seq<real>, k: int)
    requires p.Valid() && -1 <= k < |rs| && Gains(rs)
    ensures 0.0 < Gain(p, rs, k) <= 1.0
    ensures Gain(p, rs, k) <= Attack(p.lookahead, rs, k)
    decreases k + 1
  {
    hide Attack, NextGain;
    AttackRange(p.lookahead, rs, k);
    if k < 0 {
      StartingAttack(p.lookahead, rs);
    } else {
      GainRange(p, rs, k - 1);
      NextGainRange(p.release, Gain(p, rs, k - 1), Attack(p.lookahead, rs, k));
    }
  }

  lemma StartingAttack(lookahead: nat, rs: seq<real>)
    requires lookahead >= 1
    ensures Attack(lookahead, rs, -1) == 1.0
  {
    var w := Minima(lookahead, rs, -1);
    assert forall i | 0 <= i < lookahead :: w[i] == Minimum(lookahead, rs, i - lookahead);
    SumUnity(w);
    DivideSelf(lookahead as real);
  }

  lemma NextGainRange(release: real, before: real, attack: real)
    requires 0.0 < release < 1.0 && 0.0 < before <= 1.0 && 0.0 < attack <= 1.0
    ensures 0.0 < NextGain(release, before, attack) <= attack
  {
    hide Approach;
    Toward(before, release);
  }

  lemma ScaledMagnitude(x: real, g: real, r: real, peak: real, ceiling: real)
    requires ceiling > 0.0 && Abs(x) <= peak && 0.0 < g <= r && peak * r <= ceiling
    ensures Abs(x * g) <= ceiling
  {
    var a := Abs(x);
    MulMono(g, r, a);
    MulMono(a, peak, r);
    assert a * r <= ceiling;
    assert g * a <= ceiling;
    if x < 0.0 {
      MulMono(x, 0.0, g);
      assert x * g == -(a * g);
    } else {
      MulMono(0.0, x, g);
    }
  }

  lemma ScaledFrame(f: Frame, g: real, r: real, peak: real, ceiling: real)
    requires ceiling > 0.0 && Abs(f.l) <= peak && Abs(f.r) <= peak && 0.0 < g <= r && peak * r <= ceiling
    ensures OwnPeak(Scale(f, g)) <= ceiling
  {
    ScaledMagnitude(f.l, g, r, peak, ceiling);
    ScaledMagnitude(f.r, g, r, peak, ceiling);
  }

  lemma OwnPeakCounts(p: Shape, xs: seq<Frame>, s: nat)
    requires p.Valid() && s < |xs|
    ensures Abs(Sample(xs, s).l) <= TruePeak(p, xs, s)
    ensures Abs(Sample(xs, s).r) <= TruePeak(p, xs, s)
  {
  }

  /** No output sample exceeds the ceiling that was in force when that sample's
      true peak was completed. Before the first sample reaches the output, the
      output is silence. */
  lemma CeilingHolds(p: Shape, xs: seq<Frame>, cs: seq<real>, k: nat)
    requires p.Valid() && |cs| == |xs| && k < |xs| && Positive(cs)
    ensures OwnPeak(Output(p, xs, cs, k)) <= cs[WindowStart(p.lookahead, k)]
  {
    var g, r, peak := DelayedGain(p, xs, cs, k);
    ScaledFrame(Delayed(p, xs, k), g, r, peak, cs[WindowStart(p.lookahead, k)]);
  }

  /** Nor is anything limited more than some sample has required. */
  lemma {:induction false} NeverOverLimits(p: Shape, rs: seq<real>, k: int, least: real)
    requires p.Valid() && -1 <= k < |rs| && Gains(rs)
    requires 0.0 < least <= 1.0 && forall s | 0 <= s <= k :: least <= rs[s]
    ensures Gain(p, rs, k) >= least
    decreases k + 1
  {
    hide Attack, Approach;
    if k >= 0 {
      NeverOverLimits(p, rs, k - 1, least);
      AttackAtLeast(p.lookahead, rs, k, least);
      GainRange(p, rs, k - 1);
      Toward(Gain(p, rs, k - 1), p.release);
      assert Gain(p, rs, k) == NextGain(p.release, Gain(p, rs, k - 1), Attack(p.lookahead, rs, k));
    }
  }

  lemma AttackAtLeast(lookahead: nat, rs: seq<real>, k: nat, least: real)
    requires lookahead >= 1 && k < |rs| && least <= 1.0 && forall s | 0 <= s <= k :: least <= rs[s]
    ensures Attack(lookahead, rs, k) >= least
  {
    var w := Minima(lookahead, rs, k);
    forall i | 0 <= i < lookahead
      ensures least <= w[i]
    {
      var j := k - lookahead + 1 + i;
      assert w[i] == Minimum(lookahead, rs, j);
      if j >= 0 {
        WindowMinIsMin(rs, WindowStart(lookahead, j), j);
      }
    }
    SumLower(w, least);
    DivideBelow(Sum(w), lookahead, least);
  }

  lemma {:induction false} SumLower(s: seq<real>, bound: real)
    requires forall i | 0 <= i < |s| :: s[i] >= bound
    ensures Sum(s) >= |s| as real * bound
  {
    if s != [] {
      SumLower(s[1..], bound);
    }
  }

  lemma DivideBelow(sum: real, n: nat, bound: real)
    requires n >= 1 && sum >= n as real * bound
    ensures sum / n as real >= bound
  {
    var q := sum / n as real;
    assert q * n as real == sum;
  }

  /** What a frame is scaled by on leaving never exceeds what its own true peak
      requires. */
  lemma DelayedGain(p: Shape, xs: seq<Frame>, cs: seq<real>, k: nat) returns (g: real, r: real, peak: real)
    requires p.Valid() && |cs| == |xs| && k < |xs| && Positive(cs)
    ensures g == Gain(p, Requireds(p, xs, cs), k) && 0.0 < g <= r
    ensures Abs(Delayed(p, xs, k).l) <= peak && Abs(Delayed(p, xs, k).r) <= peak
    ensures peak * r <= cs[WindowStart(p.lookahead, k)]
  {
    hide Gain, Attack, TruePeak;
    var rs := Requireds(p, xs, cs);
    g := Gain(p, rs, k);
    RequiredsAreGains(p, xs, cs);
    GainRange(p, rs, k);
    if k + 1 < p.lookahead {
      r, peak := 1.0, 0.0;
    } else {
      var s := k + 1 - p.lookahead;
      AttackCoversDelayed(p.lookahead, rs, k);
      assert Delayed(p, xs, k) == Sample(xs, s);
      OwnPeakCounts(p, xs, s);
      r, peak := rs[s], TruePeak(p, xs, s);
    }
  }

  /** As long as every true peak has been within its ceiling, frames leave as they
      came, `Latency()` later. */
  lemma Transparent(p: Shape, xs: seq<Frame>, cs: seq<real>, k: nat)
    requires p.Valid() && |cs| == |xs| && k < |xs| && Positive(cs)
    requires forall s | 0 <= s <= k :: TruePeak(p, xs, s) <= cs[s]
    ensures Output(p, xs, cs, k) == if k < p.Latency() then SILENCE else xs[k - p.Latency()]
  {
    var rs := Requireds(p, xs, cs);
    RequiredsAreGains(p, xs, cs);
    UnityGain(p, rs, k);
  }

  lemma {:induction false} UnityGain(p: Shape, rs: seq<real>, k: int)
    requires p.Valid() && -1 <= k < |rs| && Gains(rs)
    requires forall s | 0 <= s <= k :: rs[s] == 1.0
    ensures Gain(p, rs, k) == 1.0
    decreases k + 1
  {
    if k >= 0 {
      UnityGain(p, rs, k - 1);
      UnityAttack(p.lookahead, rs, -1, k);
    }
  }

  /** Once the last `2 * lookahead - 1` required gains are unity, the attack is. */
  lemma UnityAttack(lookahead: nat, rs: seq<real>, last: int, k: nat)
    requires lookahead >= 1 && k < |rs| && -1 <= last
    requires last < 0 || last + 2 * lookahead - 1 <= k
    requires forall s | last < s <= k :: rs[s] == 1.0
    ensures Attack(lookahead, rs, k) == 1.0
  {
    var w := Minima(lookahead, rs, k);
    forall i | 0 <= i < lookahead
      ensures w[i] == 1.0
    {
      var j := k - lookahead + 1 + i;
      assert w[i] == Minimum(lookahead, rs, j);
      if j >= 0 {
        WindowMinIsMin(rs, WindowStart(lookahead, j), j);
      }
    }
    SumUnity(w);
    DivideSelf(lookahead as real);
  }

  /** The gain never steps: between consecutive samples it falls by at most
      `1 / lookahead`, and rises by at most the release step plus the snap. */
  lemma NeverSteps(p: Shape, rs: seq<real>, k: nat, before: real, after: real, step: real)
    requires p.Valid() && k < |rs| && Gains(rs) && step * p.lookahead as real == 1.0
    requires before == Gain(p, rs, k - 1) && after == Gain(p, rs, k)
    ensures before - step <= after <= Approach(before, p.release) + UNITY_SNAP
  {
    var attack := Attack(p.lookahead, rs, k);
    StepFacts(p, rs, k, before, attack, step);
    GainUnfold(p, rs, k, before, attack);
    StepBounds(p.release, before, attack, step);
  }

  lemma GainUnfold(p: Shape, rs: seq<real>, k: nat, before: real, attack: real)
    requires p.Valid() && k < |rs|
    requires before == Gain(p, rs, k - 1) && attack == Attack(p.lookahead, rs, k)
    ensures Gain(p, rs, k) == NextGain(p.release, before, attack)
  {
  }

  lemma StepFacts(p: Shape, rs: seq<real>, k: nat, before: real, attack: real, step: real)
    requires p.Valid() && k < |rs| && Gains(rs) && step * p.lookahead as real == 1.0
    requires before == Gain(p, rs, k - 1) && attack == Attack(p.lookahead, rs, k)
    ensures 0.0 < before <= 1.0 && before - step <= attack <= 1.0 && step > 0.0
  {
    GainRange(p, rs, k - 1);
    AttackRange(p.lookahead, rs, k);
    AttackFall(p.lookahead, rs, k, step);
  }

  lemma StepBounds(release: real, before: real, attack: real, step: real)
    requires 0.0 < release < 1.0 && 0.0 < before <= 1.0 && attack <= 1.0
    requires attack >= before - step && step >= 0.0
    ensures before - step <= NextGain(release, before, attack) <= Approach(before, release) + UNITY_SNAP
  {
    hide Approach;
    Toward(before, release);
  }

  lemma AttackFall(lookahead: nat, rs: seq<real>, k: nat, step: real)
    requires lookahead >= 1 && k < |rs| && Gains(rs) && step * lookahead as real == 1.0
    ensures step > 0.0
    ensures Attack(lookahead, rs, k) >= Attack(lookahead, rs, k - 1) - step
  {
    var before, after := Minima(lookahead, rs, k - 1), Minima(lookahead, rs, k);
    MinimaSlide(lookahead, rs, k);
    var m := Minimum(lookahead, rs, k);
    SumAppend(before[1..], [m]);
    MinimumRange(lookahead, rs, k);
    assert before[0] == Minimum(lookahead, rs, k - lookahead);
    MinimumRange(lookahead, rs, k - lookahead);
    assert Sum([m]) == m;
    QuotientFall(Sum(after), Sum(before), lookahead, step);
  }

  lemma QuotientFall(x: real, y: real, n: nat, step: real)
    requires n >= 1 && x >= y - 1.0 && step * n as real == 1.0
    ensures step > 0.0
    ensures x / n as real >= y / n as real - step
  {
    var d := n as real;
    assert x / d - y / d + step == (x - y + 1.0) / d;
    assert (x - y + 1.0) / d >= 0.0;
  }

  function Pow(x: real, n: nat): real { if n == 0 then 1.0 else x * Pow(x, n - 1) }

  /** After the last sample that needed limiting, the attack is back in
      `2 * lookahead - 1` samples, and then the distance from unity shrinks by
      the release factor each sample until the snap makes it exactly zero. */
  lemma {:induction false} Recovers(p: Shape, rs: seq<real>, last: nat, n: nat, k: nat)
    requires p.Valid() && k < |rs| && Gains(rs)
    requires forall s | last < s <= k :: rs[s] == 1.0
    requires k == last + 2 * p.lookahead - 2 + n
    ensures Gain(p, rs, k) == 1.0 || 1.0 - Gain(p, rs, k) <= Pow(1.0 - p.release, n)
    ensures n >= 1 && Pow(1.0 - p.release, n) < UNITY_SNAP ==> Gain(p, rs, k) == 1.0
    decreases n
  {
    hide Attack, NextGain;
    GainRange(p, rs, k);
    if n > 0 {
      Recovers(p, rs, last, n - 1, k - 1);
      UnityAttack(p.lookahead, rs, last, k);
      GainRange(p, rs, k - 1);
      PowPositive(1.0 - p.release, n - 1);
      assert Gain(p, rs, k) == NextGain(p.release, Gain(p, rs, k - 1), 1.0);
      RecoveryStep(p.release, Gain(p, rs, k - 1), Pow(1.0 - p.release, n - 1));
    }
  }

  lemma RecoveryStep(release: real, before: real, bound: real)
    requires 0.0 < release < 1.0 && 0.0 < before <= 1.0 && 1.0 - before <= bound
    ensures NextGain(release, before, 1.0) == 1.0 || 1.0 - NextGain(release, before, 1.0) <= (1.0 - release) * bound
    ensures (1.0 - release) * bound < UNITY_SNAP ==> NextGain(release, before, 1.0) == 1.0
  {
    hide Approach;
    Toward(before, release);
    Shrink(before, release, bound);
  }

  lemma {:induction false} PowPositive(x: real, n: nat)
    requires x > 0.0
    ensures Pow(x, n) > 0.0
  {
    if n > 0 {
      PowPositive(x, n - 1);
    }
  }

  /** How many samples that takes at most: halving takes `m` of them once
      `m * release` reaches one, and 24 halvings are under the snap. */
  lemma RecoveryBound(release: real, m: nat, n: nat)
    requires 0.0 < release < 1.0 && m as real * release >= 1.0 && n >= 24 * m
    ensures Pow(1.0 - release, n) < UNITY_SNAP
  {
    var x := 1.0 - release;
    Bernoulli(release, m);
    PowPositive(x, m);
    AtMostHalf(Pow(x, m), m as real * release);
    Halvings(x, m, 24);
    PowOfHalf();
    PowFalls(x, 24 * m, n);
  }

  lemma AtMostHalf(p: real, a: real)
    requires p > 0.0 && a >= 1.0 && p * (1.0 + a) <= 1.0
    ensures p <= 0.5
  {
    MulMono(2.0, 1.0 + a, p);
  }

  lemma {:induction false} Halvings(x: real, m: nat, j: nat)
    requires 0.0 < x && Pow(x, m) <= 0.5
    ensures Pow(x, j * m) <= Pow(0.5, j)
  {
    if j > 0 {
      Halvings(x, m, j - 1);
      PowAdds(x, m, (j - 1) * m);
      assert j * m == m + (j - 1) * m;
      PowPositive(x, (j - 1) * m);
      MulMono(Pow(x, m), 0.5, Pow(x, (j - 1) * m));
    }
  }

  lemma {:induction false} PowAdds(x: real, a: nat, b: nat)
    ensures Pow(x, a + b) == Pow(x, a) * Pow(x, b)
  {
    if a > 0 {
      PowAdds(x, a - 1, b);
    }
  }

  lemma {:induction false} PowFalls(x: real, a: nat, b: nat)
    requires 0.0 < x <= 1.0 && a <= b
    ensures Pow(x, b) <= Pow(x, a)
    decreases b
  {
    if a < b {
      PowFalls(x, a, b - 1);
      PowPositive(x, b - 1);
      MulMono(x, 1.0, Pow(x, b - 1));
    }
  }

  lemma PowOfHalf()
    ensures Pow(0.5, 24) < UNITY_SNAP
  {
    assert Pow(0.5, 4) == 0.0625;
    PowAdds(0.5, 4, 4);
    PowAdds(0.5, 8, 8);
    PowAdds(0.5, 8, 16);
  }

  /** So the gain is exactly unity again `2 * lookahead - 2 + 24 * m` samples after
      the last sample that needed limiting. */
  lemma RecoversWithin(p: Shape, rs: seq<real>, last: nat, m: nat, k: nat)
    requires p.Valid() && k < |rs| && Gains(rs) && m as real * p.release >= 1.0
    requires forall s | last < s <= k :: rs[s] == 1.0
    requires k >= last + 2 * p.lookahead - 2 + 24 * m
    ensures Gain(p, rs, k) == 1.0
  {
    var n := k - (last + 2 * p.lookahead - 2);
    assert m == 0 ==> m as real * p.release == 0.0;
    RecoveryBound(p.release, m, n);
    Recovers(p, rs, last, n, k);
  }

  lemma {:induction false} Bernoulli(release: real, n: nat)
    requires 0.0 < release < 1.0
    ensures Pow(1.0 - release, n) * (1.0 + n as real * release) <= 1.0
  {
    if n > 0 {
      Bernoulli(release, n - 1);
      PowPositive(1.0 - release, n - 1);
      BernoulliStep(release, (n - 1) as real, Pow(1.0 - release, n - 1));
    }
  }

}
