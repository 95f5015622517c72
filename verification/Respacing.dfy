/** Re-spacing a rendered block onto the frames it is pushed as, end to end, by
    cubic interpolation; and where in the block each of those frames lies. */
module Respacing {
  import opened Common
  import opened IntFacts

  const CHANNELS := 2

  type Samples = seq<real>

  /** Channel `c` of frame `i` of interleaved samples. */
  function Channel(s: Samples, i: nat, c: nat): real
    requires c < CHANNELS && i < |s| / CHANNELS
  {
    s[i * CHANNELS + c]
  }

  /** Channel `c` of frame `i`: before the block its left neighbour, past its end
      a straight line through its last two frames. */
  function At(input: Samples, prev: Samples, i: int, c: nat): real
    requires |prev| == CHANNELS && c < CHANNELS && |input| >= CHANNELS && |input| % CHANNELS == 0
  {
    var n := |input| / CHANNELS;
    if i < 0 then prev[c]
    else if i < n then Channel(input, i, c)
    else
      var last := Channel(input, n - 1, c);
      var before := if n > 1 then Channel(input, n - 2, c) else last;
      last + (last - before) * (i - (n - 1)) as real
  }

  /** Catmull-Rom through four points, `t` of the way from `x1` to `x2`. */
  function Cubic(x0: real, x1: real, x2: real, x3: real, t: real): real {
    x1 + 0.5 * t * (x2 - x0 + t * (2.0 * x0 - 5.0 * x1 + 4.0 * x2 - x3 + t * (3.0 * (x1 - x2) + x3 - x0)))
  }

  /** The input frame at or before output frame `j`. */
  function Whole(j: nat, nIn: nat, nOut: nat): int
    requires 1 <= nIn && j < nOut
  {
    if nOut > 1 then (j * (nIn - 1)) / (nOut - 1) else 0
  }

  /** How far past it output frame `j` lies. */
  function Part(j: nat, nIn: nat, nOut: nat): real
    requires 1 <= nIn && j < nOut
  {
    if nOut > 1 then ((j * (nIn - 1)) % (nOut - 1)) as real / (nOut - 1) as real else 0.0
  }

  function Point(input: Samples, prev: Samples, nOut: nat, j: nat, c: nat): real
    requires |prev| == CHANNELS && c < CHANNELS && |input| >= CHANNELS && |input| % CHANNELS == 0 && j < nOut
  {
    var i := Whole(j, |input| / CHANNELS, nOut);
    Cubic(At(input, prev, i - 1, c), At(input, prev, i, c), At(input, prev, i + 1, c), At(input, prev, i + 2, c),
          Part(j, |input| / CHANNELS, nOut))
  }

  /** Sample `k` of the block re-spaced onto `nOut` frames. */
  function Respaced(input: Samples, prev: Samples, nOut: nat, k: nat): real
    requires |prev| == CHANNELS && |input| % CHANNELS == 0 && k < nOut * CHANNELS
  {
    if |input| == nOut * CHANNELS then input[k]
    else if |input| == 0 then 0.0
    else Point(input, prev, nOut, k / CHANNELS, k % CHANNELS)
  }

  method Respace(input: Samples, prev: Samples, out: array<real>, n: nat)
    requires |prev| == CHANNELS && |input| % CHANNELS == 0 && n * CHANNELS <= out.Length
    modifies out
    ensures forall k | 0 <= k < n * CHANNELS :: out[k] == Respaced(input, prev, n, k)
    ensures forall k | n * CHANNELS <= k < out.Length :: out[k] == old(out[k])
  {
    hide Point;
    if |input| == n * CHANNELS {
      for k := 0 to n * CHANNELS
        invariant forall i | 0 <= i < k :: out[i] == input[i]
        invariant forall i | k <= i < out.Length :: out[i] == old(out[i])
      {
        out[k] := input[k];
      }
      return;
    }
    if |input| == 0 || n == 0 {
      for k := 0 to n * CHANNELS
        invariant forall i | 0 <= i < k :: out[i] == 0.0
        invariant forall i | k <= i < out.Length :: out[i] == old(out[i])
      {
        out[k] := 0.0;
      }
      return;
    }
    for j := 0 to n
      invariant forall k | 0 <= k < j * CHANNELS :: out[k] == Point(input, prev, n, k / CHANNELS, k % CHANNELS)
      invariant forall k | j * CHANNELS <= k < out.Length :: out[k] == old(out[k])
    {
      out[j * CHANNELS] := Point(input, prev, n, j, 0);
      out[j * CHANNELS + 1] := Point(input, prev, n, j, 1);
    }
  }

  // ---------------------------------------------------------------------
  // What re-spacing does to a signal.
  // ---------------------------------------------------------------------

  /** Both ends land exactly: consecutive blocks join. */
  lemma EndsAreExact(input: Samples, prev: Samples, nOut: nat, c: nat)
    requires |prev| == CHANNELS && c < CHANNELS && |input| >= CHANNELS && |input| % CHANNELS == 0 && nOut > 1
    ensures Respaced(input, prev, nOut, c) == input[c]
    ensures Respaced(input, prev, nOut, (nOut - 1) * CHANNELS + c) == input[|input| - CHANNELS + c]
  {
    hide Cubic, Whole, Part;
    var nIn, d := |input| / CHANNELS, nOut - 1;
    if |input| != nOut * CHANNELS {
      var k := d * CHANNELS + c;
      assert k / CHANNELS == d && k % CHANNELS == c;
      EndPlaces(nIn, nOut);
      CubicAtPoint(At(input, prev, -1, c), Channel(input, 0, c), At(input, prev, 1, c), At(input, prev, 2, c));
      CubicAtPoint(At(input, prev, nIn - 2, c), Channel(input, nIn - 1, c), At(input, prev, nIn, c), At(input, prev, nIn + 1, c));
    }
  }

  /** For equal lengths the short cut of copying gives what interpolating would. */
  lemma CopyIsTheCubic(input: Samples, prev: Samples, nOut: nat, k: nat)
    requires |prev| == CHANNELS && |input| == nOut * CHANNELS && k < |input|
    ensures Respaced(input, prev, nOut, k) == input[k] == Point(input, prev, nOut, k / CHANNELS, k % CHANNELS)
  {
    hide Cubic, Whole, Part;
    var j, c := k / CHANNELS, k % CHANNELS;
    UnslippedPlace(j, nOut);
    CubicAtPoint(At(input, prev, j - 1, c), Channel(input, j, c), At(input, prev, j + 1, c), At(input, prev, j + 2, c));
  }

  lemma UnslippedPlace(j: nat, n: nat)
    requires j < n
    ensures Whole(j, n, n) == j && Part(j, n, n) == 0.0
  {
    if n > 1 {
      MultipleDivides(n - 1, j);
    }
  }

  lemma EndPlaces(nIn: nat, nOut: nat)
    requires 1 <= nIn && nOut > 1
    ensures Whole(0, nIn, nOut) == 0 && Part(0, nIn, nOut) == 0.0
    ensures Whole(nOut - 1, nIn, nOut) == nIn - 1 && Part(nOut - 1, nIn, nOut) == 0.0
  {
    MultipleDivides(nOut - 1, nIn - 1);
    MultipleDivides(nOut - 1, 0);
  }

  lemma CubicAtPoint(x0: real, x1: real, x2: real, x3: real)
    ensures Cubic(x0, x1, x2, x3, 0.0) == x1
  {
  }

  /** A signal that moves evenly in the master sample, per channel. */
  datatype Affine = Affine(offset: seq<real>, slope: seq<real>) {
    ghost predicate Valid() { |offset| == |slope| == CHANNELS }

    function Value(m: real, c: nat): real
      requires Valid() && c < CHANNELS
    {
      offset[c] + slope[c] * m
    }
  }

  /** `input` renders the signal from master sample `base` on. */
  ghost predicate Renders(signal: Affine, input: Samples, base: int)
    requires signal.Valid()
  {
    && |input| % CHANNELS == 0
    && forall i, c | 0 <= i < |input| / CHANNELS && 0 <= c < CHANNELS ::
         Channel(input, i, c) == signal.Value((base + i) as real, c)
  }

  ghost predicate Precedes(signal: Affine, prev: Samples, base: int)
    requires signal.Valid()
  {
    |prev| == CHANNELS && forall c | 0 <= c < CHANNELS :: prev[c] == signal.Value((base - 1) as real, c)
  }

  lemma StraightLine(x: real, d: real, t: real)
    ensures Cubic(x - d, x, x + d, x + 2.0 * d, t) == x + t * d
  {
  }

  lemma AtOnLine(signal: Affine, input: Samples, prev: Samples, base: int, i: int, c: nat)
    requires signal.Valid() && c < CHANNELS && |input| > CHANNELS
    requires Renders(signal, input, base) && Precedes(signal, prev, base)
    requires -1 <= i
    ensures At(input, prev, i, c) == signal.Value((base + i) as real, c)
  {
    var n := |input| / CHANNELS;
    if i >= n {
      var last, s := n - 1, signal.slope[c];
      assert Channel(input, last, c) == signal.Value((base + last) as real, c);
      assert Channel(input, n - 2, c) == signal.Value((base + (n - 2)) as real, c);
      Steps(signal.offset[c], s, (base + last) as real, 1.0);
      Steps(signal.offset[c], s, (base + last) as real, (last - i) as real);
    }
  }

  lemma Steps(offset: real, slope: real, m: real, k: real)
    ensures (offset + slope * m) - (offset + slope * (m - k)) == slope * k
  {
  }

  /** Where output frame `j` lies, in input frames. */
  function Place(j: nat, nIn: nat, nOut: nat): real
    requires j < nOut
  {
    j as real * (if nOut > 1 then (nIn - 1) as real / (nOut - 1) as real else 1.0)
  }

  lemma PlaceSplits(j: nat, nIn: nat, nOut: nat)
    requires 1 <= nIn && j < nOut && nOut > 1
    ensures Place(j, nIn, nOut) == Whole(j, nIn, nOut) as real + Part(j, nIn, nOut)
  {
    var p, d := j * (nIn - 1), nOut - 1;
    assert p == p / d * d + p % d;
    Split(p / d, p % d, d, j as real, (nIn - 1) as real);
  }

  lemma Split(q: int, r: int, d: int, j: real, n: real)
    requires d > 0 && j * n == (q * d + r) as real
    ensures j * (n / d as real) == q as real + r as real / d as real
  {
  }

  lemma WholeIsBelow(j: nat, nIn: nat, nOut: nat)
    requires 1 <= nIn && j < nOut
    ensures 0 <= Whole(j, nIn, nOut) <= nIn - 1
  {
    if nOut > 1 {
      MulMono(j, nOut - 1, nIn - 1);
      MultipleDivides(nOut - 1, nIn - 1);
      AtLeastFloor(j * (nIn - 1), nOut - 1, nIn);
      assert nIn * (nOut - 1) == (nOut - 1) * (nIn - 1) + (nOut - 1);
      AtLeastFloor(j * (nIn - 1), nOut - 1, 0);
    }
  }

  /** Re-spacing keeps an affine signal exactly: output frame `j` carries its
      value at the master sample `j` lies at. Only a slipping block looks at the
      frame before it. */
  lemma AffineIsKept(signal: Affine, input: Samples, prev: Samples, base: int, nOut: nat, j: nat, c: nat)
    requires signal.Valid() && |input| > 0 && Renders(signal, input, base) && |prev| == CHANNELS
    requires |input| != nOut * CHANNELS ==> Precedes(signal, prev, base)
    requires j < nOut && c < CHANNELS
    ensures Respaced(input, prev, nOut, j * CHANNELS + c)
         == signal.Value(base as real + Place(j, |input| / CHANNELS, nOut), c)
  {
    hide Cubic, Whole, Part;
    var nIn := |input| / CHANNELS;
    if nIn == nOut {
      assert Respaced(input, prev, nOut, j * CHANNELS + c) == Channel(input, j, c);
      PlaceUnslipped(j, nIn);
    } else {
      assert (j * CHANNELS + c) / CHANNELS == j && (j * CHANNELS + c) % CHANNELS == c;
      if nIn == 1 || nOut == 1 {
        PlaceSingle(j, nIn, nOut);
        CubicAtPoint(At(input, prev, -1, c), Channel(input, 0, c), At(input, prev, 1, c), At(input, prev, 2, c));
      } else {
        SlippedPoint(signal, input, prev, base, nOut, j, c);
      }
    }
  }

  lemma PlaceUnslipped(j: nat, n: nat)
    requires j < n
    ensures Place(j, n, n) == j as real
  {
  }

  lemma PlaceSingle(j: nat, nIn: nat, nOut: nat)
    requires 1 <= nIn && j < nOut && (nIn == 1 || nOut == 1)
    ensures Place(j, nIn, nOut) == 0.0 && Whole(j, nIn, nOut) == 0 && Part(j, nIn, nOut) == 0.0
  {
    if nOut > 1 {
      MultipleDivides(nOut - 1, 0);
    }
  }

  lemma SlippedPoint(signal: Affine, input: Samples, prev: Samples, base: int, nOut: nat, j: nat, c: nat)
    requires signal.Valid() && |input| > CHANNELS && Renders(signal, input, base) && Precedes(signal, prev, base)
    requires j < nOut && nOut > 1 && c < CHANNELS
    ensures Point(input, prev, nOut, j, c) == signal.Value(base as real + Place(j, |input| / CHANNELS, nOut), c)
  {
    hide Cubic, Whole, Part, Place, At, Affine.Value;
    var nIn := |input| / CHANNELS;
    var i, t := Whole(j, nIn, nOut), Part(j, nIn, nOut);
    WholeIsBelow(j, nIn, nOut);
    PlaceSplits(j, nIn, nOut);
    AtOnLine(signal, input, prev, base, i - 1, c);
    AtOnLine(signal, input, prev, base, i, c);
    AtOnLine(signal, input, prev, base, i + 1, c);
    AtOnLine(signal, input, prev, base, i + 2, c);
    LineCubic(signal, c, (base + (i - 1)) as real, (base + i) as real, (base + (i + 1)) as real,
              (base + (i + 2)) as real, t, base as real + Place(j, nIn, nOut));
  }

  lemma LineCubic(signal: Affine, c: nat, m0: real, m1: real, m2: real, m3: real, t: real, m: real)
    requires signal.Valid() && c < CHANNELS
    requires m0 == m1 - 1.0 && m2 == m1 + 1.0 && m3 == m1 + 2.0 && m == m1 + t
    ensures Cubic(signal.Value(m0, c), signal.Value(m1, c), signal.Value(m2, c), signal.Value(m3, c), t)
         == signal.Value(m, c)
  {
    var offset, slope := signal.offset[c], signal.slope[c];
    StraightLine(offset + slope * m1, slope, t);
    assert offset + slope * m0 == offset + slope * m1 - slope;
    assert offset + slope * m2 == offset + slope * m1 + slope;
    assert offset + slope * m3 == offset + slope * m1 + 2.0 * slope;
    assert offset + slope * m == offset + slope * m1 + t * slope;
  }

  // ---------------------------------------------------------------------
  // What the cubic adds to a straight line.
  // ---------------------------------------------------------------------

  /** Output frames are spread evenly over the block. */
  lemma PlacesAreEven(j: nat, nIn: nat, nOut: nat)
    requires j < nOut
    ensures Place(j, nIn, nOut) * (nOut - 1) as real == (j * (nIn - 1)) as real
    ensures nOut == 1 ==> Place(j, nIn, nOut) == 0.0
  {
    if nOut > 1 {
      Even(j as real, (nIn - 1) as real, (nOut - 1) as real);
    }
  }

  lemma Even(j: real, n: real, d: real)
    requires d > 0.0
    ensures j * (n / d) * d == j * n
  {
    assert n / d * d == n;
  }

  /** The curve with given ends, whose slope at either end is half the difference of
      that end's neighbours. */
  lemma CubicIsHermite(x0: real, x1: real, x2: real, x3: real, t: real)
    ensures Cubic(x0, x1, x2, x3, t)
         == x1 * (1.0 + 2.0 * t) * (1.0 - t) * (1.0 - t) + x2 * t * t * (3.0 - 2.0 * t)
            + (x2 - x0) / 2.0 * t * (1.0 - t) * (1.0 - t) - (x3 - x1) / 2.0 * t * t * (1.0 - t)
  {
  }

  lemma CubicReversed(x0: real, x1: real, x2: real, x3: real, t: real)
    ensures Cubic(x0, x1, x2, x3, 1.0 - t) == Cubic(x3, x2, x1, x0, t)
  {
  }

  /** A signal quadratic in the master sample. */
  datatype Curve = Curve(offset: real, slope: real, bend: real) {
    function Value(m: real): real { offset + slope * m + bend * m * m }
  }

  lemma CurveMoves(f: Curve, m: real, h: real)
    ensures f.Value(m + h) == f.Value(m) + h * (f.slope + 2.0 * f.bend * m) + h * h * f.bend
  {
  }

  /** A quadratic signal comes out exactly at each output frame's place, but for those
      between the last two input frames, where the line run on past the block's end
      lifts it by `bend * t^2 * (1 - t)`. */
  lemma QuadraticIsKept(f: Curve, input: Samples, prev: Samples, base: int, nOut: nat, j: nat, c: nat)
    requires |input| > 0 && |prev| == CHANNELS && j < nOut && c < CHANNELS && Traces(f, input, base, c)
    requires |input| != nOut * CHANNELS ==> prev[c] == f.Value((base - 1) as real)
    ensures Respaced(input, prev, nOut, j * CHANNELS + c) == f.Value(base as real + Place(j, |input| / CHANNELS, nOut))
              + Lift(f, Place(j, |input| / CHANNELS, nOut) - (|input| / CHANNELS - 2) as real)
  {
    hide Cubic, Whole, Part, Lift, Curve.Value;
    var nIn := |input| / CHANNELS;
    NoLift(f);
    if nIn == nOut {
      assert Respaced(input, prev, nOut, j * CHANNELS + c) == Channel(input, j, c);
      PlaceUnslipped(j, nIn);
    } else {
      assert (j * CHANNELS + c) / CHANNELS == j && (j * CHANNELS + c) % CHANNELS == c;
      if nIn == 1 || nOut == 1 {
        PlaceSingle(j, nIn, nOut);
        CubicAtPoint(At(input, prev, -1, c), Channel(input, 0, c), At(input, prev, 1, c), At(input, prev, 2, c));
      } else {
        CurvePoint(f, input, prev, base, nOut, j, c);
      }
    }
  }

  ghost predicate Traces(f: Curve, input: Samples, base: int, c: nat)
    requires c < CHANNELS
  {
    && |input| % CHANNELS == 0
    && forall i | 0 <= i < |input| / CHANNELS :: Channel(input, i, c) == f.Value((base + i) as real)
  }

  function Lift(f: Curve, t: real): real {
    if t <= 0.0 then 0.0 else f.bend * t * t * (1.0 - t)
  }

  lemma NoLift(f: Curve)
    ensures forall t: real | t <= 0.0 || t == 1.0 :: Lift(f, t) == 0.0
  {
  }

  lemma CurvePoint(f: Curve, input: Samples, prev: Samples, base: int, nOut: nat, j: nat, c: nat)
    requires |input| > CHANNELS && |prev| == CHANNELS && j < nOut && nOut > 1 && c < CHANNELS
    requires Traces(f, input, base, c) && prev[c] == f.Value((base - 1) as real)
    ensures Point(input, prev, nOut, j, c) == f.Value(base as real + Place(j, |input| / CHANNELS, nOut))
              + Lift(f, Place(j, |input| / CHANNELS, nOut) - (|input| / CHANNELS - 2) as real)
  {
    hide Cubic, Whole, Part, Place, Lift, Curve.Value;
    var nIn := |input| / CHANNELS;
    var i, t := Whole(j, nIn, nOut), Part(j, nIn, nOut);
    WholeIsBelow(j, nIn, nOut);
    PlaceSplits(j, nIn, nOut);
    PartIsShort(j, nIn, nOut);
    var m := (base + i) as real;
    assert m + t == base as real + Place(j, nIn, nOut);
    NoLift(f);
    assert At(input, prev, i - 1, c) == f.Value(m - 1.0) && At(input, prev, i, c) == f.Value(m);
    if i < nIn - 1 {
      assert At(input, prev, i + 1, c) == f.Value(m + 1.0);
      CurveCubic(f, m, At(input, prev, i + 2, c), t, i == nIn - 2);
    } else {
      CubicAtPoint(At(input, prev, i - 1, c), At(input, prev, i, c), At(input, prev, i + 1, c), At(input, prev, i + 2, c));
    }
  }

  lemma PartIsShort(j: nat, nIn: nat, nOut: nat)
    requires 1 <= nIn && j < nOut && nOut > 1
    ensures 0.0 <= Part(j, nIn, nOut) < 1.0
    ensures Whole(j, nIn, nOut) == nIn - 1 ==> Part(j, nIn, nOut) == 0.0
  {
    var p, d := j * (nIn - 1), nOut - 1;
    MulMono(j, d, nIn - 1);
    FloorBounds(p, d);
    Remainder(p, d, nIn - 1);
    var r := p % d;
    assert 0.0 <= r as real / d as real < 1.0;
  }

  lemma Remainder(p: int, d: nat, q: int)
    requires d > 0 && p <= d * q
    ensures p / d == q ==> p % d == 0
  {
    assert p == p / d * d + p % d;
    if p / d == q {
      assert p == d * q + p % d;
    }
  }

  /** Through three of its values and a fourth, or a line run on in the fourth's stead. */
  lemma CurveCubic(f: Curve, m: real, x3: real, t: real, lined: bool)
    requires x3 == if lined then 2.0 * f.Value(m + 1.0) - f.Value(m) else f.Value(m + 2.0)
    ensures Cubic(f.Value(m - 1.0), f.Value(m), f.Value(m + 1.0), x3, t)
         == f.Value(m + t) + if lined then f.bend * t * t * (1.0 - t) else 0.0
    ensures lined && t >= 0.0 ==> f.bend * t * t * (1.0 - t) == Lift(f, t)
  {
    hide Curve.Value;
    CurveMoves(f, m, -1.0);
    CurveMoves(f, m, 1.0);
    CurveMoves(f, m, 2.0);
    CurveMoves(f, m, t);
  }

  /** Around any input frame the block is smooth: output frames less than one input
      frame off it lie, up to the square of their distance, on one line through it,
      on either side, with half the difference of its neighbours for slope. */
  lemma NoKink(input: Samples, prev: Samples, nOut: nat, j: nat, c: nat, i: nat)
    requires |input| > 0 && |input| % CHANNELS == 0 && |prev| == CHANNELS && j < nOut && nOut > 1 && c < CHANNELS
    requires i < |input| / CHANNELS != nOut
    requires -1.0 < Place(j, |input| / CHANNELS, nOut) - i as real < 1.0
    ensures NearLine(Respaced(input, prev, nOut, j * CHANNELS + c),
                     At(input, prev, i, c), (At(input, prev, i + 1, c) - At(input, prev, i - 1, c)) / 2.0,
                     Place(j, |input| / CHANNELS, nOut) - i as real, 4.0 * Spread(input, prev, i, c))
  {
    hide Cubic, Whole, Part, Place, At, NearLine;
    var nIn := |input| / CHANNELS;
    assert (j * CHANNELS + c) / CHANNELS == j && (j * CHANNELS + c) % CHANNELS == c;
    var w, t := Whole(j, nIn, nOut), Part(j, nIn, nOut);
    PlaceSplits(j, nIn, nOut);
    PartIsShort(j, nIn, nOut);
    var a, b, x, y, z := At(input, prev, i - 2, c), At(input, prev, i - 1, c), At(input, prev, i, c),
                         At(input, prev, i + 1, c), At(input, prev, i + 2, c);
    var k := 4.0 * Spread(input, prev, i, c);
    if w == i {
      NearPoint(b, x, y, z, k, t);
    } else {
      assert w == i - 1;
      CubicReversed(a, b, x, y, 1.0 - t);
      NearPoint(y, x, b, a, k, 1.0 - t);
      FromTheLeft(Cubic(a, b, x, y, t), x, (b - y) / 2.0, 1.0 - t, k);
    }
  }

  /** `value`, found `h` on from `x`, lies within `k * h^2` of the line through `x`. */
  ghost predicate NearLine(value: real, x: real, slope: real, h: real, k: real) {
    -k * h * h <= value - (x + slope * h) <= k * h * h
  }

  function Size(x: real): real { if x < 0.0 then -x else x }

  /** The magnitudes of a frame and of two on either side, together. */
  function Spread(input: Samples, prev: Samples, i: nat, c: nat): real
    requires |prev| == CHANNELS && c < CHANNELS && |input| >= CHANNELS && |input| % CHANNELS == 0
  {
    Size(At(input, prev, i - 2, c)) + Size(At(input, prev, i - 1, c)) + Size(At(input, prev, i, c))
    + Size(At(input, prev, i + 1, c)) + Size(At(input, prev, i + 2, c))
  }

  lemma FromTheLeft(value: real, x: real, slope: real, h: real, k: real)
    requires NearLine(value, x, slope, h, k)
    ensures NearLine(value, x, -slope, -h, k)
  {
  }

  /** Twice what the cubic adds to its tangent at the start, over `h * h`. */
  function Rest(x0: real, x1: real, x2: real, x3: real, h: real): real {
    2.0 * x0 - 5.0 * x1 + 4.0 * x2 - x3 + h * (3.0 * (x1 - x2) + x3 - x0)
  }

  lemma NearPoint(x0: real, x1: real, x2: real, x3: real, k: real, h: real)
    requires 0.0 <= h <= 1.0 && k >= 4.0 * (Size(x0) + Size(x1) + Size(x2) + Size(x3))
    ensures NearLine(Cubic(x0, x1, x2, x3, h), x1, (x2 - x0) / 2.0, h, k)
  {
    hide Cubic, Size, Rest, NearLine;
    RestIsSmall(x0, x1, x2, x3, k, h);
    RestIsLeft(x0, x1, x2, x3, h);
    Bend(Cubic(x0, x1, x2, x3, h), x1, (x2 - x0) / 2.0, Rest(x0, x1, x2, x3, h) / 2.0, h, k);
  }

  lemma RestIsLeft(x0: real, x1: real, x2: real, x3: real, h: real)
    ensures Cubic(x0, x1, x2, x3, h) == x1 + (x2 - x0) / 2.0 * h + Rest(x0, x1, x2, x3, h) / 2.0 * h * h
  {
    Regroup(x2 - x0, 2.0 * x0 - 5.0 * x1 + 4.0 * x2 - x3, 3.0 * (x1 - x2) + x3 - x0, h);
  }

  lemma Regroup(a: real, b: real, c: real, h: real)
    ensures 0.5 * h * (a + h * (b + h * c)) == a / 2.0 * h + (b + h * c) / 2.0 * h * h
  {
  }

  lemma RestIsSmall(x0: real, x1: real, x2: real, x3: real, k: real, h: real)
    requires 0.0 <= h <= 1.0 && k >= 4.0 * (Size(x0) + Size(x1) + Size(x2) + Size(x3))
    ensures -2.0 * k <= Rest(x0, x1, x2, x3, h) <= 2.0 * k
  {
    var rise, size := 3.0 * (x1 - x2) + x3 - x0, 3.0 * Size(x1) + 3.0 * Size(x2) + Size(x3) + Size(x0);
    Shrinks(h, rise, size);
    var more := h * rise;
    assert Rest(x0, x1, x2, x3, h) == 2.0 * x0 - 5.0 * x1 + 4.0 * x2 - x3 + more;
  }

  lemma Shrinks(h: real, y: real, k: real)
    requires 0.0 <= h <= 1.0 && -k <= y <= k
    ensures -k <= h * y <= k
  {
    assert 0.0 <= h * (k - y) && 0.0 <= h * (k + y);
    assert h * k <= k;
  }

  lemma Bend(value: real, x: real, slope: real, rest: real, h: real, k: real)
    requires h >= 0.0 && -k <= rest <= k && value == x + slope * h + rest * h * h
    ensures NearLine(value, x, slope, h, k)
  {
    var below, above := (rest + k) * h, (k - rest) * h;
    assert below >= 0.0 && above >= 0.0;
    assert below * h >= 0.0 && above * h >= 0.0;
    assert below * h == rest * h * h + k * h * h && above * h == k * h * h - rest * h * h;
  }
}
