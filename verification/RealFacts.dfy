/** Facts of real arithmetic, kept apart so that each is proved with nothing else
    in scope. */
module RealFacts {

  /** One step from `gain` toward unity. */
  function Approach(gain: real, release: real): real {
    gain + (1.0 - gain) * release
  }

  lemma MulMono(a: real, b: real, c: real)
    requires a <= b && 0.0 <= c
    ensures a * c <= b * c
  {
  }

  lemma Toward(gain: real, release: real)
    requires 0.0 <= gain <= 1.0 && 0.0 <= release <= 1.0
    ensures gain <= Approach(gain, release) <= 1.0
  {
    Product(1.0 - gain, release);
    Product(1.0 - gain, 1.0 - release);
  }

  lemma Product(a: real, b: real)
    requires a >= 0.0 && b >= 0.0
    ensures a * b >= 0.0
  {
  }

  lemma DivideSelf(a: real)
    requires a > 0.0
    ensures a / a == 1.0
  {
  }

  lemma BernoulliStep(r: real, m: real, y: real)
    requires 0.0 < r < 1.0 && m >= 0.0 && y > 0.0 && y * (1.0 + m * r) <= 1.0
    ensures (1.0 - r) * y * (1.0 + (m + 1.0) * r) <= 1.0
  {
    var q := r * r * (m + 1.0);
    assert q >= 0.0;
    assert (1.0 - r) * (1.0 + (m + 1.0) * r) == 1.0 + m * r - q;
    assert y * q >= 0.0;
    assert (1.0 - r) * y * (1.0 + (m + 1.0) * r) == y * (1.0 + m * r) - y * q;
  }

  lemma Shrink(gain: real, release: real, bound: real)
    requires 0.0 <= gain <= 1.0 && 0.0 <= release <= 1.0 && 1.0 - gain <= bound
    ensures 1.0 - Approach(gain, release) <= (1.0 - release) * bound
  {
    MulMono(1.0 - gain, bound, 1.0 - release);
  }
}
