/** Facts of integer arithmetic: division, its rounding, and the adjunction
    between flooring a quotient and ceiling its inverse. */
module IntFacts {

  lemma MulMono(a: int, b: int, c: int)
    requires a <= b && 0 <= c
    ensures a * c <= b * c
  {
  }

  /** Two numbers with the same remainder lie a whole modulus apart. */
  lemma SameRemainder(a: nat, b: nat, w: nat)
    requires w > 0 && a < b && a % w == b % w
    ensures a + w <= b
  {
    var qa, qb := a / w, b / w;
    assert a == qa * w + a % w && b == qb * w + b % w;
    if qb <= qa {
      MulMono(qb, qa, w);
    } else {
      MulMono(qa + 1, qb, w);
      assert (qa + 1) * w == qa * w + w;
    }
  }

  /** `n / d` rounded down, for a divisor the callers know is positive. */
  function Floor(n: int, d: nat): int
    requires d > 0
  {
    n / d
  }

  /** `n / d` rounded up. */
  function Ceil(n: int, d: nat): int
    requires d > 0
  {
    -((-n) / d)
  }

  lemma FloorBounds(n: int, d: nat)
    requires d > 0
    ensures Floor(n, d) * d <= n < Floor(n, d) * d + d
  {
  }

  lemma CeilBounds(n: int, d: nat)
    requires d > 0
    ensures Ceil(n, d) * d - d < n <= Ceil(n, d) * d
  {
    var q := (-n) / d;
    assert q * d <= -n < q * d + d;
    assert Ceil(n, d) * d == -(q * d);
  }

  /** Flooring is the largest multiple below. */
  lemma AtLeastFloor(n: int, d: nat, q: int)
    requires d > 0
    ensures q <= Floor(n, d) <==> q * d <= n
  {
    var f := Floor(n, d);
    FloorBounds(n, d);
    if q <= f {
      MulMono(q, f, d);
    } else {
      MulMono(f + 1, q, d);
      assert (f + 1) * d == f * d + d;
    }
  }

  /** Ceiling is the smallest multiple above. */
  lemma AtMostCeil(n: int, d: nat, q: int)
    requires d > 0
    ensures Ceil(n, d) <= q <==> n <= q * d
  {
    var c := Ceil(n, d);
    CeilBounds(n, d);
    if c <= q {
      MulMono(c, q, d);
    } else {
      MulMono(q + 1, c, d);
      assert (q + 1) * d == q * d + d;
    }
  }

  /** The adjunction: scaling up by `a / b` and flooring reaches `q` exactly from
      `q` scaled down by `b / a` and ceiled. */
  lemma FloorReaches(f: int, q: int, a: nat, b: nat)
    requires a > 0 && b > 0
    ensures q <= Floor(f * a, b) <==> Ceil(q * b, a) <= f
  {
    AtLeastFloor(f * a, b, q);
    AtMostCeil(q * b, a, f);
  }

  lemma FloorShifts(n: int, k: int, d: nat)
    requires d > 0
    ensures Floor(n + k * d, d) == Floor(n, d) + k
  {
    var f := Floor(n, d);
    FloorBounds(n, d);
    assert (f + k) * d == f * d + k * d;
    AtLeastFloor(n + k * d, d, f + k);
    assert (f + k + 1) * d == f * d + k * d + d;
    AtLeastFloor(n + k * d, d, f + k + 1);
  }

  lemma CeilShifts(n: int, k: int, d: nat)
    requires d > 0
    ensures Ceil(n + k * d, d) == Ceil(n, d) + k
  {
    FloorShifts(-n, -k, d);
    assert -(n + k * d) == -n + -k * d;
  }

  lemma MultipleDivides(d: nat, m: nat)
    requires d > 0
    ensures (d * m) / d == m && (d * m) % d == 0
  {
    FloorBounds(d * m, d);
    AtLeastFloor(d * m, d, m);
    AtLeastFloor(d * m, d, m + 1);
    assert (m + 1) * d == m * d + d;
  }
}
