/**
 * The integer arithmetic behind the Newton-Raphson inverse (decimal_fixedpoint.h).
 *
 * With scale s, a positive operand m and an estimate inv, the residual is
 * s * s - inv * m: it is zero when inv / s is exactly the inverse of m / s.
 */
module Newton {
  import opened Positional

  const SEED_DIGITS: nat := 7
  const SEED: nat := 10_000_000

  function Residual(s: int, inv: int, m: int): int {
    s * s - inv * m
  }

  function Abs(x: int): nat {
    if x < 0 then -x else x
  }

  function Max(x: int, y: int): int {
    if x < y then y else x
  }

  /** One pass of the loop: inv * (2 - inv * m), each product truncated to the last word. */
  function Refined(s: int, inv: int, m: int): int
    requires s > 0
  {
    inv * (2 * s - inv * m / s) / s
  }

  /** The estimate exceeds the inverse by no more than the seed's relative error. */
  predicate NotAbove(s: int, inv: int, m: int) {
    0 <= inv && SEED * (inv * m) <= (SEED + 1) * (s * s)
  }

  /** A double's inverse truncated to the last word: seven good digits, rounded down. */
  predicate GoodSeed(s: int, inv: int, m: int) {
    NotAbove(s, inv, m) && SEED * Residual(s, inv, m) <= s * s + SEED * m
  }

  /** Truncation noise: one unit of the estimate or two units of the scale. */
  function Noise(s: int, m: int): int {
    Max(m, 2 * s)
  }

  /** The residual relative to s * s is at most 10^-digits, up to noise. */
  ghost predicate Accurate(s: int, inv: int, m: int, digits: nat) {
    Pow(10, digits) * Abs(Residual(s, inv, m)) <= s * s + 2 * Noise(s, m) * Pow(10, digits)
  }

  /** Newton's step squares the residual, up to the two truncations. */
  lemma ResidualSquares(s: int, inv: int, m: int)
    requires s > 0 && m > 0 && inv >= 0
    ensures var e, e' := Residual(s, inv, m), Residual(s, Refined(s, inv, m), m);
            && e * e - (inv * m) * s <= s * s * e' < e * e + m * (s * s)
            && (inv > 0 ==> e * e - (inv * m) * s < s * s * e')
            && (s == 1 ==> e * e <= e')
  {
    var t := inv * m / s;
    var n := inv * (2 * s - t) / s;
    ResidualOfStep(s, inv, m, t, inv * m % s, n, inv * (2 * s - t) % s);
  }

  lemma ResidualOfStep(s: int, inv: int, m: int, t: int, r1: int, n: int, r2: int)
    requires s > 0 && m > 0 && inv >= 0
    requires r1 == inv * m - s * t && r2 == inv * (2 * s - t) - s * n
    requires 0 <= r1 < s && 0 <= r2 < s
    ensures var e, e' := Residual(s, inv, m), Residual(s, n, m);
            && e * e - (inv * m) * s <= s * s * e' < e * e + m * (s * s)
            && (inv > 0 ==> e * e - (inv * m) * s < s * s * e')
            && (s == 1 ==> e * e <= e')
  {
    Expand(s, inv, m, t, r1, n, r2);
    assert (m * s) * s == m * (s * s) && s * s > 0;
    StepBounds(s, m, inv * m, m * s, r1, r2, s * s, Residual(s, inv, m) * Residual(s, inv, m), Residual(s, n, m));
  }

  lemma StepBounds(s: int, m: int, a: int, b: int, r1: int, r2: int, ss: int, ee: int, e': int)
    requires 0 <= r1 < s && 0 <= r2 < s && a >= 0 && b > 0 && ss > 0 && (s == 1 ==> ss == 1)
    requires ss * e' == ee - a * r1 + r2 * b && b * s == m * ss
    ensures ee - a * s <= ss * e' < ee + m * ss
    ensures a > 0 ==> ee - a * s < ss * e'
    ensures s == 1 ==> ee <= e'
  {
    Truncated(a, r1, s);
    Truncated(b, r2, s);
  }

  lemma Truncated(p: int, r: int, s: int)
    requires p >= 0 && 0 <= r < s
    ensures 0 <= p * r <= p * s
    ensures p > 0 ==> p * r < p * s
  {
  }

  lemma Expand(s: int, inv: int, m: int, t: int, r1: int, n: int, r2: int)
    requires r1 == inv * m - s * t && r2 == inv * (2 * s - t) - s * n
    ensures s * s * (s * s - n * m)
            == (s * s - inv * m) * (s * s - inv * m) - (inv * m) * r1 + r2 * (m * s)
  {
    Ring(s, inv, m, t, n);
  }

  lemma Ring(s: int, inv: int, m: int, t: int, n: int)
    ensures s * s * (s * s - n * m)
            == (s * s - inv * m) * (s * s - inv * m) - (inv * m) * (inv * m - s * t)
               + (inv * (2 * s - t) - s * n) * (m * s)
  {
  }

  /** Dividing a strict bound by a positive scale. */
  lemma Cancel(c: int, x: int, y: int)
    requires c > 0 && c * x < c * y
    ensures x < y
  {
    if y <= x {
      MulMono(y, x, c);
    }
  }

  /** The loop never overshoots: the next estimate is non-negative and still not above. */
  lemma StaysBelow(s: int, inv: int, m: int)
    requires (s == 1 || s >= 10 * SEED) && m > 0 && NotAbove(s, inv, m)
    ensures 0 <= inv * m / s < 2 * s
    ensures Residual(s, Refined(s, inv, m), m) > -2 * s
    ensures NotAbove(s, Refined(s, inv, m), m)
  {
    Nonnegative(inv, m);
    Nonnegative(s, s);
    QuotientBelow(s, inv * m);
    NextNonnegative(s, inv, inv * m / s);
    ResidualSquares(s, inv, m);
    ResidualAbove(s, inv * m, Residual(s, inv, m), Residual(s, Refined(s, inv, m), m));
    StillNotAbove(s, Refined(s, inv, m), m);
  }

  lemma NextNonnegative(s: int, inv: int, t: int)
    requires s > 0 && inv >= 0 && t <= 2 * s
    ensures inv * (2 * s - t) / s >= 0
  {
    Nonnegative(inv, 2 * s - t);
  }

  lemma StillNotAbove(s: int, n: int, m: int)
    requires s == 1 || s >= 10 * SEED
    requires n >= 0 && Residual(s, n, m) > -2 * s && (s == 1 ==> Residual(s, n, m) >= 0)
    ensures NotAbove(s, n, m)
  {
    if s != 1 { MulMono(10 * SEED, s, s); }
  }

  lemma Nonnegative(x: int, y: int)
    requires (x >= 0 && y >= 0) || x == y
    ensures x * y >= 0
  {
  }

  lemma QuotientBelow(s: int, p: int)
    requires s > 0 && 0 <= p < 2 * (s * s)
    ensures 0 <= p / s < 2 * s
  {
    var t := p / s;
    assert s * t <= p;
    Cancel(s, t, 2 * s) by { assert s * (2 * s) == 2 * (s * s); }
  }

  lemma ResidualAbove(s: int, p: int, e: int, e': int)
    requires s > 0 && p < 2 * (s * s)
    requires e * e - p * s <= s * s * e' && (s == 1 ==> e * e <= e')
    ensures e' > -2 * s && (s == 1 ==> e' >= 0)
  {
    var q := s * s;
    assert e * e >= 0;
    assert p * s < 2 * q * s by { Scale(p, 2 * q, s); }
    assert q * (-2 * s) == -(2 * q * s);
    Cancel(q, -2 * s, e') by { assert q > 0; }
  }

  lemma Scale(x: int, y: int, c: int)
    requires x < y && c > 0
    ensures x * c < y * c
  {
  }

  /** Above the noise, one step doubles the number of good digits. */
  lemma AccuracyDoubles(s: int, inv: int, m: int, k: nat)
    requires s >= 10 * SEED && m > 0 && 5 * m <= s * s && k >= SEED_DIGITS
    requires NotAbove(s, inv, m) && Accurate(s, inv, m, k)
    ensures Accurate(s, Refined(s, inv, m), m, 2 * k)
  {
    SeedDigits(k);
    assert 5 * Noise(s, m) <= s * s by { MulMono(10 * SEED, s, s); }
    StaysBelow(s, inv, m);
    ResidualSquares(s, inv, m);
    ErrorStep(Pow(10, k), s * s, Noise(s, m), m, Residual(s, inv, m), Residual(s, Refined(s, inv, m), m));
  }

  lemma ErrorStep(x: int, q: int, d: int, m: int, e: int, e': int)
    requires x >= 20 && q > 0 && 5 * d <= q && 0 < m <= d
    requires x * Abs(e) <= q + 2 * d * x
    requires q * e' < e * e + m * q && -d < e'
    ensures (x * x) * Abs(e') <= q + 2 * d * (x * x)
  {
    if e' < 0 {
      SmallError(x, q, d, -e');
    } else {
      assert q * e' <= Abs(e) * Abs(e) + d * q by { MulMono(m, d, q); }
      SquaredError(x, q, d, Abs(e), e');
    }
  }

  lemma SmallError(x: int, q: int, d: int, e: int)
    requires q > 0 && 0 <= e <= d
    ensures (x * x) * e <= q + 2 * d * (x * x)
  {
    Nonnegative(x, x);
    MulMono(e, 2 * d, x * x);
  }

  lemma SeedDigits(k: nat)
    requires k >= SEED_DIGITS
    ensures Pow(10, k) >= SEED && Pow(10, 2 * k) == Pow(10, k) * Pow(10, k)
  {
    SeedPower();
    PowMono(10, 7, k);
    PowAdd(10, k, k);
  }

  lemma SeedPower()
    ensures Pow(10, 7) == SEED
  {
    assert Pow(10, 3) == 1000;
    assert Pow(10, 4) == 10000;
    PowAdd(10, 3, 4);
  }

  lemma SquaredError(x: int, q: int, d: int, e: int, e': int)
    requires x >= 20 && q > 0 && d > 0 && 5 * d <= q && e >= 0
    requires x * e <= q + 2 * d * x
    requires q * e' <= e * e + d * q
    ensures (x * x) * e' <= q + 2 * d * (x * x)
  {
    var b := q + 2 * d * x;
    SquareMono(x * e, b) by { Nonnegative(x, e); }
    ScaledResidual(x, q, d, e, e');
    CrossTerms(x, q, d);
    Ring2(q, d, x);
    Ring3(q, x, d, e');
    Descend(q, (x * x) * e', q + 2 * d * (x * x));
  }

  lemma SquareMono(a: int, b: int)
    requires 0 <= a <= b
    ensures a * a <= b * b
  {
  }

  lemma ScaledResidual(x: int, q: int, d: int, e: int, e': int)
    requires q * e' <= e * e + d * q
    ensures (x * x) * (q * e') <= (x * e) * (x * e) + (x * x) * (d * q)
  {
    Ring1(x, e, d * q);
    Nonnegative(x, x);
    MulMono(q * e', e * e + d * q, x * x);
  }

  lemma Descend(q: int, x: int, y: int)
    requires q > 0 && q * x <= q * y
    ensures x <= y
  {
    if x > y { Scale(y, x, q); }
  }

  lemma CrossTerms(x: int, q: int, d: int)
    requires x >= 20 && q > 0 && d > 0 && 5 * d <= q
    ensures (d * x) * (4 * q + 4 * (d * x)) <= (d * x) * (x * q)
  {
    assert 4 * q + 4 * (d * x) <= x * q by {
      MulMono(5 * d, q, x);
      MulMono(20, x, q);
      assert (5 * d) * x == 5 * (d * x);
    }
    assert d * x > 0;
    MulMono(4 * q + 4 * (d * x), x * q, d * x);
  }

  lemma Ring1(x: int, e: int, c: int)
    ensures (x * x) * (e * e + c) == (x * e) * (x * e) + (x * x) * c
  {
  }

  lemma Ring2(q: int, d: int, x: int)
    ensures (q + 2 * d * x) * (q + 2 * d * x) == q * q + (d * x) * (4 * q + 4 * (d * x))
  {
  }

  lemma Ring3(q: int, x: int, d: int, e: int)
    ensures (x * x) * (q * e) == q * ((x * x) * e)
    ensures q * q + (d * x) * (x * q) + (x * x) * (d * q) == q * (q + 2 * d * (x * x))
  {
  }

  /** What the loop keeps: `digits` good digits unless the inverse is below five units. */
  ghost predicate Estimate(s: int, inv: int, m: int, digits: nat) {
    NotAbove(s, inv, m) && (5 * m <= s * s ==> Accurate(s, inv, m, digits))
  }

  lemma SeedIsEstimate(s: int, inv: int, m: int)
    requires s > 0 && m > 0 && GoodSeed(s, inv, m)
    ensures Estimate(s, inv, m, SEED_DIGITS)
  {
    SeedPower();
    assert s * s >= 0;
  }

  lemma StepDoubles(s: int, inv: int, m: int, digits: nat)
    requires (s == 1 || s >= 10 * SEED) && m > 0 && digits >= SEED_DIGITS
    requires Estimate(s, inv, m, digits)
    ensures Estimate(s, Refined(s, inv, m), m, 2 * digits)
  {
    StaysBelow(s, inv, m);
    if 5 * m <= s * s {
      AccuracyDoubles(s, inv, m, digits);
    }
  }

  /** Once the good digits cover the capacity w of the words, only the noise is left. */
  lemma Converged(s: int, inv: int, m: int, digits: nat, w: int)
    requires s > 0 && m > 0 && Estimate(s, inv, m, digits)
    requires s * s < m * w && w <= Pow(10, digits)
    ensures Abs(Residual(s, inv, m)) <= 6 * Max(m, s)
  {
    if 5 * m <= s * s {
      OnlyNoise(Pow(10, digits), s * s, Noise(s, m), m, w, Abs(Residual(s, inv, m)));
    } else {
      Nonnegative(inv, m);
    }
  }

  lemma OnlyNoise(x: int, q: int, d: int, m: int, w: int, e: int)
    requires x > 0 && 0 < m <= d && w <= x
    requires x * e <= q + 2 * d * x && q < m * w
    ensures e <= 3 * d
  {
    MulMono(w, x, m);
    assert x * e < x * (m + 2 * d) by { assert x * (m + 2 * d) == m * x + 2 * d * x; }
    Cancel(x, e, m + 2 * d);
  }

  /** The quotient a / m, enlarged by the inverse's error, is below the capacity p. */
  predicate QuotientFits(s: int, a: int, m: int, p: int) {
    a * (s * s + 6 * Max(m, s)) < p * (m * s)
  }

  /** Multiplying by an inverse with a small residual is division with a small residual. */
  lemma QuotientError(s: int, a: int, m: int, inv: int, p: int)
    requires s > 0 && m > 0 && a >= 0 && inv >= 0 && p > 0
    requires Abs(Residual(s, inv, m)) <= 6 * Max(m, s) && QuotientFits(s, a, m, p)
    ensures 0 <= a * inv / s < p
    ensures Abs((a * inv / s) * m - a * s) * s <= 6 * a * Max(m, s) + m * s
  {
    Nonnegative(a, inv);
    QuotientParts(s, a, m, inv, a * inv / s, a * inv % s, 6 * Max(m, s), p);
    assert 6 * a * Max(m, s) == a * (6 * Max(m, s));
  }

  lemma QuotientParts(s: int, a: int, m: int, inv: int, q: int, r: int, b: int, p: int)
    requires s > 0 && m > 0 && a >= 0
    requires a * inv == s * q + r && 0 <= r < s
    requires Abs(Residual(s, inv, m)) <= b && a * (s * s + b) < p * (m * s)
    ensures q < p
    ensures Abs(q * m - a * s) * s <= a * b + m * s
  {
    var e := Residual(s, inv, m);
    QuotientRing(s, a, m, inv, q, r);
    AbsBound(a, e, b);
    Truncated(m, r, s);
    AbsScale(q * m - a * s, s);
    InRange(s, a, m, q, e, b, p);
  }

  lemma InRange(s: int, a: int, m: int, q: int, e: int, b: int, p: int)
    requires s > 0 && m > 0
    requires (q * m - a * s) * s <= -(a * e) && -(a * e) <= a * b
    requires a * (s * s + b) < p * (m * s)
    ensures q < p
  {
    assert q * (m * s) == (q * m - a * s) * s + a * (s * s);
    assert a * (s * s + b) == a * (s * s) + a * b;
    assert m * s > 0;
    Cancel(m * s, q, p) by { assert (m * s) * q == q * (m * s) && (m * s) * p == p * (m * s); }
  }

  lemma QuotientRing(s: int, a: int, m: int, inv: int, q: int, r: int)
    requires a * inv == s * q + r
    ensures (q * m - a * s) * s == -(a * (s * s - inv * m)) - m * r
  {
    assert (s * q + r) * m == (a * inv) * m;
    assert (q * m - a * s) * s == (s * q) * m - a * (s * s);
    assert a * (s * s - inv * m) == a * (s * s) - (a * inv) * m;
  }

  lemma AbsBound(a: int, e: int, b: int)
    requires a >= 0 && Abs(e) <= b
    ensures Abs(a * e) <= a * b
  {
    MulMono(e, b, a);
    MulMono(-b, e, a);
  }

  lemma AbsScale(x: int, s: int)
    requires s > 0
    ensures Abs(x) * s == Abs(x * s)
  {
  }
}
