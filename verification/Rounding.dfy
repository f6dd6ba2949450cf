/** Rounding a number to a multiple of a power of its base, to nearest with ties to even. */
module Rounding {
  import opened Positional

  /** The multiple of f nearest to x, in units of f, with ties to the even one. */
  function NearestEven(x: int, f: nat): int
    requires f > 0
  {
    var w, rest := x / f, x % f;
    if 2 * rest > f || (2 * rest == f && w % 2 == 1) then w + 1 else w
  }

  lemma NearestEvenIsNearest(x: int, f: nat)
    requires f > 0
    ensures var r := NearestEven(x, f);
            && 2 * (r * f - x) <= f && 2 * (x - r * f) <= f
            && (2 * (r * f - x) == f || 2 * (x - r * f) == f ==> r % 2 == 0)
  {
    var w := x / f;
    assert x == f * w + x % f;
    assert (w + 1) * f == w * f + f;
  }

  ghost predicate SomeNonzero(d: seq<int>, k: nat)
    requires k <= |d|
  {
    exists j :: 0 <= j < k && d[j] != 0
  }

  /** Cutting off the lowest f digits divides by b^f. */
  lemma CutDigits(b: nat, d: seq<int>, f: nat)
    requires b > 0 && f <= |d| && Digits(b, d)
    ensures Val(b, d) / Pow(b, f) == Val(b, d[f..]) && Val(b, d) % Pow(b, f) == Val(b, d[..f])
  {
    ValSplit(b, d, f);
    ValBound(b, d[..f]);
    CutQuotient(Val(b, d), Pow(b, f), Val(b, d[..f]), Val(b, d[f..]));
  }

  lemma CutQuotient(v: int, p: int, low: int, high: int)
    requires v == low + p * high && 0 <= low < p
    ensures v / p == high && v % p == low
  {
    DivUnique(v, p, high, low);
  }

  /** The digit below the cut decides whether what is cut off is above, at or below one half. */
  lemma HalfDigit(b: nat, d: seq<int>, f: nat)
    requires b > 0 && b % 2 == 0 && 0 < f <= |d| && Digits(b, d)
    ensures var half := d[f - 1] - b / 2;
            && (2 * Val(b, d[..f]) > Pow(b, f) <==> half > 0 || (half == 0 && SomeNonzero(d, f - 1)))
            && (2 * Val(b, d[..f]) == Pow(b, f) <==> half == 0 && !SomeNonzero(d, f - 1))
  {
    ValTake(b, d, f - 1);
    ValBound(b, d[..f - 1]);
    ZeroIffZeros(b, d, f - 1);
    HalfCompare(b, d[f - 1], Val(b, d[..f - 1]), Pow(b, f - 1));
  }

  lemma HalfCompare(b: nat, d: int, low: int, p: int)
    requires 0 <= low < p && b % 2 == 0
    ensures 2 * (low + d * p) > b * p <==> d > b / 2 || (d == b / 2 && low > 0)
    ensures 2 * (low + d * p) == b * p <==> d == b / 2 && low == 0
  {
    var h := b / 2;
    assert b * p == 2 * (h * p);
    if d > h {
      MulMono(h + 1, d, p);
    } else if d < h {
      MulMono(d, h - 1, p);
    }
  }

  lemma {:induction false} ZeroIffZeros(b: nat, d: seq<int>, k: nat)
    requires b > 0 && Digits(b, d) && k <= |d|
    ensures Val(b, d[..k]) == 0 <==> !SomeNonzero(d, k)
  {
    if k > 0 {
      ValTake(b, d, k - 1);
      ValBound(b, d[..k - 1]);
      ZeroIffZeros(b, d, k - 1);
      MulMono(0, d[k - 1], Pow(b, k - 1));
      if d[k - 1] > 0 { MulMono(1, d[k - 1], Pow(b, k - 1)); }
    }
  }

  /** In an even base the lowest digit has the parity of the number. */
  lemma ParityOfLowDigit(b: nat, d: seq<int>)
    requires b > 0 && b % 2 == 0 && |d| > 0
    ensures Val(b, d) % 2 == d[0] % 2
  {
    ValSplit(b, d, 1);
    LowDigit(b, d);
    EvenShift(b, d[0], Val(b, d[1..]));
  }

  lemma LowDigit(b: nat, d: seq<int>)
    requires |d| > 0
    ensures Val(b, d[..1]) == d[0] && Pow(b, 1) == b
  {
    ValTake(b, d, 0);
    assert Pow(b, 1) == b * Pow(b, 0);
  }

  lemma EvenShift(b: nat, d: int, x: int)
    requires b % 2 == 0
    ensures (d + b * x) % 2 == d % 2
  {
    var y := b / 2 * x;
    assert b * x == 2 * y;
  }
}
