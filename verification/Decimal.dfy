/**
 * Signed decimal fixed-point numbers in radix 10^8 (decimal_fixedpoint.h).
 *
 * A number is a fixed array of `whole + fraction` words, least significant first, and a
 * sign flag. Its magnitude counts units of the last word, so the rational number it
 * stands for is Signed() / Radix^fraction. The 64-bit accumulators of the source are
 * written out with their wrap-around.
 */
module Decimal {
  import opened Columns
  import Newton
  import opened Positional
  import opened Rounding

  const RADIX: nat := 100_000_000
  const DIGITS_PER_WORD: nat := 8
  const TWO64: nat := 0x1_0000_0000_0000_0000

  /** A value as a 64-bit unsigned variable holds it. */
  function U64(x: int): (r: nat) {
    x % TWO64
  }

  ghost function P(e: nat): (p: int)
    ensures p > 0
  {
    Pow(RADIX, e)
  }

  /** A sum of two magnitudes below p, reduced modulo p. */
  ghost function Wrapped(sum: int, p: int): int {
    if sum < p then sum else sum - p
  }

  ghost function V(s: seq<int>): int {
    Val(RADIX, s)
  }

  // ---------------------------------------------------------------- word steps

  /** One word of a carry chain: the digits stored so far plus the pending carry. */
  lemma CarryStep(low: int, carry: int, x: int, y: int, target: int, p: int)
    requires p > 0 && 0 <= x < RADIX && 0 <= y < RADIX && 0 <= carry <= 1
    requires low + carry * p == target
    ensures var s := U64(x + y + carry);
            && 0 <= s % RADIX < RADIX && 0 <= s / RADIX <= 1
            && low + (s % RADIX) * p + (s / RADIX) * (RADIX * p) == target + x * p + y * p
  {
    var s := x + y + carry;
    assert s < 2 * RADIX && U64(s) == s;
    var q, r := s / RADIX, s % RADIX;
    assert r * p + q * (RADIX * p) == s * p by {
      assert s == RADIX * q + r;
      assert q * (RADIX * p) == (RADIX * q) * p;
    }
    assert s * p == x * p + y * p + carry * p;
  }

  lemma ComplementStep(low: int, carry: int, x: int, y: int, a: int, w: int, p: int)
    requires p > 0 && 0 <= x < RADIX && 0 <= y < RADIX && 0 <= carry <= 1
    requires low + carry * p == a - w + p
    ensures U64(RADIX - 1 - y) == RADIX - 1 - y
    ensures var s := U64(x + (RADIX - 1 - y) + carry);
            && 0 <= s % RADIX < RADIX && 0 <= s / RADIX <= 1
            && low + (s % RADIX) * p + (s / RADIX) * (RADIX * p) == (a + x * p) - (w + y * p) + RADIX * p
  {
    CarryStep(low, carry, x, RADIX - 1 - y, a - w + p, p);
    assert (RADIX - 1 - y) * p == RADIX * p - p - y * p;
  }

  /** The words below i hold the sum of a and w, and `carry` is still to be added at i. */
  ghost predicate Adding(d: seq<int>, a: seq<int>, w: seq<int>, i: nat, carry: int) {
    && |d| == |a| == |w| && i <= |d| && 0 <= carry <= 1
    && Digits(RADIX, d) && Digits(RADIX, a) && Digits(RADIX, w)
    && (forall k :: i <= k < |d| ==> d[k] == a[k])
    && V(d[..i]) + carry * P(i) == V(a[..i]) + V(w[..i])
  }

  /** One iteration of the adding loop, seen on the words as sequences. */
  lemma AddWord(d: seq<int>, a: seq<int>, w: seq<int>, i: nat, carry: int)
    requires Adding(d, a, w, i, carry) && i < |d|
    ensures var s := U64(a[i] + w[i] + carry); Adding(d[i := s % RADIX], a, w, i + 1, s / RADIX)
  {
    CarryStep(V(d[..i]), carry, a[i], w[i], V(a[..i]) + V(w[..i]), P(i));
    var next := d[i := U64(a[i] + w[i] + carry) % RADIX];
    assert next[..i] == d[..i];
    ValTake(RADIX, a, i);
    ValTake(RADIX, w, i);
    ValTake(RADIX, next, i);
  }

  /** The words below i hold x plus the radix complement of y; the others are those of a. */
  ghost predicate Complementing(d: seq<int>, a: seq<int>, x: seq<int>, y: seq<int>, i: nat, carry: int) {
    && |d| == |a| == |x| == |y| && i <= |d| && 0 <= carry <= 1
    && Digits(RADIX, d) && Digits(RADIX, x) && Digits(RADIX, y)
    && (forall k :: i <= k < |d| ==> d[k] == a[k])
    && V(d[..i]) + carry * P(i) == V(x[..i]) - V(y[..i]) + P(i)
  }

  /** One iteration of the loop that adds the radix complement of y to x. */
  lemma ComplementWord(d: seq<int>, a: seq<int>, x: seq<int>, y: seq<int>, i: nat, carry: int)
    requires Complementing(d, a, x, y, i, carry) && i < |d|
    ensures U64(RADIX - 1 - y[i]) == RADIX - 1 - y[i]
    ensures var s := U64(x[i] + (RADIX - 1 - y[i]) + carry);
            Complementing(d[i := s % RADIX], a, x, y, i + 1, s / RADIX)
  {
    ComplementStep(V(d[..i]), carry, x[i], y[i], V(x[..i]), V(y[..i]), P(i));
    var next := d[i := U64(x[i] + (RADIX - 1 - y[i]) + carry) % RADIX];
    assert next[..i] == d[..i];
    ValTake(RADIX, x, i);
    ValTake(RADIX, y, i);
    ValTake(RADIX, next, i);
  }

  /** At the top word the carry of a complement addition is 1 and is dropped. */
  lemma ComplementDone(r: seq<int>, a: seq<int>, x: seq<int>, y: seq<int>, carry: int)
    requires Complementing(r, a, x, y, |r|, carry) && V(y) <= V(x)
    ensures V(r) == V(x) - V(y)
  {
    assert r[..|r|] == r && x[..|r|] == x && y[..|r|] == y;
    ValBound(RADIX, r);
    ValBound(RADIX, x);
    ValBound(RADIX, y);
  }

  // ---------------------------------------------------------------- columns

  /** The most words for which no 64-bit column accumulator can overflow. */
  const MAX_WORDS: nat := 1844

  const TOP: nat := RADIX - 1

  /** The normalised columns so far and the carry into the next one. */
  ghost predicate ColumnState(a: seq<int>, b: seq<int>, digits: seq<int>, carry: int) {
    && Digits(RADIX, digits)
    && V(digits) + carry * P(|digits|) == Cols(RADIX, a, b, |digits|)
    && 0 <= carry <= |a| * TOP
  }

  ghost predicate Normalised(a: seq<int>, b: seq<int>, digits: seq<int>, carry: int) {
    |a| <= MAX_WORDS ==> ColumnState(a, b, digits, carry)
  }

  lemma CarryBound(n: nat, sum: int, terms: int)
    requires 0 <= terms <= n && 0 <= sum <= n * TOP + terms * (TOP * TOP)
    ensures sum / RADIX <= n * TOP
  {
    MulMono(terms, n, TOP * TOP);
    assert n * TOP + n * (TOP * TOP) == RADIX * (n * TOP);
  }

  lemma ColumnStep(a: seq<int>, b: seq<int>, digits: seq<int>, carry: int, sum: int, terms: int)
    requires |a| == |b| && 0 <= terms <= |a|
    requires ColumnState(a, b, digits, carry)
    requires sum == carry + Column(a, b, |digits|) && carry <= sum <= carry + terms * (TOP * TOP)
    ensures ColumnState(a, b, digits + [sum % RADIX], sum / RADIX)
  {
    CarryBound(|a|, sum, terms);
    var next, p := digits + [sum % RADIX], P(|digits|);
    assert next[..|digits|] == digits;
    assert sum == RADIX * (sum / RADIX) + sum % RADIX;
    NormaliseColumn(V(digits), carry, Column(a, b, |digits|), sum / RADIX, sum % RADIX, p);
  }

  lemma NormaliseNext(a: seq<int>, b: seq<int>, digits: seq<int>, carry: int, sum: int, terms: int)
    requires |a| == |b| && 0 <= terms <= |a|
    requires Normalised(a, b, digits, carry)
    requires |a| <= MAX_WORDS && carry <= |a| * TOP ==>
               sum == carry + Column(a, b, |digits|) && carry <= sum <= carry + terms * (TOP * TOP)
    ensures Normalised(a, b, digits + [sum % RADIX], sum / RADIX)
  {
    if |a| <= MAX_WORDS {
      ColumnStep(a, b, digits, carry, sum, terms);
    }
  }

  lemma NormaliseColumn(low: int, carry: int, column: int, q: int, r: int, p: int)
    requires carry + column == RADIX * q + r
    ensures low + r * p + q * (RADIX * p) == low + carry * p + column * p
  {
    assert r * p + q * (RADIX * p) == (RADIX * q + r) * p;
  }

  lemma AccumulatorFits(n: nat, carry: int, terms: int)
    requires n <= MAX_WORDS && 0 <= terms <= n && carry <= n * TOP
    ensures carry + terms * (TOP * TOP) < TWO64
  {
    MulMono(terms, MAX_WORDS, TOP * TOP);
  }

  /** One more term of a column is added without wrapping. */
  lemma TermFits(a: seq<int>, b: seq<int>, column: nat, lo: nat, j: nat, carry: nat)
    requires Digits(RADIX, a) && Digits(RADIX, b) && |a| == |b| <= MAX_WORDS && carry <= |a| * TOP
    requires lo <= j < |a| && 0 <= column - j < |b|
    ensures U64(carry + Terms(a, b, column, lo, j) + U64(a[j] * b[column - j]))
            == carry + Terms(a, b, column, lo, j + 1)
  {
    var x, terms, next := a[j] * b[column - j], Terms(a, b, column, lo, j), Terms(a, b, column, lo, j + 1);
    assert next == terms + x;
    TermsBound(RADIX, a, b, column, lo, j);
    TermsBound(RADIX, a, b, column, lo, j + 1);
    MulMono(0, a[j], b[column - j]);
    AccumulatorFits(|a|, carry, j + 1 - lo);
    NoOverflow(carry, terms, x);
  }

  lemma NoOverflow(carry: nat, terms: int, x: int)
    requires terms >= 0 && x >= 0 && carry + terms + x < TWO64
    ensures U64(carry + terms + U64(x)) == carry + terms + x
  {
  }

  /** Dropping the first words of the normalised columns divides, and stopping there reduces. */
  lemma KeptColumns(a: seq<int>, b: seq<int>, digits: seq<int>, carry: int, f: nat)
    requires |a| == |b| && |digits| == |a| + f
    requires ColumnState(a, b, digits, carry)
    ensures V(digits[f..]) == (V(a) * V(b) / P(f)) % P(|a|)
  {
    var n, k := |a|, |a| + f;
    var kept, high := V(digits[f..]), carry + High(RADIX, a, b, k);
    ColumnsAreProduct(RADIX, a, b, k);
    ValSplit(RADIX, digits, f);
    ValBound(RADIX, digits[..f]);
    ValBound(RADIX, digits[f..]);
    PowAdd(RADIX, f, n);
    SplitProduct(V(digits[..f]), kept, carry, High(RADIX, a, b, k), P(f), P(n));
    DivUnique(V(a) * V(b), P(f), kept + high * P(n), V(digits[..f]));
    DivUnique(kept + high * P(n), P(n), high, kept);
  }

  lemma SplitProduct(low: int, kept: int, carry: int, high: int, p: int, q: int)
    ensures low + p * kept + carry * (p * q) + (p * q) * high
            == (kept + (carry + high) * q) * p + low
  {
    assert (carry + high) * q * p == carry * (p * q) + (p * q) * high;
    assert (kept + (carry + high) * q) * p == kept * p + (carry + high) * q * p;
  }

  lemma AddDone(r: seq<int>, a: seq<int>, w: seq<int>, carry: int)
    requires Adding(r, a, w, |r|, carry)
    ensures V(r) == Wrapped(V(a) + V(w), P(|r|))
  {
    assert r[..|r|] == r && a[..|r|] == a && w[..|r|] == w;
    ValBound(RADIX, r);
    ValBound(RADIX, a);
    ValBound(RADIX, w);
  }

  lemma WrapsIffTooBig(x: int, p: int)
    requires 0 <= x && 0 < p
    ensures x % p == x <==> x < p
  {
    if x < p {
      DivUnique(x, p, 0, x);
    }
  }

  // ---------------------------------------------------------------- the inverse

  ghost predicate InverseFits(whole: nat, fraction: nat, m: int) {
    var s := P(fraction);
    0 < m < P(whole + fraction) && (Newton.SEED + 1) * (s * s) < Newton.SEED * (m * P(whole + fraction))
  }

  /** If the inverse fits then there is a whole word, and two fits as well. */
  lemma RoomForTwo(whole: nat, fraction: nat, m: int)
    requires InverseFits(whole, fraction, m)
    ensures whole > 0 && 2 * P(fraction) < P(whole + fraction)
    ensures P(fraction) == 1 || P(fraction) >= 10 * Newton.SEED
  {
    var s := P(fraction);
    if whole == 0 {
      Newton.Scale(m, s, s);
      assert false;
    }
    PowAdd(RADIX, whole, fraction);
    assert P(whole) >= RADIX by { PowMono(RADIX, 1, whole); }
    MulMono(RADIX, P(whole), s);
    if fraction > 0 { PowMono(RADIX, 1, fraction); }
  }

  lemma InverseStepFits(whole: nat, fraction: nat, inv: int, m: int, digits: nat)
    requires InverseFits(whole, fraction, m) && digits >= 7
    requires Newton.Estimate(P(fraction), inv, m, digits)
    ensures 0 <= inv * m / P(fraction) < 2 * P(fraction) < P(whole + fraction)
    ensures var next := Newton.Refined(P(fraction), inv, m);
            next % P(whole + fraction) == next && Newton.Estimate(P(fraction), next, m, 2 * digits)
  {
    var s, p := P(fraction), P(whole + fraction);
    RoomForTwo(whole, fraction, m);
    Newton.StaysBelow(s, inv, m);
    Newton.StepDoubles(s, inv, m, digits);
    var next := Newton.Refined(s, inv, m);
    Newton.Cancel(m, next, p) by { assert next * m == m * next; }
    WrapsIffTooBig(next, p);
  }

  lemma InverseDone(whole: nat, fraction: nat, inv: int, m: int, digits: nat)
    requires InverseFits(whole, fraction, m)
    requires digits > (whole + fraction) * DIGITS_PER_WORD
    requires Newton.Estimate(P(fraction), inv, m, digits)
    ensures Newton.Abs(Newton.Residual(P(fraction), inv, m)) <= 6 * Newton.Max(m, P(fraction))
  {
    var n, s := whole + fraction, P(fraction);
    assert Pow(10, 8) == RADIX by { Newton.SeedPower(); assert Pow(10, 8) == 10 * Pow(10, 7); }
    PowPow(10, 8, n);
    PowMono(10, n * 8, digits);
    Newton.Nonnegative(s, s);
    Newton.Converged(s, inv, m, digits, P(n));
  }

  /**
   * 1844 is exact: up to that many words no column of any product overflows 64 bits, and
   * from 1845 words on the product of two numbers of all nines does.
   */
  lemma ColumnsFitExactly(n: nat)
    ensures (forall a: seq<int>, b: seq<int>, c: nat ::
               |a| == n && |b| == n && Digits(RADIX, a) && Digits(RADIX, b) && c < 2 * n
               ==> CarryInto(RADIX, a, b, c) + Column(a, b, c) < TWO64)
            <==> n <= MAX_WORDS
  {
    if n <= MAX_WORDS {
      forall a: seq<int>, b: seq<int>, c: nat
        | |a| == n && |b| == n && Digits(RADIX, a) && Digits(RADIX, b) && c < 2 * n
        ensures CarryInto(RADIX, a, b, c) + Column(a, b, c) < TWO64
      {
        CarryIntoBound(a, b, c);
        ColumnBound(a, b, c);
        AccumulatorFits(n, CarryInto(RADIX, a, b, c), n);
      }
    } else {
      var nines := seq(n, _ => TOP);
      CarryIntoBound(nines, nines, n - 1);
      NinesTerms(nines, n - 1, n);
      MulMono(MAX_WORDS + 1, n, TOP * TOP);
      assert CarryInto(RADIX, nines, nines, n - 1) + Column(nines, nines, n - 1) >= TWO64;
    }
  }

  lemma ColumnBound(a: seq<int>, b: seq<int>, c: nat)
    requires |a| == |b| && Digits(RADIX, a) && Digits(RADIX, b) && c < 2 * |a|
    ensures 0 <= Column(a, b, c) <= |a| * (TOP * TOP)
  {
    var n := |a|;
    if c < n {
      TermsBound(RADIX, a, b, c, 0, c + 1);
      MulMono(c + 1, n, TOP * TOP);
    } else {
      UpperColumn(a, b, c - n);
      TermsBound(RADIX, a, b, c, c - n + 1, n);
      MulMono(n - (c - n + 1), n, TOP * TOP);
    }
  }

  lemma {:induction false} CarryIntoBound(a: seq<int>, b: seq<int>, c: nat)
    requires |a| == |b| && Digits(RADIX, a) && Digits(RADIX, b) && c <= 2 * |a|
    ensures 0 <= CarryInto(RADIX, a, b, c) <= |a| * TOP
  {
    if c > 0 {
      CarryIntoBound(a, b, c - 1);
      ColumnBound(a, b, c - 1);
      CarryBound(|a|, CarryInto(RADIX, a, b, c - 1) + Column(a, b, c - 1), |a|);
    }
  }

  lemma {:induction false} NinesTerms(s: seq<int>, c: nat, hi: nat)
    requires hi <= c + 1 <= |s| && forall i :: 0 <= i < |s| ==> s[i] == TOP
    ensures Terms(s, s, c, 0, hi) == hi * (TOP * TOP)
    decreases hi
  {
    if hi > 0 {
      NinesTerms(s, c, hi - 1);
    }
  }

  // ---------------------------------------------------------------- conversions

  const TWO63: int := 0x8000_0000_0000_0000

  /** A value as a 64-bit two's complement variable holds it. */
  function I64(x: int): int {
    (x + TWO63) % TWO64 - TWO63
  }

  ghost function Multiple(x: int): int {
    (x + TWO63) / TWO64
  }

  /** The remainder of C++, which has the sign of the dividend. */
  function CRemainder(x: int, d: nat): int
    requires d > 0
  {
    if x < 0 then -(-x % d) else x % d
  }

  lemma PeelWord(words: seq<int>, x: int)
    ensures V(words) + P(|words|) * x == V(words + [x % RADIX]) + P(|words| + 1) * (x / RADIX)
  {
    var p, q, r := P(|words|), x / RADIX, x % RADIX;
    assert (words + [r])[..|words|] == words;
    assert p * (RADIX * q + r) == (RADIX * p) * q + r * p;
  }

  lemma WholeWords(value: int, zeros: seq<int>, words: seq<int>, rest: int)
    requires (forall i :: 0 <= i < |zeros| ==> zeros[i] == 0) && Digits(RADIX, words)
    requires value == V(words) + P(|words|) * rest
    ensures V(zeros + words) == value % P(|words|) * P(|zeros|)
  {
    ValConcat(RADIX, zeros, words);
    ValZeros(RADIX, zeros);
    ValBound(RADIX, words);
    var p := P(|words|);
    assert value == rest * p + V(words);
    DivUnique(value, p, rest, V(words));
    assert value % p == V(words);
  }

  /** Wrapped accumulation keeps the exact sum up to a multiple of 2^64. */
  lemma WrapStep(ret: int, k: int, factor: int, l: int, d: int, p: int) returns (k': int, l': int)
    requires factor + l * TWO64 == p
    ensures I64(ret + d * factor) + k' * TWO64 == ret + k * TWO64 + d * p
    ensures I64(factor * RADIX) + l' * TWO64 == RADIX * p
  {
    assert d * p == d * factor + d * l * TWO64;
    k' := k + d * l + Multiple(ret + d * factor);
    l' := l * RADIX + Multiple(factor * RADIX);
  }

  lemma NoWrap(ret: int, k: int, value: int)
    requires ret + k * TWO64 == value && -TWO63 <= ret < TWO63 && 0 <= value < TWO63
    ensures ret == value
  {
  }

  class DecimalFixedPoint {
    const whole: nat
    const fraction: nat
    const data: array<int>
    var negative: bool

    ghost predicate Valid()
      reads this, data
    {
      data.Length == whole + fraction && Digits(RADIX, data[..])
    }

    /** The magnitude, in units of the least significant word. */
    ghost function Mag(): int
      reads data
    {
      V(data[..])
    }

    ghost function Signed(): int
      reads this, data
    {
      if negative then -Mag() else Mag()
    }

    /** Two operands of the same type, which share storage only if they are one object. */
    ghost predicate Compatible(v: DecimalFixedPoint) {
      v.whole == whole && v.fraction == fraction && (v.data == data ==> v == this)
    }

    /** The number zero. */
    constructor (whole: nat, fraction: nat)
      ensures Valid() && this.whole == whole && this.fraction == fraction
      ensures fresh(data) && Signed() == 0 && !negative
    {
      this.whole, this.fraction := whole, fraction;
      data := new int[whole + fraction](_ => 0);
      negative := false;
      new;
      ValZeros(RADIX, data[..]);
    }

    constructor Copy(v: DecimalFixedPoint)
      requires v.Valid()
      ensures Valid() && whole == v.whole && fraction == v.fraction
      ensures fresh(data) && data[..] == v.data[..] && negative == v.negative
    {
      whole, fraction := v.whole, v.fraction;
      data := new int[v.data.Length](i requires 0 <= i < v.data.Length reads v.data => v.data[i]);
      negative := v.negative;
      new;
      assert data[..] == v.data[..];
    }

    method Negate()
      requires Valid()
      modifies this`negative
      ensures Valid() && Signed() == -old(Signed())
      ensures negative == !old(negative)
    {
      negative := !negative;
    }

    /** operator>=, which compares magnitudes whatever the signs are. */
    method GreaterOrEqual(v: DecimalFixedPoint) returns (r: bool)
      requires Valid() && v.Valid() && Compatible(v)
      ensures r <==> Mag() >= v.Mag()
    {
      ghost var a, w := data[..], v.data[..];
      var i := data.Length - 1;
      while i >= 0
        invariant -1 <= i < data.Length
        invariant forall k :: i < k < data.Length ==> a[k] == w[k]
      {
        if data[i] > v.data[i] {
          ValTopLess(RADIX, w, a, i);
          return true;
        }
        if data[i] < v.data[i] {
          ValTopLess(RADIX, a, w, i);
          return false;
        }
        i := i - 1;
      }
      assert a == w;
      return true;
    }

    /** The branch of operator+= for equal signs: a carry chain that wraps at the top word. */
    method AddMagnitude(v: DecimalFixedPoint)
      requires Valid() && v.Valid() && Compatible(v)
      modifies data
      ensures Valid() && Mag() == Wrapped(old(Mag()) + old(v.Mag()), P(data.Length))
    {
      ghost var a, w := data[..], v.data[..];
      var carry := 0;
      for i := 0 to data.Length
        invariant Adding(data[..], a, w, i, carry)
        invariant forall k :: i <= k < data.Length ==> v.data[k] == w[k]
      {
        AddWord(data[..], a, w, i, carry);
        ghost var before := data[..];
        var value := U64(data[i] + v.data[i] + carry);
        carry := value / RADIX;
        data[i] := value % RADIX;
        assert data[..] == before[i := value % RADIX];
      }
      AddDone(data[..], a, w, carry);
    }

    /** The branch of operator+= that adds the radix complement of the smaller operand v. */
    method SubtractMagnitude(v: DecimalFixedPoint)
      requires Valid() && v.Valid() && Compatible(v) && v != this
      requires Mag() >= v.Mag()
      modifies data
      ensures Valid() && Mag() == old(Mag()) - v.Mag()
    {
      ghost var a, w := data[..], v.data[..];
      var carry := 1;
      for i := 0 to data.Length
        invariant v.data[..] == w && Complementing(data[..], a, a, w, i, carry)
      {
        assert w[i] == v.data[i];
        ComplementWord(data[..], a, a, w, i, carry);
        ghost var before := data[..];
        var negate := U64(RADIX - 1 - v.data[i]);
        var value := U64(data[i] + negate + carry);
        carry := value / RADIX;
        data[i] := value % RADIX;
        assert data[..] == before[i := value % RADIX];
      }
      ComplementDone(data[..], a, a, w, carry);
    }

    /** The branch of operator+= for a larger v: this becomes v - this. */
    method SubtractFrom(v: DecimalFixedPoint)
      requires Valid() && v.Valid() && Compatible(v) && v != this
      requires Mag() < v.Mag()
      modifies data
      ensures Valid() && Mag() == v.Mag() - old(Mag())
    {
      ghost var a, w := data[..], v.data[..];
      var carry := 1;
      for i := 0 to data.Length
        invariant v.data[..] == w && Complementing(data[..], a, w, a, i, carry)
      {
        assert w[i] == v.data[i];
        ComplementWord(data[..], a, w, a, i, carry);
        ghost var before := data[..];
        var negate := U64(RADIX - 1 - data[i]);
        var value := U64(v.data[i] + negate + carry);
        carry := value / RADIX;
        data[i] := value % RADIX;
        assert data[..] == before[i := value % RADIX];
      }
      ComplementDone(data[..], a, w, a, carry);
    }

    /** operator+=: the exact signed sum precisely when that sum fits in the words. */
    method AddAssign(v: DecimalFixedPoint)
      requires Valid() && v.Valid() && Compatible(v)
      modifies this`negative, data
      ensures Valid()
      ensures Signed() == old(Signed() + v.Signed()) <==> Newton.Abs(old(Signed() + v.Signed())) < P(data.Length)
      ensures old(negative == v.negative) ==>
                negative == old(negative) && Mag() == Wrapped(old(Mag() + v.Mag()), P(data.Length))
      ensures old(negative != v.negative) ==> negative == old(if Mag() >= v.Mag() then negative else v.negative)
    {
      ghost var x, y := Mag(), v.Mag();
      ValBound(RADIX, data[..]);
      ValBound(RADIX, v.data[..]);
      if negative == v.negative {
        AddMagnitude(v);
      } else {
        var bigger := GreaterOrEqual(v);
        if bigger {
          SubtractMagnitude(v);
        } else {
          SubtractFrom(v);
          negative := v.negative;
        }
      }
    }

    /** operator-=: adds a negated copy, so an aliased operand is safe here. */
    method SubtractAssign(v: DecimalFixedPoint)
      requires Valid() && v.Valid() && Compatible(v)
      modifies this`negative, data
      ensures Valid()
      ensures Signed() == old(Signed() - v.Signed()) <==> Newton.Abs(old(Signed() - v.Signed())) < P(data.Length)
      ensures old(negative != v.negative) ==>
                negative == old(negative) && Mag() == Wrapped(old(Mag() + v.Mag()), P(data.Length))
      ensures old(negative == v.negative) ==> negative == old(if Mag() >= v.Mag() then negative else !negative)
    {
      var ret := new DecimalFixedPoint.Copy(v);
      ret.Negate();
      AddAssign(ret);
    }

    /** The inner loop of operator*=: adds the terms lo <= j < hi of a column to its carry. */
    method Accumulate(v: DecimalFixedPoint, column: nat, lo: nat, hi: nat, carry: nat) returns (sum: nat)
      requires Valid() && v.Valid() && Compatible(v)
      requires lo <= hi <= data.Length && hi <= column + 1
      requires lo < hi ==> column - lo < data.Length
      ensures data.Length <= MAX_WORDS && carry <= data.Length * TOP ==>
                && sum == carry + Terms(data[..], v.data[..], column, lo, hi)
                && carry <= sum <= carry + (hi - lo) * (TOP * TOP)
    {
      ghost var a, b := data[..], v.data[..];
      ghost var exact := data.Length <= MAX_WORDS && carry <= data.Length * TOP;
      sum := carry;
      for j := lo to hi
        invariant exact ==> sum == carry + Terms(a, b, column, lo, j)
      {
        if exact { TermFits(a, b, column, lo, j, carry); }
        sum := U64(sum + U64(data[j] * v.data[column - j]));
      }
      TermsBound(RADIX, a, b, column, lo, hi);
    }

    /**
     * One column of operator*=: its terms lo <= j < hi, of which one word is kept and the rest is
     * carried. The digits so far are those of the product unless the operand has been overwritten.
     */
    method NextColumn(v: DecimalFixedPoint, column: nat, lo: nat, hi: nat, ghost digits: seq<int>, carry: nat,
                      ghost exact: bool) returns (digit: nat, out: nat)
      requires Valid() && v.Valid() && Compatible(v)
      requires lo <= hi <= data.Length && hi <= column + 1 && (lo < hi ==> column - lo < data.Length)
      requires Column(data[..], v.data[..], column) == Terms(data[..], v.data[..], column, lo, hi)
      requires |digits| == column && (exact ==> Normalised(data[..], v.data[..], digits, carry))
      ensures digit < RADIX && (exact ==> Normalised(data[..], v.data[..], digits + [digit], out))
    {
      var sum := Accumulate(v, column, lo, hi, carry);
      if exact { NormaliseNext(data[..], v.data[..], digits, carry, sum, hi - lo); }
      digit, out := sum % RADIX, sum / RADIX;
    }

    /** First loop of operator*=: the columns below the last word, of which only the carry is kept. */
    method DroppedColumns(v: DecimalFixedPoint) returns (ghost digits: seq<int>, carry: nat)
      requires Valid() && v.Valid() && Compatible(v)
      ensures |digits| == fraction && Normalised(data[..], v.data[..], digits, carry)
    {
      digits, carry := [], 0;
      for i := 0 to fraction
        invariant |digits| == i && Normalised(data[..], v.data[..], digits, carry)
      {
        var digit;
        digit, carry := NextColumn(v, i, 0, i + 1, digits, carry, true);
        digits := digits + [digit];
      }
    }

    /** Second loop of operator*=: the columns stored from the bottom of the target. */
    method KeptLowColumns(me: DecimalFixedPoint, v: DecimalFixedPoint, ghost digits: seq<int>, carry: nat)
      returns (ghost more: seq<int>, out: nat)
      requires Valid() && me.Valid() && v.Valid() && Compatible(v) && Compatible(me) && me.Compatible(v) && me != this
      requires |digits| == fraction && Normalised(me.data[..], v.data[..], digits, carry)
      modifies data
      ensures |more| == whole + fraction && Valid()
      ensures v != this ==> Normalised(me.data[..], v.data[..], more, out) && data[..whole] == more[fraction..]
    {
      more, out := digits, carry;
      for i := fraction to whole + fraction
        invariant |more| == i && Valid() && v.Valid()
        invariant v != this ==>
                    Normalised(me.data[..], v.data[..], more, out) && data[..i - fraction] == more[fraction..]
      {
        var digit;
        digit, out := me.NextColumn(v, i, 0, i + 1, more, out, v != this);
        more := more + [digit];
        data[i - fraction] := digit;
      }
    }

    /** Third loop of operator*=: the columns past the top word of the operands. */
    method KeptHighColumns(me: DecimalFixedPoint, v: DecimalFixedPoint, ghost digits: seq<int>, carry: nat)
      returns (ghost more: seq<int>, out: nat)
      requires Valid() && me.Valid() && v.Valid() && Compatible(v) && Compatible(me) && me.Compatible(v) && me != this
      requires |digits| == whole + fraction
      requires v != this ==> Normalised(me.data[..], v.data[..], digits, carry) && data[..whole] == digits[fraction..]
      modifies data
      ensures |more| == whole + 2 * fraction && Valid()
      ensures v != this ==> Normalised(me.data[..], v.data[..], more, out) && data[..] == more[fraction..]
    {
      more, out := digits, carry;
      var n := whole + fraction;
      for i := 0 to fraction
        invariant |more| == n + i && Valid() && v.Valid()
        invariant v != this ==> Normalised(me.data[..], v.data[..], more, out) && data[..whole + i] == more[fraction..]
      {
        UpperColumn(me.data[..], v.data[..], i);
        var digit;
        digit, out := me.NextColumn(v, n + i, i + 1, n, more, out, v != this);
        more := more + [digit];
        data[i + whole] := digit;
      }
    }

    /**
     * operator*=: the product truncated to the last word and reduced to the available words, with
     * the sign the exclusive or of the signs. Only the target is copied first: a number multiplied
     * by itself reads words it has already overwritten, and is only known to stay valid.
     */
    method MultiplyAssign(v: DecimalFixedPoint)
      requires Valid() && v.Valid() && Compatible(v)
      modifies this`negative, data
      ensures Valid()
      ensures v != this && data.Length <= MAX_WORDS ==>
                Mag() == old(Mag()) * old(v.Mag()) / P(fraction) % P(data.Length)
      ensures negative == (old(negative) != old(v.negative))
    {
      var me := new DecimalFixedPoint.Copy(this);
      ghost var a, b := data[..], v.data[..];
      ghost var digits;
      var carry;
      digits, carry := me.DroppedColumns(v);
      digits, carry := KeptLowColumns(me, v, digits, carry);
      digits, carry := KeptHighColumns(me, v, digits, carry);
      if v != this && data.Length <= MAX_WORDS { KeptColumns(a, b, digits, carry, fraction); }
      negative := negative != v.negative;
    }

    /** The constant two(2.0) of inverse(), as from_double lays it out. */
    constructor Two(whole: nat, fraction: nat)
      requires whole + fraction > 0
      ensures Valid() && this.whole == whole && this.fraction == fraction
      ensures fresh(data) && !negative
      ensures whole > 0 ==> Mag() == 2 * P(fraction)
    {
      var units := if whole > 0 then fraction else fraction - 1;
      this.whole, this.fraction := whole, fraction;
      data := new int[whole + fraction](i => if i == units then 2 else 0);
      negative := false;
      new;
      if whole > 0 {
        ValSplit(RADIX, data[..], fraction + 1);
        ValTake(RADIX, data[..], fraction);
        ValZeros(RADIX, data[..fraction]);
        ValZeros(RADIX, data[fraction + 1..]);
        assert data[..][..fraction] == data[..fraction] && data[..][fraction + 1..] == data[fraction + 1..];
        assert data[..][..fraction + 1] == data[..fraction + 1];
      }
    }

    /** operator= from another number of the same type. */
    method Assign(v: DecimalFixedPoint)
      requires Valid() && v.Valid() && Compatible(v)
      modifies this`negative, data
      ensures Valid() && data[..] == old(v.data[..]) && negative == old(v.negative)
    {
      if v != this {
        negative := v.negative;
        for i := 0 to data.Length
          modifies data
          invariant forall k :: 0 <= k < i ==> data[k] == v.data[k]
          invariant forall k :: i <= k < data.Length ==> data[k] == old(data[k])
        {
          data[i] := v.data[i];
        }
        assert data[..] == v.data[..];
      }
    }

    /** No product of the Newton step wraps, and the estimate is below twice the inverse. */
    ghost predicate StepFits(me: DecimalFixedPoint, two: DecimalFixedPoint)
      reads this, data, me, me.data, two, two.data
    {
      && data.Length <= MAX_WORDS && !negative && !me.negative && !two.negative
      && two.Mag() == 2 * P(fraction) < P(data.Length)
      && 0 <= Mag() * me.Mag() / P(fraction) < 2 * P(fraction)
    }

    /** temp -= two; temp.negate(): this becomes two - this. */
    method NegatedDifference(two: DecimalFixedPoint)
      requires Valid() && two.Valid() && Compatible(two) && two != this
      modifies this`negative, data
      ensures Valid()
      ensures !old(negative) && !two.negative && old(Mag()) < two.Mag() ==>
                !negative && Mag() == two.Mag() - old(Mag())
      ensures old(negative) && !two.negative ==> !negative
    {
      ValBound(RADIX, data[..]);
      ValBound(RADIX, two.data[..]);
      SubtractAssign(two);
      ValBound(RADIX, data[..]);
      Negate();
    }

    /** The body of the loop of inverse(): this becomes this * (2 - this * me). */
    method NewtonStep(me: DecimalFixedPoint, two: DecimalFixedPoint)
      requires Valid() && me.Valid() && two.Valid()
      requires Compatible(me) && Compatible(two) && me != this && two != this
      modifies this`negative, data
      ensures Valid()
      ensures old(StepFits(me, two)) ==>
                !negative && Mag() == Newton.Refined(P(fraction), old(Mag()), me.Mag()) % P(data.Length)
      ensures me.negative && !old(negative) && !two.negative ==> !negative
    {
      var temp := new DecimalFixedPoint.Copy(this);
      temp.MultiplyAssign(me);
      assert old(StepFits(me, two)) ==> temp.Mag() == old(Mag()) * me.Mag() / P(fraction) by {
        if old(StepFits(me, two)) {
          WrapsIffTooBig(old(Mag()) * me.Mag() / P(fraction), P(data.Length));
        }
      }
      temp.NegatedDifference(two);
      MultiplyAssign(temp);
    }

    /**
     * inverse(), started from the estimate `seed` that the source takes from a double.
     *
     * For a positive operand whose inverse fits, the result is within six units, in the
     * last word or in the relative precision of the scale, of the exact inverse. For a
     * negative operand the estimate keeps a positive sign, so no seed makes it an inverse.
     */
    method Inverse(seed: DecimalFixedPoint)
      requires Valid() && seed.Valid() && Compatible(seed) && seed != this && whole + fraction > 0
      modifies this`negative, data
      ensures Valid()
      ensures var s, m := P(fraction), old(Mag());
              old(Invertible()) && !seed.negative && Newton.GoodSeed(s, seed.Mag(), m) ==>
                !negative && Newton.Abs(Newton.Residual(s, Mag(), m)) <= 6 * Newton.Max(m, s)
      ensures old(negative) && !seed.negative ==> !negative
    {
      var me := new DecimalFixedPoint.Copy(this);
      var inv: DecimalFixedPoint := new DecimalFixedPoint.Copy(seed);
      var two := new DecimalFixedPoint.Two(whole, fraction);
      ghost var s, m, p := P(fraction), Mag(), P(data.Length);
      ghost var good := Invertible() && !seed.negative && Newton.GoodSeed(s, seed.Mag(), m);
      if good { Newton.SeedIsEstimate(s, inv.Mag(), m); }
      var i := 7;
      while i <= (whole + fraction) * DIGITS_PER_WORD
        invariant i >= 7 && fresh(inv) && fresh(inv.data) && inv.Valid() && Compatible(inv)
        invariant me.Valid() && two.Valid() && me.Mag() == m
        modifies inv`negative, inv.data
        invariant good ==> !inv.negative && Newton.Estimate(s, inv.Mag(), m, i)
        invariant me.negative && !seed.negative ==> !inv.negative
      {
        ghost var before := inv.Mag();
        if good { InverseStepFits(whole, fraction, before, m, i); }
        inv.NewtonStep(me, two);
        i := i * 2;
      }
      Assign(inv);
      if good { InverseDone(whole, fraction, Mag(), m, i); }
    }

    /** A positive number whose inverse fits in the words, with a margin of the seed's error. */
    ghost predicate Invertible()
      reads this, data
    {
      && !negative && whole + fraction <= MAX_WORDS
      && InverseFits(whole, fraction, Mag())
    }

    /** operator/=: multiplication by the computed inverse of v. */
    method DivideAssign(v: DecimalFixedPoint, seed: DecimalFixedPoint)
      requires Valid() && v.Valid() && seed.Valid() && Compatible(v) && v.Compatible(seed) && whole + fraction > 0
      modifies this`negative, data
      ensures Valid()
      ensures var s, m, a := P(fraction), old(v.Mag()), old(Mag());
              old(v.Invertible() && !seed.negative && Newton.GoodSeed(s, seed.Mag(), m))
              && Newton.QuotientFits(s, a, m, P(data.Length)) ==>
                && negative == old(negative)
                && Newton.Abs(Mag() * m - a * s) * s <= 6 * a * Newton.Max(m, s) + m * s
    {
      var inv := new DecimalFixedPoint.Copy(v);
      ghost var s, m, a, p := P(fraction), v.Mag(), Mag(), P(data.Length);
      var start := new DecimalFixedPoint.Copy(seed);
      inv.Inverse(start);
      ValBound(RADIX, data[..]);
      ValBound(RADIX, inv.data[..]);
      ghost var i := inv.Mag();
      MultiplyAssign(inv);
      if 0 < m && Newton.Abs(Newton.Residual(s, i, m)) <= 6 * Newton.Max(m, s) && Newton.QuotientFits(s, a, m, p) {
        Newton.QuotientError(s, a, m, i, p);
        WrapsIffTooBig(a * i / s, p);
      }
    }

    /** from_uint64: the integer, reduced to the whole words. */
    method FromUint64(value: nat)
      requires Valid()
      modifies this`negative, data
      ensures Valid() && !negative && Mag() == value % P(whole) * P(fraction)
    {
      negative := false;
      for i := 0 to whole + fraction
        invariant !negative && forall k :: 0 <= k < i ==> data[k] == 0
      {
        data[i] := 0;
      }
      ghost var words: seq<int> := [];
      var init := value;
      for i := fraction to whole + fraction
        invariant !negative && init >= 0 && |words| == i - fraction && Digits(RADIX, words)
        invariant forall k :: 0 <= k < data.Length ==> data[k] == if fraction <= k < i then words[k - fraction] else 0
        invariant value == V(words) + P(|words|) * init
      {
        PeelWord(words, init);
        words := words + [init % RADIX];
        data[i] := init % RADIX;
        init := init / RADIX;
      }
      ghost var zeros := seq(fraction, _ => 0);
      assert data[..] == zeros + words;
      WholeWords(value, zeros, words, init);
    }

    /** The loop of toLong: the whole words, modulo 2^64. */
    method WholePart() returns (ret: int)
      requires Valid() && fraction > 0
      ensures -TWO63 <= ret < TWO63
      ensures V(data[..][fraction..]) < TWO63 ==> ret == V(data[..][fraction..])
    {
      ghost var d := data[..][fraction..];
      var factor := 1;
      ret := 0;
      ghost var k, l := 0, 0; // multiples of 2^64 dropped from ret and from factor
      for i := 0 to whole
        invariant ret + k * TWO64 == V(d[..i]) && -TWO63 <= ret < TWO63
        invariant factor + l * TWO64 == P(i)
      {
        assert d[i] == data[fraction + i];
        ValTake(RADIX, d, i);
        k, l := WrapStep(ret, k, factor, l, d[i], P(i));
        ret := I64(ret + data[fraction + i] * factor);
        factor := I64(factor * RADIX);
      }
      assert d[..whole] == d;
      ValBound(RADIX, d);
      if V(d) < TWO63 { NoWrap(ret, k, V(d)); }
    }

    /** Whether toLong rounds its whole part away from zero. */
    method RoundsUp(ret: int) returns (round: bool)
      requires Valid() && fraction > 0
      ensures 0 <= ret == V(data[..][fraction..]) ==>
                NearestEven(Mag(), P(fraction)) == ret + (if round then 1 else 0)
    {
      ghost var d := data[..];
      CutDigits(RADIX, d, fraction);
      HalfDigit(RADIX, d, fraction);
      round := false;
      if data[fraction - 1] > RADIX / 2 {
        round := true;
      } else if data[fraction - 1] == RADIX / 2 {
        var i := fraction - 2;
        while i >= 0 && !round
          invariant -1 <= i <= fraction - 2
          invariant round <==> exists j :: i < j < fraction - 1 && d[j] != 0
        {
          if data[i] != 0 { round := true; }
          i := i - 1;
        }
        if !round && CRemainder(ret, 2) == 1 { round := true; }
      }
    }

    /**
     * toLong: the nearest integer, ties to even, whenever that integer fits in 63 bits,
     * although the running sum and the weights may wrap on the way.
     */
    method ToLong() returns (r: int)
      requires Valid() && fraction > 0
      ensures NearestEven(Mag(), P(fraction)) < TWO63 ==>
                r == if negative then -NearestEven(Mag(), P(fraction)) else NearestEven(Mag(), P(fraction))
    {
      CutDigits(RADIX, data[..], fraction);
      ValBound(RADIX, data[..][fraction..]);
      r := WholePart();
      var round := RoundsUp(r);
      if round { r := I64(r + 1); }
      if negative { r := I64(-r); }
    }
  }
}
