/**
 * What the digits of a numeral become when they are deposited in the words
 * (decimal_fixedpoint.h, the loops at the end of from_string): where they belong if the last
 * digit is at or above the last place of the number, and rotated within their words if it is
 * up to seven places below.
 */
module DecimalDeposit {
  import opened Decimal
  import opened Numerals
  import opened Positional

  /** The quotient of C++, which truncates toward zero. */
  function CQuotient(x: int, d: nat): int
    requires d > 0
  {
    if x < 0 then -(-x / d) else x / d
  }

  function U32(x: int): nat {
    x % 0x1_0000_0000
  }

  /** The weight inside its word of the t-th digit from the right. */
  function Weight(start: int, t: nat): nat {
    Pow(10, ((if start < 0 then 0 else start % DIGITS_PER_WORD) + t) % DIGITS_PER_WORD)
  }

  /** The word of the t-th digit from the right. */
  function WordOf(start: int, t: nat): int {
    CQuotient(start + t, DIGITS_PER_WORD)
  }

  /** Every digit lands in an existing word. */
  predicate LandsInside(digits: string, start: int, n: nat) {
    forall t: nat :: t < |digits| ==> 0 <= WordOf(start, t) < n
  }

  /** The words after the digits are deposited from the right, at position `start` upwards. */
  function Deposit(digits: string, start: int, n: nat): (words: seq<int>)
    requires LandsInside(digits, start, n)
    ensures |words| == n
  {
    if |digits| == 0 then seq(n, _ => 0)
    else
      var words, t := Deposit(digits[1..], start, n), |digits| - 1;
      var w := WordOf(start, t);
      words[w := U32(words[w] + U32(CharDigit(digits[0]) * Weight(start, t)))]
  }

  // ------------------------------------------------ what is deposited

  lemma WordPower()
    ensures Pow(10, 8) == RADIX
  {
    Newton.SeedPower();
    assert Pow(10, 8) == 10 * Pow(10, 7);
  }

  /** A digit position is a place r in a word w. */
  lemma PositionSplit(w: nat, r: nat)
    ensures Pow(10, 8 * w + r) == Pow(10, r) * P(w)
  {
    WordPower();
    PowPow(10, 8, w);
    PowAdd(10, r, 8 * w);
  }

  /** A value below c units of word w has a word w below c. */
  lemma WordBelow(words: seq<int>, w: nat, c: int)
    requires w < |words| && Digits(RADIX, words) && V(words) < c * P(w)
    ensures words[w] < c
  {
    ValSplit(RADIX, words, w + 1);
    ValTake(RADIX, words, w);
    ValBound(RADIX, words[..w]);
    ValBound(RADIX, words[w + 1..]);
    Newton.Nonnegative(P(w + 1), V(words[w + 1..]));
    if words[w] >= c { MulMono(c, words[w], P(w)); }
  }

  lemma AddToWord(words: seq<int>, w: nat, x: int)
    requires w < |words|
    ensures V(words[w := words[w] + x]) == V(words) + x * P(w)
  {
    var next := words[w := words[w] + x];
    assert V(next[..w + 1]) == V(words[..w + 1]) + x * P(w) by {
      ValTake(RADIX, words, w);
      ValTake(RADIX, next, w);
      assert next[..w] == words[..w];
      assert (words[w] + x) * P(w) == words[w] * P(w) + x * P(w);
    }
    assert next[w + 1..] == words[w + 1..];
    ValSplit(RADIX, words, w + 1);
    ValSplit(RADIX, next, w + 1);
  }

  /** The words hold the number of the digits, shifted to the starting position. */
  ghost predicate Holds(words: seq<int>, digits: string, start: nat) {
    Digits(RADIX, words) && V(words) == Number(digits) * Pow(10, start)
  }

  /**
   * What from_string reads when the last digit is at or above the last place and the first
   * digit is inside the words: exactly the number the digits denote at that position.
   */
  lemma {:induction false} DepositValue(digits: string, start: nat, n: nat)
    requires AllDigits(digits) && start + |digits| <= DIGITS_PER_WORD * n
    ensures LandsInside(digits, start, n) && Holds(Deposit(digits, start, n), digits, start)
  {
    if |digits| == 0 {
      ValZeros(RADIX, Deposit(digits, start, n));
    } else {
      var rest := digits[1..];
      assert AllDigits(rest) by { assert forall i :: 0 <= i < |rest| ==> rest[i] == digits[i + 1]; }
      DepositValue(rest, start, n);
      DepositOne(digits, start, n);
    }
  }

  lemma DepositOne(digits: string, start: nat, n: nat)
    requires |digits| > 0 && AllDigits(digits) && start + |digits| <= DIGITS_PER_WORD * n
    requires var rest := digits[1..];
             LandsInside(rest, start, n) && Holds(Deposit(rest, start, n), rest, start)
    ensures LandsInside(digits, start, n) && Holds(Deposit(digits, start, n), digits, start)
  {
    var rest, d := digits[1..], CharDigit(digits[0]);
    var words := Deposit(rest, start, n);
    InsideWords(digits, start, n);
    var w, r := Place(start, |rest|);
    assert w < n;
    var x := d * Pow(10, r);
    assert 0 <= x && words[w] + x < RADIX && Holds(words[w := words[w] + x], digits, start) by {
      DepositDigit(words, start, rest, d, w, r);
      LeadingDigit(digits);
    }
    assert Deposit(digits, start, n) == words[w := words[w] + x] by {
      DepositNext(digits, rest, start, n, words, w, Pow(10, r), x);
    }
  }

  lemma DepositUnfolds(digits: string, start: int, n: nat, words: seq<int>, w: int, x: int)
    requires |digits| > 0 && LandsInside(digits, start, n) && LandsInside(digits[1..], start, n)
    requires words == Deposit(digits[1..], start, n) && w == WordOf(start, |digits| - 1)
    requires x == CharDigit(digits[0]) * Weight(start, |digits| - 1)
    requires 0 <= w < n && 0 <= words[w] && 0 <= x && words[w] + x < 2 * RADIX
    ensures Deposit(digits, start, n) == words[w := words[w] + x]
  {
    SmallSums(words[w], x);
  }

  /** The digits below the first are `rest`, and the weight of the first is p. */
  lemma DepositNext(digits: string, rest: string, start: int, n: nat, words: seq<int>, w: int, p: int, x: int)
    requires |digits| > 0 && digits[1..] == rest && LandsInside(digits, start, n) && LandsInside(rest, start, n)
    requires words == Deposit(rest, start, n) && w == WordOf(start, |rest|) && p == Weight(start, |rest|)
    requires x == CharDigit(digits[0]) * p
    requires 0 <= w < n && 0 <= words[w] && 0 <= x && words[w] + x < 2 * RADIX
    ensures Deposit(digits, start, n) == words[w := words[w] + x]
  {
    assert |rest| == |digits| - 1 && p == Weight(start, |digits| - 1);
    DepositUnfolds(digits, start, n, words, w, x);
  }

  lemma InsideWords(digits: string, start: nat, n: nat)
    requires start + |digits| <= DIGITS_PER_WORD * n
    ensures LandsInside(digits, start, n)
  {
  }

  lemma Place(start: nat, t: nat) returns (w: nat, r: nat)
    ensures start + t == 8 * w + r && r < 8
    ensures WordOf(start, t) == w && Weight(start, t) == Pow(10, r)
  {
    w, r := (start + t) / 8, (start + t) % 8;
  }

  lemma SmallSums(x: int, y: int)
    requires 0 <= x && 0 <= y && x + y < 2 * RADIX
    ensures U32(x + U32(y)) == x + y
  {
  }

  lemma LeadingDigit(digits: string)
    requires |digits| > 0
    ensures Number(digits) == CharDigit(digits[0]) * Pow(10, |digits| - 1) + Number(digits[1..])
  {
    assert digits == [digits[0]] + digits[1..];
    NumberConcat([digits[0]], digits[1..]);
    assert Number([digits[0]]) == CharDigit(digits[0]) by { assert [digits[0]][..0] == ""; }
  }

  /** One digit stored above a number that ends just below its position. */
  lemma DepositDigit(words: seq<int>, start: nat, rest: string, d: int, w: nat, r: nat)
    requires AllDigits(rest) && 0 <= d < 10
    requires start + |rest| == 8 * w + r && r < 8 && w < |words|
    requires Digits(RADIX, words) && V(words) == Number(rest) * Pow(10, start)
    ensures var x := d * Pow(10, r);
            && 0 <= x && words[w] + x < RADIX
            && V(words[w := words[w] + x]) == (d * Pow(10, |rest|) + Number(rest)) * Pow(10, start)
  {
    var p := Pow(10, r);
    PowAdd(10, |rest|, start);
    PositionSplit(w, r);
    assert V(words) < p * P(w) by {
      NumberBound(rest);
      Newton.Scale(Number(rest), Pow(10, |rest|), Pow(10, start));
    }
    WordBelow(words, w, p);
    DigitFits(r, d);
    AddToWord(words, w, d * p);
    Expand(d, Pow(10, |rest|), Number(rest), Pow(10, start), p, P(w));
  }

  lemma DigitFits(r: nat, d: int)
    requires r < 8 && 0 <= d < 10
    ensures 0 <= d * Pow(10, r) && Pow(10, r) + d * Pow(10, r) <= RADIX
  {
    WordPower();
    PowMono(10, r + 1, 8);
    MulMono(d, 9, Pow(10, r));
    MulMono(0, d, Pow(10, r));
  }

  lemma Expand(d: int, p: int, x: int, q: int, a: int, b: int)
    requires p * q == a * b
    ensures (d * p + x) * q == x * q + (d * a) * b
  {
    assert (d * p + x) * q == d * (p * q) + x * q;
    assert (d * a) * b == d * (a * b);
  }

  // ------------------------------------------------ which digits have a word

  /** Every digit has a word exactly if the last is less than a word below the last place, and the first is inside. */
  lemma LandsInsideIff(digits: string, start: int, n: nat)
    requires n > 0
    ensures LandsInside(digits, start, n) <==>
              digits == "" || (0 < start + DIGITS_PER_WORD && start + |digits| <= DIGITS_PER_WORD * n)
  {
    if digits != "" {
      assert WordOf(start, 0) == CQuotient(start, 8);
      assert WordOf(start, |digits| - 1) == CQuotient(start + |digits| - 1, 8);
    }
  }

  // ------------------------------------------------ digits below the last place

  /** The eight digits of a word, rotated up by g places. */
  function Rotate(g: nat, x: nat): int
    requires g < DIGITS_PER_WORD
  {
    x % Pow(10, 8 - g) * Pow(10, g) + x / Pow(10, 8 - g)
  }

  /** The digits down to the last place, if the last digit is g places below. */
  function HighDigits(digits: string, g: nat): string {
    digits[..if g < |digits| then |digits| - g else 0]
  }

  /** The digits below the last place. */
  function LowDigits(digits: string, g: nat): string {
    digits[if g < |digits| then |digits| - g else 0..]
  }

  /** Each word is rotated, and the dropped digits are added to the lowest. */
  ghost predicate Misplaced(words: seq<int>, right: seq<int>, g: nat, dropped: int) {
    && g < DIGITS_PER_WORD && |words| == |right| && Digits(RADIX, right)
    && forall j :: 0 <= j < |words| ==> words[j] == Rotate(g, right[j]) + if j == 0 then dropped else 0
  }

  /** The digits are misplaced against their high part. */
  ghost predicate MisplacedDeposit(digits: string, start: int, high: string, low: string, g: nat, n: nat)
    requires LandsInside(digits, start, n) && LandsInside(high, 0, n)
  {
    Misplaced(Deposit(digits, start, n), Deposit(high, 0, n), g, Number(low))
  }

  lemma HoldsAtZero(words: seq<int>, digits: string)
    requires Holds(words, digits, 0)
    ensures Digits(RADIX, words) && V(words) == Number(digits)
  {
    assert V(words) == Number(digits) * 1;
  }

  /** Word w of a number below 10^(8w + r) is below 10^r. */
  lemma TopWordBelow(words: seq<int>, digits: string, w: nat, r: nat)
    requires AllDigits(digits) && Holds(words, digits, 0) && |digits| == 8 * w + r && w < |words|
    ensures 0 <= words[w] < Pow(10, r)
  {
    NumberBound(digits);
    PositionSplit(w, r);
    HoldsAtZero(words, digits);
    WordBelow(words, w, Pow(10, r));
  }

  lemma RotateBound(g: nat, x: nat)
    requires g < DIGITS_PER_WORD && x < RADIX
    ensures 0 <= Rotate(g, x) < RADIX
  {
    var m, p := Pow(10, 8 - g), Pow(10, g);
    PowAdd(10, 8 - g, g);
    WordPower();
    assert x / m < p by { QuotientBelow(x, m, p); }
    MulMono(0, x % m, p);
    MulMono(x % m + 1, m, p);
    assert (x % m + 1) * p == x % m * p + p;
  }

  lemma QuotientBelow(x: nat, m: nat, p: nat)
    requires m > 0 && x < m * p
    ensures x / m < p
  {
    if x / m >= p { MulMono(p, x / m, m); }
  }

  /** A digit put on top of x is rotated with it, to place e. */
  lemma RotateAdd(g: nat, r: nat, e: nat, x: nat, d: nat)
    requires 0 < g < 8 && r < 8 && x < Pow(10, r) && d < 10 && e == if r + g < 8 then r + g else r + g - 8
    ensures 0 <= x + d * Pow(10, r) < RADIX
    ensures Rotate(g, x + d * Pow(10, r)) == Rotate(g, x) + d * Pow(10, e)
  {
    DigitFits(r, d);
    if r + g < 8 {
      RotateLow(g, r, x, d);
    } else {
      RotateWrapped(g, r, e, x, d);
    }
  }

  lemma RotateWrapped(g: nat, r: nat, e: nat, x: nat, d: nat)
    requires 0 < g < 8 && r == e + (8 - g)
    ensures x + d * Pow(10, r) >= 0 && Rotate(g, x + d * Pow(10, r)) == Rotate(g, x) + d * Pow(10, e)
  {
    PowAdd(10, e, 8 - g);
    Spread(0, d, Pow(10, e), Pow(10, 8 - g));
    MulMono(0, d, Pow(10, e));
    RotateHigh(g, x, d * Pow(10, e));
  }

  lemma RotateLow(g: nat, r: nat, x: nat, d: nat)
    requires 0 < g && r + g < 8 && x < Pow(10, r) && d < 10
    ensures Rotate(g, x + d * Pow(10, r)) == Rotate(g, x) + d * Pow(10, r + g)
  {
    var m, p, q := Pow(10, 8 - g), Pow(10, g), Pow(10, r);
    assert x + d * q < m by {
      PowMono(10, r + 1, 8 - g);
      MulMono(d, 9, q);
    }
    MulMono(0, d, q);
    DivUnique(x + d * q, m, 0, x + d * q);
    DivUnique(x, m, 0, x);
    PowAdd(10, r, g);
    Spread(x, d, q, p);
  }

  lemma Spread(x: int, d: int, q: int, p: int)
    ensures (x + d * q) * p == x * p + d * (q * p)
  {
    assert d * q * p == d * (q * p);
  }

  lemma RotateHigh(g: nat, x: nat, k: nat)
    requires 0 < g < 8
    ensures x + k * Pow(10, 8 - g) >= 0 && Rotate(g, x + k * Pow(10, 8 - g)) == Rotate(g, x) + k
  {
    var m := Pow(10, 8 - g);
    AddMultiple(x, k, m, x / m, x % m);
  }

  lemma AddMultiple(x: nat, k: nat, m: nat, q: nat, r: nat)
    requires m > 0 && x == m * q + r && r < m
    ensures x + k * m >= 0 && (x + k * m) / m == q + k && (x + k * m) % m == r
  {
    MulMono(0, k, m);
    assert (q + k) * m == q * m + k * m;
    DivUnique(x + k * m, m, q + k, r);
  }

  /**
   * What from_string reads when the last digit is g places below the last place: not the
   * number cut off at the last place, but each word of it rotated by g places, and the
   * dropped digits added to the lowest word.
   */
  lemma {:induction false} DepositBelow(digits: string, start: int, g: nat, n: nat)
    requires start + g == 0 && AllDigits(digits) && 0 < g < DIGITS_PER_WORD && n > 0
             && |digits| <= DIGITS_PER_WORD * n + g
    ensures LandsInside(digits, start, n) && LandsInside(HighDigits(digits, g), 0, n)
    ensures AllDigits(HighDigits(digits, g)) && AllDigits(LowDigits(digits, g))
    ensures MisplacedDeposit(digits, start, HighDigits(digits, g), LowDigits(digits, g), g, n)
  {
    LandsInsideIff(digits, start, n);
    DepositValue(HighDigits(digits, g), 0, n);
    if |digits| > 0 {
      var rest := digits[1..];
      assert AllDigits(rest) by { assert forall i :: 0 <= i < |rest| ==> rest[i] == digits[i + 1]; }
      DepositBelow(rest, start, g, n);
      if |rest| < g {
        assert HighDigits(digits, g) == "" && LowDigits(digits, g) == digits && LowDigits(rest, g) == rest;
        DroppedDigit(digits, start, g, n, rest);
      } else {
        PartsOfRest(digits, g);
        InsideWords(HighDigits(digits, g), 0, n);
        RotatedDigit(digits, start, g, n, rest, HighDigits(rest, g), LowDigits(rest, g));
      }
    } else {
      assert Rotate(g, 0) == 0;
    }
  }

  /** The next digit is below the last place: it is added to the lowest word. */
  lemma DroppedDigit(digits: string, start: int, g: nat, n: nat, rest: string)
    requires start + g == 0 && |digits| > 0 && digits[1..] == rest && IsDigit(digits[0]) && AllDigits(rest)
    requires |rest| < g < DIGITS_PER_WORD && n > 0
    requires LandsInside(digits, start, n) && LandsInside(rest, start, n) && LandsInside("", 0, n)
    requires MisplacedDeposit(rest, start, "", rest, g, n)
    ensures MisplacedDeposit(digits, start, "", digits, g, n)
  {
    var d, words, right, p := CharDigit(digits[0]), Deposit(rest, start, n), Deposit("", 0, n), Pow(10, |rest|);
    LowestIsDropped(words, right, g, Number(rest));
    LeadingDigit(digits);
    LowWeight(start, |rest|);
    LowDigitFits(rest, d, p);
    DepositNext(digits, rest, start, n, words, 0, p, d * p);
    MoreDropped(words, right, g, Number(rest), d * p);
  }

  lemma LowestIsDropped(words: seq<int>, right: seq<int>, g: nat, dropped: int)
    requires Misplaced(words, right, g, dropped) && |words| > 0 && right[0] == 0
    ensures words[0] == dropped
  {
    assert Rotate(g, 0) == 0;
  }

  lemma LowWeight(start: int, t: nat)
    requires -8 < start < 0 && t < -start && t < 8
    ensures WordOf(start, t) == 0 && Weight(start, t) == Pow(10, t)
  {
  }

  lemma LowDigitFits(rest: string, d: int, p: int)
    requires AllDigits(rest) && |rest| < 8 && 0 <= d < 10 && p == Pow(10, |rest|)
    ensures 0 <= Number(rest) && 0 <= d * p && Number(rest) + d * p < 2 * RADIX
  {
    NumberBound(rest);
    DigitFits(|rest|, d);
  }

  lemma MoreDropped(words: seq<int>, right: seq<int>, g: nat, dropped: int, x: int)
    requires Misplaced(words, right, g, dropped) && |words| > 0
    ensures Misplaced(words[0 := words[0] + x], right, g, x + dropped)
  {
  }

  lemma PartsOfRest(digits: string, g: nat)
    requires 0 < g < |digits|
    ensures LowDigits(digits, g) == LowDigits(digits[1..], g) && |LowDigits(digits, g)| == g
    ensures HighDigits(digits, g) == [digits[0]] + HighDigits(digits[1..], g)
    ensures |digits| == g + 1 + |HighDigits(digits[1..], g)|
  {
  }

  /** The next digit belongs in a word: it goes there, but in a rotated place. */
  lemma RotatedDigit(digits: string, start: int, g: nat, n: nat, rest: string, high: string, low: string)
    requires start + g == 0 && 0 < g < DIGITS_PER_WORD && |digits| > 0 && digits[1..] == rest && IsDigit(digits[0])
    requires AllDigits(high) && AllDigits(low) && |low| == g && |rest| == g + |high| < DIGITS_PER_WORD * n + g
    requires LandsInside(digits, start, n) && LandsInside(rest, start, n) && LandsInside(high, 0, n)
    requires LandsInside([digits[0]] + high, 0, n)
    requires MisplacedDeposit(rest, start, high, low, g, n)
    ensures MisplacedDeposit(digits, start, [digits[0]] + high, low, g, n)
  {
    var d, words, right := CharDigit(digits[0]), Deposit(rest, start, n), Deposit(high, 0, n);
    DepositValue(high, 0, n);
    var w, r := Place(0, |high|);
    var e := if r + g < 8 then r + g else r + g - 8;
    TopWordBelow(right, high, w, r);
    PlaceBelow(start, g, |rest|, w, r, e);
    var x, y, added := d * Pow(10, e), d * Pow(10, r), [digits[0]] + high;
    MisplacedStep(words, right, g, low, w, r, e, d, x, y);
    DepositNext(added, high, 0, n, right, w, Pow(10, r), y);
    DepositNext(digits, rest, start, n, words, w, Pow(10, e), x);
    MisplacedSo(digits, start, added, low, g, n, words[w := words[w] + x], right[w := right[w] + y]);
  }

  lemma MisplacedSo(digits: string, start: int, high: string, low: string, g: nat, n: nat, words: seq<int>,
                    right: seq<int>)
    requires LandsInside(digits, start, n) && LandsInside(high, 0, n) && Misplaced(words, right, g, Number(low))
    requires Deposit(digits, start, n) == words && Deposit(high, 0, n) == right
    ensures MisplacedDeposit(digits, start, high, low, g, n)
  {
  }

  /** A digit that goes on top of a word goes to the rotated place of the misplaced word. */
  lemma MisplacedStep(words: seq<int>, right: seq<int>, g: nat, low: string, w: nat, r: nat, e: nat, d: nat,
                      x: int, y: int)
    requires Misplaced(words, right, g, Number(low)) && AllDigits(low) && |low| <= g && 0 < g && d < 10
    requires w < |right| && right[w] < Pow(10, r) && r < 8 && e == if r + g < 8 then r + g else r + g - 8
    requires x == d * Pow(10, e) && y == d * Pow(10, r)
    ensures 0 <= words[w] && 0 <= x && words[w] + x < 2 * RADIX && 0 <= y && right[w] + y < RADIX
    ensures Misplaced(words[w := words[w] + x], right[w := right[w] + y], g, Number(low))
  {
    var was := right[w];
    RotateAdd(g, r, e, was, d);
    assert 0 <= was + y < RADIX && Rotate(g, was + y) == Rotate(g, was) + x;
    MulMono(0, d, Pow(10, e));
    MulMono(0, d, Pow(10, r));
    LowFits(words, right, g, low, w, Rotate(g, was + y), was + y);
    WordMisplaced(words, right, g, Number(low), w, x, y);
  }

  lemma LowFits(words: seq<int>, right: seq<int>, g: nat, low: string, w: nat, rotated: int, x: nat)
    requires Misplaced(words, right, g, Number(low)) && AllDigits(low) && |low| <= g && w < |words|
    requires x < RADIX && rotated == Rotate(g, x)
    ensures 0 <= words[w] <= Rotate(g, right[w]) + Number(low) && 0 <= rotated && rotated + Number(low) < 2 * RADIX
  {
    NumberBound(low);
    SumFits(g, |low|, rotated, x);
    RotateBound(g, right[w]);
  }

  lemma WordMisplaced(words: seq<int>, right: seq<int>, g: nat, dropped: int, w: nat, x: int, y: int)
    requires Misplaced(words, right, g, dropped) && w < |words| && 0 <= right[w] + y < RADIX
    requires Rotate(g, right[w] + y) == Rotate(g, right[w]) + x
    ensures Misplaced(words[w := words[w] + x], right[w := right[w] + y], g, dropped)
  {
  }

  lemma PlaceBelow(start: int, g: nat, t: nat, w: nat, r: nat, e: nat)
    requires start + g == 0 && 0 < g < 8 && t == g + 8 * w + r && r < 8
    requires e == if r + g < 8 then r + g else r + g - 8
    ensures WordOf(start, t) == w && Weight(start, t) == Pow(10, e)
  {
  }

  lemma SumFits(g: nat, low: nat, rotated: int, x: nat)
    requires low <= g < 8 && x < RADIX && rotated == Rotate(g, x)
    ensures 0 <= rotated && rotated + Pow(10, low) <= 2 * RADIX
  {
    RotateBound(g, x);
    PowMono(10, low, 8);
    WordPower();
  }

  /** Up to eight digits are all kept: the number is read in units of the last place. */
  lemma {:induction false} ShortDeposit(digits: string, start: int, n: nat)
    requires n > 0 && -8 < start < 0 && |digits| <= DIGITS_PER_WORD
    ensures LandsInside(digits, start, n) && LandsInside(digits, 0, n)
    ensures Deposit(digits, start, n) == Deposit(digits, 0, n)
  {
    LandsInsideIff(digits, start, n);
    InsideWords(digits, 0, n);
    if digits != "" {
      ShortDeposit(digits[1..], start, n);
      var t := |digits| - 1;
      assert WordOf(start, t) == WordOf(0, t) == 0 && Weight(start, t) == Weight(0, t);
    }
  }

  /**
   * A text of up to eight digits whose last one is below the last place: it is read as its
   * digits in units of the last place, so that it is cut off as it should be only if it is 0.
   */
  lemma ShortTexts(digits: string, start: int, g: nat, n: nat)
    requires AllDigits(digits) && start + g == 0 && 0 < g < DIGITS_PER_WORD && n > 0 && |digits| <= DIGITS_PER_WORD
    ensures LandsInside(digits, start, n) && V(Deposit(digits, start, n)) == Number(digits)
    ensures V(Deposit(digits, start, n)) == Number(digits) / Pow(10, g) <==> Number(digits) == 0
  {
    ShortDeposit(digits, start, n);
    DepositValue(digits, 0, n);
    NumberBound(digits);
    PowMono(10, 1, g);
    QuotientSmaller(Number(digits), Pow(10, g));
  }

  lemma QuotientSmaller(x: nat, d: nat)
    requires d > 1
    ensures x / d == x <==> x == 0
  {
    var q := x / d;
    assert x >= d * q;
    MulMono(2, d, q);
  }

  lemma LowWord(words: seq<int>)
    requires |words| > 0 && Digits(RADIX, words)
    ensures words[0] == V(words) % RADIX
  {
    ValSplit(RADIX, words, 1);
    ValTake(RADIX, words, 0);
    assert words[..0] == [] && Pow(RADIX, 1) == RADIX;
    DivUnique(V(words), RADIX, V(words[1..]), words[0]);
  }

  /** What the lowest word holds when the last digit is g places below the last place. */
  function LowestWord(digits: string, g: nat): int
    requires g < DIGITS_PER_WORD && AllDigits(digits)
  {
    NumberBound(HighDigits(digits, g));
    Rotate(g, Number(HighDigits(digits, g)) % RADIX) + Number(LowDigits(digits, g))
  }

  /**
   * Below the last place, all digits are as they should be exactly if rotation changes none of
   * the words and the dropped digits make up for it in the lowest; and all words stay below
   * the radix exactly if the lowest does.
   */
  lemma CutOffIff(digits: string, start: int, g: nat, n: nat)
    requires AllDigits(digits) && start + g == 0 && 0 < g < DIGITS_PER_WORD && n > 0
             && |digits| <= DIGITS_PER_WORD * n + g
    ensures LandsInside(digits, start, n) && LandsInside(HighDigits(digits, g), 0, n)
    ensures var words, right := Deposit(digits, start, n), Deposit(HighDigits(digits, g), 0, n);
            && Digits(RADIX, right) && V(right) == Number(digits) / Pow(10, g)
            && (words == right <==>
                  LowestWord(digits, g) == right[0] && forall j :: 1 <= j < n ==> Rotate(g, right[j]) == right[j])
            && (Digits(RADIX, words) <==> LowestWord(digits, g) < RADIX)
  {
    DepositBelow(digits, start, g, n);
    var high := HighDigits(digits, g);
    var words, right := Deposit(digits, start, n), Deposit(high, 0, n);
    DepositValue(high, 0, n);
    HoldsAtZero(right, high);
    LowWord(right);
    HighQuotient(digits, g);
    NumberBound(LowDigits(digits, g));
    MisplacedIff(words, right, g, Number(LowDigits(digits, g)));
  }

  lemma MisplacedIff(words: seq<int>, right: seq<int>, g: nat, dropped: nat)
    requires Misplaced(words, right, g, dropped) && |words| > 0
    ensures words == right <==>
              && Rotate(g, right[0]) + dropped == right[0]
              && forall j :: 1 <= j < |right| ==> Rotate(g, right[j]) == right[j]
    ensures Digits(RADIX, words) <==> Rotate(g, right[0]) + dropped < RADIX
  {
    forall j | 0 <= j < |words|
      ensures 0 <= Rotate(g, right[j]) < RADIX && (j > 0 ==> words[j] == Rotate(g, right[j]))
    {
      RotateBound(g, right[j]);
    }
  }

  lemma HighQuotient(digits: string, g: nat)
    requires AllDigits(digits)
    ensures Number(HighDigits(digits, g)) == Number(digits) / Pow(10, g)
  {
    var high, low := HighDigits(digits, g), LowDigits(digits, g);
    assert digits == high + low;
    NumberConcat(high, low);
    NumberBound(low);
    if g < |digits| {
      DivUnique(Number(digits), Pow(10, g), Number(high), Number(low));
    } else {
      PowMono(10, |digits|, g);
      DivUnique(Number(digits), Pow(10, g), 0, Number(digits));
    }
  }

  // ------------------------------------------------ everything that can be read

  /** The words after reading, wherever the last digit is. */
  ghost predicate Leaves(words: seq<int>, digits: string, start: int) {
    && AllDigits(digits)
    && (start >= 0 ==> Holds(words, digits, start))
    && (digits != "" && start < 0 ==>
          var g := -start;
          && g < DIGITS_PER_WORD && LandsInside(HighDigits(digits, g), 0, |words|)
          && Misplaced(words, Deposit(HighDigits(digits, g), 0, |words|), g, Number(LowDigits(digits, g))))
    && (Digits(RADIX, words) <==> StaysBelowRadix(digits, start))
  }

  /** Reading these digits leaves words of a valid number. */
  predicate StaysBelowRadix(digits: string, start: int)
    requires AllDigits(digits)
  {
    start >= 0 || digits == "" || (-start < DIGITS_PER_WORD && LowestWord(digits, -start) < RADIX)
  }

  lemma DepositLeaves(digits: string, start: int, n: nat)
    requires AllDigits(digits) && LandsInside(digits, start, n)
    ensures Leaves(Deposit(digits, start, n), digits, start)
  {
    if digits == "" {
      ValZeros(RADIX, Deposit(digits, start, n));
    } else {
      assert n > 0 by { assert WordOf(start, 0) < n; }
      LandsInsideIff(digits, start, n);
      if start >= 0 {
        DepositValue(digits, start, n);
      } else {
        DepositBelow(digits, start, -start, n);
        CutOffIff(digits, start, -start, n);
      }
    }
  }
}
