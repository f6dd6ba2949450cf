/** Texts that from_string reads wrongly, and numbers whose printed text it cannot read (decimal_fixedpoint.h). */
module DecimalLoss {
  import opened Decimal
  import opened DecimalDeposit
  import opened DecimalRead
  import opened DecimalText
  import Newton
  import opened Numerals
  import opened Positional
  import opened Rounding
  import opened Wrappers

  /** A whole digit, the point and nine more digits. */
  ghost predicate NineDecimals(text: string, a: char, f: string) {
    text == [a] + "." + f && IsDigit(a) && AllDigits(f) && |f| == 9
  }

  /** Its numeral, whose last digit is one place below the last with a single fraction word. */
  lemma NineDecimalsParse(text: string, a: char, f: string, l: Literal)
    requires NineDecimals(text, a, f) && l == Literal(false, [a] + f, 9, 0)
    ensures Parse(text) == Some(l) && Start(l, 1) == -1 && AllDigits(l.digits) && |l.digits| == 10
    ensures HighDigits(l.digits, 1) == [a] + f[..8] && LowDigits(l.digits, 1) == [f[8]]
  {
    ParseShape(false, [a], true, f, false, "", 0, text, l);
  }

  lemma NumberOfChar(c: char)
    ensures Number([c]) == CharDigit(c)
  {
    assert [c][..0] == "";
  }

  lemma HighNumber(a: char, f: string, high: string)
    requires IsDigit(a) && AllDigits(f) && |f| == 8 && high == [a] + f
    ensures Number(high) == CharDigit(a) * RADIX + Number(f) && 0 <= Number(f) < RADIX
  {
    NumberConcat([a], f);
    NumberOfChar(a);
    NumberBound(f);
    WordPower();
  }

  /**
   * With one fraction word, nine decimals turn "1." and anything into a ten, and so for every digit
   * before the point.
   */
  lemma WholePartTimesTen(text: string, a: char, f: string, l: Literal, n: nat)
    requires NineDecimals(text, a, f) && l == Literal(false, [a] + f, 9, 0) && n >= 2
    ensures Parse(text) == Some(l) && AllDigits(l.digits) && LandsInside(l.digits, Start(l, 1), n)
    ensures Deposit(l.digits, Start(l, 1), n)[1] == 10 * CharDigit(a)
  {
    NineDecimalsParse(text, a, f, l);
    var high := HighDigits(l.digits, 1);
    DepositBelow(l.digits, -1, 1, n);
    var right := Deposit(high, 0, n);
    DepositValue(high, 0, n);
    HoldsAtZero(right, high);
    HighNumber(a, f[..8], high);
    SecondWord(right, CharDigit(a), Number(f[..8]));
    RotateOne(CharDigit(a));
  }

  /** The second word of a number below a hundred times the radix. */
  lemma SecondWord(words: seq<int>, d: int, low: int)
    requires |words| >= 2 && Digits(RADIX, words) && V(words) == d * RADIX + low && 0 <= low < RADIX && 0 <= d < 10
    ensures words[0] == low && words[1] == d
  {
    LowWord(words);
    DivUnique(V(words), RADIX, d, low);
    ValSplit(RADIX, words, 1);
    ValTake(RADIX, words, 0);
    assert words[..0] == [] && Pow(RADIX, 1) == RADIX;
    LowWord(words[1..]);
  }

  lemma RotateOne(d: nat)
    requires d < 10
    ensures Rotate(1, d) == 10 * d
  {
    PowMono(10, 1, 7);
    assert Pow(10, 1) == 10;
  }

  /** "0." and nine nines leave more in a word than it may hold, so that the number is no longer valid. */
  lemma NinesExceedRadix(text: string, f: string, l: Literal)
    requires NineDecimals(text, '0', f) && (forall i :: 0 <= i < 9 ==> f[i] == '9')
             && l == Literal(false, ['0'] + f, 9, 0)
    ensures Parse(text) == Some(l) && Start(l, 1) == -1 && AllDigits(l.digits)
    ensures LowestWord(l.digits, 1) == RADIX + 8 && !StaysBelowRadix(l.digits, Start(l, 1))
  {
    NineDecimalsParse(text, '0', f, l);
    NinesLowestWord(l.digits, f);
  }

  lemma NinesLowestWord(digits: string, f: string)
    requires |f| == 9 && (forall i :: 0 <= i < 9 ==> f[i] == '9') && AllDigits(digits)
    requires HighDigits(digits, 1) == ['0'] + f[..8] && LowDigits(digits, 1) == [f[8]]
    ensures LowestWord(digits, 1) == RADIX + 8
  {
    NinesLowest(f, HighDigits(digits, 1), LowDigits(digits, 1));
  }

  lemma NinesLowest(f: string, high: string, low: string)
    requires |f| == 9 && (forall i :: 0 <= i < 9 ==> f[i] == '9') && high == ['0'] + f[..8] && low == [f[8]]
    ensures Number(high) == RADIX - 1 && Number(low) == 9 && Rotate(1, RADIX - 1) == RADIX - 1
  {
    HighNumber('0', f[..8], high);
    NumberOfNines(f[..8]);
    WordPower();
    NumberOfChar(f[8]);
    RotateNines();
  }

  lemma {:induction false} NumberOfNines(s: string)
    requires forall i :: 0 <= i < |s| ==> s[i] == '9'
    ensures Number(s) == Pow(10, |s|) - 1
  {
    if |s| > 0 { NumberOfNines(s[..|s| - 1]); }
  }

  lemma RotateNines()
    ensures Rotate(1, RADIX - 1) == RADIX - 1
  {
    Newton.SeedPower();
    assert Pow(10, 1) == 10;
  }

  // ------------------------------------------------ printed texts that cannot be read

  /**
   * Rounding v to `precision` of its `len` digits reaches 10^len: v is at most half a unit of the
   * last printed digit below.
   */
  predicate RoundsOver(v: nat, precision: nat, len: nat)
    requires precision <= len
  {
    precision < len && 2 * (Pow(10, len) - v) <= Pow(10, len - precision)
  }

  /** Rounding leaves nothing exactly for those numbers; their text is "1e+N". */
  lemma NothingKept(v: nat, precision: nat, len: nat)
    requires 0 < v < Pow(10, len) && 0 < precision <= len
    ensures Kept(v, precision, len) == 0 <==> RoundsOver(v, precision, len)
  {
    var t := Top(DigitsOf(v, len));
    LeadingDigitBounds(v, len, t);
    if t >= precision {
      KeptOfCut(v, precision, len, t, t - precision + 1);
    } else {
      KeptWhole(v, precision, len, t);
    }
    if t < len - 1 { FarBelow(v, precision, len, t); }
  }

  lemma LeadingDigitBounds(v: nat, len: nat, t: int)
    requires 0 < v < Pow(10, len) && t == Top(DigitsOf(v, len))
    ensures 0 <= t < len && Pow(10, t) <= v < Pow(10, t + 1)
  {
    TopValue(v, len);
    DigitsOfValue(v, len);
    LeadingBound(DigitsOf(v, len), t);
  }

  lemma KeptWhole(v: nat, precision: nat, len: nat, t: int)
    requires t == Top(DigitsOf(v, len)) < precision
    ensures Kept(v, precision, len) == v
  {
  }

  lemma KeptOfCut(v: nat, precision: nat, len: nat, t: nat, cut: nat)
    requires 0 < v < Pow(10, len) && 0 < precision <= len && t == Top(DigitsOf(v, len)) < len
    requires 0 < cut == t - precision + 1 && Pow(10, t) <= v < Pow(10, t + 1)
    ensures Kept(v, precision, len) == 0 <==> t == len - 1 && RoundsOver(v, precision, len)
  {
    var u, l, q, top := Pow(10, cut), Pow(10, len - cut), Pow(10, precision - 1), Pow(10, precision);
    PowAdd(10, precision - 1, cut);
    PowAdd(10, precision, cut);
    PowMono(10, precision, len - cut);
    if t < len - 1 { PowMono(10, precision + 1, len - cut); }
    SomethingRounded(v, u, q, top, l);
    KeptZero(u, NearestEven(v, u), l);
    assert Kept(v, precision, len) == u * (NearestEven(v, u) % l);
    if t == len - 1 {
      PowerEven(precision);
      RoundsToTop(v, u, l, Pow(10, len));
    }
  }

  lemma FarBelow(v: nat, precision: nat, len: nat, t: nat)
    requires 0 < precision <= len && v < Pow(10, t + 1) && t < len - 1
    ensures !RoundsOver(v, precision, len)
  {
    PowMono(10, t + 1, len - 1);
    PowMono(10, len - precision, len - 1);
    var top, x, y := Pow(10, len), Pow(10, len - 1), Pow(10, len - precision);
    assert top == 10 * x;
  }

  lemma KeptZero(u: nat, m: int, l: nat)
    requires u > 0 && 0 < m <= l
    ensures u * (m % l) == 0 <==> m == l
  {
    if m < l {
      DivUnique(m, l, 0, m);
      MulMono(1, m, u);
    } else {
      DivUnique(m, l, 1, 0);
    }
  }

  /** The rounded number has a digit, and at most one more than the precision. */
  lemma SomethingRounded(v: nat, u: nat, q: nat, top: nat, l: nat)
    requires u > 0 && q > 0 && q * u <= v < top * u && top <= l
    ensures 0 < NearestEven(v, u) <= top && (top < l ==> NearestEven(v, u) < l)
  {
    NearestEvenBound(v, u, top);
    if v / u < q { MulMono(v / u + 1, q, u); }
  }

  lemma PowerEven(p: nat)
    requires p > 0
    ensures Pow(10, p) % 2 == 0
  {
    assert Pow(10, p) == 2 * (5 * Pow(10, p - 1));
  }

  lemma RoundsToTop(v: nat, u: nat, l: nat, lu: nat)
    requires u > 0 && l % 2 == 0 && 0 < l && lu == l * u && v < lu
    ensures NearestEven(v, u) == l <==> 2 * (lu - v) <= u
  {
    TopQuotient(v, u, l, v / u, v % u);
  }

  lemma TopQuotient(v: nat, u: nat, l: nat, w: nat, rest: nat)
    requires v == u * w + rest && rest < u && 0 < l && v < l * u
    ensures w <= l - 1 && (w == l - 1 ==> l * u - v == u - rest) && (w < l - 1 ==> l * u - v > u)
  {
    if w < l - 1 {
      MulMono(w + 2, l, u);
      assert (w + 2) * u == u * w + 2 * u;
    } else {
      MulMono(l, w + 1, u);
      assert (w + 1) * u == u * w + u;
      if w >= l { MulMono(l, w, u); }
    }
  }

  /**
   * A printed text can be read back exactly if rounding did not reach the capacity and, without
   * whole words, the number is not zero and below 0.0001: then there is no zero before the point.
   */
  lemma ReadableIff(v: nat, precision: nat, whole: nat, fraction: nat)
    requires var len := DIGITS_PER_WORD * (whole + fraction); v < Pow(10, len) && 0 < precision <= len
    ensures var len := DIGITS_PER_WORD * (whole + fraction);
            var kept := Kept(v, precision, len);
            Readable(v, kept, whole, fraction)
            <==> !RoundsOver(v, precision, len)
                 && (whole > 0 || 0 < kept < Pow(10, DIGITS_PER_WORD * fraction - 4))
  {
    var len := DIGITS_PER_WORD * (whole + fraction);
    if v == 0 {
      KeptOfZero(precision, len);
      PowMono(10, len - precision, len);
    } else {
      NothingKept(v, precision, len);
      KeptBound(v, precision, len);
      if Kept(v, precision, len) > 0 {
        WordsIff(Kept(v, precision, len), whole, fraction, len);
      }
    }
  }

  lemma KeptBound(v: nat, precision: nat, len: nat)
    requires 0 < v < Pow(10, len) && 0 < precision
    ensures Kept(v, precision, len) < Pow(10, len)
  {
    KeptDigits(v, precision, len);
    ValBound(10, DigitsOf(Kept(v, precision, len), len));
  }

  lemma WordsIff(kept: nat, whole: nat, fraction: nat, len: nat)
    requires len == DIGITS_PER_WORD * (whole + fraction) && 0 < kept < Pow(10, len)
    ensures HasWords(kept, whole, fraction) <==> whole > 0 || kept < Pow(10, DIGITS_PER_WORD * fraction - 4)
  {
    if whole == 0 { TopBelowIff(kept, len, len - 4); }
  }

  lemma TopBelowIff(v: nat, len: nat, e: nat)
    requires 0 < v < Pow(10, len)
    ensures v < Pow(10, e) <==> Top(DigitsOf(v, len)) < e
  {
    var t := Top(DigitsOf(v, len));
    TopValue(v, len);
    DigitsOfValue(v, len);
    LeadingBound(DigitsOf(v, len), t);
    if t < e { PowMono(10, t + 1, e); } else { PowMono(10, e, t); }
  }

  lemma Capacity(n: nat)
    ensures P(n) == Pow(10, DIGITS_PER_WORD * n)
  {
    WordPower();
    PowPow(10, 8, n);
  }

  lemma NotReadBack(l: Literal, negative: bool, kept: nat, whole: nat, fraction: nat)
    requires Restores(l, negative, kept, false, whole, fraction)
    ensures !LandsInside(l.digits, Start(l, fraction), whole + fraction)
  {
  }

  /** The text of any number that is not readable names a digit that has no word. */
  lemma LostText(negative: bool, v: nat, requested: int, precision: nat, whole: nat, fraction: nat, len: nat,
                 text: string)
    returns (l: Literal)
    requires len == DIGITS_PER_WORD * (whole + fraction) > 0 && v < Pow(10, len)
             && precision == Precision(requested, len)
    requires text == Text(negative, v, requested, whole, fraction)
             && !Readable(v, Kept(v, precision, len), whole, fraction)
    ensures Parse(text) == Some(l) && !LandsInside(l.digits, Start(l, fraction), whole + fraction)
  {
    Capacity(whole + fraction);
    l := PrintedTextReadsBack(negative, v, requested, whole, fraction);
    NotReadBack(l, negative && v > 0, Kept(v, precision, len), whole, fraction);
  }

  /** The largest number of any size is lost, at every precision short of all digits. */
  lemma AllNinesLost(v: nat, precision: nat, whole: nat, fraction: nat, len: nat)
    requires len == DIGITS_PER_WORD * (whole + fraction) && 0 < precision < len && v + 1 == Pow(10, len)
    ensures 0 < v < Pow(10, len) && !Readable(v, Kept(v, precision, len), whole, fraction)
  {
    PowMono(10, 1, len);
    PowMono(10, 1, len - precision);
    assert Pow(10, 1) == 10;
    ReadableIff(v, precision, whole, fraction);
  }

  /**
   * Without whole words, zero and every number from 0.0001 on are lost: their texts have a zero
   * before the point that has no word.
   */
  lemma NoWholeWordLost(v: nat, fraction: nat, len: nat)
    requires fraction > 0 && len == DIGITS_PER_WORD * fraction && (v == 0 || Pow(10, len - 4) <= v < Pow(10, len))
    ensures Precision(0, len) == len && !Readable(v, Kept(v, len, len), 0, fraction)
  {
    FullPrecisionKeeps(v, len);
    ReadableIff(v, len, 0, fraction);
  }
}
