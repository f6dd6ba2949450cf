/**
 * The printed form of a decimal fixed-point number (decimal_fixedpoint.h, toString) as a
 * function of its magnitude, and the theorem that from_string reads it back.
 */
module DecimalText {
  import opened Decimal
  import opened DecimalDeposit
  import opened DecimalRead
  import opened Numerals
  import opened Positional
  import opened Rounding
  import opened Wrappers

  // ------------------------------------------------ digits of a magnitude

  /** The `len` low decimal digits of v, least significant first. */
  function DigitsOf(v: nat, len: nat): (d: seq<int>)
    ensures |d| == len && Digits(10, d)
  {
    if len == 0 then [] else [v % 10] + DigitsOf(v / 10, len - 1)
  }

  lemma {:induction false} DigitsOfValue(v: nat, len: nat)
    requires v < Pow(10, len)
    ensures Val(10, DigitsOf(v, len)) == v
  {
    if len > 0 {
      DigitsOfValue(v / 10, len - 1);
      ValCons(v % 10, DigitsOf(v / 10, len - 1));
    }
  }

  lemma ValCons(x: int, d: seq<int>)
    ensures Val(10, [x] + d) == x + 10 * Val(10, d)
  {
    ValConcat(10, [x], d);
    ValTake(10, [x], 0);
    assert [x][..1] == [x] && Pow(10, 1) == 10;
  }

  lemma DigitsOfUnique(d: seq<int>)
    requires Digits(10, d)
    ensures Val(10, d) >= 0 && d == DigitsOf(Val(10, d), |d|)
  {
    ValBound(10, d);
    DigitsOfValue(Val(10, d), |d|);
    ValInjective(10, d, DigitsOf(Val(10, d), |d|));
  }

  /** The index of the leading nonzero digit, or -1. */
  function Top(d: seq<int>): (t: int)
    ensures -1 <= t < |d|
    ensures t >= 0 ==> d[t] != 0
    ensures forall i :: t < i < |d| ==> d[i] == 0
  {
    if |d| == 0 then -1 else if d[|d| - 1] != 0 then |d| - 1 else Top(d[..|d| - 1])
  }

  lemma TopIs(d: seq<int>, t: int)
    requires -1 <= t < |d| && (t >= 0 ==> d[t] != 0) && forall i :: t < i < |d| ==> d[i] == 0
    ensures Top(d) == t
  {
  }

  // ------------------------------------------------ the printed form

  /** The magnitude that is printed: v rounded to `precision` digits, modulo the capacity. */
  function Kept(v: nat, precision: nat, len: nat): nat {
    var cut := Top(DigitsOf(v, len)) - precision + 1;
    if cut <= 0 then v
    else Pow(10, cut) * (NearestEven(v, Pow(10, cut)) % Pow(10, len - cut))
  }

  /** The lowest nonzero digit of d[lo..hi], or hi. */
  function Lowest(d: seq<int>, hi: int, lo: int): (k: int)
    requires 0 <= lo && hi <= |d|
    ensures lo < hi ==> lo <= k <= hi
    ensures lo >= hi ==> k == hi
    ensures lo <= k < hi ==> d[k] != 0
    ensures forall i :: lo <= i < k ==> d[i] == 0
    decreases hi - lo
  {
    if lo >= hi then hi else if d[lo] != 0 then lo else Lowest(d, hi, lo + 1)
  }

  /** Digits hi - 1 down to lo without trailing zeros. */
  function Trimmed(d: seq<int>, hi: int, lo: int): (s: string)
    requires 0 <= lo && 0 <= hi <= |d| && Digits(10, d)
    ensures AllDigits(s)
  {
    Run(d, hi, Lowest(d, hi, lo))
  }

  function StripPoint(s: string): string {
    if |s| > 0 && s[|s| - 1] == '.' then s[..|s| - 1] else s
  }

  /** A number padded to two characters, as setw(2) with setfill('0') writes it. */
  function Pad2(x: nat): string {
    if x < 10 then "0" + ToDecimal(x) else ToDecimal(x)
  }

  function Zeros(n: int): (s: string)
    ensures |s| == (if n < 0 then 0 else n) && AllDigits(s)
    ensures forall i :: 0 <= i < |s| ==> s[i] == '0'
  {
    if n <= 0 then "" else Zeros(n - 1) + "0"
  }

  function AtLeast0(x: int): nat {
    if x < 0 then 0 else x
  }

  /** One digit, the other digits after the point, and an exponent. */
  function ExponentForm(d: seq<int>, top: nat, last: nat, sign: string, x: nat): string
    requires Digits(10, d) && top < |d|
  {
    StripPoint([DigitChar(d[top])] + "." + Trimmed(d, top, last)) + ("e" + sign) + Pad2(x)
  }

  /** All whole digits, and the fraction digits after the point. */
  function WholeForm(d: seq<int>, top: nat, last: nat, point: nat): string
    requires Digits(10, d) && top < |d| && point <= |d|
  {
    StripPoint(Run(d, top + 1, point) + "." + Trimmed(d, point, last))
  }

  /** A zero, and the fraction digits with their leading zeros after the point. */
  function SmallForm(d: seq<int>, top: nat, last: nat, point: nat): string
    requires Digits(10, d) && top < |d|
  {
    "0." + Zeros(point - 1 - top) + Trimmed(d, top + 1, last)
  }

  /** The text of digits whose leading one is at top, in the notation toString chooses. */
  function Notation(d: seq<int>, top: nat, precision: nat, fraction: nat): string
    requires Digits(10, d) && top < |d|
  {
    var point, last := DIGITS_PER_WORD * fraction, AtLeast0(top - precision);
    if top >= point + precision then ExponentForm(d, top, last, "+", top - point)
    else if top >= point then WholeForm(d, top, last, point)
    else if top > point - 5 then SmallForm(d, top, last, point)
    else ExponentForm(d, top, last, "-", point - top)
  }

  /** The unsigned text of a rounded number; rounding past the top word leaves no digits. */
  function Body(d: seq<int>, precision: nat, whole: nat, fraction: nat): string
    requires Digits(10, d)
  {
    if Top(d) == -1 then "1" + ("e" + "+") + ToDecimal(DIGITS_PER_WORD * whole)
    else Notation(d, Top(d), precision, fraction)
  }

  function Precision(requested: int, len: nat): nat {
    if requested <= 0 || requested > len then len else requested
  }

  function Text(negative: bool, v: nat, requested: int, whole: nat, fraction: nat): string {
    var len := DIGITS_PER_WORD * (whole + fraction);
    var p := Precision(requested, len);
    if v == 0 then "0"
    else Signed(negative, Body(DigitsOf(Kept(v, p, len), len), p, whole, fraction))
  }

  // ------------------------------------------------ reading it back

  lemma PadReadsBack(x: nat)
    ensures ParseExponent("+" + Pad2(x)) == Some(x) && ParseExponent("-" + Pad2(x)) == Some(-(x as int))
    ensures AllDigits(Pad2(x))
  {
    NumberOfToDecimal(x);
    if x < 10 {
      NumberConcat("0", ToDecimal(x));
      assert Number("0") == 0 by { assert "0"[..0] == ""; }
    }
    assert ("+" + Pad2(x))[1..] == Pad2(x) && ("-" + Pad2(x))[1..] == Pad2(x);
  }

  /** Parsing sign, digits, an optional point with more digits, and an optional exponent. */
  lemma ParseShape(negative: bool, a: string, dot: bool, b: string, marked: bool, t: string, e: int,
                   text: string, l: Literal)
    requires text == Signed(negative, Plain(a, dot, b) + Mark(marked, t)) && l == Literal(negative, a + b, |b|, e)
    requires |a| > 0 && AllDigits(a) && AllDigits(b) && (!dot ==> b == "")
    requires if marked then ParseExponent(t) == Some(e) && LastOf(t, 'e', 'E') == -1 else t == "" && e == 0
    ensures Parse(text) == Some(l)
  {
    var s := Plain(a, dot, b);
    PlainHasNoMark(a, dot, b);
    UnmarkedMantissa(s, marked, t);
    SignedMantissa(negative, s + Mark(marked, t));
    AssemblePlain(negative, a, dot, b, e);
  }

  function Signed(negative: bool, s: string): string {
    if negative then "-" + s else s
  }

  function Plain(a: string, dot: bool, b: string): string {
    if dot then a + "." + b else a
  }

  function Mark(marked: bool, t: string): string {
    if marked then "e" + t else ""
  }

  lemma PlainHasNoMark(a: string, dot: bool, b: string)
    requires |a| > 0 && AllDigits(a) && AllDigits(b)
    ensures LastOf(Plain(a, dot, b), 'e', 'E') == -1 && Plain(a, dot, b)[0] != '-'
  {
    LastOfIs(Plain(a, dot, b), 'e', 'E', -1);
  }

  lemma SignedMantissa(negative: bool, s: string)
    requires |s| > 0 && s[0] != '-'
    ensures Mantissa(Signed(negative, s)) == Mantissa(s)
    ensures |Signed(negative, s)| > 0 && (Signed(negative, s)[0] == '-' <==> negative)
  {
    if negative {
      assert ("-" + s)[1..] == s;
    }
  }

  lemma UnmarkedMantissa(s: string, marked: bool, t: string)
    requires |s| > 0 && s[0] != '-' && LastOf(s, 'e', 'E') == -1
    requires marked ==> LastOf(t, 'e', 'E') == -1
    ensures Mantissa(s + Mark(marked, t)) == (s, if marked then ParseExponent(t) else Some(0))
  {
    if marked {
      LastMark(s, t);
    } else {
      assert s + Mark(marked, t) == s;
    }
  }

  lemma LastMark(s: string, t: string)
    requires LastOf(t, 'e', 'E') == -1
    ensures var u := s + ("e" + t);
            LastOf(u, 'e', 'E') == |s| && u[..|s|] == s && u[|s| + 1..] == t
  {
    var u := s + ("e" + t);
    assert u[|s|] == 'e';
    assert u[|s| + 1..] == t;
    assert forall i :: |s| < i < |u| ==> u[i] == t[i - |s| - 1];
    LastOfIs(u, 'e', 'E', |s|);
  }

  lemma AssemblePlain(negative: bool, a: string, dot: bool, b: string, e: int)
    requires AllDigits(a) && AllDigits(b) && (!dot ==> b == "")
    ensures Assemble(negative, Plain(a, dot, b), e) == Literal(negative, a + b, |b|, e)
  {
    var s := Plain(a, dot, b);
    if dot {
      LastOfIs(s, '.', '.', |a|);
      assert s[..|a|] == a && s[|a| + 1..] == b;
    } else {
      LastOfIs(s, '.', '.', -1);
      assert a + b == a;
    }
  }

  lemma StripIsPlain(a: string, t: string)
    requires |a| > 0 && AllDigits(a) && AllDigits(t)
    ensures StripPoint(a + "." + t) == Plain(a, t != "", t)
  {
    var s := a + "." + t;
    if t == "" {
      assert s[|s| - 1] == '.' && s[..|s| - 1] == a;
    } else {
      assert s[|s| - 1] == t[|t| - 1];
    }
  }

  /** The literal printed for d: its last digit is at position k and its value is that of d. */
  ghost predicate Denotes(l: Literal, negative: bool, d: seq<int>, fraction: nat, k: nat) {
    && l.negative == negative && AllDigits(l.digits)
    && Start(l, fraction) == k
    && IsShifted(d, l.digits, k)
  }

  /** The digits of s, shifted up by k places, are those of d. */
  ghost predicate IsShifted(d: seq<int>, s: string, k: nat) {
    Val(10, d) == Number(s) * Pow(10, k)
  }

  /** The leading digit is at top, and the digits below last are zero, as rounding leaves them. */
  ghost predicate Between(d: seq<int>, top: nat, last: nat) {
    && Digits(10, d) && top < |d|
    && forall i :: 0 <= i < |d| && (i < last || top < i) ==> d[i] == 0
  }

  /** Nothing is lost by printing only the digits between the leading and the lowest nonzero one. */
  lemma ShiftedRun(d: seq<int>, top: nat, k: nat)
    requires Digits(10, d) && k <= top + 1 <= |d|
    requires forall i :: 0 <= i < k || top < i < |d| ==> d[i] == 0
    ensures IsShifted(d, Run(d, top + 1, k), k)
  {
    NumberOfRun(d, top + 1, k);
    assert Val(10, d) == Pow(10, k) * Val(10, d[k..]) by {
      ValSplit(10, d, k);
      ValZeros(10, d[..k]);
    }
    assert Val(10, d[k..]) == Val(10, d[k..top + 1]) by {
      ValSplit(10, d[k..], top + 1 - k);
      ValZeros(10, d[k..][top + 1 - k..]);
      assert d[k..][..top + 1 - k] == d[k..top + 1];
    }
    Commute(Val(10, d), Pow(10, k), Val(10, d[k..]), Number(Run(d, top + 1, k)));
  }

  lemma Commute(v: int, p: int, x: int, y: int)
    requires v == p * x && x == y
    ensures v == y * p
  {
  }

  /** The printed digits: a run down to the lowest nonzero digit k, cut at mid. */
  lemma PrintedDigits(d: seq<int>, top: nat, last: nat, mid: nat) returns (k: nat)
    requires Between(d, top, last) && mid <= top + 1
    ensures k <= mid && Trimmed(d, mid, last) == Run(d, mid, k)
    ensures Run(d, top + 1, mid) + Run(d, mid, k) == Run(d, top + 1, k)
    ensures IsShifted(d, Run(d, top + 1, k), k)
  {
    k := Lowest(d, mid, last);
    RunJoin(d, top + 1, mid, k);
    ShiftedRun(d, top, k);
  }

  /** Stripping a final point does not change what a text denotes. */
  lemma PointedText(negative: bool, a: string, b: string, marked: bool, t: string, e: int, text: string, l: Literal)
    requires text == Signed(negative, StripPoint(a + "." + b) + Mark(marked, t))
    requires l == Literal(negative, a + b, |b|, e)
    requires |a| > 0 && AllDigits(a) && AllDigits(b)
    requires if marked then ParseExponent(t) == Some(e) && LastOf(t, 'e', 'E') == -1 else t == "" && e == 0
    ensures Parse(text) == Some(l)
  {
    StripIsPlain(a, b);
    ParseShape(negative, a, b != "", b, marked, t, e, text, l);
  }

  lemma DenotesRun(l: Literal, d: seq<int>, fraction: nat, k: nat)
    requires AllDigits(l.digits) && Start(l, fraction) == k && IsShifted(d, l.digits, k)
    ensures Denotes(l, l.negative, d, fraction, k)
  {
  }

  /** The notations with one digit, or all whole digits, before the point. */
  lemma PointedReadsBack(negative: bool, d: seq<int>, top: nat, last: nat, fraction: nat, mid: nat,
                         marked: bool, t: string, e: int, text: string) returns (l: Literal, k: nat)
    requires Between(d, top, last) && mid <= top
    requires if marked then ParseExponent(t) == Some(e) && LastOf(t, 'e', 'E') == -1 else t == "" && e == 0
    requires e == mid - DIGITS_PER_WORD * fraction
    requires text == Signed(negative, StripPoint(Run(d, top + 1, mid) + "." + Trimmed(d, mid, last)) + Mark(marked, t))
    ensures Parse(text) == Some(l)
    ensures Denotes(l, negative, d, fraction, k) && k + |l.digits| == top + 1 && |l.digits| > 0
  {
    k := PrintedDigits(d, top, last, mid);
    var a, b, run := Run(d, top + 1, mid), Run(d, mid, k), Run(d, top + 1, k);
    l := Literal(negative, run, |b|, e);
    PointedText(negative, a, b, marked, t, e, text, l);
    DenotesRun(l, d, fraction, k);
  }

  /** The notation with a leading zero before the point. */
  lemma SmallReadsBack(negative: bool, d: seq<int>, top: nat, last: nat, fraction: nat, text: string)
    returns (l: Literal, k: nat)
    requires Between(d, top, last) && top < DIGITS_PER_WORD * fraction
    requires text == Signed(negative, SmallForm(d, top, last, DIGITS_PER_WORD * fraction))
    ensures Parse(text) == Some(l)
    ensures Denotes(l, negative, d, fraction, k) && k + |l.digits| == DIGITS_PER_WORD * fraction + 1 && |l.digits| > 0
  {
    k := PrintedDigits(d, top, last, top + 1);
    var zeros, run := Zeros(DIGITS_PER_WORD * fraction - 1 - top), Run(d, top + 1, k);
    l := Literal(negative, "0" + (zeros + run), |zeros + run|, 0);
    SmallText(negative, zeros, run, text, l);
    LeadingZeros(d, zeros, run, k);
    DenotesRun(l, d, fraction, k);
  }

  lemma SmallText(negative: bool, zeros: string, run: string, text: string, l: Literal)
    requires AllDigits(zeros) && AllDigits(run)
    requires text == Signed(negative, "0." + zeros + run)
    requires l == Literal(negative, "0" + (zeros + run), |zeros + run|, 0)
    ensures Parse(text) == Some(l) && AllDigits(l.digits)
  {
    assert "0." + zeros + run == Plain("0", true, zeros + run) + Mark(false, "");
    ParseShape(negative, "0", true, zeros + run, false, "", 0, text, l);
  }

  lemma LeadingZeros(d: seq<int>, zeros: string, s: string, k: nat)
    requires forall i :: 0 <= i < |zeros| ==> zeros[i] == '0'
    requires IsShifted(d, s, k)
    ensures IsShifted(d, "0" + (zeros + s), k)
  {
    var z := "0" + zeros;
    assert "0" + (zeros + s) == z + s;
    NumberConcat(z, s);
    NumberOfZeros(z);
  }

  lemma ExponentPart(sign: string, x: nat, e: int)
    requires if sign == "+" then e == x else sign == "-" && e + x == 0
    ensures ParseExponent(sign + Pad2(x)) == Some(e) && LastOf(sign + Pad2(x), 'e', 'E') == -1
  {
    PadReadsBack(x);
    LastOfIs(sign + Pad2(x), 'e', 'E', -1);
  }

  /** Exponent notation, for numbers of at least and of less than one. */
  lemma ExponentReadsBack(negative: bool, d: seq<int>, top: nat, last: nat, fraction: nat, sign: string, x: nat,
                          text: string) returns (l: Literal, k: nat)
    requires Between(d, top, last)
    requires if sign == "+" then x == top - DIGITS_PER_WORD * fraction
             else sign == "-" && x == DIGITS_PER_WORD * fraction - top
    requires text == Signed(negative, ExponentForm(d, top, last, sign, x))
    ensures Parse(text) == Some(l)
    ensures Denotes(l, negative, d, fraction, k) && k + |l.digits| == top + 1 && |l.digits| > 0
  {
    var t, e := sign + Pad2(x), top - DIGITS_PER_WORD * fraction;
    ExponentPart(sign, x, e);
    assert text == Signed(negative, StripPoint(Run(d, top + 1, top) + "." + Trimmed(d, top, last)) + Mark(true, t)) by {
      OneDigitRun(d, top);
      MarkJoin(StripPoint([DigitChar(d[top])] + "." + Trimmed(d, top, last)), sign, Pad2(x));
    }
    l, k := PointedReadsBack(negative, d, top, last, fraction, top, true, t, e, text);
  }

  lemma OneDigitRun(d: seq<int>, k: nat)
    requires k < |d| && Digits(10, d)
    ensures Run(d, k + 1, k) == [DigitChar(d[k])]
  {
  }

  /** All whole digits before the point. */
  lemma WholeReadsBack(negative: bool, d: seq<int>, top: nat, last: nat, fraction: nat, text: string)
    returns (l: Literal, k: nat)
    requires Between(d, top, last) && top >= DIGITS_PER_WORD * fraction
    requires text == Signed(negative, WholeForm(d, top, last, DIGITS_PER_WORD * fraction))
    ensures Parse(text) == Some(l)
    ensures Denotes(l, negative, d, fraction, k) && k + |l.digits| == top + 1 && |l.digits| > 0
  {
    var point := DIGITS_PER_WORD * fraction;
    var s := StripPoint(Run(d, top + 1, point) + "." + Trimmed(d, point, last));
    assert s + Mark(false, "") == s;
    l, k := PointedReadsBack(negative, d, top, last, fraction, point, false, "", 0, text);
  }

  lemma MarkJoin(s: string, sign: string, x: string)
    ensures s + Mark(true, sign + x) == s + ("e" + sign) + x
  {
  }

  /**
   * Whatever notation toString chooses, its text parses to a literal with the sign and the
   * exact value of the rounded digits, and that literal fits in the words exactly unless
   * there is no whole word to take the zero before the point.
   */
  lemma BodyReadsBack(negative: bool, d: seq<int>, precision: nat, whole: nat, fraction: nat)
    returns (l: Literal, k: nat)
    requires |d| == DIGITS_PER_WORD * (whole + fraction)
    requires Top(d) >= 0 && Between(d, Top(d), AtLeast0(Top(d) - precision))
    ensures Parse(Signed(negative, Body(d, precision, whole, fraction))) == Some(l)
    ensures Denotes(l, negative, d, fraction, k)
    ensures 0 < |l.digits| && k + |l.digits| <= |d| + 1
    ensures k + |l.digits| <= |d| <==> whole > 0 || Top(d) <= DIGITS_PER_WORD * fraction - 5
  {
    l, k := NotationReadsBack(negative, d, Top(d), precision, fraction, Body(d, precision, whole, fraction));
  }

  lemma NotationReadsBack(negative: bool, d: seq<int>, top: nat, precision: nat, fraction: nat, body: string)
    returns (l: Literal, k: nat)
    requires Between(d, top, AtLeast0(top - precision)) && body == Notation(d, top, precision, fraction)
    ensures Parse(Signed(negative, body)) == Some(l)
    ensures Denotes(l, negative, d, fraction, k) && |l.digits| > 0
    ensures k + |l.digits| == if DIGITS_PER_WORD * fraction - 5 < top < DIGITS_PER_WORD * fraction
                              then DIGITS_PER_WORD * fraction + 1 else top + 1
  {
    if top >= DIGITS_PER_WORD * fraction {
      NotationCases(d, top, precision, fraction, body);
      l, k := LargeReadsBack(negative, d, top, AtLeast0(top - precision), fraction,
        top >= DIGITS_PER_WORD * fraction + precision, top - DIGITS_PER_WORD * fraction, Signed(negative, body));
    } else {
      l, k := FractionReadsBack(negative, d, top, precision, fraction, body, Signed(negative, body));
    }
  }

  lemma NotationCases(d: seq<int>, top: nat, precision: nat, fraction: nat, text: string)
    requires Digits(10, d) && top < |d| && text == Notation(d, top, precision, fraction)
    ensures var point, last := DIGITS_PER_WORD * fraction, AtLeast0(top - precision);
            && (top >= point + precision ==> text == ExponentForm(d, top, last, "+", top - point))
            && (point <= top < point + precision ==> text == WholeForm(d, top, last, point))
            && (point - 5 < top < point ==> text == SmallForm(d, top, last, point))
            && (top <= point - 5 ==> text == ExponentForm(d, top, last, "-", point - top))
  {
  }

  lemma LargeReadsBack(negative: bool, d: seq<int>, top: nat, last: nat, fraction: nat, exponent: bool, x: nat,
                       text: string)
    returns (l: Literal, k: nat)
    requires Between(d, top, last) && top == DIGITS_PER_WORD * fraction + x
    requires exponent ==> text == Signed(negative, ExponentForm(d, top, last, "+", x))
    requires !exponent ==> text == Signed(negative, WholeForm(d, top, last, DIGITS_PER_WORD * fraction))
    ensures Parse(text) == Some(l)
    ensures Denotes(l, negative, d, fraction, k) && k + |l.digits| == top + 1 && |l.digits| > 0
  {
    if exponent {
      l, k := ExponentReadsBack(negative, d, top, last, fraction, "+", x, text);
    } else {
      l, k := WholeReadsBack(negative, d, top, last, fraction, text);
    }
  }

  lemma FractionReadsBack(negative: bool, d: seq<int>, top: nat, precision: nat, fraction: nat, body: string,
                          text: string)
    returns (l: Literal, k: nat)
    requires Between(d, top, AtLeast0(top - precision)) && top < DIGITS_PER_WORD * fraction
    requires body == Notation(d, top, precision, fraction) && text == Signed(negative, body)
    ensures Parse(text) == Some(l)
    ensures Denotes(l, negative, d, fraction, k) && |l.digits| > 0
    ensures k + |l.digits| == if DIGITS_PER_WORD * fraction - 5 < top then DIGITS_PER_WORD * fraction + 1 else top + 1
  {
    var point, last := DIGITS_PER_WORD * fraction, AtLeast0(top - precision);
    NotationCases(d, top, precision, fraction, body);
    if top > point - 5 {
      l, k := SmallReadsBack(negative, d, top, last, fraction, text);
    } else {
      l, k := ExponentReadsBack(negative, d, top, last, fraction, "-", point - top, text);
    }
  }

  // ------------------------------------------------ rounding before printing

  /** Shifting a number up by c places puts c zeros below its digits. */
  lemma DigitsOfShift(m: nat, c: nat, len: nat)
    requires m < Pow(10, len)
    ensures Pow(10, c) * m < Pow(10, c + len)
    ensures DigitsOf(Pow(10, c) * m, c + len) == seq(c, _ => 0) + DigitsOf(m, len)
  {
    var zeros, d := seq(c, _ => 0), DigitsOf(m, len);
    ValZeros(10, zeros);
    DigitsOfValue(m, len);
    ValConcat(10, zeros, d);
    ValBound(10, zeros + d);
    DigitsOfUnique(zeros + d);
  }

  /** A number up to 10^t has no digit above t. */
  lemma TopBelow(v: nat, t: nat, len: nat)
    requires v <= Pow(10, t) && v < Pow(10, len)
    ensures Top(DigitsOf(v, len)) <= t
  {
    var d := DigitsOf(v, len);
    var k := Top(d);
    if k > t {
      PowMono(10, t + 1, k);
      DigitsOfValue(v, len);
      LeadingBound(d, k);
    }
  }

  lemma LeadingBound(d: seq<int>, k: nat)
    requires Digits(10, d) && k < |d| && d[k] > 0
    ensures Val(10, d) >= Pow(10, k)
  {
    ValSplit(10, d, k + 1);
    ValTake(10, d, k);
    ValBound(10, d[..k]);
    ValBound(10, d[k + 1..]);
    MulMono(1, d[k], Pow(10, k));
    Newton.Nonnegative(Pow(10, k + 1), Val(10, d[k + 1..]));
  }

  lemma TopValue(v: nat, len: nat)
    requires v < Pow(10, len)
    ensures v == 0 <==> Top(DigitsOf(v, len)) == -1
    ensures var t := Top(DigitsOf(v, len)); v < Pow(10, t + 1)
  {
    var d := DigitsOf(v, len);
    var t := Top(d);
    DigitsOfValue(v, len);
    ValSplit(10, d, t + 1);
    ValZeros(10, d[t + 1..]);
    ValBound(10, d[..t + 1]);
    if t >= 0 { LeadingBound(d, t); }
  }

  lemma NearestEvenBound(v: nat, u: nat, q: nat)
    requires u > 0 && v < u * q
    ensures 0 <= NearestEven(v, u) <= q
  {
    Newton.Cancel(u, v / u, q) by { assert u * (v / u) <= v; }
  }

  /** Rounding leaves at most `precision` digits below the leading one, and at most one more above. */
  lemma KeptDigits(v: nat, precision: nat, len: nat)
    requires 0 < v < Pow(10, len) && 0 < precision
    ensures var d := DigitsOf(Kept(v, precision, len), len);
            && Val(10, d) == Kept(v, precision, len)
            && (Kept(v, precision, len) > 0 ==> Top(d) >= 0 && Between(d, Top(d), AtLeast0(Top(d) - precision)))
            && (Kept(v, precision, len) == 0 ==> Top(d) == -1)
  {
    var cut := Top(DigitsOf(v, len)) - precision + 1;
    if cut <= 0 {
      DigitsOfValue(v, len);
    } else {
      KeptRounded(v, precision, len, cut);
    }
    TopValue(Kept(v, precision, len), len);
  }

  lemma KeptRounded(v: nat, precision: nat, len: nat, cut: nat)
    requires 0 < v < Pow(10, len) && 0 < precision && cut > 0
    requires cut == Top(DigitsOf(v, len)) - precision + 1
    ensures var kept := Kept(v, precision, len);
            var d := DigitsOf(kept, len);
            && kept < Pow(10, len) && Val(10, d) == kept
            && Top(d) <= cut + precision && forall i :: 0 <= i < cut ==> d[i] == 0
  {
    var kept := Kept(v, precision, len);
    var m := NearestEven(v, Pow(10, cut)) % Pow(10, len - cut);
    RoundedBound(v, precision, cut, len);
    assert kept == Pow(10, cut) * m;
    DigitsOfShift(m, cut, len - cut);
    DigitsOfValue(kept, len);
    TopBelow(kept, cut + precision, len);
  }

  lemma RoundedBound(v: nat, precision: nat, cut: nat, len: nat)
    requires 0 < v < Pow(10, len) && 0 < cut <= len && cut + precision == Top(DigitsOf(v, len)) + 1
    ensures NearestEven(v, Pow(10, cut)) >= 0
    ensures Pow(10, cut) * (NearestEven(v, Pow(10, cut)) % Pow(10, len - cut)) <= Pow(10, cut + precision)
  {
    var u, q := Pow(10, cut), Pow(10, precision);
    TopValue(v, len);
    PowAdd(10, cut, precision);
    NearestEvenBound(v, u, q);
    ModTimes(u, NearestEven(v, u), Pow(10, len - cut), q);
  }

  lemma ModTimes(u: int, x: int, c: int, q: int)
    requires u > 0 && c > 0 && 0 <= x <= q
    ensures u * (x % c) <= u * q
  {
    MulMono(x % c, q, u);
  }

  /** Nothing is rounded away at full precision. */
  lemma FullPrecisionKeeps(v: nat, len: nat)
    ensures Kept(v, len, len) == v
  {
  }

  // ------------------------------------------------ the round trip

  /** from_string has a word for every digit that is printed of a nonzero number. */
  ghost predicate HasWords(kept: nat, whole: nat, fraction: nat) {
    && kept > 0
    && (whole > 0
        || Top(DigitsOf(kept, DIGITS_PER_WORD * (whole + fraction))) <= DIGITS_PER_WORD * fraction - 5)
  }

  /**
   * It has a word for every digit of the text of v, of which `kept` is printed. The text of 0 is
   * a zero before the point.
   */
  ghost predicate Readable(v: nat, kept: nat, whole: nat, fraction: nat) {
    if v == 0 then whole > 0 else HasWords(kept, whole, fraction)
  }

  lemma OneTooMany(digits: string, start: nat, n: nat)
    requires |digits| > 0 && start + |digits| == DIGITS_PER_WORD * n + 1
    ensures !LandsInside(digits, start, n)
  {
    var w, r := Place(start, |digits| - 1);
    assert WordOf(start, |digits| - 1) == n;
  }

  /** The literal l has this sign, and restores the words of `kept` exactly when it is readable. */
  ghost predicate Restores(l: Literal, negative: bool, kept: nat, readable: bool, whole: nat, fraction: nat) {
    var start, n := Start(l, fraction), whole + fraction;
    && l.negative == negative && AllDigits(l.digits)
    && (LandsInside(l.digits, start, n) <==> readable)
    && (LandsInside(l.digits, start, n) ==>
          var words := Deposit(l.digits, start, n); Digits(RADIX, words) && V(words) == kept)
  }

  /**
   * For every magnitude, every precision and every word count, from_string reads the text
   * toString prints as the rounded magnitude, exactly when that text is readable: rounding did
   * not overflow the words, and a zero before the point has a word. The sign comes back too,
   * except that of a negative zero.
   */
  lemma PrintedTextReadsBack(negative: bool, v: nat, requested: int, whole: nat, fraction: nat)
    returns (l: Literal)
    requires whole + fraction > 0 && v < P(whole + fraction)
    ensures Parse(Text(negative, v, requested, whole, fraction)) == Some(l)
    ensures var len := DIGITS_PER_WORD * (whole + fraction);
            var kept := Kept(v, Precision(requested, len), len);
            Restores(l, negative && v > 0, kept, Readable(v, kept, whole, fraction), whole, fraction)
    ensures l.negative == negative <==> v > 0 || !negative
  {
    var len := DIGITS_PER_WORD * (whole + fraction);
    var p := Precision(requested, len);
    if v == 0 {
      l := Literal(false, "0", 0, 0);
      ZeroReadsBack(l, Text(negative, v, requested, whole, fraction), whole, fraction);
      KeptOfZero(p, len);
    } else {
      WordPower();
      PowPow(10, 8, whole + fraction);
      TextOfNonzero(negative, v, requested, whole, fraction);
      l := RoundedReadsBack(negative, v, p, whole, fraction, len, Kept(v, p, len));
    }
  }

  lemma KeptOfZero(precision: nat, len: nat)
    requires precision > 0
    ensures Kept(0, precision, len) == 0
  {
    PowMono(10, 0, len);
    TopBelow(0, 0, len);
  }

  /** The text of zero names the digit before the point, which has a word if there is a whole one. */
  lemma ZeroReadsBack(l: Literal, text: string, whole: nat, fraction: nat)
    requires l == Literal(false, "0", 0, 0) && text == "0" && whole + fraction > 0
    ensures Parse(text) == Some(l) && Restores(l, false, 0, whole > 0, whole, fraction)
  {
    var zero := "0";
    assert zero + "" == zero;
    ParseShape(false, zero, false, "", false, "", 0, text, l);
    LandsInsideIff(zero, DIGITS_PER_WORD * fraction, whole + fraction);
    NumberOfZeros(zero);
    if whole > 0 {
      DepositValue(zero, DIGITS_PER_WORD * fraction, whole + fraction);
    }
  }

  lemma RoundedReadsBack(negative: bool, v: nat, p: nat, whole: nat, fraction: nat, len: nat, kept: nat)
    returns (l: Literal)
    requires len == DIGITS_PER_WORD * (whole + fraction) > 0 && 0 < v < Pow(10, len) && 0 < p && kept == Kept(v, p, len)
    ensures Parse(Signed(negative, Body(DigitsOf(kept, len), p, whole, fraction))) == Some(l)
    ensures Restores(l, negative, kept, HasWords(kept, whole, fraction), whole, fraction)
  {
    KeptDigits(v, p, len);
    l := DigitsReadBack(negative, kept, p, whole, fraction, Body(DigitsOf(kept, len), p, whole, fraction));
  }

  lemma TextOfNonzero(negative: bool, v: nat, requested: int, whole: nat, fraction: nat)
    requires v > 0
    ensures var len := DIGITS_PER_WORD * (whole + fraction);
            var p := Precision(requested, len);
            Text(negative, v, requested, whole, fraction)
            == Signed(negative, Body(DigitsOf(Kept(v, p, len), len), p, whole, fraction))
  {
  }

  lemma DigitsReadBack(negative: bool, kept: nat, p: nat, whole: nat, fraction: nat, body: string) returns (l: Literal)
    requires whole + fraction > 0
    requires var d := DigitsOf(kept, DIGITS_PER_WORD * (whole + fraction));
             && body == Body(d, p, whole, fraction) && Val(10, d) == kept
             && (kept > 0 ==> Top(d) >= 0 && Between(d, Top(d), AtLeast0(Top(d) - p)))
             && (kept == 0 ==> Top(d) == -1)
    ensures Parse(Signed(negative, body)) == Some(l)
    ensures Restores(l, negative, kept, HasWords(kept, whole, fraction), whole, fraction)
  {
    var n := whole + fraction;
    var d := DigitsOf(kept, DIGITS_PER_WORD * n);
    if kept == 0 {
      l := OverflowLiteral(negative, DIGITS_PER_WORD * whole, Signed(negative, body));
      OverflowRestores(l, negative, kept, whole, fraction);
    } else {
      var k;
      l, k := BodyReadsBack(negative, d, p, whole, fraction);
      DenotedRestores(l, negative, d, whole, fraction, k);
    }
  }

  lemma DenotedRestores(l: Literal, negative: bool, d: seq<int>, whole: nat, fraction: nat, k: nat)
    requires |d| == DIGITS_PER_WORD * (whole + fraction) && Digits(10, d) && Val(10, d) > 0
    requires Denotes(l, negative, d, fraction, k) && 0 < |l.digits| && k + |l.digits| <= |d| + 1
    requires k + |l.digits| <= |d| <==> HasWords(Val(10, d), whole, fraction)
    ensures Restores(l, negative, Val(10, d), HasWords(Val(10, d), whole, fraction), whole, fraction)
  {
    var n := whole + fraction;
    if k + |l.digits| <= |d| {
      DepositValue(l.digits, k, n);
      assert Holds(Deposit(l.digits, k, n), l.digits, k);
    } else {
      OneTooMany(l.digits, k, n);
    }
  }

  /** The text printed when rounding carries out of the top word names a digit outside the words. */
  lemma OverflowRestores(l: Literal, negative: bool, kept: nat, whole: nat, fraction: nat)
    requires l.negative == negative && |l.digits| == 1 && AllDigits(l.digits)
    requires l.places == 0 && l.exponent == DIGITS_PER_WORD * whole && kept == 0
    ensures Restores(l, negative, kept, HasWords(kept, whole, fraction), whole, fraction)
  {
    OneTooMany(l.digits, Start(l, fraction), whole + fraction);
    Unreadable(l, negative, kept, whole, fraction);
  }

  lemma OverflowLiteral(negative: bool, x: nat, text: string) returns (l: Literal)
    requires text == Signed(negative, "1" + ("e" + "+") + ToDecimal(x))
    ensures Parse(text) == Some(l)
    ensures l.negative == negative && |l.digits| == 1 && AllDigits(l.digits) && l.places == 0 && l.exponent == x
  {
    var one, t := "1", "+" + ToDecimal(x);
    l := Literal(negative, one, 0, x);
    UnpaddedExponent(x);
    MarkJoin(one, "+", ToDecimal(x));
    assert one + "" == one;
    ParseShape(negative, one, false, "", true, t, x, text, l);
  }

  lemma Unreadable(l: Literal, negative: bool, kept: nat, whole: nat, fraction: nat)
    requires l.negative == negative && AllDigits(l.digits) && kept == 0
    requires !LandsInside(l.digits, Start(l, fraction), whole + fraction)
    ensures Restores(l, negative, kept, HasWords(kept, whole, fraction), whole, fraction)
  {
  }

  lemma UnpaddedExponent(x: nat)
    ensures ParseExponent("+" + ToDecimal(x)) == Some(x) && LastOf("+" + ToDecimal(x), 'e', 'E') == -1
  {
    NumberOfToDecimal(x);
    assert ("+" + ToDecimal(x))[1..] == ToDecimal(x);
    LastOfIs("+" + ToDecimal(x), 'e', 'E', -1);
  }

  /** At full precision the words themselves come back, for every number with a whole word. */
  lemma FullPrecisionRoundTrip(negative: bool, words: seq<int>, whole: nat, fraction: nat) returns (l: Literal)
    requires whole > 0 && |words| == whole + fraction && Digits(RADIX, words)
    ensures V(words) >= 0 && Parse(Text(negative, V(words), 0, whole, fraction)) == Some(l)
    ensures l.negative == (negative && V(words) > 0) && AllDigits(l.digits)
    ensures LandsInside(l.digits, Start(l, fraction), |words|)
    ensures Deposit(l.digits, Start(l, fraction), |words|) == words
  {
    ValBound(RADIX, words);
    l := PrintedTextReadsBack(negative, V(words), 0, whole, fraction);
    FullPrecisionKeeps(V(words), DIGITS_PER_WORD * |words|);
    ValInjective(RADIX, words, Deposit(l.digits, Start(l, fraction), |words|));
  }
}
