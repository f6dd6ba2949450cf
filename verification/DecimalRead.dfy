/**
 * Reading a decimal fixed-point number from text (decimal_fixedpoint.h, from_string).
 *
 * std::stoul on one character and std::stod on the exponent are the only library
 * conversions: a character that is no digit throws, and so does an exponent that is not
 * a number. The exponent is read here as an optionally signed decimal integer.
 */
module DecimalRead {
  import opened Decimal
  import opened DecimalDeposit
  import opened Numerals
  import opened Positional
  import opened Wrappers

  /** The parts of a numeral: its digits, how many of them are decimal places, its exponent. */
  datatype Literal = Literal(negative: bool, digits: string, places: nat, exponent: int)

  /** OutsideWords: the source would store to a word that does not exist. */
  datatype Outcome = Stored | BadDigit | BadExponent | OutsideWords

  /** The last of the first n positions of s holding one of two characters, or -1. */
  function LastBefore(s: string, n: nat, x: char, y: char): (k: int)
    requires n <= |s|
    ensures -1 <= k < n
    ensures k >= 0 ==> s[k] == x || s[k] == y
    ensures forall i :: k < i < n ==> s[i] != x && s[i] != y
  {
    if n == 0 then -1 else if s[n - 1] == x || s[n - 1] == y then n - 1 else LastBefore(s, n - 1, x, y)
  }

  /** The last position of s holding one of two characters, or -1. */
  function LastOf(s: string, x: char, y: char): (k: int)
    ensures -1 <= k < |s|
    ensures k >= 0 ==> s[k] == x || s[k] == y
    ensures forall i :: k < i < |s| ==> s[i] != x && s[i] != y
  {
    LastBefore(s, |s|, x, y)
  }

  lemma LastOfIs(s: string, x: char, y: char, k: int)
    requires -1 <= k < |s| && (k >= 0 ==> s[k] == x || s[k] == y)
    requires forall i :: k < i < |s| ==> s[i] != x && s[i] != y
    ensures LastOf(s, x, y) == k
  {
  }

  function ParseExponent(s: string): Option<int> {
    var signed := |s| > 0 && (s[0] == '-' || s[0] == '+');
    var t := if signed then s[1..] else s;
    if |t| > 0 && AllDigits(t) then Some(if signed && s[0] == '-' then -Number(t) else Number(t)) else None
  }

  /** The text without its sign and exponent, and the exponent. */
  function Mantissa(text: string): (string, Option<int>) {
    var s := if |text| > 0 && text[0] == '-' then text[1..] else text;
    var e := LastOf(s, 'e', 'E');
    if e >= 0 then (s[..e], ParseExponent(s[e + 1..])) else (s, Some(0))
  }

  /** Drops the last point and counts the digits after it. */
  function Assemble(negative: bool, m: string, exponent: int): Literal {
    var point := LastOf(m, '.', '.');
    if point >= 0 then Literal(negative, m[..point] + m[point + 1..], |m| - point - 1, exponent)
    else Literal(negative, m, 0, exponent)
  }

  /** The numeral a text denotes: sign, digits around the last point, exponent after the last e. */
  function Parse(text: string): Option<Literal> {
    var (m, exponent) := Mantissa(text);
    if exponent.None? then None
    else Some(Assemble(|text| > 0 && text[0] == '-', m, exponent.value))
  }

  /** The decimal position, above the last digit of the last word, of a literal's last digit. */
  function Start(l: Literal, fraction: nat): int {
    fraction * DIGITS_PER_WORD - l.places + l.exponent
  }

  // ------------------------------------------------ from_string

  lemma WeightStep(start: int, t: nat)
    ensures Weight(start, t) * 10 == (if Weight(start, t + 1) == 1 then RADIX else Weight(start, t + 1))
    ensures U32(Weight(start, t) * 10) == Weight(start, t) * 10
    ensures Weight(start, t + 1) != RADIX
  {
    var e := ((if start < 0 then 0 else start % 8) + t) % 8;
    WordPower();
    PowMono(10, e + 1, 8);
    if e < 7 {
      PowMono(10, 1, e + 1);
      PowMono(10, e + 1, 7);
      Newton.SeedPower();
    }
  }

  lemma SmallPower(e: nat)
    requires e < 8
    ensures 10 * Pow(10, e) == Pow(10, e + 1) <= RADIX
  {
    WordPower();
    PowMono(10, e + 1, 8);
  }

  /** The first loop of the conversion: 10 to the power of the starting place. */
  method FirstWeight(start: int) returns (mult: nat)
    ensures mult == Weight(start, 0)
  {
    var place := CRemainder(start, DIGITS_PER_WORD);
    mult := 1;
    var i := 0;
    while i < place
      invariant 0 <= i && i <= (if place < 0 then 0 else place)
      invariant mult == Pow(10, i)
    {
      SmallPower(i);
      mult := U32(mult * 10);
      i := i + 1;
    }
    assert i == if start < 0 then 0 else start % 8;
  }

  /** The outcome of depositing digits, and the words if it succeeds. */
  ghost predicate Deposited(digits: string, start: int, words: seq<int>, outcome: Outcome) {
    && (outcome == Stored <==> AllDigits(digits) && LandsInside(digits, start, |words|))
    && (outcome == Stored ==> words == Deposit(digits, start, |words|))
    && (outcome == BadDigit ==> !AllDigits(digits))
    && (outcome == OutsideWords ==> !LandsInside(digits, start, |words|))
    && outcome != BadExponent
  }

  /** The last loop of the conversion: each digit, from the right, is added to its word. */
  method DepositDigits(x: DecimalFixedPoint, digits: string, start: int) returns (outcome: Outcome)
    requires x.data.Length == x.whole + x.fraction && forall k :: 0 <= k < x.data.Length ==> x.data[k] == 0
    modifies x.data
    ensures Deposited(digits, start, x.data[..], outcome)
  {
    var mult := FirstWeight(start);
    var i := |digits| - 1;
    assert digits[i + 1..] == "" && x.data[..] == Deposit("", start, x.data.Length);
    while i >= 0
      invariant -1 <= i < |digits|
      invariant AllDigits(digits[i + 1..]) && LandsInside(digits[i + 1..], start, x.data.Length)
      invariant x.data[..] == Deposit(digits[i + 1..], start, x.data.Length)
      invariant mult == Weight(start, |digits| - 1 - i)
    {
      var t := |digits| - 1 - i;
      var word := CQuotient(start + t, DIGITS_PER_WORD);
      assert word == WordOf(start, t);
      if !IsDigit(digits[i]) {
        return BadDigit;
      }
      if !(0 <= word < x.data.Length) {
        return OutsideWords;
      }
      var rest := digits[i + 1..];
      ghost var before := x.data[..];
      assert digits[i..][1..] == rest && digits[i..] == [digits[i]] + rest;
      x.data[word] := U32(x.data[word] + U32(CharDigit(digits[i]) * mult));
      assert x.data[..] == before[word := U32(before[word] + U32(CharDigit(digits[i]) * mult))];
      WeightStep(start, t);
      mult := U32(mult * 10);
      if mult == RADIX {
        mult := 1;
      }
      i := i - 1;
    }
    assert digits[0..] == digits;
    return Stored;
  }

  /** What from_string leaves in a number of so many fraction words for a numeral. */
  ghost predicate Reads(l: Literal, fraction: nat, words: seq<int>, negative: bool, outcome: Outcome) {
    && Deposited(l.digits, Start(l, fraction), words, outcome) && negative == l.negative
    && (outcome == Stored ==> Leaves(words, l.digits, Start(l, fraction)))
  }

  /** Sets all words to 0. */
  method Clear(x: DecimalFixedPoint)
    requires x.data.Length == x.whole + x.fraction
    modifies x.data
    ensures forall k :: 0 <= k < x.data.Length ==> x.data[k] == 0
  {
    for i := 0 to x.whole + x.fraction
      modifies x.data
      invariant forall k :: 0 <= k < i ==> x.data[k] == 0
    {
      x.data[i] := 0;
    }
  }

  /** The conversion of a numeral into cleared words: its sign, and its digits. */
  method FromLiteral(x: DecimalFixedPoint, l: Literal) returns (outcome: Outcome)
    requires x.data.Length == x.whole + x.fraction && forall k :: 0 <= k < x.data.Length ==> x.data[k] == 0
    modifies x`negative, x.data
    ensures Reads(l, x.fraction, x.data[..], x.negative, outcome)
  {
    x.negative := l.negative;
    var start := x.fraction * DIGITS_PER_WORD - l.places + l.exponent;
    outcome := DepositDigits(x, l.digits, start);
    if outcome == Stored {
      DepositLeaves(l.digits, start, x.data.Length);
    }
  }

  /**
   * from_string: x takes the sign and the deposited digits of the text. If the last digit is
   * at or above the last place, x is the number of the text; otherwise x may not even be valid.
   */
  method FromString(x: DecimalFixedPoint, text: string) returns (outcome: Outcome)
    requires x.data.Length == x.whole + x.fraction
    modifies x`negative, x.data
    ensures match Parse(text)
            case None => outcome == BadExponent && forall k :: 0 <= k < x.data.Length ==> x.data[k] == 0
            case Some(l) =>
              && Reads(l, x.fraction, x.data[..], x.negative, outcome)
              && (outcome == Stored ==>
                    AllDigits(l.digits) && (x.Valid() <==> StaysBelowRadix(l.digits, Start(l, x.fraction))))
              && (outcome == Stored && Start(l, x.fraction) >= 0 ==>
                    x.Valid() && x.Mag() == Number(l.digits) * Pow(10, Start(l, x.fraction)))
  {
    Clear(x);
    var literal := ReadParts(text);
    match literal
    case None => return BadExponent;
    case Some(l) => outcome := FromLiteral(x, l);
  }

  /** The loop that finds the decimal point. */
  method LastPoint(init: string) returns (dp: nat)
    ensures dp == if LastOf(init, '.', '.') >= 0 then LastOf(init, '.', '.') else |init|
  {
    dp := |init|;
    for i := 0 to |init|
      invariant dp == if LastBefore(init, i, '.', '.') >= 0 then LastBefore(init, i, '.', '.') else |init|
    {
      if init[i] == '.' {
        dp := i;
      }
    }
  }

  /** The scanning part of from_string: sign, exponent, decimal point. */
  method ReadParts(text: string) returns (l: Option<Literal>)
    ensures l == Parse(text)
  {
    var negative, init := false, text;
    if |init| > 0 && init[0] == '-' {
      negative := true;
      init := init[1..];
    }
    var exponentPos, exponent := LastOf(init, 'e', 'E'), 0;
    if exponentPos >= 0 {
      match ParseExponent(init[exponentPos + 1..])
      case None => return None;
      case Some(e) => exponent := e;
      init := init[..exponentPos];
    }
    assert Mantissa(text) == (init, Some(exponent));
    var literal := RemovePoint(negative, init, exponent);
    return Some(literal);
  }

  method RemovePoint(negative: bool, m: string, exponent: int) returns (l: Literal)
    ensures l == Assemble(negative, m, exponent)
  {
    var dp := LastPoint(m);
    var digits := m;
    if dp < |m| {
      digits := m[..dp] + m[dp + 1..];
    }
    return Literal(negative, digits, |digits| - dp, exponent);
  }
}
