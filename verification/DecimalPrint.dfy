/** Printing a decimal fixed-point number (decimal_fixedpoint.h, toString). */
module DecimalPrint {
  import opened Decimal
  import opened DecimalDeposit
  import opened DecimalRead
  import opened DecimalText
  import opened Numerals
  import opened Positional
  import opened Rounding

  // ------------------------------------------------ the digit buffer

  lemma DigitStep(low: seq<int>, value: nat)
    ensures Val(10, low) + Pow(10, |low|) * value
            == Val(10, low + [value % 10]) + Pow(10, |low| + 1) * (value / 10)
  {
    assert (low + [value % 10])[..|low|] == low;
    Peel(Pow(10, |low|), value / 10, value % 10, value);
  }

  lemma Peel(p: int, q: int, r: int, value: int)
    requires value == 10 * q + r
    ensures p * value == r * p + (10 * p) * q
  {
    assert p * (10 * q + r) == r * p + (10 * p) * q;
  }

  /** The first digits of one word, on top of those of the words below it. */
  ghost predicate Filled(d: seq<int>, words: seq<int>, i: nat, j: nat, value: nat) {
    && i < |words| && |d| == DIGITS_PER_WORD * i + j && Digits(10, d)
    && V(words[..i + 1]) == Val(10, d) + Pow(10, |d|) * value
  }

  lemma WordDone(d: seq<int>, words: seq<int>, i: nat, value: nat)
    requires Digits(RADIX, words) && Filled(d, words, i, DIGITS_PER_WORD, value)
    ensures V(words[..i + 1]) == Val(10, d)
  {
    assert Pow(10, |d|) == P(i + 1) by {
      WordPower();
      PowPow(10, 8, i + 1);
    }
    ValBound(RADIX, words[..i + 1]);
    ValBound(10, d);
    NothingLeft(V(words[..i + 1]), Val(10, d), Pow(10, |d|), value);
  }

  lemma NothingLeft(v: int, low: int, p: int, value: nat)
    requires v == low + p * value && 0 <= low && 0 < p && v < p
    ensures v == low
  {
    if value > 0 { MulMono(1, value, p); }
  }

  lemma WordStart(d: seq<int>, words: seq<int>, i: nat)
    requires i < |words| && |d| == DIGITS_PER_WORD * i && Digits(10, d)
    requires V(words[..i]) == Val(10, d) && words[i] >= 0
    ensures Filled(d, words, i, 0, words[i])
  {
    ValTake(RADIX, words, i);
    WordPower();
    PowPow(10, 8, i);
  }

  /** The first loops of toString: the digits of every word, lowest first. */
  method FillDigits(x: DecimalFixedPoint) returns (digits: array<int>)
    requires x.Valid()
    ensures fresh(digits) && Digits(10, digits[..]) && Val(10, digits[..]) == x.Mag()
    ensures digits.Length == DIGITS_PER_WORD * (x.whole + x.fraction)
  {
    var n := x.whole + x.fraction;
    digits := new int[DIGITS_PER_WORD * n];
    ghost var words := x.data[..];
    ghost var d: seq<int> := [];
    for i := 0 to n
      invariant |d| == DIGITS_PER_WORD * i && Digits(10, d) && digits[..|d|] == d
      invariant V(words[..i]) == Val(10, d)
    {
      var value := x.data[i];
      WordStart(d, words, i);
      for j := 0 to DIGITS_PER_WORD
        invariant value >= 0 && Filled(d, words, i, j, value) && digits[..|d|] == d
      {
        DigitStep(d, value);
        digits[i * DIGITS_PER_WORD + j] := value % 10;
        d := d + [value % 10];
        value := value / 10;
      }
      WordDone(d, words, i, value);
    }
    assert words[..n] == words && digits[..] == d;
  }

  /** The search for the leading nonzero digit. */
  method FirstNonZero(digits: array<int>) returns (top: int)
    ensures top == Top(digits[..])
  {
    top := -1;
    var i := digits.Length - 1;
    while i >= 0
      invariant -1 <= i < digits.Length
      invariant forall k :: i < k < digits.Length ==> digits[k] == 0
    {
      if digits[i] != 0 {
        TopIs(digits[..], i);
        return i;
      }
      i := i - 1;
    }
    TopIs(digits[..], -1);
  }

  // ------------------------------------------------ rounding the buffer

  /** Whether the digits from `cut` up are rounded up. */
  method RoundsUp(digits: array<int>, position: nat) returns (round: bool)
    requires position + 1 < digits.Length && Digits(10, digits[..])
    ensures NearestEven(Val(10, digits[..]), Pow(10, position + 1))
            == Val(10, digits[..][position + 1..]) + (if round then 1 else 0)
  {
    ghost var d := digits[..];
    CutDigits(10, d, position + 1);
    HalfDigit(10, d, position + 1);
    ParityOfLowDigit(10, d[position + 1..]);
    round := false;
    if digits[position] > 5 {
      round := true;
    } else if digits[position] < 5 {
      round := false;
    } else {
      var i := position - 1;
      while i >= 0 && !round
        invariant -1 <= i < position
        invariant round <==> exists j :: i < j < position && d[j] != 0
      {
        if digits[i] != 0 {
          round := true;
        }
        i := i - 1;
      }
      if !round && digits[position + 1] % 2 == 1 {
        round := true;
      }
    }
  }

  /** The digits below i have been incremented, with `carry` still to be added at i. */
  ghost predicate Carried(d: seq<int>, was: seq<int>, from: nat, i: nat, carry: nat) {
    && |d| == |was| && from <= i <= |d| && carry <= 1 && Digits(10, d)
    && d[..from] == was[..from]
    && (forall k :: i <= k < |d| ==> d[k] == was[k])
    && Val(10, d[from..i]) + carry * Pow(10, i - from) == Val(10, was[from..i]) + 1
  }

  lemma CarriedStep(d: seq<int>, was: seq<int>, from: nat, i: nat, carry: nat)
    requires Carried(d, was, from, i, carry) && i < |d|
    ensures var s := d[i] + carry; Carried(d[i := s % 10], was, from, i + 1, s / 10)
  {
    var s := d[i] + carry;
    var next := d[i := s % 10];
    assert next[from..i + 1] == d[from..i] + [s % 10] && was[from..i + 1] == was[from..i] + [d[i]];
    assert (d[from..i] + [s % 10])[..i - from] == d[from..i];
    assert (was[from..i] + [d[i]])[..i - from] == was[from..i];
    CarryDigit(Val(10, d[from..i]), carry, d[i], s / 10, s % 10, Pow(10, i - from));
  }

  lemma CarryDigit(low: int, carry: int, d: int, q: int, r: int, p: int)
    requires d + carry == 10 * q + r
    ensures low + r * p + q * (10 * p) == low + carry * p + d * p
  {
    assert r * p + q * (10 * p) == (10 * q + r) * p;
  }

  /** Adds one to the digits from `from` up; a carry out of the top is dropped. */
  method Increment(digits: array<int>, from: nat)
    requires from <= digits.Length && Digits(10, digits[..])
    modifies digits
    ensures Digits(10, digits[..]) && digits[..from] == old(digits[..from])
    ensures Val(10, digits[from..]) == (old(Val(10, digits[from..])) + 1) % Pow(10, digits.Length - from)
  {
    ghost var was := digits[..];
    var carry: nat := 1;
    assert was[from..from] == [];
    for i := from to digits.Length
      invariant Carried(digits[..], was, from, i, carry)
    {
      CarriedStep(digits[..], was, from, i, carry);
      ghost var before, s := digits[..], digits[i] + carry;
      digits[i] := digits[i] + carry;
      carry := digits[i] / 10;
      digits[i] := digits[i] % 10;
      assert digits[..] == before[i := s % 10];
    }
    assert digits[..][from..digits.Length] == digits[from..] && was[from..digits.Length] == old(digits[from..]);
    assert digits[..from] == digits[..][..from] && was[..from] == old(digits[..from]);
    CarryDropped(digits[from..], old(digits[from..]), carry);
  }

  lemma CarryDropped(high: seq<int>, was: seq<int>, carry: nat)
    requires Digits(10, high) && Val(10, high) + carry * Pow(10, |high|) == Val(10, was) + 1
    ensures Val(10, high) == (Val(10, was) + 1) % Pow(10, |high|)
  {
    ValBound(10, high);
    DivUnique(Val(10, was) + 1, Pow(10, |high|), carry, Val(10, high));
  }

  /** Zeroed low digits below rounded high ones are the digits of the kept magnitude. */
  lemma RoundedBuffer(was: seq<int>, d: seq<int>, precision: nat, position: nat)
    requires Digits(10, was) && Digits(10, d) && |d| == |was| && position == Top(was) - precision
    requires position + 1 < |d|
    requires forall k :: 0 <= k <= position ==> d[k] == 0
    requires var u, high := Pow(10, position + 1), d[position + 1..];
             Val(10, high) == NearestEven(Val(10, was), u) % Pow(10, |high|)
    ensures Val(10, was) >= 0 && d == DigitsOf(Kept(Val(10, was), precision, |was|), |was|)
  {
    DigitsOfUnique(was);
    var v := Val(10, was);
    RoundedDigits(v, d, position + 1, Kept(v, precision, |was|));
  }

  lemma RoundedDigits(v: nat, d: seq<int>, cut: nat, kept: nat)
    requires Digits(10, d) && 0 < cut < |d|
    requires forall k :: 0 <= k < cut ==> d[k] == 0
    requires kept == Pow(10, cut) * (NearestEven(v, Pow(10, cut)) % Pow(10, |d| - cut))
    requires Val(10, d[cut..]) == NearestEven(v, Pow(10, cut)) % Pow(10, |d| - cut)
    ensures d == DigitsOf(kept, |d|)
  {
    var high := d[cut..];
    DigitsOfUnique(high);
    ValBound(10, high);
    DigitsOfShift(Val(10, high), cut, |high|);
    assert d == seq(cut, _ => 0) + high;
  }

  /** Rounds the digits above a position up or down; what is below it is left alone. */
  method RoundAbove(digits: array<int>, position: nat)
    requires position + 1 < digits.Length && Digits(10, digits[..])
    modifies digits
    ensures Digits(10, digits[..])
    ensures Val(10, digits[position + 1..])
            == NearestEven(old(Val(10, digits[..])), Pow(10, position + 1)) % Pow(10, digits.Length - (position + 1))
  {
    assert digits[..][position + 1..] == digits[position + 1..];
    var round := RoundsUp(digits, position);
    if round {
      Increment(digits, position + 1);
    } else {
      ValBound(10, digits[position + 1..]);
      WrapsIffTooBig(Val(10, digits[position + 1..]), Pow(10, digits.Length - (position + 1)));
    }
  }

  method ClearBelow(digits: array<int>, position: nat)
    requires position < digits.Length && Digits(10, digits[..])
    modifies digits
    ensures Digits(10, digits[..]) && forall k :: 0 <= k <= position ==> digits[k] == 0
    ensures digits[position + 1..] == old(digits[position + 1..])
  {
    for i := 0 to position + 1
      invariant forall k :: 0 <= k < i ==> digits[k] == 0
      invariant forall k :: i <= k < digits.Length ==> digits[k] == old(digits[k])
    {
      digits[i] := 0;
    }
    assert forall k :: 0 <= k < digits.Length ==> digits[k] == 0 || digits[k] == old(digits[..])[k];
  }

  /** The rounding block of toString. */
  method RoundDigits(digits: array<int>, top: nat, precision: nat)
    requires Digits(10, digits[..]) && 0 < precision && top == Top(digits[..])
    modifies digits
    ensures var v := old(Val(10, digits[..]));
            v >= 0 && digits[..] == DigitsOf(Kept(v, precision, digits.Length), digits.Length)
    ensures Digits(10, digits[..])
  {
    ghost var was := digits[..];
    DigitsOfUnique(was);
    var position := top - precision;
    if position >= 0 {
      RoundAbove(digits, position);
      ClearBelow(digits, position);
      assert digits[..][position + 1..] == digits[position + 1..];
      RoundedBuffer(was, digits[..], precision, position);
    }
  }

  // ------------------------------------------------ the text

  /** The loop that prints digits hi - 1 down to lo, holding zeros back until another digit follows. */
  method EmitTrimmed(digits: array<int>, hi: int, lo: int, stream: string) returns (out: string)
    requires 0 <= lo && 0 <= hi <= digits.Length && Digits(10, digits[..])
    ensures out == stream + Trimmed(digits[..], hi, lo)
  {
    ghost var d := digits[..];
    out := stream;
    var zeros := 0;
    var i := hi - 1;
    assert Run(d, hi, hi) == "" && stream + "" == stream;
    while i >= lo
      invariant i < hi && (hi <= lo ==> i == hi - 1) && (lo < hi ==> lo - 1 <= i)
      invariant zeros == Lowest(d, hi, i + 1) - (i + 1)
      invariant out == stream + Run(d, hi, Lowest(d, hi, i + 1))
    {
      if digits[i] == 0 {
        zeros := zeros + 1;
      } else {
        ghost var k := Lowest(d, hi, i + 1);
        for j := 0 to zeros
          invariant out == stream + Run(d, hi, k - j)
        {
          assert d[k - j - 1] == 0;
          out := out + "0";
        }
        out := out + [DigitChar(digits[i])];
        zeros := 0;
      }
      i := i - 1;
    }
  }

  method EmitRun(digits: array<int>, hi: int, lo: int, stream: string) returns (out: string)
    requires 0 <= lo <= hi <= digits.Length && Digits(10, digits[..])
    ensures out == stream + Run(digits[..], hi, lo)
  {
    out := stream;
    var i := hi - 1;
    while i >= lo
      invariant lo - 1 <= i < hi
      invariant out == stream + Run(digits[..], hi, i + 1)
    {
      out := out + [DigitChar(digits[i])];
      i := i - 1;
    }
  }

  method EmitZeros(n: int, stream: string) returns (out: string)
    ensures out == stream + Zeros(n)
  {
    out := stream;
    var i := 0;
    while i < n
      invariant 0 <= i && (n >= 0 ==> i <= n) && (n < 0 ==> i == 0)
      invariant out == stream + Zeros(i)
    {
      out := out + "0";
      i := i + 1;
    }
  }

  lemma StripSigned(sign: string, s: string)
    requires |s| > 0
    ensures StripPoint(sign + s) == sign + StripPoint(s)
  {
    assert (sign + s)[|sign + s| - 1] == s[|s| - 1];
    assert (sign + s)[..|sign + s| - 1] == sign + s[..|s| - 1];
  }

  method DropPoint(s: string) returns (t: string)
    requires |s| > 0
    ensures t == StripPoint(s)
  {
    t := s;
    if t[|t| - 1] == '.' {
      t := t[..|t| - 1];
    }
  }

  /** One digit, the point, the other digits without trailing zeros, and the exponent. */
  method EmitExponent(digits: array<int>, top: nat, last: nat, exponentSign: string, exponent: nat, sign: string)
    returns (text: string)
    requires Digits(10, digits[..]) && top < digits.Length
    ensures text == sign + ExponentForm(digits[..], top, last, exponentSign, exponent)
  {
    var start := [DigitChar(digits[top])] + ".";
    text := EmitTrimmed(digits, top, last, sign + start);
    ghost var s := start + Trimmed(digits[..], top, last);
    assert text == sign + s;
    StripSigned(sign, s);
    text := DropPoint(text);
    Associate(sign, StripPoint(s), "e" + exponentSign, Pad2(exponent));
    text := text + ("e" + exponentSign) + Pad2(exponent);
  }

  lemma Associate(a: string, b: string, c: string, d: string)
    ensures (a + b) + c + d == a + (b + c + d)
  {
  }

  /** All whole digits, the point, the fraction digits without trailing zeros. */
  method EmitPointed(digits: array<int>, top: nat, point: nat, last: nat, sign: string) returns (text: string)
    requires Digits(10, digits[..]) && point <= top < digits.Length
    ensures text == sign + WholeForm(digits[..], top, last, point)
  {
    text := EmitRun(digits, top + 1, point, sign);
    text := text + ".";
    ghost var start := Run(digits[..], top + 1, point) + ".";
    assert text == sign + start;
    text := EmitTrimmed(digits, point, last, text);
    ghost var s := start + Trimmed(digits[..], point, last);
    assert text == sign + s;
    StripSigned(sign, s);
    text := DropPoint(text);
  }

  /** A zero, the point, leading zeros, the digits without trailing zeros. */
  method EmitSmall(digits: array<int>, top: nat, point: nat, last: nat, sign: string) returns (text: string)
    requires Digits(10, digits[..]) && top < digits.Length
    ensures text == sign + SmallForm(digits[..], top, last, point)
  {
    text := EmitZeros(point - 1 - top, sign + "0.");
    text := EmitTrimmed(digits, top + 1, last, text);
  }

  /** The choice of notation. */
  method EmitNotation(digits: array<int>, top: nat, precision: nat, fraction: nat, sign: string) returns (text: string)
    requires Digits(10, digits[..]) && top < digits.Length
    ensures text == sign + Notation(digits[..], top, precision, fraction)
  {
    var point := DIGITS_PER_WORD * fraction;
    if top >= point {
      text := EmitLarge(digits, top, precision, fraction, sign);
    } else {
      text := EmitFraction(digits, top, precision, fraction, sign);
    }
  }

  method EmitLarge(digits: array<int>, top: nat, precision: nat, fraction: nat, sign: string) returns (text: string)
    requires Digits(10, digits[..]) && DIGITS_PER_WORD * fraction <= top < digits.Length
    ensures text == sign + Notation(digits[..], top, precision, fraction)
  {
    var point := DIGITS_PER_WORD * fraction;
    var last := if top - precision < 0 then 0 else top - precision;
    if top >= point + precision {
      text := EmitExponent(digits, top, last, "+", top - point, sign);
    } else {
      text := EmitPointed(digits, top, point, last, sign);
    }
  }

  method EmitFraction(digits: array<int>, top: nat, precision: nat, fraction: nat, sign: string) returns (text: string)
    requires Digits(10, digits[..]) && top < digits.Length && top < DIGITS_PER_WORD * fraction
    ensures text == sign + Notation(digits[..], top, precision, fraction)
  {
    var point := DIGITS_PER_WORD * fraction;
    var last := if top - precision < 0 then 0 else top - precision;
    if top > point - 5 {
      text := EmitSmall(digits, top, point, last, sign);
    } else {
      text := EmitExponent(digits, top, last, "-", point - top, sign);
    }
  }

  /** toString: the printed form of the sign and the magnitude. */
  method ToString(x: DecimalFixedPoint, precision: int) returns (text: string)
    requires x.Valid()
    ensures x.Mag() >= 0 && text == Text(x.negative, x.Mag(), precision, x.whole, x.fraction)
  {
    var numDigits := DIGITS_PER_WORD * (x.whole + x.fraction);
    var p := precision;
    if p <= 0 || p > numDigits {
      p := numDigits;
    }
    var digits := FillDigits(x);
    DigitsOfUnique(digits[..]);
    ValBound(10, digits[..]);
    TopValue(x.Mag(), numDigits);
    var top := FirstNonZero(digits);
    if top == -1 {
      return "0";
    }
    RoundDigits(digits, top, p);
    var sign := if x.negative then "-" else "";
    top := FirstNonZero(digits);
    if top == -1 {
      text := sign + ("1" + ("e" + "+") + ToDecimal(DIGITS_PER_WORD * x.whole));
    } else {
      text := EmitNotation(digits, top, p, x.fraction, sign);
    }
    assert text == sign + Body(digits[..], p, x.whole, x.fraction);
    SignedJoin(x.negative, Body(digits[..], p, x.whole, x.fraction));
  }

  lemma SignedJoin(negative: bool, s: string)
    ensures (if negative then "-" else "") + s == Signed(negative, s)
  {
  }
}
