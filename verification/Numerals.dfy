/** Decimal numerals as character strings, most significant digit first. */
module Numerals {
  import opened Positional

  predicate IsDigit(c: char) {
    '0' <= c <= '9'
  }

  function DigitChar(d: int): (c: char)
    requires 0 <= d < 10
    ensures IsDigit(c) && CharDigit(c) == d
  {
    ('0' as int + d) as char
  }

  function CharDigit(c: char): int {
    c as int - '0' as int
  }

  predicate AllDigits(s: string) {
    forall i :: 0 <= i < |s| ==> IsDigit(s[i])
  }

  function Number(s: string): int {
    if |s| == 0 then 0 else 10 * Number(s[..|s| - 1]) + CharDigit(s[|s| - 1])
  }

  /** std::to_string of an unsigned number. */
  function ToDecimal(n: nat): (s: string)
    ensures |s| > 0 && AllDigits(s)
  {
    if n < 10 then [DigitChar(n)] else ToDecimal(n / 10) + [DigitChar(n % 10)]
  }

  lemma {:induction false} NumberOfToDecimal(n: nat)
    ensures Number(ToDecimal(n)) == n
  {
    if n < 10 {
      assert [DigitChar(n)][..0] == [];
    } else {
      NumberOfToDecimal(n / 10);
      assert ToDecimal(n)[..|ToDecimal(n)| - 1] == ToDecimal(n / 10);
    }
  }

  lemma {:induction false} ToDecimalInjective(m: nat, n: nat)
    requires ToDecimal(m) == ToDecimal(n)
    ensures m == n
  {
    NumberOfToDecimal(m);
    NumberOfToDecimal(n);
  }

  /** Larger numbers never have shorter numerals. */
  lemma {:induction false} ToDecimalMonotone(m: nat, n: nat)
    requires m <= n
    ensures |ToDecimal(m)| <= |ToDecimal(n)|
  {
    if n < 10 || m < 10 {
    } else {
      ToDecimalMonotone(m / 10, n / 10);
    }
  }

  lemma NumberSnoc(s: string, c: char)
    ensures Number(s + [c]) == 10 * Number(s) + CharDigit(c)
  {
    assert (s + [c])[..|s|] == s;
  }

  lemma {:induction false} NumberConcat(s: string, t: string)
    ensures Number(s + t) == Number(s) * Pow(10, |t|) + Number(t)
  {
    if |t| == 0 {
      assert s + t == s;
    } else {
      var k := |t| - 1;
      NumberConcat(s, t[..k]);
      assert s + t == (s + t[..k]) + [t[k]];
      NumberSnoc(s + t[..k], t[k]);
      var a, p := Number(s), Pow(10, k);
      assert a * (10 * p) == 10 * (a * p);
    }
  }

  lemma {:induction false} NumberBound(s: string)
    requires AllDigits(s)
    ensures 0 <= Number(s) < Pow(10, |s|)
  {
    if |s| > 0 {
      NumberBound(s[..|s| - 1]);
    }
  }

  lemma {:induction false} NumberOfZeros(s: string)
    requires forall i :: 0 <= i < |s| ==> s[i] == '0'
    ensures Number(s) == 0
  {
    if |s| > 0 {
      NumberOfZeros(s[..|s| - 1]);
    }
  }

  /** The digits d[hi - 1], ..., d[lo] of a little-endian digit sequence, as a numeral. */
  function Run(d: seq<int>, hi: int, lo: int): (s: string)
    requires 0 <= lo && hi <= |d| && Digits(10, d)
    ensures |s| == (if lo < hi then hi - lo else 0) && AllDigits(s)
    decreases hi - lo
  {
    if hi <= lo then "" else Run(d, hi, lo + 1) + [DigitChar(d[lo])]
  }

  lemma LowestDigit(d: seq<int>, hi: int, lo: int)
    requires 0 <= lo < hi <= |d|
    ensures Val(10, d[lo..hi]) == d[lo] + 10 * Val(10, d[lo + 1..hi])
  {
    ValSplit(10, d[lo..hi], 1);
    assert d[lo..hi][1..] == d[lo + 1..hi] && d[lo..hi][..1] == [d[lo]];
    ValTake(10, [d[lo]], 0);
    assert [d[lo]][..1] == [d[lo]] && Pow(10, 1) == 10;
  }

  lemma RunStep(d: seq<int>, hi: int, lo: int, rest: string)
    requires 0 <= lo < hi <= |d| && Digits(10, d) && rest == Run(d, hi, lo + 1)
    ensures Run(d, hi, lo) == rest + [DigitChar(d[lo])]
  {
  }

  lemma {:induction false} NumberOfRun(d: seq<int>, hi: int, lo: int)
    requires 0 <= lo <= hi <= |d| && Digits(10, d)
    ensures Number(Run(d, hi, lo)) == Val(10, d[lo..hi])
    decreases hi - lo
  {
    if lo < hi {
      var rest := Run(d, hi, lo + 1);
      assert Number(rest) == Val(10, d[lo + 1..hi]) by { NumberOfRun(d, hi, lo + 1); }
      RunStep(d, hi, lo, rest);
      NumberSnoc(rest, DigitChar(d[lo]));
      LowestDigit(d, hi, lo);
    } else {
      assert Run(d, hi, lo) == "";
    }
  }

  lemma RunJoin(d: seq<int>, hi: int, mid: int, lo: int)
    requires 0 <= lo <= mid <= hi <= |d| && Digits(10, d)
    ensures Run(d, hi, lo) == Run(d, hi, mid) + Run(d, mid, lo)
    decreases mid - lo
  {
    if lo < mid {
      RunJoin(d, hi, mid, lo + 1);
    }
  }
}
