/** Little-endian positional notation: the value of a sequence of digits in a given base. */
module Positional {

  function Pow(b: nat, e: nat): (p: nat)
    ensures b > 0 ==> p > 0
  {
    if e == 0 then 1 else b * Pow(b, e - 1)
  }

  predicate Digits(b: nat, s: seq<int>) {
    forall i :: 0 <= i < |s| ==> 0 <= s[i] < b
  }

  /** The number whose least significant digit is s[0]. */
  ghost function Val(b: nat, s: seq<int>): int {
    if |s| == 0 then 0 else Val(b, s[..|s| - 1]) + s[|s| - 1] * Pow(b, |s| - 1)
  }

  lemma {:induction false} PowAdd(b: nat, x: nat, y: nat)
    ensures Pow(b, x + y) == Pow(b, x) * Pow(b, y)
  {
    if x == 0 {
    } else {
      PowAdd(b, x - 1, y);
      assert Pow(b, x + y) == b * (Pow(b, x - 1) * Pow(b, y)) == (b * Pow(b, x - 1)) * Pow(b, y);
    }
  }

  lemma {:induction false} PowMono(b: nat, x: nat, y: nat)
    requires b > 0 && x <= y
    ensures Pow(b, x) <= Pow(b, y)
  {
    if x == y {
    } else {
      PowMono(b, x, y - 1);
      assert Pow(b, y) == b * Pow(b, y - 1) >= Pow(b, y - 1);
    }
  }

  lemma {:induction false} PowPow(b: nat, x: nat, y: nat)
    ensures Pow(Pow(b, x), y) == Pow(b, x * y)
  {
    if y == 0 {
    } else {
      PowPow(b, x, y - 1);
      PowAdd(b, x, x * (y - 1));
      assert x + x * (y - 1) == x * y;
    }
  }

  lemma ValTake(b: nat, s: seq<int>, i: nat)
    requires i < |s|
    ensures Val(b, s[..i + 1]) == Val(b, s[..i]) + s[i] * Pow(b, i)
  {
    assert s[..i + 1][..i] == s[..i];
  }

  /** A digit string of length n denotes a number below b^n. */
  lemma {:induction false} ValBound(b: nat, s: seq<int>)
    requires b > 0 && Digits(b, s)
    ensures 0 <= Val(b, s) < Pow(b, |s|)
  {
    if |s| == 0 {
    } else {
      var n := |s| - 1;
      ValBound(b, s[..n]);
      var p := Pow(b, n);
      assert 0 <= s[n] * p <= (b - 1) * p by {
        MulMono(s[n], b - 1, p);
        MulMono(0, s[n], p);
      }
      assert (b - 1) * p + p == b * p;
    }
  }

  lemma MulMono(x: int, y: int, c: int)
    requires x <= y && 0 <= c
    ensures x * c <= y * c
  {
  }

  lemma {:induction false} ValSplit(b: nat, s: seq<int>, k: nat)
    requires k <= |s|
    ensures Val(b, s) == Val(b, s[..k]) + Pow(b, k) * Val(b, s[k..])
    decreases |s|
  {
    if |s| == k {
      assert s[..k] == s && s[k..] == [];
    } else {
      var n := |s| - 1;
      var s' := s[..n];
      ValSplit(b, s', k);
      assert s'[..k] == s[..k];
      assert Val(b, s[k..]) == Val(b, s'[k..]) + s[n] * Pow(b, n - k) by {
        assert s'[k..] == s[k..][..n - k];
      }
      PowAdd(b, k, n - k);
      Regroup(Pow(b, k), Val(b, s'[k..]), s[n], Pow(b, n - k));
    }
  }

  lemma Regroup(p: int, v: int, d: int, q: int)
    ensures p * (v + d * q) == p * v + d * (p * q)
  {
    assert p * (d * q) == d * (p * q);
  }

  lemma ValConcat(b: nat, s: seq<int>, t: seq<int>)
    ensures Val(b, s + t) == Val(b, s) + Pow(b, |s|) * Val(b, t)
  {
    ValSplit(b, s + t, |s|);
    assert (s + t)[..|s|] == s && (s + t)[|s|..] == t;
  }

  lemma {:induction false} ValZeros(b: nat, s: seq<int>)
    requires forall i :: 0 <= i < |s| ==> s[i] == 0
    ensures Val(b, s) == 0
  {
    if |s| == 0 {
    } else {
      ValZeros(b, s[..|s| - 1]);
    }
  }

  /** A larger top digit decides the comparison, whatever the lower digits are. */
  lemma ValTopLess(b: nat, s: seq<int>, t: seq<int>, k: nat)
    requires b > 0 && Digits(b, s) && Digits(b, t)
    requires |s| == |t| && k < |s|
    requires s[k] < t[k] && forall i :: k < i < |s| ==> s[i] == t[i]
    ensures Val(b, s) < Val(b, t)
  {
    var p := Pow(b, k);
    var x, y := Val(b, s[..k]), Val(b, t[..k]);
    assert 0 <= x < p && 0 <= y < p by {
      ValBound(b, s[..k]);
      ValBound(b, t[..k]);
    }
    ValTake(b, s, k);
    ValTake(b, t, k);
    TopDigit(x, s[k], y, t[k], p);
    assert s[k + 1..] == t[k + 1..];
    ValSplit(b, s, k + 1);
    ValSplit(b, t, k + 1);
  }

  lemma TopDigit(x: int, d: int, y: int, e: int, p: int)
    requires 0 <= x < p && 0 <= y < p && d < e
    ensures x + d * p < y + e * p
  {
    MulMono(d + 1, e, p);
  }

  /** Equal-length digit strings with equal values are equal. */
  lemma {:induction false} ValInjective(b: nat, s: seq<int>, t: seq<int>)
    requires b > 0 && Digits(b, s) && Digits(b, t) && |s| == |t|
    requires Val(b, s) == Val(b, t)
    ensures s == t
  {
    if |s| == 0 {
    } else {
      var n := |s| - 1;
      if s[n] < t[n] {
        ValTopLess(b, s, t, n);
      } else if t[n] < s[n] {
        ValTopLess(b, t, s, n);
      }
      ValInjective(b, s[..n], t[..n]);
      assert s == s[..n] + [s[n]] && t == t[..n] + [t[n]];
    }
  }

  /** Division is determined by a bounded remainder. */
  lemma DivUnique(x: int, d: int, q: int, r: int)
    requires d > 0 && x == q * d + r && 0 <= r < d
    ensures x / d == q && x % d == r
  {
    var q', r' := x / d, x % d;
    assert x == d * q' + r';
    assert (q - q') * d == r' - r && (q' - q) * d == r - r';
    if q > q' {
      MulMono(1, q - q', d);
    } else if q < q' {
      MulMono(1, q' - q, d);
    }
  }
}
