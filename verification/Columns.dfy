/**
 * Schoolbook multiplication of word sequences by columns: column c of a product gathers
 * the terms a[j] * b[c - j]. The columns below k determine the product modulo Radix^k.
 */
module Columns {
  import opened Positional

  function At(s: seq<int>, j: int): int {
    if 0 <= j < |s| then s[j] else 0
  }

  /** The terms of column c with lo <= j < hi. */
  ghost function Terms(a: seq<int>, b: seq<int>, c: int, lo: int, hi: int): int
    decreases hi - lo
  {
    if hi <= lo then 0 else Terms(a, b, c, lo, hi - 1) + At(a, hi - 1) * At(b, c - (hi - 1))
  }

  ghost function Column(a: seq<int>, b: seq<int>, c: nat): int {
    Terms(a, b, c, 0, c + 1)
  }

  /** The columns below k, each at its weight. */
  ghost function Cols(r: nat, a: seq<int>, b: seq<int>, k: nat): int {
    if k == 0 then 0 else Cols(r, a, b, k - 1) + Column(a, b, k - 1) * Pow(r, k - 1)
  }

  /** The carry that enters column c when every column is normalised. */
  ghost function CarryInto(r: nat, a: seq<int>, b: seq<int>, c: nat): int
    requires r > 0
  {
    if c == 0 then 0 else (CarryInto(r, a, b, c - 1) + Column(a, b, c - 1)) / r
  }

  lemma {:induction false} TermsSplit(a: seq<int>, b: seq<int>, c: int, lo: int, mid: int, hi: int)
    requires lo <= mid <= hi
    ensures Terms(a, b, c, lo, hi) == Terms(a, b, c, lo, mid) + Terms(a, b, c, mid, hi)
    decreases hi - mid
  {
    if mid == hi {
    } else {
      TermsSplit(a, b, c, lo, mid, hi - 1);
    }
  }

  lemma {:induction false} TermsZero(a: seq<int>, b: seq<int>, c: int, lo: int, hi: int)
    requires forall j :: lo <= j < hi ==> At(a, j) == 0 || At(b, c - j) == 0
    ensures Terms(a, b, c, lo, hi) == 0
    decreases hi - lo
  {
    if lo < hi {
      TermsZero(a, b, c, lo, hi - 1);
      assert At(a, hi - 1) == 0 || At(b, c - (hi - 1)) == 0;
    }
  }

  /** In the upper columns only lo <= j < |a| contribute, lo being the first index b reaches. */
  lemma UpperColumn(a: seq<int>, b: seq<int>, i: nat)
    requires |a| == |b| && i < |a|
    ensures Column(a, b, |a| + i) == Terms(a, b, |a| + i, i + 1, |a|)
  {
    var c := |a| + i;
    TermsSplit(a, b, c, 0, i + 1, c + 1);
    TermsSplit(a, b, c, i + 1, |a|, c + 1);
    TermsZero(a, b, c, 0, i + 1);
    TermsZero(a, b, c, |a|, c + 1);
  }

  lemma {:induction false} TermsBound(r: nat, a: seq<int>, b: seq<int>, c: int, lo: int, hi: int)
    requires r > 0 && Digits(r, a) && Digits(r, b) && lo <= hi
    ensures 0 <= Terms(a, b, c, lo, hi) <= (hi - lo) * ((r - 1) * (r - 1))
    decreases hi - lo
  {
    if lo < hi {
      TermsBound(r, a, b, c, lo, hi - 1);
      var x, y := At(a, hi - 1), At(b, c - (hi - 1));
      assert 0 <= x * y <= (r - 1) * (r - 1) by {
        MulMono(x, r - 1, y);
        MulMono(y, r - 1, r - 1);
        MulMono(0, x, y);
      }
      var m := (r - 1) * (r - 1);
      assert (hi - lo) * m == (hi - 1 - lo) * m + m;
    }
  }

  // ------------------------------------------- the columns add up to the product

  /** Appending a top digit d to a adds d * b, shifted, to the columns. */
  lemma {:induction false} TermsAppend(a: seq<int>, d: int, b: seq<int>, c: int, hi: int)
    requires 0 <= hi
    ensures Terms(a + [d], b, c, 0, hi)
            == Terms(a, b, c, 0, hi) + if |a| < hi then d * At(b, c - |a|) else 0
    decreases hi
  {
    if hi > 0 {
      TermsAppend(a, d, b, c, hi - 1);
    }
  }

  /** The value of the first t digits, reading zeros past the end. */
  ghost function LowVal(r: nat, b: seq<int>, t: nat): int {
    if t <= |b| then Val(r, b[..t]) else Val(r, b)
  }

  lemma LowValStep(r: nat, b: seq<int>, t: nat)
    ensures LowVal(r, b, t + 1) == LowVal(r, b, t) + At(b, t) * Pow(r, t)
  {
    if t < |b| {
      ValTake(r, b, t);
    } else {
      assert b[..|b|] == b;
    }
  }

  lemma {:induction false} ColsAppend(r: nat, a: seq<int>, d: int, b: seq<int>, k: nat)
    requires |a| <= k
    ensures Cols(r, a + [d], b, k) == Cols(r, a, b, k) + d * Pow(r, |a|) * LowVal(r, b, k - |a|)
    decreases k
  {
    var l := |a|;
    if k == l {
      ColsPrefix(r, a, d, b, k);
      assert LowVal(r, b, 0) == 0;
    } else {
      ColsAppend(r, a, d, b, k - 1);
      TermsAppend(a, d, b, k - 1, k);
      LowValStep(r, b, k - 1 - l);
      PowAdd(r, l, k - 1 - l);
      ShiftedDigit(d, Pow(r, l), LowVal(r, b, k - 1 - l), At(b, k - 1 - l), Pow(r, k - 1 - l));
      var w := Pow(r, k - 1);
      assert (Column(a, b, k - 1) + d * At(b, k - 1 - l)) * w
          == Column(a, b, k - 1) * w + d * At(b, k - 1 - l) * w;
    }
  }

  lemma ShiftedDigit(d: int, p: int, low: int, x: int, q: int)
    ensures d * p * (low + x * q) == d * p * low + d * x * (p * q)
  {
    assert d * p * (x * q) == d * x * (p * q);
  }

  lemma {:induction false} ColsPrefix(r: nat, a: seq<int>, d: int, b: seq<int>, k: nat)
    requires k <= |a|
    ensures Cols(r, a + [d], b, k) == Cols(r, a, b, k)
  {
    if k > 0 {
      ColsPrefix(r, a, d, b, k - 1);
      TermsAppend(a, d, b, k - 1, k);
    }
  }

  lemma {:induction false} ColsEmpty(r: nat, b: seq<int>, k: nat)
    ensures Cols(r, [], b, k) == 0
  {
    if k > 0 {
      ColsEmpty(r, b, k - 1);
      TermsZero([], b, k - 1, 0, k);
    }
  }

  /** The part of the product above the first k columns. */
  ghost function High(r: nat, a: seq<int>, b: seq<int>, k: nat): int
    requires |a| <= k
  {
    if |a| == 0 then 0
    else
      var l := |a| - 1;
      High(r, a[..l], b, k) + a[l] * (if k - l <= |b| then Val(r, b[k - l..]) else 0)
  }

  /** Columns 0 to k - 1 are the product modulo r^k, for every k that covers a. */
  lemma {:induction false} ColumnsAreProduct(r: nat, a: seq<int>, b: seq<int>, k: nat)
    requires |a| <= k
    ensures Val(r, a) * Val(r, b) == Cols(r, a, b, k) + Pow(r, k) * High(r, a, b, k)
    decreases |a|
  {
    if |a| == 0 {
      assert a == [];
      ColsEmpty(r, b, k);
    } else {
      var l := |a| - 1;
      var a', d, t := a[..l], a[l], k - l;
      assert a == a' + [d];
      ColumnsAreProduct(r, a', b, k);
      ColsAppend(r, a', d, b, k);
      var top := if t <= |b| then Val(r, b[t..]) else 0;
      assert Val(r, b) == LowVal(r, b, t) + Pow(r, t) * top by {
        if t <= |b| { ValSplit(r, b, t); }
      }
      PowAdd(r, l, t);
      ProductStep(Val(r, a'), Val(r, b), d, Pow(r, l), Pow(r, t), LowVal(r, b, t), top,
                  Cols(r, a', b, k), High(r, a', b, k));
    }
  }

  lemma ProductStep(va: int, vb: int, d: int, p: int, q: int, low: int, top: int, cols: int, high: int)
    requires vb == low + q * top
    requires va * vb == cols + (p * q) * high
    ensures (va + d * p) * vb == cols + d * p * low + (p * q) * (high + d * top)
  {
    assert (d * p) * (q * top) == (p * q) * (d * top);
    assert (va + d * p) * vb == va * vb + d * p * low + (d * p) * (q * top);
  }
}
