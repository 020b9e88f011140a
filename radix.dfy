/** Mixed-radix numerals, most significant digit first: the arithmetic behind
    the odometer in src/mp.c.  A digit sequence `d` over radices `R` denotes
    the number Horner(d, R); the last position is the fastest-moving one. */
module MixedRadix {

  /** Every digit position has at least one value. */
  predicate Radices(R: seq<int>) {
    forall j :: 0 <= j < |R| ==> R[j] >= 1
  }

  /** The number of digit sequences over `R`: the product of the radices,
      multiplied left to right. */
  function Prod(R: seq<int>): int {
    if |R| == 0 then 1 else Prod(R[..|R| - 1]) * R[|R| - 1]
  }

  /** The value of digit sequence `d` read in radices `R`. */
  function Horner(d: seq<int>, R: seq<int>): int
    requires |d| == |R|
  {
    if |d| == 0 then 0 else Horner(d[..|d| - 1], R[..|R| - 1]) * R[|R| - 1] + d[|d| - 1]
  }

  /** Each digit lies below its radix. */
  predicate InRange(d: seq<int>, R: seq<int>) {
    |d| == |R| && forall j :: 0 <= j < |d| ==> 0 <= d[j] < R[j]
  }

  /** Every digit is at its largest value. */
  predicate AllMax(d: seq<int>, R: seq<int>) {
    |d| == |R| && forall j :: 0 <= j < |d| ==> d[j] == R[j] - 1
  }

  /** Every digit is zero. */
  predicate AllZero(d: seq<int>) {
    forall j :: 0 <= j < |d| ==> d[j] == 0
  }

  /** The digits of `k` in radices `R` (the inverse of Horner below Prod(R)). */
  function DigitsOf(k: int, R: seq<int>): (d: seq<int>)
    requires Radices(R) && 0 <= k
    ensures |d| == |R|
  {
    if |R| == 0 then [] else DigitsOf(k / R[|R| - 1], R[..|R| - 1]) + [k % R[|R| - 1]]
  }

  lemma {:induction false} ProdPositive(R: seq<int>)
    requires Radices(R)
    ensures Prod(R) >= 1
  {
    if |R| > 0 {
      ProdPositive(R[..|R| - 1]);
      MulPositive(Prod(R[..|R| - 1]), R[|R| - 1]);
    }
  }

  lemma MulPositive(a: int, b: int)
    requires a >= 1 && b >= 1
    ensures a * b >= 1 && a * b >= a
  {
  }

  /** An in-range digit sequence denotes a number in [0, Prod(R)). */
  lemma {:induction false} HornerBounds(d: seq<int>, R: seq<int>)
    requires InRange(d, R)
    ensures 0 <= Horner(d, R) < Prod(R)
  {
    if |d| > 0 {
      var n := |d|;
      HornerBounds(d[..n - 1], R[..n - 1]);
      StepBounds(Horner(d[..n - 1], R[..n - 1]), Prod(R[..n - 1]), R[n - 1], d[n - 1]);
    }
  }

  lemma StepBounds(h: int, p: int, r: int, x: int)
    requires 0 <= h < p && 0 <= x < r
    ensures 0 <= h * r + x < p * r
  {
    assert h * r <= (p - 1) * r;
  }

  /** DigitsOf is a right inverse of Horner on [0, Prod(R)). */
  lemma {:induction false} DigitsOfCorrect(k: int, R: seq<int>)
    requires Radices(R) && 0 <= k < Prod(R)
    ensures InRange(DigitsOf(k, R), R)
    ensures Horner(DigitsOf(k, R), R) == k
  {
    if |R| > 0 {
      var R0, r := R[..|R| - 1], R[|R| - 1];
      var q, x := k / r, k % r;
      DivBound(k, Prod(R0), r);
      DigitsOfCorrect(q, R0);
      SnocDigit(DigitsOf(q, R0), R0, x, r);
      DigitsOfSnoc(k, R);
    }
  }

  /** The digits of k are those of k / r followed by k % r, r the last
      radix. */
  lemma DigitsOfSnoc(k: int, R: seq<int>)
    requires Radices(R) && 0 <= k && |R| > 0
    ensures R == R[..|R| - 1] + [R[|R| - 1]]
    ensures DigitsOf(k, R) == DigitsOf(k / R[|R| - 1], R[..|R| - 1]) + [k % R[|R| - 1]]
  {
  }

  /** Appending a digit below its radix keeps a numeral in range, and
      multiplies its value by the radix before adding the digit. */
  lemma SnocDigit(d: seq<int>, R: seq<int>, x: int, r: int)
    requires InRange(d, R) && 0 <= x < r
    ensures InRange(d + [x], R + [r])
    ensures Horner(d + [x], R + [r]) == Horner(d, R) * r + x
  {
    assert (d + [x])[..|d|] == d && (R + [r])[..|R|] == R;
  }

  lemma DivBound(k: int, p: int, r: int)
    requires r >= 1 && 0 <= k < p * r
    ensures 0 <= k / r < p
    ensures k == (k / r) * r + k % r
  {
    var q := k / r;
    assert q * r <= k;
    if q >= p {
      MulMono(p, q, r);
    }
  }

  lemma MulMono(a: int, b: int, r: int)
    requires a <= b && r >= 0
    ensures a * r <= b * r
  {
    assert b * r - a * r == (b - a) * r;
  }

  /** DigitsOf is a left inverse of Horner on in-range digit sequences. */
  lemma {:induction false} HornerDigits(d: seq<int>, R: seq<int>)
    requires Radices(R) && InRange(d, R)
    ensures Horner(d, R) >= 0
    ensures DigitsOf(Horner(d, R), R) == d
  {
    HornerBounds(d, R);
    if |d| > 0 {
      var n := |d|;
      var h := Horner(d[..n - 1], R[..n - 1]);
      HornerBounds(d[..n - 1], R[..n - 1]);
      DivMod(h, R[n - 1], d[n - 1]);
      HornerDigits(d[..n - 1], R[..n - 1]);
      assert d == d[..n - 1] + [d[n - 1]];
    }
  }

  lemma DivMod(h: int, r: int, x: int)
    requires 0 <= h && 0 <= x < r
    ensures (h * r + x) / r == h && (h * r + x) % r == x
  {
    var n := h * r + x;
    var q, m := n / r, n % r;
    assert (q - h) * r == x - m by {
      assert q * r + m == h * r + x;
      assert q * r - h * r == (q - h) * r;
    }
    OnlyZeroSmall(q - h, r);
  }

  /** The only multiple of r strictly between -r and r is 0. */
  lemma OnlyZeroSmall(a: int, r: int)
    requires r >= 1 && -r < a * r < r
    ensures a == 0
  {
    if a >= 1 {
      MulMono(1, a, r);
    } else if a <= -1 {
      MulMono(a, -1, r);
    }
  }

  /** Two in-range digit sequences with the same value are equal. */
  lemma HornerInjective(d1: seq<int>, d2: seq<int>, R: seq<int>)
    requires Radices(R) && InRange(d1, R) && InRange(d2, R)
    requires Horner(d1, R) == Horner(d2, R)
    ensures d1 == d2
  {
    HornerDigits(d1, R);
    HornerDigits(d2, R);
  }

  lemma {:induction false} ProdAppend(R1: seq<int>, R2: seq<int>)
    ensures Prod(R1 + R2) == Prod(R1) * Prod(R2)
  {
    if |R2| > 0 {
      var n := |R2|;
      ProdAppend(R1, R2[..n - 1]);
      assert (R1 + R2)[..|R1 + R2| - 1] == R1 + R2[..n - 1];
      MulAssoc(Prod(R1), Prod(R2[..n - 1]), R2[n - 1]);
    } else {
      assert R1 + R2 == R1;
    }
  }

  lemma MulAssoc(a: int, b: int, c: int)
    ensures (a * b) * c == a * (b * c)
  {
  }

  /** Splitting a numeral: the high part is scaled by the number of values of
      the low part. */
  lemma {:induction false} HornerAppend(p: seq<int>, q: seq<int>, R1: seq<int>, R2: seq<int>)
    requires |p| == |R1| && |q| == |R2|
    ensures Horner(p + q, R1 + R2) == Horner(p, R1) * Prod(R2) + Horner(q, R2)
  {
    if |q| == 0 {
      assert p + q == p && R1 + R2 == R1;
    } else {
      var n := |q|;
      HornerAppend(p, q[..n - 1], R1, R2[..n - 1]);
      assert (p + q)[..|p + q| - 1] == p + q[..n - 1];
      assert (R1 + R2)[..|R1 + R2| - 1] == R1 + R2[..n - 1];
      var hp, hq, w, r := Horner(p, R1), Horner(q[..n - 1], R2[..n - 1]), Prod(R2[..n - 1]), R2[n - 1];
      assert (hp * w + hq) * r == hp * (w * r) + hq * r by {
        MulAssoc(hp, w, r);
      }
    }
  }

  /** The largest numeral is Prod(R) - 1. */
  lemma {:induction false} HornerMax(d: seq<int>, R: seq<int>)
    requires AllMax(d, R)
    ensures Horner(d, R) == Prod(R) - 1
  {
    if |d| > 0 {
      var n := |d|;
      HornerMax(d[..n - 1], R[..n - 1]);
      var p := Prod(R[..n - 1]);
      assert (p - 1) * R[n - 1] + R[n - 1] - 1 == p * R[n - 1] - 1;
    }
  }

  /** The all-zero numeral is 0. */
  lemma {:induction false} HornerZero(d: seq<int>, R: seq<int>)
    requires |d| == |R| && AllZero(d)
    ensures Horner(d, R) == 0
  {
    if |d| > 0 {
      HornerZero(d[..|d| - 1], R[..|R| - 1]);
    }
  }

  /** A numeral split after position `i`. */
  lemma SplitAfter(d: seq<int>, R: seq<int>, i: int)
    requires |d| == |R| && 0 <= i <= |d|
    ensures Horner(d, R) == Horner(d[..i], R[..i]) * Prod(R[i..]) + Horner(d[i..], R[i..])
  {
    assert R == R[..i] + R[i..];
    assert d == d[..i] + d[i..];
    HornerAppend(d[..i], d[i..], R[..i], R[i..]);
  }

  /** One odometer step: if every digit right of `i` is at its maximum, then
      raising digit `i` by one and zeroing the digits to its right adds one
      to the value. */
  lemma {:induction false} Increment(d: seq<int>, d': seq<int>, R: seq<int>, i: int)
    requires |d| == |R| && |d'| == |d| && 0 <= i < |d|
    requires d'[..i] == d[..i] && d'[i] == d[i] + 1
    requires forall j :: i < j < |d| ==> d[j] == R[j] - 1 && d'[j] == 0
    ensures Horner(d', R) == Horner(d, R) + 1
  {
    var n := |d|;
    var p, p', r := d[..n - 1], d'[..n - 1], R[..n - 1];
    if i == n - 1 {
      assert p' == p;
    } else {
      assert p'[..i] == p[..i];
      Increment(p, p', r, i);
      AddOneBlock(Horner(p, r), R[n - 1]);
    }
  }

  /** A numeral whose digits after the first n are all at their maximum is
      the last of its block. */
  lemma HighBlockEnd(d: seq<int>, R: seq<int>, n: int)
    requires |d| == |R| && 0 <= n <= |d|
    requires forall j :: n <= j < |d| ==> d[j] == R[j] - 1
    ensures Horner(d, R) == Horner(d[..n], R[..n]) * Prod(R[n..]) + Prod(R[n..]) - 1
  {
    SplitAfter(d, R, n);
    assert AllMax(d[n..], R[n..]);
    HornerMax(d[n..], R[n..]);
  }

  /** The numerals sharing the high digits `p` form one contiguous block. */
  lemma BlockPrefix(p: seq<int>, R: seq<int>, k: int)
    requires Radices(R) && |p| <= |R| && InRange(p, R[..|p|])
    requires Horner(p, R[..|p|]) * Prod(R[|p|..]) <= k < (Horner(p, R[..|p|]) + 1) * Prod(R[|p|..])
    ensures 0 <= k < Prod(R)
    ensures DigitsOf(k, R)[..|p|] == p
  {
    var R1, R2 := R[..|p|], R[|p|..];
    var h, w := Horner(p, R1), Prod(R2);
    var r := k - h * w;
    AddOneBlock(h, w);
    assert 0 <= r < w;
    assert Radices(R2);
    DigitsOfCorrect(r, R2);
    var q := DigitsOf(r, R2);
    assert R == R1 + R2;
    HornerAppend(p, q, R1, R2);
    assert Horner(p + q, R) == h * w + r;
    InRangeAppend(p, q, R1, R2);
    HornerBounds(p + q, R);
    HornerDigits(p + q, R);
    assert (p + q)[..|p|] == p;
  }

  lemma InRangeAppend(p: seq<int>, q: seq<int>, R1: seq<int>, R2: seq<int>)
    requires InRange(p, R1) && InRange(q, R2)
    ensures InRange(p + q, R1 + R2)
  {
  }

  /** The last numeral of the block that shares the high digits `p`. */
  lemma BlockEnd(p: seq<int>, m: seq<int>, R: seq<int>)
    requires |p| + |m| == |R| && AllMax(m, R[|p|..])
    ensures Horner(p + m, R) == (Horner(p, R[..|p|]) + 1) * Prod(R[|p|..]) - 1
  {
    var R1, R2 := R[..|p|], R[|p|..];
    assert R == R1 + R2;
    HornerAppend(p, m, R1, R2);
    HornerMax(m, R2);
    AddOneBlock(Horner(p, R1), Prod(R2));
  }

  /** Raising every digit after the first i to its largest value moves a
      numeral forward to the last numeral of its block, and every numeral
      from the one to the other keeps the first i digits. */
  lemma MaxTail(d: seq<int>, d': seq<int>, R: seq<int>, i: int, k: int)
    requires Radices(R) && InRange(d, R) && |d'| == |R| && 0 <= i <= |R|
    requires d'[..i] == d[..i] && AllMax(d'[i..], R[i..])
    requires Horner(d, R) <= k <= Horner(d', R)
    ensures 0 <= k < Prod(R) && DigitsOf(k, R)[..i] == d[..i]
  {
    MaxTailBounds(d, d', R, i);
    InBlock(Horner(d[..i], R[..i]), Prod(R[i..]), k);
    BlockPrefix(d[..i], R, k);
  }

  /** Where the two numerals of MaxTail lie in the block of their first i
      digits. */
  lemma MaxTailBounds(d: seq<int>, d': seq<int>, R: seq<int>, i: int)
    requires Radices(R) && InRange(d, R) && |d'| == |R| && 0 <= i <= |R|
    requires d'[..i] == d[..i] && AllMax(d'[i..], R[i..])
    ensures InRange(d[..i], R[..i])
    ensures Horner(d[..i], R[..i]) * Prod(R[i..]) <= Horner(d, R) < Horner(d[..i], R[..i]) * Prod(R[i..]) + Prod(R[i..])
    ensures Horner(d', R) == Horner(d[..i], R[..i]) * Prod(R[i..]) + Prod(R[i..]) - 1
  {
    InBlockOf(d, R, i);
    forall j | i <= j < |d'|
      ensures d'[j] == R[j] - 1
    {
      assert d'[j] == d'[i..][j - i];
    }
    HighBlockEnd(d', R, i);
  }

  /** A numeral lies in the block of its first i digits. */
  lemma InBlockOf(d: seq<int>, R: seq<int>, i: int)
    requires InRange(d, R) && 0 <= i <= |R|
    ensures InRange(d[..i], R[..i])
    ensures Horner(d[..i], R[..i]) * Prod(R[i..]) <= Horner(d, R) < Horner(d[..i], R[..i]) * Prod(R[i..]) + Prod(R[i..])
  {
    SplitAfter(d, R, i);
    assert InRange(d[i..], R[i..]);
    HornerBounds(d[i..], R[i..]);
  }

  /** Raising the digits after the first i to their largest values never
      moves a numeral backwards. */
  lemma MaxTailForward(d: seq<int>, d': seq<int>, R: seq<int>, i: int)
    requires Radices(R) && InRange(d, R) && |d'| == |R| && 0 <= i <= |R|
    requires d'[..i] == d[..i] && AllMax(d'[i..], R[i..])
    ensures Horner(d, R) <= Horner(d', R)
  {
    MaxTailBounds(d, d', R, i);
    BelowEnd(Horner(d[..i], R[..i]) * Prod(R[i..]), Prod(R[i..]), Horner(d, R), Horner(d', R));
  }

  lemma BelowEnd(a: int, w: int, x: int, y: int)
    requires a <= x < a + w && y == a + w - 1
    ensures x <= y
  {
  }

  lemma InBlock(h: int, w: int, k: int)
    requires h * w <= k <= h * w + w - 1
    ensures h * w <= k < (h + 1) * w
  {
    AddOneBlock(h, w);
  }

  lemma AddOneBlock(h: int, w: int)
    ensures (h + 1) * w == h * w + w
  {
  }
}
