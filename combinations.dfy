/** The `--combinations` count of src/mp.c.  `mp_get_sum` multiplies the slot
    sizes of a prefix of the mask in a 64-bit unsigned integer.  The count
    sums it over the lengths of the increment range, also in 64 bits.  The
    lemmas relate the count to the words the enumeration emits. */
module Combinations {
  import opened Base
  import opened MixedRadix
  import opened Words

  /** 2^64: `uint64_t` arithmetic is taken modulo this. */
  const U64: int := 0x1_0000_0000_0000_0000

  /** The product of the sizes of the first n slots; 1 when n <= 0. */
  function SizeProduct(S: seq<seq<byte>>, n: int): int
    requires n <= |S|
    decreases n
  {
    if n <= 0 then 1 else SizeProduct(S, n - 1) * |S[n - 1]|
  }

  /** `mp_get_sum`: multiplies the sizes of the first n slots into a
      64-bit accumulator that starts at 1. */
  method GetSum(S: seq<seq<byte>>, n: int) returns (sum: int)
    requires n <= |S|
    ensures 0 <= sum < U64
    ensures sum == SizeProduct(S, n) % U64
  {
    sum := 1;
    var i := 0;
    while i < n
      invariant 0 <= i <= (if n < 0 then 0 else n)
      invariant 0 <= sum < U64
      invariant sum == SizeProduct(S, i) % U64
    {
      SizeProductNonNegative(S, i);
      MulMod(SizeProduct(S, i), |S[i]|);
      sum := (sum * |S[i]|) % U64;
      i := i + 1;
    }
  }

  lemma {:induction false} SizeProductNonNegative(S: seq<seq<byte>>, n: int)
    requires n <= |S|
    ensures SizeProduct(S, n) >= 0
    decreases n
  {
    if n > 0 {
      SizeProductNonNegative(S, n - 1);
    }
  }

  /** Reducing a factor modulo 2^64 first does not change the product
      modulo 2^64. */
  lemma MulMod(a: int, b: int)
    requires 0 <= a && 0 <= b
    ensures (a % U64) * b % U64 == a * b % U64
  {
    var q, r := a / U64, a % U64;
    assert a * b == (q * b) * U64 + r * b by {
      assert a == q * U64 + r;
    }
    ModMultiple(r * b, q * b);
  }

  /** Reducing a summand modulo 2^64 first does not change the sum modulo
      2^64. */
  lemma AddMod(a: int, b: int)
    requires 0 <= a && 0 <= b
    ensures (a % U64 + b % U64) % U64 == (a + b) % U64
  {
    var q, r := b / U64, b % U64;
    assert a + b == q * U64 + (a % U64 + r) + (a / U64) * U64;
    ModMultiple(a % U64 + r, q + a / U64);
  }

  lemma ModMultiple(x: int, k: int)
    requires 0 <= x && 0 <= k
    ensures (k * U64 + x) % U64 == x % U64
  {
    var y := k * U64 + x;
    var q, r := x / U64, x % U64;
    assert y == (k + q) * U64 + r;
    DivModUnique(y, k + q, r);
  }

  lemma DivModUnique(y: int, q: int, r: int)
    requires 0 <= r < U64 && y == q * U64 + r
    ensures y % U64 == r
  {
    var q', r' := y / U64, y % U64;
    assert (q - q') * U64 == r' - r;
  }

  /** The sum of SizeProduct over the lengths lo .. hi. */
  function SumSizes(S: seq<seq<byte>>, lo: int, hi: int): int
    requires hi <= |S|
    decreases hi - lo
  {
    if lo > hi then 0 else SumSizes(S, lo, hi - 1) + SizeProduct(S, hi)
  }

  lemma {:induction false} SumSizesNonNegative(S: seq<seq<byte>>, lo: int, hi: int)
    requires hi <= |S|
    ensures SumSizes(S, lo, hi) >= 0
    decreases hi - lo
  {
    if lo <= hi {
      SumSizesNonNegative(S, lo, hi - 1);
      SizeProductNonNegative(S, hi);
    }
  }

  /** The count `--combinations` prints: `mp_get_sum` of every length from
      min to max, added up in a 64-bit accumulator. */
  method CountCombinations(S: seq<seq<byte>>, lo: int, hi: int) returns (cnt: int)
    requires hi <= |S|
    ensures 0 <= cnt < U64
    ensures cnt == SumSizes(S, lo, hi) % U64
  {
    cnt := 0;
    var len := lo;
    while len <= hi
      invariant len == lo || lo <= len <= hi + 1
      invariant 0 <= cnt < U64
      invariant len == lo ==> cnt == 0
      invariant len - 1 <= hi ==> cnt == SumSizes(S, lo, len - 1) % U64
    {
      var sum := GetSum(S, len);
      SumSizesNonNegative(S, lo, len - 1);
      SizeProductNonNegative(S, len);
      AddMod(SumSizes(S, lo, len - 1), SizeProduct(S, len));
      cnt := (cnt + sum) % U64;
      len := len + 1;
    }
  }

  /** The range of lengths: the mask length, or with an increment the
      requested minimum and maximum, each capped at the mask length. */
  function LengthRange(cnt: int, increment: Option<(int, int)>): (r: (int, int))
    ensures r.0 <= cnt && r.1 <= cnt
    ensures increment.None? ==> r.0 == cnt && r.1 == cnt
    ensures increment.Some? ==> r.0 <= increment.value.0 && (r.0 == cnt || r.0 == increment.value.0)
    ensures increment.Some? ==> r.1 <= increment.value.1 && (r.1 == cnt || r.1 == increment.value.1)
  {
    match increment
    case None => (cnt, cnt)
    case Some((imin, imax)) => (if imin < cnt then imin else cnt, if imax < cnt then imax else cnt)
  }

  /** Every length the range takes is a length the mask can supply, and a
      requested length the mask can supply is in the range when at least the
      requested minimum. */
  lemma LengthRangeFits(cnt: int, imin: int, imax: int, len: int)
    ensures var r := LengthRange(cnt, Some((imin, imax)));
            r.0 <= len <= r.1 <==> (imin <= len || cnt <= len) && len <= imax && len <= cnt
  {
  }

  // ---------------------------------------------------------------------------
  // The count against the enumeration

  /** Without empty slots, the product of the slot sizes is the number of
      ranks the odometer steps through. */
  lemma {:induction false} SizeProductTotal(S: seq<seq<byte>>, n: int)
    requires 0 <= n <= |S|
    requires forall i :: 0 <= i < n ==> |S[i]| > 0
    ensures SizeProduct(S, n) == Total(S[..n])
  {
    if n > 0 {
      SizeProductTotal(S, n - 1);
      var R := Radix(S[..n]);
      assert R[..n - 1] == Radix(S[..n - 1]);
    }
  }

  /** An unfiltered pass of length L >= 1 without empty slots emits as many
      words as `mp_get_sum(L)` counts, before wrapping. */
  lemma PassCount(S: seq<seq<byte>>, L: int)
    requires WellFormed(S) && 1 <= L <= |S|
    requires forall i :: 0 <= i < L ==> |S[i]| > 0
    ensures |PassOutput(S, L, None, None, 0, 0, [])| == SizeProduct(S, L)
  {
    PassEnumeratesAll(S, L);
    SizeProductTotal(S, L);
  }

  /** The pass of length 0 emits nothing: `next` finds no position to move. */
  lemma EmptyPass(S: seq<seq<byte>>)
    requires WellFormed(S)
    ensures PassOutput(S, 0, None, None, 0, 0, []) == []
  {
    PassOutputShape(S, 0, None, None, 0, 0, []);
  }

  /** The sum of SizeProduct over lo .. hi, split after its first length. */
  lemma {:induction false} SumSizesFront(S: seq<seq<byte>>, lo: int, hi: int)
    requires lo <= hi <= |S|
    ensures SumSizes(S, lo, hi) == SizeProduct(S, lo) + SumSizes(S, lo + 1, hi)
    decreases hi - lo
  {
    if lo < hi {
      SumSizesFront(S, lo, hi - 1);
    }
  }

  /** The words an unfiltered run over lengths lo .. hi emits, lo >= 1 and
      no slot empty, number exactly the combinations count before wrapping. */
  lemma {:induction false} RunCount(S: seq<seq<byte>>, lo: int, hi: int)
    requires WellFormed(S) && 1 <= lo && hi <= |S|
    requires forall i :: 0 <= i < hi ==> |S[i]| > 0
    ensures |RunOutput(S, lo, hi, None, None, 0, 0)| == SumSizes(S, lo, hi)
    decreases hi - lo
  {
    if lo <= hi {
      RunCount(S, lo + 1, hi);
      PassCount(S, lo);
      SumSizesFront(S, lo, hi);
    }
  }

  /** As written the count includes length 0, which contributes
      `mp_get_sum(0) == 1` although the pass of length 0 emits nothing: a run
      from length 0 emits one word fewer than the count. */
  lemma ZeroLengthCounted(S: seq<seq<byte>>, hi: int)
    requires WellFormed(S) && 0 <= hi <= |S|
    requires forall i :: 0 <= i < hi ==> |S[i]| > 0
    ensures |RunOutput(S, 0, hi, None, None, 0, 0)| + 1 == SumSizes(S, 0, hi)
  {
    EmptyPass(S);
    SumSizesFront(S, 0, hi);
    if 1 <= hi {
      RunCount(S, 1, hi);
    }
  }

  /** The count of the words a run over lo .. hi emits: lengths below 1
      contribute nothing. */
  function WordCount(S: seq<seq<byte>>, lo: int, hi: int): (n: int)
    requires hi <= |S|
    ensures n >= 0
  {
    SumSizesNonNegative(S, if lo < 1 then 1 else lo, hi);
    SumSizes(S, if lo < 1 then 1 else lo, hi)
  }

  /** The corrected count is exactly the number of words an unfiltered run
      without empty slots emits, from any first length. */
  lemma WordCountMatches(S: seq<seq<byte>>, lo: int, hi: int)
    requires WellFormed(S) && 0 <= lo && hi <= |S|
    requires forall i :: 0 <= i < hi ==> |S[i]| > 0
    ensures |RunOutput(S, lo, hi, None, None, 0, 0)| == WordCount(S, lo, hi)
  {
    if lo == 0 {
      EmptyPass(S);
      RunCount(S, 1, hi);
    } else {
      RunCount(S, lo, hi);
    }
  }
}
