/**
 * The counting jobs `BasicCounter` and `CallableBasicCounter`: each sums the
 * integers below its `count` in a Java `long`. Both are specified by one
 * reference sum, whose closed form is `count * (count - 1) / 2`.
 */
module BasicC {

  /** Largest Java `long`. */
  const LongMax := 0x7FFF_FFFF_FFFF_FFFF

  /** Largest `count` whose sum still fits in a `long` (one more and it overflows). */
  const MaxCount := 0x1_0000_0000

  /** lo + (lo + 1) + ... + (hi - 1); zero for an empty range. */
  function SumRange(lo: int, hi: int): (sum: int)
    decreases hi - lo
  {
    if lo >= hi then 0 else SumRange(lo, hi - 1) + (hi - 1)
  }

  /** Gauss's closed form for 0 + 1 + ... + (n - 1). */
  lemma {:induction false} SumRangeClosedForm(n: nat)
    ensures SumRange(0, n) == n * (n - 1) / 2
  {
    if n > 0 {
      SumRangeClosedForm(n - 1);
      assert n * (n - 1) == (n - 1) * (n - 2) + 2 * (n - 1);
    }
  }

  /** Starting the sum at 0 or at 1 gives the same total: the extra term is 0. */
  lemma {:induction false} ZeroTermAddsNothing(n: int)
    ensures SumRange(0, n) == SumRange(1, n)
  {
    if n > 1 {
      ZeroTermAddsNothing(n - 1);
    }
  }

  /** The closed form is monotone, so every count up to `MaxCount` keeps the sum within a `long`. */
  lemma {:induction false} SumFitsInLong(count: int)
    requires 1 <= count <= MaxCount
    ensures count * (count - 1) / 2 <= LongMax
  {
    MulMonotone(count, count - 1, MaxCount, MaxCount - 1);
    assert MaxCount * (MaxCount - 1) == 0xFFFF_FFFF_0000_0000;
  }

  lemma MulMonotone(a: int, b: int, c: int, d: int)
    requires 0 <= a <= c && 0 <= b <= d
    ensures a * b <= c * d
  {
    assert a * b <= c * b;
  }

  /** `BasicCounter.run`: the sum it prints, 1 + 2 + ... + (count - 1). */
  method BasicCounterRun(count: int) returns (sum: int)
    requires count <= MaxCount
    ensures sum == SumRange(1, count)
    ensures sum == if count >= 1 then count * (count - 1) / 2 else 0
    ensures 0 <= sum <= LongMax
  {
    sum := 0;
    var i := 1;
    while i < count
      invariant 1 <= i <= if count >= 1 then count else 1
      invariant sum == SumRange(1, i)
      invariant 2 * sum == i * (i - 1)
    {
      assert (i + 1) * i == i * (i - 1) + 2 * i;
      sum := sum + i;
      i := i + 1;
    }
    if count >= 1 {
      SumFitsInLong(count);
    }
  }

  /** `CallableBasicCounter.call`: the sum it returns, 0 + 1 + ... + (count - 1). */
  method CallableBasicCounterCall(count: int) returns (sum: int)
    requires count <= MaxCount
    ensures sum == SumRange(0, count)
    ensures sum == if count >= 0 then count * (count - 1) / 2 else 0
    ensures 0 <= sum <= LongMax
  {
    sum := 0;
    var i := 0;
    while i < count
      invariant 0 <= i <= if count >= 0 then count else 0
      invariant sum == SumRange(0, i)
      invariant 2 * sum == i * (i - 1)
    {
      assert (i + 1) * i == i * (i - 1) + 2 * i;
      sum := sum + i;
      i := i + 1;
    }
    if count >= 1 {
      SumFitsInLong(count);
    }
  }

  /** The first two counters of the sample run, with counts 10,000,000 and 10,000,001. */
  lemma SampleRun()
    ensures SumRange(1, 10_000_000) == 49_999_995_000_000
    ensures SumRange(1, 10_000_001) == 50_000_005_000_000
  {
    SumRangeClosedForm(10_000_000);
    ZeroTermAddsNothing(10_000_000);
    SumRangeClosedForm(10_000_001);
    ZeroTermAddsNothing(10_000_001);
  }
}
