/**
 * The running aggregate kept per interface method: a value model of
 * java.util.LongSummaryStatistics as the proxy uses it (count, sum, min, max
 * of the elapsed nanoseconds of every successful call).
 */
module Statistics {

  const LongMin: int := -0x8000_0000_0000_0000
  const LongMax: int := 0x7FFF_FFFF_FFFF_FFFF
  const TwoTo64: int := 0x1_0000_0000_0000_0000

  /** A Java `long`. */
  type Long = x: int | -0x8000_0000_0000_0000 <= x <= 0x7FFF_FFFF_FFFF_FFFF

  /** Two's-complement wrap-around, as Java's `long` addition performs it. */
  function Wrap(x: int): Long
  {
    (x - LongMin) % TwoTo64 + LongMin
  }

  /** Wrap is the identity on values that fit a `long`, and it is the unique
      `long` that differs from `x` by a multiple of 2^64. */
  lemma WrapUnique(x: int, r: int, k: int)
    requires LongMin <= r <= LongMax
    requires r == x + k * TwoTo64
    ensures Wrap(x) == r
  {
  }

  /** Adding to an already wrapped sum is the same as wrapping the exact sum. */
  lemma WrapAdd(a: int, b: int)
    ensures Wrap(Wrap(a) + b) == Wrap(a + b)
  {
    var q := (a - LongMin) / TwoTo64;
    assert Wrap(a) == a - q * TwoTo64;
    WrapUnique(Wrap(a) + b, Wrap(a + b), ((a + b - LongMin) / TwoTo64) * -1 + q);
  }

  /**
   * A snapshot of a LongSummaryStatistics. A fresh one has count 0, sum 0,
   * min Long.MAX_VALUE and max Long.MIN_VALUE; the average is sum / count.
   */
  datatype Stats = Stats(count: nat, sum: Long, min: Long, max: Long)

  const Empty: Stats := Stats(0, 0, LongMax, LongMin)

  function Min(a: Long, b: Long): Long { if a <= b then a else b }
  function Max(a: Long, b: Long): Long { if a >= b then a else b }

  /** `accept(value)`: fold one observation into the aggregate. */
  function Accept(s: Stats, value: Long): Stats
  {
    Stats(s.count + 1, Wrap(s.sum + value), Min(s.min, value), Max(s.max, value))
  }

  /** Folding a sequence of observations into `s`, oldest first. */
  function AcceptAll(s: Stats, values: seq<Long>): Stats
    decreases |values|
  {
    if values == [] then s
    else Accept(AcceptAll(s, values[..|values| - 1]), values[|values| - 1])
  }

  /** The exact (unwrapped) sum of the observations. */
  function Sum(values: seq<Long>): int
    decreases |values|
  {
    if values == [] then 0 else Sum(values[..|values| - 1]) + values[|values| - 1]
  }

  /**
   * What folding observations does to an aggregate: the count grows by the
   * number of observations, the sum by their total modulo 2^64, the minimum
   * and maximum bracket every observation and are either kept or taken from
   * the observations.
   */
  lemma {:induction false} AcceptAllAggregates(s: Stats, values: seq<Long>)
    ensures AcceptAll(s, values).count == s.count + |values|
    ensures AcceptAll(s, values).sum == Wrap(s.sum + Sum(values))
    ensures AcceptAll(s, values).min <= s.min && AcceptAll(s, values).max >= s.max
    ensures forall i :: 0 <= i < |values| ==>
              AcceptAll(s, values).min <= values[i] <= AcceptAll(s, values).max
    ensures AcceptAll(s, values).min == s.min || AcceptAll(s, values).min in values
    ensures AcceptAll(s, values).max == s.max || AcceptAll(s, values).max in values
    decreases |values|
  {
    if values == [] {
      assert Wrap(s.sum) == s.sum by { WrapUnique(s.sum, s.sum, 0); }
    } else {
      var init, last := values[..|values| - 1], values[|values| - 1];
      AcceptAllAggregates(s, init);
      WrapAdd(s.sum + Sum(init), last);
      assert values == init + [last];
    }
  }

  /**
   * Aggregating observations from a fresh LongSummaryStatistics: the count is
   * the number of observations, min and max are attained observations (or the
   * Long.MAX_VALUE / Long.MIN_VALUE sentinels when there were none).
   */
  lemma {:induction false} FromEmpty(values: seq<Long>)
    ensures AcceptAll(Empty, values).count == |values|
    ensures AcceptAll(Empty, values).sum == Wrap(Sum(values))
    ensures values == [] ==> AcceptAll(Empty, values) == Empty
    ensures values != [] ==> AcceptAll(Empty, values).min in values
    ensures values != [] ==> AcceptAll(Empty, values).max in values
    ensures forall i :: 0 <= i < |values| ==>
              AcceptAll(Empty, values).min <= values[i] <= AcceptAll(Empty, values).max
  {
    AcceptAllAggregates(Empty, values);
    if values != [] {
      var r := AcceptAll(Empty, values);
      assert r.min <= values[0] <= r.max;
    }
  }

  lemma {:induction false} SumBounds(values: seq<Long>, lo: int, hi: int)
    requires forall i :: 0 <= i < |values| ==> lo <= values[i] <= hi
    ensures lo * |values| <= Sum(values) <= hi * |values|
    decreases |values|
  {
    if values != [] {
      var n := |values| - 1;
      SumBounds(values[..n], lo, hi);
      assert lo * (n + 1) == lo * n + lo && hi * (n + 1) == hi * n + hi;
    }
  }

  /**
   * When the total does not overflow a `long`, the average sum / count lies
   * between the minimum and the maximum (stated without division).
   */
  lemma AverageWithinBounds(values: seq<Long>)
    requires values != []
    requires LongMin <= Sum(values) <= LongMax
    ensures var r := AcceptAll(Empty, values);
            r.min * r.count <= r.sum <= r.max * r.count
  {
    FromEmpty(values);
    var r := AcceptAll(Empty, values);
    SumBounds(values, r.min, r.max);
    WrapUnique(Sum(values), Sum(values), 0);
  }
}
