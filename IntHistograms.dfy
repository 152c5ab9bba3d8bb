/**
 * lab/src/IntHistogram.java, its integer part: the constructor's bucket count and width,
 * and `addValue`. All arithmetic is Java `int` arithmetic, so `max - min + 1` can wrap and
 * the division truncates toward zero. The `double` counter `tNum` is an exact count here,
 * and the ghost `counts` are the exact number of values in each bucket, of which the `int`
 * cells of `hist` are the wrapped images.
 */
module IntHistograms {
  import opened Common

  /** The exact sum of a sequence. */
  function Sum(xs: seq<int>): int
  {
    if xs == [] then 0 else Sum(xs[..|xs| - 1]) + xs[|xs| - 1]
  }

  /** Adding one to an entry adds one to the sum. */
  lemma {:induction false} SumIncrement(xs: seq<int>, i: nat)
    requires i < |xs|
    ensures Sum(xs[i := xs[i] + 1]) == Sum(xs) + 1
  {
    var ys := xs[i := xs[i] + 1];
    var n := |xs| - 1;
    if i < n {
      assert ys[..n] == xs[..n][i := xs[i] + 1];
      SumIncrement(xs[..n], i);
    } else {
      assert ys[..n] == xs[..n];
    }
  }

  /** A sequence of naturals bounds each of its entries by its sum. */
  lemma {:induction false} SumBoundsEntries(xs: seq<nat>, i: nat)
    requires i < |xs|
    ensures xs[i] <= Sum(xs)
    ensures Sum(xs) >= 0
  {
    var n := |xs| - 1;
    if n > 0 {
      SumNonNegative(xs[..n]);
      if i < n {
        SumBoundsEntries(xs[..n], i);
      }
    }
  }

  lemma {:induction false} SumNonNegative(xs: seq<nat>)
    ensures Sum(xs) >= 0
  {
    if xs != [] {
      SumNonNegative(xs[..|xs| - 1]);
    }
  }

  /** Sequences that agree entry by entry have the same sum. */
  lemma {:induction false} SumPointwise(xs: seq<int>, ys: seq<int>)
    requires |xs| == |ys| && forall i :: 0 <= i < |xs| ==> xs[i] == ys[i]
    ensures Sum(xs) == Sum(ys)
  {
    assert xs == ys;
  }

  /** At most as many buckets as values leaves every bucket at least one value wide. */
  lemma WidthPositive(range: int, buckets: int)
    requires 1 <= buckets <= range
    ensures range / buckets >= 1
  {
    DivMonotone(buckets, range, buckets);
    DivUnique(1, buckets, 0);
  }

  /** The value-range size `max - min + 1`, as Java's `int` computes it. */
  function RangeSize(min: Int32, max: Int32): Int32
  {
    Add32(Sub32(max, min), 1)
  }

  class IntHistogram {
    const hist: array<Int32>
    const min: Int32
    const max: Int32
    const buckets: Int32
    const width: Int32
    var tNum: nat
    ghost var counts: seq<nat>

    /** The cells are the wrapped bucket counts, and the counts add up to `tNum`. */
    ghost predicate Valid()
      reads this, hist
    {
      hist.Length == buckets && 1 <= buckets <= RangeSize(min, max) &&
      width == RangeSize(min, max) / buckets && width >= 1 &&
      |counts| == hist.Length &&
      (forall i :: 0 <= i < hist.Length ==> hist[i] == Wrap32(counts[i])) &&
      Sum(counts) == tNum
    }

    /** The fields as the constructor computed them, before any value is added. */
    constructor(hist: array<Int32>, buckets: Int32, min: Int32, max: Int32, width: Int32)
      requires hist.Length == buckets && 1 <= buckets <= RangeSize(min, max)
      requires width == RangeSize(min, max) / buckets
      requires forall i :: 0 <= i < hist.Length ==> hist[i] == 0
      ensures this.hist == hist && this.buckets == buckets && this.min == min && this.max == max
      ensures this.width == width && tNum == 0 && counts == seq(buckets, _ => 0)
      ensures Valid()
    {
      this.hist := hist;
      this.buckets := buckets;
      this.min := min;
      this.max := max;
      this.width := width;
      tNum := 0;
      counts := seq(buckets, _ => 0);
      new;
      WidthPositive(RangeSize(min, max), buckets);
      SumZero(buckets);
      assert forall i :: 0 <= i < hist.Length ==> hist[i] == Wrap32(counts[i]);
    }

    /** The bucket `addValue(v)` picks: `(v - min) / width`, capped at the last bucket. */
    function BucketOf(v: Int32): Int32
      requires width >= 1 && 1 <= hist.Length <= INT_MAX
      reads this
    {
      Common.Min(Div32(Sub32(v, min), width), hist.Length - 1)
    }

    /**
     * `addValue`: one more in the chosen bucket's cell (wrapping as an `int`) and in
     * `tNum`; a negative bucket index throws before anything changes.
     */
    method AddValue(v: Int32) returns (r: Result<()>)
      requires Valid()
      modifies this, hist
      ensures Valid()
      ensures r.Err? <==> BucketOf(v) < 0
      ensures r.Err? ==> r.error == ArrayIndexOutOfBoundsException
      ensures r.Err? ==> tNum == old(tNum) && counts == old(counts) && hist[..] == old(hist[..])
      ensures r.Ok? ==> var b := BucketOf(v);
        tNum == old(tNum) + 1 && counts == old(counts)[b := old(counts)[b] + 1] &&
        hist[..] == old(hist[..])[b := Add32(old(hist[b]), 1)]
    {
      var bucketId := Common.Min(Div32(Sub32(v, min), width), hist.Length - 1);
      if bucketId < 0 {
        return Err(ArrayIndexOutOfBoundsException);
      }
      Wrap32Add(counts[bucketId], 1);
      SumIncrement(counts, bucketId);
      hist[bucketId] := Add32(hist[bucketId], 1);
      counts := counts[bucketId := counts[bucketId] + 1];
      tNum := tNum + 1;
      r := Ok(());
    }
  }

  lemma {:induction false} SumZero(n: nat)
    ensures Sum(seq(n, _ => 0)) == 0
  {
    if n > 0 {
      assert seq(n, _ => 0)[..n - 1] == seq(n - 1, _ => 0);
      SumZero(n - 1);
    }
  }

  /**
   * The constructor: `min(buckets, max - min + 1)` cells, all 0, of width
   * `(size - size % buckets) / buckets`. A negative cell count cannot be allocated and a
   * zero one divides by zero.
   */
  method NewIntHistogram(buckets: Int32, min: Int32, max: Int32) returns (r: Result<IntHistogram>)
    ensures var b := Common.Min(buckets, RangeSize(min, max));
      (r.Err? <==> b <= 0) &&
      (b < 0 ==> r == Err(NegativeArraySizeException)) &&
      (b == 0 ==> r == Err(ArithmeticException))
    ensures r.Ok? ==> fresh(r.value) && fresh(r.value.hist) && r.value.Valid()
    ensures r.Ok? ==> var h := r.value;
      h.buckets == Common.Min(buckets, RangeSize(min, max)) && h.min == min && h.max == max &&
      h.width == RangeSize(min, max) / h.buckets && h.tNum == 0 &&
      forall i :: 0 <= i < h.hist.Length ==> h.hist[i] == 0
  {
    var size := Add32(Sub32(max, min), 1);
    var b := Common.Min(buckets, size);
    if b < 0 {
      return Err(NegativeArraySizeException);
    }
    var hist := new Int32[b](_ => 0);
    if b == 0 {
      return Err(ArithmeticException);
    }
    var rem := Rem32(size, b);
    NatDivBounds(size, b);
    assert size - rem == (size / b) * b;
    DivUnique(size / b, b, 0);
    var width := Div32(Sub32(size, rem), b);
    assert width == size / b;
    var h := new IntHistogram(hist, b, min, max, width);
    r := Ok(h);
  }

  /**
   * For `min <= max`, the `int` range size is positive exactly when `max - min + 1` fits an
   * `int`; otherwise it wraps to `INT_MIN` or below 1.
   */
  lemma RangeSizeOrdered(min: Int32, max: Int32)
    requires min <= max
    ensures RangeSize(min, max) >= 1 <==> max - min < INT_MAX
    ensures max - min < INT_MAX ==> RangeSize(min, max) == max - min + 1
  {
    var d := max - min;
    if d > INT_MAX {
      Wrap32Once(d);
    } else if d == INT_MAX {
      Wrap32Once(d + 1);
    }
  }

  /** A histogram gets built whenever `min <= max`, no wrap-around occurs and a bucket is asked for. */
  lemma CreationSucceeds(buckets: Int32, min: Int32, max: Int32)
    requires buckets >= 1 && min <= max && max - min + 1 <= INT_MAX
    ensures RangeSize(min, max) == max - min + 1
    ensures Common.Min(buckets, RangeSize(min, max)) >= 1
  {
  }

  /** The width is at least 1: every bucket covers at least one value. */
  lemma WidthAtLeastOne(h: IntHistogram)
    requires h.Valid()
    ensures h.width >= 1 && h.width * h.buckets <= RangeSize(h.min, h.max)
  {
    NatDivBounds(RangeSize(h.min, h.max), h.buckets);
  }

  /** A histogram that was built has a range of at most `INT_MAX` values when `min <= max`. */
  lemma RangeFits(h: IntHistogram)
    requires h.Valid() && h.min <= h.max
    ensures h.max - h.min + 1 <= INT_MAX && RangeSize(h.min, h.max) == h.max - h.min + 1
  {
    assert Sub32(h.max, h.min) == h.max - h.min;
  }

  /** A value at or above `min` whose distance to `min` fits an `int` lands in a bucket. */
  lemma BucketInRange(h: IntHistogram, v: Int32)
    requires h.Valid() && h.min <= v && v - h.min <= INT_MAX
    ensures 0 <= h.BucketOf(v) < h.buckets
    ensures h.BucketOf(v) == Common.Min((v - h.min) / h.width, h.buckets - 1)
  {
    TruncDivRoundsTowardZero(v - h.min, h.width);
  }

  /** In particular every value of `[min, max]` does. */
  lemma ValueInRangeHasBucket(h: IntHistogram, v: Int32)
    requires h.Valid() && h.min <= v <= h.max
    ensures 0 <= h.BucketOf(v) < h.buckets
  {
    RangeFits(h);
    BucketInRange(h, v);
  }

  /** The bucket index never decreases as the value grows. */
  lemma BucketMonotone(h: IntHistogram, v: Int32, w: Int32)
    requires h.Valid() && h.min <= v <= w && w - h.min <= INT_MAX
    ensures h.BucketOf(v) <= h.BucketOf(w)
  {
    BucketInRange(h, v);
    BucketInRange(h, w);
    DivMonotone(v - h.min, w - h.min, h.width);
  }

  /**
   * Division rounds toward zero, so a value less than a width below `min` still lands in
   * bucket 0 instead of throwing.
   */
  lemma JustBelowMinLandsInFirstBucket(h: IntHistogram, v: Int32)
    requires h.Valid() && h.min - h.width < v < h.min
    ensures h.BucketOf(v) == 0
  {
    var d := h.min - v;
    assert Sub32(v, h.min) == -d;
    DivUnique(0, h.width, d);
    assert TruncDiv(-d, h.width) == 0;
  }

  /** While no cell has wrapped, the cells add up to the number of values added. */
  lemma CellsSumToCount(h: IntHistogram)
    requires h.Valid() && h.tNum <= INT_MAX
    ensures Sum(h.hist[..]) == h.tNum
  {
    forall i | 0 <= i < h.hist.Length
      ensures h.hist[..][i] == h.counts[i]
    {
      SumBoundsEntries(h.counts, i);
    }
    SumPointwise(h.hist[..], h.counts);
  }
}
