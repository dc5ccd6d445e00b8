/** A histogram of frame times. One that is created without a range keeps the samples it gets
    until their vector is full and then chooses a range for them. */
module HistogramModel {
  import opened Buckets

  /** std::sqrt, without rounding. */
  ghost predicate IsSqrt(f: real -> real) {
    forall x :: x >= 0.0 ==> f(x) >= 0.0 && Square(f(x)) == x
  }

  const DEFAULT_NUM_BUCKETS: nat := 30

  class Histogram {
    var startMs: real
    var endMs: real
    var bucketDtMs: real
    const numBuckets: nat
    var buckets: seq<nat>
    var samples: seq<real>
    var autoRange: bool
    var count: nat
    /** How many samples the vector has room for; at least what the constructor reserves. */
    const capacity: nat
    const sqrt: real -> real
    /** Everything added since the last Clear. */
    ghost var recorded: seq<real>

    ghost predicate Valid()
      reads this
    {
      && numBuckets >= 3 && |buckets| == numBuckets && IsSqrt(sqrt)
      && if autoRange then
           && samples == recorded && |samples| < capacity
           && count == 0 && buckets == Zeros(numBuckets)
         else
           && bucketDtMs > 0.0 && endMs == GetRange().End()
           && count == |recorded| && buckets == Counts(recorded, GetRange())
    }

    function GetRange(): Range
      reads `startMs, `bucketDtMs
    {
      Range(startMs, bucketDtMs, numBuckets)
    }

    /** A fixed range has to end after it starts; 0 to 0 asks for auto-ranging. */
    constructor (startMs: real, endMs: real, numBucketsBetween: nat, capacity: nat, sqrt: real -> real)
      requires IsSqrt(sqrt) && numBucketsBetween >= 1
      requires startMs < endMs || startMs == endMs == 0.0
      requires capacity >= numBucketsBetween + 2
      ensures Valid() && recorded == [] && numBuckets == numBucketsBetween + 2 && samples == []
      ensures autoRange <==> startMs == endMs == 0.0
      ensures this.startMs == startMs && this.endMs == endMs && this.sqrt == sqrt && this.capacity == capacity
    {
      this.startMs, this.endMs := startMs, endMs;
      bucketDtMs := (endMs - startMs) / numBucketsBetween as real;
      numBuckets := numBucketsBetween + 2;
      buckets := Zeros(numBucketsBetween + 2);
      samples, autoRange, count, recorded := [], startMs == 0.0 && endMs == 0.0, 0, [];
      this.capacity, this.sqrt := capacity, sqrt;
      new;
      if !autoRange {
        var k := numBucketsBetween as real;
        QuotientTimesDivisor(endMs - startMs, k);
        DivLe(endMs - startMs, k, 0.0);
        assert (numBuckets - 2) as real == k;
      }
    }

    method Add(dtMs: real)
      requires Valid()
      modifies this
      ensures Valid() && recorded == old(recorded) + [dtMs]
      ensures autoRange <==> old(autoRange) && |recorded| < capacity
      ensures old(autoRange) ==> samples == recorded
      ensures autoRange ==> startMs == old(startMs) && endMs == old(endMs) && bucketDtMs == old(bucketDtMs)
      ensures old(autoRange) && !autoRange ==> IsRangedFor(recorded)
      ensures !old(autoRange) ==>
                && GetRange() == old(GetRange()) && endMs == old(endMs) && samples == old(samples)
                && buckets == old(buckets)[BucketOf(dtMs, GetRange()) := old(buckets)[BucketOf(dtMs, GetRange())] + 1]
      decreases if autoRange then 2 else 0
    {
      if autoRange {
        samples := samples + [dtMs];
        recorded := recorded + [dtMs];
        if |samples| == capacity {
          CalcBucketsFromSamples();
        }
      } else {
        recorded := recorded + [dtMs];
        assert recorded[..|recorded| - 1] == old(recorded);
        var i := Truncate((dtMs - startMs) / bucketDtMs);
        if i < 0 {
          buckets := buckets[0 := buckets[0] + 1];
        } else if i + 1 >= numBuckets {
          buckets := buckets[numBuckets - 1 := buckets[numBuckets - 1] + 1];
        } else {
          buckets := buckets[i + 1 := buckets[i + 1] + 1];
        }
        count := count + 1;
      }
    }

    /** The range is the one that mean and standard deviation of `s` call for. */
    ghost predicate IsRangedFor(s: seq<real>)
      reads this
    {
      && s != [] && numBuckets >= 3 && sqrt.requires(MaxReal(Variance(s), 0.0))
      && GetRange() == ChooseRange(Mean(s), sqrt(MaxReal(Variance(s), 0.0)), numBuckets)
    }

    method CalcBucketsFromSamples()
      requires numBuckets >= 3 && |buckets| == numBuckets && IsSqrt(sqrt)
      requires autoRange && samples == recorded && samples != [] && count == 0 && buckets == Zeros(numBuckets)
      modifies this
      ensures Valid() && !autoRange
      ensures recorded == old(recorded) && samples == old(samples) && IsRangedFor(recorded)
      decreases 1
    {
      hide Truncate, BucketOf, ChooseRange, Sum, SumOfSquares;
      var sum, sum2 := SampleMoments(samples);
      var n := |samples|;
      var mean := sum / n as real;
      var variance := sum2 / n as real - mean * mean;
      if variance < 0.0 {
        variance := 0.0;
      }
      SetRange(mean, sqrt(variance));
      autoRange := false;
      recorded := [];
      for i := 0 to n
        invariant Valid() && !autoRange && samples == old(samples) && recorded == samples[..i]
        invariant IsRangedFor(samples)
      {
        Add(samples[i]);
      }
    }

    /** The part of CalcBucketsFromSamples that sets the range. */
    method SetRange(mean: real, stddev: real)
      requires numBuckets >= 3
      modifies `startMs, `endMs, `bucketDtMs
      ensures GetRange() == ChooseRange(mean, stddev, numBuckets)
      ensures bucketDtMs > 0.0 && endMs == GetRange().End()
    {
      var k := (numBuckets - 2) as real;
      startMs := MaxReal(mean - NUM_STD_DEV * stddev, 0.0);
      endMs := mean + NUM_STD_DEV * stddev;
      bucketDtMs := (endMs - startMs) / k;
      if bucketDtMs < MIN_BUCKET_SIZE {
        bucketDtMs := MIN_BUCKET_SIZE;
        var w := bucketDtMs * k;
        startMs := mean - w / 2.0;
        endMs := mean + w / 2.0;
      }
      ChosenEnd(mean, stddev, numBuckets);
    }

    /** Clearing a histogram that has not chosen its range yet would leave it without one. */
    method Clear(autorange: bool)
      requires Valid() && (autorange ==> capacity > 0)
      modifies `buckets, `samples, `autoRange, `count, `recorded
      ensures recorded == [] && samples == [] && count == 0 && autoRange == autorange
      ensures buckets == Zeros(numBuckets)
      ensures Valid() <==> autorange || (bucketDtMs > 0.0 && endMs == GetRange().End())
    {
      buckets := Zeros(numBuckets);
      samples, autoRange, count, recorded := [], autorange, 0, [];
    }

    function Count(): nat
      reads `count
    {
      count
    }

    /** What a histogram says about the samples it was given: either it is still collecting them
        and counts none, or each of them is in exactly one bucket. */
    lemma EachSampleIsHeldOnce()
      requires Valid()
      ensures Total(buckets) == count
      ensures if autoRange then samples == recorded && count == 0 else count == |recorded|
    {
      if autoRange { TotalOfZeros(numBuckets); } else { EverySampleIsCounted(recorded, GetRange()); }
    }

    /** Each bucket counts the samples that lie in it. */
    lemma BucketsAreCounted(b: nat)
      requires Valid() && !autoRange && b < numBuckets
      ensures buckets[b] == Taken(recorded, GetRange(), b)
    {
      BucketsCountWhatTheyTake(recorded, GetRange(), b);
    }

    /** The range is three deviations around the mean of the samples, cut off at 0, or 0.1 ms a
        bucket; it is never wider than six deviations otherwise. */
    lemma RangedTightly()
      requires Valid() && !autoRange && IsRangedFor(recorded)
      requires forall i :: 0 <= i < |recorded| ==> recorded[i] >= 0.0
      ensures exists stddev: real ::
                && IsStdDev(recorded, stddev)
                && var mean := Sum(recorded) / |recorded| as real;
                   var low := if mean >= 3.0 * stddev then mean - 3.0 * stddev else 0.0;
                   && (if mean + 3.0 * stddev - low < 0.1 * (numBuckets - 2) as real
                       then bucketDtMs == 0.1 && startMs + endMs == 2.0 * mean
                       else startMs == low && endMs == mean + 3.0 * stddev)
                   && (bucketDtMs == 0.1 || endMs - startMs <= 6.0 * stddev)
    {
      hide Variance, Counts, ChooseRange;
      var stddev := sqrt(MaxReal(Variance(recorded), 0.0));
      MeanOfNonNegative(recorded);
      ChosenRangeIsTight(Mean(recorded), stddev, numBuckets);
      assert IsStdDev(recorded, stddev);
    }

    /** Right after ranging, at most 4 of 13 samples are in the two outer buckets. */
    lemma RangedWell()
      requires Valid() && !autoRange && IsRangedFor(recorded)
      requires forall i :: 0 <= i < |recorded| ==> recorded[i] >= 0.0
      ensures 13 * (buckets[0] + buckets[numBuckets - 1]) <= 4 * count
      ensures 9 * (buckets[0] + buckets[numBuckets - 1]) <= count
              || (bucketDtMs == MIN_BUCKET_SIZE && Clamped(recorded, sqrt(MaxReal(Variance(recorded), 0.0))))
    {
      hide Mean, Variance, Counts, ChooseRange;
      var stddev := sqrt(MaxReal(Variance(recorded), 0.0));
      assert IsStdDev(recorded, stddev);
      NeverMoreThanFourThirteenths(recorded, stddev, numBuckets);
      if SuggestedWidth(Mean(recorded), stddev, numBuckets) >= MIN_BUCKET_SIZE || !Clamped(recorded, stddev) {
        UsuallyANinth(recorded, stddev, numBuckets);
      } else {
        NarrowWidth(Mean(recorded), stddev, numBuckets);
      }
    }
  }

  /** The first loop of CalcBucketsFromSamples. */
  method SampleMoments(samples: seq<real>) returns (sum: real, sum2: real)
    ensures sum == Sum(samples) && sum2 == SumOfSquares(samples)
  {
    sum, sum2 := 0.0, 0.0;
    for i := 0 to |samples|
      invariant sum == Sum(samples[..i]) && sum2 == SumOfSquares(samples[..i])
    {
      MomentsOfOneMore(samples, i);
      sum := sum + samples[i];
      sum2 := sum2 + samples[i] * samples[i];
    }
    assert samples[..|samples|] == samples;
  }

  lemma MomentsOfOneMore(s: seq<real>, i: nat)
    requires i < |s|
    ensures Sum(s[..i + 1]) == Sum(s[..i]) + s[i]
    ensures SumOfSquares(s[..i + 1]) == SumOfSquares(s[..i]) + s[i] * s[i]
  {
    assert s[..i + 1][..i] == s[..i];
  }

  lemma NarrowWidth(mean: real, stddev: real, n: nat)
    requires n >= 3 && SuggestedWidth(mean, stddev, n) < MIN_BUCKET_SIZE
    ensures ChooseRange(mean, stddev, n).dt == MIN_BUCKET_SIZE
  {
  }
}
