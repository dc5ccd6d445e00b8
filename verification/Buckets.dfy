/** The bucket arithmetic of Histogram, in exact reals: which bucket a sample falls into, how a
    histogram chooses its own range, and how many samples that choice leaves at the two ends. */
module Buckets {
  /** `count` buckets: one below the range, `count - 2` of width `dt` from `start` on, one above. */
  datatype Range = Range(start: real, dt: real, count: nat) {
    ghost predicate Valid() { dt > 0.0 && count >= 3 }

    function End(): real { start + (count - 2) as real * dt }
  }

  /** Conversion of a floating-point number to int. */
  function Truncate(x: real): int {
    if x >= 0.0 then x.Floor else -((-x).Floor)
  }

  function BucketOf(x: real, r: Range): nat
    requires r.Valid()
    ensures BucketOf(x, r) < r.count
  {
    var i := Truncate((x - r.start) / r.dt);
    if i < 0 then 0 else if i + 1 >= r.count then r.count - 1 else i + 1
  }

  lemma QuotientTimesDivisor(a: real, b: real)
    requires b != 0.0
    ensures (a / b) * b == a
  {
  }

  lemma DivLe(a: real, b: real, c: real)
    requires b > 0.0
    ensures a / b <= c <==> a <= c * b
    ensures c <= a / b <==> c * b <= a
  {
    QuotientTimesDivisor(a, b);
    if a / b < c {
      MulLtReal(a / b, c, b);
    } else if c < a / b {
      MulLtReal(c, a / b, b);
    } else {
      assert c * b == a;
    }
  }

  lemma MulLeReal(a: real, b: real, c: real)
    requires a <= b && c >= 0.0
    ensures a * c <= b * c
  {
  }

  lemma MulLtReal(a: real, b: real, c: real)
    requires a < b && c > 0.0
    ensures a * c < b * c
  {
  }

  /** The samples of each bucket. Truncation makes the first inner bucket twice as wide: it also
      takes what lies less than one width below the range. */
  lemma BucketBounds(x: real, r: Range)
    requires r.Valid()
    ensures BucketOf(x, r) == 0 <==> x <= r.start - r.dt
    ensures BucketOf(x, r) == r.count - 1 <==> x >= r.End()
    ensures var b := BucketOf(x, r);
            1 <= b < r.count - 1 ==>
              && x < r.start + b as real * r.dt
              && (r.start + (b as real - 1.0) * r.dt <= x || (b == 1 && r.start - r.dt < x))
  {
    var q := (x - r.start) / r.dt;
    DivLe(x - r.start, r.dt, -1.0);
    DivLe(x - r.start, r.dt, (r.count - 2) as real);
    var b := BucketOf(x, r);
    DivLe(x - r.start, r.dt, b as real);
    DivLe(x - r.start, r.dt, (b as real - 1.0));
  }

  // ------------------------------------------------------------------------- counting

  function Zeros(n: nat): seq<nat> { seq(n, _ => 0) }

  /** The buckets after the samples were added one by one. */
  function Counts(s: seq<real>, r: Range): (c: seq<nat>)
    requires r.Valid()
    ensures |c| == r.count
  {
    if s == [] then Zeros(r.count)
    else
      var c, b := Counts(s[..|s| - 1], r), BucketOf(s[|s| - 1], r);
      c[b := c[b] + 1]
  }

  function Total(c: seq<nat>): nat {
    if c == [] then 0 else Total(c[..|c| - 1]) + c[|c| - 1]
  }

  lemma {:induction false} TotalOfZeros(n: nat)
    ensures Total(Zeros(n)) == 0
  {
    if n > 0 {
      assert Zeros(n)[..n - 1] == Zeros(n - 1);
      TotalOfZeros(n - 1);
    }
  }

  lemma {:induction false} TotalOfIncrement(c: seq<nat>, b: nat)
    requires b < |c|
    ensures Total(c[b := c[b] + 1]) == Total(c) + 1
  {
    var d := c[b := c[b] + 1];
    if b == |c| - 1 {
      assert d[..|c| - 1] == c[..|c| - 1];
    } else {
      assert d[..|c| - 1] == c[..|c| - 1][b := c[b] + 1];
      TotalOfIncrement(c[..|c| - 1], b);
    }
  }

  /** Every sample is in exactly one bucket. */
  lemma {:induction false} EverySampleIsCounted(s: seq<real>, r: Range)
    requires r.Valid()
    ensures Total(Counts(s, r)) == |s|
  {
    if s == [] {
      TotalOfZeros(r.count);
    } else {
      EverySampleIsCounted(s[..|s| - 1], r);
      TotalOfIncrement(Counts(s[..|s| - 1], r), BucketOf(s[|s| - 1], r));
    }
  }

  /** What a bucket takes: the first what is at least one width below the range, the last what is at
      or beyond its end, and each other one its width; the first of these also takes what is less
      than one width below. */
  predicate Takes(r: Range, b: nat, x: real) {
    if b == 0 then x <= r.start - r.dt
    else if b + 1 >= r.count then x >= r.End()
    else x < r.start + b as real * r.dt && (r.start + (b as real - 1.0) * r.dt <= x || (b == 1 && r.start - r.dt < x))
  }

  lemma BucketTakesIff(x: real, r: Range, b: nat)
    requires r.Valid() && b < r.count
    ensures BucketOf(x, r) == b <==> Takes(r, b, x)
  {
    BucketBounds(x, r);
    if Takes(r, b, x) { TakesApart(x, r, BucketOf(x, r), b); }
  }

  /** No two buckets take the same. */
  lemma TakesApart(x: real, r: Range, b: nat, c: nat)
    requires r.Valid() && b < r.count && c < r.count && Takes(r, b, x) && Takes(r, c, x)
    ensures c == b
  {
    if c < b {
      TakesInOrder(x, r, c, b);
    } else if b < c {
      TakesInOrder(x, r, b, c);
    }
  }

  lemma TakesInOrder(x: real, r: Range, b: nat, c: nat)
    requires r.Valid() && b < c < r.count && Takes(r, b, x)
    ensures !Takes(r, c, x)
  {
    hide Takes;
    var b', c', n', dt := b as real, c as real - 1.0, (r.count - 2) as real, r.dt;
    assert b' <= n' && b' <= c';
    var low, high, width := b' * dt, c' * dt, n' * dt;
    assert low <= width by { MulLeReal(b', n', dt); }
    assert low <= high by { MulLeReal(b', c', dt); }
    EndsBefore(x, r, b, c, low, high, width);
  }

  lemma EndsBefore(x: real, r: Range, b: nat, c: nat, low: real, high: real, width: real)
    requires r.dt > 0.0 && b < c < r.count && Takes(r, b, x)
    requires low == b as real * r.dt && high == (c as real - 1.0) * r.dt && width == (r.count - 2) as real * r.dt
    requires low <= high && low <= width
    ensures !Takes(r, c, x)
  {
    if b == 0 {
      assert low == 0.0;
    } else {
      assert x < r.start + low;
    }
    assert r.End() == r.start + width;
  }

  /** How many of the samples a bucket takes. */
  function Taken(s: seq<real>, r: Range, b: nat): nat {
    if s == [] then 0 else Taken(s[..|s| - 1], r, b) + if Takes(r, b, s[|s| - 1]) then 1 else 0
  }

  /** Every bucket counts what it takes. */
  lemma {:induction false} BucketsCountWhatTheyTake(s: seq<real>, r: Range, b: nat)
    requires r.Valid() && b < r.count
    ensures Counts(s, r)[b] == Taken(s, r, b)
  {
    if s != [] {
      BucketsCountWhatTheyTake(s[..|s| - 1], r, b);
      BucketTakesIff(s[|s| - 1], r, b);
      hide Takes, BucketOf;
    }
  }

  /** The samples in the two outer buckets. */
  function Extremes(s: seq<real>, r: Range): nat
    requires r.Valid()
  {
    Counts(s, r)[0] + Counts(s, r)[r.count - 1]
  }

  predicate IsExtreme(x: real, r: Range)
    requires r.Valid()
  {
    BucketOf(x, r) == 0 || BucketOf(x, r) == r.count - 1
  }

  // ---------------------------------------------------------------- mean and deviation

  function Sum(s: seq<real>): real {
    if s == [] then 0.0 else Sum(s[..|s| - 1]) + s[|s| - 1]
  }

  function Square(x: real): real { x * x }

  function SumOfSquares(s: seq<real>): real {
    if s == [] then 0.0 else SumOfSquares(s[..|s| - 1]) + Square(s[|s| - 1])
  }

  function Mean(s: seq<real>): real
    requires s != []
  {
    Sum(s) / |s| as real
  }

  /** `sum2 / n - mean * mean`; rounding could make it negative, exact arithmetic does not. */
  function Variance(s: seq<real>): real
    requires s != []
  {
    SumOfSquares(s) / |s| as real - Mean(s) * Mean(s)
  }

  /** The sum of the squared distances from `c`. */
  function Spread(s: seq<real>, c: real): real {
    if s == [] then 0.0 else Spread(s[..|s| - 1], c) + Square(s[|s| - 1] - c)
  }

  /** Multiplying out the squares of a spread. */
  ghost predicate Expands(spread: real, sum2: real, sum: real, n: real, c: real) {
    spread == sum2 - 2.0 * c * sum + n * (c * c) && spread >= 0.0
  }

  lemma {:induction false} SpreadExpands(s: seq<real>, c: real)
    ensures Expands(Spread(s, c), SumOfSquares(s), Sum(s), |s| as real, c)
  {
    if s != [] {
      hide Expands, Square;
      var front, x := s[..|s| - 1], s[|s| - 1];
      SpreadExpands(front, c);
      ExpandOneMore(Spread(front, c), SumOfSquares(front), Sum(front), |front| as real, x, c);
      assert |s| as real == |front| as real + 1.0;
    }
  }

  lemma ExpandOneMore(spread: real, sum2: real, sum: real, n: real, x: real, c: real)
    requires Expands(spread, sum2, sum, n, c)
    ensures Expands(spread + Square(x - c), sum2 + Square(x), sum + x, n + 1.0, c)
  {
    assert (x - c) * (x - c) == x * x - 2.0 * c * x + c * c;
    assert 2.0 * c * (sum + x) == 2.0 * c * sum + 2.0 * c * x;
    assert (n + 1.0) * (c * c) == n * (c * c) + c * c;
    SquareIsNonNegative(x - c);
  }

  ghost predicate AreMoments(n: real, sum: real, sum2: real, mean: real, variance: real) {
    n > 0.0 && mean == sum / n && variance == sum2 / n - mean * mean
  }

  lemma MomentsOf(s: seq<real>)
    requires s != []
    ensures AreMoments(|s| as real, Sum(s), SumOfSquares(s), Mean(s), Variance(s))
  {
  }

  /** The spread of `n` samples around a center `u` away from their mean. */
  ghost predicate IsSpread(spread: real, n: real, variance: real, u: real) {
    spread == n * variance + n * Square(u) && spread >= 0.0
  }

  lemma SpreadBelowMean(s: seq<real>, u: real)
    requires s != []
    ensures IsSpread(Spread(s, Mean(s) - u), |s| as real, Variance(s), u)
  {
    hide *;
    MomentsOf(s);
    SpreadExpands(s, Mean(s) - u);
    SpreadAlgebra(Spread(s, Mean(s) - u), |s| as real, Sum(s), SumOfSquares(s), Mean(s), Variance(s), Mean(s) - u, u);
  }

  lemma SpreadAlgebra(spread: real, n: real, sum: real, sum2: real, m: real, v: real, c: real, u: real)
    requires AreMoments(n, sum, sum2, m, v) && c == m - u && Expands(spread, sum2, sum, n, c)
    ensures IsSpread(spread, n, v, u)
  {
    QuotientTimesDivisor(sum, n);
    QuotientTimesDivisor(sum2, n);
    SpreadPolynomial(n, sum2 / n, m, u);
    assert 2.0 * c * (n * m) == 2.0 * c * sum;
  }

  lemma SpreadPolynomial(n: real, v: real, m: real, u: real)
    ensures var c := m - u; n * v - 2.0 * c * (n * m) + n * (c * c) == n * (v - m * m) + n * (u * u)
  {
  }

  lemma VarianceIsNonNegative(s: seq<real>)
    requires s != []
    ensures Variance(s) >= 0.0
  {
    hide *;
    SpreadBelowMean(s, 0.0);
    FactorIsNonNegative(Spread(s, Mean(s) - 0.0), |s| as real, Variance(s));
  }

  lemma FactorIsNonNegative(spread: real, n: real, v: real)
    requires n > 0.0 && IsSpread(spread, n, v, 0.0)
    ensures v >= 0.0
  {
    if v < 0.0 { MulLtReal(v, 0.0, n); }
  }

  lemma SpreadInStdDev(s: seq<real>, stddev: real, u: real)
    requires s != [] && IsStdDev(s, stddev)
    ensures IsSpread(Spread(s, Mean(s) - u), |s| as real, Square(stddev), u)
  {
    hide Mean, Variance, Spread, Square, IsSpread;
    VarianceIsNonNegative(s);
    SpreadBelowMean(s, u);
  }

  lemma MeanOfNonNegative(s: seq<real>)
    requires s != [] && forall i :: 0 <= i < |s| ==> s[i] >= 0.0
    ensures Mean(s) >= 0.0
  {
    SumOfNonNegative(s);
    DivLe(Sum(s), |s| as real, 0.0);
  }

  lemma {:induction false} SumOfNonNegative(s: seq<real>)
    requires forall i :: 0 <= i < |s| ==> s[i] >= 0.0
    ensures Sum(s) >= 0.0
  {
    if s != [] { SumOfNonNegative(s[..|s| - 1]); }
  }

  // ------------------------------------------------------------------- choosing a range

  const NUM_STD_DEV := 3.0
  const MIN_BUCKET_SIZE := 0.1

  function MaxReal(a: real, b: real): real { if a >= b then a else b }

  /** The width the mean and the standard deviation suggest. */
  function SuggestedWidth(mean: real, stddev: real, n: nat): real
    requires n >= 3
  {
    (mean + NUM_STD_DEV * stddev - MaxReal(mean - NUM_STD_DEV * stddev, 0.0)) / (n - 2) as real
  }

  function ChooseRange(mean: real, stddev: real, n: nat): Range
    requires n >= 3
  {
    if SuggestedWidth(mean, stddev, n) < MIN_BUCKET_SIZE
    then Range(mean - MIN_BUCKET_SIZE * (n - 2) as real / 2.0, MIN_BUCKET_SIZE, n)
    else Range(MaxReal(mean - NUM_STD_DEV * stddev, 0.0), SuggestedWidth(mean, stddev, n), n)
  }

  ghost predicate IsStdDev(s: seq<real>, stddev: real)
    requires s != []
  {
    stddev >= 0.0 && Square(stddev) == MaxReal(Variance(s), 0.0)
  }

  /** The end of the chosen range. */
  lemma ChosenEnd(mean: real, stddev: real, n: nat)
    requires n >= 3
    ensures var w := SuggestedWidth(mean, stddev, n);
            && ChooseRange(mean, stddev, n).Valid()
            && ChooseRange(mean, stddev, n).End()
               == if w < MIN_BUCKET_SIZE then mean + MIN_BUCKET_SIZE * (n - 2) as real / 2.0
                  else mean + NUM_STD_DEV * stddev
  {
    var k := (n - 2) as real;
    var span := mean + NUM_STD_DEV * stddev - MaxReal(mean - NUM_STD_DEV * stddev, 0.0);
    assert k * (span / k) == span;
  }

  /** The chosen range in numbers: three deviations on either side of the mean, cut off at 0; or, if
      that makes buckets of less than 0.1 ms, buckets of 0.1 ms around the mean. */
  lemma ChosenRangeIsTight(mean: real, stddev: real, n: nat)
    requires n >= 3 && stddev >= 0.0 && mean >= 0.0
    ensures var r, low := ChooseRange(mean, stddev, n), if mean >= 3.0 * stddev then mean - 3.0 * stddev else 0.0;
            && r.Valid() && r.count == n
            && (if mean + 3.0 * stddev - low < 0.1 * (n - 2) as real
                then r.dt == 0.1 && r.start + r.End() == 2.0 * mean
                else r.start == low && r.End() == mean + 3.0 * stddev)
            && (r.dt == 0.1 || r.End() - r.start <= 6.0 * stddev)
  {
    var k := (n - 2) as real;
    ChosenEnd(mean, stddev, n);
    DivLe(mean + 3.0 * stddev - MaxReal(mean - 3.0 * stddev, 0.0), k, 0.1);
  }

  // ---------------------------------------------- how much ends up outside the range

  ghost predicate IsFar(x: real, c: real, k: real) {
    Square(x - c) >= k
  }

  ghost predicate AtMost(k: real, e: real, spread: real) {
    k * e <= spread
  }

  /** Markov's inequality for the squared distance from a center. */
  lemma {:induction false} ExtremesBound(s: seq<real>, r: Range, c: real, k: real)
    requires r.Valid()
    requires forall i :: 0 <= i < |s| && IsExtreme(s[i], r) ==> IsFar(s[i], c, k)
    ensures AtMost(k, Extremes(s, r) as real, Spread(s, c))
  {
    if s != [] {
      hide AtMost, IsFar, Square, BucketOf;
      var front, x := s[..|s| - 1], s[|s| - 1];
      ExtremesBound(front, r, c, k);
      assert IsExtreme(s[|s| - 1], r) ==> IsFar(x, c, k);
      assert Extremes(s, r) == Extremes(front, r) + if IsExtreme(x, r) then 1 else 0;
      AddExtreme(k, Extremes(front, r) as real, Spread(front, c), x, c);
    }
  }

  lemma SquareIsNonNegative(a: real)
    ensures Square(a) >= 0.0
  {
  }

  lemma AddExtreme(k: real, e: real, spread: real, x: real, c: real)
    requires AtMost(k, e, spread)
    ensures AtMost(k, e, spread + Square(x - c))
    ensures IsFar(x, c, k) ==> AtMost(k, e + 1.0, spread + Square(x - c))
  {
    SquareIsNonNegative(x - c);
    assert k * (e + 1.0) == k * e + k;
  }

  /** At least three standard deviations, as a squared distance. */
  ghost predicate IsWide(k: real, stddev: real) {
    k > 0.0 && k >= 9.0 * Square(stddev)
  }

  /** Chebyshev's inequality at three standard deviations. */
  lemma Chebyshev(e: real, n: real, sigma: real, k: real, spread: real)
    requires e >= 0.0 && n >= 0.0 && IsWide(k, sigma)
    requires AtMost(k, e, spread) && IsSpread(spread, n, Square(sigma), 0.0)
    ensures 9.0 * e <= n
  {
    SquareIsNonNegative(sigma);
    ChebyshevAlgebra(e, n, Square(sigma), k);
  }

  lemma ChebyshevAlgebra(e: real, n: real, v: real, k: real)
    requires e >= 0.0 && n >= 0.0 && k > 0.0 && v >= 0.0 && k >= 9.0 * v && k * e <= n * v
    ensures 9.0 * e <= n
  {
    if 9.0 * e > n {
      assert (9.0 * v) * e == (9.0 * e) * v;
      MulLeReal(9.0 * v, k, e);
      MulLtReal(0.0, e, k);
      assert v > 0.0;
      MulLtReal(n, 9.0 * e, v);
    }
  }

  lemma SquareLeReal(a: real, b: real)
    requires 0.0 <= a <= b
    ensures Square(a) <= Square(b)
  {
    MulLeReal(a, b, a);
    MulLeReal(a, b, b);
  }

  lemma FarAway(x: real, c: real, a: real)
    requires a >= 0.0 && (x - c >= a || c - x >= a)
    ensures IsFar(x, c, Square(a))
  {
    if x - c >= a { SquareLeReal(a, x - c); } else { SquareLeReal(a, c - x); SquareOfNegative(x - c); }
  }

  lemma SquareOfNegative(x: real)
    ensures Square(-x) == Square(x)
  {
  }

  lemma SquareOfTriple(x: real)
    ensures Square(3.0 * x) == 9.0 * Square(x)
  {
  }

  /** An extreme sample of the chosen range is at least `a` away from the mean. */
  lemma ChosenExtremesAreFar(s: seq<real>, stddev: real, n: nat, a: real, i: int)
    requires s != [] && n >= 3 && stddev >= 0.0 && 0 <= i < |s| && s[i] >= 0.0
    requires var m, w := Mean(s), SuggestedWidth(Mean(s), stddev, n);
             if w < MIN_BUCKET_SIZE then a == MIN_BUCKET_SIZE * (n - 2) as real / 2.0 else a == 3.0 * stddev
    requires IsExtreme(s[i], ChooseRange(Mean(s), stddev, n))
    ensures s[i] - Mean(s) >= a || Mean(s) - s[i] >= a
  {
    var r := ChooseRange(Mean(s), stddev, n);
    ChosenEnd(Mean(s), stddev, n);
    BucketBounds(s[i], r);
  }

  ghost predicate Clamped(s: seq<real>, stddev: real)
    requires s != []
  {
    Mean(s) - NUM_STD_DEV * stddev < 0.0
  }

  /** At most a ninth of the samples is outside, unless the range was clamped at zero and is so
      narrow that the minimal bucket width had to be used. */
  lemma UsuallyANinth(s: seq<real>, stddev: real, n: nat)
    requires s != [] && n >= 3 && IsStdDev(s, stddev)
    requires forall i :: 0 <= i < |s| ==> s[i] >= 0.0
    requires SuggestedWidth(Mean(s), stddev, n) >= MIN_BUCKET_SIZE || !Clamped(s, stddev)
    ensures ChooseRange(Mean(s), stddev, n).Valid()
    ensures 9 * Extremes(s, ChooseRange(Mean(s), stddev, n)) <= |s|
  {
    var m, w := Mean(s), SuggestedWidth(Mean(s), stddev, n);
    var r := ChooseRange(m, stddev, n);
    var a := if w < MIN_BUCKET_SIZE then MIN_BUCKET_SIZE * (n - 2) as real / 2.0 else 3.0 * stddev;
    ChosenEnd(m, stddev, n);
    WideEnough(m, stddev, n, a);
    hide *;
    forall i | 0 <= i < |s| && IsExtreme(s[i], r) ensures IsFar(s[i], m, Square(a)) {
      ChosenExtremesAreFar(s, stddev, n, a, i);
      FarAway(s[i], m, a);
    }
    ExtremesBound(s, r, m, Square(a));
    SpreadInStdDev(s, stddev, 0.0);
    assert Mean(s) - 0.0 == m;
    Chebyshev(Extremes(s, r) as real, |s| as real, stddev, Square(a), Spread(s, m));
  }

  lemma WideEnough(m: real, stddev: real, n: nat, a: real)
    requires n >= 3 && stddev >= 0.0
    requires var w := SuggestedWidth(m, stddev, n);
             && (w >= MIN_BUCKET_SIZE || m - NUM_STD_DEV * stddev >= 0.0)
             && if w < MIN_BUCKET_SIZE then a == MIN_BUCKET_SIZE * (n - 2) as real / 2.0
                else a == 3.0 * stddev
    ensures a > 0.0 && IsWide(Square(a), stddev)
  {
    var k := (n - 2) as real;
    var span := m + NUM_STD_DEV * stddev - MaxReal(m - NUM_STD_DEV * stddev, 0.0);
    DivLe(span, k, MIN_BUCKET_SIZE);
    SquareOfTriple(stddev);
    assert MIN_BUCKET_SIZE * k > 0.0;
    assert a > 0.0 && a >= 3.0 * stddev;
    SquareLeReal(3.0 * stddev, a);
    MulLtReal(0.0, a, a);
  }

  /** The center below the mean that makes Cantelli's inequality sharp. */
  ghost predicate IsCenter(u: real, sigma: real, a: real) {
    sigma > 0.0 && a > 0.0 && u > 0.0 && u * a == Square(sigma)
  }

  /** Cantelli's inequality at one and a half standard deviations. */
  lemma Cantelli(e: real, n: real, sigma: real, a: real, u: real, spread: real)
    requires e >= 0.0 && n >= 0.0 && a >= 1.5 * sigma && IsCenter(u, sigma, a)
    requires AtMost(Square(a + u), e, spread) && IsSpread(spread, n, Square(sigma), u)
    ensures 13.0 * e <= 4.0 * n
  {
    CenterIsClose(sigma, a, u);
    CancelFactor(e, n, a, u);
    // now (a + u) e <= n u, and a + u >= 3.25 u
    MulLeReal(3.25 * u, a + u, e);
    assert (3.25 * u) * e == (3.25 * e) * u;
    if 3.25 * e > n { MulLtReal(n, 3.25 * e, u); }
  }

  /** `n sigma^2 + n u^2` is `n u (a + u)`, so one factor `a + u` cancels. */
  lemma CancelFactor(e: real, n: real, a: real, u: real)
    requires a > 0.0 && u > 0.0
    requires ((a + u) * (a + u)) * e <= n * (u * a) + n * (u * u)
    ensures (a + u) * e <= n * u
  {
    var t := a + u;
    assert n * (u * a) + n * (u * u) == (n * u) * t;
    assert (t * t) * e == (t * e) * t;
    if t * e > n * u { MulLtReal(n * u, t * e, t); }
  }

  lemma CenterIsClose(sigma: real, a: real, u: real)
    requires sigma > 0.0 && a >= 1.5 * sigma && u * a == Square(sigma)
    ensures a >= 2.25 * u
  {
    SquareLeReal(1.5 * sigma, a);
    assert (1.5 * sigma) * (1.5 * sigma) == 2.25 * (sigma * sigma);
    assert (2.25 * u) * a == 2.25 * (u * a);
    if a < 2.25 * u { MulLtReal(a, 2.25 * u, a); }
  }

  /** In the narrow clamped case only late samples are extreme, and by half the total width. */
  lemma NarrowClampedIsOneSided(m: real, stddev: real, n: nat, x: real)
    requires n >= 3 && stddev >= 0.0 && m >= 0.0 && x >= 0.0
    requires m - NUM_STD_DEV * stddev < 0.0 && SuggestedWidth(m, stddev, n) < MIN_BUCKET_SIZE
    ensures var a := MIN_BUCKET_SIZE * (n - 2) as real / 2.0;
            && a >= 1.5 * stddev && stddev > 0.0
            && ChooseRange(m, stddev, n).Valid()
            && (IsExtreme(x, ChooseRange(m, stddev, n)) ==> x >= m + a)
  {
    var k := (n - 2) as real;
    var r := ChooseRange(m, stddev, n);
    DivLe(MIN_BUCKET_SIZE, 1.0, MIN_BUCKET_SIZE);
    DivLe(m + NUM_STD_DEV * stddev, k, MIN_BUCKET_SIZE);
    ChosenEnd(m, stddev, n);
    BucketBounds(x, r);
  }

  /** Never more than 4/13 of the samples are outside the chosen range. */
  lemma NeverMoreThanFourThirteenths(s: seq<real>, stddev: real, n: nat)
    requires s != [] && n >= 3 && IsStdDev(s, stddev)
    requires forall i :: 0 <= i < |s| ==> s[i] >= 0.0
    ensures ChooseRange(Mean(s), stddev, n).Valid()
    ensures 13 * Extremes(s, ChooseRange(Mean(s), stddev, n)) <= 4 * |s|
  {
    if SuggestedWidth(Mean(s), stddev, n) >= MIN_BUCKET_SIZE || !Clamped(s, stddev) {
      UsuallyANinth(s, stddev, n);
    } else {
      var m, r := Mean(s), ChooseRange(Mean(s), stddev, n);
      var a := MIN_BUCKET_SIZE * (n - 2) as real / 2.0;
      MeanOfNonNegative(s);
      NarrowClampedIsOneSided(m, stddev, n, 0.0);
      var u := CenterBelowMean(stddev, a);
      hide *;
      forall i | 0 <= i < |s| && IsExtreme(s[i], r) ensures IsFar(s[i], m - u, Square(a + u)) {
        NarrowExtremeIsLate(s, stddev, n, i);
        FarAway(s[i], m - u, a + u);
      }
      ExtremesBound(s, r, m - u, Square(a + u));
      SpreadInStdDev(s, stddev, u);
      Cantelli(Extremes(s, r) as real, |s| as real, stddev, a, u, Spread(s, m - u));
    }
  }

  lemma NarrowExtremeIsLate(s: seq<real>, stddev: real, n: nat, i: int)
    requires s != [] && n >= 3 && IsStdDev(s, stddev) && 0 <= i < |s|
    requires forall j :: 0 <= j < |s| ==> s[j] >= 0.0
    requires Clamped(s, stddev) && SuggestedWidth(Mean(s), stddev, n) < MIN_BUCKET_SIZE
    ensures ChooseRange(Mean(s), stddev, n).Valid()
    ensures IsExtreme(s[i], ChooseRange(Mean(s), stddev, n)) ==>
              s[i] >= Mean(s) + MIN_BUCKET_SIZE * (n - 2) as real / 2.0
  {
    MeanOfNonNegative(s);
    NarrowClampedIsOneSided(Mean(s), stddev, n, s[i]);
  }

  lemma CenterBelowMean(stddev: real, a: real) returns (u: real)
    requires stddev > 0.0 && a > 0.0
    ensures IsCenter(u, stddev, a) && u > 0.0
  {
    u := Square(stddev) / a;
    QuotientTimesDivisor(Square(stddev), a);
    SquareIsPositive(stddev);
    PositiveFactor(u, a, Square(stddev));
  }

  lemma SquareIsPositive(a: real)
    requires a > 0.0
    ensures Square(a) > 0.0
  {
    PositiveProduct(Square(a), a, a);
  }

  lemma PositiveProduct(p: real, a: real, b: real)
    requires a > 0.0 && b > 0.0 && p == a * b
    ensures p > 0.0
  {
  }

  lemma PositiveFactor(u: real, a: real, product: real)
    requires u * a == product && a > 0.0 && product > 0.0
    ensures u > 0.0
  {
    if u <= 0.0 { MulLeReal(u, 0.0, a); }
  }
}
