/** Frame durations, the swap-interval arithmetic and the sliding window of SwappyCommon,
    all in nanoseconds. */
module FrameTiming {
  import opened CInt

  const MAX_DURATION := 100_000_000
  const FRAME_MARGIN := 3_000_000
  const EDGE_HYSTERESIS := 4_000_000
  const REFRESH_RATE_MARGIN := 500
  const SAME_DURATION_MARGIN := 1_000_000
  const FRAME_DURATION_SAMPLES: nat := 300

  datatype PipelineMode = Off | On

  datatype FrameDuration = FrameDuration(cpu: int, gpu: int) {
    /** The time a frame needs: both stages overlap when pipelining. */
    function GetTime(pipeline: PipelineMode): int {
      if pipeline == On then Max(cpu, gpu) else cpu + gpu
    }

    function Plus(other: FrameDuration): FrameDuration {
      FrameDuration(cpu + other.cpu, gpu + other.gpu)
    }

    function Minus(other: FrameDuration): FrameDuration {
      FrameDuration(cpu - other.cpu, gpu - other.gpu)
    }

    function Over(n: int): FrameDuration
      requires n > 0
    {
      FrameDuration(Quot(cpu, n), Quot(gpu, n))
    }

    predicate NonNegative() { 0 <= cpu && 0 <= gpu }

    predicate Clamped() { 0 <= cpu <= MAX_DURATION && 0 <= gpu <= MAX_DURATION }
  }

  const ZERO_DURATION := FrameDuration(0, 0)

  /** The two-argument constructor of FrameDuration. */
  function MakeDuration(cpu: int, gpu: int): FrameDuration {
    FrameDuration(Min(cpu, MAX_DURATION), Min(gpu, MAX_DURATION))
  }

  /** How many refresh periods a frame of the given length occupies. */
  function CalculateSwapInterval(frameTime: int, refreshPeriod: int): int
    requires refreshPeriod > 0
  {
    if frameTime < refreshPeriod then 1
    else
      Quot(frameTime, refreshPeriod)
      + (if Rem(frameTime, refreshPeriod) > REFRESH_RATE_MARGIN then 1 else 0)
  }

  /** `n` periods hold the frame up to the 500 ns margin, and no smaller positive count does. */
  ghost predicate IsLeastInterval(n: int, frameTime: int, refreshPeriod: int) {
    && n >= 1
    && n * refreshPeriod >= frameTime - 500
    && forall m {:trigger m * refreshPeriod} ::
         1 <= m && m * refreshPeriod >= frameTime - 500 ==> n <= m
  }

  lemma IntervalIsLeast(frameTime: int, refreshPeriod: int)
    requires refreshPeriod > REFRESH_RATE_MARGIN
    ensures IsLeastInterval(CalculateSwapInterval(frameTime, refreshPeriod), frameTime, refreshPeriod)
  {
    var n := CalculateSwapInterval(frameTime, refreshPeriod);
    if frameTime >= refreshPeriod {
      var q, r := frameTime / refreshPeriod, frameTime % refreshPeriod;
      assert frameTime == refreshPeriod * q + r;
      assert q >= 1;
      forall m {:trigger m * refreshPeriod}
        | 1 <= m && m * refreshPeriod >= frameTime - REFRESH_RATE_MARGIN
        ensures n <= m
      {
        if m < n { MulLt(m, n, refreshPeriod); }
      }
    }
  }

  /** The interval is the least one that fits for every frame time exactly when a refresh
      period is longer than the 500 ns margin. */
  lemma IntervalIsLeastIff(refreshPeriod: int)
    requires refreshPeriod > 0
    ensures (forall t :: IsLeastInterval(CalculateSwapInterval(t, refreshPeriod), t, refreshPeriod))
            <==> refreshPeriod > 500
  {
    if refreshPeriod > REFRESH_RATE_MARGIN {
      forall t
        ensures IsLeastInterval(CalculateSwapInterval(t, refreshPeriod), t, refreshPeriod)
      {
        IntervalIsLeast(t, refreshPeriod);
      }
    } else {
      var t := 2 * refreshPeriod;
      assert t / refreshPeriod == 2;
      assert 1 * refreshPeriod >= t - REFRESH_RATE_MARGIN;
      assert !IsLeastInterval(CalculateSwapInterval(t, refreshPeriod), t, refreshPeriod);
    }
  }

  lemma IntervalIsMonotone(t: int, u: int, refreshPeriod: int)
    requires refreshPeriod > 0 && t <= u
    ensures CalculateSwapInterval(t, refreshPeriod) <= CalculateSwapInterval(u, refreshPeriod)
  {
    if refreshPeriod > REFRESH_RATE_MARGIN {
      IntervalIsLeast(t, refreshPeriod);
      IntervalIsLeast(u, refreshPeriod);
      var n := CalculateSwapInterval(u, refreshPeriod);
      assert n * refreshPeriod >= t - REFRESH_RATE_MARGIN;
    } else {
      ShortPeriodInterval(t, refreshPeriod);
      ShortPeriodInterval(u, refreshPeriod);
      if t >= refreshPeriod { QuotientIsMonotone(t, u, refreshPeriod); }
    }
  }

  /** With a period of up to 500 ns no remainder counts. */
  lemma ShortPeriodInterval(t: int, refreshPeriod: int)
    requires 0 < refreshPeriod <= REFRESH_RATE_MARGIN
    ensures CalculateSwapInterval(t, refreshPeriod) == if t < refreshPeriod then 1 else t / refreshPeriod
    ensures CalculateSwapInterval(t, refreshPeriod) >= 1
  {
    if t >= refreshPeriod { DivBounds(t, refreshPeriod); }
  }

  lemma QuotientIsMonotone(a: int, b: int, d: int)
    requires d > 0 && a <= b
    ensures a / d <= b / d
  {
    DivBounds(a, d);
    DivBounds(b, d);
    if a / d > b / d { MulLe(b / d + 1, a / d, d); }
  }

  /** Componentwise sum of a window of durations. */
  function Sum(w: seq<FrameDuration>): FrameDuration {
    if w == [] then ZERO_DURATION else Sum(w[..|w| - 1]).Plus(w[|w| - 1])
  }

  lemma {:induction false} SumDropFirst(w: seq<FrameDuration>)
    requires w != []
    ensures Sum(w[1..]) == Sum(w).Minus(w[0])
  {
    if |w| > 1 {
      var front := w[..|w| - 1];
      SumDropFirst(front);
      assert w[1..][..|w| - 2] == front[1..];
      assert w[1..][|w| - 2] == w[|w| - 1];
    }
  }

  lemma {:induction false} SumNonNegative(w: seq<FrameDuration>)
    requires forall d <- w :: d.NonNegative()
    ensures Sum(w).NonNegative()
  {
    if w != [] {
      forall d | d in w[..|w| - 1] ensures d.NonNegative() { assert d in w; }
      SumNonNegative(w[..|w| - 1]);
      assert w[|w| - 1] in w;
    }
  }

  lemma {:induction false} SumConstant(w: seq<FrameDuration>, d: FrameDuration)
    requires forall i :: 0 <= i < |w| ==> w[i] == d
    ensures Sum(w) == FrameDuration(|w| * d.cpu, |w| * d.gpu)
  {
    if w != [] { SumConstant(w[..|w| - 1], d); }
  }

  /** The window after one more frame: at most 300 entries, the oldest drops out. */
  function PushDuration(w: seq<FrameDuration>, d: FrameDuration): seq<FrameDuration> {
    (if |w| == FRAME_DURATION_SAMPLES then w[1..] else w) + [d]
  }

  /** A frame enters with both times cut to 100 ms, and the window keeps the newest 300. */
  lemma WindowKeepsNewest(w: seq<FrameDuration>, cpu: int, gpu: int)
    requires |w| <= 300
    ensures var after := PushDuration(w, MakeDuration(cpu, gpu));
            && |after| == Min(|w| + 1, 300)
            && after[|after| - 1].cpu == (if cpu > 100_000_000 then 100_000_000 else cpu)
            && after[|after| - 1].gpu == (if gpu > 100_000_000 then 100_000_000 else gpu)
            && forall i :: 0 <= i < |after| - 1 ==> after[i] == w[|w| - (|after| - 1) + i]
  {
  }

  /** The average of a window: each time is the largest whole number of nanoseconds that the frames
      can all be cut down to. */
  lemma AverageIsWholePart(w: seq<FrameDuration>, d: FrameDuration)
    requires w != [] && Sum(w).NonNegative() && d == Sum(w).Over(|w|)
    ensures |w| * d.cpu <= Sum(w).cpu < |w| * (d.cpu + 1)
    ensures |w| * d.gpu <= Sum(w).gpu < |w| * (d.gpu + 1)
  {
    DivBounds(Sum(w).cpu, |w|);
    DivBounds(Sum(w).gpu, |w|);
    assert |w| * (d.cpu + 1) == |w| * d.cpu + |w| && |w| * (d.gpu + 1) == |w| * d.gpu + |w|;
  }

  /** The sums of the two stages, taken one frame at a time. */
  lemma SumOfOneMore(w: seq<FrameDuration>, d: FrameDuration)
    ensures Sum(w + [d]).cpu == Sum(w).cpu + d.cpu && Sum(w + [d]).gpu == Sum(w).gpu + d.gpu
    ensures Sum([]).cpu == Sum([]).gpu == 0
  {
    assert (w + [d])[..|w|] == w;
  }
}
