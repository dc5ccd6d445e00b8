/** What becomes of a recorded configuration that is adopted later, under another load, or for
    another rate than the one that was chosen. */
module StandingRecords {
  import opened CInt
  import opened FrameTiming
  import opened IntervalControl
  import opened RefreshRates

  /** The average frame fits the configuration recorded for `chosen` when it runs at `period`. */
  predicate RecordFits(l: Load, chosen: Rate, period: int)
    requires chosen.period > 0
  {
    StandingRecordFits(l, l, chosen, period)
  }

  /** A record made for the load `l` fits a later load at `period`. */
  predicate StandingRecordFits(l: Load, later: Load, chosen: Rate, period: int)
    requires chosen.period > 0
  {
    later.average.GetTime(RecordedFor(l, chosen).mode) <= period * RecordedFor(l, chosen).interval
  }

  /** Loads that windows of clamped durations can have. */
  ghost predicate IsLoad(l: Load) {
    l.Valid() && l.average.Clamped()
  }

  /** The longest interval that is recorded for a period: that for a frame of 100 ms. */
  function LongestInterval(period: int): int
    requires period > 0
  {
    CalculateSwapInterval(MAX_DURATION + FRAME_MARGIN, period)
  }

  /** What a record for the period `p` can be adopted at: at the longest interval a frame of 100 ms
      has to fit, and so do two stages that were just short enough not to be pipelined; at the
      others a frame that was just short enough for the interval. */
  predicate IsSafe(p: int, period: int)
    requires p > 0
  {
    var n := LongestInterval(p);
    && period * n >= Max(MAX_DURATION, Min(p * n - FRAME_MARGIN - 1, 2 * MAX_DURATION))
    && (p - period) * (n - 1) <= FRAME_MARGIN - REFRESH_RATE_MARGIN
  }

  lemma NotFasterIsSafe(p: int, period: int)
    requires p > REFRESH_RATE_MARGIN && period >= p
    ensures IsSafe(p, period)
  {
    var n := LongestInterval(p);
    IntervalIsLeast(MAX_DURATION + FRAME_MARGIN, p);
    MulLe(p, period, n);
    MulLe(p - period, 0, n - 1);
    assert n * p == p * n;
  }

  /** A recorded configuration fits every load it can be computed for, at another rate than the
      chosen one, exactly if that rate's period is safe; that of a slower rate always is. */
  lemma RecordFitsIff(chosen: Rate, period: int)
    requires chosen.period > REFRESH_RATE_MARGIN && period > 0
    ensures (forall l: Load :: IsLoad(l) ==> RecordFits(l, chosen, period)) <==> IsSafe(chosen.period, period)
  {
    if IsSafe(chosen.period, period) {
      forall l: Load | IsLoad(l) ensures RecordFits(l, chosen, period) { SafeRecordFits(l, chosen, period); }
    } else {
      var l := UnsafeRecord(chosen, period);
    }
  }

  lemma SafeRecordFits(l: Load, chosen: Rate, period: int)
    requires IsLoad(l) && chosen.period > REFRESH_RATE_MARGIN && period > 0 && IsSafe(chosen.period, period)
    ensures RecordFits(l, chosen, period)
  {
    var p, n := chosen.period, LongestInterval(chosen.period);
    var k, time := RecordedFor(l, chosen).interval, l.average.GetTime(RecordedFor(l, chosen).mode);
    IntervalIsLeast(l.PipelineTime(), p);
    IntervalIsMonotone(l.PipelineTime(), MAX_DURATION + FRAME_MARGIN, p);
    assert k * p == p * k;
    if k < n { ShortIntervalFits(p, period, k, n, time); }
  }

  lemma ShortIntervalFits(p: int, period: int, k: int, n: int, time: int)
    requires 1 <= k <= n - 1 && (p - period) * (n - 1) <= FRAME_MARGIN - REFRESH_RATE_MARGIN
    requires time <= p * k + REFRESH_RATE_MARGIN - FRAME_MARGIN
    ensures time <= period * k
  {
    assert p * k - period * k == (p - period) * k;
    if p > period { MulLe(k, n - 1, p - period); } else { MulLe(p - period, 0, k); }
  }

  lemma UnsafeRecord(chosen: Rate, period: int) returns (l: Load)
    requires chosen.period > REFRESH_RATE_MARGIN && period > 0 && !IsSafe(chosen.period, period)
    ensures IsLoad(l) && !RecordFits(l, chosen, period)
  {
    var p, n := chosen.period, LongestInterval(chosen.period);
    if period * n < MAX_DURATION {
      l := LongestFrame(chosen, period);
    } else if period * n < Min(p * n - FRAME_MARGIN - 1, 2 * MAX_DURATION) {
      l := LongestUnpipelined(chosen, period);
    } else {
      l := LongestBelow(chosen, period);
    }
  }

  lemma LongestFrame(chosen: Rate, period: int) returns (l: Load)
    requires chosen.period > REFRESH_RATE_MARGIN && period * LongestInterval(chosen.period) < MAX_DURATION
    ensures IsLoad(l) && !RecordFits(l, chosen, period)
  {
    l := Load(FrameDuration(MAX_DURATION, 0), chosen.period, 0, false);
    hide CalculateSwapInterval;
    assert RecordedFor(l, chosen) == Config(LongestInterval(chosen.period), On);
  }

  lemma LongestUnpipelined(chosen: Rate, period: int) returns (l: Load)
    requires chosen.period > REFRESH_RATE_MARGIN
    requires var n := LongestInterval(chosen.period);
             MAX_DURATION <= period * n < Min(chosen.period * n - FRAME_MARGIN - 1, 2 * MAX_DURATION)
    ensures IsLoad(l) && !RecordFits(l, chosen, period)
  {
    hide CalculateSwapInterval;
    var p, n := chosen.period, LongestInterval(chosen.period);
    var both := Min(p * n - FRAME_MARGIN - 1, 2 * MAX_DURATION);
    l := Load(FrameDuration(MAX_DURATION, both - MAX_DURATION), p, 0, true);
    assert l.average.GetTime(Off) == both < p * n - FRAME_MARGIN;
    assert DurationAt(chosen, l.PipelineTime()) == p * n;
    assert RecordedFor(l, chosen) == Config(n, Off);
  }

  lemma LongestBelow(chosen: Rate, period: int) returns (l: Load)
    requires chosen.period > REFRESH_RATE_MARGIN
    requires (chosen.period - period) * (LongestInterval(chosen.period) - 1) > FRAME_MARGIN - REFRESH_RATE_MARGIN
    ensures IsLoad(l) && !RecordFits(l, chosen, period)
  {
    var p, n := chosen.period, LongestInterval(chosen.period);
    LongestIntervalBounds(p);
    IntervalAtItsEnd(p, n - 1);
    hide CalculateSwapInterval;
    l := Load(FrameDuration(p * (n - 1) + REFRESH_RATE_MARGIN - FRAME_MARGIN, 0), p, 0, false);
    assert RecordedFor(l, chosen) == Config(n - 1, On);
    assert p * (n - 1) - period * (n - 1) == (p - period) * (n - 1);
  }

  /** The longest frame of an interval of `k` periods. */
  lemma IntervalAtItsEnd(p: int, k: int)
    requires p > REFRESH_RATE_MARGIN && k >= 1
    ensures CalculateSwapInterval(p * k + REFRESH_RATE_MARGIN, p) == k
  {
    IntervalIsLeast(p * k + REFRESH_RATE_MARGIN, p);
    var n := CalculateSwapInterval(p * k + REFRESH_RATE_MARGIN, p);
    assert k * p == p * k && n * p == p * n && p * (k - 1) == p * k - p;
    if n < k { MulLe(n, k - 1, p); }
  }

  lemma LongestIntervalBounds(p: int)
    requires p > REFRESH_RATE_MARGIN
    ensures var n, longest := LongestInterval(p), MAX_DURATION + FRAME_MARGIN;
            && n >= 1 && p * n >= longest - REFRESH_RATE_MARGIN
            && (n >= 2 ==> FRAME_MARGIN <= p * (n - 1) + REFRESH_RATE_MARGIN < longest)
  {
    var n, longest := LongestInterval(p), MAX_DURATION + FRAME_MARGIN;
    IntervalIsLeast(longest, p);
    assert n * p == p * n && (n - 1) * p == p * (n - 1) && p * (n - 1) == p * n - p;
    if n >= 2 { MulLe(1, n - 1, p); }
  }

  /** The frames are not longer than those a record was made for, in the recorded mode. */
  ghost predicate NotLonger(l: Load, later: Load, chosen: Rate)
    requires chosen.period > 0
  {
    var mode := RecordedFor(l, chosen).mode;
    IsLoad(l) && IsLoad(later) && later.average.GetTime(mode) <= l.average.GetTime(mode)
  }

  /** As long as the frames do not become longer, a record that is adopted later fits, for every pair
      of loads, exactly if the period that is reported is safe. */
  lemma StandingRecordFitsIff(chosen: Rate, period: int)
    requires chosen.period > REFRESH_RATE_MARGIN && period > 0
    ensures (forall l: Load, later: Load :: NotLonger(l, later, chosen) ==> StandingRecordFits(l, later, chosen, period))
            <==> IsSafe(chosen.period, period)
  {
    RecordFitsIff(chosen, period);
    if IsSafe(chosen.period, period) {
      forall l: Load, later: Load | NotLonger(l, later, chosen) ensures StandingRecordFits(l, later, chosen, period) {
        assert RecordFits(l, chosen, period);
      }
    } else {
      var l: Load :| IsLoad(l) && !RecordFits(l, chosen, period);
      assert NotLonger(l, l, chosen) && !StandingRecordFits(l, l, chosen, period);
    }
  }

  /** Whatever the frames have become, a record fits exactly if its swap period at the reported rate
      holds the longest frame there is in the recorded mode. */
  lemma AnyLaterLoadFitsIff(l: Load, chosen: Rate, period: int)
    requires IsLoad(l) && chosen.period > REFRESH_RATE_MARGIN
    ensures (forall later: Load :: IsLoad(later) ==> StandingRecordFits(l, later, chosen, period))
            <==> var c := RecordedFor(l, chosen);
                 period * c.interval >= MAX_DURATION * if c.mode == On then 1 else 2
  {
    var longest := Load(FrameDuration(MAX_DURATION, MAX_DURATION), l.period, l.appInterval, l.pipelineAuto);
    assert IsLoad(longest);
  }

  /** A record also outlives later searches that find nothing, and is then adopted for whatever
      rate the display reports. Here it was made for 60 Hz and 28 ms frames; when the frames take
      40 ms the search finds nothing, and two periods are too short both at 90 Hz and at the 60 Hz
      that were asked for. */
  lemma StaleRecordIsAdopted()
    ensures exists l: Load, later: Load, rates: seq<Rate>, c: Config ::
              && IsLoad(l) && IsLoad(later) && IsRateMap(rates) && |rates| == 3
              && l.period == later.period == rates[0].period && l.appInterval == later.appInterval
              && IsChoice(rates, SearchAfter(l, c), 2) && Decide(l, c) == c
              && !SomeBetter(rates, SearchAfter(later, Decide(later, c)))
              && !SomeSlowerEqual(rates, SearchAfter(later, Decide(later, c)))
              && forall b :: 1 <= b <= 2 ==>
                   var recorded := RecordedFor(l, rates[2]);
                   var adopted := ApplyTimings(true, SettingsAt(later, later.period), Decide(later, c), recorded,
                                               SettingsAt(later, rates[b].period));
                   adopted == recorded && later.average.GetTime(adopted.mode) > rates[b].period * adopted.interval
  {
    var rates := [Rate(8_333_000, 0), Rate(11_111_000, 1), Rate(16_666_000, 2)];
    var l := Load(FrameDuration(25_000_000, 20_000_000), 8_333_000, 16_666_000, true);
    var later := Load(FrameDuration(37_000_000, 30_000_000), 8_333_000, 16_666_000, true);
    var c := Config(4, On);
    assert CalculateSwapInterval(28_000_000, 8_333_000) == 4;
    assert CalculateSwapInterval(28_000_000, 11_111_000) == 3;
    assert CalculateSwapInterval(28_000_000, 16_666_000) == 2;
    assert CalculateSwapInterval(40_000_000, 8_333_000) == 5;
    assert CalculateSwapInterval(40_000_000, 11_111_000) == 4;
    assert CalculateSwapInterval(40_000_000, 16_666_000) == 3;
    assert Decide(l, c) == c && Decide(later, c) == Config(5, On);
    hide CalculateSwapInterval, Decide;
    var t, u := SearchAfter(l, c), SearchAfter(later, Decide(later, c));
    assert !IsBetter(rates[0], t) && !IsBetter(rates[1], t) && !IsBetter(rates[2], t) && IsSlowerEqual(rates[2], t);
    assert IsLongestEqual(rates, t, 2);
    assert IsRateMap(rates) && IsLoad(l) && IsLoad(later);
    assert !SomeBetter(rates, u) && !SomeSlowerEqual(rates, u);
    assert RecordedFor(l, rates[2]) == Config(2, On);
    forall b | 1 <= b <= 2
      ensures ApplyTimings(true, SettingsAt(later, later.period), Decide(later, c), Config(2, On),
                           SettingsAt(later, rates[b].period)) == Config(2, On)
    {
    }
  }
}
