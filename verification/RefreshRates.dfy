/** Which display refresh rate SwappyCommon asks for, and what it does when the display reports
    new timings. */
module RefreshRates {
  import opened CInt
  import opened FrameTiming
  import opened IntervalControl

  /** An entry of the map from refresh period to display mode. */
  datatype Rate = Rate(period: int, modeId: int)

  datatype TimingSettings = TimingSettings(refreshPeriod: int, swapIntervalNS: int)

  /** The map is iterated in increasing order of its periods. */
  ghost predicate IsRateMap(rates: seq<Rate>) {
    && (forall i :: 0 <= i < |rates| ==> rates[i].period > REFRESH_RATE_MARGIN)
    && (forall i, j :: 0 <= i < j < |rates| ==> rates[i].period < rates[j].period)
  }

  function DurationAt(r: Rate, frameTime: int): int
    requires r.period > 0
  {
    r.period * CalculateSwapInterval(frameTime, r.period)
  }

  /** What the controller compares a rate with: the configuration in force and the app's wish. */
  datatype Target = Target(frameTime: int, period: int, interval: int, appInterval: int) {
    function Duration(): int { period * interval }
  }

  /** A strictly shorter swap period that still holds the frame with the edge margin to spare. */
  predicate IsBetter(r: Rate, t: Target)
    requires r.period > 0
  {
    var d := DurationAt(r, t.frameTime);
    t.frameTime < d - EDGE_HYSTERESIS && d < t.Duration() && d >= t.appInterval
  }

  predicate IsSameDuration(period1: int, interval1: int, period2: int, interval2: int) {
    Abs(period1 * interval1 - period2 * interval2) < SAME_DURATION_MARGIN
  }

  /** The same swap period, within a millisecond, at a lower refresh rate. */
  predicate IsSlowerEqual(r: Rate, t: Target)
    requires r.period > 0
  {
    && IsSameDuration(r.period, CalculateSwapInterval(t.frameTime, r.period), t.period, t.interval)
    && r.period > t.period
  }

  /** `b` has the least duration among the better rates, and is the first one that has it. */
  ghost predicate IsBestBetter(rates: seq<Rate>, t: Target, b: int)
    requires IsRateMap(rates)
  {
    && 0 <= b < |rates| && IsBetter(rates[b], t)
    && (forall j :: 0 <= j < |rates| && IsBetter(rates[j], t) ==>
          && DurationAt(rates[b], t.frameTime) <= DurationAt(rates[j], t.frameTime)
          && (j < b ==> DurationAt(rates[b], t.frameTime) < DurationAt(rates[j], t.frameTime)))
  }

  /** `b` has the longest period among the slower rates of equal duration. */
  ghost predicate IsLongestEqual(rates: seq<Rate>, t: Target, b: int)
    requires IsRateMap(rates)
  {
    && 0 <= b < |rates| && IsSlowerEqual(rates[b], t)
    && (forall j :: 0 <= j < |rates| && IsSlowerEqual(rates[j], t) ==> rates[j].period <= rates[b].period)
  }

  ghost predicate SomeBetter(rates: seq<Rate>, t: Target)
    requires IsRateMap(rates)
  {
    exists j :: 0 <= j < |rates| && IsBetter(rates[j], t)
  }

  ghost predicate SomeSlowerEqual(rates: seq<Rate>, t: Target)
    requires IsRateMap(rates)
  {
    exists j :: 0 <= j < |rates| && IsSlowerEqual(rates[j], t)
  }

  /** The rate the search returns: best of the better ones, else longest of the equal ones. */
  ghost predicate IsChoice(rates: seq<Rate>, t: Target, b: int)
    requires IsRateMap(rates)
  {
    IsBestBetter(rates, t, b) || (!SomeBetter(rates, t) && IsLongestEqual(rates, t, b))
  }

  lemma ChoiceIsUnique(rates: seq<Rate>, t: Target, b: int, c: int)
    requires IsRateMap(rates) && IsChoice(rates, t, b) && IsChoice(rates, t, c)
    ensures b == c
  {
  }

  // --------------------------------------------------- the display reports new timings

  /** The recorded configuration is kept only if nothing but the refresh period changed and it
      still covers the interval the app asked for. */
  predicate KeepsRecorded(auto: bool, appInterval: int, recorded: Config, next: TimingSettings) {
    && auto
    && appInterval == next.swapIntervalNS
    && recorded.interval != 0
    && next.refreshPeriod * recorded.interval >= next.swapIntervalNS
  }

  /** The configuration after updateDisplayTimings applies `next`. */
  function ApplyTimings(auto: bool, current: TimingSettings, c: Config, recorded: Config,
                        next: TimingSettings): Config
    requires next.refreshPeriod > 0
  {
    if next == current then c
    else if KeepsRecorded(auto, current.swapIntervalNS, recorded, next) then recorded
    else Config(CalculateSwapInterval(next.swapIntervalNS, next.refreshPeriod), if auto then Off else On)
  }

  /** Whenever new settings are applied the swap period covers the app's interval up to 500 ns. */
  lemma AppliedCoversAppInterval(auto: bool, current: TimingSettings, c: Config, recorded: Config,
                                 next: TimingSettings)
    requires next.refreshPeriod > REFRESH_RATE_MARGIN && next != current && recorded.interval >= 0
    ensures var after := ApplyTimings(auto, current, c, recorded, next);
            && after.interval >= 1
            && next.refreshPeriod * after.interval >= next.swapIntervalNS - REFRESH_RATE_MARGIN
            && (!auto ==> after.mode == On)
  {
    IntervalIsLeast(next.swapIntervalNS, next.refreshPeriod);
    var n := CalculateSwapInterval(next.swapIntervalNS, next.refreshPeriod);
    assert n * next.refreshPeriod == next.refreshPeriod * n;
  }

  /** The two outcomes: the recorded configuration is taken over only if auto mode is on, there is
      one, it covers the app's interval at the new rate, and the app has not changed that interval.
      Otherwise the configuration is the least interval that covers it, not pipelined in auto mode. */
  lemma AppliedByTimings(auto: bool, current: TimingSettings, c: Config, recorded: Config,
                         next: TimingSettings)
    requires next.refreshPeriod > REFRESH_RATE_MARGIN && next != current
    ensures var after := ApplyTimings(auto, current, c, recorded, next);
            if auto && recorded.interval != 0 && next.swapIntervalNS == current.swapIntervalNS
               && next.refreshPeriod * recorded.interval >= next.swapIntervalNS
            then after == recorded
            else IsLeastInterval(after.interval, next.swapIntervalNS, next.refreshPeriod)
                 && after.mode == if auto then Off else On
  {
    IntervalIsLeast(next.swapIntervalNS, next.refreshPeriod);
  }

  /** What updateSwapInterval records for the rate it chose. */
  function RecordedFor(l: Load, r: Rate): Config
    requires r.period > 0
  {
    Config(CalculateSwapInterval(l.PipelineTime(), r.period), ModeFor(l, DurationAt(r, l.PipelineTime())))
  }

  /** What is recorded, by stages: the least interval for the longer one, pipelined unless auto mode
      allows otherwise and both fit one after the other. */
  lemma RecordedByStages(l: Load, r: Rate, n: int)
    requires l.Valid() && r.period > REFRESH_RATE_MARGIN
    requires IsLeastInterval(n, Max(l.average.cpu, l.average.gpu) + 3_000_000, r.period)
    ensures RecordedFor(l, r).interval == n
    ensures RecordedFor(l, r).mode == Off <==> l.pipelineAuto && l.average.cpu + l.average.gpu + 3_000_000 < r.period * n
  {
    LeastIsCalculated(n, l.PipelineTime(), r.period);
  }

  lemma LeastIsCalculated(n: int, frameTime: int, period: int)
    requires period > REFRESH_RATE_MARGIN && IsLeastInterval(n, frameTime, period)
    ensures CalculateSwapInterval(frameTime, period) == n
  {
    IntervalIsLeast(frameTime, period);
    var k := CalculateSwapInterval(frameTime, period);
    assert k * period >= frameTime - REFRESH_RATE_MARGIN && n * period >= frameTime - REFRESH_RATE_MARGIN;
  }

  /** Which rates qualify, in nanoseconds: a better one leaves more than 4 ms, is strictly shorter
      and respects the app's interval; an equal one is slower and within a millisecond. */
  lemma QualifiesIff(r: Rate, t: Target, n: int)
    requires r.period > REFRESH_RATE_MARGIN && IsLeastInterval(n, t.frameTime, r.period)
    ensures DurationAt(r, t.frameTime) == r.period * n
    ensures IsBetter(r, t) <==> t.frameTime + 4_000_000 < r.period * n < t.period * t.interval && r.period * n >= t.appInterval
    ensures IsSlowerEqual(r, t) <==>
              r.period > t.period && t.period * t.interval - 1_000_000 < r.period * n < t.period * t.interval + 1_000_000
  {
    LeastIsCalculated(n, t.frameTime, r.period);
  }

  /** The mode last requested, and the configuration recorded for when the display reports it. */
  datatype Request = Request(modeId: int, recorded: Config)

  ghost predicate RecordsRate(hasDisplayManager: bool, rates: seq<Rate>, l: Load, t: Target,
                              before: Request, after: Request, b: int)
    requires IsRateMap(rates)
  {
    && IsChoice(rates, t, b)
    && after.recorded == RecordedFor(l, rates[b])
    && after.modeId == if hasDisplayManager && rates[b].modeId >= 0 then rates[b].modeId else before.modeId
  }

  /** What a full-window decision leaves behind for the next change of display timings. */
  ghost predicate RecordsChoice(hasDisplayManager: bool, rates: seq<Rate>, l: Load, t: Target,
                                before: Request, after: Request)
    requires IsRateMap(rates)
  {
    if SomeBetter(rates, t) || SomeSlowerEqual(rates, t)
    then exists b :: RecordsRate(hasDisplayManager, rates, l, t, before, after, b)
    else after == before
  }

  /** A rate that is chosen is recorded, and its mode is asked for. */
  lemma ChoiceIsRecorded(hasDisplayManager: bool, rates: seq<Rate>, l: Load, t: Target, before: Request, after: Request, b: int)
    requires IsRateMap(rates) && RecordsChoice(hasDisplayManager, rates, l, t, before, after) && IsChoice(rates, t, b)
    ensures after.recorded == RecordedFor(l, rates[b])
    ensures hasDisplayManager && rates[b].modeId >= 0 ==> after.modeId == rates[b].modeId
  {
    var c :| RecordsRate(hasDisplayManager, rates, l, t, before, after, c);
    ChoiceIsUnique(rates, t, b, c);
  }

  /** The search that follows a decision for `c`. */
  function SearchAfter(l: Load, c: Config): Target {
    Target(l.PipelineTime(), l.period, c.interval, l.appInterval)
  }

  /** The settings in force, and those the display reports when only the refresh period changes. */
  function SettingsAt(l: Load, period: int): TimingSettings {
    TimingSettings(period, l.appInterval)
  }

  /** The display reports the chosen rate, and nothing else has changed. The recorded configuration
      is taken over if and only if that rate is not already in force and covers the app's interval,
      and then the average frame fits. A strictly shorter choice always covers it, so there the
      rate in force is the only obstacle. */
  lemma ReportedChoiceIsAdopted(l: Load, rates: seq<Rate>, c: Config, b: int)
    requires l.Valid() && IsRateMap(rates) && IsChoice(rates, SearchAfter(l, c), b)
    ensures var current, next := SettingsAt(l, l.period), SettingsAt(l, rates[b].period);
            var recorded, adopted := RecordedFor(l, rates[b]), ApplyTimings(true, current, c, RecordedFor(l, rates[b]), next);
            && (next != current && KeepsRecorded(true, l.appInterval, recorded, next)
                <==> rates[b].period != l.period && DurationAt(rates[b], l.PipelineTime()) >= l.appInterval)
            && (SomeBetter(rates, SearchAfter(l, c)) ==> (adopted == recorded <==> rates[b].period != l.period))
            && l.average.GetTime(recorded.mode) <= rates[b].period * recorded.interval
  {
    var p := rates[b].period;
    IntervalIsLeast(l.PipelineTime(), p);
    var n := CalculateSwapInterval(l.PipelineTime(), p);
    assert n * p == p * n;
    if SomeBetter(rates, SearchAfter(l, c)) && p == l.period {
      assert p * n < p * c.interval;
    }
  }

  /** A strictly shorter choice can be the rate already in force: right after pipelining has been
      turned on at interval 4, interval 3 would do. Reporting that rate changes nothing; the record
      stays, and waits for the report of some other rate. */
  lemma BetterChoiceCanBeInForce()
    ensures exists l: Load, before: Config, rates: seq<Rate> ::
              && l.Valid() && IsRateMap(rates) && |rates| == 1 && rates[0].period == l.period
              && SomeBetter(rates, SearchAfter(l, Decide(l, before))) && IsChoice(rates, SearchAfter(l, Decide(l, before)), 0)
              && ApplyTimings(true, SettingsAt(l, l.period), Decide(l, before), RecordedFor(l, rates[0]), SettingsAt(l, rates[0].period))
                 == Decide(l, before) != RecordedFor(l, rates[0])
  {
    var l := Load(FrameDuration(40_000_000, 25_000_000), 16_000_000, 16_000_000, true);
    var before, rates := Config(4, Off), [Rate(16_000_000, 0)];
    assert Decide(l, before) == Config(4, On);
    assert CalculateSwapInterval(43_000_000, 16_000_000) == 3;
    assert IsBetter(rates[0], SearchAfter(l, Decide(l, before)));
  }

  // ------------------------------------- the rate asked for when only the app's wish is known

  const LONGEST_PREFERRED := 100_000_000

  /** `b` has the least duration below 100 ms, and the longest period among those. */
  ghost predicate IsPreferred(rates: seq<Rate>, frameTime: int, b: int)
    requires IsRateMap(rates)
  {
    && 0 <= b < |rates| && DurationAt(rates[b], frameTime) < LONGEST_PREFERRED
    && (forall j :: 0 <= j < |rates| ==>
          && DurationAt(rates[b], frameTime) <= DurationAt(rates[j], frameTime)
          && (b < j ==> DurationAt(rates[b], frameTime) < DurationAt(rates[j], frameTime)))
  }

  /** The mode requested from the display for `frameTime`, given the one requested before. */
  ghost predicate AsksFor(rates: seq<Rate>, frameTime: int, before: int, after: int)
    requires IsRateMap(rates)
  {
    if exists b :: IsPreferred(rates, frameTime, b)
    then exists b :: IsPreferred(rates, frameTime, b)
                     && after == if rates[b].modeId >= 0 then rates[b].modeId else before
    else after == before
  }

  lemma AskingAgain(rates: seq<Rate>, frameTime: int, before: int, middle: int, after: int)
    requires IsRateMap(rates)
    requires AsksFor(rates, frameTime, before, middle) && AsksFor(rates, frameTime, middle, after)
    requires middle == -1
    ensures AsksFor(rates, frameTime, before, after)
  {
    if b :| IsPreferred(rates, frameTime, b) {
      assert forall c :: IsPreferred(rates, frameTime, c) ==> c == b;
    }
  }

  /** There is a preferred rate exactly if some duration is below 100 ms. It has the least duration,
      the longest period among equals, and its mode is the one that is asked for. */
  lemma PreferredIsAskedFor(rates: seq<Rate>, frameTime: int, before: int, after: int) returns (b: int)
    requires IsRateMap(rates) && AsksFor(rates, frameTime, before, after)
    ensures b < 0 ==> after == before && forall j :: 0 <= j < |rates| ==> DurationAt(rates[j], frameTime) >= 100_000_000
    ensures b >= 0 ==> b < |rates| && DurationAt(rates[b], frameTime) < 100_000_000
    ensures b >= 0 ==> after == if rates[b].modeId >= 0 then rates[b].modeId else before
    ensures b >= 0 ==>
              forall j :: 0 <= j < |rates| ==> DurationAt(rates[b], frameTime) <= DurationAt(rates[j], frameTime)
    ensures b >= 0 ==>
              forall j :: 0 <= j < |rates| && DurationAt(rates[b], frameTime) == DurationAt(rates[j], frameTime) ==>
                            rates[j].period <= rates[b].period
  {
    hide DurationAt;
    b := -1;
    if |rates| > 0 {
      var m := PreferredExists(rates, frameTime, |rates|);
      if DurationAt(rates[m], frameTime) < 100_000_000 {
        b :| IsPreferred(rates, frameTime, b)
             && after == if rates[b].modeId >= 0 then rates[b].modeId else before;
      }
    }
  }

  lemma {:induction false} PreferredExists(rates: seq<Rate>, frameTime: int, k: nat) returns (b: int)
    requires IsRateMap(rates) && 0 < k <= |rates|
    ensures 0 <= b < k
    ensures forall j :: 0 <= j < k ==>
              && DurationAt(rates[b], frameTime) <= DurationAt(rates[j], frameTime)
              && (b < j ==> DurationAt(rates[b], frameTime) < DurationAt(rates[j], frameTime))
    ensures k == |rates| && DurationAt(rates[b], frameTime) < 100_000_000 ==> IsPreferred(rates, frameTime, b)
  {
    hide DurationAt;
    if k == 1 {
      b := 0;
    } else {
      b := PreferredExists(rates, frameTime, k - 1);
      if DurationAt(rates[k - 1], frameTime) <= DurationAt(rates[b], frameTime) { b := k - 1; }
    }
  }
}
