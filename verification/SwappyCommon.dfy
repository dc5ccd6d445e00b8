/** The swap-interval controller of SwappyCommon: its fields, and the methods that update them. */
module SwappyCommonModel {
  import opened CInt
  import opened Wrappers
  import opened FrameTiming
  import opened IntervalControl
  import opened Settling
  import opened RefreshRates

  class SwappyCommon {
    const hasDisplayManager: bool
    var refreshPeriod: int
    var frameDurations: seq<FrameDuration>
    var frameDurationsSum: FrameDuration
    var autoSwapIntervalEnabled: bool
    var pipelineModeAutoMode: bool
    var swapIntervalNS: int
    var autoSwapInterval: int
    var pipelineMode: PipelineMode
    var swapIntervalForNewRefresh: int
    var pipelineModeForNewRefresh: PipelineMode
    var nextModeId: int
    var supportedRefreshRates: Option<seq<Rate>>
    var nextTimingSettings: TimingSettings
    var timingSettingsNeedUpdate: bool

    /** Kept by every method below. */
    ghost predicate Valid()
      reads this
    {
      && refreshPeriod > REFRESH_RATE_MARGIN
      && Pacing().Valid()
      && frameDurationsSum == Sum(frameDurations)
      && (!autoSwapIntervalEnabled ==> pipelineMode == On)
      && swapIntervalForNewRefresh >= 0
      && (supportedRefreshRates.Some? ==> IsRateMap(supportedRefreshRates.value))
      && (timingSettingsNeedUpdate ==> nextTimingSettings.refreshPeriod > REFRESH_RATE_MARGIN)
    }

    function Pacing(): Pacer
      reads this
    {
      Pacer(frameDurations, Config(autoSwapInterval, pipelineMode))
    }

    function Environment(): Env
      reads this
    {
      Env(refreshPeriod, swapIntervalNS, autoSwapIntervalEnabled, pipelineModeAutoMode)
    }

    function Recorded(): Config
      reads this
    {
      Config(swapIntervalForNewRefresh, pipelineModeForNewRefresh)
    }

    function Requested(): Request
      reads this
    {
      Request(nextModeId, Recorded())
    }

    /** The search compares with the configuration the decision has just taken. */
    function SearchTarget(l: Load): Target
      reads this
    {
      Target(l.PipelineTime(), refreshPeriod, autoSwapInterval, swapIntervalNS)
    }

    function Timings(): TimingSettings
      reads this
    {
      TimingSettings(refreshPeriod, swapIntervalNS)
    }

    /** `appInterval` and `modeForNewRefresh` are whatever the uninitialized fields hold. */
    constructor (period: int, hasDisplayManager: bool, appInterval: int, modeForNewRefresh: PipelineMode)
      requires period > REFRESH_RATE_MARGIN
      ensures Valid()
      ensures Pacing() == Pacer([], Config(1, Off))
      ensures Environment() == Env(period, appInterval, true, true)
    {
      this.hasDisplayManager := hasDisplayManager;
      refreshPeriod := period;
      frameDurations, frameDurationsSum := [], ZERO_DURATION;
      autoSwapIntervalEnabled, pipelineModeAutoMode := true, true;
      swapIntervalNS, autoSwapInterval, pipelineMode := appInterval, 1, Off;
      swapIntervalForNewRefresh, pipelineModeForNewRefresh := 0, modeForNewRefresh;
      nextModeId, supportedRefreshRates := -1, None;
      nextTimingSettings, timingSettingsNeedUpdate := TimingSettings(0, 0), false;
    }

    method AddFrameDuration(cpu: int, gpu: int)
      requires Valid() && 0 <= cpu && 0 <= gpu
      modifies `frameDurations, `frameDurationsSum
      ensures Valid()
      ensures frameDurations == PushDuration(old(frameDurations), MakeDuration(cpu, gpu))
    {
      hide IsRateMap;
      var duration := MakeDuration(cpu, gpu);
      if |frameDurations| == FRAME_DURATION_SAMPLES {
        frameDurationsSum := frameDurationsSum.Minus(frameDurations[0]);
        SumDropFirst(frameDurations);
        frameDurations := frameDurations[1..];
      }
      assert (frameDurations + [duration])[..|frameDurations|] == frameDurations;
      frameDurations := frameDurations + [duration];
      frameDurationsSum := frameDurationsSum.Plus(duration);
    }

    method SwapSlower(ghost l: Load, average: FrameDuration, upperBound: int, newSwapInterval: int)
      requires refreshPeriod > 0 && l.period == refreshPeriod && l.average == average
      requires l.pipelineAuto == pipelineModeAutoMode
      requires upperBound == refreshPeriod * autoSwapInterval && newSwapInterval == l.NewInterval()
      modifies `autoSwapInterval, `pipelineMode
      ensures Pacing().config == IntervalControl.SwapSlower(l, old(Pacing().config))
    {
      if pipelineMode == Off && average.GetTime(On) <= upperBound {
        pipelineMode := On;
      } else {
        autoSwapInterval := newSwapInterval;
        var newUpperBound := refreshPeriod * autoSwapInterval;
        if pipelineModeAutoMode && average.GetTime(Off) + FRAME_MARGIN < newUpperBound {
          pipelineMode := Off;
        } else {
          pipelineMode := On;
        }
      }
    }

    method SwapFaster(ghost l: Load, average: FrameDuration, newSwapInterval: int)
      requires refreshPeriod > 0 && l.period == refreshPeriod && l.average == average
      requires l.pipelineAuto == pipelineModeAutoMode && newSwapInterval == l.NewInterval()
      modifies `autoSwapInterval, `pipelineMode
      ensures Pacing().config == IntervalControl.SwapFaster(l, old(Pacing().config))
    {
      autoSwapInterval := newSwapInterval;
      var newUpperBound := refreshPeriod * autoSwapInterval;
      if pipelineModeAutoMode && average.GetTime(Off) + FRAME_MARGIN < newUpperBound {
        pipelineMode := Off;
      } else {
        pipelineMode := On;
      }
    }

    /** The part of updateSwapInterval that changes the configuration. */
    method UpdateConfiguration(l: Load) returns (configChanged: bool)
      requires Valid() && frameDurations != [] && l == LoadOf(Environment(), frameDurations) && l.Valid()
      modifies `autoSwapInterval, `pipelineMode, `frameDurations, `frameDurationsSum
      ensures Pacing().config == Decide(l, old(Pacing().config))
      ensures configChanged == ConfigChanged(l, old(Pacing().config))
      ensures frameDurations == (if configChanged then [] else old(frameDurations))
      ensures frameDurationsSum == if configChanged then ZERO_DURATION else old(frameDurationsSum)
    {
      var pipelineFrameTime := l.average.GetTime(On) + FRAME_MARGIN;
      var nonPipelineFrameTime := l.average.GetTime(Off) + FRAME_MARGIN;
      var currentConfigFrameTime := if pipelineMode == On then pipelineFrameTime else nonPipelineFrameTime;
      var newSwapInterval := CalculateSwapInterval(pipelineFrameTime, refreshPeriod);
      var upperBound := refreshPeriod * autoSwapInterval;
      var lowerBound := refreshPeriod * (autoSwapInterval - 1) - EDGE_HYSTERESIS;
      configChanged := false;
      if currentConfigFrameTime > upperBound {
        SwapSlower(l, l.average, upperBound, newSwapInterval);
        configChanged := true;
      } else if swapIntervalNS <= refreshPeriod * (autoSwapInterval - 1) && pipelineFrameTime < lowerBound {
        SwapFaster(l, l.average, newSwapInterval);
        configChanged := true;
      } else if pipelineMode == On && pipelineModeAutoMode && nonPipelineFrameTime < upperBound {
        pipelineMode := Off;
        configChanged := true;
      }
      if configChanged {
        frameDurationsSum := ZERO_DURATION;
        frameDurations := [];
      }
    }

    /** The first loop of the refresh-rate search. */
    method FindBetter(t: Target, rates: seq<Rate>) returns (found: bool, best: nat)
      requires IsRateMap(rates)
      ensures found == SomeBetter(rates, t)
      ensures found ==> IsBestBetter(rates, t, best)
    {
      var minSwapPeriod := t.Duration();
      found, best := false, 0;
      for i := 0 to |rates|
        invariant found == SomeBetter(rates[..i], t)
        invariant found ==> IsBestBetter(rates[..i], t, best)
        invariant minSwapPeriod == if found then DurationAt(rates[best], t.frameTime) else t.Duration()
      {
        var duration := rates[i].period * CalculateSwapInterval(t.frameTime, rates[i].period);
        var lowerBound := duration - EDGE_HYSTERESIS;
        assert IsBetter(rates[..i + 1][i], t) <==>
               t.frameTime < lowerBound && duration < t.Duration() && duration >= t.appInterval;
        assert forall j :: 0 <= j < i ==> rates[..i + 1][j] == rates[..i][j];
        if t.frameTime < lowerBound && duration < minSwapPeriod && duration >= t.appInterval {
          minSwapPeriod := duration;
          best := i;
          found := true;
        }
      }
      assert rates[..|rates|] == rates;
    }

    /** The second loop, run only when the first found nothing. */
    method FindSlowerEqual(t: Target, rates: seq<Rate>) returns (found: bool, best: nat)
      requires IsRateMap(rates)
      ensures found == SomeSlowerEqual(rates, t)
      ensures found ==> IsLongestEqual(rates, t, best)
    {
      found, best := false, 0;
      for i := 0 to |rates|
        invariant found == SomeSlowerEqual(rates[..i], t)
        invariant found ==> IsLongestEqual(rates[..i], t, best)
      {
        var swapIntervalForPeriod := CalculateSwapInterval(t.frameTime, rates[i].period);
        assert IsSlowerEqual(rates[..i + 1][i], t) <==>
               IsSameDuration(rates[i].period, swapIntervalForPeriod, t.period, t.interval)
               && rates[i].period > t.period;
        assert forall j :: 0 <= j < i ==> rates[..i + 1][j] == rates[..i][j];
        if IsSameDuration(rates[i].period, swapIntervalForPeriod, t.period, t.interval)
           && rates[i].period > t.period {
          found := true;
          best := i;
        }
      }
      assert rates[..|rates|] == rates;
    }

    /** The search as a whole: it finds a rate exactly when one qualifies, and returns the choice. */
    method FindBetterRefreshRate(t: Target, rates: seq<Rate>) returns (found: bool, best: nat)
      requires IsRateMap(rates)
      ensures found <==> SomeBetter(rates, t) || SomeSlowerEqual(rates, t)
      ensures found ==> IsChoice(rates, t, best)
    {
      found, best := FindBetter(t, rates);
      if !found {
        found, best := FindSlowerEqual(t, rates);
      }
    }

    method SetPreferredMode(modeId: int)
      modifies `nextModeId
      ensures nextModeId == if hasDisplayManager && modeId >= 0 then modeId else old(nextModeId)
    {
      if !hasDisplayManager || modeId < 0 || nextModeId == modeId {
        return;
      }
      nextModeId := modeId;
    }

    /** A decision with a full window. */
    method DecideFullWindow(l: Load) returns (configChanged: bool)
      requires Valid() && autoSwapIntervalEnabled && |frameDurations| == FRAME_DURATION_SAMPLES
      requires l == LoadOf(Environment(), frameDurations) && l.Valid()
      modifies `autoSwapInterval, `pipelineMode, `frameDurations, `frameDurationsSum
      ensures Valid()
      ensures Pacing() == UpdateStep(Environment(), old(Pacing()))
      ensures configChanged == ConfigChanged(l, old(Pacing().config))
    {
      DecideKeepsPositive(l, Pacing().config);
      configChanged := UpdateConfiguration(l);
    }

    /** updateSwapInterval. */
    method UpdateSwapInterval() returns (configChanged: bool)
      requires Valid()
      modifies `autoSwapInterval, `pipelineMode, `frameDurations, `frameDurationsSum,
               `nextModeId, `swapIntervalForNewRefresh, `pipelineModeForNewRefresh
      ensures Valid()
      ensures Pacing() == UpdateStep(Environment(), old(Pacing()))
      ensures !autoSwapIntervalEnabled || |old(frameDurations)| < FRAME_DURATION_SAMPLES
              ==> !configChanged && unchanged(this)
      ensures autoSwapIntervalEnabled && |old(frameDurations)| == FRAME_DURATION_SAMPLES ==>
                var l := LoadOf(Environment(), old(frameDurations));
                && configChanged == ConfigChanged(l, old(Pacing().config))
                && if supportedRefreshRates.None? then Requested() == old(Requested())
                   else RecordsChoice(hasDisplayManager, supportedRefreshRates.value, l, SearchTarget(l),
                                      old(Requested()), Requested())
    {
      hide IsRateMap, RecordsChoice, Decide, ConfigChanged;
      if !autoSwapIntervalEnabled || |frameDurations| < FRAME_DURATION_SAMPLES {
        return false;
      }
      AverageIsNonNegative(Environment(), frameDurations);
      var l := Load(frameDurationsSum.Over(|frameDurations|), refreshPeriod, swapIntervalNS, pipelineModeAutoMode);
      configChanged := DecideFullWindow(l);
      RecordBetterRefreshRate(l);
    }

    method RecordBetterRefreshRate(l: Load)
      requires l.Valid()
      requires supportedRefreshRates.Some? ==> IsRateMap(supportedRefreshRates.value)
      modifies `nextModeId, `swapIntervalForNewRefresh, `pipelineModeForNewRefresh
      ensures if supportedRefreshRates.None? then Requested() == old(Requested())
              else RecordsChoice(hasDisplayManager, supportedRefreshRates.value, l, SearchTarget(l),
                                 old(Requested()), Requested())
      ensures old(swapIntervalForNewRefresh) >= 0 ==> swapIntervalForNewRefresh >= 0
    {
      if supportedRefreshRates.None? {
        return;
      }
      var rates := supportedRefreshRates.value;
      var t := SearchTarget(l);
      var found, best := FindBetterRefreshRate(t, rates);
      if found {
        ghost var before := Requested();
        SetPreferredMode(rates[best].modeId);
        swapIntervalForNewRefresh := CalculateSwapInterval(l.PipelineTime(), rates[best].period);
        pipelineModeForNewRefresh := ModeFor(l, rates[best].period * swapIntervalForNewRefresh);
        IntervalIsLeast(l.PipelineTime(), rates[best].period);
        assert RecordsRate(hasDisplayManager, rates, l, t, before, Requested(), best);
      }
    }

    /** setPreferredRefreshRate for a frame time: asks for the mode with the shortest swap period
        below 100 ms, the longest refresh period among those. */
    method SetPreferredRefreshRate(frameTime: int)
      requires hasDisplayManager ==> supportedRefreshRates.Some? && IsRateMap(supportedRefreshRates.value)
      modifies `nextModeId
      ensures !hasDisplayManager ==> unchanged(this)
      ensures hasDisplayManager ==>
                AsksFor(supportedRefreshRates.value, Max(frameTime, swapIntervalNS), old(nextModeId), nextModeId)
    {
      if !hasDisplayManager {
        return;
      }
      var rates := supportedRefreshRates.value;
      var bestModeId := -1;
      var swapIntervalNSMin := LONGEST_PREFERRED;
      var t := frameTime;
      ghost var best := -1;
      ghost var effective := Max(frameTime, swapIntervalNS);
      var i := |rates|;
      while i > 0
        invariant 0 <= i <= |rates|
        invariant t == effective || (i == |rates| && t == frameTime)
        invariant best == -1 || (i <= best < |rates| && bestModeId == rates[best].modeId)
        invariant best == -1 ==> bestModeId == -1 && swapIntervalNSMin == LONGEST_PREFERRED
        invariant best != -1 ==> swapIntervalNSMin == DurationAt(rates[best], effective) < LONGEST_PREFERRED
        invariant forall j :: i <= j < |rates| ==> swapIntervalNSMin <= DurationAt(rates[j], effective)
        invariant forall j :: best < j < |rates| && i <= j && best != -1 ==> swapIntervalNSMin < DurationAt(rates[j], effective)
      {
        i := i - 1;
        if t < swapIntervalNS {
          t := swapIntervalNS;
        }
        var swapPeriod := rates[i].period * CalculateSwapInterval(t, rates[i].period);
        if swapPeriod < swapIntervalNSMin {
          swapIntervalNSMin := swapPeriod;
          bestModeId := rates[i].modeId;
          best := i;
        }
      }
      assert best != -1 ==> IsPreferred(rates, effective, best);
      SetPreferredMode(bestModeId);
    }

    /** The part of updateDisplayTimings that adopts or recomputes the configuration. */
    method AdoptConfiguration() returns (kept: bool)
      requires Valid() && nextTimingSettings.refreshPeriod > REFRESH_RATE_MARGIN && nextTimingSettings != Timings()
      modifies `autoSwapInterval, `pipelineMode, `swapIntervalForNewRefresh, `refreshPeriod, `swapIntervalNS
      ensures kept == KeepsRecorded(autoSwapIntervalEnabled, old(swapIntervalNS), old(Recorded()), nextTimingSettings)
      ensures Timings() == nextTimingSettings && swapIntervalForNewRefresh == 0
      ensures Pacing().config == ApplyTimings(autoSwapIntervalEnabled, old(Timings()), old(Pacing().config),
                                              old(Recorded()), nextTimingSettings)
    {
      autoSwapInterval := swapIntervalForNewRefresh;
      pipelineMode := pipelineModeForNewRefresh;
      swapIntervalForNewRefresh := 0;
      var swapIntervalValid := nextTimingSettings.refreshPeriod * autoSwapInterval >= nextTimingSettings.swapIntervalNS;
      var changedBySettings := swapIntervalNS != nextTimingSettings.swapIntervalNS;
      refreshPeriod := nextTimingSettings.refreshPeriod;
      swapIntervalNS := nextTimingSettings.swapIntervalNS;
      kept := !(!autoSwapIntervalEnabled || changedBySettings || autoSwapInterval == 0 || !swapIntervalValid);
      if !kept {
        autoSwapInterval := CalculateSwapInterval(swapIntervalNS, refreshPeriod);
        pipelineMode := if autoSwapIntervalEnabled then Off else On;
      }
    }

    /** The requests for a display mode that go with it. */
    method RequestModes(kept: bool)
      requires hasDisplayManager ==> supportedRefreshRates.Some? && IsRateMap(supportedRefreshRates.value)
      modifies `nextModeId
      ensures if hasDisplayManager && (!kept || old(nextModeId) == -1)
              then AsksFor(supportedRefreshRates.value, swapIntervalNS, old(nextModeId), nextModeId)
              else nextModeId == old(nextModeId)
    {
      if !kept {
        SetPreferredRefreshRate(swapIntervalNS);
      }
      ghost var middle := nextModeId;
      if nextModeId == -1 {
        SetPreferredRefreshRate(swapIntervalNS);
        if hasDisplayManager && !kept {
          AskingAgain(supportedRefreshRates.value, swapIntervalNS, old(nextModeId), middle, nextModeId);
        }
      }
    }

    /** updateDisplayTimings; `reported` is what the display manager currently supports. */
    method UpdateDisplayTimings(reported: seq<Rate>)
      requires Valid() && IsRateMap(reported)
      modifies this
      ensures Valid() && !timingSettingsNeedUpdate
      ensures supportedRefreshRates == if hasDisplayManager then Some(reported) else old(supportedRefreshRates)
      ensures unchanged(`autoSwapIntervalEnabled) && unchanged(`pipelineModeAutoMode) && unchanged(`nextTimingSettings)
      ensures !old(timingSettingsNeedUpdate) || nextTimingSettings == old(Timings())
              ==> Pacing() == old(Pacing()) && Timings() == old(Timings()) && Recorded() == old(Recorded())
                  && nextModeId == old(nextModeId)
      ensures old(timingSettingsNeedUpdate) ==>
                && Timings() == nextTimingSettings
                && Pacing().config == ApplyTimings(autoSwapIntervalEnabled, old(Timings()), old(Pacing().config),
                                                   old(Recorded()), nextTimingSettings)
      ensures old(timingSettingsNeedUpdate) && nextTimingSettings != old(Timings()) ==>
                && frameDurations == [] && swapIntervalForNewRefresh == 0
                && refreshPeriod * autoSwapInterval >= swapIntervalNS - REFRESH_RATE_MARGIN
                && if hasDisplayManager
                      && (old(nextModeId) == -1
                          || !KeepsRecorded(autoSwapIntervalEnabled, old(swapIntervalNS), old(Recorded()), nextTimingSettings))
                   then AsksFor(reported, swapIntervalNS, old(nextModeId), nextModeId)
                   else nextModeId == old(nextModeId)
    {
      hide IsRateMap, KeepsRecorded, CalculateSwapInterval, AsksFor;
      if hasDisplayManager {
        supportedRefreshRates := Some(reported);
      }
      if !timingSettingsNeedUpdate {
        return;
      }
      timingSettingsNeedUpdate := false;
      if refreshPeriod == nextTimingSettings.refreshPeriod && swapIntervalNS == nextTimingSettings.swapIntervalNS {
        return;
      }
      AppliedCoversAppInterval(autoSwapIntervalEnabled, Timings(), Pacing().config, Recorded(), nextTimingSettings);
      var kept := AdoptConfiguration();
      RequestModes(kept);
      frameDurations := [];
      frameDurationsSum := ZERO_DURATION;
    }

    method OnSettingsChanged(settings: TimingSettings)
      requires Valid() && settings.refreshPeriod > REFRESH_RATE_MARGIN
      modifies `nextTimingSettings, `timingSettingsNeedUpdate
      ensures Valid() && nextTimingSettings == settings
      ensures timingSettingsNeedUpdate == (old(timingSettingsNeedUpdate) || settings != old(nextTimingSettings))
    {
      if settings != nextTimingSettings {
        nextTimingSettings := settings;
        timingSettingsNeedUpdate := true;
      }
    }

    method SetAutoSwapInterval(enabled: bool)
      requires Valid()
      modifies `autoSwapIntervalEnabled, `pipelineMode
      ensures Valid() && autoSwapIntervalEnabled == enabled
      ensures pipelineMode == if enabled then old(pipelineMode) else On
    {
      autoSwapIntervalEnabled := enabled;
      if !enabled {
        pipelineMode := On;
      }
    }

    method SetAutoPipelineMode(enabled: bool)
      requires Valid()
      modifies `pipelineModeAutoMode, `pipelineMode
      ensures Valid() && pipelineModeAutoMode == enabled
      ensures pipelineMode == if enabled then old(pipelineMode) else On
    {
      pipelineModeAutoMode := enabled;
      if !enabled {
        pipelineMode := On;
      }
    }
  }
}
