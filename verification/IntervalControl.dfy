/** The decision SwappyCommon takes once its window is full: which swap interval and which
    pipeline mode to run in. The decision is a function of the average load, so its behaviour
    over repeated decisions can be stated as iteration of that function. */
module IntervalControl {
  import opened CInt
  import opened FrameTiming

  datatype Config = Config(interval: int, mode: PipelineMode)

  /** What a decision depends on besides the configuration. */
  datatype Load = Load(average: FrameDuration, period: int, appInterval: int, pipelineAuto: bool) {
    ghost predicate Valid() { average.NonNegative() && period > REFRESH_RATE_MARGIN }

    function PipelineTime(): int { average.GetTime(On) + FRAME_MARGIN }

    function NonPipelineTime(): int { average.GetTime(Off) + FRAME_MARGIN }

    function Time(mode: PipelineMode): int {
      if mode == On then PipelineTime() else NonPipelineTime()
    }

    function NewInterval(): int
      requires period > 0
    {
      CalculateSwapInterval(PipelineTime(), period)
    }
  }

  function PipelineModeNotNeeded(l: Load, upperBound: int): bool {
    l.pipelineAuto && l.NonPipelineTime() < upperBound
  }

  function ModeFor(l: Load, upperBound: int): PipelineMode {
    if PipelineModeNotNeeded(l, upperBound) then Off else On
  }

  function SwapSlower(l: Load, c: Config): Config
    requires l.period > 0
  {
    if c.mode == Off && l.average.GetTime(On) <= l.period * c.interval then c.(mode := On)
    else Config(l.NewInterval(), ModeFor(l, l.period * l.NewInterval()))
  }

  function SwapFaster(l: Load, c: Config): Config
    requires l.period > 0
  {
    Config(l.NewInterval(), ModeFor(l, l.period * l.NewInterval()))
  }

  predicate TooSlow(l: Load, c: Config) {
    l.Time(c.mode) > l.period * c.interval
  }

  predicate CanGoFaster(l: Load, c: Config) {
    && l.appInterval <= l.period * (c.interval - 1)
    && l.PipelineTime() < l.period * (c.interval - 1) - EDGE_HYSTERESIS
  }

  predicate CanStopPipelining(l: Load, c: Config) {
    c.mode == On && PipelineModeNotNeeded(l, l.period * c.interval)
  }

  /** The value updateSwapInterval returns for a full window; it also clears the window then. */
  predicate ConfigChanged(l: Load, c: Config) {
    TooSlow(l, c) || CanGoFaster(l, c) || CanStopPipelining(l, c)
  }

  function Decide(l: Load, c: Config): Config
    requires l.period > 0
  {
    if TooSlow(l, c) then SwapSlower(l, c)
    else if CanGoFaster(l, c) then SwapFaster(l, c)
    else if CanStopPipelining(l, c) then c.(mode := Off)
    else c
  }

  function Iterate(l: Load, c: Config, n: nat): Config
    requires l.period > 0
  {
    if n == 0 then c else Decide(l, Iterate(l, c, n - 1))
  }

  // ---------------------------------------------------------------- one decision

  /** The facts about the new interval that every proof below uses. */
  lemma NewIntervalFits(l: Load)
    requires l.Valid()
    ensures l.NewInterval() >= 1
    ensures l.period * l.NewInterval() >= l.PipelineTime() - REFRESH_RATE_MARGIN
    ensures l.NewInterval() >= 2 ==> l.period * (l.NewInterval() - 1) < l.PipelineTime() - REFRESH_RATE_MARGIN
    ensures l.PipelineTime() >= FRAME_MARGIN
  {
    IntervalIsLeast(l.PipelineTime(), l.period);
    var n := l.NewInterval();
    assert n * l.period == l.period * n;
    assert (n - 1) * l.period == l.period * (n - 1);
  }

  /** After any decision the average frame fits the configuration decided on. */
  lemma FitsAfterDecision(l: Load, c: Config)
    requires l.Valid()
    ensures l.average.GetTime(Decide(l, c).mode) <= l.period * Decide(l, c).interval
  {
    NewIntervalFits(l);
  }

  /** The same by stages: pipelined, each of them fits; otherwise both do one after the other. */
  lemma StagesFitAfterDecision(l: Load, c: Config)
    requires l.Valid()
    ensures var d, cpu, gpu := Decide(l, c), l.average.cpu, l.average.gpu;
            if d.mode == On then cpu <= l.period * d.interval && gpu <= l.period * d.interval
            else cpu + gpu <= l.period * d.interval
  {
    FitsAfterDecision(l, c);
  }

  /** The decision by stages, with the margins in nanoseconds. `late` frames slow the configuration
      down: to pipelining if that is enough, else to the least interval for the longer stage. Frames
      that leave 4 ms of the next shorter swap period, and an app that allows it, speed it up to
      that interval. If neither is called for, pipelining is turned off as soon as both stages fit
      one after the other; and a new interval is only pipelined if they do not. */
  lemma DecisionByStages(l: Load, c: Config, n: int)
    requires l.Valid() && IsLeastInterval(n, Max(l.average.cpu, l.average.gpu) + 3_000_000, l.period)
    ensures var d, cpu, gpu, p := Decide(l, c), l.average.cpu, l.average.gpu, l.period;
            var swap, shorter := p * c.interval, p * (c.interval - 1);
            var late := if c.mode == On then cpu + 3_000_000 > swap || gpu + 3_000_000 > swap else cpu + gpu + 3_000_000 > swap;
            var early := !late && l.appInterval <= shorter && cpu + 7_000_000 < shorter && gpu + 7_000_000 < shorter;
            && (late && c.mode == Off && cpu <= swap && gpu <= swap ==> d == Config(c.interval, On))
            && ((late && (c.mode == On || cpu > swap || gpu > swap)) || early ==>
                  d.interval == n && (d.mode == Off <==> l.pipelineAuto && cpu + gpu + 3_000_000 < p * n))
            && (!late && !early && c.mode == On && l.pipelineAuto && cpu + gpu + 3_000_000 < swap ==> d == Config(c.interval, Off))
            && (!late && !early && (c.mode == Off || !l.pipelineAuto || cpu + gpu + 3_000_000 >= swap) ==> d == c)
  {
    IntervalIsLeast(l.PipelineTime(), l.period);
    var k := l.NewInterval();
    assert k * l.period >= l.PipelineTime() - REFRESH_RATE_MARGIN && n * l.period >= l.PipelineTime() - REFRESH_RATE_MARGIN;
    assert n == k;
    hide CalculateSwapInterval;
  }

  /** Slowing down never lowers the interval. */
  lemma SlowerNeverLowers(l: Load, c: Config)
    requires l.Valid() && TooSlow(l, c)
    ensures SwapSlower(l, c).interval >= c.interval
  {
    hide CalculateSwapInterval, PipelineModeNotNeeded, FrameDuration.GetTime;
    NewIntervalFits(l);
    if c.mode == Off && l.average.GetTime(On) <= l.period * c.interval { return; }
    FittingIsNotSmaller(l.NewInterval(), c.interval, l.period, l.PipelineTime());
  }

  lemma FittingIsNotSmaller(n: int, i: int, period: int, time: int)
    requires period > REFRESH_RATE_MARGIN && period * n >= time - REFRESH_RATE_MARGIN && time > period * i
    ensures n >= i
  {
    if n < i { MulLt(n, i, period); }
  }

  /** Speeding up strictly lowers the interval and keeps it positive. */
  lemma FasterStrictlyLowers(l: Load, c: Config)
    requires l.Valid() && CanGoFaster(l, c)
    ensures 1 <= SwapFaster(l, c).interval < c.interval
  {
    NewIntervalFits(l);
    var n := l.NewInterval();
    if n >= c.interval && n >= 2 { MulLe(c.interval - 1, n - 1, l.period); }
    if c.interval <= 1 { MulLe(c.interval - 1, 0, l.period); }
  }

  /** Speeding up can drop below the interval the app asked for: its guard only looks at one
      interval less, while the new interval can be lower than that. */
  lemma FasterCanCrossAppInterval()
    ensures exists l: Load, c: Config ::
              && l.Valid() && CanGoFaster(l, c)
              && l.period * SwapFaster(l, c).interval < l.appInterval
  {
    var l := Load(FrameDuration(5_000_000, 5_000_000), 16_000_000, 32_000_000, true);
    var c := Config(4, On);
    assert CalculateSwapInterval(8_000_000, 16_000_000) == 1;
    assert l.Valid() && CanGoFaster(l, c) && SwapFaster(l, c).interval == 1;
  }

  /** The app's interval survives speeding up exactly when one refresh period already covers it
      or the pipelined time needs as many periods as the app's interval does. */
  lemma FasterRespectsAppIntervalIff(l: Load, c: Config)
    requires l.Valid() && CanGoFaster(l, c)
    ensures l.period * SwapFaster(l, c).interval >= l.appInterval
            <==> l.appInterval <= l.period
                 || l.PipelineTime() - REFRESH_RATE_MARGIN > l.period * ((l.appInterval - 1) / l.period)
  {
    NewIntervalFits(l);
    CoversAppIff(l.period, l.NewInterval(), l.PipelineTime() - REFRESH_RATE_MARGIN, l.appInterval);
  }

  lemma CoversAppIff(p: int, n: int, t: int, app: int)
    requires p > 0 && n >= 1
    requires p * n >= t && (n >= 2 ==> p * (n - 1) < t)
    ensures p * n >= app <==> app <= p || t > p * ((app - 1) / p)
  {
    if app > p {
      DivBounds(app - 1, p);
      LeastReachesIff(p, n, t, (app - 1) / p);
    } else {
      MulLe(1, n, p);
    }
  }

  /** The least `n` with `p * n >= t` is beyond `m` exactly when `t` is beyond `p * m`. */
  lemma LeastReachesIff(p: int, n: int, t: int, m: int)
    requires p > 0 && m >= 1 && n >= 1
    requires p * n >= t && (n >= 2 ==> p * (n - 1) < t)
    ensures t > p * m <==> n > m
    ensures n > m <==> p * n >= p * m + p
  {
    if n <= m { MulLe(n, m, p); } else { MulLe(m, n - 1, p); }
  }

  lemma DecideKeepsPositive(l: Load, c: Config)
    requires l.Valid() && c.interval >= 1
    ensures Decide(l, c).interval >= 1
  {
    NewIntervalFits(l);
  }

  // ------------------------------------------------------- repeated decisions: no oscillation

  /** The configuration both swapSlower and swapFaster jump to is left alone afterwards, also in
      the 500 ns band above the new upper bound, where ConfigChanged keeps holding. */
  lemma JumpTargetIsFixed(l: Load)
    requires l.Valid()
    ensures Decide(l, SwapFaster(l, Config(1, On))) == SwapFaster(l, Config(1, On))
  {
    NewIntervalFits(l);
    var c := SwapFaster(l, Config(1, On));
    assert !CanGoFaster(l, c);
  }

  /** Turning pipelining on reaches a fixed configuration after at most one more decision. */
  lemma PipeliningOnSettles(l: Load, c: Config)
    requires l.Valid() && c.mode == On && !PipelineModeNotNeeded(l, l.period * c.interval)
    ensures Decide(l, c) == c || Decide(l, c) == SwapFaster(l, c)
  {
  }

  /** Two decisions under an unchanged load reach a configuration that no further decision changes. */
  lemma TwoDecisionsSettle(l: Load, c: Config)
    requires l.Valid()
    ensures Decide(l, Decide(l, Decide(l, c))) == Decide(l, Decide(l, c))
  {
    var d := Decide(l, c);
    var target := SwapFaster(l, Config(1, On));
    JumpTargetIsFixed(l);
    if d != target {
      if TooSlow(l, c) {
        assert c.mode == Off && d == c.(mode := On);
        PipeliningOnSettles(l, d);
      } else {
        assert Decide(l, d) == d;
      }
    }
  }

  /** No oscillation: from any configuration, repeated decisions change it at most twice. */
  lemma {:induction false} NoOscillation(l: Load, c: Config, n: nat)
    requires l.Valid() && n >= 2
    ensures Iterate(l, c, n) == Iterate(l, c, 2)
  {
    assert Iterate(l, c, 2) == Decide(l, Decide(l, c)) by {
      assert Iterate(l, c, 1) == Decide(l, Iterate(l, c, 0));
    }
    if n > 2 {
      NoOscillation(l, c, n - 1);
      TwoDecisionsSettle(l, c);
    }
  }

  /** Two changes do happen, so the bound is the best possible. */
  lemma TwoChangesHappen()
    ensures exists l: Load, c: Config ::
              l.Valid() && c != Iterate(l, c, 1) && Iterate(l, c, 1) != Iterate(l, c, 2)
  {
    var l := Load(FrameDuration(15_000_000, 5_000_000), 16_000_000, 16_000_000, true);
    var c := Config(1, Off);
    assert Iterate(l, c, 1) == Decide(l, Iterate(l, c, 0));
    assert Iterate(l, c, 1) == Config(1, On);
    assert CalculateSwapInterval(18_000_000, 16_000_000) == 2;
    assert Iterate(l, c, 2) == Decide(l, Iterate(l, c, 1));
    assert Iterate(l, c, 2) == Config(2, Off);
    assert l.Valid();
  }

  /** A configuration is left alone exactly if no change is reported or it is the jump target itself. */
  lemma FixedIff(l: Load, c: Config)
    requires l.Valid() && c.interval >= 1
    ensures Decide(l, c) == c <==>
              || !ConfigChanged(l, c)
              || c == SwapFaster(l, c)
  {
    JumpTargetIsFixed(l);
    NewIntervalFits(l);
    assert SwapFaster(l, c) == SwapFaster(l, Config(1, On));
  }
}
