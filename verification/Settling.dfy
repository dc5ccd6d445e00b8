/** Whole runs of the swap-interval controller: the window of frame durations together with the
    configuration, and how fast a constant load brings the configuration to rest. */
module Settling {
  import opened CInt
  import opened FrameTiming
  import opened IntervalControl

  /** The settings a run does not change. */
  datatype Env = Env(period: int, appInterval: int, auto: bool, pipelineAuto: bool)

  datatype Pacer = Pacer(window: seq<FrameDuration>, config: Config) {
    ghost predicate Valid() {
      && |window| <= FRAME_DURATION_SAMPLES
      && (forall d <- window :: d.Clamped())
      && config.interval >= 1
    }
  }

  function LoadOf(e: Env, w: seq<FrameDuration>): Load
    requires w != []
  {
    Load(Sum(w).Over(|w|), e.period, e.appInterval, e.pipelineAuto)
  }

  /** updateSwapInterval, as far as the window and the configuration go. */
  function UpdateStep(e: Env, p: Pacer): Pacer
    requires e.period > 0
  {
    if !e.auto || |p.window| < FRAME_DURATION_SAMPLES then p
    else
      var l := LoadOf(e, p.window);
      Pacer(if ConfigChanged(l, p.config) then [] else p.window, Decide(l, p.config))
  }

  /** One frame: its duration enters the window, then the configuration is reconsidered. */
  function FrameStep(e: Env, p: Pacer, d: FrameDuration): Pacer
    requires e.period > 0
  {
    UpdateStep(e, Pacer(PushDuration(p.window, d), p.config))
  }

  /** `n` frames that all take `d`. */
  function Run(e: Env, p: Pacer, d: FrameDuration, n: nat): Pacer
    requires e.period > 0
  {
    if n == 0 then p else FrameStep(e, Run(e, p, d, n - 1), d)
  }

  lemma AverageIsNonNegative(e: Env, w: seq<FrameDuration>)
    requires w != [] && e.period > REFRESH_RATE_MARGIN
    requires forall d <- w :: d.NonNegative()
    ensures LoadOf(e, w).Valid()
  {
    SumNonNegative(w);
  }

  lemma UpdateKeepsValid(e: Env, p: Pacer)
    requires e.period > REFRESH_RATE_MARGIN && p.Valid()
    ensures UpdateStep(e, p).Valid()
  {
    if |p.window| == FRAME_DURATION_SAMPLES {
      AverageIsNonNegative(e, p.window);
      DecideKeepsPositive(LoadOf(e, p.window), p.config);
    }
  }

  lemma FrameKeepsValid(e: Env, p: Pacer, d: FrameDuration)
    requires e.period > REFRESH_RATE_MARGIN && p.Valid() && d.Clamped()
    ensures FrameStep(e, p, d).Valid()
  {
    UpdateKeepsValid(e, Pacer(PushDuration(p.window, d), p.config));
  }

  /** Frames of any durations. */
  function Frames(e: Env, p: Pacer, durations: seq<FrameDuration>): Pacer
    requires e.period > 0
  {
    if durations == [] then p
    else FrameStep(e, Frames(e, p, durations[..|durations| - 1]), durations[|durations| - 1])
  }

  lemma {:induction false} RunKeepsValid(e: Env, p: Pacer, durations: seq<FrameDuration>)
    requires e.period > REFRESH_RATE_MARGIN && p.Valid() && forall d <- durations :: d.Clamped()
    ensures Frames(e, p, durations).Valid()
  {
    if durations != [] {
      var front, d := durations[..|durations| - 1], durations[|durations| - 1];
      forall x | x in front ensures x.Clamped() { assert x in durations; }
      assert d in durations;
      RunKeepsValid(e, p, front);
      FrameKeepsValid(e, Frames(e, p, front), d);
    }
  }

  /** A run of equal frames is the special case the load theorems are about. */
  lemma {:induction false} RunIsFrames(e: Env, p: Pacer, d: FrameDuration, n: nat)
    requires e.period > 0
    ensures Run(e, p, d, n) == Frames(e, p, seq(n, _ => d))
  {
    if n > 0 {
      RunIsFrames(e, p, d, n - 1);
      assert seq(n, _ => d)[..n - 1] == seq(n - 1, _ => d);
    }
  }

  /** Nothing is decided before the window holds 300 frames; then the average decides, and a window
      that has led to a change is discarded. */
  lemma DecidesAtThreeHundred(e: Env, p: Pacer)
    requires e.period > REFRESH_RATE_MARGIN && p.Valid()
    ensures !e.auto || |p.window| < 300 ==> UpdateStep(e, p) == p
    ensures e.auto && |p.window| == 300 ==>
              var l := Load(Sum(p.window).Over(300), e.period, e.appInterval, e.pipelineAuto);
              && UpdateStep(e, p).config == Decide(l, p.config)
              && (UpdateStep(e, p).config != p.config ==> UpdateStep(e, p).window == [])
              && (UpdateStep(e, p).window != [] ==> UpdateStep(e, p).window == p.window)
  {
    if e.auto && |p.window| == 300 { ChangeIsReported(LoadOf(e, p.window), p.config); }
  }

  lemma ChangeIsReported(l: Load, c: Config)
    requires l.period > 0
    ensures Decide(l, c) != c ==> ConfigChanged(l, c)
  {
  }

  /** After every full-window decision the average frame fits the configuration in force. */
  lemma FitsAfterUpdate(e: Env, p: Pacer)
    requires e.period > REFRESH_RATE_MARGIN && p.Valid()
    requires e.auto && |p.window| == FRAME_DURATION_SAMPLES
    ensures var after := UpdateStep(e, p).config;
            var average := Sum(p.window).Over(|p.window|);
            && average.GetTime(after.mode) <= e.period * after.interval
            && if after.mode == On then average.cpu <= e.period * after.interval && average.gpu <= e.period * after.interval
               else average.cpu + average.gpu <= e.period * after.interval
  {
    AverageIsNonNegative(e, p.window);
    StagesFitAfterDecision(LoadOf(e, p.window), p.config);
    FitsAfterDecision(LoadOf(e, p.window), p.config);
  }

  // ------------------------------------------------------------------ constant load

  /** The newest `k` entries of the window (all of them, if there are fewer) are `d`. */
  predicate NewestAre(w: seq<FrameDuration>, d: FrameDuration, k: int) {
    forall i :: 0 <= i < |w| && |w| - k <= i ==> w[i] == d
  }

  predicate AllAre(w: seq<FrameDuration>, d: FrameDuration) {
    forall i :: 0 <= i < |w| ==> w[i] == d
  }

  lemma {:induction false} NewestAfterRun(e: Env, p: Pacer, d: FrameDuration, n: nat)
    requires e.period > 0 && |p.window| <= FRAME_DURATION_SAMPLES
    ensures |Run(e, p, d, n).window| <= FRAME_DURATION_SAMPLES
    ensures NewestAre(Run(e, p, d, n).window, d, n)
  {
    if n > 0 { NewestAfterRun(e, p, d, n - 1); }
  }

  ghost function ConstantLoad(e: Env, d: FrameDuration): Load {
    Load(d, e.period, e.appInterval, e.pipelineAuto)
  }

  lemma ConstantWindowLoad(e: Env, w: seq<FrameDuration>, d: FrameDuration)
    requires w != [] && AllAre(w, d) && d.NonNegative()
    ensures LoadOf(e, w) == ConstantLoad(e, d)
  {
    SumConstant(w, d);
    QuotOfProduct(|w|, d.cpu);
    QuotOfProduct(|w|, d.gpu);
  }

  /** One frame of a run whose window holds nothing but `d`. */
  lemma ConstantStep(e: Env, p: Pacer, d: FrameDuration)
    requires e.period > REFRESH_RATE_MARGIN && e.auto && d.Clamped()
    requires |p.window| <= FRAME_DURATION_SAMPLES && AllAre(p.window, d)
    ensures var q, l := FrameStep(e, p, d), ConstantLoad(e, d);
            if |p.window| + 1 < FRAME_DURATION_SAMPLES
            then AllAre(q.window, d) && |q.window| == |p.window| + 1 && q.config == p.config
            else AllAre(q.window, d) && q.config == Decide(l, p.config)
                 && q.window == if ConfigChanged(l, p.config) then []
                                else PushDuration(p.window, d)
  {
    var w := PushDuration(p.window, d);
    ConstantWindowLoad(e, w, d);
  }

  lemma {:induction false} RunSplit(e: Env, p: Pacer, d: FrameDuration, m: nat, n: nat)
    requires e.period > 0
    ensures Run(e, p, d, m + n) == Run(e, Run(e, p, d, m), d, n)
  {
    if n > 0 { RunSplit(e, p, d, m, n - 1); }
  }

  /** Until the window is full again nothing changes but the window's length. */
  lemma {:induction false} Filling(e: Env, p: Pacer, d: FrameDuration, n: nat)
    requires e.period > REFRESH_RATE_MARGIN && e.auto && d.Clamped()
    requires AllAre(p.window, d) && |p.window| + n < FRAME_DURATION_SAMPLES
    ensures var q := Run(e, p, d, n);
            AllAre(q.window, d) && |q.window| == |p.window| + n && q.config == p.config
  {
    if n > 0 {
      Filling(e, p, d, n - 1);
      ConstantStep(e, Run(e, p, d, n - 1), d);
    }
  }

  /** A configuration that decides for itself stays for the rest of the run. */
  lemma {:induction false} RestStays(e: Env, p: Pacer, d: FrameDuration, n: nat)
    requires e.period > REFRESH_RATE_MARGIN && e.auto && d.Clamped()
    requires |p.window| <= FRAME_DURATION_SAMPLES && AllAre(p.window, d)
    requires Decide(ConstantLoad(e, d), p.config) == p.config
    ensures var q := Run(e, p, d, n);
            AllAre(q.window, d) && |q.window| <= FRAME_DURATION_SAMPLES && q.config == p.config
  {
    if n > 0 {
      RestStays(e, p, d, n - 1);
      ConstantStep(e, Run(e, p, d, n - 1), d);
    }
  }

  /** The next decision of a constant run: it comes within 300 frames, and either the
      configuration is at rest or the window starts afresh. */
  lemma NextDecision(e: Env, p: Pacer, d: FrameDuration) returns (n: nat)
    requires e.period > REFRESH_RATE_MARGIN && e.auto && d.Clamped()
    requires |p.window| <= FRAME_DURATION_SAMPLES && AllAre(p.window, d)
    ensures 1 <= n <= FRAME_DURATION_SAMPLES
    ensures var q, l := Run(e, p, d, n), ConstantLoad(e, d);
            && q.config == Decide(l, p.config)
            && AllAre(q.window, d) && |q.window| <= FRAME_DURATION_SAMPLES
            && (q.window == [] || Decide(l, p.config) == p.config)
  {
    n := if |p.window| == FRAME_DURATION_SAMPLES then 1 else FRAME_DURATION_SAMPLES - |p.window|;
    if |p.window| < FRAME_DURATION_SAMPLES { Filling(e, p, d, n - 1); }
    ConstantStep(e, Run(e, p, d, n - 1), d);
  }

  /** From a window that holds only `d`, 600 frames are enough to come to rest. */
  lemma ConstantWindowSettles(e: Env, p: Pacer, d: FrameDuration, n: nat)
    requires e.period > REFRESH_RATE_MARGIN && e.auto && d.Clamped()
    requires |p.window| <= FRAME_DURATION_SAMPLES && AllAre(p.window, d)
    requires n >= 2 * FRAME_DURATION_SAMPLES
    ensures Run(e, p, d, n).config == Iterate(ConstantLoad(e, d), p.config, 2)
  {
    hide Run, Decide, AllAre;
    var l := ConstantLoad(e, d);
    TwoDecisionsSettle(l, p.config);
    var a := NextDecision(e, p, d);
    var q := Run(e, p, d, a);
    var b := NextDecision(e, q, d);
    var r := Run(e, q, d, b);
    assert Iterate(l, p.config, 1) == Decide(l, Iterate(l, p.config, 0));
    assert Iterate(l, p.config, 2) == Decide(l, Decide(l, p.config));
    RestStays(e, r, d, n - a - b);
    RunSplit(e, p, d, a, n - a);
    RunSplit(e, q, d, b, n - a - b);
  }

  /** Whatever the window and the configuration were, 900 frames of a constant load bring the
      configuration to rest, and it rests where two decisions lead from frame 300. */
  lemma ConstantLoadSettles(e: Env, p: Pacer, d: FrameDuration, n: nat)
    requires e.period > REFRESH_RATE_MARGIN && e.auto && d.Clamped() && p.Valid()
    requires n >= 3 * FRAME_DURATION_SAMPLES
    ensures Run(e, p, d, n).config
            == Iterate(ConstantLoad(e, d), Run(e, p, d, FRAME_DURATION_SAMPLES).config, 2)
  {
    hide Run, Decide;
    var k := FRAME_DURATION_SAMPLES;
    NewestAfterRun(e, p, d, k);
    ConstantWindowSettles(e, Run(e, p, d, k), d, n - k);
    RunSplit(e, p, d, k, n - k);
  }
}
