/** The Timer of the choreographer filter: a phase-locked loop over vsync timestamps that keeps
    an estimate of the refresh period and of the time of the last vsync. */
module ChoreographerTimer {
  import opened CInt

  /** mBaseTime and mRefreshPeriod, in nanoseconds. */
  datatype Phase = Phase(base: int, period: int)

  /** `base + period * 1.5 < point`, in exact arithmetic. */
  predicate Behind(p: Phase, point: int) {
    2 * (point - p.base) > 3 * p.period
  }

  /** The catch-up loop: whole periods are skipped until the point is near the next vsync. */
  function CatchUp(p: Phase, point: int): (r: Phase)
    requires p.period > 0
    ensures r.period == p.period && !Behind(r, point)
    ensures Behind(p, point) ==> 2 * (point - r.base) > p.period
    decreases point - p.base
  {
    if Behind(p, point) then CatchUp(p.(base := p.base + p.period), point) else p
  }

  /** Catching up skips whole periods. */
  lemma {:induction false} CatchUpSkipsWholePeriods(p: Phase, point: int) returns (skipped: nat)
    requires p.period > 0
    ensures CatchUp(p, point).base == p.base + skipped * p.period
    decreases point - p.base
  {
    skipped := 0;
    if Behind(p, point) {
      var rest := CatchUpSkipsWholePeriods(p.(base := p.base + p.period), point);
      skipped := rest + 1;
    }
  }

  /** The distance of a point from the predicted vsync. */
  function Delta(p: Phase, point: int): int {
    point - (p.base + p.period)
  }

  /** The outlier test. */
  predicate IsOutlier(p: Phase, point: int) {
    Delta(p, point) < Quot(-p.period, 2) || Delta(p, point) > Quot(p.period, 2)
  }

  /** The smoothing step for a point that passes the outlier test. */
  function Smooth(p: Phase, point: int): Phase {
    var period := p.period + Quot(Delta(p, point) * 2, 10);
    Phase(p.base + period, period)
  }

  /** The effect of a timestamp, already shifted by the offset to SurfaceFlinger. */
  function Track(p: Phase, point: int): Phase
    requires p.period > 0
  {
    var q := CatchUp(p, point);
    if IsOutlier(q, point) then q else Smooth(q, point)
  }

  class Timer {
    const appToSfDelay: int
    var baseTime: int
    var refreshPeriod: int
    var lastTimestamp: int
    var repeatCount: int

    ghost predicate Valid()
      reads this
    {
      refreshPeriod > 0 && repeatCount >= 0
    }

    function CurrentPhase(): Phase
      reads this
    {
      Phase(baseTime, refreshPeriod)
    }

    constructor (refreshPeriod: int, appToSfDelay: int, now: int)
      requires refreshPeriod > 0
      ensures Valid()
      ensures CurrentPhase() == Phase(now, refreshPeriod) && repeatCount == 0 && lastTimestamp == now
      ensures this.appToSfDelay == appToSfDelay
    {
      this.refreshPeriod, this.appToSfDelay := refreshPeriod, appToSfDelay;
      baseTime, lastTimestamp, repeatCount := now, now, 0;
    }

    /** False from the seventh consecutive repetition of a timestamp on. */
    method AddTimestamp(timestamp: int) returns (isFresh: bool)
      requires Valid()
      modifies this
      ensures Valid() && lastTimestamp == timestamp
      ensures repeatCount == if timestamp == old(lastTimestamp) then old(repeatCount) + 1 else 0
      ensures isFresh <==> repeatCount <= 6
      ensures CurrentPhase() == if isFresh then Track(old(CurrentPhase()), timestamp + appToSfDelay)
                                else old(CurrentPhase())
    {
      if timestamp == lastTimestamp {
        repeatCount := repeatCount + 1;
        if repeatCount - 1 > 5 {
          return false;
        }
      } else {
        repeatCount := 0;
      }
      lastTimestamp := timestamp;
      CatchUpTo(timestamp + appToSfDelay);
      SmoothToward(timestamp + appToSfDelay);
      return true;
    }

    method CatchUpTo(point: int)
      requires Valid()
      modifies `baseTime
      ensures CurrentPhase() == CatchUp(old(CurrentPhase()), point)
    {
      ghost var start := CurrentPhase();
      while 2 * (point - baseTime) > 3 * refreshPeriod
        invariant CatchUp(CurrentPhase(), point) == CatchUp(start, point)
        decreases point - baseTime
      {
        baseTime := baseTime + refreshPeriod;
      }
    }

    /** The rest of addTimestamp: outliers are ignored, other points pull period and base along. */
    method SmoothToward(point: int)
      requires Valid()
      modifies `baseTime, `refreshPeriod
      ensures Valid()
      ensures var p := old(CurrentPhase());
              CurrentPhase() == if IsOutlier(p, point) then p else Smooth(p, point)
    {
      var delta := point - (baseTime + refreshPeriod);
      if delta < Quot(-refreshPeriod, 2) || delta > Quot(refreshPeriod, 2) {
        return;
      }
      refreshPeriod := refreshPeriod + Quot(delta * 2, 10);
      baseTime := baseTime + refreshPeriod;
    }

    /** The time `sleep` wakes up at: the first predicted vsync, shifted by the offset, that is
        not in the past. An offset of more than half a period is ignored. */
    method Sleep(offset: int, now: int) returns (targetTime: int)
      requires Valid()
      ensures targetTime >= now
      ensures var shift := if Abs(offset) > refreshPeriod / 2 then 0 else offset;
              var first := baseTime + refreshPeriod + shift;
              && targetTime >= first && (targetTime - first) % refreshPeriod == 0
              && (targetTime == first || targetTime - refreshPeriod < now)
    {
      var shift := offset;
      if offset < -Quot(refreshPeriod, 2) || offset > Quot(refreshPeriod, 2) {
        shift := 0;
      }
      targetTime := baseTime + refreshPeriod + shift;
      ghost var first := targetTime;
      while targetTime < now
        invariant targetTime >= first && (targetTime - first) % refreshPeriod == 0
        invariant targetTime == first || targetTime - refreshPeriod < now
        decreases now - targetTime
      {
        AddKeepsMod(targetTime - first, refreshPeriod);
        targetTime := targetTime + refreshPeriod;
      }
    }
  }

  // ------------------------------------------------------------------------- robustness

  /** The period stays positive and moves by at most a tenth. */
  lemma PeriodStaysPositive(p: Phase, point: int)
    requires p.period > 0
    ensures Track(p, point).period > 0
    ensures 10 * Abs(Track(p, point).period - p.period) <= p.period
  {
  }

  /** After catching up a point is never too late, so only early points are outliers. */
  lemma LateOutliersCannotHappen(p: Phase, point: int)
    requires p.period > 0
    ensures Delta(CatchUp(p, point), point) <= Quot(p.period, 2)
    ensures IsOutlier(CatchUp(p, point), point) <==> Delta(CatchUp(p, point), point) < Quot(-p.period, 2)
  {
  }

  /** A point that needed catching up is accepted. */
  lemma CaughtUpPointIsAccepted(p: Phase, point: int)
    requires p.period > 0 && Behind(p, point)
    ensures !IsOutlier(CatchUp(p, point), point)
  {
  }

  /** A timestamp that has just been accepted changes nothing when it is repeated. */
  ghost predicate RepeatIsIgnored(p: Phase, point: int)
    requires p.period > 0
  {
    var q := CatchUp(p, point);
    IsOutlier(q, point) ||
    (Smooth(q, point).period > 0 && Track(Smooth(q, point), point) == Smooth(q, point))
  }

  lemma RepeatsAreIgnored(p: Phase, point: int)
    requires p.period > 8 || p.period in {1, 3, 5, 7}
    ensures RepeatIsIgnored(p, point)
  {
  }

  /** Repetitions are harmless for every point exactly when the period is longer than 8 ns or odd. */
  lemma RepeatsAreIgnoredIff(period: int)
    requires period > 0
    ensures (forall base, point :: RepeatIsIgnored(Phase(base, period), point))
            <==> period > 8 || period % 2 == 1
  {
    if period > 8 || period % 2 == 1 {
      forall base, point ensures RepeatIsIgnored(Phase(base, period), point) {
        RepeatsAreIgnored(Phase(base, period), point);
      }
    } else {
      assert !RepeatIsIgnored(Phase(0, period), period + period / 2);
    }
  }
}
