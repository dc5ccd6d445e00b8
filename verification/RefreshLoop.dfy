/** The refresh-rate search as a loop: a decision chooses a rate, the display switches to it and
    reports it, the recorded configuration is adopted or the interval is recomputed, and the next
    full window decides again. */
module RefreshLoop {
  import opened CInt
  import opened Wrappers
  import opened FrameTiming
  import opened IntervalControl
  import opened RefreshRates

  // ----------------------------------------------------------------- one round of the loop

  /** What stays the same: the rates, the average frame time and the settings. */
  datatype Conditions = Conditions(rates: seq<Rate>, average: FrameDuration, appInterval: int, pipelineAuto: bool) {
    ghost predicate Valid() { IsRateMap(rates) && average.NonNegative() }

    function LoadAt(period: int): Load { Load(average, period, appInterval, pipelineAuto) }

    function FrameTime(): int { LoadAt(0).PipelineTime() }

    /** The swap period the frames need at a rate. */
    function Duration(i: nat): int
      requires i < |rates| && rates[i].period > 0
    {
      DurationAt(rates[i], FrameTime())
    }

    /** The swap period the app's interval needs at a rate. */
    function AppDuration(i: nat): int
      requires i < |rates| && rates[i].period > 0
    {
      DurationAt(rates[i], appInterval)
    }

    /** The frames need at least the app's interval. */
    predicate Covers(i: nat)
      requires i < |rates| && rates[i].period > 0
    {
      Duration(i) >= appInterval
    }
  }

  /** The rate in force, by its index, and the configuration. */
  datatype Spot = Spot(rate: nat, config: Config)

  ghost predicate IsSpot(e: Conditions, s: Spot) {
    e.Valid() && s.rate < |e.rates|
  }

  function LoadOn(e: Conditions, s: Spot): Load
    requires s.rate < |e.rates|
  {
    e.LoadAt(e.rates[s.rate].period)
  }

  /** The rate a search finds. */
  ghost function Found(e: Conditions, t: Target): (r: Option<nat>)
    requires e.Valid()
    ensures r.Some? ==> r.value < |e.rates| && IsChoice(e.rates, t, r.value)
    ensures r.None? ==> forall b: nat :: b < |e.rates| ==> !IsChoice(e.rates, t, b)
  {
    if b: nat :| b < |e.rates| && IsChoice(e.rates, t, b) then Some(b) else None
  }

  /** The rate asked for when a recorded configuration is not adopted. */
  ghost function Preferred(e: Conditions): (r: Option<nat>)
    requires e.Valid()
    ensures r.Some? ==> r.value < |e.rates| && IsPreferred(e.rates, e.appInterval, r.value)
    ensures r.None? ==> forall b: nat :: b < |e.rates| ==> !IsPreferred(e.rates, e.appInterval, b)
  {
    if b: nat :| b < |e.rates| && IsPreferred(e.rates, e.appInterval, b) then Some(b) else None
  }

  /** The display reports rate `b`. */
  function Reported(e: Conditions, s: Spot, recorded: Config, b: nat): Spot
    requires s.rate < |e.rates| && b < |e.rates| && e.rates[b].period > 0
  {
    Spot(b, ApplyTimings(true, SettingsAt(LoadOn(e, s), e.rates[s.rate].period), s.config, recorded,
                         SettingsAt(LoadOn(e, s), e.rates[b].period)))
  }

  /** One round: a full window decides and searches, and the display switches to the rate that is
      found. If the recorded configuration is not adopted then, the preferred rate is asked for at
      once, and reported while nothing is recorded. */
  ghost function Round(e: Conditions, s: Spot): (t: Spot)
    requires IsSpot(e, s)
    ensures IsSpot(e, t)
  {
    var l := LoadOn(e, s);
    var c := Decide(l, s.config);
    match Found(e, SearchAfter(l, c))
    case None => Spot(s.rate, c)
    case Some(b) =>
      var recorded := RecordedFor(l, e.rates[b]);
      var t := Reported(e, Spot(s.rate, c), recorded, b);
      if b == s.rate || KeepsRecorded(true, e.appInterval, recorded, SettingsAt(l, e.rates[b].period)) || Preferred(e).None?
      then t
      else Reported(e, t, Config(0, recorded.mode), Preferred(e).value)
  }

  /** The display is asked for another rate. */
  ghost predicate Switches(e: Conditions, s: Spot)
    requires IsSpot(e, s)
  {
    var l := LoadOn(e, s);
    var found := Found(e, SearchAfter(l, Decide(l, s.config)));
    found.Some? && found.value != s.rate
  }

  ghost predicate AtRest(e: Conditions, s: Spot)
    requires IsSpot(e, s)
  {
    Decide(LoadOn(e, s), s.config) == s.config && !Switches(e, s)
  }

  ghost function Rounds(e: Conditions, s: Spot, n: nat): (t: Spot)
    requires IsSpot(e, s)
    ensures IsSpot(e, t)
    decreases n
  {
    if n == 0 then s else Rounds(e, Round(e, s), n - 1)
  }

  ghost predicate ComesToRest(e: Conditions, s: Spot)
    requires IsSpot(e, s)
  {
    exists n: nat :: AtRest(e, Rounds(e, s, n))
  }

  lemma RestIsKept(e: Conditions, s: Spot)
    requires IsSpot(e, s) && AtRest(e, s)
    ensures Round(e, s) == s
  {
  }

  lemma ComesToRestIff(e: Conditions, s: Spot)
    requires IsSpot(e, s)
    ensures ComesToRest(e, s) <==> AtRest(e, s) || ComesToRest(e, Round(e, s))
  {
    hide AtRest, Round;
    if n: nat :| AtRest(e, Rounds(e, s, n)) {
      if n > 0 { assert Rounds(e, s, n) == Rounds(e, Round(e, s), n - 1); }
    }
    if AtRest(e, s) { assert Rounds(e, s, 0) == s; }
    if n: nat :| AtRest(e, Rounds(e, Round(e, s), n)) {
      assert Rounds(e, s, n + 1) == Rounds(e, Round(e, s), n);
    }
  }

  // ------------------------------------------------------------- the search, by durations

  /** Room for the edge margin, and not shorter than the app's interval. */
  predicate IsRoomy(e: Conditions, j: nat)
    requires j < |e.rates| && e.rates[j].period > 0
  {
    e.FrameTime() < e.Duration(j) - EDGE_HYSTERESIS && e.Covers(j)
  }

  /** The roomy rate of least duration, the fastest of them if there are several. */
  ghost predicate IsLeast(e: Conditions, m: nat)
    requires e.Valid()
  {
    && m < |e.rates| && IsRoomy(e, m)
    && (forall j: nat :: j < |e.rates| && IsRoomy(e, j) ==>
          e.Duration(m) <= e.Duration(j) && (j < m ==> e.Duration(m) < e.Duration(j)))
  }

  predicate IsNear(e: Conditions, duration: int, j: nat)
    requires j < |e.rates| && e.rates[j].period > 0
  {
    Abs(e.Duration(j) - duration) < SAME_DURATION_MARGIN
  }

  /** The slowest rate after `i` whose duration is `duration` up to a millisecond. */
  ghost predicate IsSlowest(e: Conditions, i: nat, duration: int, f: nat)
    requires e.Valid()
  {
    i < f < |e.rates| && IsNear(e, duration, f) && forall j: nat :: f < j < |e.rates| ==> !IsNear(e, duration, j)
  }

  ghost predicate SomeRoomyBelow(e: Conditions, duration: int)
    requires e.Valid()
  {
    exists k: nat :: k < |e.rates| && IsRoomy(e, k) && e.Duration(k) < duration
  }

  ghost predicate SomeNearAfter(e: Conditions, i: nat, duration: int)
    requires e.Valid()
  {
    exists k: nat :: i < k < |e.rates| && IsNear(e, duration, k)
  }

  /** What the search finds at rate `i` with a swap period of `duration`. */
  ghost predicate Finds(e: Conditions, i: nat, duration: int, r: Option<nat>)
    requires e.Valid()
  {
    if SomeRoomyBelow(e, duration) then r.Some? && IsLeast(e, r.value) && e.Duration(r.value) < duration
    else if SomeNearAfter(e, i, duration) then r.Some? && IsSlowest(e, i, duration, r.value)
    else r == None
  }

  lemma {:induction false} LeastOfFirst(e: Conditions, k: nat, j: nat) returns (m: nat)
    requires e.Valid() && j < k <= |e.rates| && IsRoomy(e, j)
    ensures m < k && IsRoomy(e, m)
    ensures forall i: nat :: i < k && IsRoomy(e, i) ==>
              e.Duration(m) <= e.Duration(i) && (i < m ==> e.Duration(m) < e.Duration(i))
  {
    if j == k - 1 && forall i: nat :: i < k - 1 ==> !IsRoomy(e, i) {
      m := j;
    } else {
      var i: nat :| i < k - 1 && IsRoomy(e, i);
      m := LeastOfFirst(e, k - 1, i);
      if IsRoomy(e, k - 1) && e.Duration(k - 1) < e.Duration(m) { m := k - 1; }
    }
  }

  lemma {:induction false} SlowestFrom(e: Conditions, i: nat, duration: int, j: nat) returns (f: nat)
    requires e.Valid() && i < j < |e.rates| && IsNear(e, duration, j)
    ensures IsSlowest(e, i, duration, f)
    decreases |e.rates| - j
  {
    f := j;
    if k: nat :| j < k < |e.rates| && IsNear(e, duration, k) { f := SlowestFrom(e, i, duration, k); }
  }

  function TargetOn(e: Conditions, i: nat, c: Config): Target
    requires i < |e.rates|
  {
    SearchAfter(e.LoadAt(e.rates[i].period), c)
  }

  lemma TargetByDuration(e: Conditions, i: nat, c: Config, j: nat)
    requires e.Valid() && i < |e.rates| && j < |e.rates|
    ensures IsBetter(e.rates[j], TargetOn(e, i, c)) <==>
              IsRoomy(e, j) && e.Duration(j) < e.rates[i].period * c.interval
    ensures IsSlowerEqual(e.rates[j], TargetOn(e, i, c)) <==> i < j && IsNear(e, e.rates[i].period * c.interval, j)
  {
    if j < i { assert e.rates[j].period < e.rates[i].period; }
    if i < j { assert e.rates[i].period < e.rates[j].period; }
  }

  lemma ChoiceByDuration(e: Conditions, i: nat, c: Config, b: nat)
    requires e.Valid() && i < |e.rates| && b < |e.rates|
    ensures var t, d := TargetOn(e, i, c), e.rates[i].period * c.interval;
            && (IsBestBetter(e.rates, t, b) <==> IsLeast(e, b) && e.Duration(b) < d)
            && (IsLongestEqual(e.rates, t, b) <==> IsSlowest(e, i, d, b))
            && (SomeBetter(e.rates, t) <==> SomeRoomyBelow(e, d))
  {
    var t, d := TargetOn(e, i, c), e.rates[i].period * c.interval;
    assert t.frameTime == e.FrameTime();
    forall j: nat | j < |e.rates|
      ensures IsBetter(e.rates[j], t) <==> IsRoomy(e, j) && e.Duration(j) < d
      ensures IsSlowerEqual(e.rates[j], t) <==> i < j && IsNear(e, d, j)
    {
      TargetByDuration(e, i, c, j);
    }
    hide IsRoomy, IsNear, DurationAt, IsBetter, IsSlowerEqual, TargetOn;
  }

  lemma FoundByDuration(e: Conditions, i: nat, c: Config)
    requires e.Valid() && i < |e.rates|
    ensures Finds(e, i, e.rates[i].period * c.interval, Found(e, TargetOn(e, i, c)))
  {
    hide IsRoomy, IsNear, DurationAt, IsBestBetter, IsLongestEqual, SomeBetter, TargetOn;
    var d := e.rates[i].period * c.interval;
    forall b: nat | b < |e.rates|
      ensures IsBestBetter(e.rates, TargetOn(e, i, c), b) <==> IsLeast(e, b) && e.Duration(b) < d
      ensures IsLongestEqual(e.rates, TargetOn(e, i, c), b) <==> IsSlowest(e, i, d, b)
    {
      ChoiceByDuration(e, i, c, b);
    }
    ChoiceByDuration(e, i, c, i);
    if k: nat :| k < |e.rates| && IsRoomy(e, k) && e.Duration(k) < d {
      var m := LeastOfFirst(e, |e.rates|, k);
      assert IsChoice(e.rates, TargetOn(e, i, c), m);
    } else if k: nat :| i < k < |e.rates| && IsNear(e, d, k) {
      var f := SlowestFrom(e, i, d, k);
      assert IsChoice(e.rates, TargetOn(e, i, c), f);
    }
  }

  lemma FindsIsUnique(e: Conditions, i: nat, duration: int, r: Option<nat>, r': Option<nat>)
    requires e.Valid() && Finds(e, i, duration, r) && Finds(e, i, duration, r')
    ensures r == r'
  {
    hide IsRoomy, IsNear, DurationAt;
  }

  // ---------------------------------------------------------------------------- stops

  /** Where a round that changes the rate leads: to a rate with the configuration recorded for it,
      or to one with the configuration recomputed from the app's interval. */
  datatype Stop = Adopted(rate: nat) | Recomputed(rate: nat)

  /** A recomputation needs a rate that does not cover the app's interval. */
  ghost predicate IsStop(e: Conditions, st: Stop) {
    && e.Valid() && st.rate < |e.rates|
    && (st.Adopted? ==> e.Covers(st.rate)) && (st.Recomputed? ==> !CoversApp(e))
  }

  /** Every rate covers the app's interval. */
  ghost predicate CoversApp(e: Conditions)
    requires e.Valid()
  {
    forall i: nat :: i < |e.rates| ==> e.Covers(i)
  }

  function SpotOf(e: Conditions, st: Stop): (s: Spot)
    requires st.rate < |e.rates| && e.rates[st.rate].period > 0
    ensures s.rate == st.rate
  {
    var r := e.rates[st.rate];
    match st
    case Adopted(i) => Spot(i, RecordedFor(e.LoadAt(r.period), r))
    case Recomputed(i) => Spot(i, Config(CalculateSwapInterval(e.appInterval, r.period), Off))
  }

  /** The stop after the search has found rate `b`. */
  ghost function Landing(e: Conditions, b: nat): (st: Stop)
    requires e.Valid() && b < |e.rates|
    ensures IsStop(e, st)
  {
    if e.Covers(b) then Adopted(b)
    else Recomputed(if Preferred(e).Some? then Preferred(e).value else b)
  }

  /** The swap period at a stop. */
  function StopDuration(e: Conditions, st: Stop): int
    requires st.rate < |e.rates| && e.rates[st.rate].period > 0
  {
    if st.Adopted? then e.Duration(st.rate) else e.AppDuration(st.rate)
  }

  ghost function Search(e: Conditions, i: nat, duration: int): (r: Option<nat>)
    requires e.Valid()
    ensures Finds(e, i, duration, r) && (r.Some? ==> r.value < |e.rates|)
  {
    if k: nat :| k < |e.rates| && IsRoomy(e, k) && e.Duration(k) < duration then
      Some(LeastRoomy(e, k))
    else if k: nat :| i < k < |e.rates| && IsNear(e, duration, k) then
      Some(Slowest(e, i, duration, k))
    else None
  }

  ghost function LeastRoomy(e: Conditions, k: nat): (m: nat)
    requires e.Valid() && k < |e.rates| && IsRoomy(e, k)
    ensures IsLeast(e, m) && e.Duration(m) <= e.Duration(k)
  {
    LeastExists(e, k);
    var m: nat :| IsLeast(e, m); m
  }

  ghost function Slowest(e: Conditions, i: nat, duration: int, k: nat): (f: nat)
    requires e.Valid() && i < k < |e.rates| && IsNear(e, duration, k)
    ensures IsSlowest(e, i, duration, f)
  {
    SlowestExists(e, i, duration, k);
    var f: nat :| IsSlowest(e, i, duration, f); f
  }

  lemma LeastExists(e: Conditions, k: nat)
    requires e.Valid() && k < |e.rates| && IsRoomy(e, k)
    ensures exists m: nat :: IsLeast(e, m)
  {
    var m := LeastOfFirst(e, |e.rates|, k);
    assert IsLeast(e, m);
  }

  lemma SlowestExists(e: Conditions, i: nat, duration: int, k: nat)
    requires e.Valid() && i < k < |e.rates| && IsNear(e, duration, k)
    ensures exists f: nat :: IsSlowest(e, i, duration, f)
  {
    var f := SlowestFrom(e, i, duration, k);
  }

  /** The next stop, told from the durations alone. If nothing is found after a recomputation the
      frames can still be just too long for the recomputed interval; the controller then goes over
      to the interval they need. */
  ghost function NextStop(e: Conditions, st: Stop): (r: Option<Stop>)
    requires IsStop(e, st)
    ensures r.Some? ==> IsStop(e, r.value)
  {
    LongFramesAreCovered(e, st);
    var found := Search(e, st.rate, StopDuration(e, st));
    if found.Some? then Some(Landing(e, found.value))
    else if st.Recomputed? && e.FrameTime() > e.AppDuration(st.rate) + REFRESH_RATE_MARGIN then Some(Adopted(st.rate))
    else None
  }

  lemma LongFramesAreCovered(e: Conditions, st: Stop)
    requires IsStop(e, st)
    ensures st.Recomputed? && e.FrameTime() > e.AppDuration(st.rate) + REFRESH_RATE_MARGIN ==> e.Covers(st.rate)
  {
    if st.Recomputed? { DecisionsWhenRecomputed(e, st.rate); }
  }

  // ------------------------------------------------------------------ rounds and stops

  lemma FoundIsSearched(e: Conditions, i: nat, c: Config)
    requires e.Valid() && i < |e.rates|
    ensures Found(e, TargetOn(e, i, c)) == Search(e, i, e.rates[i].period * c.interval)
  {
    FoundByDuration(e, i, c);
    FindsIsUnique(e, i, e.rates[i].period * c.interval, Found(e, TargetOn(e, i, c)),
                  Search(e, i, e.rates[i].period * c.interval));
  }

  /** A round that finds another rate leads to that rate's landing, whatever the configuration. */
  lemma RoundLands(e: Conditions, s: Spot)
    requires IsSpot(e, s)
    ensures var c := Decide(LoadOn(e, s), s.config);
            var found := Search(e, s.rate, e.rates[s.rate].period * c.interval);
            && (Switches(e, s) <==> found.Some? && found.value != s.rate)
            && Round(e, s) == if Switches(e, s) then SpotOf(e, Landing(e, found.value)) else Spot(s.rate, c)
  {
    var c := Decide(LoadOn(e, s), s.config);
    FoundIsSearched(e, s.rate, c);
    var found := Search(e, s.rate, e.rates[s.rate].period * c.interval);
    if found.Some? && found.value != s.rate { ReportLands(e, Spot(s.rate, c), found.value); }
  }

  lemma ReportLands(e: Conditions, s: Spot, b: nat)
    requires IsSpot(e, s) && b < |e.rates| && b != s.rate
    ensures var recorded := RecordedFor(LoadOn(e, s), e.rates[b]);
            var t := Reported(e, s, recorded, b);
            && (KeepsRecorded(true, e.appInterval, recorded, SettingsAt(LoadOn(e, s), e.rates[b].period)) <==> e.Covers(b))
            && (if e.Covers(b) then t == SpotOf(e, Adopted(b))
                else t == SpotOf(e, Recomputed(b))
                     && forall q: nat :: q < |e.rates| ==> Reported(e, t, Config(0, recorded.mode), q) == SpotOf(e, Recomputed(q)))
  {
    IntervalIsLeast(e.FrameTime(), e.rates[b].period);
    assert e.rates[b].period != e.rates[s.rate].period by { PeriodsDiffer(e, b, s.rate); }
    forall q: nat | q < |e.rates| && q != b ensures e.rates[q].period != e.rates[b].period { PeriodsDiffer(e, q, b); }
  }

  lemma PeriodsDiffer(e: Conditions, i: nat, j: nat)
    requires e.Valid() && i < |e.rates| && j < |e.rates| && i != j
    ensures e.rates[i].period != e.rates[j].period
  {
    if i < j { assert e.rates[i].period < e.rates[j].period; } else { assert e.rates[j].period < e.rates[i].period; }
  }

  lemma AppDurationIsLeast(e: Conditions, i: nat)
    requires e.Valid() && i < |e.rates|
    ensures e.AppDuration(i) >= e.appInterval - REFRESH_RATE_MARGIN
    ensures e.Covers(i) ==> e.AppDuration(i) <= e.Duration(i)
  {
    var p := e.rates[i].period;
    IntervalIsLeast(e.appInterval, p);
    IntervalIsLeast(e.FrameTime(), p);
    var n, k := CalculateSwapInterval(e.appInterval, p), CalculateSwapInterval(e.FrameTime(), p);
    assert n * p == p * n && k * p == p * k;
    if e.Covers(i) { MulLe(n, k, p); }
  }

  /** The search from a stop never finds the rate that is in force. */
  lemma SearchLeavesRate(e: Conditions, st: Stop)
    requires IsStop(e, st)
    ensures var found := Search(e, st.rate, StopDuration(e, st)); found.Some? ==> found.value != st.rate
  {
    AppDurationIsLeast(e, st.rate);
    hide DurationAt;
  }

  lemma DecisionWhenAdopted(e: Conditions, i: nat)
    requires e.Valid() && i < |e.rates|
    ensures var s := SpotOf(e, Adopted(i));
            Decide(LoadOn(e, s), s.config) == s.config && e.rates[i].period * s.config.interval == e.Duration(i)
  {
    var l := e.LoadAt(e.rates[i].period);
    JumpTargetIsFixed(l);
    assert SpotOf(e, Adopted(i)).config == SwapFaster(l, Config(1, On));
  }

  /** The decisions after a recomputation: the first one keeps the interval, and so does the second
      unless the frames are just too long for it. */
  lemma DecisionsWhenRecomputed(e: Conditions, i: nat)
    requires IsStop(e, Recomputed(i))
    ensures var s := SpotOf(e, Recomputed(i));
            var l, n := LoadOn(e, s), s.config.interval;
            var c := Decide(l, s.config);
            && e.rates[i].period * n == e.AppDuration(i) && c.interval == n
            && if e.FrameTime() > e.AppDuration(i) + REFRESH_RATE_MARGIN
               then e.Covers(i) && Decide(l, c) == SpotOf(e, Adopted(i)).config && Decide(l, c).interval != n
               else Decide(l, c).interval == n && Decide(l, Decide(l, c)) == Decide(l, c)
  {
    var s := SpotOf(e, Recomputed(i));
    var l, p, n := LoadOn(e, s), e.rates[i].period, s.config.interval;
    ShortRateBounds(e);
    IntervalIsLeast(e.appInterval, p);
    AppDurationIsLeast(e, i);
    NewIntervalFits(l);
    TwoDecisionsSettle(l, s.config);
    RecomputedIntervals(p, n, l.NewInterval(), e.appInterval, e.FrameTime());
  }

  /** A rate that does not cover the app's interval bounds the frame time by it. */
  lemma ShortRateBounds(e: Conditions)
    requires e.Valid() && !CoversApp(e)
    ensures 0 < e.appInterval && e.FrameTime() < e.appInterval + REFRESH_RATE_MARGIN
  {
    var i: nat :| i < |e.rates| && !e.Covers(i);
    var p, k := e.rates[i].period, CalculateSwapInterval(e.FrameTime(), e.rates[i].period);
    IntervalIsLeast(e.FrameTime(), p);
    assert k * p == p * k;
    MulLe(1, k, p);
  }

  /** The interval for the app against the one for the frames. */
  lemma RecomputedIntervals(p: int, n: int, k: int, app: int, time: int)
    requires p > REFRESH_RATE_MARGIN && 0 < app && time < app + REFRESH_RATE_MARGIN
    requires IsLeastInterval(n, app, p) && k >= 1 && p * k >= time - REFRESH_RATE_MARGIN
    requires k >= 2 ==> p * (k - 1) < time - REFRESH_RATE_MARGIN
    ensures p * n >= app - REFRESH_RATE_MARGIN && app > p * (n - 1)
    ensures time > p * n + REFRESH_RATE_MARGIN ==> k == n + 1 && p * k >= app
    ensures p * n < time <= p * n + REFRESH_RATE_MARGIN ==> k == n
  {
    assert n * p == p * n && p * (n - 1) == p * n - p && p * (k - 1) == p * k - p;
    if n >= 2 { assert (n - 1) * p == p * (n - 1); }
    if k < n { MulLe(k, n - 1, p); }
    if k > n + 1 { MulLe(n + 1, k - 1, p); assert p * (n + 1) == p * n + p; }
    if k == n + 1 { assert p * k == p * n + p; }
    hide IsLeastInterval;
    CompareIntervals(p, n, k, p * n, p * k, app, time);
  }

  lemma CompareIntervals(p: int, n: int, k: int, pn: int, pk: int, app: int, time: int)
    requires p > REFRESH_RATE_MARGIN && 0 < app && time < app + REFRESH_RATE_MARGIN
    requires n >= 1 && k >= 1 && pn >= app - REFRESH_RATE_MARGIN && pk >= time - REFRESH_RATE_MARGIN
    requires app > pn - p && (k >= 2 ==> pk - p < time - REFRESH_RATE_MARGIN)
    requires (k < n ==> pk <= pn - p) && (k == n ==> pk == pn) && (k == n + 1 ==> pk == pn + p)
    requires k > n + 1 ==> pk - p >= pn + p
    ensures time > pn + REFRESH_RATE_MARGIN ==> k == n + 1 && pk >= app
    ensures pn < time <= pn + REFRESH_RATE_MARGIN ==> k == n
  {
  }

  /** The round after which the search at a stop has been made, if it finds something. */
  lemma StopMoves(e: Conditions, st: Stop)
    requires IsStop(e, st) && Search(e, st.rate, StopDuration(e, st)).Some?
    ensures NextStop(e, st).Some? && Round(e, SpotOf(e, st)) == SpotOf(e, NextStop(e, st).value)
    ensures !AtRest(e, SpotOf(e, st))
  {
    SearchLeavesRate(e, st);
    if st.Adopted? { DecisionWhenAdopted(e, st.rate); } else { DecisionsWhenRecomputed(e, st.rate); }
    RoundLands(e, SpotOf(e, st));
  }

  lemma AdoptedRests(e: Conditions, i: nat)
    requires IsStop(e, Adopted(i)) && NextStop(e, Adopted(i)).None?
    ensures AtRest(e, SpotOf(e, Adopted(i)))
  {
    DecisionWhenAdopted(e, i);
    RoundLands(e, SpotOf(e, Adopted(i)));
  }

  /** A round depends on the configuration only through the decision. */
  lemma SameDecisionSameRound(e: Conditions, i: nat, c: Config, d: Config)
    requires e.Valid() && i < |e.rates|
    requires Decide(e.LoadAt(e.rates[i].period), c) == Decide(e.LoadAt(e.rates[i].period), d)
    ensures Round(e, Spot(i, c)) == Round(e, Spot(i, d))
  {
  }

  /** A recomputation after which nothing is found: two more rounds without a switch. */
  lemma RecomputedStays(e: Conditions, i: nat)
    requires IsStop(e, Recomputed(i)) && Search(e, i, e.AppDuration(i)).None?
    ensures var s := SpotOf(e, Recomputed(i));
            var t := Round(e, s);
            if NextStop(e, Recomputed(i)).Some?
            then NextStop(e, Recomputed(i)).value == Adopted(i) && Round(e, t) == Round(e, SpotOf(e, Adopted(i)))
                 && !AtRest(e, s) && !AtRest(e, t)
            else AtRest(e, Round(e, t))
  {
    var s := SpotOf(e, Recomputed(i));
    DecisionsWhenRecomputed(e, i);
    RoundLands(e, s);
    var t := Round(e, s);
    if NextStop(e, Recomputed(i)).Some? {
      DecisionWhenAdopted(e, i);
      SameDecisionSameRound(e, i, t.config, SpotOf(e, Adopted(i)).config);
    } else {
      RoundLands(e, t);
      RoundLands(e, Round(e, t));
    }
  }

  /** The stop `n` stops on, if there is one. */
  ghost function StopAfter(e: Conditions, st: Stop, n: nat): (r: Option<Stop>)
    requires IsStop(e, st)
    ensures r.Some? ==> IsStop(e, r.value)
    decreases n
  {
    if n == 0 then Some(st)
    else if NextStop(e, st).None? then None
    else StopAfter(e, NextStop(e, st).value, n - 1)
  }

  ghost predicate TrailEnds(e: Conditions, st: Stop)
    requires IsStop(e, st)
  {
    exists n: nat :: StopAfter(e, st, n).None?
  }

  lemma {:induction false} EndedTrailRests(e: Conditions, st: Stop, n: nat)
    requires IsStop(e, st) && StopAfter(e, st, n).None?
    ensures ComesToRest(e, SpotOf(e, st))
    decreases n
  {
    hide AtRest, Round, NextStop, SpotOf, Search;
    if NextStop(e, st).None? {
      LastStopRests(e, st);
    } else {
      var next := NextStop(e, st).value;
      EndedTrailRests(e, next, n - 1);
      NextStopRests(e, st);
    }
  }

  lemma LastStopRests(e: Conditions, st: Stop)
    requires IsStop(e, st) && NextStop(e, st).None?
    ensures ComesToRest(e, SpotOf(e, st))
  {
    var s := SpotOf(e, st);
    ComesToRestIff(e, s);
    if st.Adopted? {
      AdoptedRests(e, st.rate);
    } else {
      RecomputedStays(e, st.rate);
      ComesToRestIff(e, Round(e, s));
      ComesToRestIff(e, Round(e, Round(e, s)));
    }
  }

  lemma NextStopRests(e: Conditions, st: Stop)
    requires IsStop(e, st) && NextStop(e, st).Some? && ComesToRest(e, SpotOf(e, NextStop(e, st).value))
    ensures ComesToRest(e, SpotOf(e, st))
  {
    var s, next := SpotOf(e, st), NextStop(e, st).value;
    ComesToRestIff(e, s);
    if Search(e, st.rate, StopDuration(e, st)).Some? {
      StopMoves(e, st);
    } else {
      RecomputedStays(e, st.rate);
      ComesToRestIff(e, Round(e, s));
      ComesToRestIff(e, SpotOf(e, next));
      if AtRest(e, SpotOf(e, next)) { RestIsKept(e, SpotOf(e, next)); }
    }
  }

  /** The rounds that bring a stop to rest bring the next one to rest sooner. */
  lemma NextStopRestsSooner(e: Conditions, st: Stop, n: nat) returns (k: nat)
    requires IsStop(e, st) && NextStop(e, st).Some? && AtRest(e, Rounds(e, SpotOf(e, st), n))
    ensures k < n && AtRest(e, Rounds(e, SpotOf(e, NextStop(e, st).value), k))
  {
    var s, next := SpotOf(e, st), SpotOf(e, NextStop(e, st).value);
    var t := Round(e, s);
    k := if n > 0 then n - 1 else 0;
    if Search(e, st.rate, StopDuration(e, st)).Some? {
      StopMoves(e, st);
      FirstRounds(e, s, n);
    } else {
      RecomputedStays(e, st.rate);
      FirstRounds(e, s, n);
      FirstRounds(e, next, n - 1);
    }
  }

  lemma FirstRounds(e: Conditions, s: Spot, n: nat)
    requires IsSpot(e, s)
    ensures Rounds(e, s, 0) == s && Rounds(e, s, 1) == Round(e, s)
    ensures n >= 1 ==> Rounds(e, s, n) == Rounds(e, Round(e, s), n - 1)
    ensures n >= 2 ==> Rounds(e, s, n) == Rounds(e, Round(e, Round(e, s)), n - 2)
  {
    hide Round;
    assert Rounds(e, Round(e, s), 0) == Round(e, s);
  }

  lemma {:induction false} RestEndsTrail(e: Conditions, st: Stop, n: nat)
    requires IsStop(e, st) && AtRest(e, Rounds(e, SpotOf(e, st), n))
    ensures TrailEnds(e, st)
    decreases n
  {
    hide AtRest, Round, NextStop, SpotOf;
    if NextStop(e, st).None? {
      assert StopAfter(e, st, 1).None?;
    } else {
      var next := NextStop(e, st).value;
      var k := NextStopRestsSooner(e, st, n);
      RestEndsTrail(e, next, k);
      var m: nat :| StopAfter(e, next, m).None?;
      assert StopAfter(e, st, m + 1).None?;
    }
  }

  // -------------------------------------------------------------------- cycles of stops

  ghost predicate ComesBack(e: Conditions, st: Stop, n: nat)
    requires IsStop(e, st)
  {
    n > 0 && StopAfter(e, st, n) == Some(st)
  }

  /** Some stop is followed, sooner or later, by itself. */
  ghost predicate HasCycle(e: Conditions) {
    exists st: Stop, n: nat :: IsStop(e, st) && ComesBack(e, st, n)
  }

  lemma {:induction false} StopsAdd(e: Conditions, st: Stop, k: nat, n: nat)
    requires IsStop(e, st)
    ensures StopAfter(e, st, k + n) ==
            if StopAfter(e, st, k).Some? then StopAfter(e, StopAfter(e, st, k).value, n) else None
    decreases k
  {
    hide NextStop;
    if k > 0 && NextStop(e, st).Some? { StopsAdd(e, NextStop(e, st).value, k - 1, n); }
  }

  lemma {:induction false} CycleNeverEnds(e: Conditions, st: Stop, n: nat, k: nat)
    requires IsStop(e, st) && ComesBack(e, st, n)
    ensures StopAfter(e, st, k).Some?
    decreases k
  {
    hide NextStop;
    if k <= n {
      StopsAdd(e, st, k, n - k);
    } else {
      StopsAdd(e, st, n, k - n);
      CycleNeverEnds(e, st, n, k - n);
    }
  }

  function AllStops(n: nat): set<Stop> {
    (set i: nat | i < n :: Adopted(i)) + (set i: nat | i < n :: Recomputed(i))
  }

  ghost predicate LeadsTo(e: Conditions, b: Stop, st: Stop) {
    IsStop(e, b) && exists n: nat :: n > 0 && StopAfter(e, b, n) == Some(st)
  }

  lemma LeadsToNext(e: Conditions, b: Stop, st: Stop)
    requires IsStop(e, st) && NextStop(e, st).Some?
    ensures LeadsTo(e, st, NextStop(e, st).value)
    ensures LeadsTo(e, b, st) ==> LeadsTo(e, b, NextStop(e, st).value)
    ensures LeadsTo(e, st, st) ==> HasCycle(e)
  {
    hide NextStop, IsStop;
    var next := NextStop(e, st).value;
    assert StopAfter(e, next, 0) == Some(next);
    assert StopAfter(e, st, 1) == Some(next);
    if LeadsTo(e, b, st) {
      var n: nat :| n > 0 && StopAfter(e, b, n) == Some(st);
      StopsAdd(e, b, n, 1);
      assert StopAfter(e, b, n + 1) == Some(next);
    }
    if LeadsTo(e, st, st) {
      var n: nat :| n > 0 && StopAfter(e, st, n) == Some(st);
      assert ComesBack(e, st, n);
    }
  }

  lemma FewerLeft(e: Conditions, st: Stop, before: set<Stop>)
    requires IsStop(e, st) && st !in before
    ensures |AllStops(|e.rates|) - (before + {st})| < |AllStops(|e.rates|) - before|
    ensures before <= AllStops(|e.rates|) ==> before + {st} <= AllStops(|e.rates|)
  {
    var all := AllStops(|e.rates|);
    assert st in all - before;
    assert all - (before + {st}) == all - before - {st};
  }

  /** Without a cycle the stops run out. */
  lemma {:induction false} TrailEndsWithoutCycle(e: Conditions, st: Stop, before: set<Stop>)
    requires IsStop(e, st) && !HasCycle(e)
    requires before <= AllStops(|e.rates|) && forall b <- before :: LeadsTo(e, b, st)
    ensures TrailEnds(e, st)
    decreases |AllStops(|e.rates|) - before|
  {
    hide NextStop, IsStop, LeadsTo, HasCycle, AllStops;
    if NextStop(e, st).None? {
      assert StopAfter(e, st, 1).None?;
    } else {
      var next := NextStop(e, st).value;
      LeadsToNext(e, st, st);
      forall b | b in before + {st} ensures LeadsTo(e, b, next) { LeadsToNext(e, b, st); }
      FewerLeft(e, st, before);
      TrailEndsWithoutCycle(e, next, before + {st});
      var n: nat :| StopAfter(e, next, n).None?;
      assert StopAfter(e, st, n + 1).None?;
    }
  }

  // ----------------------------------------------------------------- the loop as a whole

  /** From any configuration, either a round leads to a stop, or three rounds lead to rest. */
  lemma AnySpotRests(e: Conditions, s: Spot)
    requires IsSpot(e, s) && forall st: Stop :: IsStop(e, st) ==> ComesToRest(e, SpotOf(e, st))
    ensures ComesToRest(e, s)
  {
    hide AtRest, SpotOf, Landing, Search;
    var t := Round(e, s);
    var u := Round(e, t);
    ComesToRestIff(e, s);
    ComesToRestIff(e, t);
    ComesToRestIff(e, u);
    RoundLands(e, s);
    RoundLands(e, t);
    RoundLands(e, u);
    if !Switches(e, s) && !Switches(e, t) {
      TwoDecisionsSettle(LoadOn(e, s), s.config);
      if !Switches(e, u) { RestsWhenFixed(e, u); }
    }
  }

  lemma RestsWhenFixed(e: Conditions, s: Spot)
    requires IsSpot(e, s) && !Switches(e, s) && Decide(LoadOn(e, s), s.config) == s.config
    ensures AtRest(e, s)
  {
  }

  /** Decision, search, report and adoption, round after round under constant conditions: the loop
      comes to rest from every rate and configuration if and only if no stop comes back to itself,
      which the durations at the rates decide. */
  lemma LoopComesToRestIff(e: Conditions)
    requires e.Valid()
    ensures (forall s: Spot :: IsSpot(e, s) ==> ComesToRest(e, s)) <==> !HasCycle(e)
  {
    hide AtRest, Round, NextStop, SpotOf, Search;
    if HasCycle(e) {
      var st: Stop, n: nat :| IsStop(e, st) && ComesBack(e, st, n);
      CyclicStopDoesNotRest(e, st, n);
    } else {
      forall st: Stop | IsStop(e, st) ensures ComesToRest(e, SpotOf(e, st)) {
        TrailEndsWithoutCycle(e, st, {});
        var n: nat :| StopAfter(e, st, n).None?;
        EndedTrailRests(e, st, n);
      }
      forall s: Spot | IsSpot(e, s) ensures ComesToRest(e, s) { AnySpotRests(e, s); }
    }
  }

  lemma CyclicStopDoesNotRest(e: Conditions, st: Stop, n: nat)
    requires IsStop(e, st) && ComesBack(e, st, n)
    ensures IsSpot(e, SpotOf(e, st)) && !ComesToRest(e, SpotOf(e, st))
  {
    hide AtRest, Round, NextStop;
    if k: nat :| AtRest(e, Rounds(e, SpotOf(e, st), k)) {
      RestEndsTrail(e, st, k);
      var m: nat :| StopAfter(e, st, m).None?;
      CycleNeverEnds(e, st, n, m);
      assert false;
    }
  }

  // --------------------------------------------- if every rate covers the app's interval

  /** The roomy rate of least duration has a slower neighbour whose duration is a little longer. */
  ghost predicate GoesBackAndForth(e: Conditions, m: nat, f: nat)
    requires e.Valid()
  {
    IsLeast(e, m) && IsSlowest(e, m, e.Duration(m), f) && e.Duration(f) > e.Duration(m)
  }

  /** Such rates alternate, whether or not the others cover the app's interval. */
  lemma BackAndForth(e: Conditions, m: nat, f: nat)
    requires e.Valid() && GoesBackAndForth(e, m, f)
    ensures IsStop(e, Adopted(m)) && IsStop(e, Adopted(f))
    ensures NextStop(e, Adopted(m)) == Some(Adopted(f)) && NextStop(e, Adopted(f)) == Some(Adopted(m))
    ensures HasCycle(e)
  {
    assert IsRoomy(e, m) && e.Covers(f);
    hide IsRoomy, IsNear, DurationAt;
    FindsIsUnique(e, m, e.Duration(m), Search(e, m, e.Duration(m)), Some(f));
    FindsIsUnique(e, f, e.Duration(f), Search(e, f, e.Duration(f)), Some(m));
    hide NextStop;
    assert StopAfter(e, Adopted(m), 0) == Some(Adopted(m));
    assert StopAfter(e, Adopted(f), 1) == Some(Adopted(m));
    assert ComesBack(e, Adopted(m), 2);
  }

  /** Rate `i` and all slower ones stay clear of the durations just above the least one. */
  ghost predicate StaysLow(e: Conditions, m: nat, i: nat)
    requires e.Valid() && m < |e.rates|
  {
    && i < |e.rates| && e.Duration(i) <= e.Duration(m)
    && forall j: nat :: i < j < |e.rates| ==> !IsNear(e, e.Duration(m), j)
  }

  lemma EndsIfNextDoes(e: Conditions, st: Stop)
    requires IsStop(e, st) && (NextStop(e, st).Some? ==> TrailEnds(e, NextStop(e, st).value))
    ensures TrailEnds(e, st)
  {
    hide NextStop;
    if NextStop(e, st).None? {
      assert StopAfter(e, st, 1).None?;
    } else {
      var n: nat :| StopAfter(e, NextStop(e, st).value, n).None?;
      assert StopAfter(e, st, n + 1).None?;
    }
  }

  lemma {:induction false} LowEnds(e: Conditions, m: nat, i: nat)
    requires e.Valid() && CoversApp(e) && IsLeast(e, m) && StaysLow(e, m, i)
    ensures TrailEnds(e, Adopted(i))
    decreases |e.rates| - i
  {
    var found := Search(e, i, e.Duration(i));
    if found.Some? {
      var j := found.value;
      assert IsSlowest(e, i, e.Duration(i), j) && !IsNear(e, e.Duration(m), j);
      LowEnds(e, m, j);
    }
    EndsIfNextDoes(e, Adopted(i));
  }

  lemma LeastEnds(e: Conditions, m: nat)
    requires e.Valid() && CoversApp(e) && IsLeast(e, m) && !exists f: nat :: GoesBackAndForth(e, m, f)
    ensures TrailEnds(e, Adopted(m))
  {
    var found := Search(e, m, e.Duration(m));
    if found.Some? {
      assert !GoesBackAndForth(e, m, found.value);
      assert StaysLow(e, m, found.value);
      LowEnds(e, m, found.value);
    }
    EndsIfNextDoes(e, Adopted(m));
  }

  lemma {:induction false} EveryTrailEnds(e: Conditions, i: nat)
    requires e.Valid() && CoversApp(e) && i < |e.rates| && !exists m: nat, f: nat :: GoesBackAndForth(e, m, f)
    ensures TrailEnds(e, Adopted(i))
    decreases |e.rates| - i
  {
    hide IsRoomy, IsNear, DurationAt;
    var found := Search(e, i, e.Duration(i));
    if found.Some? {
      var j := found.value;
      if IsLeast(e, j) {
        assert !exists f: nat :: GoesBackAndForth(e, j, f);
        LeastEnds(e, j);
      } else {
        EveryTrailEnds(e, j);
      }
    }
    EndsIfNextDoes(e, Adopted(i));
  }

  /** If every rate covers the app's interval, as it does for frames longer than that, the loop
      comes to rest from everywhere if and only if no two rates go back and forth. */
  lemma LongFramesComeToRestIff(e: Conditions)
    requires e.Valid() && CoversApp(e)
    ensures (forall s: Spot :: IsSpot(e, s) ==> ComesToRest(e, s))
            <==> !exists m: nat, f: nat :: GoesBackAndForth(e, m, f)
  {
    hide GoesBackAndForth, NextStop, AtRest, Round;
    LoopComesToRestIff(e);
    if m: nat, f: nat :| GoesBackAndForth(e, m, f) { BackAndForth(e, m, f); }
    if HasCycle(e) {
      var st: Stop, n: nat :| IsStop(e, st) && ComesBack(e, st, n);
      if !exists m: nat, f: nat :: GoesBackAndForth(e, m, f) {
        EveryTrailEnds(e, st.rate);
        var k: nat :| StopAfter(e, st, k).None?;
        CycleNeverEnds(e, st, n, k);
        assert false;
      }
    }
  }

  lemma LongFramesCoverApp(e: Conditions)
    requires e.Valid() && e.FrameTime() >= e.appInterval + REFRESH_RATE_MARGIN
    ensures CoversApp(e)
  {
    forall i: nat | i < |e.rates| ensures e.Covers(i) {
      IntervalIsLeast(e.FrameTime(), e.rates[i].period);
      var n := CalculateSwapInterval(e.FrameTime(), e.rates[i].period);
      assert n * e.rates[i].period == e.rates[i].period * n;
    }
  }

  // ---------------------------------------------------------- which stops have to be followed

  /** The least roomy rate, and the rate a recomputation ends at. */
  ghost predicate IsHub(e: Conditions, st: Stop)
    requires IsStop(e, st)
  {
    if st.Adopted? then IsLeast(e, st.rate)
    else Preferred(e).Some? ==> st.rate == Preferred(e).value
  }

  /** A step that leads to no hub leads from one rate to a slower one, or stays after a recomputation. */
  lemma StepClimbs(e: Conditions, st: Stop)
    requires IsStop(e, st) && NextStop(e, st).Some? && !IsHub(e, NextStop(e, st).value)
    ensures NextStop(e, st).value.Adopted?
    ensures NextStop(e, st).value.rate > st.rate || (st.Recomputed? && NextStop(e, st).value.rate == st.rate)
  {
    hide IsRoomy, IsNear, DurationAt;
  }

  lemma {:induction false} TrailClimbs(e: Conditions, st: Stop, n: nat)
    requires IsStop(e, st) && n > 0 && StopAfter(e, st, n).Some?
    requires forall k: nat :: 0 < k <= n ==> StopAfter(e, st, k).Some? && !IsHub(e, StopAfter(e, st, k).value)
    ensures var last := StopAfter(e, st, n).value;
            last.Adopted? && (last.rate > st.rate || (st.Recomputed? && last.rate == st.rate))
    decreases n
  {
    hide NextStop, IsHub;
    var next := NextStop(e, st).value;
    assert StopAfter(e, next, 0) == Some(next);
    assert StopAfter(e, st, 1) == Some(next);
    assert !IsHub(e, next);
    StepClimbs(e, st);
    if n > 1 {
      forall k: nat | 0 < k <= n - 1 ensures StopAfter(e, next, k).Some? && !IsHub(e, StopAfter(e, next, k).value) {
        assert StopAfter(e, st, k + 1) == StopAfter(e, next, k);
      }
      TrailClimbs(e, next, n - 1);
    }
  }

  /** Every cycle goes through the least roomy rate or through a recomputation, so only these stops
      have to be followed to tell whether there is one: at most two, if there is a preferred rate. */
  lemma HubsDecide(e: Conditions)
    requires e.Valid()
    ensures HasCycle(e) <==> exists st: Stop, n: nat :: IsStop(e, st) && IsHub(e, st) && ComesBack(e, st, n)
  {
    hide NextStop, IsHub;
    if HasCycle(e) {
      var st: Stop, n: nat :| IsStop(e, st) && ComesBack(e, st, n);
      forall k: nat | k <= n ensures StopAfter(e, st, k).Some? { CycleNeverEnds(e, st, n, k); }
      if k: nat :| 0 < k <= n && IsHub(e, StopAfter(e, st, k).value) {
        var hub := StopAfter(e, st, k).value;
        StopsAdd(e, st, k, n);
        StopsAdd(e, st, n, k);
        assert ComesBack(e, hub, n);
      } else {
        TrailClimbs(e, st, n);
        assert false;
      }
    }
  }

  // ------------------------------------------------------------------------- examples

  /** It does happen: 120 and 80 Hz with 20 ms frames, 24.999 ms and 25 ms. */
  lemma RatesCanAlternate()
    ensures exists e: Conditions ::
              && e.Valid() && CoversApp(e) && |e.rates| == 2
              && Round(e, SpotOf(e, Adopted(0))) == SpotOf(e, Adopted(1))
              && Round(e, SpotOf(e, Adopted(1))) == SpotOf(e, Adopted(0))
  {
    var e := Conditions([Rate(8_333_000, 0), Rate(12_500_000, 1)], FrameDuration(17_000_000, 10_000_000), 16_000_000, true);
    assert CalculateSwapInterval(20_000_000, 8_333_000) == 3;
    assert CalculateSwapInterval(20_000_000, 12_500_000) == 2;
    assert e.Duration(0) == 24_999_000 && e.Duration(1) == 25_000_000;
    assert e.Valid() && CoversApp(e);
    assert GoesBackAndForth(e, 0, 1);
    BackAndForth(e, 0, 1);
    AlternatingRounds(e, 0, 1);
  }

  lemma AlternatingRounds(e: Conditions, m: nat, f: nat)
    requires e.Valid() && GoesBackAndForth(e, m, f)
    ensures m < |e.rates| && f < |e.rates|
    ensures Round(e, SpotOf(e, Adopted(m))) == SpotOf(e, Adopted(f))
    ensures Round(e, SpotOf(e, Adopted(f))) == SpotOf(e, Adopted(m))
  {
    BackAndForth(e, m, f);
    hide IsRoomy, IsNear, Round, SpotOf;
    StopMoves(e, Adopted(m));
    StopMoves(e, Adopted(f));
  }

  ghost predicate IsShortRateExample(e: Conditions) {
    && e == Conditions([Rate(11_111_000, 0), Rate(16_660_000, 1)], FrameDuration(22_000_000, 2_000_000), 33_330_000, true)
    && e.Valid() && e.Duration(0) == 33_333_000 && e.Duration(1) == 33_320_000
    && e.AppDuration(0) == 33_333_000 && e.AppDuration(1) == 49_980_000
  }

  lemma ShortRateExample() returns (e: Conditions)
    ensures IsShortRateExample(e)
  {
    e := Conditions([Rate(11_111_000, 0), Rate(16_660_000, 1)], FrameDuration(22_000_000, 2_000_000), 33_330_000, true);
    assert CalculateSwapInterval(25_000_000, 11_111_000) == 3;
    assert CalculateSwapInterval(25_000_000, 16_660_000) == 2;
    assert CalculateSwapInterval(33_330_000, 11_111_000) == 3;
    assert CalculateSwapInterval(33_330_000, 16_660_000) == 3;
  }

  lemma ShortRateStops(e: Conditions)
    requires IsShortRateExample(e)
    ensures !CoversApp(e) && IsStop(e, Adopted(0)) && IsStop(e, Recomputed(0))
    ensures NextStop(e, Adopted(0)) == NextStop(e, Recomputed(0)) == Some(Recomputed(0))
    ensures Search(e, 0, 33_333_000) == Some(1)
    ensures forall m: nat, f: nat :: !GoesBackAndForth(e, m, f)
  {
    assert IsPreferred(e.rates, e.appInterval, 0) && !IsPreferred(e.rates, e.appInterval, 1);
    assert !e.Covers(1);
    hide DurationAt;
    assert IsSlowest(e, 0, 33_333_000, 1);
    FindsIsUnique(e, 0, 33_333_000, Search(e, 0, 33_333_000), Some(1));
  }

  /** A rate that does not cover the app's interval: it is found in every window, its record is not
      adopted, and the display is sent back to the other rate, for ever, although no two rates go
      back and forth. */
  lemma ShortRateIsNotAdopted()
    ensures exists e: Conditions ::
              && e.Valid() && |e.rates| == 2 && !CoversApp(e) && (forall m: nat, f: nat :: !GoesBackAndForth(e, m, f))
              && Round(e, SpotOf(e, Adopted(0))) == SpotOf(e, Recomputed(0))
              && Round(e, SpotOf(e, Recomputed(0))) == SpotOf(e, Recomputed(0)) && Switches(e, SpotOf(e, Recomputed(0)))
  {
    var e := ShortRateExample();
    ShortRateStops(e);
    StopMoves(e, Adopted(0));
    StopMoves(e, Recomputed(0));
    StopSwitches(e, Recomputed(0));
  }

  lemma StopSwitches(e: Conditions, st: Stop)
    requires IsStop(e, st) && Search(e, st.rate, StopDuration(e, st)).Some?
    ensures Switches(e, SpotOf(e, st))
  {
    SearchLeavesRate(e, st);
    if st.Adopted? { DecisionWhenAdopted(e, st.rate); } else { DecisionsWhenRecomputed(e, st.rate); }
    RoundLands(e, SpotOf(e, st));
  }
}
