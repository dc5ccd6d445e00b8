/** How the render thread paces frames against the choreographer. The render thread goes through
    onPreSwap, the swap, onPostSwap and startFrame; wakeClient, the mode setters and
    setMaxAutoSwapIntervalNS run on other threads and may be interleaved anywhere. */
module FramePacing {
  import opened FrameTiming
  import opened IntervalControl

  /** waitForNextFrame is called from onPreSwap or from onPostSwap. */
  datatype Place = Pre | Post

  datatype Pc =
    | Rendering                                  // the app renders; onPreSwap comes next
    | WaitTarget(place: Place)                   // waitUntilTargetFrame
    | CheckLast(place: Place)                    // polls lastFrameIsComplete
    | WaitOne(place: Place, until: int)          // waitOneFrame
    | Swapped                                    // onPreSwap has returned
    | Updating                                   // updateSwapInterval and updateDisplayTimings
    | Starting                                   // startFrame, before it takes the lock
    | Targeting(frame: int)                      // startFrame, after it released the lock

  /** One completed swap, recorded when startFrame sets the new target. */
  datatype Swap = Swap(
    frame: int,              // mCurrentFrame as startFrame read it
    interval: int,           // the swap interval in force from then on
    waits: nat,              // how often waitForNextFrame ran during the swap
    modeAtPre: PipelineMode,
    modeAtPost: PipelineMode,
    withinThreshold: bool)   // the last wait found period * interval within the threshold

  datatype State = State(
    pc: Pc,
    currentFrame: int,
    targetFrame: int,
    config: Config,
    period: int,
    threshold: int,
    waits: nat,
    modeAtPre: PipelineMode,
    modeAtPost: PipelineMode,
    withinThreshold: bool,
    swaps: seq<Swap>)

  datatype Action =
    | Wake                                       // wakeClient
    | TurnPipeliningOn                           // setAutoSwapInterval(false), setAutoPipelineMode(false)
    | SetThreshold(ns: int)                      // setMaxAutoSwapIntervalNS
    | OnPreSwap
    | ReachTarget
    | FrameComplete(complete: bool)
    | OneFramePassed
    | OnPostSwap
    | Reconfigure(config: Config, period: int)
    | ReadFrame
    | SetTarget

  ghost predicate Init(s: State) {
    s.pc == Rendering && s.config == Config(1, Off) && s.swaps == [] && s.currentFrame == 0 && s.targetFrame == 0
  }

  predicate Enabled(s: State, a: Action) {
    match a
    case Wake => true
    case TurnPipeliningOn => true
    case SetThreshold(_) => true
    case OnPreSwap => s.pc == Rendering
    case ReachTarget => s.pc.WaitTarget? && s.currentFrame >= s.targetFrame
    case FrameComplete(_) => s.pc.CheckLast?
    case OneFramePassed => s.pc.WaitOne? && s.currentFrame >= s.pc.until
    case OnPostSwap => s.pc == Swapped
    case Reconfigure(c, _) => s.pc == Updating && c.interval >= 1
    case ReadFrame => s.pc == Starting
    case SetTarget => s.pc.Targeting?
  }

  function AfterWait(place: Place): Pc {
    if place == Pre then Swapped else Updating
  }

  /** Entry of waitForNextFrame: above the threshold it does not sleep at all. */
  function EnterWait(s: State, place: Place): State {
    var within := s.period * s.config.interval <= s.threshold;
    s.(waits := s.waits + 1, withinThreshold := within,
       pc := if within then WaitTarget(place) else AfterWait(place))
  }

  function Next(s: State, a: Action): State
    requires Enabled(s, a)
  {
    match a
    case Wake => s.(currentFrame := s.currentFrame + 1)
    case TurnPipeliningOn => s.(config := s.config.(mode := On))
    case SetThreshold(ns) => s.(threshold := ns)
    case OnPreSwap =>
      var t := s.(waits := 0, modeAtPre := s.config.mode, withinThreshold := false);
      if s.config.mode == On then EnterWait(t, Pre) else t.(pc := Swapped)
    case ReachTarget => s.(pc := CheckLast(s.pc.place))
    case FrameComplete(complete) =>
      if complete then s.(pc := AfterWait(s.pc.place))
      else s.(pc := WaitOne(s.pc.place, s.currentFrame + 1))
    case OneFramePassed => s.(pc := CheckLast(s.pc.place))
    case OnPostSwap =>
      var t := s.(modeAtPost := s.config.mode);
      if s.config.mode == Off then EnterWait(t, Post) else t.(pc := Updating)
    case Reconfigure(c, period) => s.(config := c, period := period, pc := Starting)
    case ReadFrame => s.(pc := Targeting(s.currentFrame))
    case SetTarget =>
      s.(pc := Rendering, targetFrame := s.pc.frame + s.config.interval,
         swaps := s.swaps + [Swap(s.pc.frame, s.config.interval, s.waits, s.modeAtPre, s.modeAtPost, s.withinThreshold)])
  }

  ghost predicate Reaches(s: State, actions: seq<Action>, t: State)
    decreases |actions|
  {
    if actions == [] then s == t
    else Enabled(s, actions[0]) && Reaches(Next(s, actions[0]), actions[1..], t)
  }

  function Waits(modeAtPre: PipelineMode, modeAtPost: PipelineMode): nat {
    (if modeAtPre == On then 1 else 0) + (if modeAtPost == Off then 1 else 0)
  }

  /** The wait of this swap has been passed, so the target frame has been reached. */
  predicate PastWait(s: State) {
    match s.pc
    case Rendering => false
    case WaitTarget(_) => false
    case Swapped => s.waits > 0
    case _ => true
  }

  ghost predicate SwapInv(w: Swap) {
    && w.waits == Waits(w.modeAtPre, w.modeAtPost)
    && !(w.modeAtPre == On && w.modeAtPost == Off)
    && (w.waits == 0 ==> !w.withinThreshold)
    && w.interval >= 1
  }

  ghost predicate Inv(s: State) {
    HistoryInv(s) && ControlInv(s)
  }

  ghost predicate ControlInv(s: State) {
    && s.config.interval >= 1
    && (s.withinThreshold && PastWait(s) ==> s.currentFrame >= s.targetFrame)
    && PcInv(s)
  }

  ghost predicate HistoryInv(s: State) {
    && (forall w <- s.swaps :: SwapInv(w))
    && (s.swaps != [] ==> s.targetFrame == s.swaps[|s.swaps| - 1].frame + s.swaps[|s.swaps| - 1].interval)
    && (forall i :: 0 < i < |s.swaps| && s.swaps[i].withinThreshold ==>
          s.swaps[i].frame >= s.swaps[i - 1].frame + s.swaps[i - 1].interval)
  }

  ghost predicate PcInv(s: State) {
    match s.pc
    case Rendering => true
    case Swapped =>
      && s.waits == (if s.modeAtPre == On then 1 else 0) && (s.waits == 0 ==> !s.withinThreshold)
      && (s.modeAtPre == On ==> s.config.mode == On)
    case WaitTarget(place) => WaitInv(s, place)
    case CheckLast(place) => WaitInv(s, place)
    case WaitOne(place, _) => WaitInv(s, place)
    case Updating => DoneInv(s)
    case Starting => DoneInv(s)
    case Targeting(frame) =>
      DoneInv(s) && frame <= s.currentFrame && (s.withinThreshold ==> frame >= s.targetFrame)
  }

  ghost predicate WaitInv(s: State, place: Place) {
    && s.waits == 1 && s.withinThreshold
    && (place == Pre ==> s.modeAtPre == On && s.config.mode == On)
    && (place == Post ==> s.modeAtPre == Off && s.modeAtPost == Off)
  }

  ghost predicate DoneInv(s: State) {
    && s.waits == Waits(s.modeAtPre, s.modeAtPost)
    && !(s.modeAtPre == On && s.modeAtPost == Off)
    && (s.waits == 0 ==> !s.withinThreshold)
  }

  lemma StepKeepsControl(s: State, a: Action)
    requires ControlInv(s) && Enabled(s, a)
    ensures ControlInv(Next(s, a))
  {
  }

  /** A finished swap enters the history; no other action touches it. */
  lemma StepKeepsHistory(s: State, a: Action)
    requires HistoryInv(s) && ControlInv(s) && Enabled(s, a)
    ensures HistoryInv(Next(s, a))
  {
    if a != SetTarget {
      assert Next(s, a).swaps == s.swaps && Next(s, a).targetFrame == s.targetFrame;
    }
  }

  lemma StepKeepsInv(s: State, a: Action)
    requires Inv(s) && Enabled(s, a)
    ensures Inv(Next(s, a))
  {
    hide HistoryInv, ControlInv, Next;
    StepKeepsControl(s, a);
    StepKeepsHistory(s, a);
  }

  lemma {:induction false} RunKeepsInv(s: State, actions: seq<Action>, t: State)
    requires Inv(s) && Reaches(s, actions, t)
    ensures Inv(t)
    decreases |actions|
  {
    if actions != [] {
      StepKeepsInv(s, actions[0]);
      RunKeepsInv(Next(s, actions[0]), actions[1..], t);
    }
  }

  // -------------------------------------------------------------- how often a swap waits

  /** What the actions alone say about the swaps: for each completed one, whether pipelining was
      turned on between its onPreSwap and its onPostSwap; and the same for the one under way. */
  datatype Interference = Interference(completed: seq<bool>, swapping: bool, turnedOn: bool)

  function Note(o: Interference, a: Action): Interference {
    match a
    case OnPreSwap => o.(swapping := true, turnedOn := false)
    case TurnPipeliningOn => o.(turnedOn := o.turnedOn || o.swapping)
    case OnPostSwap => o.(swapping := false)
    case SetTarget => o.(completed := o.completed + [o.turnedOn])
    case _ => o
  }

  function NoteAll(o: Interference, actions: seq<Action>): Interference
    decreases |actions|
  {
    if actions == [] then o else NoteAll(Note(o, actions[0]), actions[1..])
  }

  /** For each completed swap of a run, whether pipelining was turned on in the middle of it. */
  function TurnedOnDuring(actions: seq<Action>): seq<bool> {
    NoteAll(Interference([], false, false), actions).completed
  }

  /** The mode a swap is in once it was entered in mode `m`. */
  function ModeAfter(m: PipelineMode, turnedOn: bool): PipelineMode {
    if turnedOn then On else m
  }

  predicate IsSwapping(pc: Pc) {
    pc == Swapped || (pc.WaitTarget? && pc.place == Pre) || (pc.CheckLast? && pc.place == Pre)
    || (pc.WaitOne? && pc.place == Pre)
  }

  ghost predicate Agrees(s: State, o: Interference) {
    && |o.completed| == |s.swaps|
    && (forall i :: 0 <= i < |s.swaps| ==> s.swaps[i].modeAtPost == ModeAfter(s.swaps[i].modeAtPre, o.completed[i]))
    && (o.swapping <==> IsSwapping(s.pc))
    && (IsSwapping(s.pc) ==> s.config.mode == ModeAfter(s.modeAtPre, o.turnedOn))
    && (!IsSwapping(s.pc) && s.pc != Rendering ==> s.modeAtPost == ModeAfter(s.modeAtPre, o.turnedOn))
  }

  lemma StepAgrees(s: State, o: Interference, a: Action)
    requires Enabled(s, a) && Agrees(s, o)
    ensures Agrees(Next(s, a), Note(o, a))
  {
  }

  lemma {:induction false} RunAgrees(s: State, o: Interference, actions: seq<Action>, t: State)
    requires Reaches(s, actions, t) && Agrees(s, o)
    ensures Agrees(t, NoteAll(o, actions))
    decreases |actions|
  {
    if actions != [] {
      StepAgrees(s, o, actions[0]);
      RunAgrees(Next(s, actions[0]), Note(o, actions[0]), actions[1..], t);
    }
  }

  /** In every run a swap waits exactly once, unless it was entered without pipelining and
      pipelining was turned on before its onPostSwap: then, and only then, it does not wait. */
  lemma WaitsExactlyOnceIff(s: State, actions: seq<Action>, t: State, i: int)
    requires Init(s) && Reaches(s, actions, t) && 0 <= i < |t.swaps|
    ensures |TurnedOnDuring(actions)| == |t.swaps|
    ensures t.swaps[i].waits == if t.swaps[i].modeAtPre == Off && TurnedOnDuring(actions)[i] then 0 else 1
  {
    RunKeepsInv(s, actions, t);
    assert SwapInv(t.swaps[i]);
    RunAgrees(s, Interference([], false, false), actions, t);
  }

  /** Such a run: pipelining is turned on while the first swap is under way. */
  lemma SwapCanMissItsWait(s: State)
    requires Init(s)
    ensures var actions := [OnPreSwap, TurnPipeliningOn, OnPostSwap, Reconfigure(Config(1, On), s.period), ReadFrame, SetTarget];
            exists t :: Reaches(s, actions, t) && |t.swaps| == 1 && t.swaps[0].waits == 0
  {
    var c := Config(1, On);
    var s1 := Next(s, OnPreSwap);
    var s2 := Next(s1, TurnPipeliningOn);
    var s3 := Next(s2, OnPostSwap);
    var s4 := Next(s3, Reconfigure(c, s.period));
    var s5 := Next(s4, ReadFrame);
    var t := Next(s5, SetTarget);
    assert Enabled(s2, OnPostSwap) && Enabled(s3, Reconfigure(c, s.period)) && Enabled(s4, ReadFrame);
    assert Enabled(s5, SetTarget) && |t.swaps| == 1 && t.swaps[0].waits == 0;
    assert Enabled(s, OnPreSwap) && Enabled(s1, TurnPipeliningOn);
    hide Next, Enabled, Reaches;
    ReachesItself(t);
    ReachesFirst(s5, SetTarget, [], t);
    ReachesFirst(s4, ReadFrame, [SetTarget], t);
    ReachesFirst(s3, Reconfigure(c, s.period), [ReadFrame, SetTarget], t);
    ReachesFirst(s2, OnPostSwap, [Reconfigure(c, s.period), ReadFrame, SetTarget], t);
    ReachesFirst(s1, TurnPipeliningOn, [OnPostSwap, Reconfigure(c, s.period), ReadFrame, SetTarget], t);
    ReachesFirst(s, OnPreSwap, [TurnPipeliningOn, OnPostSwap, Reconfigure(c, s.period), ReadFrame, SetTarget], t);
  }

  lemma ReachesItself(t: State)
    ensures Reaches(t, [], t)
  {
  }

  lemma ReachesFirst(s: State, a: Action, rest: seq<Action>, t: State)
    requires Enabled(s, a) && Reaches(Next(s, a), rest, t)
    ensures Reaches(s, [a] + rest, t)
  {
    assert ([a] + rest)[1..] == rest;
  }

  /** While frames are paced, consecutive startFrame calls see the choreographer's frame counter
      at least the interval in force apart. */
  lemma FramesAreSpaced(s: State, actions: seq<Action>, t: State, i: int)
    requires Init(s) && Reaches(s, actions, t) && 0 < i < |t.swaps|
    requires t.swaps[i].withinThreshold
    ensures t.swaps[i].frame - t.swaps[i - 1].frame >= t.swaps[i - 1].interval >= 1
  {
    RunKeepsInv(s, actions, t);
    assert SwapInv(t.swaps[i - 1]);
  }

  // -------------------------------------------------- pacing, told from period and threshold

  /** Slow enough configurations are not paced: beyond the threshold the app runs as fast as it can. */
  predicate IsPaced(s: State) {
    s.period * s.config.interval <= s.threshold
  }

  predicate IsWaiting(pc: Pc) {
    pc.WaitTarget? || pc.CheckLast? || pc.WaitOne?
  }

  /** A run in whose states the configuration is paced. */
  ghost predicate RunsPaced(s: State, actions: seq<Action>, t: State)
    decreases |actions|
  {
    IsPaced(s) &&
    if actions == [] then s == t
    else Enabled(s, actions[0]) && RunsPaced(Next(s, actions[0]), actions[1..], t)
  }

  ghost predicate RunsUnpaced(s: State, actions: seq<Action>, t: State)
    decreases |actions|
  {
    !IsPaced(s) &&
    if actions == [] then s == t
    else Enabled(s, actions[0]) && RunsUnpaced(Next(s, actions[0]), actions[1..], t)
  }

  /** Every wait, finished or under way, was one for the target frame. */
  ghost predicate WaitsArePaced(s: State) {
    && (s.waits > 0 ==> s.withinThreshold)
    && forall w <- s.swaps :: w.waits > 0 ==> w.withinThreshold
  }

  lemma PacedStep(s: State, a: Action)
    requires Enabled(s, a) && IsPaced(s) && WaitsArePaced(s)
    ensures WaitsArePaced(Next(s, a))
  {
  }

  lemma {:induction false} PacedRun(s: State, actions: seq<Action>, t: State)
    requires RunsPaced(s, actions, t) && WaitsArePaced(s)
    ensures WaitsArePaced(t) && Reaches(s, actions, t)
    decreases |actions|
  {
    if actions != [] {
      PacedStep(s, actions[0]);
      PacedRun(Next(s, actions[0]), actions[1..], t);
    }
  }

  /** Within the threshold every swap that waits starts its frame at least the interval then in
      force after the frame before. */
  lemma PacedFramesAreSpaced(s: State, actions: seq<Action>, t: State, i: int)
    requires Init(s) && s.waits == 0 && RunsPaced(s, actions, t) && 0 < i < |t.swaps| && t.swaps[i].waits > 0
    ensures t.swaps[i].frame - t.swaps[i - 1].frame >= t.swaps[i - 1].interval >= 1
  {
    PacedRun(s, actions, t);
    assert t.swaps[i] in t.swaps;
    FramesAreSpaced(s, actions, t, i);
  }

  /** Beyond the threshold nothing ever waits for the choreographer. */
  lemma {:induction false} UnpacedNeverWaits(s: State, actions: seq<Action>, t: State)
    requires RunsUnpaced(s, actions, t) && !IsWaiting(s.pc)
    ensures !IsWaiting(t.pc)
    decreases |actions|
  {
    if actions != [] { UnpacedNeverWaits(Next(s, actions[0]), actions[1..], t); }
  }

  /** The interval in force is the one the last swap was recorded with, until it is reconfigured. */
  ghost predicate IntervalInForce(s: State) {
    s.swaps != [] && s.pc != Starting && !s.pc.Targeting? ==> s.swaps[|s.swaps| - 1].interval == s.config.interval
  }

  lemma {:induction false} IntervalIsRecorded(s: State, actions: seq<Action>, t: State)
    requires IntervalInForce(s) && Reaches(s, actions, t)
    ensures IntervalInForce(t)
    decreases |actions|
  {
    if actions != [] { IntervalIsRecorded(Next(s, actions[0]), actions[1..], t); }
  }

  // ------------------------------------------------------------------- late frames

  /** A wait ends only when the previous frame has been completed. */
  lemma WaitEndsWithCompletion(s: State, a: Action)
    requires Enabled(s, a) && IsWaiting(s.pc) && !IsWaiting(Next(s, a).pc)
    ensures a == FrameComplete(true)
  {
  }

  /** How often the previous frame turned out not to be complete yet. */
  function LateFrames(actions: seq<Action>): nat {
    if actions == [] then 0
    else (if actions[0] == FrameComplete(false) then 1 else 0) + LateFrames(actions[1..])
  }

  /** The frame counter, or what it has to reach before the wait goes on. */
  function CommittedFrame(s: State): int {
    if s.pc.WaitOne? && s.pc.until > s.currentFrame then s.pc.until else s.currentFrame
  }

  lemma {:induction false} CommittedFrames(s: State, actions: seq<Action>, t: State)
    requires Reaches(s, actions, t)
    ensures CommittedFrame(t) - CommittedFrame(s) >= LateFrames(actions)
    decreases |actions|
  {
    if actions != [] { CommittedFrames(Next(s, actions[0]), actions[1..], t); }
  }

  /** Every time the previous frame is found incomplete costs a whole frame. */
  lemma LateFramesAreWaitedFor(s: State, actions: seq<Action>, t: State)
    requires Reaches(s, actions, t) && !s.pc.WaitOne? && !t.pc.WaitOne?
    ensures t.currentFrame - s.currentFrame >= LateFrames(actions)
  {
    CommittedFrames(s, actions, t);
  }

  function TotalIntervals(w: seq<Swap>): int {
    if w == [] then 0 else TotalIntervals(w[..|w| - 1]) + w[|w| - 1].interval
  }

  /** Over a stretch of paced frames the counter advances by at least the sum of the intervals. */
  lemma {:induction false} StretchIsSpaced(s: State, actions: seq<Action>, t: State, lo: nat, hi: nat)
    requires Init(s) && Reaches(s, actions, t) && lo <= hi < |t.swaps|
    requires forall i :: lo < i <= hi ==> t.swaps[i].withinThreshold
    ensures t.swaps[hi].frame - t.swaps[lo].frame >= TotalIntervals(t.swaps[lo..hi])
    decreases hi
  {
    if lo < hi {
      StretchIsSpaced(s, actions, t, lo, hi - 1);
      FramesAreSpaced(s, actions, t, hi);
      assert t.swaps[lo..hi][..hi - lo - 1] == t.swaps[lo..hi - 1];
    }
  }

  /** The same for a stretch of swaps that wait, within the threshold. */
  lemma PacedStretchIsSpaced(s: State, actions: seq<Action>, t: State, lo: nat, hi: nat)
    requires Init(s) && s.waits == 0 && RunsPaced(s, actions, t) && lo <= hi < |t.swaps|
    requires forall i :: lo < i <= hi ==> t.swaps[i].waits > 0
    ensures t.swaps[hi].frame - t.swaps[lo].frame >= TotalIntervals(t.swaps[lo..hi])
  {
    PacedRun(s, actions, t);
    forall i | lo < i <= hi ensures t.swaps[i].withinThreshold {
      assert t.swaps[i] in t.swaps;
    }
    StretchIsSpaced(s, actions, t, lo, hi);
  }

  // ------------------------------------------------------- no more waiting than necessary

  /** Waiting for the choreographer, with nothing that the render thread could do meanwhile. */
  predicate NeedsFrame(s: State) {
    (s.pc.WaitTarget? || s.pc.WaitOne?) && !Enabled(s, ReachTarget) && !Enabled(s, OneFramePassed)
  }

  /** A run that never lets a frame go by: whatever the render thread can do is done before the next
      frame. */
  ghost predicate RunsPromptly(s: State, actions: seq<Action>, t: State)
    decreases |actions|
  {
    if actions == [] then s == t
    else
      && Enabled(s, actions[0]) && (actions[0] == Wake ==> NeedsFrame(s))
      && RunsPromptly(Next(s, actions[0]), actions[1..], t)
  }

  /** What the swaps so far ask for after the first of them, and a frame for each of `late`. */
  function Budget(w: seq<Swap>, late: nat): int
    requires w != []
  {
    w[0].frame + TotalIntervals(w) + late
  }

  ghost predicate InBudget(s: State, late: nat) {
    && s.config.interval >= 1
    && (s.pc.Targeting? ==> s.pc.frame == s.currentFrame)
    && (s.swaps != [] ==>
          && CommittedFrame(s) <= Budget(s.swaps, late)
          && s.targetFrame <= Budget(s.swaps, late))
  }

  lemma StepStaysInBudget(s: State, a: Action, late: nat)
    requires Enabled(s, a) && (a == Wake ==> NeedsFrame(s)) && InBudget(s, late)
    ensures InBudget(Next(s, a), late + if a == FrameComplete(false) then 1 else 0)
  {
    if a == SetTarget {
      var x := Next(s, a).swaps[|s.swaps|];
      TotalOfOneMore(s.swaps, x);
    }
  }

  lemma TotalOfOneMore(w: seq<Swap>, x: Swap)
    ensures TotalIntervals(w + [x]) == TotalIntervals(w) + x.interval
  {
    assert (w + [x])[..|w|] == w;
  }

  lemma {:induction false} PromptRun(s: State, actions: seq<Action>, t: State, late: nat)
    requires RunsPromptly(s, actions, t) && InBudget(s, late)
    ensures InBudget(t, late + LateFrames(actions)) && Reaches(s, actions, t)
    decreases |actions|
  {
    if actions != [] {
      StepStaysInBudget(s, actions[0], late);
      PromptRun(Next(s, actions[0]), actions[1..], t, late + if actions[0] == FrameComplete(false) then 1 else 0);
    }
  }

  /** In such a run the frame counter is never further than the intervals of the swaps so far and
      one frame for each time a frame was late: waiting costs no more than that. */
  lemma PromptFramesAreOnTime(s: State, actions: seq<Action>, t: State)
    requires Init(s) && RunsPromptly(s, actions, t) && t.swaps != []
    ensures t.currentFrame <= t.swaps[0].frame + TotalIntervals(t.swaps) + LateFrames(actions)
  {
    PromptRun(s, actions, t, 0);
  }
}
