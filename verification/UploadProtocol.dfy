/** Recording and uploading at the same time. The recording thread adds samples to the current
    one of two prong caches; Flush hands that cache to the upload thread, clears the other one
    and makes it the current one. Each action below is one critical section, one access to a
    prong, or one access to the pointer `ready_` that the threads share. */
module UploadProtocol {
  type Sample = real

  /** What a prong's histogram holds. A histogram that still looks for its range counts nothing
      until it has `need` samples; all others count from the first one. */
  datatype Cell = Cell(samples: seq<Sample>, need: nat) {
    predicate Valid() { need >= 1 && (need == 1 || |samples| < need) }

    predicate IsCounted() { |samples| >= need }

    function WithSample(x: Sample): Cell {
      Cell(samples + [x], if |samples| + 1 >= need then 1 else need)
    }

    /** ProngCache::Clear skips the prongs that count nothing. */
    function Cleared(): Cell { if IsCounted() then Cell([], 1) else this }

    /** What the serializer takes out of a prong. */
    function Readout(): seq<Sample> { if IsCounted() then samples else [] }
  }

  datatype Recorder =
    | Idle
    | Submitting              // Flush, instrument keys set
    | Submitted               // Submit has seen that ready_ is null
    | Clearing(done: nat)     // ready_ set; clearing the other cache prong by prong

  datatype Uploader =
    | Outside                 // about to test do_quit_
    | Locked                  // holds the mutex, about to test ready_
    | Reading(cache: nat, batch: seq<seq<Sample>>)  // serializing; one entry for each prong read
    | Processed(cache: nat)   // handed to the backend, ready_ not yet reset
    | Waiting                 // for the condition or the timeout
    | Exited

  datatype State = State(
    caches: seq<seq<Cell>>,
    current: nat,
    ready: seq<nat>,          // the cache ready_ points to, if any
    quit: bool,
    recorder: Recorder,
    uploader: Uploader,
    recorded: seq<seq<Sample>>,   // by prong: everything added so far
    uploaded: seq<seq<Sample>>)   // by prong: everything handed to the backend so far

  datatype Action =
    | Add(prong: nat, x: Sample)                                    // Tick, Trace
    | SetInstrumentKeys | CheckReady | SetReady | ClearProng | Switch  // Flush
    | Lock | Look | ReadProng | Process | ResetReady | WakeUp | Leave  // Run
    | Quit                                                          // Stop

  function Other(c: nat): nat
    requires c < 2
  {
    1 - c
  }

  ghost predicate WellFormed(s: State, n: nat) {
    && |s.caches| == 2 && |s.caches[0]| == n && |s.caches[1]| == n && s.current < 2
    && |s.recorded| == n && |s.uploaded| == n && |s.ready| <= 1
    && (s.uploader.Reading? || s.uploader.Processed? ==> s.uploader.cache < 2)
    && (s.uploader.Reading? ==> |s.uploader.batch| <= n)
  }

  predicate HoldsMutex(u: Uploader) {
    u.Locked? || u.Reading? || u.Processed?
  }

  ghost predicate Enabled(s: State, a: Action, n: nat)
    requires WellFormed(s, n)
  {
    match a
    case Add(prong, _) => s.recorder == Idle && prong < n
    case SetInstrumentKeys => s.recorder == Idle
    case CheckReady => s.recorder == Submitting
    case SetReady => s.recorder == Submitted && !HoldsMutex(s.uploader)
    case ClearProng => s.recorder.Clearing? && s.recorder.done < n
    case Switch => s.recorder.Clearing? && s.recorder.done == n
    case Lock => s.uploader == Outside && !s.quit
    case Look => s.uploader == Locked && (s.ready != [] ==> s.ready[0] < 2)
    case ReadProng => s.uploader.Reading? && |s.uploader.batch| < n
    case Process => s.uploader.Reading? && |s.uploader.batch| == n
    case ResetReady => s.uploader.Processed?
    case WakeUp => s.uploader == Waiting
    case Leave => s.uploader == Outside && s.quit
    case Quit => true
  }

  function WithCell(caches: seq<seq<Cell>>, c: nat, p: nat, cell: Cell): seq<seq<Cell>>
    requires c < |caches| && p < |caches[c]|
  {
    caches[c := caches[c][p := cell]]
  }

  function Next(s: State, a: Action, n: nat): State
    requires WellFormed(s, n) && Enabled(s, a, n)
  {
    match a
    case Add(p, x) =>
      s.(caches := WithCell(s.caches, s.current, p, s.caches[s.current][p].WithSample(x)),
         recorded := s.recorded[p := s.recorded[p] + [x]])
    case SetInstrumentKeys => s.(recorder := Submitting)
    case CheckReady => s.(recorder := if s.ready == [] then Submitted else Idle)
    case SetReady => s.(ready := [s.current], recorder := Clearing(0))
    case ClearProng =>
      var c, p := Other(s.current), s.recorder.done;
      s.(caches := WithCell(s.caches, c, p, s.caches[c][p].Cleared()), recorder := Clearing(p + 1))
    case Switch => s.(current := Other(s.current), recorder := Idle)
    case Lock => s.(uploader := Locked)
    case Look => s.(uploader := if s.ready == [] then Waiting else Reading(s.ready[0], []))
    case ReadProng =>
      var c, batch := s.uploader.cache, s.uploader.batch;
      s.(uploader := Reading(c, batch + [s.caches[c][|batch|].Readout()]))
    case Process =>
      s.(uploaded := seq(n, p requires 0 <= p < n => s.uploaded[p] + s.uploader.batch[p]),
         uploader := Processed(s.uploader.cache))
    case ResetReady => s.(ready := [], uploader := Waiting)
    case WakeUp => s.(uploader := Outside)
    case Leave => s.(uploader := Exited)
    case Quit => s.(quit := true)
  }

  /** Both caches empty; a cell needs one sample, or more if it has to find its range. */
  ghost predicate Init(s: State, n: nat) {
    && WellFormed(s, n)
    && (forall c, p :: 0 <= c < 2 && 0 <= p < n ==> s.caches[c][p].samples == [] && s.caches[c][p].Valid())
    && s.current == 0 && s.ready == [] && !s.quit && s.recorder == Idle && s.uploader == Outside
    && (forall p :: 0 <= p < n ==> s.recorded[p] == [] && s.uploaded[p] == [])
  }

  ghost predicate Reaches(s: State, actions: seq<Action>, t: State, n: nat)
    decreases |actions|
  {
    if actions == [] then s == t
    else WellFormed(s, n) && Enabled(s, actions[0], n) && Reaches(Next(s, actions[0], n), actions[1..], t, n)
  }

  // ----------------------------------------------------------------------- the invariant

  /** The counted samples of this cache have been handed to the backend. */
  predicate IsSettled(s: State, c: nat) {
    (c != s.current || s.recorder.Clearing?) && (c in s.ready ==> s.uploader == Processed(c))
  }

  /** The samples of a cell that are still to be uploaded. */
  function Owed(s: State, c: nat, p: nat): seq<Sample>
    requires c < |s.caches| && p < |s.caches[c]|
  {
    if IsSettled(s, c) && s.caches[c][p].IsCounted() then [] else s.caches[c][p].samples
  }

  ghost predicate Balanced(recorded: seq<Sample>, uploaded: seq<Sample>, a: seq<Sample>, b: seq<Sample>) {
    multiset(recorded) == multiset(uploaded) + multiset(a) + multiset(b)
  }

  /** Each sample of prong `p` is uploaded, or owed by exactly one of the caches. */
  ghost predicate Conserves(s: State, n: nat, p: nat)
    requires WellFormed(s, n) && p < n
  {
    Balanced(s.recorded[p], s.uploaded[p], Owed(s, Other(s.current), p), Owed(s, s.current, p))
  }

  lemma BalancedAdd(recorded: seq<Sample>, uploaded: seq<Sample>, a: seq<Sample>, b: seq<Sample>, x: Sample)
    requires Balanced(recorded, uploaded, a, b)
    ensures Balanced(recorded + [x], uploaded, a, b + [x])
  {
  }

  lemma BalancedUpload(batch: seq<Sample>, recorded: seq<Sample>, up: seq<Sample>, a: seq<Sample>, b: seq<Sample>)
    requires Balanced(recorded, up, batch + a, b)
    ensures Balanced(recorded, up + batch, a, b)
  {
  }

  lemma BalancedSwap(recorded: seq<Sample>, uploaded: seq<Sample>, a: seq<Sample>, b: seq<Sample>)
    requires Balanced(recorded, uploaded, a, b)
    ensures Balanced(recorded, uploaded, b, a)
  {
  }

  ghost predicate ControlInv(s: State, n: nat) {
    && WellFormed(s, n)
    && (s.ready != [] ==>
          !s.recorder.Submitted? && s.ready[0] == if s.recorder.Clearing? then s.current else Other(s.current))
    && (s.recorder.Clearing? ==> s.recorder.done <= n)
    && (s.uploader.Reading? || s.uploader.Processed? ==> s.ready == [s.uploader.cache])
  }

  ghost predicate CellsInv(s: State, n: nat)
    requires WellFormed(s, n)
  {
    && (forall c, p :: 0 <= c < 2 && 0 <= p < n ==> s.caches[c][p].Valid())
    && (s.recorder.Clearing? ==>
          forall p :: 0 <= p < s.recorder.done && p < n ==> !s.caches[Other(s.current)][p].IsCounted())
    && (s.uploader.Reading? ==>
          forall p :: 0 <= p < |s.uploader.batch| ==> s.uploader.batch[p] == s.caches[s.uploader.cache][p].Readout())
  }

  /** What a settled cache still counts has indeed been uploaded. */
  ghost predicate HandedOver(s: State, n: nat, p: nat)
    requires WellFormed(s, n) && p < n
  {
    forall c :: 0 <= c < 2 && IsSettled(s, c) ==>
      multiset(s.caches[c][p].Readout()) <= multiset(s.uploaded[p])
  }

  ghost predicate Inv(s: State, n: nat) {
    && ControlInv(s, n) && CellsInv(s, n)
    && forall p :: 0 <= p < n ==> Conserves(s, n, p) && HandedOver(s, n, p)
  }

  lemma InitHasInv(s: State, n: nat)
    requires Init(s, n)
    ensures Inv(s, n)
  {
  }

  lemma StepKeepsControl(s: State, a: Action, n: nat)
    requires ControlInv(s, n) && Enabled(s, a, n)
    ensures ControlInv(Next(s, a, n), n)
  {
  }

  lemma StepKeepsCells(s: State, a: Action, n: nat)
    requires ControlInv(s, n) && CellsInv(s, n) && Enabled(s, a, n)
    ensures ControlInv(Next(s, a, n), n) && CellsInv(Next(s, a, n), n)
  {
    StepKeepsControl(s, a, n);
    NothingBeingReadChanges(s, a, n);
    if a.ReadProng? { assert s.ready == [s.uploader.cache]; }
    hide ControlInv;
  }

  lemma NothingBeingReadChanges(s: State, a: Action, n: nat)
    requires ControlInv(s, n) && Enabled(s, a, n)
    ensures s.uploader.Reading? ==>
              |Next(s, a, n).caches| == 2 && Next(s, a, n).caches[s.uploader.cache] == s.caches[s.uploader.cache]
  {
  }

  /** What an action does to what is owed for prong `p`. */
  lemma AddOwes(s: State, q: nat, x: Sample, n: nat, p: nat)
    requires ControlInv(s, n) && Enabled(s, Add(q, x), n) && p < n
    ensures var t := Next(s, Add(q, x), n);
            && WellFormed(t, n) && t.current == s.current && t.uploaded == s.uploaded
            && Owed(t, Other(s.current), p) == Owed(s, Other(s.current), p)
            && (if p == q then t.recorded[p] == s.recorded[p] + [x] && Owed(t, s.current, p) == Owed(s, s.current, p) + [x]
                else t.recorded[p] == s.recorded[p] && Owed(t, s.current, p) == Owed(s, s.current, p))
  {
    var t := Next(s, Add(q, x), n);
    assert !IsSettled(s, s.current) && !IsSettled(t, s.current);
    assert IsSettled(s, Other(s.current)) == IsSettled(t, Other(s.current));
  }

  /** The other cache is settled while it is cleared, so nothing owed is lost. */
  lemma ClearOwes(s: State, n: nat, p: nat)
    requires ControlInv(s, n) && CellsInv(s, n) && Enabled(s, ClearProng, n) && p < n
    ensures var t := Next(s, ClearProng, n);
            && WellFormed(t, n) && t.current == s.current && t.uploaded == s.uploaded && t.recorded == s.recorded
            && (forall c :: 0 <= c < 2 ==> Owed(t, c, p) == Owed(s, c, p))
  {
    var t := Next(s, ClearProng, n);
    assert IsSettled(s, Other(s.current)) && IsSettled(t, Other(s.current));
    assert IsSettled(s, s.current) == IsSettled(t, s.current);
  }

  lemma ProcessOwes(s: State, n: nat, p: nat)
    requires ControlInv(s, n) && CellsInv(s, n) && Enabled(s, Process, n) && p < n
    ensures var t, c := Next(s, Process, n), s.uploader.cache;
            && (c == s.current || c == Other(s.current))
            && WellFormed(t, n) && t.current == s.current && t.recorded == s.recorded
            && t.uploaded[p] == s.uploaded[p] + s.caches[c][p].Readout()
            && Owed(s, c, p) == s.caches[c][p].Readout() + Owed(t, c, p)
            && Owed(t, Other(c), p) == Owed(s, Other(c), p)
  {
    var t, c := Next(s, Process, n), s.uploader.cache;
    assert !IsSettled(s, c) && IsSettled(t, c);
    assert IsSettled(s, Other(c)) == IsSettled(t, Other(c));
  }

  /** The cache that becomes current has been cleared: none of its cells counts anything. */
  lemma SwitchOwes(s: State, n: nat, p: nat)
    requires ControlInv(s, n) && CellsInv(s, n) && Enabled(s, Switch, n) && p < n
    ensures var t := Next(s, Switch, n);
            && WellFormed(t, n) && t.current == Other(s.current) && t.recorded == s.recorded && t.uploaded == s.uploaded
            && (forall c :: 0 <= c < 2 ==> Owed(t, c, p) == Owed(s, c, p))
            && !s.caches[t.current][p].IsCounted()
  {
    var t := Next(s, Switch, n);
    assert IsSettled(s, s.current) == IsSettled(t, s.current);
  }

  predicate MovesNoSamples(a: Action) {
    !a.Add? && !a.ClearProng? && !a.Process? && !a.Switch?
  }

  lemma OtherwiseOwes(s: State, a: Action, n: nat, p: nat)
    requires ControlInv(s, n) && Enabled(s, a, n) && p < n && MovesNoSamples(a)
    ensures var t := Next(s, a, n);
            && WellFormed(t, n) && t.current == s.current && t.recorded == s.recorded && t.uploaded == s.uploaded
            && t.caches == s.caches
            && (forall c :: 0 <= c < 2 ==> Owed(t, c, p) == Owed(s, c, p))
  {
    var t := Next(s, a, n);
    assert IsSettled(t, 0) == IsSettled(s, 0) && IsSettled(t, 1) == IsSettled(s, 1);
  }

  lemma StepConserves(s: State, a: Action, n: nat, p: nat)
    requires ControlInv(s, n) && CellsInv(s, n) && Enabled(s, a, n) && p < n && Conserves(s, n, p)
    ensures WellFormed(Next(s, a, n), n) && Conserves(Next(s, a, n), n, p)
  {
    match a
    case Add(q, x) => AddConserves(s, q, x, n, p);
    case ClearProng =>
      ClearOwes(s, n, p);
      hide ControlInv, CellsInv, Enabled, Next, Owed, Balanced, WellFormed, IsSettled;
    case Process => ProcessConserves(s, n, p);
    case Switch => SwitchConserves(s, n, p);
    case _ =>
      OtherwiseOwes(s, a, n, p);
      hide ControlInv, CellsInv, Enabled, Next, Owed, Balanced, WellFormed, IsSettled;
  }

  lemma AddConserves(s: State, q: nat, x: Sample, n: nat, p: nat)
    requires ControlInv(s, n) && Enabled(s, Add(q, x), n) && p < n && Conserves(s, n, p)
    ensures WellFormed(Next(s, Add(q, x), n), n) && Conserves(Next(s, Add(q, x), n), n, p)
  {
    assert WellFormed(s, n);
    hide ControlInv, CellsInv, Enabled, Next, Owed, Balanced, IsSettled;
    AddOwes(s, q, x, n, p);
    if p == q {
      BalancedAdd(s.recorded[p], s.uploaded[p], Owed(s, Other(s.current), p), Owed(s, s.current, p), x);
    }
  }

  lemma ProcessConserves(s: State, n: nat, p: nat)
    requires ControlInv(s, n) && CellsInv(s, n) && Enabled(s, Process, n) && p < n && Conserves(s, n, p)
    ensures WellFormed(Next(s, Process, n), n) && Conserves(Next(s, Process, n), n, p)
  {
    assert WellFormed(s, n);
    hide ControlInv, CellsInv, Enabled, Next, Owed, Balanced, IsSettled, IsUploaded;
    var batch := ProcessOwesEither(s, n, p);
    var t, c := Next(s, Process, n), s.current;
    ProcessBalances(batch, s.recorded[p],
                    s.uploaded[p], Owed(s, Other(c), p), Owed(s, c, p), Owed(t, Other(c), p), Owed(t, c, p));
  }

  /** The batch comes from one of the two caches. */
  ghost predicate IsUploaded(batch: seq<Sample>, a: seq<Sample>, b: seq<Sample>, a': seq<Sample>, b': seq<Sample>) {
    (a == batch + a' && b == b') || (a == a' && b == batch + b')
  }

  lemma ProcessOwesEither(s: State, n: nat, p: nat) returns (batch: seq<Sample>)
    requires ControlInv(s, n) && CellsInv(s, n) && Enabled(s, Process, n) && p < n
    ensures var t, c := Next(s, Process, n), s.current;
            && WellFormed(t, n) && t.current == c && t.recorded == s.recorded
            && t.uploaded[p] == s.uploaded[p] + batch
            && var a, b, a', b' := Owed(s, Other(c), p), Owed(s, c, p), Owed(t, Other(c), p), Owed(t, c, p);
               IsUploaded(batch, a, b, a', b')
  {
    batch := s.caches[s.uploader.cache][p].Readout();
    ProcessOwes(s, n, p);
    hide Owed, IsSettled, Cell.Readout;
  }

  lemma ProcessBalances(batch: seq<Sample>, recorded: seq<Sample>, up: seq<Sample>,
                        a: seq<Sample>, b: seq<Sample>, a': seq<Sample>, b': seq<Sample>)
    requires Balanced(recorded, up, a, b) && IsUploaded(batch, a, b, a', b')
    ensures Balanced(recorded, up + batch, a', b')
  {
    if b == b' {
      BalancedUpload(batch, recorded, up, a', b);
    }
    if a == a' {
      BalancedSwap(recorded, up, a, batch + b');
      BalancedUpload(batch, recorded, up, b', a);
      BalancedSwap(recorded, up + batch, b', a);
    }
  }

  lemma SwitchConserves(s: State, n: nat, p: nat)
    requires ControlInv(s, n) && CellsInv(s, n) && Enabled(s, Switch, n) && p < n && Conserves(s, n, p)
    ensures WellFormed(Next(s, Switch, n), n) && Conserves(Next(s, Switch, n), n, p)
  {
    assert WellFormed(s, n);
    hide ControlInv, CellsInv, Enabled, Next, Owed, Balanced, IsSettled;
    SwitchOwes(s, n, p);
    BalancedSwap(s.recorded[p], s.uploaded[p], Owed(s, Other(s.current), p), Owed(s, s.current, p));
  }

  lemma StepHandsOver(s: State, a: Action, n: nat, p: nat)
    requires ControlInv(s, n) && CellsInv(s, n) && Enabled(s, a, n) && p < n && HandedOver(s, n, p)
    ensures WellFormed(Next(s, a, n), n) && HandedOver(Next(s, a, n), n, p)
  {
    StaysUploaded(s, a, n, p);
    hide WellFormed, CellsInv, ControlInv, Enabled, Next, IsSettled;
    var t := Next(s, a, n);
    forall c | 0 <= c < 2 && IsSettled(t, c) ensures multiset(t.caches[c][p].Readout()) <= multiset(t.uploaded[p]) {
      SettledBefore(s, a, n, c, p);
    }
  }

  lemma StaysUploaded(s: State, a: Action, n: nat, p: nat)
    requires ControlInv(s, n) && CellsInv(s, n) && Enabled(s, a, n) && p < n
    ensures var t := Next(s, a, n);
            WellFormed(t, n) && multiset(s.uploaded[p]) <= multiset(t.uploaded[p])
  {
    StepKeepsControl(s, a, n);
    if a.Process? { ProcessOwes(s, n, p); }
  }

  /** A cache is settled by being processed, and then changes only by being cleared. */
  lemma SettledBefore(s: State, a: Action, n: nat, c: nat, p: nat)
    requires ControlInv(s, n) && CellsInv(s, n) && Enabled(s, a, n) && p < n && c < 2
    requires IsSettled(Next(s, a, n), c)
    ensures var t := Next(s, a, n);
            && WellFormed(t, n)
            && (if IsSettled(s, c) then t.caches[c][p] == s.caches[c][p] || t.caches[c][p].Readout() == []
                else multiset(t.caches[c][p].Readout()) <= multiset(t.uploaded[p]))
  {
    match a
    case Add(q, x) => AddSettles(s, q, x, n, c);
    case ClearProng => ClearSettles(s, n, c, p);
    case Process =>
      if IsSettled(s, c) { ProcessOwes(s, n, p); } else { ProcessSettles(s, n, c, p); }
    case Switch => SwitchOwes(s, n, p);
    case _ => OtherwiseSettles(s, a, n, c);
  }

  lemma AddSettles(s: State, q: nat, x: Sample, n: nat, c: nat)
    requires ControlInv(s, n) && Enabled(s, Add(q, x), n) && c < 2 && IsSettled(Next(s, Add(q, x), n), c)
    ensures WellFormed(Next(s, Add(q, x), n), n) && Next(s, Add(q, x), n).caches[c] == s.caches[c] && IsSettled(s, c)
  {
  }

  lemma ClearSettles(s: State, n: nat, c: nat, p: nat)
    requires ControlInv(s, n) && Enabled(s, ClearProng, n) && c < 2 && p < n && IsSettled(Next(s, ClearProng, n), c)
    ensures var t := Next(s, ClearProng, n);
            && WellFormed(t, n) && IsSettled(s, c)
            && (t.caches[c][p] == s.caches[c][p] || t.caches[c][p].Readout() == [])
  {
  }

  lemma OtherwiseSettles(s: State, a: Action, n: nat, c: nat)
    requires ControlInv(s, n) && Enabled(s, a, n) && MovesNoSamples(a) && c < 2 && IsSettled(Next(s, a, n), c)
    ensures WellFormed(Next(s, a, n), n) && Next(s, a, n).caches == s.caches && IsSettled(s, c)
  {
  }

  lemma ProcessSettles(s: State, n: nat, c: nat, p: nat)
    requires ControlInv(s, n) && CellsInv(s, n) && Enabled(s, Process, n) && p < n && c < 2
    requires IsSettled(Next(s, Process, n), c) && !IsSettled(s, c)
    ensures multiset(s.caches[c][p].Readout()) <= multiset(Next(s, Process, n).uploaded[p])
  {
    ProcessOwes(s, n, p);
    assert c == s.uploader.cache;
  }

  lemma StepKeepsInv(s: State, a: Action, n: nat)
    requires Inv(s, n) && Enabled(s, a, n)
    ensures Inv(Next(s, a, n), n)
  {
    StepKeepsCells(s, a, n);
    hide ControlInv, CellsInv, Conserves, HandedOver, Next, WellFormed, Enabled;
    forall p | 0 <= p < n ensures Conserves(Next(s, a, n), n, p) && HandedOver(Next(s, a, n), n, p) {
      StepConserves(s, a, n, p);
      StepHandsOver(s, a, n, p);
    }
  }

  lemma {:induction false} RunKeepsInv(s: State, actions: seq<Action>, t: State, n: nat)
    requires Inv(s, n) && Reaches(s, actions, t, n)
    ensures Inv(t, n)
    decreases |actions|
  {
    if actions != [] {
      StepKeepsInv(s, actions[0], n);
      RunKeepsInv(Next(s, actions[0], n), actions[1..], t, n);
    }
  }

  // ------------------------------------------------------------------------- conservation

  /** Over every interleaving: whatever was recorded for a prong has been uploaded once, or is
      still in exactly one of the two caches, waiting to be. */
  lemma NothingIsLostOrRepeated(s: State, actions: seq<Action>, t: State, n: nat, p: nat)
    requires Init(s, n) && Reaches(s, actions, t, n) && p < n
    ensures WellFormed(t, n)
    ensures multiset(t.recorded[p]) == multiset(t.uploaded[p]) + multiset(Owed(t, 0, p)) + multiset(Owed(t, 1, p))
  {
    InitHasInv(s, n);
    RunKeepsInv(s, actions, t, n);
    assert Conserves(t, n, p);
  }

  /** Counted samples are cleared only after the backend has got them. */
  lemma ClearsOnlyWhatWasUploaded(s: State, n: nat)
    requires Inv(s, n) && Enabled(s, ClearProng, n)
    ensures var p := s.recorder.done;
            multiset(s.caches[Other(s.current)][p].Readout()) <= multiset(s.uploaded[p])
  {
    assert HandedOver(s, n, s.recorder.done);
    assert IsSettled(s, Other(s.current));
  }

  /** The caches an action writes to. */
  function Touches(s: State, a: Action): set<nat>
    requires s.current < 2
  {
    match a
    case Add(_, _) => {s.current}
    case SetInstrumentKeys => {s.current}
    case ClearProng => {Other(s.current)}
    case _ => {}
  }

  /** Nobody writes to a cache while the upload thread may be reading it. */
  lemma ReadyIsNotTouched(s: State, a: Action, n: nat)
    requires Inv(s, n) && Enabled(s, a, n)
    ensures s.ready != [] ==> s.ready[0] !in Touches(s, a)
    ensures s.ready != [] ==> Next(s, a, n).caches[s.ready[0]] == s.caches[s.ready[0]]
    ensures forall c :: 0 <= c < 2 && c !in Touches(s, a) ==> Next(s, a, n).caches[c] == s.caches[c]
  {
  }

  // ---------------------------------------------------------------- fixed-range histograms

  /** All histograms have a range. */
  ghost predicate AllFixed(s: State, n: nat)
    requires WellFormed(s, n)
  {
    forall c, p :: 0 <= c < 2 && 0 <= p < n ==> s.caches[c][p].need == 1
  }

  /** The samples of prong `p` in the order they were recorded. */
  ghost predicate InOrder(s: State, n: nat, p: nat)
    requires WellFormed(s, n) && p < n
  {
    s.recorded[p] == s.uploaded[p] + Owed(s, Other(s.current), p) + Owed(s, s.current, p)
  }

  lemma StepKeepsFixed(s: State, a: Action, n: nat)
    requires ControlInv(s, n) && Enabled(s, a, n) && AllFixed(s, n)
    ensures WellFormed(Next(s, a, n), n) && AllFixed(Next(s, a, n), n)
  {
    StepKeepsControl(s, a, n);
  }

  /** While the other cache is cleared it owes nothing. */
  lemma ClearingOwesNothing(s: State, n: nat, p: nat)
    requires ControlInv(s, n) && CellsInv(s, n) && AllFixed(s, n) && p < n && s.recorder.Clearing?
    ensures Owed(s, Other(s.current), p) == []
  {
  }

  lemma ProcessKeepsOrder(s: State, n: nat, p: nat)
    requires ControlInv(s, n) && CellsInv(s, n) && Enabled(s, Process, n) && p < n
    requires AllFixed(s, n) && InOrder(s, n, p)
    ensures WellFormed(Next(s, Process, n), n) && InOrder(Next(s, Process, n), n, p)
  {
    var t, c := Next(s, Process, n), s.current;
    assert s.uploader.cache == c ==> s.recorder.Clearing?;
    if s.recorder.Clearing? { ClearingOwesNothing(s, n, p); }
    ProcessOwes(s, n, p);
    hide ControlInv, CellsInv, Enabled, Next, Owed, AllFixed, WellFormed, IsSettled;
    UploadAppends(s.caches[s.uploader.cache][p].Readout(), s.uploaded[p], Owed(s, Other(c), p), Owed(s, c, p),
                  t.uploaded[p], Owed(t, Other(c), p), Owed(t, c, p));
  }

  lemma SwitchKeepsOrder(s: State, n: nat, p: nat)
    requires ControlInv(s, n) && CellsInv(s, n) && Enabled(s, Switch, n) && p < n
    requires AllFixed(s, n) && InOrder(s, n, p)
    ensures WellFormed(Next(s, Switch, n), n) && InOrder(Next(s, Switch, n), n, p)
  {
    ClearingOwesNothing(s, n, p);
    SwitchOwes(s, n, p);
    hide ControlInv, CellsInv, Enabled, Next, Owed, AllFixed;
  }

  lemma StepKeepsOrder(s: State, a: Action, n: nat, p: nat)
    requires ControlInv(s, n) && CellsInv(s, n) && Enabled(s, a, n) && p < n
    requires AllFixed(s, n) && InOrder(s, n, p)
    ensures WellFormed(Next(s, a, n), n) && InOrder(Next(s, a, n), n, p)
  {
    match a
    case Add(q, x) => AddKeepsOrder(s, q, x, n, p);
    case ClearProng => ClearOwes(s, n, p);
    case Process => ProcessKeepsOrder(s, n, p);
    case Switch => SwitchKeepsOrder(s, n, p);
    case _ => OtherwiseOwes(s, a, n, p);
  }

  lemma AddKeepsOrder(s: State, q: nat, x: Sample, n: nat, p: nat)
    requires ControlInv(s, n) && Enabled(s, Add(q, x), n) && p < n && InOrder(s, n, p)
    ensures WellFormed(Next(s, Add(q, x), n), n) && InOrder(Next(s, Add(q, x), n), n, p)
  {
    AddOwes(s, q, x, n, p);
    hide ControlInv, Enabled, Next, Owed;
  }

  lemma UploadAppends(batch: seq<Sample>, up: seq<Sample>, a: seq<Sample>, b: seq<Sample>,
                      up': seq<Sample>, a': seq<Sample>, b': seq<Sample>)
    requires up' == up + batch
    requires (a == batch + a' && b == b') || (a == a' == [] && b == batch + b')
    ensures up + a + b == up' + a' + b'
  {
  }

  lemma {:induction false} RunKeepsOrder(s: State, actions: seq<Action>, t: State, n: nat)
    requires Inv(s, n) && Reaches(s, actions, t, n) && AllFixed(s, n)
    requires forall p :: 0 <= p < n ==> InOrder(s, n, p)
    ensures Inv(t, n) && AllFixed(t, n)
    ensures forall p :: 0 <= p < n ==> InOrder(t, n, p)
    decreases |actions|
  {
    if actions != [] {
      hide ControlInv, CellsInv, InOrder, AllFixed, Next, Enabled;
      StepKeepsInv(s, actions[0], n);
      StepKeepsFixed(s, actions[0], n);
      forall p | 0 <= p < n ensures InOrder(Next(s, actions[0], n), n, p) {
        StepKeepsOrder(s, actions[0], n, p);
      }
      RunKeepsOrder(Next(s, actions[0], n), actions[1..], t, n);
    }
  }

  /** With fixed ranges the backend gets the samples of every prong in the order they were
      recorded, without gaps; when no upload is under way only the current cache is missing. */
  lemma UploadsInOrder(s: State, actions: seq<Action>, t: State, n: nat, p: nat)
    requires Init(s, n) && AllFixed(s, n) && Reaches(s, actions, t, n) && p < n
    ensures WellFormed(t, n) && t.uploaded[p] <= t.recorded[p]
    ensures t.ready == [] && !t.recorder.Clearing? ==>
              t.recorded[p] == t.uploaded[p] + t.caches[t.current][p].samples
  {
    InitHasInv(s, n);
    RunKeepsOrder(s, actions, t, n);
    assert InOrder(t, n, p);
  }

  // --------------------------------------------------------------------------- progress

  /** How many more steps the upload thread needs until the cache that is ready is uploaded. */
  function StepsLeft(u: Uploader, n: nat): int {
    match u
    case Waiting => n + 5
    case Outside => n + 4
    case Locked => n + 3
    case Reading(_, batch) => n + 2 - |batch|
    case Processed(_) => 1
    case Exited => 0
  }

  predicate IsUploadStep(a: Action) {
    a.Lock? || a.Look? || a.ReadProng? || a.Process? || a.ResetReady? || a.WakeUp?
  }

  /** As long as nobody asks it to quit the upload thread can take a step. */
  lemma UploadCanStep(s: State, n: nat)
    requires Inv(s, n) && s.ready != [] && !s.quit && !s.uploader.Exited?
    ensures exists a :: IsUploadStep(a) && Enabled(s, a, n)
  {
    var a := match s.uploader
      case Waiting => WakeUp
      case Outside => Lock
      case Locked => Look
      case Reading(_, batch) => if |batch| < n then ReadProng else Process
      case Processed(_) => ResetReady
      case Exited => Quit;
    assert IsUploadStep(a) && Enabled(s, a, n);
  }

  /** Each of its steps brings the upload closer, and no other step sets it back. */
  lemma UploadMakesProgress(s: State, a: Action, n: nat)
    requires Inv(s, n) && s.ready != [] && !s.quit && !s.uploader.Exited? && Enabled(s, a, n)
    ensures 0 < StepsLeft(s.uploader, n) <= n + 5
    ensures var t := Next(s, a, n);
            if IsUploadStep(a)
            then t.ready == [] || (t.ready == s.ready && StepsLeft(t.uploader, n) < StepsLeft(s.uploader, n))
            else t.ready == s.ready && t.uploader == s.uploader
  {
    hide CellsInv, Conserves, HandedOver;
    assert ControlInv(s, n);
  }

  // ------------------------------------------------------------------- flushing as a whole

  function AllCleared(cells: seq<Cell>): (cleared: seq<Cell>)
    ensures |cleared| == |cells|
    ensures forall i :: 0 <= i < |cells| ==> cleared[i] == cells[i].Cleared()
  {
    seq(|cells|, i requires 0 <= i < |cells| => cells[i].Cleared())
  }

  function ClearedFrom(cells: seq<Cell>, done: nat): (cleared: seq<Cell>)
    ensures |cleared| == |cells|
    ensures forall p :: 0 <= p < |cells| ==> cleared[p] == if p < done then cells[p] else cells[p].Cleared()
  {
    seq(|cells|, p requires 0 <= p < |cells| => if p < done then cells[p] else cells[p].Cleared())
  }

  function ClearActions(k: nat): seq<Action> {
    if k == 0 then [Switch] else [ClearProng] + ClearActions(k - 1)
  }

  /** Clearing the rest of the other cache and switching to it. */
  lemma {:induction false} ClearingRun(s: State, n: nat)
    requires Inv(s, n) && s.recorder.Clearing?
    ensures s.recorder.done <= n
    ensures Reaches(s, ClearActions(n - s.recorder.done),
                    s.(caches := s.caches[Other(s.current) := ClearedFrom(s.caches[Other(s.current)], s.recorder.done)],
                       current := Other(s.current), recorder := Idle), n)
    decreases n - if s.recorder.done <= n then s.recorder.done else n
  {
    var c, d := Other(s.current), s.recorder.done;
    if d == n {
      assert ClearedFrom(s.caches[c], d) == s.caches[c];
      assert s.caches[c := s.caches[c]] == s.caches;
      assert [Switch][1..] == [];
    } else {
      var t := Next(s, ClearProng, n);
      StepKeepsInv(s, ClearProng, n);
      ClearingRun(t, n);
      assert ClearedFrom(t.caches[c], d + 1) == ClearedFrom(s.caches[c], d);
      assert t.caches[c := ClearedFrom(s.caches[c], d)] == s.caches[c := ClearedFrom(s.caches[c], d)];
      assert ([ClearProng] + ClearActions(n - d - 1))[1..] == ClearActions(n - d - 1);
    }
  }

  /** A flush, run without interference while nothing is pending: the other cache is cleared and
      becomes current, and the one that was current is ready. */
  lemma FlushRun(s: State, n: nat)
    requires Inv(s, n) && s.recorder == Idle && s.ready == [] && !HoldsMutex(s.uploader)
    ensures Reaches(s, [SetInstrumentKeys, CheckReady, SetReady] + ClearActions(n),
                    s.(caches := s.caches[Other(s.current) := AllCleared(s.caches[Other(s.current)])],
                       current := Other(s.current), ready := [s.current]), n)
  {
    var s1 := Next(s, SetInstrumentKeys, n);
    StepKeepsInv(s, SetInstrumentKeys, n);
    var s2 := Next(s1, CheckReady, n);
    StepKeepsInv(s1, CheckReady, n);
    var s3 := Next(s2, SetReady, n);
    StepKeepsInv(s2, SetReady, n);
    ClearingRun(s3, n);
    assert ClearedFrom(s.caches[Other(s.current)], 0) == AllCleared(s.caches[Other(s.current)]);
    ThreeThen(SetInstrumentKeys, CheckReady, SetReady, ClearActions(n));
  }

  lemma ThreeThen(a: Action, b: Action, c: Action, rest: seq<Action>)
    ensures var all := [a, b, c] + rest;
            all[0] == a && all[1..][0] == b && all[1..][1..][0] == c && all[1..][1..][1..] == rest
  {
  }

  /** A flush while an upload is pending changes nothing. */
  lemma FlushWhilePending(s: State, n: nat)
    requires Inv(s, n) && s.recorder == Idle && s.ready != []
    ensures Reaches(s, [SetInstrumentKeys, CheckReady], s, n)
  {
    var s1 := Next(s, SetInstrumentKeys, n);
    StepKeepsInv(s, SetInstrumentKeys, n);
    assert Next(s1, CheckReady, n) == s;
    assert [SetInstrumentKeys, CheckReady][1..] == [CheckReady];
  }
}
