# Frame pacing and frame-time recording: a verified model

This project models two libraries of the Android game SDK and states, for every input, run or
interleaving, what they keep.

**Swappy** paces frames. `SwappyCommon` keeps a window of the last 300 frame times and decides from
their average how many refresh periods a frame may take, whether CPU and GPU work is pipelined, and
which refresh rate to ask the display for. `ChoreographerFilter` tracks the vsync with a discrete
phase-locked loop. `SwappyVkBase` moves fences between a present thread and a waiter thread.

**Tuning Fork** records frame times. An annotation, a protobuf message of enums, is turned into a
mixed-radix number; together with an instrumentation key it selects a histogram in a cache. Two
caches take turns: one records while an upload thread serializes the other.

## How the model is laid out

Integers are unbounded and times are integer nanoseconds, except where the source's width matters:
the codec, the radixes, the compound ids and the key counter wrap as in the source, and the
truncating division of C++ is written out (`CInt.dfy`). Histogram arithmetic is in exact reals, and
`sqrt` is a function with the defining property of a square root.

| file | contents |
|---|---|
| `FrameTiming`, `IntervalControl`, `Settling` | the controller's arithmetic, one decision, repeated decisions and whole runs |
| `RefreshRates`, `StandingRecords` | the refresh-rate search, and what becomes of the configuration it records |
| `RefreshLoop` | the loop of decision, search, report and adoption, from every configuration |
| `SwappyCommon` | the class with its fields; every method is proved against the functions above |
| `FramePacing` | `onPreSwap` to `startFrame` as a state machine, with `wakeClient` between any two steps |
| `ChoreographerTimer`, `FilterLock` | the phase filter, and its lock, energy function and decay |
| `WorkGate`, `CallbackCountdown` | the gate around the filter's work, and the choreographer callback countdown |
| `SyncProtocol`, `SyncPool` | the two-thread fence protocol over all interleavings, and the class whose methods are its steps |
| `Varint`, `AnnotationCodec`, `AnnotationProofs`, `CodecRoundTrip` | the byte-level codec, its meaning, and when it is its own inverse |
| `Buckets`, `Histogram` | bucket arithmetic with the Chebyshev and Cantelli bounds, and the histogram class |
| `ProngCache`, `KeyTable`, `TuningFork`, `Serializer` | the objects that record, find and hand over frame times |
| `UploadProtocol` | recording thread and upload thread over all interleavings |
| `CInt`, `Wrappers` | C++ integer arithmetic and the option type |

Threads are modelled as atomic steps at lock boundaries and at accesses to shared fields. Clocks,
fence waits, the display's answers and the threads' schedule are inputs that range over everything.

A method that changes state is proved equal to a function of the old state; the lemmas are about
those functions. `ProngCache` and `UploadProtocol` share the type `Cell`, so the contracts of the
recording methods are the protocol's own steps.

## Where the code falls short of what it promises

Each of these is stated exactly, with an input or a run for which the promise fails and the
condition under which it holds:

- Speeding up can cross the swap interval the app asked for (`FasterCanCrossAppInterval`,
  `FasterRespectsAppIntervalIff`).
- A better configuration that the search finds at the rate already in force is not adopted when
  that rate is reported (`BetterChoiceCanBeInForce`, `ReportedChoiceIsAdopted`); its record stays.
- A recorded configuration outlives later searches and is adopted for whatever rate the display
  reports, be it the one that was asked for (`StaleRecordIsAdopted`). If the frames have not become
  longer in the recorded mode it fits, for all loads, exactly if the reported period is safe for
  the chosen one, as one that is not shorter always is (`StandingRecordFitsIff`,
  `NotFasterIsSafe`). If they may have become longer, it fits exactly if its swap period holds the
  longest frame there is (`AnyLaterLoadFitsIff`).
- The search for a refresh rate need not come to rest. A slower rate counts as equal when its swap
  period is up to a millisecond longer, so two rates can alternate for ever (`RatesCanAlternate`);
  and a rate that does not cover the app's interval is found again and again but not adopted
  (`ShortRateIsNotAdopted`). The loop comes to rest from every rate and configuration if and only
  if following the durations, from the least roomy rate and from a recomputation, leads to no cycle
  (`LoopComesToRestIff`, `HubsDecide`); for frames longer than the app's interval this means that no two rates go back
  and forth (`LongFramesComeToRestIff`).
- Turning pipelining on between a frame's `onPreSwap` and `onPostSwap` skips the wait
  (`SwapCanMissItsWait`, `WaitsExactlyOnceIff`).
- The serializer divides by cumulative radixes, so an id may decode to something else
  (`ThreeFieldsFail`, `CodecRoundTrip.RoundTripIff`).
- The varint writer looks at only 25 bits above the current group (`RoundTripCanFail`,
  `Varint.RoundTripIff`; the 32-bit values it is used for are all fine).
- An annotation that does not decode is reported only when there is one instrumentation key
  (`ErrorCanGoUnnoticed`, `ReportsErrorIff`).
- Such an annotation has no prongs (`BadAnnotationFindsNoProng`). Ticks and durations recorded
  under it are dropped in silence; starting a trace under it stores the start beyond the end of
  `live_traces_`, whose size only `EndTrace` looks at.
- The decoder accepts values that an enum does not have. The number then is not below the last
  radix, and there are no prongs (`DecodedAnnotationCanLackProngs`, `HasProngIff`), or it is the
  number of exactly one annotation of the settings, which is the described one if and only if no
  field exceeds its enum; otherwise the samples are uploaded under another annotation
  (`DecodedAnnotationCanBeAnother`, `AcceptedIdBelongsTo`).
- A repeated key among the histogram settings shifts the slots of the keys after it
  (`RepeatedKeyShiftsSlots`, `EachRequestGetsItsSlotIff`), so that settings reach other keys than
  those they were written for, unless they ask for the same buckets (`SettingsReachTheirKeysIff`).
- Refresh periods of up to 500 ns, and timer periods of 2, 4, 6 and 8 ns, are too short
  (`IntervalIsLeastIff`, `RepeatsAreIgnoredIff`).
- The first inner bucket is twice as wide as the others, because of truncation (`BucketBounds`).

## Model

| member | source | states |
|---|---|---|
| `FrameTiming.IntervalIsLeast` | src/swappy/common/SwappyCommon.cpp:605-616 | the interval is the least number of periods that holds the frame up to the 500 ns margin |
| `FrameTiming.IntervalIsLeastIff` | src/swappy/common/SwappyCommon.cpp:605-616 | that is so for every frame time if and only if the period exceeds 500 ns |
| `FrameTiming.IntervalIsMonotone` | src/swappy/common/SwappyCommon.cpp:605-616 | a longer frame never gets a smaller interval, whatever the period |
| `FrameTiming.SumDropFirst` | src/swappy/common/SwappyCommon.cpp:328-335 | subtracting the oldest entry leaves the sum of the rest of the window |
| `FrameTiming.WindowKeepsNewest` | src/swappy/common/SwappyCommon.cpp:323-336 | a frame enters with both times cut to 100 ms, and the window keeps the newest 300 |
| `FrameTiming.AverageIsWholePart` | src/swappy/common/SwappyCommon.h:116-120 | each time of the average is the whole part of the exact one |
| `IntervalControl.FitsAfterDecision` | src/swappy/common/SwappyCommon.cpp:411-466 | after any decision the average frame fits the interval and mode decided on |
| `IntervalControl.StagesFitAfterDecision` | src/swappy/common/SwappyCommon.h:97-103 | pipelined, CPU and GPU time each fit the swap period decided on; otherwise their sum does |
| `IntervalControl.DecisionByStages` | src/swappy/common/SwappyCommon.cpp:411-466 | the whole decision told from CPU time, GPU time, period and app interval, with the margins in nanoseconds: when it slows down and how, when it speeds up, when pipelining is turned off, and when nothing changes |
| `IntervalControl.SlowerNeverLowers` | src/swappy/common/SwappyCommon.cpp:343-367 | slowing down never lowers the interval |
| `IntervalControl.FasterStrictlyLowers` | src/swappy/common/SwappyCommon.cpp:369-388 | speeding up strictly lowers the interval and keeps it at least 1 |
| `IntervalControl.FasterCanCrossAppInterval` | src/swappy/common/SwappyCommon.cpp:448-450 | a load under which speeding up drops below the app's interval |
| `IntervalControl.FasterRespectsAppIntervalIff` | src/swappy/common/SwappyCommon.cpp:448-450 | exactly when speeding up keeps the app's interval |
| `IntervalControl.DecideKeepsPositive` | src/swappy/common/SwappyCommon.cpp:403-466 | no decision makes the interval less than 1 |
| `IntervalControl.JumpTargetIsFixed` | src/swappy/common/SwappyCommon.cpp:343-388 | where both jumps lead is left alone afterwards, also in the 500 ns band where a change keeps being reported |
| `IntervalControl.TwoDecisionsSettle` | src/swappy/common/SwappyCommon.cpp:403-466 | after two decisions under one load a third changes nothing |
| `IntervalControl.NoOscillation` | src/swappy/common/SwappyCommon.cpp:403-466 | any number of decisions from two on has the effect of two, from any configuration |
| `IntervalControl.TwoChangesHappen` | src/swappy/common/SwappyCommon.cpp:403-466 | two changes do occur, so the bound cannot be lowered |
| `IntervalControl.FixedIff` | src/swappy/common/SwappyCommon.cpp:403-466 | which configurations are left alone |
| `Settling.UpdateKeepsValid` | src/swappy/common/SwappyCommon.cpp:403-466 | a decision keeps the window short and clamped and the interval positive |
| `Settling.DecidesAtThreeHundred` | src/swappy/common/SwappyCommon.cpp:403-466 | nothing is decided before 300 frames; then the average of the window decides, and a window that led to a change is discarded |
| `Settling.RunKeepsValid` | src/swappy/common/SwappyCommon.cpp:285-304 | so does any sequence of frames, of whatever durations |
| `Settling.RunIsFrames` | src/swappy/common/SwappyCommon.cpp:285-304 | a run of equal frames is such a sequence |
| `Settling.FitsAfterUpdate` | src/swappy/common/SwappyCommon.cpp:411-466 | the fit, in both stages, for the window the class keeps |
| `Settling.ConstantWindowSettles` | src/swappy/common/SwappyCommon.cpp:323-466 | from a window of one duration, 600 frames bring the configuration to rest |
| `Settling.ConstantLoadSettles` | src/swappy/common/SwappyCommon.cpp:323-466 | from any window and configuration, 900 frames of a constant load do, and where they end |
| `RefreshRates.ChoiceIsUnique` | src/swappy/common/SwappyCommon.cpp:474-508 | at most one rate meets the description of the search's result |
| `RefreshRates.QualifiesIff` | src/swappy/common/SwappyCommon.cpp:474-508 | which rates qualify, in nanoseconds and least intervals: 4 ms to spare, strictly shorter and not below the app's interval; or slower and within a millisecond |
| `RefreshRates.AppliedCoversAppInterval` | src/swappy/common/SwappyCommon.cpp:231-252 | whenever settings are applied, adopted or recomputed, the swap period covers the app's interval up to 500 ns |
| `RefreshRates.AppliedByTimings` | src/swappy/common/SwappyCommon.cpp:229-252 | the recorded configuration is taken over only if auto mode is on, there is one, the app's interval is unchanged and covered; otherwise the least interval that covers it is used, not pipelined in auto mode |
| `RefreshRates.RecordedByStages` | src/swappy/common/SwappyCommon.cpp:510-520 | what is recorded for a rate: the least interval for the longer stage, pipelined unless both fit one after the other and auto mode allows it |
| `RefreshRates.ChoiceIsRecorded` | src/swappy/common/SwappyCommon.cpp:510-520 | the rate the search chooses is the one whose configuration is recorded, and whose mode is asked for |
| `RefreshRates.ReportedChoiceIsAdopted` | src/swappy/common/SwappyCommon.cpp:229-252 | a chosen rate that the display then reports is taken over with the recorded interval and mode if and only if it is not the one in force and covers the app's interval; for a better rate, if and only if it is not the one in force; the average frame fits |
| `RefreshRates.BetterChoiceCanBeInForce` | src/swappy/common/SwappyCommon.cpp:474-520 | a load after whose decision the better rate is the one in force, so that what is recorded is not adopted when that rate is reported |
| `RefreshRates.AskingAgain` | src/swappy/common/SwappyCommon.cpp:247-256 | asking for a display mode twice in one update is asking once |
| `RefreshRates.PreferredIsAskedFor` | src/swappy/common/SwappyCommon.cpp:618-646 | a mode is asked for exactly if some swap period is below 100 ms; it has the least one, the longest refresh period among equals |
| `StandingRecords.RecordFitsIff` | src/swappy/common/SwappyCommon.cpp:236-252 | a recorded configuration fits every load it can be computed for, at any rate, exactly if that rate's period is safe for the chosen one |
| `StandingRecords.NotFasterIsSafe` | src/swappy/common/SwappyCommon.cpp:236-252 | a period that is not shorter than the chosen one is safe |
| `StandingRecords.StandingRecordFitsIff` | src/swappy/common/SwappyCommon.cpp:236-252 | adopted under a later load, it fits whenever the frames have not become longer in the recorded mode, for all pairs of loads, exactly if the period is safe |
| `StandingRecords.AnyLaterLoadFitsIff` | src/swappy/common/SwappyCommon.cpp:236-252 | it fits every later load exactly if its swap period holds the longest frame there is in the recorded mode |
| `StandingRecords.StaleRecordIsAdopted` | src/swappy/common/SwappyCommon.cpp:236-252 | a record that a later search left standing is adopted for the chosen rate and for another one, and the frames fit neither |
| `RefreshLoop.FoundByDuration` | src/swappy/common/SwappyCommon.cpp:474-508 | the search finds the roomy rate of least duration below the one in force, else the slowest rate of equal duration, else none |
| `RefreshLoop.RoundLands` | src/swappy/common/SwappyCommon.cpp:218-252 | from any configuration, a round that finds another rate ends with that rate's recorded configuration, or with a recomputed one at the preferred rate |
| `RefreshLoop.DecisionsWhenRecomputed` | src/swappy/common/SwappyCommon.cpp:403-466 | what the next two decisions make of a recomputed configuration |
| `RefreshLoop.LoopComesToRestIff` | src/swappy/common/SwappyCommon.cpp:218-523 | under constant conditions the loop comes to rest from every rate and configuration if and only if no stop, as told from the durations alone, comes back to itself |
| `RefreshLoop.HubsDecide` | src/swappy/common/SwappyCommon.cpp:474-508 | only the least roomy rate and a recomputation at the preferred rate have to be followed to tell whether one does |
| `RefreshLoop.LongFramesCoverApp` | src/swappy/common/SwappyCommon.cpp:605-616 | frames that take longer than the app's interval cover it at every rate |
| `RefreshLoop.LongFramesComeToRestIff` | src/swappy/common/SwappyCommon.cpp:218-523 | if every rate covers the app's interval, the loop comes to rest from everywhere if and only if no two rates go back and forth |
| `RefreshLoop.BackAndForth` | src/swappy/common/SwappyCommon.cpp:478-507 | two rates of nearly equal duration alternate, whatever the other rates are |
| `RefreshLoop.RatesCanAlternate` | src/swappy/common/SwappyCommon.cpp:474-508 | two rates and a load that do alternate |
| `RefreshLoop.ShortRateIsNotAdopted` | src/swappy/common/SwappyCommon.cpp:240-252 | a rate that does not cover the app's interval is found in every round, not adopted, and left again for the preferred rate |
| `SwappyCommonModel.SwappyCommon.AddFrameDuration` | src/swappy/common/SwappyCommon.cpp:323-336 | the window slides by one clamped entry, and the stored sum stays the sum of the window |
| `SwappyCommonModel.SwappyCommon.SwapSlower` | src/swappy/common/SwappyCommon.cpp:343-367 | the fields change as the decision function says |
| `SwappyCommonModel.SwappyCommon.SwapFaster` | src/swappy/common/SwappyCommon.cpp:369-388 | the fields change as the decision function says |
| `SwappyCommonModel.SwappyCommon.UpdateConfiguration` | src/swappy/common/SwappyCommon.cpp:411-466 | new configuration, reported change and cleared window |
| `SwappyCommonModel.SwappyCommon.FindBetter` | src/swappy/common/SwappyCommon.cpp:474-491 | finds a rate if and only if one qualifies, and then the one of least duration |
| `SwappyCommonModel.SwappyCommon.FindSlowerEqual` | src/swappy/common/SwappyCommon.cpp:493-507 | finds a rate if and only if one qualifies, and then the one of longest period |
| `SwappyCommonModel.SwappyCommon.FindBetterRefreshRate` | src/swappy/common/SwappyCommon.cpp:474-508 | both loops together meet the description of the choice |
| `SwappyCommonModel.SwappyCommon.UpdateSwapInterval` | src/swappy/common/SwappyCommon.cpp:403-523 | the whole new state: configuration, window, and what is recorded for the chosen rate |
| `SwappyCommonModel.SwappyCommon.RecordBetterRefreshRate` | src/swappy/common/SwappyCommon.cpp:510-520 | the choice, its interval and its mode are recorded, or nothing is |
| `SwappyCommonModel.SwappyCommon.SetPreferredMode` | src/swappy/common/SwappyCommon.cpp:596-603 | which mode is pending afterwards |
| `SwappyCommonModel.SwappyCommon.SetPreferredRefreshRate` | src/swappy/common/SwappyCommon.cpp:618-646 | the mode of least duration below 100 ms is asked for, the longest period among equals |
| `SwappyCommonModel.SwappyCommon.AdoptConfiguration` | src/swappy/common/SwappyCommon.cpp:236-250 | the recorded configuration is adopted exactly if nothing but the period changed and it covers the app's interval |
| `SwappyCommonModel.SwappyCommon.RequestModes` | src/swappy/common/SwappyCommon.cpp:247-256 | when a mode is asked for, and which |
| `SwappyCommonModel.SwappyCommon.UpdateDisplayTimings` | src/swappy/common/SwappyCommon.cpp:218-265 | what applying new timings does to every field, and that the invariant survives |
| `SwappyCommonModel.SwappyCommon.OnSettingsChanged` | src/swappy/common/SwappyCommon.cpp:648-659 | new settings wait for the next frame |
| `SwappyCommonModel.SwappyCommon.SetAutoSwapInterval` | src/swappy/common/SwappyCommon.cpp:575-584 | turning auto mode off turns pipelining on |
| `SwappyCommonModel.SwappyCommon.SetAutoPipelineMode` | src/swappy/common/SwappyCommon.cpp:586-594 | turning auto pipelining off turns pipelining on |
| `FramePacing.StepKeepsInv` | src/swappy/common/SwappyCommon.cpp:267-304 | the pacing invariant survives every step of the frame and of the choreographer |
| `FramePacing.WaitsExactlyOnceIff` | src/swappy/common/SwappyCommon.cpp:267-304 | in every run a swap waits exactly once, unless it was entered without pipelining and the actions turn pipelining on before its onPostSwap; then it does not wait |
| `FramePacing.SwapCanMissItsWait` | src/swappy/common/SwappyCommon.cpp:274-293 | such a run |
| `FramePacing.FramesAreSpaced` | src/swappy/common/SwappyCommon.cpp:185-216 | consecutive paced frames start at least the interval in force apart |
| `FramePacing.PacedFramesAreSpaced` | src/swappy/common/SwappyCommon.cpp:185-216 | in every run whose configurations stay within the threshold, each swap that waits starts its frame at least the interval in force after the one before |
| `FramePacing.UnpacedNeverWaits` | src/swappy/common/SwappyCommon.cpp:194-210 | beyond the threshold nothing waits for the choreographer |
| `FramePacing.IntervalIsRecorded` | src/swappy/common/SwappyCommon.cpp:661-697 | the interval that spaces the next frame is the one in force until it is reconfigured |
| `FramePacing.WaitEndsWithCompletion` | src/swappy/common/SwappyCommon.cpp:200-203 | a wait ends only with the previous frame complete |
| `FramePacing.LateFramesAreWaitedFor` | src/swappy/common/SwappyCommon.cpp:200-203 | every time the previous frame is found incomplete costs at least one frame |
| `FramePacing.PromptFramesAreOnTime` | src/swappy/common/SwappyCommon.cpp:196-203 | and waiting costs no more than the intervals asked for and that one frame each |
| `FramePacing.StretchIsSpaced` | src/swappy/common/SwappyCommon.cpp:661-697 | a stretch of paced frames takes at least the sum of its intervals |
| `FramePacing.PacedStretchIsSpaced` | src/swappy/common/SwappyCommon.cpp:661-697 | the same for swaps that wait, told from the threshold alone |
| `ChoreographerTimer.CatchUpSkipsWholePeriods` | src/swappy/common/ChoreographerFilter.cpp:61-63 | catching up moves the base by whole periods |
| `ChoreographerTimer.Timer.AddTimestamp` | src/swappy/common/ChoreographerFilter.cpp:46-75 | the new phase, and false exactly from the seventh repetition on |
| `ChoreographerTimer.Timer.CatchUpTo` | src/swappy/common/ChoreographerFilter.cpp:61-63 | the loop ends, with the base the specification gives |
| `ChoreographerTimer.Timer.SmoothToward` | src/swappy/common/ChoreographerFilter.cpp:65-74 | outliers are ignored, other points move period and base |
| `ChoreographerTimer.Timer.Sleep` | src/swappy/common/ChoreographerFilter.cpp:77-89 | wakes at the first predicted vsync that is not in the past |
| `ChoreographerTimer.PeriodStaysPositive` | src/swappy/common/ChoreographerFilter.cpp:61-74 | the period stays positive and moves by at most a tenth |
| `ChoreographerTimer.LateOutliersCannotHappen` | src/swappy/common/ChoreographerFilter.cpp:61-68 | after catching up only early points can be outliers |
| `ChoreographerTimer.CaughtUpPointIsAccepted` | src/swappy/common/ChoreographerFilter.cpp:61-68 | a point that needed catching up is accepted |
| `ChoreographerTimer.RepeatsAreIgnored` | src/swappy/common/ChoreographerFilter.cpp:46-75 | repeating an accepted timestamp changes nothing |
| `ChoreographerTimer.RepeatsAreIgnoredIff` | src/swappy/common/ChoreographerFilter.cpp:46-75 | for which periods that holds at every point |
| `FilterLock.LockedPointIsAccepted` | src/swappy/common/ChoreographerFilter.cpp:61-68 | inside the lock set there is neither catching up nor an outlier |
| `FilterLock.EnergyStep` | src/swappy/common/ChoreographerFilter.cpp:70-72 | what an accepted point does to the energy, exactly, with integer rounding |
| `FilterLock.ExactEnergyStep` | src/swappy/common/ChoreographerFilter.cpp:70-72 | in exact arithmetic the energy falls to exactly four fifths |
| `FilterLock.LockIsKept` | src/swappy/common/ChoreographerFilter.cpp:59-74 | from 37 ns on, a locked filter stays locked at the next timestamp |
| `FilterLock.LockIsKeptIff` | src/swappy/common/ChoreographerFilter.cpp:59-74 | 37 ns is the least period from which on the lock is kept; some shorter ones keep it as well |
| `FilterLock.LockedForever` | src/swappy/common/ChoreographerFilter.cpp:59-74 | and at all later ones, smoothing at every one of them |
| `FilterLock.RepeatsDoNotMatter` | src/swappy/common/ChoreographerFilter.cpp:46-75 | in lock, timestamps may be repeated any number of times; only the fresh ones count |
| `FilterLock.GapKeepsLock` | src/swappy/common/ChoreographerFilter.cpp:59-74 | after skipped timestamps the catch-up loop makes up for exactly the skipped periods and the lock is kept, as long as the phase error, grown by one period error for each of them, stays in the lock set |
| `FilterLock.SettledGapKeepsLock` | src/swappy/common/ChoreographerFilter.cpp:59-74 | how many periods can be skipped once the errors have settled |
| `FilterLock.EnergyFalls` | src/swappy/common/ChoreographerFilter.cpp:70-72 | above the rounding noise the energy strictly falls, and it never leaves the noise again |
| `FilterLock.GeometricDecay` | src/swappy/common/ChoreographerFilter.cpp:59-74 | phase and period error decay geometrically in the code's own integers |
| `FilterLock.ErrorsSettle` | src/swappy/common/ChoreographerFilter.cpp:59-74 | how small both errors become, in nanoseconds, after a number of timestamps logarithmic in the initial energy, and that they stay so |
| `FilterLock.LockBoundIsTight` | src/swappy/common/ChoreographerFilter.cpp:61-68 | at every energy beyond the lock set there is a phase of positive period whose point needs catching up |
| `WorkGate.Gate.TryWork` | src/swappy/common/ChoreographerFilter.cpp:208-217 | any two consecutive runs of the work are more than half the period in force apart |
| `WorkGate.RunsSpan` | src/swappy/common/ChoreographerFilter.cpp:208-217 | so n runs span more than (n-1)/2 periods, whatever the number of threads |
| `CallbackCountdown.ChoreographerThread.PostFrameCallbacks` | src/swappy/common/ChoreographerThread.cpp:314-326 | a callback is scheduled only if none is outstanding |
| `CallbackCountdown.ChoreographerThread.OnChoreographer` | src/swappy/common/ChoreographerThread.cpp:328-341 | a callback is rescheduled only while callbacks are left |
| `CallbackCountdown.IdleAfterTenVsyncs` | src/swappy/common/ChoreographerThread.cpp:314-341 | at most one callback is ever outstanding, and the thread goes idle with the tenth after a swap, not before |
| `SyncProtocol.RingRotates` | src/swappy/vulkan/SwappyVkBase.cpp:219-277 | the objects keep their cyclic order; only injectFence turns it, by one |
| `SyncProtocol.StepKeepsInv` | src/swappy/vulkan/SwappyVkBase.cpp:219-339 | ring, queue and wakeup invariants survive every step of both threads |
| `SyncProtocol.RoundRobin` | src/swappy/vulkan/SwappyVkBase.cpp:242-339 | no object is lost or duplicated, the k-th fence is object k mod n, and fences are waited for in submission order |
| `SyncProtocol.SkipsOnlyWhenAllBusy` | src/swappy/vulkan/SwappyVkBase.cpp:247-251 | a frame goes without a fence exactly while all objects are busy |
| `SyncProtocol.SignaledAreReused` | src/swappy/vulkan/SwappyVkBase.cpp:219-254 | unless every object is with the waiter, the next frame gets a fence, that of the next object in turn: signaled objects are used again at once |
| `SyncProtocol.WaiterStepReducesWork` | src/swappy/vulkan/SwappyVkBase.cpp:291-339 | each step of the waiter brings it closer to idle |
| `SyncProtocol.WaiterIsNeverStuck` | src/swappy/vulkan/SwappyVkBase.cpp:299-339 | no wakeup is lost while there is a fence to wait for |
| `SyncProtocol.QueueDrains` | src/swappy/vulkan/SwappyVkBase.cpp:312-337 | left alone, the waiter signals everything queued, in order |
| `SyncProtocol.TeardownFreesEachOnce` | src/swappy/vulkan/SwappyVkBase.cpp:167-217 | teardown frees each object exactly once, in every run |
| `SyncProtocol.StoppedWaiterExits` | src/swappy/vulkan/SwappyVkBase.cpp:167-176 | once stopped, the waiter exits after a bounded number of its own steps, so the join returns |
| `SyncPool.Pool.constructor` | src/swappy/vulkan/SwappyVkBase.cpp:97-164 | the pool starts with every object free |
| `SyncPool.Pool.ReclaimSignaledFences` | src/swappy/vulkan/SwappyVkBase.cpp:219-226 | is the protocol's reclaiming step |
| `SyncPool.Pool.TakeFreeSync` | src/swappy/vulkan/SwappyVkBase.cpp:247-254 | is the protocol's taking step, or skips the frame |
| `SyncPool.Pool.EnqueueSync` | src/swappy/vulkan/SwappyVkBase.cpp:271-274 | is the protocol's queueing step |
| `SyncPool.Pool.WaiterWakes` | src/swappy/vulkan/SwappyVkBase.cpp:296-310 | is the protocol's waking step |
| `SyncPool.Pool.PopWaitingSync` | src/swappy/vulkan/SwappyVkBase.cpp:314-318 | is the protocol's popping step, never from an empty list |
| `SyncPool.Pool.SignalSync` | src/swappy/vulkan/SwappyVkBase.cpp:330-336 | is the protocol's signalling step |
| `SyncPool.Pool.StopWaiter` | src/swappy/vulkan/SwappyVkBase.cpp:170-174 | is the protocol's stopping step |
| `SyncPool.Pool.DestroyAfterJoin` | src/swappy/vulkan/SwappyVkBase.cpp:178-210 | the order in which the objects are freed |
| `Varint.GetBase128IntegerFromByteStream` | src/tuningfork/annotation_util.cpp:35-46 | stays in bounds, takes at most nine bytes, and its result is below 2^63, so never the error value |
| `Varint.ReadsVarint` | src/tuningfork/annotation_util.cpp:35-46 | any well-formed varint of up to nine bytes reads as the value the specification gives it, in any context |
| `Varint.ReadIsBelowTwo63` | src/tuningfork/annotation_util.cpp:35-46 | a success is never mistaken for the error value |
| `Varint.WriteBase128IntToStream` | src/tuningfork/annotation_util.cpp:48-60 | appends the groups the writer produces, with its 32-bit cut |
| `Varint.WrittenIsVarint` | src/tuningfork/annotation_util.cpp:48-60 | what is written is always one well-formed varint |
| `Varint.WrittenLength` | src/tuningfork/annotation_util.cpp:48-60 | k bytes suffice exactly for values below 2^(7k) |
| `Varint.RoundTripIff` | src/tuningfork/annotation_util.cpp:35-60 | for which 64-bit values writing and reading back succeeds |
| `Varint.RoundTripCanFail` | src/tuningfork/annotation_util.cpp:48-60 | it fails for 2^32 |
| `Varint.RoundTrip32` | src/tuningfork/annotation_util.cpp:35-60 | it does for every value below 2^32, with anything before and after |
| `AnnotationCodec.SetUpAnnotationRadixes` | src/tuningfork/annotation_util.cpp:110-129 | the cumulative products, in 32 bits |
| `AnnotationCodec.DecodeField` | src/tuningfork/annotation_util.cpp:66-88 | one field with every check the decoder makes |
| `AnnotationCodec.DecodeAnnotationSerialization` | src/tuningfork/annotation_util.cpp:62-91 | on arbitrary bytes, the meaning of the message's fields or the error |
| `AnnotationCodec.SerializeAnnotationId` | src/tuningfork/annotation_util.cpp:93-108 | the bytes of every nonzero digit |
| `AnnotationProofs.RadixIsProduct` | src/tuningfork/annotation_util.cpp:110-129 | without overflow a radix is the number of annotations of the fields so far |
| `AnnotationProofs.ListingParses` | src/tuningfork/annotation_util.cpp:62-91 | a listing of well-formed fields parses back to exactly these fields, and to nothing if something malformed follows |
| `AnnotationProofs.MalformedIsRejected` | src/tuningfork/annotation_util.cpp:66-79 | behind any well-formed fields, a byte that is not the key of a varint field, an unfinished varint or one of more than nine bytes gives the error |
| `AnnotationProofs.EveryStringSplits` | src/tuningfork/annotation_util.cpp:66-79 | every byte string is a listing of well-formed fields, or one with something malformed behind it |
| `AnnotationProofs.MixedRadixInjective` | src/tuningfork/annotation_util.cpp:62-91 | different annotations have different numbers |
| `AnnotationProofs.SumIsMixedRadix` | src/tuningfork/annotation_util.cpp:85-88 | the decoder's sum is the mixed-radix number of the annotation, in whatever order the fields come |
| `AnnotationProofs.DecodesToMixedRadix` | src/tuningfork/annotation_util.cpp:62-91 | any listing of distinct fields with allowed values decodes to that number, which is below the last radix |
| `AnnotationProofs.SameIdIffSameAnnotation` | src/tuningfork/annotation_util.cpp:62-91 | two byte strings share an id exactly when they describe the same annotation |
| `AnnotationProofs.SumOfAccepted` | src/tuningfork/annotation_util.cpp:80-88 | whatever the decoder accepts, repeated fields and values the enums do not have included, sums up to the mixed-radix reading of the totals by field |
| `AnnotationProofs.DecodesExactly` | src/tuningfork/annotation_util.cpp:62-91 | what every byte string decodes to, told from its bytes and the enum sizes: the mixed-radix reading of the totals if it is a listing of fields of the settings with values that are not 0, not above 255 and below the product up to their field; the error otherwise |
| `AnnotationProofs.TotalsOfDistinct` | src/tuningfork/annotation_util.cpp:85-88 | which are the described annotation if no field is repeated |
| `AnnotationProofs.AcceptedIdBelongsTo` | src/tuningfork/annotation_util.cpp:80-88 | an accepted byte string with a number below the last radix shares it with exactly one annotation of the settings, which is the described one if and only if no total exceeds its enum |
| `CodecRoundTrip.DecodeOfSerialized` | src/tuningfork/annotation_util.cpp:62-108 | what the decoder answers to the serializer, for every 64-bit id |
| `CodecRoundTrip.RejectsOnlyLargeDigits` | src/tuningfork/annotation_util.cpp:82-84 | the decoder rejects the serializer's output only for digits above 255 |
| `CodecRoundTrip.RoundTripIff` | src/tuningfork/annotation_util.cpp:62-108 | the id comes back exactly when all digits are allowed and it is below the product of the first two radixes |
| `CodecRoundTrip.TwoFieldsRoundTrip` | src/tuningfork/annotation_util.cpp:62-108 | with at most two fields only large digits stand in the way |
| `CodecRoundTrip.ThreeFieldsFail` | src/tuningfork/annotation_util.cpp:93-108 | with three fields it fails, at id 36 of radixes 3, 12, 60 |
| `Buckets.BucketBounds` | src/tuningfork/histogram.cpp:52-58 | which samples each bucket takes, with the effect of truncation |
| `Buckets.BucketTakesIff` | src/tuningfork/histogram.cpp:52-58 | a sample goes to a bucket if and only if it lies in the stretch that the bucket takes |
| `Buckets.EverySampleIsCounted` | src/tuningfork/histogram.cpp:45-61 | the buckets add up to the number of samples |
| `Buckets.BucketsCountWhatTheyTake` | src/tuningfork/histogram.cpp:45-61 | every bucket holds the number of samples that lie in its stretch |
| `Buckets.VarianceIsNonNegative` | src/tuningfork/histogram.cpp:74-78 | without rounding the variance needs no correction |
| `Buckets.ChosenEnd` | src/tuningfork/histogram.cpp:79-87 | the chosen range is valid and ends where the buckets do |
| `Buckets.ChosenRangeIsTight` | src/tuningfork/histogram.cpp:79-87 | the chosen range is three deviations on either side of the mean, cut off at 0, or buckets of 0.1 ms centered on it; it is never wider than six deviations otherwise |
| `Buckets.UsuallyANinth` | src/tuningfork/histogram.cpp:63-92 | at most a ninth of the samples is in the outer buckets, unless the range was clamped at 0 and too narrow |
| `Buckets.NeverMoreThanFourThirteenths` | src/tuningfork/histogram.cpp:63-92 | at most 4 of 13 samples are, in all cases |
| `HistogramModel.Histogram.constructor` | src/tuningfork/histogram.cpp:29-39 | an empty histogram, with a range or looking for one |
| `HistogramModel.Histogram.Add` | src/tuningfork/histogram.cpp:45-61 | the sample is kept, counted in its bucket, or triggers ranging |
| `HistogramModel.Histogram.CalcBucketsFromSamples` | src/tuningfork/histogram.cpp:63-92 | the range that mean and deviation call for, and every sample counted in it |
| `HistogramModel.SampleMoments` | src/tuningfork/histogram.cpp:66-73 | the sum and the sum of squares of the samples |
| `HistogramModel.Histogram.SetRange` | src/tuningfork/histogram.cpp:79-87 | sets start, end and width of the chosen range |
| `HistogramModel.Histogram.Clear` | src/tuningfork/histogram.cpp:118-123 | empties the histogram, and when the result can be used |
| `HistogramModel.Histogram.EachSampleIsHeldOnce` | src/tuningfork/histogram.cpp:45-61 | in every valid state the counts add up, and nothing is counted before there is a range |
| `HistogramModel.Histogram.BucketsAreCounted` | src/tuningfork/histogram.cpp:45-61 | each bucket of the object counts the samples that lie in its stretch |
| `HistogramModel.Histogram.RangedTightly` | src/tuningfork/histogram.cpp:63-92 | the tight range, for the object right after ranging, from the samples' mean and deviation |
| `HistogramModel.Histogram.RangedWell` | src/tuningfork/histogram.cpp:63-92 | the bounds on the outer buckets, for the object right after ranging |
| `ProngCacheModel.TicksCoverElapsedTime` | src/tuningfork/prong.h:47-51 | ticks record the whole time from the first to the last of them |
| `ProngCacheModel.Prong.constructor` | src/tuningfork/prong.h:40-45 | a prong without ticks or samples |
| `ProngCacheModel.Prong.Tick` | src/tuningfork/prong.h:47-51 | records the time since the last tick, and nothing for the first |
| `ProngCacheModel.Prong.Trace` | src/tuningfork/prong.h:53-57 | records the duration in milliseconds |
| `ProngCacheModel.RecordingAdds` | src/tuningfork/prong.h:53-57 | recording a duration of whole milliseconds in a cache is the protocol's step that adds that number of milliseconds |
| `ProngCacheModel.Prong.ClearIfCounted` | src/tuningfork/prong.cpp:55-58 | a prong that counts nothing keeps its samples |
| `ProngCacheModel.Prong.BucketsHoldReadout` | src/tuningfork/prong.h:64-66 | a prong that counts anything holds all of its samples in its buckets |
| `ProngCacheModel.CounterWraps` | src/tuningfork/prong.cpp:33-41 | the wrapping key counter is the position modulo the number of keys, in 16 bits |
| `ProngCacheModel.ProngCache.constructor` | src/tuningfork/prong.cpp:28-43 | every prong has the key, annotation and histogram settings of its position |
| `ProngCacheModel.ProngCache.Clear` | src/tuningfork/prong.cpp:54-59 | clears exactly the prongs that count anything, and keeps all ranges |
| `ProngCacheModel.ProngCache.SetInstrumentKeys` | src/tuningfork/prong.cpp:61-70 | every annotation's prongs get the registered keys, the others keep theirs |
| `ProngCacheModel.ProngCache.TraceAt` | src/tuningfork/tuningfork.cpp:455-463 | one prong gets the sample, or none if the id is too large |
| `ProngCacheModel.ProngCache.TickAt` | src/tuningfork/tuningfork.cpp:445-453 | one prong is ticked, or none if the id is too large |
| `KeyTable.RegisterKeepsSlots` | src/tuningfork/tuningfork.cpp:379-400 | slots are never reassigned, shared or more than the maximum |
| `KeyTable.RegisteredAreDistinct` | src/tuningfork/tuningfork.cpp:379-400 | so in every sequence of registrations |
| `KeyTable.SlotsFollowRequestsIff` | src/tuningfork/tuningfork.cpp:498-507 | the table is the list of requested keys exactly if no key is repeated |
| `KeyTable.EachRequestGetsItsSlotIff` | src/tuningfork/tuningfork.cpp:498-507 | every requested key gets a slot, and the i-th gets slot i, for all i, exactly if no key is repeated |
| `KeyTable.RepeatedKeyShiftsSlots` | src/tuningfork/tuningfork.cpp:498-507 | after a repeated key the next one gets another slot than its position |
| `TuningForkModel.CounterIsSlotIff` | src/tuningfork/prong.cpp:33-41 | the counter that picks the histogram settings agrees with the slots exactly up to 65536 keys |
| `TuningForkModel.TuningForkImpl.SlotHasItsSetting` | src/tuningfork/prong.cpp:33-41 | in a new cache the prongs of a slot have the setting at its position |
| `TuningForkModel.TuningForkImpl.SettingsReachTheirKeysIff` | src/tuningfork/tuningfork.cpp:492-507 | every histogram setting is what the prongs of its key carry if and only if it asks for the same buckets as the settings the key counter picks for them |
| `TuningForkModel.TuningForkImpl.SlotsPickSettings` | src/tuningfork/prong.cpp:33-41 | up to 65536 keys these are the setting at the key's slot |
| `TuningForkModel.TuningForkImpl.DistinctKeysGetTheirSettings` | src/tuningfork/tuningfork.cpp:492-507 | which is always so if no key is repeated |
| `TuningForkModel.TuningForkImpl.constructor` | src/tuningfork/tuningfork.cpp:101-146 | two caches of the right size, registered keys, nothing pending |
| `TuningForkModel.TuningForkImpl.InitHistogramSettings` | src/tuningfork/tuningfork.cpp:492-507 | missing histograms get the default, keys are registered in order |
| `TuningForkModel.TuningForkImpl.NewCache` | src/tuningfork/tuningfork.cpp:122-133 | every prong carries the annotation and the histogram settings its position stands for |
| `TuningForkModel.TuningForkImpl.GetOrCreateInstrumentKeyIndex` | src/tuningfork/tuningfork.cpp:379-400 | finds or assigns the key's slot; an error exactly if the table is full without it |
| `TuningForkModel.TuningForkImpl.MakeCompoundId` | src/tuningfork/tuningfork.cpp:195-201 | slot plus annotation, in 64 bits |
| `TuningForkModel.TuningForkImpl.SetCurrentAnnotation` | src/tuningfork/tuningfork.cpp:335-354 | the annotation in force afterwards |
| `TuningForkModel.AllPairsHaveProngsIff` | src/tuningfork/tuningfork.cpp:122-133 | every pair of annotation and slot has a prong exactly when their number fits in 32 bits |
| `TuningForkModel.TuningForkImpl.PairHasItsProng` | src/tuningfork/tuningfork.cpp:350-361 | a pair's prong exists, carries its annotation, and its key once the keys are set |
| `TuningForkModel.TuningForkImpl.PairsHaveTheirOwnProngs` | src/tuningfork/prong.cpp:45-52 | different pairs have different prongs |
| `TuningForkModel.TuningForkImpl.CompoundIdIsPairId` | src/tuningfork/tuningfork.cpp:195-201 | a registered key under an annotation of the settings finds that prong |
| `TuningForkModel.ErrorIsRecognisedIff` | src/tuningfork/tuningfork.cpp:335-354 | what the error becomes, and that it is recognised exactly when there is one key |
| `TuningForkModel.ReportsErrorIff` | src/tuningfork/tuningfork.cpp:335-354 | setting an annotation reports an error exactly if it does not decode and there is one key |
| `TuningForkModel.ErrorCanGoUnnoticed` | src/tuningfork/tuningfork.cpp:335-354 | a byte string that never decodes, and goes unnoticed with two keys |
| `TuningForkModel.HasProngIff` | src/tuningfork/tuningfork.cpp:195-201 | a decoded annotation has prongs exactly if it is below the last radix |
| `TuningForkModel.DecodedAnnotationCanLackProngs` | src/tuningfork/annotation_util.cpp:80-88 | a byte string that decodes to an annotation without prongs |
| `TuningForkModel.DecodedAnnotationCanBeAnother` | src/tuningfork/annotation_util.cpp:80-88 | a byte string with a value its enum does not have that is taken for another annotation, which has prongs |
| `TuningForkModel.TuningForkImpl.BadAnnotationFindsNoProng` | src/tuningfork/tuningfork.cpp:335-354 | otherwise no key finds a prong under it, or a place for the start of a trace |
| `TuningForkModel.TuningForkImpl.TraceNanos` | src/tuningfork/tuningfork.cpp:455-463 | records in the current cache only |
| `TuningForkModel.TuningForkImpl.TickNanos` | src/tuningfork/tuningfork.cpp:445-453 | records in the current cache only |
| `TuningForkModel.TuningForkImpl.FrameDeltaTimeNanos` | src/tuningfork/tuningfork.cpp:435-443 | the sample is in the pair's prong of the cache that was current, which is handed over exactly if an upload is due and none is pending |
| `TuningForkModel.TuningForkImpl.FrameTick` | src/tuningfork/tuningfork.cpp:422-433 | the same for a tick |
| `TuningForkModel.TuningForkImpl.StartTrace` | src/tuningfork/tuningfork.cpp:401-407 | the handle is the pair's id; the start is remembered under it exactly if the pair has a prong |
| `TuningForkModel.TuningForkImpl.EndTrace` | src/tuningfork/tuningfork.cpp:409-420 | the duration is recorded under the handle, once; any other handle is refused |
| `TuningForkModel.TuningForkImpl.FlushAt` | src/tuningfork/tuningfork.cpp:531-548 | keys set, cache handed over, other cache cleared and current; or nothing but the keys and the time |
| `TuningForkModel.TuningForkImpl.Flush` | src/tuningfork/tuningfork.cpp:521-529 | the same, but refused within a minute of the last one |
| `TuningForkModel.TuningForkImpl.CheckForSubmit` | src/tuningfork/tuningfork.cpp:470-490 | flushes exactly when the strategy calls for it |
| `TuningForkModel.TuningForkImpl.DueByTimeOrCount` | src/tuningfork/tuningfork.cpp:470-482 | an upload is due once the interval in milliseconds has passed, or with the sample that makes the prong count as many as the setting says |
| `TuningForkModel.UploadThread.Submit` | src/tuningfork/uploadthread.cpp:120-130 | refuses exactly while a cache is pending |
| `TuningForkModel.UploadThread.UploadReady` | src/tuningfork/uploadthread.cpp:99-114 | what is uploaded counts every sample of the cache's counted prongs |
| `SerializerModel.WriteHistograms` | src/tuningfork/clearcutserializer.cpp:87-103 | one message for each prong that counts anything, in order |
| `SerializerModel.EveryProngHasItsMessage` | src/tuningfork/clearcutserializer.cpp:60-103 | there are as many messages as counted prongs, and each of these has its own, with its key, its annotation and all of its buckets |
| `SerializerModel.EventCountsEverySample` | src/tuningfork/clearcutserializer.cpp:68-103 | the uploaded counts add up to the samples the protocol considers uploaded |
| `UploadProtocol.StepKeepsInv` | src/tuningfork/uploadthread.cpp:98-130 | the invariant survives every step of both threads |
| `UploadProtocol.RunKeepsInv` | src/tuningfork/uploadthread.cpp:98-130 | so every interleaving keeps it |
| `UploadProtocol.NothingIsLostOrRepeated` | src/tuningfork/tuningfork.cpp:531-548 | in every interleaving what was recorded for a prong is what was uploaded plus what the two caches still owe, as multisets, also while histograms look for their range |
| `UploadProtocol.ClearsOnlyWhatWasUploaded` | src/tuningfork/prong.cpp:54-59 | counted samples are cleared only after the backend has got them |
| `UploadProtocol.ReadyIsNotTouched` | src/tuningfork/uploadthread.cpp:98-130 | no step writes to the cache that ready_ points to |
| `UploadProtocol.UploadsInOrder` | src/tuningfork/tuningfork.cpp:531-548 | with fixed ranges each prong's samples reach the backend in the order they were recorded, without gaps |
| `UploadProtocol.UploadCanStep` | src/tuningfork/uploadthread.cpp:98-117 | until it is asked to quit the upload thread is never stuck with a cache ready |
| `UploadProtocol.UploadMakesProgress` | src/tuningfork/uploadthread.cpp:98-117 | each of its steps brings the upload closer, and no other step sets it back |
| `UploadProtocol.FlushRun` | src/tuningfork/tuningfork.cpp:531-548 | the steps of a flush together do what Flush's contract says |
| `UploadProtocol.FlushWhilePending` | src/tuningfork/tuningfork.cpp:543-545 | a flush while an upload is pending changes nothing |

## Left out

- Calls into JNI, EGL, Vulkan, the Looper, the Choreographer and the display manager: foreign code. Their answers are parameters or nondeterministic steps.
- Logging, tracing, tracer callbacks, file access, HTTP, crash handlers and device information: no effect on the state that is modelled.
- The protobuf libraries: serializing a cache is reading its counted prongs into messages; the bytes of a message are not modelled.
- `mPresentationTime`, `mSwapDuration` and the CPU tracer: they feed only timestamps handed to the platform.
- Wrap-around of the 32-bit frame counters, and of nanosecond values in 64 bits.
- Rounding of floating-point numbers: histogram arithmetic and the filter's `* 1.5` are exact.
- The uninitialised fields `mPipelineModeForNewRefresh` and `hasPendingWork` start with an arbitrary value, given as a parameter.
- `lastFrameIsCompleted`, which does not count the fence the waiter holds: its answer is arbitrary in `FramePacing`.
- The moment a waiter or upload thread is created: threads start after the objects they use exist.
- Several threads in `TuningForkImpl` at once: one thread records, as the source assumes for each key.
- `FrameTiming.IntervalIsLeast`: refresh periods of up to 500 ns are excluded, because the property fails for them (`IntervalIsLeastIff`).
- `FilterLock.LockIsKept`: periods below 37 ns are excluded, because rounding can break the lock at 36 ns (`LockIsKeptIff`).
- `AnnotationProofs.DecodesToMixedRadix`: settings with more than 31 fields or 2^31 annotations are excluded, since a key byte and the running product of the source cannot hold them.
- `Varint.GetBase128IntegerFromByteStream`: the bitwise or of disjoint groups of bits is an addition.
- `HistogramModel.Histogram.constructor`: a fixed range that does not end after it starts, and one without inner buckets, are excluded; the source logs the first as an error and goes on with a width that is not positive, and divides by zero for the second.
- `HistogramModel.Histogram.CalcBucketsFromSamples`: called while auto-ranging, as `Add` does; its running minimum and maximum are never used and are not modelled.
- `HistogramModel.Histogram.Clear`: returning to auto-ranging keeps the capacity the sample vector got when it was created; no caller does it.
- `TuningForkModel.TuningForkImpl.constructor`: zero instrumentation keys are excluded, which the source logs as an error and later divides by; so are settings the codec cannot represent (see `DecodesToMixedRadix`) and unusable histogram ranges.
- `TuningForkModel.TuningForkImpl.StartTrace`: what a store beyond the end of `live_traces_` does; the contract says when it happens.
- `RefreshLoop.LoopComesToRestIff`: auto mode is on, the average frame, the rates and the settings stay the same, and the display switches to the rate it is asked for before the next window is full.
- `TuningForkModel.HasProngIff`: annotation numbers whose product with the number of keys exceeds 64 bits, which would take millions of repeated fields; the decoder's error value is treated separately (`BadAnnotationFindsNoProng`).
- `TuningForkModel.TuningForkImpl.DistinctKeysGetTheirSettings`: more than 65536 keys are excluded, where the key counter wraps (`CounterIsSlotIff`).
- Fidelity parameters, the settings parser, upload callbacks and the C API wrappers: thin layers over what is modelled.
- `FrameStatistics`, the EGL fence waiter and the device-specific wrappers: they take no part in the decisions and protocols modelled here.
- `Prong::Clear`, `Histogram::ToJSON` and `Histogram::SetCounts`: not called by the recording or the uploading thread.
