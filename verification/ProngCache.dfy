/** Prongs: one histogram for each pair of an annotation and an instrumentation key, and the
    cache that allocates them all up front. */
module ProngCacheModel {
  import opened CInt
  import opened Wrappers
  import opened Varint
  import opened Buckets
  import opened HistogramModel
  import opened UploadProtocol

  type InstrumentationKey = x: int | 0 <= x < 0x1_0000

  const KEY_COUNT: int := 0x1_0000
  /** Milliseconds, as the histograms store them. */
  function Millis(ns: int): real { ns as real / 1000000.0 }

  lemma MillisOfWhole(ms: int)
    ensures Millis(ms * 1_000_000) == ms as real
  {
  }

  datatype TFHistogram = TFHistogram(instrumentKey: int, bucketMin: real, bucketMax: real, nBuckets: int) {
    predicate IsUsable() {
      nBuckets >= 1 && (bucketMin < bucketMax || bucketMin == bucketMax == 0.0)
    }
  }

  // ------------------------------------------------------------------------------- ticks

  /** The samples that ticks at these times record, after one at `last` if there was one. */
  function TickSamples(last: Option<int>, times: seq<int>): seq<real>
    decreases |times|
  {
    if times == [] then []
    else
      var rest := TickSamples(Some(times[0]), times[1..]);
      if last.None? then rest else [Millis(times[0] - last.value)] + rest
  }

  lemma {:induction false} SumOfFirst(x: real, s: seq<real>)
    ensures Buckets.Sum([x] + s) == x + Buckets.Sum(s)
  {
    if s == [] {
      assert ([x] + s)[..0] == [];
    } else {
      assert ([x] + s)[..|s|] == [x] + s[..|s| - 1];
      SumOfFirst(x, s[..|s| - 1]);
    }
  }

  /** Ticks record the whole time from the first to the last of them, and one sample less than
      there are ticks. */
  lemma {:induction false} TicksCoverElapsedTime(first: int, times: seq<int>)
    ensures |TickSamples(Some(first), times)| == |times|
    ensures Buckets.Sum(TickSamples(Some(first), times))
            == Millis((if times == [] then first else times[|times| - 1]) - first)
    ensures TickSamples(None, [first] + times) == TickSamples(Some(first), times)
    decreases |times|
  {
    assert ([first] + times)[1..] == times;
    if times != [] {
      TicksCoverElapsedTime(times[0], times[1..]);
      SumOfFirst(Millis(times[0] - first), TickSamples(Some(times[0]), times[1..]));
    }
  }

  // ------------------------------------------------------------------------------ prongs

  class Prong {
    var instrumentationKey: InstrumentationKey
    const annotation: seq<byte>
    const histogram: Histogram
    var lastTimeNs: Option<int>   // None for time_point::min()

    ghost predicate Valid()
      reads histogram
    {
      histogram.Valid() && Cell().Valid()
    }

    /** The prong as the upload protocol sees it. */
    ghost function Cell(): Cell
      reads histogram
    {
      UploadProtocol.Cell(histogram.recorded, if histogram.autoRange then histogram.capacity else 1)
    }

    /** reserve allocates room for as many samples as there are buckets. */
    constructor (instrumentationKey: InstrumentationKey, annotation: seq<byte>, settings: TFHistogram,
                 sqrt: real -> real)
      requires IsSqrt(sqrt) && settings.IsUsable()
      ensures Valid() && fresh(histogram)
      ensures this.instrumentationKey == instrumentationKey && this.annotation == annotation
      ensures lastTimeNs == None && IsNew(settings)
    {
      this.instrumentationKey, this.annotation, lastTimeNs := instrumentationKey, annotation, None;
      histogram := new Histogram(settings.bucketMin, settings.bucketMax, settings.nBuckets, settings.nBuckets + 2, sqrt);
    }

    ghost predicate IsNew(settings: TFHistogram)
      reads histogram
    {
      && histogram.startMs == settings.bucketMin && histogram.endMs == settings.bucketMax
      && histogram.numBuckets == settings.nBuckets + 2 && histogram.recorded == []
      && (histogram.autoRange <==> settings.bucketMin == settings.bucketMax == 0.0)
    }

    /** As allocated for a key: with the histogram settings of the key's slot, if there are any. */
    ghost predicate IsNewFor(key: InstrumentationKey, annotation: seq<byte>, settings: seq<TFHistogram>)
      requires settings != []
      reads this, histogram
    {
      && instrumentationKey == key && this.annotation == annotation && lastTimeNs == None
      && IsNew(settings[if key < |settings| then key else 0])
    }

    method Tick(tNs: int)
      requires Valid()
      modifies `lastTimeNs, histogram
      ensures Valid() && lastTimeNs == Some(tNs)
      ensures histogram.recorded == old(histogram.recorded) + TickSamples(old(lastTimeNs), [tNs])
      ensures Cell() == if old(lastTimeNs).None? then old(Cell())
                        else old(Cell()).WithSample(Millis(tNs - old(lastTimeNs).value))
    {
      assert [tNs][1..] == [];
      assert forall last :: TickSamples(last, []) == [];
      if lastTimeNs != None {
        Trace(tNs - lastTimeNs.value);
      }
      lastTimeNs := Some(tNs);
    }

    method Trace(dtNs: int)
      requires Valid()
      modifies histogram
      ensures Valid() && Cell() == old(Cell()).WithSample(Millis(dtNs))
    {
      histogram.Add(Millis(dtNs));
    }

    function Count(): nat
      reads histogram
    {
      histogram.Count()
    }

    /** The body of ProngCache::Clear. The time of the last tick stays. */
    method ClearIfCounted()
      requires Valid()
      modifies histogram
      ensures Valid() && Cell() == old(Cell()).Cleared() && histogram.GetRange() == old(histogram.GetRange())
    {
      if histogram.Count() > 0 {
        histogram.Clear(false);
      }
    }

    method SetInstrumentKey(key: InstrumentationKey)
      modifies `instrumentationKey
      ensures instrumentationKey == key
    {
      instrumentationKey := key;
    }

    /** A prong that counts anything holds each of its samples in one bucket. */
    lemma BucketsHoldReadout()
      requires Valid()
      ensures if Count() > 0 then Total(histogram.buckets) == |Cell().Readout()| else Cell().Readout() == []
    {
      CountIsCounted();
      histogram.EachSampleIsHeldOnce();
    }

    lemma CountIsCounted()
      requires Valid()
      ensures Count() > 0 <==> Cell().IsCounted()
      ensures Count() > 0 ==> !histogram.autoRange && Count() == |Cell().samples|
    {
    }
  }

  // ------------------------------------------------------------------------------- cache

  /** Which key the wrapping counter of the constructor gives prong `i`. */
  function KeyCounter(i: nat, maxKeys: int): InstrumentationKey
    requires maxKeys >= 1
  {
    ModNat(i, Min(maxKeys, KEY_COUNT))
  }

  lemma CounterWraps(i: nat, maxKeys: int)
    requires maxKeys >= 1
    ensures KeyCounter(0, maxKeys) == 0
    ensures var next := (KeyCounter(i, maxKeys) + 1) % KEY_COUNT;
            KeyCounter(i + 1, maxKeys) == if next >= maxKeys then 0 else next
  {
    var m := Min(maxKeys, KEY_COUNT);
    var q, r := DivNat(i, m), ModNat(i, m);
    assert ModNat(0, m) == 0 by { ModUnique(0, m, 0, 0); }
    if r + 1 < m {
      ModUnique(i + 1, m, q, r + 1);
    } else {
      assert m * (q + 1) == m * q + m;
      ModUnique(i + 1, m, q + 1, 0);
    }
  }

  /** `++ikey`, in 16 bits, and back to 0 after the last key. */
  method AfterKey(ikey: InstrumentationKey, i: nat, maxKeys: int) returns (next: InstrumentationKey)
    requires maxKeys >= 1 && ikey == KeyCounter(i, maxKeys)
    ensures next == KeyCounter(i + 1, maxKeys)
  {
    CounterWraps(i, maxKeys);
    next := (ikey + 1) % KEY_COUNT;
    if next >= maxKeys {
      next := 0;
    }
  }

  method NewProng(key: InstrumentationKey, annotation: seq<byte>, settings: seq<TFHistogram>, sqrt: real -> real)
    returns (p: Prong)
    requires settings != [] && IsSqrt(sqrt) && forall i :: 0 <= i < |settings| ==> settings[i].IsUsable()
    ensures fresh(p) && fresh(p.histogram) && p.Valid() && p.IsNewFor(key, annotation, settings)
  {
    p := new Prong(key, annotation, settings[if key < |settings| then key else 0], sqrt);
  }

  method NewProngs(size: nat, maxKeys: int, settings: seq<TFHistogram>, serializeId: nat --> seq<byte>,
                   sqrt: real -> real)
    returns (prongs: seq<Prong>, ghost cells: seq<Cell>)
    requires size > 0 ==> maxKeys >= 1 && settings != []
    requires IsSqrt(sqrt) && forall i :: 0 <= i < |settings| ==> settings[i].IsUsable()
    requires forall i :: 0 <= i < size ==> serializeId.requires(i)
    ensures |prongs| == |cells| == size
    ensures forall i :: 0 <= i < size ==>
              fresh(prongs[i]) && fresh(prongs[i].histogram) && prongs[i].Valid() && cells[i] == prongs[i].Cell()
    ensures forall i, j :: 0 <= i < j < size ==>
              prongs[i] != prongs[j] && prongs[i].histogram != prongs[j].histogram
    ensures forall i :: 0 <= i < size ==> prongs[i].IsNewFor(KeyCounter(i, maxKeys), serializeId(i), settings)
  {
    hide Prong.Valid, Prong.Cell, Prong.IsNewFor, KeyCounter, IsSqrt;
    prongs, cells := [], [];
    var ikey: InstrumentationKey := 0;
    if size > 0 { CounterWraps(0, maxKeys); }
    for i := 0 to size
      invariant |prongs| == |cells| == i && (size > 0 ==> ikey == KeyCounter(i, maxKeys))
      invariant forall j :: 0 <= j < i ==>
                  fresh(prongs[j]) && fresh(prongs[j].histogram) && prongs[j].Valid() && cells[j] == prongs[j].Cell()
      invariant forall j, k :: 0 <= j < k < i ==>
                  prongs[j] != prongs[k] && prongs[j].histogram != prongs[k].histogram
      invariant forall j :: 0 <= j < i ==> prongs[j].IsNewFor(KeyCounter(j, maxKeys), serializeId(j), settings)
    {
      var p := NewProng(ikey, serializeId(i), settings, sqrt);
      prongs, cells := prongs + [p], cells + [p.Cell()];
      ikey := AfterKey(ikey, i, maxKeys);
    }
  }

  class ProngCache {
    var prongs: seq<Prong>
    const maxNumInstrumentationKeys: int

    ghost var prongSet: set<Prong>
    ghost var histogramSet: set<Histogram>
    /** What the prongs hold, as the upload protocol sees it. */
    ghost var cells: seq<Cell>

    ghost predicate Valid()
      reads this, histogramSet
    {
      && (forall i :: 0 <= i < |prongs| ==>
            prongs[i] in prongSet && prongs[i].histogram in histogramSet && prongs[i].Valid())
      && |cells| == |prongs| && (forall i :: 0 <= i < |prongs| ==> cells[i] == prongs[i].Cell())
      && (forall i, j :: 0 <= i < j < |prongs| ==>
            prongs[i] != prongs[j] && prongs[i].histogram != prongs[j].histogram)
    }

    /** Allocates all the prongs. The histogram of a prong is set up for its key's slot. */
    constructor (size: nat, maxKeys: int, settings: seq<TFHistogram>, serializeId: nat --> seq<byte>,
                 sqrt: real -> real)
      requires size > 0 ==> maxKeys >= 1 && settings != []
      requires IsSqrt(sqrt) && forall i :: 0 <= i < |settings| ==> settings[i].IsUsable()
      requires forall i :: 0 <= i < size ==> serializeId.requires(i)
      ensures Valid() && fresh(prongSet) && fresh(histogramSet)
      ensures |prongs| == size && maxNumInstrumentationKeys == maxKeys
      ensures forall i :: 0 <= i < size ==> prongs[i].IsNewFor(KeyCounter(i, maxKeys), serializeId(i), settings)
    {
      hide Prong.Valid, Prong.Cell, Prong.IsNewFor, KeyCounter, IsSqrt;
      maxNumInstrumentationKeys := maxKeys;
      ghost var cs;
      var ps;
      ps, cs := NewProngs(size, maxKeys, settings, serializeId, sqrt);
      prongs, prongSet := ps, set i | 0 <= i < |ps| :: ps[i];
      histogramSet := set i | 0 <= i < |ps| :: ps[i].histogram;
      cells := cs;
    }

    lemma DifferentProngs(i: nat, j: nat)
      requires Valid() && i < |prongs| && j < |prongs| && i != j
      ensures prongs[i] != prongs[j]
    {
    }

    function Get(compoundId: uint64): Prong?
      reads this
    {
      if compoundId >= |prongs| then null else prongs[compoundId]
    }

    /** Records a duration in the prong of a compound id, if there is one. */
    method TraceAt(compoundId: uint64, dtNs: int)
      requires Valid()
      modifies `cells, histogramSet
      ensures Valid()
      ensures cells == Recorded(old(cells), compoundId, Millis(dtNs))
    {
      hide Prong.Valid, Prong.Cell, Cell.WithSample;
      var p := Get(compoundId);
      if p != null {
        p.Trace(dtNs);
        cells := Recorded(cells, compoundId, Millis(dtNs));
      }
    }

    /** The times of the last ticks. */
    ghost function LastTimes(): (times: seq<Option<int>>)
      requires Valid()
      reads this, prongSet, histogramSet
      ensures |times| == |prongs|
    {
      seq(|prongs|, i requires 0 <= i < |prongs| && prongs[i] in prongSet reads this, prongSet => prongs[i].lastTimeNs)
    }

    /** A tick records the time since the last tick of the same prong, if there was one. */
    ghost function CellsAfterTick(compoundId: uint64, tNs: int): seq<Cell>
      requires Valid()
      reads this, prongSet, histogramSet
    {
      if compoundId >= |prongs| || LastTimes()[compoundId].None? then cells
      else Recorded(cells, compoundId, Millis(tNs - LastTimes()[compoundId].value))
    }

    /** Records a tick in the prong of a compound id, if there is one. */
    method TickAt(compoundId: uint64, tNs: int)
      requires Valid()
      modifies `cells, histogramSet, prongSet`lastTimeNs
      ensures Valid()
      ensures cells == old(CellsAfterTick(compoundId, tNs))
      ensures Get(compoundId) != null ==> Get(compoundId).lastTimeNs == Some(tNs)
      ensures LastTimes() == if compoundId < |prongs| then old(LastTimes())[compoundId := Some(tNs)] else old(LastTimes())
    {
      hide Prong.Valid, Prong.Cell, Cell.WithSample, TickSamples;
      var p := Get(compoundId);
      if p != null {
        cells := CellsAfterTick(compoundId, tNs);
        p.Tick(tNs);
      }
    }

    method Clear()
      requires Valid()
      modifies `cells, histogramSet
      ensures Valid()
      ensures cells == AllCleared(old(cells))
      ensures forall i :: 0 <= i < |prongs| ==> prongs[i].histogram.GetRange() == old(prongs[i].histogram.GetRange())
    {
      hide Prong.Valid, Prong.Cell, Cell.Cleared;
      for i := 0 to |prongs|
        invariant Valid()
        invariant forall j :: 0 <= j < |prongs| ==> prongs[j].histogram.GetRange() == old(prongs[j].histogram.GetRange())
        invariant |cells| == |prongs|
        invariant forall j :: 0 <= j < |prongs| ==> cells[j] == if j < i then old(cells)[j].Cleared() else old(cells)[j]
      {
        prongs[i].ClearIfCounted();
        cells := cells[i := cells[i].Cleared()];
      }
    }

    /** Gives every annotation's prongs the keys that have been registered. */
    method SetInstrumentKeys(keys: seq<InstrumentationKey>)
      requires Valid() && 1 <= maxNumInstrumentationKeys && |keys| <= maxNumInstrumentationKeys
      modifies prongSet`instrumentationKey
      ensures Valid() && cells == old(cells)
      ensures forall i :: 0 <= i < |prongs| ==> prongs[i].lastTimeNs == old(prongs[i].lastTimeNs)
      ensures forall i :: 0 <= i < |prongs| ==>
                prongs[i].instrumentationKey
                == var m := maxNumInstrumentationKeys;
                   if DivNat(i, m) < DivNat(|prongs|, m) && ModNat(i, m) < |keys|
                   then keys[ModNat(i, m)] else old(prongs[i].instrumentationKey)
    {
      hide Prong.Valid, Prong.Cell, DivNat, ModNat, KeysAfter;
      var m := maxNumInstrumentationKeys;
      var nAnnotations := DivNat(|prongs|, m);
      ghost var before := Keys();
      NoKeysYet(before, keys, m);
      for j := 0 to nAnnotations
        invariant Valid() && cells == old(cells)
        invariant Keys() == KeysAfter(before, keys, m, j, 0)
        invariant forall i :: 0 <= i < |prongs| ==> prongs[i].lastTimeNs == old(prongs[i].lastTimeNs)
      {
        for i := 0 to |keys|
          invariant Valid() && cells == old(cells)
          invariant Keys() == KeysAfter(before, keys, m, j, i)
          invariant forall i :: 0 <= i < |prongs| ==> prongs[i].lastTimeNs == old(prongs[i].lastTimeNs)
        {
          PairIndex(j, i, m, |prongs|);
          SetKeyAt(i + j * m, keys[i]);
          OneMoreKey(before, keys, m, j, i);
        }
        OneMoreAnnotation(before, keys, m, j);
      }
      AllKeys(before, keys, m);
    }

    method SetKeyAt(i: nat, key: InstrumentationKey)
      requires Valid() && i < |prongs|
      modifies prongSet`instrumentationKey
      ensures Valid() && cells == old(cells) && Keys() == old(Keys())[i := key]
      ensures forall i :: 0 <= i < |prongs| ==> prongs[i].lastTimeNs == old(prongs[i].lastTimeNs)
    {
      hide Prong.Valid, Prong.Cell;
      prongs[i].SetInstrumentKey(key);
    }

    ghost function Keys(): (keys: seq<InstrumentationKey>)
      requires Valid()
      reads this, prongSet, histogramSet
      ensures |keys| == |prongs|
      ensures forall i :: 0 <= i < |prongs| ==> keys[i] == prongs[i].instrumentationKey
    {
      seq(|prongs|, i requires 0 <= i < |prongs| && prongs[i] in prongSet reads this, prongSet => prongs[i].instrumentationKey)
    }
  }

  /** The cells after `x` is recorded under a compound id; nothing happens if there is no such prong. */
  function Recorded(cells: seq<Cell>, id: uint64, x: real): seq<Cell> {
    if id < |cells| then cells[id := cells[id].WithSample(x)] else cells
  }

  /** Recording in a cache is the step by which the recording thread adds a sample to the current
      cache; a duration of whole milliseconds is added as their number. */
  lemma RecordingAdds(s: State, id: nat, ms: int, n: nat)
    requires WellFormed(s, n) && s.recorder == Idle && id < n && id < TWO_64
    ensures Enabled(s, Add(id, ms as real), n)
    ensures Next(s, Add(id, ms as real), n)
            == s.(caches := s.caches[s.current := Recorded(s.caches[s.current], id, Millis(ms * 1_000_000))],
                  recorded := s.recorded[id := s.recorded[id] + [ms as real]])
  {
    MillisOfWhole(ms);
  }

  /** The keys of all prongs once the first `j` annotations, and the first `i` slots of the next,
      have theirs. */
  function KeysAfter(before: seq<InstrumentationKey>, keys: seq<InstrumentationKey>, m: nat, j: nat, i: nat):
    (after: seq<InstrumentationKey>)
    requires m >= 1 && i <= |keys|
    ensures |after| == |before|
  {
    seq(|before|, p requires 0 <= p < |before| =>
      if IsDone(DivNat(p, m), ModNat(p, m), |keys|, j, i) then keys[ModNat(p, m)] else before[p])
  }

  predicate IsDone(annotation: nat, slot: nat, keyCount: nat, j: nat, i: nat) {
    slot < keyCount && (annotation < j || (annotation == j && slot < i))
  }

  lemma NoKeysYet(before: seq<InstrumentationKey>, keys: seq<InstrumentationKey>, m: nat)
    requires m >= 1
    ensures KeysAfter(before, keys, m, 0, 0) == before
  {
  }

  lemma OneMoreKey(before: seq<InstrumentationKey>, keys: seq<InstrumentationKey>, m: nat, j: nat, i: nat)
    requires i < |keys| <= m && j < DivNat(|before|, m)
    ensures 0 <= i + j * m < |before|
    ensures KeysAfter(before, keys, m, j, i)[i + j * m := keys[i]] == KeysAfter(before, keys, m, j, i + 1)
  {
    hide DivNat, ModNat;
    PairIndex(j, i, m, |before|);
    forall p: nat | p < |before| && DivNat(p, m) == j && ModNat(p, m) == i ensures p == i + j * m {
      MulCommutes(j, m);
    }
  }

  lemma OneMoreAnnotation(before: seq<InstrumentationKey>, keys: seq<InstrumentationKey>, m: nat, j: nat)
    requires m >= 1
    ensures KeysAfter(before, keys, m, j, |keys|) == KeysAfter(before, keys, m, j + 1, 0)
  {
  }

  lemma AllKeys(before: seq<InstrumentationKey>, keys: seq<InstrumentationKey>, m: nat)
    requires m >= 1
    ensures forall p :: 0 <= p < |before| ==>
              KeysAfter(before, keys, m, DivNat(|before|, m), 0)[p]
              == if DivNat(p, m) < DivNat(|before|, m) && ModNat(p, m) < |keys| then keys[ModNat(p, m)] else before[p]
  {
  }

  /** The prong of slot `i` under annotation `j`. */
  lemma PairIndex(j: nat, i: nat, m: int, size: nat)
    requires m >= 1 && i < m && j < DivNat(size, m)
    ensures 0 <= i + j * m < size
    ensures DivNat(i + j * m, m) == j && ModNat(i + j * m, m) == i
  {
    MulLe(j + 1, DivNat(size, m), m);
    MulLe(0, j, m);
    ModUnique(i + j * m, m, j, i);
  }
}
