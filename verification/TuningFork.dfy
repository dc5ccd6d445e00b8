/** TuningForkImpl: it finds the prong of the current annotation and an instrumentation key,
    records frame times there, and hands full caches to the upload thread. One thread records. */
module TuningForkModel {
  import opened CInt
  import opened Wrappers
  import opened Varint
  import opened AnnotationCodec
  import opened AnnotationProofs
  import opened CodecRoundTrip
  import opened HistogramModel
  import opened UploadProtocol
  import opened ProngCacheModel
  import opened KeyTable
  import opened SerializerModel

  datatype ErrorCode =
    | Ok | InvalidInstrumentKey | InvalidTraceHandle | PreviousUploadPending | UploadTooFrequent

  datatype SubmissionMethod = TickBased | TimeBased

  datatype Settings = Settings(
    submission: SubmissionMethod,
    intervalMsOrCount: uint32,
    maxInstrumentationKeys: uint32,
    annotationEnumSize: seq<uint32>,
    histograms: seq<TFHistogram>)
  {
    /** Neither number of keys nor number of annotations may be zero, both are kept in ints, and
        every histogram has a range or asks for one. */
    ghost predicate IsUsable() {
      && 1 <= maxInstrumentationKeys < 0x8000_0000 && Representable(annotationEnumSize)
      && forall i :: 0 <= i < |histograms| ==> histograms[i].IsUsable()
    }
  }

  const NANOS_PER_SECOND: int := 1000000000
  const NANOS_PER_MS: int := 1000000
  const DEFAULT_HISTOGRAM := TFHistogram(-1, 10.0, 40.0, DEFAULT_NUM_BUCKETS)

  /** An int converted to the 16 bits of an InstrumentationKey. */
  function ToKey(x: int): InstrumentationKey { x % KEY_COUNT }

  function KeysOf(histograms: seq<TFHistogram>): (keys: seq<InstrumentationKey>)
    ensures |keys| == |histograms|
  {
    seq(|histograms|, i requires 0 <= i < |histograms| => ToKey(histograms[i].instrumentKey))
  }

  /** Two settings that ask for the same buckets. */
  predicate SameBuckets(h: TFHistogram, g: TFHistogram) {
    h.bucketMin == g.bucketMin && h.bucketMax == g.bucketMax && h.nBuckets == g.nBuckets
  }

  /** `id * max` for an annotation id, in 64 bits. */
  function Shifted(id: uint64, max: uint32): uint64 {
    (id * max) % TWO_64
  }

  /** `key_index + a`, in 64 bits. */
  function CompoundId(slot: nat, annotationId: uint64): uint64 {
    (slot + annotationId) % TWO_64
  }

  /** The number of prongs, in 32 bits. */
  function CacheSize(max: uint32, lastRadix: uint32): nat {
    (max * lastRadix) % TWO_32
  }

  /** The annotation that the prong at position `i` of a cache is for. */
  function SerializedFor(i: nat, max: uint32, radixMult: seq<uint32>): seq<byte>
    requires i < TWO_32 && max >= 1 && AllPositive(radixMult)
  {
    QuotientFits(i, max);
    Serialized(DivNat(i, max), radixMult)
  }

  function LastRadix(enumSizes: seq<uint32>): uint32 {
    var r := Radixes(enumSizes);
    r[|r| - 1]
  }

  // ------------------------------------------------------------- pairs and their prongs

  /** Every pair has a prong exactly when the number of pairs fits in 32 bits. */
  lemma AllPairsHaveProngsIff(max: uint32, radix: uint32)
    requires max >= 1 && radix >= 1
    ensures max * radix < TWO_32
            <==> forall a: nat, k: nat :: a < radix && k < max ==> PairId(a, k, max) < CacheSize(max, radix)
  {
    MulLe(1, max, radix);
    if max * radix < TWO_32 {
      forall a: nat, k: nat | a < radix && k < max ensures PairId(a, k, max) < CacheSize(max, radix) {
        MulLt(a, radix, max);
        MulCommutes(max, radix);
      }
    } else {
      // the last pair is one below the product
      MulCommutes(max, radix);
      assert PairId(radix - 1, max - 1, max) == max * radix - 1;
      assert CacheSize(max, radix) < TWO_32;
    }
  }

  function PairId(a: nat, k: nat, max: nat): nat {
    MulLe(0, a, max);
    a * max + k
  }

  /** The key counter that picks a prong's histogram setting counts the slots, in 16 bits. */
  lemma CounterIsSlotIff(max: uint32, radix: uint32)
    requires max >= 1 && radix >= 1
    ensures (forall a: nat, k: nat :: a < radix && k < max ==> KeyCounter(PairId(a, k, max), max) == k)
            <==> max <= KEY_COUNT
  {
    if max <= KEY_COUNT {
      forall a: nat, k: nat | a < radix && k < max ensures KeyCounter(PairId(a, k, max), max) == k {
        PairOfId(a, k, max);
      }
    } else {
      assert PairId(0, KEY_COUNT, max) == KEY_COUNT;
      assert KeyCounter(PairId(0, KEY_COUNT, max), max) < KEY_COUNT;
    }
  }

  lemma CacheIsSmallEnough(max: uint32, radix: uint32)
    ensures CacheSize(max, radix) < TWO_32
  {
  }

  lemma SmallIdsDoNotWrap(decoded: uint64, slot: nat, max: uint32, id: int)
    requires id == PairId(decoded, slot, max) && id < TWO_32
    ensures CompoundId(slot, Shifted(decoded, max)) == id
  {
    MulLe(0, decoded, max);
    WordsStay(decoded * max, slot);
  }

  lemma WordsStay(x: int, slot: nat)
    requires 0 <= x && x + slot < TWO_32
    ensures (slot + x % TWO_64) % TWO_64 == x + slot
  {
  }

  lemma PairOfId(a: nat, k: nat, max: nat)
    requires k < max
    ensures DivNat(PairId(a, k, max), max) == a && ModNat(PairId(a, k, max), max) == k
  {
    MulLe(0, a, max);
    MulCommutes(a, max);
    ModUnique(PairId(a, k, max), max, a, k);
  }

  /** The decoder's error value, multiplied by the number of keys, is recognised as an error only
      if that number is 1. */
  lemma ErrorIsRecognisedIff(max: uint32)
    requires max >= 1
    ensures Shifted(ANNOTATION_ERROR, max) == TWO_64 - max
    ensures Shifted(ANNOTATION_ERROR, max) == ANNOTATION_ERROR <==> max == 1
  {
    assert ANNOTATION_ERROR * max == TWO_64 * (max - 1) + (TWO_64 - max);
    ModUnique(ANNOTATION_ERROR * max, TWO_64, max - 1, TWO_64 - max);
  }

  /** Whether setting an annotation reports an error, for what the decoder made of it: a result
      that is not the error and does not overflow is never taken for one. */
  lemma ReportsErrorIff(decoded: uint64, max: uint32)
    requires max >= 1 && (decoded == ANNOTATION_ERROR || decoded * max < TWO_64 - 1)
    ensures Shifted(decoded, max) == ANNOTATION_ERROR <==> decoded == ANNOTATION_ERROR && max == 1
  {
    if decoded == ANNOTATION_ERROR {
      ErrorIsRecognisedIff(max);
    } else {
      MulLe(0, decoded, max);
    }
  }

  /** The byte 1 is no annotation, whatever the settings; with two keys nobody notices. */
  lemma ErrorCanGoUnnoticed(radixMult: seq<uint32>)
    ensures Decoded([1], radixMult) == ANNOTATION_ERROR
    ensures Shifted(Decoded([1], radixMult), 2) != ANNOTATION_ERROR
  {
    ErrorIsRecognisedIff(2);
  }

  /** A decoded annotation has prongs exactly if it is below the last radix. */
  lemma HasProngIff(decoded: uint64, slot: nat, max: uint32, radix: uint32)
    requires slot < max && max * radix < TWO_32 && decoded * max + slot < TWO_64
    ensures CompoundId(slot, Shifted(decoded, max)) < CacheSize(max, radix) <==> decoded < radix
  {
    MulLe(0, decoded, max);
    MulLe(0, radix, max);
    NoWrap(decoded * max, slot, max * radix);
    MulCommutes(max, radix);
    if decoded < radix { MulLt(decoded, radix, max); } else { MulLe(radix, decoded, max); }
  }

  lemma NoWrap(x: int, slot: nat, size: int)
    requires 0 <= x && x + slot < TWO_64 && 0 <= size < TWO_32
    ensures (slot + x % TWO_64) % TWO_64 == x + slot && size % TWO_32 == size
  {
  }

  /** The decoder's range check lets a value through that its enum does not have: 59 for the third
      field, an enum of 4. The result is not below the last radix, so it has no prong. */
  lemma DecodedAnnotationCanLackProngs()
    ensures Radixes([2, 3, 4]) == [3, 12, 60]
    ensures Decoded([24, 59], [3, 12, 60]) == 708
    ensures CompoundId(0, Shifted(708, 2)) >= CacheSize(2, 60)
  {
    ExampleRadixes();
    TwoByteField();
  }

  lemma ExampleRadixes()
    ensures Radixes([2, 3, 4]) == [3, 12, 60]
  {
    var enumSizes: seq<uint32> := [2, 3, 4];
    assert RadixAt(enumSizes, 0) == 3 && RadixAt(enumSizes, 1) == 12 && RadixAt(enumSizes, 2) == 60;
    assert RadixPrefix(enumSizes, 3) == [3, 12, 60];
  }

  lemma TwoByteField()
    ensures Decoded([24, 59], [3, 12, 60]) == 708
  {
    OneByteField([24, 59], 0, 2, 59);
    NothingLeft([24, 59]);
    DecodedField([24, 59], 2, 59);
  }

  /** More often such a value is mistaken: 5 for the second field, an enum of 3, has the number of
      1 for the second and 1 for the third field, and a prong. What is recorded under it is uploaded
      under that other annotation. */
  lemma DecodedAnnotationCanBeAnother()
    ensures Radixes([2, 3, 4]) == [3, 12, 60]
    ensures Decoded([16, 5], [3, 12, 60]) == 15 == Decoded([16, 1, 24, 1], [3, 12, 60])
    ensures CompoundId(0, Shifted(15, 2)) < CacheSize(2, 60)
  {
    ExampleRadixes();
    OneByteField([16, 5], 0, 1, 5);
    NothingLeft([16, 5]);
    DecodedField([16, 5], 1, 5);
    var ser, r: seq<uint32> := [16, 1, 24, 1], [3, 12, 60];
    OneByteField(ser, 0, 1, 1);
    OneByteField(ser, 2, 2, 1);
    NothingLeft(ser);
    assert [Field(2, 1)] + [] == [Field(2, 1)];
    ParseStep(ser, 2, Field(2, 1), 4);
    ParseStep(ser, 0, Field(1, 1), 2);
    var fields := [Field(1, 1), Field(2, 1)];
    assert [Field(1, 1)] + [Field(2, 1)] == fields;
    assert fields[1..] == [Field(2, 1)] && fields[1..][1..] == [];
    assert AllInRange(fields, r) && SumOfFields(fields, r) == 15;
  }

  /** A field with a value of one byte. */
  lemma OneByteField(ser: seq<byte>, i: nat, key: nat, value: byte)
    requires i + 1 < |ser| && ser[i] == 8 * (key + 1) && ser[i + 1] == value < 128
    ensures FieldAt(ser, i) == FieldRead(Field(key, value), i + 2)
  {
    assert VarintEnd(ser, i + 1, MAX_BYTES) == Some(i + 1);
    var b := ser[i + 1..i + 2];
    assert b == [value] && b[1..] == [];
    assert Value(b) == value;
  }

  lemma NothingLeft(ser: seq<byte>)
    ensures ParseFrom(ser, |ser|) == Some([])
  {
  }

  lemma DecodedField(ser: seq<byte>, key: nat, value: byte)
    requires |ser| == 2 && FieldAt(ser, 0) == FieldRead(Field(key, value), 2) && ParseFrom(ser, 2) == Some([])
    requires FieldInRange(Field(key, value), [3, 12, 60])
    ensures Decoded(ser, [3, 12, 60]) == Term(Field(key, value), [3, 12, 60])
  {
    var fields := [Field(key, value)];
    assert [Field(key, value)] + [] == fields && fields[1..] == [];
    ParseStep(ser, 0, Field(key, value), 2);
    assert AllInRange(fields, [3, 12, 60]);
    MulLe(Weight([3, 12, 60], key), 12, value);
    MeaningOfFields(fields, [3, 12, 60], Term(Field(key, value), [3, 12, 60]));
  }

  // ---------------------------------------------------------------------- upload thread

  class UploadThread {
    var ready: ProngCache?

    constructor ()
      ensures ready == null
    {
      ready := null;
    }

    /** The body of Run's loop: the cache that is ready goes to the backend. */
    method UploadReady() returns (event: seq<ClearcutHistogram>)
      requires ready != null ==> ready.Valid()
      modifies this
      ensures ready == null
      ensures event == if old(ready) == null then [] else Event(old(ready.prongs))
      ensures TotalCounts(event) == if old(ready) == null then 0 else ReadoutSize(old(ready.cells))
    {
      event := [];
      if ready != null {
        event := WriteHistograms(ready.prongs);
        EventCountsEverySample(ready.prongs, ready.cells);
        ready := null;
      }
    }

    /** Whether the cache was submitted; not while a previous one is waiting to be uploaded. */
    method Submit(prongs: ProngCache) returns (submitted: bool)
      modifies this
      ensures submitted <==> old(ready) == null
      ensures ready == if submitted then prongs else old(ready)
    {
      if ready == null {
        ready := prongs;
        return true;
      } else {
        return false;
      }
    }
  }

  // ---------------------------------------------------------------------- TuningForkImpl

  class TuningForkImpl {
    const settings: Settings
    var histograms: seq<TFHistogram>
    var radixMult: seq<uint32>
    var ikeys: seq<InstrumentationKey>
    var nextIkey: nat
    var currentAnnotationId: uint64
    var cache0: ProngCache
    var cache1: ProngCache
    var current: ProngCache
    var liveTraces: seq<Option<int>>
    var lastSubmitTimeNs: int
    const uploadThread: UploadThread

    function MaxKeys(): uint32 { settings.maxInstrumentationKeys }

    /** The keys that have a slot. */
    ghost function Registered(): seq<InstrumentationKey>
      requires nextIkey <= |ikeys|
      reads `ikeys, `nextIkey
    {
      ikeys[..nextIkey]
    }

    ghost predicate TableValid()
      reads `ikeys, `nextIkey
    {
      |ikeys| == MaxKeys() && nextIkey <= MaxKeys() && Distinct(Registered())
    }

    /** A cache whose prongs carry the annotations their positions stand for. */
    ghost predicate CacheValid(c: ProngCache)
      reads `radixMult, c, c.histogramSet
    {
      && settings.IsUsable() && radixMult == Radixes(settings.annotationEnumSize) && AllPositive(radixMult)
      && c.Valid() && c.maxNumInstrumentationKeys == MaxKeys()
      && |c.prongs| == CacheSize(MaxKeys(), LastRadix(settings.annotationEnumSize))
      && forall i :: 0 <= i < |c.prongs| ==> c.prongs[i].annotation == SerializedFor(i, MaxKeys(), radixMult)
    }

    ghost predicate Valid()
      reads `ikeys, `nextIkey, `radixMult, `cache0, `cache1, `current, `liveTraces
      reads uploadThread, cache0, cache1, cache0.histogramSet, cache1.histogramSet
    {
      && TableValid() && CacheValid(cache0) && CacheValid(cache1)
      && cache0 != cache1 && cache0.prongSet !! cache1.prongSet && cache0.histogramSet !! cache1.histogramSet
      && (current == cache0 || current == cache1)
      && (uploadThread.ready == null || uploadThread.ready == OtherCache())
      && |liveTraces| == |cache0.prongs|
    }

    lemma CacheIsWellFormed(c: ProngCache)
      requires CacheValid(c)
      ensures c.Valid()
    {
    }

    lemma CacheIsSmall(c: ProngCache)
      requires CacheValid(c)
      ensures |c.prongs| < TWO_32
    {
    }

    lemma ValidParts()
      requires Valid()
      ensures current.Valid() && CacheValid(OtherCache()) && OtherCache() != current
      ensures OtherCache().histogramSet !! current.histogramSet
    {
    }

    twostate lemma RecordingKeepsValid()
      requires old(Valid()) && current.Valid() && CacheValid(OtherCache())
      requires unchanged(`ikeys, `nextIkey, `radixMult, `cache0, `cache1, `current, `liveTraces, uploadThread)
      requires unchanged(current`prongs, current`prongSet, current`histogramSet) && unchanged(OtherCache())
      ensures Valid()
    {
      CacheStays(current);
      hide CacheValid, CacheSize;
    }

    /** Recording and clearing leave the annotations alone. */
    twostate lemma CacheStays(c: ProngCache)
      requires old(CacheValid(c)) && c.Valid() && c.prongs == old(c.prongs) && radixMult == old(radixMult)
      ensures CacheValid(c)
    {
      hide SerializedFor, Prong.Valid, Radixes;
    }

    function OtherCache(): ProngCache
      reads `cache0, `cache1, `current
    {
      if current == cache0 then cache1 else cache0
    }

    constructor (settings: Settings, nowNs: int, sqrt: real -> real)
      requires settings.IsUsable() && IsSqrt(sqrt)
      ensures Valid() && this.settings == settings && Registered() == RegisterAll(NamedKeys(), MaxKeys())
      ensures current == cache0 && uploadThread.ready == null && currentAnnotationId == 0
      ensures lastSubmitTimeNs == nowNs && forall h :: 0 <= h < |liveTraces| ==> liveTraces[h] == None
      ensures IsSetUp(cache0) && IsSetUp(cache1) && settings.histograms <= histograms
      ensures fresh(uploadThread) && fresh(cache0) && fresh(cache1)
      ensures fresh(cache0.histogramSet) && fresh(cache1.histogramSet) && fresh(cache0.prongSet) && fresh(cache1.prongSet)
    {
      hide ProngCache.Valid, Prong.Valid, Prong.IsNewFor, IsSqrt, IsSetUp, CacheValid, NamedKeys, RegisterAll;
      this.settings := settings;
      histograms := settings.histograms;
      ikeys := seq(settings.maxInstrumentationKeys, _ => 0);
      nextIkey := 0;
      currentAnnotationId := 0;
      lastSubmitTimeNs := nowNs;
      liveTraces, radixMult := [], [];
      uploadThread := new UploadThread();
      // the source sets these three at the end of the constructor
      var none := new ProngCache(0, 0, [], _ => [], sqrt);
      cache0, cache1, current := none, none, none;
      new;
      assert TableValid();
      hide Valid, TableValid, Settings.IsUsable;
      Initialize(sqrt);
    }

    /** The rest of the constructor. */
    method Initialize(sqrt: real -> real)
      requires TableValid() && nextIkey == 0 && settings.IsUsable() && IsSqrt(sqrt)
      requires histograms == settings.histograms && uploadThread.ready == null
      modifies `histograms, `radixMult, `ikeys, `nextIkey, `cache0, `cache1, `current, `liveTraces
      ensures Valid() && IsSetUp(cache0) && IsSetUp(cache1) && current == cache0
      ensures forall h :: 0 <= h < |liveTraces| ==> liveTraces[h] == None
      ensures Registered() == RegisterAll(NamedKeys(), MaxKeys())
      ensures settings.histograms <= histograms
      ensures fresh(cache0) && fresh(cache1)
      ensures fresh(cache0.histogramSet) && fresh(cache1.histogramSet) && fresh(cache0.prongSet) && fresh(cache1.prongSet)
    {
      hide KeysOf, RegisterAll, CacheValid, IsSetUp, IsSqrt, Representable, TFHistogram.IsUsable, Prong.Valid;
      InitHistogramSettings();
      radixMult := SetUpAnnotationRadixes(settings.annotationEnumSize);
      RepresentableIsUsable(settings.annotationEnumSize);
      AllocateCaches(sqrt);
    }

    method AllocateCaches(sqrt: real -> real)
      requires TableValid() && settings.IsUsable() && IsSqrt(sqrt) && uploadThread.ready == null
      requires radixMult == Radixes(settings.annotationEnumSize) && AllPositive(radixMult)
      requires |histograms| >= MaxKeys() && forall i :: 0 <= i < |histograms| ==> histograms[i].IsUsable()
      modifies `cache0, `cache1, `current, `liveTraces
      ensures Valid() && IsSetUp(cache0) && IsSetUp(cache1) && current == cache0
      ensures forall h :: 0 <= h < |liveTraces| ==> liveTraces[h] == None
      ensures fresh(cache0) && fresh(cache1)
      ensures fresh(cache0.histogramSet) && fresh(cache1.histogramSet) && fresh(cache0.prongSet) && fresh(cache1.prongSet)
    {
      hide CacheSize, CacheValid, IsSetUp, TableValid, CacheSize, LastRadix, Radixes, IsSqrt;
      var c0 := NewCache(sqrt);
      var c1 := NewCache(sqrt);
      cache0, cache1, current := c0, c1, c0;
      liveTraces := seq(|c0.prongs|, _ => None);
    }

    /** Every prong's histogram is set up by the histogram setting of its slot. */
    ghost predicate IsSetUp(c: ProngCache)
      reads `histograms, c, c.histogramSet
    {
      1 <= MaxKeys() <= |histograms| && c.Valid() &&
      forall i :: 0 <= i < |c.prongs| ==> c.prongs[i].IsNew(histograms[KeyCounter(i, MaxKeys())])
    }

    method NewCache(sqrt: real -> real) returns (c: ProngCache)
      requires settings.IsUsable() && IsSqrt(sqrt)
      requires radixMult == Radixes(settings.annotationEnumSize) && AllPositive(radixMult)
      requires |histograms| >= MaxKeys() && forall i :: 0 <= i < |histograms| ==> histograms[i].IsUsable()
      ensures CacheValid(c) && IsSetUp(c)
      ensures |c.prongs| == CacheSize(MaxKeys(), LastRadix(settings.annotationEnumSize))
      ensures fresh(c) && fresh(c.prongSet) && fresh(c.histogramSet)
    {
      var maxKeys, radixes := settings.maxInstrumentationKeys, radixMult;
      var size := CacheSize(maxKeys, radixes[|radixes| - 1]);
      var serializeId := (id: nat) requires id < TWO_32 => SerializedFor(id, maxKeys, radixes);
      hide SerializedFor, Radixes, RadixAt, IsSqrt, HistogramModel.Histogram.Valid, Prong.IsNew, KeyCounter, TFHistogram.IsUsable;
      c := new ProngCache(size, maxKeys, histograms, serializeId, sqrt);
    }

    /** Missing histograms get a default; the keys of the others are registered in their order. */
    method InitHistogramSettings()
      requires TableValid() && nextIkey == 0 && settings.IsUsable() && histograms == settings.histograms
      modifies `histograms, `ikeys, `nextIkey
      ensures TableValid()
      ensures settings.histograms <= histograms && |histograms| == Max(|settings.histograms|, MaxKeys())
      ensures forall i :: |settings.histograms| <= i < |histograms| ==>
                histograms[i] == TFHistogram(-1, 10.0, 40.0, 30)
      ensures forall i :: 0 <= i < |histograms| ==> histograms[i].IsUsable()
      ensures Registered() == RegisterAll(NamedKeys(), MaxKeys())
    {
      var n := Min(|settings.histograms|, MaxKeys());
      var keys := KeysOf(settings.histograms);
      for i := 0 to MaxKeys()
        invariant TableValid()
        invariant settings.histograms <= histograms
        invariant |histograms| == Max(|settings.histograms|, i)
        invariant forall j :: |settings.histograms| <= j < |histograms| ==> histograms[j] == DEFAULT_HISTOGRAM
        invariant Registered() == RegisterAll(keys[..Min(n, i)], MaxKeys())
      {
        if |histograms| <= i {
          histograms := histograms + [DEFAULT_HISTOGRAM];
        } else {
          assert keys[..i + 1][..i] == keys[..i];
          var err, index := GetOrCreateInstrumentKeyIndex(ToKey(histograms[i].instrumentKey));
        }
      }
    }

    /** The slot of a key, registering it if it is new and there is room. */
    method GetOrCreateInstrumentKeyIndex(key: InstrumentationKey) returns (err: ErrorCode, index: nat)
      requires TableValid()
      modifies `ikeys, `nextIkey
      ensures TableValid() && Registered() == Register(old(Registered()), key, MaxKeys())
      ensures err == if key in Registered() then Ok else InvalidInstrumentKey
      ensures err == Ok ==> index < nextIkey && ikeys[index] == key
    {
      RegisterKeepsSlots(Registered(), key, MaxKeys());
      index := 0;
      for i := 0 to nextIkey
        invariant key !in ikeys[..i]
      {
        if ikeys[i] == key {
          return Ok, i;
        }
      }
      var next := nextIkey;
      nextIkey := nextIkey + 1;
      if next < |ikeys| {
        ikeys := ikeys[next := key];
        assert ikeys[..nextIkey] == old(ikeys[..nextIkey]) + [key];
        return Ok, next;
      } else {
        nextIkey := nextIkey - 1;
      }
      return InvalidInstrumentKey, 0;
    }

    /** The index of the prong of a key under an annotation. */
    method MakeCompoundId(key: InstrumentationKey, annotationId: uint64) returns (err: ErrorCode, id: uint64)
      requires TableValid()
      modifies `ikeys, `nextIkey
      ensures TableValid() && Registered() == Register(old(Registered()), key, MaxKeys())
      ensures err == if key in Registered() then Ok else InvalidInstrumentKey
      ensures err == Ok ==> id == CompoundId(SlotOf(Registered(), key), annotationId)
    {
      var index;
      err, index := GetOrCreateInstrumentKeyIndex(key);
      id := 0;
      if err != Ok {
        return;
      }
      assert Registered()[index] == key && Registered()[SlotOf(Registered(), key)] == key;
      id := CompoundId(index, annotationId);
    }

    // ----------------------------------------------------------------------- annotations

    /** The decoder's result, moved up to leave room for the keys. */
    method DecodeAnnotation(ser: seq<byte>) returns (id: uint64)
      ensures id == Shifted(Decoded(ser, radixMult), MaxKeys())
    {
      var decoded := DecodeAnnotationSerialization(ser, radixMult);
      id := Shifted(decoded, MaxKeys());
    }

    method SetCurrentAnnotation(ser: seq<byte>) returns (id: uint64)
      modifies `currentAnnotationId
      ensures id == Shifted(Decoded(ser, radixMult), MaxKeys())
      ensures currentAnnotationId == if id == ANNOTATION_ERROR then 0 else id
    {
      id := DecodeAnnotation(ser);
      if id == ANNOTATION_ERROR {
        currentAnnotationId := 0;
        return ANNOTATION_ERROR;
      } else {
        currentAnnotationId := id;
        return currentAnnotationId;
      }
    }

    // ------------------------------------------------------------------------- recording

    method TraceNanos(compoundId: uint64, dtNs: int) returns (p: Prong?)
      requires Valid()
      modifies current`cells, current.histogramSet
      ensures Valid() && p == current.Get(compoundId)
      ensures current.cells == Recorded(old(current.cells), compoundId, Millis(dtNs))
      ensures OtherCache().cells == old(OtherCache().cells)
    {
      ValidParts();
      hide Valid, OtherCache, CacheValid, ProngCache.Valid, ProngCache.LastTimes, ProngCache.CellsAfterTick, Recorded, Millis;
      p := current.Get(compoundId);
      current.TraceAt(compoundId, dtNs);
      RecordingKeepsValid();
    }

    method TickNanos(compoundId: uint64, tNs: int) returns (p: Prong?)
      requires Valid()
      modifies current`cells, current.histogramSet, current.prongSet`lastTimeNs
      ensures Valid() && p == current.Get(compoundId)
      ensures current.cells == old(current.CellsAfterTick(compoundId, tNs))
      ensures p != null ==> p.lastTimeNs == Some(tNs)
      ensures OtherCache().cells == old(OtherCache().cells)
    {
      ValidParts();
      hide Valid, OtherCache, CacheValid, ProngCache.Valid, ProngCache.LastTimes, ProngCache.CellsAfterTick, Recorded, Millis;
      p := current.Get(compoundId);
      current.TickAt(compoundId, tNs);
      RecordingKeepsValid();
    }

    // ------------------------------------------------------------------------ submitting

    /** There are few enough pairs for each to have a prong. */
    ghost predicate AllPairsFit() {
      0 < LastRadix(settings.annotationEnumSize) && MaxKeys() * LastRadix(settings.annotationEnumSize) < TWO_32
    }

    /** Every prong of the cache carries the key registered for its slot. */
    ghost predicate CarriesKeys(c: ProngCache)
      reads `ikeys, c, c.prongSet, c.histogramSet
    {
      1 <= MaxKeys() == |ikeys| && c.Valid() &&
      forall i :: 0 <= i < |c.prongs| ==> c.prongs[i].instrumentationKey == ikeys[ModNat(i, MaxKeys())]
    }

    method SetInstrumentKeys()
      requires Valid()
      modifies current.prongSet`instrumentationKey
      ensures Valid() && current.cells == old(current.cells)
      ensures OtherCache().cells == old(OtherCache().cells)
      ensures AllPairsFit() ==> CarriesKeys(current)
    {
      hide Prong.Valid, SerializedFor, Radixes, DivNat, ModNat, ProngCache.Valid;
      current.SetInstrumentKeys(ikeys);
      if AllPairsFit() {
        var size := |current.prongs|;
        PairsFill(MaxKeys(), LastRadix(settings.annotationEnumSize), size);
      }
    }

    /** Clears the other cache and makes it the current one. */
    method SwitchCaches()
      requires CacheValid(cache0) && CacheValid(cache1) && (current == cache0 || current == cache1) && cache0 != cache1
      requires cache0.histogramSet !! cache1.histogramSet
      modifies `current, OtherCache()`cells, OtherCache().histogramSet
      ensures CacheValid(cache0) && CacheValid(cache1) && current == old(OtherCache())
      ensures current.cells == AllCleared(old(OtherCache().cells))
      ensures OtherCache().cells == old(current.cells)
    {
      CacheIsWellFormed(cache0);
      CacheIsWellFormed(cache1);
      hide CacheSize, CacheValid, ProngCache.Valid, AllCleared;
      if current == cache0 {
        cache1.Clear();
        CacheStays(cache1);
        current := cache1;
      } else {
        cache0.Clear();
        CacheStays(cache0);
        current := cache0;
      }
    }

    /** What Flush does: it hands the current cache to the upload thread, unless that is busy. */
    twostate predicate Flushed(tNs: int, err: ErrorCode)
      requires old(Valid()) && Valid()
      reads this, uploadThread, cache0, cache1, cache0.prongSet, cache1.prongSet, cache0.histogramSet, cache1.histogramSet
    {
      && lastSubmitTimeNs == tNs
      && err == (if old(uploadThread.ready) == null then Ok else PreviousUploadPending)
      && cache0 == old(cache0) && cache1 == old(cache1)
      && (AllPairsFit() ==> CarriesKeys(old(current)))
      && old(current).cells == old(current.cells)
      && if err == Ok then
           && current == old(OtherCache()) && uploadThread.ready == old(current)
           && current.cells == AllCleared(old(OtherCache().cells))
         else
           && current == old(current) && uploadThread.ready == old(uploadThread.ready)
           && OtherCache().cells == old(OtherCache().cells)
    }

    method FlushAt(tNs: int) returns (err: ErrorCode)
      requires Valid()
      modifies `current, `lastSubmitTimeNs, uploadThread, current.prongSet`instrumentationKey
      modifies OtherCache()`cells, OtherCache().histogramSet
      ensures Valid() && Flushed(tNs, err)
    {
      hide CacheSize, Millis, CacheValid, TableValid, ProngCache.Valid, AllPairsFit, CarriesKeys, AllCleared;
      SetInstrumentKeys();
      err := SubmitCurrent(tNs);
    }

    /** The rest of Flush, once the keys are set. */
    method SubmitCurrent(tNs: int) returns (err: ErrorCode)
      requires Valid()
      modifies `current, `lastSubmitTimeNs, uploadThread, OtherCache()`cells, OtherCache().histogramSet
      ensures Valid() && lastSubmitTimeNs == tNs
      ensures old(CarriesKeys(current)) ==> CarriesKeys(old(current))
      ensures err == if old(uploadThread.ready) == null then Ok else PreviousUploadPending
      ensures old(current).cells == old(current.cells)
      ensures err == Ok ==>
                && current == old(OtherCache()) && uploadThread.ready == old(current)
                && current.cells == AllCleared(old(OtherCache().cells))
      ensures err != Ok ==>
                && current == old(current) && uploadThread.ready == old(uploadThread.ready)
                && OtherCache().cells == old(OtherCache().cells)
    {
      hide CacheSize, Millis, CacheValid, TableValid, ProngCache.Valid, AllCleared, CarriesKeys;
      var submitted := uploadThread.Submit(current);
      if submitted {
        SwitchCaches();
        err := Ok;
      } else {
        err := PreviousUploadPending;
      }
      lastSubmitTimeNs := tNs;
    }

    /** Flush, called by the app: at most once a minute. */
    method Flush(nowNs: int) returns (err: ErrorCode)
      requires Valid()
      modifies `current, `lastSubmitTimeNs, uploadThread, current.prongSet`instrumentationKey
      modifies OtherCache()`cells, OtherCache().histogramSet
      ensures Valid()
      ensures if nowNs - old(lastSubmitTimeNs) > 60_000_000_000 then Flushed(nowNs, err)
              else err == UploadTooFrequent && Unchanged()
    {
      hide CacheSize, Millis, CacheValid, TableValid, ProngCache.Valid, Flushed;
      if nowNs - lastSubmitTimeNs > 60 * NANOS_PER_SECOND {
        err := FlushAt(nowNs);
      } else {
        err := UploadTooFrequent;
      }
    }

    /** Neither the caches' samples nor what they are used for have changed. */
    twostate predicate Unchanged()
      requires old(Valid()) && Valid()
      reads this, uploadThread, cache0, cache1, cache0.prongSet, cache1.prongSet, cache0.histogramSet, cache1.histogramSet
    {
      && lastSubmitTimeNs == old(lastSubmitTimeNs) && uploadThread.ready == old(uploadThread.ready)
      && cache0 == old(cache0) && cache1 == old(cache1) && current == old(current)
      && current.cells == old(current.cells) && OtherCache().cells == old(OtherCache().cells)
    }

    /** Whether it is time to submit, after something was recorded in this prong. */
    predicate ShouldSubmit(tNs: int, prong: Prong)
      reads `lastSubmitTimeNs, prong.histogram
    {
      match settings.submission
      case TimeBased => tNs - lastSubmitTimeNs >= settings.intervalMsOrCount * NANOS_PER_MS
      case TickBased => prong.Count() >= settings.intervalMsOrCount
    }

    method CheckForSubmit(tNs: int, prong: Prong) returns (err: ErrorCode)
      requires Valid()
      modifies `current, `lastSubmitTimeNs, uploadThread, current.prongSet`instrumentationKey
      modifies OtherCache()`cells, OtherCache().histogramSet
      ensures Valid()
      ensures if old(ShouldSubmit(tNs, prong)) then Flushed(tNs, err) else err == Ok && Unchanged()
    {
      hide CacheSize, Millis, CacheValid, TableValid, ProngCache.Valid, Flushed;
      err := Ok;
      if ShouldSubmit(tNs, prong) {
        err := FlushAt(tNs);
      }
    }

    // ------------------------------------------------------------------------- frame times

    /** ShouldSubmit in terms of a prong's cell. */
    predicate IsDue(cell: Cell, elapsedNs: int) {
      match settings.submission
      case TimeBased => elapsedNs >= settings.intervalMsOrCount * NANOS_PER_MS
      case TickBased => (if cell.IsCounted() then |cell.samples| else 0) >= settings.intervalMsOrCount
    }

    /** By time, an upload is due from the interval on; by ticks, with the sample that makes the
        prong count as many as the setting says, and not while it looks for its range. */
    lemma DueByTimeOrCount(cell: Cell, x: real, ms: int, ns: int)
      requires cell.Valid() && 0 <= ns < 1_000_000
      ensures settings.submission == TimeBased ==>
                (IsDue(cell, ms * 1_000_000 + ns) <==> ms >= settings.intervalMsOrCount)
      ensures settings.submission == TickBased && settings.intervalMsOrCount > 0 ==>
                (IsDue(cell.WithSample(x), ns) <==>
                   |cell.samples| + 1 >= cell.need && |cell.samples| + 1 >= settings.intervalMsOrCount)
    {
    }

    /** The cache that was current now holds `cells`; if that makes an upload due, it was flushed. */
    twostate predicate SubmittedIfDue(cells: seq<Cell>, id: uint64, tNs: int)
      requires old(Valid()) && Valid()
      reads this, uploadThread, cache0, cache1, cache0.prongSet, cache1.prongSet, cache0.histogramSet, cache1.histogramSet
    {
      var due := id < |cells| && IsDue(cells[id], tNs - old(lastSubmitTimeNs));
      && cache0 == old(cache0) && cache1 == old(cache1) && old(current).cells == cells
      && lastSubmitTimeNs == (if due then tNs else old(lastSubmitTimeNs))
      && if due && old(uploadThread.ready) == null then
           && current == old(OtherCache()) && uploadThread.ready == old(current)
           && current.cells == AllCleared(old(OtherCache().cells))
         else
           && current == old(current) && uploadThread.ready == old(uploadThread.ready)
           && OtherCache().cells == old(OtherCache().cells)
    }

    lemma DueIfShouldSubmit(id: uint64, tNs: int)
      requires Valid() && id < |current.prongs|
      ensures |current.cells| == |current.prongs|
      ensures ShouldSubmit(tNs, current.prongs[id]) <==> IsDue(current.cells[id], tNs - lastSubmitTimeNs)
    {
      current.prongs[id].CountIsCounted();
    }

    /** MakeCompoundId for the current annotation leaves the caches alone. */
    method CurrentCompoundId(key: InstrumentationKey) returns (err: ErrorCode, id: uint64)
      requires Valid()
      modifies `ikeys, `nextIkey
      ensures Valid() && Unchanged() && Registered() == Register(old(Registered()), key, MaxKeys())
      ensures err == if key in Registered() then Ok else InvalidInstrumentKey
      ensures err == Ok ==> id == CompoundId(SlotOf(Registered(), key), currentAnnotationId)
    {
      hide CacheSize, CacheValid, ProngCache.Valid;
      err, id := MakeCompoundId(key, currentAnnotationId);
    }

    /** CheckForSubmit, if there is a prong. */
    method SubmitIfDue(id: uint64, tNs: int, p: Prong?)
      requires Valid() && p == current.Get(id)
      modifies `current, `lastSubmitTimeNs, uploadThread, current.prongSet`instrumentationKey
      modifies OtherCache()`cells, OtherCache().histogramSet
      ensures Valid() && SubmittedIfDue(old(current.cells), id, tNs)
    {
      if id < |current.prongs| { DueIfShouldSubmit(id, tNs); } else { assert |current.cells| == |current.prongs|; }
      hide CacheSize, Millis, CacheValid, TableValid, ProngCache.Valid, AllCleared, ShouldSubmit, IsDue;
      if p != null {
        var _ := CheckForSubmit(tNs, p);
      }
    }

    method TraceAndSubmit(id: uint64, dtNs: int, tNs: int)
      requires Valid()
      modifies `current, `lastSubmitTimeNs, uploadThread
      modifies current.prongSet`instrumentationKey, current`cells, current.histogramSet
      modifies OtherCache()`cells, OtherCache().histogramSet
      ensures Valid() && SubmittedIfDue(Recorded(old(current.cells), id, Millis(dtNs)), id, tNs)
    {
      hide CacheSize, Millis, CacheValid, TableValid, ProngCache.Valid, AllCleared, IsDue, Recorded;
      var p := TraceNanos(id, dtNs);
      SubmitIfDue(id, tNs, p);
    }

    method TickAndSubmit(id: uint64, tNs: int)
      requires Valid()
      modifies `current, `lastSubmitTimeNs, uploadThread
      modifies current.prongSet`lastTimeNs
      modifies current.prongSet`instrumentationKey, current`cells, current.histogramSet
      modifies OtherCache()`cells, OtherCache().histogramSet
      ensures Valid() && SubmittedIfDue(old(current.CellsAfterTick(id, tNs)), id, tNs)
      ensures old(current.Get(id)) != null ==> old(current.Get(id)).lastTimeNs == Some(tNs)
    {
      hide CacheSize, Millis, CacheValid, TableValid, ProngCache.Valid, ProngCache.CellsAfterTick, AllCleared, IsDue;
      var p := TickNanos(id, tNs);
      SubmitIfDue(id, tNs, p);
    }

    /** Records a duration for the current annotation and a key. */
    method FrameDeltaTimeNanos(key: InstrumentationKey, dtNs: int, nowNs: int) returns (err: ErrorCode)
      requires Valid()
      modifies `ikeys, `nextIkey, `current, `lastSubmitTimeNs, uploadThread
      modifies current.prongSet`instrumentationKey, current`cells, current.histogramSet
      modifies OtherCache()`cells, OtherCache().histogramSet
      ensures Valid() && Registered() == Register(old(Registered()), key, MaxKeys())
      ensures err == if key in Registered() then Ok else InvalidInstrumentKey
      ensures err != Ok ==> Unchanged()
      ensures err == Ok ==>
                var id := CompoundId(SlotOf(Registered(), key), currentAnnotationId);
                SubmittedIfDue(Recorded(old(current.cells), id, Millis(dtNs)), id, nowNs)
    {
      hide CacheSize, Millis, CacheValid, TableValid, ProngCache.Valid, AllCleared, IsDue, Recorded;
      var id;
      err, id := CurrentCompoundId(key);
      if err != Ok {
        return;
      }
      TraceAndSubmit(id, dtNs, nowNs);
    }

    /** Records the time since the last tick for the current annotation and a key. */
    method FrameTick(key: InstrumentationKey, nowNs: int) returns (err: ErrorCode)
      requires Valid()
      modifies `ikeys, `nextIkey, `current, `lastSubmitTimeNs, uploadThread
      modifies current.prongSet`lastTimeNs
      modifies current.prongSet`instrumentationKey, current`cells, current.histogramSet
      modifies OtherCache()`cells, OtherCache().histogramSet
      ensures Valid() && Registered() == Register(old(Registered()), key, MaxKeys())
      ensures err == if key in Registered() then Ok else InvalidInstrumentKey
      ensures err != Ok ==> Unchanged()
      ensures err == Ok ==>
                var id := CompoundId(SlotOf(Registered(), key), currentAnnotationId);
                && SubmittedIfDue(old(current.CellsAfterTick(id, nowNs)), id, nowNs)
                && (old(current).Get(id) != null ==> old(current).Get(id).lastTimeNs == Some(nowNs))
    {
      hide CacheSize, Millis, CacheValid, TableValid, ProngCache.Valid, ProngCache.CellsAfterTick, AllCleared, IsDue;
      var id;
      err, id := CurrentCompoundId(key);
      if err != Ok {
        return;
      }
      TickAndSubmit(id, nowNs);
    }

    /** Starts a trace; its handle is the compound id. The source stores the start without looking
        at the handle; `stored` says whether there is a place for it. Without one nothing of this
        state changes, and what C++ does then is not modelled. */
    method StartTrace(key: InstrumentationKey, nowNs: int) returns (err: ErrorCode, handle: uint64, stored: bool)
      requires Valid()
      modifies `ikeys, `nextIkey, `liveTraces
      ensures Valid() && Unchanged() && Registered() == Register(old(Registered()), key, MaxKeys())
      ensures err == if key in Registered() then Ok else InvalidInstrumentKey
      ensures err == Ok ==> handle == CompoundId(SlotOf(Registered(), key), currentAnnotationId)
      ensures stored <==> err == Ok && current.Get(handle) != null
      ensures stored ==> handle < |liveTraces| && liveTraces == old(liveTraces)[handle := Some(nowNs)]
      ensures !stored ==> liveTraces == old(liveTraces) && (err == Ok ==> handle >= |liveTraces|)
    {
      SameSizes();
      hide CacheSize, CacheValid, ProngCache.Valid, AllCleared;
      stored := false;
      err, handle := CurrentCompoundId(key);
      if err != Ok {
        return;
      }
      if handle < |liveTraces| {
        stored := true;
        SetLiveTrace(handle, Some(nowNs));
      }
    }

    lemma SameSizes()
      requires Valid()
      ensures |cache0.prongs| == |cache1.prongs| == |liveTraces|
    {
    }

    method SetLiveTrace(h: uint64, start: Option<int>)
      requires Valid() && h < |liveTraces|
      modifies `liveTraces
      ensures Valid() && Unchanged() && liveTraces == old(liveTraces)[h := start]
    {
      hide CacheSize, Millis, CacheValid, TableValid, ProngCache.Valid;
      liveTraces := liveTraces[h := start];
    }

    /** Ends a trace: its duration is recorded under its handle, once. */
    method EndTrace(h: uint64, nowNs: int) returns (err: ErrorCode)
      requires Valid()
      modifies `liveTraces, current`cells, current.histogramSet
      ensures Valid()
      ensures err == if h < |old(liveTraces)| && old(liveTraces)[h].Some? then Ok else InvalidTraceHandle
      ensures OtherCache().cells == old(OtherCache().cells)
      ensures err != Ok ==> liveTraces == old(liveTraces) && current.cells == old(current.cells)
      ensures err == Ok ==>
                && liveTraces == old(liveTraces)[h := None]
                && current.cells == Recorded(old(current.cells), h, Millis(nowNs - old(liveTraces)[h].value))
    {
      hide CacheSize, CacheValid, TableValid, ProngCache.Valid, Recorded, Valid, Millis;
      if h >= |liveTraces| {
        return InvalidTraceHandle;
      }
      var i := liveTraces[h];
      if i != None {
        var _ := TraceNanos(h, nowNs - i.value);
        SetLiveTrace(h, None);
        return Ok;
      } else {
        return InvalidTraceHandle;
      }
    }

    // ------------------------------------------------- which prong a pair's samples go to

    /** A pair of an annotation id and a slot has a prong in either cache. It carries the
        annotation and, once the keys are set, the key registered at that slot. */
    lemma PairHasItsProng(c: ProngCache, a: nat, k: nat)
      requires Valid() && AllPairsFit() && (c == cache0 || c == cache1)
      requires a < LastRadix(settings.annotationEnumSize) && k < MaxKeys()
      ensures PairId(a, k, MaxKeys()) < |c.prongs|
      ensures c.Get(PairId(a, k, MaxKeys())) != null
      ensures var p := c.Get(PairId(a, k, MaxKeys()));
              && p.annotation == Serialized(a, radixMult)
              && (CarriesKeys(c) ==> p.instrumentationKey == ikeys[k])
    {
      var id := PairId(a, k, MaxKeys());
      AllPairsHaveProngsIff(MaxKeys(), LastRadix(settings.annotationEnumSize));
      PairOfId(a, k, MaxKeys());
      assert c.prongs[id].annotation == SerializedFor(id, MaxKeys(), radixMult);
    }

    /** Different pairs have different prongs. */
    lemma PairsHaveTheirOwnProngs(c: ProngCache, a: nat, k: nat, a': nat, k': nat)
      requires Valid() && AllPairsFit() && (c == cache0 || c == cache1)
      requires a < LastRadix(settings.annotationEnumSize) && k < MaxKeys()
      requires a' < LastRadix(settings.annotationEnumSize) && k' < MaxKeys() && (a, k) != (a', k')
      ensures PairId(a, k, MaxKeys()) < |c.prongs| && PairId(a', k', MaxKeys()) < |c.prongs|
      ensures c.Get(PairId(a, k, MaxKeys())) != c.Get(PairId(a', k', MaxKeys()))
    {
      PairHasItsProng(c, a, k);
      PairHasItsProng(c, a', k');
      PairOfId(a, k, MaxKeys());
      PairOfId(a', k', MaxKeys());
      CacheIsWellFormed(c);
      c.DifferentProngs(PairId(a, k, MaxKeys()), PairId(a', k', MaxKeys()));
    }

    /** In a new cache the prongs of slot `k` have the histogram setting at position `k`. */
    lemma SlotHasItsSetting(c: ProngCache, a: nat, k: nat)
      requires Valid() && AllPairsFit() && IsSetUp(c) && (c == cache0 || c == cache1) && MaxKeys() <= KEY_COUNT
      requires a < LastRadix(settings.annotationEnumSize) && k < MaxKeys()
      ensures PairId(a, k, MaxKeys()) < |c.prongs|
      ensures c.Get(PairId(a, k, MaxKeys())) != null && c.Get(PairId(a, k, MaxKeys())).IsNew(histograms[k])
    {
      PairHasItsProng(c, a, k);
      CounterIsSlotIff(MaxKeys(), LastRadix(settings.annotationEnumSize));
      assert KeyCounter(PairId(a, k, MaxKeys()), MaxKeys()) == k;
    }

    /** How many of the histogram settings name keys that are registered at the start. */
    function NamedSettings(): nat { Min(|settings.histograms|, MaxKeys()) }

    function NamedKeys(): (keys: seq<InstrumentationKey>)
      ensures |keys| == NamedSettings()
    {
      KeysOf(settings.histograms)[..NamedSettings()]
    }

    /** The slot of the key that setting `j` names. */
    ghost function SettingSlot(j: nat): (slot: nat)
      requires j < NamedSettings()
      ensures slot < NamedSettings()
    {
      EachRequestGetsItsSlotIff(NamedKeys(), MaxKeys());
      RequestsAreRegistered(NamedKeys(), MaxKeys(), j);
      SlotOf(RegisterAll(NamedKeys(), MaxKeys()), NamedKeys()[j])
    }

    /** All prongs of the key that setting `j` names are set up by setting `j`. */
    ghost predicate SettingReachesItsKey(c: ProngCache, j: nat)
      requires j < NamedSettings()
      reads c, c.histogramSet
    {
      c.Valid() && forall a: nat :: a < LastRadix(settings.annotationEnumSize) ==>
        var id := PairId(a, SettingSlot(j), MaxKeys());
        id < |c.prongs| && c.prongs[id].IsNew(settings.histograms[j])
    }

    /** In a new cache every histogram setting reaches the key it names if and only if it asks for
        the same buckets as the settings that the key counter picks for the prongs of that key. */
    lemma SettingsReachTheirKeysIff(c: ProngCache)
      requires Valid() && AllPairsFit() && IsSetUp(c) && (c == cache0 || c == cache1)
      ensures (forall j: nat :: j < NamedSettings() ==> SettingReachesItsKey(c, j))
              <==> forall j: nat :: j < NamedSettings() ==> CounterPicksSame(j)
    {
      forall j: nat | j < NamedSettings() ensures SettingReachesItsKey(c, j) <==> CounterPicksSame(j) {
        OneSettingReachesItsKeyIff(c, j);
      }
    }

    /** The key counter at the prongs of setting `j`'s key. */
    ghost predicate CounterPicksSame(j: nat)
      requires j < NamedSettings() && MaxKeys() >= 1
      reads `histograms
    {
      forall a: nat :: a < LastRadix(settings.annotationEnumSize) ==>
        var picked := KeyCounter(PairId(a, SettingSlot(j), MaxKeys()), MaxKeys());
        picked < |histograms| && SameBuckets(histograms[picked], settings.histograms[j])
    }

    lemma OneSettingReachesItsKeyIff(c: ProngCache, j: nat)
      requires Valid() && AllPairsFit() && IsSetUp(c) && (c == cache0 || c == cache1) && j < NamedSettings()
      ensures SettingReachesItsKey(c, j) <==> CounterPicksSame(j)
    {
      var slot := SettingSlot(j);
      forall a: nat | a < LastRadix(settings.annotationEnumSize)
        ensures var id := PairId(a, slot, MaxKeys());
                && id < |c.prongs| && KeyCounter(id, MaxKeys()) < |histograms|
                && c.prongs[id].IsNew(histograms[KeyCounter(id, MaxKeys())])
      {
        PairHasItsProng(c, a, slot);
      }
    }

    /** Up to 65536 keys these are all the setting at the position of the key's slot. */
    lemma SlotsPickSettings(j: nat)
      requires MaxKeys() >= 1 && j < NamedSettings() && MaxKeys() <= KEY_COUNT
      requires settings.histograms <= histograms && LastRadix(settings.annotationEnumSize) > 0
      ensures CounterPicksSame(j) <==> SameBuckets(settings.histograms[SettingSlot(j)], settings.histograms[j])
    {
      var slot := SettingSlot(j);
      CounterIsSlotIff(MaxKeys(), LastRadix(settings.annotationEnumSize));
      forall a: nat | a < LastRadix(settings.annotationEnumSize)
        ensures KeyCounter(PairId(a, slot, MaxKeys()), MaxKeys()) == slot
      {
      }
      var first := PairId(0, slot, MaxKeys());
    }

    /** If the keys differ from one another every setting reaches its key. */
    lemma DistinctKeysGetTheirSettings(c: ProngCache, j: nat)
      requires Valid() && AllPairsFit() && IsSetUp(c) && (c == cache0 || c == cache1) && MaxKeys() <= KEY_COUNT
      requires settings.histograms <= histograms && j < NamedSettings() && Distinct(NamedKeys())
      ensures SettingSlot(j) == j && SettingReachesItsKey(c, j)
    {
      EachRequestGetsItsSlotIff(NamedKeys(), MaxKeys());
      OneSettingReachesItsKeyIff(c, j);
      SlotsPickSettings(j);
    }

    /** Under an annotation of the settings a registered key finds the prong of its pair. */
    lemma CompoundIdIsPairId(decoded: uint64, slot: nat)
      requires Valid() && AllPairsFit()
      requires decoded < LastRadix(settings.annotationEnumSize) && slot < MaxKeys()
      ensures CompoundId(slot, Shifted(decoded, MaxKeys())) == PairId(decoded, slot, MaxKeys())
    {
      AllPairsHaveProngsIff(MaxKeys(), LastRadix(settings.annotationEnumSize));
      CacheIsSmallEnough(MaxKeys(), LastRadix(settings.annotationEnumSize));
      var id := PairId(decoded, slot, MaxKeys());
      hide CacheSize, LastRadix, CompoundId, Shifted;
      assert id < CacheSize(MaxKeys(), LastRadix(settings.annotationEnumSize));
      SmallIdsDoNotWrap(decoded, slot, MaxKeys(), id);
    }

    /** After an annotation that does not decode, and with more than one key, no tick or duration is
        recorded under any key, although the error was not reported; nor is there a place for the
        start of a trace. */
    lemma BadAnnotationFindsNoProng(slot: nat)
      requires Valid() && slot < MaxKeys() && MaxKeys() > 1
      requires currentAnnotationId == Shifted(ANNOTATION_ERROR, MaxKeys())
      ensures currentAnnotationId != ANNOTATION_ERROR
      ensures current.Get(CompoundId(slot, currentAnnotationId)) == null
      ensures CompoundId(slot, currentAnnotationId) >= |liveTraces|
    {
      ErrorIsRecognisedIff(MaxKeys());
      CacheIsSmall(current);
      SameSizes();
      hide CacheSize, Shifted, CacheValid;
      assert CompoundId(slot, currentAnnotationId) == TWO_64 - MaxKeys() + slot;
    }
  }

  lemma PairsFill(max: uint32, radix: uint32, size: nat)
    requires max >= 1 && max * radix < TWO_32 && size == CacheSize(max, radix)
    ensures forall i :: 0 <= i < size ==> DivNat(i, max) < DivNat(size, max)
  {
    MulCommutes(max, radix);
    assert size == max * radix;
    ModUnique(size, max, radix, 0);
    forall i | 0 <= i < size ensures DivNat(i, max) < DivNat(size, max) {
      if DivNat(i, max) >= radix { MulLe(radix, DivNat(i, max), max); }
    }
  }
}
