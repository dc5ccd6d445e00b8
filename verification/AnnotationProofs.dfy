/** What the annotation codec is for: annotations and ids stand for each other. */
module AnnotationProofs {
  import opened CInt
  import opened Wrappers
  import opened Varint
  import opened AnnotationCodec

  /** A key byte has room for field numbers up to 31. */
  const MAX_FIELDS: nat := 31

  // --------------------------------------------------------------- the radixes

  /** An enum field has its values, and may be missing. */
  function Options(enumSize: uint32): nat { enumSize + 1 }

  /** The number of annotations of the first `n` fields. */
  function Product(enumSizes: seq<uint32>, n: nat): (p: nat)
    requires n <= |enumSizes|
    ensures p > 0
  {
    if n == 0 then 1 else Product(enumSizes, n - 1) * Options(enumSizes[n - 1])
  }

  /** Settings the source can represent: the product is kept in an int, and field numbers fit. */
  ghost predicate Representable(enumSizes: seq<uint32>) {
    |enumSizes| <= MAX_FIELDS && Product(enumSizes, |enumSizes|) < 0x8000_0000
  }

  lemma {:induction false} ProductMonotone(enumSizes: seq<uint32>, m: nat, n: nat)
    requires m <= n <= |enumSizes|
    ensures Product(enumSizes, m) <= Product(enumSizes, n)
    decreases n
  {
    if m < n {
      ProductMonotone(enumSizes, m, n - 1);
      MulLe(1, Options(enumSizes[n - 1]), Product(enumSizes, n - 1));
    }
  }

  lemma FactorFits(r: nat, e: uint32)
    requires r > 0 && r * Options(e) < TWO_32
    ensures r < TWO_32 && NextRadix(r, e) == r * Options(e)
  {
    MulLe(1, r, Options(e));
    MulLe(1, Options(e), r);
    assert Options(e) % TWO_32 == Options(e);
  }

  /** Without overflow the radixes are the products, and `Weight` is the product before a field. */
  lemma {:induction false} RadixIsProduct(enumSizes: seq<uint32>, i: nat)
    requires Representable(enumSizes) && i < |enumSizes|
    ensures RadixAt(enumSizes, i) == Product(enumSizes, i + 1)
  {
    ProductMonotone(enumSizes, i + 1, |enumSizes|);
    if i > 0 { RadixIsProduct(enumSizes, i - 1); }
    assert Product(enumSizes, i + 1) == Product(enumSizes, i) * Options(enumSizes[i]);
    FactorFits(Product(enumSizes, i), enumSizes[i]);
    assert Product(enumSizes, 0) == 1;
  }

  lemma WeightIsProduct(enumSizes: seq<uint32>, i: nat)
    requires Representable(enumSizes) && i <= |enumSizes|
    ensures i <= |Radixes(enumSizes)| && Weight(Radixes(enumSizes), i) == Product(enumSizes, i)
  {
    if i > 0 { RadixIsProduct(enumSizes, i - 1); }
  }

  // ---------------------------------------------------- annotations as mixed-radix numbers

  /** A value for every field, 0 where the field is missing. */
  ghost predicate IsAnnotation(v: seq<nat>, enumSizes: seq<uint32>) {
    |v| == |enumSizes| && forall i :: 0 <= i < |v| ==> v[i] <= enumSizes[i]
  }

  /** The number the first `n` digits stand for. */
  function MixedRadix(v: seq<nat>, enumSizes: seq<uint32>, n: nat): nat
    requires |v| == |enumSizes| && n <= |v|
  {
    if n == 0 then 0 else MixedRadix(v, enumSizes, n - 1) + v[n - 1] * Product(enumSizes, n - 1)
  }

  lemma {:induction false} MixedRadixBound(v: seq<nat>, enumSizes: seq<uint32>, n: nat)
    requires IsAnnotation(v, enumSizes) && n <= |v|
    ensures MixedRadix(v, enumSizes, n) < Product(enumSizes, n)
  {
    if n > 0 {
      MixedRadixBound(v, enumSizes, n - 1);
      DigitBound(MixedRadix(v, enumSizes, n - 1), v[n - 1], Product(enumSizes, n - 1), enumSizes[n - 1]);
    }
  }

  lemma DigitBound(low: nat, digit: nat, p: nat, e: nat)
    requires low < p && digit <= e
    ensures low + digit * p < p * (e + 1)
  {
    MulLe(digit, e, p);
    assert p * (e + 1) == e * p + p;
  }

  lemma SameDigits(a: nat, x: nat, b: nat, y: nat, p: nat)
    requires a < p && b < p && a + x * p == b + y * p
    ensures x == y && a == b
  {
    if x < y { MulLt(x, y, p); } else if y < x { MulLt(y, x, p); }
  }

  /** Different annotations have different numbers. */
  lemma {:induction false} MixedRadixInjective(v: seq<nat>, w: seq<nat>, enumSizes: seq<uint32>, n: nat)
    requires IsAnnotation(v, enumSizes) && IsAnnotation(w, enumSizes) && n <= |v|
    requires MixedRadix(v, enumSizes, n) == MixedRadix(w, enumSizes, n)
    ensures v[..n] == w[..n]
  {
    if n > 0 {
      MixedRadixBound(v, enumSizes, n - 1);
      MixedRadixBound(w, enumSizes, n - 1);
      SameDigits(MixedRadix(v, enumSizes, n - 1), v[n - 1], MixedRadix(w, enumSizes, n - 1), w[n - 1],
                 Product(enumSizes, n - 1));
      MixedRadixInjective(v, w, enumSizes, n - 1);
      assert v[..n] == v[..n - 1] + [v[n - 1]] && w[..n] == w[..n - 1] + [w[n - 1]];
    }
  }

  /** Setting a missing field adds its term. */
  lemma {:induction false} SetDigit(v: seq<nat>, enumSizes: seq<uint32>, key: nat, x: nat, n: nat)
    requires |v| == |enumSizes| && key < |v| && v[key] == 0 && n <= |v|
    ensures MixedRadix(v[key := x], enumSizes, n)
            == MixedRadix(v, enumSizes, n) + if key < n then x * Product(enumSizes, key) else 0
  {
    if n > 0 { SetDigit(v, enumSizes, key, x, n - 1); }
  }

  lemma {:induction false} ZerosAreZero(enumSizes: seq<uint32>, n: nat)
    requires n <= |enumSizes|
    ensures MixedRadix(seq(|enumSizes|, _ => 0), enumSizes, n) == 0
  {
    if n > 0 { ZerosAreZero(enumSizes, n - 1); }
  }

  // ---------------------------------------------------------------- byte strings

  /** A field as it stands in a byte string: a varint of up to nine bytes, padded or not. */
  datatype Entry = Entry(key: nat, varint: seq<byte>) {
    ghost predicate WellFormed() {
      key < MAX_FIELDS && IsVarint(varint) && |varint| <= MAX_BYTES
    }

    function ToField(): Field { Field(key, Value(varint)) }
  }

  function BytesOf(entries: seq<Entry>): seq<byte> {
    if entries == [] then [] else FieldBytes(entries[0].key, entries[0].varint) + BytesOf(entries[1..])
  }

  function FieldsOf(entries: seq<Entry>): seq<Field> {
    if entries == [] then [] else [entries[0].ToField()] + FieldsOf(entries[1..])
  }

  lemma EntryIsRead(prefix: seq<byte>, e: Entry, suffix: seq<byte>)
    requires e.WellFormed()
    ensures FieldAt(prefix + FieldBytes(e.key, e.varint) + suffix, |prefix|)
            == FieldRead(e.ToField(), |prefix| + 1 + |e.varint|)
  {
    var b := FieldBytes(e.key, e.varint);
    var ser := prefix + b + suffix;
    assert ser[|prefix|] == b[0] == (e.key + 1) * 8;
    Reassociate(prefix, [b[0]], e.varint);
    MiddleOf(prefix + [b[0]], e.varint, suffix);
    assert ser == prefix + [b[0]] + e.varint + suffix;
    ReadsVarint(ser, |prefix| + 1, e.varint);
  }

  /** What no field begins with: a byte that is not the key of a varint field, or one that no varint
      of up to nine bytes follows. */
  ghost predicate Malformed(tail: seq<byte>) {
    && tail != []
    && (tail[0] % 8 != 0 || tail[0] < 8 || forall i :: 1 <= i < |tail| && i <= 9 ==> tail[i] >= 128)
  }

  lemma {:induction false} NoVarintEnd(bytes: seq<byte>, index: nat, budget: nat)
    requires forall i :: index <= i < |bytes| && i < index + budget ==> bytes[i] >= 128
    ensures VarintEnd(bytes, index, budget).None?
    decreases budget
  {
    if index < |bytes| && budget > 0 { NoVarintEnd(bytes, index + 1, budget - 1); }
  }

  lemma MalformedIsNoField(prefix: seq<byte>, tail: seq<byte>)
    requires Malformed(tail)
    ensures FieldAt(prefix + tail, |prefix|) == NoField
  {
    var ser := prefix + tail;
    assert ser[|prefix|] == tail[0];
    if tail[0] % 8 == 0 && tail[0] >= 8 {
      forall i | |prefix| + 1 <= i < |ser| && i < |prefix| + 1 + MAX_BYTES ensures ser[i] >= 128 {
        assert ser[i] == tail[i - |prefix|];
      }
      NoVarintEnd(ser, |prefix| + 1, MAX_BYTES);
    }
  }

  /** Well-formed entries parse back to exactly their fields, and to nothing if what follows them is
      malformed. */
  lemma {:induction false} ListingParses(prefix: seq<byte>, entries: seq<Entry>, tail: seq<byte>)
    requires forall i :: 0 <= i < |entries| ==> entries[i].WellFormed()
    requires tail == [] || Malformed(tail)
    ensures ParseFrom(prefix + (BytesOf(entries) + tail), |prefix|)
            == if tail == [] then Some(FieldsOf(entries)) else None
    decreases |entries|
  {
    if entries == [] {
      assert [] + tail == tail;
      if tail != [] { MalformedIsNoField(prefix, tail); }
    } else {
      hide *;
      ListingParses(prefix + FieldBytes(entries[0].key, entries[0].varint), entries[1..], tail);
      ParseFirstEntry(prefix, entries, tail);
    }
  }

  lemma ParseFirstEntry(prefix: seq<byte>, entries: seq<Entry>, tail: seq<byte>)
    requires entries != [] && entries[0].WellFormed()
    ensures var e := entries[0];
            var next := prefix + FieldBytes(e.key, e.varint);
            var rest := ParseFrom(next + (BytesOf(entries[1..]) + tail), |next|);
            ParseFrom(prefix + (BytesOf(entries) + tail), |prefix|)
            == if rest.None? then None else Some([e.ToField()] + rest.value)
  {
    hide FieldAt, FieldBytes;
    var e, rest := entries[0], BytesOf(entries[1..]) + tail;
    var b := FieldBytes(e.key, e.varint);
    Reassociate(b, BytesOf(entries[1..]), tail);
    Reassociate(prefix, b, rest);
    EntryIsRead(prefix, e, rest);
    assert |b| == 1 + |e.varint| by { LengthOfField(e.key, e.varint); }
    ParseStep(prefix + b + rest, |prefix|, e.ToField(), |prefix + b|);
  }

  lemma LengthOfField(key: nat, varint: seq<byte>)
    ensures |FieldBytes(key, varint)| == 1 + |varint|
  {
  }

  lemma ParseStep(ser: seq<byte>, i: nat, field: Field, next: nat)
    requires i < |ser| && FieldAt(ser, i) == FieldRead(field, next)
    ensures var rest := ParseFrom(ser, next);
            ParseFrom(ser, i) == if rest.None? then None else Some([field] + rest.value)
  {
  }

  // -------------------------------------------------------------- what is rejected

  /** The decoder rejects whatever is malformed anywhere behind well-formed fields. */
  lemma MalformedIsRejected(entries: seq<Entry>, tail: seq<byte>, radixMult: seq<uint32>)
    requires forall i :: 0 <= i < |entries| ==> entries[i].WellFormed()
    requires Malformed(tail)
    ensures Decoded(BytesOf(entries) + tail, radixMult) == 0xffff_ffff_ffff_ffff
  {
    assert tail != [];
    hide ParseFrom, BytesOf, FieldsOf, Malformed;
    ListingParses([], entries, tail);
    assert [] + (BytesOf(entries) + tail) == BytesOf(entries) + tail;
  }

  lemma ListingMeans(entries: seq<Entry>, radixMult: seq<uint32>)
    requires forall i :: 0 <= i < |entries| ==> entries[i].WellFormed()
    ensures Decoded(BytesOf(entries), radixMult) == Meaning(Some(FieldsOf(entries)), radixMult, 0)
  {
    hide ParseFrom, BytesOf, FieldsOf, Meaning;
    ListingParses([], entries, []);
    assert [] + (BytesOf(entries) + []) == BytesOf(entries);
  }

  lemma BytesOfFirst(e: Entry, rest: seq<Entry>)
    ensures BytesOf([e] + rest) == FieldBytes(e.key, e.varint) + BytesOf(rest)
    ensures FieldsOf([e] + rest) == [e.ToField()] + FieldsOf(rest)
  {
    assert ([e] + rest)[1..] == rest;
  }

  /** The varint at the beginning of `bytes`. */
  lemma {:induction false} FirstVarint(bytes: seq<byte>, last: nat) returns (n: nat)
    requires last < |bytes| && bytes[last] < 128
    ensures n <= last && IsVarint(bytes[..n + 1])
    decreases last
  {
    if i: nat :| i < last && bytes[i] < 128 { n := FirstVarint(bytes, i); } else { n := last; }
  }

  /** Every byte string is a listing of well-formed fields, or one followed by something malformed. */
  lemma {:induction false} EveryStringSplits(ser: seq<byte>) returns (entries: seq<Entry>, tail: seq<byte>)
    ensures forall i :: 0 <= i < |entries| ==> entries[i].WellFormed()
    ensures ser == BytesOf(entries) + tail && (tail == [] || Malformed(tail))
    decreases |ser|
  {
    if ser == [] || Malformed(ser) {
      entries, tail := [], ser;
      assert BytesOf([]) + ser == ser;
    } else {
      var i :| 1 <= i < |ser| && i <= 9 && ser[i] < 128;
      var n := FirstVarint(ser[1..], i - 1);
      var e := Entry(ser[0] / 8 - 1, ser[1..][..n + 1]);
      var rest := ser[n + 2..];
      assert FieldBytes(e.key, e.varint) + rest == ser;
      var others;
      others, tail := EveryStringSplits(rest);
      entries := [e] + others;
      BytesOfFirst(e, others);
      Reassociate(FieldBytes(e.key, e.varint), BytesOf(others), tail);
    }
  }

  // --------------------------------------------------------- decoding listings of fields

  /** Distinct fields, each with a value of its enum that the decoder allows. */
  ghost predicate Lists(fields: seq<Field>, enumSizes: seq<uint32>) {
    && (forall i :: 0 <= i < |fields| ==>
          fields[i].key < |enumSizes| && 1 <= fields[i].value <= Min(enumSizes[fields[i].key], 0xff))
    && (forall i, j :: 0 <= i < j < |fields| ==> fields[i].key != fields[j].key)
  }

  /** The annotation a listing of fields describes; the order does not matter. */
  function AnnotationOf(fields: seq<Field>, n: nat): seq<nat>
    requires forall i :: 0 <= i < |fields| ==> fields[i].key < n
    ensures |AnnotationOf(fields, n)| == n
  {
    if fields == [] then seq(n, _ => 0) else AnnotationOf(fields[1..], n)[fields[0].key := fields[0].value]
  }

  lemma {:induction false} AnnotationValue(fields: seq<Field>, enumSizes: seq<uint32>, key: nat)
    requires Lists(fields, enumSizes) && key < |enumSizes|
    ensures var v := AnnotationOf(fields, |enumSizes|);
            && v[key] <= enumSizes[key]
            && (forall i :: 0 <= i < |fields| && fields[i].key == key ==> v[key] == fields[i].value)
            && ((forall i :: 0 <= i < |fields| ==> fields[i].key != key) ==> v[key] == 0)
  {
    if fields != [] {
      AnnotationValue(fields[1..], enumSizes, key);
      assert forall i :: 1 <= i < |fields| ==> fields[i] == fields[1..][i - 1];
    }
  }

  lemma FieldIsInRange(f: Field, enumSizes: seq<uint32>)
    requires Representable(enumSizes) && f.key < |enumSizes| && 1 <= f.value <= Min(enumSizes[f.key], 0xff)
    ensures FieldInRange(f, Radixes(enumSizes))
    ensures Term(f, Radixes(enumSizes)) == f.value * Product(enumSizes, f.key)
  {
    RadixIsProduct(enumSizes, f.key);
    WeightIsProduct(enumSizes, f.key);
    MulLe(1, Product(enumSizes, f.key), Options(enumSizes[f.key]));
    MulCommutes(f.value, Product(enumSizes, f.key));
  }

  lemma {:induction false} SumIsMixedRadix(fields: seq<Field>, enumSizes: seq<uint32>)
    requires Representable(enumSizes) && Lists(fields, enumSizes)
    ensures AllInRange(fields, Radixes(enumSizes))
    ensures SumOfFields(fields, Radixes(enumSizes))
            == MixedRadix(AnnotationOf(fields, |enumSizes|), enumSizes, |enumSizes|)
  {
    if fields == [] {
      ZerosAreZero(enumSizes, |enumSizes|);
    } else {
      var f, rest := fields[0], fields[1..];
      SumIsMixedRadix(rest, enumSizes);
      FieldIsInRange(f, enumSizes);
      AnnotationValue(rest, enumSizes, f.key);
      SetDigit(AnnotationOf(rest, |enumSizes|), enumSizes, f.key, f.value, |enumSizes|);
    }
  }

  /** Any byte string that lists distinct fields, in any order and with values the decoder allows,
      decodes to the mixed-radix number of its annotation, which is below the last radix. */
  lemma DecodesToMixedRadix(entries: seq<Entry>, enumSizes: seq<uint32>)
    requires Representable(enumSizes) && enumSizes != []
    requires forall i :: 0 <= i < |entries| ==> entries[i].WellFormed()
    requires Lists(FieldsOf(entries), enumSizes)
    ensures var v := AnnotationOf(FieldsOf(entries), |enumSizes|);
            && IsAnnotation(v, enumSizes)
            && Decoded(BytesOf(entries), Radixes(enumSizes)) == MixedRadix(v, enumSizes, |enumSizes|)
            && MixedRadix(v, enumSizes, |enumSizes|) < Radixes(enumSizes)[|enumSizes| - 1]
  {
    var fields := FieldsOf(entries);
    var v := AnnotationOf(fields, |enumSizes|);
    SumIsMixedRadix(fields, enumSizes);
    ListingIsAnnotation(fields, enumSizes);
    MixedRadixBound(v, enumSizes, |enumSizes|);
    RadixIsProduct(enumSizes, |enumSizes| - 1);
    ListingDecodes(entries, Radixes(enumSizes), MixedRadix(v, enumSizes, |enumSizes|));
  }

  lemma ListingDecodes(entries: seq<Entry>, radixMult: seq<uint32>, total: nat)
    requires forall i :: 0 <= i < |entries| ==> entries[i].WellFormed()
    requires AllInRange(FieldsOf(entries), radixMult)
    requires SumOfFields(FieldsOf(entries), radixMult) == total < TWO_64
    ensures Decoded(BytesOf(entries), radixMult) == total
  {
    ListingMeans(entries, radixMult);
    MeaningOfFields(FieldsOf(entries), radixMult, total);
  }

  lemma MeaningOfFields(fields: seq<Field>, radixMult: seq<uint32>, total: nat)
    requires AllInRange(fields, radixMult) && SumOfFields(fields, radixMult) == total < TWO_64
    ensures Meaning(Some(fields), radixMult, 0) == total
  {
  }

  lemma ListingIsAnnotation(fields: seq<Field>, enumSizes: seq<uint32>)
    requires Lists(fields, enumSizes)
    ensures IsAnnotation(AnnotationOf(fields, |enumSizes|), enumSizes)
  {
    forall key: nat | key < |enumSizes| ensures AnnotationOf(fields, |enumSizes|)[key] <= enumSizes[key] {
      AnnotationValue(fields, enumSizes, key);
    }
  }

  /** Two byte strings share an id exactly when they describe the same annotation. */
  lemma SameIdIffSameAnnotation(entries: seq<Entry>, entries': seq<Entry>, enumSizes: seq<uint32>)
    requires Representable(enumSizes) && enumSizes != []
    requires forall i :: 0 <= i < |entries| ==> entries[i].WellFormed()
    requires forall i :: 0 <= i < |entries'| ==> entries'[i].WellFormed()
    requires Lists(FieldsOf(entries), enumSizes) && Lists(FieldsOf(entries'), enumSizes)
    ensures Decoded(BytesOf(entries), Radixes(enumSizes)) == Decoded(BytesOf(entries'), Radixes(enumSizes))
            <==> AnnotationOf(FieldsOf(entries), |enumSizes|) == AnnotationOf(FieldsOf(entries'), |enumSizes|)
  {
    DecodesToMixedRadix(entries, enumSizes);
    DecodesToMixedRadix(entries', enumSizes);
    var v, w := AnnotationOf(FieldsOf(entries), |enumSizes|), AnnotationOf(FieldsOf(entries'), |enumSizes|);
    if MixedRadix(v, enumSizes, |enumSizes|) == MixedRadix(w, enumSizes, |enumSizes|) {
      MixedRadixInjective(v, w, enumSizes, |enumSizes|);
      assert v == v[..|v|] && w == w[..|w|];
    }
  }

  // ---------------------------------------------- values that the enums do not have

  /** The values of a listing, added up by field; a field may be listed more than once. */
  function Totals(fields: seq<Field>, n: nat): (v: seq<nat>)
    requires forall i :: 0 <= i < |fields| ==> fields[i].key < n
    ensures |v| == n
  {
    if fields == [] then seq(n, _ => 0)
    else
      var rest, f := Totals(fields[1..], n), fields[0];
      rest[f.key := rest[f.key] + f.value]
  }

  lemma {:induction false} AddToDigit(v: seq<nat>, enumSizes: seq<uint32>, key: nat, x: nat, n: nat)
    requires |v| == |enumSizes| && key < |v| && n <= |v|
    ensures MixedRadix(v[key := v[key] + x], enumSizes, n)
            == MixedRadix(v, enumSizes, n) + if key < n then x * Product(enumSizes, key) else 0
  {
    if n > 0 {
      AddToDigit(v, enumSizes, key, x, n - 1);
      if key == n - 1 { Distribute(v[key], x, Product(enumSizes, key)); }
    }
  }

  lemma Distribute(a: int, b: int, c: int)
    ensures (a + b) * c == a * c + b * c
  {
  }

  lemma {:induction false} AcceptedKeys(fields: seq<Field>, radixMult: seq<uint32>, i: nat)
    requires AllInRange(fields, radixMult) && i < |fields|
    ensures FieldInRange(fields[i], radixMult)
  {
    if i > 0 { AcceptedKeys(fields[1..], radixMult, i - 1); }
  }

  /** Whatever listing the decoder accepts, its sum is the mixed-radix reading of the totals, even
      if they are no digits. */
  lemma {:induction false} SumOfAccepted(fields: seq<Field>, enumSizes: seq<uint32>)
    requires Representable(enumSizes) && AllInRange(fields, Radixes(enumSizes))
    ensures forall i :: 0 <= i < |fields| ==> fields[i].key < |enumSizes|
    ensures SumOfFields(fields, Radixes(enumSizes)) == MixedRadix(Totals(fields, |enumSizes|), enumSizes, |enumSizes|)
  {
    forall i | 0 <= i < |fields| ensures fields[i].key < |enumSizes| { AcceptedKeys(fields, Radixes(enumSizes), i); }
    if fields == [] {
      ZerosAreZero(enumSizes, |enumSizes|);
    } else {
      var f, rest := fields[0], fields[1..];
      SumOfAccepted(rest, enumSizes);
      WeightIsProduct(enumSizes, f.key);
      MulCommutes(f.value, Product(enumSizes, f.key));
      AddToDigit(Totals(rest, |enumSizes|), enumSizes, f.key, f.value, |enumSizes|);
    }
  }

  /** A field of the settings with a value the decoder allows. */
  ghost predicate IsAllowed(f: Field, enumSizes: seq<uint32>) {
    f.key < |enumSizes| && 1 <= f.value <= 255 && f.value < Product(enumSizes, f.key + 1)
  }

  lemma {:induction false} AllowedAreInRange(fields: seq<Field>, enumSizes: seq<uint32>)
    requires Representable(enumSizes)
    ensures AllInRange(fields, Radixes(enumSizes)) <==> forall i :: 0 <= i < |fields| ==> IsAllowed(fields[i], enumSizes)
  {
    if fields != [] {
      var f, rest := fields[0], fields[1..];
      AllowedAreInRange(rest, enumSizes);
      if f.key < |enumSizes| { RadixIsProduct(enumSizes, f.key); }
      hide Product, RadixAt;
      assert FieldInRange(f, Radixes(enumSizes)) <==> IsAllowed(f, enumSizes);
      assert forall i :: 1 <= i < |fields| ==> fields[i] == rest[i - 1];
    }
  }

  /** What any byte string decodes to: if it consists of well-formed fields of the settings, each
      with a value that is not 0, not above 255 and below its radix, the mixed-radix reading of the
      totals in 64 bits; otherwise the error. */
  lemma DecodesExactly(ser: seq<byte>, enumSizes: seq<uint32>) returns (entries: seq<Entry>, tail: seq<byte>)
    requires Representable(enumSizes)
    ensures forall i :: 0 <= i < |entries| ==> entries[i].WellFormed()
    ensures ser == BytesOf(entries) + tail && (tail == [] || Malformed(tail))
    ensures var fields, n := FieldsOf(entries), |enumSizes|;
            Decoded(ser, Radixes(enumSizes))
            == if tail == [] && forall i :: 0 <= i < |fields| ==> IsAllowed(fields[i], enumSizes)
               then MixedRadix(Totals(fields, n), enumSizes, n) % TWO_64
               else 0xffff_ffff_ffff_ffff
  {
    hide Decoded, BytesOf, FieldsOf, AllInRange, SumOfFields, MixedRadix, Product;
    entries, tail := EveryStringSplits(ser);
    if tail == [] {
      AllowedAreInRange(FieldsOf(entries), enumSizes);
      if AllInRange(FieldsOf(entries), Radixes(enumSizes)) { SumOfAccepted(FieldsOf(entries), enumSizes); }
      ListingMeans(entries, Radixes(enumSizes));
      assert ser == BytesOf(entries);
    } else {
      MalformedIsRejected(entries, tail, Radixes(enumSizes));
    }
  }

  /** Every number below the product is the number of an annotation. */
  lemma {:induction false} SomeAnnotationHas(x: nat, enumSizes: seq<uint32>, n: nat) returns (v: seq<nat>)
    requires n <= |enumSizes| && x < Product(enumSizes, n)
    ensures IsAnnotation(v, enumSizes) && (forall i :: n <= i < |v| ==> v[i] == 0)
    ensures MixedRadix(v, enumSizes, n) == x
  {
    if n == 0 {
      v := seq(|enumSizes|, _ => 0);
    } else {
      var p := Product(enumSizes, n - 1);
      var high, low := DivNat(x, p), ModNat(x, p);
      HighDigit(x, p, enumSizes[n - 1]);
      var w := SomeAnnotationHas(low, enumSizes, n - 1);
      v := w[n - 1 := high];
      SetDigit(w, enumSizes, n - 1, high, n - 1);
      MulCommutes(p, high);
    }
  }

  lemma HighDigit(x: nat, p: nat, e: nat)
    requires p > 0 && x < p * (e + 1)
    ensures DivNat(x, p) <= e
  {
    if DivNat(x, p) > e { MulLe(e + 1, DivNat(x, p), p); MulCommutes(p, e + 1); MulCommutes(p, DivNat(x, p)); }
  }

  /** An accepted byte string whose number is below the last radix is recorded under exactly one
      annotation of the settings. That is the one the fields describe if and only if no total
      exceeds its enum; otherwise it is another one. */
  lemma AcceptedIdBelongsTo(ser: seq<byte>, enumSizes: seq<uint32>) returns (w: seq<nat>)
    requires Representable(enumSizes) && enumSizes != []
    requires ParseFrom(ser, 0).Some? && AllInRange(ParseFrom(ser, 0).value, Radixes(enumSizes))
    requires SumOfFields(ParseFrom(ser, 0).value, Radixes(enumSizes)) < Radixes(enumSizes)[|enumSizes| - 1]
    ensures var fields, n := ParseFrom(ser, 0).value, |enumSizes|;
            && (forall i :: 0 <= i < |fields| ==> fields[i].key < n)
            && IsAnnotation(w, enumSizes) && Decoded(ser, Radixes(enumSizes)) == MixedRadix(w, enumSizes, n)
            && (forall u :: IsAnnotation(u, enumSizes) && MixedRadix(u, enumSizes, n) == MixedRadix(w, enumSizes, n) ==> u == w)
            && (w == Totals(fields, n) <==> forall i :: 0 <= i < n ==> Totals(fields, n)[i] <= enumSizes[i])
  {
    var fields, n := ParseFrom(ser, 0).value, |enumSizes|;
    SumOfAccepted(fields, enumSizes);
    RadixIsProduct(enumSizes, n - 1);
    var x := SumOfFields(fields, Radixes(enumSizes));
    MeaningOfFields(fields, Radixes(enumSizes), x);
    w := SomeAnnotationHas(x, enumSizes, n);
    forall u | IsAnnotation(u, enumSizes) && MixedRadix(u, enumSizes, n) == MixedRadix(w, enumSizes, n) ensures u == w {
      MixedRadixInjective(u, w, enumSizes, n);
      assert u == u[..n] && w == w[..n];
    }
  }

  /** If no field is listed twice the totals are the annotation the listing describes. */
  lemma {:induction false} TotalsOfDistinct(fields: seq<Field>, n: nat)
    requires forall i :: 0 <= i < |fields| ==> fields[i].key < n
    requires forall i, j :: 0 <= i < j < |fields| ==> fields[i].key != fields[j].key
    ensures Totals(fields, n) == AnnotationOf(fields, n)
  {
    if fields != [] {
      TotalsOfDistinct(fields[1..], n);
      UnlistedIsZero(fields[1..], n, fields[0].key);
    }
  }

  lemma {:induction false} UnlistedIsZero(fields: seq<Field>, n: nat, key: nat)
    requires (forall i :: 0 <= i < |fields| ==> fields[i].key < n) && key < n
    requires forall i :: 0 <= i < |fields| ==> fields[i].key != key
    ensures AnnotationOf(fields, n)[key] == 0
  {
    if fields != [] { UnlistedIsZero(fields[1..], n, key); }
  }
}
