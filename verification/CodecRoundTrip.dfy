/** Serializing an id and decoding the bytes again. The serializer divides by the cumulative
    radixes, which the decoder multiplies by only up to the second field, so the round trip
    works for some ids and not for others; this module says for which. */
module CodecRoundTrip {
  import opened CInt
  import opened Varint
  import opened AnnotationCodec
  import opened AnnotationProofs

  ghost predicate Usable(radixMult: seq<uint32>) {
    && AllPositive(radixMult)
    && |radixMult| <= MAX_FIELDS
    && (forall i :: 0 <= i < |radixMult| ==> radixMult[i] < 0x8000_0000)
  }

  lemma RepresentableIsUsable(enumSizes: seq<uint32>)
    requires Representable(enumSizes)
    ensures Usable(Radixes(enumSizes))
  {
    forall i | 0 <= i < |enumSizes| ensures 0 < RadixAt(enumSizes, i) < 0x8000_0000 {
      RadixIsProduct(enumSizes, i);
      ProductMonotone(enumSizes, i + 1, |enumSizes|);
    }
  }

  // ------------------------------------------------------------------- what is emitted

  function EntriesFrom(x: int, i: nat, radixMult: seq<uint32>): seq<Entry>
    requires i <= |radixMult| && AllPositive(radixMult)
    decreases |radixMult| - i
  {
    if i == |radixMult| then []
    else
      var value := Digit(x, radixMult[i]);
      (if value > 0 then [Entry(i, Written(value))] else [])
      + EntriesFrom(Quot(x, radixMult[i]), i + 1, radixMult)
  }

  lemma {:induction false} EmitsEntries(x: int, i: nat, radixMult: seq<uint32>)
    requires i <= |radixMult| && AllPositive(radixMult)
    ensures SerializedFrom(x, i, radixMult) == BytesOf(EntriesFrom(x, i, radixMult))
    decreases |radixMult| - i
  {
    if i < |radixMult| {
      var value, rest := Digit(x, radixMult[i]), EntriesFrom(Quot(x, radixMult[i]), i + 1, radixMult);
      EmitsEntries(Quot(x, radixMult[i]), i + 1, radixMult);
      if value > 0 {
        BytesOfFirst(Entry(i, Written(value)), rest);
      } else {
        assert [] + rest == rest;
        assert [] + BytesOf(rest) == BytesOf(rest);
      }
    }
  }

  lemma DigitEntry(value: int, i: nat)
    requires 0 < value < TWO_32 && i < MAX_FIELDS
    ensures var e := Entry(i, Written(value)); e.WellFormed() && e.ToField() == Field(i, value)
  {
    WrittenIsVarint(value);
    SmallNeverStopsEarly(value);
    WrittenReadsIff(value);
  }

  lemma {:induction false} EntriesAreWellFormed(x: int, i: nat, radixMult: seq<uint32>)
    requires i <= |radixMult| && Usable(radixMult)
    ensures forall k :: 0 <= k < |EntriesFrom(x, i, radixMult)| ==> EntriesFrom(x, i, radixMult)[k].WellFormed()
    decreases |radixMult| - i
  {
    if i < |radixMult| {
      EntriesAreWellFormed(Quot(x, radixMult[i]), i + 1, radixMult);
      if Digit(x, radixMult[i]) > 0 { DigitEntry(Digit(x, radixMult[i]), i); }
    }
  }

  // ---------------------------------------------------------------------- its meaning

  /** Every digit the serializer emits is one the decoder allows. */
  predicate SmallDigits(x: int, i: nat, radixMult: seq<uint32>)
    requires i <= |radixMult| && AllPositive(radixMult)
    decreases |radixMult| - i
  {
    i == |radixMult| ||
    (Digit(x, radixMult[i]) <= 0xff && SmallDigits(Quot(x, radixMult[i]), i + 1, radixMult))
  }

  function DigitSum(x: nat, i: nat, radixMult: seq<uint32>): nat
    requires i <= |radixMult| && AllPositive(radixMult)
    decreases |radixMult| - i
  {
    if i == |radixMult| then 0
    else Weight(radixMult, i) * (ModNat(x, radixMult[i])) + DigitSum(DivNat(x, radixMult[i]), i + 1, radixMult)
  }

  lemma SignedSmall(v: int)
    requires -0x8000_0000 <= v < 0x8000_0000
    ensures Signed(v, TWO_32) == v
  {
  }

  lemma DigitIsRemainder(x: nat, r: uint32)
    requires 0 < r < 0x8000_0000
    ensures Digit(x, r) == ModNat(x, r) && Quot(x, r) == DivNat(x, r)
  {
    assert Rem(x, r) == ModNat(x, r);
    SignedSmall(ModNat(x, r));
  }

  lemma {:induction false} MeaningOfEntries(x: nat, i: nat, radixMult: seq<uint32>)
    requires i <= |radixMult| && Usable(radixMult)
    ensures var fields := FieldsOf(EntriesFrom(x, i, radixMult));
            && (AllInRange(fields, radixMult) <==> SmallDigits(x, i, radixMult))
            && (AllInRange(fields, radixMult) ==> SumOfFields(fields, radixMult) == DigitSum(x, i, radixMult))
    decreases |radixMult| - i
  {
    if i < |radixMult| {
      DigitUnfolds(x, i, radixMult);
      MeaningOfEntries(DivNat(x, radixMult[i]), i + 1, radixMult);
      hide EntriesFrom, SmallDigits, DigitSum, FieldsOf, AllInRange, SumOfFields;
      MeaningOfDigit(ModNat(x, radixMult[i]), i, EntriesFrom(DivNat(x, radixMult[i]), i + 1, radixMult), radixMult);
    }
  }

  lemma DigitUnfolds(x: nat, i: nat, radixMult: seq<uint32>)
    requires i < |radixMult| && Usable(radixMult)
    ensures var v, y := ModNat(x, radixMult[i]), DivNat(x, radixMult[i]);
            && EntriesFrom(x, i, radixMult)
               == (if v > 0 then [Entry(i, Written(v))] else []) + EntriesFrom(y, i + 1, radixMult)
            && (SmallDigits(x, i, radixMult) <==> v <= 0xff && SmallDigits(y, i + 1, radixMult))
            && DigitSum(x, i, radixMult) == Weight(radixMult, i) * v + DigitSum(y, i + 1, radixMult)
  {
    DigitIsRemainder(x, radixMult[i]);
    hide Digit;
  }

  /** One more digit in front of the entries for the higher ones. */
  lemma MeaningOfDigit(value: nat, i: nat, rest: seq<Entry>, radixMult: seq<uint32>)
    requires i < |radixMult| && Usable(radixMult) && value < radixMult[i]
    ensures var fields := FieldsOf((if value > 0 then [Entry(i, Written(value))] else []) + rest);
            && (AllInRange(fields, radixMult) <==> value <= 0xff && AllInRange(FieldsOf(rest), radixMult))
            && (AllInRange(fields, radixMult) ==>
                  SumOfFields(fields, radixMult)
                  == Weight(radixMult, i) * value + SumOfFields(FieldsOf(rest), radixMult))
  {
    if value > 0 {
      DigitEntry(value, i);
      hide Written, IsVarint, Value;
      var e := Entry(i, Written(value));
      BytesOfFirst(e, rest);
      MeaningOfOneMore(e.ToField(), FieldsOf(rest), radixMult);
    } else {
      assert [] + rest == rest;
    }
  }

  lemma MeaningOfOneMore(f: Field, rest: seq<Field>, radixMult: seq<uint32>)
    ensures AllInRange([f] + rest, radixMult) <==> FieldInRange(f, radixMult) && AllInRange(rest, radixMult)
    ensures FieldInRange(f, radixMult) && AllInRange(rest, radixMult) ==>
              SumOfFields([f] + rest, radixMult) == Term(f, radixMult) + SumOfFields(rest, radixMult)
  {
    assert ([f] + rest)[0] == f && ([f] + rest)[1..] == rest;
  }

  /** Nothing is emitted for the negative numbers lldiv sees for ids of 2^63 and more. */
  lemma {:induction false} NegativeEmitsNothing(x: int, i: nat, radixMult: seq<uint32>)
    requires x <= 0 && i <= |radixMult| && Usable(radixMult)
    ensures EntriesFrom(x, i, radixMult) == [] && SmallDigits(x, i, radixMult)
    decreases |radixMult| - i
  {
    if i < |radixMult| {
      NegativeDigit(x, radixMult[i]);
      NegativeEmitsNothing(Quot(x, radixMult[i]), i + 1, radixMult);
    }
  }

  lemma NegativeDigit(x: int, r: uint32)
    requires x <= 0 && 0 < r < 0x8000_0000
    ensures Digit(x, r) <= 0 && Quot(x, r) <= 0
  {
    DivBounds(-x, r);
    SignedSmall(Rem(x, r));
  }

  // --------------------------------------------------------------- when it is the id again

  /** The digits from `i` on stand for `Weight(i) * x`. */
  predicate Fits(x: nat, i: nat, radixMult: seq<uint32>)
    requires i <= |radixMult| && AllPositive(radixMult)
    decreases |radixMult| - i
  {
    if i == |radixMult| then x == 0
    else if Weight(radixMult, i) >= 2 then x < radixMult[i]
    else Fits(DivNat(x, radixMult[i]), i + 1, radixMult)
  }

  lemma DigitStep(x: nat, v: nat, r: nat, y: nat, w: nat, s: nat)
    requires w >= 1 && r >= 1 && x == v + r * y && s <= r * y
    ensures w * v + s <= w * x
    ensures w * v + s == w * x <==> s == r * y && (w == 1 || y == 0)
  {
    var z := r * y;
    assert w * (v + z) == w * v + w * z;
    MulLe(1, w, z);
    if y > 0 {
      MulLe(1, y, r);
      MulCommutes(r, y);
      if w >= 2 { MulLe(2, w, z); }
    }
  }

  lemma {:induction false} DigitSumBound(x: nat, i: nat, radixMult: seq<uint32>)
    requires i <= |radixMult| && AllPositive(radixMult)
    ensures DigitSum(x, i, radixMult) <= Weight(radixMult, i) * x
    ensures DigitSum(x, i, radixMult) == Weight(radixMult, i) * x <==> Fits(x, i, radixMult)
    decreases |radixMult| - i
  {
    if i < |radixMult| {
      DigitSumBound(DivNat(x, radixMult[i]), i + 1, radixMult);
      DigitSumOfZero(i + 1, radixMult);
      DigitSumStep(x, i, radixMult);
    } else if x > 0 {
      MulLe(1, Weight(radixMult, i), x);
    }
  }

  lemma DigitSumStep(x: nat, i: nat, radixMult: seq<uint32>)
    requires i < |radixMult| && AllPositive(radixMult)
    requires var y, s := DivNat(x, radixMult[i]), DigitSum(DivNat(x, radixMult[i]), i + 1, radixMult);
             && s <= radixMult[i] * y && (s == radixMult[i] * y <==> Fits(y, i + 1, radixMult))
             && (y == 0 ==> s == 0)
    ensures DigitSum(x, i, radixMult) <= Weight(radixMult, i) * x
    ensures DigitSum(x, i, radixMult) == Weight(radixMult, i) * x <==> Fits(x, i, radixMult)
  {
    var r, w := radixMult[i], Weight(radixMult, i);
    var v, y, s := ModNat(x, r), DivNat(x, r), DigitSum(DivNat(x, r), i + 1, radixMult);
    assert w >= 1 && DigitSum(x, i, radixMult) == w * v + s;
    assert Fits(x, i, radixMult) <==> if w >= 2 then x < r else Fits(y, i + 1, radixMult);
    hide DigitSum, Fits, Weight;
    DigitStep(x, v, r, y, w, s);
    QuotientBelow(x, r, 1);
  }

  lemma {:induction false} DigitSumOfZero(i: nat, radixMult: seq<uint32>)
    requires i <= |radixMult| && AllPositive(radixMult)
    ensures DigitSum(0, i, radixMult) == 0
    decreases |radixMult| - i
  {
    if i < |radixMult| { DigitSumOfZero(i + 1, radixMult); }
  }

  /** The ids that survive: those below the product of the first two radixes, not counting
      leading radixes of 1, which come from enums without values. */
  function IdBound(radixMult: seq<uint32>, i: nat): nat
    requires i <= |radixMult|
    decreases |radixMult| - i
  {
    if i == |radixMult| then 1
    else if radixMult[i] == 1 then IdBound(radixMult, i + 1)
    else if i + 1 == |radixMult| then radixMult[i]
    else radixMult[i] as nat * radixMult[i + 1]
  }

  lemma QuotientBelow(x: nat, r: nat, m: nat)
    requires r > 0
    ensures DivNat(x, r) < m <==> x < r * m
  {
    var q := DivNat(x, r);
    MulCommutes(r, m);
    MulCommutes(r, q);
    if q < m { MulLe(q + 1, m, r); } else { MulLe(m, q, r); }
  }

  lemma {:induction false} FitsIffBelowBound(x: nat, i: nat, radixMult: seq<uint32>)
    requires i <= |radixMult| && AllPositive(radixMult) && Weight(radixMult, i) == 1
    ensures Fits(x, i, radixMult) <==> x < IdBound(radixMult, i)
    decreases |radixMult| - i
  {
    if i < |radixMult| {
      var r := radixMult[i];
      if r == 1 {
        assert DivNat(x, 1) == x;
        FitsIffBelowBound(x, i + 1, radixMult);
      } else {
        QuotientBelow(x, r, if i + 1 == |radixMult| then 1 else radixMult[i + 1]);
      }
    }
  }

  lemma IdBoundIsSmall(radixMult: seq<uint32>, i: nat)
    requires i <= |radixMult| && Usable(radixMult)
    ensures IdBound(radixMult, i) < TWO_63
    decreases |radixMult| - i
  {
    if i + 1 < |radixMult| && radixMult[i] != 1 {
      MulLe(radixMult[i], 0x8000_0000, radixMult[i + 1]);
    } else if i < |radixMult| && radixMult[i] == 1 {
      IdBoundIsSmall(radixMult, i + 1);
    }
  }

  lemma DecodeOfPositive(x: nat, radixMult: seq<uint32>)
    requires Usable(radixMult) && x < TWO_64
    ensures Decoded(SerializedFrom(x, 0, radixMult), radixMult)
            == if SmallDigits(x, 0, radixMult) then DigitSum(x, 0, radixMult) else ANNOTATION_ERROR
    ensures DigitSum(x, 0, radixMult) <= x
  {
    hide EntriesFrom, SerializedFrom, BytesOf, FieldsOf, Decoded, SmallDigits, DigitSum, AllInRange, SumOfFields, Fits;
    var entries := EntriesFrom(x, 0, radixMult);
    EmitsEntries(x, 0, radixMult);
    EntriesAreWellFormed(x, 0, radixMult);
    MeaningOfEntries(x, 0, radixMult);
    DigitSumBound(x, 0, radixMult);
    if SmallDigits(x, 0, radixMult) {
      ListingDecodes(entries, radixMult, DigitSum(x, 0, radixMult));
    } else {
      BadListing(entries, radixMult);
    }
  }

  lemma DecodeOfNegative(x: int, radixMult: seq<uint32>)
    requires Usable(radixMult) && x < 0
    ensures Decoded(SerializedFrom(x, 0, radixMult), radixMult) == 0 && SmallDigits(x, 0, radixMult)
  {
    EmitsEntries(x, 0, radixMult);
    NegativeEmitsNothing(x, 0, radixMult);
    ListingDecodes([], radixMult, 0);
  }

  /** The decoder's answer to the serializer's output. */
  lemma DecodeOfSerialized(id: uint64, radixMult: seq<uint32>)
    requires Usable(radixMult)
    ensures var x := Signed(id, TWO_64);
            Decoded(Serialized(id, radixMult), radixMult)
            == if x < 0 then 0
               else if SmallDigits(x, 0, radixMult) then DigitSum(x, 0, radixMult)
               else ANNOTATION_ERROR
    ensures id < TWO_63 ==> DigitSum(id, 0, radixMult) <= id
  {
    hide Decoded, SerializedFrom, SmallDigits, DigitSum;
    var x := Signed(id, TWO_64);
    if x < 0 { DecodeOfNegative(x, radixMult); } else { DecodeOfPositive(x, radixMult); }
  }

  lemma BadListing(entries: seq<Entry>, radixMult: seq<uint32>)
    requires forall i :: 0 <= i < |entries| ==> entries[i].WellFormed()
    requires !AllInRange(FieldsOf(entries), radixMult)
    ensures Decoded(BytesOf(entries), radixMult) == ANNOTATION_ERROR
  {
    ListingMeans(entries, radixMult);
  }

  /** The decoder rejects the serializer's output only for digits above 255. */
  lemma RejectsOnlyLargeDigits(id: uint64, radixMult: seq<uint32>)
    requires Usable(radixMult) && SmallDigits(Signed(id, TWO_64), 0, radixMult)
    ensures Decoded(Serialized(id, radixMult), radixMult) != ANNOTATION_ERROR
  {
    hide Decoded, Serialized, SmallDigits, DigitSum;
    DecodeOfSerialized(id, radixMult);
  }

  /** The round trip gives back the id exactly when every digit is allowed and the id is below
      the product of the first two radixes. */
  lemma RoundTripIff(id: uint64, radixMult: seq<uint32>)
    requires Usable(radixMult)
    ensures Decoded(Serialized(id, radixMult), radixMult) == id
            <==> SmallDigits(Signed(id, TWO_64), 0, radixMult) && id < IdBound(radixMult, 0)
  {
    hide Decoded, Serialized, SmallDigits, DigitSum, IdBound, Fits;
    var x := Signed(id, TWO_64);
    DecodeOfSerialized(id, radixMult);
    IdBoundIsSmall(radixMult, 0);
    if x >= 0 {
      DigitSumBound(x, 0, radixMult);
      FitsIffBelowBound(x, 0, radixMult);
    } else {
      DecodeOfNegative(x, radixMult);
    }
  }

  /** With at most two fields every annotation id survives whose digits are allowed. */
  lemma TwoFieldsRoundTrip(id: uint64, enumSizes: seq<uint32>)
    requires Representable(enumSizes) && 1 <= |enumSizes| <= 2
    requires id < Radixes(enumSizes)[|enumSizes| - 1]
    ensures Decoded(Serialized(id, Radixes(enumSizes)), Radixes(enumSizes)) == id
            <==> SmallDigits(id, 0, Radixes(enumSizes))
  {
    hide Decoded, Serialized, SmallDigits, IdBound, Usable, Product, RadixAt;
    var r := Radixes(enumSizes);
    RepresentableIsUsable(enumSizes);
    RoundTripIff(id, r);
    TwoRadixesBound(r);
    SignedOfSmall(id, r[|r| - 1]);
  }

  lemma SignedOfSmall(id: uint64, bound: uint32)
    requires id < bound
    ensures Signed(id, TWO_64) == id
  {
  }

  lemma TwoRadixesBound(r: seq<uint32>)
    requires Usable(r) && 1 <= |r| <= 2
    ensures r[|r| - 1] <= IdBound(r, 0)
  {
    if |r| == 2 {
      MulLe(1, r[0], r[1]);
      assert r[0] == 1 ==> IdBound(r, 0) == IdBound(r, 1) && (r[1] == 1 ==> IdBound(r, 1) == IdBound(r, 2));
    } else {
      assert r[0] == 1 ==> IdBound(r, 0) == IdBound(r, 1);
    }
  }

  /** Three fields are enough for the round trip to fail: with enums of 2, 3 and 4 values the id
      36 comes back as something else. */
  lemma ThreeFieldsFail()
    ensures var r := [3, 12, 60];
            Usable(r) && 36 < r[2] && Decoded(Serialized(36, r), r) != 36
  {
    var r: seq<uint32> := [3, 12, 60];
    assert IdBound(r, 0) == 36;
    RoundTripIff(36, r);
    hide *;
  }
}
