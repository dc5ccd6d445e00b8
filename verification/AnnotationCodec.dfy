/** The annotation codec: an annotation is a protobuf message of enums only, and is turned into
    an integer by reading its fields as the digits of a mixed-radix number. */
module AnnotationCodec {
  import opened CInt
  import opened Wrappers
  import opened Varint

  const ANNOTATION_ERROR: uint64 := 0xffff_ffff_ffff_ffff
  const KEY_ERROR := -1

  /** A decoded field: its 0-based key and its value. */
  datatype Field = Field(key: nat, value: nat)

  function GetKeyIndex(b: byte): int {
    if b % 8 != 0 then KEY_ERROR else b / 8
  }

  // ------------------------------------------------------------------------ radixes

  /** `r *= enumSize + 1`, in 32 bits. */
  function NextRadix(r: uint32, enumSize: uint32): uint32 {
    (r * ((enumSize + 1) % TWO_32)) % TWO_32
  }

  function RadixAt(enumSizes: seq<uint32>, i: nat): uint32
    requires i < |enumSizes|
  {
    NextRadix(if i == 0 then 1 else RadixAt(enumSizes, i - 1), enumSizes[i])
  }

  function RadixPrefix(enumSizes: seq<uint32>, n: nat): (r: seq<uint32>)
    requires n <= |enumSizes|
    ensures |r| == n && forall i :: 0 <= i < n ==> r[i] == RadixAt(enumSizes, i)
  {
    if n == 0 then [] else RadixPrefix(enumSizes, n - 1) + [RadixAt(enumSizes, n - 1)]
  }

  function Radixes(enumSizes: seq<uint32>): seq<uint32> {
    if enumSizes == [] then [1] else RadixPrefix(enumSizes, |enumSizes|)
  }

  method SetUpAnnotationRadixes(enumSizes: seq<uint32>) returns (radixMult: seq<uint32>)
    ensures radixMult == Radixes(enumSizes)
  {
    if |enumSizes| == 0 {
      return [1];
    }
    radixMult := [];
    var r: uint32 := 1;
    for i := 0 to |enumSizes|
      invariant radixMult == RadixPrefix(enumSizes, i)
      invariant r == if i == 0 then 1 else RadixAt(enumSizes, i - 1)
    {
      r := NextRadix(r, enumSizes[i]);
      radixMult := radixMult + [r];
    }
  }

  // ------------------------------------------------------------------------ decoding

  datatype FieldRead = NoField | FieldRead(field: Field, next: nat)

  /** The field that starts at position `i`, and the position after it. */
  function FieldAt(ser: seq<byte>, i: nat): (r: FieldRead)
    requires i < |ser|
    ensures r.FieldRead? ==> i < r.next <= |ser|
  {
    var key := GetKeyIndex(ser[i]);
    if key == KEY_ERROR || key == 0 then NoField
    else
      match ReadAt(ser, i + 1)
      case Unreadable => NoField
      case Read(value, last) => FieldRead(Field(key - 1, value), last + 1)
  }

  /** The fields of a byte string, read as a protobuf message of varint fields; None if it is
      not one, or uses field number 0. */
  function ParseFrom(ser: seq<byte>, i: nat): Option<seq<Field>>
    decreases |ser| - i
  {
    if i >= |ser| then Some([])
    else
      match FieldAt(ser, i)
      case NoField => None
      case FieldRead(field, next) =>
        var rest := ParseFrom(ser, next);
        if rest.None? then None else Some([field] + rest.value)
  }

  predicate FieldInRange(f: Field, radixMult: seq<uint32>) {
    f.key < |radixMult| && 1 <= f.value < radixMult[f.key] && f.value <= 0xff
  }

  predicate AllInRange(fields: seq<Field>, radixMult: seq<uint32>) {
    fields == [] || (FieldInRange(fields[0], radixMult) && AllInRange(fields[1..], radixMult))
  }

  /** What a value of the field with this key is multiplied by. */
  function Weight(radixMult: seq<uint32>, key: nat): uint32
    requires key <= |radixMult|
  {
    if key == 0 then 1 else radixMult[key - 1]
  }

  function Term(f: Field, radixMult: seq<uint32>): nat
    requires f.key < |radixMult|
  {
    Weight(radixMult, f.key) * f.value
  }

  function SumOfFields(fields: seq<Field>, radixMult: seq<uint32>): nat
    requires AllInRange(fields, radixMult)
  {
    if fields == [] then 0 else Term(fields[0], radixMult) + SumOfFields(fields[1..], radixMult)
  }

  /** The meaning of a list of fields: an error, or the sum of its terms in 64 bits. */
  function Meaning(fields: Option<seq<Field>>, radixMult: seq<uint32>, sum: uint64): uint64 {
    if fields.Some? && AllInRange(fields.value, radixMult)
    then (sum + SumOfFields(fields.value, radixMult)) % TWO_64
    else ANNOTATION_ERROR
  }

  /** The reference meaning of a byte string. */
  function Decoded(ser: seq<byte>, radixMult: seq<uint32>): uint64 {
    Meaning(ParseFrom(ser, 0), radixMult, 0)
  }

  /** Moving the first field's term into the running sum. */
  lemma MeaningOfFirst(ser: seq<byte>, i: nat, radixMult: seq<uint32>, sum: uint64)
    requires i < |ser|
    ensures var read := FieldAt(ser, i);
            Meaning(ParseFrom(ser, i), radixMult, sum)
            == if read.FieldRead? && FieldInRange(read.field, radixMult)
               then Meaning(ParseFrom(ser, read.next), radixMult, (sum + Term(read.field, radixMult)) % TWO_64)
               else ANNOTATION_ERROR
  {
    hide FieldAt, Term;
    var read := FieldAt(ser, i);
    if read.FieldRead? && ParseFrom(ser, read.next).Some? {
      var rest := ParseFrom(ser, read.next).value;
      var fields := [read.field] + rest;
      assert fields[0] == read.field && fields[1..] == rest;
      if AllInRange(fields, radixMult) {
        AddInWords(sum, Term(read.field, radixMult), SumOfFields(rest, radixMult));
      }
    }
  }

  lemma AddInWords(a: nat, b: nat, c: nat)
    ensures ((a + b) % TWO_64 + c) % TWO_64 == (a + (b + c)) % TWO_64
  {
  }

  /** The body of the decoder's loop: one field, with every check the source makes. */
  method DecodeField(ser: seq<byte>, start: nat, radixMult: seq<uint32>) returns (ok: bool, term: nat, next: nat)
    requires start < |ser|
    ensures var read := FieldAt(ser, start);
            && (ok <==> read.FieldRead? && FieldInRange(read.field, radixMult))
            && (ok ==> term == Term(read.field, radixMult) && next == read.next)
  {
    ok, term, next := false, 0, start;
    var i := start;
    var key := GetKeyIndex(ser[i]);
    if key == KEY_ERROR {
      return;
    }
    key := key - 1;
    // the source compares unsigned, so -1 is too large as well
    if key < 0 || key >= |radixMult| {
      return;
    }
    i := i + 1;
    if i >= |ser| {
      return;
    }
    var value, last := GetBase128IntegerFromByteStream(ser, i);
    if value == STREAM_ERROR {
      return;
    }
    if value == 0 || value >= radixMult[key] {
      return;
    }
    if value > 0xff {
      return;
    }
    return true, Weight(radixMult, key) * value, last + 1;
  }

  /** DecodeAnnotationSerialization. */
  method DecodeAnnotationSerialization(ser: seq<byte>, radixMult: seq<uint32>) returns (result: uint64)
    ensures result == Decoded(ser, radixMult)
  {
    hide FieldAt, FieldInRange, Term, ParseFrom, Meaning;
    result := 0;
    var i := 0;
    ghost var goal := Decoded(ser, radixMult);
    while i < |ser|
      invariant 0 <= i
      invariant Meaning(ParseFrom(ser, i), radixMult, result) == goal
      decreases |ser| - i
    {
      MeaningOfFirst(ser, i, radixMult, result);
      var ok, term, next := DecodeField(ser, i, radixMult);
      if !ok {
        return ANNOTATION_ERROR;
      }
      result := (result + term) % TWO_64;
      i := next;
    }
    MeaningOfNothing(ser, i, radixMult, result);
  }

  lemma MeaningOfNothing(ser: seq<byte>, i: nat, radixMult: seq<uint32>, sum: uint64)
    requires i >= |ser|
    ensures Meaning(ParseFrom(ser, i), radixMult, sum) == sum
  {
  }

  // --------------------------------------------------------------------- serializing

  /** The key byte of a field is cut to 8 bits. */
  function KeyByte(key: nat): byte {
    ((key + 1) * 8) % 0x100
  }

  function FieldBytes(key: nat, varint: seq<byte>): seq<byte> {
    [KeyByte(key)] + varint
  }

  predicate AllPositive(radixMult: seq<uint32>) {
    forall i :: 0 <= i < |radixMult| ==> radixMult[i] > 0
  }

  /** The int that the remainder of an id by a radix is converted to. */
  function Digit(x: int, radix: uint32): int
    requires radix > 0
  {
    Signed(Rem(x, radix), TWO_32)
  }

  function DigitBytes(value: int, i: nat): seq<byte>
    requires value < TWO_32
  {
    if value > 0 then FieldBytes(i, Written(value)) else []
  }

  /** What the serializer emits from digit `i` on; `x` is the signed reading of the rest of the id. */
  function SerializedFrom(x: int, i: nat, radixMult: seq<uint32>): seq<byte>
    requires i <= |radixMult| && AllPositive(radixMult)
    decreases |radixMult| - i
  {
    if i == |radixMult| then []
    else DigitBytes(Digit(x, radixMult[i]), i) + SerializedFrom(Quot(x, radixMult[i]), i + 1, radixMult)
  }

  function Serialized(id: uint64, radixMult: seq<uint32>): seq<byte>
    requires AllPositive(radixMult)
  {
    SerializedFrom(Signed(id, TWO_64), 0, radixMult)
  }

  lemma QuotientFits(x: int, r: uint32)
    requires r > 0 && -TWO_63 <= x < TWO_63
    ensures -TWO_63 <= Quot(x, r) < TWO_63
  {
    if x >= 0 { DivShrinks(x, r); } else { DivShrinks(-x, r); }
  }

  lemma DivShrinks(a: nat, b: nat)
    requires b > 0
    ensures 0 <= a / b <= a
  {
    DivBounds(a, b);
    if a / b > a { MulLe(1, b, a / b); }
  }

  lemma SignedOfUnsigned(x: int)
    requires -TWO_63 <= x < TWO_63
    ensures Signed(x % TWO_64, TWO_64) == x
  {
  }

  /** SerializeAnnotationId. lldiv divides signed numbers, and the remainder becomes an int. */
  method SerializeAnnotationId(id: uint64, radixMult: seq<uint32>) returns (ser: seq<byte>)
    requires AllPositive(radixMult)
    ensures ser == Serialized(id, radixMult)
  {
    var x: uint64 := id;
    ser := [];
    for i := 0 to |radixMult|
      invariant ser + SerializedFrom(Signed(x, TWO_64), i, radixMult) == Serialized(id, radixMult)
    {
      var dividend := Signed(x, TWO_64);
      var quot, value := Quot(dividend, radixMult[i]), Digit(dividend, radixMult[i]);
      QuotientFits(dividend, radixMult[i]);
      SignedOfUnsigned(quot);
      Reassociate(ser, DigitBytes(value, i), SerializedFrom(quot, i + 1, radixMult));
      ser := EmitDigit(ser, value, i);
      x := quot % TWO_64;
    }
    Reassociate(ser, [], []);
  }

  method EmitDigit(ser: seq<byte>, value: int, i: nat) returns (out: seq<byte>)
    requires value < TWO_32
    ensures out == ser + DigitBytes(value, i)
  {
    Reassociate(ser, [KeyByte(i)], Written(if value > 0 then value else 0));
    out := ser;
    if value > 0 {
      out := out + [KeyByte(i)];
      out := WriteBase128IntToStream(value, out);
    }
  }

  lemma Reassociate(a: seq<byte>, b: seq<byte>, c: seq<byte>)
    ensures a + b + c == a + (b + c)
    ensures a + [] == a
  {
  }
}
