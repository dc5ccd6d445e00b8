/** Base-128 varints, as the annotation codec reads and writes them ("Base 128 Varints" in the
    Protocol Buffers encoding specification). */
module Varint {
  import opened CInt
  import opened Wrappers

  const STREAM_ERROR: uint64 := 0xffff_ffff_ffff_ffff

  function Pow2(m: nat): nat {
    if m == 0 then 1 else 2 * Pow2(m - 1)
  }

  lemma Pow2Plus7(m: nat)
    ensures Pow2(m + 7) == 128 * Pow2(m)
  {
    assert Pow2(m + 7) == 2 * Pow2(m + 6) == 4 * Pow2(m + 5) == 8 * Pow2(m + 4);
    assert Pow2(m + 4) == 2 * Pow2(m + 3) == 4 * Pow2(m + 2) == 8 * Pow2(m + 1) == 16 * Pow2(m);
  }

  /** The specification's reading of a varint: the groups of seven bits, least significant first. */
  function Value(b: seq<byte>): nat {
    if b == [] then 0 else b[0] % 128 + 128 * Value(b[1..])
  }

  lemma {:induction false} ValueAppend(a: seq<byte>, x: byte)
    ensures Value(a + [x]) == Value(a) + Pow2(7 * |a|) * (x % 128)
  {
    if a == [] {
      assert Value([x]) == x % 128 + 128 * Value([x][1..]);
    } else {
      assert (a + [x])[1..] == a[1..] + [x];
      ValueAppend(a[1..], x);
      Pow2Plus7(7 * |a[1..]|);
      MulAssoc(128, Pow2(7 * |a[1..]|), x % 128);
    }
  }

  lemma MulAssoc(a: int, b: int, c: int)
    ensures a * (b * c) == (a * b) * c
  {
  }

  lemma {:induction false} ValueBound(a: seq<byte>)
    ensures Value(a) < Pow2(7 * |a|)
  {
    if a != [] {
      ValueBound(a[1..]);
      Pow2Plus7(7 * |a[1..]|);
    }
  }

  /** Every byte but the last has its continuation bit set. */
  ghost predicate IsVarint(b: seq<byte>) {
    && b != []
    && (forall i :: 0 <= i < |b| - 1 ==> b[i] >= 128)
    && b[|b| - 1] < 128
  }

  /** Where the varint starting at `index` ends, if it does within `budget` bytes. */
  function VarintEnd(bytes: seq<byte>, index: nat, budget: nat): (end: Option<nat>)
    ensures end.Some? ==> index <= end.value < |bytes| && end.value < index + budget
    decreases budget
  {
    if index >= |bytes| || budget == 0 then None
    else if bytes[index] < 128 then Some(index)
    else VarintEnd(bytes, index + 1, budget - 1)
  }

  const MAX_BYTES: nat := 9

  /** What a read yields: the value and the index of its last byte. */
  datatype ReadResult = Unreadable | Read(value: nat, last: nat)

  function ReadAt(bytes: seq<byte>, index: nat): ReadResult {
    var end := VarintEnd(bytes, index, MAX_BYTES);
    if end.None? then Unreadable else Read(Value(bytes[index..end.value + 1]), end.value)
  }

  lemma {:induction false} VarintEndIs(bytes: seq<byte>, index: nat, budget: nat, b: seq<byte>)
    requires index + |b| <= |bytes| && bytes[index..index + |b|] == b && IsVarint(b)
    ensures VarintEnd(bytes, index, budget) == if |b| <= budget then Some(index + |b| - 1) else None
    decreases budget
  {
    if budget > 0 {
      assert bytes[index] == b[0];
      if |b| > 1 {
        assert b[0] >= 128;
        var c := b[1..];
        assert bytes[index + 1..index + 1 + |c|] == c;
        VarintEndIs(bytes, index + 1, budget - 1, c);
      }
    }
  }

  /** A varint of up to nine bytes is read back in any context; a longer one is an error. */
  lemma ReadsVarint(bytes: seq<byte>, index: nat, b: seq<byte>)
    requires index + |b| <= |bytes| && bytes[index..index + |b|] == b && IsVarint(b)
    ensures ReadAt(bytes, index) == if |b| <= MAX_BYTES then Read(Value(b), index + |b| - 1) else Unreadable
  {
    VarintEndIs(bytes, index, MAX_BYTES, b);
    if |b| <= MAX_BYTES {
      assert VarintEnd(bytes, index, MAX_BYTES).value + 1 == index + |b|;
    }
  }

  lemma ReadIsBelowTwo63(bytes: seq<byte>, index: nat)
    requires ReadAt(bytes, index).Read?
    ensures ReadAt(bytes, index).value < TWO_63
  {
    var e := VarintEnd(bytes, index, MAX_BYTES).value;
    ValueBound(bytes[index..e + 1]);
    Pow2Mono(7 * (e + 1 - index), 63);
    Pow2Of63();
  }

  lemma {:induction false} Pow2Mono(a: nat, b: nat)
    requires a <= b
    ensures Pow2(a) <= Pow2(b)
    decreases b
  {
    if a < b { Pow2Mono(a, b - 1); }
  }

  lemma Pow2Of63()
    ensures Pow2(63) == TWO_63
  {
    assert Pow2(21) == 0x20_0000 by { Pow2Plus7(0); Pow2Plus7(7); Pow2Plus7(14); }
    assert Pow2(42) == 0x400_0000_0000 by { Pow2Plus7(21); Pow2Plus7(28); Pow2Plus7(35); }
    assert Pow2(63) == TWO_63 by { Pow2Plus7(42); Pow2Plus7(49); Pow2Plus7(56); }
  }

  /** One more group of seven bits, the one at `index`. */
  lemma OneMoreGroup(bytes: seq<byte>, start: nat, index: nat)
    requires start <= index < |bytes| && index - start < MAX_BYTES
    ensures Value(bytes[start..index + 1])
            == Value(bytes[start..index]) + (bytes[index] % 128) * Pow2(7 * (index - start))
    ensures Value(bytes[start..index + 1]) < Pow2(7 * (index - start) + 7) <= TWO_63
  {
    var a, k := bytes[start..index], index - start;
    assert |a| == k && a + [bytes[index]] == bytes[start..index + 1];
    ValueAppend(a, bytes[index]);
    MulCommutes(bytes[index] % 128, Pow2(7 * k));
    ValueBound(a + [bytes[index]]);
    assert 7 * (k + 1) == 7 * k + 7;
    Pow2Mono(7 * k + 7, 63);
    Pow2Of63();
  }

  lemma MulCommutes(a: int, b: int)
    ensures a * b == b * a
  {
  }

  /** The reader. Its result is below 2^63, so a success is never mistaken for the error value;
      after an error the index has advanced over at most nine bytes and not beyond the end. The
      source combines the groups with a bitwise or, which is a sum because `r < 2^m`. */
  method GetBase128IntegerFromByteStream(bytes: seq<byte>, start: nat) returns (r: uint64, index: nat)
    requires start <= |bytes|
    ensures match ReadAt(bytes, start)
            case Read(value, last) => r == value < TWO_63 && index == last
            case Unreadable => r == STREAM_ERROR && index == Min(|bytes|, start + MAX_BYTES)
  {
    var m := 0;
    r, index := 0, start;
    while index < |bytes| && m <= 64 - 7
      invariant start <= index <= |bytes| && m == 7 * (index - start) && m <= 63
      invariant r == Value(bytes[start..index]) && r < Pow2(m)
      invariant VarintEnd(bytes, start, MAX_BYTES) == VarintEnd(bytes, index, MAX_BYTES - (index - start))
      decreases |bytes| - index
    {
      var b := bytes[index];
      OneMoreGroup(bytes, start, index);
      r := r + (b % 128) * Pow2(m);
      if b >= 128 {
        m := m + 7;
      } else {
        return;
      }
      index := index + 1;
    }
    r := STREAM_ERROR;
  }

  // ----------------------------------------------------------------------- writing

  /** The writer's loop condition: bit 7 and up, cut down to 32 bits. */
  predicate WritesOn(x: uint64) {
    Signed(x - x % 128, TWO_32) != 0
  }

  lemma WritesOnIff(x: uint64)
    ensures WritesOn(x) <==> x % TWO_32 >= 128
  {
    var q, l := x / TWO_32, x % TWO_32;
    var g, h := l / 128, l % 128;
    ModUnique(x, 128, 0x200_0000 * q + g, h);
    ModUnique(x - x % 128, TWO_32, q, 128 * g);
  }

  function Written(x: uint64): seq<byte> {
    if WritesOn(x) then [x % 128 + 128] + Written(x / 128) else [x % 128]
  }

  method WriteBase128IntToStream(n: uint64, bytes: seq<byte>) returns (out: seq<byte>)
    ensures out == bytes + Written(n)
  {
    var x := n;
    out := bytes;
    while true
      invariant out + Written(x) == bytes + Written(n)
      decreases x
    {
      var a := x % 128;
      if WritesOn(x) {
        assert out + ([a + 128] + Written(x / 128)) == (out + [a + 128]) + Written(x / 128);
        out := out + [a + 128];
        x := x / 128;
      } else {
        out := out + [a];
        return;
      }
    }
  }

  /** The writer stops before the end of a value when 25 bits above the current group are zero. */
  predicate StopsEarly(x: uint64) {
    x >= 128 && (x % TWO_32 < 128 || StopsEarly(x / 128))
  }

  lemma {:induction false} WrittenIsVarint(x: uint64)
    ensures IsVarint(Written(x))
    decreases x
  {
    WritesOnIff(x);
    if WritesOn(x) {
      WrittenIsVarint(x / 128);
      assert Written(x)[1..] == Written(x / 128);
    }
  }

  lemma ValueOfGroup(x: uint64, rest: seq<byte>)
    ensures Value([x % 128 + 128] + rest) == x % 128 + 128 * Value(rest)
    ensures Value([x % 128]) == x % 128
  {
    var g, h := [x % 128 + 128], [x % 128];
    assert (g + rest)[1..] == rest && (g + rest)[0] % 128 == x % 128;
    assert h[1..] == [] && h[0] % 128 == x % 128;
  }

  lemma {:induction false} WrittenValue(x: uint64)
    ensures if StopsEarly(x) then Value(Written(x)) < x else Value(Written(x)) == x
    decreases x
  {
    WritesOnIff(x);
    DivBounds(x, 128);
    if WritesOn(x) {
      WrittenValue(x / 128);
      ValueOfGroup(x, Written(x / 128));
    } else {
      ValueOfGroup(x, []);
    }
  }

  lemma {:induction false} WrittenLength(x: uint64, k: nat)
    requires !StopsEarly(x) && k > 0
    ensures |Written(x)| <= k <==> x < Pow2(7 * k)
    decreases k
  {
    WritesOnIff(x);
    Pow2Plus7(7 * (k - 1));
    if WritesOn(x) {
      if k > 1 {
        WrittenLength(x / 128, k - 1);
      } else {
        assert Pow2(0) == 1;
      }
    } else {
      Pow2Mono(7, 7 * k);
      Pow2Plus7(0);
    }
  }

  /** Writing a value and reading it back, with anything before and after, succeeds exactly when
      the writer does not stop early and nine bytes are enough. */
  lemma RoundTripIff(prefix: seq<byte>, x: uint64, suffix: seq<byte>)
    ensures ReadAt(prefix + Written(x) + suffix, |prefix|) == Read(x, |prefix| + |Written(x)| - 1)
            <==> !StopsEarly(x) && x < TWO_63
  {
    var bytes := prefix + Written(x) + suffix;
    MiddleOf(prefix, Written(x), suffix);
    WrittenIsVarint(x);
    ReadsVarint(bytes, |prefix|, Written(x));
    WrittenReadsIff(x);
  }

  /** 2^32 does not survive: its low 32 bits are zero, so the writer stops after one byte. */
  lemma RoundTripCanFail()
    ensures StopsEarly(0x1_0000_0000)
    ensures ReadAt(Written(0x1_0000_0000), 0) != Read(0x1_0000_0000, |Written(0x1_0000_0000)| - 1)
  {
    RoundTripIff([], 0x1_0000_0000, []);
    assert [] + Written(0x1_0000_0000) + [] == Written(0x1_0000_0000);
  }

  lemma MiddleOf(a: seq<byte>, b: seq<byte>, c: seq<byte>)
    ensures |a| + |b| <= |a + b + c| && (a + b + c)[|a|..|a| + |b|] == b
  {
  }

  lemma WrittenReadsIff(x: uint64)
    ensures |Written(x)| <= MAX_BYTES && Value(Written(x)) == x <==> !StopsEarly(x) && x < TWO_63
  {
    WrittenValue(x);
    Pow2Of63();
    if !StopsEarly(x) { WrittenLength(x, MAX_BYTES); }
  }

  lemma {:induction false} SmallNeverStopsEarly(x: uint64)
    requires x < TWO_32
    ensures !StopsEarly(x)
    decreases x
  {
    if x >= 128 { SmallNeverStopsEarly(x / 128); }
  }

  /** All 32-bit values make the round trip. */
  lemma RoundTrip32(prefix: seq<byte>, x: uint64, suffix: seq<byte>)
    requires x < TWO_32
    ensures ReadAt(prefix + Written(x) + suffix, |prefix|) == Read(x, |prefix| + |Written(x)| - 1)
  {
    SmallNeverStopsEarly(x);
    RoundTripIff(prefix, x, suffix);
  }
}
