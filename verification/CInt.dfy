/** The pieces of C++ integer arithmetic that differ from Dafny's: division that truncates
    toward zero, and unsigned arithmetic that wraps around. */
module CInt {
  const TWO_32: int := 0x1_0000_0000
  const TWO_63: int := 0x8000_0000_0000_0000
  const TWO_64: int := 0x1_0000_0000_0000_0000

  type uint64 = x: int | 0 <= x < 0x1_0000_0000_0000_0000
  type uint32 = x: int | 0 <= x < 0x1_0000_0000
  type byte = x: int | 0 <= x < 0x100

  /** C++ `a / b` for a positive divisor. */
  function Quot(a: int, b: int): int
    requires b > 0
  {
    if a >= 0 then a / b else -((-a) / b)
  }

  /** C++ `a % b` for a positive divisor: takes the sign of the dividend. */
  function Rem(a: int, b: int): int
    requires b > 0
  {
    a - b * Quot(a, b)
  }

  function Min(a: int, b: int): int { if a <= b then a else b }

  function Max(a: int, b: int): int { if a <= b then b else a }

  function Abs(a: int): int { if a < 0 then -a else a }

  /** The two's complement reading of an unsigned word of `modulus` values. */
  function Signed(x: int, modulus: int): int
    requires modulus > 0
  {
    var low := x % modulus;
    if 2 * low < modulus then low else low - modulus
  }

  lemma MulLe(a: int, b: int, c: int)
    requires a <= b && 0 <= c
    ensures a * c <= b * c
  {
  }

  lemma MulLt(a: int, b: int, c: int)
    requires a < b && 0 < c
    ensures a * c + c <= b * c
  {
    MulLe(a + 1, b, c);
  }

  lemma QuotOfProduct(n: int, a: int)
    requires n > 0 && a >= 0
    ensures n * a >= 0 && Quot(n * a, n) == a
  {
    var q := (n * a) / n;
    assert n * a == n * q + (n * a) % n;
    if q < a {
      MulLe(q + 1, a, n);
    } else if q > a {
      MulLe(a + 1, q, n);
    }
  }

  lemma DivBounds(a: int, b: int)
    requires b > 0
    ensures b * (a / b) <= a < b * (a / b) + b
    ensures a >= b ==> a / b >= 1
  {
  }

  lemma AddKeepsMod(a: int, p: int)
    requires p > 0
    ensures (a + p) % p == a % p
  {
    var q, r := a / p, a % p;
    assert a + p == p * (q + 1) + r;
    ModUnique(a + p, p, q + 1, r);
  }

  lemma ModUnique(a: int, p: int, q: int, r: int)
    requires p > 0 && a == p * q + r && 0 <= r < p
    ensures a % p == r && a / p == q
  {
    var q', r' := a / p, a % p;
    assert a == p * q' + r';
    if q < q' { MulLe(q + 1, q', p); } else if q' < q { MulLe(q' + 1, q, p); }
  }

  /** Division and remainder of naturals. */
  function DivNat(a: nat, b: nat): (q: nat)
    requires b > 0
    ensures b * q <= a < b * q + b
  {
    DivBounds(a, b);
    QuotientIsNat(a, b);
    a / b
  }

  function ModNat(a: nat, b: nat): (r: nat)
    requires b > 0
    ensures r < b && a == r + b * DivNat(a, b)
  {
    a % b
  }

  lemma QuotientIsNat(a: nat, b: nat)
    requires b > 0
    ensures a / b >= 0
  {
    DivBounds(a, b);
    if a / b < 0 { MulLe(a / b, -1, b); }
  }
}
