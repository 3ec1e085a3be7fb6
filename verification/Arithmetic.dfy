/**
 Integer arithmetic shared by the models: powers of two, division facts and the
 32-bit unsigned integer type of the C sources.
 */
module Arithmetic {

  const WORD: nat := 0x1_0000_0000

  /** The values of a C `uint32_t`. */
  type uint32 = x: int | 0 <= x < 0x1_0000_0000

  /** The values of a C `uint64_t`. */
  type uint64 = x: int | 0 <= x < 0x1_0000_0000_0000_0000

  /** The values of a C `int32_t`. */
  type int32 = x: int | -0x8000_0000 <= x < 0x8000_0000

  /** The values of a C `uint8_t`. */
  type byte = x: int | 0 <= x < 0x100

  /** Conversion to `uint32_t`: reduction modulo 2^32. */
  function Wrap32(x: int): uint32 {
    x % WORD
  }

  lemma WrapNegation(x: uint32)
    ensures Wrap32(-(x as int)) == if x == 0 then 0 else WORD - x
  {
  }

  lemma WrapSum(x: uint32, y: uint32)
    ensures Wrap32(x + y) == if x + y < WORD then x + y else x + y - WORD
  {
  }

  lemma WrapDifference(x: uint32, y: uint32)
    ensures Wrap32(x - y) == if x >= y then x - y else x - y + WORD
  {
  }

  /** Conversion of a `uint32_t` to `int32_t` (two's complement). */
  function AsInt32(x: uint32): int32 {
    if x < 0x8000_0000 then x else x - WORD
  }

  lemma AsInt32OfWrap(x: int)
    requires -0x8000_0000 <= x < 0x8000_0000
    ensures AsInt32(Wrap32(x)) == x
  {
  }

  function Abs(x: int): nat {
    if x < 0 then -x else x
  }

  function Min(x: int, y: int): int {
    if x <= y then x else y
  }

  function Pow2(n: nat): (p: nat)
    ensures p > 0
  {
    if n == 0 then 1 else 2 * Pow2(n - 1)
  }

  lemma PowZero()
    ensures Pow2(0) == 1
  {
  }

  lemma PowStep(k: nat)
    ensures Pow2(k + 1) == 2 * Pow2(k)
  {
  }

  lemma PowEight()
    ensures Pow2(8) == 0x100
  {
  }

  lemma PowThirtyTwo()
    ensures Pow2(32) == WORD
  {
    PowEight();
    PowDouble(8);
    PowDouble(16);
    hide Pow2;
  }

  lemma PowTwentyFour()
    ensures Pow2(24) == 0x100_0000
  {
    assert Pow2(12) == 0x1000;
    hide Pow2;
    PowDouble(12);
  }

  lemma {:induction false} Pow2Add(m: nat, n: nat)
    ensures Pow2(m + n) == Pow2(m) * Pow2(n)
  {
    if m > 0 {
      Pow2Add(m - 1, n);
      assert Pow2(m + n) == 2 * (Pow2(m - 1) * Pow2(n));
    }
  }

  lemma {:induction false} Pow2Monotone(m: nat, n: nat)
    requires m <= n
    ensures Pow2(m) <= Pow2(n)
  {
    if m < n {
      Pow2Monotone(m, n - 1);
    }
  }

  /** Quotient and remainder are determined by the division equation. */
  lemma DivModUnique(n: int, d: int, q: int, r: int)
    requires 0 <= r < d
    requires n == q * d + r
    ensures n / d == q
    ensures n % d == r
  {
    var q', r' := n / d, n % d;
    assert n == q' * d + r';
    assert (q - q') * d == r' - r;
    assert (q' - q) * d == r - r';
    if q > q' {
      MulAtLeast(q - q', d);
    } else if q < q' {
      MulAtLeast(q' - q, d);
    }
  }

  /** The product of natural numbers, as a natural number. */
  function Times(x: nat, y: nat): nat {
    x * y
  }

  /** The quotient of natural numbers, as a natural number. */
  function Over(n: nat, d: nat): nat
    requires d > 0
  {
    n / d
  }

  lemma PowDouble(n: nat)
    ensures Pow2(2 * n) == Pow2(n) * Pow2(n)
  {
    hide Pow2;
    Pow2Add(n, n);
  }

  lemma {:induction false} ScaleSplit(h: nat, m: nat, n: nat)
    ensures h * Pow2(m + n) == h * Pow2(m) * Pow2(n)
  {
    Pow2Add(m, n);
    var p, q := Pow2(m), Pow2(n);
    assert h * (p * q) == h * p * q;
  }

  lemma MulAtLeast(k: int, d: int)
    requires k >= 1 && d >= 0
    ensures k * d >= d
  {
  }

  lemma MulMonotone(x: int, y: int, c: int)
    requires x <= y && c >= 0
    ensures x * c <= y * c
  {
  }

  lemma MulStrict(x: int, y: int, c: int)
    requires x < y && c > 0
    ensures x * c < y * c
  {
  }

  lemma MulCancel(x: int, y: int, c: int)
    requires x * c == y * c && c > 0
    ensures x == y
  {
    if x < y {
      MulStrict(x, y, c);
    } else if y < x {
      MulStrict(y, x, c);
    }
  }

  /** Scaling dividend and divisor keeps the quotient and scales the remainder. */
  lemma DivScale(n: nat, d: nat, c: nat)
    requires d > 0 && c > 0
    ensures c * d > 0
    ensures (c * n) / (c * d) == n / d
    ensures (c * n) % (c * d) == c * (n % d)
  {
    var q, r := n / d, n % d;
    assert n == q * d + r;
    assert c * n == q * (c * d) + c * r by {
      assert c * (q * d + r) == c * (q * d) + c * r;
      assert c * (q * d) == q * (c * d);
    }
    MulStrict(r, d, c);
    DivModUnique(c * n, c * d, q, c * r);
  }

  /** Dividing by two factors, one after the other. */
  lemma DivDiv(n: nat, d: nat, c: nat)
    requires d > 0 && c > 0
    ensures d * c > 0
    ensures n / (d * c) == (n / d) / c
    ensures n % (d * c) == (n / d) % c * d + n % d
  {
    var h, l := n / d, n % d;
    var q, r := h / c, h % c;
    assert n == h * d + l;
    assert h == q * c + r;
    assert h * d == q * (d * c) + r * d by {
      assert (q * c + r) * d == q * c * d + r * d;
      assert q * c * d == q * (d * c);
    }
    MulMonotone(r, c - 1, d);
    assert (c - 1) * d == d * c - d;
    DivModUnique(n, d * c, q, r * d + l);
  }
}
