/**
 Rounding to nearest, ties to even, as integer arithmetic, and the sticky right shift
 ("jamming") of the software FPU, nemu/src/cpu/fpu.c.

 A non-negative rational num/den is measured in units of 2^-149, the spacing of the
 subnormal binary32 numbers.  `Pack` is the closed form of the rounding: it gives the
 31-bit magnitude encoding, continued past the encoding of infinity.
 */
module Rounding {
  import opened Arithmetic

  /** num/den rounded to the nearest integer, ties to the even one. */
  function RoundNearestEven(num: nat, den: nat): (q: nat)
    requires den > 0
  {
    var q, r := num / den, num % den;
    if 2 * r > den || (2 * r == den && q % 2 == 1) then q + 1 else q
  }

  /** RoundNearestEven is within half of num/den, and even on a tie. */
  lemma RoundNearestEvenMeaning(num: nat, den: nat)
    requires den > 0
    ensures var q := RoundNearestEven(num, den);
            && 2 * (q * den) <= 2 * num + den
            && 2 * num <= 2 * (q * den) + den
            && (2 * (q * den) == 2 * num + den ==> q % 2 == 0)
            && (2 * num == 2 * (q * den) + den ==> q % 2 == 0)
  {
    var q, r := num / den, num % den;
    assert num == q * den + r;
    assert (q + 1) * den == q * den + den;
  }

  /** It is the only such integer. */
  lemma RoundNearestEvenUnique(num: nat, den: nat, q: nat)
    requires den > 0
    requires 2 * (q * den) <= 2 * num + den && 2 * num <= 2 * (q * den) + den
    requires 2 * (q * den) == 2 * num + den || 2 * num == 2 * (q * den) + den ==> q % 2 == 0
    ensures q == RoundNearestEven(num, den)
  {
    RoundNearestEvenMeaning(num, den);
    hide RoundNearestEven;
    var p := RoundNearestEven(num, den);
    if p < q {
      NextMultiple(p, q, den);
    } else if q < p {
      NextMultiple(q, p, den);
    }
  }

  lemma NextMultiple(p: nat, q: nat, den: nat)
    requires den > 0 && p < q
    ensures q * den >= p * den + den
    ensures q > p + 1 ==> q * den >= p * den + 2 * den
  {
    MulMonotone(p + 1, q, den);
    assert (p + 1) * den == p * den + den;
    if q > p + 1 {
      MulMonotone(p + 2, q, den);
      assert (p + 2) * den == p * den + 2 * den;
    }
  }

  lemma RoundScale(num: nat, den: nat, c: nat)
    requires den > 0 && c > 0
    ensures c * den > 0
    ensures RoundNearestEven(c * num, c * den) == RoundNearestEven(num, den)
  {
    DivScale(num, den, c);
    var r := num % den;
    assert 2 * (c * r) == c * (2 * r);
    if 2 * r < den {
      MulStrict(2 * r, den, c);
    } else if 2 * r > den {
      MulStrict(den, 2 * r, c);
    }
  }

  /** x divided by d, with the lowest bit set when the division was not exact. */
  function Jam(x: nat, d: nat): nat
    requires d > 0
  {
    var h := x / d;
    if x % d != 0 && h % 2 == 0 then h + 1 else h
  }

  /** x | bit, for a bit that is 0 or 1. */
  function OrBit(x: nat, bit: nat): nat {
    if bit == 1 && x % 2 == 0 then x + 1 else x
  }

  /** Jamming by d and then shifting one more bit is jamming by 2d. */
  lemma JamStep(x: nat, d: nat)
    requires d > 0
    ensures Jam(Jam(x, d), 2) == Jam(x, d * 2)
  {
    DivDiv(x, d, 2);
    var h, l := x / d, x % d;
    if h % 2 == 0 {
      assert h % 2 * d == 0;
    } else {
      assert h % 2 * d == d;
    }
  }

  /** Jamming by 2 keeps the order with respect to even bounds. */
  lemma JamCompare(x: nat, bound: nat)
    requires bound % 2 == 0
    ensures Jam(x, 2) < bound <==> x < 2 * bound
  {
  }

  /** Rounding does not see the jamming when the jammed bit is below the half position. */
  lemma RoundJam(x: nat, d: nat, c: nat)
    requires d > 0 && c > 0
    ensures 4 * c * d > 0
    ensures RoundNearestEven(Jam(x, d), 4 * c) == RoundNearestEven(x, 4 * c * d)
  {
    var h, l := x / d, x % d;
    DivDiv(x, d, 4 * c);
    assert d * (4 * c) == 4 * c * d;
    JamRemainder(h, c, l != 0);
    JamHalf(h % (4 * c), c, d, l);
  }

  /** The jammed number keeps its quotient, and its remainder is the jammed remainder. */
  lemma JamRemainder(h: nat, c: nat, lost: bool)
    requires c > 0
    ensures var j := if lost && h % 2 == 0 then h + 1 else h;
            var r := h % (4 * c);
            && j / (4 * c) == h / (4 * c)
            && j % (4 * c) == (if lost && r % 2 == 0 then r + 1 else r)
  {
    var q, r := h / (4 * c), h % (4 * c);
    assert h == q * (4 * c) + r;
    assert q * (4 * c) == 2 * (q * (2 * c));
    var j := if lost && h % 2 == 0 then h + 1 else h;
    DivModUnique(j, 4 * c, q, if lost && r % 2 == 0 then r + 1 else r);
  }

  /** The jammed remainder lies on the same side of the half position as the exact one. */
  lemma JamHalf(r: nat, c: nat, d: nat, l: nat)
    requires c > 0 && r < 4 * c && l < d
    ensures var r' := if l != 0 && r % 2 == 0 then r + 1 else r;
            && (2 * r' > 4 * c <==> 2 * (r * d + l) > 4 * c * d)
            && (2 * r' == 4 * c <==> 2 * (r * d + l) == 4 * c * d)
  {
    assert 4 * c * d == 2 * (2 * c * d);
    if r < 2 * c {
      MulMonotone(r + 1, 2 * c, d);
      assert (r + 1) * d == r * d + d;
    } else if r > 2 * c {
      MulMonotone(2 * c + 1, r, d);
      assert (2 * c + 1) * d == 2 * c * d + d;
    }
  }

  /**
   The binary32 magnitude encoding of num/den rounded to nearest even: 2^23 per binade.
   Values that round to 2^128 or more give encodings from 0x7f800000 up.
   */
  function Pack(num: nat, den: nat): nat
    requires den > 0
    decreases if num < 0x100_0000 * den then 0 else num - 0x100_0000 * den + 1
  {
    if num < 0x100_0000 * den then RoundNearestEven(num, den) else 0x80_0000 + Pack(num, 2 * den)
  }

  lemma ScaleCompare(x: int, y: int, c: nat)
    requires c > 0
    ensures c * x < c * y <==> x < y
  {
    if x < y {
      MulStrict(x, y, c);
    } else {
      MulMonotone(y, x, c);
    }
  }

  lemma {:induction false} PackScale(num: nat, den: nat, c: nat)
    requires den > 0 && c > 0
    ensures c * den > 0
    ensures Pack(c * num, c * den) == Pack(num, den)
    decreases if num < 0x100_0000 * den then 0 else num - 0x100_0000 * den + 1
  {
    hide RoundNearestEven;
    ScaleCompare(num, 0x100_0000 * den, c);
    ScaleCompare(0, den, c);
    if num < 0x100_0000 * den {
      RoundScale(num, den, c);
    } else {
      PackScale(num, 2 * den, c);
      assert c * (2 * den) == 2 * (c * den);
    }
  }

  /** Pack depends only on the ratio. */
  lemma PackRatio(n1: nat, d1: nat, n2: nat, d2: nat)
    requires d1 > 0 && d2 > 0
    requires n1 * d2 == n2 * d1
    ensures Pack(n1, d1) == Pack(n2, d2)
  {
    PackScale(n1, d1, d2);
    PackScale(n2, d2, d1);
    assert d2 * n1 == d1 * n2;
    assert d2 * d1 == d1 * d2;
  }

  /** Each doubling of a number that is normal already adds one binade. */
  lemma {:induction false} PackPeel(y: nat, den: nat, m: nat)
    requires den > 0
    requires 2 * y >= 0x100_0000 * den
    ensures Pack(y * Pow2(m), den) == 0x80_0000 * m + Pack(y, den)
  {
    if m == 0 {
      assert y * Pow2(0) == y;
    } else {
      var p := Pow2(m - 1);
      assert y * Pow2(m) == 2 * (y * p) by {
        assert Pow2(m) == 2 * p;
      }
      assert y * p >= y by {
        MulMonotone(1, p, y);
        assert p * y == y * p;
      }
      PackPeel(y, den, m - 1);
      PackScale(y * p, den, 2);
    }
  }

  /** Jamming keeps the order with respect to even bounds. */
  lemma JamBound(x: nat, d: nat, t: nat)
    requires d > 0 && t % 2 == 0
    ensures Jam(x, d) < t <==> x < t * d
    ensures x / d < t <==> x < t * d
  {
    var h, l := x / d, x % d;
    assert x == h * d + l;
    if h < t {
      MulMonotone(h + 1, t, d);
      assert (h + 1) * d == h * d + d;
    } else {
      MulMonotone(t, h, d);
    }
  }

  /** Jamming before rounding is harmless when the quantum is at least four. */
  lemma {:induction false} PackJam(x: nat, d: nat, den: nat)
    requires d > 0 && den > 0 && den % 4 == 0
    ensures den * d > 0
    ensures Pack(Jam(x, d), den) == Pack(x, den * d)
    decreases if x / d < 0x100_0000 * den then 0 else x / d - 0x100_0000 * den + 1
  {
    hide RoundNearestEven, Jam;
    JamBound(x, d, 0x100_0000 * den);
    Reassociate(0x100_0000, den, d);
    if x / d < 0x100_0000 * den {
      RoundJam(x, d, den / 4);
    } else {
      PackJam(x, d, 2 * den);
      Reassociate(2, den, d);
    }
  }

  lemma Reassociate(c: nat, x: nat, y: nat)
    ensures c * x * y == c * (x * y)
    ensures x > 0 && y > 0 ==> x * y > 0
  {
  }

  lemma {:induction false} PackAtLeast(num: nat, den: nat)
    requires den > 0 && num >= 0x80_0000 * den
    ensures Pack(num, den) >= 0x80_0000
  {
    var q := num / den;
    assert num == q * den + num % den;
    if q < 0x80_0000 {
      MulMonotone(q, 0x7f_ffff, den);
    }
  }

  /** Where the quotient was cut off at a tie: the case in which truncation changes rounding. */
  predicate LostTie(num: nat, divisor: nat, den: nat)
    requires divisor > 0 && den > 0
    decreases if num / divisor < 0x100_0000 * den then 0 else num / divisor - 0x100_0000 * den + 1
  {
    var q := num / divisor;
    if q < 0x100_0000 * den then
      2 * (q % den) == den && num % divisor != 0 && q / den % 2 == 0
    else
      LostTie(num, divisor, 2 * den)
  }

  lemma RoundTruncated(num: nat, divisor: nat, den: nat)
    requires divisor > 0 && den > 0 && den % 2 == 0
    ensures den * divisor > 0
    ensures var q := num / divisor;
            RoundNearestEven(num, den * divisor) ==
            RoundNearestEven(q, den) + (if 2 * (q % den) == den && num % divisor != 0 && q / den % 2 == 0 then 1 else 0)
  {
    var q, l := num / divisor, num % divisor;
    DivDiv(num, divisor, den);
    assert divisor * den == den * divisor;
    var r := q % den;
    var half := den / 2;
    assert num % (den * divisor) == r * divisor + l;
    assert den * divisor == 2 * (half * divisor) by {
      assert den == 2 * half;
    }
    if r < half {
      MulMonotone(r, half - 1, divisor);
      assert (half - 1) * divisor == half * divisor - divisor;
    } else if r > half {
      MulMonotone(half + 1, r, divisor);
      assert (half + 1) * divisor == half * divisor + divisor;
    }
  }

  /** Rounding the truncated quotient differs from rounding the true one exactly on a lost tie. */
  lemma {:induction false} PackTruncated(num: nat, divisor: nat, den: nat)
    requires divisor > 0 && den > 0 && den % 2 == 0
    ensures den * divisor > 0
    ensures Pack(num, den * divisor) == Pack(num / divisor, den) + (if LostTie(num, divisor, den) then 1 else 0)
    decreases if num / divisor < 0x100_0000 * den then 0 else num / divisor - 0x100_0000 * den + 1
  {
    hide RoundNearestEven;
    JamBound(num, divisor, 0x100_0000 * den);
    Reassociate(0x100_0000, den, divisor);
    if num / divisor < 0x100_0000 * den {
      RoundTruncated(num, divisor, den);
    } else {
      PackTruncated(num, divisor, 2 * den);
      Reassociate(2, den, divisor);
    }
  }
}
