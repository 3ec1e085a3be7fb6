/**
 How good the division is where it is not correctly rounded: the result is within
 1/2 + 2^-16 units in the last place, and it is exact whenever the quotient is representable.
 */
module FpuDivAccuracy {
  import opened Arithmetic
  import opened Rounding
  import opened Binary32
  import opened FpuSpec
  import opened Normalize
  import opened FpuAdd
  import opened FpuMul
  import opened FpuDiv

  /** The spacing of the binary32 numbers around num/den (one unit in the last place). */
  function Ulp(num: nat, den: nat): (u: nat)
    requires den > 0
    ensures u > 0
    decreases if num < 0x100_0000 * den then 0 else num - 0x100_0000 * den + 1
  {
    if num < 0x100_0000 * den then 1 else 2 * Ulp(num, 2 * den)
  }

  // ----- a lost tie lies strictly between two neighbouring numbers

  lemma {:induction false} LostTieBetween(num: nat, divisor: nat, den: nat)
    requires divisor > 0 && den > 0
    requires LostTie(num, divisor, den)
    ensures var p := Pack(num / divisor, den);
            UnitsOf(p) * (den * divisor) < num < UnitsOf(p + 1) * (den * divisor)
    decreases if num / divisor < 0x100_0000 * den then 0 else num / divisor - 0x100_0000 * den + 1
  {
    hide RoundNearestEven;
    var q := num / divisor;
    if q < 0x100_0000 * den {
      LostTieBase(num, divisor, den);
    } else {
      LostTieBetween(num, divisor, 2 * den);
      PackAtLeast(q, 2 * den);
      var p := Pack(q, 2 * den);
      DoubleScale(UnitsOf(p), den, divisor);
      DoubleScale(UnitsOf(p + 1), den, divisor);
    }
  }

  lemma DoubleScale(u: nat, den: nat, divisor: nat)
    ensures u * (2 * den * divisor) == 2 * u * (den * divisor)
  {
    assert 2 * den * divisor == 2 * (den * divisor);
    DoubleMul(u, den * divisor);
  }

  lemma LostTieBase(num: nat, divisor: nat, den: nat)
    requires divisor > 0 && den > 0
    requires num / divisor < 0x100_0000 * den
    requires LostTie(num, divisor, den)
    ensures var p := RoundNearestEven(num / divisor, den);
            && UnitsOf(p) == p && UnitsOf(p + 1) == p + 1
            && p * (den * divisor) < num < (p + 1) * (den * divisor)
  {
    var q, l := num / divisor, num % divisor;
    var n, r := q / den, q % den;
    assert num == q * divisor + l;
    assert q == n * den + r;
    LostTieOrder(num, divisor, den, n, r, q, l);
    if n >= 0x100_0000 {
      MulMonotone(0x100_0000, n, den);
    }
  }

  lemma LostTieOrder(num: nat, divisor: nat, den: nat, n: nat, r: nat, q: nat, l: nat)
    requires 0 < l < divisor && 0 < r < den
    requires num == q * divisor + l && q == n * den + r
    ensures n * (den * divisor) < num < (n + 1) * (den * divisor)
  {
    assert q * divisor == n * (den * divisor) + r * divisor by {
      assert (n * den + r) * divisor == n * den * divisor + r * divisor;
      assert n * den * divisor == n * (den * divisor);
    }
    assert (n + 1) * (den * divisor) == n * (den * divisor) + den * divisor;
    MulMonotone(r + 1, den, divisor);
    assert (r + 1) * divisor == r * divisor + divisor;
    MulMonotone(0, r, divisor);
  }

  /** A number between two neighbours is not representable. */
  lemma NotRepresentable(num: nat, den: nat, p: nat, m: nat)
    requires den > 0
    requires UnitsOf(p) * den < num < UnitsOf(p + 1) * den
    ensures num != UnitsOf(m) * den
  {
    if m <= p {
      if m < p {
        UnitsOfMonotone(m, p);
      }
      MulMonotone(UnitsOf(m), UnitsOf(p), den);
    } else {
      if m > p + 1 {
        UnitsOfMonotone(p + 1, m);
      }
      MulMonotone(UnitsOf(p + 1), UnitsOf(m), den);
    }
  }

  // ----- the same over the exponent of the quotient

  lemma NextBinadeUnits(p: nat)
    requires p >= 0x80_0000
    ensures UnitsOf(0x80_0000 + p) == 2 * UnitsOf(p)
  {
  }

  lemma Doubled(u: nat, c: nat)
    ensures u * (2 * c) == 2 * (u * c)
  {
  }

  lemma {:induction false} UnitsOfBinades(p: nat, k: nat)
    requires p >= 0x80_0000
    ensures UnitsOf(0x80_0000 * k + p) == UnitsOf(p) * Pow2(k)
  {
    if k > 0 {
      UnitsOfBinades(p, k - 1);
      NextBinadeUnits(0x80_0000 * (k - 1) + p);
      hide UnitsOf, Pow2;
      PowStep(k - 1);
      Doubled(UnitsOf(p), Pow2(k - 1));
    } else {
      PowZero();
    }
  }

  /** A lost tie at any exponent: the rounded quotient and its successor enclose the true one. */
  lemma LostTieEncloses(exp: int, num: nat, divisor: nat)
    requires divisor > 0 && num >= 0x80_0000_0000 * divisor
    requires LostTie(num, divisor, Denominator(exp))
    ensures var p := Packed(exp, Over(num, divisor));
            var den := Denominator(exp) * divisor;
            UnitsOf(p) * den < Numerator(exp, num) < UnitsOf(p + 1) * den
  {
    hide LostTie, Pack, UnitsOf;
    var q := Over(num, divisor);
    LostTieBetween(num, divisor, Denominator(exp));
    if exp >= 1 {
      OverAtLeast(num, divisor, 0x80_0000_0000);
      PackedNormal(exp, q);
      PackAtLeast(q, 8);
      var p := Pack(q, 8);
      UnitsOfBinades(p, exp - 1);
      UnitsOfBinades(p + 1, exp - 1);
      ScaleBetween(UnitsOf(p), UnitsOf(p + 1), num, 8 * divisor, Pow2(exp - 1));
    }
  }

  lemma ScaleBetween(x: nat, y: nat, num: nat, den: nat, c: nat)
    requires c > 0 && x * den < num < y * den
    ensures x * c * den < num * c < y * c * den
  {
    MulStrict(x * den, num, c);
    MulStrict(num, y * den, c);
    assert x * c * den == x * den * c;
    assert y * c * den == y * den * c;
  }

  /** A representable quotient leaves no lost tie. */
  lemma RepresentableLosesNothing(exp: int, num: nat, divisor: nat, num': nat, den': nat, m: nat)
    requires divisor > 0 && den' > 0 && num >= 0x80_0000_0000 * divisor
    requires num' * (Denominator(exp) * divisor) == Numerator(exp, num) * den'
    requires num' == UnitsOf(m) * den'
    ensures !LostTie(num, divisor, Denominator(exp))
  {
    hide *;
    var den := Denominator(exp) * divisor;
    assert Numerator(exp, num) == UnitsOf(m) * den by {
      SwapFactors(UnitsOf(m), den', den);
      MulCancel(Numerator(exp, num), UnitsOf(m) * den, den');
    }
    if LostTie(num, divisor, Denominator(exp)) {
      LostTieEncloses(exp, num, divisor);
      PositiveProduct(Denominator(exp), divisor);
      NotRepresentable(Numerator(exp, num), den, Packed(exp, Over(num, divisor)), m);
    }
  }

  lemma PositiveProduct(x: nat, y: nat)
    requires x > 0 && y > 0
    ensures x * y > 0
  {
  }

  lemma SwapFactors(x: nat, y: nat, z: nat)
    ensures x * y * z == x * z * y
  {
  }

  lemma RepresentableNotBelow(num: nat, den: nat, m: nat)
    requires den > 0 && num == UnitsOf(m) * den
    ensures !RoundsUpToNormal(num, den)
  {
    if m < 0x80_0000 {
      MulMonotone(m, 0x7f_ffff, den);
    } else {
      if m > 0x80_0000 {
        UnitsOfMonotone(0x80_0000, m);
      }
      MulMonotone(0x80_0000, UnitsOf(m), den);
    }
  }

  /** Whenever a / b is representable the division returns exactly a / b. */
  lemma RepresentableQuotientIsExact(a: uint32, b: uint32, m: nat)
    requires IsFinite(a) && IsFinite(b) && !IsZero(a) && !IsZero(b)
    ensures Significand(a) > 0 && Significand(b) > 0
    ensures m < INFINITY && Times(Units(a), Pow2(149)) == UnitsOf(m) * Units(b) ==>
              DivSupported(a, b) && StoredQuotient(a, b) == m
  {
    hide *;
    FiniteQuotient(a, b, 0);
    QuotientBounds(a, b);
    ExactQuotient(a, b);
    LostTieUnfold(a, b);
    var num, den := Times(Units(a), Pow2(149)), Units(b);
    if m < INFINITY && num == UnitsOf(m) * den {
      RepresentableLosesNothing(QuotientExponent(a, b), Dividend(a), Divisor(b), num, den, m);
      RepresentableNotBelow(num, den, m);
      TruncatedCorrectIff(QuotientExponent(a, b), Dividend(a), Divisor(b), num, den);
      RepresentableIsExact(num, den, m);
      CorrectlyRoundedUnique(num, den, m, StoredQuotient(a, b));
    }
  }

  // ----- the error bound

  /** m is within 1/2 + 2^-16 units in the last place of num/den. */
  predicate WithinBound(num: nat, den: nat, m: nat)
    requires den > 0
  {
    0x1_0000 * Abs(UnitsOf(m) * den - num) <= 0x8001 * (Ulp(num, den) * den)
  }

  /** Correct rounding is within half a unit. */
  lemma {:induction false} PackWithinHalf(num: nat, den: nat)
    requires den > 0
    ensures 2 * Abs(UnitsOf(Pack(num, den)) * den - num) <= Ulp(num, den) * den
    decreases if num < 0x100_0000 * den then 0 else num - 0x100_0000 * den + 1
  {
    hide RoundNearestEven;
    if num < 0x100_0000 * den {
      RoundNearestEvenMeaning(num, den);
      var p := RoundNearestEven(num, den);
      if p > 0x100_0000 {
        MulMonotone(0x100_0001, p, den);
      }
      assert UnitsOf(p) == p;
    } else {
      PackWithinHalf(num, 2 * den);
      PackAtLeast(num, 2 * den);
      DoubleMul(UnitsOf(Pack(num, 2 * den)), den);
      DoubleMul(Ulp(num, 2 * den), den);
    }
  }

  lemma {:induction false} LostTieWithinBound(num: nat, divisor: nat, den: nat, k: nat)
    requires divisor > 0 && den == Pow2(k) && num / divisor >= 0x80_0000_0000
    requires LostTie(num, divisor, den)
    ensures den * divisor > 0
    ensures WithinBound(num, den * divisor, Pack(num / divisor, den))
    decreases if num / divisor < 0x100_0000 * den then 0 else num / divisor - 0x100_0000 * den + 1
  {
    hide RoundNearestEven, WithinBound, Pow2;
    var q := num / divisor;
    OverUlp(num, divisor, den);
    if q < 0x100_0000 * den {
      LostTieBaseError(num, divisor, k);
    } else {
      PowStep(k);
      LostTieWithinBound(num, divisor, 2 * den, k + 1);
      PackAtLeast(q, 2 * den);
      assert 2 * den * divisor == 2 * (den * divisor);
      BoundDoubles(num, den * divisor, Pack(q, 2 * den));
    }
  }

  lemma BoundDoubles(num: nat, den: nat, p: nat)
    requires den > 0 && p >= 0x80_0000 && num >= 0x100_0000 * den
    requires WithinBound(num, 2 * den, p)
    ensures WithinBound(num, den, 0x80_0000 + p)
  {
    DoubleMul(UnitsOf(p), den);
    DoubleMul(Ulp(num, 2 * den), den);
  }

  lemma OverUlp(num: nat, divisor: nat, den: nat)
    requires divisor > 0 && den > 0
    ensures den * divisor > 0
    ensures num < 0x100_0000 * (den * divisor) <==> num / divisor < 0x100_0000 * den
  {
    OverAtLeast(num, divisor, 0x100_0000 * den);
    assert 0x100_0000 * den * divisor == 0x100_0000 * (den * divisor);
    MulMonotone(1, den, divisor);
  }

  lemma LostTieBaseError(num: nat, divisor: nat, k: nat)
    requires divisor > 0 && 0x80_0000_0000 <= num / divisor < 0x100_0000 * Pow2(k)
    requires LostTie(num, divisor, Pow2(k))
    requires num < 0x100_0000 * (Pow2(k) * divisor)
    ensures Pow2(k) * divisor > 0
    ensures WithinBound(num, Pow2(k) * divisor, RoundNearestEven(num / divisor, Pow2(k)))
  {
    var q, l, den := num / divisor, num % divisor, Pow2(k);
    var n := q / den;
    LargePower(k);
    assert num == q * divisor + l;
    assert q == n * den + q % den;
    LostTieBase(num, divisor, den);
    TieDistance(num, divisor, den, n, q, l);
  }

  /** A power of two above 2^15 is at least 2^16. */
  lemma LargePower(k: nat)
    requires 0x80_0000_0000 < 0x100_0000 * Pow2(k)
    ensures Pow2(k) >= 0x1_0000
  {
    PowDouble(8);
    assert Pow2(8) == 0x100 && Pow2(7) == 0x80;
    Pow2Add(7, 8);
    if k >= 16 {
      Pow2Monotone(16, k);
    } else {
      Pow2Monotone(k, 15);
    }
  }

  lemma TieDistance(num: nat, divisor: nat, den: nat, n: nat, q: nat, l: nat)
    requires l < divisor && den >= 0x1_0000
    requires num == q * divisor + l && 2 * q == 2 * (n * den) + den
    ensures num >= n * (den * divisor)
    ensures 0x1_0000 * (num - n * (den * divisor)) <= 0x8001 * (den * divisor)
  {
    assert 2 * (q * divisor) == 2 * (n * (den * divisor)) + den * divisor by {
      assert 2 * q * divisor == (2 * (n * den) + den) * divisor;
      assert (2 * (n * den) + den) * divisor == 2 * (n * den * divisor) + den * divisor;
      assert n * den * divisor == n * (den * divisor);
    }
    MulMonotone(0x1_0000, den, divisor);
  }

  // ----- the bound at the exponent of the quotient, and for the operands

  lemma {:induction false} UlpPeel(y: nat, den: nat, m: nat)
    requires den > 0 && 2 * y >= 0x100_0000 * den
    ensures Ulp(y * Pow2(m), den) == Pow2(m) * Ulp(y, den)
  {
    if m > 0 {
      var p := Pow2(m - 1);
      assert y * Pow2(m) == 2 * (y * p);
      MulMonotone(1, p, y);
      UlpPeel(y, den, m - 1);
      UlpScale(y * p, den, 2);
      DoubleMul(p, Ulp(y, den));
    }
  }

  lemma {:induction false} UlpScale(num: nat, den: nat, c: nat)
    requires den > 0 && c > 0
    ensures c * den > 0
    ensures Ulp(c * num, c * den) == Ulp(num, den)
    decreases if num < 0x100_0000 * den then 0 else num - 0x100_0000 * den + 1
  {
    ScaleCompare(num, 0x100_0000 * den, c);
    ScaleCompare(0, den, c);
    if num >= 0x100_0000 * den {
      UlpScale(num, 2 * den, c);
      assert c * (2 * den) == 2 * (c * den);
    }
  }

  lemma BoundScales(num: nat, den: nat, m: nat, c: nat)
    requires den > 0 && c > 0
    ensures c * den > 0
    ensures WithinBound(c * num, c * den, m) <==> WithinBound(num, den, m)
  {
    UlpScale(num, den, c);
    hide Ulp, UnitsOf, Abs;
    ScaleError(UnitsOf(m), num, den, Ulp(num, den), c);
  }

  lemma ScaleError(u: nat, num: nat, den: nat, w: nat, c: nat)
    requires c > 0
    ensures 0x1_0000 * Abs(u * (c * den) - c * num) <= 0x8001 * (w * (c * den)) <==>
            0x1_0000 * Abs(u * den - num) <= 0x8001 * (w * den)
  {
    assert u * (c * den) == c * (u * den);
    assert w * (c * den) == c * (w * den);
    assert c * (u * den) - c * num == c * (u * den - num);
    CompareScaled(u * den - num, w * den, c);
  }

  lemma CompareScaled(x: int, y: nat, c: nat)
    requires c > 0
    ensures 0x1_0000 * Abs(c * x) <= 0x8001 * (c * y) <==> 0x1_0000 * Abs(x) <= 0x8001 * y
  {
    AbsTimes(c, x);
    ScaleCompare(0x8001 * y, 0x1_0000 * Abs(x), c);
  }

  lemma AbsTimes(c: nat, x: int)
    ensures Abs(c * x) == c * Abs(x)
  {
    assert c * -x == -(c * x);
    if x < 0 {
      MulMonotone(1, -x, c);
    } else {
      MulMonotone(0, x, c);
    }
  }

  /** The bound depends only on the ratio. */
  lemma BoundRatio(n1: nat, d1: nat, n2: nat, d2: nat, m: nat)
    requires d1 > 0 && d2 > 0 && n1 * d2 == n2 * d1
    requires WithinBound(n1, d1, m)
    ensures WithinBound(n2, d2, m)
  {
    hide WithinBound;
    BoundScales(n1, d1, m, d2);
    BoundScales(n2, d2, m, d1);
    assert d2 * n1 == d1 * n2 && d2 * d1 == d1 * d2;
  }

  lemma BoundPeels(y: nat, den: nat, p: nat, m: nat)
    requires den > 0 && 2 * y >= 0x100_0000 * den && p >= 0x80_0000
    requires WithinBound(y, den, p)
    ensures WithinBound(y * Pow2(m), den, 0x80_0000 * m + p)
  {
    UlpPeel(y, den, m);
    UnitsOfBinades(p, m);
    hide Ulp, UnitsOf, Pow2, Abs;
    PeelError(UnitsOf(p), y, den, Ulp(y, den), Pow2(m));
  }

  lemma PeelError(u: nat, num: nat, den: nat, w: nat, c: nat)
    requires c > 0
    requires 0x1_0000 * Abs(u * den - num) <= 0x8001 * (w * den)
    ensures 0x1_0000 * Abs(u * c * den - num * c) <= 0x8001 * (c * w * den)
  {
    assert u * c * den == c * (u * den);
    assert c * w * den == c * (w * den);
    assert c * (u * den) - num * c == c * (u * den - num);
    CompareScaled(u * den - num, w * den, c);
  }

  lemma LostTieBound(exp: int, num: nat, divisor: nat)
    requires divisor > 0 && num >= 0x80_0000_0000 * divisor
    requires LostTie(num, divisor, Denominator(exp))
    ensures Denominator(exp) * divisor > 0
    ensures WithinBound(Numerator(exp, num), Denominator(exp) * divisor, Packed(exp, Over(num, divisor)))
  {
    hide LostTie, Pack, WithinBound;
    var q := Over(num, divisor);
    OverAtLeast(num, divisor, 0x80_0000_0000);
    PowThree();
    if exp >= 1 {
      LostTieWithinBound(num, divisor, 8, 3);
      PackedNormal(exp, q);
      PackAtLeast(q, 8);
      BoundPeels(num, 8 * divisor, Pack(q, 8), exp - 1);
    } else {
      Pow2Add(3, 1 - exp);
      LostTieWithinBound(num, divisor, Denominator(exp), 4 - exp);
    }
  }

  lemma CorrectWithinBound(num: nat, den: nat, m: nat)
    requires den > 0 && m < INFINITY && CorrectlyRounded(num, den, m)
    ensures WithinBound(num, den, m)
  {
    hide CorrectlyRounded, Pack;
    PackCorrectlyRounded(num, den);
    CorrectlyRoundedUnique(num, den, m, Min(Pack(num, den), INFINITY));
    PackWithinHalf(num, den);
    assert Ulp(num, den) * den > 0 by {
      PositiveProduct(Ulp(num, den), den);
    }
  }

  /**
   A finite quotient that does not fall into the interval just below 2^-126 is within
   1/2 + 2^-16 units in the last place of the exact one.
   */
  lemma QuotientWithinBound(a: uint32, b: uint32)
    requires IsFinite(a) && IsFinite(b) && !IsZero(a) && !IsZero(b)
    ensures Significand(a) > 0 && Significand(b) > 0 && Units(b) > 0
    ensures !RoundsUpToNormal(Times(Units(a), Pow2(149)), Units(b)) && StoredQuotient(a, b) < INFINITY ==>
              WithinBound(Times(Units(a), Pow2(149)), Units(b), StoredQuotient(a, b))
  {
    hide *;
    FiniteQuotient(a, b, 0);
    QuotientBounds(a, b);
    ExactQuotient(a, b);
    LostTieUnfold(a, b);
    var exp, n, d := QuotientExponent(a, b), Dividend(a), Divisor(b);
    var num, den := Times(Units(a), Pow2(149)), Units(b);
    TruncatedCorrectIff(exp, n, d, num, den);
    if !RoundsUpToNormal(num, den) && StoredQuotient(a, b) < INFINITY {
      if QuotientLostTie(a, b) {
        LostTieBound(exp, n, d);
        BoundRatio(Numerator(exp, n), Denominator(exp) * d, num, den, Packed(exp, Over(n, d)));
        LostTieNormal(exp, n, d);
        StoredUnfold(exp, Over(n, d));
        MinIs(Packed(exp, Over(n, d)), INFINITY);
      } else {
        CorrectWithinBound(num, den, StoredQuotient(a, b));
      }
    }
  }

  /** A lost tie is rounded down, so never up to the smallest normal number. */
  lemma LostTieNormal(exp: int, num: nat, divisor: nat)
    requires divisor > 0 && num >= 0x80_0000_0000 * divisor
    requires LostTie(num, divisor, Denominator(exp))
    ensures !(Packed(exp, Over(num, divisor)) == 0x80_0000 && BelowNormal(exp, Over(num, divisor)))
  {
    hide LostTie, Pack;
    LostTieEncloses(exp, num, divisor);
    TruncatedPair(exp, num, divisor);
  }

  // ----- the lost tie does occur

  lemma LeadingShiftIs(sig: nat, k: nat)
    requires 0 < sig && 0x8000_0000_0000_0000 <= sig * Pow2(k) < 0x1_0000_0000_0000_0000
    ensures sig < 0x1_0000_0000_0000_0000 && LeadingShift(sig) == k
    decreases k
  {
    MulMonotone(1, Pow2(k), sig);
    if k == 0 {
      assert Pow2(0) == 1;
    } else {
      assert sig * Pow2(k) == 2 * sig * Pow2(k - 1) by {
        DoubleMul(sig, Pow2(k - 1));
      }
      LeadingShiftIs(2 * sig, k - 1);
      MulMonotone(2, Pow2(k), sig);
    }
  }

  lemma {:induction false} LostTieAt(num: nat, divisor: nat, den: nat, k: nat)
    requires divisor > 0 && den > 0
    requires k > 0 ==> num / divisor >= 0x80_0000 * (den * Pow2(k))
    ensures den * Pow2(k) > 0
    ensures LostTie(num, divisor, den) <==> LostTie(num, divisor, den * Pow2(k))
    decreases k
  {
    if k == 0 {
      assert den * Pow2(0) == den;
    } else {
      assert den * Pow2(k) == 2 * den * Pow2(k - 1);
      MulMonotone(1, Pow2(k - 1), 2 * den);
      LostTieAt(num, divisor, 2 * den, k - 1);
    }
  }

  lemma {:induction false} PackAtMost(num: nat, den: nat, k: nat)
    requires den > 0 && num < 0x100_0000 * den * Pow2(k)
    ensures Pack(num, den) <= 0x80_0000 * k + 0x100_0000
    decreases k
  {
    hide RoundNearestEven;
    if num < 0x100_0000 * den {
      RoundNearestEvenMeaning(num, den);
      var p := RoundNearestEven(num, den);
      if p > 0x100_0000 {
        MulMonotone(0x100_0001, p, den);
      }
    } else {
      PowZero();
      assert 0x100_0000 * den * Pow2(k) == 0x100_0000 * (2 * den) * Pow2(k - 1);
      PackAtMost(num, 2 * den, k - 1);
    }
  }

  /** 0x3fca2d5f / 0x3f9083dd, about 1.5795 / 1.1290, is rounded to the wrong neighbour. */
  lemma LostTieExample(a: uint32, b: uint32)
    requires a == 0x3fca_2d5f && b == 0x3f90_83dd
    ensures !DivSupported(a, b)
  {
    hide *;
    ExampleOperands(a, b);
    ExampleTie();
    ExampleFinite();
    FiniteQuotient(a, b, 0);
    LostTieUnfold(a, b);
    DenominatorPositive(113);
  }

  lemma ExampleOperands(a: uint32, b: uint32)
    requires a == 0x3fca_2d5f && b == 0x3f90_83dd
    ensures IsFinite(a) && IsFinite(b) && !IsZero(a) && !IsZero(b)
    ensures Significand(a) == 0xca_2d5f && Significand(b) == 0x90_83dd
    ensures Dividend(a) == 0xca_2d5f_0000_0000_00 && Divisor(b) == 0x90_83dd
    ensures QuotientExponent(a, b) == 113
  {
    hide Pow2;
    PowForty();
    PowZero();
    LeadingShiftIs(0xca_2d5f, 40);
    assert TrailingZeros(0x90_83dd) == 0;
  }

  lemma PowForty()
    ensures Pow2(40) == 0x100_0000_0000
  {
    assert Pow2(10) == 0x400;
    hide Pow2;
    PowDouble(10);
    PowDouble(20);
  }

  lemma ExampleTie()
    ensures LostTie(0xca_2d5f_0000_0000_00, 0x90_83dd, 8)
  {
    assert 0xca_2d5f_0000_0000_00 / 0x90_83dd == 0x166_2525_0000;
    assert Pow2(14) == 0x4000;
    LostTieAt(0xca_2d5f_0000_0000_00, 0x90_83dd, 8, 14);
  }

  lemma ExampleFinite()
    ensures Packed(113, Over(0xca_2d5f_0000_0000_00, 0x90_83dd)) < INFINITY
  {
    var q := Over(0xca_2d5f_0000_0000_00, 0x90_83dd);
    hide Pack;
    assert Pow2(14) == 0x4000;
    PackAtMost(q, 8, 14);
    PackedNormal(113, q);
  }
}
