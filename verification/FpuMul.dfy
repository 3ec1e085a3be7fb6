/**
 Multiplication of the software FPU: internal_float_mul, nemu/src/cpu/fpu.c.
 */
module FpuMul {
  import opened Arithmetic
  import opened Rounding
  import opened Binary32
  import opened FpuSpec
  import opened Normalize
  import opened FpuAdd

  const CORNER_MUL: seq<CornerCase> := [
    CornerCase(P_ZERO, P_INF, N_NAN),
    CornerCase(P_ZERO, N_INF, N_NAN),
    CornerCase(N_ZERO, P_INF, N_NAN),
    CornerCase(N_ZERO, N_INF, N_NAN),
    CornerCase(P_INF, P_ZERO, N_NAN),
    CornerCase(P_INF, N_ZERO, N_NAN),
    CornerCase(N_INF, P_ZERO, N_NAN),
    CornerCase(N_INF, N_ZERO, N_NAN)
  ]

  /** The significand product of a and b. */
  function ProductSignificand(a: uint32, b: uint32): nat {
    Times(Significand(a), Significand(b))
  }

  /**
   The products that internal_normalize misreads by a factor of two: their scaled exponent is
   0, where it expects the convention of the addition, and no bit lies above the hidden one.
   */
  predicate ProductMisscaled(a: uint32, b: uint32) {
    && !IsZero(a) && !IsZero(b)
    && ScaleExponent(a) + ScaleExponent(b) == 147
    && ProductSignificand(a, b) < 0x800_0000
  }

  /** The operands on which the multiplication does what IEEE 754 asks. */
  predicate MulSupported(a: uint32, b: uint32) {
    if IsNaN(a) || IsNaN(b) then
      IsCanonicalNaN(a) || IsCanonicalNaN(b)
    else if IsFinite(a) && IsFinite(b) then
      && !ProductMisscaled(a, b)
      && !RoundsUpToNormal(Times(Units(a), Units(b)), Pow2(149))
    else
      true
  }

  // ----- the exact product and the pair given to internal_normalize

  /** (exp, sa * sb) stands for the product of sa * 2^(ea - 1) and sb * 2^(eb - 1) over 2^k. */
  lemma ProductRatio(sa: nat, ea: nat, sb: nat, eb: nat, k: nat)
    requires ea >= 1 && eb >= 1
    ensures var exp := ea + eb + 2 - k;
            Times(sa * Pow2(ea - 1), sb * Pow2(eb - 1)) * Denominator(exp) == Numerator(exp, Times(sa, sb)) * Pow2(k)
  {
    var exp := ea + eb + 2 - k;
    var sig := Times(sa, sb);
    ProductOfScaled(sa, Pow2(ea - 1), sb, Pow2(eb - 1));
    Pow2Add(ea - 1, eb - 1);
    assert Pow2(3) == 8;
    if exp >= 1 {
      ScaleSplit(sig, ea + eb - 2, 3);
      ScaleSplit(sig, exp - 1, k);
    } else {
      Pow2Add(3, 1 - exp);
      ScaleSplit(sig, ea + eb - 2, 4 - exp);
    }
  }

  lemma ProductOfScaled(sa: nat, p: nat, sb: nat, q: nat)
    ensures Times(sa * p, sb * q) == Times(sa, sb) * (p * q)
  {
    assert sa * p * (sb * q) == sa * sb * (p * q);
  }

  lemma ProductStored(a: uint32, b: uint32)
    ensures var exp := ScaleExponent(a) + ScaleExponent(b) - 147;
            var sig := ProductSignificand(a, b);
            StoredMagnitude(Numerator(exp, sig), Denominator(exp)) == StoredMagnitude(Times(Units(a), Units(b)), Pow2(149))
  {
    hide *;
    UnitsFactors(a);
    UnitsFactors(b);
    ProductRatio(Significand(a), ScaleExponent(a), Significand(b), ScaleExponent(b), 149);
    var exp := ScaleExponent(a) + ScaleExponent(b) - 147;
    assert ProductSignificand(a, b) == Times(Significand(a), Significand(b)) by {
      ProductSignificandIs(a, b);
    }
    StoredRatio(Times(Units(a), Units(b)), Pow2(149), Numerator(exp, ProductSignificand(a, b)), Denominator(exp));
  }

  lemma ProductSignificandIs(a: uint32, b: uint32)
    ensures ProductSignificand(a, b) == Times(Significand(a), Significand(b))
  {
  }

  lemma UnitsFactors(v: uint32)
    ensures Units(v) == Significand(v) * Pow2(ScaleExponent(v) - 1)
  {
  }

  /** Reading (0, sig) as (1, sig) doubles the value and never gives the right result. */
  lemma DoubledIsWrong(sig: nat)
    requires 0x80_0000 <= sig < 0x800_0000
    ensures StoredMagnitude(Numerator(1, sig), Denominator(1)) != Min(Packed(0, sig), INFINITY)
  {
    assert Pow2(0) == 1 && Pow2(1) == 2;
    assert Packed(1, sig) == RoundNearestEven(sig, 8);
    assert Packed(0, sig) == RoundNearestEven(sig, 16);
  }

  lemma ProductBounds(a: uint32, b: uint32)
    ensures ProductSignificand(a, b) < 0x1_0000_0000_0000
    ensures ScaleExponent(a) > 1 && ScaleExponent(b) > 1 ==> ProductSignificand(a, b) >= 0x4000_0000_0000
    ensures !IsZero(a) && !IsZero(b) && (ScaleExponent(a) > 1 || ScaleExponent(b) > 1) ==> ProductSignificand(a, b) >= 0x80_0000
    ensures ScaleExponent(a) <= 0xff && ScaleExponent(b) <= 0xff
  {
    hide Significand;
    SignificandBounds(a);
    SignificandBounds(b);
    TimesBounds(Significand(a), Significand(b));
  }

  lemma TimesBounds(x: nat, y: nat)
    requires x < 0x100_0000 && y < 0x100_0000
    ensures Times(x, y) < 0x1_0000_0000_0000
    ensures x >= 0x80_0000 && y >= 0x80_0000 ==> Times(x, y) >= 0x4000_0000_0000
    ensures x > 0 && y > 0 && (x >= 0x80_0000 || y >= 0x80_0000) ==> Times(x, y) >= 0x80_0000
  {
    MulMonotone(x, 0xff_ffff, y);
    if x >= 0x80_0000 {
      MulMonotone(0x80_0000, x, y);
    } else if y >= 0x80_0000 && x > 0 {
      MulMonotone(1, x, y);
    }
  }

  // ----- internal_float_mul

  /** The product of two operands other than zero; an infinite or NaN exponent is not looked at. */
  method MulNonzero(b: uint32, a: uint32) returns (r: uint32)
    requires !IsZero(a) && !IsZero(b)
    ensures Normalized(ProductSign(a, b), ScaleExponent(a) + ScaleExponent(b) - 147, ProductSignificand(a, b), r)
  {
    hide Normalized, Times, Significand, Wrap32, AsInt32;
    var sign := if Sign(a) == Sign(b) then 0 else 1;
    var sigA := HiddenSignificand(a);
    var sigB := HiddenSignificand(b);
    var expA := if Exponent(a) == 0 then 1 else Exponent(a);
    var expB := if Exponent(b) == 0 then 1 else Exponent(b);
    ProductBounds(a, b);
    var sigRes: uint64 := Times(sigA, sigB);
    AsInt32OfWrap(expA + expB - 127 - 20);
    var expRes: uint32 := Wrap32(expA + expB - 127 - 20);
    r := InternalNormalize(sign, AsInt32(expRes), sigRes);
  }

  /** Exactly when the product of two finite numbers other than zero is rounded correctly. */
  lemma ProductCorrectIff(a: uint32, b: uint32, r: uint32)
    requires IsFinite(a) && IsFinite(b) && !IsZero(a) && !IsZero(b)
    requires Normalized(ProductSign(a, b), ScaleExponent(a) + ScaleExponent(b) - 147, ProductSignificand(a, b), r)
    ensures MulConforms(a, b, r) <==> MulSupported(a, b)
  {
    hide *;
    var exp := ScaleExponent(a) + ScaleExponent(b) - 147;
    var sig := ProductSignificand(a, b);
    var num, den := Times(Units(a), Units(b)), Pow2(149);
    ProductStored(a, b);
    FiniteProduct(a, b, r);
    ProductMagnitude(a, b, r);
    if ProductMisscaled(a, b) {
      Misscaled(a, b, r);
    } else {
      StoredCorrectIff(num, den);
    }
  }

  /** For finite operands the two predicates speak of the rounded product only. */
  lemma FiniteProduct(a: uint32, b: uint32, r: uint32)
    requires IsFinite(a) && IsFinite(b)
    ensures MulConforms(a, b, r) <==>
            Sign(r) == ProductSign(a, b) && CorrectlyRounded(Times(Units(a), Units(b)), Pow2(149), Magnitude(r))
    ensures MulSupported(a, b) <==>
            !ProductMisscaled(a, b) && !RoundsUpToNormal(Times(Units(a), Units(b)), Pow2(149))
  {
    hide Units, ProductMisscaled, CorrectlyRounded, RoundsUpToNormal, Magnitude, Exponent, Times, Pow2;
    hide IsFinite, IsNaN, IsInfinite;
    SpecialEncodings(a);
    SpecialEncodings(b);
  }

  lemma ProductMagnitude(a: uint32, b: uint32, r: uint32)
    requires !IsZero(a) && !IsZero(b)
    requires Normalized(ProductSign(a, b), ScaleExponent(a) + ScaleExponent(b) - 147, ProductSignificand(a, b), r)
    ensures Sign(r) == ProductSign(a, b) && Magnitude(r) <= INFINITY
    ensures var exp := ScaleExponent(a) + ScaleExponent(b) - 147;
            var sig := ProductSignificand(a, b);
            Magnitude(r) == if ProductMisscaled(a, b) then StoredMagnitude(Numerator(1, sig), Denominator(1))
                            else StoredMagnitude(Numerator(exp, sig), Denominator(exp))
  {
    hide Pack, ScaleExponent, ProductSignificand, Numerator, Denominator;
  }

  lemma Misscaled(a: uint32, b: uint32, r: uint32)
    requires ProductMisscaled(a, b)
    requires Magnitude(r) == StoredMagnitude(Numerator(1, ProductSignificand(a, b)), Denominator(1))
    ensures !CorrectlyRounded(Times(Units(a), Units(b)), Pow2(149), Magnitude(r))
  {
    hide *;
    var sig := ProductSignificand(a, b);
    MisscaledBounds(a, b);
    UnitsFactors(a);
    UnitsFactors(b);
    ProductSignificandIs(a, b);
    ProductRatio(Significand(a), ScaleExponent(a), Significand(b), ScaleExponent(b), 149);
    PackedIs(0, sig);
    PackRatio(Times(Units(a), Units(b)), Pow2(149), Numerator(0, sig), Denominator(0));
    DoubledIsWrong(sig);
    OtherMagnitudeWrong(Times(Units(a), Units(b)), Pow2(149), Magnitude(r));
  }

  /**
   What the product of two finite numbers other than zero is: with the sign of the exact product,
   the exact product, or twice it if it is misread, correctly rounded, but zero just below 2^-126.
   */
  ghost predicate FiniteProductIs(a: uint32, b: uint32, r: uint32) {
    var exact, den := Times(Units(a), Units(b)), Pow2(149);
    var num := if ProductMisscaled(a, b) then 2 * exact else exact;
    && Sign(r) == ProductSign(a, b)
    && if RoundsUpToNormal(num, den) then Magnitude(r) == 0 else CorrectlyRounded(num, den, Magnitude(r))
  }

  lemma ProductMeaning(a: uint32, b: uint32, r: uint32)
    requires IsFinite(a) && IsFinite(b) && !IsZero(a) && !IsZero(b)
    requires Normalized(ProductSign(a, b), ScaleExponent(a) + ScaleExponent(b) - 147, ProductSignificand(a, b), r)
    ensures FiniteProductIs(a, b, r)
  {
    hide *;
    var exact, den := Times(Units(a), Units(b)), Pow2(149);
    var num := if ProductMisscaled(a, b) then 2 * exact else exact;
    ProductStored(a, b);
    ProductMagnitude(a, b, r);
    if ProductMisscaled(a, b) {
      DoubledProduct(a, b);
    }
    StoredMeaning(num, den);
    FiniteProductUnfold(a, b, r);
  }

  lemma FiniteProductUnfold(a: uint32, b: uint32, r: uint32)
    ensures FiniteProductIs(a, b, r) <==>
            && Sign(r) == ProductSign(a, b)
            && var exact := Times(Units(a), Units(b));
               var num := if ProductMisscaled(a, b) then 2 * exact else exact;
               if RoundsUpToNormal(num, Pow2(149)) then Magnitude(r) == 0 else CorrectlyRounded(num, Pow2(149), Magnitude(r))
  {
    hide ProductMisscaled, RoundsUpToNormal, CorrectlyRounded, Units, Times, Pow2, ProductSign;
  }

  /** What is stored for a misread product is what would be stored for twice the exact one. */
  lemma DoubledProduct(a: uint32, b: uint32)
    requires ProductMisscaled(a, b)
    ensures var sig := ProductSignificand(a, b);
            StoredMagnitude(Numerator(1, sig), Denominator(1)) == StoredMagnitude(2 * Times(Units(a), Units(b)), Pow2(149))
  {
    hide *;
    var sig := ProductSignificand(a, b);
    MisscaledBounds(a, b);
    UnitsFactors(a);
    UnitsFactors(b);
    ProductSignificandIs(a, b);
    ProductRatio(Significand(a), ScaleExponent(a), Significand(b), ScaleExponent(b), 149);
    LowPairs(sig);
    StoredRatio(2 * Times(Units(a), Units(b)), Pow2(149), Numerator(1, sig), Denominator(1));
  }

  lemma LowPairs(sig: nat)
    ensures Numerator(0, sig) == Numerator(1, sig) == sig && Denominator(0) == 16 && Denominator(1) == 8
  {
    assert Pow2(0) == 1 && Pow2(1) == 2;
  }

  /** Where the multiplication does not look at an exact product: canonical NaNs, invalid operations, zeros, infinities. */
  predicate SpecialProductIs(a: uint32, b: uint32, r: uint32) {
    if IsCanonicalNaN(a) || IsCanonicalNaN(b) then
      r == if a == P_NAN || b == P_NAN then P_NAN else N_NAN
    else if (IsZero(a) && IsInfinite(b)) || (IsInfinite(a) && IsZero(b)) then
      r == N_NAN
    else
      && Sign(r) == ProductSign(a, b)
      && (if IsZero(a) || IsZero(b) then IsZero(r) else IsInfinite(a) || IsInfinite(b) ==> IsInfinite(r))
  }

  lemma CornerMulSpecial(i: nat)
    requires i < |CORNER_MUL|
    ensures SpecialProductIs(CORNER_MUL[i].a, CORNER_MUL[i].b, CORNER_MUL[i].res)
    ensures IsZero(CORNER_MUL[i].a) || IsInfinite(CORNER_MUL[i].a)
    ensures IsZero(CORNER_MUL[i].b) || IsInfinite(CORNER_MUL[i].b)
  {
  }

  lemma CanonicalNaNSpecialProduct(a: uint32, b: uint32, r: uint32)
    requires IsCanonicalNaN(a) || IsCanonicalNaN(b)
    requires r == if a == P_NAN || b == P_NAN then P_NAN else N_NAN
    ensures SpecialProductIs(a, b, r)
  {
  }

  lemma OtherSpecialProduct(a: uint32, b: uint32, r: uint32)
    requires !IsCanonicalNaN(a) && !IsCanonicalNaN(b)
    requires !(IsZero(a) && IsInfinite(b)) && !(IsInfinite(a) && IsZero(b))
    requires Sign(r) == ProductSign(a, b)
    requires if IsZero(a) || IsZero(b) then IsZero(r) else IsInfinite(a) || IsInfinite(b) ==> IsInfinite(r)
    ensures SpecialProductIs(a, b, r)
  {
  }

  lemma PackedIs(exp: int, sig: nat)
    ensures Packed(exp, sig) == Pack(Numerator(exp, sig), Denominator(exp))
  {
  }

  lemma MisscaledBounds(a: uint32, b: uint32)
    requires ProductMisscaled(a, b)
    ensures ScaleExponent(a) + ScaleExponent(b) - 147 == 0
    ensures 0x80_0000 <= ProductSignificand(a, b) < 0x800_0000
  {
    hide ProductSignificand;
    ProductBounds(a, b);
  }

  lemma CornerMulConforms(i: nat)
    requires i < |CORNER_MUL|
    ensures MulConforms(CORNER_MUL[i].a, CORNER_MUL[i].b, CORNER_MUL[i].res)
    ensures MulSupported(CORNER_MUL[i].a, CORNER_MUL[i].b)
  {
    hide Units, CorrectlyRounded, ProductMisscaled, RoundsUpToNormal;
  }

  lemma CornerMulCovers(a: uint32, b: uint32)
    requires forall j :: 0 <= j < |CORNER_MUL| ==> !(CORNER_MUL[j].a == a && CORNER_MUL[j].b == b)
    ensures !(IsZero(a) && IsInfinite(b)) && !(IsInfinite(a) && IsZero(b))
  {
    assert CORNER_MUL[0].a == P_ZERO && CORNER_MUL[1].a == P_ZERO && CORNER_MUL[2].a == N_ZERO && CORNER_MUL[3].a == N_ZERO;
    assert CORNER_MUL[4].a == P_INF && CORNER_MUL[5].a == P_INF && CORNER_MUL[6].a == N_INF && CORNER_MUL[7].a == N_INF;
  }

  /** Products with a zero or an infinite operand, where the other one is no NaN. */
  lemma SpecialProduct(a: uint32, b: uint32, r: uint32)
    requires !IsNaN(a) && !IsNaN(b)
    requires !(IsZero(a) && IsInfinite(b)) && !(IsInfinite(a) && IsZero(b))
    requires Sign(r) == ProductSign(a, b)
    requires if IsZero(a) || IsZero(b) then IsZero(r) else (IsInfinite(a) || IsInfinite(b)) && IsInfinite(r)
    ensures MulConforms(a, b, r) && MulSupported(a, b)
  {
    hide Units, UnitsOf, CorrectlyRounded, ProductSignificand, ScaleExponent, Pow2, RoundsUpToNormal;
    SpecialEncodings(a);
    SpecialEncodings(b);
    SpecialEncodings(r);
    if IsZero(a) || IsZero(b) {
      ZeroUnits(a);
      ZeroUnits(b);
      ZeroProduct(Units(a), Units(b), Pow2(149));
    }
  }

  lemma ZeroProduct(x: nat, y: nat, den: nat)
    requires den > 0 && (x == 0 || y == 0)
    ensures Times(x, y) == 0
    ensures CorrectlyRounded(0, den, 0)
    ensures !RoundsUpToNormal(0, den)
  {
    hide CorrectlyRounded;
    assert UnitsOf(0) == 0;
    RepresentableIsExact(0, den, 0);
  }

  /** A NaN that is not recognised is multiplied like a number, and gives no NaN. */
  lemma UnrecognisedNaN(a: uint32, b: uint32, r: uint32)
    requires IsNaN(a) || IsNaN(b)
    requires !IsCanonicalNaN(a) && !IsCanonicalNaN(b)
    requires !IsNaN(r)
    ensures !MulConforms(a, b, r) && !MulSupported(a, b)
  {
    hide Magnitude, Units, ProductMisscaled, IsNaN;
  }

  /**
   a * b.  The result is the one IEEE 754 asks for exactly on the supported operands; where it is
   not, it is stated what comes out instead.
   */
  method InternalFloatMul(b: uint32, a: uint32) returns (r: uint32)
    ensures MulConforms(a, b, r) <==> MulSupported(a, b)
    ensures SpecialProductIs(a, b, r)
    ensures IsFinite(a) && IsFinite(b) && !IsZero(a) && !IsZero(b) ==>
              && Normalized(ProductSign(a, b), ScaleExponent(a) + ScaleExponent(b) - 147, ProductSignificand(a, b), r)
              && FiniteProductIs(a, b, r)
  {
    hide *;
    SpecialEncodings(a);
    SpecialEncodings(b);
    SpecialSigns();
    ProductSignIs(a, b);
    var found, i := FindCornerCase(CORNER_MUL, a, b);
    if found {
      r := CORNER_MUL[i].res;
      CornerMulConforms(i);
      CornerMulSpecial(i);
      return;
    }
    CornerMulCovers(a, b);
    RecognisedNaN(a);
    RecognisedNaN(b);
    if a == P_NAN || a == N_NAN || b == P_NAN || b == N_NAN {
      r := if a == P_NAN || b == P_NAN then P_NAN else N_NAN;
      RecognisedNaN(r);
      CanonicalNaNProduct(a, b, r);
      CanonicalNaNSpecialProduct(a, b, r);
      return;
    }
    var negative := Sign(a) != Sign(b);
    if a == P_ZERO || a == N_ZERO || b == P_ZERO || b == N_ZERO {
      r := if negative then N_ZERO else P_ZERO;
    } else if a == P_INF || a == N_INF || b == P_INF || b == N_INF {
      r := if negative then N_INF else P_INF;
    } else {
      r := MulNonzero(b, a);
      ProductMagnitude(a, b, r);
      AboveInfinity(r);
    }
    SpecialEncodings(r);
    OtherSpecialProduct(a, b, r);
    if IsNaN(a) || IsNaN(b) {
      UnrecognisedNaN(a, b, r);
    } else if IsZero(a) || IsZero(b) || IsInfinite(a) || IsInfinite(b) {
      SpecialProduct(a, b, r);
    } else {
      ProductCorrectIff(a, b, r);
      ProductMeaning(a, b, r);
    }
  }

  lemma CanonicalNaNProduct(a: uint32, b: uint32, r: uint32)
    requires IsCanonicalNaN(a) || IsCanonicalNaN(b)
    requires IsCanonicalNaN(r)
    ensures MulConforms(a, b, r) && MulSupported(a, b)
  {
    hide Magnitude, Units, ProductMisscaled, IsNaN;
    SpecialEncodings(a);
    SpecialEncodings(b);
    SpecialEncodings(r);
  }

  // ----- what the condition means for a caller

  /** Two normal numbers whose product is at least 2^-126 are always multiplied correctly. */
  lemma NormalProductSupported(a: uint32, b: uint32)
    requires IsFinite(a) && IsFinite(b) && Exponent(a) != 0 && Exponent(b) != 0
    ensures Times(Units(a), Units(b)) >= 0x80_0000 * Pow2(149) ==> MulSupported(a, b)
  {
    hide *;
    if Times(Units(a), Units(b)) >= 0x80_0000 * Pow2(149) {
      FiniteProduct(a, b, 0);
      WideProduct(a, b);
      BelowThreshold(Times(Units(a), Units(b)), Pow2(149));
    }
  }

  lemma WideProduct(a: uint32, b: uint32)
    requires Exponent(a) != 0 && Exponent(b) != 0
    ensures !ProductMisscaled(a, b)
  {
    hide Significand;
    HiddenBitSet(a);
    HiddenBitSet(b);
    SignificandBounds(a);
    SignificandBounds(b);
    TimesBounds(Significand(a), Significand(b));
  }

  lemma HiddenBitSet(v: uint32)
    requires Exponent(v) != 0
    ensures Significand(v) >= 0x80_0000
  {
  }

  lemma BelowThreshold(num: nat, den: nat)
    requires num >= 0x80_0000 * den
    ensures !RoundsUpToNormal(num, den)
  {
  }

  /** (1 - 2^-24) * 2^-126 should round to 2^-126; the code returns 0. */
  lemma UnderflowExample()
    ensures !MulSupported(0x3f7f_ffff, 0x0080_0000)
    ensures !MulConforms(0x3f7f_ffff, 0x0080_0000, P_ZERO)
  {
    hide Pow2, CorrectlyRounded, Pack, RoundsUpToNormal, Times;
    assert Units(0x3f7f_ffff) == 0xff_ffff * Pow2(125);
    assert Units(0x0080_0000) == 0x80_0000 by {
      PowZero();
    }
    var num := Times(Units(0x3f7f_ffff), Units(0x0080_0000));
    PowerGap(125);
    Underflows(Pow2(125), num, Pow2(149));
    RoundsUpToNormalIff(num, Pow2(149));
    OtherMagnitudeWrong(num, Pow2(149), 0);
  }

  lemma PowerGap(e: nat)
    ensures Pow2(e + 24) == 0x100_0000 * Pow2(e)
  {
    hide Pow2;
    Pow2Add(e, 24);
    PowTwentyFour();
  }

  lemma Underflows(p: nat, num: nat, den: nat)
    requires num == Times(0xff_ffff * p, 0x80_0000) && den == 0x100_0000 * p && p > 0
    ensures RoundsUpToNormal(num, den)
  {
  }

  /** 2^-149 * 2^19 is 2^-130; the code returns twice that. */
  lemma MisscaledExample()
    ensures !MulSupported(0x1, 0x4900_0000)
  {
    assert ProductSignificand(0x1, 0x4900_0000) == 0x80_0000;
    assert ProductMisscaled(0x1, 0x4900_0000);
  }
}
