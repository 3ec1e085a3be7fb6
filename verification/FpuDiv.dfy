/**
 Division of the software FPU: internal_float_div, nemu/src/cpu/fpu.c.

 The quotient is an integer division of the significand of a, shifted up to 64 bits, by the
 odd part of the significand of b.  The remainder is dropped, so the rounding that follows
 can meet an apparent tie that is none: a "lost tie".
 */
module FpuDiv {
  import opened Arithmetic
  import opened Rounding
  import opened Binary32
  import opened FpuSpec
  import opened Normalize
  import opened FpuAdd
  import opened FpuMul

  const CORNER_DIV: seq<CornerCase> := [
    CornerCase(P_ZERO, P_ZERO, N_NAN),
    CornerCase(N_ZERO, P_ZERO, N_NAN),
    CornerCase(P_ZERO, N_ZERO, N_NAN),
    CornerCase(N_ZERO, N_ZERO, N_NAN),
    CornerCase(P_INF, P_ZERO, P_INF),
    CornerCase(N_INF, P_ZERO, N_INF),
    CornerCase(P_INF, N_ZERO, N_INF),
    CornerCase(N_INF, N_ZERO, P_INF),
    CornerCase(P_INF, P_INF, N_NAN),
    CornerCase(N_INF, P_INF, N_NAN),
    CornerCase(P_INF, N_INF, N_NAN),
    CornerCase(N_INF, N_INF, N_NAN)
  ]

  // ----- the two alignment loops

  /** How far sig is shifted left until its bit 63 is set. */
  function LeadingShift(sig: nat): (k: nat)
    requires 0 < sig < 0x1_0000_0000_0000_0000
    ensures 0x8000_0000_0000_0000 <= sig * Pow2(k) < 0x1_0000_0000_0000_0000
    decreases 0x8000_0000_0000_0000 - sig
  {
    if sig >= 0x8000_0000_0000_0000 then
      assert Pow2(0) == 1;
      0
    else
      var k := LeadingShift(2 * sig);
      assert 2 * sig * Pow2(k) == sig * Pow2(k + 1);
      k + 1
  }

  /** How many trailing zero bits sig has. */
  function TrailingZeros(sig: nat): (k: nat)
    requires sig > 0
    ensures sig % Pow2(k) == 0 && sig / Pow2(k) % 2 == 1
  {
    if sig % 2 == 1 then
      assert Pow2(0) == 1;
      0
    else
      var k := TrailingZeros(sig / 2);
      TrailingStep(sig, k);
      k + 1
  }

  lemma DoubleStep(sig0: nat, shift: nat, sig: nat)
    requires 0 < sig < 0x8000_0000_0000_0000 && sig == sig0 * Pow2(shift)
    ensures sig * 2 == sig0 * Pow2(shift + 1)
    ensures LeadingShift(sig) == LeadingShift(sig * 2) + 1
  {
    assert Pow2(shift + 1) == 2 * Pow2(shift);
    assert sig0 * (2 * Pow2(shift)) == 2 * (sig0 * Pow2(shift));
    assert sig * 2 == 2 * sig;
  }

  lemma TrailingStep(sig: nat, k: nat)
    requires sig % 2 == 0 && sig / 2 % Pow2(k) == 0
    ensures sig % Pow2(k + 1) == 0 && sig / Pow2(k + 1) == sig / 2 / Pow2(k)
  {
    hide Pow2;
    DivDiv(sig, 2, Pow2(k));
    PowStep(k);
  }

  method ShiftUp(sig0: uint64) returns (sig: uint64, shift: nat)
    requires sig0 > 0
    ensures shift == LeadingShift(sig0) && sig == sig0 * Pow2(shift)
    ensures sig >= 0x8000_0000_0000_0000
  {
    hide Pow2;
    PowZero();
    sig, shift := sig0, 0;
    while sig / 0x8000_0000_0000_0000 == 0
      invariant 0 < sig
      invariant sig == sig0 * Pow2(shift)
      invariant shift + LeadingShift(sig) == LeadingShift(sig0)
      decreases 0x8000_0000_0000_0000 - sig
    {
      DoubleStep(sig0, shift, sig);
      sig := sig * 2;
      shift := shift + 1;
    }
  }

  lemma HalveEven(sig: nat, shift: nat)
    requires sig > 0 && sig % 2 == 0
    ensures sig / 2 * Pow2(shift + 1) == sig * Pow2(shift)
    ensures TrailingZeros(sig) == TrailingZeros(sig / 2) + 1
  {
    var h, p := sig / 2, Pow2(shift);
    assert sig == 2 * h && Pow2(shift + 1) == 2 * p;
    assert h * (2 * p) == 2 * h * p;
  }

  method ShiftDown(sig0: uint64) returns (sig: uint64, shift: nat)
    requires sig0 > 0
    ensures shift == TrailingZeros(sig0) && sig0 == sig * Pow2(shift)
    ensures sig % 2 == 1
  {
    hide Pow2;
    PowZero();
    sig, shift := sig0, 0;
    while sig % 2 == 0
      invariant sig > 0
      invariant sig0 == sig * Pow2(shift)
      invariant shift + TrailingZeros(sig) == TrailingZeros(sig0)
      decreases sig
    {
      HalveEven(sig, shift);
      sig := sig / 2;
      shift := shift + 1;
    }
  }

  // ----- the integer quotient and the pair given to internal_normalize

  function Dividend(a: uint32): (n: nat)
    requires Significand(a) > 0
    ensures 0x8000_0000_0000_0000 <= n < 0x1_0000_0000_0000_0000
  {
    SignificandBounds(a);
    Times(Significand(a), Pow2(LeadingShift(Significand(a))))
  }

  function Divisor(b: uint32): (n: nat)
    requires Significand(b) > 0
    ensures n > 0
  {
    OddPart(Significand(b))
  }

  /** sig without its trailing zero bits. */
  function OddPart(sig: nat): (n: nat)
    requires sig > 0
    ensures n > 0
  {
    Over(sig, Pow2(TrailingZeros(sig)))
  }

  /** The 64-bit quotient of two significands. */
  function QuotientOf(sa: nat, sb: nat): nat
    requires 0 < sa < 0x1_0000_0000_0000_0000 && sb > 0
  {
    Over(Times(sa, Pow2(LeadingShift(sa))), OddPart(sb))
  }

  function QuotientExponent(a: uint32, b: uint32): int
    requires Significand(a) > 0 && Significand(b) > 0
  {
    ScaleExponent(a) - ScaleExponent(b) + 127 - (LeadingShift(Significand(a)) + TrailingZeros(Significand(b)) - 23 - 3)
  }

  function Quotient(a: uint32, b: uint32): nat
    requires Significand(a) > 0 && Significand(b) > 0
  {
    Over(Dividend(a), Divisor(b))
  }

  lemma NonzeroSignificand(v: uint32)
    ensures Significand(v) > 0 <==> !IsZero(v)
  {
    SignificandBounds(v);
    assert Magnitude(v) == Exponent(v) * 0x80_0000 + Fraction(v);
  }

  lemma ShiftBounds(sig: nat)
    requires 0 < sig < 0x100_0000
    ensures LeadingShift(sig) < 64 && TrailingZeros(sig) < 24
    ensures 0 < sig / Pow2(TrailingZeros(sig)) < 0x100_0000
    ensures sig == sig / Pow2(TrailingZeros(sig)) * Pow2(TrailingZeros(sig))
  {
    hide LeadingShift, TrailingZeros, Pow2;
    var k, z := LeadingShift(sig), TrailingZeros(sig);
    PowSixtyFour();
    PowTwentyFour();
    if k >= 64 {
      Pow2Monotone(64, k);
      MulMonotone(1, sig, Pow2(k));
    }
    var h := sig / Pow2(z);
    assert sig == h * Pow2(z);
    if z >= 24 {
      Pow2Monotone(24, z);
      MulMonotone(1, h, Pow2(z));
    }
    MulMonotone(1, Pow2(z), h);
  }

  lemma PowSixtyFour()
    ensures Pow2(64) == 0x1_0000_0000_0000_0000
  {
    hide Pow2;
    PowEight();
    PowDouble(8);
    PowDouble(16);
    PowDouble(32);
  }

  lemma QuotientBounds(a: uint32, b: uint32)
    requires !IsZero(a) && !IsZero(b)
    ensures Significand(a) > 0 && Significand(b) > 0
    ensures 0x80_0000_0000 <= Quotient(a, b) < 0x1_0000_0000_0000_0000
    ensures Dividend(a) >= 0x80_0000_0000 * Divisor(b)
    ensures -1000 <= QuotientExponent(a, b) <= 1000
  {
    hide Significand, Pow2, LeadingShift, TrailingZeros;
    NonzeroSignificand(a);
    NonzeroSignificand(b);
    SignificandBounds(a);
    SignificandBounds(b);
    ShiftBounds(Significand(a));
    ShiftBounds(Significand(b));
    QuotientLarge(Dividend(a), Divisor(b));
  }

  lemma QuotientLarge(n: nat, d: nat)
    requires 0x8000_0000_0000_0000 <= n < 0x1_0000_0000_0000_0000 && 0 < d < 0x100_0000
    ensures 0x80_0000_0000 <= n / d <= n
    ensures n >= 0x80_0000_0000 * d
  {
    var q, r := n / d, n % d;
    assert n == q * d + r;
    if q < 0x80_0000_0000 {
      MulMonotone(q, 0x7f_ffff_ffff, d);
    }
    MulMonotone(1, d, q);
    assert d * q == q * d;
  }

  /** (exp, A / B) stands for (sa * 2^(ea - 1)) * 2^k over sb * 2^(eb - 1), where A = sa * 2^m, sb = B * 2^n. */
  lemma QuotientRatio(sa: nat, ea: nat, m: nat, divisor: nat, n: nat, eb: nat, k: nat)
    requires ea >= 1 && eb >= 1
    ensures var exp := ea - eb + k + 4 - m - n;
            sa * Pow2(ea - 1) * Pow2(k) * (Denominator(exp) * divisor) ==
            Numerator(exp, sa * Pow2(m)) * (divisor * Pow2(n) * Pow2(eb - 1))
  {
    hide Pow2;
    var exp := ea - eb + k + 4 - m - n;
    ScaleSplit(sa, ea - 1, k);
    ScaleSplit(divisor, n, eb - 1);
    PowThree();
    if exp >= 1 {
      ScaleSplit(sa, m, exp - 1);
      PowersAgree(sa, ea - 1 + k, 3, divisor, m + (exp - 1), n + (eb - 1));
    } else {
      Pow2Add(3, 1 - exp);
      PowersAgree(sa, ea - 1 + k, 4 - exp, divisor, m, n + (eb - 1));
    }
  }

  lemma PowThree()
    ensures Pow2(3) == 8
  {
  }

  lemma PowersAgree(x: nat, i: nat, j: nat, y: nat, i': nat, j': nat)
    requires i + j == i' + j'
    ensures x * Pow2(i) * (Pow2(j) * y) == x * Pow2(i') * (y * Pow2(j'))
  {
    hide Pow2;
    Pow2Add(i, j);
    Pow2Add(i', j');
    Regroup(x, Pow2(i), Pow2(j), y);
    Regroup(x, Pow2(i'), Pow2(j'), y);
  }

  lemma Regroup(x: nat, p: nat, q: nat, y: nat)
    ensures x * p * (q * y) == x * y * (p * q)
    ensures x * p * (y * q) == x * y * (p * q)
  {
    assert x * p * (q * y) == x * (p * (q * y));
    assert p * (q * y) == y * (p * q);
    assert x * (y * (p * q)) == x * y * (p * q);
    assert y * q == q * y;
  }

  /** The same on the operands: a / b is Dividend / Divisor at the quotient exponent. */
  lemma ExactQuotient(a: uint32, b: uint32)
    requires Significand(a) > 0 && Significand(b) > 0
    ensures var exp := QuotientExponent(a, b);
            Times(Units(a), Pow2(149)) * (Denominator(exp) * Divisor(b)) == Numerator(exp, Dividend(a)) * Units(b)
  {
    hide Pow2, Significand, LeadingShift, TrailingZeros, Denominator, Numerator;
    SignificandBounds(a);
    SignificandBounds(b);
    var m, n := LeadingShift(Significand(a)), TrailingZeros(Significand(b));
    ShiftBounds(Significand(b));
    QuotientRatio(Significand(a), ScaleExponent(a), m, Divisor(b), n, ScaleExponent(b), 149);
  }

  // ----- rounding the truncated quotient

  /**
   The cut-off quotient looks like a tie at the rounding position and its kept part is even,
   but the division left a remainder: it is rounded down where it had to go up.
   */
  predicate QuotientLostTie(a: uint32, b: uint32)
    requires Significand(a) > 0 && Significand(b) > 0
  {
    var exp := QuotientExponent(a, b);
    && LostTie(Dividend(a), Divisor(b), Denominator(exp))
    && Packed(exp, Quotient(a, b)) < INFINITY
  }

  /** The operands on which the division does what IEEE 754 asks. */
  predicate DivSupported(a: uint32, b: uint32) {
    if IsNaN(a) || IsNaN(b) then
      IsCanonicalNaN(a) || IsCanonicalNaN(b)
    else if IsFinite(a) && IsFinite(b) && !IsZero(a) && !IsZero(b) then
      QuotientBounds(a, b);
      && !QuotientLostTie(a, b)
      && !RoundsUpToNormal(Times(Units(a), Pow2(149)), Units(b))
    else
      true
  }

  /** Truncation loses at most a tie, and never the side of 2^-126. */
  lemma TruncatedPair(exp: int, num: nat, divisor: nat)
    requires divisor > 0 && num >= 0x80_0000_0000 * divisor
    ensures Denominator(exp) * divisor > 0
    ensures Pack(Numerator(exp, num), Denominator(exp) * divisor) ==
            Packed(exp, Over(num, divisor)) + (if LostTie(num, divisor, Denominator(exp)) then 1 else 0)
    ensures BelowNormal(exp, Over(num, divisor)) <==> Numerator(exp, num) < 0x80_0000 * (Denominator(exp) * divisor)
  {
    hide Pack, LostTie, Denominator;
    var q, den := Over(num, divisor), Denominator(exp);
    OverAtLeast(num, divisor, 0x80_0000_0000);
    PackTruncated(num, divisor, den) by {
      DenominatorEven(exp);
    }
    if exp >= 1 {
      DenominatorPositive(exp);
      PackedNormal(exp, q);
      PackPeel(num, 8 * divisor, exp - 1);
      MulMonotone(1, Pow2(exp - 1), num);
    } else {
      OverAtLeast(num, divisor, 0x80_0000 * den);
      assert 0x80_0000 * (den * divisor) == 0x80_0000 * den * divisor;
    }
  }

  lemma DenominatorEven(exp: int)
    ensures Denominator(exp) % 2 == 0
  {
    if exp < 1 {
      EvenMultiple(Pow2(1 - exp));
    }
    hide Pow2;
  }

  lemma EvenMultiple(p: nat)
    ensures 8 * p % 2 == 0
  {
    DivModUnique(8 * p, 2, 4 * p, 0);
  }

  lemma DenominatorPositive(exp: int)
    requires exp >= 1
    ensures Denominator(exp) == 8
  {
  }

  lemma OverAtLeast(num: nat, divisor: nat, bound: nat)
    requires divisor > 0
    ensures Over(num, divisor) >= bound <==> num >= bound * divisor
  {
    var q := num / divisor;
    assert num == q * divisor + num % divisor;
    if q < bound {
      MulMonotone(q + 1, bound, divisor);
      assert (q + 1) * divisor == q * divisor + divisor;
    } else {
      MulMonotone(bound, q, divisor);
    }
  }

  /** What is stored against the exact quotient num'/den', for a pair that was truncated. */
  lemma TruncatedCorrectIff(exp: int, num: nat, divisor: nat, num': nat, den': nat)
    requires divisor > 0 && den' > 0 && num >= 0x80_0000_0000 * divisor
    requires num' * (Denominator(exp) * divisor) == Numerator(exp, num) * den'
    ensures var q := Over(num, divisor);
            CorrectlyRounded(num', den', StoredMagnitude(Numerator(exp, q), Denominator(exp))) <==>
            !(LostTie(num, divisor, Denominator(exp)) && Packed(exp, q) < INFINITY) && !RoundsUpToNormal(num', den')
  {
    hide *;
    var q := Over(num, divisor);
    var num'', den'' := Numerator(exp, num), Denominator(exp) * divisor;
    TruncatedPair(exp, num, divisor);
    PackRatio(num', den', num'', den'');
    RatioBelow(num', den', num'', den'');
    RoundsUpToNormalIff(num', den');
    PackCorrectlyRounded(num', den');
    var m := StoredMagnitude(Numerator(exp, q), Denominator(exp));
    StoredUnfold(exp, q);
    if m != Min(Pack(num', den'), INFINITY) {
      OtherMagnitudeWrong(num', den', m);
    }
    InfinityIs();
    MinIs(Pack(num', den'), INFINITY);
    MinIs(Packed(exp, q), INFINITY);
  }

  /** What is stored for a pair that was truncated: one less on a lost tie, zero just below 2^-126. */
  lemma TruncatedMeaning(exp: int, num: nat, divisor: nat, num': nat, den': nat)
    requires divisor > 0 && den' > 0 && num >= 0x80_0000_0000 * divisor
    requires num' * (Denominator(exp) * divisor) == Numerator(exp, num) * den'
    ensures var q := Over(num, divisor);
            var m := StoredMagnitude(Numerator(exp, q), Denominator(exp));
            if LostTie(num, divisor, Denominator(exp)) && Packed(exp, q) < INFINITY then CorrectlyRounded(num', den', m + 1)
            else if RoundsUpToNormal(num', den') then m == 0
            else CorrectlyRounded(num', den', m)
  {
    hide *;
    var q := Over(num, divisor);
    var num'', den'' := Numerator(exp, num), Denominator(exp) * divisor;
    TruncatedPair(exp, num, divisor);
    PackRatio(num', den', num'', den'');
    RatioBelow(num', den', num'', den'');
    RoundsUpToNormalIff(num', den');
    PackCorrectlyRounded(num', den');
    PackBelow(num', den');
    StoredUnfold(exp, q);
    InfinityIs();
    MinIs(Pack(num', den'), INFINITY);
    MinIs(Packed(exp, q), INFINITY);
  }

  lemma PackBelow(num: nat, den: nat)
    requires den > 0
    ensures num < 0x80_0000 * den ==> Pack(num, den) <= 0x80_0000
  {
    if num < 0x80_0000 * den {
      assert Pack(num, den) == RoundNearestEven(num, den);
      hide Pack, RoundNearestEven;
      RoundNearestEvenMeaning(num, den);
      if RoundNearestEven(num, den) > 0x80_0000 {
        MulMonotone(0x80_0001, RoundNearestEven(num, den), den);
      }
    }
  }

  lemma InfinityIs()
    ensures INFINITY == 0x7f80_0000
  {
  }

  lemma MinIs(x: int, y: int)
    ensures Min(x, y) == if x <= y then x else y
  {
  }

  lemma StoredUnfold(exp: int, sig: nat)
    ensures StoredMagnitude(Numerator(exp, sig), Denominator(exp)) ==
            if Packed(exp, sig) == 0x80_0000 && BelowNormal(exp, sig) then 0 else Min(Packed(exp, sig), INFINITY)
  {
    hide Pack, Numerator, Denominator;
  }

  // ----- internal_float_div

  /** The significands are aligned for as many quotient bits as 64 bits allow, and divided. */
  method DivideSignificands(sa: uint64, sb: uint64) returns (sig: uint64, shift: nat)
    requires 0 < sa && 0 < sb < 0x100_0000
    ensures sig == QuotientOf(sa, sb)
    ensures shift == LeadingShift(sa) + TrailingZeros(sb)
  {
    hide LeadingShift, TrailingZeros, Pow2;
    var sigA, up := ShiftUp(sa);
    var sigB, down := ShiftDown(sb);
    shift := up + down;
    ShiftBounds(sb);
    SameQuotient(sigB, sb / Pow2(down), Pow2(down));
    OverAtMost(sigA, sigB);
    sig := Over(sigA, sigB);
  }

  lemma OverAtMost(n: nat, d: nat)
    requires d > 0
    ensures Over(n, d) <= n
  {
    var q := n / d;
    assert n == q * d + n % d;
    MulMonotone(1, d, q);
    assert d * q == q * d;
  }

  /** The quotient of two operands other than zero; an infinite or NaN exponent is not looked at. */
  method DivNonzero(b: uint32, a: uint32) returns (r: uint32)
    requires !IsZero(a) && !IsZero(b)
    ensures Significand(a) > 0 && Significand(b) > 0
    ensures Normalized(ProductSign(a, b), QuotientExponent(a, b), Quotient(a, b), r)
  {
    hide *;
    QuotientBounds(a, b);
    QuotientParts(a, b);
    var sign := if Sign(a) == Sign(b) then 0 else 1;
    var sigA := HiddenSignificand(a);
    var sigB := HiddenSignificand(b);
    var sigRes, shift := DivideSignificands(sigA, sigB);
    var expA: int := if Exponent(a) == 0 then 1 else Exponent(a);
    var expB: int := if Exponent(b) == 0 then 1 else Exponent(b);
    AsInt32OfWrap(expA - expB + 127 + 23 + 3 - shift);
    var expRes: uint32 := Wrap32(expA - expB + 127 + 23 + 3 - shift);
    r := InternalNormalize(sign, AsInt32(expRes), sigRes);
  }

  lemma QuotientParts(a: uint32, b: uint32)
    requires !IsZero(a) && !IsZero(b)
    ensures 0 < Significand(a) < 0x100_0000 && 0 < Significand(b) < 0x100_0000
    ensures Quotient(a, b) == QuotientOf(Significand(a), Significand(b))
    ensures QuotientExponent(a, b) == ScaleExponent(a) - ScaleExponent(b) + 127 -
            (LeadingShift(Significand(a)) + TrailingZeros(Significand(b)) - 23 - 3)
    ensures ScaleExponent(a) == if Exponent(a) == 0 then 1 else Exponent(a)
    ensures ScaleExponent(b) == if Exponent(b) == 0 then 1 else Exponent(b)
    ensures ProductSign(a, b) == if Sign(a) == Sign(b) then 0 else 1
  {
    hide Significand, LeadingShift, TrailingZeros, Pow2;
    NonzeroSignificand(a);
    NonzeroSignificand(b);
    SignificandBounds(a);
    SignificandBounds(b);
  }

  lemma SameQuotient(x: nat, y: nat, p: nat)
    requires p > 0 && x * p == y * p
    ensures x == y
  {
    MulCancel(x, y, p);
  }

  /** The magnitude stored for the quotient of two operands other than zero. */
  function StoredQuotient(a: uint32, b: uint32): nat
    requires Significand(a) > 0 && Significand(b) > 0
  {
    StoredMagnitude(Numerator(QuotientExponent(a, b), Quotient(a, b)), Denominator(QuotientExponent(a, b)))
  }

  lemma QuotientMagnitude(a: uint32, b: uint32, r: uint32)
    requires Significand(a) > 0 && Significand(b) > 0
    requires Quotient(a, b) >= 0x80_0000_0000
    requires Normalized(ProductSign(a, b), QuotientExponent(a, b), Quotient(a, b), r)
    ensures Sign(r) == ProductSign(a, b) && Magnitude(r) <= INFINITY
    ensures Magnitude(r) == StoredQuotient(a, b)
  {
    hide Pack, QuotientExponent, Quotient, Numerator, Denominator, Significand;
  }

  /** For finite operands other than zero the two predicates speak of the rounded quotient only. */
  lemma FiniteQuotient(a: uint32, b: uint32, r: uint32)
    requires IsFinite(a) && IsFinite(b) && !IsZero(a) && !IsZero(b)
    ensures Significand(a) > 0 && Significand(b) > 0 && Units(b) > 0
    ensures DivConforms(a, b, r) <==>
            Sign(r) == ProductSign(a, b) && CorrectlyRounded(Times(Units(a), Pow2(149)), Units(b), Magnitude(r))
    ensures DivSupported(a, b) <==>
            !QuotientLostTie(a, b) && !RoundsUpToNormal(Times(Units(a), Pow2(149)), Units(b))
  {
    hide Units, Significand, QuotientLostTie, CorrectlyRounded, RoundsUpToNormal, Pow2, Magnitude, Exponent, Times;
    hide IsFinite, IsNaN, IsInfinite, IsZero;
    SpecialEncodings(a);
    SpecialEncodings(b);
    NonzeroSignificand(a);
    NonzeroSignificand(b);
    ZeroUnits(b);
  }

  lemma LostTieUnfold(a: uint32, b: uint32)
    requires Significand(a) > 0 && Significand(b) > 0
    ensures StoredQuotient(a, b) == StoredMagnitude(Numerator(QuotientExponent(a, b), Over(Dividend(a), Divisor(b))),
                                                    Denominator(QuotientExponent(a, b)))
    ensures QuotientLostTie(a, b) <==>
            LostTie(Dividend(a), Divisor(b), Denominator(QuotientExponent(a, b)))
            && Packed(QuotientExponent(a, b), Over(Dividend(a), Divisor(b))) < INFINITY
  {
    hide Dividend, Divisor, LostTie, QuotientExponent, Packed, StoredMagnitude;
  }

  /** What the quotient of two finite numbers other than zero is, also where it is not rounded correctly. */
  lemma QuotientMeaning(a: uint32, b: uint32, r: uint32)
    requires IsFinite(a) && IsFinite(b) && !IsZero(a) && !IsZero(b)
    requires Significand(a) > 0 && Significand(b) > 0 && Units(b) > 0
    requires Normalized(ProductSign(a, b), QuotientExponent(a, b), Quotient(a, b), r)
    ensures FiniteQuotientIs(a, b, r)
  {
    hide *;
    QuotientBounds(a, b);
    QuotientMagnitude(a, b, r);
    LostTieUnfold(a, b);
    ExactQuotient(a, b);
    TruncatedMeaning(QuotientExponent(a, b), Dividend(a), Divisor(b), Times(Units(a), Pow2(149)), Units(b));
    FiniteQuotientUnfold(a, b, r);
  }

  /**
   The sign is that of the exact quotient; the magnitude is one below the correctly rounded one on
   a lost tie, zero just below 2^-126, and the correctly rounded one everywhere else.
   */
  ghost predicate FiniteQuotientIs(a: uint32, b: uint32, r: uint32)
    requires Significand(a) > 0 && Significand(b) > 0 && Units(b) > 0
  {
    var num, den := Times(Units(a), Pow2(149)), Units(b);
    && Sign(r) == ProductSign(a, b)
    && if QuotientLostTie(a, b) then CorrectlyRounded(num, den, Magnitude(r) + 1)
       else if RoundsUpToNormal(num, den) then Magnitude(r) == 0
       else CorrectlyRounded(num, den, Magnitude(r))
  }

  lemma FiniteQuotientUnfold(a: uint32, b: uint32, r: uint32)
    requires Significand(a) > 0 && Significand(b) > 0 && Units(b) > 0
    ensures FiniteQuotientIs(a, b, r) <==>
            && Sign(r) == ProductSign(a, b)
            && var num, den := Times(Units(a), Pow2(149)), Units(b);
               if QuotientLostTie(a, b) then CorrectlyRounded(num, den, Magnitude(r) + 1)
               else if RoundsUpToNormal(num, den) then Magnitude(r) == 0
               else CorrectlyRounded(num, den, Magnitude(r))
  {
    hide QuotientLostTie, CorrectlyRounded, RoundsUpToNormal, Units, Pow2, Times, ProductSign;
  }

  /** Exactly when the quotient of two finite numbers other than zero is rounded correctly. */
  lemma QuotientCorrectIff(a: uint32, b: uint32, r: uint32)
    requires IsFinite(a) && IsFinite(b) && !IsZero(a) && !IsZero(b)
    requires Significand(a) > 0 && Significand(b) > 0
    requires Normalized(ProductSign(a, b), QuotientExponent(a, b), Quotient(a, b), r)
    ensures DivConforms(a, b, r) <==> DivSupported(a, b)
  {
    hide *;
    QuotientBounds(a, b);
    QuotientMagnitude(a, b, r);
    FiniteQuotient(a, b, r);
    LostTieUnfold(a, b);
    ExactQuotient(a, b);
    TruncatedCorrectIff(QuotientExponent(a, b), Dividend(a), Divisor(b), Times(Units(a), Pow2(149)), Units(b));
  }

  lemma CornerDivConforms(i: nat)
    requires i < |CORNER_DIV|
    ensures DivConforms(CORNER_DIV[i].a, CORNER_DIV[i].b, CORNER_DIV[i].res)
    ensures DivSupported(CORNER_DIV[i].a, CORNER_DIV[i].b)
    ensures IsZero(CORNER_DIV[i].a) || IsInfinite(CORNER_DIV[i].a)
  {
    hide Units, CorrectlyRounded, QuotientLostTie, RoundsUpToNormal, Pow2, Times;
  }

  lemma CornerDivCovers(a: uint32, b: uint32)
    requires forall j :: 0 <= j < |CORNER_DIV| ==> !(CORNER_DIV[j].a == a && CORNER_DIV[j].b == b)
    ensures !(IsZero(a) && IsZero(b)) && !(IsInfinite(a) && IsZero(b)) && !(IsInfinite(a) && IsInfinite(b))
  {
    assert CORNER_DIV[0].a == P_ZERO && CORNER_DIV[1].a == N_ZERO && CORNER_DIV[2].a == P_ZERO && CORNER_DIV[3].a == N_ZERO;
    assert CORNER_DIV[4].a == P_INF && CORNER_DIV[5].a == N_INF && CORNER_DIV[6].a == P_INF && CORNER_DIV[7].a == N_INF;
    assert CORNER_DIV[8].a == P_INF && CORNER_DIV[9].a == N_INF && CORNER_DIV[10].a == P_INF && CORNER_DIV[11].a == N_INF;
  }

  /** Quotients with a zero or an infinite operand, where the other one is no NaN. */
  lemma SpecialQuotient(a: uint32, b: uint32, r: uint32)
    requires !IsNaN(a) && !IsNaN(b)
    requires !(IsZero(a) && IsZero(b)) && !(IsInfinite(a) && IsInfinite(b))
    requires Sign(r) == ProductSign(a, b)
    requires if IsInfinite(a) || IsZero(b) then IsInfinite(r) else (IsInfinite(b) || IsZero(a)) && IsZero(r)
    ensures DivConforms(a, b, r) && DivSupported(a, b)
  {
    hide Units, CorrectlyRounded, QuotientLostTie, RoundsUpToNormal;
  }

  lemma UnrecognisedNaNQuotient(a: uint32, b: uint32, r: uint32)
    requires IsNaN(a) || IsNaN(b)
    requires !IsCanonicalNaN(a) && !IsCanonicalNaN(b)
    requires !IsNaN(r)
    ensures !DivConforms(a, b, r) && !DivSupported(a, b)
  {
    hide Magnitude, Units, QuotientLostTie, IsNaN;
  }

  lemma CanonicalNaNQuotient(a: uint32, b: uint32, r: uint32)
    requires IsCanonicalNaN(a) || IsCanonicalNaN(b)
    requires IsCanonicalNaN(r)
    ensures DivConforms(a, b, r) && DivSupported(a, b)
  {
    hide Magnitude, Units, QuotientLostTie, IsNaN;
    SpecialEncodings(a);
    SpecialEncodings(b);
    SpecialEncodings(r);
  }

  /** Where the division does not look at an exact quotient: canonical NaNs, invalid operations, zeros, infinities. */
  predicate SpecialQuotientIs(a: uint32, b: uint32, r: uint32) {
    if IsCanonicalNaN(a) || IsCanonicalNaN(b) then
      r == if a == P_NAN || b == P_NAN then P_NAN else N_NAN
    else if (IsZero(a) && IsZero(b)) || (IsInfinite(a) && IsInfinite(b)) then
      r == N_NAN
    else
      && Sign(r) == ProductSign(a, b)
      && (if IsInfinite(a) || IsZero(b) then IsInfinite(r) else if IsZero(a) || IsInfinite(b) then IsZero(r) else true)
  }

  lemma CornerDivSpecial(i: nat)
    requires i < |CORNER_DIV|
    ensures SpecialQuotientIs(CORNER_DIV[i].a, CORNER_DIV[i].b, CORNER_DIV[i].res)
    ensures IsZero(CORNER_DIV[i].b) || IsInfinite(CORNER_DIV[i].b)
  {
  }

  lemma CanonicalNaNSpecial(a: uint32, b: uint32, r: uint32)
    requires IsCanonicalNaN(a) || IsCanonicalNaN(b)
    requires r == if a == P_NAN || b == P_NAN then P_NAN else N_NAN
    ensures SpecialQuotientIs(a, b, r)
  {
  }

  lemma OtherSpecial(a: uint32, b: uint32, r: uint32)
    requires !IsCanonicalNaN(a) && !IsCanonicalNaN(b)
    requires !(IsZero(a) && IsZero(b)) && !(IsInfinite(a) && IsInfinite(b))
    requires Sign(r) == ProductSign(a, b)
    requires if IsInfinite(a) || IsZero(b) then IsInfinite(r) else IsZero(a) || IsInfinite(b) ==> IsZero(r)
    ensures SpecialQuotientIs(a, b, r)
  {
  }

  /**
   a / b.  The result is the one IEEE 754 asks for exactly on the supported operands; where it is
   not, it is stated what comes out instead.
   */
  method InternalFloatDiv(b: uint32, a: uint32) returns (r: uint32)
    ensures DivConforms(a, b, r) <==> DivSupported(a, b)
    ensures SpecialQuotientIs(a, b, r)
    ensures IsFinite(a) && IsFinite(b) && !IsZero(a) && !IsZero(b) ==>
              && Significand(a) > 0 && Significand(b) > 0 && Units(b) > 0
              && Sign(r) == ProductSign(a, b) && Magnitude(r) == StoredQuotient(a, b) && FiniteQuotientIs(a, b, r)
  {
    hide *;
    SpecialEncodings(a);
    SpecialEncodings(b);
    SpecialSigns();
    ProductSignIs(a, b);
    var found, i := FindCornerCase(CORNER_DIV, a, b);
    if found {
      r := CORNER_DIV[i].res;
      CornerDivConforms(i);
      CornerDivSpecial(i);
      return;
    }
    CornerDivCovers(a, b);
    RecognisedNaN(a);
    RecognisedNaN(b);
    if a == P_NAN || a == N_NAN || b == P_NAN || b == N_NAN {
      r := if a == P_NAN || b == P_NAN then P_NAN else N_NAN;
      RecognisedNaN(r);
      CanonicalNaNQuotient(a, b, r);
      CanonicalNaNSpecial(a, b, r);
      return;
    }
    var negative := Sign(a) != Sign(b);
    if a == P_INF || a == N_INF || b == P_ZERO || b == N_ZERO {
      r := if negative then N_INF else P_INF;
    } else if a == P_ZERO || a == N_ZERO || b == P_INF || b == N_INF {
      r := if negative then N_ZERO else P_ZERO;
    } else {
      r := DivNonzero(b, a);
      AboveInfinity(r);
      QuotientBounds(a, b);
      QuotientMagnitude(a, b, r);
    }
    SpecialEncodings(r);
    OtherSpecial(a, b, r);
    if IsNaN(a) || IsNaN(b) {
      UnrecognisedNaNQuotient(a, b, r);
    } else if IsZero(a) || IsZero(b) || IsInfinite(a) || IsInfinite(b) {
      SpecialQuotient(a, b, r);
    } else {
      QuotientCorrectIff(a, b, r);
      FiniteQuotient(a, b, r);
      QuotientMeaning(a, b, r);
    }
  }
}
