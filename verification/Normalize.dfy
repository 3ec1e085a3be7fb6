/**
 Normalisation and rounding of the software FPU: internal_normalize, nemu/src/cpu/fpu.c.

 A pair (exp, sig) stands for sig * 2^(exp - 1) / 8 units of 2^-149; the lowest three bits
 of sig are the guard, round and sticky bits.
 */
module Normalize {
  import opened Arithmetic
  import opened Rounding
  import opened Binary32

  function Numerator(exp: int, sig: nat): nat {
    if exp >= 1 then sig * Pow2(exp - 1) else sig
  }

  function Denominator(exp: int): (den: nat)
    ensures den > 0
  {
    if exp >= 1 then 8 else 8 * Pow2(1 - exp)
  }

  /** The rounded magnitude of (exp, sig). */
  function Packed(exp: int, sig: nat): nat {
    Pack(Numerator(exp, sig), Denominator(exp))
  }

  /** (exp, sig) is less than 2^-126, the smallest normal number. */
  predicate BelowNormal(exp: int, sig: nat) {
    Numerator(exp, sig) < 0x80_0000 * Denominator(exp)
  }

  /**
   The magnitude that is stored for the exact value num/den.  It is the rounded one, except
   that a value below the smallest normal number that rounds up to it is stored as zero.
   */
  function StoredMagnitude(num: nat, den: nat): nat
    requires den > 0
  {
    var p := Pack(num, den);
    if p == 0x80_0000 && num < 0x80_0000 * den then 0 else Min(p, INFINITY)
  }

  /** The values below 2^-126 that round up to it: at least 2^-126 - 2^-150. */
  predicate RoundsUpToNormal(num: nat, den: nat) {
    0xff_ffff * den <= 2 * num < 0x100_0000 * den
  }

  lemma RoundsUpToNormalIff(num: nat, den: nat)
    requires den > 0
    ensures Pack(num, den) == 0x80_0000 && num < 0x80_0000 * den <==> RoundsUpToNormal(num, den)
  {
    if num < 0x80_0000 * den {
      assert Pack(num, den) == RoundNearestEven(num, den);
      hide Pack, RoundNearestEven;
      RoundNearestEvenMeaning(num, den);
      var q := RoundNearestEven(num, den);
      if q < 0x7f_ffff {
        MulMonotone(q, 0x7f_fffe, den);
      } else if q > 0x80_0000 {
        MulMonotone(0x80_0001, q, den);
      }
      NearestIsSmallestNormal(num, den, q, q * den);
    }
  }

  /** Which values have 2^23 as their nearest integer; p is q * den. */
  lemma NearestIsSmallestNormal(num: nat, den: nat, q: nat, p: nat)
    requires den > 0 && num < 0x80_0000 * den
    requires 2 * p <= 2 * num + den && 2 * num <= 2 * p + den && (2 * num == 2 * p + den ==> q % 2 == 0)
    requires q < 0x7f_ffff ==> p <= 0x7f_fffe * den
    requires q == 0x7f_ffff ==> p == 0x7f_ffff * den
    requires q == 0x80_0000 ==> p == 0x80_0000 * den
    requires q > 0x80_0000 ==> p >= 0x80_0001 * den
    ensures q == 0x80_0000 <==> RoundsUpToNormal(num, den)
  {
  }

  /** The stored magnitude is the correctly rounded one except in that interval. */
  lemma StoredCorrectIff(num: nat, den: nat)
    requires den > 0
    ensures CorrectlyRounded(num, den, StoredMagnitude(num, den)) <==> !RoundsUpToNormal(num, den)
  {
    hide CorrectlyRounded, Pack, RoundsUpToNormal;
    RoundsUpToNormalIff(num, den);
    PackCorrectlyRounded(num, den);
    if StoredMagnitude(num, den) != Min(Pack(num, den), INFINITY) {
      OtherMagnitudeWrong(num, den, StoredMagnitude(num, den));
    }
  }

  /** What is stored: zero in that interval, and otherwise the correctly rounded magnitude. */
  lemma StoredMeaning(num: nat, den: nat)
    requires den > 0
    ensures RoundsUpToNormal(num, den) ==> StoredMagnitude(num, den) == 0
    ensures !RoundsUpToNormal(num, den) ==> CorrectlyRounded(num, den, StoredMagnitude(num, den))
  {
    hide CorrectlyRounded, Pack, RoundsUpToNormal;
    RoundsUpToNormalIff(num, den);
    StoredCorrectIff(num, den);
  }

  lemma OtherMagnitudeWrong(num: nat, den: nat, m: nat)
    requires den > 0 && m != Min(Pack(num, den), INFINITY)
    ensures !CorrectlyRounded(num, den, m)
  {
    hide CorrectlyRounded, Pack;
    PackCorrectlyRounded(num, den);
    if CorrectlyRounded(num, den, m) {
      CorrectlyRoundedUnique(num, den, m, Min(Pack(num, den), INFINITY));
    }
  }

  /** The stored magnitude depends only on the ratio. */
  lemma StoredRatio(n1: nat, d1: nat, n2: nat, d2: nat)
    requires d1 > 0 && d2 > 0
    requires n1 * d2 == n2 * d1
    ensures StoredMagnitude(n1, d1) == StoredMagnitude(n2, d2)
  {
    hide Pack;
    PackRatio(n1, d1, n2, d2);
    RatioBelow(n1, d1, n2, d2);
  }

  lemma RatioBelow(n1: nat, d1: nat, n2: nat, d2: nat)
    requires d1 > 0 && d2 > 0
    requires n1 * d2 == n2 * d1
    ensures n1 < 0x80_0000 * d1 <==> n2 < 0x80_0000 * d2
  {
    ScaleCompare(n1, 0x80_0000 * d1, d2);
    ScaleCompare(n2, 0x80_0000 * d2, d1);
    assert d2 * (0x80_0000 * d1) == d1 * (0x80_0000 * d2);
  }

  /** internal_normalize reads an exponent of 0 as 1 when sig has no bit above the hidden one. */
  function EffectiveExponent(exp: int, sig: nat): int {
    if exp == 0 && sig < 0x800_0000 then 1 else exp
  }

  // ----- one sticky shift to the right keeps the rounded value

  /** Both pairs round to the same magnitude and lie on the same side of 2^-126. */
  ghost predicate SameRounding(exp: int, sig: nat, exp': int, sig': nat) {
    Packed(exp, sig) == Packed(exp', sig') && (BelowNormal(exp, sig) <==> BelowNormal(exp', sig'))
  }

  lemma ShiftNegative(exp: int, sig: nat)
    requires exp < 0
    ensures SameRounding(exp, sig, exp + 1, Jam(sig, 2))
  {
    hide Pack, Pow2;
    var den := 8 * Pow2(-exp);
    PowStep(-exp);
    PackJam(sig, 2, den);
    JamCompare(sig, 0x80_0000 * den);
  }

  lemma ShiftZero(sig: nat)
    requires sig >= 0x800_0000
    ensures SameRounding(0, sig, 1, Jam(sig, 2))
  {
    hide Pack;
    assert Pow2(0) == 1 && Pow2(1) == 2;
    PackJam(sig, 2, 8);
    JamCompare(sig, 0x400_0000);
  }

  lemma PackedNormal(exp: int, sig: nat)
    requires exp >= 1 && sig >= 0x400_0000
    ensures Packed(exp, sig) == 0x80_0000 * (exp - 1) + Pack(sig, 8)
    ensures !BelowNormal(exp, sig)
  {
    hide Pack;
    PackPeel(sig, 8, exp - 1);
    MulMonotone(1, Pow2(exp - 1), sig);
  }

  lemma ShiftPositive(exp: int, sig: nat)
    requires exp >= 1 && sig >= 0x800_0000
    ensures SameRounding(exp, sig, exp + 1, Jam(sig, 2))
  {
    hide RoundNearestEven;
    JamCompare(sig, 0x400_0000);
    PackedNormal(exp, sig);
    PackedNormal(exp + 1, Jam(sig, 2));
    PackJam(sig, 2, 8);
  }

  /** One iteration of the right-shift loop. */
  lemma ShiftRight(exp: int, sig: nat)
    requires sig >= 0x800_0000 || exp < 0
    ensures SameRounding(exp, sig, exp + 1, Jam(sig, 2))
  {
    hide *;
    if exp < 0 {
      ShiftNegative(exp, sig);
    } else if exp == 0 {
      ShiftZero(sig);
    } else {
      ShiftPositive(exp, sig);
    }
  }

  /** One iteration of the left-shift loop, above exponent 1. */
  lemma ShiftLeft(exp: int, sig: nat)
    requires exp >= 2
    ensures SameRounding(exp, sig, exp - 1, 2 * sig)
  {
    hide Pack;
    var p := Pow2(exp - 2);
    assert Pow2(exp - 1) == 2 * p;
    assert sig * (2 * p) == 2 * sig * p;
  }

  // ----- where the loops end

  lemma EndsNormal(exp: int, sig: nat)
    requires 1 <= exp && 0x400_0000 <= sig < 0x800_0000
    ensures Packed(exp, sig) == 0x80_0000 * (exp - 1) + RoundNearestEven(sig, 8)
    ensures 0x80_0000 <= RoundNearestEven(sig, 8) <= 0x100_0000
    ensures !BelowNormal(exp, sig)
  {
    PackedNormal(exp, sig);
  }

  lemma EndsInfinite(exp: int, sig: nat)
    requires exp >= 0xff && sig >= 0x400_0000
    ensures Packed(exp, sig) >= INFINITY && !BelowNormal(exp, sig)
  {
    hide Pack;
    PackedNormal(exp, sig);
    PackAtLeast(sig, 8);
  }

  lemma EndsSubnormal(sig: nat)
    requires sig < 0x400_0000
    ensures Packed(1, sig) == RoundNearestEven(sig, 8) <= 0x80_0000
    ensures BelowNormal(1, sig)
  {
    assert Pow2(0) == 1;
  }

  lemma EndsSubnormalShifted(sig: nat)
    requires sig < 0x800_0000
    ensures Packed(0, sig) == RoundNearestEven(Jam(sig, 2), 8) <= 0x80_0000
    ensures BelowNormal(0, sig)
  {
    assert Pow2(1) == 2;
    JamCompare(sig, 0x400_0000);
    PackJam(sig, 2, 8);
  }

  lemma EndsZero(exp: int, sig: nat)
    requires exp < 0 && sig <= 4
    ensures Packed(exp, sig) == 0
  {
    hide RoundNearestEven;
    assert Pow2(1 - exp) == 2 * Pow2(-exp) && Pow2(-exp) == 2 * Pow2(-exp - 1);
    assert Denominator(exp) >= 32;
    RoundToZero(sig, Denominator(exp));
  }

  lemma RoundToZero(num: nat, den: nat)
    requires 2 * num < den
    ensures RoundNearestEven(num, den) == 0
  {
    DivModUnique(num, den, 0, num);
  }

  // ----- internal_normalize

  /** Rounds away the three lowest bits, to nearest even. */
  method RoundGuardBits(sig: nat) returns (n: nat)
    ensures n == RoundNearestEven(sig, 8)
  {
    if sig % 8 > 4 {
      n := sig / 8 + 1;
    } else if sig % 8 < 4 {
      n := sig / 8;
    } else if sig / 8 % 2 == 0 {
      n := sig / 8;
    } else {
      n := sig / 8 + 1;
    }
  }

  /** One turn of a sticky loop: sticky |= sig & 1; sig = (sig >> 1) | sticky. */
  lemma OrBitIsJam(sig: nat, sticky: nat)
    requires sticky == 1 ==> sig % 2 == 1
    ensures var bit := if sig % 2 == 1 then 1 else sticky;
            && OrBit(sig / 2, bit) == Jam(sig, 2) <= sig
            && (bit == 1 ==> Jam(sig, 2) % 2 == 1)
            && (sig >= 0x800_0000 ==> Jam(sig, 2) >= 0x400_0000)
  {
  }

  lemma SameRoundingTransitive(exp: int, sig: nat, exp': int, sig': nat, exp'': int, sig'': nat)
    requires SameRounding(exp, sig, exp', sig') && SameRounding(exp', sig', exp'', sig'')
    ensures SameRounding(exp, sig, exp'', sig'')
  {
  }

  lemma SameRoundingReflexive(exp: int, sig: nat)
    ensures SameRounding(exp, sig, exp, sig)
  {
  }

  /** The loop that normalises toward the right: jamming shifts up to a normal or subnormal position. */
  method ShiftRightLoop(exp0: int32, sig0: uint64) returns (exp: int, sig: uint64, sticky: nat)
    requires sig0 >= 0x800_0000 || exp0 < 0
    ensures SameRounding(exp0, sig0, exp, sig)
    ensures exp >= exp0
    ensures exp < 0xff ==> sig < 0x800_0000
    ensures exp < 0 ==> sig <= 4
    ensures exp >= 1 ==> sig >= 0x400_0000
    ensures sticky == 1 ==> sig % 2 == 1
  {
    hide *;
    exp, sig, sticky := exp0, sig0, 0;
    SameRoundingReflexive(exp0, sig0);
    while (sig / 0x400_0000 > 1 && exp < 0xff) || (sig > 4 && exp < 0)
      invariant exp >= exp0
      invariant SameRounding(exp0, sig0, exp, sig)
      invariant exp >= 1 ==> sig >= 0x400_0000
      invariant sticky == 1 ==> sig % 2 == 1
      decreases 0xff - exp
    {
      OrBitIsJam(sig, sticky);
      ShiftRight(exp, sig);
      SameRoundingTransitive(exp0, sig0, exp, sig, exp + 1, Jam(sig, 2));
      sticky := if sig % 2 == 1 then 1 else sticky;
      sig := OrBit(sig / 2, sticky);
      exp := exp + 1;
    }
  }

  lemma DoubledBounds(sig: nat)
    requires sig / 0x400_0000 == 0
    ensures sig < 0x400_0000 && sig * 2 == 2 * sig < 0x800_0000 && sig * 2 % 2 == 0 && sig * 2 / 2 == sig
  {
  }

  /** The loop that normalises toward the left; shifting left is exact. */
  method ShiftLeftLoop(exp0: int32, sig0: uint64) returns (exp: int, sig: uint64)
    requires exp0 > 0 && sig0 < 0x400_0000
    ensures 0 <= exp <= exp0
    ensures exp > 0 ==> 0x400_0000 <= sig < 0x800_0000 && SameRounding(exp0, sig0, exp, sig)
    ensures exp == 0 ==> sig < 0x800_0000 && sig % 2 == 0 && SameRounding(exp0, sig0, 1, sig / 2)
    ensures exp == 0 ==> sig / 2 < 0x400_0000
  {
    hide *;
    exp, sig := exp0, sig0;
    SameRoundingReflexive(exp0, sig0);
    while sig / 0x400_0000 == 0 && exp > 0
      invariant 0 <= exp <= exp0
      invariant sig < 0x800_0000
      invariant exp > 0 ==> SameRounding(exp0, sig0, exp, sig)
      invariant exp == 0 ==> sig % 2 == 0 && SameRounding(exp0, sig0, 1, sig / 2)
      decreases exp
    {
      DoubledBounds(sig);
      if exp > 1 {
        ShiftLeft(exp, sig);
        SameRoundingTransitive(exp0, sig0, exp, sig, exp - 1, 2 * sig);
      }
      sig := sig * 2;
      exp := exp - 1;
    }
  }

  /** What internal_normalize returns for (exp, sig), with the given sign. */
  ghost predicate Normalized(sign: nat, exp: int, sig: nat, r: uint32)
    requires sign <= 1
  {
    var e := EffectiveExponent(exp, sig);
    && Sign(r) == sign
    && Magnitude(r) == StoredMagnitude(Numerator(e, sig), Denominator(e))
  }

  /**
   (exp, sig) holds the value of (exp0, sig0) in the position where it is rounded: exp is
   the stored exponent and the hidden bit is bit 26, or below it for a subnormal result.
   With overflow set the result is already decided.
   */
  ghost predicate Positioned(exp0: int, sig0: nat, exp: int, sig: nat, overflow: bool) {
    var p, below := Packed(exp0, sig0), BelowNormal(exp0, sig0);
    if overflow then
      && sig == 0
      && ((exp == 0xff && p >= INFINITY && !below) || (exp == 0 && p == 0))
    else if exp == 0 then
      sig < 0x400_0000 && below && p == RoundNearestEven(sig, 8) <= 0x80_0000
    else
      && 1 <= exp < 0xff && !below
      && 0x80_0000 <= RoundNearestEven(sig, 8) <= 0x100_0000
      && p == 0x80_0000 * (exp - 1) + RoundNearestEven(sig, 8)
  }

  lemma PositionedNormal(exp0: int, sig0: nat, exp: int, sig: nat)
    requires SameRounding(exp0, sig0, exp, sig)
    requires 1 <= exp < 0xff && 0x400_0000 <= sig < 0x800_0000
    ensures Positioned(exp0, sig0, exp, sig, false)
  {
    hide Packed, BelowNormal, RoundNearestEven;
    EndsNormal(exp, sig);
  }

  lemma PositionedInfinite(exp0: int, sig0: nat, exp: int, sig: nat)
    requires SameRounding(exp0, sig0, exp, sig)
    requires exp >= 0xff && sig >= 0x400_0000
    ensures Positioned(exp0, sig0, 0xff, 0, true)
  {
    hide Packed, BelowNormal, RoundNearestEven;
    EndsInfinite(exp, sig);
  }

  lemma PositionedZero(exp0: int, sig0: nat, exp: int, sig: nat)
    requires SameRounding(exp0, sig0, exp, sig)
    requires exp < 0 && sig <= 4
    ensures Positioned(exp0, sig0, 0, 0, true)
  {
    hide Packed, BelowNormal, RoundNearestEven;
    EndsZero(exp, sig);
  }

  lemma PositionedSubnormal(exp0: int, sig0: nat, sig: nat)
    requires SameRounding(exp0, sig0, 1, sig) && sig < 0x400_0000
    ensures Positioned(exp0, sig0, 0, sig, false)
  {
    hide Packed, BelowNormal, RoundNearestEven;
    EndsSubnormal(sig);
  }

  lemma PositionedSubnormalShifted(exp0: int, sig0: nat, sig: nat)
    requires SameRounding(exp0, sig0, 0, sig) && sig < 0x800_0000
    ensures Positioned(exp0, sig0, 0, Jam(sig, 2), false)
  {
    hide Packed, BelowNormal, RoundNearestEven;
    JamCompare(sig, 0x400_0000);
    EndsSubnormalShifted(sig);
  }

  /** The first half of internal_normalize: bring (exp0, sig0) into position. */
  method Position(exp0: int32, sig0: uint64) returns (exp: int, sig: uint64, overflow: bool)
    requires exp0 < 0xff || sig0 >= 0x800_0000
    ensures 0 <= exp <= 0xff
    ensures Positioned(EffectiveExponent(exp0, sig0), sig0, exp, sig, overflow)
  {
    hide SameRounding, Positioned, Jam, OrBit;
    exp, sig, overflow := exp0, sig0, false;
    var sticky := 0;
    if sig / 0x400_0000 > 1 || exp < 0 {
      exp, sig, sticky := ShiftRightLoop(exp0, sig0);
      ghost var shifted := sig;
      if exp >= 0xff {
        PositionedInfinite(exp0, sig0, exp, sig);
        exp := 0xff;
        sig := 0;
        overflow := true;
      }
      if exp == 0 {
        PositionedSubnormalShifted(exp0, sig0, sig);
        OrBitIsJam(sig, sticky);
        sticky := if sig % 2 == 1 then 1 else sticky;
        sig := OrBit(sig / 2, sticky);
      } else if 1 <= exp < 0xff {
        PositionedNormal(exp0, sig0, exp, sig);
      }
      if exp < 0 {
        PositionedZero(exp0, sig0, exp, sig);
        exp := 0;
        sig := 0;
        overflow := true;
      }
    } else if sig / 0x400_0000 == 0 && exp > 0 {
      exp, sig := ShiftLeftLoop(exp0, sig0);
      if exp == 0 {
        PositionedSubnormal(exp0, sig0, sig / 2);
        OrBitIsJam(sig, sticky);
        ExactShift(sig);
        sticky := if sig % 2 == 1 then 1 else sticky;
        sig := OrBit(sig / 2, sticky);
      } else {
        PositionedNormal(exp0, sig0, exp, sig);
      }
    } else if exp == 0 && sig / 0x400_0000 == 1 {
      SameRoundingReflexive(1, sig0);
      PositionedNormal(1, sig0, 1, sig);
      exp := exp + 1;
    } else if exp == 0 {
      SameRoundingReflexive(1, sig0);
      PositionedSubnormal(1, sig0, sig);
    } else {
      SameRoundingReflexive(exp0, sig0);
      PositionedNormal(exp0, sig0, exp, sig);
    }
  }

  lemma ExactShift(sig: nat)
    requires sig % 2 == 0
    ensures Jam(sig, 2) == sig / 2
  {
  }

  /** The carry out of the rounding increment, and the check for overflow after it. */
  method AdjustAfterRounding(exp0: int, sig0: nat) returns (exp: int, sig: nat)
    requires 0 <= exp0 < 0xff && sig0 <= 0x100_0000
    requires exp0 == 0 ==> sig0 <= 0x80_0000
    ensures sig0 < 0x100_0000 ==> exp == exp0 && sig == sig0
    ensures sig0 == 0x100_0000 ==> exp == exp0 + 1 && sig == if exp == 0xff then 0 else 0x80_0000
  {
    exp, sig := exp0, sig0;
    if sig / 0x80_0000 > 1 {
      while sig / 0x80_0000 > 1 && exp < 0xff
        invariant sig0 == 0x100_0000
        invariant exp0 <= exp <= 0xff
        invariant (exp == exp0 && sig == sig0) || (exp == exp0 + 1 && sig == 0x80_0000)
        decreases 0xff - exp
      {
        sig := sig / 2;
        exp := exp + 1;
      }
      if exp >= 0xff {
        exp := 0xff;
        sig := 0;
      }
      // exp >= 1 here, so the source's cases exp == 0 and exp < 0 do not arise.
    }
  }

  lemma StoredIs(exp0: int, sig0: nat, exp: int, sig: nat, overflow: bool)
    requires Positioned(exp0, sig0, exp, sig, overflow)
    ensures StoredMagnitude(Numerator(exp0, sig0), Denominator(exp0)) ==
            if overflow then exp * 0x80_0000
            else if exp == 0 then RoundNearestEven(sig, 8) % 0x80_0000
            else Min(0x80_0000 * (exp - 1) + RoundNearestEven(sig, 8), INFINITY)
  {
    hide Pack, RoundNearestEven, Numerator, Denominator;
  }

  /**
   Normalises (exp, sig) and rounds it to a binary32 number.  The callers keep exp below the
   exponent of infinity unless sig has a bit above the hidden one.
   */
  method InternalNormalize(sign: nat, exp0: int32, sig0: uint64) returns (r: uint32)
    requires sign <= 1
    requires exp0 < 0xff || sig0 >= 0x800_0000
    ensures Normalized(sign, exp0, sig0, r)
  {
    hide Positioned, StoredMagnitude, Numerator, Denominator, RoundNearestEven;
    ghost var e := EffectiveExponent(exp0, sig0);
    var exp, sig: nat, overflow := Position(exp0, sig0);
    StoredIs(e, sig0, exp, sig, overflow);
    if !overflow {
      PositionedBounds(e, sig0, exp, sig);
      sig := RoundGuardBits(sig);
      exp, sig := AdjustAfterRounding(exp, sig);
    } else {
      OverflowBounds(e, sig0, exp, sig);
    }
    EncodeFields(sign, exp % 0x100, sig % 0x80_0000);
    r := Encode(sign, exp % 0x100, sig % 0x80_0000);
  }

  lemma PositionedBounds(exp0: int, sig0: nat, exp: int, sig: nat)
    requires Positioned(exp0, sig0, exp, sig, false)
    ensures 0 <= exp < 0xff && RoundNearestEven(sig, 8) <= 0x100_0000
    ensures exp == 0 ==> RoundNearestEven(sig, 8) <= 0x80_0000
    ensures exp > 0 ==> RoundNearestEven(sig, 8) >= 0x80_0000
  {
  }

  lemma OverflowBounds(exp0: int, sig0: nat, exp: int, sig: nat)
    requires Positioned(exp0, sig0, exp, sig, true)
    ensures sig == 0 && (exp == 0 || exp == 0xff)
  {
  }
}
