/**
 Addition and subtraction of the software FPU: internal_float_add and internal_float_sub,
 nemu/src/cpu/fpu.c.
 */
module FpuAdd {
  import opened Arithmetic
  import opened Rounding
  import opened Binary32
  import opened FpuSpec
  import opened Normalize

  /** A row of a corner-case table: for these operands, that result. */
  datatype CornerCase = CornerCase(a: uint32, b: uint32, res: uint32)

  /** The first row for (a, b), if the table has one. */
  method FindCornerCase(table: seq<CornerCase>, a: uint32, b: uint32) returns (found: bool, i: nat)
    ensures found ==> i < |table| && table[i].a == a && table[i].b == b
    ensures found ==> forall j :: 0 <= j < i ==> !(table[j].a == a && table[j].b == b)
    ensures !found ==> forall j :: 0 <= j < |table| ==> !(table[j].a == a && table[j].b == b)
  {
    i := 0;
    while i < |table|
      invariant i <= |table|
      invariant forall j :: 0 <= j < i ==> !(table[j].a == a && table[j].b == b)
    {
      if a == table[i].a && b == table[i].b {
        return true, i;
      }
      i := i + 1;
    }
    found := false;
  }

  const CORNER_ADD: seq<CornerCase> := [
    CornerCase(P_ZERO, P_ZERO, P_ZERO),
    CornerCase(N_ZERO, P_ZERO, P_ZERO),
    CornerCase(P_ZERO, N_ZERO, P_ZERO),
    CornerCase(N_ZERO, N_ZERO, N_ZERO),
    CornerCase(P_INF, N_INF, N_NAN),
    CornerCase(N_INF, P_INF, N_NAN),
    CornerCase(P_INF, P_NAN, P_NAN),
    CornerCase(P_INF, N_NAN, N_NAN),
    CornerCase(N_INF, P_NAN, P_NAN),
    CornerCase(N_INF, N_NAN, N_NAN),
    CornerCase(N_NAN, P_NAN, P_NAN)
  ]

  // ----- alignment of the smaller operand

  /** Shifts sig right by shift places, jamming the lost bits into the lowest one. */
  method AlignmentShift(sig0: nat, shift0: nat) returns (sig: nat)
    ensures sig == Jam(sig0, Pow2(shift0)) <= sig0
  {
    var shift, sticky := shift0, 0;
    sig := sig0;
    ghost var done := 0;
    hide Pow2, Jam;
    PowZero();
    JamByOne(sig0);
    while shift > 0
      invariant done + shift == shift0
      invariant sig == Jam(sig0, Pow2(done)) <= sig0
      invariant sticky == 1 ==> sig % 2 == 1
    {
      OrBitIsJam(sig, sticky);
      JamStep(sig0, Pow2(done));
      PowStep(done);
      sticky := if sig % 2 == 1 then 1 else sticky;
      sig := OrBit(sig / 2, sticky);
      shift := shift - 1;
      done := done + 1;
    }
  }

  /** y plus or minus the jammed x is the jammed form of the exact sum or difference. */
  lemma JamSum(x: nat, y: nat, d: nat)
    requires d > 0 && y % 2 == 0
    ensures y * d + x >= 0
    ensures Jam(y * d + x, d) == y + Jam(x, d)
  {
    var h, l := x / d, x % d;
    assert x == h * d + l;
    assert (y + h) * d == y * d + h * d;
    DivModUnique(y * d + x, d, y + h, l);
  }

  lemma JamDifference(x: nat, y: nat, d: nat)
    requires d > 0 && y % 2 == 0
    requires x / d < y
    ensures y * d - x >= 0
    ensures Jam(y * d - x, d) == y - Jam(x, d)
  {
    hide Jam;
    var h, l := x / d, x % d;
    JamParts(x, d, h, l);
    DifferenceParts(x, y, d, h, l);
    var n: nat := y * d - x;
    JamParts(n, d, if l == 0 then y - h else y - h - 1, if l == 0 then 0 else d - l);
    ParityBelow(y, h);
  }

  lemma ParityBelow(y: nat, h: nat)
    requires y % 2 == 0 && h < y
    ensures (y - h) % 2 == h % 2 && (y - h - 1) % 2 == 1 - h % 2
  {
  }

  lemma DifferenceParts(x: nat, y: nat, d: nat, h: nat, l: nat)
    requires d > 0 && l < d && h < y && x == h * d + l
    ensures y * d - x >= 0
    ensures (y * d - x) / d == if l == 0 then y - h else y - h - 1
    ensures (y * d - x) % d == if l == 0 then 0 else d - l
  {
    assert (y - h) * d == y * d - h * d;
    MulAtLeast(y - h, d);
    assert (y - h - 1) * d == (y - h) * d - d;
    DivModUnique(y * d - x, d, if l == 0 then y - h else y - h - 1, if l == 0 then 0 else d - l);
  }

  lemma JamParts(x: nat, d: nat, h: nat, l: nat)
    requires d > 0 && x / d == h && x % d == l
    ensures Jam(x, d) == if l != 0 && h % 2 == 0 then h + 1 else h
  {
  }

  /** Jamming while aligning by d places does not change what the sum rounds to: nothing lost. */
  lemma AlignedExactly(e: nat, t: nat, d: nat)
    requires e >= 1 && t % Pow2(d) == 0
    ensures Numerator(e + d, Jam(t, Pow2(d))) == Numerator(e, t)
    ensures Packed(e + d, Jam(t, Pow2(d))) == Packed(e, t)
  {
    hide Pack;
    var h := t / Pow2(d);
    ScaleSplit(h, d, e - 1);
    assert t == h * Pow2(d);
  }

  /** ... or, when bits were lost, the sum still has a bit that keeps them below the half position. */
  lemma AlignedBeyondHalf(e: nat, t: nat, d: nat)
    requires e >= 1 && d >= 1
    requires Jam(t, Pow2(d)) >= 0x200_0000
    ensures Packed(e + d, Jam(t, Pow2(d))) == Packed(e, t)
  {
    hide *;
    var s := Jam(t, Pow2(d));
    PackedFromHalf(e + d, s);
    PackJam(t, Pow2(d), 4);
    JamLow(t, Pow2(d));
    PackedAcross(e, t, d);
  }

  lemma PackedFromHalf(exp: nat, s: nat)
    requires exp >= 2 && s >= 0x200_0000
    ensures Packed(exp, s) == 0x80_0000 * (exp - 2) + Pack(s, 4)
  {
    hide Pack, Pow2;
    PackedPositive(exp, s);
    PowStep(exp - 2);
    assert s * (2 * Pow2(exp - 2)) == 2 * (s * Pow2(exp - 2));
    PackScale(s * Pow2(exp - 2), 4, 2);
    PackPeel(s, 4, exp - 2);
  }

  lemma JamLow(t: nat, p: nat)
    requires p > 0 && Jam(t, p) >= 0x200_0000
    ensures t >= 0x200_0000 * p
  {
    assert t / p >= 0x200_0000;
    assert t == t / p * p + t % p;
    MulMonotone(0x200_0000, t / p, p);
  }

  lemma PackedAcross(e: nat, t: nat, d: nat)
    requires e >= 1 && d >= 1
    requires t >= 0x200_0000 * Pow2(d)
    ensures 4 * Pow2(d) > 0
    ensures Packed(e, t) == 0x80_0000 * (e + d - 2) + Pack(t, 4 * Pow2(d))
  {
    hide Pack;
    var c := Pow2(d - 1);
    assert Pow2(d) == 2 * c;
    PackScale(t * Pow2(e - 1), 8, c);
    ScaleSplit(t, e - 1, d - 1);
    assert c * (t * Pow2(e - 1)) == t * Pow2(e - 1) * c;
    PackPeel(t, 4 * Pow2(d), e + d - 2);
  }

  /** The exact sum in units of 2^-149 times 8, over the smaller exponent. */
  function ExactGrs(fa: uint32, fb: uint32): int
    requires ScaleExponent(fa) <= ScaleExponent(fb)
  {
    Signed(Sign(fa) == 1, 8 * Significand(fa)) +
    Signed(Sign(fb) == 1, Times(8 * Significand(fb), Pow2(ScaleExponent(fb) - ScaleExponent(fa))))
  }

  function Signed(negative: bool, x: int): int {
    if negative then -x else x
  }

  lemma ExactGrsIsSum(fa: uint32, fb: uint32)
    requires ScaleExponent(fa) <= ScaleExponent(fb)
    ensures 8 * (Value(fa) + Value(fb)) == ExactGrs(fa, fb) * Pow2(ScaleExponent(fa) - 1)
    ensures ExactGrs(fa, fb) == Signed(Sign(fa) == 1, 8 * Significand(fa)) +
            Signed(Sign(fb) == 1, Times(8 * Significand(fb), Pow2(ScaleExponent(fb) - ScaleExponent(fa))))
  {
    hide Significand, Pow2;
    var ea, eb := ScaleExponent(fa), ScaleExponent(fb);
    var x, y := Significand(fa), Significand(fb);
    ScaleSplit(8 * y, eb - ea, ea - 1);
    SignedScale(8 * x, Times(8 * y, Pow2(eb - ea)), Pow2(ea - 1), Sign(fa) == 1, Sign(fb) == 1);
    EightTimes(x, Pow2(ea - 1));
    EightTimes(y, Pow2(eb - 1));
  }

  lemma EightTimes(x: nat, p: nat)
    ensures 8 * x * p == 8 * (x * p)
  {
  }

  lemma SignedScale(x: int, y: int, q: int, nx: bool, ny: bool)
    ensures (Signed(nx, x) + Signed(ny, y)) * q == Signed(nx, x * q) + Signed(ny, y * q)
  {
  }

  /** The sum the code computes, after the smaller operand x was aligned by d places. */
  function AlignedSum(nx: bool, x: nat, ny: bool, y: nat, d: nat): int {
    Signed(nx, Jam(x, Pow2(d))) + Signed(ny, y)
  }

  /** Adding the aligned significands gives the exact sum, jammed. */
  lemma AlignedSumIsJammed(nx: bool, x: nat, ny: bool, y: nat, d: nat)
    requires x < 0x800_0000 && x % 8 == 0 && y < 0x800_0000 && y % 8 == 0
    requires d > 0 ==> y >= 0x400_0000
    ensures var t := Signed(nx, x) + Signed(ny, Times(y, Pow2(d)));
            var s := AlignedSum(nx, x, ny, y, d);
            Abs(s) == Jam(Abs(t), Pow2(d)) && (s < 0 <==> t < 0) && (s == 0 <==> t == 0)
  {
    hide Jam, Pow2;
    if d == 0 {
      PowZero();
      JamByOne(x);
      JamByOne(Abs(Signed(nx, x) + Signed(ny, y)));
    } else {
      PowStep(d - 1);
      JammedSum(nx, x, ny, y, Pow2(d));
    }
  }

  lemma JammedSum(nx: bool, x: nat, ny: bool, y: nat, p: nat)
    requires x < 0x800_0000 && 0x400_0000 <= y && y % 8 == 0 && p >= 2
    ensures var t := Signed(nx, x) + Signed(ny, Times(y, p));
            var s := Signed(nx, Jam(x, p)) + Signed(ny, y);
            Abs(s) == Jam(Abs(t), p) && (s < 0 <==> t < 0) && (s == 0 <==> t == 0)
  {
    hide Jam;
    AlignedTop(x, y, p);
    if nx == ny {
      JamSum(x, y, p);
      assert Abs(Signed(nx, x) + Signed(ny, Times(y, p))) == y * p + x;
    } else {
      JamDifference(x, y, p);
      assert Abs(Signed(nx, x) + Signed(ny, Times(y, p))) == y * p - x;
    }
  }

  lemma JamByOne(x: nat)
    ensures Jam(x, 1) == x
  {
  }

  lemma AlignedTop(x: nat, y: nat, p: nat)
    requires x < 0x800_0000 && y >= 0x400_0000 && p >= 2
    ensures x / p < 0x400_0000
    ensures Jam(x, p) < 0x400_0000
    ensures y * p > x
  {
    var h := x / p;
    assert x == h * p + x % p;
    MulMonotone(2, p, h);
    assert p * h == h * p;
    MulMonotone(0x400_0000, y, p);
  }

  /** A shift by four or more places leaves a sum with its top bit at position 25 or above. */
  lemma AlignedSumLarge(nx: bool, x: nat, ny: bool, y: nat, d: nat)
    requires x < 0x800_0000 && 0x400_0000 <= y < 0x800_0000 && d >= 4
    ensures Abs(AlignedSum(nx, x, ny, y, d)) >= 0x200_0000
  {
    Pow2Monotone(4, d);
    assert Pow2(4) == 16;
    hide Pow2, Jam;
    JamSmall(x, Pow2(d));
  }

  lemma JamSmall(x: nat, p: nat)
    requires x < 0x800_0000 && p >= 16
    ensures 0 <= Jam(x, p) <= 0x80_0000
  {
    var h := x / p;
    assert x == h * p + x % p;
    MulMonotone(16, p, h);
  }

  /** A shift by three places or fewer loses nothing: the operands have three zero bits. */
  lemma AlignedSumExact(nx: bool, x: nat, ny: bool, y: nat, d: nat)
    requires x % 8 == 0 && y % 8 == 0 && d <= 3
    ensures Abs(Signed(nx, x) + Signed(ny, Times(y, Pow2(d)))) % Pow2(d) == 0
  {
    hide Pow2;
    TimesEight(y, Pow2(d));
    SumOfEights(nx, x, ny, Times(y, Pow2(d)));
    MultipleOfEight(Abs(Signed(nx, x) + Signed(ny, Times(y, Pow2(d)))), d);
  }

  lemma TimesEight(y: nat, p: nat)
    requires y % 8 == 0
    ensures Times(y, p) % 8 == 0
  {
    var z := y / 8;
    assert y == 8 * z;
    EightTimes(z, p);
  }

  lemma SumOfEights(nx: bool, x: nat, ny: bool, y: nat)
    requires x % 8 == 0 && y % 8 == 0
    ensures Abs(Signed(nx, x) + Signed(ny, y)) % 8 == 0
  {
    var h, k := x / 8, y / 8;
    var n := Abs(Signed(nx, h) + Signed(ny, k));
    assert x == 8 * h && y == 8 * k;
    DivModUnique(Abs(Signed(nx, x) + Signed(ny, y)), 8, n, 0);
  }

  lemma MultipleOfEight(t: nat, d: nat)
    requires t % 8 == 0 && d <= 3
    ensures t % Pow2(d) == 0
  {
    SmallPowers();
    hide Pow2;
    if d == 0 {
    } else if d == 1 {
    } else if d == 2 {
    } else {
      assert d == 3;
    }
  }

  lemma SmallPowers()
    ensures Pow2(0) == 1 && Pow2(1) == 2 && Pow2(2) == 4 && Pow2(3) == 8
  {
  }

  // ----- from the aligned sum to the rounded one

  /** An integer number of units below 2^23 is not rounded at all. */
  lemma PackInteger(u: nat)
    ensures u < 0x80_0000 ==> Pack(u, 1) == u
  {
  }

  lemma StoredSum(e: nat, t: nat, d: nat, u: nat)
    requires e >= 1
    requires t * Pow2(e - 1) == 8 * u
    requires t % Pow2(d) == 0 || (d >= 4 && Jam(t, Pow2(d)) >= 0x200_0000)
    ensures var s := Jam(t, Pow2(d));
            StoredMagnitude(Numerator(e + d, s), Denominator(e + d)) == Min(Pack(u, 1), INFINITY)
  {
    hide *;
    var s := Jam(t, Pow2(d));
    assert Packed(e, t) == Pack(u, 1) by {
      PackScale(u, 1, 8);
      PackedPositive(e, t);
    }
    if t % Pow2(d) == 0 {
      AlignedExactly(e, t, d);
      PackedPositive(e, t);
      PackedPositive(e + d, s);
      PackInteger(u);
      StoredUnlessBelow(8 * u, 8);
    } else {
      AlignedBeyondHalf(e, t, d);
      PackedPositive(e + d, s);
      ScaleSplit(s, 4, e + d - 5);
      LargeNumerator(s, e + d);
      StoredUnlessBelow(s * Pow2(e + d - 1), 8);
    }
  }

  lemma PackedPositive(exp: int, sig: nat)
    requires exp >= 1
    ensures Numerator(exp, sig) == sig * Pow2(exp - 1) && Denominator(exp) == 8
    ensures Packed(exp, sig) == Pack(sig * Pow2(exp - 1), 8)
  {
    hide Pack;
  }

  lemma StoredUnlessBelow(num: nat, den: nat)
    requires den > 0
    requires num < 0x80_0000 * den ==> Pack(num, den) != 0x80_0000
    ensures StoredMagnitude(num, den) == Min(Pack(num, den), INFINITY)
  {
    hide Pack;
  }

  lemma LargeNumerator(s: nat, exp: nat)
    requires exp >= 5 && s >= 0x200_0000
    ensures s * Pow2(exp - 1) >= 0x400_0000
  {
    assert Pow2(exp - 1) == 2 * Pow2(exp - 2);
    MulMonotone(2, Pow2(exp - 1), s);
    assert s * Pow2(exp - 1) >= 2 * s;
  }

  lemma SignificandBounds(v: uint32)
    ensures Significand(v) < 0x100_0000
    ensures ScaleExponent(v) > 1 ==> Significand(v) >= 0x80_0000
    ensures !IsZero(v) ==> Significand(v) > 0
    ensures Exponent(v) == 0 ==> Significand(v) < 0x80_0000
  {
    assert Magnitude(v) == Exponent(v) * 0x80_0000 + Fraction(v);
  }

  lemma OperandBounds(fa: uint32, fb: uint32)
    requires IsFinite(fa) && IsFinite(fb) && !IsZero(fa) && !IsZero(fb)
    requires Exponent(fa) <= Exponent(fb)
    ensures ScaleExponent(fa) <= ScaleExponent(fb)
    ensures 0 < 8 * Significand(fa) < 0x800_0000 && 0 < 8 * Significand(fb) < 0x800_0000
    ensures ScaleExponent(fa) < ScaleExponent(fb) ==> 8 * Significand(fb) >= 0x400_0000
  {
    hide Significand;
    SignificandBounds(fa);
    SignificandBounds(fb);
  }

  lemma AbsScaled(x: int, t: int, p: nat)
    requires p > 0 && 8 * x == t * p
    ensures 8 * Abs(x) == Abs(t) * p
    ensures (x < 0 <==> t < 0) && (x == 0 <==> t == 0)
  {
    if t < 0 {
      MulStrict(t, 0, p);
    } else if t > 0 {
      MulStrict(0, t, p);
    }
    assert -t * p == -(t * p);
  }

  /** The exponent handed to internal_normalize means the scale of the larger operand. */
  lemma SumExponent(fa: uint32, fb: uint32)
    requires Exponent(fa) <= Exponent(fb)
    ensures ScaleExponent(fa) <= ScaleExponent(fb)
    ensures var s := AlignedSum(Sign(fa) == 1, 8 * Significand(fa), Sign(fb) == 1, 8 * Significand(fb),
                                ScaleExponent(fb) - ScaleExponent(fa));
            EffectiveExponent(Exponent(fb), Abs(s)) == ScaleExponent(fb)
  {
    hide Significand, Jam;
    SignificandBounds(fa);
    SignificandBounds(fb);
    if Exponent(fb) == 0 {
      assert Pow2(0) == 1;
      JamByOne(8 * Significand(fa));
    }
  }

  lemma RoundedFromStored(exact: int, s: int, e: int, exponent: nat, r: uint32)
    requires EffectiveExponent(exponent, Abs(s)) == e
    requires Normalized(if s < 0 then 1 else 0, exponent, Abs(s), r)
    requires StoredMagnitude(Numerator(e, Abs(s)), Denominator(e)) == Min(Pack(Abs(exact), 1), INFINITY)
    requires CorrectlyRounded(Abs(exact), 1, Min(Pack(Abs(exact), 1), INFINITY))
    requires (s < 0 <==> exact < 0) && (s == 0 <==> exact == 0)
    ensures RoundedInteger(exact, 0, r)
  {
    hide CorrectlyRounded, StoredMagnitude, Numerator, Denominator, EffectiveExponent;
    PackInteger(Abs(exact));
  }

  /** The exact operands of internal_normalize, and what it makes of them. */
  lemma SumIsRounded(fa: uint32, fb: uint32, r: uint32)
    requires IsFinite(fa) && IsFinite(fb) && !IsZero(fa) && !IsZero(fb)
    requires Exponent(fa) <= Exponent(fb)
    requires var s := AlignedSum(Sign(fa) == 1, 8 * Significand(fa), Sign(fb) == 1, 8 * Significand(fb),
                                 ScaleExponent(fb) - ScaleExponent(fa));
             Normalized(if s < 0 then 1 else 0, Exponent(fb), Abs(s), r)
    ensures RoundedInteger(Value(fa) + Value(fb), 0, r)
  {
    hide *;
    var na, nb := Sign(fa) == 1, Sign(fb) == 1;
    var x, y := 8 * Significand(fa), 8 * Significand(fb);
    var ea, eb := ScaleExponent(fa), ScaleExponent(fb);
    OperandBounds(fa, fb);
    var d := eb - ea;
    var s := AlignedSum(na, x, nb, y, d);
    var t := Signed(na, x) + Signed(nb, Times(y, Pow2(d)));
    var exact := Value(fa) + Value(fb);
    AlignedSumIsJammed(na, x, nb, y, d);
    ExactGrsIsSum(fa, fb);
    AbsScaled(exact, t, Pow2(ea - 1));
    if d <= 3 {
      AlignedSumExact(na, x, nb, y, d);
    } else {
      AlignedSumLarge(na, x, nb, y, d);
    }
    StoredSum(ea, Abs(t), d, Abs(exact));
    SumExponent(fa, fb);
    PackCorrectlyRounded(Abs(exact), 1);
    RoundedFromStored(exact, s, eb, Exponent(fb), r);
    assert Abs(s) == Jam(Abs(t), Pow2(d));
  }

  // ----- internal_float_add and internal_float_sub

  /** Two's complement addition of the signed significands, and the sign and size of its result. */
  method AddSignificands(na: bool, x: nat, nb: bool, y: nat) returns (sign: nat, sig: uint32)
    requires x < 0x800_0000 && y < 0x800_0000
    ensures var s := Signed(na, x) + Signed(nb, y);
            sign == (if s < 0 then 1 else 0) && sig == Abs(s)
  {
    hide Wrap32;
    var sigA: int, sigB: int := x, y;
    WrapNegation(sigA);
    WrapNegation(sigB);
    if na {
      sigA := Wrap32(-sigA);
    }
    if nb {
      sigB := Wrap32(-sigB);
    }
    WrapSum(sigA, sigB);
    var sigRes: int := Wrap32(sigA + sigB);
    WrapNegation(sigRes);
    if sigRes / 0x8000_0000 == 1 {
      sign := 1;
      sigRes := Wrap32(-sigRes);
    } else {
      sign := 0;
    }
    sig := sigRes;
  }

  /** The significand of v: the fraction and, for a normal number, the hidden bit. */
  method HiddenSignificand(v: uint32) returns (sig: nat)
    ensures sig == Significand(v) < 0x100_0000
  {
    sig := Fraction(v);
    if Exponent(v) != 0 {
      sig := sig + 0x80_0000;
    }
  }

  /** Adds two finite numbers other than zero. */
  method AddNonzero(b: uint32, a: uint32) returns (r: uint32)
    requires IsFinite(a) && IsFinite(b) && !IsZero(a) && !IsZero(b)
    ensures RoundedInteger(Value(a) + Value(b), 0, r)
  {
    hide Significand, Jam, RoundedInteger, Normalized, Value;
    var fa, fb := a, b;
    if Exponent(fa) > Exponent(fb) {
      fa, fb := b, a;
    }
    var sigA := HiddenSignificand(fa);
    var sigB := HiddenSignificand(fb);
    var shift := (if Exponent(fb) == 0 then 1 else Exponent(fb)) - (if Exponent(fa) == 0 then 1 else Exponent(fa));
    sigA := sigA * 8;
    sigB := sigB * 8;
    sigA := AlignmentShift(sigA, shift);
    var sign, sigRes := AddSignificands(Sign(fa) == 1, sigA, Sign(fb) == 1, sigB);
    r := InternalNormalize(sign, Exponent(fb), sigRes);
    SumIsRounded(fa, fb, r);
  }

  lemma ZeroUnits(v: uint32)
    ensures Units(v) == 0 <==> IsZero(v)
  {
    hide Units;
    UnitsOfMagnitude(v);
    if Magnitude(v) > 0 {
      UnitsOfMonotone(0, Magnitude(v));
    }
  }

  /** A finite number is its own rounding. */
  lemma ExactUnits(v: uint32)
    requires IsFinite(v)
    ensures CorrectlyRounded(Units(v), 1, Magnitude(v))
  {
    hide Units, UnitsOf, CorrectlyRounded;
    UnitsOfMagnitude(v);
    RepresentableIsExact(Units(v), 1, Magnitude(v));
  }

  /** Adding zero to a number other than zero gives that number. */
  lemma ZeroAddend(a: uint32, b: uint32)
    requires IsZero(a) && IsFinite(b) && !IsZero(b)
    ensures AddConforms(a, b, b) && AddConforms(b, a, b)
  {
    hide Units, UnitsOf, CorrectlyRounded;
    ZeroUnits(a);
    ZeroUnits(b);
    ExactUnits(b);
  }

  /** The sum of two negative numbers is not zero. */
  lemma NonzeroAddends(a: uint32, b: uint32, r: uint32)
    requires IsFinite(a) && IsFinite(b) && !IsZero(a) && !IsZero(b)
    requires RoundedInteger(Value(a) + Value(b), 0, r)
    ensures AddConforms(a, b, r)
  {
    hide Units, CorrectlyRounded;
    ZeroUnits(a);
    ZeroUnits(b);
  }

  lemma CornerAddConforms(i: nat)
    requires i < |CORNER_ADD|
    ensures AddConforms(CORNER_ADD[i].a, CORNER_ADD[i].b, CORNER_ADD[i].res)
  {
    hide Units, CorrectlyRounded;
    ZeroUnits(P_ZERO);
    ZeroUnits(N_ZERO);
  }

  /** What the table leaves: no two zeros, no opposite infinities, no infinity with a canonical NaN. */
  lemma CornerAddCovers(a: uint32, b: uint32)
    requires forall j :: 0 <= j < |CORNER_ADD| ==> !(CORNER_ADD[j].a == a && CORNER_ADD[j].b == b)
    ensures !(IsZero(a) && IsZero(b))
    ensures IsInfinite(a) && IsInfinite(b) ==> a == b
    ensures !(IsInfinite(a) && IsCanonicalNaN(b))
  {
    assert CORNER_ADD[0].a == P_ZERO && CORNER_ADD[1].a == N_ZERO && CORNER_ADD[2].a == P_ZERO && CORNER_ADD[3].a == N_ZERO;
    assert CORNER_ADD[4].a == P_INF && CORNER_ADD[5].a == N_INF && CORNER_ADD[6].a == P_INF;
    assert CORNER_ADD[7].a == P_INF && CORNER_ADD[8].a == N_INF && CORNER_ADD[9].a == N_INF;
  }

  /**
   a + b.  The result is the one IEEE 754 asks for on every pair of operands, except when an
   infinite a meets a NaN in b that is not one of the two canonical ones.
   */
  method InternalFloatAdd(b: uint32, a: uint32) returns (r: uint32)
    ensures AddConforms(a, b, r) <==> !(IsInfinite(a) && IsNaN(b) && !IsCanonicalNaN(b))
    ensures NaNOfSum(a, b, r)
  {
    SpecialEncodings(a);
    SpecialEncodings(b);
    hide Value, RoundedInteger, Magnitude, IsNaN, IsInfinite, IsZero, Sign;
    var found, i := FindCornerCase(CORNER_ADD, a, b);
    if found {
      r := CORNER_ADD[i].res;
      CornerAddConforms(i);
      CornerAddNaN(i);
      return;
    }
    CornerAddCovers(a, b);
    OtherNaN(a, b);
    if a == P_ZERO || a == N_ZERO {
      r := b;
      if IsFinite(b) {
        ZeroAddend(a, b);
      }
      return;
    }
    if b == P_ZERO || b == N_ZERO {
      r := a;
      if IsFinite(a) {
        ZeroAddend(b, a);
      }
      return;
    }
    if Exponent(a) == 0xff {
      return a;
    }
    if Exponent(b) == 0xff {
      return b;
    }
    r := AddNonzero(b, a);
    NonzeroAddends(a, b, r);
  }

  /** Which NaN comes out, if an operand is one, and of opposite infinities; an infinite a hides a NaN that is not recognised. */
  predicate NaNOfSum(a: uint32, b: uint32, r: uint32) {
    if IsNaN(a) then r == if a == N_NAN && b == P_NAN then P_NAN else a
    else if IsNaN(b) then r == if IsInfinite(a) && !IsCanonicalNaN(b) then a else b
    else IsInfinite(a) && IsInfinite(b) && a != b ==> r == N_NAN
  }

  lemma CornerAddNaN(i: nat)
    requires i < |CORNER_ADD|
    ensures NaNOfSum(CORNER_ADD[i].a, CORNER_ADD[i].b, CORNER_ADD[i].res)
  {
  }

  /** What is left of NaNOfSum outside the table. */
  lemma OtherNaN(a: uint32, b: uint32)
    requires forall j :: 0 <= j < |CORNER_ADD| ==> !(CORNER_ADD[j].a == a && CORNER_ADD[j].b == b)
    ensures forall r :: NaNOfSum(a, b, r) <==>
              if IsNaN(a) then r == a else if IsNaN(b) then r == (if IsInfinite(a) then a else b) else true
  {
    CornerAddCovers(a, b);
    SpecialEncodings(a);
    SpecialEncodings(b);
    assert CORNER_ADD[10].a == N_NAN && CORNER_ADD[10].b == P_NAN;
  }

  const CORNER_SUB: seq<CornerCase> := [
    CornerCase(P_ZERO, P_ZERO, P_ZERO),
    CornerCase(N_ZERO, P_ZERO, N_ZERO),
    CornerCase(P_ZERO, N_ZERO, P_ZERO),
    CornerCase(N_ZERO, N_ZERO, P_ZERO),
    CornerCase(P_NAN, P_NAN, P_NAN),
    CornerCase(N_NAN, P_NAN, P_NAN),
    CornerCase(P_NAN, N_NAN, P_NAN),
    CornerCase(N_NAN, N_NAN, N_NAN)
  ]

  lemma CornerSubConforms(i: nat)
    requires i < |CORNER_SUB|
    ensures SubConforms(CORNER_SUB[i].a, CORNER_SUB[i].b, CORNER_SUB[i].res)
    ensures !IsInfinite(CORNER_SUB[i].a)
  {
    hide Units, CorrectlyRounded;
    ZeroUnits(P_ZERO);
    ZeroUnits(N_ZERO);
  }

  lemma NegatedValue(b: uint32)
    ensures Sign(Negate(b)) == 1 - Sign(b) && Magnitude(Negate(b)) == Magnitude(b)
    ensures Value(Negate(b)) == -Value(b)
  {
    hide Units, UnitsOf;
    UnitsOfMagnitude(b);
    UnitsOfMagnitude(Negate(b));
  }

  /** Subtraction is addition of the negated operand. */
  lemma SubtractByNegating(a: uint32, b: uint32, r: uint32)
    ensures SubConforms(a, b, r) <==> AddConforms(a, Negate(b), r)
  {
    hide Value, RoundedInteger;
    NegatedValue(b);
    assert Value(a) + Value(Negate(b)) == Value(a) - Value(b);
  }

  /** a - b, conforming like the addition. */
  method InternalFloatSub(b: uint32, a: uint32) returns (r: uint32)
    ensures SubConforms(a, b, r) <==> !(IsInfinite(a) && IsNaN(b) && !IsCanonicalNaN(b))
    ensures NaNOfDifference(a, b, r)
  {
    hide SubConforms, AddConforms, Negate, IsNaN, IsInfinite;
    var found, i := FindCornerCase(CORNER_SUB, a, b);
    if found {
      r := CORNER_SUB[i].res;
      CornerSubConforms(i);
      CornerSubNaN(i);
      return;
    }
    if a == P_NAN || a == N_NAN {
      NaNOperand(a, b, a);
      RecognisedDifference(a, b, a);
      return a;
    }
    if b == P_NAN || b == N_NAN {
      NaNOperand(a, b, b);
      RecognisedDifference(a, b, b);
      return b;
    }
    NegatedNaN(b);
    r := InternalFloatAdd(Negate(b), a);
    SubtractByNegating(a, b, r);
    DifferenceByNegating(a, b, r);
  }

  /** Which NaN comes out of a subtraction; one that is not recognised comes out negated from the right. */
  predicate NaNOfDifference(a: uint32, b: uint32, r: uint32) {
    if IsCanonicalNaN(a) && IsCanonicalNaN(b) then r == if a == P_NAN || b == P_NAN then P_NAN else N_NAN
    else if IsCanonicalNaN(a) || (IsNaN(a) && !IsCanonicalNaN(b)) then r == a
    else if IsCanonicalNaN(b) then r == b
    else if IsNaN(b) then r == if IsInfinite(a) then a else Negate(b)
    else IsInfinite(a) && IsInfinite(b) && a == b ==> r == N_NAN
  }

  lemma CornerSubNaN(i: nat)
    requires i < |CORNER_SUB|
    ensures NaNOfDifference(CORNER_SUB[i].a, CORNER_SUB[i].b, CORNER_SUB[i].res)
  {
  }

  lemma RecognisedDifference(a: uint32, b: uint32, r: uint32)
    requires forall j :: 0 <= j < |CORNER_SUB| ==> !(CORNER_SUB[j].a == a && CORNER_SUB[j].b == b)
    requires if IsCanonicalNaN(a) then r == a else IsCanonicalNaN(b) && r == b
    ensures NaNOfDifference(a, b, r)
  {
    assert CORNER_SUB[4].a == P_NAN && CORNER_SUB[5].a == N_NAN && CORNER_SUB[6].a == P_NAN && CORNER_SUB[7].a == N_NAN;
    assert CORNER_SUB[4].b == P_NAN && CORNER_SUB[5].b == P_NAN && CORNER_SUB[6].b == N_NAN && CORNER_SUB[7].b == N_NAN;
  }

  lemma DifferenceByNegating(a: uint32, b: uint32, r: uint32)
    requires !IsCanonicalNaN(a) && !IsCanonicalNaN(b) && NaNOfSum(a, Negate(b), r)
    ensures NaNOfDifference(a, b, r)
  {
    SpecialEncodings(a);
    SpecialEncodings(b);
    NegatedNaN(b);
    NegatedInfinity(b);
    hide Negate, Magnitude;
  }

  lemma NegatedInfinity(b: uint32)
    ensures IsInfinite(Negate(b)) <==> IsInfinite(b)
    ensures b == P_INF ==> Negate(b) == N_INF
    ensures b == N_INF ==> Negate(b) == P_INF
  {
  }

  lemma NaNOperand(a: uint32, b: uint32, r: uint32)
    requires (r == a || r == b) && IsCanonicalNaN(r)
    ensures SubConforms(a, b, r)
    ensures IsCanonicalNaN(a) ==> !IsInfinite(a)
  {
    hide Magnitude, Value, RoundedInteger;
    SpecialEncodings(a);
    SpecialEncodings(b);
  }

  lemma NegatedNaN(b: uint32)
    ensures IsCanonicalNaN(Negate(b)) <==> IsCanonicalNaN(b)
    ensures IsNaN(Negate(b)) <==> IsNaN(b)
  {
  }

  // ----- what conforming means for a caller

  /** Sums and differences of zeros. */
  lemma ZeroSums(a: uint32, b: uint32, r: uint32)
    requires (a == P_ZERO || a == N_ZERO) && (b == P_ZERO || b == N_ZERO)
    ensures AddConforms(a, b, r) <==> r == if a == N_ZERO && b == N_ZERO then N_ZERO else P_ZERO
    ensures SubConforms(a, b, r) <==> r == if a == N_ZERO && b == P_ZERO then N_ZERO else P_ZERO
  {
    ZeroUnits(a);
    ZeroUnits(b);
    hide Units, CorrectlyRounded;
  }

  /** A normal number below 2^127 added to itself is the number of the next exponent. */
  lemma AddedToItself(a: uint32, r: uint32)
    requires 1 <= Exponent(a) <= 253
    ensures AddConforms(a, a, r) <==> r == a + 0x80_0000
  {
    hide *;
    NextExponent(a);
    var b: uint32 := a + 0x80_0000;
    UnitsOfMagnitude(b);
    UnitsPositive(a);
    DoubledConforms(a, r);
    SignAndMagnitude(r, b);
    RepresentableIsExact(Units(b), 1, Magnitude(b));
    if CorrectlyRounded(Units(b), 1, Magnitude(r)) {
      CorrectlyRoundedUnique(Units(b), 1, Magnitude(r), Magnitude(b));
    }
  }

  lemma DoubledConforms(a: uint32, r: uint32)
    requires IsFinite(a) && Units(a) > 0
    ensures AddConforms(a, a, r) <==> Sign(r) == Sign(a) && CorrectlyRounded(2 * Units(a), 1, Magnitude(r))
  {
    hide Units, CorrectlyRounded, Magnitude, Sign, IsNaN, IsInfinite, IsFinite;
    SpecialEncodings(a);
    SignIsBit(a);
  }

  lemma SignIsBit(v: uint32)
    ensures Sign(v) <= 1
  {
  }

  lemma NextExponent(a: uint32)
    requires 1 <= Exponent(a) <= 253
    ensures a + 0x80_0000 < 0x1_0000_0000
    ensures var b: uint32 := a + 0x80_0000;
            && Sign(b) == Sign(a) <= 1 && Exponent(b) == Exponent(a) + 1 && Fraction(b) == Fraction(a)
            && Magnitude(b) < INFINITY && IsFinite(a)
    ensures Units(a + 0x80_0000) == 2 * Units(a)
  {
    EncodeFields(Sign(a), Exponent(a) + 1, Fraction(a));
    assert a == Encode(Sign(a), Exponent(a), Fraction(a));
    PowStep(Exponent(a) - 1);
    hide Pow2;
    var p := Pow2(Exponent(a) - 1);
    assert Significand(a) * (2 * p) == 2 * (Significand(a) * p);
  }

  lemma UnitsPositive(a: uint32)
    requires Exponent(a) >= 1
    ensures Units(a) > 0
  {
    hide Pow2;
    MulMonotone(1, Pow2(ScaleExponent(a) - 1), Significand(a));
  }

  lemma SignAndMagnitude(r: uint32, b: uint32)
    ensures r == b <==> Sign(r) == Sign(b) && Magnitude(r) == Magnitude(b)
  {
  }

  /** A finite number minus itself is +0 (section 6.3). */
  lemma SelfDifference(a: uint32, r: uint32)
    requires IsFinite(a) && SubConforms(a, a, r)
    ensures r == P_ZERO
  {
    hide Value;
  }

  /** Sums and differences up to 2^24 units, so all subnormal ones, are exact. */
  lemma SmallSumsAreExact(s: int, zeroSign: nat, r: uint32)
    requires zeroSign <= 1 && Abs(s) <= 0x100_0000
    requires RoundedInteger(s, zeroSign, r)
    ensures Value(r) == s
  {
    hide CorrectlyRounded;
    UnitsOfMagnitude(r);
    if s != 0 {
      assert UnitsOf(Abs(s)) == Abs(s);
      RepresentableIsExact(Abs(s), 1, Abs(s));
      CorrectlyRoundedUnique(Abs(s), 1, Abs(s), Magnitude(r));
    }
  }

  /** Conforming addition of operands that are not NaNs gives one result, in either order. */
  lemma AdditionCommutes(a: uint32, b: uint32, r: uint32, r': uint32)
    requires AddConforms(a, b, r) && AddConforms(b, a, r')
    requires !IsNaN(r)
    ensures r == r'
  {
    hide Value, RoundedInteger, IsNaN, Magnitude, Exponent;
    SpecialEncodings(a);
    SpecialEncodings(b);
    if IsFinite(a) && IsFinite(b) {
      var zeroSign := if Sign(a) == 1 && Sign(b) == 1 then 1 else 0;
      RoundedIntegerUnique(Value(a) + Value(b), zeroSign, r, r');
    }
  }

  lemma RoundedIntegerUnique(s: int, zeroSign: nat, r: uint32, r': uint32)
    requires RoundedInteger(s, zeroSign, r) && RoundedInteger(s, zeroSign, r')
    ensures r == r'
  {
    hide CorrectlyRounded;
    if s != 0 {
      CorrectlyRoundedUnique(Abs(s), 1, Magnitude(r), Magnitude(r'));
    }
  }
}
