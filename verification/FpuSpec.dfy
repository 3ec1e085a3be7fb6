/**
 What IEEE 754-2008 asks of the four operations (sections 4.3.1, 5.4.1, 6 and 7.2), for
 every pair of 32-bit operands.
 */
module FpuSpec {
  import opened Arithmetic
  import opened Rounding
  import opened Binary32

  const P_ZERO: uint32 := 0x0
  const N_ZERO: uint32 := 0x8000_0000
  const P_INF: uint32 := 0x7f80_0000
  const N_INF: uint32 := 0xff80_0000
  const P_NAN: uint32 := 0x7fc0_0000
  const N_NAN: uint32 := 0xffc0_0000

  /** The two NaN encodings the FPU recognises. */
  predicate IsCanonicalNaN(v: uint32) {
    v == P_NAN || v == N_NAN
  }

  /** The encodings of the zeros, the infinities and the canonical NaNs. */
  lemma SpecialEncodings(v: uint32)
    ensures IsZero(v) <==> v == P_ZERO || v == N_ZERO
    ensures IsInfinite(v) <==> v == P_INF || v == N_INF
    ensures IsFinite(v) <==> !IsInfinite(v) && !IsNaN(v)
    ensures IsZero(v) ==> IsFinite(v)
    ensures IsInfinite(v) ==> !IsNaN(v)
    ensures IsCanonicalNaN(v) ==> IsNaN(v)
  {
  }

  lemma SpecialSigns()
    ensures Sign(P_ZERO) == Sign(P_INF) == 0 && Sign(N_ZERO) == Sign(N_INF) == 1
  {
  }

  function Negate(v: uint32): uint32 {
    if Sign(v) == 1 then v - 0x8000_0000 else v + 0x8000_0000
  }

  function ProductSign(a: uint32, b: uint32): nat {
    if Sign(a) == Sign(b) then 0 else 1
  }

  lemma ProductSignIs(a: uint32, b: uint32)
    ensures ProductSign(a, b) == if Sign(a) == Sign(b) then 0 else 1
    ensures Sign(a) <= 1 && Sign(b) <= 1
  {
  }

  lemma RecognisedNaN(v: uint32)
    ensures IsCanonicalNaN(v) <==> v == P_NAN || v == N_NAN
    ensures IsCanonicalNaN(v) ==> !IsFinite(v)
  {
  }

  lemma AboveInfinity(v: uint32)
    ensures IsNaN(v) <==> Magnitude(v) > INFINITY
  {
  }

  /** r is the correctly rounded value of the exact integer s; an exact zero has the given sign. */
  ghost predicate RoundedInteger(s: int, zeroSign: nat, r: uint32) {
    if s == 0 then
      Magnitude(r) == 0 && Sign(r) == zeroSign
    else
      Sign(r) == (if s < 0 then 1 else 0) && CorrectlyRounded(Abs(s), 1, Magnitude(r))
  }

  ghost predicate AddConforms(a: uint32, b: uint32, r: uint32) {
    if IsNaN(a) || IsNaN(b) then IsNaN(r)
    else if IsInfinite(a) && IsInfinite(b) then (if Sign(a) == Sign(b) then r == a else IsNaN(r))
    else if IsInfinite(a) then r == a
    else if IsInfinite(b) then r == b
    else RoundedInteger(Value(a) + Value(b), if Sign(a) == 1 && Sign(b) == 1 then 1 else 0, r)
  }

  ghost predicate SubConforms(a: uint32, b: uint32, r: uint32) {
    if IsNaN(a) || IsNaN(b) then IsNaN(r)
    else if IsInfinite(a) && IsInfinite(b) then (if Sign(a) != Sign(b) then r == a else IsNaN(r))
    else if IsInfinite(a) then r == a
    else if IsInfinite(b) then r == Negate(b)
    else RoundedInteger(Value(a) - Value(b), if Sign(a) == 1 && Sign(b) == 0 then 1 else 0, r)
  }

  ghost predicate MulConforms(a: uint32, b: uint32, r: uint32) {
    if IsNaN(a) || IsNaN(b) then IsNaN(r)
    else if (IsInfinite(a) && IsZero(b)) || (IsZero(a) && IsInfinite(b)) then IsNaN(r)
    else
      && Sign(r) == ProductSign(a, b)
      && (if IsInfinite(a) || IsInfinite(b) then IsInfinite(r)
          else CorrectlyRounded(Times(Units(a), Units(b)), Pow2(149), Magnitude(r)))
  }

  ghost predicate DivConforms(a: uint32, b: uint32, r: uint32) {
    if IsNaN(a) || IsNaN(b) then IsNaN(r)
    else if (IsInfinite(a) && IsInfinite(b)) || (IsZero(a) && IsZero(b)) then IsNaN(r)
    else
      && Sign(r) == ProductSign(a, b)
      && (if IsInfinite(a) || IsZero(b) then IsInfinite(r)
          else if IsInfinite(b) || IsZero(a) then IsZero(r)
          else Units(b) > 0 && CorrectlyRounded(Times(Units(a), Pow2(149)), Units(b), Magnitude(r)))
  }
}
