/**
 The flag-setting arithmetic of the integer ALU, nemu/src/cpu/alu.c, and the condition codes
 of nemu/include/cpu/instr_helper.h.  Flag meanings follow Appendix C of the Intel 80386
 Programmer's Reference Manual.
 */
module Alu {
  import opened Arithmetic

  /** The five status flags, one bit each. */
  datatype Flags = Flags(CF: nat, PF: nat, ZF: nat, SF: nat, OF: nat)

  // ----- what the flags mean

  function Bit(b: bool): (n: nat)
    ensures n <= 1
  {
    if b then 1 else 0
  }

  /** The two's complement value of a word. */
  function Signed(x: uint32): int {
    if x < 0x8000_0000 then x else x - WORD
  }

  predicate FitsSigned(x: int) {
    -0x8000_0000 <= x < 0x8000_0000
  }

  function SignBit(x: uint32): (n: nat)
    ensures n <= 1
  {
    x / 0x8000_0000
  }

  /** The number of one bits of x. */
  function Ones(x: nat): nat {
    if x == 0 then 0 else x % 2 + Ones(x / 2)
  }

  /** PF: the low byte has an even number of ones. */
  function Parity(x: uint32): (n: nat)
    ensures n <= 1
  {
    Bit(Ones(x % 0x100) % 2 == 0)
  }

  /** dest + src + carry: the flags that describe the sum. */
  function SumFlags(dest: uint32, src: uint32, carry: nat): Flags
    requires carry <= 1
  {
    var r := Wrap32(dest + src + carry);
    Flags(Bit(dest + src + carry >= WORD), Parity(r), Bit(r == 0), SignBit(r),
          Bit(!FitsSigned(Signed(dest) + Signed(src) + carry)))
  }

  /** dest - src - borrow: the flags that describe the difference. */
  function DifferenceFlags(dest: uint32, src: uint32, borrow: nat): Flags
    requires borrow <= 1
  {
    var r := Wrap32(dest - src - borrow);
    Flags(Bit(dest < src + borrow), Parity(r), Bit(r == 0), SignBit(r),
          Bit(!FitsSigned(Signed(dest) - Signed(src) - borrow)))
  }

  /** The operand for which adc and sbb compute OF from an overflowed src + 1. */
  predicate OverflowFlagWrong(src: uint32, carry: nat) {
    carry == 1 && src == 0x7fff_ffff
  }

  /** What adc leaves: everything as it should be, but OF inverted in that one case. */
  function AdcFlags(dest: uint32, src: uint32, carry: nat): Flags
    requires carry <= 1
  {
    var f := SumFlags(dest, src, carry);
    if OverflowFlagWrong(src, carry) then f.(OF := 1 - Bit(f.OF == 1)) else f
  }

  function SbbFlags(dest: uint32, src: uint32, borrow: nat): Flags
    requires borrow <= 1
  {
    var f := DifferenceFlags(dest, src, borrow);
    if OverflowFlagWrong(src, borrow) then f.(OF := 1 - Bit(f.OF == 1)) else f
  }

  // ----- the same meanings without these functions

  predicate BitAt(x: nat, i: nat) {
    x / Pow2(i) % 2 == 1
  }

  /** The positions of the one bits of x below n. */
  ghost function OneBits(x: nat, n: nat): set<nat> {
    set i: nat | i < n && BitAt(x, i)
  }

  /** Ones counts the one bits. */
  lemma {:induction false} OnesCounted(x: nat, n: nat)
    requires x < Pow2(n)
    ensures Ones(x) == |OneBits(x, n)|
  {
    if n == 0 {
      assert OneBits(x, 0) == {};
    } else {
      OnesCounted(x / 2, n - 1);
      BitsAbove(x, n);
    }
  }

  ghost function Shifted(s: set<nat>): (t: set<nat>)
    ensures forall j: nat :: j in t <==> j > 0 && j - 1 in s
  {
    var t: set<nat> := set i: nat | i in s :: i + 1;
    assert forall i: nat :: i in s ==> i + 1 in t;
    t
  }

  lemma {:induction false} ShiftedSize(s: set<nat>)
    ensures |Shifted(s)| == |s|
  {
    if s != {} {
      var k :| k in s;
      assert Shifted(s) == Shifted(s - {k}) + {k + 1};
      ShiftedSize(s - {k});
    }
  }

  /** The one bits of x are its lowest bit, if set, and those of x / 2, one place higher. */
  lemma BitsAbove(x: nat, n: nat)
    requires n > 0
    ensures |OneBits(x, n)| == x % 2 + |OneBits(x / 2, n - 1)|
  {
    hide BitAt;
    var high := Shifted(OneBits(x / 2, n - 1));
    forall i: nat | i < n
      ensures i > 0 ==> (i in OneBits(x, n) <==> i in high)
    {
      if i > 0 {
        BitAbove(x, i);
      }
    }
    ShiftedSize(OneBits(x / 2, n - 1));
    LowestBit(x);
    if BitAt(x, 0) {
      assert OneBits(x, n) == high + {0};
    } else {
      assert OneBits(x, n) == high;
    }
  }

  lemma LowestBit(x: nat)
    ensures BitAt(x, 0) <==> x % 2 == 1
  {
    PowZero();
  }

  lemma BitAbove(x: nat, i: nat)
    requires i > 0
    ensures BitAt(x, i) <==> BitAt(x / 2, i - 1)
  {
    PowStep(i - 1);
    hide Pow2;
    DivDiv(x, 2, Pow2(i - 1));
  }

  /** Signed is the only value in the signed range that the word can stand for. */
  lemma SignedMeaning(x: uint32, v: int)
    ensures v == Signed(x) <==> -0x8000_0000 <= v < 0x8000_0000 && v % WORD == x
  {
  }

  /** The low byte has an even number of one bits. */
  ghost predicate EvenParity(res: uint32) {
    |OneBits(res % 0x100, 8)| % 2 == 0
  }

  /** ZF, SF and PF describe the result, whatever the operation. */
  ghost predicate Describe(f: Flags, res: uint32) {
    && f.ZF == (if res == 0 then 1 else 0)
    && f.SF == (if Signed(res) < 0 then 1 else 0)
    && f.PF == (if EvenParity(res) then 1 else 0)
  }

  /** The flags of a sum and of a difference describe the result. */
  lemma SumDescribed(dest: uint32, src: uint32, carry: nat)
    requires carry <= 1
    ensures Describe(SumFlags(dest, src, carry), Wrap32(dest + src + carry))
    ensures Describe(AdcFlags(dest, src, carry), Wrap32(dest + src + carry))
  {
    hide Wrap32, Ones, EvenParity, FitsSigned;
    ParityMeaning(Wrap32(dest + src + carry));
  }

  lemma DifferenceDescribed(dest: uint32, src: uint32, borrow: nat)
    requires borrow <= 1
    ensures Describe(DifferenceFlags(dest, src, borrow), Wrap32(dest - src - borrow))
    ensures Describe(SbbFlags(dest, src, borrow), Wrap32(dest - src - borrow))
  {
    hide Wrap32, Ones, EvenParity, FitsSigned;
    ParityMeaning(Wrap32(dest - src - borrow));
  }

  lemma ParityMeaning(x: uint32)
    ensures Parity(x) == if EvenParity(x) then 1 else 0
  {
    PowEight();
    hide Ones, OneBits;
    OnesCounted(x % 0x100, 8);
  }

  // ----- the parity loop

  /** Bitwise exclusive or. */
  function Xor(x: nat, y: nat): nat
    decreases x + y
  {
    if x == 0 then y
    else if y == 0 then x
    else 2 * Xor(x / 2, y / 2) + (x + y) % 2
  }

  lemma XorLowBit(x: nat, y: nat)
    ensures Xor(x, y) % 2 == (x + y) % 2
  {
  }

  /** One turn of the parity loop. */
  lemma XorStep(temp: nat, val: nat)
    requires temp != 0
    ensures (Xor(temp, val) + Ones(temp / 2)) % 2 == (val + Ones(temp)) % 2
  {
    hide Xor;
    XorLowBit(temp, val);
    assert Ones(temp) == temp % 2 + Ones(temp / 2);
  }

  /** Shifting the low byte to the top of the word keeps its ones and drops the others. */
  lemma {:induction false} OnesShifted(x: nat, k: nat)
    ensures Ones(x * Pow2(k)) == Ones(x)
  {
    if k == 0 {
      PowZero();
    } else {
      PowStep(k - 1);
      var y := x * Pow2(k - 1);
      assert x * Pow2(k) == 2 * y by {
        assert x * (2 * Pow2(k - 1)) == 2 * (x * Pow2(k - 1));
      }
      OnesShifted(x, k - 1);
      assert 2 * y / 2 == y;
    }
  }

  /** result << 24, in 32 bits. */
  function LowByteOnTop(result: uint32): uint32 {
    Wrap32(result * 0x100_0000)
  }

  lemma OnesOfTopByte(result: uint32)
    ensures Ones(LowByteOnTop(result)) == Ones(result % 0x100)
  {
    assert result * 0x100_0000 % WORD == result % 0x100 * 0x100_0000;
    PowTwentyFour();
    OnesShifted(result % 0x100, 24);
  }

  lemma NoOnes()
    ensures Ones(0) == 0
  {
  }

  /** The loop of set_PF: val collects the exclusive or of all right shifts of temp. */
  method ParityFlag(result: uint32) returns (pf: nat)
    ensures pf == Parity(result)
  {
    var temp: nat := LowByteOnTop(result);
    var val: nat := 0;
    OnesOfTopByte(result);
    hide Xor, Ones, LowByteOnTop;
    NoOnes();
    while temp != 0
      invariant (val + Ones(temp)) % 2 == Ones(result % 0x100) % 2
    {
      XorStep(temp, val);
      val := Xor(temp, val);
      temp := temp / 2;
    }
    pf := if val % 2 == 1 then 0 else 1;
  }

  // ----- the processor state

  class Cpu {
    var CF: nat
    var PF: nat
    var ZF: nat
    var SF: nat
    var OF: nat

    ghost predicate Valid()
      reads this
    {
      CF <= 1 && PF <= 1 && ZF <= 1 && SF <= 1 && OF <= 1
    }

    ghost function EFlags(): Flags
      reads this
    {
      Flags(CF, PF, ZF, SF, OF)
    }

    constructor ()
      ensures Valid()
    {
      CF, PF, ZF, SF, OF := 0, 0, 0, 0, 0;
    }

    method SetCFAdd(result: uint32, src: uint32)
      modifies this`CF
      ensures CF == Bit(result < src)
    {
      CF := if result < src then 1 else 0;
    }

    method SetCFAdc(result: uint32, src: uint32, dest: uint32)
      requires CF <= 1
      requires result == Wrap32(dest + src + CF)
      modifies this`CF
      ensures CF == Bit(dest + src + old(CF) >= WORD)
    {
      if Wrap32(dest + CF) < dest || Wrap32(dest + CF) < CF {
        CF := 1;
      } else if result < src || result < Wrap32(src + CF) {
        CF := 1;
      } else {
        CF := 0;
      }
    }

    method SetCFSub(result: uint32, dest: uint32)
      modifies this`CF
      ensures CF == Bit(result > dest)
    {
      CF := if result > dest then 1 else 0;
    }

    method SetCFSbb(result: uint32, src: uint32, dest: uint32)
      requires CF <= 1
      requires result == Wrap32(dest - src - CF)
      modifies this`CF
      ensures CF == Bit(dest < src + old(CF))
    {
      if Wrap32(dest - CF) > dest {
        CF := 1;
      } else if result > Wrap32(dest - CF) {
        CF := 1;
      } else {
        CF := 0;
      }
    }

    method SetPF(result: uint32)
      modifies this`PF
      ensures PF == Parity(result)
    {
      PF := ParityFlag(result);
    }

    method SetZF(result: uint32)
      modifies this`ZF
      ensures ZF == Bit(result == 0)
    {
      ZF := if result == 0 then 1 else 0;
    }

    method SetSF(result: uint32)
      modifies this`SF
      ensures SF == SignBit(result)
    {
      SF := result / 0x8000_0000;
    }

    method SetOFAdd(result: uint32, src: uint32, dest: uint32)
      modifies this`OF
      ensures OF == OverflowOfAdd(result, src, dest)
    {
      if SignBit(src) == SignBit(dest) {
        if SignBit(src) != SignBit(result) {
          OF := 1;
        } else {
          OF := 0;
        }
      } else {
        OF := 0;
      }
    }

    method SetOFSub(result: uint32, src: uint32, dest: uint32)
      modifies this`OF
      ensures OF == OverflowOfSub(result, src, dest)
    {
      if SignBit(dest) != SignBit(src) {
        if SignBit(result) == SignBit(src) {
          OF := 1;
        } else {
          OF := 0;
        }
      } else {
        OF := 0;
      }
    }

    /** dest + src */
    method AluAdd(src: uint32, dest: uint32) returns (res: uint32)
      requires Valid()
      modifies this
      ensures Valid()
      ensures res == Wrap32(dest + src)
      ensures EFlags() == SumFlags(dest, src, 0) && Describe(EFlags(), res)
      ensures CF == 1 <==> dest + src >= 0x1_0000_0000
      ensures OF == 1 <==> !(-0x8000_0000 <= Signed(dest) + Signed(src) < 0x8000_0000)
    {
      SumDescribed(dest, src, 0);
      hide Describe;
      res := Wrap32(dest + src);
      SetCFAdd(res, src);
      SetPF(res);
      SetZF(res);
      SetSF(res);
      SetOFAdd(res, src, dest);
      CarryOfAdd(dest, src);
      OverflowOfAddMeaning(dest, src);
    }

    /** dest + src + CF */
    method AluAdc(src: uint32, dest: uint32) returns (res: uint32)
      requires Valid()
      modifies this
      ensures Valid()
      ensures res == Wrap32(dest + src + old(CF))
      ensures EFlags() == AdcFlags(dest, src, old(CF)) && Describe(EFlags(), res)
      ensures CF == 1 <==> dest + src + old(CF) >= 0x1_0000_0000
      ensures (OF == 1) == (-0x8000_0000 <= Signed(dest) + Signed(src) + old(CF) < 0x8000_0000) <==>
              old(CF) == 1 && src == 0x7fff_ffff
    {
      hide Describe, Wrap32, OverflowOfAdd, OverflowFlagWrong, Signed;
      hide FitsSigned, SignBit, Parity, Bit, AdcFlags, SumFlags;
      SumDescribed(dest, src, CF);
      AdcInNumbers(dest, src, CF);
      SourceWithCarry(src, CF);
      res := Wrap32(src + dest + CF);
      ghost var carry := CF;
      if CF == 0 {
        SetOFAdd(res, src, dest);
      }
      if CF == 1 {
        SetOFAdd(res, Wrap32(src + 1), dest);
      }
      SetCFAdc(res, src, dest);
      SetPF(res);
      SetZF(res);
      SetSF(res);
      AdcFlagsAre(dest, src, carry);
    }

    /** dest - src */
    method AluSub(src: uint32, dest: uint32) returns (res: uint32)
      requires Valid()
      modifies this
      ensures Valid()
      ensures res == Wrap32(dest - src)
      ensures EFlags() == DifferenceFlags(dest, src, 0) && Describe(EFlags(), res)
      ensures CF == 1 <==> dest < src
      ensures OF == 1 <==> !(-0x8000_0000 <= Signed(dest) - Signed(src) < 0x8000_0000)
    {
      DifferenceDescribed(dest, src, 0);
      hide Describe;
      res := Wrap32(dest - src);
      SetCFSub(res, dest);
      SetPF(res);
      SetZF(res);
      SetSF(res);
      SetOFSub(res, src, dest);
      BorrowOfSub(dest, src);
      OverflowOfSubMeaning(dest, src);
    }

    /** dest - src - CF */
    method AluSbb(src: uint32, dest: uint32) returns (res: uint32)
      requires Valid()
      modifies this
      ensures Valid()
      ensures res == Wrap32(dest - src - old(CF))
      ensures EFlags() == SbbFlags(dest, src, old(CF)) && Describe(EFlags(), res)
      ensures CF == 1 <==> dest < src + old(CF)
      ensures (OF == 1) == (-0x8000_0000 <= Signed(dest) - Signed(src) - old(CF) < 0x8000_0000) <==>
              old(CF) == 1 && src == 0x7fff_ffff
    {
      hide Describe, Wrap32, OverflowOfSub, OverflowFlagWrong, Signed;
      hide FitsSigned, SignBit, Parity, Bit, SbbFlags, DifferenceFlags;
      DifferenceDescribed(dest, src, CF);
      SbbInNumbers(dest, src, CF);
      SourceWithCarry(src, CF);
      res := Wrap32(dest - src - CF);
      ghost var borrow := CF;
      if CF == 0 {
        SetOFSub(res, src, dest);
      }
      if CF == 1 {
        SetOFSub(res, Wrap32(src + 1), dest);
      }
      SetCFSbb(res, src, dest);
      SetPF(res);
      SetZF(res);
      SetSF(res);
      SbbFlagsAre(dest, src, borrow);
    }
  }

  /** The flags of adc in terms of what its setters compute. */
  lemma AdcFlagsAre(dest: uint32, src: uint32, carry: nat)
    requires carry <= 1
    ensures var r := Wrap32(dest + src + carry);
            AdcFlags(dest, src, carry) == Flags(Bit(dest + src + carry >= WORD), Parity(r), Bit(r == 0), SignBit(r),
                                                OverflowOfAdd(r, Wrap32(src + carry), dest))
  {
    hide Parity, Wrap32, OverflowOfAdd, Signed, FitsSigned;
    OverflowOfAdcMeaning(dest, src, carry);
  }

  lemma SbbFlagsAre(dest: uint32, src: uint32, borrow: nat)
    requires borrow <= 1
    ensures var r := Wrap32(dest - src - borrow);
            SbbFlags(dest, src, borrow) == Flags(Bit(dest < src + borrow), Parity(r), Bit(r == 0), SignBit(r),
                                                 OverflowOfSub(r, Wrap32(src + borrow), dest))
  {
    hide Parity, Wrap32, OverflowOfSub, Signed, FitsSigned;
    OverflowOfSbbMeaning(dest, src, borrow);
  }

  lemma AdcInNumbers(dest: uint32, src: uint32, carry: nat)
    requires carry <= 1
    ensures var f := AdcFlags(dest, src, carry);
            && (f.CF == 1 <==> dest + src + carry >= 0x1_0000_0000)
            && ((f.OF == 1) == (-0x8000_0000 <= Signed(dest) + Signed(src) + carry < 0x8000_0000) <==>
                carry == 1 && src == 0x7fff_ffff)
  {
    hide Parity, Signed;
  }

  lemma SbbInNumbers(dest: uint32, src: uint32, borrow: nat)
    requires borrow <= 1
    ensures var f := SbbFlags(dest, src, borrow);
            && (f.CF == 1 <==> dest < src + borrow)
            && ((f.OF == 1) == (-0x8000_0000 <= Signed(dest) - Signed(src) - borrow < 0x8000_0000) <==>
                borrow == 1 && src == 0x7fff_ffff)
  {
    hide Parity, Signed;
  }

  /** The second operand of the sign rule: src, or src + 1 when the carry is set. */
  lemma SourceWithCarry(src: uint32, carry: nat)
    requires carry <= 1
    ensures Wrap32(src + carry) == if carry == 1 then Wrap32(src + 1) else src
  {
  }

  // ----- the sign rules used for OF, and when they tell the truth

  function OverflowOfAdd(result: uint32, src: uint32, dest: uint32): (n: nat)
    ensures n <= 1
  {
    if SignBit(src) == SignBit(dest) && SignBit(src) != SignBit(result) then 1 else 0
  }

  function OverflowOfSub(result: uint32, src: uint32, dest: uint32): (n: nat)
    ensures n <= 1
  {
    if SignBit(dest) != SignBit(src) && SignBit(result) == SignBit(src) then 1 else 0
  }

  lemma CarryOfAdd(dest: uint32, src: uint32)
    ensures Wrap32(dest + src) < src <==> dest + src >= WORD
  {
    WrapSum(dest, src);
  }

  lemma BorrowOfSub(dest: uint32, src: uint32)
    ensures Wrap32(dest - src) > dest <==> dest < src
  {
    WrapDifference(dest, src);
  }

  lemma OverflowOfAddMeaning(dest: uint32, src: uint32)
    ensures OverflowOfAdd(Wrap32(dest + src), src, dest) == Bit(!FitsSigned(Signed(dest) + Signed(src)))
  {
    WrapSum(dest, src);
  }

  lemma OverflowOfSubMeaning(dest: uint32, src: uint32)
    ensures OverflowOfSub(Wrap32(dest - src), src, dest) == Bit(!FitsSigned(Signed(dest) - Signed(src)))
  {
    WrapDifference(dest, src);
  }

  /** With a carry the rule is applied to src + 1; it then fails exactly when that overflows. */
  lemma OverflowOfAdcMeaning(dest: uint32, src: uint32, carry: nat)
    requires carry <= 1
    ensures var of := OverflowOfAdd(Wrap32(dest + src + carry), Wrap32(src + carry), dest);
            var exact := Bit(!FitsSigned(Signed(dest) + Signed(src) + carry));
            of == if OverflowFlagWrong(src, carry) then 1 - exact else exact
  {
  }

  lemma OverflowOfSbbMeaning(dest: uint32, src: uint32, borrow: nat)
    requires borrow <= 1
    ensures var of := OverflowOfSub(Wrap32(dest - src - borrow), Wrap32(src + borrow), dest);
            var exact := Bit(!FitsSigned(Signed(dest) - Signed(src) - borrow));
            of == if OverflowFlagWrong(src, borrow) then 1 - exact else exact
  {
  }
}
