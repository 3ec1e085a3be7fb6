/**
 Multi-precision arithmetic with the ALU: the add/adc and sub/sbb sequences a compiler emits
 for numbers of any length, and what the condition codes decide afterwards.
 */
module AluChains {
  import opened Arithmetic
  import opened Alu

  // ----- the condition macros

  predicate ConditionE(f: Flags) { f.ZF == 1 }
  predicate ConditionA(f: Flags) { f.CF == 0 && f.ZF == 0 }
  predicate ConditionAE(f: Flags) { f.CF == 0 }
  predicate ConditionB(f: Flags) { f.CF == 1 }
  predicate ConditionBE(f: Flags) { f.CF == 1 || f.ZF == 1 }
  predicate ConditionG(f: Flags) { f.ZF == 0 && f.OF == f.SF }
  predicate ConditionGE(f: Flags) { f.SF == f.OF }
  predicate ConditionL(f: Flags) { f.SF != f.OF }
  predicate ConditionLE(f: Flags) { f.ZF == 1 || f.SF != f.OF }

  /** After one addition with carry: zero, negative, and even parity of the low byte. */
  lemma SumConditions(dest: uint32, src: uint32, carry: nat)
    requires carry <= 1
    ensures forall f :: f == SumFlags(dest, src, carry) || f == AdcFlags(dest, src, carry) ==>
              && (ConditionE(f) <==> (dest + src + carry) % 0x1_0000_0000 == 0)
              && (ConditionB(f) <==> dest + src + carry >= 0x1_0000_0000)
              && (f.SF == 1 <==> (dest + src + carry) % 0x1_0000_0000 >= 0x8000_0000)
              && (f.PF == 1 <==> EvenParity((dest + src + carry) % 0x1_0000_0000))
  {
    SumDescribed(dest, src, carry);
    hide Parity, EvenParity, SumFlags, AdcFlags;
    SumCarry(dest, src, carry);
  }

  lemma SumCarry(dest: uint32, src: uint32, carry: nat)
    requires carry <= 1
    ensures SumFlags(dest, src, carry).CF == AdcFlags(dest, src, carry).CF ==
            if dest + src + carry >= 0x1_0000_0000 then 1 else 0
  {
    hide Parity;
  }

  /** After one subtraction every condition decides its comparison. */
  lemma ConditionsDecide(dest: uint32, src: uint32)
    ensures var f := DifferenceFlags(dest, src, 0);
            && (ConditionE(f) <==> dest == src)
            && (ConditionA(f) <==> dest > src)
            && (ConditionAE(f) <==> dest >= src)
            && (ConditionB(f) <==> dest < src)
            && (ConditionBE(f) <==> dest <= src)
            && (ConditionG(f) <==> Signed(dest) > Signed(src))
            && (ConditionGE(f) <==> Signed(dest) >= Signed(src))
            && (ConditionL(f) <==> Signed(dest) < Signed(src))
            && (ConditionLE(f) <==> Signed(dest) <= Signed(src))
  {
    hide Parity, Wrap32;
    WrapDifference(dest, src);
  }

  // ----- numbers as little-endian sequences of words

  function WordPower(n: nat): (p: nat)
    ensures p > 0
  {
    if n == 0 then 1 else WORD * WordPower(n - 1)
  }

  function ValueOf(s: seq<uint32>): nat {
    if s == [] then 0 else s[0] + WORD * ValueOf(s[1..])
  }

  /** The two's complement reading of the same words. */
  function SignedValueOf(s: seq<uint32>): int
    requires s != []
  {
    ValueOf(s) - (if s[|s| - 1] >= 0x8000_0000 then WordPower(|s|) else 0)
  }

  lemma {:induction false} ValueOfAppend(s: seq<uint32>, x: uint32)
    ensures ValueOf(s + [x]) == ValueOf(s) + x * WordPower(|s|)
  {
    if s == [] {
      assert s + [x] == [x];
      assert ValueOf([x]) == x;
    } else {
      assert (s + [x])[1..] == s[1..] + [x];
      ValueOfAppend(s[1..], x);
      var p := WordPower(|s| - 1);
      assert x * (WORD * p) == WORD * (x * p);
    }
  }

  lemma ValueOfPrefix(s: seq<uint32>, i: nat)
    requires i < |s|
    ensures ValueOf(s[..i + 1]) == ValueOf(s[..i]) + s[i] * WordPower(i)
    ensures WordPower(i + 1) == WORD * WordPower(i)
  {
    assert s[..i + 1] == s[..i] + [s[i]];
    ValueOfAppend(s[..i], s[i]);
  }

  lemma {:induction false} ValueBound(s: seq<uint32>)
    ensures ValueOf(s) < WordPower(|s|)
  {
    if s != [] {
      ValueBound(s[1..]);
    }
  }

  // ----- one step of a chain

  lemma AddStep(dest: uint32, src: uint32, carry: nat, lowA: nat, lowB: nat, lowR: nat, w: nat)
    requires carry <= 1
    requires lowR + carry * w == lowA + lowB
    ensures var c := SumFlags(dest, src, carry).CF;
            lowR + Wrap32(dest + src + carry) * w + c * (WORD * w) == lowA + dest * w + (lowB + src * w)
  {
    var total := dest + src + carry;
    var c := SumFlags(dest, src, carry).CF;
    assert Wrap32(total) == total - c * WORD;
    AddStepScaled(dest, src, carry, total, c, w);
  }

  lemma AddStepScaled(dest: int, src: int, carry: int, total: int, c: int, w: int)
    requires total == dest + src + carry
    ensures (total - c * WORD) * w + c * (WORD * w) == dest * w + src * w + carry * w
  {
    assert (total - c * WORD) * w == total * w - c * WORD * w;
    assert c * WORD * w == c * (WORD * w);
    assert (dest + src + carry) * w == dest * w + src * w + carry * w;
  }

  lemma SubStep(dest: uint32, src: uint32, borrow: nat, lowA: nat, lowB: nat, lowR: nat, w: nat)
    requires borrow <= 1
    requires lowR - borrow * w == lowA - lowB
    ensures var c := DifferenceFlags(dest, src, borrow).CF;
            lowR + Wrap32(dest - src - borrow) * w - c * (WORD * w) == lowA + dest * w - (lowB + src * w)
  {
    var total := dest - src - borrow;
    var c := DifferenceFlags(dest, src, borrow).CF;
    assert Wrap32(total) == total + c * WORD;
    SubStepScaled(dest, src, borrow, total, c, w);
  }

  lemma SubStepScaled(dest: int, src: int, borrow: int, total: int, c: int, w: int)
    requires total == dest - src - borrow
    ensures (total + c * WORD) * w - c * (WORD * w) == dest * w - src * w - borrow * w
  {
    assert (total + c * WORD) * w == total * w + c * WORD * w;
    assert c * WORD * w == c * (WORD * w);
    assert (dest - src - borrow) * w == dest * w - src * w - borrow * w;
  }

  /** An exact sum of n words and a carry is the sum modulo 2^(32 n), and the true carry. */
  lemma ExactSum(sum: nat, carry: nat, total: nat, p: nat)
    requires carry <= 1 && sum < p
    requires sum + carry * p == total
    ensures sum == total % p && (carry == 1 <==> total >= p)
  {
    DivModUnique(total, p, carry, sum);
  }

  lemma ExactDifference(difference: nat, borrow: nat, a: nat, b: nat, p: nat)
    requires borrow <= 1 && difference < p && a < p && b < p
    requires difference - borrow * p == a - b
    ensures difference == (a - b) % p && (borrow == 1 <==> a < b)
  {
    DivModUnique(a - b, p, if borrow == 1 then -1 else 0, difference);
  }

  // ----- the chains

  /** add on the lowest words, then adc on the others. */
  method AddLimbs(cpu: Cpu, a: seq<uint32>, b: seq<uint32>) returns (sum: seq<uint32>)
    requires |a| == |b| > 0 && cpu.Valid()
    modifies cpu
    ensures cpu.Valid() && |sum| == |a|
    ensures ValueOf(sum) == (ValueOf(a) + ValueOf(b)) % WordPower(|a|)
    ensures cpu.CF == 1 <==> ValueOf(a) + ValueOf(b) >= WordPower(|a|)
  {
    hide ValueOf, WordPower, Wrap32, Parity, SignBit, FitsSigned, Signed, Describe;
    var r := cpu.AluAdd(b[0], a[0]);
    sum := [r];
    AddStep(a[0], b[0], 0, 0, 0, 0, 1);
    FirstLimb(a);
    FirstLimb(b);
    FirstLimb(sum);
    assert sum[..1] == sum;
    var i := 1;
    while i < |a|
      invariant 1 <= i <= |a| && |sum| == i
      invariant cpu.Valid()
      invariant ValueOf(sum) + cpu.CF * WordPower(i) == ValueOf(a[..i]) + ValueOf(b[..i])
    {
      ghost var carry := cpu.CF;
      AddStep(a[i], b[i], carry, ValueOf(a[..i]), ValueOf(b[..i]), ValueOf(sum), WordPower(i));
      r := cpu.AluAdc(b[i], a[i]);
      ValueOfPrefix(a, i);
      ValueOfPrefix(b, i);
      ValueOfAppend(sum, r);
      sum := sum + [r];
      i := i + 1;
    }
    assert a[..i] == a && b[..i] == b;
    ValueBound(sum);
    ExactSum(ValueOf(sum), cpu.CF, ValueOf(a) + ValueOf(b), WordPower(|a|));
  }

  lemma FirstLimb(s: seq<uint32>)
    requires s != []
    ensures ValueOf(s[..1]) == s[0]
    ensures ValueOf(s[..0]) == 0
    ensures WordPower(1) == WORD
  {
    assert s[..1][1..] == [];
    assert WordPower(0) == 1;
  }

  /** sub on the lowest words, then sbb on the others. */
  method SubLimbs(cpu: Cpu, a: seq<uint32>, b: seq<uint32>) returns (difference: seq<uint32>)
    requires |a| == |b| > 0 && cpu.Valid()
    modifies cpu
    ensures cpu.Valid() && |difference| == |a|
    ensures ValueOf(difference) == (ValueOf(a) - ValueOf(b)) % WordPower(|a|)
    ensures cpu.EFlags() == ChainFlags(a, b)
  {
    hide ValueOf, WordPower, Wrap32, Parity, SignBit, FitsSigned, Signed, Describe;
    var r := cpu.AluSub(b[0], a[0]);
    difference := [r];
    SubStep(a[0], b[0], 0, 0, 0, 0, 1);
    FirstLimb(a);
    FirstLimb(b);
    FirstLimb(difference);
    assert difference[..1] == difference;
    var i := 1;
    while i < |a|
      invariant 1 <= i <= |a| && |difference| == i
      invariant cpu.Valid()
      invariant ValueOf(difference) - cpu.CF * WordPower(i) == ValueOf(a[..i]) - ValueOf(b[..i])
      invariant cpu.EFlags() == ChainFlags(a[..i], b[..i])
    {
      ghost var borrow := cpu.CF;
      SubStep(a[i], b[i], borrow, ValueOf(a[..i]), ValueOf(b[..i]), ValueOf(difference), WordPower(i));
      BorrowIn(difference, borrow, a[..i], b[..i]);
      r := cpu.AluSbb(b[i], a[i]);
      ValueOfPrefix(a, i);
      ValueOfPrefix(b, i);
      ValueOfAppend(difference, r);
      ChainFlagsStep(a, b, i);
      difference := difference + [r];
      i := i + 1;
    }
    assert a[..i] == a && b[..i] == b;
    BorrowIn(difference, cpu.CF, a, b);
  }

  /** The flags after a sub/sbb chain: those of the top words, with the borrow of the words below. */
  function ChainFlags(a: seq<uint32>, b: seq<uint32>): Flags
    requires |a| == |b| > 0
  {
    var n := |a| - 1;
    SbbFlags(a[n], b[n], Bit(ValueOf(a[..n]) < ValueOf(b[..n])))
  }

  lemma ChainFlagsStep(a: seq<uint32>, b: seq<uint32>, i: nat)
    requires |a| == |b| && i < |a|
    ensures ChainFlags(a[..i + 1], b[..i + 1]) == SbbFlags(a[i], b[i], Bit(ValueOf(a[..i]) < ValueOf(b[..i])))
  {
    assert a[..i + 1][..i] == a[..i] && b[..i + 1][..i] == b[..i];
  }

  lemma BorrowIn(difference: seq<uint32>, borrow: nat, a: seq<uint32>, b: seq<uint32>)
    requires |difference| == |a| == |b| && borrow <= 1
    requires ValueOf(difference) - borrow * WordPower(|a|) == ValueOf(a) - ValueOf(b)
    ensures borrow == Bit(ValueOf(a) < ValueOf(b))
    ensures ValueOf(difference) == (ValueOf(a) - ValueOf(b)) % WordPower(|a|)
  {
    ValueBound(difference);
    ValueBound(a);
    ValueBound(b);
    ExactDifference(ValueOf(difference), borrow, ValueOf(a), ValueOf(b), WordPower(|a|));
  }

  // ----- what the conditions decide after a chain

  /** Comparing numbers is comparing the top words, less the borrow of the words below. */
  lemma TopWordDecides(x: int, y: int, lowA: nat, lowB: nat, w: nat)
    requires lowA < w && lowB < w
    ensures x * w + lowA < y * w + lowB <==> x - y - Bit(lowA < lowB) < 0
  {
    if x < y {
      MulMonotone(x + 1, y, w);
      assert (x + 1) * w == x * w + w;
    } else if x > y {
      MulMonotone(y + 1, x, w);
      assert (y + 1) * w == y * w + w;
    }
  }

  lemma SplitTop(s: seq<uint32>)
    requires s != []
    ensures var n := |s| - 1;
            && ValueOf(s) == s[n] * WordPower(n) + ValueOf(s[..n])
            && SignedValueOf(s) == Signed(s[n]) * WordPower(n) + ValueOf(s[..n])
            && ValueOf(s[..n]) < WordPower(n)
  {
    var n := |s| - 1;
    assert WordPower(|s|) == WORD * WordPower(n);
    hide Signed, WordPower, ValueOf;
    assert s[..n + 1] == s;
    ValueOfPrefix(s, n);
    ValueBound(s[..n]);
    SignedSplit(s[n], WordPower(n), ValueOf(s[..n]));
  }

  lemma SignedSplit(x: uint32, w: nat, low: nat)
    ensures x * w + low - (if x >= 0x8000_0000 then WORD * w else 0) == Signed(x) * w + low
  {
  }

  /** condition_b after a chain decides the unsigned order. */
  lemma UnsignedOrder(a: seq<uint32>, b: seq<uint32>)
    requires |a| == |b| > 0
    ensures ConditionB(ChainFlags(a, b)) <==> ValueOf(a) < ValueOf(b)
    ensures ConditionAE(ChainFlags(a, b)) <==> ValueOf(a) >= ValueOf(b)
  {
    hide Parity, Wrap32, FitsSigned, WordPower, ValueOf, Signed;
    var n := |a| - 1;
    SplitTop(a);
    SplitTop(b);
    TopWordDecides(a[n], b[n], ValueOf(a[..n]), ValueOf(b[..n]), WordPower(n));
  }

  /**
   condition_l after a chain decides the signed order, except that it is inverted when the
   top word subtracted is 0x7fffffff and the words below borrow.
   */
  lemma SignedOrder(a: seq<uint32>, b: seq<uint32>)
    requires |a| == |b| > 0
    ensures var n := |a| - 1;
            var wrong := b[n] == 0x7fff_ffff && ValueOf(a[..n]) < ValueOf(b[..n]);
            && (ConditionL(ChainFlags(a, b)) <==> (SignedValueOf(a) < SignedValueOf(b)) != wrong)
            && (ConditionGE(ChainFlags(a, b)) <==> (SignedValueOf(a) >= SignedValueOf(b)) != wrong)
  {
    hide Parity, WordPower, ValueOf, SignedValueOf, Signed, DifferenceFlags, FitsSigned;
    var n := |a| - 1;
    SplitTop(a);
    SplitTop(b);
    TopWordDecides(Signed(a[n]), Signed(b[n]), ValueOf(a[..n]), ValueOf(b[..n]), WordPower(n));
    SignOfDifference(a[n], b[n], Bit(ValueOf(a[..n]) < ValueOf(b[..n])));
  }

  /** SF and OF together give the sign of the exact difference. */
  lemma SignOfDifference(dest: uint32, src: uint32, borrow: nat)
    requires borrow <= 1
    ensures var f := DifferenceFlags(dest, src, borrow);
            && (f.SF != f.OF <==> Signed(dest) - Signed(src) - borrow < 0)
            && f.SF <= 1 && f.OF <= 1
  {
    hide Parity;
  }

  /** The carry case in which OF is wrong: 0 + 0x7fffffff + 1 overflows, and OF says it does not. */
  lemma OverflowFlagExample()
    ensures SumFlags(0, 0x7fff_ffff, 1).OF == 1
    ensures AdcFlags(0, 0x7fff_ffff, 1).OF == 0
  {
  }
}
