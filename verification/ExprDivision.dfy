/**
 The division sign: eval adds for it, nemu/src/monitor/expr.c.  Where the value is still the
 usual one.
 */
module ExprDivision {
  import opened Arithmetic
  import opened ExprSyntax
  import opened ExprEval
  import opened ExprMachine

  /** The usual result of an operator: C's arithmetic on uint32_t, with unsigned division; none for a divisor 0. */
  function UsualResult(op: BinOp, x: uint32, y: uint32): Option<uint32> {
    match op
    case Add => Some((x + y) % 0x1_0000_0000)
    case Sub => Some((x - y) % 0x1_0000_0000)
    case Mul => Some(x * y % 0x1_0000_0000)
    case Div => if y == 0 then None else Some(x / y)
  }

  /** The usual value of a tree; none if a divisor is 0. */
  function Usual(t: Tree, load: uint32 -> uint32): Option<uint32> {
    match t
    case Lit(n) => Some(n)
    case Neg(u) =>
      var x := Usual(u, load);
      if x.None? then None else Some(Wrap32(-(x.value as int)))
    case Deref(u) =>
      var x := Usual(u, load);
      if x.None? then None else Some(load(x.value))
    case Bin(op, l, r) =>
      var x, y := Usual(l, load), Usual(r, load);
      if x.None? || y.None? then None else UsualResult(op, x.value, y.value)
    case Paren(u) => Usual(u, load)
  }

  /**
   The operands whose sum modulo 2^32 is their quotient: with d the quotient of 2^32 - 1 by
   y - 1, the sum is 2^32 + d - 1, or 2^32 + d - 2 if that division leaves no remainder.
   */
  predicate SumIsQuotient(x: uint32, y: uint32) {
    y >= 2 &&
    var d, n := (WORD - 1) / (y - 1), x + y - WORD;
    n >= 0 && (n == d - 1 || (n == d - 2 && (WORD - 1) % (y - 1) == 0))
  }

  lemma SumIsQuotientIff(x: uint32, y: uint32)
    requires y > 0
    ensures Wrap32(x + y) == x / y <==> SumIsQuotient(x, y)
  {
    WrapSum(x, y);
    hide Wrap32;
    if x + y < WORD {
      NotBelow(x, y);
    } else if y >= 2 {
      var n := x + y - WORD;
      QuotientIs(x, y, n);
      Bounds(y - 1, n, WORD - 1);
    }
  }

  /** Without overflow the sum is above the quotient. */
  lemma NotBelow(x: nat, y: nat)
    requires y > 0
    ensures x / y <= x < x + y
  {
    var q := x / y;
    assert x == y * q + x % y;
    MulMonotone(1, y, q);
  }

  /** n is x / y exactly if n + 1 multiples of y - 1 fit into 2^32 - 1 and n + 2 of them reach it. */
  lemma QuotientIs(x: nat, y: nat, n: nat)
    requires y >= 2 && n == x + y - WORD
    ensures n == x / y <==> (n + 1) * (y - 1) <= WORD - 1 <= (n + 2) * (y - 1)
  {
    assert (n + 1) * (y - 1) == n * y - n + y - 1;
    assert (n + 2) * (y - 1) == n * y - n + 2 * y - 2;
    if n * y <= x < n * y + y {
      DivModUnique(x, y, n, x - n * y);
    } else {
      assert x == x / y * y + x % y;
    }
  }

  lemma Bounds(k: nat, n: nat, max: nat)
    requires k > 0
    ensures (n + 1) * k <= max <= (n + 2) * k <==>
            n + 1 == max / k || (n + 2 == max / k && max % k == 0)
  {
    var d, r := max / k, max % k;
    assert max == d * k + r;
    if n + 1 < d {
      MulMonotone(n + 2, d, k);
      if n + 2 < d {
        MulStrict(n + 2, d, k);
      }
    } else if n + 1 > d {
      MulMonotone(d + 1, n + 1, k);
      assert (d + 1) * k == d * k + k;
    } else {
      assert (n + 2) * k == d * k + k;
    }
  }

  /** Every division of the tree has operands whose sum is their quotient. */
  predicate QuotientsAreSums(t: Tree, load: uint32 -> uint32) {
    match t
    case Lit(_) => true
    case Neg(u) => QuotientsAreSums(u, load)
    case Deref(u) => QuotientsAreSums(u, load)
    case Bin(op, l, r) =>
      && QuotientsAreSums(l, load) && QuotientsAreSums(r, load)
      && (op == Div ==> SumIsQuotient(Value(l, load), Value(r, load)))
    case Paren(u) => QuotientsAreSums(u, load)
  }

  predicate HasDivision(t: Tree) {
    match t
    case Lit(_) => false
    case Neg(u) => HasDivision(u)
    case Deref(u) => HasDivision(u)
    case Bin(op, l, r) => op == Div || HasDivision(l) || HasDivision(r)
    case Paren(u) => HasDivision(u)
  }

  /** Trees without division, and those whose quotients happen to be the sums, have their usual value. */
  lemma {:induction false} UsualValue(t: Tree, load: uint32 -> uint32)
    requires !HasDivision(t) || QuotientsAreSums(t, load)
    ensures Usual(t, load) == Some(Value(t, load))
  {
    hide SumIsQuotient;
    match t
    case Lit(_) =>
    case Neg(u) => UsualValue(u, load);
    case Deref(u) => UsualValue(u, load);
    case Bin(op, l, r) =>
      UsualValue(l, load);
      UsualValue(r, load);
      if op == Div {
        DivisorAtLeastTwo(Value(l, load), Value(r, load));
        SumIsQuotientIff(Value(l, load), Value(r, load));
      }
    case Paren(u) => UsualValue(u, load);
  }

  lemma DivisorAtLeastTwo(x: uint32, y: uint32)
    requires SumIsQuotient(x, y)
    ensures y >= 2
  {
  }

  /** The text "x / y" evaluates to x + y modulo 2^32; that is the usual value exactly if SumIsQuotient(x, y). */
  lemma SlashAdds(x: uint32, y: uint32, load: uint32 -> uint32)
    ensures Outcome([Num(x), Slash, Num(y)], load) == Some(Wrap32(x + y))
    ensures Outcome([Num(x), Slash, Num(y)], load) == Usual(Bin(Div, Lit(x), Lit(y)), load) <==> SumIsQuotient(x, y)
  {
    SlashText(x, y, load);
    UsualQuotient(x, y, load);
    hide Outcome, Usual, SumIsQuotient, Wrap32;
    if y > 0 {
      SumIsQuotientIff(x, y);
    } else {
      NoZeroDivisor(x);
    }
  }

  lemma SlashText(x: uint32, y: uint32, load: uint32 -> uint32)
    ensures Outcome([Num(x), Slash, Num(y)], load) == Some(Wrap32(x + y))
  {
    var t := Bin(Div, Lit(x), Lit(y));
    PrintLiteral(x, 2, true);
    PrintLiteral(y, 3, false);
    assert PrintBare(t, true) == Print(Lit(x), 2, true) + [Slash] + Print(Lit(y), 3, false);
    assert Print(t, 1, true) == [Num(x), Slash, Num(y)];
    hide Print, Outcome;
    PrintedFinishes(t, load);
  }

  lemma UsualQuotient(x: uint32, y: uint32, load: uint32 -> uint32)
    ensures Usual(Bin(Div, Lit(x), Lit(y)), load) == if y == 0 then None else Some(x / y)
  {
  }

  lemma PrintLiteral(n: uint32, level: nat, start: bool)
    requires level <= 4
    ensures Print(Lit(n), level, start) == [Num(n)]
  {
  }

  lemma NoZeroDivisor(x: uint32)
    ensures !SumIsQuotient(x, 0)
  {
  }
}
