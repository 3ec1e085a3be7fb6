/**
 The evaluation of the bare element list: eval, nemu/src/monitor/expr.c.  It splits at the
 rightmost operator of lowest priority.
 */
module ExprEval {
  import opened Arithmetic
  import opened ExprSyntax

  datatype Option<+T> = None | Some(value: T)

  const BAD: uint32 := 0xffff_ffff

  // ----- the scan for the operator to split at

  /** The rightmost operator of lowest priority from i to e, or min if none is as low as bound. */
  function Split(es: seq<Element>, i: nat, e: int, bound: int, min: nat): (m: nat)
    requires e < |es| && min < |es|
    ensures m < |es|
    decreases e - i
  {
    if i > e then min
    else if IsOperator(es[i]) && es[i].priority <= bound then Split(es, i + 1, e, es[i].priority, i)
    else Split(es, i + 1, e, bound, min)
  }

  /** An operator below all others of the range, and strictly below those to its right, is the split. */
  lemma {:induction false} SplitIs(es: seq<Element>, i: nat, e: int, bound: int, min: nat, m: nat)
    requires i <= m <= e < |es| && IsOperator(es[m]) && min < |es|
    requires es[m].priority <= bound
    requires forall k :: i <= k <= e && IsOperator(es[k]) ==> es[m].priority <= es[k].priority
    requires forall k :: m < k <= e && IsOperator(es[k]) ==> es[m].priority < es[k].priority
    ensures Split(es, i, e, bound, min) == m
    decreases e - i
  {
    if i < m {
      if IsOperator(es[i]) && es[i].priority <= bound {
        SplitIs(es, i + 1, e, es[i].priority, i, m);
      } else {
        SplitIs(es, i + 1, e, bound, min, m);
      }
    } else {
      SplitStays(es, m + 1, e, es[m].priority, m);
    }
  }

  lemma {:induction false} SplitStays(es: seq<Element>, i: nat, e: int, bound: int, min: nat)
    requires i <= e + 1 <= |es| && min < |es|
    requires forall k :: i <= k <= e && IsOperator(es[k]) ==> bound < es[k].priority
    ensures Split(es, i, e, bound, min) == min
    decreases e - i
  {
    if i <= e {
      SplitStays(es, i + 1, e, bound, min);
    }
  }

  // ----- eval

  /** A unary operator applied to a value. */
  function ApplyUnary(num: nat, x: uint32, load: uint32 -> uint32): uint32 {
    if num == 7 then Wrap32(-(x as int)) else load(x)
  }

  /** The unary operators at j, j - 1, ... applied from the right, as long as they last. */
  function ApplyChain(es: seq<Element>, j: int, x: uint32, load: uint32 -> uint32): uint32
    requires j < |es|
    decreases j
  {
    if j < 0 || !IsUnary(es[j]) then x
    else ApplyChain(es, j - 1, ApplyUnary(es[j].num, x, load), load)
  }

  /** The unary operator at m is applied on its own unless one of the same priority precedes it. */
  predicate StandsAlone(es: seq<Element>, m: nat)
    requires m < |es|
  {
    m == 0 || !IsUnary(es[m - 1]) || es[m - 1].priority != es[m].priority
  }

  /**
   The value of the elements s..e.  The recursion of the source need not end (see
   module ExprEnds), so it is cut off after fuel levels: None means not finished.
   */
  function Eval(fuel: nat, es: seq<Element>, s: nat, e: int, load: uint32 -> uint32): Option<uint32>
    requires e < |es|
    decreases fuel
  {
    if fuel == 0 then None
    else if s > e then Some(BAD)
    else if s == e then Some(Wrap32(es[e].num))
    else
      var m := Split(es, s, e, 100, 0);
      Combine(es, m,
              if IsBinary(es[m]) then Eval(fuel - 1, es, s, m - 1, load) else None,
              if IsBinary(es[m]) || IsUnary(es[m]) then Eval(fuel - 1, es, m + 1, e, load) else None,
              load)
  }

  /** The operator at m applied to the values left and right of it; a unary one has no left value. */
  function Combine(es: seq<Element>, m: nat, left: Option<uint32>, right: Option<uint32>, load: uint32 -> uint32)
    : Option<uint32>
    requires m < |es|
  {
    if IsBinary(es[m]) then
      if left.None? || right.None? then None
      else Some(Apply(OpOf(es[m].num), left.value, right.value))
    else if IsUnary(es[m]) then
      if right.None? then None
      else
        var v := ApplyUnary(es[m].num, right.value, load);
        if StandsAlone(es, m) then Some(v) else Some(ApplyChain(es, m - 1, v, load))
    else
      Some(BAD)
  }

  function OpOf(num: nat): BinOp
    requires 1 <= num <= 4
  {
    if num == 1 then Add else if num == 2 then Sub else if num == 3 then Mul else Div
  }

  /** More levels do not change a finished evaluation. */
  lemma {:induction false} EvalMonotone(fuel: nat, fuel': nat, es: seq<Element>, s: nat, e: int, load: uint32 -> uint32)
    requires e < |es| && fuel <= fuel'
    requires Eval(fuel, es, s, e, load).Some?
    ensures Eval(fuel', es, s, e, load) == Eval(fuel, es, s, e, load)
    decreases fuel
  {
    assert fuel > 0 && fuel' > 0;
    hide Combine, Split, IsUnary, IsBinary;
    if s < e {
      var m: int := Split(es, s, e, 100, 0);
      if IsBinary(es[m]) {
        CombineNeeds(es, m, Eval(fuel - 1, es, s, m - 1, load), Eval(fuel - 1, es, m + 1, e, load), load);
        EvalMonotone(fuel - 1, fuel' - 1, es, s, m - 1, load);
        EvalMonotone(fuel - 1, fuel' - 1, es, m + 1, e, load);
      } else if IsUnary(es[m]) {
        CombineNeeds(es, m, None, Eval(fuel - 1, es, m + 1, e, load), load);
        EvalMonotone(fuel - 1, fuel' - 1, es, m + 1, e, load);
      }
    }
  }

  lemma EvalAgrees(fuel: nat, fuel': nat, es: seq<Element>, s: nat, e: int, load: uint32 -> uint32)
    requires e < |es|
    requires Eval(fuel, es, s, e, load).Some? && Eval(fuel', es, s, e, load).Some?
    ensures Eval(fuel, es, s, e, load) == Eval(fuel', es, s, e, load)
  {
    hide Eval;
    EvalMonotone(fuel, fuel + fuel', es, s, e, load);
    EvalMonotone(fuel', fuel + fuel', es, s, e, load);
  }

  lemma CombineNeeds(es: seq<Element>, m: nat, left: Option<uint32>, right: Option<uint32>, load: uint32 -> uint32)
    requires m < |es| && Combine(es, m, left, right, load).Some?
    ensures IsBinary(es[m]) ==> left.Some? && right.Some?
    ensures IsUnary(es[m]) ==> right.Some?
  {
  }

  // ----- the elements of a printed tree

  /** Every operator of a printed tree is lifted at least as far as its context, and by at most its nesting. */
  lemma {:induction false} ElementPriorities(t: Tree, level: nat, start: bool, depth: nat, max: nat)
    requires level <= 4 && depth + Nesting(t, level, start) <= max
    ensures Elements(t, level, start, depth) != []
    ensures forall i :: 0 <= i < |Elements(t, level, start, depth)| && IsOperator(Elements(t, level, start, depth)[i]) ==>
              level + 3 * depth <= Elements(t, level, start, depth)[i].priority <= 3 + 3 * max
    decreases t, 1
  {
    if NeedsParentheses(t, level, start) {
      BarePriorities(t, true, depth + 1, max);
    } else {
      BarePriorities(t, start, depth, max);
    }
  }

  lemma {:induction false} BarePriorities(t: Tree, start: bool, depth: nat, max: nat)
    requires depth + BareNesting(t, start) <= max
    ensures ElementsBare(t, start, depth) != []
    ensures forall i :: 0 <= i < |ElementsBare(t, start, depth)| && IsOperator(ElementsBare(t, start, depth)[i]) ==>
              Level(t) + 3 * depth <= ElementsBare(t, start, depth)[i].priority <= 3 + 3 * max
    decreases t, 0
  {
    hide Elements, Nesting;
    match t
    case Lit(_) =>
    case Neg(u) => ElementPriorities(u, 4, false, depth, max); NestingOperand(t, start);
    case Deref(u) => ElementPriorities(u, 4, false, depth, max); NestingOperand(t, start);
    case Bin(op, l, r) =>
      ElementPriorities(l, LevelOf(op), start, depth, max);
      ElementPriorities(r, LevelOf(op) + 1, false, depth, max);
    case Paren(u) => ElementPriorities(u, 1, true, depth + 1, max);
  }

  lemma NestingOperand(t: Tree, start: bool)
    requires t.Neg? || t.Deref?
    ensures BareNesting(t, start) == Nesting(t.t, 4, false)
  {
  }

  /** How deep the printed text of a tree nests parentheses. */
  function Nesting(t: Tree, level: nat, start: bool): nat
    decreases t, 1
  {
    if NeedsParentheses(t, level, start) then 1 + BareNesting(t, true) else BareNesting(t, start)
  }

  function BareNesting(t: Tree, start: bool): nat
    decreases t, 0
  {
    match t
    case Lit(_) => 0
    case Neg(u) => Nesting(u, 4, false)
    case Deref(u) => Nesting(u, 4, false)
    case Bin(op, l, r) =>
      var x, y := Nesting(l, LevelOf(op), start), Nesting(r, LevelOf(op) + 1, false);
      if x > y then x else y
    case Paren(u) => 1 + Nesting(u, 1, true)
  }

  /** Each nesting level costs two tokens, so 32 tokens nest at most 15 deep. */
  lemma {:induction false} NestingBound(t: Tree, level: nat, start: bool)
    ensures 2 * Nesting(t, level, start) < |Print(t, level, start)|
    decreases t, 1
  {
    BareNestingBound(t, if NeedsParentheses(t, level, start) then true else start);
  }

  lemma {:induction false} BareNestingBound(t: Tree, start: bool)
    ensures 2 * BareNesting(t, start) < |PrintBare(t, start)|
    decreases t, 0
  {
    match t
    case Lit(_) =>
    case Neg(u) => NestingBound(u, 4, false);
    case Deref(u) => NestingBound(u, 4, false);
    case Bin(op, l, r) =>
      NestingBound(l, LevelOf(op), start);
      NestingBound(r, LevelOf(op) + 1, false);
    case Paren(u) => NestingBound(u, 1, true);
  }

  // ----- evaluating a printed tree

  function Size(t: Tree): nat {
    match t
    case Lit(_) => 1
    case Neg(u) => 1 + Size(u)
    case Deref(u) => 1 + Size(u)
    case Bin(_, l, r) => 1 + Size(l) + Size(r)
    case Paren(u) => 1 + Size(u)
  }

  /** The elements part stands at position s of es. */
  predicate StandsAt(es: seq<Element>, s: nat, part: seq<Element>) {
    s + |part| <= |es| && es[s..s + |part|] == part
  }

  /** What precedes position s is no unary operator of this depth, or the text is an operand. */
  predicate LeftContext(es: seq<Element>, s: nat, level: nat, depth: nat)
    requires s <= |es|
  {
    s > 0 && IsUnary(es[s - 1]) ==> es[s - 1].priority < 3 + 3 * depth || (level == 4 && es[s - 1].priority <= 3 + 3 * depth)
  }

  /** eval on the elements of a printed tree gives the value of the tree. */
  lemma {:induction false} EvalElements(es: seq<Element>, s: nat, t: Tree, level: nat, start: bool, depth: nat,
                                         fuel: nat, load: uint32 -> uint32)
    requires level <= 4 && StandsAt(es, s, Elements(t, level, start, depth))
    requires LeftContext(es, s, level, depth)
    requires depth + Nesting(t, level, start) <= 16 && fuel >= Size(t)
    ensures |Elements(t, level, start, depth)| > 0
    ensures Eval(fuel, es, s, s + |Elements(t, level, start, depth)| - 1, load) == Some(Value(t, load))
    decreases t, 1
  {
    ElementPriorities(t, level, start, depth, 16);
    hide Eval, Value, ElementsBare, BareNesting, StandsAt;
    if NeedsParentheses(t, level, start) {
      EvalBare(es, s, t, true, depth + 1, fuel, load);
    } else {
      EvalBare(es, s, t, start, depth, fuel, load);
    }
  }

  lemma {:induction false} EvalBare(es: seq<Element>, s: nat, t: Tree, start: bool, depth: nat,
                                     fuel: nat, load: uint32 -> uint32)
    requires StandsAt(es, s, ElementsBare(t, start, depth))
    requires t.Lit? || t.Paren? || (s > 0 && IsUnary(es[s - 1]) ==> es[s - 1].priority < 3 + 3 * depth)
    requires t.Paren? ==> (s > 0 && IsUnary(es[s - 1]) ==> es[s - 1].priority <= 3 + 3 * depth)
    requires depth + BareNesting(t, start) <= 16 && fuel >= Size(t)
    ensures |ElementsBare(t, start, depth)| > 0
    ensures Eval(fuel, es, s, s + |ElementsBare(t, start, depth)| - 1, load) == Some(Value(t, load))
    decreases t, 0, 1
  {
    UnaryMeaning(t, load);
    hide Elements, Nesting, StandsAt, Apply, ApplyUnary, Eval;
    match t
    case Lit(n) =>
      EvalLiteral(es, s, n, fuel, load);
    case Neg(u) =>
      EvalUnary(es, s, 7, u, depth, fuel, load);
    case Deref(u) =>
      EvalUnary(es, s, 8, u, depth, fuel, load);
    case Bin(op, l, r) =>
      EvalBinary(es, s, op, l, r, start, depth, fuel, load);
    case Paren(u) =>
      EvalElements(es, s, u, 1, true, depth + 1, fuel, load);
  }

  lemma UnaryMeaning(t: Tree, load: uint32 -> uint32)
    ensures t.Neg? ==> Value(t, load) == ApplyUnary(7, Value(t.t, load), load)
    ensures t.Deref? ==> Value(t, load) == ApplyUnary(8, Value(t.t, load), load)
  {
  }

  lemma EvalLiteral(es: seq<Element>, s: nat, n: uint32, fuel: nat, load: uint32 -> uint32)
    requires StandsAt(es, s, [Element(1, n, 0)]) && fuel > 0
    ensures Eval(fuel, es, s, s, load) == Some(n)
  {
    StandsAtIndex(es, s, [Element(1, n, 0)]);
  }

  lemma StandsAtParts(es: seq<Element>, s: nat, x: seq<Element>, y: seq<Element>)
    requires StandsAt(es, s, x + y)
    ensures StandsAt(es, s, x) && StandsAt(es, s + |x|, y)
  {
    assert es[s..s + |x|] == es[s..s + |x + y|][..|x|];
    assert es[s + |x|..s + |x| + |y|] == es[s..s + |x + y|][|x|..];
  }

  lemma StandsAtIndex(es: seq<Element>, s: nat, x: seq<Element>)
    requires StandsAt(es, s, x)
    ensures forall i :: s <= i < s + |x| ==> es[i] == x[i - s]
  {
    assert forall i :: s <= i < s + |x| ==> es[i] == es[s..s + |x|][i - s];
  }

  lemma {:induction false} EvalUnary(es: seq<Element>, s: nat, num: nat, u: Tree, depth: nat,
                                      fuel: nat, load: uint32 -> uint32)
    requires num == 7 || num == 8
    requires StandsAt(es, s, [Element(2, num, 3 + 3 * depth)] + Elements(u, 4, false, depth))
    requires s > 0 && IsUnary(es[s - 1]) ==> es[s - 1].priority < 3 + 3 * depth
    requires depth + Nesting(u, 4, false) <= 16 && fuel > Size(u)
    ensures Eval(fuel, es, s, s + |Elements(u, 4, false, depth)|, load) == Some(ApplyUnary(num, Value(u, load), load))
    decreases u, 2
  {
    hide Elements, Nesting, Value, Size, ApplyUnary, Eval, Split;
    var x, y := [Element(2, num, 3 + 3 * depth)], Elements(u, 4, false, depth);
    StandsAtParts(es, s, x, y);
    StandsAtIndex(es, s, x);
    StandsAtIndex(es, s + 1, y);
    ElementPriorities(u, 4, false, depth, 16);
    var e := s + |y|;
    assert es[s] == Element(2, num, 3 + 3 * depth);
    SplitIs(es, s, e, 100, 0, s);
    EvalElements(es, s + 1, u, 4, false, depth, fuel - 1, load);
    EvalAtUnary(fuel, es, s, e, s, Value(u, load), load);
  }

  lemma {:induction false} EvalBinary(es: seq<Element>, s: nat, op: BinOp, l: Tree, r: Tree, start: bool, depth: nat,
                                       fuel: nat, load: uint32 -> uint32)
    requires StandsAt(es, s, ElementsBare(Bin(op, l, r), start, depth))
    requires s > 0 && IsUnary(es[s - 1]) ==> es[s - 1].priority < 3 + 3 * depth
    requires depth + BareNesting(Bin(op, l, r), start) <= 16 && fuel >= Size(Bin(op, l, r))
    ensures |ElementsBare(Bin(op, l, r), start, depth)| > 0
    ensures Eval(fuel, es, s, s + |ElementsBare(Bin(op, l, r), start, depth)| - 1, load) == Some(Value(Bin(op, l, r), load))
    decreases Bin(op, l, r), 0, 0
  {
    hide Elements, Nesting, Eval, Split, Apply, IsOperator, OpOf, NumOf, StandsAt, ElementsBare;
    var level := LevelOf(op);
    var a, c := Elements(l, level, start, depth), Elements(r, level + 1, false, depth);
    var middle := Element(2, NumOf(op), level + 3 * depth);
    BinaryParts(es, s, op, l, r, start, depth);
    OperandPriorities(op, l, r, start, depth);
    BinarySplit(es, s, a, middle, c);
    OperatorNumber(op);
    EvalElements(es, s, l, level, start, depth, fuel - 1, load);
    EvalElements(es, s + |a| + 1, r, level + 1, false, depth, fuel - 1, load);
    EvalAtBinary(fuel, es, s, s + |a| + |c|, s + |a|, Value(l, load), Value(r, load), load);
  }

  /** Where the two operands and the operator of a printed tree stand. */
  lemma BinaryParts(es: seq<Element>, s: nat, op: BinOp, l: Tree, r: Tree, start: bool, depth: nat)
    requires StandsAt(es, s, ElementsBare(Bin(op, l, r), start, depth))
    ensures var level := LevelOf(op);
            var a, c := Elements(l, level, start, depth), Elements(r, level + 1, false, depth);
            && StandsAt(es, s, a) && StandsAt(es, s + |a|, [Element(2, NumOf(op), level + 3 * depth)])
            && StandsAt(es, s + |a| + 1, c)
            && |ElementsBare(Bin(op, l, r), start, depth)| == |a| + 1 + |c|
            && s + |a| + 1 + |c| <= |es|
  {
    hide Elements;
    var level := LevelOf(op);
    var a, c := Elements(l, level, start, depth), Elements(r, level + 1, false, depth);
    var middle := Element(2, NumOf(op), level + 3 * depth);
    StandsAtParts(es, s, a + [middle], c);
    StandsAtParts(es, s, a, [middle]);
  }

  /** The operators of the left operand are no lower than the one between, those of the right are higher. */
  lemma OperandPriorities(op: BinOp, l: Tree, r: Tree, start: bool, depth: nat)
    requires depth + BareNesting(Bin(op, l, r), start) <= 16
    ensures var level := LevelOf(op);
            var a, c := Elements(l, level, start, depth), Elements(r, level + 1, false, depth);
            && |a| > 0 && |c| > 0 && level + 3 * depth <= 100
            && (forall i :: 0 <= i < |a| && IsOperator(a[i]) ==> level + 3 * depth <= a[i].priority)
            && (forall i :: 0 <= i < |c| && IsOperator(c[i]) ==> level + 3 * depth < c[i].priority)
            && depth + Nesting(l, level, start) <= 16 && depth + Nesting(r, level + 1, false) <= 16
            && IsOperator(Element(2, NumOf(op), level + 3 * depth)) && IsBinary(Element(2, NumOf(op), level + 3 * depth))
  {
    hide Elements, Nesting;
    ElementPriorities(l, LevelOf(op), start, depth, 16);
    ElementPriorities(r, LevelOf(op) + 1, false, depth, 16);
  }

  lemma EvalAtBinary(fuel: nat, es: seq<Element>, s: nat, e: int, m: nat, x: uint32, y: uint32, load: uint32 -> uint32)
    requires s < e < |es| && fuel > 0
    requires Split(es, s, e, 100, 0) == m && IsBinary(es[m])
    requires Eval(fuel - 1, es, s, m - 1, load) == Some(x)
    requires Eval(fuel - 1, es, m + 1, e, load) == Some(y)
    ensures Eval(fuel, es, s, e, load) == Some(Apply(OpOf(es[m].num), x, y))
  {
    hide Apply, Split;
  }

  /** What a finished evaluation split at m has evaluated. */
  lemma EvalUnfolds(fuel: nat, es: seq<Element>, s: nat, e: int, m: nat, load: uint32 -> uint32)
    requires s < e < |es| && fuel > 0
    requires Split(es, s, e, 100, 0) == m < |es|
    requires Eval(fuel, es, s, e, load).Some?
    ensures IsBinary(es[m]) ==>
              var left, right := Eval(fuel - 1, es, s, m - 1, load), Eval(fuel - 1, es, m + 1, e, load);
              && left.Some? && right.Some?
              && Eval(fuel, es, s, e, load) == Some(Apply(OpOf(es[m].num), left.value, right.value))
    ensures !IsBinary(es[m]) && IsUnary(es[m]) ==>
              var right := Eval(fuel - 1, es, m + 1, e, load);
              && right.Some?
              && var v := ApplyUnary(es[m].num, right.value, load);
                 Eval(fuel, es, s, e, load) == Some(if StandsAlone(es, m) then v else ApplyChain(es, m - 1, v, load))
    ensures !IsBinary(es[m]) && !IsUnary(es[m]) ==> Eval(fuel, es, s, e, load) == Some(BAD)
  {
    hide Split, Apply, ApplyUnary, ApplyChain, OpOf, StandsAlone;
  }

  lemma EvalAtUnary(fuel: nat, es: seq<Element>, s: nat, e: int, m: nat, x: uint32, load: uint32 -> uint32)
    requires s < e < |es| && fuel > 0
    requires Split(es, s, e, 100, 0) == m && IsUnary(es[m]) && StandsAlone(es, m)
    requires Eval(fuel - 1, es, m + 1, e, load) == Some(x)
    ensures Eval(fuel, es, s, e, load) == Some(ApplyUnary(es[m].num, x, load))
  {
    hide ApplyUnary, Split, StandsAlone;
  }

  lemma OperatorNumber(op: BinOp)
    ensures 1 <= NumOf(op) <= 4 && OpOf(NumOf(op)) == op
  {
  }

  /** A binary operator no higher than its left operand and lower than its right one is the split. */
  lemma BinarySplit(es: seq<Element>, s: nat, a: seq<Element>, middle: Element, c: seq<Element>)
    requires StandsAt(es, s, a) && StandsAt(es, s + |a|, [middle]) && StandsAt(es, s + |a| + 1, c)
    requires IsOperator(middle) && middle.priority <= 100 && |c| > 0
    requires forall i :: 0 <= i < |a| && IsOperator(a[i]) ==> middle.priority <= a[i].priority
    requires forall i :: 0 <= i < |c| && IsOperator(c[i]) ==> middle.priority < c[i].priority
    ensures Split(es, s, s + |a| + |c|, 100, 0) == s + |a|
    ensures es[s + |a|] == middle
  {
    StandsAtIndex(es, s, a);
    StandsAtIndex(es, s + |a|, [middle]);
    StandsAtIndex(es, s + |a| + 1, c);
    SplitIs(es, s, s + |a| + |c|, 100, 0, s + |a|);
  }
}
