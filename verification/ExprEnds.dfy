/**
 When eval ends, nemu/src/monitor/expr.c.  A range of two or more operands with no operator
 between them is split at element 0, which lies outside of it; the recursion then comes back
 to the same range for ever, unless element 0 is an operand.
 */
module ExprEnds {
  import opened Arithmetic
  import opened ExprSyntax
  import opened ExprPipeline
  import opened ExprEval

  /** What eval is given: no parentheses, and no priority above the initial bound of the scan. */
  predicate Plain(es: seq<Element>) {
    forall i :: 0 <= i < |es| && IsOperator(es[i]) ==> (IsBinary(es[i]) || IsUnary(es[i])) && es[i].priority <= 100
  }

  predicate HasOperator(es: seq<Element>, s: nat, e: int)
    requires e < |es|
  {
    exists k :: s <= k <= e && IsOperator(es[k])
  }

  // ----- what the scan finds

  lemma {:induction false} SplitNear(es: seq<Element>, i: nat, e: int, bound: int, min: nat)
    requires e < |es| && min < |es|
    ensures var m := Split(es, i, e, bound, min);
            m == min || (i <= m <= e && IsOperator(es[m]))
    ensures !HasOperator(es, i, e) ==> Split(es, i, e, bound, min) == min
    decreases e - i
  {
    if i <= e {
      if IsOperator(es[i]) && es[i].priority <= bound {
        SplitNear(es, i + 1, e, es[i].priority, i);
      } else {
        SplitNear(es, i + 1, e, bound, min);
      }
    }
  }

  /** If the range has an operator the scan finds one of it. */
  lemma {:induction false} SplitWithin(es: seq<Element>, i: nat, e: int, min: nat)
    requires Plain(es) && e < |es| && min < |es| && HasOperator(es, i, e)
    ensures var m := Split(es, i, e, 100, min);
            i <= m <= e && IsOperator(es[m])
    decreases e - i
  {
    if IsOperator(es[i]) {
      SplitNear(es, i + 1, e, es[i].priority, i);
    } else {
      SplitWithin(es, i + 1, e, min);
    }
  }

  /** From a candidate min on, what the scan finds is no higher than the others, and lower than those behind it. */
  lemma {:induction false} SplitLowestFrom(es: seq<Element>, i: nat, e: int, min: nat)
    requires e < |es| && min < i && min < |es|
    ensures var m := Split(es, i, e, es[min].priority, min);
            && es[m].priority <= es[min].priority
            && forall k :: i <= k <= e && IsOperator(es[k]) ==>
                 es[m].priority <= es[k].priority && (k > m ==> es[m].priority < es[k].priority)
    decreases e - i
  {
    if i <= e {
      if IsOperator(es[i]) && es[i].priority <= es[min].priority {
        SplitLowestFrom(es, i + 1, e, i);
        SplitNear(es, i + 1, e, es[i].priority, i);
      } else {
        SplitLowestFrom(es, i + 1, e, min);
      }
    }
  }

  lemma {:induction false} SplitLowest(es: seq<Element>, i: nat, e: int, min: nat)
    requires Plain(es) && e < |es| && min < |es| && HasOperator(es, i, e)
    ensures var m := Split(es, i, e, 100, min);
            forall k :: i <= k <= e && IsOperator(es[k]) ==>
              es[m].priority <= es[k].priority && (k > m ==> es[m].priority < es[k].priority)
    decreases e - i
  {
    if IsOperator(es[i]) {
      SplitLowestFrom(es, i + 1, e, i);
      SplitNear(es, i + 1, e, es[i].priority, i);
    } else {
      SplitLowest(es, i + 1, e, min);
    }
  }

  // ----- when it ends

  /** The evaluation of s..e comes to a range of two or more operands without an operator. */
  ghost predicate Stuck(es: seq<Element>, s: nat, e: int)
    requires Plain(es) && e < |es|
    decreases e - s
  {
    s < e &&
    if !HasOperator(es, s, e) then true
    else
      SplitWithin(es, s, e, 0);
      var m := Split(es, s, e, 100, 0);
      (IsBinary(es[m]) && Stuck(es, s, m - 1)) || Stuck(es, m + 1, e)
  }

  /** Element 0, which eval takes as the operator of a range that has none, is an operand or absent. */
  predicate OperandFirst(es: seq<Element>) {
    es == [] || !IsOperator(es[0])
  }

  /** The evaluation of s..e ends: it meets no such range, or element 0 is an operand. */
  ghost predicate Ends(es: seq<Element>, s: nat, e: int)
    requires Plain(es) && e < |es|
  {
    OperandFirst(es) || !Stuck(es, s, e)
  }

  /** A tail of operands without an operator is never evaluated, from any start behind element 0. */
  lemma {:induction false} NeverEnds(fuel: nat, es: seq<Element>, a: nat, s: nat, e: nat, load: uint32 -> uint32)
    requires Plain(es) && 1 <= a <= s < e < |es| && IsOperator(es[0]) && !HasOperator(es, s, e)
    ensures Eval(fuel, es, a, e, load) == None
    decreases fuel
  {
    hide Combine;
    if fuel > 0 {
      var m := Split(es, a, e, 100, 0);
      SplitNear(es, a, e, 100, 0);
      assert m < s;
      NeverEnds(fuel - 1, es, m + 1, s, e, load);
      NoRightOperand(es, m, if IsBinary(es[m]) then Eval(fuel - 1, es, a, m - 1, load) else None, load);
    }
  }

  lemma NoRightOperand(es: seq<Element>, m: nat, left: Option<uint32>, load: uint32 -> uint32)
    requires m < |es| && (IsBinary(es[m]) || IsUnary(es[m]))
    ensures Combine(es, m, left, None, load) == None
  {
  }

  /** An evaluation that meets such a range never ends, however deep the recursion may go. */
  lemma {:induction false} StuckNeverEnds(fuel: nat, es: seq<Element>, s: nat, e: int, load: uint32 -> uint32)
    requires Plain(es) && e < |es| && !Ends(es, s, e)
    ensures Eval(fuel, es, s, e, load) == None
    decreases fuel
  {
    hide Combine;
    if fuel > 0 {
      var m: int := Split(es, s, e, 100, 0);
      if HasOperator(es, s, e) {
        SplitWithin(es, s, e, 0);
        if IsBinary(es[m]) && Stuck(es, s, m - 1) {
          StuckNeverEnds(fuel - 1, es, s, m - 1, load);
          NoLeftOperand(es, m, Eval(fuel - 1, es, m + 1, e, load), load);
        } else {
          StuckNeverEnds(fuel - 1, es, m + 1, e, load);
          NoRightOperand(es, m, if IsBinary(es[m]) then Eval(fuel - 1, es, s, m - 1, load) else None, load);
        }
      } else {
        NeverEnds(fuel, es, s, s, e, load);
      }
    }
  }

  lemma NoLeftOperand(es: seq<Element>, m: nat, right: Option<uint32>, load: uint32 -> uint32)
    requires m < |es| && IsBinary(es[m])
    ensures Combine(es, m, None, right, load) == None
  {
  }

  /** Any other evaluation ends, with a level of recursion for each element of the range. */
  lemma {:induction false} EndsInTime(fuel: nat, es: seq<Element>, s: nat, e: int, load: uint32 -> uint32)
    requires Plain(es) && e < |es| && Ends(es, s, e)
    requires fuel > 0 && fuel >= e - s + 2
    ensures Eval(fuel, es, s, e, load).Some?
    decreases fuel
  {
    hide Combine;
    if s < e {
      var m: int := Split(es, s, e, 100, 0);
      if HasOperator(es, s, e) {
        SplitWithin(es, s, e, 0);
        EndsInTime(fuel - 1, es, m + 1, e, load);
        if IsBinary(es[m]) {
          EndsInTime(fuel - 1, es, s, m - 1, load);
        }
        BothOperands(es, m, if IsBinary(es[m]) then Eval(fuel - 1, es, s, m - 1, load) else None,
                     Eval(fuel - 1, es, m + 1, e, load), load);
      } else {
        SplitNear(es, s, e, 100, 0);
        OperandIsBad(es, load);
      }
    }
  }

  lemma BothOperands(es: seq<Element>, m: nat, left: Option<uint32>, right: Option<uint32>, load: uint32 -> uint32)
    requires m < |es| && right.Some? && (IsBinary(es[m]) ==> left.Some?)
    ensures Combine(es, m, left, right, load).Some?
  {
  }

  lemma OperandIsBad(es: seq<Element>, load: uint32 -> uint32)
    requires es != [] && !IsOperator(es[0])
    ensures Combine(es, 0, None, None, load) == Some(BAD)
  {
  }

  /**
   eval on the whole list ends if and only if element 0 is an operand or the evaluation meets no
   operands without an operator between them; |es| + 1 levels are then enough.
   */
  lemma EvalEndsIff(fuel: nat, es: seq<Element>, load: uint32 -> uint32)
    requires Plain(es)
    ensures Eval(|es| + 1, es, 0, |es| - 1, load).Some? <==> Ends(es, 0, |es| - 1)
    ensures Eval(fuel, es, 0, |es| - 1, load).Some? ==> Ends(es, 0, |es| - 1)
  {
    if Ends(es, 0, |es| - 1) {
      EndsInTime(|es| + 1, es, 0, |es| - 1, load);
    } else {
      StuckNeverEnds(|es| + 1, es, 0, |es| - 1, load);
      StuckNeverEnds(fuel, es, 0, |es| - 1, load);
    }
  }

  // ----- the condition without the recursion

  predicate OperandsAt(es: seq<Element>, k: nat)
    requires k + 1 < |es|
  {
    !IsOperator(es[k]) && !IsOperator(es[k + 1])
  }

  /**
   The unary operator at m is met before any operator between position k + 1 and it, and then
   what stands on its left is dropped.
   */
  predicate Drops(es: seq<Element>, m: nat, k: nat)
    requires m < |es|
  {
    IsUnary(es[m]) && forall j :: k + 1 < j < m && IsOperator(es[j]) ==> es[m].priority <= es[j].priority
  }

  /** Two operands stand side by side, and no unary operator up to e drops them. */
  predicate Exposed(es: seq<Element>, e: int, k: nat)
    requires k < e < |es|
  {
    OperandsAt(es, k) && forall m: nat :: k + 1 < m <= e ==> !Drops(es, m, k)
  }

  ghost predicate SomeExposed(es: seq<Element>, s: nat, e: int)
    requires e < |es|
  {
    exists k: nat :: s <= k < e && Exposed(es, e, k)
  }

  /** A binary operator at which a range is split does not change what is exposed on its left. */
  lemma ExposedLeft(es: seq<Element>, e: int, k: nat, m: nat)
    requires k + 1 < m <= e < |es| && IsBinary(es[m])
    requires forall j :: m < j <= e && IsOperator(es[j]) ==> es[m].priority < es[j].priority
    ensures Exposed(es, e, k) <==> Exposed(es, m - 1, k)
  {
    if Exposed(es, m - 1, k) {
      forall j: nat | k + 1 < j <= e
        ensures !Drops(es, j, k)
      {
        if j > m && IsUnary(es[j]) {
          assert es[m].priority < es[j].priority;
        }
      }
    }
  }

  /** The evaluation of a range is stuck exactly if it has exposed operands. */
  lemma {:induction false} StuckIffExposed(es: seq<Element>, s: nat, e: int)
    requires Plain(es) && e < |es|
    ensures Stuck(es, s, e) <==> SomeExposed(es, s, e)
    decreases e - s
  {
    if s < e {
      if HasOperator(es, s, e) {
        SplitWithin(es, s, e, 0);
        SplitLowest(es, s, e, 0);
        var m: int := Split(es, s, e, 100, 0);
        StuckIffExposed(es, s, m - 1);
        StuckIffExposed(es, m + 1, e);
        hide Stuck, Split, Plain;
        ExposedAround(es, s, e, m);
      } else {
        assert Exposed(es, e, s);
      }
    }
  }

  lemma ExposedAround(es: seq<Element>, s: nat, e: int, m: nat)
    requires s <= m <= e < |es| && IsOperator(es[m]) && (IsBinary(es[m]) || IsUnary(es[m]))
    requires forall k :: s <= k <= e && IsOperator(es[k]) ==>
               es[m].priority <= es[k].priority && (k > m ==> es[m].priority < es[k].priority)
    ensures SomeExposed(es, s, e) <==> (IsBinary(es[m]) && SomeExposed(es, s, m - 1)) || SomeExposed(es, m + 1, e)
  {
    forall k: nat | s <= k && k + 1 < m
      ensures Exposed(es, e, k) <==> IsBinary(es[m]) && Exposed(es, m - 1, k)
    {
      if IsBinary(es[m]) {
        ExposedLeft(es, e, k, m);
      } else {
        assert Drops(es, m, k);
      }
    }
    hide Exposed, Drops;
    if SomeExposed(es, s, e) {
      var k: nat :| s <= k < e && Exposed(es, e, k);
      ExposedOperands(es, e, k);
      assert k + 1 < m || k > m;
    }
    if IsBinary(es[m]) && SomeExposed(es, s, m - 1) {
      var k: nat :| s <= k < m - 1 && Exposed(es, m - 1, k);
      assert Exposed(es, e, k);
    }
  }

  lemma ExposedOperands(es: seq<Element>, e: int, k: nat)
    requires k < e < |es| && Exposed(es, e, k)
    ensures !IsOperator(es[k]) && !IsOperator(es[k + 1])
  {
  }

  /** Element 0 is an operand, or no two operands stand side by side without being dropped. */
  ghost predicate Settles(es: seq<Element>) {
    OperandFirst(es) || !SomeExposed(es, 0, |es| - 1)
  }

  /** eval on the whole list ends if and only if it settles. */
  lemma EvalEndsIffNotExposed(es: seq<Element>, load: uint32 -> uint32)
    requires Plain(es)
    ensures Eval(|es| + 1, es, 0, |es| - 1, load).Some? <==> Settles(es)
    ensures Ends(es, 0, |es| - 1) <==> Settles(es)
  {
    EvalEndsIff(0, es, load);
    StuckIffExposed(es, 0, |es| - 1);
  }

  /** Without unary operators eval ends exactly if element 0 is an operand or no two operands are adjacent. */
  lemma BinaryEndsIff(es: seq<Element>, load: uint32 -> uint32)
    requires Plain(es) && forall i :: 0 <= i < |es| ==> !IsUnary(es[i])
    ensures Eval(|es| + 1, es, 0, |es| - 1, load).Some? <==>
            OperandFirst(es) || forall k: nat :: k + 1 < |es| ==> !OperandsAt(es, k)
  {
    EvalEndsIffNotExposed(es, load);
    if exists k: nat :: k + 1 < |es| && OperandsAt(es, k) {
      var k: nat :| k + 1 < |es| && OperandsAt(es, k);
      assert Exposed(es, |es| - 1, k);
    }
  }

  /** A '+' with no left operand and two right ones sends eval into an endless recursion. */
  lemma MissingOperandDiverges(fuel: nat, x: uint32, y: uint32, load: uint32 -> uint32)
    ensures Eval(fuel, [Element(2, 1, 1), Element(1, x, 0), Element(1, y, 0)], 0, 2, load) == None
  {
    var es := [Element(2, 1, 1), Element(1, x, 0), Element(1, y, 0)];
    assert Exposed(es, 2, 1);
    StuckIffExposed(es, 0, 2);
    StuckNeverEnds(fuel, es, 0, 2, load);
  }

  // ----- what the passes before eval leave

  /** The list that eval gets for a text of at most 32 tokens is plain. */
  lemma {:induction false} ProcessPlain(before: Before, depth: int, tokens: seq<Token>)
    requires depth + |tokens| <= 32
    ensures Plain(Process(before, depth, tokens))
    decreases |tokens|
  {
    if tokens != [] {
      var e := Reread(before, ElementOf(tokens[0]));
      ProcessPlain(BeforeNext(e), DepthAfter(depth, e), tokens[1..]);
    }
  }

  // ----- one step of an evaluation that ends

  /** What the evaluation of a range is made of, when |es| + 1 levels are allowed for each part. */
  lemma EvalStep(es: seq<Element>, s: nat, e: int, load: uint32 -> uint32)
    requires Plain(es) && e < |es| && Ends(es, s, e)
    ensures s > e ==> Eval(|es| + 1, es, s, e, load) == Some(BAD)
    ensures s == e ==> Eval(|es| + 1, es, s, e, load) == Some(Wrap32(es[e].num))
    ensures s < e ==>
              var m: int := Split(es, s, e, 100, 0);
              var value := Eval(|es| + 1, es, s, e, load);
              if IsBinary(es[m]) then
                var left, right := Eval(|es| + 1, es, s, m - 1, load), Eval(|es| + 1, es, m + 1, e, load);
                && s <= m <= e && Ends(es, s, m - 1) && Ends(es, m + 1, e) && left.Some? && right.Some?
                && value == Some(Apply(OpOf(es[m].num), left.value, right.value))
              else if IsUnary(es[m]) then
                var right := Eval(|es| + 1, es, m + 1, e, load);
                && s <= m <= e && Ends(es, m + 1, e) && right.Some?
                && var v := ApplyUnary(es[m].num, right.value, load);
                   value == Some(if StandsAlone(es, m) then v else ApplyChain(es, m - 1, v, load))
              else
                value == Some(BAD)
  {
    hide Apply, ApplyUnary, ApplyChain, OpOf, StandsAlone, Combine;
    if s < e {
      var n, m: int := |es|, Split(es, s, e, 100, 0);
      EndsInTime(n + 1, es, s, e, load);
      EvalUnfolds(n + 1, es, s, e, m, load);
      if HasOperator(es, s, e) {
        SplitWithin(es, s, e, 0);
        hide Eval;
        EvalMonotone(n, n + 1, es, m + 1, e, load);
        if IsBinary(es[m]) {
          EvalMonotone(n, n + 1, es, s, m - 1, load);
        }
      } else {
        SplitNear(es, s, e, 100, 0);
      }
    }
  }
}
