/**
 The debugger's expression evaluator on its global arrays: expr, check_parentheses,
 check_priority, remove_parentheses and eval, nemu/src/monitor/expr.c.
 */
module ExprMachine {
  import opened Arithmetic
  import opened ExprSyntax
  import opened ExprPipeline
  import opened ExprBalance
  import opened ExprEval
  import opened ExprEnds
  import opened ExprGrammar

  const MAX_TOKENS: nat := 32

  class Evaluator {
    const elements: array<Element>
    var nrToken: nat
    const load: uint32 -> uint32

    constructor (load: uint32 -> uint32)
      ensures Valid() && fresh(elements) && this.load == load
    {
      elements := new Element[MAX_TOKENS](_ => Element(0, 0, 0));
      nrToken := 0;
      this.load := load;
    }

    predicate Valid()
      reads this
    {
      elements.Length == MAX_TOKENS && nrToken <= MAX_TOKENS
    }

    /** The part of the array in use. */
    ghost function Contents(): seq<Element>
      requires Valid()
      reads this, elements
    {
      elements[..nrToken]
    }

    /** The first loop of expr: one element per token. */
    method ReadTokens(tokens: seq<Token>)
      requires Valid() && |tokens| <= MAX_TOKENS
      modifies this`nrToken, elements
      ensures Valid() && Contents() == Read(tokens)
    {
      nrToken := |tokens|;
      var i := 0;
      while i < nrToken
        invariant 0 <= i <= nrToken == |tokens|
        invariant forall j :: 0 <= j < i ==> elements[j] == ElementOf(tokens[j])
      {
        elements[i] := ElementOf(tokens[i]);
        i := i + 1;
      }
    }

    /** The second loop of expr: tells negation and dereference from the binary operators. */
    method Reclassify()
      requires Valid()
      modifies elements
      ensures Valid() && nrToken == old(nrToken)
      ensures Contents() == Classified(Opening, old(Contents()))
    {
      ghost var es := Contents();
      var i := 0;
      while i < nrToken
        invariant 0 <= i <= nrToken == |es|
        invariant forall j :: 0 <= j < i ==> elements[j] == Classified(Opening, es)[j]
        invariant forall j :: i <= j < nrToken ==> elements[j] == es[j]
      {
        ClassifiedAt(Opening, es, i);
        var e := elements[i];
        if e.kind == 2 && e.num == 2 {
          if i == 0 || (elements[i - 1].kind == 2 && elements[i - 1].num == 5) {
            elements[i] := Element(2, 7, 3);
          }
        } else if e.kind == 2 && e.num == 3 {
          if i == 0 || (elements[i - 1].kind == 2 && (elements[i - 1].num == 5 || elements[i - 1].num == 1
              || elements[i - 1].num == 2 || elements[i - 1].num == 3 || elements[i - 1].num == 4)) {
            elements[i] := Element(2, 8, 3);
          }
        }
        i := i + 1;
      }
    }

    method CheckParentheses() returns (ok: bool)
      requires Valid()
      ensures ok <==> Balanced(Contents())
    {
      ghost var es := Contents();
      AcceptsIffBalanced(es);
      var count: int := 0;
      var i := 0;
      while i < nrToken
        invariant 0 <= i <= nrToken
        invariant count >= 0
        invariant Accepts(0, es) <==> Accepts(count, es[i..])
      {
        assert es[i..][1..] == es[i + 1..];
        if elements[i].kind == 2 && elements[i].num == 5 {
          count := count + 1;
        } else if elements[i].kind == 2 && elements[i].num == 6 {
          count := count - 1;
        }
        if count < 0 {
          return false;
        }
        i := i + 1;
      }
      assert es[i..] == [];
      ok := count == 0;
    }

    method CheckPriority()
      requires Valid()
      modifies elements
      ensures Valid() && nrToken == old(nrToken)
      ensures Contents() == Prioritized(0, old(Contents()))
    {
      ghost var es := Contents();
      var leftCount: int := 0;
      var i := 0;
      while i < nrToken
        invariant 0 <= i <= nrToken == |es|
        invariant forall j :: 0 <= j < i ==> elements[j] == Prioritized(0, es)[j]
        invariant forall j :: i <= j < nrToken ==> elements[j] == es[j]
        invariant Prioritized(0, es)[i..] == Prioritized(leftCount, es[i..])
      {
        PrioritizedStep(leftCount, es, i);
        var e := elements[i];
        if e.kind == 2 && e.num == 5 {
          leftCount := leftCount + 1;
        } else if e.kind == 2 && e.num == 6 {
          leftCount := leftCount - 1;
        }
        if e.kind == 2 && e.num != 5 && e.num != 6 {
          elements[i] := e.(priority := e.priority + leftCount * 3);
        }
        assert elements[i] == Prioritized(0, es)[i..][0];
        i := i + 1;
      }
    }

    /** Deletes element i by moving the ones behind it forward. */
    method DeleteAt(i: nat)
      requires Valid() && i < nrToken
      modifies this`nrToken, elements
      ensures Valid() && Contents() == old(Contents())[..i] + old(Contents())[i + 1..]
    {
      ghost var es := Contents();
      var j := i;
      while j < nrToken - 1
        invariant i <= j <= nrToken - 1
        invariant nrToken == |es|
        invariant forall k :: 0 <= k < i ==> elements[k] == es[k]
        invariant forall k :: i <= k < j ==> elements[k] == es[k + 1]
        invariant forall k :: j <= k < nrToken ==> elements[k] == es[k]
      {
        elements[j] := elements[j + 1];
        j := j + 1;
      }
      nrToken := nrToken - 1;
    }

    method RemoveParentheses()
      requires Valid()
      modifies this`nrToken, elements
      ensures Valid() && Contents() == Bare(old(Contents()))
    {
      ghost var es := Contents();
      var i := 0;
      while i < nrToken
        invariant Valid() && 0 <= i <= nrToken
        invariant forall j :: 0 <= j < i ==> !IsParenthesis(elements[j])
        invariant Bare(Contents()) == Bare(es)
        decreases nrToken - i
      {
        if elements[i].kind == 2 && (elements[i].num == 5 || elements[i].num == 6) {
          BareDelete(Contents(), i);
          ghost var before := Contents();
          DeleteAt(i);
          assert Contents()[..i] == before[..i];
          assert forall j :: 0 <= j < i ==> Contents()[..i][j] == elements[j] && before[..i][j] == before[j];
        } else {
          i := i + 1;
        }
      }
      BareOfBare(Contents());
    }

    /** The value of elements s..e, whenever the recursion of eval ends. */
    method EvalRange(s: nat, e: int) returns (value: uint32)
      requires Valid() && e < nrToken
      requires Plain(Contents()) && Ends(Contents(), s, e)
      ensures Eval(nrToken + 1, Contents(), s, e, load) == Some(value)
      decreases e - s
    {
      hide Eval, Ends, Plain, Split, Apply, ApplyUnary, ApplyChain, OpOf, StandsAlone;
      ghost var es := Contents();
      EvalStep(es, s, e, load);
      if s > e {
        return BAD;
      }
      if s == e {
        return Wrap32(elements[e].num);
      }
      var min := FindSplit(s, e);
      var m: int := min;
      if IsBinary(elements[min]) {
        var x := EvalRange(s, m - 1);
        var y := EvalRange(min + 1, e);
        value := ApplyBinary(elements[min].num, x, y);
      } else if IsUnary(elements[min]) {
        var x := EvalRange(min + 1, e);
        value := ApplyUnary(elements[min].num, x, load);
        if !StandsAlone(elements[..nrToken], min) {
          value := UnaryChain(m - 1, value);
        }
      } else {
        value := BAD;
      }
    }

    /**
     expr after the lexer.  Unbalanced text gives 0xffffffff; balanced text the value of eval,
     whenever that ends.  The printed text of a tree gives the value of the tree, and a text of
     the usual grammar its usual meaning, modulo 2^32.
     */
    method Evaluate(tokens: seq<Token>) returns (value: uint32)
      requires Valid() && |tokens| <= MAX_TOKENS
      requires WellBracketed(tokens) ==> Finishes(tokens)
      modifies this`nrToken, elements
      ensures Valid()
      ensures !WellBracketed(tokens) ==> value == 0xffff_ffff
      ensures WellBracketed(tokens) ==> Some(value) == Outcome(tokens, load)
      ensures forall t: Tree :: tokens == Print(t, 1, true) ==> value == Value(t, load)
      ensures forall s: Sum :: SumProper(s) && tokens == SumText(s) ==> value == Wrap32(SumMeaning(s, load))
    {
      hide WellBracketed, Prepared, Finishes, Outcome, IsOperator;
      hide Eval, Ends, Plain, Print, Value, Read, Classified, Prioritized, Bare, Balanced;
      hide SumProper, SumText, SumMeaning, Wrap32;
      PrintedOutcome(tokens, load);
      TextOutcome(tokens, load);
      PreparedPlain(tokens);
      PreparedIs(tokens);
      FinishesIs(tokens);
      OutcomeIs(tokens, load);
      ReadTokens(tokens);
      Reclassify();
      var ok := CheckParentheses();
      if ok {
        CheckPriority();
        RemoveParentheses();
        value := EvalRange(0, nrToken - 1);
      } else {
        value := BAD;
      }
    }

    /** The four binary operators of eval; num 4, the division sign, is evaluated like num 1. */
    static method ApplyBinary(num: nat, x: uint32, y: uint32) returns (value: uint32)
      requires 1 <= num <= 4
      ensures value == Apply(OpOf(num), x, y)
      ensures value == Wrap32(if num == 2 then x - y else if num == 3 then x * y else x + y)
    {
      hide Wrap32;
      var a: int, b: int := x, y;
      if num == 1 {
        value := Wrap32(a + b);
      } else if num == 2 {
        value := Wrap32(a - b);
      } else if num == 3 {
        value := Wrap32(a * b);
      } else {
        value := Wrap32(a + b);
      }
    }

    /** The scan of eval: the rightmost operator of lowest priority. */
    method FindSplit(s: nat, e: nat) returns (min: nat)
      requires Valid() && s <= e < nrToken
      ensures min == Split(Contents(), s, e, 100, 0)
    {
      ghost var es := Contents();
      var minPrio := 100;
      min := 0;
      var i := s;
      while i <= e
        invariant s <= i <= e + 1 && min < nrToken
        invariant Split(es, s, e, 100, 0) == Split(es, i, e, minPrio, min)
      {
        if elements[i].kind == 2 && elements[i].priority <= minPrio {
          minPrio := elements[i].priority;
          min := i;
        }
        i := i + 1;
      }
    }

    /** The unary operators from j leftwards, applied to a value. */
    method UnaryChain(j0: int, value0: uint32) returns (value: uint32)
      requires Valid() && j0 < nrToken
      ensures value == ApplyChain(Contents(), j0, value0, load)
    {
      var j := j0;
      value := value0;
      while j >= 0 && elements[j].kind == 2 && (elements[j].num == 7 || elements[j].num == 8)
        invariant j < nrToken
        invariant ApplyChain(Contents(), j0, value0, load) == ApplyChain(Contents(), j, value, load)
        decreases j
      {
        if elements[j].num == 7 {
          value := Wrap32(-(value as int));
        } else if elements[j].num == 8 {
          value := load(value);
        }
        j := j - 1;
      }
    }
  }

  // ----- the passes together

  /** The elements that eval sees. */
  function Prepared(tokens: seq<Token>): seq<Element> {
    Bare(Prioritized(0, Classified(Opening, Read(tokens))))
  }

  /** The text passes the check of the parentheses. */
  ghost predicate WellBracketed(tokens: seq<Token>) {
    Balanced(Classified(Opening, Read(tokens)))
  }

  lemma PreparedPlain(tokens: seq<Token>)
    requires |tokens| <= MAX_TOKENS
    ensures Plain(Prepared(tokens))
  {
    PassesCombine(Opening, 0, tokens);
    ProcessPlain(Opening, 0, tokens);
  }

  /** The evaluation of the text ends. */
  ghost predicate Finishes(tokens: seq<Token>)
    requires |tokens| <= MAX_TOKENS
  {
    PreparedPlain(tokens);
    Ends(Prepared(tokens), 0, |Prepared(tokens)| - 1)
  }

  /** What eval makes of the text. */
  ghost function Outcome(tokens: seq<Token>, load: uint32 -> uint32): Option<uint32> {
    var es := Prepared(tokens);
    Eval(|es| + 1, es, 0, |es| - 1, load)
  }

  lemma FinishesIs(tokens: seq<Token>)
    requires |tokens| <= MAX_TOKENS && Plain(Prepared(tokens))
    ensures Finishes(tokens) <==> Ends(Prepared(tokens), 0, |Prepared(tokens)| - 1)
  {
    hide Prepared, Plain, Ends;
  }

  lemma OutcomeIs(tokens: seq<Token>, load: uint32 -> uint32)
    ensures var es := Prepared(tokens);
            Outcome(tokens, load) == Eval(|es| + 1, es, 0, |es| - 1, load)
  {
    hide Prepared, Eval;
  }

  /** It ends exactly if its first element is an operand or no two operands stand exposed side by side. */
  lemma FinishesIff(tokens: seq<Token>, load: uint32 -> uint32)
    requires |tokens| <= MAX_TOKENS
    ensures Finishes(tokens) <==> Outcome(tokens, load).Some?
    ensures Finishes(tokens) <==> Settles(Prepared(tokens))
  {
    hide *;
    PreparedPlain(tokens);
    FinishesIs(tokens);
    OutcomeIs(tokens, load);
    EvalEndsIff(0, Prepared(tokens), load);
    EvalEndsIffNotExposed(Prepared(tokens), load);
  }

  /** A printed tree passes the check of the parentheses. */
  lemma PrintedIsBalanced(t: Tree)
    ensures WellBracketed(Print(t, 1, true))
  {
    hide Print, Read, Classified, Accepts, Balanced;
    PrintedIsAccepted(t);
    AcceptsIffBalanced(Classified(Opening, Read(Print(t, 1, true))));
  }

  /** The evaluation of a printed tree of at most 32 tokens ends with its value. */
  lemma PrintedTreeEvaluates(t: Tree, load: uint32 -> uint32)
    requires |Print(t, 1, true)| <= MAX_TOKENS
    ensures var es := Prepared(Print(t, 1, true));
            Eval(Size(t), es, 0, |es| - 1, load) == Some(Value(t, load))
  {
    hide Elements, Print, Nesting, Eval, Prioritized, Classified, Bare, Value, Read, Size;
    PrintedTree(t);
    NestingBound(t, 1, true);
    var es := Elements(t, 1, true, 0);
    assert es[0..|es|] == es;
    EvalElements(es, 0, t, 1, true, 0, Size(t), load);
  }

  lemma PreparedIs(tokens: seq<Token>)
    ensures WellBracketed(tokens) <==> Balanced(Classified(Opening, Read(tokens)))
    ensures Prepared(tokens) == Bare(Prioritized(0, Classified(Opening, Read(tokens))))
  {
    hide Balanced, Classified, Read, Bare, Prioritized;
  }

  lemma PrintedOutcome(tokens: seq<Token>, load: uint32 -> uint32)
    requires |tokens| <= MAX_TOKENS
    ensures forall t: Tree :: tokens == Print(t, 1, true) ==>
              WellBracketed(tokens) && Finishes(tokens) && Outcome(tokens, load) == Some(Value(t, load))
  {
    hide WellBracketed, Prepared, Eval, Print, Value, Finishes;
    forall t: Tree | tokens == Print(t, 1, true)
      ensures WellBracketed(tokens) && Finishes(tokens) && Outcome(tokens, load) == Some(Value(t, load))
    {
      PrintedIsBalanced(t);
      PrintedFinishes(t, load);
    }
  }

  /** The evaluation of a text of the usual grammar ends, with its usual meaning modulo 2^32. */
  lemma GrammarOutcome(s: Sum, load: uint32 -> uint32)
    requires SumProper(s) && |SumText(s)| <= MAX_TOKENS
    ensures WellBracketed(SumText(s)) && Finishes(SumText(s))
    ensures Outcome(SumText(s), load) == Some(Wrap32(SumMeaning(s, load)))
  {
    hide *;
    SumPrinted(s);
    SumValue(s, load);
    PrintedIsBalanced(SumTree(s));
    PrintedFinishes(SumTree(s), load);
  }

  lemma TextOutcome(tokens: seq<Token>, load: uint32 -> uint32)
    requires |tokens| <= MAX_TOKENS
    ensures forall s: Sum :: SumProper(s) && tokens == SumText(s) ==>
              WellBracketed(tokens) && Finishes(tokens) && Outcome(tokens, load) == Some(Wrap32(SumMeaning(s, load)))
  {
    hide *;
    forall s: Sum | SumProper(s) && tokens == SumText(s)
      ensures WellBracketed(tokens) && Finishes(tokens) && Outcome(tokens, load) == Some(Wrap32(SumMeaning(s, load)))
    {
      GrammarOutcome(s, load);
    }
  }

  /** The evaluation of a printed tree of at most 32 tokens ends, with its value. */
  lemma PrintedFinishes(t: Tree, load: uint32 -> uint32)
    requires |Print(t, 1, true)| <= MAX_TOKENS
    ensures Finishes(Print(t, 1, true)) && Outcome(Print(t, 1, true), load) == Some(Value(t, load))
  {
    hide *;
    PrintedTreeEvaluates(t, load);
    PreparedPlain(Print(t, 1, true));
    FinishesIs(Print(t, 1, true));
    OutcomeIs(Print(t, 1, true), load);
    var es := Prepared(Print(t, 1, true));
    EvalEndsIff(Size(t), es, load);
    PrintedTreeValue(t, |es| + 1, load);
  }

  /** However many levels are allowed, a finished evaluation of a printed tree gives its value. */
  lemma PrintedTreeValue(t: Tree, fuel: nat, load: uint32 -> uint32)
    requires |Print(t, 1, true)| <= MAX_TOKENS
    requires var es := Prepared(Print(t, 1, true)); Eval(fuel, es, 0, |es| - 1, load).Some?
    ensures var es := Prepared(Print(t, 1, true)); Eval(fuel, es, 0, |es| - 1, load) == Some(Value(t, load))
  {
    hide *;
    PrintedTreeEvaluates(t, load);
    var es := Prepared(Print(t, 1, true));
    EvalAgrees(fuel, Size(t), es, 0, |es| - 1, load);
  }

  // ----- the passes at a position

  lemma {:induction false} ClassifiedAt(before: Before, es: seq<Element>, i: nat)
    requires i < |es|
    ensures Classified(before, es)[i] == Reread(if i == 0 then before else BeforeNext(Classified(before, es)[i - 1]), es[i])
    decreases i
  {
    if i > 0 {
      var e := Reread(before, es[0]);
      ClassifiedAt(BeforeNext(e), es[1..], i - 1);
    }
  }

  lemma PrioritizedStep(depth: int, es: seq<Element>, i: nat)
    requires i < |es| && Prioritized(0, es)[i..] == Prioritized(depth, es[i..])
    ensures var d := DepthAfter(depth, es[i]);
            && Prioritized(0, es)[i..][0] == Lifted(d, es[i])
            && Prioritized(0, es)[i + 1..] == Prioritized(d, es[i + 1..])
  {
    assert es[i..][1..] == es[i + 1..];
    assert Prioritized(0, es)[i + 1..] == Prioritized(0, es)[i..][1..];
  }

  lemma {:induction false} BareDelete(es: seq<Element>, i: nat)
    requires i < |es| && IsParenthesis(es[i])
    ensures Bare(es[..i] + es[i + 1..]) == Bare(es)
    decreases i
  {
    if i == 0 {
      assert es[..0] + es[1..] == es[1..];
    } else {
      BareDelete(es[1..], i - 1);
      var rest := es[..i] + es[i + 1..];
      assert rest[1..] == es[1..][..i - 1] + es[1..][i..];
      assert rest[0] == es[0];
    }
  }

  lemma {:induction false} BareOfBare(es: seq<Element>)
    requires forall i :: 0 <= i < |es| ==> !IsParenthesis(es[i])
    ensures Bare(es) == es
  {
    if es != [] {
      BareOfBare(es[1..]);
    }
  }
}
