/**
 Balanced parentheses and nesting depth: what check_parentheses and check_priority compute,
 nemu/src/monitor/expr.c, against a grammar and a count.
 */
module ExprBalance {
  import opened ExprSyntax
  import opened ExprPipeline

  /** The counting scan of check_parentheses, from a given count on. */
  predicate Accepts(count: int, es: seq<Element>)
    decreases |es|
  {
    if es == [] then count == 0
    else DepthAfter(count, es[0]) >= 0 && Accepts(DepthAfter(count, es[0]), es[1..])
  }

  /** The grammar of balanced lists: nothing, any other element first, or a bracketed part first. */
  ghost predicate Balanced(es: seq<Element>)
    decreases |es|
  {
    || es == []
    || (!IsParenthesis(es[0]) && Balanced(es[1..]))
    || (IsOpening(es[0]) && exists k :: 0 < k < |es| && IsClosing(es[k]) && Balanced(es[1..k]) && Balanced(es[k + 1..]))
  }

  lemma AcceptsFirst(count: int, e: Element, rest: seq<Element>)
    ensures Accepts(count, [e] + rest) <==> DepthAfter(count, e) >= 0 && Accepts(DepthAfter(count, e), rest)
  {
    assert ([e] + rest)[1..] == rest;
  }

  lemma BalancedCases(es: seq<Element>)
    requires Balanced(es) && es != []
    ensures !IsParenthesis(es[0]) ==> Balanced(es[1..])
    ensures IsParenthesis(es[0]) ==>
              && IsOpening(es[0])
              && exists k :: 0 < k < |es| && IsClosing(es[k]) && Balanced(es[1..k]) && Balanced(es[k + 1..])
  {
  }

  lemma BracketParts(part: seq<Element>, k: nat, rest: seq<Element>)
    requires 0 < k < |part|
    ensures part + rest == [part[0]] + (part[1..k] + ([part[k]] + (part[k + 1..] + rest)))
  {
  }

  /** A balanced part leaves the count as it was. */
  lemma {:induction false} BalancedKeepsCount(part: seq<Element>, count: int, rest: seq<Element>)
    requires Balanced(part) && count >= 0
    ensures Accepts(count, part + rest) <==> Accepts(count, rest)
    decreases |part|
  {
    if part != [] {
      BalancedCases(part);
    }
    hide Accepts, Balanced;
    if part == [] {
      assert part + rest == rest;
    } else if !IsParenthesis(part[0]) {
      assert part + rest == [part[0]] + (part[1..] + rest);
      AcceptsFirst(count, part[0], part[1..] + rest);
      BalancedKeepsCount(part[1..], count, rest);
    } else {
      var k :| 0 < k < |part| && IsClosing(part[k]) && Balanced(part[1..k]) && Balanced(part[k + 1..]);
      var after := part[k + 1..] + rest;
      BracketParts(part, k, rest);
      AcceptsFirst(count, part[0], part[1..k] + ([part[k]] + after));
      BalancedKeepsCount(part[1..k], count + 1, [part[k]] + after);
      AcceptsFirst(count + 1, part[k], after);
      BalancedKeepsCount(part[k + 1..], count, rest);
    }
  }

  lemma NothingBalanced()
    ensures Balanced([])
  {
  }

  lemma PlainFirst(es: seq<Element>)
    requires es != [] && !IsParenthesis(es[0]) && Balanced(es[1..])
    ensures Balanced(es)
  {
  }

  lemma BracketBalanced(es: seq<Element>, j: nat, k: nat)
    requires 0 < j < k <= |es| && IsOpening(es[0]) && IsClosing(es[j])
    requires Balanced(es[1..j]) && Balanced(es[j + 1..k])
    ensures Balanced(es[..k])
  {
    var part := es[..k];
    assert part[1..j] == es[1..j] && part[j + 1..] == es[j + 1..k] && part[j] == es[j];
  }

  lemma TwoCloses(es: seq<Element>, k1: nat, k2: nat)
    requires k1 + k2 + 2 < |es|
    ensures es[1..][k1 + 1..] == es[k1 + 2..]
    ensures es[k1 + 2..][..k2] == es[k1 + 2..k1 + k2 + 2]
    ensures es[k1 + 2..][k2 + 1..] == es[k1 + k2 + 3..]
    ensures es[1..][..k1] == es[1..k1 + 1]
  {
  }

  /** From a positive count an accepted list has a balanced part before the closing parenthesis. */
  lemma {:induction false} MatchingClose(count: int, es: seq<Element>) returns (k: nat)
    requires count > 0 && Accepts(count, es)
    ensures k < |es| && IsClosing(es[k]) && Balanced(es[..k]) && Accepts(count - 1, es[k + 1..])
    decreases |es|
  {
    NothingBalanced();
    hide Balanced;
    if IsClosing(es[0]) {
      k := 0;
      assert es[..0] == [];
    } else if IsOpening(es[0]) {
      var k1 := MatchingClose(count + 1, es[1..]);
      var k2 := MatchingClose(count, es[1..][k1 + 1..]);
      k := k1 + k2 + 2;
      TwoCloses(es, k1, k2);
      BracketBalanced(es, k1 + 1, k);
    } else {
      var k1 := MatchingClose(count, es[1..]);
      k := k1 + 1;
      assert es[..k][1..] == es[1..][..k1];
      PlainFirst(es[..k]);
      assert es[1..][k1 + 1..] == es[k + 1..];
    }
  }

  lemma {:induction false} AcceptedIsBalanced(es: seq<Element>)
    requires Accepts(0, es)
    ensures Balanced(es)
    decreases |es|
  {
    if es != [] {
      if IsOpening(es[0]) {
        var k := MatchingClose(1, es[1..]);
        assert es[1..][..k] == es[1..k + 1] && es[1..][k + 1..] == es[k + 2..];
        assert IsClosing(es[k + 1]);
        AcceptedIsBalanced(es[k + 2..]);
      } else {
        AcceptedIsBalanced(es[1..]);
      }
    }
  }

  /** check_parentheses accepts exactly the balanced lists. */
  lemma AcceptsIffBalanced(es: seq<Element>)
    ensures Accepts(0, es) <==> Balanced(es)
  {
    if Accepts(0, es) {
      AcceptedIsBalanced(es);
    }
    if Balanced(es) {
      BalancedKeepsCount(es, 0, []);
      assert es + [] == es;
    }
  }

  // ----- depth

  /** Opening less closing parentheses in a list. */
  function Depth(es: seq<Element>): int {
    if es == [] then 0 else Depth(es[..|es| - 1]) + DepthAfter(0, es[|es| - 1])
  }

  lemma {:induction false} DepthShift(es: seq<Element>)
    requires es != []
    ensures Depth(es) == DepthAfter(0, es[0]) + Depth(es[1..])
    decreases |es|
  {
    if |es| > 1 {
      var n := |es| - 1;
      assert es[..n][1..] == es[1..][..n - 1];
      DepthShift(es[..n]);
    } else {
      assert es[..0] == [] && es[1..] == [];
    }
  }

  /** check_priority adds three times the nesting depth to every operator and changes nothing else. */
  lemma {:induction false} PriorityOfDepth(d: int, es: seq<Element>, i: nat)
    requires i < |es|
    ensures var e, e' := es[i], Prioritized(d, es)[i];
            e' == if IsOperator(e) && !IsParenthesis(e) then e.(priority := e.priority + 3 * (d + Depth(es[..i]))) else e
    decreases i
  {
    if i > 0 {
      PriorityOfDepth(DepthAfter(d, es[0]), es[1..], i - 1);
      assert es[1..][..i - 1] == es[..i][1..];
      DepthShift(es[..i]);
    } else {
      assert es[..0] == [];
    }
  }

  // ----- printed trees are balanced

  /** Reading '-' and '*' anew does not touch parentheses. */
  lemma {:induction false} ClassifiedAccepts(before: Before, count: int, es: seq<Element>)
    ensures Accepts(count, Classified(before, es)) <==> Accepts(count, es)
    decreases |es|
  {
    if es != [] {
      var e := Reread(before, es[0]);
      assert Classified(before, es)[1..] == Classified(BeforeNext(e), es[1..]);
      ClassifiedAccepts(BeforeNext(e), DepthAfter(count, es[0]), es[1..]);
    }
  }

  lemma {:induction false} PrintKeepsCount(t: Tree, level: nat, start: bool, count: int, rest: seq<Token>)
    requires count >= 0
    ensures Accepts(count, Read(Print(t, level, start) + rest)) <==> Accepts(count, Read(rest))
    decreases t, 1
  {
    hide Accepts, Read, PrintBare;
    if NeedsParentheses(t, level, start) {
      var inner := PrintBare(t, true) + ([RParen] + rest);
      assert Print(t, level, start) + rest == [LParen] + inner;
      OneToken(LParen, inner, count);
      BareKeepsCount(t, true, count + 1, [RParen] + rest);
      OneToken(RParen, rest, count + 1);
    } else {
      BareKeepsCount(t, start, count, rest);
    }
  }

  lemma OneToken(t: Token, rest: seq<Token>, count: int)
    ensures Accepts(count, Read([t] + rest)) <==>
            DepthAfter(count, ElementOf(t)) >= 0 && Accepts(DepthAfter(count, ElementOf(t)), Read(rest))
  {
    assert Read([t] + rest)[1..] == Read(rest);
  }

  lemma {:induction false} BareKeepsCount(t: Tree, start: bool, count: int, rest: seq<Token>)
    requires count >= 0
    ensures Accepts(count, Read(PrintBare(t, start) + rest)) <==> Accepts(count, Read(rest))
    decreases t, 0
  {
    hide Accepts, Read, Print;
    match t
    case Lit(n) =>
      OneToken(Num(n), rest, count);
    case Neg(u) =>
      assert PrintBare(t, start) + rest == [Minus] + (Print(u, 4, false) + rest);
      OneToken(Minus, Print(u, 4, false) + rest, count);
      PrintKeepsCount(u, 4, false, count, rest);
    case Deref(u) =>
      assert PrintBare(t, start) + rest == [Star] + (Print(u, 4, false) + rest);
      OneToken(Star, Print(u, 4, false) + rest, count);
      PrintKeepsCount(u, 4, false, count, rest);
    case Bin(op, l, r) =>
      var right := Print(r, LevelOf(op) + 1, false) + rest;
      assert PrintBare(t, start) + rest == Print(l, LevelOf(op), start) + ([TokenOf(op)] + right);
      PrintKeepsCount(l, LevelOf(op), start, count, [TokenOf(op)] + right);
      OneToken(TokenOf(op), right, count);
      PrintKeepsCount(r, LevelOf(op) + 1, false, count, rest);
    case Paren(u) =>
      assert PrintBare(t, start) + rest == [LParen] + (Print(u, 1, true) + ([RParen] + rest));
      OneToken(LParen, Print(u, 1, true) + ([RParen] + rest), count);
      PrintKeepsCount(u, 1, true, count + 1, [RParen] + rest);
      OneToken(RParen, rest, count + 1);
  }

  lemma PrintedIsAccepted(t: Tree)
    ensures Accepts(0, Classified(Opening, Read(Print(t, 1, true))))
  {
    PrintKeepsCount(t, 1, true, 0, []);
    assert Print(t, 1, true) + [] == Print(t, 1, true);
    assert Read([]) == [];
    ClassifiedAccepts(Opening, 0, Read(Print(t, 1, true)));
  }
}
