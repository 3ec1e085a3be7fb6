/**
 The passes of the debugger's evaluator before eval, as functions on the element list:
 telling unary operators from binary ones, lifting priorities by the nesting depth, and
 dropping the parentheses (expr, check_priority and remove_parentheses, nemu/src/monitor/expr.c).
 */
module ExprPipeline {
  import opened Arithmetic
  import opened ExprSyntax

  // ----- the passes

  /** What comes before an element: the start or '(', a binary operator, or anything else. */
  datatype Before = Opening | Binary | Other

  function BeforeNext(e: Element): Before {
    if IsOpening(e) then Opening else if IsBinary(e) then Binary else Other
  }

  /** A binary '-' or '*' turned into negation or dereference where the left context asks for it. */
  function Reread(before: Before, e: Element): Element {
    if e.kind == 2 && e.num == 2 && before == Opening then Element(2, 7, 3)
    else if e.kind == 2 && e.num == 3 && before != Other then Element(2, 8, 3)
    else e
  }

  function Classified(before: Before, es: seq<Element>): (r: seq<Element>)
    ensures |r| == |es|
    decreases |es|
  {
    if es == [] then []
    else
      var e := Reread(before, es[0]);
      [e] + Classified(BeforeNext(e), es[1..])
  }

  /** How the nesting depth changes across an element. */
  function DepthAfter(depth: int, e: Element): int {
    if IsOpening(e) then depth + 1 else if IsClosing(e) then depth - 1 else depth
  }

  function Lifted(depth: int, e: Element): Element {
    if IsOperator(e) && !IsParenthesis(e) then e.(priority := e.priority + 3 * depth) else e
  }

  function Prioritized(depth: int, es: seq<Element>): (r: seq<Element>)
    ensures |r| == |es|
    decreases |es|
  {
    if es == [] then []
    else [Lifted(DepthAfter(depth, es[0]), es[0])] + Prioritized(DepthAfter(depth, es[0]), es[1..])
  }

  /** The elements that are not parentheses, in order. */
  function Bare(es: seq<Element>): (r: seq<Element>)
    ensures |r| <= |es|
    ensures forall i :: 0 <= i < |r| ==> !IsParenthesis(r[i])
  {
    if es == [] then []
    else if IsParenthesis(es[0]) then Bare(es[1..])
    else [es[0]] + Bare(es[1..])
  }

  function Read(tokens: seq<Token>): (es: seq<Element>)
    ensures |es| == |tokens|
  {
    seq(|tokens|, i requires 0 <= i < |tokens| => ElementOf(tokens[i]))
  }

  // ----- all passes at once, from left to right

  function Process(before: Before, depth: int, tokens: seq<Token>): seq<Element>
    decreases |tokens|
  {
    if tokens == [] then []
    else
      var e := Reread(before, ElementOf(tokens[0]));
      var d := DepthAfter(depth, e);
      (if IsParenthesis(e) then [] else [Lifted(d, e)]) + Process(BeforeNext(e), d, tokens[1..])
  }

  /** The three passes, one after the other, give what the combined pass gives. */
  lemma {:induction false} PassesCombine(before: Before, depth: int, tokens: seq<Token>)
    ensures Bare(Prioritized(depth, Classified(before, Read(tokens)))) == Process(before, depth, tokens)
    decreases |tokens|
  {
    if tokens != [] {
      var e := Reread(before, ElementOf(tokens[0]));
      var d := DepthAfter(depth, e);
      assert Read(tokens)[1..] == Read(tokens[1..]);
      var classified := Classified(before, Read(tokens));
      assert classified[0] == e && classified[1..] == Classified(BeforeNext(e), Read(tokens[1..]));
      var prioritized := Prioritized(depth, classified);
      assert prioritized[0] == Lifted(d, e) && prioritized[1..] == Prioritized(d, classified[1..]);
      PassesCombine(BeforeNext(e), d, tokens[1..]);
    }
  }

  // ----- printed trees

  /** The left context in which a text printed for the given start is read as meant. */
  predicate Fits(before: Before, level: nat, start: bool) {
    if level >= 4 then true else if start then before == Opening else before != Other
  }

  lemma {:induction false} ProcessSingle(before: Before, depth: int, t: Token, rest: seq<Token>)
    ensures var e := Reread(before, ElementOf(t));
            var d := DepthAfter(depth, e);
            Process(before, depth, [t] + rest)
            == (if IsParenthesis(e) then [] else [Lifted(d, e)]) + Process(BeforeNext(e), d, rest)
  {
    assert ([t] + rest)[1..] == rest;
  }

  /** Reading a printed tree gives its elements, whatever follows. */
  lemma {:induction false} ProcessPrint(t: Tree, level: nat, start: bool, depth: nat, before: Before, rest: seq<Token>)
    requires Fits(before, level, start)
    ensures Process(before, depth, Print(t, level, start) + rest)
            == Elements(t, level, start, depth) + Process(Other, depth, rest)
    decreases t, 2
  {
    hide Process, PrintBare, ElementsBare;
    if NeedsParentheses(t, level, start) {
      var inner := PrintBare(t, true) + ([RParen] + rest);
      assert Print(t, level, start) + rest == [LParen] + inner;
      ProcessSingle(before, depth, LParen, inner);
      ProcessBare(t, true, depth + 1, Opening, [RParen] + rest);
      ProcessSingle(Other, depth + 1, RParen, rest);
    } else {
      ProcessBare(t, start, depth, before, rest);
    }
  }

  lemma {:induction false} ProcessBare(t: Tree, start: bool, depth: nat, before: Before, rest: seq<Token>)
    requires t.Lit? || t.Paren? || (if start then before == Opening else before != Other)
    requires t.Neg? ==> start
    ensures Process(before, depth, PrintBare(t, start) + rest)
            == ElementsBare(t, start, depth) + Process(Other, depth, rest)
    decreases t, 1
  {
    hide Process, Print, Elements, NeedsParentheses;
    match t
    case Lit(n) =>
      ProcessSingle(before, depth, Num(n), rest);
    case Neg(u) =>
      ProcessUnary(Minus, Element(2, 7, 3 + 3 * depth), u, depth, before, rest);
    case Deref(u) =>
      ProcessUnary(Star, Element(2, 8, 3 + 3 * depth), u, depth, before, rest);
    case Bin(op, l, r) =>
      ProcessBinary(op, l, r, start, depth, before, rest);
    case Paren(u) =>
      assert PrintBare(t, start) + rest == [LParen] + (Print(u, 1, true) + ([RParen] + rest));
      ProcessSingle(before, depth, LParen, Print(u, 1, true) + ([RParen] + rest));
      ProcessPrint(u, 1, true, depth + 1, Opening, [RParen] + rest);
      ProcessSingle(Other, depth + 1, RParen, rest);
  }

  lemma {:induction false} ProcessUnary(token: Token, e: Element, u: Tree, depth: nat, before: Before, rest: seq<Token>)
    requires !IsParenthesis(e) && BeforeNext(e) == Other
    requires var e0 := Reread(before, ElementOf(token));
             !IsParenthesis(e0) && BeforeNext(e0) == Other && DepthAfter(depth, e0) == depth && Lifted(depth, e0) == e
    ensures Process(before, depth, [token] + Print(u, 4, false) + rest) ==
            [e] + Elements(u, 4, false, depth) + Process(Other, depth, rest)
    decreases u, 3
  {
    hide Process, Print, Elements, NeedsParentheses;
    assert [token] + Print(u, 4, false) + rest == [token] + (Print(u, 4, false) + rest);
    ProcessSingle(before, depth, token, Print(u, 4, false) + rest);
    ProcessPrint(u, 4, false, depth, Other, rest);
    Associate([e], Elements(u, 4, false, depth), Process(Other, depth, rest));
  }

  lemma {:induction false} ProcessBinary(op: BinOp, l: Tree, r: Tree, start: bool, depth: nat, before: Before,
                                          rest: seq<Token>)
    requires if start then before == Opening else before != Other
    ensures Process(before, depth, PrintBare(Bin(op, l, r), start) + rest) ==
            ElementsBare(Bin(op, l, r), start, depth) + Process(Other, depth, rest)
    decreases Bin(op, l, r), 0
  {
    hide Process, Print, Elements, NeedsParentheses;
    var right := Print(r, LevelOf(op) + 1, false) + rest;
    var middle := Element(2, NumOf(op), LevelOf(op) + 3 * depth);
    assert PrintBare(Bin(op, l, r), start) + rest == Print(l, LevelOf(op), start) + ([TokenOf(op)] + right);
    ProcessPrint(l, LevelOf(op), start, depth, before, [TokenOf(op)] + right);
    ProcessSingle(Other, depth, TokenOf(op), right);
    OperatorRead(op, depth);
    ProcessPrint(r, LevelOf(op) + 1, false, depth, Binary, rest);
    var a, c := Elements(l, LevelOf(op), start, depth), Elements(r, LevelOf(op) + 1, false, depth);
    var z := Process(Other, depth, rest);
    assert a + ([middle] + (c + z)) == a + [middle] + c + z;
  }

  /** After an operand a binary operator is read as one. */
  lemma OperatorRead(op: BinOp, depth: int)
    ensures var e := Reread(Other, ElementOf(TokenOf(op)));
            && !IsParenthesis(e) && DepthAfter(depth, e) == depth && BeforeNext(e) == Binary
            && Lifted(depth, e) == Element(2, NumOf(op), LevelOf(op) + 3 * depth)
  {
  }

  lemma Associate(x: seq<Element>, y: seq<Element>, z: seq<Element>)
    ensures x + (y + z) == x + y + z
  {
  }

  /** The passes turn a printed tree into exactly its elements. */
  lemma PrintedTree(t: Tree)
    ensures Bare(Prioritized(0, Classified(Opening, Read(Print(t, 1, true))))) == Elements(t, 1, true, 0)
  {
    PassesCombine(Opening, 0, Print(t, 1, true));
    ProcessPrint(t, 1, true, 0, Opening, []);
    assert Print(t, 1, true) + [] == Print(t, 1, true);
    assert Process(Other, 0, []) == [];
  }
}
