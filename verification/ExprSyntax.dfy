/**
 Tokens, elements and expression trees of the debugger's evaluator, nemu/src/monitor/expr.c.
 */
module ExprSyntax {
  import opened Arithmetic

  /** Tokens after the lexer; a number, register or symbol is its 32-bit value. */
  datatype Token = Num(n: uint32) | Plus | Minus | Star | Slash | LParen | RParen

  /**
   An entry of the elements array.  kind 1 is an operand with value num; kind 2 an operator:
   1 +, 2 -, 3 *, 4 /, 5 (, 6 ), 7 negation, 8 dereference.
   */
  datatype Element = Element(kind: nat, num: nat, priority: int)

  predicate IsOperator(e: Element) {
    e.kind == 2
  }

  predicate IsOpening(e: Element) {
    e.kind == 2 && e.num == 5
  }

  predicate IsClosing(e: Element) {
    e.kind == 2 && e.num == 6
  }

  predicate IsParenthesis(e: Element) {
    IsOpening(e) || IsClosing(e)
  }

  predicate IsBinary(e: Element) {
    e.kind == 2 && 1 <= e.num <= 4
  }

  predicate IsUnary(e: Element) {
    e.kind == 2 && (e.num == 7 || e.num == 8)
  }

  /** The first reading of a token: '-' and '*' are taken as binary. */
  function ElementOf(t: Token): Element {
    match t
    case Num(n) => Element(1, n, 0)
    case Plus => Element(2, 1, 1)
    case Minus => Element(2, 2, 1)
    case Star => Element(2, 3, 2)
    case Slash => Element(2, 4, 2)
    case LParen => Element(2, 5, 0)
    case RParen => Element(2, 6, 0)
  }

  // ----- expression trees and how they are written

  datatype BinOp = Add | Sub | Mul | Div

  /** Paren is a pair of redundant parentheses. */
  datatype Tree =
    | Lit(n: uint32)
    | Neg(t: Tree)
    | Deref(t: Tree)
    | Bin(op: BinOp, l: Tree, r: Tree)
    | Paren(t: Tree)

  /** The usual meaning modulo 2^32, except that this evaluator adds for '/'. */
  function Apply(op: BinOp, x: uint32, y: uint32): uint32 {
    match op
    case Add => Wrap32(x + y)
    case Sub => Wrap32(x - y)
    case Mul => Wrap32(x * y)
    case Div => Wrap32(x + y)
  }

  /** The value of a tree; load is the memory read that a dereference does. */
  function Value(t: Tree, load: uint32 -> uint32): uint32 {
    match t
    case Lit(n) => n
    case Neg(u) => Wrap32(-(Value(u, load) as int))
    case Deref(u) => load(Value(u, load))
    case Bin(op, l, r) => Apply(op, Value(l, load), Value(r, load))
    case Paren(u) => Value(u, load)
  }

  function TokenOf(op: BinOp): Token {
    match op
    case Add => Plus
    case Sub => Minus
    case Mul => Star
    case Div => Slash
  }

  /** How tightly an operator binds: sums 1, products 2. */
  function LevelOf(op: BinOp): nat {
    if op == Add || op == Sub then 1 else 2
  }

  /** How tightly a tree binds: sums 1, products 2, unary operators 3, operands 4. */
  function Level(t: Tree): nat {
    match t
    case Lit(_) => 4
    case Neg(_) => 3
    case Deref(_) => 3
    case Bin(op, _, _) => LevelOf(op)
    case Paren(_) => 4
  }

  /** A tree is parenthesised where it binds too loosely, and a negation that is not at the start. */
  predicate NeedsParentheses(t: Tree, level: nat, start: bool) {
    Level(t) < level || (t.Neg? && !start)
  }

  /**
   t written where at least the given level is wanted; start says that the text begins the
   expression or follows an opening parenthesis.
   */
  function Print(t: Tree, level: nat, start: bool): seq<Token>
    decreases t, 1
  {
    if NeedsParentheses(t, level, start) then [LParen] + PrintBare(t, true) + [RParen] else PrintBare(t, start)
  }

  function PrintBare(t: Tree, start: bool): seq<Token>
    decreases t, 0
  {
    match t
    case Lit(n) => [Num(n)]
    case Neg(u) => [Minus] + Print(u, 4, false)
    case Deref(u) => [Star] + Print(u, 4, false)
    case Bin(op, l, r) => Print(l, LevelOf(op), start) + [TokenOf(op)] + Print(r, LevelOf(op) + 1, false)
    case Paren(u) => [LParen] + Print(u, 1, true) + [RParen]
  }

  // ----- the elements a printed tree has to become

  function NumOf(op: BinOp): nat {
    match op
    case Add => 1
    case Sub => 2
    case Mul => 3
    case Div => 4
  }

  /** The operators and operands of the printed tree, each operator lifted by 3 per depth. */
  function Elements(t: Tree, level: nat, start: bool, depth: nat): seq<Element>
    decreases t, 1
  {
    if NeedsParentheses(t, level, start) then ElementsBare(t, true, depth + 1) else ElementsBare(t, start, depth)
  }

  function ElementsBare(t: Tree, start: bool, depth: nat): seq<Element>
    decreases t, 0
  {
    match t
    case Lit(n) => [Element(1, n, 0)]
    case Neg(u) => [Element(2, 7, 3 + 3 * depth)] + Elements(u, 4, false, depth)
    case Deref(u) => [Element(2, 8, 3 + 3 * depth)] + Elements(u, 4, false, depth)
    case Bin(op, l, r) =>
      Elements(l, LevelOf(op), start, depth)
      + [Element(2, NumOf(op), LevelOf(op) + 3 * depth)]
      + Elements(r, LevelOf(op) + 1, false, depth)
    case Paren(u) => Elements(u, 1, true, depth + 1)
  }
}
